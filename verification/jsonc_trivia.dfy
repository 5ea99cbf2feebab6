/** How trivia, separators and names behave when they are cut or put together. */
module JsoncTrivia {
  import opened Bytes
  import opened JsoncLex
  import opened Scalars
  import opened JsoncSyntax
  import opened JsoncEdit

  lemma TriviaExact(ps: seq<Piece>)
    ensures AllTrivia(ps) <==> forall n :: 0 <= n < |ps| ==> IsTrivia(ps[n])
  {
    if forall n :: 0 <= n < |ps| ==> IsTrivia(ps[n]) { SkipTriviaIs(ps, 0, |ps|); }
  }

  lemma TriviaConcat(a: seq<Piece>, b: seq<Piece>)
    ensures AllTrivia(a + b) <==> AllTrivia(a) && AllTrivia(b)
  {
    TriviaExact(a);
    TriviaExact(b);
    TriviaExact(a + b);
    if AllTrivia(a + b) {
      assert forall n :: 0 <= n < |a| ==> a[n] == (a + b)[n];
      assert forall n :: 0 <= n < |b| ==> b[n] == (a + b)[|a| + n];
    }
  }

  // A separator is trivia, a comma and trivia, and falls apart in one way only.
  lemma SeparatorParts(ps: seq<Piece>)
    requires IsSeparator(ps)
    ensures var c := SkipTrivia(ps, 0);
            && ps == ps[..c] + [ps[c]] + ps[c + 1..]
            && AllTrivia(ps[..c]) && ps[c].kind.Comma? && AllTrivia(ps[c + 1..])
  {
    var c := SkipTrivia(ps, 0);
    SliceTrivia(ps, 0, c);
    SliceTrivia(ps, c + 1, |ps|);
  }

  lemma SeparatorIs(a: seq<Piece>, comma: Piece, b: seq<Piece>)
    requires AllTrivia(a) && comma.kind.Comma? && AllTrivia(b)
    ensures IsSeparator(a + [comma] + b) && SkipTrivia(a + [comma] + b, 0) == |a|
  {
    var ps := a + [comma] + b;
    TriviaExact(a);
    TriviaExact(b);
    assert forall n :: |a| < n < |ps| ==> ps[n] == b[n - |a| - 1];
    SkipTriviaIs(ps, 0, |a|);
    SkipTriviaIs(ps, |a| + 1, |ps|);
  }

  lemma SeparatorThenTrivia(a: seq<Piece>, b: seq<Piece>)
    requires IsSeparator(a) && AllTrivia(b)
    ensures IsSeparator(a + b)
  {
    var c := SkipTrivia(a, 0);
    SeparatorParts(a);
    TriviaConcat(a[c + 1..], b);
    SeparatorIs(a[..c], a[c], a[c + 1..] + b);
    assert a + b == a[..c] + [a[c]] + (a[c + 1..] + b);
  }

  lemma TriviaThenSeparator(a: seq<Piece>, b: seq<Piece>)
    requires AllTrivia(a) && IsSeparator(b)
    ensures IsSeparator(a + b)
  {
    hide AllTrivia;
    var c := SkipTrivia(b, 0);
    SeparatorParts(b);
    hide IsSeparator, SkipTrivia;
    TriviaConcat(a, b[..c]);
    SeparatorIs(a + b[..c], b[c], b[c + 1..]);
    Assoc4(a, b[..c], [b[c]], b[c + 1..]);
  }

  lemma OneComma(ps: seq<Piece>, m: nat, n: nat)
    requires m < n < |ps| && ps[m].kind.Comma? && ps[n].kind.Comma?
    ensures !IsSeparator(ps) && !AllTrivia(ps)
  {
  }

  lemma TwoSeparators(a: seq<Piece>, b: seq<Piece>)
    requires IsSeparator(a) && IsSeparator(b)
    ensures !AllTrivia(a + b) && !IsSeparator(a + b)
  {
    var m, n := SkipTrivia(a, 0), SkipTrivia(b, 0);
    assert (a + b)[m] == a[m] && (a + b)[|a| + n] == b[n];
    OneComma(a + b, m, |a| + n);
  }

  lemma SeparatorNotTrivia(ps: seq<Piece>)
    requires IsSeparator(ps)
    ensures !AllTrivia(ps) && ps != []
  {
  }

  lemma NameWith(name: seq<Piece>, pre: seq<Piece>)
    requires IsName(name) && AllTrivia(pre)
    ensures IsName(name + pre) && (name + pre)[0] == name[0]
  {
    hide Decode;
    TriviaExact(pre);
    var k := SkipSpaces(name, 1);
    var ps := name + pre;
    assert forall n :: 1 <= n <= k ==> ps[n] == name[n];
    assert SkipSpaces(ps, 1) == k;
    assert forall n :: |name| <= n < |ps| ==> ps[n] == pre[n - |name|];
    SkipTriviaIs(ps, k + 1, |ps|);
  }

  lemma NameForExact(key: bytes, pre: seq<Piece>, lead: seq<Piece>, val: Cst)
    requires AllTrivia(pre)
    ensures IsName(NameFor(key, pre)) && KeyOf(Item(lead, NameFor(key, pre), val)) == key
  {
    hide Decode, Quoted;
    var ps := NameFor(key, pre);
    DecodeQuoted(key, false);
    TriviaExact(pre);
    assert forall n :: 3 <= n < |ps| ==> ps[n] == pre[n - 3];
    SkipTriviaIs(ps, 2, |ps|);
  }

  // The last piece of a name is the colon or trivia.
  lemma NameLast(name: seq<Piece>)
    requires IsName(name)
    ensures name[|name| - 1].kind in {Colon, Space, Comment}
  {
    hide Decode;
  }
}
