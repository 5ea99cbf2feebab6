/**
 An edit may make a line comment run on. When all it takes up to the next line
 break is white space and comments, or the trailing comma of the object, the
 file still means what the edit asks for: the same bytes are the tree with one
 longer comment in it.
 */
module JsoncAbsorb {
  import opened Bytes
  import opened JsoncLex
  import opened Scalars
  import opened JsoncSyntax
  import opened JsoncEdit
  import opened JsoncTrivia
  import opened JsoncPreserve
  import opened JsoncSeams
  import opened JsoncMeaning
  import opened JsoncTheorems
  import opened JsoncSpans
  import opened JsoncPatch
  import opened JsoncSetExact

  // ----- one longer comment -----

  predicate StartsBreak(p: Piece) { p.text != [] && IsEol(p.text[0]) }

  predicate OneLine(p: Piece) { forall k :: 0 <= k < |p.text| ==> !IsEol(p.text[k]) }

  // How many pieces stand in front of the next one that starts with a line break.
  function BreakAt(ps: seq<Piece>): (m: nat)
    ensures m <= |ps| && (m < |ps| ==> StartsBreak(ps[m]))
  {
    if ps == [] || StartsBreak(ps[0]) then 0 else 1 + BreakAt(ps[1..])
  }

  function Longer(p: Piece, ps: seq<Piece>): Piece { Piece(Comment, p.text + Text(ps)) }

  lemma {:induction false} OneLineText(ps: seq<Piece>)
    requires forall k :: 0 <= k < |ps| ==> OneLine(ps[k])
    ensures forall k :: 0 <= k < |Text(ps)| ==> !IsEol(Text(ps)[k])
  {
    if ps != [] {
      assert OneLine(ps[0]);
      OneLineText(ps[1..]);
    }
  }

  lemma LongerValid(p: Piece, ps: seq<Piece>)
    requires ValidPiece(p) && IsLineComment(p) && forall k :: 0 <= k < |ps| ==> OneLine(ps[k])
    ensures ValidPiece(Longer(p, ps)) && IsLineComment(Longer(p, ps))
    ensures p.text != [] && Longer(p, ps).text != [] && Longer(p, ps).text[0] == p.text[0]
  {
    OneLineText(ps);
  }

  // The text of two parts, with the comment at the end of the first one running
  // on to a line break in the second, lexes to one longer comment between them.
  lemma Absorbed(a: seq<Piece>, p: Piece, b: seq<Piece>, m: nat)
    requires Lexical(a + [p]) && Lexical(b) && IsLineComment(p) && m < |b| && StartsBreak(b[m])
    requires forall k :: 0 <= k < m ==> OneLine(b[k])
    ensures var ps := a + [Longer(p, b[..m])] + b[m..];
            Lexical(ps) && Text(ps) == Text(a + [p] + b)
  {
    hide Lexical, Adjacent, ValidPiece, StartsBreak, OneLine, IsLineComment, Text, Longer;
    var l := Longer(p, b[..m]);
    assert b == b[..m] + b[m..];
    ConcatLexical(a, [p]);
    ConcatLexical(b[..m], b[m..]);
    assert ValidPiece(p) by { OnlyPiece(p); }
    LongerValid(p, b[..m]);
    SinglePiece(l);
    SameSeam(a, p, l);
    ConcatLexical(a, [l]);
    assert Seam(a + [l], b[m..]) by { EolSeam(l, b[m]); }
    ConcatLexical(a + [l], b[m..]);
    AbsorbedText(a, p, b, m);
  }

  lemma AbsorbedText(a: seq<Piece>, p: Piece, b: seq<Piece>, m: nat)
    requires m <= |b|
    ensures Text(a + [Longer(p, b[..m])] + b[m..]) == Text(a + [p] + b)
  {
    hide Text;
    var l := Longer(p, b[..m]);
    assert b == b[..m] + b[m..];
    TextConcat(a + [p], b);
    TextConcat(a, [p]);
    TextConcat(b[..m], b[m..]);
    TextConcat(a + [l], b[m..]);
    TextConcat(a, [l]);
    TextOne(p);
    TextOne(l);
  }

  lemma OnlyPiece(p: Piece)
    requires Lexical([p])
    ensures ValidPiece(p)
  {
    hide ValidPiece;
    assert ValidPiece([p][0]);
  }

  lemma SinglePiece(p: Piece)
    requires ValidPiece(p)
    ensures Lexical([p])
  {
    hide ValidPiece;
  }

  // What may stand in front of a comment may stand in front of a longer one.
  lemma SameSeam(a: seq<Piece>, p: Piece, l: Piece)
    requires Seam(a, [p]) && p.text != [] && l.text != [] && l.text[0] == p.text[0]
    ensures Seam(a, [l])
  {}

  lemma EolSeam(l: Piece, q: Piece)
    requires IsLineComment(l) && StartsBreak(q)
    ensures Adjacent(l, q)
  {}

  // ----- grammar -----

  // The last piece of front takes in what stands between front and back.
  lemma LongerTrivia(front: seq<Piece>, l: Piece, back: seq<Piece>)
    requires front != [] && AllTrivia(front) && l.kind.Comment? && AllTrivia(back)
    ensures AllTrivia(front[..|front| - 1] + [l] + back)
  {
    var ps := front[..|front| - 1] + [l] + back;
    TriviaExact(front);
    TriviaExact(back);
    forall n | 0 <= n < |ps| ensures IsTrivia(ps[n]) {
      if n >= |front| { assert ps[n] == back[n - |front|]; }
    }
    TriviaExact(ps);
  }

  lemma LongerSeparator(front: seq<Piece>, l: Piece, back: seq<Piece>)
    requires IsSeparator(front) && front[|front| - 1].kind.Comment? && l.kind.Comment? && AllTrivia(back)
    ensures IsSeparator(front[..|front| - 1] + [l] + back)
  {
    hide IsSeparator, AllTrivia;
    var c := SkipTrivia(front, 0);
    SeparatorParts(front);
    var post := front[c + 1..];
    assert post != [] by { LastOfSeparator(front, c); }
    LongerTrivia(post, l, back);
    SeparatorIs(front[..c], front[c], post[..|post| - 1] + [l] + back);
    assert front[..|front| - 1] + [l] + back == front[..c] + [front[c]] + (post[..|post| - 1] + [l] + back);
  }

  lemma LastOfSeparator(front: seq<Piece>, c: nat)
    requires c < |front| && front[c].kind.Comma? && front[|front| - 1].kind.Comment?
    ensures front[c + 1..] != []
  {
    assert front[c] != front[|front| - 1];
  }

  // ----- a delete -----

  // What the next lead, or the end of the object, goes on with.
  function Resumed(c: Cst, i: nat): seq<Piece>
    requires c.Box? && i < |c.items|
    requires i + 1 < |c.items| ==> IsSeparator(c.items[i + 1].lead)
  {
    if i + 1 < |c.items| then
      var next := c.items[i + 1].lead; next[Resume(next, OwnLine(c.items[i].lead))..]
    else c.tail
  }

  // The comment runs on, but up to the next line break it takes only white space
  // and comments of one line; behind the last member also the trailing comma,
  // which then must not stay.
  predicate DeleteHarmless(c: Cst, i: nat)
    requires c.Box? && i < |c.items|
    requires i + 1 < |c.items| ==> IsSeparator(c.items[i + 1].lead)
  {
    var b, room := RemovedAfter(c, i), Resumed(c, i);
    var m := BreakAt(b);
    && CommentRunsOn(c, i) && m < |b| && (forall k :: 0 <= k < m ==> OneLine(b[k]))
    && m <= |room| && AllTrivia(room[m..])
  }

  // The object without the member, and with the longer comment.
  function RemoveAbsorbed(c: Cst, i: nat): Cst
    requires c.Box? && i < |c.items| && Left(c, i) != []
    requires i + 1 < |c.items| ==> IsSeparator(c.items[i + 1].lead)
    requires BreakAt(RemovedAfter(c, i)) <= |Resumed(c, i)|
  {
    var left, room, m := Left(c, i), Resumed(c, i), BreakAt(RemovedAfter(c, i));
    var lead := left[..|left| - 1] + [Longer(left[|left| - 1], RemovedAfter(c, i)[..m])] + room[m..];
    if i + 1 < |c.items| then
      c.(items := c.items[..i] + [c.items[i + 1].(lead := lead)] + c.items[i + 2..])
    else c.(items := c.items[..i], tail := lead)
  }

  // The comment that runs on lies in what is left of the member's own lead.
  lemma LeftEnds(c: Cst, i: nat)
    requires WellFormed(c) && IsObject(c) && i < |c.items| && Lexical(Flat(c))
    requires i + 1 < |c.items| ==> IsSeparator(c.items[i + 1].lead)
    requires CommentRunsOn(c, i)
    ensures var left := Left(c, i);
            && OwnLine(c.items[i].lead) && left != [] && left == Kept(c.items[i].lead)
            && IsLineComment(left[|left| - 1])
            && if i == 0 then AllTrivia(left) else IsSeparator(left)
  {
    hide WellFormed, Lexical, Flat, BeforeItem, RemovedAfter, IsSeparator, AllTrivia, Kept, OwnLine;
    if !OwnLine(c.items[i].lead) { SameLineRemoval(c, i); }
    BeforeItemLast(c, i);
    ItemLeadOk(c, i);
    KeptGrammar(c.items[i].lead);
    var a, left := RemovedBefore(c, i), Left(c, i);
    assert a == BeforeItem(c, i) + left;
    assert BeforeItem(c, i) + [] == BeforeItem(c, i);
  }

  // The text behind the cut starts with what the lead or the tail goes on with.
  lemma AfterIsRoom(c: Cst, i: nat) returns (rest: seq<Piece>)
    requires c.Box? && i < |c.items|
    requires i + 1 < |c.items| ==> IsSeparator(c.items[i + 1].lead)
    ensures RemovedAfter(c, i) == Resumed(c, i) + rest
    ensures rest == if i + 1 < |c.items| then c.items[i + 1].name + Flat(c.items[i + 1].val) + AfterItem(c, i + 1)
                    else [Closer(c.kind)]
  {
    hide Flat, AfterItem, Resume, OwnLine, IsSeparator;
    if i + 1 < |c.items| {
      var next := c.items[i + 1];
      rest := next.name + Flat(next.val) + AfterItem(c, i + 1);
      assert RemovedAfter(c, i) == Resumed(c, i) + next.name + Flat(next.val) + AfterItem(c, i + 1);
    } else {
      rest := [Closer(c.kind)];
    }
  }

  lemma FlatAbsorbed(c: Cst, i: nat)
    requires c.Box? && i < |c.items| && Left(c, i) != []
    requires i + 1 < |c.items| ==> IsSeparator(c.items[i + 1].lead)
    requires BreakAt(RemovedAfter(c, i)) <= |Resumed(c, i)|
    ensures var left, b := Left(c, i), RemovedAfter(c, i);
            var m := BreakAt(b);
            Flat(RemoveAbsorbed(c, i))
            == BeforeItem(c, i) + left[..|left| - 1] + [Longer(left[|left| - 1], b[..m])] + b[m..]
  {
    hide Flat, FlatItems, Left, Resumed, RemovedAfter, IsSeparator, Longer, BreakAt;
    var d, left, room, b := RemoveAbsorbed(c, i), Left(c, i), Resumed(c, i), RemovedAfter(c, i);
    var m := BreakAt(b);
    var rest := AfterIsRoom(c, i);
    assert b[m..] == room[m..] + rest;
    var x, y := left[..|left| - 1], [Longer(left[|left| - 1], b[..m])];
    if i + 1 < |c.items| {
      assert d.items[..i] == c.items[..i] && d.items[i + 1..] == c.items[i + 2..];
      FlatAt(d, i);
      AbsorbedInner(c, d, i);
      AbsorbedGroups(BeforeItem(c, i), x, y, room[m..], c.items[i + 1].name, Flat(c.items[i + 1].val), AfterItem(c, i + 1));
    } else {
      FlatBeforeCloser(d);
      assert d.items[..|d.items|] == c.items[..i];
      Parts5(BeforeItem(c, i), x, y, room[m..], [Closer(c.kind)]);
    }
  }

  lemma AbsorbedGroups<T>(a: seq<T>, x: seq<T>, y: seq<T>, r: seq<T>, n: seq<T>, v: seq<T>, z: seq<T>)
    ensures a + (x + y + r) + n + v + z == a + x + y + (r + (n + v + z))
  {
    Assoc4(a, x, y, r);
    Assoc4(a + x + y + r, n, v, z);
    Assoc(a + x + y, r, n + v + z);
  }

  lemma AbsorbedInner(c: Cst, d: Cst, i: nat)
    requires c.Box? && d.Box? && c.kind == d.kind && c.tail == d.tail && i + 1 < |c.items| && i < |d.items|
    requires d.items[..i] == c.items[..i] && d.items[i + 1..] == c.items[i + 2..]
    ensures BeforeItem(d, i) == BeforeItem(c, i) && AfterItem(d, i) == AfterItem(c, i + 1)
  {}

  lemma AbsorbedGrammar(c: Cst, i: nat)
    requires WellFormed(c) && IsObject(c) && i < |c.items| && Lexical(Flat(c))
    requires i + 1 < |c.items| ==> IsSeparator(c.items[i + 1].lead)
    requires DeleteHarmless(c, i)
    ensures Left(c, i) != []
    ensures WellFormed(RemoveAbsorbed(c, i)) && IsObject(RemoveAbsorbed(c, i))
    ensures Meaning(RemoveAbsorbed(c, i)) == Meaning(RemoveItem(c, i))
  {
    hide Lexical, Flat, IsName, KeyOf, IsSeparator, AllTrivia, Left, Resumed, RemovedAfter, OwnLine, Kept, Resume;
    LeftEnds(c, i);
    var left, room, m := Left(c, i), Resumed(c, i), BreakAt(RemovedAfter(c, i));
    var l := Longer(left[|left| - 1], RemovedAfter(c, i)[..m]);
    if i == 0 { LongerTrivia(left, l, room[m..]); } else { LongerSeparator(left, l, room[m..]); }
    if i + 1 < |c.items| { InnerWell(c, i); } else { LastWell(c, i); }
  }

  lemma InnerWell(c: Cst, i: nat)
    requires WellFormed(c) && IsObject(c) && i + 1 < |c.items| && IsSeparator(c.items[i + 1].lead)
    requires Left(c, i) != [] && BreakAt(RemovedAfter(c, i)) <= |Resumed(c, i)|
    requires var d := RemoveAbsorbed(c, i); if i == 0 then AllTrivia(d.items[i].lead) else IsSeparator(d.items[i].lead)
    ensures WellFormed(RemoveAbsorbed(c, i)) && IsObject(RemoveAbsorbed(c, i))
    ensures Meaning(RemoveAbsorbed(c, i)) == Meaning(RemoveItem(c, i))
  {
    hide IsName, KeyOf, IsSeparator, AllTrivia, Left, Resumed, RemovedAfter, Kept, Resume, BreakAt, Longer, OwnLine;
    var d, x := RemoveItem(c, i), RemoveAbsorbed(c, i);
    RemoveInnerGrammar(c, i);
    forall k | 0 <= k < |x.items|
      ensures LeadOk(x.items, k) && NameOk(Object, x.items[k]) && WellFormed(x.items[k].val)
      ensures KeyOf(x.items[k]) == KeyOf(d.items[k]) && x.items[k].val == d.items[k].val
    {
      assert LeadOk(d.items, k) && NameOk(Object, d.items[k]) && x.items[k].name == d.items[k].name;
      NameNotEmpty(x.items[k].name);
      SameKey(x.items[k], d.items[k]);
    }
  }

  lemma LastWell(c: Cst, i: nat)
    requires WellFormed(c) && IsObject(c) && i + 1 == |c.items|
    requires Left(c, i) != [] && BreakAt(RemovedAfter(c, i)) <= |Resumed(c, i)|
    requires var d := RemoveAbsorbed(c, i); if i == 0 then AllTrivia(d.tail) else IsSeparator(d.tail)
    ensures WellFormed(RemoveAbsorbed(c, i)) && IsObject(RemoveAbsorbed(c, i))
    ensures Meaning(RemoveAbsorbed(c, i)) == Meaning(RemoveItem(c, i))
  {
    hide IsName, KeyOf, IsSeparator, AllTrivia, Left, Resumed, RemovedAfter, Kept, BreakAt, Longer, OwnLine;
    var x := RemoveAbsorbed(c, i);
    forall k | 0 <= k < |x.items|
      ensures LeadOk(x.items, k) && NameOk(Object, x.items[k]) && WellFormed(x.items[k].val)
    {
      assert LeadOk(c.items, k) && NameOk(Object, c.items[k]);
    }
    assert ItemsOk(Object, x.items);
    assert x.items == RemoveItem(c, i).items;
  }

  // The removed member's object: the bytes that the patch writes are those of
  // the object with the longer comment.
  lemma RemoveAbsorbs(c: Cst, i: nat)
    requires Prints(c) && IsObject(c) && i < |c.items|
    requires i + 1 < |c.items| ==> IsSeparator(c.items[i + 1].lead)
    requires DeleteHarmless(c, i)
    ensures Left(c, i) != [] && BreakAt(RemovedAfter(c, i)) <= |Resumed(c, i)|
    ensures IsObject(RemoveAbsorbed(c, i)) && Prints(RemoveAbsorbed(c, i))
    ensures Text(Flat(RemoveAbsorbed(c, i))) == Text(Flat(RemoveItem(c, i)))
    ensures Meaning(RemoveAbsorbed(c, i)) == Meaning(RemoveItem(c, i))
  {
    hide WellFormed, Lexical, Flat, Text, Meaning, BeforeItem, RemovedAfter, Removed, RemoveItem, RemoveAbsorbed, IsSeparator, OwnLine, Kept;
    AbsorbedGrammar(c, i);
    LeftEnds(c, i);
    FlatAbsorbed(c, i);
    FlatRemove(c, i);
    var left, b := Left(c, i), RemovedAfter(c, i);
    var a, p := BeforeItem(c, i) + left[..|left| - 1], left[|left| - 1];
    assert RemovedBefore(c, i) == a + [p];
    ConcatLexical(RemovedBefore(c, i) + Removed(c, i), b);
    ConcatLexical(RemovedBefore(c, i), Removed(c, i));
    Absorbed(a, p, b, BreakAt(b));
  }

  // ----- a set -----

  // The comment at the end of the written text runs on, but up to the next line
  // break it takes only white space and comments of one line in front of the
  // comma, or, behind the last value, any such text up to the closer.
  predicate SetHarmless(c: Cst, i: nat)
    requires c.Box? && i < |c.items|
  {
    var b := AfterItem(c, i);
    var m := BreakAt(b);
    && m < |b| && (forall k :: 0 <= k < m ==> OneLine(b[k]))
    && if i + 1 < |c.items| then m <= SkipTrivia(c.items[i + 1].lead, 0) else m <= |c.tail|
  }

  // The object with the value set, and with the longer comment.
  function SetAbsorbed(c: Cst, i: nat, g: Frag): Cst
    requires c.Box? && i < |c.items| && g.post != [] && SetHarmless(c, i)
  {
    var m := BreakAt(AfterItem(c, i));
    var post := g.post[..|g.post| - 1] + [Longer(g.post[|g.post| - 1], AfterItem(c, i)[..m])];
    if i + 1 < |c.items| then
      var next := c.items[i + 1];
      SetItem(c.(items := c.items[i + 1 := next.(lead := next.lead[m..])]), i, g.(post := post))
    else SetItem(c.(tail := c.tail[m..]), i, g.(post := post))
  }

  // The same object without the text that the comment takes.
  function Shortened(c: Cst, i: nat): Cst
    requires c.Box? && i < |c.items| && SetHarmless(c, i)
  {
    var m := BreakAt(AfterItem(c, i));
    if i + 1 < |c.items| then
      c.(items := c.items[i + 1 := c.items[i + 1].(lead := c.items[i + 1].lead[m..])])
    else c.(tail := c.tail[m..])
  }

  lemma ShortenedGrammar(c: Cst, i: nat)
    requires WellFormed(c) && IsObject(c) && i < |c.items| && SetHarmless(c, i)
    ensures WellFormed(Shortened(c, i)) && IsObject(Shortened(c, i)) && Meaning(Shortened(c, i)) == Meaning(c)
  {
    hide IsName, KeyOf, IsSeparator, AllTrivia, AfterItem, BreakAt, SkipTrivia;
    var d, m := Shortened(c, i), BreakAt(AfterItem(c, i));
    if i + 1 < |c.items| {
      LeadSeparates(c, i + 1);
      SeparatorFrom(c.items[i + 1].lead, m);
    } else {
      TailFrom(c.tail, m);
    }
    forall k | 0 <= k < |d.items|
      ensures LeadOk(d.items, k) && NameOk(Object, d.items[k]) && WellFormed(d.items[k].val)
      ensures KeyOf(d.items[k]) == KeyOf(c.items[k]) && d.items[k].val == c.items[k].val
    {
      assert LeadOk(c.items, k) && NameOk(Object, c.items[k]) && d.items[k].name == c.items[k].name;
      NameNotEmpty(c.items[k].name);
      SameKey(d.items[k], c.items[k]);
    }
  }

  lemma SeparatorFrom(ps: seq<Piece>, m: nat)
    requires IsSeparator(ps) && m <= SkipTrivia(ps, 0)
    ensures IsSeparator(ps[m..])
  {
    hide IsSeparator, AllTrivia;
    var c := SkipTrivia(ps, 0);
    SeparatorParts(ps);
    SliceTrivia(ps, m, c);
    SeparatorIs(ps[m..c], ps[c], ps[c + 1..]);
    assert ps[m..] == ps[m..c] + [ps[c]] + ps[c + 1..];
  }

  // What stays of a tail is again a tail, trailing comma or not.
  lemma TailFrom(ps: seq<Piece>, m: nat)
    requires m <= |ps| && (AllTrivia(ps) || IsSeparator(ps))
    ensures AllTrivia(ps[m..]) || (IsSeparator(ps) && IsSeparator(ps[m..]))
  {
    hide IsSeparator, AllTrivia;
    if AllTrivia(ps) {
      TriviaConcat(ps[..m], ps[m..]);
      assert ps == ps[..m] + ps[m..];
    } else {
      var c := SkipTrivia(ps, 0);
      SeparatorParts(ps);
      if m <= c {
        SeparatorFrom(ps, m);
      } else {
        TriviaConcat(ps[c + 1..m], ps[m..]);
        assert ps[c + 1..] == ps[c + 1..m] + ps[m..];
      }
    }
  }

  lemma ShortenedFlat(c: Cst, i: nat)
    requires WellFormed(c) && IsObject(c) && i < |c.items| && SetHarmless(c, i)
    ensures var d, m := Shortened(c, i), BreakAt(AfterItem(c, i));
            && BeforeVal(d, i) == BeforeVal(c, i) && AfterItem(d, i) == AfterItem(c, i)[m..]
            && d.items[i] == c.items[i]
  {
    hide Flat, FlatItems, WellFormed, BreakAt, SkipTrivia;
    var d, m := Shortened(c, i), BreakAt(AfterItem(c, i));
    assert d.items[..i] == c.items[..i];
    if i + 1 < |c.items| {
      LeadRoom(c, i + 1);
      var next, rest := c.items[i + 1], c.items[i + 2..];
      assert c.items[i + 1..] == [next] + rest && d.items[i + 1..] == [d.items[i + 1]] + rest;
      LeadShortened(next, d.items[i + 1], rest, m);
    } else {
      assert c.items[i + 1..] == [] && d.items[i + 1..] == [];
      NoItems();
      assert AfterItem(c, i) == c.tail + [Closer(c.kind)] && AfterItem(d, i) == c.tail[m..] + [Closer(c.kind)];
    }
  }

  lemma LeadShortened(next: Item, cut: Item, rest: seq<Item>, m: nat)
    requires m <= |next.lead| && cut == next.(lead := next.lead[m..])
    ensures |FlatItems([next] + rest)| >= m && FlatItems([cut] + rest) == FlatItems([next] + rest)[m..]
  {
    hide Flat;
    FlatSplit([next] + rest);
    FlatSplit([cut] + rest);
    assert ([next] + rest)[1..] == rest && ([cut] + rest)[1..] == rest;
    var x := next.name + Flat(next.val) + FlatItems(rest);
    assert FlatItems([next] + rest) == next.lead + x && FlatItems([cut] + rest) == next.lead[m..] + x;
  }

  lemma LeadRoom(c: Cst, i: nat)
    requires WellFormed(c) && c.Box? && 0 < i < |c.items|
    ensures SkipTrivia(c.items[i].lead, 0) < |c.items[i].lead|
  {
    LeadSeparates(c, i);
    SeparatorParts(c.items[i].lead);
  }

  lemma SetAbsorbs(c: Cst, i: nat, g: Frag)
    requires Prints(c) && IsObject(c) && i < |c.items| && SetHarmless(c, i) && FragOk(g) && !Closed(g)
    ensures g.post != []
    ensures var d := SetAbsorbed(c, i, g);
            && IsObject(d) && Prints(d) && Text(Flat(d)) == Text(Flat(SetItem(c, i, g)))
            && Meaning(d) == Meaning(SetItem(c, i, g))
  {
    hide WellFormed, Lexical, Flat, Text, Meaning, AllTrivia, AfterItem, BeforeVal, SetItem, Longer, SetHarmless, ValidPiece;
    var b := AfterItem(c, i);
    var m := BreakAt(b);
    var d := Shortened(c, i);
    var last := |g.post| - 1;
    var p, l := g.post[last], Longer(g.post[last], b[..m]);
    var h := g.(post := g.post[..last] + [l]);
    assert SetAbsorbed(c, i, g) == SetItem(d, i, h) by { AbsorbedIs(c, i, g); }
    assert m < |b| && forall k :: 0 <= k < m ==> OneLine(b[k]) by { HarmlessRoom(c, i); }
    ShortenedGrammar(c, i);
    ShortenedFlat(c, i);
    assert l.kind.Comment? by { LongerKind(p, b[..m]); }
    LongerPost(g, l);
    SetItemGrammar(d, i, h);
    SetItemMeaning(c, i, g);
    SetItemMeaning(d, i, h);
    FlatSetItem(c, i, g);
    FlatSetItem(d, i, h);
    var x := g.pre + Flat(g.val) + g.post[..last];
    assert FlatFrag(g) == x + [p] && FlatFrag(h) == x + [l];
    var a := BeforeVal(c, i) + x;
    assert BeforeVal(c, i) + FlatFrag(g) == a + [p];
    assert Lexical(a + [p]) && Lexical(b) by {
      BeforeLexical(c, i, g);
      assert BeforeVal(c, i) + FlatFrag(g) == a + [p];
    }
    Absorbed(a, p, b, m);
    assert BeforeVal(c, i) + FlatFrag(h) + b[m..] == a + [l] + b[m..];
    assert BeforeVal(c, i) + FlatFrag(g) + b == a + [p] + b;
  }

  lemma LongerKind(p: Piece, ps: seq<Piece>)
    ensures Longer(p, ps).kind.Comment?
  {}

  lemma AbsorbedIs(c: Cst, i: nat, g: Frag)
    requires c.Box? && i < |c.items| && g.post != [] && SetHarmless(c, i)
    ensures var b := AfterItem(c, i);
            var last := |g.post| - 1;
            SetAbsorbed(c, i, g)
            == SetItem(Shortened(c, i), i, g.(post := g.post[..last] + [Longer(g.post[last], b[..BreakAt(b)])]))
  {}

  lemma HarmlessRoom(c: Cst, i: nat)
    requires c.Box? && i < |c.items| && SetHarmless(c, i)
    ensures var b := AfterItem(c, i); BreakAt(b) < |b| && forall k :: 0 <= k < BreakAt(b) ==> OneLine(b[k])
  {}

  lemma LongerPost(g: Frag, l: Piece)
    requires FragOk(g) && !Closed(g) && l.kind.Comment?
    ensures AllTrivia(g.pre) && WellFormed(g.val) && AllTrivia(g.post[..|g.post| - 1] + [l])
  {
    hide WellFormed, Lexical, AllTrivia, Flat;
    TriviaExact([]);
    LongerTrivia(g.post, l, []);
    assert g.post[..|g.post| - 1] + [l] + [] == g.post[..|g.post| - 1] + [l];
  }

  // In front of what follows, the new value stays apart from the key.
  lemma BeforeLexical(c: Cst, i: nat, g: Frag)
    requires Prints(c) && IsObject(c) && i < |c.items| && FragOk(g) && !Closed(g)
    ensures Lexical(BeforeVal(c, i) + FlatFrag(g)) && Lexical(AfterItem(c, i))
  {
    hide Flat, WellFormed, AfterItem, BeforeVal, Closed, Lexical, ValidPiece, Adjacent;
    var a, o, b, x := BeforeVal(c, i), Flat(c.items[i].val), AfterItem(c, i), FlatFrag(g);
    FlatAt(c, i);
    BeforeValLast(c, i);
    ItemValueOk(c, i);
    FlatFirst(c.items[i].val);
    FragOpen(g);
    assert a + o + b == a + (o + b);
    NotOpen(a, o + b);
    ConcatLexical(a, o + b);
    ConcatLexical(o, b);
    LastAndFirstValid(a, x);
    SeamFits(a[|a| - 1], x[0]);
    ConcatLexical(a, x);
  }

  // ----- at the path -----

  // The tree with another object in place of the one that holds the key.
  function Retarget(c: Cst, path: seq<bytes>, x: Cst): Cst
    requires Present(c, path)
    decreases |path|
  {
    if |path| == 1 then x
    else
      var i := FindKey(c.items, path[0]).value;
      SetVal(c, i, Retarget(c.items[i].val, path[1..], x))
  }

  // Two objects with one text and one meaning make trees with one text and one meaning.
  lemma {:induction false} RetargetSame(c: Cst, path: seq<bytes>, x: Cst, y: Cst)
    requires Prints(c) && Present(c, path) && IsObject(x) && IsObject(y) && Prints(y)
    requires Text(Flat(x)) == Text(Flat(y)) && Meaning(x) == Meaning(y)
    ensures var v, w := Retarget(c, path, x), Retarget(c, path, y);
            && IsObject(v) && IsObject(w) && Prints(w) && Text(Flat(v)) == Text(Flat(w)) && Meaning(v) == Meaning(w)
    decreases |path|
  {
    hide WellFormed, Lexical, Flat, Text, Meaning, SetVal, FindKey, BeforeVal, AfterItem;
    if |path| > 1 {
      var i := FindKey(c.items, path[0]).value;
      var v, w := Retarget(c.items[i].val, path[1..], x), Retarget(c.items[i].val, path[1..], y);
      ItemPrints(c, i);
      RetargetSame(c.items[i].val, path[1..], x, y);
      SetValPrints(c, i, v);
      SetValPrints(c, i, w);
      SetValMeaning(c, i, v);
      SetValMeaning(c, i, w);
      FlatSetVal(c, i, v);
      FlatSetVal(c, i, w);
      ThreeTexts(BeforeVal(c, i), Flat(v), AfterItem(c, i));
      ThreeTexts(BeforeVal(c, i), Flat(w), AfterItem(c, i));
    }
  }

  lemma ThreeTexts(a: seq<Piece>, b: seq<Piece>, c: seq<Piece>)
    ensures Text(a + b + c) == Text(a) + Text(b) + Text(c)
  {
    TextConcat(a + b, c);
    TextConcat(a, b);
  }

  lemma {:induction false} EditTarget(c: Cst, e: Edit, path: seq<bytes>)
    requires WellFormed(c) && Present(c, path) && EditTree(c, e, path).Ok?
    ensures var (obj, i) := Target(c, path);
            && IsObject(obj) && i < |obj.items|
            && (e.delete ==> EditTree(c, e, path).value == Retarget(c, path, RemoveItem(obj, i)))
            && (!e.delete ==> Fragment(e).Ok?)
            && (!e.delete ==> EditTree(c, e, path).value == Retarget(c, path, SetItem(obj, i, Fragment(e).value)))
    decreases |path|
  {
    hide WellFormed, Fragment, RemoveItem, SetItem, KeyOf, FindKey, IsSeparator;
    var i := FindKey(c.items, path[0]).value;
    ItemValueOk(c, i);
    if |path| > 1 { EditTarget(c.items[i].val, e, path[1..]); }
  }

  lemma {:induction false} TargetPrints(c: Cst, path: seq<bytes>)
    requires Prints(c) && Present(c, path)
    ensures Prints(Target(c, path).0)
    decreases |path|
  {
    hide WellFormed, Lexical, Flat, FindKey;
    if |path| > 1 {
      var i := FindKey(c.items, path[0]).value;
      ItemPrints(c, i);
      TargetPrints(c.items[i].val, path[1..]);
    }
  }

  // ----- the whole file -----

  lemma SameFile(src: bytes, e: Edit, w: Cst)
    requires Parse(src).Some? && WellFormed(Parse(src).value.doc.root)
    requires EditTree(Parse(src).value.doc.root, e, e.keyPath).Ok?
    requires var v := EditTree(Parse(src).value.doc.root, e, e.keyPath).value;
             && IsObject(v) && IsObject(w) && Prints(w) && Text(Flat(v)) == Text(Flat(w)) && Meaning(v) == Meaning(w)
    ensures EditValue(MeaningOf(src).value, e, e.keyPath).Ok?
    ensures Patched(src, e).Ok? && MeaningOf(Patched(src, e).value) == Some(EditValue(MeaningOf(src).value, e, e.keyPath).value)
  {
    hide WellFormed, Lexical, Flat, Text, Parse, Fragment, EditTree, EditValue, Meaning, Print;
    var f := Parse(src).value;
    var v := EditTree(f.doc.root, e, e.keyPath).value;
    RootPrints(src, e);
    EditMeaning(f.doc.root, e, e.keyPath);
    RootSound(f, w);
    ParseExact(Print(WithRoot(f, w)), WithRoot(f, w));
    SamePrint(f, v, w);
  }

  lemma SamePrint(f: File, v: Cst, w: Cst)
    requires Text(Flat(v)) == Text(Flat(w))
    ensures Print(WithRoot(f, v)) == Print(WithRoot(f, w))
  {
    hide Flat, Text;
    ThreeTexts(f.doc.pre, Flat(v), f.doc.post);
    ThreeTexts(f.doc.pre, Flat(w), f.doc.post);
  }

  // A delete whose comment takes only such text succeeds, and means the input
  // without that one member.
  lemma DeleteStillMeans(src: bytes, e: Edit)
    requires e.delete && Parse(src).Some? && Present(Parse(src).value.doc.root, e.keyPath)
    requires WellFormed(Parse(src).value.doc.root)
    requires var (obj, i) := Target(Parse(src).value.doc.root, e.keyPath); DeleteHarmless(obj, i)
    ensures Patched(src, e).Ok? && EditValue(MeaningOf(src).value, e, e.keyPath).Ok?
    ensures MeaningOf(Patched(src, e).value) == Some(EditValue(MeaningOf(src).value, e, e.keyPath).value)
  {
    hide WellFormed, Lexical, Flat, Text, Parse, Fragment, EditTree, EditValue, Meaning, Print, Target, DeleteHarmless, Patched, RemoveAbsorbed, RemoveItem, Retarget, Present, Left;
    var f := Parse(src).value;
    var root, path := f.doc.root, e.keyPath;
    ParseExact(src, f);
    PresentObject(root, path);
    RootSound(f, root);
    DeletePrints(root, e, path);
    EditTarget(root, e, path);
    TargetPrints(root, path);
    var (obj, i) := Target(root, path);
    RemoveAbsorbs(obj, i);
    assert IsObject(RemoveItem(obj, i)) by { RemovePrints(obj, i); }
    RetargetSame(root, path, RemoveItem(obj, i), RemoveAbsorbed(obj, i));
    SameFile(src, e, Retarget(root, path, RemoveAbsorbed(obj, i)));
  }

  lemma PresentObject(c: Cst, path: seq<bytes>)
    requires Present(c, path)
    ensures IsObject(c)
  {}

  // The same for a set.
  lemma SetStillMeans(src: bytes, e: Edit)
    requires !e.delete && Parse(src).Some? && Present(Parse(src).value.doc.root, e.keyPath)
    requires WellFormed(Parse(src).value.doc.root) && !WritesClosed(e)
    requires EditTree(Parse(src).value.doc.root, e, e.keyPath).Ok?
    requires var (obj, i) := Target(Parse(src).value.doc.root, e.keyPath); SetHarmless(obj, i)
    ensures Patched(src, e).Ok? && EditValue(MeaningOf(src).value, e, e.keyPath).Ok?
    ensures MeaningOf(Patched(src, e).value) == Some(EditValue(MeaningOf(src).value, e, e.keyPath).value)
  {
    hide WellFormed, Lexical, Flat, Text, Parse, Fragment, EditTree, EditValue, Meaning, Print, Target, SetHarmless, Patched, SetAbsorbed, SetItem, Retarget, Present, Closed;
    var f := Parse(src).value;
    var root, path := f.doc.root, e.keyPath;
    ParseExact(src, f);
    PresentObject(root, path);
    RootSound(f, root);
    EditTarget(root, e, path);
    TargetPrints(root, path);
    FragmentOk(e);
    var (obj, i) := Target(root, path);
    var g := Fragment(e).value;
    SetAbsorbs(obj, i, g);
    assert IsObject(SetItem(obj, i, g)) by { SetKind(obj, i, g); }
    RetargetSame(root, path, SetItem(obj, i, g), SetAbsorbed(obj, i, g));
    SameFile(src, e, Retarget(root, path, SetAbsorbed(obj, i, g)));
  }

  lemma SetKind(c: Cst, i: nat, g: Frag)
    requires IsObject(c) && i < |c.items|
    ensures IsObject(SetItem(c, i, g))
  {}
}
