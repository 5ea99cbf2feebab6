/** Files on which a patch is refused, or loses a member, for any keys. */
module JsoncWitness {
  import opened Bytes
  import opened JsoncLex
  import opened Scalars
  import opened JsoncSyntax
  import opened JsoncEdit
  import opened JsoncTrivia
  import opened JsoncPreserve
  import opened JsoncSeams
  import opened JsoncMeaning
  import opened JsoncTheorems
  import opened JsoncCommas
  import opened JsoncUndo
  import opened JsoncSwallow

  // ----- a sole member with a trailing comma -----

  // {"a": 1,}
  function SoleMember(a: bytes): File {
    File(false, Doc([], Box(Object, [Item([], NameFor(a, []), Leaf(ONE))], [CommaPiece()]), []))
  }

  lemma SoleSound(a: bytes)
    ensures Sound(SoleMember(a))
  {
    hide NameFor, KeyOf, IsName, AllTrivia, IsSeparator, Lexical, Quoted;
    var c := SoleMember(a).doc.root;
    TriviaExact([]);
    SeparatorIs([], CommaPiece(), []);
    assert [CommaPiece()] == [] + [CommaPiece()] + [];
    NameForExact(a, [], [], Leaf(ONE));
    assert forall k :: 0 <= k < 1 ==> LeadOk(c.items, k) && NameOk(Object, c.items[k]) && WellFormed(c.items[k].val);
    SoleLexical(a);
    assert FlatDoc(SoleMember(a).doc) == Flat(c);
  }

  lemma SoleLexical(a: bytes)
    ensures Lexical(Flat(SoleMember(a).doc.root))
  {
    hide Lexical, Flat, KeyPieces, Quoted, FlatItems;
    var c := SoleMember(a).doc.root;
    FlatBox(c);
    FlatOne(c.items[0]);
    LeafFlat();
    NoPre(a);
    KeyPiecesLexical(a);
    KeyPiecesEnds(a);
    BracketsLexical(Object);
    ThreePieces(ONE, CommaPiece(), Closer(Object));
    var open, tail := [Opener(Object)], [ONE, CommaPiece(), Closer(Object)];
    OpenSeam(open, KeyPieces(a));
    BreakSeam(open + KeyPieces(a), tail);
    assert Flat(c) == open + KeyPieces(a) + tail;
  }

  lemma NoPre(key: bytes)
    ensures NameFor(key, []) == KeyPieces(key)
  {
    hide Quoted;
  }

  // Nothing runs on from an opening brace.
  lemma OpenSeam(ps: seq<Piece>, qs: seq<Piece>)
    requires ps == [Opener(Object)] && Lexical(qs) && qs != []
    ensures Lexical(ps + qs)
  {
    hide ValidPiece, Lexical;
    BracketsLexical(Object);
    LastAndFirstValid(ps, qs);
    ConcatLexical(ps, qs);
  }

  // Deleting the sole member of an object with a trailing comma is refused.
  lemma SoleRefused(a: bytes)
    ensures var src, e := Print(SoleMember(a)), Edit([a], [], false, [], true);
            && Parse(src) == Some(SoleMember(a)) && Present(SoleMember(a).doc.root, [a])
            && Patched(src, e) == Err(InternalInconsistency)
  {
    hide NameFor, KeyOf, IsName, Lexical, Flat, Quoted, Patched;
    var f, e := SoleMember(a), Edit([a], [], false, [], true);
    var c := f.doc.root;
    SoleSound(a);
    ParseExact(Print(f), f);
    TriviaExact([]);
    NameForExact(a, [], [], Leaf(ONE));
    assert FindKey(c.items, a) == Some(0);
    assert Target(c, [a]) == (c, 0);
    SoleStray(a);
    DeleteRefused(Print(f), e);
  }

  lemma SoleStray(a: bytes)
    ensures var c := SoleMember(a).doc.root; !CommasFit(c, 0) && !CommentRunsOn(c, 0)
  {
    hide NameFor, Flat, FlatItems;
    var c := SoleMember(a).doc.root;
    NoItems();
    assert c.items[..0] == [];
    assert !OwnLine([]) && Kept([]) == [];
    assert RemovedBefore(c, 0) == [Opener(Object)];
  }

  // ----- a ValueJSON that ends in a comment -----

  // {"a": 1,"b": 1
  // }
  function OneLineMembers(a: bytes, b: bytes): File {
    File(false, Doc([], Box(Object,
      [Item([], NameFor(a, []), Leaf(ONE)), Item([CommaPiece()], NameFor(b, []), Leaf(ONE))], [BREAK]), []))
  }

  // 1//
  const COMMENTED: bytes := [0x31, SLASH, SLASH]

  // {"a": 1//,"b": 1
  // }
  function OneMember(a: bytes, b: bytes): File {
    File(false, Doc([], Box(Object, [Item([], NameFor(a, []), Leaf(ONE))], [Piece(Comment, Taken(b)), BREAK]), []))
  }

  function Taken(b: bytes): bytes { [SLASH, SLASH, COMMA] + JsoncQuote(b) + [COLON, SP, 0x31] }

  // The object as the edit writes it, piece by piece.
  function Written(a: bytes, b: bytes): Cst {
    Box(Object, [Item([], NameFor(a, []), Leaf(ONE)), Item([COMMENT, CommaPiece()], NameFor(b, []), Leaf(ONE))], [BREAK])
  }

  lemma MembersSound(a: bytes, b: bytes)
    requires a != b
    ensures Sound(OneLineMembers(a, b))
  {
    hide NameFor, KeyOf, IsName, AllTrivia, IsSeparator, Lexical, Quoted;
    var c := OneLineMembers(a, b).doc.root;
    TriviaExact([]);
    TriviaExact([BREAK]);
    SeparatorIs([], CommaPiece(), []);
    assert [CommaPiece()] == [] + [CommaPiece()] + [];
    NameForExact(a, [], [], Leaf(ONE));
    NameForExact(b, [], [CommaPiece()], Leaf(ONE));
    forall k | 0 <= k < 2 ensures LeadOk(c.items, k) && NameOk(Object, c.items[k]) && WellFormed(c.items[k].val) {}
    MembersLexical(a, b);
    assert FlatDoc(OneLineMembers(a, b).doc) == Flat(c);
  }

  lemma TwoFlat(c: Cst)
    requires c.Box? && |c.items| == 2
    ensures Flat(c) == [Opener(c.kind)] + (c.items[0].lead + c.items[0].name + Flat(c.items[0].val))
                    + (c.items[1].lead + c.items[1].name + Flat(c.items[1].val)) + c.tail + [Closer(c.kind)]
  {
    hide Flat, FlatItems;
    FlatBox(c);
    assert c.items == [c.items[0]] + [c.items[1]];
    FlatItemsConcat([c.items[0]], [c.items[1]]);
    FlatOne(c.items[0]);
    FlatOne(c.items[1]);
  }

  lemma MembersLexical(a: bytes, b: bytes)
    ensures Lexical(Flat(OneLineMembers(a, b).doc.root))
  {
    hide Lexical, Flat, KeyPieces, Quoted, FlatItems;
    var c := OneLineMembers(a, b).doc.root;
    TwoFlat(c);
    LeafFlat();
    NoPre(a);
    NoPre(b);
    KeyPiecesLexical(a);
    KeyPiecesLexical(b);
    KeyPiecesEnds(a);
    KeyPiecesEnds(b);
    var open, mid, end := [Opener(Object)], [ONE, CommaPiece()], [ONE, BREAK, Closer(Object)];
    ThreePieces(ONE, BREAK, Closer(Object));
    TwoPieces(ONE, CommaPiece());
    OpenSeam(open, KeyPieces(a));
    BreakSeam(open + KeyPieces(a), mid);
    CommaSeam(open + KeyPieces(a) + mid, KeyPieces(b));
    BreakSeam(open + KeyPieces(a) + mid + KeyPieces(b), end);
    EntryGroups(open, KeyPieces(a), [ONE], [CommaPiece()], KeyPieces(b), [BREAK], [Closer(Object)]);
    assert [ONE] + [CommaPiece()] == mid && [ONE] + ([BREAK] + [Closer(Object)]) == end;
  }

  lemma EntryGroups<T>(o: seq<T>, a: seq<T>, v: seq<T>, m: seq<T>, b: seq<T>, t: seq<T>, z: seq<T>)
    ensures o + ([] + a + v) + (m + b + v) + t + z == o + a + (v + m) + b + (v + (t + z))
  {
    assert [] + a == a;
    Assoc(o, a, v);
    Assoc4(o + a + v, m, b, v);
    Assoc(o + a, v, m);
    Assoc4(o + a + v + m + b, v, t, z);
    Assoc(o + a + v + m + b + v, t, z);
  }

  lemma TwoPieces(p: Piece, q: Piece)
    requires ValidPiece(p) && ValidPiece(q) && Adjacent(p, q)
    ensures Lexical([p, q])
  {
    hide ValidPiece, Adjacent;
    var ps := [p, q];
    forall k | 0 <= k < |ps| - 1 ensures Joined(ps, k) {}
  }

  lemma CommaSeam(ps: seq<Piece>, qs: seq<Piece>)
    requires Lexical(ps) && Lexical(qs) && ps != [] && qs != [] && ps[|ps| - 1] == CommaPiece()
    ensures Lexical(ps + qs)
  {
    hide ValidPiece, Lexical;
    LastAndFirstValid(ps, qs);
    ConcatLexical(ps, qs);
  }

  lemma CommentedValue()
    ensures Parse(COMMENTED) == Some(File(false, Doc([], Leaf(ONE), [COMMENT])))
  {
    var f := File(false, Doc([], Leaf(ONE), [COMMENT]));
    TriviaExact([]);
    TriviaExact([COMMENT]);
    TwoPieces(ONE, COMMENT);
    assert FlatDoc(f.doc) == [ONE, COMMENT] && [ONE, COMMENT][1..] == [COMMENT] && [COMMENT][1..] == [];
    assert Text([COMMENT]) == [SLASH, SLASH] + Text([]) == [SLASH, SLASH];
    assert Text([ONE, COMMENT]) == ONE.text + [SLASH, SLASH] == COMMENTED;
    ParseExact(COMMENTED, f);
  }

  lemma WrittenTree(a: bytes, b: bytes, e: Edit)
    requires a != b && e == Edit([a], [], false, COMMENTED, false)
    ensures WellFormed(OneLineMembers(a, b).doc.root)
    ensures EditTree(OneLineMembers(a, b).doc.root, e, [a]) == Ok(Written(a, b))
    ensures EditValue(Meaning(OneLineMembers(a, b).doc.root), e, [a])
         == Ok(Obj([Member(a, Literal(Scalar, [0x31])), Member(b, Literal(Scalar, [0x31]))]))
  {
    hide NameFor, KeyOf, IsName, WellFormed, Parse, Lexical;
    var c := OneLineMembers(a, b).doc.root;
    MembersSound(a, b);
    assert WellFormed(c) by { RootOk(a, b); }
    TriviaExact([]);
    NameForExact(a, [], [], Leaf(ONE));
    NameForExact(b, [], [CommaPiece()], Leaf(ONE));
    NameForExact(b, [], [COMMENT, CommaPiece()], Leaf(ONE));
    CommentedValue();
    assert FindKey(c.items, a) == Some(0);
    assert c.items[0].name + [] == c.items[0].name;
    assert [COMMENT] + c.items[1].lead == [COMMENT, CommaPiece()];
    assert SetItem(c, 0, Frag([], Leaf(ONE), [COMMENT])) == Written(a, b);
    EditMeaning(c, e, [a]);
    assert Meaning(Written(a, b)).members == [Member(a, Literal(Scalar, [0x31])), Member(b, Literal(Scalar, [0x31]))];
  }

  lemma RootOk(a: bytes, b: bytes)
    requires Sound(OneLineMembers(a, b))
    ensures WellFormed(OneLineMembers(a, b).doc.root)
  {
    hide WellFormed, Lexical;
  }

  // The text written is that of an object with one member and a longer comment.
  lemma TakenText(a: bytes, b: bytes)
    ensures Text(Flat(Written(a, b))) == Text(Flat(OneMember(a, b).doc.root))
  {
    hide Text, Flat, Quoted, FlatItems;
    var w, o := Written(a, b), OneMember(a, b).doc.root;
    var long := Piece(Comment, Taken(b));
    TwoFlat(w);
    FlatBox(o);
    FlatOne(o.items[0]);
    LeafFlat();
    NoPre(a);
    NoPre(b);
    KeyPiecesText(b);
    var head := [Opener(Object)] + KeyPieces(a) + [ONE];
    Texts(head, COMMENT);
    Texts(head + [COMMENT], CommaPiece());
    TextConcat(head + [COMMENT] + [CommaPiece()], KeyPieces(b));
    Texts(head + [COMMENT] + [CommaPiece()] + KeyPieces(b), ONE);
    Texts(head + [COMMENT] + [CommaPiece()] + KeyPieces(b) + [ONE], BREAK);
    Texts(head + [COMMENT] + [CommaPiece()] + KeyPieces(b) + [ONE] + [BREAK], Closer(Object));
    assert Flat(w) == head + [COMMENT] + [CommaPiece()] + KeyPieces(b) + [ONE] + [BREAK] + [Closer(Object)];
    Texts(head, long);
    Texts(head + [long], BREAK);
    Texts(head + [long] + [BREAK], Closer(Object));
    assert Flat(o) == head + [long] + [BREAK] + [Closer(Object)];
  }

  lemma OneMemberSound(a: bytes, b: bytes)
    ensures Sound(OneMember(a, b))
  {
    hide NameFor, KeyOf, IsName, AllTrivia, IsSeparator, Lexical, Quoted;
    var c := OneMember(a, b).doc.root;
    TriviaExact([]);
    TriviaExact([Piece(Comment, Taken(b)), BREAK]);
    NameForExact(a, [], [], Leaf(ONE));
    assert forall k :: 0 <= k < 1 ==> LeadOk(c.items, k) && NameOk(Object, c.items[k]) && WellFormed(c.items[k].val);
    OneMemberLexical(a, b);
    assert FlatDoc(OneMember(a, b).doc) == Flat(c);
  }

  lemma TakenValid(b: bytes)
    ensures ValidPiece(Piece(Comment, Taken(b)))
  {
    hide Quoted;
    QuotedIsClean(b, false);
    var q, t := JsoncQuote(b), Taken(b);
    forall k | 2 <= k < |t| ensures !IsEol(t[k]) {
      if 3 <= k < 3 + |q| {
        assert t[k] == q[k - 3] && q[k - 3] in q;
      } else if k >= 3 + |q| {
        assert t[k] == [COLON, SP, 0x31][k - 3 - |q|];
      }
    }
  }

  lemma OneMemberLexical(a: bytes, b: bytes)
    ensures Lexical(Flat(OneMember(a, b).doc.root))
  {
    hide Lexical, Flat, KeyPieces, Quoted, FlatItems, Taken;
    var c := OneMember(a, b).doc.root;
    var long := Piece(Comment, Taken(b));
    FlatBox(c);
    FlatOne(c.items[0]);
    LeafFlat();
    NoPre(a);
    KeyPiecesLexical(a);
    KeyPiecesEnds(a);
    TakenValid(b);
    assert Adjacent(ONE, long) && Adjacent(long, BREAK) by { TakenSeams(b); }
    ThreePieces(ONE, long, BREAK);
    BracketsLexical(Object);
    OpenSeam([Opener(Object)], KeyPieces(a));
    BreakSeam([Opener(Object)] + KeyPieces(a), [ONE, long, BREAK]);
    BreakSeam([Opener(Object)] + KeyPieces(a) + [ONE, long, BREAK], [Closer(Object)]);
    assert Flat(c) == [Opener(Object)] + KeyPieces(a) + [ONE, long, BREAK] + [Closer(Object)];
  }

  lemma TakenSeams(b: bytes)
    ensures Adjacent(ONE, Piece(Comment, Taken(b))) && Adjacent(Piece(Comment, Taken(b)), BREAK)
  {
    hide Quoted;
  }

  // Setting the first of any two members to a text that ends in a line comment
  // takes the second one with it: the patch succeeds, and the file means the
  // object with the first member only.
  lemma SetLosesSibling(a: bytes, b: bytes)
    requires a != b
    ensures var src, e := Print(OneLineMembers(a, b)), Edit([a], [], false, COMMENTED, false);
            && Parse(src) == Some(OneLineMembers(a, b))
            && EditValue(MeaningOf(src).value, e, [a])
               == Ok(Obj([Member(a, Literal(Scalar, [0x31])), Member(b, Literal(Scalar, [0x31]))]))
            && Patched(src, e).Ok?
            && MeaningOf(Patched(src, e).value) == Some(Obj([Member(a, Literal(Scalar, [0x31]))]))
  {
    hide WellFormed, Lexical, Flat, Text, Parse, EditTree, EditValue, OneLineMembers, Written, OneMember, Quoted, Meaning;
    var f, o := OneLineMembers(a, b), OneMember(a, b);
    var e := Edit([a], [], false, COMMENTED, false);
    MembersSound(a, b);
    ParseExact(Print(f), f);
    WrittenTree(a, b, e);
    OneMemberSound(a, b);
    TakenText(a, b);
    SamePrints(a, b);
    ParseExact(Print(o), o);
    OneMeaning(a, b);
  }

  lemma SamePrints(a: bytes, b: bytes)
    requires Text(Flat(Written(a, b))) == Text(Flat(OneMember(a, b).doc.root))
    ensures Print(WithRoot(OneLineMembers(a, b), Written(a, b))) == Print(OneMember(a, b))
  {
    hide Flat, Text;
    var w, r := Flat(Written(a, b)), Flat(OneMember(a, b).doc.root);
    assert [] + w + [] == w && [] + r + [] == r;
  }

  lemma OneMeaning(a: bytes, b: bytes)
    ensures Meaning(OneMember(a, b).doc.root) == Obj([Member(a, Literal(Scalar, [0x31]))])
  {
    hide NameFor, KeyOf, Taken;
    TriviaExact([]);
    NameForExact(a, [], [], Leaf(ONE));
    var c := OneMember(a, b).doc.root;
    assert Meaning(c).members == [Member(a, Literal(Scalar, [0x31]))];
  }
}
