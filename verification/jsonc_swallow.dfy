/**
 Where the promises of a patch stop: a removed line break that ended a comment,
 and a ValueJSON that repeats the trivia around it.
 */
module JsoncSwallow {
  import opened Bytes
  import opened JsoncLex
  import opened Scalars
  import opened JsoncSyntax
  import opened JsoncEdit
  import opened JsoncTrivia
  import opened JsoncPreserve
  import opened JsoncSeams
  import opened JsoncMeaning
  import opened JsoncTheorems
  import opened JsoncRoundtrip
  import opened ConfigPatch
  import opened JsoncUndo

  const COMMENT := Piece(Comment, [SLASH, SLASH])
  const BREAK := Piece(Space, [LF])
  const ONE := Piece(Scalar, [0x31])

  // { //
  // "a": 1,
  // "b": 1
  // }
  function TwoMembers(a: bytes, b: bytes): File {
    File(false, Doc([], Box(Object,
      [Item([COMMENT, BREAK], NameFor(a, []), Leaf(ONE)),
       Item([CommaPiece(), BREAK], NameFor(b, []), Leaf(ONE))], [BREAK]), []))
  }

  // { //"b": 1
  // }
  function OneComment(b: bytes): File {
    File(false, Doc([], Box(Object, [], [Piece(Comment, Swallowed(b)), BREAK]), []))
  }

  function Swallowed(b: bytes): bytes { [SLASH, SLASH] + JsoncQuote(b) + [COLON, SP, 0x31] }

  lemma TwoMembersSound(a: bytes, b: bytes)
    requires a != b
    ensures Sound(TwoMembers(a, b))
  {
    var c := TwoMembers(a, b).doc.root;
    TwoMembersGrammar(a, b);
    TwoMembersLexical(a, b);
    assert FlatDoc(TwoMembers(a, b).doc) == Flat(c);
    TriviaExact([]);
  }

  lemma TwoMembersGrammar(a: bytes, b: bytes)
    requires a != b
    ensures WellFormed(TwoMembers(a, b).doc.root)
  {
    hide NameFor, KeyOf, IsName, AllTrivia, IsSeparator;
    var items := TwoMembers(a, b).doc.root.items;
    TriviaExact([]);
    TriviaExact([COMMENT, BREAK]);
    TriviaExact([BREAK]);
    SeparatorIs([], CommaPiece(), [BREAK]);
    assert [CommaPiece(), BREAK] == [] + [CommaPiece()] + [BREAK];
    NameForExact(a, [], items[0].lead, items[0].val);
    NameForExact(b, [], items[1].lead, items[1].val);
    forall k | 0 <= k < 2 ensures LeadOk(items, k) && NameOk(Object, items[k]) && WellFormed(items[k].val) {}
  }

  lemma FlatOne(it: Item)
    ensures FlatItems([it]) == it.lead + it.name + Flat(it.val)
  {
    FlatSplit([it]);
    assert [it][1..] == [];
  }

  lemma TwoMembersFlat(a: bytes, b: bytes)
    ensures Flat(TwoMembers(a, b).doc.root)
         == [Opener(Object), COMMENT, BREAK] + KeyPieces(a) + [ONE, CommaPiece(), BREAK] + KeyPieces(b)
            + [ONE, BREAK, Closer(Object)]
  {
    hide Quoted, FlatItems;
    var c := TwoMembers(a, b).doc.root;
    FlatBox(c);
    assert c.items == [c.items[0]] + [c.items[1]];
    FlatItemsConcat([c.items[0]], [c.items[1]]);
    FlatOne(c.items[0]);
    FlatOne(c.items[1]);
    assert NameFor(a, []) == KeyPieces(a) && NameFor(b, []) == KeyPieces(b);
  }

  lemma ThreePieces(p: Piece, q: Piece, r: Piece)
    requires ValidPiece(p) && ValidPiece(q) && ValidPiece(r) && Adjacent(p, q) && Adjacent(q, r)
    ensures Lexical([p, q, r])
  {
    hide ValidPiece, Adjacent;
    var ps := [p, q, r];
    forall k | 0 <= k < |ps| - 1 ensures Joined(ps, k) {}
  }

  lemma BreakSeam(ps: seq<Piece>, qs: seq<Piece>)
    requires Lexical(ps) && Lexical(qs) && ps != [] && qs != []
    requires ps[|ps| - 1] == BREAK || ps[|ps| - 1] == BlankPiece()
    ensures Lexical(ps + qs)
  {
    hide ValidPiece, Lexical;
    LastAndFirstValid(ps, qs);
    ConcatLexical(ps, qs);
  }

  lemma TwoMembersLexical(a: bytes, b: bytes)
    ensures Lexical(Flat(TwoMembers(a, b).doc.root))
  {
    hide Lexical, Flat, KeyPieces, Quoted;
    TwoMembersFlat(a, b);
    KeyPiecesLexical(a);
    KeyPiecesLexical(b);
    KeyPiecesEnds(a);
    KeyPiecesEnds(b);
    ThreePieces(Opener(Object), COMMENT, BREAK);
    ThreePieces(ONE, CommaPiece(), BREAK);
    ThreePieces(ONE, BREAK, Closer(Object));
    var x, y, z := [Opener(Object), COMMENT, BREAK], [ONE, CommaPiece(), BREAK], [ONE, BREAK, Closer(Object)];
    BreakSeam(x, KeyPieces(a));
    BreakSeam(x + KeyPieces(a), y);
    BreakSeam(x + KeyPieces(a) + y, KeyPieces(b));
    BreakSeam(x + KeyPieces(a) + y + KeyPieces(b), z);
  }

  // After the removal of the first member.
  function Remnant(b: bytes): Cst {
    Box(Object, [Item([COMMENT], NameFor(b, []), Leaf(ONE))], [BREAK])
  }

  lemma RemoveFirst(a: bytes, b: bytes, e: Edit)
    requires a != b && e.delete
    ensures WellFormed(TwoMembers(a, b).doc.root)
    ensures EditTree(TwoMembers(a, b).doc.root, e, [a]) == Ok(Remnant(b))
    ensures Present(TwoMembers(a, b).doc.root, [a])
    ensures EditValue(Meaning(TwoMembers(a, b).doc.root), e, [a]) == Ok(Obj([Member(b, Literal(Scalar, [0x31]))]))
  {
    hide NameFor, KeyOf, IsName, WellFormed;
    var c := TwoMembers(a, b).doc.root;
    TwoMembersGrammar(a, b);
    TriviaExact([]);
    NameForExact(a, [], c.items[0].lead, c.items[0].val);
    NameForExact(b, [], c.items[1].lead, c.items[1].val);
    assert FindKey(c.items, a) == Some(0);
    FirstRemoved(a, b);
    EditMeaning(c, e, [a]);
    NameForExact(b, [], [COMMENT], Leaf(ONE));
    assert Meaning(Remnant(b)).members == [Member(b, Literal(Scalar, [0x31]))];
  }

  lemma FirstRemoved(a: bytes, b: bytes)
    ensures IsSeparator(TwoMembers(a, b).doc.root.items[1].lead)
    ensures RemoveItem(TwoMembers(a, b).doc.root, 0) == Remnant(b)
  {
    hide NameFor;
    var c := TwoMembers(a, b).doc.root;
    var lead, next := c.items[0].lead, c.items[1].lead;
    SeparatorIs([], CommaPiece(), [BREAK]);
    assert [CommaPiece(), BREAK] == [] + [CommaPiece()] + [BREAK];
    assert OwnLine(lead) && BlankTail(lead) == 2;
    assert BeforeLine(lead) == [COMMENT];
    assert SkipTrivia(next, 0) == 0 && BlankEnd(next, 1) == 1 && Resume(next, true) == 2;
    assert [COMMENT] + next[2..] == [COMMENT];
  }

  lemma Texts(a: seq<Piece>, p: Piece)
    ensures Text(a + [p]) == Text(a) + p.text
  {
    TextConcat(a, [p]);
    assert [p][1..] == [];
  }

  // The text left over is that of an empty object with a longer comment.
  lemma SameText(b: bytes)
    ensures Text(Flat(Remnant(b))) == Text(Flat(OneComment(b).doc.root))
  {
    hide Text, Flat, Quoted, FlatItems;
    var r, o := Remnant(b), OneComment(b).doc.root;
    FlatBox(r);
    FlatBox(o);
    FlatOne(r.items[0]);
    assert FlatItems([]) == [] by { NoItems(); }
    assert Flat(r.items[0].val) == [ONE] by { LeafFlat(); }
    KeyPiecesText(b);
    assert NameFor(b, []) == KeyPieces(b);
    var head := [Opener(Object)];
    Texts(head, COMMENT);
    TextConcat(head + [COMMENT], KeyPieces(b));
    Texts(head + [COMMENT] + KeyPieces(b), ONE);
    Texts(head + [COMMENT] + KeyPieces(b) + [ONE], BREAK);
    Texts(head + [COMMENT] + KeyPieces(b) + [ONE] + [BREAK], Closer(Object));
    assert Flat(r) == head + [COMMENT] + KeyPieces(b) + [ONE] + [BREAK] + [Closer(Object)];
    var long := Piece(Comment, Swallowed(b));
    Texts(head, long);
    Texts(head + [long], BREAK);
    Texts(head + [long] + [BREAK], Closer(Object));
    assert Flat(o) == head + [long] + [BREAK] + [Closer(Object)];
  }

  lemma LeafFlat()
    ensures Flat(Leaf(ONE)) == [ONE]
  {
  }

  lemma OneCommentSound(b: bytes)
    ensures Sound(OneComment(b))
  {
    hide Quoted;
    var f := OneComment(b);
    var long := Piece(Comment, Swallowed(b));
    QuotedIsClean(b, false);
    var q := JsoncQuote(b);
    forall k | 2 <= k < |long.text| ensures !IsEol(long.text[k]) {
      if k < 2 + |q| {
        assert long.text[k] == q[k - 2] && q[k - 2] in q;
      } else {
        assert long.text[k] == [COLON, SP, 0x31][k - 2 - |q|];
      }
    }
    ThreePieces(Opener(Object), long, BREAK);
    var close := [Closer(Object)];
    assert Lexical(close);
    BreakSeam([Opener(Object), long, BREAK], close);
    assert FlatItems([]) == [];
    assert FlatDoc(f.doc) == [Opener(Object), long, BREAK] + close;
    TriviaExact([long, BREAK]);
    TriviaExact([]);
  }

  // Deleting the first of any two members takes the second one with it, when a
  // line comment ends in front of the first: the patch succeeds, and the file
  // means the empty object instead of the object with the second member.
  lemma DeleteLosesSibling(a: bytes, b: bytes)
    requires a != b
    ensures var src, e := Print(TwoMembers(a, b)), Edit([a], [], false, [], true);
            && Parse(src) == Some(TwoMembers(a, b))
            && EditValue(MeaningOf(src).value, e, [a]) == Ok(Obj([Member(b, Literal(Scalar, [0x31]))]))
            && Patched(src, e).Ok?
            && MeaningOf(Patched(src, e).value) == Some(Obj([]))
  {
    hide WellFormed, Lexical, Flat, Text, Parse, EditTree, EditValue, TwoMembers, Remnant, OneComment, Quoted;
    var f, o := TwoMembers(a, b), OneComment(b);
    var e := Edit([a], [], false, [], true);
    TwoMembersSound(a, b);
    ParseExact(Print(f), f);
    RemoveFirst(a, b, e);
    SameText(b);
    OneCommentSound(b);
    NoTrivia(a, b);
    PrintRoot(f, Remnant(b));
    PrintRoot(o, o.doc.root);
    assert WithRoot(o, o.doc.root) == o;
    ParseExact(Print(o), o);
    EmptyMeaning(b);
  }

  lemma NoTrivia(a: bytes, b: bytes)
    ensures var f, o := TwoMembers(a, b), OneComment(b);
            f.doc.pre == [] && f.doc.post == [] && !f.bom && o.doc.pre == [] && o.doc.post == [] && !o.bom
  {
  }

  lemma PrintRoot(f: File, c: Cst)
    requires f.doc.pre == [] && f.doc.post == [] && !f.bom
    ensures Print(WithRoot(f, c)) == Text(Flat(c))
  {
    hide Text, Flat;
    assert [] + Flat(c) + [] == Flat(c);
    assert [] + Text(Flat(c)) == Text(Flat(c));
  }

  lemma EmptyMeaning(b: bytes)
    ensures Meaning(OneComment(b).doc.root) == Obj([])
  {
  }

  // ----- trivia around a ValueJSON -----

  // Setting a value that is already there writes the trivia of the edit's text
  // around it once more.
  lemma {:induction false} SetAgainGrows(c: Cst, e: Edit, path: seq<bytes>)
    requires WellFormed(c) && !e.delete && path != [] && Bound(c, e, path)
    requires c.Box? && (Fragment(e).value.val.Box? ==> e.valueJson != [])
    ensures EditTree(c, e, path).Ok?
    ensures var g := Fragment(e).value;
            |Text(Flat(EditTree(c, e, path).value))| == |Text(Flat(c))| + |Text(g.pre)| + |Text(g.post)|
    decreases |path|
  {
    hide WellFormed, KeyOf, FindKey, Flat, Text, Fragment, SetItem, SetVal, BeforeVal, AfterItem;
    var g := Fragment(e).value;
    var i := FindKey(c.items, path[0]).value;
    ItemValueOk(c, i);
    FlatAt(c, i);
    var a, b := BeforeVal(c, i), AfterItem(c, i);
    var was := c.items[i].val;
    TextConcat(a + Flat(was), b);
    TextConcat(a, Flat(was));
    if |path| > 1 {
      SetAgainGrows(was, e, path[1..]);
      var v := EditTree(was, e, path[1..]).value;
      FlatSetVal(c, i, v);
      TextConcat(a + Flat(v), b);
      TextConcat(a, Flat(v));
    } else {
      assert path[1..] == [];
      assert Get(was, []) == Some(was);
      assert was == g.val;
      assert EditTree(c, e, path) == Ok(SetItem(c, i, g));
      FlatSetItem(c, i, g);
      TextConcat(a + FlatFrag(g), b);
      TextConcat(a, FlatFrag(g));
      TextConcat(g.pre + Flat(g.val), g.post);
      TextConcat(g.pre, Flat(g.val));
    }
  }

  // A second run of one set edit changes nothing exactly when its text carries
  // no blank or comment around the value.
  lemma RepatchExact(src: bytes, e: Edit)
    requires !e.delete && WritesClosed(e) && Patched(src, e).Ok?
    ensures var out := Patched(src, e).value;
            Patched(out, e) == Ok(out) <==> PlainSet(e)
  {
    hide WellFormed, Flat, Text, Lexical, Parse, Fragment, EditTree;
    var f, c := PatchedTree(src, e);
    var out := Patched(src, e).value;
    PatchedBinds(src, e);
    FragmentSet(f.doc.root, e, e.keyPath);
    KeyPathNotEmpty(f.doc.root, e);
    if PlainSet(e) {
      PatchedSame(out, e);
    } else {
      var g := Fragment(e).value;
      RootPrints(src, e);
      EditPrints(f.doc.root, e, e.keyPath);
      ScalarHasNoTrivia(e);
      SetAgainGrows(c, e, e.keyPath);
      PrintLength(WithRoot(f, c), EditTree(c, e, e.keyPath).value);
      ParseExact(out, WithRoot(f, c));
      FragmentOk(e);
      TriviaHasText(g);
    }
  }

  lemma KeyPathNotEmpty(c: Cst, e: Edit)
    requires WellFormed(c) && EditTree(c, e, e.keyPath).Ok?
    ensures e.keyPath != []
  {
    hide WellFormed, Fragment;
  }

  lemma ScalarHasNoTrivia(e: Edit)
    requires Fragment(e).Ok?
    ensures e.valueJson == [] ==> Fragment(e).value.val.Leaf?
  {
    hide Parse;
  }

  lemma TriviaHasText(g: Frag)
    requires FragOk(g) && (g.pre != [] || g.post != [])
    ensures |Text(g.pre)| + |Text(g.post)| > 0
  {
    hide Flat, WellFormed, ValidPiece;
    ConcatLexical(g.pre + Flat(g.val), g.post);
    ConcatLexical(g.pre, Flat(g.val));
    if g.pre != [] { FirstIsValid(g.pre); FirstByte(g.pre[0]); TextNotEmpty(g.pre); }
    if g.post != [] { FirstIsValid(g.post); FirstByte(g.post[0]); TextNotEmpty(g.post); }
  }
}
