/**
 A ValueJSON may end in a line comment. Exactly when the text behind it does
 not become part of that comment.
 */
module JsoncSetExact {
  import opened Bytes
  import opened JsoncLex
  import opened Scalars
  import opened JsoncSyntax
  import opened JsoncEdit
  import opened JsoncTrivia
  import opened JsoncPreserve
  import opened JsoncSeams
  import opened JsoncMeaning
  import opened JsoncTheorems

  // A line break stands directly behind the value of item i.
  predicate BreakBehind(c: Cst, i: nat)
    requires c.Box? && i < |c.items|
  {
    var b := AfterItem(c, i);
    b != [] && b[0].text != [] && IsEol(b[0].text[0])
  }

  // What a caller can check before a set: the text it writes ends in no line
  // comment, or the value it replaces has a line break directly behind it.
  ghost predicate SetSafe(c: Cst, e: Edit, path: seq<bytes>)
    requires WellFormed(c)
  {
    WritesClosed(e) || (Present(c, path) && var (obj, i) := Target(c, path); BreakBehind(obj, i))
  }

  lemma FragOpen(g: Frag)
    requires WellFormed(g.val) && !Closed(g)
    ensures FlatFrag(g) != [] && IsLineComment(FlatFrag(g)[|FlatFrag(g)| - 1])
  {}

  lemma SetItemExact(c: Cst, i: nat, g: Frag)
    requires WellFormed(c) && IsObject(c) && i < |c.items| && Lexical(Flat(c)) && FragOk(g)
    ensures Lexical(Flat(SetItem(c, i, g))) <==> Closed(g) || BreakBehind(c, i)
  {
    hide Flat, WellFormed, AfterItem, BeforeVal, Closed, Lexical, ValidPiece, Adjacent;
    if Closed(g) {
      SetItemLexical(c, i, g);
    } else {
      var a, o, b, x := BeforeVal(c, i), Flat(c.items[i].val), AfterItem(c, i), FlatFrag(g);
      FlatAt(c, i);
      FlatSetItem(c, i, g);
      BeforeValLast(c, i);
      AfterItemFirst(c, i);
      ItemValueOk(c, i);
      FlatFirst(c.items[i].val);
      FragOpen(g);
      OpenSeam(a, o, b, x);
    }
  }

  // A text that ends in a line comment, between pieces that held another value.
  lemma OpenSeam(a: seq<Piece>, o: seq<Piece>, b: seq<Piece>, x: seq<Piece>)
    requires Lexical(a + o + b) && a != [] && o != [] && b != [] && !o[0].kind.Space?
    requires !a[|a| - 1].kind.Scalar? && !b[0].kind.Scalar?
    requires Lexical(x) && x != [] && IsLineComment(x[|x| - 1])
    ensures Lexical(a + x + b) <==> b[0].text != [] && IsEol(b[0].text[0])
  {
    hide ValidPiece, Adjacent, Lexical;
    assert a + o + b == a + (o + b);
    NotOpen(a, o + b);
    ConcatLexical(a, o + b);
    ConcatLexical(o, b);
    LastAndFirstValid(a, x);
    LastAndFirstValid(x, b);
    SeamFits(a[|a| - 1], x[0]);
    SeamFits(x[|x| - 1], b[0]);
    FirstByte(b[0]);
    ConcatLexical(a, x);
    assert (a + x)[|a + x| - 1] == x[|x| - 1];
    ConcatLexical(a + x, b);
  }

  // A closer never stands directly behind a line comment.
  lemma CloserBehind(x: seq<Piece>, kind: BoxKind)
    requires x != [] && IsLineComment(x[|x| - 1])
    ensures !Lexical(x + [Closer(kind)])
  {
    hide Lexical;
    if Lexical(x + [Closer(kind)]) { NotOpen(x, [Closer(kind)]); }
  }

  lemma {:induction false} NestExact(keys: seq<bytes>, g: Frag)
    requires FragOk(g) && !Closed(g) && keys != []
    ensures !Lexical(FlatFrag(Nest(keys, g)))
  {
    hide Lexical, Flat, Quoted, WellFormed, Closed, Nest;
    FlatNest(keys, g);
    var inner := FlatFrag(Nest(keys[1..], g));
    var head := [Opener(Object)] + KeyPieces(keys[0]);
    NestSame(keys, g);
    assert [Opener(Object)] + Keyed([], keys[0], Nest(keys[1..], g)) == head + inner;
    if |keys| == 1 {
      FragOpen(g);
      CloserBehind(head + inner, Object);
    } else {
      NestExact(keys[1..], g);
      ConcatLexical(head + inner, [Closer(Object)]);
      ConcatLexical(head, inner);
    }
  }

  lemma NestSame(keys: seq<bytes>, g: Frag)
    requires keys != []
    ensures |keys| == 1 ==> Nest(keys[1..], g) == g
  {}

  lemma AppendExact(c: Cst, key: bytes, keys: seq<bytes>, g: Frag)
    requires WellFormed(c) && c.Box? && Lexical(Flat(c)) && FragOk(g) && !Closed(g)
    ensures !Lexical(Flat(AppendItem(c, key, Nest(keys, g))))
  {
    hide Lexical, Flat, Quoted, WellFormed, Closed, Nest, AppendItem, BeforeCloser;
    var h := Nest(keys, g);
    FlatAppend(c, key, h);
    EntryKeyed(c, key, h);
    var front := BeforeCloser(c) + AppendLead(c)[|c.tail|..] + KeyPieces(key);
    assert BeforeCloser(c) + Entry(c, key, h) == front + FlatFrag(h);
    if keys == [] {
      assert h == g by { NoKeys(keys, g); }
      FragOpen(g);
      CloserBehind(front + FlatFrag(h), c.kind);
    } else {
      NestExact(keys, g);
      ConcatLexical(front + FlatFrag(h), [Closer(c.kind)]);
      ConcatLexical(front, FlatFrag(h));
    }
  }

  lemma AppendKind(c: Cst, key: bytes, g: Frag)
    requires IsObject(c)
    ensures IsObject(AppendItem(c, key, g))
  {}

  lemma NoKeys(keys: seq<bytes>, g: Frag)
    requires keys == []
    ensures Nest(keys, g) == g
  {}

  lemma {:induction false} EditPrintsExact(c: Cst, e: Edit, path: seq<bytes>)
    requires Prints(c) && EditTree(c, e, path).Ok? && !(e.delete && Present(c, path))
    ensures IsObject(EditTree(c, e, path).value)
    ensures Prints(EditTree(c, e, path).value) <==> SetSafe(c, e, path)
    decreases |path|
  {
    hide WellFormed, Lexical, Flat, Fragment, Closed, RemoveItem, SetItem, AppendItem, KeyOf, BreakBehind, Nest;
    match FindKey(c.items, path[0])
    case None =>
      var g := Fragment(e).value;
      FragmentOk(e);
      if WritesClosed(e) {
        EditPrints(c, e, path);
      } else {
        AppendExact(c, path[0], path[1..], g);
        AppendKind(c, path[0], Nest(path[1..], g));
      }
    case Some(i) =>
      ItemPrints(c, i);
      if |path| > 1 {
        EditPrintsExact(c.items[i].val, e, path[1..]);
        SetValPrints(c, i, EditTree(c.items[i].val, e, path[1..]).value);
      } else {
        var g := Fragment(e).value;
        FragmentOk(e);
        SetItemGrammar(c, i, g);
        SetItemExact(c, i, g);
        assert Present(c, path) && Target(c, path) == (c, i);
        assert WritesClosed(e) <==> Closed(g);
      }
  }

  // Set: the output parses to the input tree with the value in place, every
  // other piece of text kept, exactly when the set is safe.
  lemma SetTreeExact(src: bytes, e: Edit)
    requires Parse(src).Some? && !(e.delete && Present(Parse(src).value.doc.root, e.keyPath))
    requires WellFormed(Parse(src).value.doc.root) && EditTree(Parse(src).value.doc.root, e, e.keyPath).Ok?
    ensures var f := Parse(src).value;
            var g := WithRoot(f, EditTree(f.doc.root, e, e.keyPath).value);
            Parse(Print(g)) == Some(g) <==> SetSafe(f.doc.root, e, e.keyPath)
  {
    hide WellFormed, Lexical, Flat, Parse, Fragment, EditTree, Print, SetSafe, Present;
    var f := Parse(src).value;
    RootPrints(src, e);
    EditPrintsExact(f.doc.root, e, e.keyPath);
    var g := WithRoot(f, EditTree(f.doc.root, e, e.keyPath).value);
    RootSound(f, g.doc.root);
    ParseExact(Print(g), g);
  }

  // So every safe set succeeds, and means the input with the value bound at the key path.
  lemma SafeSetMeans(src: bytes, e: Edit)
    requires Parse(src).Some? && !(e.delete && Present(Parse(src).value.doc.root, e.keyPath))
    requires WellFormed(Parse(src).value.doc.root)
    requires SetSafe(Parse(src).value.doc.root, e, e.keyPath)
    ensures match EditValue(MeaningOf(src).value, e, e.keyPath)
            case Err(x) => Patched(src, e) == Err(x)
            case Ok(w) => Patched(src, e).Ok? && MeaningOf(Patched(src, e).value) == Some(w)
  {
    hide WellFormed, Lexical, Flat, Parse, Fragment, EditTree, EditValue, Meaning, Print, SetSafe, Present;
    var f := Parse(src).value;
    EditMeaning(f.doc.root, e, e.keyPath);
    if EditTree(f.doc.root, e, e.keyPath).Ok? { SetTreeExact(src, e); }
  }
}
