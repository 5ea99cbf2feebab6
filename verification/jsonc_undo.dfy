/** A create and then a delete of the same key. */
module JsoncUndo {
  import opened Bytes
  import opened JsoncLex
  import opened Scalars
  import opened JsoncSyntax
  import opened JsoncEdit
  import opened JsoncTrivia
  import opened JsoncPreserve
  import opened JsoncSeams
  import opened JsoncMeaning
  import opened JsoncTheorems
  import opened JsoncRoundtrip
  import opened ConfigPatch

  // All ancestors are there, the key itself is not.
  predicate Absent(c: Cst, path: seq<bytes>)
    decreases |path|
  {
    && path != [] && IsObject(c)
    && match FindKey(c.items, path[0])
       case None => |path| == 1
       case Some(i) => |path| > 1 && Absent(c.items[i].val, path[1..])
  }

  // The object a create appends to.
  function Parent(c: Cst, path: seq<bytes>): (r: Cst)
    requires Absent(c, path)
    ensures IsObject(r)
    decreases |path|
  {
    if |path| == 1 then c else Parent(c.items[FindKey(c.items, path[0]).value].val, path[1..])
  }

  // A set edit whose text ends with its value; white space or comments may stand in front.
  ghost predicate EndsInValue(e: Edit) {
    !e.delete && (Fragment(e).Ok? ==> Fragment(e).value.post == [])
  }

  lemma EndIsClosed(e: Edit)
    requires EndsInValue(e)
    ensures WritesClosed(e) && !e.delete
  {
    hide Fragment;
  }

  // The object has members and no trailing comma, or it is empty and its brace
  // does not open a line.
  predicate Restorable(c: Cst)
    requires c.Box?
  {
    if c.items == [] then !OwnLine(c.tail) else AllTrivia(c.tail)
  }

  // A comma and a blank at the end do not open a line.
  lemma NotOwnLine(tail: seq<Piece>)
    ensures !OwnLine(tail + [CommaPiece(), BlankPiece()])
  {
    hide BlankTail;
    var lead := tail + [CommaPiece(), BlankPiece()];
    var k := BlankTail(lead);
    assert lead[|tail|] == CommaPiece() && lead[|tail| + 1] == BlankPiece();
    assert k == |tail| + 1;
  }

  // Where a trailing comma stood, less than the old tail is left.
  lemma TrailingShrinks(c: Cst) returns (m: nat)
    requires WellFormed(c) && c.Box? && c.items != [] && !AllTrivia(c.tail)
    ensures var lead := c.tail + [BlankPiece()];
            && m < |c.tail|
            && c.tail[..m] == if OwnLine(lead) then BeforeLine(lead) else lead[..SkipTrivia(lead, 0)]
  {
    hide BlankTail, WellFormed;
    var lead := c.tail + [BlankPiece()];
    assert IsSeparator(c.tail) by { TailSeparator(c); }
    var comma := SkipTrivia(c.tail, 0);
    if OwnLine(lead) {
      var k := BlankTail(lead);
      assert lead[|c.tail|] == BlankPiece();
      m := k - 1;
    } else {
      SkipTriviaIs(lead, 0, comma);
      m := comma;
    }
  }

  lemma TailSeparator(c: Cst)
    requires WellFormed(c) && c.Box? && !AllTrivia(c.tail)
    ensures IsSeparator(c.tail)
  {
  }

  // What an append and the removal of what was appended leave of an object.
  lemma AppendThenRemove(c: Cst, key: bytes, g: Frag) returns (m: nat)
    requires WellFormed(c) && IsObject(c) && g.post == []
    ensures var d := AppendItem(c, key, g);
            && IsObject(d) && |d.items| == |c.items| + 1
            && m <= |c.tail|
            && RemoveItem(d, |c.items|) == c.(tail := c.tail[..m])
            && (Restorable(c) <==> m == |c.tail|)
  {
    hide WellFormed, NameFor, KeyOf, BlankTail, SkipTrivia, IsSeparator;
    var d, n := AppendItem(c, key, g), |c.items|;
    var lead := AppendLead(c);
    assert d.items[..n] == c.items && d.items[n].lead == lead && d.tail == [];
    if c.items == [] {
      m := |Kept(c.tail)|;
      assert Kept(lead) + [] == Kept(lead) == c.tail[..m];
    } else if AllTrivia(c.tail) {
      m := |c.tail|;
      NotOwnLine(c.tail);
      TriviaExact([BlankPiece()]);
      SeparatorIs(c.tail, CommaPiece(), [BlankPiece()]);
      assert lead == c.tail + [CommaPiece()] + [BlankPiece()];
      assert lead[..m] + [] == c.tail[..m] == c.tail;
    } else {
      m := TrailingShrinks(c);
      assert c.tail[..m] + [] == c.tail[..m];
    }
  }

  // ----- lengths -----

  lemma ShorterTail(c: Cst, m: nat)
    requires Prints(c) && c.Box? && m < |c.tail|
    ensures |Text(Flat(c.(tail := c.tail[..m])))| < |Text(Flat(c))|
  {
    hide WellFormed, Flat, FlatItems, Text, ValidPiece;
    var d := c.(tail := c.tail[..m]);
    FlatBox(c);
    FlatBox(d);
    var a, cut, close := [Opener(c.kind)] + FlatItems(c.items) + d.tail, c.tail[m..], [Closer(c.kind)];
    assert Flat(c) == a + (cut + close);
    TextConcat(a, cut + close);
    TextConcat(cut, close);
    TextConcat(a, close);
    ConcatLexical(a, cut + close);
    FirstIsValid(cut + close);
    FirstByte(cut[0]);
    TextNotEmpty(cut);
  }

  lemma TextNotEmpty(ps: seq<Piece>)
    requires ps != [] && ps[0].text != []
    ensures Text(ps) != []
  {
  }

  lemma SetValShorter(c: Cst, i: nat, v: Cst)
    requires IsObject(c) && i < |c.items| && |Text(Flat(v))| < |Text(Flat(c.items[i].val))|
    ensures |Text(Flat(SetVal(c, i, v)))| < |Text(Flat(c))|
  {
    hide Flat, Text, BeforeVal, AfterItem;
    FlatAt(c, i);
    FlatSetVal(c, i, v);
    var a, b := BeforeVal(c, i), AfterItem(c, i);
    TextConcat(a + Flat(v), b);
    TextConcat(a, Flat(v));
    TextConcat(a + Flat(c.items[i].val), b);
    TextConcat(a, Flat(c.items[i].val));
  }

  // ----- at a path -----

  lemma {:induction false} CreateDeleteAt(c: Cst, e: Edit, d: Edit, path: seq<bytes>)
    requires Prints(c) && Absent(c, path) && d.delete
    requires EndsInValue(e) && EditTree(c, e, path).Ok?
    ensures WellFormed(EditTree(c, e, path).value) && EditTree(EditTree(c, e, path).value, d, path).Ok?
    ensures var r := EditTree(EditTree(c, e, path).value, d, path).value;
            if Restorable(Parent(c, path)) then r == c else |Text(Flat(r))| < |Text(Flat(c))|
    decreases |path|
  {
    hide WellFormed, Lexical, Flat, Text, KeyOf, FindKey, AllTrivia, Fragment, Nest, AppendItem, SetItem, SetVal, RemoveItem, Restorable;
    EndIsClosed(e);
    FragmentSet(c, e, path);
    FragmentOk(e);
    EditPrintsEnded(c, e, path);
    var g := Fragment(e).value;
    match FindKey(c.items, path[0])
    case None =>
      NoKeysLeft(path, g);
      AppendKeepsKeys(c, path[0], g, path[0]);
      var m := AppendThenRemove(c, path[0], g);
      DeleteLast(AppendItem(c, path[0], g), d, path, |c.items|);
      if m < |c.tail| { ShorterTail(c, m); }
    case Some(i) =>
      ItemPrints(c, i);
      var was, v := c.items[i].val, EditTree(c.items[i].val, e, path[1..]).value;
      CreateDeleteAt(was, e, d, path[1..]);
      SetKeepsKeys(c, i, Frag([], v, []), path[0]);
      SetVals(c, i, Frag([], v, []));
      var r := EditTree(v, d, path[1..]).value;
      SetTwice(c, i, v, r);
      SetSame(c, i, Frag([], was, []));
      if !Restorable(Parent(c, path)) { SetValShorter(c, i, r); }
  }

  lemma EditPrintsEnded(c: Cst, e: Edit, path: seq<bytes>)
    requires Prints(c) && EndsInValue(e) && EditTree(c, e, path).Ok?
    ensures Prints(EditTree(c, e, path).value)
  {
    hide WellFormed, Lexical, Flat, Fragment, EditTree;
    EndIsClosed(e);
    EditPrints(c, e, path);
  }

  lemma NoKeysLeft(path: seq<bytes>, g: Frag)
    requires |path| == 1
    ensures Nest(path[1..], g) == g
  {
  }

  lemma DeleteLast(c: Cst, d: Edit, path: seq<bytes>, i: nat)
    requires WellFormed(c) && IsObject(c) && d.delete && |path| == 1 && FindKey(c.items, path[0]) == Some(i)
    requires i + 1 == |c.items|
    ensures EditTree(c, d, path) == Ok(RemoveItem(c, i))
  {
    hide WellFormed, FindKey, RemoveItem, Fragment;
  }

  lemma SetTwice(c: Cst, i: nat, v: Cst, w: Cst)
    requires IsObject(c) && i < |c.items|
    ensures IsObject(SetVal(c, i, v)) && |SetVal(c, i, v).items| == |c.items|
    ensures SetVal(SetVal(c, i, v), i, w) == SetVal(c, i, w)
  {
  }

  // Creating an absent key and deleting it again gives the file back byte for
  // byte exactly when the object had members and no trailing comma, or was
  // empty with its brace on the opening line.
  lemma CreateThenDelete(src: bytes, e: Edit, d: Edit)
    requires EndsInValue(e) && e.createIfMissing && Fragment(e).Ok? && d.delete && d.keyPath == e.keyPath
    requires Parse(src).Some? && Absent(Parse(src).value.doc.root, e.keyPath)
    ensures Patched(src, e).Ok?
    ensures Patched(Patched(src, e).value, d) == Ok(src) <==> Restorable(Parent(Parse(src).value.doc.root, e.keyPath))
  {
    hide WellFormed, Lexical, Flat, Text, Parse, Fragment, EditTree, Restorable, Present;
    var f := Parse(src).value;
    ParseExact(src, f);
    RootSound(f, f.doc.root);
    CreateSucceeds(f.doc.root, e, e.keyPath);
    EndIsClosed(e);
    var c := EditTree(f.doc.root, e, e.keyPath).value;
    EditPrints(f.doc.root, e, e.keyPath);
    RootSound(f, c);
    ParseExact(Print(WithRoot(f, c)), WithRoot(f, c));
    CreateDeleteAt(f.doc.root, e, d, e.keyPath);
    var r := EditTree(c, d, e.keyPath).value;
    var out := Print(WithRoot(WithRoot(f, c), r));
    assert WithRoot(WithRoot(f, c), r) == WithRoot(f, r) && WithRoot(f, f.doc.root) == f;
    PrintLength(f, r);
  }

  lemma {:induction false} CreateSucceeds(c: Cst, e: Edit, path: seq<bytes>)
    requires WellFormed(c) && Absent(c, path) && !e.delete && e.createIfMissing && Fragment(e).Ok?
    ensures EditTree(c, e, path).Ok?
    decreases |path|
  {
    hide WellFormed, Fragment, KeyOf, Nest, AppendItem, SetVal;
    if |path| > 1 {
      var i := FindKey(c.items, path[0]).value;
      ItemValueOk(c, i);
      CreateSucceeds(c.items[i].val, e, path[1..]);
    }
  }

  lemma PrintLength(f: File, c: Cst)
    ensures |Print(WithRoot(f, c))| - |Print(f)| == |Text(Flat(c))| - |Text(Flat(f.doc.root))|
  {
    hide Flat, Text;
    var d := f.doc;
    TextConcat(d.pre + Flat(c), d.post);
    TextConcat(d.pre, Flat(c));
    TextConcat(d.pre + Flat(d.root), d.post);
    TextConcat(d.pre, Flat(d.root));
  }
}
