/** The promises of patchJSONC, for every source and every edit. */
module JsoncTheorems {
  import opened Bytes
  import opened JsoncLex
  import opened Scalars
  import opened JsoncSyntax
  import opened JsoncEdit
  import opened JsoncTrivia
  import opened JsoncPreserve
  import opened JsoncSeams
  import opened JsoncMeaning

  // The member at the path, as a chain of object members.
  predicate Present(c: Cst, path: seq<bytes>)
    decreases |path|
  {
    && path != [] && IsObject(c)
    && match FindKey(c.items, path[0])
       case None => false
       case Some(i) => |path| == 1 || Present(c.items[i].val, path[1..])
  }

  // The first step along the path, and what stands there.
  lemma FirstStep(c: Cst, path: seq<bytes>)
    requires WellFormed(c) && Present(c, path)
    ensures IsObject(c) && FindKey(c.items, path[0]).Some?
    ensures var i := FindKey(c.items, path[0]).value;
            && i < |c.items| && WellFormed(c.items[i].val)
            && (i + 1 < |c.items| ==> IsSeparator(c.items[i + 1].lead))
            && (|path| > 1 ==> Present(c.items[i].val, path[1..]))
  {
    hide WellFormed, IsSeparator;
    var i := FindKey(c.items, path[0]).value;
    ItemValueOk(c, i);
    if i + 1 < |c.items| {
      LeadSeparates(c, i + 1);
    }
  }

  // The object that holds the member at the path, and the member's index in it.
  ghost function Target(c: Cst, path: seq<bytes>): (r: (Cst, nat))
    requires WellFormed(c) && Present(c, path)
    ensures IsObject(r.0) && WellFormed(r.0) && r.1 < |r.0.items|
    ensures r.1 + 1 < |r.0.items| ==> IsSeparator(r.0.items[r.1 + 1].lead)
    decreases |path|
  {
    hide WellFormed, IsSeparator, FindKey, Present;
    FirstStep(c, path);
    var i := FindKey(c.items, path[0]).value;
    if |path| > 1 then Target(c.items[i].val, path[1..]) else (c, i)
  }

  // What a caller can check before a delete: the commas that remain are the
  // commas the grammar wants, and no comment is opened.
  ghost predicate DeleteSafe(c: Cst, path: seq<bytes>)
    requires WellFormed(c) && Present(c, path)
  {
    hide WellFormed, IsSeparator, Present;
    var (obj, i) := Target(c, path);
    CommasFit(obj, i) && !CommentRunsOn(obj, i)
  }

  // The text the edit writes does not end in a comment that would run on.
  ghost predicate WritesClosed(e: Edit) {
    Fragment(e).Ok? ==> Closed(Fragment(e).value)
  }

  ghost predicate Prints(c: Cst) { WellFormed(c) && Lexical(Flat(c)) }

  // ----- one object deeper -----

  lemma ItemPrints(c: Cst, i: nat)
    requires Prints(c) && c.Box? && i < |c.items|
    ensures Prints(c.items[i].val)
  {
    hide WellFormed, Lexical, Flat, BeforeVal, AfterItem;
    ItemValueOk(c, i);
    FlatAt(c, i);
    ConcatLexical(BeforeVal(c, i) + Flat(c.items[i].val), AfterItem(c, i));
    ConcatLexical(BeforeVal(c, i), Flat(c.items[i].val));
  }

  lemma SetValPrints(c: Cst, i: nat, v: Cst)
    requires Prints(c) && IsObject(c) && i < |c.items|
    ensures Prints(SetVal(c, i, v)) <==> Prints(v)
    ensures IsObject(SetVal(c, i, v))
  {
    hide WellFormed, Lexical, Flat;
    if Prints(v) {
      SetValGrammar(c, i, v);
      SetValLexical(c, i, v);
    }
    if Prints(SetVal(c, i, v)) {
      ItemPrints(SetVal(c, i, v), i);
    }
  }

  lemma {:induction false} EditPrints(c: Cst, e: Edit, path: seq<bytes>)
    requires Prints(c) && EditTree(c, e, path).Ok?
    requires WritesClosed(e) && !(e.delete && Present(c, path))
    ensures Prints(EditTree(c, e, path).value) && IsObject(EditTree(c, e, path).value)
    decreases |path|
  {
    hide WellFormed, Lexical, Flat, Fragment, Closed, RemoveItem, SetItem, AppendItem, KeyOf;
    match FindKey(c.items, path[0])
    case None =>
      var g := Fragment(e).value;
      FragmentOk(e);
      NestOk(path[1..], g);
      AppendGrammar(c, path[0], Nest(path[1..], g));
      AppendLexical(c, path[0], Nest(path[1..], g));
    case Some(i) =>
      ItemPrints(c, i);
      if |path| > 1 {
        EditPrints(c.items[i].val, e, path[1..]);
        SetValPrints(c, i, EditTree(c.items[i].val, e, path[1..]).value);
      } else {
        var g := Fragment(e).value;
        FragmentOk(e);
        SetItemGrammar(c, i, g);
        SetItemLexical(c, i, g);
      }
  }

  lemma {:induction false} DeletePrints(c: Cst, e: Edit, path: seq<bytes>)
    requires Prints(c) && e.delete && Present(c, path)
    ensures EditTree(c, e, path).Ok? && IsObject(EditTree(c, e, path).value)
    ensures Prints(EditTree(c, e, path).value) <==> DeleteSafe(c, path)
    decreases |path|
  {
    hide WellFormed, Lexical, Flat, Fragment, RemoveItem, KeyOf, CommasFit, CommentRunsOn, IsSeparator;
    var i := FindKey(c.items, path[0]).value;
    ItemPrints(c, i);
    if |path| > 1 {
      DeletePrints(c.items[i].val, e, path[1..]);
      SetValPrints(c, i, EditTree(c.items[i].val, e, path[1..]).value);
    } else {
      RemovePrints(c, i);
    }
  }

  lemma RemovePrints(c: Cst, i: nat)
    requires Prints(c) && IsObject(c) && i < |c.items|
    ensures i + 1 < |c.items| ==> IsSeparator(c.items[i + 1].lead)
    ensures IsObject(RemoveItem(c, i))
    ensures Prints(RemoveItem(c, i)) <==> CommasFit(c, i) && !CommentRunsOn(c, i)
  {
    hide WellFormed, Lexical, Flat, RemoveItem, CommentRunsOn, IsSeparator, AllTrivia;
    if i + 1 < |c.items| {
      ItemLeadOk(c, i + 1);
      RemoveInnerGrammar(c, i);
    } else {
      RemoveLastGrammar(c, i);
    }
    RemoveLexical(c, i);
  }

  // ----- the whole file -----

  lemma SameEnds(c: Cst, d: Cst)
    requires IsObject(c) && IsObject(d)
    ensures Flat(c) != [] && Flat(d) != []
    ensures Flat(c)[0] == Flat(d)[0] && Flat(c)[|Flat(c)| - 1] == Flat(d)[|Flat(d)| - 1]
  {
    hide FlatItems;
    FlatBox(c);
    FlatBox(d);
  }

  lemma RootSound(f: File, c: Cst)
    requires Sound(f) && IsObject(f.doc.root) && IsObject(c)
    ensures Sound(WithRoot(f, c)) <==> Prints(c)
    ensures Prints(f.doc.root)
  {
    hide WellFormed, Lexical, Flat, Adjacent, AllTrivia;
    var d := f.doc;
    SameEnds(d.root, c);
    ConcatLexical(d.pre + Flat(d.root), d.post);
    ConcatLexical(d.pre, Flat(d.root));
    ConcatLexical(d.pre + Flat(c), d.post);
    ConcatLexical(d.pre, Flat(c));
  }

  // The meaning of a source file, if it parses.
  function MeaningOf(src: bytes): Option<Value> {
    match Parse(src) case None => None case Some(f) => Some(Meaning(f.doc.root))
  }

  lemma RootPrints(src: bytes, e: Edit)
    requires Parse(src).Some?
    ensures var f := Parse(src).value;
            && Sound(f) && WellFormed(f.doc.root)
            && (EditTree(f.doc.root, e, e.keyPath).Ok? ==> IsObject(f.doc.root) && Prints(f.doc.root))
  {
    hide WellFormed, Lexical, Flat, Parse, Fragment;
    var f := Parse(src).value;
    ParseExact(src, f);
    if IsObject(f.doc.root) { RootSound(f, f.doc.root); }
  }

  // Set: the output means the input with the value bound at the key path, and
  // every refusal is the one the meaning dictates. The re-parse never fails.
  lemma SetMeans(src: bytes, e: Edit)
    requires WritesClosed(e) && (Parse(src).Some? ==> !(e.delete && Present(Parse(src).value.doc.root, e.keyPath)))
    ensures match MeaningOf(src)
            case None => Patched(src, e) == Err(ParseFailure)
            case Some(v) =>
              match EditValue(v, e, e.keyPath)
              case Err(x) => Patched(src, e) == Err(x)
              case Ok(w) => Patched(src, e).Ok? && MeaningOf(Patched(src, e).value) == Some(w)
  {
    hide WellFormed, Lexical, Flat, Parse, Fragment, EditTree, EditValue, Meaning, Print, Present;
    if Parse(src).Some? {
      var f := Parse(src).value;
      RootPrints(src, e);
      EditMeaning(f.doc.root, e, e.keyPath);
      if EditTree(f.doc.root, e, e.keyPath).Ok? {
        var c := EditTree(f.doc.root, e, e.keyPath).value;
        EditPrints(f.doc.root, e, e.keyPath);
        RootSound(f, c);
        ParseExact(Print(WithRoot(f, c)), WithRoot(f, c));
      }
    }
  }

  // For a scalar edit the condition of SetMeans always holds.
  lemma ScalarWritesClosed(e: Edit)
    ensures e.valueJson == [] ==> WritesClosed(e)
  {
    hide Fragment;
    if Fragment(e).Ok? { FragmentOk(e); }
  }

  // Delete: the output parses to the input tree without the member, every other
  // piece of text kept, exactly when the delete is safe.
  lemma DeleteExact(src: bytes, e: Edit)
    requires e.delete && Parse(src).Some? && Present(Parse(src).value.doc.root, e.keyPath)
    ensures var f := Parse(src).value;
            && WellFormed(f.doc.root)
            && EditTree(f.doc.root, e, e.keyPath).Ok?
            && var g := WithRoot(f, EditTree(f.doc.root, e, e.keyPath).value);
               Parse(Print(g)) == Some(g) <==> DeleteSafe(f.doc.root, e.keyPath)
  {
    hide WellFormed, Lexical, Flat, Parse, Fragment, EditTree, Print, DeleteSafe;
    var f := Parse(src).value;
    ParseExact(src, f);
    RootSound(f, f.doc.root);
    DeletePrints(f.doc.root, e, e.keyPath);
    var g := WithRoot(f, EditTree(f.doc.root, e, e.keyPath).value);
    RootSound(f, g.doc.root);
    ParseExact(Print(g), g);
  }

  // So a safe delete succeeds, and means the input without that one member.
  lemma DeleteMeans(src: bytes, e: Edit)
    requires e.delete && Parse(src).Some? && Present(Parse(src).value.doc.root, e.keyPath)
    ensures WellFormed(Parse(src).value.doc.root)
    ensures DeleteSafe(Parse(src).value.doc.root, e.keyPath) ==>
            && Patched(src, e).Ok?
            && EditValue(MeaningOf(src).value, e, e.keyPath).Ok?
            && MeaningOf(Patched(src, e).value) == Some(EditValue(MeaningOf(src).value, e, e.keyPath).value)
  {
    hide WellFormed, Lexical, Flat, Parse, Fragment, EditTree, EditValue, Meaning, Print, DeleteSafe;
    DeleteExact(src, e);
    EditMeaning(Parse(src).value.doc.root, e, e.keyPath);
  }
}
