/** Why a delete that leaves a stray comma is always refused. */
module JsoncCommas {
  import opened Bytes
  import opened JsoncLex
  import opened Scalars
  import opened JsoncSyntax
  import opened JsoncEdit
  import opened JsoncTrivia
  import opened JsoncPreserve
  import opened JsoncSeams
  import opened JsoncMeaning
  import opened JsoncTheorems

  // A comma may only come after a value. Ready: a value or key has just ended;
  // Waiting: it has not; Stuck: a comma came while waiting.
  datatype State = Ready | Waiting | Stuck

  function Next(p: Piece, s: State): State {
    if s.Stuck? then Stuck
    else match p.kind
      case Space => s
      case Comment => s
      case Comma => if s.Ready? then Waiting else Stuck
      case Str => Ready
      case Scalar => Ready
      case RBrace => Ready
      case RBracket => Ready
      case LBrace => Waiting
      case LBracket => Waiting
      case Colon => Waiting
  }

  function Scan(ps: seq<Piece>, s: State): State {
    if ps == [] then s else Scan(ps[1..], Next(ps[0], s))
  }

  lemma {:induction false} ScanConcat(a: seq<Piece>, b: seq<Piece>, s: State)
    ensures Scan(a + b, s) == Scan(b, Scan(a, s))
  {
    if a == [] {
      assert a + b == b;
    } else {
      assert (a + b)[1..] == a[1..] + b;
      ScanConcat(a[1..], b, Next(a[0], s));
    }
  }

  lemma {:induction false} ScanStuck(ps: seq<Piece>)
    ensures Scan(ps, Stuck) == Stuck
  {
    if ps != [] { ScanStuck(ps[1..]); }
  }

  lemma {:induction false} ScanTrivia(ps: seq<Piece>, s: State)
    requires AllTrivia(ps)
    ensures Scan(ps, s) == s
  {
    if ps != [] {
      TriviaExact(ps);
      TriviaExact(ps[1..]);
      ScanTrivia(ps[1..], s);
    }
  }

  lemma ScanSeparator(ps: seq<Piece>, s: State)
    requires IsSeparator(ps)
    ensures Scan(ps, s) == if s.Ready? then Waiting else Stuck
  {
    var c := SkipTrivia(ps, 0);
    SeparatorParts(ps);
    ScanConcat(ps[..c] + [ps[c]], ps[c + 1..], s);
    ScanConcat(ps[..c], [ps[c]], s);
    ScanTrivia(ps[..c], s);
    ScanTrivia(ps[c + 1..], Next(ps[c], s));
    assert [ps[c]][1..] == [];
  }

  lemma {:induction false} ScanSpaces(ps: seq<Piece>, s: State)
    requires forall n :: 0 <= n < |ps| ==> ps[n].kind.Space?
    ensures Scan(ps, s) == s
  {
    if ps != [] { ScanSpaces(ps[1..], s); }
  }

  lemma ScanName(ps: seq<Piece>, s: State)
    requires IsName(ps) && !s.Stuck?
    ensures Scan(ps, s) == Waiting
  {
    hide Decode;
    var k := SkipSpaces(ps, 1);
    assert ps == [ps[0]] + ps[1..k] + [ps[k]] + ps[k + 1..];
    ScanConcat([ps[0]] + ps[1..k] + [ps[k]], ps[k + 1..], s);
    ScanConcat([ps[0]] + ps[1..k], [ps[k]], s);
    ScanConcat([ps[0]], ps[1..k], s);
    ScanSpaces(ps[1..k], Ready);
    SliceTrivia(ps, k + 1, |ps|);
    ScanTrivia(ps[k + 1..], Waiting);
    assert [ps[0]][1..] == [] && [ps[k]][1..] == [];
  }

  // A printed value leaves a scan ready, whatever came in front of it.
  lemma {:induction false} ScanFlat(c: Cst, s: State)
    requires WellFormed(c) && !s.Stuck?
    ensures Scan(Flat(c), s) == Ready
    decreases c, 1, 0
  {
    if c.Box? {
      hide WellFormed, Flat, FlatItems, IsSeparator, AllTrivia, Scan;
      FlatBox(c);
      var close := [Closer(c.kind)];
      Assoc([Opener(c.kind)] + FlatItems(c.items), c.tail, close);
      ScanConcat([Opener(c.kind)] + FlatItems(c.items), c.tail + close, s);
      ScanConcat([Opener(c.kind)], FlatItems(c.items), s);
      OnePiece(Opener(c.kind), s);
      ScanItems(c, |c.items|);
      assert c.items[..|c.items|] == c.items;
      ScanTail(c, AfterItems(|c.items|));
    } else {
      OnePiece(c.piece, s);
    }
  }

  lemma OnePiece(p: Piece, s: State)
    ensures Scan([p], s) == Next(p, s)
  {
    assert [p][1..] == [];
  }

  lemma TailRule(c: Cst)
    requires WellFormed(c) && c.Box?
    ensures TailOk(c.items, c.tail)
  {
  }

  lemma ScanTail(c: Cst, s: State)
    requires WellFormed(c) && c.Box? && s == AfterItems(|c.items|)
    ensures Scan(c.tail + [Closer(c.kind)], s) == Ready
  {
    hide WellFormed, IsSeparator, AllTrivia, Scan;
    ScanConcat(c.tail, [Closer(c.kind)], s);
    TailRule(c);
    if AllTrivia(c.tail) { ScanTrivia(c.tail, s); } else { ScanSeparator(c.tail, s); }
    OnePiece(Closer(c.kind), Waiting);
    OnePiece(Closer(c.kind), Ready);
  }

  // The state after the first n items.
  function AfterItems(n: nat): State { if n == 0 then Waiting else Ready }

  lemma {:induction false} ScanItems(c: Cst, n: nat)
    requires WellFormed(c) && c.Box? && n <= |c.items|
    ensures Scan(FlatItems(c.items[..n]), Waiting) == AfterItems(n)
    decreases c, 0, n
  {
    hide WellFormed, Flat, FlatItems, IsSeparator, AllTrivia, IsName;
    if n == 0 {
      assert c.items[..0] == [];
      assert FlatItems([]) == [] by { NoItems(); }
    } else {
      var it := c.items[n - 1];
      ScanItems(c, n - 1);
      assert c.items[..n] == c.items[..n - 1] + [it];
      FlatItemsConcat(c.items[..n - 1], [it]);
      FlatSplit([it]);
      assert [it][1..] == [];
      NoItems();
      var flat := it.lead + it.name + Flat(it.val);
      assert FlatItems([it]) == flat;
      ScanConcat(FlatItems(c.items[..n - 1]), flat, Waiting);
      ScanConcat(it.lead + it.name, Flat(it.val), AfterItems(n - 1));
      ScanConcat(it.lead, it.name, AfterItems(n - 1));
      ItemLeadOk(c, n - 1);
      if n == 1 { ScanTrivia(it.lead, Waiting); } else { ScanSeparator(it.lead, Ready); }
      ItemRule(c, n - 1);
      if c.kind.Object? { ScanName(it.name, Waiting); } else { assert Scan([], Waiting) == Waiting; }
      ScanFlat(it.val, Waiting);
    }
  }

  lemma ItemRule(c: Cst, i: nat)
    requires WellFormed(c) && c.Box? && i < |c.items|
    ensures NameOk(c.kind, c.items[i]) && WellFormed(c.items[i].val)
  {
  }

  // A stray comma stops the scan.
  lemma StrayComma(c: Cst, i: nat, s: State)
    requires WellFormed(c) && IsObject(c) && i < |c.items| && !CommasFit(c, i)
    ensures Scan(Flat(RemoveItem(c, i)), s) == Stuck
  {
    hide WellFormed, Flat, FlatItems, IsSeparator, AllTrivia, IsName, Kept, OwnLine, RemoveItem;
    var close := [Closer(c.kind)];
    FlatRemove(c, i);
    TailRule(c);
    ItemLeadOk(c, i);
    KeptGrammar(c.items[i].lead);
    var left := Left(c, i);
    assert Flat(RemoveItem(c, i)) == [Opener(c.kind)] + FlatItems(c.items[..i]) + left + c.tail + close;
    ScanConcat([Opener(c.kind)] + FlatItems(c.items[..i]) + left + c.tail, close, s);
    ScanConcat([Opener(c.kind)] + FlatItems(c.items[..i]) + left, c.tail, s);
    ScanConcat([Opener(c.kind)] + FlatItems(c.items[..i]), left, s);
    ScanConcat([Opener(c.kind)], FlatItems(c.items[..i]), s);
    OnePiece(Opener(c.kind), s);
    ScanStuck(FlatItems(c.items[..i]));
    ScanStuck(left);
    ScanItems(c, i);
    if i == 0 { ScanTrivia(left, Waiting); } else { ScanSeparator(left, Ready); }
    ScanSeparator(c.tail, Waiting);
    ScanSeparator(c.tail, Stuck);
    ScanStuck(close);
  }

  lemma {:induction false} StrayCommaAt(c: Cst, e: Edit, path: seq<bytes>, s: State)
    requires WellFormed(c) && e.delete && Present(c, path) && EditTree(c, e, path).Ok?
    requires !CommasFit(Target(c, path).0, Target(c, path).1)
    ensures Scan(Flat(EditTree(c, e, path).value), s) == Stuck
    decreases |path|
  {
    hide WellFormed, Flat, RemoveItem, SetVal, CommasFit, Fragment, KeyOf, BeforeVal, AfterItem;
    var i := FindKey(c.items, path[0]).value;
    ItemValueOk(c, i);
    if |path| > 1 {
      var v := EditTree(c.items[i].val, e, path[1..]).value;
      StrayCommaAt(c.items[i].val, e, path[1..], Scan(BeforeVal(c, i), s));
      FlatSetVal(c, i, v);
      ScanConcat(BeforeVal(c, i) + Flat(v), AfterItem(c, i), s);
      ScanConcat(BeforeVal(c, i), Flat(v), s);
      ScanStuck(AfterItem(c, i));
    } else {
      StrayComma(c, i, s);
    }
  }

  // No file that parses stops the scan.
  lemma NotParsed(ps: seq<Piece>)
    requires Valid(ps) && Scan(ps, Waiting) == Stuck
    ensures ParseDoc(ps).None?
  {
    hide WellFormed, Flat, ParseDoc, ValidPiece;
    if ParseDoc(ps).Some? {
      var d := ParseDoc(ps).value;
      DocSound(ps);
      ScanConcat(d.pre + Flat(d.root), d.post, Waiting);
      ScanConcat(d.pre, Flat(d.root), Waiting);
      ScanTrivia(d.pre, Waiting);
      ScanFlat(d.root, Waiting);
      ScanTrivia(d.post, Ready);
    }
  }

  // A delete that leaves a stray comma and opens no comment is refused.
  lemma DeleteRefused(src: bytes, e: Edit)
    requires e.delete && Parse(src).Some? && Present(Parse(src).value.doc.root, e.keyPath)
    requires WellFormed(Parse(src).value.doc.root)
    requires var (obj, i) := Target(Parse(src).value.doc.root, e.keyPath);
             !CommasFit(obj, i) && !CommentRunsOn(obj, i)
    ensures Patched(src, e) == Err(InternalInconsistency)
  {
    hide WellFormed, Lexical, Flat, Parse, Fragment, EditTree, CommasFit, CommentRunsOn, ParseDoc, ValidPiece, Target;
    var f := Parse(src).value;
    ParseExact(src, f);
    RootSound(f, f.doc.root);
    DeletePrints(f.doc.root, e, e.keyPath);
    var c := EditTree(f.doc.root, e, e.keyPath).value;
    var g := WithRoot(f, c);
    var ps := FlatDoc(g.doc);
    DeleteLexes(f, e, c);
    StrayCommaAt(f.doc.root, e, e.keyPath, Scan(f.doc.pre, Waiting));
    ScanConcat(f.doc.pre + Flat(c), f.doc.post, Waiting);
    ScanConcat(f.doc.pre, Flat(c), Waiting);
    ScanStuck(f.doc.post);
    LexExact(Print(g), Lexed(f.bom, ps));
    LexicalValid(ps);
    NotParsed(ps);
    Unparsed(Print(g), Lexed(f.bom, ps));
  }

  lemma LexicalValid(ps: seq<Piece>)
    requires Lexical(ps)
    ensures Valid(ps)
  {
  }

  lemma Unparsed(src: bytes, l: Lexed)
    requires Lex(src) == Some(l) && ParseDoc(l.pieces).None?
    ensures Parse(src).None?
  {
  }

  // Without an opened comment the output still lexes to the pieces not cut.
  lemma DeleteLexes(f: File, e: Edit, c: Cst)
    requires Sound(f) && WellFormed(f.doc.root) && e.delete && Present(f.doc.root, e.keyPath)
    requires EditTree(f.doc.root, e, e.keyPath) == Ok(c) && IsObject(f.doc.root) && IsObject(c)
    requires var (obj, i) := Target(f.doc.root, e.keyPath); !CommentRunsOn(obj, i)
    ensures Lexical(FlatDoc(WithRoot(f, c).doc))
  {
    hide WellFormed, Lexical, Flat, Fragment, EditTree, CommentRunsOn, Target, Present, Adjacent;
    var d := f.doc;
    RootSound(f, d.root);
    DeleteLexesAt(d.root, e, e.keyPath);
    SameEnds(d.root, c);
    ConcatLexical(d.pre + Flat(d.root), d.post);
    ConcatLexical(d.pre, Flat(d.root));
    ConcatLexical(d.pre + Flat(c), d.post);
    ConcatLexical(d.pre, Flat(c));
  }

  lemma {:induction false} DeleteLexesAt(c: Cst, e: Edit, path: seq<bytes>)
    requires Prints(c) && e.delete && Present(c, path) && EditTree(c, e, path).Ok?
    requires var (obj, i) := Target(c, path); !CommentRunsOn(obj, i)
    ensures Lexical(Flat(EditTree(c, e, path).value)) && IsObject(EditTree(c, e, path).value)
    decreases |path|
  {
    hide WellFormed, Lexical, Flat, RemoveItem, SetVal, CommentRunsOn, Fragment, KeyOf, BeforeVal, AfterItem, IsSeparator;
    var i := FindKey(c.items, path[0]).value;
    ItemPrints(c, i);
    if |path| > 1 {
      var was, v := c.items[i].val, EditTree(c.items[i].val, e, path[1..]).value;
      DeleteLexesAt(was, e, path[1..]);
      FlatAt(c, i);
      FlatSetVal(c, i, v);
      BeforeValLast(c, i);
      AfterItemFirst(c, i);
      SameEnds(was, v);
      ReplaceEnds(BeforeVal(c, i), Flat(was), AfterItem(c, i), Flat(v));
      ObjectKept(c, i, v);
    } else {
      RemoveLexical(c, i);
      RemovedObject(c, i);
    }
  }

  lemma ObjectKept(c: Cst, i: nat, v: Cst)
    requires IsObject(c) && i < |c.items|
    ensures IsObject(SetVal(c, i, v))
  {
  }

  lemma RemovedObject(c: Cst, i: nat)
    requires IsObject(c) && i < |c.items|
    requires i + 1 < |c.items| ==> IsSeparator(c.items[i + 1].lead)
    ensures IsObject(RemoveItem(c, i))
  {
    hide Kept, Resume;
  }

  lemma ReplaceEnds(a: seq<Piece>, o: seq<Piece>, b: seq<Piece>, x: seq<Piece>)
    requires Lexical(a + o + b) && Lexical(x) && o != [] && x != []
    requires o[0] == x[0] && o[|o| - 1] == x[|x| - 1]
    ensures Lexical(a + x + b)
  {
    hide ValidPiece, Adjacent, Lexical;
    ConcatLexical(a + o, b);
    ConcatLexical(a, o);
    ConcatLexical(a, x);
    assert (a + o)[|a + o| - 1] == (a + x)[|a + x| - 1];
    ConcatLexical(a + x, b);
  }
}
