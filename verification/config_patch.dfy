/**
 Patch and the per-file fold of applyOnePlan (internal/clientconfig/configpatch.go
 and adapter.go) for the JSONC format.
 */
module ConfigPatch {
  import opened Bytes
  import opened JsoncLex
  import opened Scalars
  import opened JsoncSyntax
  import opened JsoncEdit
  import opened JsoncTrivia
  import opened JsoncPreserve
  import opened JsoncSeams
  import opened JsoncMeaning
  import opened JsoncTheorems
  import opened JsoncRoundtrip
  import opened JsoncPatch

  datatype Outcome =
    | Changed(out: bytes)
    | AlreadyPatched(out: bytes)
    | Failed(error: Error)

  method ValidateEdit(e: Edit) returns (r: Option<Error>)
    ensures r == Refusal(e)
    ensures r == Some(KeyNotFound) <==> |e.keyPath| == 0 || exists k | 0 <= k < |e.keyPath| :: |e.keyPath[k]| == 0
    ensures r == Some(UnsupportedStructure) <==>
              |e.keyPath| > 0 && (forall k :: 0 <= k < |e.keyPath| ==> |e.keyPath[k]| > 0)
              && e.delete && (|e.value| > 0 || |e.valueJson| > 0)
    ensures r.Some? ==> r.value == KeyNotFound || r.value == UnsupportedStructure
  {
    if |e.keyPath| == 0 { return Some(KeyNotFound); }
    for k := 0 to |e.keyPath|
      invariant forall n :: 0 <= n < k ==> e.keyPath[n] != []
    {
      if e.keyPath[k] == [] { return Some(KeyNotFound); }
    }
    if e.delete && (e.value != [] || e.valueJson != []) { return Some(UnsupportedStructure); }
    return None;
  }

  // Why an edit is refused before the file is looked at.
  function Refusal(e: Edit): Option<Error> {
    if e.keyPath == [] || [] in e.keyPath then Some(KeyNotFound)
    else if e.delete && (e.value != [] || e.valueJson != []) then Some(UnsupportedStructure)
    else None
  }

  ghost function Step(cur: bytes, e: Edit): Result<bytes> {
    if Refusal(e).Some? then Err(Refusal(e).value) else Patched(cur, e)
  }

  // All edits, each on the result of the one in front.
  ghost function Apply(cur: bytes, edits: seq<Edit>): Result<bytes>
    decreases |edits|
  {
    if edits == [] then Ok(cur)
    else match Step(cur, edits[0])
      case Err(x) => Err(x)
      case Ok(next) => Apply(next, edits[1..])
  }

  ghost function PatchOutcome(src: bytes, edits: seq<Edit>): Outcome {
    match Apply(src, edits)
    case Err(x) => Failed(x)
    case Ok(out) => if out == src then AlreadyPatched(src) else Changed(out)
  }

  method Patch(src: bytes, edits: seq<Edit>) returns (r: Outcome)
    ensures r == PatchOutcome(src, edits)
  {
    hide Patched, Refusal;
    if |edits| == 0 { return AlreadyPatched(src); }
    var cur := src;
    var i := 0;
    assert edits[0..] == edits;
    while i < |edits|
      invariant 0 <= i <= |edits|
      invariant Apply(src, edits) == Apply(cur, edits[i..])
    {
      assert edits[i..][0] == edits[i] && edits[i..][1..] == edits[i + 1..];
      var refused := ValidateEdit(edits[i]);
      if refused.Some? { return Failed(refused.value); }
      var next := PatchJSONC(cur, edits[i]);
      if next.Err? { return Failed(next.error); }
      cur := next.value;
      i := i + 1;
    }
    assert edits[i..] == [];
    if cur == src { return AlreadyPatched(src); }
    return Changed(cur);
  }

  // ----- patching again -----

  ghost predicate BoundIn(src: bytes, e: Edit) {
    match Parse(src) case None => false case Some(f) => Bound(f.doc.root, e, e.keyPath)
  }

  lemma PlainIsClosed(e: Edit)
    requires PlainSet(e)
    ensures WritesClosed(e) && !e.delete
  {
    hide Fragment;
  }

  // What a successful set leaves behind: the edited tree, and only that.
  lemma PatchedTree(src: bytes, e: Edit) returns (f: File, c: Cst)
    requires !e.delete && WritesClosed(e) && Patched(src, e).Ok?
    ensures Parse(src) == Some(f) && WellFormed(f.doc.root) && EditTree(f.doc.root, e, e.keyPath) == Ok(c)
    ensures Parse(Patched(src, e).value) == Some(WithRoot(f, c))
  {
    hide WellFormed, Lexical, Flat, Parse, Fragment, EditTree, Print, Present;
    f := Parse(src).value;
    RootPrints(src, e);
    c := EditTree(f.doc.root, e, e.keyPath).value;
    EditPrints(f.doc.root, e, e.keyPath);
    RootSound(f, c);
    ParseExact(Print(WithRoot(f, c)), WithRoot(f, c));
  }

  lemma PatchedBinds(src: bytes, e: Edit)
    requires !e.delete && WritesClosed(e) && Patched(src, e).Ok?
    ensures BoundIn(Patched(src, e).value, e)
  {
    hide WellFormed, Parse, Fragment, EditTree, Patched, Bound;
    var f, c := PatchedTree(src, e);
    SetBinds(f.doc.root, e, e.keyPath);
  }

  lemma PatchedKeeps(src: bytes, e: Edit, other: Edit)
    requires PlainSet(e) && Patched(src, e).Ok?
    requires BoundIn(src, other) && Incomparable(e.keyPath, other.keyPath)
    ensures BoundIn(Patched(src, e).value, other)
  {
    hide WellFormed, Parse, Fragment, EditTree, Patched;
    PlainIsClosed(e);
    var f, c := PatchedTree(src, e);
    SetKeeps(f.doc.root, e, e.keyPath, other.keyPath);
  }

  lemma PatchedSame(src: bytes, e: Edit)
    requires PlainSet(e) && e.keyPath != [] && BoundIn(src, e)
    ensures Patched(src, e) == Ok(src)
  {
    hide WellFormed, Lexical, Flat, Parse, Fragment, EditTree, Print;
    var f := Parse(src).value;
    ParseExact(src, f);
    SetAgain(f.doc.root, e, e.keyPath);
    assert WithRoot(f, f.doc.root) == f;
  }

  ghost predicate Independent(edits: seq<Edit>) {
    && (forall k :: 0 <= k < |edits| ==> PlainSet(edits[k]))
    && (forall m, n :: 0 <= m < n < |edits| ==> Incomparable(edits[m].keyPath, edits[n].keyPath))
  }

  // A value that no edit meets survives all of them.
  lemma {:induction false} ApplyKeeps(cur: bytes, edits: seq<Edit>, other: Edit)
    requires Independent(edits) && Apply(cur, edits).Ok? && BoundIn(cur, other)
    requires forall k :: 0 <= k < |edits| ==> Incomparable(edits[k].keyPath, other.keyPath)
    ensures BoundIn(Apply(cur, edits).value, other)
    decreases |edits|
  {
    hide Patched, PlainSet, BoundIn, Incomparable;
    if edits != [] {
      PatchedKeeps(cur, edits[0], other);
      ApplyKeeps(Patched(cur, edits[0]).value, edits[1..], other);
    }
  }

  lemma {:induction false} ApplyBinds(cur: bytes, edits: seq<Edit>, k: nat)
    requires Independent(edits) && Apply(cur, edits).Ok? && k < |edits|
    ensures BoundIn(Apply(cur, edits).value, edits[k]) && Refusal(edits[k]).None?
    decreases |edits|
  {
    hide Patched, PlainSet, BoundIn, Incomparable, Refusal;
    var next := Patched(cur, edits[0]).value;
    if k == 0 {
      PlainIsClosed(edits[0]);
      PatchedBinds(cur, edits[0]);
      forall n | 0 <= n < |edits[1..]| ensures Incomparable(edits[1..][n].keyPath, edits[0].keyPath) {
        assert Incomparable(edits[0].keyPath, edits[n + 1].keyPath);
        IncomparableSwap(edits[0].keyPath, edits[n + 1].keyPath);
      }
      ApplyKeeps(next, edits[1..], edits[0]);
    } else {
      ApplyBinds(next, edits[1..], k - 1);
    }
  }

  lemma {:induction false} IncomparableSwap(p: seq<bytes>, q: seq<bytes>)
    requires Incomparable(p, q)
    ensures Incomparable(q, p)
  {
    if p[0] == q[0] { IncomparableSwap(p[1..], q[1..]); }
  }

  lemma {:induction false} ApplySame(cur: bytes, edits: seq<Edit>)
    requires forall k :: 0 <= k < |edits| ==> PlainSet(edits[k]) && Refusal(edits[k]).None? && BoundIn(cur, edits[k])
    ensures Apply(cur, edits) == Ok(cur)
    decreases |edits|
  {
    hide Patched, PlainSet, BoundIn;
    if edits != [] {
      PatchedSame(cur, edits[0]);
      ApplySame(cur, edits[1..]);
    }
  }

  // Patch is idempotent: a second run of independent set edits finds nothing to do.
  lemma PatchAgain(src: bytes, edits: seq<Edit>)
    requires Independent(edits) && Apply(src, edits).Ok?
    ensures var out := Apply(src, edits).value;
            PatchOutcome(out, edits) == AlreadyPatched(out)
  {
    hide Patched, PlainSet, BoundIn, Incomparable, Apply;
    var out := Apply(src, edits).value;
    forall k | 0 <= k < |edits| ensures Refusal(edits[k]).None? && BoundIn(out, edits[k]) {
      ApplyBinds(src, edits, k);
    }
    ApplySame(out, edits);
  }

  // ----- the fold of applyOnePlan -----

  // One edit on its own; a delete of a key that is not there counts as done.
  ghost function FoldStep(cur: bytes, e: Edit): Result<bytes> {
    match Step(cur, e)
    case Ok(next) => Ok(next)
    case Err(x) => if e.delete && x == KeyNotFound then Ok(cur) else Err(x)
  }

  ghost function Fold(cur: bytes, edits: seq<Edit>): Result<bytes>
    decreases |edits|
  {
    if edits == [] then Ok(cur)
    else match FoldStep(cur, edits[0])
      case Err(x) => Err(x)
      case Ok(next) => Fold(next, edits[1..])
  }

  const EMPTY_JSONC: bytes := [LBRACE, RBRACE]

  // The new content of one JSONC file, absent and empty being the same, or None
  // where there is nothing to write.
  ghost function PlanOutcome(before: bytes, edits: seq<Edit>): Result<Option<bytes>> {
    match Fold(if before == [] then EMPTY_JSONC else before, edits)
    case Err(x) => Err(x)
    case Ok(cur) => Ok(if cur == before || cur == [] then None else Some(cur))
  }

  method PlanContent(before: bytes, edits: seq<Edit>) returns (r: Result<Option<bytes>>)
    ensures r == PlanOutcome(before, edits)
  {
    hide Patched, Refusal;
    var cur := before;
    if |cur| == 0 { cur := [LBRACE, RBRACE]; }
    ghost var start := cur;
    var i := 0;
    assert edits[0..] == edits;
    while i < |edits|
      invariant 0 <= i <= |edits|
      invariant Fold(start, edits) == Fold(cur, edits[i..])
    {
      var e := edits[i];
      assert edits[i..][0] == e && edits[i..][1..] == edits[i + 1..];
      var next := Patch(cur, [e]);
      SingleOutcome(cur, e);
      i := i + 1;
      if next.AlreadyPatched? { continue; }
      if e.delete && next == Failed(KeyNotFound) { continue; }
      if next.Failed? { return Err(next.error); }
      cur := next.out;
    }
    assert edits[i..] == [];
    if cur == before { return Ok(None); }
    if |cur| == 0 { return Ok(None); }
    return Ok(Some(cur));
  }

  // An empty object, written out, is a file that means one.
  lemma EmptyParses()
    ensures Parse(EMPTY_JSONC) == Some(File(false, Doc([], Box(Object, [], []), [])))
  {
    var f := File(false, Doc([], Box(Object, [], []), []));
    TriviaExact([]);
    BracketsLexical(Object);
    FlatBox(f.doc.root);
    assert FlatItems([]) == [];
    var o, z := Opener(Object), Closer(Object);
    assert FlatDoc(f.doc) == [o] + [z];
    ConcatLexical([o], [z]);
    TextConcat([o], [z]);
    assert [o][1..] == [] && [z][1..] == [];
    ParseExact(EMPTY_JSONC, f);
  }

  lemma NothingParses()
    ensures Parse([]).None?
  {}

  // The edits of a plan as edits of a value, in order, up to the first that fails.
  function ValueAfter(v: Value, edits: seq<Edit>): Result<Value>
    decreases |edits|
  {
    if edits == [] then Ok(v)
    else match EditValue(v, edits[0], edits[0].keyPath)
      case Err(x) => Err(x)
      case Ok(w) => ValueAfter(w, edits[1..])
  }

  // A plan of sets means what its edits mean, one after the other.
  lemma {:induction false} PlanMeans(cur: bytes, edits: seq<Edit>, v: Value)
    requires MeaningOf(cur) == Some(v)
    requires forall k :: 0 <= k < |edits| ==> !edits[k].delete && Refusal(edits[k]).None? && WritesClosed(edits[k])
    ensures ValueAfter(v, edits).Err? ==> Fold(cur, edits) == Err(ValueAfter(v, edits).error)
    ensures ValueAfter(v, edits).Ok? ==> Fold(cur, edits).Ok? && MeaningOf(Fold(cur, edits).value) == Some(ValueAfter(v, edits).value)
    decreases |edits|
  {
    hide MeaningOf, Patched, EditValue, WritesClosed, Refusal, Parse;
    if edits != [] {
      var e := edits[0];
      ParsedMeans(cur);
      SetMeans(cur, e);
      if EditValue(v, e, e.keyPath).Ok? {
        var next := Patched(cur, e).value;
        PlanMeans(next, edits[1..], EditValue(v, e, e.keyPath).value);
      }
    }
  }

  lemma ParsedMeans(cur: bytes)
    ensures MeaningOf(cur).Some? <==> Parse(cur).Some?
  {
    hide Parse, Meaning;
  }

  // A first connect: where no file is, a set that may create gives a file that
  // means exactly its one path.
  lemma FirstConnect(e: Edit)
    requires !e.delete && e.createIfMissing && Refusal(e).None? && NewValue(e).Ok? && WritesClosed(e)
    ensures var r := PlanOutcome([], [e]);
            && r.Ok? && r.value.Some?
            && MeaningOf(r.value.value) == Some(Wrap(e.keyPath, NewValue(e).value))
  {
    hide Parse, Patched, NewValue, WritesClosed;
    EmptyParses();
    NothingParses();
    SetMeans(EMPTY_JSONC, e);
    var v := Meaning(Box(Object, [], []));
    assert v == Obj([]);
    assert [] + [Member(e.keyPath[0], Wrap(e.keyPath[1..], NewValue(e).value))]
        == [Member(e.keyPath[0], Wrap(e.keyPath[1..], NewValue(e).value))];
    assert EditValue(v, e, e.keyPath) == Ok(Wrap(e.keyPath, NewValue(e).value));
    var out := Patched(EMPTY_JSONC, e).value;
    assert [e][1..] == [] && Fold(out, []) == Ok(out);
    assert Fold(EMPTY_JSONC, [e]) == Ok(out);
  }

  lemma SingleOutcome(cur: bytes, e: Edit)
    ensures PatchOutcome(cur, [e]) ==
            match Step(cur, e)
            case Err(x) => Failed(x)
            case Ok(next) => if next == cur then AlreadyPatched(cur) else Changed(next)
  {
    hide Step;
    assert [e][1..] == [];
    assert Apply(cur, [e]) == match Step(cur, e) case Err(x) => Err(x) case Ok(next) => Apply(next, []);
  }

  // For set edits the fold is Apply, so a second run of a plan writes nothing.
  lemma {:induction false} FoldIsApply(cur: bytes, edits: seq<Edit>)
    requires forall k :: 0 <= k < |edits| ==> !edits[k].delete
    ensures Fold(cur, edits) == Apply(cur, edits)
    decreases |edits|
  {
    hide Step;
    if edits != [] && Step(cur, edits[0]).Ok? { FoldIsApply(Step(cur, edits[0]).value, edits[1..]); }
  }

  lemma PlanAgain(before: bytes, edits: seq<Edit>)
    requires Independent(edits) && Fold(before, edits).Ok?
    ensures Fold(Fold(before, edits).value, edits) == Fold(before, edits)
  {
    hide Patched, Apply, Fold, Fragment;
    FoldIsApply(before, edits);
    FoldIsApply(Fold(before, edits).value, edits);
    PatchAgain(before, edits);
  }
}
