/**
 Plans that set keys and delete keys: running one again on its own result
 changes nothing, as Apply and Reset promise (internal/clientconfig/adapter.go).
 */
module PlanReset {
  import opened Bytes
  import opened JsoncLex
  import opened JsoncSyntax
  import opened JsoncEdit
  import opened JsoncPreserve
  import opened JsoncSeams
  import opened JsoncMeaning
  import opened JsoncTheorems
  import opened JsoncRoundtrip
  import opened ConfigPatch

  // A set whose text is its value, or a delete that creates nothing.
  ghost predicate Repeatable(e: Edit) {
    if e.delete then !e.createIfMissing else PlainSet(e)
  }

  ghost predicate Resettable(edits: seq<Edit>) {
    && (forall k :: 0 <= k < |edits| ==> Repeatable(edits[k]))
    && (forall m, n :: 0 <= m < n < |edits| ==> Incomparable(edits[m].keyPath, edits[n].keyPath))
  }

  // A delete of a key that is there leaves the right commas and opens no comment.
  ghost predicate Safe(cur: bytes, e: Edit) {
    e.delete ==> match Parse(cur)
                 case None => true
                 case Some(f) => Present(f.doc.root, e.keyPath) && WellFormed(f.doc.root) ==> DeleteSafe(f.doc.root, e.keyPath)
  }

  ghost predicate SafeFold(cur: bytes, edits: seq<Edit>)
    decreases |edits|
  {
    edits == [] || (Safe(cur, edits[0])
      && (FoldStep(cur, edits[0]).Ok? ==> SafeFold(FoldStep(cur, edits[0]).value, edits[1..])))
  }

  // The edit has nothing left to do.
  ghost predicate Settled(src: bytes, e: Edit) {
    if e.delete then
      Refusal(e) == Some(KeyNotFound)
      || (Refusal(e).None? && match Parse(src) case None => false case Some(f) => Get(f.doc.root, e.keyPath).None?)
    else Refusal(e).None? && BoundIn(src, e)
  }

  lemma SettledStep(src: bytes, e: Edit)
    requires Repeatable(e) && Settled(src, e)
    ensures FoldStep(src, e) == Ok(src)
  {
    hide Parse, Fragment, EditTree, Print, WellFormed, PlainSet, Get;
    if e.delete {
      if Refusal(e).None? {
        var f := Parse(src).value;
        ParseExact(src, f);
        NothingThere(f.doc.root, e, e.keyPath);
      }
    } else {
      PatchedSame(src, e);
    }
  }

  lemma {:induction false} NothingThere(c: Cst, e: Edit, path: seq<bytes>)
    requires WellFormed(c) && e.delete && !e.createIfMissing && Get(c, path).None?
    ensures EditTree(c, e, path) == Err(KeyNotFound)
    decreases |path|
  {
    hide WellFormed, FindKey, Fragment, RemoveItem, SetVal;
    if path != [] && IsObject(c) && FindKey(c.items, path[0]).Some? {
      var i := FindKey(c.items, path[0]).value;
      ItemValueOk(c, i);
      assert Get(c.items[i].val, path[1..]).None?;
      if |path| > 1 { NothingThere(c.items[i].val, e, path[1..]); }
    }
  }

  // What one edit that goes through leaves behind.
  lemma StepSettles(cur: bytes, e: Edit)
    requires Repeatable(e) && Safe(cur, e) && FoldStep(cur, e).Ok?
    ensures Settled(FoldStep(cur, e).value, e)
  {
    hide Parse, Fragment, EditTree, Print, WellFormed, PlainSet, Get, DeleteSafe, BoundIn, Present;
    if !e.delete {
      PlainIsClosed(e);
      PatchedBinds(cur, e);
    } else if Refusal(e).None? {
      DeleteTree(cur, e);
    }
  }

  // A delete of a key either finds nothing, or its result is the tree without it.
  lemma DeleteTree(cur: bytes, e: Edit)
    requires e.delete && !e.createIfMissing && Safe(cur, e) && Refusal(e).None? && FoldStep(cur, e).Ok?
    ensures Parse(cur).Some? && e.keyPath != []
    ensures var root := Parse(cur).value.doc.root;
            && WellFormed(root)
            && if !Present(root, e.keyPath) then FoldStep(cur, e) == Ok(cur) && Get(root, e.keyPath).None?
               else
                 && EditTree(root, e, e.keyPath).Ok?
                 && Parse(FoldStep(cur, e).value) == Some(WithRoot(Parse(cur).value, EditTree(root, e, e.keyPath).value))
                 && Get(EditTree(root, e, e.keyPath).value, e.keyPath).None?
  {
    hide Parse, Fragment, EditTree, Print, WellFormed, Get, DeleteSafe, Present;
    var f := Parse(cur).value;
    ParseExact(cur, f);
    PresentGet(f.doc.root, e.keyPath);
    if Present(f.doc.root, e.keyPath) {
      DeleteExact(cur, e);
      DeleteKeeps(f.doc.root, e, e.keyPath, e.keyPath);
    } else {
      NothingThere(f.doc.root, e, e.keyPath);
    }
  }

  // An edit leaves what another one, at a path it does not meet, has settled.
  lemma StepLeaves(cur: bytes, e: Edit, other: Edit)
    requires Repeatable(e) && Safe(cur, e) && FoldStep(cur, e).Ok?
    requires Settled(cur, other) && Incomparable(e.keyPath, other.keyPath)
    ensures Settled(FoldStep(cur, e).value, other)
  {
    hide Parse, Fragment, EditTree, Print, WellFormed, PlainSet, Get, DeleteSafe, Present, Incomparable;
    if e.delete {
      if Refusal(e).None? {
        DeleteTree(cur, e);
        var root := Parse(cur).value.doc.root;
        if Present(root, e.keyPath) { DeleteKeeps(root, e, e.keyPath, other.keyPath); }
      }
    } else {
      PlainIsClosed(e);
      var f, c := PatchedTree(cur, e);
      SetKeeps(f.doc.root, e, e.keyPath, other.keyPath);
    }
  }

  lemma {:induction false} FoldLeaves(cur: bytes, edits: seq<Edit>, other: Edit)
    requires Resettable(edits) && SafeFold(cur, edits) && Fold(cur, edits).Ok? && Settled(cur, other)
    requires forall k :: 0 <= k < |edits| ==> Incomparable(edits[k].keyPath, other.keyPath)
    ensures Settled(Fold(cur, edits).value, other)
    decreases |edits|
  {
    hide FoldStep, Repeatable, Safe, Settled, Incomparable;
    if edits != [] {
      StepLeaves(cur, edits[0], other);
      FoldLeaves(FoldStep(cur, edits[0]).value, edits[1..], other);
    }
  }

  lemma {:induction false} FoldSettles(cur: bytes, edits: seq<Edit>, k: nat)
    requires Resettable(edits) && SafeFold(cur, edits) && Fold(cur, edits).Ok? && k < |edits|
    ensures Settled(Fold(cur, edits).value, edits[k])
    decreases |edits|
  {
    hide FoldStep, Repeatable, Safe, Settled, Incomparable;
    var next := FoldStep(cur, edits[0]).value;
    if k == 0 {
      StepSettles(cur, edits[0]);
      forall n | 0 <= n < |edits[1..]| ensures Incomparable(edits[1..][n].keyPath, edits[0].keyPath) {
        assert Incomparable(edits[0].keyPath, edits[n + 1].keyPath);
        IncomparableSwap(edits[0].keyPath, edits[n + 1].keyPath);
      }
      FoldLeaves(next, edits[1..], edits[0]);
    } else {
      FoldSettles(next, edits[1..], k - 1);
    }
  }

  lemma {:induction false} FoldSettled(cur: bytes, edits: seq<Edit>)
    requires forall k :: 0 <= k < |edits| ==> Repeatable(edits[k]) && Settled(cur, edits[k])
    ensures Fold(cur, edits) == Ok(cur)
    decreases |edits|
  {
    hide FoldStep, Repeatable, Settled;
    if edits != [] {
      SettledStep(cur, edits[0]);
      FoldSettled(cur, edits[1..]);
    }
  }

  // A plan that sets and resets keys, run again on its own result, writes nothing.
  lemma ResetAgain(before: bytes, edits: seq<Edit>)
    requires Resettable(edits) && SafeFold(before, edits) && Fold(before, edits).Ok?
    ensures Fold(Fold(before, edits).value, edits) == Fold(before, edits)
  {
    hide Fold, Repeatable, SafeFold, Settled, Incomparable;
    var out := Fold(before, edits).value;
    forall k | 0 <= k < |edits| ensures Repeatable(edits[k]) && Settled(out, edits[k]) {
      FoldSettles(before, edits, k);
    }
    FoldSettled(out, edits);
  }
}
