/**
 The write path of internal/clientconfig (atomicwrite.go, rename.go, backup.go,
 write.go, adapter.go) on a disk where every single operation may fail, and
 whose state at every instant in between is on record: a crash is the end of
 the record.
 */
module Disk {
  import opened Bytes
  import opened JsoncEdit
  import opened ConfigPatch

  // The names the write path uses. A temp file lies next to its target.
  datatype Name =
    | Target(path: string)
    | Temp(path: string, nonce: nat)
    | Backup(path: string, stamp: nat, attempt: nat)

  type Files = map<Name, bytes>

  function Look(files: Files, name: Name): Option<bytes> {
    if name in files then Some(files[name]) else None
  }

  // What the system answers to one operation. written: how many bytes of a
  // write are out at the instant it is looked at, or fails.
  datatype Answer =
    | Fine(written: nat)
    | Broken(written: nat)
    | Locked   // the transient answer that a rename may be given

  datatype WriteError = PathEscape | WriteFailed | BackupCollision | PatchFailed(error: Error)

  datatype Written<+T> = Done(value: T) | Failure(error: WriteError)

  // The two states differ at most at the names in some set.
  ghost predicate SameBut(a: Files, b: Files, names: set<Name>) {
    forall n :: n !in names ==> Look(a, n) == Look(b, n)
  }

  // Answer k of a script, and what is left of it behind the first k.
  function Answered(script: seq<Answer>, k: nat): Answer { if k < |script| then script[k] else Fine(0) }

  function Left(script: seq<Answer>, k: nat): seq<Answer> { if k < |script| then script[k..] else [] }

  lemma LeftTwice(script: seq<Answer>, m: nat, n: nat)
    ensures Left(Left(script, m), n) == Left(script, m + n)
    ensures Answered(Left(script, m), n) == Answered(script, m + n)
  {}

  class Volume {
    var files: Files
    // Any answers at all, in the order they will be given; Fine when used up.
    var script: seq<Answer>
    // Every state of the files so far, the current one last.
    ghost var history: seq<Files>

    ghost predicate Valid()
      reads this
    {
      history != [] && history[|history| - 1] == files
    }

    // Nothing that is still asked fails.
    ghost predicate Calm()
      reads this
    {
      forall k :: 0 <= k < |script| ==> script[k].Fine?
    }

    // The record only ever grows.
    ghost predicate Grew(before: seq<Files>)
      reads this
    {
      |before| <= |history| && history[..|before|] == before
    }

    constructor (files: Files, script: seq<Answer>)
      ensures Valid() && this.files == files && history == [files]
    {
      this.files, this.script, this.history := files, script, [files];
    }

    method Ask() returns (a: Answer)
      requires Valid()
      modifies this`script
      ensures Valid()
      ensures a == Answered(old(script), 0) && script == Left(old(script), 1)
      ensures old(Calm()) ==> Calm() && a.Fine?
    {
      if |script| == 0 { return Fine(0); }
      a := script[0];
      script := script[1..];
    }

    method Become(next: Files)
      requires Valid()
      modifies this`files, this`history
      ensures Valid() && files == next && history == old(history) + [next]
    {
      files := next;
      history := history + [next];
    }

    // An exclusive create: an existing name is never opened.
    method OpenExcl(name: Name) returns (ok: bool, exists_: bool)
      requires Valid()
      modifies this
      ensures Valid()
      ensures exists_ <==> name in old(files)
      ensures ok ==> !exists_ && files == old(files)[name := []] && history == old(history) + [files]
      ensures !ok ==> files == old(files) && history == old(history)
      ensures ok <==> name !in old(files) && Answered(old(script), 0).Fine?
      ensures script == if name in old(files) then old(script) else Left(old(script), 1)
      ensures old(Calm()) ==> Calm() && (ok <==> name !in old(files))
    {
      exists_ := name in files;
      ok := false;
      if exists_ { return; }
      var a := Ask();
      if a.Fine? {
        Become(files[name := []]);
        ok := true;
      }
    }

    // A write through the handle of name: some prefix is out before it ends.
    method Write(name: Name, content: bytes) returns (ok: bool)
      requires Valid()
      modifies this
      ensures Valid()
      ensures exists m | 0 <= m <= |content| ::
              && (ok ==> files == old(files)[name := content]
                         && history == old(history) + [old(files)[name := content[..m]], files])
              && (!ok ==> files == old(files)[name := content[..m]] && history == old(history) + [files])
      ensures (ok <==> Answered(old(script), 0).Fine?) && script == Left(old(script), 1)
      ensures old(Calm()) ==> Calm() && ok
    {
      var a := Ask();
      var m := if a.Locked? then 0 else if a.written <= |content| then a.written else |content|;
      var before := files;
      Become(before[name := content[..m]]);
      ok := a.Fine?;
      if ok { Become(before[name := content]); }
    }

    // Sync, chmod and close change no byte.
    method Settle() returns (ok: bool)
      requires Valid()
      modifies this`script
      ensures Valid()
      ensures (ok <==> Answered(old(script), 0).Fine?) && script == Left(old(script), 1)
      ensures old(Calm()) ==> Calm() && ok
    {
      var a := Ask();
      ok := a.Fine?;
    }

    method Remove(name: Name) returns (ok: bool)
      requires Valid()
      modifies this
      ensures Valid()
      ensures ok ==> files == old(files) - {name} && history == old(history) + [files]
      ensures !ok ==> files == old(files) && history == old(history)
      ensures old(Calm()) ==> Calm() && ok
    {
      var a := Ask();
      ok := a.Fine?;
      if ok { Become(files - {name}); }
    }

    // Atomic in the namespace: one state to the next.
    method Rename(from: Name, to: Name) returns (a: Answer)
      requires Valid() && from in files && from != to
      modifies this
      ensures Valid()
      ensures a.Fine? ==> files == (old(files) - {from})[to := old(files)[from]] && history == old(history) + [files]
      ensures !a.Fine? ==> files == old(files) && history == old(history)
      ensures a == Answered(old(script), 0) && script == Left(old(script), 1)
      ensures old(Calm()) ==> Calm() && a.Fine?
    {
      a := Ask();
      if a.Fine? { Become((files - {from})[to := files[from]]); }
    }

    // At most six attempts; only the transient answer is tried again. There is
    // no fallback to writing the target in place.
    method RenameWithRetry(from: Name, to: Name) returns (ok: bool)
      requires Valid() && from in files && from != to
      modifies this
      ensures Valid()
      ensures ok ==> files == (old(files) - {from})[to := old(files)[from]] && history == old(history) + [files]
      ensures !ok ==> files == old(files) && history == old(history)
      ensures Attempts(old(script), script, ok)
      ensures old(Calm()) ==> Calm() && ok
    {
      var a := Rename(from, to);
      if !a.Locked? {
        assert Ends(old(script), 0);
        return a.Fine?;
      }
      for wait := 0 to 5
        invariant Valid() && files == old(files) && history == old(history)
        invariant AllLocked(old(script), wait + 1) && script == Left(old(script), wait + 1)
      {
        a := Rename(from, to);
        LeftTwice(old(script), wait + 1, 0);
        LeftTwice(old(script), wait + 1, 1);
        assert !a.Locked? ==> Ends(old(script), wait + 1);
        if a.Fine? { return true; }
        if !a.Locked? { return false; }
      }
      assert Ends(old(script), 5);
      return false;
    }

    // A fresh, empty temp file next to the target, or nothing but possibly a
    // leftover that could not be removed.
    method CreateTemp(path: string, nonces: seq<nat>) returns (r: Written<Name>)
      requires Valid() && |nonces| == 16
      modifies this
      ensures Valid() && Grew(old(history))
      ensures r.Done? ==> r.value.Temp? && r.value.path == path
      ensures r.Done? ==> r.value !in old(files) && files == old(files)[r.value := []]
      ensures Staged(old(files), files, path)
      ensures forall k :: |old(history)| <= k < |history| ==> Staged(old(files), history[k], path)
      ensures r.Done? <==> FreeTemp(old(files), path, nonces) && Unbroken(old(script), 2)
      ensures r.Done? ==> script == Left(old(script), 2)
      ensures old(Calm()) && FreeTemp(old(files), path, nonces) ==> Calm() && r.Done?
    {
      hide Left, Answered, Unbroken;
      UnbrokenParts(script, 1, 1);
      UnbrokenOne(script);
      UnbrokenOne(Left(script, 1));
      for i := 0 to 16
        invariant Valid() && files == old(files) && history == old(history) && script == old(script)
        invariant old(Calm()) ==> Calm()
        invariant forall j :: 0 <= j < i ==> Temp(path, nonces[j]) in files
      {
        var name := Temp(path, nonces[i]);
        var ok, taken := OpenExcl(name);
        if taken { continue; }
        if !ok { return Failure(WriteFailed); }
        var chmod := Settle();
        if !chmod {
          var removed := Remove(name);
          return Failure(WriteFailed);
        }
        return Done(name);
      }
      return Failure(WriteFailed);
    }

    // Fills the temp file: written, synced, chmodded and closed, in this order.
    method WriteTemp(temp: Name, content: bytes) returns (ok: bool)
      requires Valid() && temp in files
      modifies this
      ensures Valid() && Grew(old(history))
      ensures temp in files && (ok ==> files[temp] == content)
      ensures SameBut(old(files), files, {temp})
      ensures forall k :: |old(history)| <= k < |history| ==> SameBut(old(files), history[k], {temp})
      ensures ok <==> Unbroken(old(script), 4)
      ensures ok ==> script == Left(old(script), 4)
      ensures old(Calm()) ==> Calm() && ok
    {
      LeftEach(script);
      ok := Write(temp, content);
      if !ok { return false; }
      var sync := Settle();
      if !sync { return false; }
      var chmod := Settle();
      if !chmod { return false; }
      var close := Settle();
      return close;
    }

    // A new temp file that holds all of the content, or, but for a leftover,
    // nothing.
    method FilledTemp(path: string, content: bytes, nonces: seq<nat>) returns (r: Written<Name>)
      requires Valid() && |nonces| == 16
      modifies this
      ensures Valid() && Grew(old(history))
      ensures r.Done? ==> r.value.Temp? && r.value !in old(files) && files == old(files)[r.value := content]
      ensures Staged(old(files), files, path)
      ensures forall k :: |old(history)| <= k < |history| ==> Staged(old(files), history[k], path)
      ensures r.Done? <==> FreeTemp(old(files), path, nonces) && Unbroken(old(script), 6)
      ensures r.Done? ==> script == Left(old(script), 6)
      ensures old(Calm()) && FreeTemp(old(files), path, nonces) ==> Calm() && r.Done?
    {
      hide Staged, SameBut, FreeTemp, Left, Answered, Unbroken;
      UnbrokenParts(script, 2, 4);
      ghost var a := files;
      r := CreateTemp(path, nonces);
      if r.Failure? { return; }
      var temp := r.value;
      ghost var n := |history|;
      var ok := WriteTemp(temp, content);
      forall k | n <= k < |history| ensures Staged(a, history[k], path) { TempStaged(a, history[k], path, temp); }
      TempStaged(a, files, path, temp);
      if !ok {
        var removed := Remove(temp);
        return Failure(WriteFailed);
      }
    }

    // All or nothing: at every instant the target holds its old content or the
    // new one, whole, and the new one at the end exactly when the call succeeds.
    method WriteFileAtomic(path: string, content: bytes, nonces: seq<nat>) returns (r: Written<()>)
      requires Valid() && |nonces| == 16
      modifies this
      ensures Valid() && Grew(old(history))
      ensures r.Done? ==> files == old(files)[Target(path) := content]
      ensures r.Failure? ==> Look(files, Target(path)) == Look(old(files), Target(path))
      ensures Replaced(old(files), files, path, content)
      ensures forall k :: |old(history)| <= k < |history| ==> Replaced(old(files), history[k], path, content)
      ensures r.Done? <==> FreeTemp(old(files), path, nonces) && Unbroken(old(script), 7) && Renames(Left(old(script), 7))
      ensures old(Calm()) && FreeTemp(old(files), path, nonces) ==> Calm() && r.Done?
    {
      hide Staged, Replaced, Look, FreeTemp, Left, Answered, Unbroken, Attempts;
      UnbrokenParts(script, 1, 6);
      UnbrokenOne(script);
      ghost var a, n := files, |history|;
      ReplacedSame(a, path, content);
      var root := Settle();
      if !root { return Failure(PathEscape); }
      var temp := FilledTemp(path, content, nonces);
      forall k | n <= k < |history| ensures Replaced(a, history[k], path, content) { StagedReplaced(a, history[k], path, content); }
      StagedReplaced(a, files, path, content);
      if temp.Failure? { return Failure(temp.error); }
      TempGone(a, path, temp.value, content);
      ghost var asked := script;
      var renamed := RenameWithRetry(temp.value, Target(path));
      AttemptsExact(asked, script, renamed);
      // The cleanup runs on every path; after a rename the name is gone already.
      if temp.value in files {
        var removed := Remove(temp.value);
      }
      if !renamed { return Failure(WriteFailed); }
      return Done(());
    }

    // A copy of content under a name that nobody has. An existing file is never
    // touched, and only eight taken names make the call give up.
    method WriteExclusiveBackup(path: string, content: bytes, stamp: nat) returns (r: Written<Name>)
      requires Valid()
      modifies this
      ensures Valid() && Grew(old(history))
      ensures r.Done? ==> exists i | 0 <= i < 8 ::
              && r.value == Backup(path, stamp, i) && r.value !in old(files)
              && files == old(files)[r.value := content]
              && forall j :: 0 <= j < i ==> Backup(path, stamp, j) in old(files)
      ensures r == Failure(BackupCollision) <==> forall j :: 0 <= j < 8 ==> Backup(path, stamp, j) in old(files)
      ensures Backed(old(files), files, path)
      ensures forall k :: |old(history)| <= k < |history| ==> Backed(old(files), history[k], path)
      ensures r.Done? <==> FreeBackup(old(files), path, stamp) && Unbroken(old(script), 5)
      ensures r.Done? ==> script == Left(old(script), 5)
      ensures old(Calm()) ==> Calm() && (r.Done? <==> FreeBackup(old(files), path, stamp))
    {
      hide Left, Answered, Unbroken, Backed, SameBut;
      UnbrokenParts(script, 1, 4);
      UnbrokenOne(script);
      ghost var a, before := files, |history|;
      BackedSame(a, path);
      for i := 0 to 8
        invariant Valid() && files == old(files) && history == old(history) && script == old(script)
        invariant old(Calm()) ==> Calm()
        invariant forall j :: 0 <= j < i ==> Backup(path, stamp, j) in files
      {
        var name := Backup(path, stamp, i);
        var ok, taken := OpenExcl(name);
        if taken { continue; }
        if !ok { return Failure(WriteFailed); }
        BackupBacked(a, files, path, name);
        var steps := FillBackup(name, content);
        forall k | before < k < |history| ensures Backed(a, history[k], path) { BackupBacked(a, history[k], path, name); }
        BackupBacked(a, files, path, name);
        if !steps {
          var removed := Remove(name);
          return Failure(WriteFailed);
        }
        return Done(name);
      }
      return Failure(BackupCollision);
    }

    method FillBackup(name: Name, content: bytes) returns (ok: bool)
      requires Valid() && name in files
      modifies this
      ensures Valid() && Grew(old(history))
      ensures ok ==> files == old(files)[name := content]
      ensures SameBut(old(files), files, {name})
      ensures forall k :: |old(history)| <= k < |history| ==> SameBut(old(files), history[k], {name})
      ensures ok <==> Unbroken(old(script), 4)
      ensures ok ==> script == Left(old(script), 4)
      ensures old(Calm()) ==> Calm() && ok
    {
      LeftEach(script);
      ok := Write(name, content);
      if !ok { return false; }
      var chmod := Settle();
      if !chmod { return false; }
      var sync := Settle();
      if !sync { return false; }
      var close := Settle();
      return close;
    }

    // Back up, then replace. For a file that existed the old bytes are at every
    // instant in the target or in a complete backup that was not there before.
    method BackupAndWrite(path: string, existed: bool, was: bytes, content: bytes, stamp: nat, nonces: seq<nat>)
      returns (backup: Option<Name>, r: Written<()>)
      requires Valid() && |nonces| == 16
      modifies this
      ensures Valid() && Grew(old(history))
      ensures r.Done? ==> Look(files, Target(path)) == Some(content)
      ensures r.Failure? ==> Look(files, Target(path)) == Look(old(files), Target(path))
      ensures Rewritten(old(files), files, path, content)
      ensures forall k :: |old(history)| <= k < |history| ==> Rewritten(old(files), history[k], path, content)
      ensures backup.Some? ==> backup.value !in old(files) && Look(files, backup.value) == Some(was)
      ensures existed && r.Done? ==> backup.Some?
      ensures existed && Look(old(files), Target(path)) == Some(was) ==>
              forall k :: |old(history)| <= k < |history| ==> Survives(old(files), history[k], path, was)
      ensures old(Calm()) && FreeTemp(old(files), path, nonces) && (existed ==> FreeBackup(old(files), path, stamp)) ==>
              Calm() && r.Done?
      ensures var asked := if existed then 6 else 1;
              r.Done? <==> (existed ==> FreeBackup(old(files), path, stamp)) && FreeTemp(old(files), path, nonces)
                           && Unbroken(old(script), asked + 7) && Renames(Left(old(script), asked + 7))
    {
      hide FreeTemp, FreeBackup, Look, Backed, Replaced, Rewritten, Survives, Left, Answered, Unbroken, Renames;
      UnbrokenOne(script);
      UnbrokenParts(script, 1, 5);
      UnbrokenParts(script, 1, 7);
      UnbrokenParts(script, 6, 7);
      ghost var a := files;
      backup := None;
      BackedRewritten(a, a, path, was, content);
      var root := Settle();
      if !root { return None, Failure(PathEscape); }
      if existed {
        var b := WriteExclusiveBackup(path, was, stamp);
        forall k | |old(history)| <= k < |history|
          ensures Rewritten(a, history[k], path, content)
          ensures Look(a, Target(path)) == Some(was) ==> Survives(a, history[k], path, was)
        {
          BackedRewritten(a, history[k], path, was, content);
        }
        BackedRewritten(a, files, path, was, content);
        if b.Failure? { return None, Failure(b.error); }
        backup := Some(b.value);
      }
      ghost var mid, n := files, |history|;
      StillFreeTemp(a, mid, path, nonces);
      r := WriteFileAtomic(path, content, nonces);
      forall k | n <= k < |history|
        ensures Rewritten(a, history[k], path, content)
        ensures backup.Some? ==> Survives(a, history[k], path, was)
      {
        ThenReplaced(a, mid, history[k], path, content);
        if backup.Some? { KeepsBackup(a, history[k], path, was, content, backup.value); }
      }
      ThenReplaced(a, mid, files, path, content);
      LookNew(mid, Target(path), content);
      if backup.Some? { KeepsBackup(a, files, path, was, content, backup.value); }
    }

    // One file: read, patch, back up, replace; or nothing, where the content
    // would stay what it is.
    method ApplyOnePlan(plan: FilePlan, stamp: nat, nonces: seq<nat>) returns (r: Written<bool>)
      requires Valid() && |nonces| == 16
      modifies this
      ensures Valid() && Grew(old(history))
      ensures r.Done? ==> Planned(Look(old(files), Target(plan.path)), plan.edits).Ok?
      ensures r.Done? ==> Look(files, Target(plan.path)) == Planned(Look(old(files), Target(plan.path)), plan.edits).value
      ensures r.Failure? ==> Look(files, Target(plan.path)) == Look(old(files), Target(plan.path))
      ensures OneTarget(old(files), files, plan)
      ensures forall k :: |old(history)| <= k < |history| ==> OneTarget(old(files), history[k], plan)
      ensures Elsewhere(old(files), files, plan.path)
      ensures old(Calm()) && Free(old(files), plan.path, stamp, nonces) ==>
              Calm() && (r.Done? <==> Planned(Look(old(files), Target(plan.path)), plan.edits).Ok?)
    {
      hide PlanOutcome, Left, Answered, Unbroken, Renames, Survives;
      var guard := Settle();
      if !guard { return Failure(PathEscape); }
      var readable := Settle();
      if !readable { return Failure(WriteFailed); }
      var found := Look(files, Target(plan.path));
      var before := if found.Some? then found.value else [];
      var content := PlanContent(before, plan.edits);
      if content.Err? { return Failure(PatchFailed(content.error)); }
      if content.value.None? { return Done(false); }
      var backup, w := BackupAndWrite(plan.path, found.Some?, before, content.value.value, stamp, nonces);
      if w.Failure? { return Failure(w.error); }
      return Done(true);
    }

    // The plans in order, up to the first that fails: at every instant the
    // targets are as some number of plans, applied whole, leaves them.
    method ApplyPlans(plans: seq<FilePlan>, stamps: seq<nat>, nonces: seq<seq<nat>>) returns (applied: nat, err: Option<WriteError>)
      requires Valid() && |stamps| == |nonces| == |plans| && forall k :: 0 <= k < |nonces| ==> |nonces[k]| == 16
      modifies this
      ensures Valid() && Grew(old(history))
      ensures applied <= |plans| && (err.None? ==> applied == |plans|)
      ensures AsAfter(old(files), files, plans[..applied])
      ensures forall n :: 0 <= n < applied ==> Accepted(old(files), plans, n)
      ensures forall k :: |old(history)| <= k < |history| ==> AsAfterSome(old(files), history[k], plans)
      ensures old(Calm()) && AllFree(old(files), plans, stamps, nonces) ==>
              (err.None? <==> forall n :: 0 <= n < |plans| ==> Accepted(old(files), plans, n))
    {
      hide After, Planned, OneTarget, Look, AsAfter, AsAfterSome, Accepted, AllFree, Free, Elsewhere;
      applied := 0;
      NoPlans(files);
      assert plans[..0] == [] && plans[0..] == plans && stamps[0..] == stamps && nonces[0..] == nonces;
      while applied < |plans|
        invariant Valid() && Grew(old(history)) && applied <= |plans|
        invariant AsAfter(old(files), files, plans[..applied])
        invariant forall n :: 0 <= n < applied ==> Accepted(old(files), plans, n)
        invariant forall k :: |old(history)| <= k < |history| ==> AsAfterSome(old(files), history[k], plans)
        invariant old(Calm()) && AllFree(old(files), plans, stamps, nonces) ==> Calm()
        invariant AllFree(old(files), plans, stamps, nonces) ==> AllFree(files, plans[applied..], stamps[applied..], nonces[applied..])
      {
        ghost var mid, n := files, |history|;
        var p := plans[applied];
        var one := ApplyOnePlan(p, stamps[applied], nonces[applied]);
        forall k | n <= k < |history| ensures AsAfterSome(old(files), history[k], plans) {
          OneMorePlan(old(files), mid, history[k], plans, applied);
        }
        NextFree(old(files), mid, files, plans, stamps, nonces, applied);
        AcceptedHere(old(files), mid, plans, applied);
        if one.Failure? {
          TargetsSame(old(files), mid, files, plans[..applied], p);
          return applied, Some(one.error);
        }
        PlanDone(old(files), mid, files, plans, applied);
        applied := applied + 1;
      }
      return applied, None;
    }
  }

  // The first n answers are fine.
  predicate Unbroken(script: seq<Answer>, n: nat) { forall k :: 0 <= k < n ==> Answered(script, k).Fine? }

  predicate AllLocked(script: seq<Answer>, n: nat) { forall k :: 0 <= k < n ==> Answered(script, k).Locked? }

  // The rename that answer n ends: the answers in front of it were locks, and it
  // is no lock, or the sixth.
  predicate Ends(script: seq<Answer>, n: nat) {
    n <= 5 && AllLocked(script, n) && (Answered(script, n).Locked? ==> n == 5)
  }

  // At most five locks are waited out, nothing else is tried again, and the last
  // answer is the outcome.
  ghost predicate Attempts(before: seq<Answer>, after: seq<Answer>, ok: bool) {
    exists n: nat :: Ends(before, n) && after == Left(before, n + 1) && (ok <==> Answered(before, n).Fine?)
  }

  // The rename goes through: at most five locks, then a fine answer.
  predicate Renames(script: seq<Answer>) {
    exists n | 0 <= n <= 5 :: Answered(script, n).Fine? && AllLocked(script, n)
  }

  lemma AttemptsExact(before: seq<Answer>, after: seq<Answer>, ok: bool)
    requires Attempts(before, after, ok)
    ensures ok <==> Renames(before)
  {
    hide Left;
    ghost var n: nat :| Ends(before, n) && after == Left(before, n + 1) && (ok <==> Answered(before, n).Fine?);
    if Renames(before) {
      ghost var m: nat :| m <= 5 && Answered(before, m).Fine? && AllLocked(before, m);
      assert m < n ==> Answered(before, m).Locked?;
      assert n < m ==> Answered(before, n).Locked?;
    }
  }

  lemma UnbrokenOne(script: seq<Answer>)
    ensures Unbroken(script, 1) <==> Answered(script, 0).Fine?
  {}

  lemma UnbrokenParts(script: seq<Answer>, m: nat, n: nat)
    ensures Unbroken(script, m + n) <==> Unbroken(script, m) && Unbroken(Left(script, m), n)
    ensures Left(Left(script, m), n) == Left(script, m + n)
  {
    hide Answered, Left;
    forall k: nat ensures Answered(Left(script, m), k) == Answered(script, m + k) { LeftTwice(script, m, k); }
    LeftTwice(script, m, n);
    if Unbroken(script, m + n) {
      forall k | 0 <= k < n ensures Answered(Left(script, m), k).Fine? { assert Answered(script, m + k).Fine?; }
    }
    if Unbroken(script, m) && Unbroken(Left(script, m), n) {
      forall k | 0 <= k < m + n ensures Answered(script, k).Fine? {
        if k >= m { assert Answered(Left(script, m), k - m).Fine?; }
      }
    }
  }

  lemma LeftEach(script: seq<Answer>)
    ensures Left(Left(script, 1), 1) == Left(script, 2) && Left(Left(script, 2), 1) == Left(script, 3)
    ensures Left(Left(script, 3), 1) == Left(script, 4)
    ensures Answered(Left(script, 1), 0) == Answered(script, 1) && Answered(Left(script, 2), 0) == Answered(script, 2)
    ensures Answered(Left(script, 3), 0) == Answered(script, 3)
  {
    LeftTwice(script, 1, 1);
    LeftTwice(script, 2, 1);
    LeftTwice(script, 3, 1);
    LeftTwice(script, 1, 0);
    LeftTwice(script, 2, 0);
    LeftTwice(script, 3, 0);
  }

  // One of the sixteen temp names, and one of the eight backup names, is not taken.
  ghost predicate FreeTemp(files: Files, path: string, nonces: seq<nat>)
    requires |nonces| == 16
  {
    exists i | 0 <= i < 16 :: Temp(path, nonces[i]) !in files
  }

  ghost predicate FreeBackup(files: Files, path: string, stamp: nat) {
    exists i | 0 <= i < 8 :: Backup(path, stamp, i) !in files
  }

  ghost predicate Free(files: Files, path: string, stamp: nat, nonces: seq<nat>)
    requires |nonces| == 16
  {
    FreeTemp(files, path, nonces) && FreeBackup(files, path, stamp)
  }

  // Names for every plan, and no two plans for one file.
  ghost predicate AllFree(files: Files, plans: seq<FilePlan>, stamps: seq<nat>, nonces: seq<seq<nat>>)
    requires |stamps| == |nonces| == |plans| && forall k :: 0 <= k < |nonces| ==> |nonces[k]| == 16
  {
    && (forall n :: 0 <= n < |plans| ==> Free(files, plans[n].path, stamps[n], nonces[n]))
    && (forall m, n :: 0 <= m < n < |plans| ==> plans[m].path != plans[n].path)
  }

  ghost predicate Elsewhere(a: Files, b: Files, path: string) {
    forall n: Name :: n.path != path ==> Look(a, n) == Look(b, n)
  }

  lemma StillFree(a: Files, b: Files, path: string, other: string, stamp: nat, nonces: seq<nat>)
    requires |nonces| == 16 && Elsewhere(a, b, path) && other != path && Free(a, other, stamp, nonces)
    ensures Free(b, other, stamp, nonces)
  {
    ghost var i :| 0 <= i < 16 && Temp(other, nonces[i]) !in a;
    ghost var j: nat :| j < 8 && Backup(other, stamp, j) !in a;
    assert Look(a, Temp(other, nonces[i])) == Look(b, Temp(other, nonces[i]));
    assert Look(a, Backup(other, stamp, j)) == Look(b, Backup(other, stamp, j));
  }

  // The names of the plans to come are still free after plan n.
  lemma NextFree(a: Files, mid: Files, b: Files, plans: seq<FilePlan>, stamps: seq<nat>, nonces: seq<seq<nat>>, n: nat)
    requires |stamps| == |nonces| == |plans| && forall k :: 0 <= k < |nonces| ==> |nonces[k]| == 16
    requires n < |plans| && Elsewhere(mid, b, plans[n].path)
    requires AllFree(a, plans, stamps, nonces) ==> AllFree(mid, plans[n..], stamps[n..], nonces[n..])
    ensures AllFree(a, plans, stamps, nonces) ==>
            Free(mid, plans[n].path, stamps[n], nonces[n]) && AllFree(b, plans[n + 1..], stamps[n + 1..], nonces[n + 1..])
  {
    hide Free, Elsewhere;
    if AllFree(a, plans, stamps, nonces) {
      assert plans[n..][0] == plans[n] && stamps[n..][0] == stamps[n] && nonces[n..][0] == nonces[n];
      var ps, ss, ns := plans[n + 1..], stamps[n + 1..], nonces[n + 1..];
      forall k | 0 <= k < |ps| ensures Free(b, ps[k].path, ss[k], ns[k]) {
        assert ps[k] == plans[n..][k + 1] && ss[k] == stamps[n..][k + 1] && ns[k] == nonces[n..][k + 1];
        StillFree(mid, b, plans[n].path, ps[k].path, ss[k], ns[k]);
      }
    }
  }

  datatype FilePlan = FilePlan(path: string, edits: seq<Edit>)

  // The content of a target after its plan, absent files included.
  ghost function Planned(found: Option<bytes>, edits: seq<Edit>): Result<Option<bytes>> {
    match PlanOutcome(if found.Some? then found.value else [], edits)
    case Err(x) => Err(x)
    case Ok(content) => Ok(if content.None? then found else content)
  }

  ghost function AfterPlan(found: Option<bytes>, path: string, plan: FilePlan): Option<bytes> {
    if plan.path == path && Planned(found, plan.edits).Ok? then Planned(found, plan.edits).value else found
  }

  // The content of the target at path after all the plans.
  ghost function After(found: Option<bytes>, path: string, plans: seq<FilePlan>): Option<bytes> {
    if plans == [] then found
    else AfterPlan(After(found, path, plans[..|plans| - 1]), path, plans[|plans| - 1])
  }

  ghost predicate AsAfter(a: Files, b: Files, plans: seq<FilePlan>) {
    forall path :: Look(b, Target(path)) == After(Look(a, Target(path)), path, plans)
  }

  ghost predicate AsAfterSome(a: Files, b: Files, plans: seq<FilePlan>) {
    exists k | 0 <= k <= |plans| :: AsAfter(a, b, plans[..k])
  }

  // No target but the plan's moves, and that one holds the old or the planned content.
  ghost predicate OneTarget(a: Files, b: Files, plan: FilePlan) {
    && (forall path :: path != plan.path ==> Look(b, Target(path)) == Look(a, Target(path)))
    && (Look(b, Target(plan.path)) == Look(a, Target(plan.path))
        || Look(b, Target(plan.path)) == AfterPlan(Look(a, Target(plan.path)), plan.path, plan))
  }

  lemma NoPlans(a: Files)
    ensures AsAfter(a, a, [])
  {
  }

  // The patch of plan n goes through on what the plans in front of it leave.
  ghost predicate Accepted(a: Files, plans: seq<FilePlan>, n: nat)
    requires n < |plans|
  {
    var path := plans[n].path;
    Planned(After(Look(a, Target(path)), path, plans[..n]), plans[n].edits).Ok?
  }

  lemma AcceptedHere(a: Files, mid: Files, plans: seq<FilePlan>, n: nat)
    requires n < |plans| && AsAfter(a, mid, plans[..n])
    ensures Accepted(a, plans, n) <==> Planned(Look(mid, Target(plans[n].path)), plans[n].edits).Ok?
  {
    hide After, Planned;
    assert Look(mid, Target(plans[n].path)) == After(Look(a, Target(plans[n].path)), plans[n].path, plans[..n]);
  }

  lemma OneMorePlan(a: Files, mid: Files, b: Files, plans: seq<FilePlan>, n: nat)
    requires n < |plans| && AsAfter(a, mid, plans[..n]) && OneTarget(mid, b, plans[n])
    ensures AsAfterSome(a, b, plans)
  {
    hide Planned;
    var p := plans[n];
    assert plans[..n + 1][..n] == plans[..n] && plans[..n + 1][n] == p;
    if Look(b, Target(p.path)) == Look(mid, Target(p.path)) {
      assert AsAfter(a, b, plans[..n]);
    } else {
      forall path ensures Look(b, Target(path)) == After(Look(a, Target(path)), path, plans[..n + 1]) {
        assert Look(mid, Target(path)) == After(Look(a, Target(path)), path, plans[..n]);
      }
      assert AsAfter(a, b, plans[..n + 1]);
    }
  }

  lemma PlanDone(a: Files, mid: Files, b: Files, plans: seq<FilePlan>, n: nat)
    requires n < |plans| && AsAfter(a, mid, plans[..n]) && OneTarget(mid, b, plans[n])
    requires Look(b, Target(plans[n].path)) == AfterPlan(Look(mid, Target(plans[n].path)), plans[n].path, plans[n])
    ensures AsAfter(a, b, plans[..n + 1])
  {
    hide Planned;
    assert plans[..n + 1][..n] == plans[..n] && plans[..n + 1][n] == plans[n];
    forall path ensures Look(b, Target(path)) == After(Look(a, Target(path)), path, plans[..n + 1]) {
      assert Look(mid, Target(path)) == After(Look(a, Target(path)), path, plans[..n]);
    }
  }

  lemma TargetsSame(a: Files, mid: Files, b: Files, plans: seq<FilePlan>, p: FilePlan)
    requires AsAfter(a, mid, plans) && OneTarget(mid, b, p)
    requires Look(b, Target(p.path)) == Look(mid, Target(p.path))
    ensures AsAfter(a, b, plans)
  {
    forall path ensures Look(b, Target(path)) == After(Look(a, Target(path)), path, plans) {
      assert Look(mid, Target(path)) == After(Look(a, Target(path)), path, plans);
    }
  }

  // Only temp files of the path came or went.
  ghost predicate Staged(a: Files, b: Files, path: string) {
    forall n :: n in a || !(n.Temp? && n.path == path) ==> Look(a, n) == Look(b, n)
  }

  // Besides, the target may hold the new content.
  ghost predicate Replaced(a: Files, b: Files, path: string, content: bytes) {
    && (Look(b, Target(path)) == Look(a, Target(path)) || Look(b, Target(path)) == Some(content))
    && forall n :: n != Target(path) && (n in a || !(n.Temp? && n.path == path)) ==> Look(a, n) == Look(b, n)
  }

  lemma ReplacedSame(a: Files, path: string, content: bytes)
    ensures Replaced(a, a, path, content)
  {}

  lemma StagedReplaced(a: Files, b: Files, path: string, content: bytes)
    requires Staged(a, b, path)
    ensures Replaced(a, b, path, content) && Look(b, Target(path)) == Look(a, Target(path))
  {}

  // A new temp file of the path may hold anything, or be gone again.
  lemma TempStaged(a: Files, b: Files, path: string, temp: Name)
    requires temp.Temp? && temp.path == path && temp !in a && SameBut(a[temp := []], b, {temp})
    ensures Staged(a, b, path) && Staged(a, b - {temp}, path)
    ensures temp in b ==> b == a[temp := b[temp]]
  {
    forall n | n != temp ensures Look(a, n) == Look(b, n) == Look(b - {temp}, n) {
      assert Look(a[temp := []], n) == Look(b, n);
    }
    forall n: Name ensures n in b && n != temp <==> n in a
                   ensures n in a ==> b[n] == a[n] {
      assert n != temp ==> Look(a, n) == Look(b, n);
    }
  }

  // Moved over the target, it leaves the new content there and nothing else.
  lemma TempGone(a: Files, path: string, temp: Name, content: bytes)
    requires temp.Temp? && temp !in a
    ensures a[temp := content] - {temp} == a
    ensures (a[temp := content] - {temp})[Target(path) := content] == a[Target(path) := content]
    ensures Replaced(a, a[Target(path) := content], path, content)
  {}

  // Only new backups of the path came or went.
  ghost predicate Backed(a: Files, b: Files, path: string) {
    forall n :: n in a || !(n.Backup? && n.path == path) ==> Look(a, n) == Look(b, n)
  }

  lemma BackedSame(a: Files, path: string)
    ensures Backed(a, a, path)
  {}

  // A new backup of the path may hold anything, or be gone again.
  lemma BackupBacked(a: Files, b: Files, path: string, name: Name)
    requires name.Backup? && name.path == path && name !in a
    requires SameBut(a[name := []], b, {name}) || b == a[name := []]
    ensures Backed(a, b, path) && Backed(a, b - {name}, path)
  {
    forall n | n != name ensures Look(a, n) == Look(b, n) == Look(b - {name}, n) {
      assert Look(a[name := []], n) == Look(b, n);
    }
  }

  // All of it: nothing that existed is touched but the target, and that only to
  // hold the new content.
  ghost predicate Rewritten(a: Files, b: Files, path: string, content: bytes) {
    && (Look(b, Target(path)) == Look(a, Target(path)) || Look(b, Target(path)) == Some(content))
    && forall n :: n != Target(path) && (n in a || n.Target? || n.path != path) ==> Look(a, n) == Look(b, n)
  }

  // What a state with new backups only means for the whole write.
  lemma BackedRewritten(a: Files, b: Files, path: string, was: bytes, content: bytes)
    requires Backed(a, b, path) || a == b
    ensures Backed(a, b, path) && Rewritten(a, b, path, content) && Look(b, Target(path)) == Look(a, Target(path))
    ensures Look(a, Target(path)) == Some(was) ==> Survives(a, b, path, was)
  {}

  lemma LookNew(a: Files, name: Name, content: bytes)
    ensures Look(a[name := content], name) == Some(content)
  {}

  lemma ThenReplaced(a: Files, mid: Files, b: Files, path: string, content: bytes)
    requires Backed(a, mid, path) && Replaced(mid, b, path, content)
    ensures Rewritten(a, b, path, content)
  {
    forall n | n != Target(path) && (n in a || n.Target? || n.path != path) ensures Look(a, n) == Look(b, n) {
      assert Look(a, n) == Look(mid, n);
    }
    assert Look(a, Target(path)) == Look(mid, Target(path));
  }

  lemma KeepsBackup(a: Files, b: Files, path: string, was: bytes, content: bytes, backup: Name)
    requires backup.Backup? && backup.path == path && backup !in a
    requires Replaced(a[backup := was], b, path, content)
    ensures Survives(a, b, path, was) && Look(b, backup) == Some(was)
  {
    assert Look(a[backup := was], backup) == Look(b, backup);
    assert Look(b, Backup(path, backup.stamp, backup.attempt)) == Some(was);
  }

  lemma StillFreeTemp(a: Files, b: Files, path: string, nonces: seq<nat>)
    requires |nonces| == 16 && Backed(a, b, path)
    ensures FreeTemp(a, path, nonces) <==> FreeTemp(b, path, nonces)
  {
    forall i | 0 <= i < 16 ensures Temp(path, nonces[i]) in a <==> Temp(path, nonces[i]) in b {
      assert Look(a, Temp(path, nonces[i])) == Look(b, Temp(path, nonces[i]));
    }
  }

  // The old bytes are in the target or in a backup made since.
  ghost predicate Survives(a: Files, b: Files, path: string, was: bytes) {
    || Look(b, Target(path)) == Some(was)
    || exists stamp, i :: Backup(path, stamp, i) !in a && Look(b, Backup(path, stamp, i)) == Some(was)
  }
}
