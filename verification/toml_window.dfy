/**
 A key stands in one element of every array of tables above it. The lines that
 can meet it are those in front of and behind it up to the next header that
 opens another such element.
 */
module TomlWindow {
  import opened Bytes
  import opened Toml
  import opened TomlRun

  // The header opens a new element of an array of tables above the key.
  predicate OnTheWay(e: Expr, k: Names) { e.Header? && e.isArray && ProperPrefix(e.path, k) }

  predicate Below(e: Expr, k: Names) { e.Header? && ProperPrefix(k, e.path) }

  // Going back from the end, a header below the key comes before any new element above it.
  predicate BelowBefore(exprs: seq<Expr>, k: Names)
    decreases |exprs|
  {
    exprs != [] && !OnTheWay(exprs[|exprs| - 1], k)
    && (Below(exprs[|exprs| - 1], k) || BelowBefore(exprs[..|exprs| - 1], k))
  }

  // The same, going forward.
  predicate BelowAfter(exprs: seq<Expr>, k: Names)
    decreases |exprs|
  {
    exprs != [] && !OnTheWay(exprs[0], k) && (Below(exprs[0], k) || BelowAfter(exprs[1..], k))
  }

  // The lines never set the key or anything below it, and no header is the key's own.
  predicate Unset(exprs: seq<Expr>, table: Names, k: Names)
    decreases |exprs|
  {
    if exprs == [] then true
    else match exprs[0]
      case Header(path, _) => path != k && Unset(exprs[1..], path, k)
      case KeyValue(parts, _) => !Prefix(k, table + parts) && Unset(exprs[1..], table, k)
  }

  lemma {:induction false} UnsetConcat(a: seq<Expr>, b: seq<Expr>, table: Names, k: Names)
    ensures Unset(a + b, table, k) <==> Unset(a, table, k) && Unset(b, TableAfter(a, table), k)
    decreases |a|
  {
    if a == [] {
      assert a + b == b;
    } else {
      assert (a + b)[0] == a[0] && (a + b)[1..] == a[1..] + b;
      UnsetConcat(a[1..], b, match a[0] case Header(path, _) => path case KeyValue(_, _) => table, k);
    }
  }

  // ----- the place of the key -----

  function HereKey(es: map<Path, Kind>, k: Names): Path
    requires k != []
  {
    Here(es, [], k[..|k| - 1]) + [K(k[|k| - 1])]
  }

  lemma KeyNames(es: map<Path, Kind>, k: Names)
    requires k != []
    ensures NamesOf(HereKey(es, k)) == k
  {
    hide Here;
    var section := k[..|k| - 1];
    HereNames(es, [], section);
    NamesStep(Here(es, [], section), k[|k| - 1], 0);
    assert NamesOf([]) + section + [k[|k| - 1]] == k;
  }

  lemma KeyNotEmpty(es: map<Path, Kind>, k: Names)
    requires k != []
    ensures HereKey(es, k) != []
  {}

  // A line that opens no new element above the key leaves its place.
  lemma KeyHere(s: State, e: Expr, lenient: bool, k: Names)
    requires AtTable(s) && Step(s, e, lenient).Some? && k != [] && !OnTheWay(e, k)
    ensures HereKey(Step(s, e, lenient).value.entries, k) == HereKey(s.entries, k)
  {
    hide Here, Arr, Step;
    StepHere(s, e, lenient);
    var t, section := Step(s, e, lenient).value, k[..|k| - 1];
    assert NamesOf([]) + section == section;
    forall q | Prefix(NamesOf(q), section) ensures Arr(t.entries, q) == Arr(s.entries, q) {
      assert section[..|NamesOf(q)|] == k[..|NamesOf(q)|];
    }
    HereSame(t.entries, s.entries, [], section);
  }

  // ----- what a run keeps about its table -----

  // Every name on the way stands for something.
  ghost predicate Rooted(es: map<Path, Kind>, p: Path) {
    forall i :: 0 < i <= |p| && p[i - 1].K? ==> p[..i] in es
  }

  lemma RootedLasts(es: map<Path, Kind>, fs: map<Path, Kind>, p: Path)
    requires Rooted(es, p) && Lasts(es, fs)
    ensures Rooted(fs, p)
  {}

  lemma RootedOn(es: map<Path, Kind>, p: Path, c: Comp)
    requires Rooted(es, p) && (c.K? ==> p + [c] in es)
    ensures Rooted(es, p + [c])
  {
    var q := p + [c];
    assert q[..|q|] == q;
    assert forall i :: 0 <= i <= |p| ==> q[..i] == p[..i];
  }

  lemma {:induction false} EnterAllRooted(es: map<Path, Kind>, base: Path, names: Names)
    requires Rooted(es, base)
    ensures match EnterAll(es, base, names) case None => true case Some((fs, p)) => Rooted(fs, p)
    decreases |names|
  {
    hide Rooted;
    if names != [] {
      match Enter(es, base, names[0])
      case None =>
      case Some((fs, p)) =>
        var q := base + [K(names[0])];
        assert Lasts(es, fs);
        RootedLasts(es, fs, base);
        RootedOn(fs, base, K(names[0]));
        if Arr(es, q).Some? { RootedOn(fs, q, E(Newest(Arr(es, q).value))); }
        EnterAllRooted(fs, p, names[1..]);
    }
  }

  ghost predicate Good(s: State) {
    AtTable(s) && Counted(s.entries) && PathCounted(s.entries, s.table) && Rooted(s.entries, s.table)
  }

  lemma GoodStart()
    ensures Good(START)
  {}

  lemma StepGood(s: State, e: Expr, lenient: bool)
    requires Good(s) && Step(s, e, lenient).Some?
    ensures Good(Step(s, e, lenient).value)
  {
    hide Rooted, Counted, PathCounted, AtTable, Define;
    StepHere(s, e, lenient);
    StepCounted(s, e, lenient);
    StepLasts(s, e, lenient);
    match e
    case Header(path, isArray) =>
      var last := |path| - 1;
      assert Rooted(s.entries, []) by { NoRoot(s.entries); }
      EnterAllRooted(s.entries, [], path[..last]);
      var (es, base) := EnterAll(s.entries, [], path[..last]).value;
      DefineRooted(es, base, path[last], isArray);
    case KeyValue(_, _) => RootedLasts(s.entries, Step(s, e, lenient).value.entries, s.table);
  }

  lemma NoRoot(es: map<Path, Kind>)
    ensures Rooted(es, [])
  {}

  lemma DefineRooted(es: map<Path, Kind>, base: Path, name: string, isArray: bool)
    requires Rooted(es, base) && Define(es, base + [K(name)], isArray).Some?
    ensures var t := Define(es, base + [K(name)], isArray).value; Rooted(t.entries, t.table)
  {
    hide Rooted;
    var t := Define(es, base + [K(name)], isArray).value;
    assert Lasts(es, t.entries);
    RootedLasts(es, t.entries, base);
    RootedOn(t.entries, base, K(name));
    if isArray { RootedOn(t.entries, base + [K(name)], t.table[|base| + 1]); }
  }

  lemma {:induction false} RunGood(s: State, exprs: seq<Expr>, lenient: bool)
    requires Good(s)
    ensures Run(s, exprs, lenient).Some? ==> Good(Run(s, exprs, lenient).value)
    decreases |exprs|
  {
    hide Good;
    if exprs != [] && Step(s, exprs[0], lenient).Some? {
      StepGood(s, exprs[0], lenient);
      RunGood(Step(s, exprs[0], lenient).value, exprs[1..], lenient);
    }
  }

  // ----- in front of the key -----

  // A new element above the key is empty: the key's place in it is free.
  lemma NewElement(s: State, path: Names, lenient: bool, k: Names)
    requires Good(s) && OnTheWay(Header(path, true), k) && Step(s, Header(path, true), lenient).Some?
    ensures var t := Step(s, Header(path, true), lenient).value; HereKey(t.entries, k) !in t.entries
  {
    hide Here, Rooted, AllNewest, Counted;
    var t := Step(s, Header(path, true), lenient).value;
    var last, rest := |path| - 1, k[|path|..|k| - 1];
    EnterAllCounted(s.entries, [], path[..last]);
    var (es, base) := EnterAll(s.entries, [], path[..last]).value;
    var p := base + [K(path[last])];
    StepHere(s, Header(path, true), lenient);
    StepTable(s, Header(path, true), lenient);
    assert k[..|k| - 1] == path + rest;
    HereConcat(t.entries, [], path, rest);
    HereExtends(t.entries, t.table, rest);
    var x := HereKey(t.entries, k);
    assert x[..|t.table|] == t.table;
    ElementTaken(es, p, x, t);
  }

  lemma ElementTaken(es: map<Path, Kind>, p: Path, x: Path, t: State)
    requires Counted(es) && Define(es, p, true) == Some(t) && |t.table| < |x| && x[..|t.table|] == t.table
    ensures x !in t.entries
  {
    assert t.table[..|p|] == p && x[..|p|] == x[..|t.table|][..|p|];
    assert x[|p|] == x[..|t.table|][|p|];
    if x in es { assert PathCounted(es, x); }
  }

  // A header enters, or makes, every table on its way.
  lemma {:induction false} EnterAllThrough(es: map<Path, Kind>, base: Path, names: Names, m: nat)
    requires EnterAll(es, base, names).Some? && m < |names|
    ensures var fs, q := EnterAll(es, base, names).value.0, Here(es, base, names[..m]) + [K(names[m])];
            q in fs && !fs[q].Value?
    decreases |names|
  {
    var (fs, p) := Enter(es, base, names[0]).value;
    EnterAllLasts(fs, p, names[1..]);
    if m > 0 {
      assert names[..m][1..] == names[1..][..m - 1] && names[1..][m - 1] == names[m];
      EnterAllThrough(fs, p, names[1..], m - 1);
      assert SameArrays(es, fs) && p == Into(es, base, names[0]);
      HereSame(es, fs, p, names[1..][..m - 1]);
    }
  }

  lemma ThroughKey(s: State, path: Names, isArray: bool, lenient: bool, k: Names)
    requires k != [] && ProperPrefix(k, path) && Step(s, Header(path, isArray), lenient).Some?
    ensures var t := Step(s, Header(path, isArray), lenient).value; HereKey(s.entries, k) in t.entries
  {
    hide Here;
    var last, m := |path| - 1, |k| - 1;
    assert path[..last][..m] == k[..m] && path[..last][m] == path[..|k|][m] == k[m];
    EnterAllThrough(s.entries, [], path[..last], m);
  }

  // The place of the key is taken at the end of the lines exactly when a header
  // below it is the last that counts.
  lemma {:induction false} TakenExact(exprs: seq<Expr>, lenient: bool, k: Names)
    requires k != [] && Eval(exprs, lenient).Some? && Unset(exprs, [], k)
    ensures var es := Eval(exprs, lenient).value.entries; HereKey(es, k) in es <==> BelowBefore(exprs, k)
    decreases |exprs|
  {
    hide HereKey, Good, Prefix, OnTheWay, Below, Step;
    if exprs == [] {
      assert Eval(exprs, lenient).value.entries == map[];
    } else {
      var last := |exprs| - 1;
      var init, e := exprs[..last], exprs[last];
      assert exprs == init + [e];
      RunConcat(START, init, [e], lenient);
      UnsetConcat(init, [e], [], k);
      var s := Eval(init, lenient).value;
      RunLast(s, e, lenient);
      TableAfterRun(START, init, lenient);
      TakenExact(init, lenient, k);
      GoodStart();
      RunGood(START, init, lenient);
      StepTaken(s, e, lenient, k);
    }
  }

  lemma RunLast(s: State, e: Expr, lenient: bool)
    ensures Run(s, [e], lenient) == Step(s, e, lenient)
  {
    assert [e][1..] == [];
  }

  lemma StepTaken(s: State, e: Expr, lenient: bool, k: Names)
    requires k != [] && Good(s) && Step(s, e, lenient).Some? && Unset([e], NamesOf(s.table), k)
    ensures var t := Step(s, e, lenient).value;
            HereKey(t.entries, k) in t.entries
            <==> !OnTheWay(e, k) && (Below(e, k) || HereKey(s.entries, k) in s.entries)
  {
    hide HereKey, Step, Framed, Apart;
    var t := Step(s, e, lenient).value;
    if OnTheWay(e, k) {
      NewElement(s, e.path, lenient, k);
    } else {
      KeyHere(s, e, lenient, k);
      var x := HereKey(s.entries, k);
      StepLasts(s, e, lenient);
      if Below(e, k) {
        ThroughKey(s, e.path, e.isArray, lenient, k);
      } else {
        KeyNames(s.entries, k);
        NotMet(s, e, k, x);
        StepFrame(s, e, lenient, x, Implicit);
        FrameKeeps(s, e, lenient, x, Implicit);
      }
    }
  }

  // A line that is neither the key's nor below it does not come to its place.
  lemma NotMet(s: State, e: Expr, k: Names, x: Path)
    requires Unset([e], NamesOf(s.table), k) && !Below(e, k) && NamesOf(x) == k
    ensures ApartLine(s, e, x)
  {
    match e
    case Header(path, _) =>
      assert NamesOf([]) + path == path;
      assert path[..|path|] == path;
    case KeyValue(_, _) =>
  }

  lemma FrameKeeps(s: State, e: Expr, lenient: bool, x: Path, v: Kind)
    requires Framed(s, e, lenient, x, v) && ApartLine(s, e, x) && Step(s, e, lenient).Some?
    ensures x !in s.entries ==> x !in Step(s, e, lenient).value.entries
    ensures Step(State(s.entries[x := v], s.table), e, lenient) == With(Step(s, e, lenient), x, v)
  {}

  // ----- behind the key -----

  // x is the place of the key, in a table that is there; no header behind comes to it.
  ghost predicate Ahead(s: State, exprs: seq<Expr>, x: Path, k: Names)
    requires k != []
  {
    && x == HereKey(s.entries, k) && Rooted(s.entries, x[..|x| - 1])
    && Unset(exprs, NamesOf(s.table), k) && !BelowAfter(exprs, k)
  }

  // After a new element above the key its place lies in an older one.
  lemma OlderElement(s: State, path: Names, lenient: bool, k: Names, x: Path)
    requires Good(s) && OnTheWay(Header(path, true), k) && Step(s, Header(path, true), lenient).Some?
    requires x == HereKey(s.entries, k) && Rooted(s.entries, x[..|x| - 1])
    ensures Stale(Step(s, Header(path, true), lenient).value.entries, x)
  {
    hide Here, Rooted, Counted, EnterAll;
    var last, rest := |path| - 1, k[|path|..|k| - 1];
    EnterAllHere(s.entries, [], path[..last]);
    EnterAllLasts(s.entries, [], path[..last]);
    var (es, base) := EnterAll(s.entries, [], path[..last]).value;
    assert k[..|k| - 1] == path + rest;
    HereConcat(s.entries, [], path, rest);
    HereLast(s.entries, [], path);
    var front := Into(s.entries, base, path[last]);
    HereExtends(s.entries, front, rest);
    assert x[..|x| - 1] == Here(s.entries, front, rest);
    assert x[..|front|] == x[..|x| - 1][..|front|] == front;
    OldElement(s.entries, es, base, path[last], x);
  }

  lemma OldElement(ss: map<Path, Kind>, es: map<Path, Kind>, base: Path, name: string, x: Path)
    requires Counted(ss) && SameArrays(ss, es) && Lasts(ss, es) && x != [] && Rooted(ss, x[..|x| - 1])
    requires Define(es, base + [K(name)], true).Some?
    requires var front := Into(ss, base, name); |front| < |x| && x[..|front|] == front
    ensures Stale(Define(es, base + [K(name)], true).value.entries, x)
  {
    var p, front := base + [K(name)], Into(ss, base, name);
    var t := Define(es, p, true).value;
    assert front[..|p|] == p && x[..|p|] == x[..|front|][..|p|];
    assert x[..|x| - 1][..|p|] == x[..|p|] && x[..|x| - 1][|p| - 1] == x[..|p|][|p| - 1];
    assert p in ss && p in es;
    assert Arr(ss, p).Some? && Arr(ss, p) != Some(0);
    assert x[|p|] == x[..|front|][|p|];
  }

  // The lines behind the key never come to its place, whatever stands there.
  lemma {:induction false} RunNear(s: State, exprs: seq<Expr>, lenient: bool, x: Path, v: Kind, k: Names)
    requires Good(s) && k != [] && (Stale(s.entries, x) || Ahead(s, exprs, x, k))
    ensures Run(State(s.entries[x := v], s.table), exprs, lenient) == With(Run(s, exprs, lenient), x, v)
    ensures Run(s, exprs, lenient).Some? && x !in s.entries ==> x !in Run(s, exprs, lenient).value.entries
    decreases |exprs|
  {
    hide HereKey, Good, Step, Framed, Stale, Apart, Rooted, Prefix;
    if exprs != [] {
      var e := exprs[0];
      NearLine(s, exprs, x, k);
      StepFrame(s, e, lenient, x, v);
      FramedStep(s, e, lenient, x, v);
      match Step(s, e, lenient)
      case None =>
      case Some(t) =>
        StepGood(s, e, lenient);
        NearStep(s, exprs, lenient, x, k);
        RunNear(t, exprs[1..], lenient, x, v, k);
    }
  }

  lemma FramedStep(s: State, e: Expr, lenient: bool, x: Path, v: Kind)
    requires Framed(s, e, lenient, x, v) && ApartLine(s, e, x)
    ensures Step(State(s.entries[x := v], s.table), e, lenient) == With(Step(s, e, lenient), x, v)
    ensures Step(s, e, lenient).Some? && x !in s.entries ==> x !in Step(s, e, lenient).value.entries
  {}

  lemma {:induction false} HereNewest(es: map<Path, Kind>, base: Path, names: Names)
    requires AllNewest(es, base)
    ensures AllNewest(es, Here(es, base, names))
    decreases |names|
  {
    hide AllNewest, Into;
    if names != [] {
      IntoNewest(es, base, names[0]);
      HereNewest(es, Into(es, base, names[0]), names[1..]);
    }
  }

  lemma NearLine(s: State, exprs: seq<Expr>, x: Path, k: Names)
    requires Good(s) && k != [] && exprs != [] && (Stale(s.entries, x) || Ahead(s, exprs, x, k))
    ensures ApartLine(s, exprs[0], x)
  {
    hide HereKey, Stale, Rooted, AllNewest, Counted, PathCounted;
    if Stale(s.entries, x) {
      assert AllNewest(s.entries, []) by { NoElements(s.entries); }
      HereNewest(s.entries, [], NamesOf(s.table));
    } else {
      KeyNames(s.entries, k);
      assert Unset([exprs[0]], NamesOf(s.table), k);
      if OnTheWay(exprs[0], k) { AboveNotMet(s, exprs[0], k, x); } else { NotMet(s, exprs[0], k, x); }
    }
  }

  lemma NoElements(es: map<Path, Kind>)
    ensures AllNewest(es, [])
  {}

  lemma AboveNotMet(s: State, e: Expr, k: Names, x: Path)
    requires OnTheWay(e, k) && NamesOf(x) == k
    ensures ApartLine(s, e, x)
  {
    assert NamesOf([]) + e.path == e.path;
  }

  lemma NearStep(s: State, exprs: seq<Expr>, lenient: bool, x: Path, k: Names)
    requires Good(s) && k != [] && exprs != [] && (Stale(s.entries, x) || Ahead(s, exprs, x, k))
    requires Step(s, exprs[0], lenient).Some?
    ensures var t := Step(s, exprs[0], lenient).value; Stale(t.entries, x) || Ahead(t, exprs[1..], x, k)
  {
    hide HereKey, Good, Step, Stale, Rooted, Prefix, Here;
    var e, t := exprs[0], Step(s, exprs[0], lenient).value;
    if Stale(s.entries, x) {
      StillStale(s, e, lenient, x);
    } else if OnTheWay(e, k) {
      OlderElement(s, e.path, lenient, k, x);
    } else {
      assert AtTable(s) by { GoodTable(s); }
      KeyHere(s, e, lenient, k);
      StepLasts(s, e, lenient);
      KeyNotEmpty(s.entries, k);
      RootedLasts(s.entries, t.entries, x[..|x| - 1]);
      StepTable(s, e, lenient);
    }
  }

  lemma GoodTable(s: State)
    requires Good(s)
    ensures AtTable(s)
  {}

  // An array only grows.
  lemma StillStale(s: State, e: Expr, lenient: bool, x: Path)
    requires Good(s) && Stale(s.entries, x) && Step(s, e, lenient).Some?
    ensures Stale(Step(s, e, lenient).value.entries, x)
  {
    hide Here, Rooted, Counted, PathCounted;
    var t := Step(s, e, lenient).value;
    StepGrows(s, e, lenient);
    ghost var i: nat :| i < |x| && x[i].E? && Arr(s.entries, x[..i]).Some? && x[i].index + 1 < Arr(s.entries, x[..i]).value;
    assert Arr(t.entries, x[..i]).Some?;
  }

  lemma StepGrows(s: State, e: Expr, lenient: bool)
    requires Step(s, e, lenient).Some?
    ensures var t := Step(s, e, lenient).value;
            forall p :: Arr(s.entries, p).Some? ==>
              Arr(t.entries, p).Some? && Arr(s.entries, p).value <= Arr(t.entries, p).value
  {
    match e
    case Header(path, isArray) => EnterAllHere(s.entries, [], path[..|path| - 1]);
    case KeyValue(parts, _) => ReachHere(s.entries, s.table, parts[..|parts| - 1], lenient);
  }

  // ----- a header below the key -----

  // It cannot pass through a value.
  lemma {:induction false} EnterAllBlocked(es: map<Path, Kind>, base: Path, names: Names, m: nat)
    requires m < |names|
    requires var q := Here(es, base, names[..m]) + [K(names[m])]; q in es && es[q].Value?
    ensures EnterAll(es, base, names).None?
  {
    if EnterAll(es, base, names).Some? {
      EnterAllThrough(es, base, names, m);
      EnterAllLasts(es, base, names);
    }
  }

  lemma {:induction false} RunBlocked(s: State, exprs: seq<Expr>, lenient: bool, x: Path, k: Names)
    requires AtTable(s) && k != [] && x == HereKey(s.entries, k) && x in s.entries && s.entries[x].Value?
    requires BelowAfter(exprs, k)
    ensures Run(s, exprs, lenient).None?
    decreases |exprs|
  {
    hide HereKey, AtTable, Step;
    var e := exprs[0];
    if Below(e, k) {
      HeaderBlocked(s, e, lenient, k);
    } else if Step(s, e, lenient).Some? {
      StepHere(s, e, lenient);
      KeyHere(s, e, lenient, k);
      StepLasts(s, e, lenient);
      RunBlocked(Step(s, e, lenient).value, exprs[1..], lenient, x, k);
    }
  }

  lemma HeaderBlocked(s: State, e: Expr, lenient: bool, k: Names)
    requires Below(e, k) && k != [] && HereKey(s.entries, k) in s.entries && s.entries[HereKey(s.entries, k)].Value?
    ensures Step(s, e, lenient).None?
  {
    hide Here;
    var last, m := |e.path| - 1, |k| - 1;
    assert e.path[..last][..m] == k[..m] && e.path[..last][m] == e.path[..|k|][m] == k[m];
    EnterAllBlocked(s.entries, [], e.path[..last], m);
  }
}
