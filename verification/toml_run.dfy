/**
 Runs of TOML lines: which table a line is in, which element of every array of
 tables it means, and why a line leaves all the other entries alone.
 */
module TomlRun {
  import opened Bytes
  import opened Toml

  // ----- names and paths -----

  lemma {:induction false} NamesConcat(p: Path, q: Path)
    ensures NamesOf(p + q) == NamesOf(p) + NamesOf(q)
  {
    if p == [] {
      assert p + q == q;
    } else {
      assert (p + q)[1..] == p[1..] + q;
      NamesConcat(p[1..], q);
    }
  }

  lemma NamesStep(p: Path, name: string, n: nat)
    ensures NamesOf(p + [K(name)]) == NamesOf(p) + [name]
    ensures NamesOf(p + [K(name)] + [E(n)]) == NamesOf(p) + [name]
  {
    NamesConcat(p, [K(name)]);
    NamesConcat(p + [K(name)], [E(n)]);
    assert NamesOf([K(name)]) == [name] && NamesOf([E(n)]) == [];
  }

  // ----- runs -----

  function Append(r: Option<State>, exprs: seq<Expr>, lenient: bool): Option<State> {
    match r case None => None case Some(t) => Run(t, exprs, lenient)
  }

  lemma {:induction false} RunConcat(s: State, a: seq<Expr>, b: seq<Expr>, lenient: bool)
    ensures Run(s, a + b, lenient) == Append(Run(s, a, lenient), b, lenient)
    decreases |a|
  {
    if a == [] {
      assert a + b == b;
    } else {
      assert (a + b)[0] == a[0] && (a + b)[1..] == a[1..] + b;
      match Step(s, a[0], lenient)
      case None =>
      case Some(t) => RunConcat(t, a[1..], b, lenient);
    }
  }

  lemma {:induction false} EnterAllNames(es: map<Path, Kind>, base: Path, names: Names)
    ensures EnterAll(es, base, names).Some? ==> NamesOf(EnterAll(es, base, names).value.1) == NamesOf(base) + names
    decreases |names|
  {
    if names != [] {
      match Enter(es, base, names[0])
      case None =>
      case Some((fs, p)) =>
        NamesStep(base, names[0], 0);
        if base + [K(names[0])] in es && es[base + [K(names[0])]].ArrayOf? {
          var n := es[base + [K(names[0])]].count;
          NamesStep(base, names[0], if n == 0 then 0 else n - 1);
        }
        EnterAllNames(fs, p, names[1..]);
        assert NamesOf(base) + [names[0]] + names[1..] == NamesOf(base) + names;
    }
  }

  lemma {:induction false} ReachNames(es: map<Path, Kind>, base: Path, names: Names, lenient: bool)
    ensures var r := Reach(es, base, names, lenient); r.Some? ==> NamesOf(r.value.1) == NamesOf(base) + names
    decreases |names|
  {
    if names != [] {
      var p := base + [K(names[0])];
      NamesStep(base, names[0], 0);
      assert NamesOf(base) + [names[0]] + names[1..] == NamesOf(base) + names;
      ReachNames(if p in es then es else es[p := Dotted], p, names[1..], lenient);
    }
  }

  // The line's own full name.
  function NameAt(table: Names, e: Expr): Names {
    match e case Header(path, _) => path case KeyValue(parts, _) => table + parts
  }

  lemma StepTable(s: State, e: Expr, lenient: bool)
    requires Step(s, e, lenient).Some?
    ensures NamesOf(Step(s, e, lenient).value.table) == if e.Header? then e.path else NamesOf(s.table)
  {
    match e
    case Header(path, isArray) =>
      var last := |path| - 1;
      EnterAllNames(s.entries, [], path[..last]);
      var (es, base) := EnterAll(s.entries, [], path[..last]).value;
      var p := base + [K(path[last])];
      NamesStep(base, path[last], if p in es && es[p].ArrayOf? then es[p].count else 0);
      assert path[..last] + [path[last]] == path;
    case KeyValue(parts, _) =>
  }

  lemma {:induction false} TableAfterRun(s: State, exprs: seq<Expr>, lenient: bool)
    requires Run(s, exprs, lenient).Some?
    ensures NamesOf(Run(s, exprs, lenient).value.table) == TableAfter(exprs, NamesOf(s.table))
    decreases |exprs|
  {
    if exprs != [] {
      StepTable(s, exprs[0], lenient);
      TableAfterRun(Step(s, exprs[0], lenient).value, exprs[1..], lenient);
    }
  }

  // ----- arrays of tables -----

  function Arr(es: map<Path, Kind>, p: Path): Option<nat> {
    if p in es && es[p].ArrayOf? then Some(es[p].count) else None
  }

  function Newest(count: nat): nat { if count == 0 then 0 else count - 1 }

  // One name down, into the newest element where the name is an array.
  function Into(es: map<Path, Kind>, base: Path, name: string): Path {
    var p := base + [K(name)];
    match Arr(es, p) case None => p case Some(n) => p + [E(Newest(n))]
  }

  // Where names lead at the moment.
  function Here(es: map<Path, Kind>, base: Path, names: Names): Path
    decreases |names|
  {
    if names == [] then base else Here(es, Into(es, base, names[0]), names[1..])
  }

  ghost predicate SameArrays(es: map<Path, Kind>, fs: map<Path, Kind>) { forall p :: Arr(es, p) == Arr(fs, p) }

  lemma IntoNames(es: map<Path, Kind>, base: Path, name: string)
    ensures NamesOf(Into(es, base, name)) == NamesOf(base) + [name]
  {
    var a := Arr(es, base + [K(name)]);
    NamesStep(base, name, if a.Some? then Newest(a.value) else 0);
  }

  lemma {:induction false} HereNames(es: map<Path, Kind>, base: Path, names: Names)
    ensures NamesOf(Here(es, base, names)) == NamesOf(base) + names
    decreases |names|
  {
    if names != [] {
      hide Into;
      IntoNames(es, base, names[0]);
      HereNames(es, Into(es, base, names[0]), names[1..]);
      assert NamesOf(base) + [names[0]] + names[1..] == NamesOf(base) + names;
    }
  }

  lemma {:induction false} HereConcat(es: map<Path, Kind>, base: Path, a: Names, b: Names)
    ensures Here(es, base, a + b) == Here(es, Here(es, base, a), b)
    decreases |a|
  {
    hide Into;
    if a == [] {
      assert a + b == b;
    } else {
      assert (a + b)[0] == a[0] && (a + b)[1..] == a[1..] + b;
      HereConcat(es, Into(es, base, a[0]), a[1..], b);
    }
  }

  lemma HereLast(es: map<Path, Kind>, base: Path, names: Names)
    requires names != []
    ensures var last := |names| - 1;
            Here(es, base, names) == Into(es, Here(es, base, names[..last]), names[last])
  {
    hide Into;
    var last := |names| - 1;
    assert names == names[..last] + [names[last]] && [names[last]][1..] == [];
    HereConcat(es, base, names[..last], [names[last]]);
  }

  // Only the arrays on the way matter.
  lemma {:induction false} HereSame(es: map<Path, Kind>, fs: map<Path, Kind>, base: Path, names: Names)
    requires forall q :: Prefix(NamesOf(q), NamesOf(base) + names) ==> Arr(es, q) == Arr(fs, q)
    ensures Here(es, base, names) == Here(fs, base, names)
    decreases |names|
  {
    if names != [] {
      hide Prefix;
      var q := base + [K(names[0])];
      NamesStep(base, names[0], 0);
      assert NamesOf(base) + [names[0]] + names[1..] == NamesOf(base) + names;
      PrefixOn(NamesOf(q), NamesOf(q), names[1..]);
      assert Arr(es, q) == Arr(fs, q);
      IntoNames(es, base, names[0]);
      HereSame(es, fs, Into(es, base, names[0]), names[1..]);
    }
  }

  lemma {:induction false} HereExtends(es: map<Path, Kind>, base: Path, names: Names)
    ensures |base| <= |Here(es, base, names)| && Here(es, base, names)[..|base|] == base
    decreases |names|
  {
    if names != [] {
      var p := Into(es, base, names[0]);
      HereExtends(es, p, names[1..]);
      assert p[..|base|] == base;
      assert Here(es, p, names[1..])[..|p|][..|base|] == Here(es, p, names[1..])[..|base|];
    }
  }

  lemma PrefixOn(k: Names, p: Names, q: Names)
    ensures Prefix(k, p) ==> Prefix(k, p + q)
    ensures k == p ==> Prefix(k, p)
  {}

  lemma {:induction false} EnterAllHere(es: map<Path, Kind>, base: Path, names: Names)
    ensures match EnterAll(es, base, names)
            case None => true
            case Some((fs, p)) => p == Here(es, base, names) && SameArrays(es, fs)
    decreases |names|
  {
    if names != [] {
      match Enter(es, base, names[0])
      case None =>
      case Some((fs, p)) =>
        assert p == Into(es, base, names[0]);
        assert SameArrays(es, fs);
        EnterAllHere(fs, p, names[1..]);
        HereSame(es, fs, p, names[1..]);
    }
  }

  lemma {:induction false} ReachHere(es: map<Path, Kind>, base: Path, names: Names, lenient: bool)
    ensures match Reach(es, base, names, lenient)
            case None => true
            case Some((fs, p)) => SameArrays(es, fs)
    decreases |names|
  {
    if names != [] {
      var q := base + [K(names[0])];
      var fs := if q in es then es else es[q := Dotted];
      assert SameArrays(es, fs);
      ReachHere(fs, q, names[1..], lenient);
    }
  }

  // A run starts at the root and stays where its headers lead.
  ghost predicate AtTable(s: State) { s.table == Here(s.entries, [], NamesOf(s.table)) }

  // A line moves no array but the one whose header it is.
  lemma StepHere(s: State, e: Expr, lenient: bool)
    requires AtTable(s) && Step(s, e, lenient).Some?
    ensures var t := Step(s, e, lenient).value;
            && AtTable(t)
            && forall q :: Arr(t.entries, q) == Arr(s.entries, q) || (e.Header? && e.isArray && NamesOf(q) == e.path)
  {
    var t := Step(s, e, lenient).value;
    match e
    case Header(path, isArray) => HeaderHere(s, path, isArray, lenient);
    case KeyValue(parts, literal) =>
      var last := |parts| - 1;
      ReachHere(s.entries, s.table, parts[..last], lenient);
      assert SameArrays(s.entries, t.entries);
      HereSame(s.entries, t.entries, [], NamesOf(s.table));
  }

  lemma HeaderHere(s: State, path: Names, isArray: bool, lenient: bool)
    requires Step(s, Header(path, isArray), lenient).Some?
    ensures var t := Step(s, Header(path, isArray), lenient).value;
            && AtTable(t)
            && forall q :: Arr(t.entries, q) == Arr(s.entries, q) || (isArray && NamesOf(q) == path)
  {
    hide Prefix, Here, Define, EnterAll, Arr;
    var t := Step(s, Header(path, isArray), lenient).value;
    var last := |path| - 1;
    var init, name := path[..last], path[last];
    assert init + [name] == path && [] + path == path && NamesOf([]) + init == init;
    EnterAllHere(s.entries, [], init);
    HereNames(s.entries, [], init);
    var (es, base) := EnterAll(s.entries, [], init).value;
    var p := base + [K(name)];
    NamesStep(base, name, 0);
    DefineHere(es, base, name, isArray);
    IntoNames(t.entries, base, name);
    ShorterNames(init, name);
    HereSame(s.entries, t.entries, [], init);
    HereLast(t.entries, [], path);
  }

  lemma DefineHere(es: map<Path, Kind>, base: Path, name: string, isArray: bool)
    requires Define(es, base + [K(name)], isArray).Some?
    ensures var t := Define(es, base + [K(name)], isArray).value;
            && t.table == Into(t.entries, base, name)
            && forall q :: Arr(t.entries, q) == Arr(es, q) || (isArray && q == base + [K(name)])
  {
  }

  // No prefix of the names in front is the whole.
  lemma ShorterNames(init: Names, name: string)
    ensures !Prefix(init + [name], init)
  {}

  // ----- one entry that the lines never look at -----

  // The entry is a value and stays one.
  predicate Revalued(es: map<Path, Kind>, x: Path, v: Kind) { x in es && es[x].Value? && v.Value? }

  // It lies in an element of an array that has newer elements.
  ghost predicate Stale(es: map<Path, Kind>, x: Path) {
    exists i | 0 <= i < |x| :: x[i].E? && Arr(es, x[..i]).Some? && x[i].index + 1 < Arr(es, x[..i]).value
  }

  // Every element on the way is the newest of its array.
  ghost predicate AllNewest(es: map<Path, Kind>, p: Path) {
    forall i :: 0 <= i < |p| && p[i].E? ==> Arr(es, p[..i]).Some? && p[i].index == Newest(Arr(es, p[..i]).value)
  }

  // Names that lead from base never come to x.
  ghost predicate Apart(es: map<Path, Kind>, base: Path, names: Names, x: Path) {
    !Prefix(NamesOf(x), NamesOf(base) + names) || (Stale(es, x) && AllNewest(es, base))
  }

  lemma StaleIsNot(es: map<Path, Kind>, p: Path, x: Path)
    requires Stale(es, x) && AllNewest(es, p)
    ensures p != x
  {}

  lemma IntoNewest(es: map<Path, Kind>, base: Path, name: string)
    requires AllNewest(es, base)
    ensures AllNewest(es, base + [K(name)]) && AllNewest(es, Into(es, base, name))
  {
    var q, p := base + [K(name)], Into(es, base, name);
    assert forall i :: 0 <= i <= |base| ==> q[..i] == base[..i];
    assert forall i :: 0 <= i <= |q| ==> p[..i] == q[..i];
  }

  lemma SameStale(es: map<Path, Kind>, fs: map<Path, Kind>, p: Path, x: Path)
    requires SameArrays(es, fs)
    ensures Stale(es, x) <==> Stale(fs, x)
    ensures AllNewest(es, p) <==> AllNewest(fs, p)
  {}

  // One name further down.
  lemma ApartInto(es: map<Path, Kind>, fs: map<Path, Kind>, base: Path, names: Names, x: Path)
    requires Apart(es, base, names, x) && names != [] && SameArrays(es, fs)
    ensures base + [K(names[0])] != x && Apart(fs, Into(es, base, names[0]), names[1..], x)
  {
    hide Prefix, Stale, AllNewest;
    var q := base + [K(names[0])];
    NamesStep(base, names[0], 0);
    IntoNames(es, base, names[0]);
    assert NamesOf(q) + names[1..] == NamesOf(base) + names;
    PrefixOn(NamesOf(q), NamesOf(q), names[1..]);
    if Stale(es, x) && AllNewest(es, base) {
      IntoNewest(es, base, names[0]);
      StaleIsNot(es, q, x);
      SameStale(es, fs, Into(es, base, names[0]), x);
    }
  }

  lemma {:induction false} EnterAllFrame(es: map<Path, Kind>, base: Path, names: Names, rest: Names, x: Path, v: Kind)
    requires Revalued(es, x, v) || Apart(es, base, names + rest, x)
    ensures match EnterAll(es, base, names)
            case None => EnterAll(es[x := v], base, names).None?
            case Some((fs, p)) =>
              && EnterAll(es[x := v], base, names) == Some((fs[x := v], p))
              && (Revalued(es, x, v) ==> Revalued(fs, x, v))
              && (Apart(es, base, names + rest, x) ==> Apart(fs, p, rest, x) && (x !in es ==> x !in fs))
    decreases |names|
  {
    hide Apart;
    if names == [] {
      assert names + rest == rest;
    } else {
      var q := base + [K(names[0])];
      assert (names + rest)[1..] == names[1..] + rest;
      match Enter(es, base, names[0])
      case None =>
        if Apart(es, base, names + rest, x) { ApartInto(es, es, base, names + rest, x); }
      case Some((fs, p)) =>
        if Apart(es, base, names + rest, x) { ApartInto(es, fs, base, names + rest, x); }
        if q != x {
          assert Enter(es[x := v], base, names[0]) == Some((fs[x := v], p)) by {
            assert es[x := v][q := Implicit] == es[q := Implicit][x := v];
          }
          EnterAllFrame(fs, p, names[1..], rest, x, v);
        }
    }
  }

  lemma {:induction false} ReachFrame(es: map<Path, Kind>, base: Path, names: Names, rest: Names, lenient: bool, x: Path, v: Kind)
    requires Revalued(es, x, v) || Apart(es, base, names + rest, x)
    ensures match Reach(es, base, names, lenient)
            case None => Reach(es[x := v], base, names, lenient).None?
            case Some((fs, p)) =>
              && Reach(es[x := v], base, names, lenient) == Some((fs[x := v], p))
              && (Revalued(es, x, v) ==> Revalued(fs, x, v))
              && (Apart(es, base, names + rest, x) ==> Apart(fs, p, rest, x) && (x !in es ==> x !in fs))
    decreases |names|
  {
    hide Apart;
    if names == [] {
      assert names + rest == rest;
    } else {
      var q := base + [K(names[0])];
      assert (names + rest)[1..] == names[1..] + rest;
      var fs := if q in es then es else es[q := Dotted];
      assert SameArrays(es, fs);
      if Apart(es, base, names + rest, x) { ApartInto(es, fs, base, names + rest, x); }
      if q != x && Arr(es, q).None? {
        assert es[x := v][q := Dotted] == es[q := Dotted][x := v];
        ReachFrame(fs, q, names[1..], rest, lenient, x, v);
      }
    }
  }

  function With(r: Option<State>, x: Path, v: Kind): Option<State> {
    match r case None => None case Some(t) => Some(State(t.entries[x := v], t.table))
  }

  // The line never comes to x.
  ghost predicate ApartLine(s: State, e: Expr, x: Path) {
    match e
    case Header(path, _) => Apart(s.entries, [], path, x)
    case KeyValue(parts, _) => Apart(s.entries, s.table, parts, x)
  }

  // What a line that leaves x alone does is the same with x bound anew.
  ghost predicate Framed(s: State, e: Expr, lenient: bool, x: Path, v: Kind) {
    && Step(State(s.entries[x := v], s.table), e, lenient) == With(Step(s, e, lenient), x, v)
    && (Step(s, e, lenient).Some? ==>
      var t := Step(s, e, lenient).value;
      && (Revalued(s.entries, x, v) ==> Revalued(t.entries, x, v))
      && (ApartLine(s, e, x) && x !in s.entries ==> x !in t.entries))
  }

  lemma DefineValue(es: map<Path, Kind>, p: Path, isArray: bool, v: Kind)
    requires Revalued(es, p, v)
    ensures Define(es, p, isArray).None? && Define(es[p := v], p, isArray).None?
  {}

  lemma DefineFrame(es: map<Path, Kind>, p: Path, isArray: bool, x: Path, v: Kind)
    requires p != x
    ensures Define(es[x := v], p, isArray) == With(Define(es, p, isArray), x, v)
    ensures Define(es, p, isArray).Some? ==>
            var t := Define(es, p, isArray).value;
            (Revalued(es, x, v) ==> Revalued(t.entries, x, v)) && (x !in es ==> x !in t.entries)
  {
    assert es[x := v][p := Explicit] == es[p := Explicit][x := v];
    assert es[x := v][p := ArrayOf(1)] == es[p := ArrayOf(1)][x := v];
    if p in es && es[p].ArrayOf? {
      var n := es[p].count;
      assert es[x := v][p := ArrayOf(n + 1)] == es[p := ArrayOf(n + 1)][x := v];
    }
  }

  lemma HeaderFrame(s: State, path: Names, isArray: bool, lenient: bool, x: Path, v: Kind)
    requires Revalued(s.entries, x, v) || Apart(s.entries, [], path, x)
    ensures Framed(s, Header(path, isArray), lenient, x, v)
  {
    hide Apart, Define;
    if path != [] {
      var last := |path| - 1;
      assert path[..last] + [path[last]] == path;
      EnterAllFrame(s.entries, [], path[..last], [path[last]], x, v);
      match EnterAll(s.entries, [], path[..last])
      case None =>
      case Some((es, base)) =>
        var p := base + [K(path[last])];
        if Apart(s.entries, [], path, x) { ApartInto(es, es, base, [path[last]], x); }
        if p == x {
          DefineValue(es, p, isArray, v);
        } else {
          DefineFrame(es, p, isArray, x, v);
        }
    }
  }

  lemma KeyFrame(s: State, parts: Names, literal: string, lenient: bool, x: Path, v: Kind)
    requires Revalued(s.entries, x, v) || Apart(s.entries, s.table, parts, x)
    ensures Framed(s, KeyValue(parts, literal), lenient, x, v)
  {
    hide Apart;
    if parts != [] {
      var last := |parts| - 1;
      assert parts[..last] + [parts[last]] == parts;
      ReachFrame(s.entries, s.table, parts[..last], [parts[last]], lenient, x, v);
      match Reach(s.entries, s.table, parts[..last], lenient)
      case None =>
      case Some((es, base)) =>
        var p := base + [K(parts[last])];
        if Apart(s.entries, s.table, parts, x) { ApartInto(es, es, base, [parts[last]], x); }
        if p != x { assert es[x := v][p := Value(literal)] == es[p := Value(literal)][x := v]; }
    }
  }

  lemma StepFrame(s: State, e: Expr, lenient: bool, x: Path, v: Kind)
    requires Revalued(s.entries, x, v) || ApartLine(s, e, x)
    ensures Framed(s, e, lenient, x, v)
  {
    hide Apart, Framed;
    match e
    case Header(path, isArray) => HeaderFrame(s, path, isArray, lenient, x, v);
    case KeyValue(parts, literal) => KeyFrame(s, parts, literal, lenient, x, v);
  }

  // A value bound anew stays so to the end.
  lemma {:induction false} RunRevalued(s: State, exprs: seq<Expr>, lenient: bool, x: Path, v: Kind)
    requires Revalued(s.entries, x, v)
    ensures Run(State(s.entries[x := v], s.table), exprs, lenient) == With(Run(s, exprs, lenient), x, v)
    decreases |exprs|
  {
    hide Step, ApartLine;
    if exprs != [] {
      StepFrame(s, exprs[0], lenient, x, v);
      if Step(s, exprs[0], lenient).Some? {
        RunRevalued(Step(s, exprs[0], lenient).value, exprs[1..], lenient, x, v);
      }
    }
  }

  // ----- what lasts -----

  // What a name once stands for it stands for until the end: a value stays a
  // value, a table with a header keeps it, an array stays an array.
  ghost predicate Lasts(es: map<Path, Kind>, fs: map<Path, Kind>) {
    forall p :: p in es ==> p in fs && (es[p].Value? <==> fs[p].Value?)
                            && (es[p].Explicit? ==> fs[p].Explicit?) && (es[p].ArrayOf? ==> fs[p].ArrayOf?)
  }

  lemma {:induction false} EnterAllLasts(es: map<Path, Kind>, base: Path, names: Names)
    ensures EnterAll(es, base, names).Some? ==> Lasts(es, EnterAll(es, base, names).value.0)
    decreases |names|
  {
    if names != [] {
      match Enter(es, base, names[0])
      case None =>
      case Some((fs, p)) => EnterAllLasts(fs, p, names[1..]);
    }
  }

  lemma {:induction false} ReachLasts(es: map<Path, Kind>, base: Path, names: Names, lenient: bool)
    ensures Reach(es, base, names, lenient).Some? ==> Lasts(es, Reach(es, base, names, lenient).value.0)
    decreases |names|
  {
    if names != [] {
      var q := base + [K(names[0])];
      ReachLasts(if q in es then es else es[q := Dotted], q, names[1..], lenient);
    }
  }

  lemma StepLasts(s: State, e: Expr, lenient: bool)
    requires Step(s, e, lenient).Some?
    ensures Lasts(s.entries, Step(s, e, lenient).value.entries)
  {
    match e
    case Header(path, _) => EnterAllLasts(s.entries, [], path[..|path| - 1]);
    case KeyValue(parts, _) => ReachLasts(s.entries, s.table, parts[..|parts| - 1], lenient);
  }

  // ----- every element counted -----

  ghost predicate PathCounted(es: map<Path, Kind>, p: Path) {
    forall i :: 0 <= i < |p| && p[i].E? ==> Arr(es, p[..i]).Some? && p[i].index < Arr(es, p[..i]).value
  }

  // No entry lies in an element that is yet to come, and no array is empty.
  ghost predicate Counted(es: map<Path, Kind>) {
    (forall p :: p in es ==> PathCounted(es, p)) && (forall p :: Arr(es, p) != Some(0))
  }

  lemma IntoCounted(es: map<Path, Kind>, base: Path, name: string)
    requires Counted(es) && PathCounted(es, base)
    ensures PathCounted(es, base + [K(name)]) && PathCounted(es, Into(es, base, name))
  {
    var q, p := base + [K(name)], Into(es, base, name);
    assert forall i :: 0 <= i <= |base| ==> q[..i] == base[..i];
    assert forall i :: 0 <= i <= |q| ==> p[..i] == q[..i];
  }

  lemma PutCounted(es: map<Path, Kind>, q: Path, kind: Kind)
    requires Counted(es) && PathCounted(es, q) && Arr(es, q).None? && !kind.ArrayOf?
    ensures Counted(es[q := kind]) && SameArrays(es, es[q := kind])
  {
    var fs := es[q := kind];
    assert SameArrays(es, fs);
    forall p | p in fs ensures PathCounted(fs, p) { assert PathCounted(es, p); }
  }

  lemma SameCounted(es: map<Path, Kind>, fs: map<Path, Kind>, p: Path)
    requires SameArrays(es, fs) && PathCounted(es, p)
    ensures PathCounted(fs, p)
  {}

  lemma {:induction false} EnterAllCounted(es: map<Path, Kind>, base: Path, names: Names)
    requires Counted(es) && PathCounted(es, base)
    ensures match EnterAll(es, base, names)
            case None => true
            case Some((fs, p)) => Counted(fs) && PathCounted(fs, p)
    decreases |names|
  {
    hide Counted, PathCounted;
    if names != [] {
      var q := base + [K(names[0])];
      match Enter(es, base, names[0])
      case None =>
      case Some((fs, p)) =>
        IntoCounted(es, base, names[0]);
        if q !in es { PutCounted(es, q, Implicit); }
        SameCounted(es, fs, p);
        EnterAllCounted(fs, p, names[1..]);
    }
  }

  lemma {:induction false} ReachCounted(es: map<Path, Kind>, base: Path, names: Names, lenient: bool)
    requires Counted(es) && PathCounted(es, base)
    ensures match Reach(es, base, names, lenient)
            case None => true
            case Some((fs, p)) => Counted(fs) && PathCounted(fs, p)
    decreases |names|
  {
    hide Counted, PathCounted;
    if names != [] {
      var q := base + [K(names[0])];
      IntoCounted(es, base, names[0]);
      if q !in es { PutCounted(es, q, Dotted); SameCounted(es, es[q := Dotted], q); }
      ReachCounted(if q in es then es else es[q := Dotted], q, names[1..], lenient);
    }
  }

  lemma DefineCounted(es: map<Path, Kind>, p: Path, isArray: bool)
    requires Counted(es) && PathCounted(es, p) && Define(es, p, isArray).Some?
    ensures var t := Define(es, p, isArray).value; Counted(t.entries) && PathCounted(t.entries, t.table)
  {
    if isArray {
      var t := Define(es, p, isArray).value;
      assert forall q :: q != p ==> Arr(t.entries, q) == Arr(es, q);
      forall q | q in t.entries ensures PathCounted(t.entries, q) { assert PathCounted(es, q); }
      assert forall i :: 0 <= i <= |p| ==> t.table[..i] == p[..i];
    } else {
      PutCounted(es, p, Explicit);
      SameCounted(es, es[p := Explicit], p);
    }
  }

  lemma StepCounted(s: State, e: Expr, lenient: bool)
    requires Counted(s.entries) && PathCounted(s.entries, s.table) && Step(s, e, lenient).Some?
    ensures var t := Step(s, e, lenient).value; Counted(t.entries) && PathCounted(t.entries, t.table)
  {
    hide Counted, Define;
    match e
    case Header(path, isArray) =>
      var last := |path| - 1;
      EnterAllCounted(s.entries, [], path[..last]);
      var (es, base) := EnterAll(s.entries, [], path[..last]).value;
      IntoCounted(es, base, path[last]);
      DefineCounted(es, base + [K(path[last])], isArray);
    case KeyValue(parts, literal) =>
      var last := |parts| - 1;
      ReachCounted(s.entries, s.table, parts[..last], lenient);
      ReachHere(s.entries, s.table, parts[..last], lenient);
      var (es, base) := Reach(s.entries, s.table, parts[..last], lenient).value;
      IntoCounted(es, base, parts[last]);
      PutCounted(es, base + [K(parts[last])], Value(literal));
      SameCounted(s.entries, es[base + [K(parts[last])] := Value(literal)], s.table);
  }
}
