/**
 Why a set that passes the checks keeps a valid TOML document valid, and
 exactly when it does not.
 */
module TomlValid {
  import opened Bytes
  import opened Toml
  import opened TomlRun
  import opened TomlWindow

  // ----- what the checks say about the lines -----

  lemma {:induction false} NoKv(kvs: seq<Kv>, path: Names)
    ensures FindKv(kvs, path).None? <==> forall n :: 0 <= n < |kvs| ==> kvs[n].full != path
  {
    if kvs != [] {
      NoKv(kvs[1..], path);
      assert forall n :: 1 <= n < |kvs| ==> kvs[n] == kvs[1..][n - 1];
    }
  }

  // No key is set at the path or below it, and no header is its own.
  ghost predicate Passed(doc: Doc, k: Names) {
    && (forall n :: 0 <= n < |doc.kvs| ==> !Prefix(k, doc.kvs[n].full))
    && (forall n :: 0 <= n < |doc.sections| ==> doc.sections[n].path != k)
  }

  lemma ChecksPass(doc: Doc, k: Names)
    requires k != [] && CreateAllowed(doc, k)
    ensures Passed(doc, k)
  {
    NoKv(doc.kvs, k);
    forall n | 0 <= n < |doc.kvs| ensures !Prefix(k, doc.kvs[n].full) {
      var full := doc.kvs[n].full;
      assert !ProperPrefix(k, full) && full != k;
      assert full[..|full|] == full;
    }
    forall n | 0 <= n < |doc.sections| ensures doc.sections[n].path != k {
      var s := doc.sections[n];
      assert s in doc.sections && s == if s.isArray then Section(s.path, true) else Section(s.path, false);
    }
  }

  lemma {:induction false} PassedUnset(exprs: seq<Expr>, table: Names, k: Names)
    requires Passed(Scan(exprs, table), k)
    ensures Unset(exprs, table, k)
    decreases |exprs|
  {
    if exprs != [] {
      var d := Scan(exprs, table);
      match exprs[0]
      case Header(path, _) =>
        var rest := Scan(exprs[1..], path);
        assert d.sections[0].path == path;
        assert forall n :: 0 <= n < |rest.sections| ==> rest.sections[n] == d.sections[n + 1];
        PassedUnset(exprs[1..], path, k);
      case KeyValue(parts, _) =>
        var rest := Scan(exprs[1..], table);
        assert d.kvs[0].full == table + parts;
        assert forall n :: 0 <= n < |rest.kvs| ==> rest.kvs[n] == d.kvs[n + 1];
        PassedUnset(exprs[1..], table, k);
    }
  }

  // ----- the exact condition -----

  // What a caller can check before a create: in the elements that the key will
  // stand in, no header lies below it.
  predicate NoneBelow(exprs: seq<Expr>, at: nat, k: Names)
    requires at <= |exprs|
  {
    !BelowBefore(exprs[..at], k) && !BelowAfter(exprs[at..], k)
  }

  lemma {:induction false} NoDeeperBefore(exprs: seq<Expr>, k: Names)
    requires forall n :: 0 <= n < |exprs| ==> !Below(exprs[n], k)
    ensures !BelowBefore(exprs, k) && !BelowAfter(exprs, k)
    decreases |exprs|
  {
    if exprs != [] {
      NoDeeperBefore(exprs[..|exprs| - 1], k);
      NoDeeperBefore(exprs[1..], k);
    }
  }

  lemma {:induction false} HeaderListed(exprs: seq<Expr>, table: Names, n: nat)
    requires n < |exprs| && exprs[n].Header?
    ensures Section(exprs[n].path, exprs[n].isArray) in Scan(exprs, table).sections
    decreases |exprs|
  {
    if n > 0 {
      HeaderListed(exprs[1..], match exprs[0] case Header(path, _) => path case KeyValue(_, _) => table, n - 1);
    }
  }

  // No header below the key at all: none in its elements.
  lemma NoDeeperIsEnough(exprs: seq<Expr>, at: nat, k: Names)
    requires at <= |exprs| && NoDeeperHeader(Scan(exprs, []), k)
    ensures NoneBelow(exprs, at, k)
  {
    var doc := Scan(exprs, []);
    forall n | 0 <= n < |exprs| ensures !Below(exprs[n], k) {
      if exprs[n].Header? {
        HeaderListed(exprs, [], n);
        var i :| 0 <= i < |doc.sections| && doc.sections[i] == Section(exprs[n].path, exprs[n].isArray);
      }
    }
    NoDeeperBefore(exprs[..at], k);
    NoDeeperBefore(exprs[at..], k);
  }

  // ----- where every entry comes from -----

  ghost predicate Origin(doc: Doc, name: Names, kind: Kind) {
    match kind
    case Value(_) => exists n | 0 <= n < |doc.kvs| :: doc.kvs[n].full == name
    case Explicit => Section(name, false) in doc.sections
    case Implicit => exists n | 0 <= n < |doc.sections| :: ProperPrefix(name, doc.sections[n].path)
    case Dotted => exists n | 0 <= n < |doc.kvs| :: ProperPrefix(name, doc.kvs[n].full)
    case ArrayOf(_) => Section(name, true) in doc.sections
  }

  ghost predicate FromDoc(es: map<Path, Kind>, doc: Doc) { forall p :: p in es ==> Origin(doc, NamesOf(p), es[p]) }

  lemma PutOrigin(es: map<Path, Kind>, p: Path, kind: Kind, doc: Doc)
    requires FromDoc(es, doc) && Origin(doc, NamesOf(p), kind)
    ensures FromDoc(es[p := kind], doc)
  {}

  lemma StepPrefix(name: Names, names: Names, all: Names)
    requires names != [] && ProperPrefix(name + names, all)
    ensures ProperPrefix(name + [names[0]], all) && name + [names[0]] + names[1..] == name + names
  {
    assert all[..|name| + 1] == all[..|name + names|][..|name| + 1];
    assert (name + names)[..|name| + 1] == name + [names[0]];
  }

  lemma {:induction false} EnterAllOrigin(es: map<Path, Kind>, base: Path, names: Names, doc: Doc, n: nat)
    requires FromDoc(es, doc) && n < |doc.sections|
    requires ProperPrefix(NamesOf(base) + names, doc.sections[n].path)
    ensures EnterAll(es, base, names).Some? ==> FromDoc(EnterAll(es, base, names).value.0, doc)
    decreases |names|
  {
    hide FromDoc, ProperPrefix;
    if names != [] {
      match Enter(es, base, names[0])
      case None =>
      case Some((fs, p)) =>
        var q := base + [K(names[0])];
        NamesStep(base, names[0], if q in es && es[q].ArrayOf? && es[q].count > 0 then es[q].count - 1 else 0);
        StepPrefix(NamesOf(base), names, doc.sections[n].path);
        if q !in es { PutOrigin(es, q, Implicit, doc); }
        EnterAllOrigin(fs, p, names[1..], doc, n);
    }
  }

  lemma {:induction false} ReachOrigin(es: map<Path, Kind>, base: Path, names: Names, lenient: bool, doc: Doc, n: nat)
    requires FromDoc(es, doc) && n < |doc.kvs|
    requires ProperPrefix(NamesOf(base) + names, doc.kvs[n].full)
    ensures var r := Reach(es, base, names, lenient); r.Some? ==> FromDoc(r.value.0, doc)
    decreases |names|
  {
    hide FromDoc, ProperPrefix;
    if names != [] {
      var q := base + [K(names[0])];
      NamesStep(base, names[0], 0);
      StepPrefix(NamesOf(base), names, doc.kvs[n].full);
      if q !in es { PutOrigin(es, q, Dotted, doc); }
      ReachOrigin(if q in es then es else es[q := Dotted], q, names[1..], lenient, doc, n);
    }
  }

  predicate Lists(doc: Doc, table: Names, e: Expr) {
    match e
    case Header(path, isArray) => Section(path, isArray) in doc.sections
    case KeyValue(parts, _) => Kv(table, table + parts) in doc.kvs
  }

  lemma DefineOrigin(es: map<Path, Kind>, p: Path, isArray: bool, doc: Doc)
    requires FromDoc(es, doc) && Section(NamesOf(p), isArray) in doc.sections
    ensures Define(es, p, isArray).Some? ==> FromDoc(Define(es, p, isArray).value.entries, doc)
  {}

  lemma HeaderOrigin(s: State, path: Names, isArray: bool, lenient: bool, doc: Doc)
    requires FromDoc(s.entries, doc) && Section(path, isArray) in doc.sections
    ensures var r := Step(s, Header(path, isArray), lenient); r.Some? ==> FromDoc(r.value.entries, doc)
  {
    assert NamesOf([]) == [];
    hide FromDoc, Origin, ProperPrefix, Define, EnterAll, NamesOf, Prefix;
    if Step(s, Header(path, isArray), lenient).Some? {
      var last := |path| - 1;
      ghost var n: nat :| n < |doc.sections| && doc.sections[n] == Section(path, isArray);
      assert NamesOf([]) + path[..last] == path[..last];
      assert ProperPrefix(path[..last], path) by { LastIsProper(path); }
      EnterAllOrigin(s.entries, [], path[..last], doc, n);
      EnterAllNames(s.entries, [], path[..last]);
      var (es, base) := EnterAll(s.entries, [], path[..last]).value;
      NamesStep(base, path[last], 0);
      assert path[..last] + [path[last]] == path;
      DefineOrigin(es, base + [K(path[last])], isArray, doc);
    }
  }

  lemma LastIsProper(path: Names)
    requires path != []
    ensures ProperPrefix(path[..|path| - 1], path)
  {}

  lemma KeyOrigin(s: State, parts: Names, literal: string, lenient: bool, doc: Doc)
    requires FromDoc(s.entries, doc) && Kv(NamesOf(s.table), NamesOf(s.table) + parts) in doc.kvs
    ensures var r := Step(s, KeyValue(parts, literal), lenient); r.Some? ==> FromDoc(r.value.entries, doc)
  {
    hide FromDoc;
    var r := Step(s, KeyValue(parts, literal), lenient);
    if r.Some? {
      var last := |parts| - 1;
      var all := NamesOf(s.table) + parts;
      ghost var n: nat :| n < |doc.kvs| && doc.kvs[n] == Kv(NamesOf(s.table), all);
      assert all[..|all| - 1] == NamesOf(s.table) + parts[..last];
      ReachOrigin(s.entries, s.table, parts[..last], lenient, doc, n);
      ReachNames(s.entries, s.table, parts[..last], lenient);
      var (es, base) := Reach(s.entries, s.table, parts[..last], lenient).value;
      NamesStep(base, parts[last], 0);
      assert NamesOf(s.table) + parts[..last] + [parts[last]] == all;
      PutOrigin(es, base + [K(parts[last])], Value(literal), doc);
    }
  }

  lemma StepOrigin(s: State, e: Expr, lenient: bool, doc: Doc)
    requires FromDoc(s.entries, doc) && Lists(doc, NamesOf(s.table), e)
    ensures Step(s, e, lenient).Some? ==> FromDoc(Step(s, e, lenient).value.entries, doc)
  {
    match e
    case Header(path, isArray) => HeaderOrigin(s, path, isArray, lenient, doc);
    case KeyValue(parts, literal) => KeyOrigin(s, parts, literal, lenient, doc);
  }

  lemma {:induction false} RunOrigin(s: State, exprs: seq<Expr>, lenient: bool, doc: Doc)
    requires FromDoc(s.entries, doc)
    requires forall kv :: kv in Scan(exprs, NamesOf(s.table)).kvs ==> kv in doc.kvs
    requires forall c :: c in Scan(exprs, NamesOf(s.table)).sections ==> c in doc.sections
    ensures Run(s, exprs, lenient).Some? ==> FromDoc(Run(s, exprs, lenient).value.entries, doc)
    decreases |exprs|
  {
    if exprs != [] {
      var table := NamesOf(s.table);
      match exprs[0] {
        case Header(path, isArray) =>
          assert Scan(exprs, table).sections == [Section(path, isArray)] + Scan(exprs[1..], path).sections;
        case KeyValue(parts, _) =>
          assert Scan(exprs, table).kvs == [Kv(table, table + parts)] + Scan(exprs[1..], table).kvs;
      }
      match Step(s, exprs[0], lenient)
      case None =>
      case Some(t) =>
        StepOrigin(s, exprs[0], lenient, doc);
        StepTable(s, exprs[0], lenient);
        RunOrigin(t, exprs[1..], lenient, doc);
    }
  }

  lemma {:induction false} ScanConcat(a: seq<Expr>, b: seq<Expr>, table: Names)
    ensures var after := TableAfter(a, table);
            && Scan(a + b, table).kvs == Scan(a, table).kvs + Scan(b, after).kvs
            && Scan(a + b, table).sections == Scan(a, table).sections + Scan(b, after).sections
    decreases |a|
  {
    if a == [] {
      assert a + b == b;
    } else {
      assert (a + b)[0] == a[0] && (a + b)[1..] == a[1..] + b;
      ScanConcat(a[1..], b, if a[0].Header? then a[0].path else table);
    }
  }

  // ----- a create keeps a valid document valid -----

  ghost function Bindings(es: map<Path, Kind>): map<Path, string> { map p | p in es && es[p].Value? :: es[p].literal }

  // Every table stays; one that only deeper headers named may get its own header.
  ghost predicate Keeps(es: map<Path, Kind>, fs: map<Path, Kind>) {
    forall p :: p in es ==> p in fs && (fs[p] == es[p] || (es[p] == Implicit && fs[p] == Explicit))
  }

  ghost predicate Binds(es: map<Path, Kind>, fs: map<Path, Kind>, x: Path, k: Names, literal: string) {
    NamesOf(x) == k && x !in es && Bindings(fs) == Bindings(es)[x := literal] && Keeps(es, fs)
  }

  // The old bindings plus the new one.
  ghost predicate Created(s: State, r: Option<State>, k: Names, literal: string) {
    r.Some? && exists x :: Binds(s.entries, r.value.entries, x, k, literal)
  }

  // One new key in the table that the lines are in.
  lemma KeyStep(s: State, key: string, literal: string, lenient: bool)
    ensures var x := s.table + [K(key)];
            Step(s, KeyValue([key], literal), lenient)
            == if x in s.entries then None else Some(State(s.entries[x := Value(literal)], s.table))
  {
    assert [key][..0] == [];
  }

  lemma RunOne(s: State, e: Expr, rest: seq<Expr>, lenient: bool)
    ensures Run(s, [e] + rest, lenient) == Append(Step(s, e, lenient), rest, lenient)
  {
    assert ([e] + rest)[1..] == rest;
  }

  lemma EvalMiddle(a: seq<Expr>, e: Expr, b: seq<Expr>, lenient: bool)
    requires Eval(a, lenient).Some?
    ensures Eval(a + [e] + b, lenient) == Append(Step(Eval(a, lenient).value, e, lenient), b, lenient)
  {
    assert a + [e] + b == a + ([e] + b);
    RunConcat(START, a, [e] + b, lenient);
    RunOne(Eval(a, lenient).value, e, b, lenient);
  }

  lemma BindsOne(es: map<Path, Kind>, x: Path, k: Names, literal: string)
    requires x !in es && NamesOf(x) == k
    ensures Binds(es, es[x := Value(literal)], x, k, literal)
  {
    assert Bindings(es[x := Value(literal)]) == Bindings(es)[x := literal];
  }

  // The state at the insertion point, and the place of the key there.
  lemma PlaceAt(exprs: seq<Expr>, at: nat, k: Names, lenient: bool) returns (s: State, x: Path)
    requires k != [] && at <= |exprs| && Eval(exprs, lenient).Some? && Unset(exprs, [], k)
    requires TableAfter(exprs[..at], []) == k[..|k| - 1]
    ensures Eval(exprs[..at], lenient) == Some(s) && Good(s) && Eval(exprs, lenient) == Run(s, exprs[at..], lenient)
    ensures x == HereKey(s.entries, k) == s.table + [K(k[|k| - 1])] && NamesOf(x) == k && NamesOf(s.table) == k[..|k| - 1]
    ensures x in s.entries <==> BelowBefore(exprs[..at], k)
    ensures Unset(exprs[at..], NamesOf(s.table), k)
  {
    hide Step, Here, Counted, PathCounted, Rooted, Unset, BelowBefore;
    var a, b := exprs[..at], exprs[at..];
    assert exprs == a + b;
    RunConcat(START, a, b, lenient);
    UnsetConcat(a, b, [], k);
    s := Eval(a, lenient).value;
    TableAfterRun(START, a, lenient);
    GoodStart();
    RunGood(START, a, lenient);
    TakenExact(a, lenient, k);
    x := HereKey(s.entries, k);
    KeyNames(s.entries, k);
  }

  lemma InsertExact(exprs: seq<Expr>, at: nat, k: Names, literal: string, lenient: bool)
    requires k != [] && at <= |exprs| && Eval(exprs, lenient).Some?
    requires Unset(exprs, [], k) && TableAfter(exprs[..at], []) == k[..|k| - 1]
    ensures var s, r := Eval(exprs, lenient).value, Eval(Inserted(exprs, at, k[|k| - 1], literal), lenient);
            if NoneBelow(exprs, at, k) then Created(s, r, k, literal) else r.None?
  {
    hide Unset, Step, Good, HereKey, Binds, BelowBefore, BelowAfter, TableAfter, Stale;
    var key, a, b := k[|k| - 1], exprs[..at], exprs[at..];
    var s, x := PlaceAt(exprs, at, k, lenient);
    var v := Value(literal);
    EvalMiddle(a, KeyValue([key], literal), b, lenient);
    KeyStep(s, key, literal, lenient);
    if x !in s.entries {
      GoodTable(s);
      BoundTable(s, x, v, k);
      if BelowAfter(b, k) {
        RunBlocked(State(s.entries[x := v], s.table), b, lenient, x, k);
      } else {
        AheadAt(s, b, x, k);
        RunNear(s, b, lenient, x, v, k);
        BindsOne(Eval(exprs, lenient).value.entries, x, k, literal);
      }
    }
  }

  // A value where nothing stood moves no array.
  lemma BoundTable(s: State, x: Path, v: Kind, k: Names)
    requires AtTable(s) && x !in s.entries && v.Value? && k != [] && x == HereKey(s.entries, k)
    ensures AtTable(State(s.entries[x := v], s.table)) && HereKey(s.entries[x := v], k) == x
  {
    hide Here;
    var es, fs := s.entries, s.entries[x := v];
    assert SameArrays(es, fs);
    HereSame(es, fs, [], NamesOf(s.table));
    HereSame(es, fs, [], k[..|k| - 1]);
  }

  lemma AheadAt(s: State, exprs: seq<Expr>, x: Path, k: Names)
    requires Good(s) && k != [] && x == HereKey(s.entries, k) == s.table + [K(k[|k| - 1])]
    requires Unset(exprs, NamesOf(s.table), k) && !BelowAfter(exprs, k)
    ensures Ahead(s, exprs, x, k)
  {
    hide Unset, BelowAfter, HereKey;
    assert x[..|x| - 1] == s.table;
  }

  // The header that an append writes: no value and no table stands in its way.
  lemma {:induction false} EnterAllOpen(es: map<Path, Kind>, base: Path, names: Names)
    requires forall p :: p in es && es[p].Value? ==> !Prefix(NamesOf(p), NamesOf(base) + names)
    ensures EnterAll(es, base, names).Some?
    ensures var (fs, _) := EnterAll(es, base, names).value;
            && (forall p :: p in es ==> p in fs && fs[p] == es[p])
            && (forall p :: p in fs && p !in es ==> fs[p] == Implicit)
    decreases |names|
  {
    if names != [] {
      var q := base + [K(names[0])];
      NamesStep(base, names[0], if q in es && es[q].ArrayOf? && es[q].count > 0 then es[q].count - 1 else 0);
      var all := NamesOf(base) + names;
      assert NamesOf(base) + [names[0]] + names[1..] == all;
      assert all[..|NamesOf(q)|] == NamesOf(q);
      assert Prefix(NamesOf(q), all);
      var (fs, p) := Enter(es, base, names[0]).value;
      EnterAllOpen(fs, p, names[1..]);
    }
  }

  // No line names the table, or passes through it by a dotted key, or sets a key on the way to it.
  ghost predicate Unnamed(doc: Doc, section: Names) {
    && (forall n :: 0 <= n < |doc.kvs| ==> !Prefix(doc.kvs[n].full, section) && !Prefix(section, doc.kvs[n].full))
    && Section(section, false) !in doc.sections && Section(section, true) !in doc.sections
  }

  lemma UnnamedEntry(es: map<Path, Kind>, doc: Doc, section: Names, p: Path)
    requires FromDoc(es, doc) && Unnamed(doc, section) && p in es && Prefix(NamesOf(p), section)
    ensures !es[p].Value?
    ensures NamesOf(p) == section ==> es[p] == Implicit
  {
    assert Origin(doc, NamesOf(p), es[p]);
    if NamesOf(p) == section {
      assert forall n :: 0 <= n < |doc.kvs| && ProperPrefix(section, doc.kvs[n].full) ==> Prefix(section, doc.kvs[n].full);
    }
  }

  lemma OpenTo(es: map<Path, Kind>, doc: Doc, section: Names)
    requires FromDoc(es, doc) && section != [] && Unnamed(doc, section)
    ensures var r := EnterAll(es, [], section[..|section| - 1]);
            && r.Some?
            && (forall p :: p in es ==> p in r.value.0 && r.value.0[p] == es[p])
            && (forall p :: p in r.value.0 && p !in es ==> r.value.0[p] == Implicit)
  {
    hide FromDoc, Unnamed, Prefix;
    var last := |section| - 1;
    assert section[..last] + [section[last]] == section && NamesOf([]) + section[..last] == section[..last];
    forall p | p in es && es[p].Value? ensures !Prefix(NamesOf(p), section[..last]) {
      PrefixOn(NamesOf(p), section[..last], [section[last]]);
      if Prefix(NamesOf(p), section) { UnnamedEntry(es, doc, section, p); }
    }
    EnterAllOpen(es, [], section[..last]);
  }

  lemma AppendHeader(s: State, doc: Doc, section: Names, lenient: bool)
    requires FromDoc(s.entries, doc) && section != [] && Unnamed(doc, section)
    ensures var r := Step(s, Header(section, false), lenient);
            && r.Some? && Keeps(s.entries, r.value.entries)
            && Bindings(r.value.entries) == Bindings(s.entries) && NamesOf(r.value.table) == section
  {
    hide FromDoc, Unnamed, Prefix, EnterAll, Bindings;
    var last := |section| - 1;
    assert section[..last] + [section[last]] == section && NamesOf([]) + section[..last] == section[..last];
    OpenTo(s.entries, doc, section);
    EnterAllNames(s.entries, [], section[..last]);
    var (es, base) := EnterAll(s.entries, [], section[..last]).value;
    var p := base + [K(section[last])];
    NamesStep(base, section[last], 0);
    PrefixOn(NamesOf(p), section, []);
    assert section + [] == section;
    if p in s.entries { UnnamedEntry(s.entries, doc, section, p); }
    BindingsOpen(s.entries, es, p);
  }

  lemma BindingsOpen(es: map<Path, Kind>, fs: map<Path, Kind>, p: Path)
    requires forall q :: q in es ==> q in fs && fs[q] == es[q]
    requires forall q :: q in fs && q !in es ==> fs[q] == Implicit
    requires p in fs ==> fs[p] == Implicit
    ensures Bindings(fs[p := Explicit]) == Bindings(es)
  {}

  lemma AppendExact(exprs: seq<Expr>, k: Names, literal: string, lenient: bool)
    requires |k| > 1 && Eval(exprs, lenient).Some?
    requires Unset(exprs, [], k) && Unnamed(Scan(exprs, []), k[..|k| - 1])
    ensures var s, r := Eval(exprs, lenient).value, Eval(Appended(exprs, k[..|k| - 1], k[|k| - 1], literal), lenient);
            if BelowBefore(exprs, k) then r.None? else Created(s, r, k, literal)
  {
    hide Unset, Step, Good, HereKey, Binds, BelowBefore, FromDoc, Unnamed, Here;
    var section, key := k[..|k| - 1], k[|k| - 1];
    var s, doc := Eval(exprs, lenient).value, Scan(exprs, []);
    var header, line := Header(section, false), KeyValue([key], literal);
    RunOrigin(START, exprs, lenient, doc);
    AppendHeader(s, doc, section, lenient);
    var t := Step(s, header, lenient).value;
    TakenExact(exprs, lenient, k);
    GoodStart();
    RunGood(START, exprs, lenient);
    var x := AppendPlace(s, t, k, lenient);
    KeyStep(t, key, literal, lenient);
    assert exprs + [header] + [line] == Appended(exprs, section, key, literal);
    EvalMiddle(exprs, header, [line], lenient);
    RunLast(t, line, lenient);
    if x !in t.entries { BindsMore(s.entries, t.entries, x, k, literal); }
  }

  lemma AppendPlace(s: State, t: State, k: Names, lenient: bool) returns (x: Path)
    requires Good(s) && |k| > 1 && Step(s, Header(k[..|k| - 1], false), lenient) == Some(t)
    ensures x == t.table + [K(k[|k| - 1])] && NamesOf(x) == k
    ensures x in t.entries <==> HereKey(s.entries, k) in s.entries
  {
    hide Step, Here, Counted, PathCounted, Rooted, HereKey, Prefix;
    var section := k[..|k| - 1];
    var header := Header(section, false);
    StepGood(s, header, lenient);
    StepTable(s, header, lenient);
    StepTaken(s, header, lenient, k);
    KeyNames(t.entries, k);
    x := t.table + [K(k[|k| - 1])];
    assert x == HereKey(t.entries, k) by { AtKey(t, k); }
  }

  lemma AtKey(t: State, k: Names)
    requires k != [] && AtTable(t) && NamesOf(t.table) == k[..|k| - 1]
    ensures t.table + [K(k[|k| - 1])] == HereKey(t.entries, k)
  {}

  lemma BindsMore(es: map<Path, Kind>, fs: map<Path, Kind>, x: Path, k: Names, literal: string)
    requires Keeps(es, fs) && Bindings(fs) == Bindings(es) && x !in fs && NamesOf(x) == k
    ensures Binds(es, fs[x := Value(literal)], x, k, literal)
  {
    assert Bindings(fs[x := Value(literal)]) == Bindings(fs)[x := literal];
  }

  // ----- a replace changes one binding -----

  // One value changes and nothing else.
  ghost predicate Rebound(s: State, r: Option<State>, k: Names, literal: string) {
    exists x :: NamesOf(x) == k && x in s.entries && s.entries[x].Value? && r == With(Some(s), x, Value(literal))
  }

  lemma KeyPlaced(s: State, parts: Names, literal: string, other: string, lenient: bool) returns (x: Path)
    requires Step(s, KeyValue(parts, literal), lenient).Some?
    ensures var t := Step(s, KeyValue(parts, literal), lenient).value;
            && NamesOf(x) == NamesOf(s.table) + parts && x in t.entries && t.entries[x] == Value(literal)
            && Step(s, KeyValue(parts, other), lenient) == Some(State(t.entries[x := Value(other)], t.table))
  {
    var last := |parts| - 1;
    ReachNames(s.entries, s.table, parts[..last], lenient);
    var (es, base) := Reach(s.entries, s.table, parts[..last], lenient).value;
    x := base + [K(parts[last])];
    NamesStep(base, parts[last], 0);
    assert NamesOf(s.table) + parts[..last] + [parts[last]] == NamesOf(s.table) + parts by {
      assert parts[..last] + [parts[last]] == parts;
    }
    assert es[x := Value(literal)][x := Value(other)] == es[x := Value(other)];
  }

  lemma ReplaceValid(exprs: seq<Expr>, at: nat, literal: string, lenient: bool)
    requires at < |exprs| && exprs[at].KeyValue? && Eval(exprs, lenient).Some?
    ensures Rebound(Eval(exprs, lenient).value, Eval(Replaced(exprs, at, literal), lenient),
                    TableAfter(exprs[..at], []) + exprs[at].parts, literal)
  {
    hide Step, Prefix;
    var a, b, parts := exprs[..at], exprs[at + 1..], exprs[at].parts;
    var was, now := exprs[at], KeyValue(parts, literal);
    assert exprs == a + ([was] + b) && exprs == a + [was] + b && Replaced(exprs, at, literal) == a + [now] + b;
    RunConcat(START, a, [was] + b, lenient);
    EvalMiddle(a, was, b, lenient);
    EvalMiddle(a, now, b, lenient);
    var s := Eval(a, lenient).value;
    TableAfterRun(START, a, lenient);
    var t := Step(s, was, lenient).value;
    var x := KeyPlaced(s, parts, was.literal, literal, lenient);
    RunRevalued(t, b, lenient, x, Value(literal));
    RunRevalued(t, b, lenient, x, Value(was.literal));
    assert t.entries[x := Value(was.literal)] == t.entries;
  }

  // ----- creates, for every document -----

  lemma UnnamedSection(doc: Doc, k: Names)
    requires |k| > 1 && CreateAllowed(doc, k) && Placement(doc, k).AppendSection?
    ensures Unnamed(doc, k[..|k| - 1])
  {
    var section := k[..|k| - 1];
    NoSection(doc.sections, section);
    forall n | 0 <= n < |doc.kvs| ensures !Prefix(doc.kvs[n].full, section) && !Prefix(section, doc.kvs[n].full) {
      var full := doc.kvs[n].full;
      assert !ProperPrefix(full, k) && !ProperPrefix(section, full);
      if |full| <= |section| { assert section[..|full|] == k[..|full|]; }
    }
  }

  // Where the new key goes, and the document with it.
  ghost predicate GrownFrom(exprs: seq<Expr>, out: seq<Expr>, k: Names, literal: string, at: nat)
    requires k != []
  {
    if Placement(Scan(exprs, []), k).AppendSection?
    then at == |exprs| && out == Appended(exprs, k[..|k| - 1], k[|k| - 1], literal)
    else GrownAt(exprs, out, k, literal, at)
  }

  // Every document, arrays of tables above the key included: the result is valid,
  // and then holds the old bindings plus the new one, exactly when no header lies
  // below the key in the elements it stands in.
  lemma CreateExact(exprs: seq<Expr>, out: seq<Expr>, k: Names, literal: string, at: nat, lenient: bool)
    requires k != [] && Eval(exprs, lenient).Some? && CreateAllowed(Scan(exprs, []), k)
    requires GrownFrom(exprs, out, k, literal, at)
    ensures at <= |exprs|
    ensures var s, r := Eval(exprs, lenient).value, Eval(out, lenient);
            if NoneBelow(exprs, at, k) then Created(s, r, k, literal) else r.None?
  {
    hide Created, Passed, CreateAllowed, Unset, Eval;
    var doc := Scan(exprs, []);
    ChecksPass(doc, k);
    PassedUnset(exprs, [], k);
    if Placement(doc, k).AppendSection? {
      UnnamedSection(doc, k);
      assert exprs[..at] == exprs && exprs[at..] == [];
      AppendExact(exprs, k, literal, lenient);
    } else {
      InsertExact(exprs, at, k, literal, lenient);
    }
  }

  lemma GrownSomewhere(exprs: seq<Expr>, out: seq<Expr>, k: Names, literal: string) returns (at: nat)
    requires k != [] && Grown(exprs, out, k, literal)
    ensures GrownFrom(exprs, out, k, literal, at)
  {
    if Placement(Scan(exprs, []), k).AppendSection? {
      at := |exprs|;
    } else {
      at :| GrownAt(exprs, out, k, literal, at);
    }
  }

  // No header below the new key at all: the document stays valid and gains exactly the one binding.
  lemma CreateKeepsValid(exprs: seq<Expr>, out: seq<Expr>, k: Names, literal: string, lenient: bool)
    requires k != [] && Eval(exprs, lenient).Some?
    requires CreateAllowed(Scan(exprs, []), k) && NoDeeperHeader(Scan(exprs, []), k)
    requires Grown(exprs, out, k, literal)
    ensures Created(Eval(exprs, lenient).value, Eval(out, lenient), k, literal)
  {
    hide Created, CreateAllowed, NoDeeperHeader, Eval;
    var at := GrownSomewhere(exprs, out, k, literal);
    CreateExact(exprs, out, k, literal, at, lenient);
    NoDeeperIsEnough(exprs, at, k);
  }

  // A set on a valid document rebinds the one value, or, when no header lies below the key, adds one binding.
  lemma SetKeepsValid(exprs: seq<Expr>, e: Edit, oneLine: seq<bool>, out: seq<Expr>, lenient: bool)
    requires e.keyPath != [] && |oneLine| == |Scan(exprs, []).kvs| && Sets(exprs, e, oneLine, out)
    requires Eval(exprs, lenient).Some?
    ensures var s, r := Eval(exprs, lenient).value, Eval(out, lenient);
            if FindKv(Scan(exprs, []).kvs, e.keyPath).Some? then Rebound(s, r, e.keyPath, e.literal)
            else NoDeeperHeader(Scan(exprs, []), e.keyPath) ==> Created(s, r, e.keyPath, e.literal)
  {
    hide Eval, Rebound, Created, Grown, Conflicts, Under, TableInTheWay, NoDeeperHeader;
    var doc := Scan(exprs, []);
    match FindKv(doc.kvs, e.keyPath)
    case Some(n) => ReplaceValid(exprs, KvAt(exprs, [], n), e.literal, lenient);
    case None =>
      if NoDeeperHeader(doc, e.keyPath) { CreateKeepsValid(exprs, out, e.keyPath, e.literal, lenient); }
  }

  // Exactly: a set rebinds the one value; a create adds one binding, or breaks the
  // document when a header lies below the key in the elements it stands in.
  lemma SetExact(exprs: seq<Expr>, e: Edit, oneLine: seq<bool>, out: seq<Expr>, at: nat, lenient: bool)
    requires e.keyPath != [] && |oneLine| == |Scan(exprs, []).kvs| && Sets(exprs, e, oneLine, out)
    requires FindKv(Scan(exprs, []).kvs, e.keyPath).None? ==> GrownFrom(exprs, out, e.keyPath, e.literal, at)
    requires Eval(exprs, lenient).Some?
    ensures var s, r := Eval(exprs, lenient).value, Eval(out, lenient);
            if FindKv(Scan(exprs, []).kvs, e.keyPath).Some? then Rebound(s, r, e.keyPath, e.literal)
            else if at <= |exprs| && NoneBelow(exprs, at, e.keyPath) then Created(s, r, e.keyPath, e.literal)
            else r.None?
  {
    hide Eval, Rebound, Created, Grown, GrownFrom, Conflicts, Under, TableInTheWay, NoneBelow;
    var doc := Scan(exprs, []);
    match FindKv(doc.kvs, e.keyPath)
    case Some(n) => ReplaceValid(exprs, KvAt(exprs, [], n), e.literal, lenient);
    case None => CreateExact(exprs, out, e.keyPath, e.literal, at, lenient);
  }

  // One header without keys, three names deep, is a valid document; creating the
  // second name passes every check and gives a document that is not valid.
  lemma HeaderBelowBreaks(a: string, b: string, c: string, literal: string, lenient: bool)
    ensures var exprs := [Header([a, b, c], false)];
            var e := Edit([a, b], literal, false, false, true, false);
            && Eval(exprs, lenient).Some?
            && exists out :: Sets(exprs, e, [], out) && Eval(out, lenient).None?
  {
    var exprs, e := [Header([a, b, c], false)], Edit([a, b], literal, false, false, true, false);
    var k := e.keyPath;
    assert exprs[1..] == [] && Scan(exprs, []) == Doc([], [Section([a, b, c], false)]);
    var doc := Scan(exprs, []);
    var out := Appended(exprs, [a], b, literal);
    assert k[..1] == [a];
    assert Eval(exprs, lenient).Some? by {
      EnterAllOpen(map[], [], [a, b]);
      EnterAllNames(map[], [], [a, b]);
      var (es, base) := EnterAll(map[], [], [a, b]).value;
      NamesStep(base, c, 0);
      assert [a, b, c][..2] == [a, b];
      assert Step(START, exprs[0], lenient).Some?;
      RunOne(START, exprs[0], [], lenient);
      assert [exprs[0]] + [] == exprs;
    }
    NoKv(doc.kvs, k);
    NoSection(doc.sections, [a]);
    assert Sets(exprs, e, [], out);
    assert Below(exprs[0], k) && !OnTheWay(exprs[0], k);
    assert BelowBefore(exprs[..1], k);
    SetExact(exprs, e, [], out, 1, lenient);
  }
}
