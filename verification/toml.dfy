/**
 The decisions of patchTOML (internal/clientconfig/tomlp.go) over a scanned
 document, and why they keep a valid document valid. Validity is that of TOML
 v1.0.0, sections "Keys", "Table" and "Array of Tables", read off a document
 as the order in which its headers and keys define tables.
 */
module Toml {
  import opened Bytes

  type Names = seq<string>

  predicate Prefix(p: Names, q: Names) { |p| <= |q| && q[..|p|] == p }

  predicate ProperPrefix(p: Names, q: Names) { |p| < |q| && q[..|p|] == p }

  // ----- what a document means -----

  // One header or one key/value line; a dotted key has several parts.
  datatype Expr =
    | Header(path: Names, isArray: bool)
    | KeyValue(parts: Names, literal: string)

  // A table or value by name, with the element taken of every array of tables on the way.
  datatype Comp = K(name: string) | E(index: nat)

  type Path = seq<Comp>

  function NamesOf(p: Path): Names {
    if p == [] then [] else (match p[0] case K(n) => [n] case E(_) => []) + NamesOf(p[1..])
  }

  datatype Kind =
    | Value(literal: string)
    | Explicit              // a table with a header of its own
    | Implicit              // a table that only deeper headers name
    | Dotted                // a table that a dotted key defines
    | ArrayOf(count: nat)   // an array of tables

  datatype State = State(entries: map<Path, Kind>, table: Path)

  // Down into the table of one name, on the way of a header.
  function Enter(entries: map<Path, Kind>, base: Path, name: string): Option<(map<Path, Kind>, Path)> {
    var p := base + [K(name)];
    if p !in entries then Some((entries[p := Implicit], p))
    else match entries[p]
      case Value(_) => None
      case ArrayOf(n) => Some((entries, p + [E(if n == 0 then 0 else n - 1)]))
      case _ => Some((entries, p))
  }

  function EnterAll(entries: map<Path, Kind>, base: Path, names: Names): Option<(map<Path, Kind>, Path)>
    decreases |names|
  {
    if names == [] then Some((entries, base))
    else match Enter(entries, base, names[0])
      case None => None
      case Some((es, p)) => EnterAll(es, p, names[1..])
  }

  // A table may have one header; an array of tables gets one more element.
  function Define(entries: map<Path, Kind>, p: Path, isArray: bool): Option<State> {
    if isArray then
      if p !in entries then Some(State(entries[p := ArrayOf(1)], p + [E(0)]))
      else match entries[p]
        case ArrayOf(n) => Some(State(entries[p := ArrayOf(n + 1)], p + [E(n)]))
        case _ => None
    else if p !in entries || entries[p] == Implicit then Some(State(entries[p := Explicit], p))
    else None
  }

  // Down the leading parts of a dotted key. Whether such a key may reach into a
  // table that so far only deeper headers name is read both ways.
  function Reach(entries: map<Path, Kind>, base: Path, names: Names, lenient: bool): Option<(map<Path, Kind>, Path)>
    decreases |names|
  {
    if names == [] then Some((entries, base))
    else
      var p := base + [K(names[0])];
      if p !in entries then Reach(entries[p := Dotted], p, names[1..], lenient)
      else if entries[p] == Dotted || (lenient && entries[p] == Implicit) then Reach(entries, p, names[1..], lenient)
      else None
  }

  function Step(s: State, e: Expr, lenient: bool): Option<State> {
    match e
    case Header(path, isArray) =>
      if path == [] then None
      else (match EnterAll(s.entries, [], path[..|path| - 1])
        case None => None
        case Some((es, base)) => Define(es, base + [K(path[|path| - 1])], isArray))
    case KeyValue(parts, literal) =>
      if parts == [] then None
      else (match Reach(s.entries, s.table, parts[..|parts| - 1], lenient)
        case None => None
        case Some((es, base)) =>
          var p := base + [K(parts[|parts| - 1])];
          if p in es then None else Some(State(es[p := Value(literal)], s.table)))
  }

  function Run(s: State, exprs: seq<Expr>, lenient: bool): Option<State>
    decreases |exprs|
  {
    if exprs == [] then Some(s)
    else match Step(s, exprs[0], lenient)
      case None => None
      case Some(t) => Run(t, exprs[1..], lenient)
  }

  const START := State(map[], [])

  function Eval(exprs: seq<Expr>, lenient: bool): Option<State> { Run(START, exprs, lenient) }

  // ----- the scanned document -----

  datatype Kv = Kv(table: Names, full: Names)

  datatype Section = Section(path: Names, isArray: bool)

  datatype Doc = Doc(kvs: seq<Kv>, sections: seq<Section>)

  function Scan(exprs: seq<Expr>, table: Names): Doc
    decreases |exprs|
  {
    if exprs == [] then Doc([], [])
    else match exprs[0]
      case Header(path, isArray) =>
        var d := Scan(exprs[1..], path);
        Doc(d.kvs, [Section(path, isArray)] + d.sections)
      case KeyValue(parts, _) =>
        var d := Scan(exprs[1..], table);
        Doc([Kv(table, table + parts)] + d.kvs, d.sections)
  }

  // ----- the checks, as the source runs them -----

  method SamePath(a: Names, b: Names) returns (r: bool)
    ensures r <==> a == b
  {
    if |a| != |b| { return false; }
    for i := 0 to |a|
      invariant forall k :: 0 <= k < i ==> a[k] == b[k]
    {
      if a[i] != b[i] { return false; }
    }
    return true;
  }

  predicate Conflicts(doc: Doc, path: Names) {
    exists k | 0 <= k < |doc.kvs| :: ProperPrefix(doc.kvs[k].full, path) || ProperPrefix(path, doc.kvs[k].full)
  }

  method TomlCreateConflict(doc: Doc, path: Names) returns (r: bool)
    ensures r <==> Conflicts(doc, path)
  {
    for k := 0 to |doc.kvs|
      invariant forall n :: 0 <= n < k ==>
        !ProperPrefix(doc.kvs[n].full, path) && !ProperPrefix(path, doc.kvs[n].full)
    {
      var full := doc.kvs[k].full;
      if |full| < |path| {
        var same := SamePath(full, path[..|full|]);
        if same { assert ProperPrefix(doc.kvs[k].full, path); return true; }
      }
      if |path| < |full| {
        var same := SamePath(path, full[..|path|]);
        if same { assert ProperPrefix(path, doc.kvs[k].full); return true; }
      }
    }
    return false;
  }

  function FindSection(sections: seq<Section>, path: Names): (r: Option<nat>)
    ensures r.Some? ==> r.value < |sections| && sections[r.value] == Section(path, false)
  {
    if sections == [] then None
    else if sections[0] == Section(path, false) then Some(0)
    else match FindSection(sections[1..], path) case None => None case Some(k) => Some(k + 1)
  }

  lemma {:induction false} NoSection(sections: seq<Section>, path: Names)
    ensures FindSection(sections, path).None? <==> Section(path, false) !in sections
  {
    if sections != [] {
      NoSection(sections[1..], path);
      assert sections == [sections[0]] + sections[1..];
    }
  }

  method TomlFindSection(doc: Doc, path: Names) returns (r: Option<nat>)
    ensures r == FindSection(doc.sections, path)
  {
    var k := 0;
    assert doc.sections[0..] == doc.sections;
    while k < |doc.sections|
      invariant 0 <= k <= |doc.sections|
      invariant FindSection(doc.sections, path) ==
        match FindSection(doc.sections[k..], path) case None => None case Some(n) => Some(k + n)
    {
      var same := SamePath(doc.sections[k].path, path);
      assert doc.sections[k..][1..] == doc.sections[k + 1..];
      if !doc.sections[k].isArray && same { return Some(k); }
      k := k + 1;
    }
    return None;
  }

  // raw: the value comes as ready-made text; bare: that text is an integer or a
  // boolean, the only raw text that is written.
  datatype Edit = Edit(keyPath: Names, literal: string, raw: bool, bare: bool, createIfMissing: bool, delete: bool)

  datatype Decision =
    | Replace(kv: nat)
    | Remove(kv: nat)
    | InsertRoot
    | InsertInto(section: nat)
    | AppendSection
    | Refuse(error: Error)

  // ----- the decision -----

  function FindKv(kvs: seq<Kv>, path: Names): (r: Option<nat>)
    ensures r.Some? ==> r.value < |kvs| && kvs[r.value].full == path
  {
    if kvs == [] then None
    else if kvs[0].full == path then Some(0)
    else match FindKv(kvs[1..], path) case None => None case Some(k) => Some(k + 1)
  }

  predicate Under(doc: Doc, path: Names) { exists k | 0 <= k < |doc.kvs| :: ProperPrefix(path, doc.kvs[k].full) }

  // The key is a table already, or belongs into an array of tables.
  predicate TableInTheWay(doc: Doc, keyPath: Names)
    requires keyPath != []
  {
    || Section(keyPath, false) in doc.sections || Section(keyPath, true) in doc.sections
    || Section(keyPath[..|keyPath| - 1], true) in doc.sections
  }

  function Placement(doc: Doc, keyPath: Names): Decision
    requires keyPath != []
  {
    var section := keyPath[..|keyPath| - 1];
    if section == [] then InsertRoot
    else match FindSection(doc.sections, section) case Some(k) => InsertInto(k) case None => AppendSection
  }

  // oneLine: whether the value of each key is a scalar on one line.
  function Decide(doc: Doc, e: Edit, oneLine: seq<bool>): Decision
    requires e.keyPath != [] && |oneLine| == |doc.kvs|
  {
    match FindKv(doc.kvs, e.keyPath)
    case Some(k) =>
      if e.delete then Remove(k)
      else if (if e.raw then e.bare else oneLine[k]) then Replace(k)
      else Refuse(UnsupportedStructure)
    case None =>
      if e.delete then Refuse(KeyNotFound)
      else if TableInTheWay(doc, e.keyPath) then Refuse(UnsupportedStructure)
      else if !e.createIfMissing then Refuse(KeyNotFound)
      else if (e.raw && !e.bare) || Conflicts(doc, e.keyPath) then Refuse(UnsupportedStructure)
      else
        var d := Placement(doc, e.keyPath);
        if d.AppendSection? && Under(doc, e.keyPath[..|e.keyPath| - 1]) then Refuse(UnsupportedStructure) else d
  }

  lemma FindKvFrom(kvs: seq<Kv>, path: Names, i: nat)
    requires i <= |kvs|
    ensures FindKv(kvs[i..], path) ==
            if i == |kvs| then None
            else if kvs[i].full == path then Some(0)
            else match FindKv(kvs[i + 1..], path) case None => None case Some(n) => Some(n + 1)
  {
    if i < |kvs| { assert kvs[i..][1..] == kvs[i + 1..]; }
  }

  lemma InTheWay(doc: Doc, keyPath: Names, k: nat)
    requires keyPath != [] && k < |doc.sections|
    requires doc.sections[k].path == keyPath || doc.sections[k] == Section(keyPath[..|keyPath| - 1], true)
    ensures TableInTheWay(doc, keyPath)
  {
    assert doc.sections[k] in doc.sections && doc.sections[k] == Section(doc.sections[k].path, doc.sections[k].isArray);
  }

  lemma NothingInTheWay(doc: Doc, keyPath: Names)
    requires keyPath != []
    requires forall n :: 0 <= n < |doc.sections| ==>
               doc.sections[n].path != keyPath && doc.sections[n] != Section(keyPath[..|keyPath| - 1], true)
    ensures !TableInTheWay(doc, keyPath)
  {}

  lemma ProperPrefixIs(p: Names, q: Names)
    ensures ProperPrefix(p, q) <==> |p| < |q| && q[..|p|] == p
  {}

  lemma UnderIs(doc: Doc, path: Names)
    ensures Under(doc, path) <==> exists k | 0 <= k < |doc.kvs| :: ProperPrefix(path, doc.kvs[k].full)
  {}

  lemma DecideFound(doc: Doc, e: Edit, oneLine: seq<bool>, k: nat)
    requires e.keyPath != [] && |oneLine| == |doc.kvs| && FindKv(doc.kvs, e.keyPath) == Some(k)
    ensures Decide(doc, e, oneLine) ==
            if e.delete then Remove(k)
            else if (if e.raw then e.bare else oneLine[k]) then Replace(k)
            else Refuse(UnsupportedStructure)
  {}

  lemma DecideAbsent(doc: Doc, e: Edit, oneLine: seq<bool>)
    requires e.keyPath != [] && |oneLine| == |doc.kvs| && FindKv(doc.kvs, e.keyPath).None?
    ensures var d, section := Decide(doc, e, oneLine), e.keyPath[..|e.keyPath| - 1];
            if e.delete then d == Refuse(KeyNotFound)
            else if TableInTheWay(doc, e.keyPath) then d == Refuse(UnsupportedStructure)
            else if !e.createIfMissing then d == Refuse(KeyNotFound)
            else if (e.raw && !e.bare) || Conflicts(doc, e.keyPath) then d == Refuse(UnsupportedStructure)
            else if section == [] then d == InsertRoot
            else if FindSection(doc.sections, section).Some? then d == InsertInto(FindSection(doc.sections, section).value)
            else d == if Under(doc, section) then Refuse(UnsupportedStructure) else AppendSection
  {}

  // patchTOML up to the splice.
  method PatchTOML(doc: Doc, e: Edit, oneLine: seq<bool>) returns (d: Decision)
    requires e.keyPath != [] && |oneLine| == |doc.kvs|
    ensures d == Decide(doc, e, oneLine)
  {
    hide FindKv, FindSection, Conflicts, ProperPrefix, TableInTheWay, Under, Placement, Decide;
    var section := e.keyPath[..|e.keyPath| - 1];
    var i := 0;
    FindKvFrom(doc.kvs, e.keyPath, i);
    assert doc.kvs[0..] == doc.kvs;
    while i < |doc.kvs|
      invariant 0 <= i <= |doc.kvs|
      invariant FindKv(doc.kvs, e.keyPath) ==
        match FindKv(doc.kvs[i..], e.keyPath) case None => None case Some(n) => Some(i + n)
      invariant i == |doc.kvs| ==> FindKv(doc.kvs[i..], e.keyPath) == None
    {
      var same := SamePath(doc.kvs[i].full, e.keyPath);
      FindKvFrom(doc.kvs, e.keyPath, i);
      if !same {
        i := i + 1;
        FindKvFrom(doc.kvs, e.keyPath, i);
        continue;
      }
      DecideFound(doc, e, oneLine, i);
      if e.delete { return Remove(i); }
      if e.raw { return if e.bare then Replace(i) else Refuse(UnsupportedStructure); }
      if !oneLine[i] { return Refuse(UnsupportedStructure); }
      return Replace(i);
    }
    DecideAbsent(doc, e, oneLine);
    if e.delete { return Refuse(KeyNotFound); }
    for k := 0 to |doc.sections|
      invariant forall n :: 0 <= n < k ==>
        doc.sections[n].path != e.keyPath && doc.sections[n] != Section(section, true)
    {
      var s := doc.sections[k];
      var same := SamePath(s.path, e.keyPath);
      if same {
        InTheWay(doc, e.keyPath, k);
        return Refuse(UnsupportedStructure);
      }
      var parent := SamePath(s.path, section);
      if s.isArray && parent {
        InTheWay(doc, e.keyPath, k);
        return Refuse(UnsupportedStructure);
      }
    }
    NothingInTheWay(doc, e.keyPath);
    if !e.createIfMissing { return Refuse(KeyNotFound); }
    if e.raw && !e.bare { return Refuse(UnsupportedStructure); }
    var conflict := TomlCreateConflict(doc, e.keyPath);
    if conflict { return Refuse(UnsupportedStructure); }
    if |section| == 0 { return InsertRoot; }
    var found := TomlFindSection(doc, section);
    if found.Some? { return InsertInto(found.value); }
    for k := 0 to |doc.kvs|
      invariant forall n :: 0 <= n < k ==> !ProperPrefix(section, doc.kvs[n].full)
    {
      var full := doc.kvs[k].full;
      ProperPrefixIs(section, full);
      if |full| > |section| {
        var same := SamePath(full[..|section|], section);
        if same {
          UnderIs(doc, section);
          return Refuse(UnsupportedStructure);
        }
      }
    }
    UnderIs(doc, section);
    return AppendSection;
  }

  predicate CreateAllowed(doc: Doc, k: Names)
    requires k != []
  {
    && FindKv(doc.kvs, k).None? && !TableInTheWay(doc, k) && !Conflicts(doc, k)
    && (Placement(doc, k).AppendSection? ==> !Under(doc, k[..|k| - 1]))
  }

  // No header lies strictly below the key.
  predicate NoDeeperHeader(doc: Doc, k: Names) {
    forall n :: 0 <= n < |doc.sections| ==> !ProperPrefix(k, doc.sections[n].path)
  }

  // ----- where the new line goes -----

  // The header in force after some lines.
  function TableAfter(exprs: seq<Expr>, table: Names): Names
    decreases |exprs|
  {
    if exprs == [] then table
    else TableAfter(exprs[1..], match exprs[0] case Header(path, _) => path case KeyValue(_, _) => table)
  }

  function Inserted(exprs: seq<Expr>, at: nat, key: string, literal: string): seq<Expr>
    requires at <= |exprs|
  {
    exprs[..at] + [KeyValue([key], literal)] + exprs[at..]
  }

  function Appended(exprs: seq<Expr>, section: Names, key: string, literal: string): seq<Expr> {
    exprs + [Header(section, false), KeyValue([key], literal)]
  }

  function Replaced(exprs: seq<Expr>, at: nat, literal: string): seq<Expr>
    requires at < |exprs| && exprs[at].KeyValue?
  {
    exprs[at := KeyValue(exprs[at].parts, literal)]
  }

  lemma {:induction false} TableAfterSnoc(exprs: seq<Expr>, e: Expr, table: Names)
    ensures TableAfter(exprs + [e], table) == if e.Header? then e.path else TableAfter(exprs, table)
    decreases |exprs|
  {
    if exprs == [] {
      assert [] + [e] == [e] && [e][1..] == [];
    } else {
      assert (exprs + [e])[1..] == exprs[1..] + [e];
      TableAfterSnoc(exprs[1..], e, match exprs[0] case Header(path, _) => path case KeyValue(_, _) => table);
    }
  }

  // In front of the first header; an array header reports no position, and the line goes first.
  method InsertTOMLRootKey(exprs: seq<Expr>) returns (at: nat)
    ensures at <= |exprs| && TableAfter(exprs[..at], []) == []
    ensures at > 0 ==> at < |exprs| && exprs[at].Header? && !exprs[at].isArray
    ensures forall n :: 0 <= n < at ==> exprs[n].KeyValue?
  {
    at := 0;
    while at < |exprs| && exprs[at].KeyValue?
      invariant at <= |exprs| && TableAfter(exprs[..at], []) == []
      invariant forall n :: 0 <= n < at ==> exprs[n].KeyValue?
    {
      assert exprs[..at + 1] == exprs[..at] + [exprs[at]];
      TableAfterSnoc(exprs[..at], exprs[at], []);
      at := at + 1;
    }
    if at == |exprs| || exprs[at].isArray { at := 0; }
  }

  // Behind the last line of the section: its header or the last key read in a table of its name.
  method InsertTOMLKey(exprs: seq<Expr>, header: nat) returns (at: nat)
    requires header < |exprs| && exprs[header].Header?
    ensures header < at <= |exprs| && TableAfter(exprs[..at], []) == exprs[header].path
    ensures forall n :: at <= n < |exprs| && exprs[n].KeyValue? ==> TableAfter(exprs[..n], []) != exprs[header].path
  {
    var section := exprs[header].path;
    at := header + 1;
    assert exprs[..at] == exprs[..header] + [exprs[header]];
    TableAfterSnoc(exprs[..header], exprs[header], []);
    var table: Names := [];
    for n := 0 to |exprs|
      invariant table == TableAfter(exprs[..n], [])
      invariant header < at <= |exprs| && TableAfter(exprs[..at], []) == section
      invariant forall i :: at <= i < n && exprs[i].KeyValue? ==> TableAfter(exprs[..i], []) != section
    {
      assert exprs[..n + 1] == exprs[..n] + [exprs[n]];
      TableAfterSnoc(exprs[..n], exprs[n], []);
      match exprs[n]
      case Header(path, _) => table := path;
      case KeyValue(_, _) =>
        var same := SamePath(table, section);
        if same && n + 1 > at { at := n + 1; }
    }
  }

  // The line of a section and of a key.
  function SectionAt(exprs: seq<Expr>, table: Names, n: nat): (at: nat)
    requires n < |Scan(exprs, table).sections|
    ensures var c := Scan(exprs, table).sections[n]; at < |exprs| && exprs[at] == Header(c.path, c.isArray)
    decreases |exprs|
  {
    match exprs[0]
    case Header(path, _) => if n == 0 then 0 else 1 + SectionAt(exprs[1..], path, n - 1)
    case KeyValue(_, _) => 1 + SectionAt(exprs[1..], table, n)
  }

  function KvAt(exprs: seq<Expr>, table: Names, n: nat): (at: nat)
    requires n < |Scan(exprs, table).kvs|
    ensures at < |exprs| && exprs[at].KeyValue?
    ensures TableAfter(exprs[..at], table) + exprs[at].parts == Scan(exprs, table).kvs[n].full
    decreases |exprs|
  {
    match exprs[0]
    case Header(path, _) =>
      var i := 1 + KvAt(exprs[1..], path, n);
      assert exprs[..i][1..] == exprs[1..][..i - 1];
      i
    case KeyValue(parts, _) =>
      if n == 0 then 0
      else
        var i := 1 + KvAt(exprs[1..], table, n - 1);
        assert exprs[..i][1..] == exprs[1..][..i - 1];
        i
  }

  // One key more: a line in the table it belongs to, or a new section at the end when the table has no header.
  ghost predicate GrownAt(exprs: seq<Expr>, out: seq<Expr>, k: Names, literal: string, at: nat)
    requires k != []
  {
    at <= |exprs| && TableAfter(exprs[..at], []) == k[..|k| - 1] && out == Inserted(exprs, at, k[|k| - 1], literal)
  }

  ghost predicate Grown(exprs: seq<Expr>, out: seq<Expr>, k: Names, literal: string)
    requires k != []
  {
    var section, key := k[..|k| - 1], k[|k| - 1];
    if Placement(Scan(exprs, []), k).AppendSection? then out == Appended(exprs, section, key, literal)
    else exists at :: GrownAt(exprs, out, k, literal, at)
  }

  ghost predicate Sets(exprs: seq<Expr>, e: Edit, oneLine: seq<bool>, out: seq<Expr>)
    requires e.keyPath != [] && |oneLine| == |Scan(exprs, []).kvs|
  {
    match Decide(Scan(exprs, []), e, oneLine)
    case Replace(n) => out == Replaced(exprs, KvAt(exprs, [], n), e.literal)
    case InsertRoot => Grown(exprs, out, e.keyPath, e.literal)
    case InsertInto(_) => Grown(exprs, out, e.keyPath, e.literal)
    case AppendSection => Grown(exprs, out, e.keyPath, e.literal)
    case Remove(_) => false
    case Refuse(_) => false
  }

  // patchTOML for an edit that sets a value, on lines; the byte splice of one line is left out.
  method SetTOML(exprs: seq<Expr>, e: Edit, oneLine: seq<bool>) returns (r: Result<seq<Expr>>)
    requires e.keyPath != [] && !e.delete && |oneLine| == |Scan(exprs, []).kvs|
    ensures r.Ok? ==> Sets(exprs, e, oneLine, r.value)
    ensures r.Err? ==> Decide(Scan(exprs, []), e, oneLine) == Refuse(r.error)
  {
    var section, key := e.keyPath[..|e.keyPath| - 1], e.keyPath[|e.keyPath| - 1];
    var d := PatchTOML(Scan(exprs, []), e, oneLine);
    match d
    case Refuse(error) => r := Err(error);
    case Replace(n) => r := Ok(Replaced(exprs, KvAt(exprs, [], n), e.literal));
    case InsertRoot =>
      var at := InsertTOMLRootKey(exprs);
      r := Ok(Inserted(exprs, at, key, e.literal));
      assert GrownAt(exprs, r.value, e.keyPath, e.literal, at);
    case InsertInto(n) =>
      var at := InsertTOMLKey(exprs, SectionAt(exprs, [], n));
      r := Ok(Inserted(exprs, at, key, e.literal));
      assert GrownAt(exprs, r.value, e.keyPath, e.literal, at);
    case AppendSection =>
      r := Ok(Appended(exprs, section, key, e.literal));
  }
}
