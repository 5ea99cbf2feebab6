/**
 When patchTOML refuses, in terms of what the document means: the checks run
 over the scanned lines, the theorems here speak of the tables and values that
 those lines define.
 */
module TomlRefuse {
  import opened Bytes
  import opened Toml
  import opened TomlRun
  import opened TomlValid

  // ----- what a name stands for, in whichever elements of the arrays above it -----

  ghost predicate HasValue(es: map<Path, Kind>, name: Names) {
    exists p :: p in es && es[p].Value? && NamesOf(p) == name
  }

  ghost predicate HasHeader(es: map<Path, Kind>, name: Names) {
    exists p :: p in es && es[p].Explicit? && NamesOf(p) == name
  }

  ghost predicate HasArray(es: map<Path, Kind>, name: Names) {
    exists p :: p in es && es[p].ArrayOf? && NamesOf(p) == name
  }

  ghost predicate HasValueBelow(es: map<Path, Kind>, name: Names) {
    exists p :: p in es && es[p].Value? && |name| < |NamesOf(p)| && NamesOf(p)[..|name|] == name
  }

  ghost predicate HasValueAbove(es: map<Path, Kind>, name: Names) {
    exists p :: p in es && es[p].Value? && |NamesOf(p)| < |name| && name[..|NamesOf(p)|] == NamesOf(p)
  }

  // The document's own entry of one line.
  ghost predicate Covered(es: map<Path, Kind>, table: Names, e: Expr) {
    match e
    case Header(path, isArray) => if isArray then HasArray(es, path) else HasHeader(es, path)
    case KeyValue(parts, _) => HasValue(es, table + parts)
  }

  lemma HeaderCovers(s: State, path: Names, isArray: bool, lenient: bool)
    requires Step(s, Header(path, isArray), lenient).Some?
    ensures Covered(Step(s, Header(path, isArray), lenient).value.entries, NamesOf(s.table), Header(path, isArray))
  {
    assert NamesOf([]) == [];
    hide NamesOf, EnterAll;
    var t, last := Step(s, Header(path, isArray), lenient).value, |path| - 1;
    EnterAllNames(s.entries, [], path[..last]);
    var (es, base) := EnterAll(s.entries, [], path[..last]).value;
    var p := base + [K(path[last])];
    NamesStep(base, path[last], 0);
    assert path[..last] + [path[last]] == path && [] + path[..last] == path[..last];
    assert p in t.entries && NamesOf(p) == path;
  }

  lemma KeyCovers(s: State, parts: Names, literal: string, lenient: bool)
    requires Step(s, KeyValue(parts, literal), lenient).Some?
    ensures Covered(Step(s, KeyValue(parts, literal), lenient).value.entries, NamesOf(s.table), KeyValue(parts, literal))
  {
    hide NamesOf, Reach;
    var t, last := Step(s, KeyValue(parts, literal), lenient).value, |parts| - 1;
    ReachNames(s.entries, s.table, parts[..last], lenient);
    var (es, base) := Reach(s.entries, s.table, parts[..last], lenient).value;
    var p := base + [K(parts[last])];
    NamesStep(base, parts[last], 0);
    assert NamesOf(s.table) + parts[..last] + [parts[last]] == NamesOf(s.table) + parts;
    assert p in t.entries && NamesOf(p) == NamesOf(s.table) + parts;
  }

  lemma StepCovers(s: State, e: Expr, lenient: bool)
    requires Step(s, e, lenient).Some?
    ensures Covered(Step(s, e, lenient).value.entries, NamesOf(s.table), e)
  {
    hide Covered, Step, NamesOf;
    match e
    case Header(path, isArray) => HeaderCovers(s, path, isArray, lenient);
    case KeyValue(parts, literal) => KeyCovers(s, parts, literal, lenient);
  }

  lemma CoveredLasts(es: map<Path, Kind>, fs: map<Path, Kind>, table: Names, e: Expr)
    requires Covered(es, table, e) && Lasts(es, fs)
    ensures Covered(fs, table, e)
  {
    hide NamesOf;
  }

  lemma {:induction false} RunLasts(s: State, exprs: seq<Expr>, lenient: bool)
    requires Run(s, exprs, lenient).Some?
    ensures Lasts(s.entries, Run(s, exprs, lenient).value.entries)
    decreases |exprs|
  {
    if exprs != [] {
      StepLasts(s, exprs[0], lenient);
      RunLasts(Step(s, exprs[0], lenient).value, exprs[1..], lenient);
    }
  }

  lemma {:induction false} RunCovers(s: State, exprs: seq<Expr>, lenient: bool, n: nat)
    requires Run(s, exprs, lenient).Some? && n < |exprs|
    ensures Covered(Run(s, exprs, lenient).value.entries, TableAfter(exprs[..n], NamesOf(s.table)), exprs[n])
    decreases n
  {
    hide Covered, Lasts;
    var t := Step(s, exprs[0], lenient).value;
    if n == 0 {
      StepCovers(s, exprs[0], lenient);
      RunLasts(t, exprs[1..], lenient);
      CoveredLasts(t.entries, Run(s, exprs, lenient).value.entries, NamesOf(s.table), exprs[0]);
    } else {
      StepTable(s, exprs[0], lenient);
      RunCovers(t, exprs[1..], lenient, n - 1);
      assert exprs[..n][1..] == exprs[1..][..n - 1];
    }
  }

  // ----- the scanned lines and the entries say the same -----

  lemma KvHeld(exprs: seq<Expr>, lenient: bool, n: nat)
    requires Eval(exprs, lenient).Some? && n < |Scan(exprs, []).kvs|
    ensures HasValue(Eval(exprs, lenient).value.entries, Scan(exprs, []).kvs[n].full)
  {
    hide HasValue, Run;
    var at := KvAt(exprs, [], n);
    RunCovers(START, exprs, lenient, at);
  }

  lemma SectionHeld(exprs: seq<Expr>, lenient: bool, c: Section)
    requires Eval(exprs, lenient).Some? && c in Scan(exprs, []).sections
    ensures var es := Eval(exprs, lenient).value.entries;
            if c.isArray then HasArray(es, c.path) else HasHeader(es, c.path)
  {
    hide HasArray, HasHeader, Run;
    var n: nat :| n < |Scan(exprs, []).sections| && Scan(exprs, []).sections[n] == c;
    RunCovers(START, exprs, lenient, SectionAt(exprs, [], n));
  }

  lemma EntriesFromDoc(exprs: seq<Expr>, lenient: bool)
    requires Eval(exprs, lenient).Some?
    ensures FromDoc(Eval(exprs, lenient).value.entries, Scan(exprs, []))
  {
    RunOrigin(START, exprs, lenient, Scan(exprs, []));
  }

  lemma ValuesSame(exprs: seq<Expr>, lenient: bool, name: Names)
    requires Eval(exprs, lenient).Some?
    ensures var es, doc := Eval(exprs, lenient).value.entries, Scan(exprs, []);
            HasValue(es, name) <==> exists n | 0 <= n < |doc.kvs| :: doc.kvs[n].full == name
  {
    hide NamesOf, Eval, Scan;
    var es, doc := Eval(exprs, lenient).value.entries, Scan(exprs, []);
    EntriesFromDoc(exprs, lenient);
    if HasValue(es, name) {
      ghost var p :| p in es && es[p].Value? && NamesOf(p) == name;
      assert Origin(doc, NamesOf(p), es[p]);
    }
    if exists n | 0 <= n < |doc.kvs| :: doc.kvs[n].full == name {
      ghost var n: nat :| n < |doc.kvs| && doc.kvs[n].full == name;
      KvHeld(exprs, lenient, n);
    }
  }

  lemma SectionsSame(exprs: seq<Expr>, lenient: bool, name: Names)
    requires Eval(exprs, lenient).Some?
    ensures var es, doc := Eval(exprs, lenient).value.entries, Scan(exprs, []);
            && (HasHeader(es, name) <==> Section(name, false) in doc.sections)
            && (HasArray(es, name) <==> Section(name, true) in doc.sections)
  {
    hide NamesOf, Eval, Scan;
    var es, doc := Eval(exprs, lenient).value.entries, Scan(exprs, []);
    EntriesFromDoc(exprs, lenient);
    if HasHeader(es, name) {
      ghost var p :| p in es && es[p].Explicit? && NamesOf(p) == name;
      assert Origin(doc, NamesOf(p), es[p]);
    }
    if HasArray(es, name) {
      ghost var p :| p in es && es[p].ArrayOf? && NamesOf(p) == name;
      assert Origin(doc, NamesOf(p), es[p]);
    }
    if Section(name, false) in doc.sections { SectionHeld(exprs, lenient, Section(name, false)); }
    if Section(name, true) in doc.sections { SectionHeld(exprs, lenient, Section(name, true)); }
  }

  lemma BelowSame(exprs: seq<Expr>, lenient: bool, name: Names)
    requires Eval(exprs, lenient).Some?
    ensures HasValueBelow(Eval(exprs, lenient).value.entries, name) <==> Under(Scan(exprs, []), name)
  {
    hide NamesOf, Eval, Scan, HasValue;
    var es, doc := Eval(exprs, lenient).value.entries, Scan(exprs, []);
    if HasValueBelow(es, name) {
      ghost var p :| p in es && es[p].Value? && |name| < |NamesOf(p)| && NamesOf(p)[..|name|] == name;
      assert HasValue(es, NamesOf(p)) by { Held(es, p); }
      ValuesSame(exprs, lenient, NamesOf(p));
      ghost var n: nat :| n < |doc.kvs| && doc.kvs[n].full == NamesOf(p);
      assert ProperPrefix(name, doc.kvs[n].full);
    }
    if Under(doc, name) {
      ghost var n: nat :| n < |doc.kvs| && ProperPrefix(name, doc.kvs[n].full);
      KvHeld(exprs, lenient, n);
      ghost var p := Holder(es, doc.kvs[n].full);
    }
  }

  lemma AboveSame(exprs: seq<Expr>, lenient: bool, name: Names)
    requires Eval(exprs, lenient).Some?
    ensures var doc := Scan(exprs, []);
            HasValueAbove(Eval(exprs, lenient).value.entries, name)
            <==> exists n | 0 <= n < |doc.kvs| :: ProperPrefix(doc.kvs[n].full, name)
  {
    hide NamesOf, Eval, Scan, HasValue;
    var es, doc := Eval(exprs, lenient).value.entries, Scan(exprs, []);
    if HasValueAbove(es, name) {
      ghost var p :| p in es && es[p].Value? && |NamesOf(p)| < |name| && name[..|NamesOf(p)|] == NamesOf(p);
      assert HasValue(es, NamesOf(p)) by { Held(es, p); }
      ValuesSame(exprs, lenient, NamesOf(p));
      ghost var n: nat :| n < |doc.kvs| && doc.kvs[n].full == NamesOf(p);
      assert ProperPrefix(doc.kvs[n].full, name);
    }
    if exists n | 0 <= n < |doc.kvs| :: ProperPrefix(doc.kvs[n].full, name) {
      ghost var n: nat :| n < |doc.kvs| && ProperPrefix(doc.kvs[n].full, name);
      KvHeld(exprs, lenient, n);
      ghost var p := Holder(es, doc.kvs[n].full);
    }
  }

  lemma Held(es: map<Path, Kind>, p: Path)
    requires p in es && es[p].Value?
    ensures HasValue(es, NamesOf(p))
  {}

  lemma Holder(es: map<Path, Kind>, name: Names) returns (p: Path)
    requires HasValue(es, name)
    ensures p in es && es[p].Value? && NamesOf(p) == name
  {
    p :| p in es && es[p].Value? && NamesOf(p) == name;
  }

  // ----- the refusals -----

  // Something in the document makes one more key at this path impossible, or is
  // a shape that is not written: a value on the way, keys or a header of the
  // key's own, an array of tables to hold it, or a table that holds keys and has
  // no header.
  ghost predicate Unsupported(es: map<Path, Kind>, k: Names)
    requires k != []
  {
    var section := k[..|k| - 1];
    || HasValueAbove(es, k) || HasValueBelow(es, k)
    || HasHeader(es, k) || HasArray(es, k) || HasArray(es, section)
    || (section != [] && !HasHeader(es, section) && HasValueBelow(es, section))
  }

  // A plain create in a valid document is refused exactly for that, and else
  // goes where the section is: in front of the headers, into it, or to the end.
  lemma CreateRefusedExact(exprs: seq<Expr>, e: Edit, oneLine: seq<bool>, lenient: bool)
    requires e.keyPath != [] && |oneLine| == |Scan(exprs, []).kvs| && Eval(exprs, lenient).Some?
    requires !e.delete && e.createIfMissing && (e.raw ==> e.bare)
    requires !HasValue(Eval(exprs, lenient).value.entries, e.keyPath)
    ensures var es, d := Eval(exprs, lenient).value.entries, Decide(Scan(exprs, []), e, oneLine);
            var section := e.keyPath[..|e.keyPath| - 1];
            if Unsupported(es, e.keyPath) then d == Refuse(UnsupportedStructure)
            else if section == [] then d == InsertRoot
            else if HasHeader(es, section) then
              d.InsertInto? && d.section < |Scan(exprs, []).sections|
              && Scan(exprs, []).sections[d.section] == Section(section, false)
            else d == AppendSection
  {
    hide Scan, Eval, HasValue, HasHeader, HasArray, HasValueBelow, HasValueAbove, Under, Decide, FindKv, FindSection;
    var doc := Scan(exprs, []);
    var section := e.keyPath[..|e.keyPath| - 1];
    NoneFound(exprs, lenient, e.keyPath);
    DecideAbsent(doc, e, oneLine);
    WaySame(exprs, lenient, e.keyPath);
    ConflictSame(exprs, lenient, e.keyPath);
    BelowSame(exprs, lenient, section);
    SectionsSame(exprs, lenient, section);
    NoSection(doc.sections, section);
  }

  lemma NoneFound(exprs: seq<Expr>, lenient: bool, k: Names)
    requires Eval(exprs, lenient).Some?
    ensures FindKv(Scan(exprs, []).kvs, k).Some? <==> HasValue(Eval(exprs, lenient).value.entries, k)
  {
    hide Scan, Eval, HasValue;
    NoKv(Scan(exprs, []).kvs, k);
    ValuesSame(exprs, lenient, k);
  }

  lemma WaySame(exprs: seq<Expr>, lenient: bool, k: Names)
    requires Eval(exprs, lenient).Some? && k != []
    ensures var es := Eval(exprs, lenient).value.entries;
            TableInTheWay(Scan(exprs, []), k) <==> HasHeader(es, k) || HasArray(es, k) || HasArray(es, k[..|k| - 1])
  {
    hide Scan, Eval, HasHeader, HasArray;
    SectionsSame(exprs, lenient, k);
    SectionsSame(exprs, lenient, k[..|k| - 1]);
  }

  lemma ConflictSame(exprs: seq<Expr>, lenient: bool, k: Names)
    requires Eval(exprs, lenient).Some?
    ensures var es := Eval(exprs, lenient).value.entries;
            Conflicts(Scan(exprs, []), k) <==> HasValueAbove(es, k) || HasValueBelow(es, k)
  {
    hide Scan, Eval, HasValueAbove, HasValueBelow, ProperPrefix;
    AboveSame(exprs, lenient, k);
    BelowSame(exprs, lenient, k);
  }

  // Every other refusal: what is set already, what is not there to delete, and
  // what may not be created.
  lemma OtherRefusals(exprs: seq<Expr>, e: Edit, oneLine: seq<bool>, lenient: bool)
    requires e.keyPath != [] && |oneLine| == |Scan(exprs, []).kvs| && Eval(exprs, lenient).Some?
    ensures var es, d := Eval(exprs, lenient).value.entries, Decide(Scan(exprs, []), e, oneLine);
            var there := HasValue(es, e.keyPath);
            && (there && e.delete ==> d.Remove? && d.kv < |oneLine| && Scan(exprs, []).kvs[d.kv].full == e.keyPath)
            && (there && !e.delete && d != Refuse(UnsupportedStructure) ==>
                 d.Replace? && d.kv < |oneLine| && Scan(exprs, []).kvs[d.kv].full == e.keyPath)
            && (there && !e.delete && e.raw ==> (d.Replace? <==> e.bare))
            && (there && !e.delete && !e.raw && d.Replace? ==> oneLine[d.kv])
            && (there && !e.delete && !e.raw && (forall n :: 0 <= n < |oneLine| ==> oneLine[n]) ==> d.Replace?)
            && (!there && e.delete ==> d == Refuse(KeyNotFound))
            && (!there && !e.delete && !e.createIfMissing ==>
                 d == Refuse(if HasHeader(es, e.keyPath) || HasArray(es, e.keyPath) || HasArray(es, e.keyPath[..|e.keyPath| - 1])
                             then UnsupportedStructure else KeyNotFound))
            && (!there && !e.delete && e.createIfMissing && e.raw && !e.bare ==> d == Refuse(UnsupportedStructure))
  {
    hide Scan, Eval, HasValue, HasHeader, HasArray, TableInTheWay, Conflicts, Under, Decide, FindSection, Placement, FindKv;
    var doc := Scan(exprs, []);
    NoneFound(exprs, lenient, e.keyPath);
    WaySame(exprs, lenient, e.keyPath);
    match FindKv(doc.kvs, e.keyPath)
    case Some(k) => DecideFound(doc, e, oneLine, k);
    case None => DecideAbsent(doc, e, oneLine);
  }
}
