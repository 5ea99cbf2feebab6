/**
 The release merge of internal/changelogfrag/merge.go: pending fragments and the
 old Unreleased section become one released section, and nothing else moves.
 Text is a sequence of code points.
 */
module Changelog {
  import opened Bytes

  const HEADING: string := "## [Unreleased]"
  const NEXT: string := "\n## "

  // ----- the string functions of Go that the merge uses -----

  predicate IsSpace(c: char) {
    || '\t' <= c <= '\r' || c == ' ' || c == '\U{85}' || c == '\U{A0}' || c == '\U{1680}'
    || c == '\U{2028}' || c == '\U{2029}' || c == '\U{202F}' || c == '\U{205F}' || c == '\U{3000}'
    || '\U{2000}' <= c <= '\U{200A}'
  }

  // Of ASCII, the six blanks and nothing that is printed.
  lemma AsciiSpaces(c: char)
    requires c <= '~'
    ensures IsSpace(c) <==> c in " \t\n\r\U{0B}\U{0C}"
  {}

  function Index(s: string, x: string): (r: Option<nat>)
    ensures r.Some? ==> At(s, r.value, x)
    ensures forall i: nat :: i < (if r.Some? then r.value else |s| + 1) ==> !At(s, i, x)
    decreases |s|
  {
    if x <= s then assert At(s, 0, x); Some(0)
    else if s == [] then None
    else
      var r := Index(s[1..], x);
      assert forall i: nat :: At(s, i + 1, x) <==> At(s[1..], i, x) by { AtTail(s, x); }
      assert forall i: nat :: i > 0 ==> (At(s, i, x) <==> At(s[1..], i - 1, x));
      match r case None => None case Some(n) => Some(n + 1)
  }

  lemma AtTail(s: string, x: string)
    requires s != []
    ensures forall i: nat :: At(s, i + 1, x) <==> At(s[1..], i, x)
  {
    forall i: nat ensures At(s, i + 1, x) <==> At(s[1..], i, x) {
      if i + 1 + |x| <= |s| { assert s[1..][i..i + |x|] == s[i + 1..i + 1 + |x|]; }
    }
  }

  function TrimLeft(s: string, cut: set<char>): (r: string)
    ensures r == [] || r[0] !in cut
    ensures |r| <= |s| && s[|s| - |r|..] == r && forall i :: 0 <= i < |s| - |r| ==> s[i] in cut
  {
    if s != [] && s[0] in cut then TrimLeft(s[1..], cut) else s
  }

  function TrimRight(s: string, cut: set<char>): (r: string)
    ensures r == [] || r[|r| - 1] !in cut
    ensures |r| <= |s| && s[..|r|] == r && forall i :: |r| <= i < |s| ==> s[i] in cut
  {
    if s != [] && s[|s| - 1] in cut then TrimRight(s[..|s| - 1], cut) else s
  }

  function TrimSpace(s: string): (r: string)
    ensures r == [] || (!IsSpace(r[0]) && !IsSpace(r[|r| - 1]))
  {
    if s == [] then []
    else if IsSpace(s[0]) then TrimSpace(s[1..])
    else if IsSpace(s[|s| - 1]) then TrimSpace(s[..|s| - 1])
    else s
  }

  function Join(parts: seq<string>, sep: string): string {
    if parts == [] then []
    else if |parts| == 1 then parts[0]
    else parts[0] + sep + Join(parts[1..], sep)
  }

  // The first line, without its newline.
  function Line(s: string): (r: string)
    ensures |r| <= |s| && s[..|r|] == r && '\n' !in r && (|r| < |s| ==> s[|r|] == '\n')
  {
    if s == [] || s[0] == '\n' then [] else [s[0]] + Line(s[1..])
  }

  // ----- the heading -----

  predicate IsHeading(line: string) { TrimRight(line, {'\r', '\n', ' ', '\t'}) == HEADING }

  // The place of the first line that is the heading.
  ghost predicate HeadingAt(s: string, at: nat) {
    at <= |s| && LineStart(s, at) && IsHeading(Line(s[at..]))
  }

  predicate LineStart(s: string, at: nat)
    requires at <= |s|
  {
    at == 0 || s[at - 1] == '\n'
  }

  lemma HeadingLine(line: string)
    ensures IsHeading(line + "\n") <==> IsHeading(line)
  {
    assert (line + "\n")[..|line|] == line;
  }

  ghost predicate FirstHeading(s: string, at: Option<nat>) {
    && (at.Some? ==> HeadingAt(s, at.value))
    && forall i: nat :: i < (if at.Some? then at.value else |s| + 1) ==> !HeadingAt(s, i)
  }

  lemma HeadingText(s: string, at: nat)
    requires HeadingAt(s, at)
    ensures At(s, at, HEADING)
  {
    var line := Line(s[at..]);
    assert line[..|HEADING|] == HEADING;
    assert s[at..][..|line|][..|HEADING|] == s[at..at + |HEADING|];
  }

  lemma OneHeading(s: string, a: Option<nat>, b: Option<nat>)
    requires FirstHeading(s, a) && FirstHeading(s, b)
    ensures a == b
  {
    if a.Some? { assert HeadingAt(s, a.value); }
    if b.Some? { assert HeadingAt(s, b.value); }
  }

  ghost function HeadingFrom(s: string, i: nat): (at: Option<nat>)
    requires i <= |s|
    ensures at.Some? ==> i <= at.value && HeadingAt(s, at.value)
    ensures forall k: nat :: i <= k < (if at.Some? then at.value else |s| + 1) ==> !HeadingAt(s, k)
    decreases |s| - i
  {
    if HeadingAt(s, i) then Some(i)
    else if i == |s| then None
    else HeadingFrom(s, i + 1)
  }

  // The place of the Unreleased heading.
  ghost function HeadingIndex(s: string): (at: Option<nat>)
    ensures FirstHeading(s, at) && (at.Some? ==> At(s, at.value, HEADING))
  {
    var at := HeadingFrom(s, 0);
    assert at.Some? ==> At(s, at.value, HEADING) by { if at.Some? { HeadingText(s, at.value); } }
    at
  }

  lemma InsideLine(s: string, offset: nat)
    requires offset <= |s|
    ensures offset + |Line(s[offset..])| <= |s|
    ensures forall i: nat :: offset < i <= offset + |Line(s[offset..])| ==> !HeadingAt(s, i)
  {
    var text := Line(s[offset..]);
    forall i: nat | offset < i <= offset + |text| ensures !LineStart(s, i) {
      assert s[offset..][..|text|][i - 1 - offset] == s[i - 1];
    }
  }

  method UnreleasedHeadingIndex(s: string) returns (r: Option<nat>)
    ensures r == HeadingIndex(s)
  {
    hide Line, IsHeading, HeadingFrom, HeadingIndex;
    var offset := 0;
    while true
      invariant offset <= |s| && LineStart(s, offset)
      invariant forall i: nat :: i < offset ==> !HeadingAt(s, i)
      decreases |s| - offset
    {
      var text := Line(s[offset..]);
      InsideLine(s, offset);
      HeadingLine(text);
      if offset + |text| == |s| {
        r := if IsHeading(text) then Some(offset) else None;
        OneHeading(s, r, HeadingIndex(s));
        return;
      }
      var line := text + "\n";
      if IsHeading(line) {
        OneHeading(s, Some(offset), HeadingIndex(s));
        return Some(offset);
      }
      assert s[offset..][|text|] == s[offset + |text|];
      offset := offset + |line|;
    }
  }

  // ----- the merge -----

  const NL: set<char> := {'\n'}

  // The end of the Unreleased section: the next heading of its level, or the end.
  function Boundary(s: string, at: nat): (b: nat)
    requires At(s, at, HEADING)
    ensures at + |HEADING| <= b <= |s|
  {
    match Index(s[at + |HEADING|..], NEXT)
    case None => |s|
    case Some(n) => at + |HEADING| + n + 1
  }

  // Just past the title line; 0 when that line is the last one and has no newline.
  function TitleEnd(s: string): (r: Option<nat>)
    ensures r.Some? ==> r.value <= |s|
  {
    var rest := TrimLeft(s, NL);
    var line := Line(rest);
    if !("# " <= line) then None
    else if |line| < |rest| then Some(|s| - |rest| + |line| + 1)
    else Some(0)
  }

  // What lies under the heading, trimmed.
  method UnreleasedBody(s: string) returns (r: Option<string>)
    ensures HeadingIndex(s).None? ==> r.None?
    ensures r.Some? ==> r.value != []
    ensures HeadingIndex(s).Some? ==>
              var at := HeadingIndex(s).value;
              (if r.Some? then r.value else []) == TrimSpace(s[at + |HEADING|..Boundary(s, at)])
  {
    hide HeadingIndex, HeadingAt, Index, TrimSpace, Line, IsSpace;
    var i := UnreleasedHeadingIndex(s);
    if i.None? { return None; }
    var from := i.value + |HEADING|;
    var rest := s[from..];
    var next := Index(rest, NEXT);
    if next.Some? {
      AtIndex(rest, next.value, NEXT, 0);
      assert s[from..Boundary(s, i.value)] == rest[..next.value] + [rest[next.value]];
      rest := rest[..next.value];
      TrimBreak(rest);
    } else {
      assert s[from..Boundary(s, i.value)] == rest;
    }
    var body := TrimSpace(rest);
    return if body != [] then Some(body) else None;
  }

  lemma {:induction false} TrimBreak(s: string)
    ensures TrimSpace(s + "\n") == TrimSpace(s)
  {
    var t := s + "\n";
    assert t[..|t| - 1] == s;
    if s != [] && IsSpace(s[0]) {
      assert t[1..] == s[1..] + "\n";
      TrimBreak(s[1..]);
    } else if s == [] {
      assert t[1..] == [];
    }
  }

  method InsertRelease(s: string, release: string) returns (out: string)
    ensures out == Placed(s, HeadingIndex(s), release)
  {
    hide HeadingIndex, Line;
    var i := UnreleasedHeadingIndex(s);
    if i.None? {
      var end := TitleEnd(s);
      if end.Some? {
        return TrimRight(s[..end.value], NL) + "\n\n" + release + "\n\n" + TrimLeft(s[end.value..], NL);
      }
      return release + "\n\n" + TrimLeft(s, NL);
    }
    var next := Index(s[i.value..][|HEADING|..], NEXT);
    assert s[i.value..][|HEADING|..] == s[i.value + |HEADING|..];
    if next.None? {
      return TrimRight(s[..i.value], NL) + "\n\n" + release + "\n";
    }
    return s[..i.value] + release + "\n\n" + s[i.value + |HEADING| + next.value + 1..];
  }

  // The changelog with the release in place of the Unreleased section, or under the title.
  function Placed(s: string, at: Option<nat>, release: string): string
    requires at.Some? ==> At(s, at.value, HEADING)
  {
    match at
    case Some(i) =>
      if Boundary(s, i) == |s| then TrimRight(s[..i], NL) + "\n\n" + release + "\n"
      else s[..i] + release + "\n\n" + s[Boundary(s, i)..]
    case None =>
      match TitleEnd(s)
      case Some(end) => TrimRight(s[..end], NL) + "\n\n" + release + "\n\n" + TrimLeft(s[end..], NL)
      case None => release + "\n\n" + TrimLeft(s, NL)
  }

  // ----- what is printed: everything but white space -----

  function Ink(s: string): string {
    if s == [] then [] else (if IsSpace(s[0]) then [] else [s[0]]) + Ink(s[1..])
  }

  lemma {:induction false} InkConcat(a: string, b: string)
    ensures Ink(a + b) == Ink(a) + Ink(b)
  {
    if a == [] {
      assert a + b == b;
    } else {
      assert (a + b)[1..] == a[1..] + b;
      InkConcat(a[1..], b);
    }
  }

  lemma {:induction false} InkTrim(s: string)
    ensures Ink(TrimSpace(s)) == Ink(s)
    decreases |s|
  {
    if s == [] {
    } else if IsSpace(s[0]) {
      InkTrim(s[1..]);
    } else if IsSpace(s[|s| - 1]) {
      InkTrim(s[..|s| - 1]);
      InkConcat(s[..|s| - 1], [s[|s| - 1]]);
      assert s == s[..|s| - 1] + [s[|s| - 1]];
    }
  }

  lemma {:induction false} InkBlank(s: string)
    requires forall i :: 0 <= i < |s| ==> IsSpace(s[i])
    ensures Ink(s) == []
  {
    if s != [] { InkBlank(s[1..]); }
  }

  lemma Newlines()
    ensures Ink("") == [] && Ink("\n") == [] && Ink("\n\n") == []
  {
    InkBlank("\n\n");
    InkBlank("\n");
  }

  lemma {:induction false} InkLeft(s: string)
    ensures Ink(TrimLeft(s, NL)) == Ink(s)
  {
    hide Ink;
    if s != [] && s[0] in NL {
      InkLeft(s[1..]);
      Newlines();
      InkConcat("\n", s[1..]);
      assert s == "\n" + s[1..] && [] + Ink(s[1..]) == Ink(s[1..]);
    }
  }

  lemma {:induction false} InkRight(s: string)
    ensures Ink(TrimRight(s, NL)) == Ink(s)
  {
    hide Ink;
    if s != [] && s[|s| - 1] in NL {
      InkRight(s[..|s| - 1]);
      assert s == s[..|s| - 1] + "\n";
      InkConcat(s[..|s| - 1], "\n");
      Newlines();
    }
  }

  function InkAll(parts: seq<string>): string { if parts == [] then [] else Ink(parts[0]) + InkAll(parts[1..]) }

  lemma {:induction false} InkJoin(parts: seq<string>, sep: string)
    requires Ink(sep) == []
    ensures Ink(Join(parts, sep)) == InkAll(parts)
  {
    if |parts| == 1 {
      assert InkAll(parts[1..]) == [];
    } else if |parts| > 1 {
      InkConcat(parts[0] + sep, Join(parts[1..], sep));
      InkConcat(parts[0], sep);
      InkJoin(parts[1..], sep);
    }
  }

  lemma {:induction false} InkAllSnoc(parts: seq<string>, last: string)
    ensures InkAll(parts + [last]) == InkAll(parts) + Ink(last)
  {
    if parts == [] {
      assert parts + [last] == [last] && [last][1..] == [];
    } else {
      assert (parts + [last])[1..] == parts[1..] + [last];
      InkAllSnoc(parts[1..], last);
    }
  }

  lemma InkOf(a: string, b: string, c: string, d: string)
    ensures Ink(a + b + c + d) == Ink(a) + Ink(b) + Ink(c) + Ink(d)
  {
    InkConcat(a + b + c, d);
    InkConcat(a + b, c);
    InkConcat(a, b);
  }

  lemma InkPlaced(s: string, at: Option<nat>, release: string)
    requires at.Some? ==> At(s, at.value, HEADING)
    ensures var out := Placed(s, at, release);
            && (at.Some? ==> Ink(out) == Ink(s[..at.value]) + Ink(release) + Ink(s[Boundary(s, at.value)..]))
            && (at.None? ==> var p := if TitleEnd(s).Some? then TitleEnd(s).value else 0;
              Ink(out) == Ink(s[..p]) + Ink(release) + Ink(s[p..]))
  {
    hide Ink, Boundary, TitleEnd, TrimLeft, TrimRight, Index;
    Newlines();
    match at
    case Some(i) =>
      InkRight(s[..i]);
      assert s[|s|..] == [];
      InkOf(TrimRight(s[..i], NL), "\n\n", release, "\n");
      InkOf(s[..i], release, "\n\n", s[Boundary(s, i)..]);
    case None =>
      match TitleEnd(s)
      case Some(end) =>
        InkRight(s[..end]);
        InkLeft(s[end..]);
        InkOf(TrimRight(s[..end], NL), "\n\n", release, "\n\n");
        InkConcat(TrimRight(s[..end], NL) + "\n\n" + release + "\n\n", TrimLeft(s[end..], NL));
      case None =>
        InkLeft(s);
        InkConcat(release + "\n\n", TrimLeft(s, NL));
        InkConcat(release, "\n\n");
        assert s[..0] == [] && s[0..] == s;
  }

  // ----- the title -----

  function TitleOf(s: string): Option<string> {
    var line := Line(TrimLeft(s, NL));
    if "# " <= line then Some(line) else None
  }

  predicate Newline(s: string) { forall i :: 0 <= i < |s| ==> s[i] == '\n' }

  lemma {:induction false} LeftOf(nls: string, t: string)
    requires Newline(nls) && (t != [] ==> t[0] != '\n')
    ensures TrimLeft(nls + t, NL) == t
  {
    if nls == [] {
      assert nls + t == t;
    } else {
      assert (nls + t)[1..] == nls[1..] + t;
      LeftOf(nls[1..], t);
    }
  }

  lemma {:induction false} LineOf(line: string, x: string)
    requires '\n' !in line
    ensures Line(line + "\n" + x) == line
  {
    if line != [] {
      assert (line + "\n" + x)[1..] == line[1..] + "\n" + x;
      LineOf(line[1..], x);
    }
  }

  lemma {:induction false} RightOf(a: string, b: string)
    requires a != [] && a[|a| - 1] != '\n'
    ensures TrimRight(a + b, NL) == a + TrimRight(b, NL)
  {
    if b == [] {
      assert a + b == a;
    } else if b[|b| - 1] == '\n' {
      assert (a + b)[..|a + b| - 1] == a + b[..|b| - 1];
      RightOf(a, b[..|b| - 1]);
    }
  }

  predicate IsTitle(line: string) { "# " <= line && '\n' !in line }

  lemma TitleForm(nls: string, line: string, x: string)
    requires Newline(nls) && IsTitle(line)
    ensures TitleOf(nls + line + "\n" + x) == Some(line)
  {
    var t := line + "\n" + x;
    assert t[0] == line[0] == '#';
    assert nls + line + "\n" + x == nls + t;
    LeftOf(nls, t);
    LineOf(line, x);
  }

  // A text with its title line taken apart.
  lemma TitleParts(s: string) returns (nls: string, line: string, more: string)
    requires TitleOf(s).Some?
    ensures s == nls + line + more && Newline(nls) && IsTitle(line) && line == TitleOf(s).value
    ensures TrimLeft(s, NL) == line + more && (more != [] ==> more[0] == '\n')
  {
    hide TrimLeft, Line, Newline;
    var rest;
    nls, rest := LeftParts(s);
    line, more := LineParts(rest);
    Assoc(nls, line, more);
  }

  lemma LeftParts(s: string) returns (nls: string, rest: string)
    ensures rest == TrimLeft(s, NL) && s == nls + rest && Newline(nls)
  {
    hide TrimLeft;
    rest := TrimLeft(s, NL);
    nls := s[..|s| - |rest|];
  }

  lemma LineParts(s: string) returns (line: string, more: string)
    ensures line == Line(s) && '\n' !in line && s == line + more && (more != [] ==> more[0] == '\n')
  {
    hide Line;
    line := Line(s);
    more := s[|line|..];
  }

  // Cut at line breaks behind the title and continued by a blank line, a text keeps its title.
  lemma TitleKept(nls: string, line: string, m: string, tail: string)
    requires Newline(nls) && IsTitle(line)
    ensures TitleOf(TrimRight(nls + line + "\n" + m, NL) + "\n\n" + tail) == Some(line)
  {
    hide TitleOf, Line, TrimLeft, TrimRight, Newline;
    var a, b := nls + line, "\n" + m;
    assert a[|a| - 1] == line[|line| - 1] && line[|line| - 1] != '\n';
    Assoc(a, "\n", m);
    RightOf(a, b);
    var r := TrimRight(b, NL);
    var x := BreakFirst(a, b, r, tail);
    TitleForm(nls, line, x);
  }

  // Cut short or not, a line break comes first.
  lemma BreakFirst(a: string, b: string, r: string, tail: string) returns (x: string)
    requires b != [] && b[0] == '\n' && |r| <= |b| && b[..|r|] == r
    ensures a + r + "\n\n" + tail == a + "\n" + x
  {
    if r == [] {
      x := "\n" + tail;
    } else {
      x := r[1..] + "\n\n" + tail;
      assert r[0] == b[..|r|][0];
      assert r == "\n" + r[1..];
    }
  }

  // The Unreleased heading stands on a line behind the title.
  lemma HeadingBelowTitle(nls: string, line: string, more: string, at: nat)
    requires Newline(nls) && IsTitle(line) && (more != [] ==> more[0] == '\n')
    requires HeadingAt(nls + line + more, at)
    ensures |nls + line| < at <= |nls + line + more|
    ensures more != [] && (nls + line + more)[..at] == nls + line + "\n" + more[1..at - |nls + line|]
  {
    hide Line, IsHeading;
    var s, end := nls + line + more, |nls + line|;
    HeadingText(s, at);
    AtIndex(s, at, HEADING, 0);
    AtIndex(s, at, HEADING, 1);
    assert s[|nls|] == line[0] == '#' && s[|nls| + 1] == line[1] == ' ';
    assert forall i :: |nls| <= i < end ==> s[i] == line[i - |nls|];
    assert forall i :: 0 <= i < |nls| ==> s[i] == nls[i];
    assert LineStart(s, at);
    assert end < at;
    assert more[0] == '\n' && more == "\n" + more[1..];
    assert s[..at] == nls + line + "\n" + more[1..at - end];
  }

  lemma TwoHashes(t: string)
    requires "## " <= t
    ensures TitleOf("\n\n" + t).None?
  {
    LeftOf("\n\n", t);
    var line := Line(t);
    assert t[1] == '#';
    if |line| >= 2 { assert line[1] == t[..|line|][1]; }
  }

  lemma TitleAtHeading(s: string, at: nat, release: string)
    requires FirstHeading(s, Some(at)) && At(s, at, HEADING) && TitleOf(s).Some?
    ensures TitleOf(Placed(s, Some(at), release)) == TitleOf(s) && '\n' in TrimLeft(s, NL)
  {
    hide TitleOf, TrimLeft, TrimRight, Line, Index, At, Newline, IsTitle, HeadingAt;
    var nls, line, more := TitleParts(s);
    HeadingBelowTitle(nls, line, more, at);
    var m := more[1..at - |nls + line|];
    var end := Boundary(s, at);
    if end == |s| {
      TitleKept(nls, line, m, release + "\n");
      Assoc(TrimRight(s[..at], NL) + "\n\n", release, "\n");
    } else {
      var x := release + "\n\n" + s[end..];
      Assoc4(s[..at], release, "\n\n", s[end..]);
      Assoc(nls + line + "\n", m, x);
      TitleForm(nls, line, m + x);
    }
  }

  lemma TitleAtTop(s: string, release: string)
    requires TitleOf(s).Some? && "## " <= release
    ensures TitleOf(Placed(s, None, release)) == TitleOf(s) <==> '\n' in TrimLeft(s, NL)
  {
    hide TitleOf, Line, TitleEnd, Placed, TrimLeft, TrimRight;
    var nls, line, more := TitleParts(s);
    var end, tail := PlacedTop(s, nls, line, more, release);
    if more == [] {
      TwoHashes(tail);
    } else {
      assert (line + more)[|line|] == '\n';
      assert s[..end] == nls + line + "\n" + [];
      TitleKept(nls, line, [], tail);
    }
  }

  lemma PlacedTop(s: string, nls: string, line: string, more: string, release: string) returns (end: nat, tail: string)
    requires s == nls + line + more && IsTitle(line) && TitleOf(s) == Some(line)
    requires TrimLeft(s, NL) == line + more && (more != [] ==> more[0] == '\n') && "## " <= release
    ensures "## " <= tail
    ensures more == [] ==> Placed(s, None, release) == "\n\n" + tail
    ensures more != [] ==> end == |nls| + |line| + 1 <= |s| && Placed(s, None, release) == TrimRight(s[..end], NL) + "\n\n" + tail
  {
    hide TitleOf, Line, TrimLeft, TrimRight, TitleEnd, Placed, IsTitle;
    end := TopEnd(s, nls, line, more);
    tail := release + "\n\n" + TrimLeft(s[end..], NL);
    PlacedAt(s, end, release);
    if more == [] {
      assert s[..0] == [];
      NoRight();
      assert [] + "\n\n" + tail == "\n\n" + tail;
    }
  }

  lemma NoRight()
    ensures TrimRight([], NL) == []
  {}

  lemma PlacedAt(s: string, end: nat, release: string)
    requires TitleEnd(s) == Some(end)
    ensures end <= |s|
    ensures Placed(s, None, release) == TrimRight(s[..end], NL) + "\n\n" + (release + "\n\n" + TrimLeft(s[end..], NL))
  {
    hide TitleEnd, TrimRight, TrimLeft;
  }

  lemma TopEnd(s: string, nls: string, line: string, more: string) returns (end: nat)
    requires s == nls + line + more && IsTitle(line) && TitleOf(s) == Some(line)
    requires TrimLeft(s, NL) == line + more
    ensures TitleEnd(s) == Some(end) && end == if more == [] then 0 else |nls| + |line| + 1
  {
    hide TrimLeft, Line;
    end := if more == [] then 0 else |nls| + |line| + 1;
  }

  // The title stays first exactly when a newline ends its line.
  lemma TitleStays(s: string, at: Option<nat>, release: string)
    requires FirstHeading(s, at) && (at.Some? ==> At(s, at.value, HEADING)) && TitleOf(s).Some? && "## " <= release
    ensures TitleOf(Placed(s, at, release)) == TitleOf(s) <==> '\n' in TrimLeft(s, NL)
  {
    hide *;
    match at
    case Some(i) => TitleAtHeading(s, i, release);
    case None => TitleAtTop(s, release);
  }

  // ----- the whole merge -----

  datatype MergeError = TagRequired | TagHasBracket | NoFragments

  datatype Merged = Merged(text: string) | Refused(error: MergeError)

  function Title(tag: string, date: string): string { "## [" + tag + "] - " + date }

  // Where the old text is taken apart: at the heading, which goes, or behind the title.
  function Before(s: string, at: Option<nat>): (p: nat)
    requires at.Some? ==> At(s, at.value, HEADING)
    ensures p <= |s|
  {
    match at case Some(i) => i case None => (match TitleEnd(s) case Some(end) => end case None => 0)
  }

  function Behind(s: string, at: Option<nat>): (q: nat)
    requires at.Some? ==> At(s, at.value, HEADING)
    ensures q <= |s|
  {
    Before(s, at) + if at.Some? then |HEADING| else 0
  }

  // ----- lines -----

  predicate Blank(line: string) { forall i :: 0 <= i < |line| ==> IsSpace(line[i]) }

  // The lines that are not blank, as they are.
  function Rows(s: string): seq<string>
    decreases |s|
  {
    var line := Line(s);
    (if Blank(line) then [] else [line]) + (if |line| == |s| then [] else Rows(s[|line| + 1..]))
  }

  function AllRows(parts: seq<string>): seq<string> {
    if parts == [] then [] else Rows(parts[0]) + AllRows(parts[1..])
  }

  lemma {:induction false} LineAhead(a: string, x: string)
    ensures Line(a + "\n" + x) == Line(a)
  {
    var t := a + "\n" + x;
    if a == [] || a[0] == '\n' {
      assert t[0] == '\n';
    } else {
      assert t[0] == a[0] && t[1..] == a[1..] + "\n" + x;
      LineAhead(a[1..], x);
    }
  }

  // A line break ends a line, whatever stands on its two sides.
  lemma {:induction false} RowsBreak(a: string, b: string)
    ensures Rows(a + "\n" + b) == Rows(a) + Rows(b)
    decreases |a|
  {
    hide Line, Rows;
    var line, t := Line(a), a + "\n" + b;
    LineAhead(a, b);
    RowsStep(a);
    RowsStep(t);
    hide Row;
    if |line| == |a| {
      assert t[|line| + 1..] == b;
      assert Row(line) + [] == Row(line);
    } else {
      var more := a[|line| + 1..];
      Behind1(a, b, |line| + 1);
      RowsBreak(more, b);
      Assoc(Row(line), Rows(more), Rows(b));
    }
  }

  function Row(line: string): seq<string> { if Blank(line) then [] else [line] }

  lemma RowsStep(s: string)
    ensures Rows(s) == Row(Line(s)) + (if |Line(s)| == |s| then [] else Rows(s[|Line(s)| + 1..]))
  {
    hide Line, Blank;
  }

  lemma Behind1(a: string, b: string, n: nat)
    requires n <= |a|
    ensures (a + "\n" + b)[n..] == a[n..] + "\n" + b
  {}

  lemma NoRows()
    ensures Rows([]) == []
  {}

  lemma RowsAfter(a: string, b: string)
    requires a == [] || a[|a| - 1] == '\n'
    ensures Rows(a + b) == Rows(a) + Rows(b)
  {
    hide Rows;
    NoRows();
    if a == [] {
      assert a + b == b;
    } else {
      var c := a[..|a| - 1];
      assert a == c + "\n" && a == c + "\n" + [];
      RowsBreak(c, b);
      RowsBreak(c, []);
    }
  }

  lemma RowsGap(a: string, b: string)
    ensures Rows(a + "\n\n" + b) == Rows(a) + Rows(b)
    ensures Rows(a + "\n") == Rows(a)
  {
    hide Rows;
    NoRows();
    RowsBreak(a, []);
    assert a + "\n" + [] == a + "\n";
    RowsBreak(a + "\n", b);
    assert a + "\n\n" + b == a + "\n" + "\n" + b;
  }

  lemma RowsNewline(x: string)
    ensures Rows("\n" + x) == Rows(x)
  {
    hide Rows;
    NoRows();
    RowsBreak([], x);
    assert [] + "\n" + x == "\n" + x && [] + Rows(x) == Rows(x);
  }

  lemma {:induction false} RowsLeft(s: string)
    ensures Rows(TrimLeft(s, NL)) == Rows(s)
  {
    hide Rows;
    if s != [] && s[0] in NL {
      RowsLeft(s[1..]);
      RowsNewline(s[1..]);
      assert s == "\n" + s[1..];
    }
  }

  lemma {:induction false} RowsRight(s: string)
    ensures Rows(TrimRight(s, NL)) == Rows(s)
  {
    hide Rows;
    if s != [] && s[|s| - 1] in NL {
      RowsRight(s[..|s| - 1]);
      RowsGap(s[..|s| - 1], []);
      assert s == s[..|s| - 1] + "\n";
    }
  }

  lemma OneRow(line: string)
    requires '\n' !in line && !Blank(line)
    ensures Rows(line) == [line]
  {
    WholeLine(line);
  }

  lemma {:induction false} WholeLine(line: string)
    requires '\n' !in line
    ensures Line(line) == line
  {
    if line != [] { WholeLine(line[1..]); }
  }

  lemma {:induction false} RowsJoin(parts: seq<string>)
    ensures Rows(Join(parts, "\n\n")) == AllRows(parts)
  {
    hide Rows;
    NoRows();
    if |parts| == 1 {
      assert parts[1..] == [];
    } else if |parts| > 1 {
      RowsGap(parts[0], Join(parts[1..], "\n\n"));
      RowsJoin(parts[1..]);
    }
  }

  lemma {:induction false} AllRowsSnoc(parts: seq<string>, last: string)
    ensures AllRows(parts + [last]) == AllRows(parts) + Rows(last)
  {
    hide Rows;
    if parts == [] {
      assert parts + [last] == [last] && [last][1..] == [];
    } else {
      assert (parts + [last])[1..] == parts[1..] + [last];
      AllRowsSnoc(parts[1..], last);
    }
  }

  lemma NextAt(s: string, from: nat, i: nat)
    requires from < i <= |s|
    ensures At(s[from..], i - 1 - from, NEXT) <==> s[i - 1] == '\n' && At(s, i, "## ")
  {
    var rest, k := s[from..], i - 1 - from;
    assert NEXT == "\n" + "## ";
    AtConcat(rest, k, "\n", "## ");
    assert rest[k..k + 1] == [s[i - 1]];
    if i + 3 <= |s| { assert rest[k + 1..k + 4] == s[i..i + 3]; }
  }

  // The section ends at the first line behind the heading that starts with `## `.
  lemma BoundaryExact(s: string, at: nat)
    requires At(s, at, HEADING)
    ensures var b, from := Boundary(s, at), at + |HEADING|;
            && (b < |s| ==> from < b && s[b - 1] == '\n' && At(s, b, "## "))
            && forall i :: from < i < b ==> !(s[i - 1] == '\n' && At(s, i, "## "))
  {
    hide At, Index;
    var from, b := at + |HEADING|, Boundary(s, at);
    assert from <= |s| by { HeadingFits(s, at); }
    forall i | from < i < b ensures !(s[i - 1] == '\n' && At(s, i, "## ")) {
      NextAt(s, from, i);
      var k: nat := i - 1 - from;
      assert !At(s[from..], k, NEXT);
    }
    if b < |s| { NextAt(s, from, b); }
  }

  lemma HeadingFits(s: string, at: nat)
    requires At(s, at, HEADING)
    ensures at + |HEADING| <= |s|
  {}

  // Where the text behind the new section starts.
  function Resumes(s: string, at: Option<nat>): (q: nat)
    requires at.Some? ==> At(s, at.value, HEADING)
    ensures q <= |s|
  {
    match at case Some(i) => Boundary(s, i) case None => Before(s, at)
  }

  lemma RowsPlaced(s: string, at: Option<nat>, release: string)
    requires FirstHeading(s, at) && (at.Some? ==> At(s, at.value, HEADING))
    ensures Rows(Placed(s, at, release)) == Rows(s[..Before(s, at)]) + Rows(release) + Rows(s[Resumes(s, at)..])
  {
    hide Rows, Boundary, Index, TrimLeft, TrimRight, Line, At, IsHeading;
    NoRows();
    match at
    case Some(i) =>
      var a, b := s[..i], s[Boundary(s, i)..];
      RowsRight(a);
      RowsGap(TrimRight(a, NL), release + "\n");
      RowsGap(release, b);
      Assoc(TrimRight(a, NL) + "\n\n", release, "\n");
      assert HeadingAt(s, i);
      RowsAfter(a, release + "\n\n" + b);
      Assoc4(a, release, "\n\n", b);
      Assoc(Rows(a), Rows(release), Rows(b));
    case None => RowsAtTop(s, release);
  }

  lemma RowsAtTop(s: string, release: string)
    ensures var p := Before(s, None); Rows(Placed(s, None, release)) == Rows(s[..p]) + Rows(release) + Rows(s[p..])
  {
    hide Rows, TitleEnd, TrimLeft, TrimRight;
    NoRows();
    var p := Before(s, None);
    var a, b := s[..p], s[p..];
    RowsLeft(b);
    RowsGap(release, TrimLeft(b, NL));
    match TitleEnd(s)
    case Some(end) =>
      RowsRight(a);
      RowsGap(TrimRight(a, NL), release + "\n\n" + TrimLeft(b, NL));
      Assoc4(TrimRight(a, NL) + "\n\n", release, "\n\n", TrimLeft(b, NL));
      Assoc(Rows(a), Rows(release), Rows(b));
    case None =>
      assert a == [] && b == s;
      assert [] + Rows(release) == Rows(release);
  }

  // The old Unreleased body, trimmed.
  function Under(s: string, at: Option<nat>): string
    requires at.Some? ==> At(s, at.value, HEADING)
  {
    match at case None => [] case Some(i) => TrimSpace(s[i + |HEADING|..Boundary(s, i)])
  }

  lemma InkUnder(s: string, at: Option<nat>)
    requires at.Some? ==> At(s, at.value, HEADING)
    ensures Ink(Under(s, at)) == if at.Some? then Ink(s[at.value + |HEADING|..Boundary(s, at.value)]) else []
  {
    hide Ink, Boundary, TrimSpace;
    Newlines();
    if at.Some? { InkTrim(s[at.value + |HEADING|..Boundary(s, at.value)]); }
  }

  // Everything printed before stays in order, once each: the text before, then
  // the new heading and every fragment, then the old Unreleased body and every release.
  predicate Conserves(s: string, at: Option<nat>, heading: string, frags: seq<string>, out: string)
    requires at.Some? ==> At(s, at.value, HEADING)
  {
    Ink(out) == Ink(s[..Before(s, at)]) + Ink(heading) + InkAll(frags) + Ink(s[Behind(s, at)..])
  }

  lemma Conserved(s: string, at: Option<nat>, heading: string, frags: seq<string>, body: string, bodies: seq<string>)
    requires at.Some? ==> At(s, at.value, HEADING)
    requires InkAll(bodies) == InkAll(frags) + Ink(body)
    requires body == Under(s, at)
    ensures Conserves(s, at, heading, frags, Placed(s, at, heading + "\n\n" + Join(bodies, "\n\n")))
  {
    hide Ink, InkAll, Boundary, TitleEnd, Placed, Join, Index, IsSpace, At;
    var release := heading + "\n\n" + Join(bodies, "\n\n");
    InkPlaced(s, at, release);
    Newlines();
    InkConcat(heading + "\n\n", Join(bodies, "\n\n"));
    InkConcat(heading, "\n\n");
    InkJoin(bodies, "\n\n");
    InkUnder(s, at);
    if at.Some? {
      var q, b := at.value + |HEADING|, Boundary(s, at.value);
      InkConcat(s[q..b], s[b..]);
      assert s[q..b] + s[b..] == s[q..];
      Regrouped(Ink(s[..at.value]), Ink(heading), InkAll(frags), Ink(body), Ink(s[b..]));
    } else {
      var p := Before(s, at);
      Regrouped(Ink(s[..p]), Ink(heading), InkAll(frags), [], Ink(s[p..]));
    }
  }

  lemma Regrouped(a: string, h: string, f: string, b: string, c: string)
    ensures a + (h + [] + (f + b)) + c == a + h + f + (b + c)
    ensures [] + c == c
  {}

  lemma TitleStart(tag: string, date: string, x: string)
    ensures "## " <= Title(tag, date) + x
  {}

  lemma BlankTag(tag: string)
    ensures TrimSpace(tag) == [] <==> Ink(tag) == []
  {
    InkTrim(tag);
  }

  // Every line that is not blank stays as it is, in order, once: those before,
  // the heading's, those of every fragment, of the old body, and those behind.
  predicate KeepsLines(s: string, at: Option<nat>, heading: string, frags: seq<string>, out: string)
    requires at.Some? ==> At(s, at.value, HEADING)
  {
    Rows(out) == Rows(s[..Before(s, at)]) + Rows(heading) + AllRows(frags) + Rows(Under(s, at)) + Rows(s[Resumes(s, at)..])
  }

  lemma LinesKept(s: string, at: Option<nat>, heading: string, frags: seq<string>, bodies: seq<string>)
    requires FirstHeading(s, at) && (at.Some? ==> At(s, at.value, HEADING))
    requires AllRows(bodies) == AllRows(frags) + Rows(Under(s, at))
    ensures KeepsLines(s, at, heading, frags, Placed(s, at, heading + "\n\n" + Join(bodies, "\n\n")))
  {
    hide Rows, AllRows, Placed, Under, Before, Resumes, Join, At, FirstHeading;
    RowsPlaced(s, at, heading + "\n\n" + Join(bodies, "\n\n"));
    RowsGap(heading, Join(bodies, "\n\n"));
    RowsJoin(bodies);
    var a, h, f, u, z := Rows(s[..Before(s, at)]), Rows(heading), AllRows(frags), Rows(Under(s, at)), Rows(s[Resumes(s, at)..]);
    Assoc(h, f, u);
    Assoc(a, h + f, u);
    Assoc(a, h, f);
  }

  ghost predicate Has(s: string, x: string) { exists i: nat :: At(s, i, x) }

  // A part, and a blank line and the part in front of it, or the head.
  function Pair(head: string, parts: seq<string>, k: nat): string
    requires k < |parts|
  {
    (if k == 0 then head else parts[k - 1]) + "\n\n" + parts[k]
  }

  // One blank line, and nothing else, stands in front of every fragment.
  ghost predicate Spaced(heading: string, frags: seq<string>, out: string) {
    forall k :: 0 <= k < |frags| ==> Has(out, Pair(heading, frags, k))
  }

  // What stands in front of part k when a head and the parts are joined.
  lemma {:induction false} JoinAt(head: string, parts: seq<string>, k: nat) returns (i: nat)
    requires k < |parts|
    ensures At(head + "\n\n" + Join(parts, "\n\n"), i, Pair(head, parts, k))
    decreases k
  {
    hide At;
    var t, join := head + "\n\n" + Join(parts, "\n\n"), Join(parts, "\n\n");
    if k == 0 {
      i := 0;
      var more := if |parts| == 1 then [] else "\n\n" + Join(parts[1..], "\n\n");
      if |parts| > 1 { Assoc(parts[0], "\n\n", Join(parts[1..], "\n\n")); } else { assert parts[0] + [] == parts[0]; }
      Inside([], head + "\n\n" + parts[0], more);
      Assoc(head + "\n\n", parts[0], more);
    } else {
      var n := JoinAt(parts[0], parts[1..], k - 1);
      assert join == parts[0] + "\n\n" + Join(parts[1..], "\n\n");
      i := |head + "\n\n"| + n;
      Shifted(head + "\n\n", join, n, Pair(parts[0], parts[1..], k - 1));
    }
  }

  lemma Inside(a: string, x: string, b: string)
    ensures At(a + x + b, |a|, x)
    ensures At([] + x + b, 0, x) && [] + x + b == x + b
  {
    assert [] + x + b == x + b;
  }

  lemma Shifted(a: string, t: string, n: nat, x: string)
    requires At(t, n, x)
    ensures At(a + t, |a| + n, x)
  {
    assert (a + t)[|a| + n..|a| + n + |x|] == t[n..n + |x|];
  }

  lemma ReleaseSpaced(heading: string, frags: seq<string>, bodies: seq<string>, a: string, b: string)
    requires frags <= bodies
    ensures Spaced(heading, frags, a + (heading + "\n\n" + Join(bodies, "\n\n")) + b)
  {
    hide At, Join, Pair, Has;
    var release := heading + "\n\n" + Join(bodies, "\n\n");
    var out := a + release + b;
    forall k | 0 <= k < |frags| ensures Has(out, Pair(heading, frags, k)) {
      PairSame(heading, frags, bodies, k);
      var i := JoinAt(heading, bodies, k);
      var x := Pair(heading, bodies, k);
      AtFront(release, b, i, x);
      Shifted(a, release + b, i, x);
      Assoc(a, release, b);
      HasAt(out, |a| + i, x);
    }
  }

  lemma PairSame(head: string, frags: seq<string>, bodies: seq<string>, k: nat)
    requires frags <= bodies && k < |frags|
    ensures Pair(head, frags, k) == Pair(head, bodies, k)
  {
    assert frags[k] == bodies[k] && (k > 0 ==> frags[k - 1] == bodies[k - 1]);
  }

  lemma HasAt(s: string, i: nat, x: string)
    requires At(s, i, x)
    ensures Has(s, x)
  {}

  lemma AtFront(s: string, b: string, i: nat, x: string)
    requires At(s, i, x)
    ensures At(s + b, i, x)
  {
    assert (s + b)[i..i + |x|] == s[i..i + |x|];
  }

  // The release stands in the changelog as it is.
  lemma PlacedWhole(s: string, at: Option<nat>, release: string) returns (a: string, b: string)
    requires at.Some? ==> At(s, at.value, HEADING)
    ensures Placed(s, at, release) == a + release + b
  {
    hide Boundary, TitleEnd, TrimLeft, TrimRight, At;
    match at
    case Some(i) =>
      if Boundary(s, i) == |s| {
        a, b := TrimRight(s[..i], NL) + "\n\n", "\n";
      } else {
        a, b := s[..i], "\n\n" + s[Boundary(s, i)..];
        Assoc(a + release, "\n\n", s[Boundary(s, i)..]);
      }
    case None =>
      match TitleEnd(s)
      case Some(end) =>
        a, b := TrimRight(s[..end], NL) + "\n\n", "\n\n" + TrimLeft(s[end..], NL);
        Assoc(a + release, "\n\n", TrimLeft(s[end..], NL));
      case None =>
        a, b := [], "\n\n" + TrimLeft(s, NL);
        Assoc(release, "\n\n", TrimLeft(s, NL));
        assert [] + release == release;
  }

  method Merge(tag: string, date: string, frags: seq<string>, current: Option<string>) returns (r: Merged)
    ensures r.Refused? <==> Ink(tag) == [] || '[' in tag || ']' in tag || frags == []
    ensures r.Refused? ==> r.error == if Ink(tag) == [] then TagRequired
                                      else if '[' in tag || ']' in tag then TagHasBracket else NoFragments
    ensures r.Merged? && current.None? ==>
              Rows(r.text) == ["# Changelog"] + Rows("## [" + tag + "] - " + date) + AllRows(frags)
    ensures r.Merged? && current.None? ==>
              Ink(r.text) == Ink("# Changelog") + Ink("## [" + tag + "] - " + date) + InkAll(frags)
    ensures r.Merged? && current.Some? ==>
              && KeepsLines(current.value, HeadingIndex(current.value), "## [" + tag + "] - " + date, frags, r.text)
              && Conserves(current.value, HeadingIndex(current.value), "## [" + tag + "] - " + date, frags, r.text)
    ensures r.Merged? ==> Spaced("## [" + tag + "] - " + date, frags, r.text)
    ensures r.Merged? && current.Some? && TitleOf(current.value).Some? ==>
              (TitleOf(r.text) == TitleOf(current.value) <==> '\n' in TrimLeft(current.value, NL))
  {
    hide *;
    TitleIs(tag, date);
    BlankTag(tag);
    if TrimSpace(tag) == [] { return Refused(TagRequired); }
    if '[' in tag || ']' in tag { return Refused(TagHasBracket); }
    if |frags| == 0 { return Refused(NoFragments); }
    var bodies: seq<string> := [];
    for n := 0 to |frags|
      invariant bodies == frags[..n]
    {
      bodies := bodies + [frags[n]];
    }
    assert bodies == frags;
    if current.None? {
      var first := Title(tag, date) + "\n\n" + Join(bodies, "\n\n");
      FreshInk(Title(tag, date), bodies);
      FreshRows(Title(tag, date), bodies);
      ReleaseSpaced(Title(tag, date), frags, bodies, "# Changelog\n\n", "\n");
      return Merged("# Changelog\n\n" + first + "\n");
    }
    ghost var at := HeadingIndex(current.value);
    var unreleased := UnreleasedBody(current.value);
    ghost var body := if unreleased.Some? then unreleased.value else [];
    UnderIs(current.value, at, body);
    Newlines();
    NoRows();
    assert InkAll(frags) + [] == InkAll(frags) && AllRows(frags) + [] == AllRows(frags);
    if unreleased.Some? {
      InkAllSnoc(frags, body);
      AllRowsSnoc(frags, body);
      bodies := bodies + [unreleased.value];
    }
    var release := Title(tag, date) + "\n\n" + Join(bodies, "\n\n");
    var out := InsertRelease(current.value, release);
    Conserved(current.value, at, Title(tag, date), frags, body, bodies);
    LinesKept(current.value, at, Title(tag, date), frags, bodies);
    ghost var a, b := PlacedWhole(current.value, at, release);
    ReleaseSpaced(Title(tag, date), frags, bodies, a, b);
    TitleStart(tag, date, "\n\n" + Join(bodies, "\n\n"));
    assert Title(tag, date) + ("\n\n" + Join(bodies, "\n\n")) == release;
    if TitleOf(current.value).Some? { TitleStays(current.value, at, release); }
    return Merged(out);
  }

  lemma TitleIs(tag: string, date: string)
    ensures Title(tag, date) == "## [" + tag + "] - " + date
  {}

  lemma UnderIs(s: string, at: Option<nat>, body: string)
    requires at.Some? ==> At(s, at.value, HEADING)
    requires body == match at case None => [] case Some(i) => TrimSpace(s[i + |HEADING|..Boundary(s, i)])
    ensures body == Under(s, at)
  {}

  lemma FreshRows(heading: string, frags: seq<string>)
    ensures Rows("# Changelog\n\n" + (heading + "\n\n" + Join(frags, "\n\n")) + "\n")
         == ["# Changelog"] + Rows(heading) + AllRows(frags)
  {
    hide Rows, Join;
    RowsJoin(frags);
    RowsGap(heading, Join(frags, "\n\n"));
    var body := heading + "\n\n" + Join(frags, "\n\n");
    RowsGap("# Changelog", body + "\n");
    RowsGap(body, []);
    assert "# Changelog\n\n" == "# Changelog" + "\n\n";
    Assoc("# Changelog\n\n", body, "\n");
    assert !IsSpace("# Changelog"[0]);
    OneRow("# Changelog");
    Assoc(["# Changelog"], Rows(heading), AllRows(frags));
  }

  lemma FreshInk(heading: string, frags: seq<string>)
    ensures Ink("# Changelog\n\n" + (heading + "\n\n" + Join(frags, "\n\n")) + "\n")
         == Ink("# Changelog") + Ink(heading) + InkAll(frags)
  {
    hide Ink, Join;
    Newlines();
    InkJoin(frags, "\n\n");
    var body := heading + "\n\n" + Join(frags, "\n\n");
    InkOf("# Changelog", "\n\n", body, "\n");
    assert "# Changelog\n\n" == "# Changelog" + "\n\n";
    InkConcat(heading + "\n\n", Join(frags, "\n\n"));
    InkConcat(heading, "\n\n");
  }
}
