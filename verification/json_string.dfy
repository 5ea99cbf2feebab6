/**
 String literals as section 7 of RFC 8259 writes them, spelling by spelling, and
 what the decoder of the patcher makes of them.
 */
module JsonString {
  import opened Bytes
  import opened JsoncLex
  import opened Scalars

  // The eight short escapes: the letter behind the backslash, and its character.
  const SHORT: seq<(byte, byte)> := [
    (0x22, 0x22), (0x5C, 0x5C), (0x2F, 0x2F), (0x62, 0x08), (0x66, 0x0C), (0x6E, 0x0A), (0x72, 0x0D), (0x74, 0x09)]

  const LOWER: bytes := [0x30, 0x31, 0x32, 0x33, 0x34, 0x35, 0x36, 0x37, 0x38, 0x39, 0x61, 0x62, 0x63, 0x64, 0x65, 0x66]
  const UPPER: bytes := [0x30, 0x31, 0x32, 0x33, 0x34, 0x35, 0x36, 0x37, 0x38, 0x39, 0x41, 0x42, 0x43, 0x44, 0x45, 0x46]

  // One character of a literal: a byte as it is, a short escape by its place in
  // the table, or a code unit of UTF-16 with its four digits in either case.
  datatype Char = Raw(b: byte) | Short(k: nat) | Unit(four: Four, digits: bytes)

  datatype Four = Four(w: nat, x: nat, y: nat, z: nat)

  predicate IsHex(c: byte, v: nat) { v < 16 && (c == LOWER[v] || c == UPPER[v]) }

  predicate Spelled(digits: bytes, f: Four) {
    && |digits| == 4
    && IsHex(digits[0], f.w) && IsHex(digits[1], f.x) && IsHex(digits[2], f.y) && IsHex(digits[3], f.z)
  }

  function Code(f: Four): nat { f.w * 0x1000 + f.x * 0x100 + f.y * 0x10 + f.z }

  predicate CharOk(c: Char) {
    match c
    case Raw(b) => b >= 0x20 && b != 0x22 && b != 0x5C
    case Short(k) => k < |SHORT|
    case Unit(f, digits) => Spelled(digits, f)
  }

  ghost predicate AllOk(cs: seq<Char>) { forall k :: 0 <= k < |cs| ==> CharOk(cs[k]) }

  function SpellOne(c: Char): bytes
    requires CharOk(c)
  {
    match c
    case Raw(b) => [b]
    case Short(k) => [0x5C, SHORT[k].0]
    case Unit(_, digits) => [0x5C, 0x75] + digits
  }

  ghost function Spell(cs: seq<Char>): bytes
    requires AllOk(cs)
  {
    if cs == [] then [] else SpellOne(cs[0]) + Spell(cs[1..])
  }

  ghost function Written(cs: seq<Char>): bytes
    requires AllOk(cs)
  {
    [0x22] + Spell(cs) + [0x22]
  }

  predicate High(c: Char) { c.Unit? && 0xD800 <= Code(c.four) < 0xDC00 }
  predicate Low(c: Char) { c.Unit? && 0xDC00 <= Code(c.four) < 0xE000 }

  // What the literal denotes, in UTF-8: a surrogate pair is one character, a
  // surrogate alone is U+FFFD.
  ghost function Denote(cs: seq<Char>): bytes
    requires AllOk(cs)
    decreases |cs|
  {
    if cs == [] then []
    else match cs[0]
      case Raw(b) => [b] + Denote(cs[1..])
      case Short(k) => [SHORT[k].1] + Denote(cs[1..])
      case Unit(f, _) =>
        var code := Code(f);
        Units(cs[0]);
        if High(cs[0]) && |cs| > 1 && Low(cs[1]) then
          Utf8(0x10000 + (code - 0xD800) * 0x400 + (Code(cs[1].four) - 0xDC00)) + Denote(cs[2..])
        else if 0xD800 <= code < 0xE000 then [0xEF, 0xBF, 0xBD] + Denote(cs[1..])
        else Utf8(code) + Denote(cs[1..])
  }

  // ----- UTF-8 (section 3 of RFC 3629) read back -----

  predicate Continues(c: byte) { 0x80 <= c < 0xC0 }

  function FromUtf8(b: bytes): Option<nat> {
    if |b| == 1 && b[0] < 0x80 then Some(b[0] as nat)
    else if |b| == 2 && 0xC0 <= b[0] < 0xE0 && Continues(b[1]) then
      Some((b[0] - 0xC0) as nat * 0x40 + (b[1] - 0x80) as nat)
    else if |b| == 3 && 0xE0 <= b[0] < 0xF0 && Continues(b[1]) && Continues(b[2]) then
      Some((b[0] - 0xE0) as nat * 0x1000 + (b[1] - 0x80) as nat * 0x40 + (b[2] - 0x80) as nat)
    else if |b| == 4 && 0xF0 <= b[0] < 0xF8 && Continues(b[1]) && Continues(b[2]) && Continues(b[3]) then
      Some((b[0] - 0xF0) as nat * 0x40000 + (b[1] - 0x80) as nat * 0x1000 + (b[2] - 0x80) as nat * 0x40 + (b[3] - 0x80) as nat)
    else None
  }

  // Every code point is encoded in the shortest form, and is read back.
  lemma Utf8Exact(code: nat)
    requires code < 0x110000
    ensures FromUtf8(Utf8(code)) == Some(code)
    ensures |Utf8(code)| == if code < 0x80 then 1 else if code < 0x800 then 2 else if code < 0x10000 then 3 else 4
  {
    Sextets(code);
    var a, b, c, d := code / 0x40000, code / 0x1000 % 0x40, code / 0x40 % 0x40, code % 0x40;
    Continued(b);
    Continued(c);
    Continued(d);
  }

  lemma Sextets(code: nat)
    requires code < 0x110000
    ensures code == code / 0x40 * 0x40 + code % 0x40
    ensures code / 0x40 == code / 0x1000 * 0x40 + code / 0x40 % 0x40
    ensures code / 0x1000 == code / 0x40000 * 0x40 + code / 0x1000 % 0x40
    ensures code / 0x40000 <= 4
  {}

  lemma Continued(n: nat)
    requires n < 0x40
    ensures Continues((0x80 + n) as byte) && ((0x80 + n) as byte - 0x80) as nat == n
  {}

  // ----- decoding every spelling -----

  lemma HexExact(c: byte, v: nat)
    ensures IsHex(c, v) <==> HexValue(c) == Some(v)
  {}

  // A \u escape is read exactly as it is spelled.
  lemma UnitWritten(b: bytes, c: Char)
    requires CharOk(c) && c.Unit? && |b| >= 6 && b[0] == 0x5C && b[1] == 0x75 && b[2..6] == c.digits
    ensures UnicodeEscape(b) == Some(Code(c.four))
  {
    hide IsHex, HexValue;
    var d, f := c.digits, c.four;
    assert b[2] == d[0] && b[3] == d[1] && b[4] == d[2] && b[5] == d[3];
    HexExact(d[0], f.w);
    HexExact(d[1], f.x);
    HexExact(d[2], f.y);
    HexExact(d[3], f.z);
  }

  lemma UnitRead(b: bytes) returns (c: Char)
    requires UnicodeEscape(b).Some?
    ensures CharOk(c) && c.Unit? && b[..6] == SpellOne(c)
  {
    hide IsHex, HexValue;
    var w, x, y, z := HexValue(b[2]), HexValue(b[3]), HexValue(b[4]), HexValue(b[5]);
    HexExact(b[2], w.value);
    HexExact(b[3], x.value);
    HexExact(b[4], y.value);
    HexExact(b[5], z.value);
    var d := b[2..6];
    assert d[0] == b[2] && d[1] == b[3] && d[2] == b[4] && d[3] == b[5];
    c := Unit(Four(w.value, x.value, y.value, z.value), d);
    assert b[..6] == [0x5C, 0x75] + d;
  }

  lemma ShortExact(c: byte)
    ensures SimpleEscape(c).Some? <==> exists k: nat :: k < |SHORT| && SHORT[k].0 == c
    ensures forall k: nat :: k < |SHORT| && SHORT[k].0 == c ==> SimpleEscape(c) == Some(SHORT[k].1)
    ensures SimpleEscape(0x75).None?
  {
    forall k: nat | k < |SHORT| && SHORT[k].0 == c ensures SimpleEscape(c) == Some(SHORT[k].1) {}
    assert SHORT[0].0 == 0x22 && SHORT[1].0 == 0x5C && SHORT[2].0 == 0x2F && SHORT[3].0 == 0x62;
    assert SHORT[4].0 == 0x66 && SHORT[5].0 == 0x6E && SHORT[6].0 == 0x72 && SHORT[7].0 == 0x74;
  }

  // What is read at the start of a spelled text is its first character.
  lemma UnitAhead(cs: seq<Char>)
    requires AllOk(cs)
    ensures UnicodeEscape(Spell(cs)) == if cs != [] && cs[0].Unit? then Some(Code(cs[0].four)) else None
  {
    hide IsHex, HexValue;
    var b := Spell(cs);
    if cs != [] {
      assert CharOk(cs[0]);
      var rest := Spell(cs[1..]);
      match cs[0]
      case Raw(c) => assert b[0] == c;
      case Short(k) =>
        assert b[0] == 0x5C && b[1] == SHORT[k].0;
      case Unit(f, digits) =>
        assert b == [0x5C, 0x75] + digits + rest;
        assert b[2..6] == digits;
        UnitWritten(b, cs[0]);
    }
  }

  // One character at the start of a text, and what it stands for.
  ghost predicate Reads(cs: seq<Char>, n: nat)
    requires AllOk(cs) && n <= |cs|
  {
    var b := Spell(cs);
    b != [] && DecodeChar(b).Some?
    && Denote(cs) == DecodeChar(b).value.0 + Denote(cs[n..]) && b[DecodeChar(b).value.1..] == Spell(cs[n..])
  }

  lemma PlainAhead(cs: seq<Char>)
    requires AllOk(cs) && cs != [] && !cs[0].Unit?
    ensures Reads(cs, 1)
  {
    hide UnicodeEscape, SimpleEscape;
    var b := Spell(cs);
    assert CharOk(cs[0]);
    assert b == SpellOne(cs[0]) + Spell(cs[1..]);
    assert b[|SpellOne(cs[0])|..] == Spell(cs[1..]);
    UnitAhead(cs);
    if cs[0].Short? { ShortExact(b[1]); }
  }

  lemma EscapeText(cs: seq<Char>)
    requires AllOk(cs) && cs != [] && cs[0].Unit?
    ensures |Spell(cs)| >= 6 && Spell(cs)[0] == 0x5C && Spell(cs)[6..] == Spell(cs[1..])
  {
    hide IsHex;
    assert CharOk(cs[0]);
    assert Spell(cs) == SpellOne(cs[0]) + Spell(cs[1..]);
  }

  lemma EscapeAhead(cs: seq<Char>)
    requires AllOk(cs) && cs != [] && cs[0].Unit?
    ensures Reads(cs, if High(cs[0]) && |cs| > 1 && Low(cs[1]) then 2 else 1)
  {
    hide UnicodeEscape, Utf8, SimpleEscape, Spell, Code, CharOk;
    EscapeText(cs);
    UnitAhead(cs);
    UnitAhead(cs[1..]);
    Units(cs[0]);
    Replaced();
    if High(cs[0]) && |cs| > 1 && Low(cs[1]) {
      EscapeText(cs[1..]);
      assert cs[1..][1..] == cs[2..];
      assert Spell(cs)[12..] == Spell(cs)[6..][6..];
    }
  }

  lemma Units(c: Char)
    requires CharOk(c) && c.Unit?
    ensures |c.digits| == 4 && Code(c.four) < 0x10000
  {}

  lemma Replaced()
    ensures Utf8(REPLACEMENT) == [0xEF, 0xBF, 0xBD]
  {}

  lemma {:induction false} BodyDenotes(cs: seq<Char>)
    requires AllOk(cs)
    ensures DecodeBody(Spell(cs)) == Some(Denote(cs))
    decreases |cs|
  {
    hide DecodeChar, Denote, Spell;
    if cs == [] {
      NoDenotation();
    } else {
      if cs[0].Unit? { EscapeAhead(cs); } else { PlainAhead(cs); }
      BodyDenotes(cs[if High(cs[0]) && |cs| > 1 && Low(cs[1]) then 2 else 1..]);
    }
  }

  lemma NoDenotation()
    ensures Denote([]) == [] && Spell([]) == []
  {}

  // ----- and nothing else decodes -----

  lemma CharSpelled(b: bytes) returns (c: Char)
    requires b != [] && DecodeChar(b).Some?
    ensures CharOk(c) && |SpellOne(c)| <= |b| && b[..|SpellOne(c)|] == SpellOne(c)
    ensures if b[0] == 0x5C && UnicodeEscape(b).Some? then c.Unit? else DecodeChar(b).value.1 == |SpellOne(c)|
  {
    hide UnicodeEscape, Utf8, SimpleEscape;
    if b[0] != BACKSLASH {
      c := Raw(b[0]);
    } else if UnicodeEscape(b).Some? {
      c := UnitRead(b);
      Units(c);
    } else {
      ShortExact(b[1]);
      var k: nat :| k < |SHORT| && SHORT[k].0 == b[1];
      c := Short(k);
      assert b[..2] == [0x5C, SHORT[k].0];
    }
  }

  lemma EscapeTakes(b: bytes)
    requires b != [] && DecodeChar(b).Some? && b[0] == 0x5C && UnicodeEscape(b).Some?
    ensures var n := DecodeChar(b).value.1; n == 6 || (n == 12 && UnicodeEscape(b[6..]).Some?)
  {
    hide UnicodeEscape, Utf8;
  }

  lemma SpellMore(c: Char, cs: seq<Char>)
    requires CharOk(c) && AllOk(cs)
    ensures AllOk([c] + cs) && Spell([c] + cs) == SpellOne(c) + Spell(cs)
  {
    hide CharOk, SpellOne;
    assert ([c] + cs)[1..] == cs;
  }

  lemma {:induction false} BodySpelled(b: bytes) returns (cs: seq<Char>)
    requires DecodeBody(b).Some?
    ensures AllOk(cs) && Spell(cs) == b
    decreases |b|
  {
    if b == [] {
      cs := [];
    } else {
      var rest := BodySpelled(b[DecodeChar(b).value.1..]);
      cs := OneMore(b, rest);
    }
  }

  // The characters behind the first step of the decoder, and those of that step.
  lemma OneMore(b: bytes, rest: seq<Char>) returns (cs: seq<Char>)
    requires b != [] && DecodeChar(b).Some? && AllOk(rest) && Spell(rest) == b[DecodeChar(b).value.1..]
    ensures AllOk(cs) && Spell(cs) == b
  {
    hide UnicodeEscape, CharOk, DecodeChar, SpellOne, Spell, AllOk;
    var c := CharSpelled(b);
    var n, more := DecodeChar(b).value.1, rest;
    if b[0] == 0x5C && UnicodeEscape(b).Some? {
      EscapeTakes(b);
      SixBytes(c);
      if n == 12 { more := Second(b, rest); }
    }
    assert b == b[..|SpellOne(c)|] + b[|SpellOne(c)|..];
    SpellMore(c, more);
    cs := [c] + more;
  }

  lemma Second(b: bytes, rest: seq<Char>) returns (more: seq<Char>)
    requires |b| >= 12 && UnicodeEscape(b[6..]).Some? && AllOk(rest) && Spell(rest) == b[12..]
    ensures AllOk(more) && Spell(more) == b[6..]
  {
    hide UnicodeEscape, CharOk, SpellOne, Spell, AllOk;
    var d := UnitRead(b[6..]);
    SixBytes(d);
    SpellMore(d, rest);
    more := [d] + rest;
    assert b[6..][6..] == b[12..] && b[6..] == b[6..][..6] + b[12..];
  }

  lemma SixBytes(c: Char)
    requires CharOk(c) && c.Unit?
    ensures |SpellOne(c)| == 6
  {}

  // A literal has a value exactly when it is spelled by the standard's grammar,
  // and the value is what the spelling denotes.
  lemma DecodeExact(raw: bytes, v: bytes)
    ensures Decode(raw) == Some(v) <==> exists cs :: AllOk(cs) && raw == Written(cs) && v == Denote(cs)
  {
    hide DecodeBody, Denote;
    if Decode(raw) == Some(v) {
      var body := raw[1..|raw| - 1];
      var cs := BodySpelled(body);
      BodyDenotes(cs);
      assert raw == [0x22] + body + [0x22];
    }
    if exists cs :: AllOk(cs) && raw == Written(cs) && v == Denote(cs) {
      var cs :| AllOk(cs) && raw == Written(cs) && v == Denote(cs);
      assert raw[1..|raw| - 1] == Spell(cs);
      BodyDenotes(cs);
    }
  }

  // ----- and the scanner takes it whole -----

  lemma CharScans(t: bytes, j: nat, c: Char)
    requires CharOk(c) && At(t, j, SpellOne(c))
    ensures StringEnd(t, j) == StringEnd(t, j + |SpellOne(c)|)
  {
    hide IsHex;
    AtIndex(t, j, SpellOne(c), 0);
    if c.Unit? { UnitScans(t, j, c); }
  }

  predicate Plain(c: byte) { c >= 0x30 && c != BACKSLASH }

  lemma UnitScans(t: bytes, j: nat, c: Char)
    requires CharOk(c) && c.Unit? && At(t, j, SpellOne(c))
    ensures |SpellOne(c)| == 6 && StringEnd(t, j) == StringEnd(t, j + 6)
  {
    hide IsHex, StringEnd, Plain;
    var e, d, f := SpellOne(c), c.digits, c.four;
    HexPlain(d[0], f.w);
    HexPlain(d[1], f.x);
    HexPlain(d[2], f.y);
    HexPlain(d[3], f.z);
    assert e[2] == d[0] && e[3] == d[1] && e[4] == d[2] && e[5] == d[3];
    AtIndex(t, j, e, 0);
    AtIndex(t, j, e, 2);
    AtIndex(t, j, e, 3);
    AtIndex(t, j, e, 4);
    AtIndex(t, j, e, 5);
    Six(t, j);
  }

  lemma Six(t: bytes, j: nat)
    requires j + 6 <= |t| && t[j] == BACKSLASH
    requires Plain(t[j + 2]) && Plain(t[j + 3]) && Plain(t[j + 4]) && Plain(t[j + 5])
    ensures StringEnd(t, j) == StringEnd(t, j + 6)
  {
    hide Plain;
    PlainScans(t, j + 2, 4);
  }

  lemma {:induction false} PlainScans(t: bytes, j: nat, n: nat)
    requires j + n <= |t| && forall k :: j <= k < j + n ==> Plain(t[k])
    ensures StringEnd(t, j) == StringEnd(t, j + n)
    decreases n
  {
    if n > 0 {
      assert Plain(t[j]);
      PlainScans(t, j + 1, n - 1);
    }
  }

  lemma HexPlain(c: byte, v: nat)
    requires IsHex(c, v)
    ensures Plain(c)
  {}

  lemma {:induction false} SpellScans(t: bytes, j: nat, cs: seq<Char>)
    requires AllOk(cs) && At(t, j, Spell(cs) + [QUOTE])
    ensures StringEnd(t, j) == Some(j + |Spell(cs)| + 1)
    decreases |cs|
  {
    hide CharOk, SpellOne;
    if cs == [] {
      AtIndex(t, j, Spell(cs) + [QUOTE], 0);
    } else {
      var e, rest := SpellOne(cs[0]), Spell(cs[1..]);
      assert Spell(cs) + [QUOTE] == e + (rest + [QUOTE]);
      AtConcat(t, j, e, rest + [QUOTE]);
      CharScans(t, j, cs[0]);
      SpellScans(t, j + |e|, cs[1..]);
    }
  }

  // Every literal is one piece, whatever follows it.
  lemma WrittenPiece(cs: seq<Char>, suffix: bytes)
    requires AllOk(cs)
    ensures ValidPiece(Piece(Str, Written(cs)))
    ensures NextToken(Written(cs) + suffix, 0) == Some((Str, |Written(cs)|))
  {
    hide Spell;
    var q := Written(cs);
    Assoc([QUOTE], Spell(cs), [QUOTE]);
    AtWhole(q);
    AtConcat(q, 0, [QUOTE], Spell(cs) + [QUOTE]);
    SpellScans(q, 1, cs);
    NextTokenExact(q + suffix, 0, Piece(Str, q));
  }

  lemma AtWhole(q: bytes)
    ensures At(q, 0, q)
  {}
}
