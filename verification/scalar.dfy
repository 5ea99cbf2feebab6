/**
 The string emitter of internal/clientconfig/scalar.go, and the decoder its
 output meets (section 7 of RFC 8259, the way Go's encoding/json applies it).
 */
module Scalars {
  import opened Bytes
  import opened JsoncLex

  const DEL: byte := 0x7F

  function HexDigit(n: nat): byte
    requires n < 16
  {
    if n < 10 then (0x30 + n) as byte else (0x57 + n) as byte
  }

  function HexValue(c: byte): (r: Option<nat>)
    ensures r.Some? ==> r.value < 16
  {
    if 0x30 <= c <= 0x39 then Some(c as nat - 0x30)
    else if 0x61 <= c <= 0x66 then Some(c as nat - 0x57)
    else if 0x41 <= c <= 0x46 then Some(c as nat - 0x37)
    else None
  }

  // One byte of a quoted string: \" \\ and \u00XX for what may not stand there raw.
  function Escape(c: byte, escapeDel: bool): bytes {
    if c == QUOTE then [BACKSLASH, QUOTE]
    else if c == BACKSLASH then [BACKSLASH, BACKSLASH]
    else if c < 0x20 || (escapeDel && c == DEL) then
      [BACKSLASH, 0x75, 0x30, 0x30, HexDigit(c as nat / 16), HexDigit(c as nat % 16)]
    else [c]
  }

  function QuoteBody(s: bytes, escapeDel: bool): bytes {
    if s == [] then [] else Escape(s[0], escapeDel) + QuoteBody(s[1..], escapeDel)
  }

  function Quoted(s: bytes, escapeDel: bool): bytes {
    [QUOTE] + QuoteBody(s, escapeDel) + [QUOTE]
  }

  function JsoncQuote(s: bytes): bytes { Quoted(s, false) }

  lemma {:induction false} QuoteBodyConcat(a: bytes, b: bytes, escapeDel: bool)
    ensures QuoteBody(a + b, escapeDel) == QuoteBody(a, escapeDel) + QuoteBody(b, escapeDel)
  {
    if a == [] {
      assert a + b == b;
    } else {
      assert (a + b)[1..] == a[1..] + b;
      QuoteBodyConcat(a[1..], b, escapeDel);
    }
  }

  lemma QuoteStep(s: bytes, i: nat, escapeDel: bool)
    requires i < |s|
    ensures QuoteBody(s[..i + 1], escapeDel) == QuoteBody(s[..i], escapeDel) + Escape(s[i], escapeDel)
  {
    assert s[..i + 1] == s[..i] + [s[i]];
    QuoteBodyConcat(s[..i], [s[i]], escapeDel);
    assert QuoteBody([s[i]], escapeDel) == Escape(s[i], escapeDel);
  }

  method QuoteBasic(s: bytes, escapeDel: bool) returns (b: bytes)
    ensures b == Quoted(s, escapeDel)
  {
    b := [QUOTE];
    var i := 0;
    while i < |s|
      invariant 0 <= i <= |s|
      invariant b == [QUOTE] + QuoteBody(s[..i], escapeDel)
    {
      hide QuoteBody;
      var c := s[i];
      QuoteStep(s, i, escapeDel);
      ghost var done := QuoteBody(s[..i], escapeDel);
      var e;
      if c == QUOTE {
        e := [BACKSLASH, QUOTE];
      } else if c == BACKSLASH {
        e := [BACKSLASH, BACKSLASH];
      } else if c < 0x20 || (escapeDel && c == DEL) {
        e := [BACKSLASH, 0x75, 0x30, 0x30, HexDigit(c as nat / 16), HexDigit(c as nat % 16)];
      } else {
        e := [c];
      }
      Assoc([QUOTE], done, e);
      b := b + e;
      i := i + 1;
    }
    assert s[..i] == s;
    b := b + [QUOTE];
  }

  // ----- decoding -----

  function Utf8(code: nat): bytes
    requires code < 0x110000
  {
    if code < 0x80 then [code as byte]
    else if code < 0x800 then [(0xC0 + code / 0x40) as byte, (0x80 + code % 0x40) as byte]
    else if code < 0x10000 then
      [(0xE0 + code / 0x1000) as byte, (0x80 + code / 0x40 % 0x40) as byte, (0x80 + code % 0x40) as byte]
    else
      [(0xF0 + code / 0x40000) as byte, (0x80 + code / 0x1000 % 0x40) as byte,
       (0x80 + code / 0x40 % 0x40) as byte, (0x80 + code % 0x40) as byte]
  }

  const REPLACEMENT: nat := 0xFFFD

  // The code unit of a \uXXXX escape at the start of b.
  function UnicodeEscape(b: bytes): (r: Option<nat>)
    ensures r.Some? ==> |b| >= 6 && r.value < 0x10000
  {
    if |b| < 6 || b[0] != BACKSLASH || b[1] != 0x75 then None
    else
      var w, x, y, z := HexValue(b[2]), HexValue(b[3]), HexValue(b[4]), HexValue(b[5]);
      if w.None? || x.None? || y.None? || z.None? then None
      else Some(w.value * 0x1000 + x.value * 0x100 + y.value * 0x10 + z.value)
  }

  function SimpleEscape(c: byte): Option<byte> {
    if c == QUOTE || c == BACKSLASH || c == SLASH then Some(c)
    else if c == 0x62 then Some(0x08)
    else if c == 0x66 then Some(0x0C)
    else if c == 0x6E then Some(LF)
    else if c == 0x72 then Some(CR)
    else if c == 0x74 then Some(TAB)
    else None
  }

  // The first character of a string body and the number of bytes it takes. A
  // surrogate that has no partner decodes to U+FFFD.
  function DecodeChar(b: bytes): (r: Option<(bytes, nat)>)
    requires b != []
    ensures r.Some? ==> 0 < r.value.1 <= |b|
  {
    if b[0] == QUOTE || b[0] < 0x20 then None
    else if b[0] != BACKSLASH then Some(([b[0]], 1))
    else if UnicodeEscape(b).Some? then
      var high := UnicodeEscape(b).value;
      if 0xD800 <= high < 0xE000 then
        match UnicodeEscape(b[6..])
        case Some(low) =>
          if high < 0xDC00 && 0xDC00 <= low < 0xE000
          then Some((Utf8(0x10000 + (high - 0xD800) * 0x400 + (low - 0xDC00)), 12))
          else Some((Utf8(REPLACEMENT), 6))
        case None => Some((Utf8(REPLACEMENT), 6))
      else Some((Utf8(high), 6))
    else if |b| >= 2 && SimpleEscape(b[1]).Some? then Some(([SimpleEscape(b[1]).value], 2))
    else None
  }

  function DecodeBody(b: bytes): Option<bytes>
    decreases |b|
  {
    if b == [] then Some([])
    else match DecodeChar(b)
      case None => None
      case Some((c, n)) =>
        match DecodeBody(b[n..])
        case None => None
        case Some(rest) => Some(c + rest)
  }

  // The value of a string literal, quotes included; None where the literal is malformed.
  function Decode(raw: bytes): Option<bytes> {
    if |raw| >= 2 && raw[0] == QUOTE && raw[|raw| - 1] == QUOTE
    then DecodeBody(raw[1..|raw| - 1])
    else None
  }

  // ----- the round trip -----

  lemma DecodeEscape(c: byte, escapeDel: bool, rest: bytes)
    ensures DecodeChar(Escape(c, escapeDel) + rest) == Some(([c], |Escape(c, escapeDel)|))
  {
    var b := Escape(c, escapeDel) + rest;
    if c < 0x20 || (escapeDel && c == DEL) {
      assert HexValue(HexDigit(c as nat / 16)) == Some(c as nat / 16);
      assert HexValue(HexDigit(c as nat % 16)) == Some(c as nat % 16);
      assert HexValue(0x30) == Some(0);
      assert UnicodeEscape(b) == Some(c as nat);
    }
  }

  lemma {:induction false} DecodeQuoteBody(s: bytes, escapeDel: bool)
    ensures DecodeBody(QuoteBody(s, escapeDel)) == Some(s)
  {
    if s != [] {
      hide DecodeChar, Escape;
      var e, rest := Escape(s[0], escapeDel), QuoteBody(s[1..], escapeDel);
      DecodeEscape(s[0], escapeDel, rest);
      DecodeQuoteBody(s[1..], escapeDel);
      assert (e + rest)[|e|..] == rest;
      assert s == [s[0]] + s[1..];
    }
  }

  // Decoding a quoted string gives the string back, for both emitters.
  lemma DecodeQuoted(s: bytes, escapeDel: bool)
    ensures Decode(Quoted(s, escapeDel)) == Some(s)
  {
    var q := Quoted(s, escapeDel);
    assert q[1..|q| - 1] == QuoteBody(s, escapeDel);
    DecodeQuoteBody(s, escapeDel);
  }

  lemma EscapeScans(t: bytes, j: nat, c: byte, escapeDel: bool)
    requires At(t, j, Escape(c, escapeDel))
    ensures StringEnd(t, j) == StringEnd(t, j + |Escape(c, escapeDel)|)
  {
    var e := Escape(c, escapeDel);
    forall k | 0 <= k < |e| ensures t[j + k] == e[k] { AtIndex(t, j, e, k); }
    if |e| == 6 {
      assert t[j] == BACKSLASH;
      assert t[j + 2] == 0x30 && t[j + 3] == 0x30;
      assert t[j + 4] >= 0x30 && t[j + 4] != BACKSLASH;
      assert t[j + 5] >= 0x30 && t[j + 5] != BACKSLASH;
      assert StringEnd(t, j + 2) == StringEnd(t, j + 3);
      assert StringEnd(t, j + 3) == StringEnd(t, j + 4);
      assert StringEnd(t, j + 4) == StringEnd(t, j + 5);
      assert StringEnd(t, j + 5) == StringEnd(t, j + 6);
    } else if |e| == 1 {
      assert t[j] == e[0];
    } else {
      assert t[j] == e[0];
    }
  }

  lemma {:induction false} QuoteBodyScans(t: bytes, j: nat, s: bytes, escapeDel: bool)
    requires At(t, j, QuoteBody(s, escapeDel) + [QUOTE])
    ensures StringEnd(t, j) == Some(j + |QuoteBody(s, escapeDel)| + 1)
    decreases |s|
  {
    hide Escape;
    var body := QuoteBody(s, escapeDel);
    if s == [] {
      AtIndex(t, j, body + [QUOTE], 0);
    } else {
      var e, rest := Escape(s[0], escapeDel), QuoteBody(s[1..], escapeDel);
      assert body + [QUOTE] == e + (rest + [QUOTE]);
      AtConcat(t, j, e, rest + [QUOTE]);
      EscapeScans(t, j, s[0], escapeDel);
      QuoteBodyScans(t, j + |e|, s[1..], escapeDel);
    }
  }

  // The scanner takes the whole literal for one string, and nothing after it.
  lemma QuotedPiece(s: bytes, escapeDel: bool, suffix: bytes)
    ensures ValidPiece(Piece(Str, Quoted(s, escapeDel)))
    ensures NextToken(Quoted(s, escapeDel) + suffix, 0) == Some((Str, |Quoted(s, escapeDel)|))
  {
    var q := Quoted(s, escapeDel);
    assert q == [QUOTE] + (QuoteBody(s, escapeDel) + [QUOTE]);
    AtConcat(q, 0, [QUOTE], QuoteBody(s, escapeDel) + [QUOTE]);
    QuoteBodyScans(q, 1, s, escapeDel);
    NextTokenExact(q + suffix, 0, Piece(Str, q));
  }

  // No byte that may not stand raw in a literal is emitted.
  lemma {:induction false} QuotedIsClean(s: bytes, escapeDel: bool)
    ensures forall c :: c in Quoted(s, escapeDel) ==> c >= 0x20 && (escapeDel ==> c != DEL)
  {
    if s != [] {
      QuotedIsClean(s[1..], escapeDel);
      EscapeIsClean(s[0], escapeDel);
      hide Escape;
      assert forall c :: c in QuoteBody(s[1..], escapeDel) ==> c in Quoted(s[1..], escapeDel);
      assert forall c :: c in Quoted(s, escapeDel) ==>
        c == QUOTE || c in Escape(s[0], escapeDel) || c in QuoteBody(s[1..], escapeDel);
    }
  }

  lemma EscapeIsClean(c: byte, escapeDel: bool)
    ensures forall d :: d in Escape(c, escapeDel) ==> d >= 0x20 && (escapeDel ==> d != DEL)
  {}
}
