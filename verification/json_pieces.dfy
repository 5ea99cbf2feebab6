/**
 The pieces of the lexer, written out in bytes and by themselves: what is a
 piece, and what may stand behind it. Whatever is neither is refused.
 */
module JsonPieces {
  import opened Bytes
  import opened JsoncLex

  // A byte of a string literal as the scanner sees it, or a backslash and the
  // byte that it skips, whatever that is.
  datatype Skip = Plain(b: byte) | Escaped(b: byte)

  predicate SkipOk(u: Skip) { u.Plain? ==> u.b !in [0x22, 0x5C, 0x0A, 0x0D] }

  predicate SkipsOk(us: seq<Skip>) { forall k :: 0 <= k < |us| ==> SkipOk(us[k]) }

  function SkipText(us: seq<Skip>): bytes {
    if us == [] then []
    else (match us[0] case Plain(b) => [b] case Escaped(b) => [0x5C, b]) + SkipText(us[1..])
  }

  ghost predicate IsString(t: bytes) {
    exists us :: SkipsOk(us) && t == [0x22] + SkipText(us) + [0x22]
  }

  predicate OneLine(s: bytes) { forall k :: 0 <= k < |s| ==> s[k] != 0x0A && s[k] != 0x0D }

  // No `*/` in front of the one that ends the comment.
  predicate NoClose(x: bytes) { forall k :: 0 <= k < |x| ==> !(x[k] == 0x2A && (x + [0x2A, 0x2F])[k + 1] == 0x2F) }

  ghost predicate IsRemark(t: bytes) {
    || (exists x :: OneLine(x) && t == [0x2F, 0x2F] + x)
    || (exists x :: NoClose(x) && t == [0x2F, 0x2A] + x + [0x2A, 0x2F])
  }

  // true, false, null
  const WORDS: seq<bytes> := [[0x74, 0x72, 0x75, 0x65], [0x66, 0x61, 0x6C, 0x73, 0x65], [0x6E, 0x75, 0x6C, 0x6C]]

  predicate NumberByte(c: byte) { 0x30 <= c <= 0x39 || c in [0x2B, 0x2D, 0x2E, 0x45, 0x65] }

  predicate IsScalar(t: bytes) {
    || t in WORDS
    || (t != [] && (t[0] == 0x2D || 0x30 <= t[0] <= 0x39) && forall k :: 0 <= k < |t| ==> NumberByte(t[k]))
  }

  lemma {:induction false} SkipsEnd(t: bytes, j: nat, us: seq<Skip>)
    requires SkipsOk(us) && At(t, j, SkipText(us) + [0x22])
    ensures StringEnd(t, j) == Some(j + |SkipText(us)| + 1)
    decreases |us|
  {
    if us == [] {
      AtIndex(t, j, SkipText(us) + [0x22], 0);
    } else {
      assert SkipOk(us[0]);
      var u := match us[0] case Plain(b) => [b] case Escaped(b) => [0x5C, b];
      assert SkipText(us) + [0x22] == u + (SkipText(us[1..]) + [0x22]);
      AtConcat(t, j, u, SkipText(us[1..]) + [0x22]);
      AtIndex(t, j, u, 0);
      SkipsEnd(t, j + |u|, us[1..]);
    }
  }

  lemma {:induction false} SkipsOf(t: bytes, j: nat) returns (us: seq<Skip>)
    requires StringEnd(t, j) == Some(|t|)
    ensures SkipsOk(us) && t[j..] == SkipText(us) + [0x22]
    decreases |t| - j
  {
    if t[j] == QUOTE {
      us := [];
    } else {
      var n := if t[j] == BACKSLASH then 2 else 1;
      var rest := SkipsOf(t, j + n);
      var u := if t[j] == BACKSLASH then Escaped(t[j + 1]) else Plain(t[j]);
      us := [u] + rest;
      assert us[1..] == rest;
      assert t[j..] == t[j..j + n] + t[j + n..];
    }
  }

  lemma StringBytes(t: bytes)
    ensures |t| >= 2 && t[0] == QUOTE && StringEnd(t, 1) == Some(|t|) <==> IsString(t)
  {
    hide StringEnd, SkipText, SkipsOk;
    if |t| >= 2 && t[0] == QUOTE && StringEnd(t, 1) == Some(|t|) {
      var us := SkipsOf(t, 1);
      Assoc([0x22], SkipText(us), [0x22]);
      assert t == [t[0]] + t[1..];
    }
    if IsString(t) {
      var us :| SkipsOk(us) && t == [0x22] + SkipText(us) + [0x22];
      StringScans(t, us);
    }
  }

  lemma StringScans(t: bytes, us: seq<Skip>)
    requires SkipsOk(us) && t == [0x22] + SkipText(us) + [0x22]
    ensures |t| >= 2 && t[0] == QUOTE && StringEnd(t, 1) == Some(|t|)
  {
    hide StringEnd, SkipText, SkipsOk;
    Assoc([0x22], SkipText(us), [0x22]);
    AtRest(0x22, SkipText(us) + [0x22]);
    SkipsEnd(t, 1, us);
  }

  lemma AtRest(c: byte, x: bytes)
    ensures At([c] + x, 1, x)
  {}

  lemma BlockValid(text: bytes)
    requires NoClose(text)
    ensures ValidPiece(Piece(Comment, [0x2F, 0x2A] + text + [0x2A, 0x2F]))
  {
    var t := [0x2F, 0x2A] + text + [0x2A, 0x2F];
    forall k | 2 <= k < 2 + |text| ensures !Closes(t, k) {
      assert t[k] == text[k - 2] && t[k + 1] == (text + [0x2A, 0x2F])[k - 2 + 1];
    }
    BlockAt(t, 2, 2 + |text|);
  }

  predicate Closes(t: bytes, k: nat) { k + 1 < |t| && t[k] == STAR && t[k + 1] == SLASH }

  lemma {:induction false} BlockAt(t: bytes, j: nat, e: nat)
    requires j <= e && e + 2 == |t| && Closes(t, e)
    requires forall k :: j <= k < e ==> !Closes(t, k)
    ensures BlockEnd(t, j) == Some(|t|)
    decreases e - j
  {
    if j < e {
      assert !Closes(t, j);
      BlockAt(t, j + 1, e);
    }
  }

  lemma {:induction false} BlockFirst(t: bytes, j: nat)
    requires BlockEnd(t, j).Some?
    ensures forall k :: j <= k < BlockEnd(t, j).value - 2 ==> !Closes(t, k)
    decreases |t| - j
  {
    if !Closes(t, j) { BlockFirst(t, j + 1); }
  }

  lemma CommentBytes(t: bytes)
    ensures ValidPiece(Piece(Comment, t)) <==> IsRemark(t)
  {
    if ValidPiece(Piece(Comment, t)) {
      if t[1] == SLASH {
        assert t == [0x2F, 0x2F] + t[2..];
        assert OneLine(t[2..]);
      } else {
        var x := t[2..|t| - 2];
        assert t == [0x2F, 0x2A] + x + [0x2A, 0x2F];
        BlockFirst(t, 2);
        forall k | 0 <= k < |x| ensures !(x[k] == 0x2A && (x + [0x2A, 0x2F])[k + 1] == 0x2F) {
          assert !Closes(t, k + 2);
          assert x[k] == t[k + 2] && (x + [0x2A, 0x2F])[k + 1] == t[k + 3];
        }
        assert NoClose(x);
      }
    }
    if IsRemark(t) {
      if x :| OneLine(x) && t == [0x2F, 0x2F] + x {
        assert forall k :: 2 <= k < |t| ==> t[k] == x[k - 2];
      } else {
        var x :| NoClose(x) && t == [0x2F, 0x2A] + x + [0x2A, 0x2F];
        BlockValid(x);
      }
    }
  }

  lemma ScalarBytes(t: bytes)
    ensures ValidPiece(Piece(Scalar, t)) <==> IsScalar(t)
  {
    assert WORDS[0] == TRUE && WORDS[1] == FALSE && WORDS[2] == NULL;
    assert forall c :: NumberByte(c) <==> IsNumChar(c);
  }

  // A piece, of each kind, is exactly this; with LexExact that decides which
  // sources are read at all, and how.
  lemma PieceBytes(p: Piece)
    ensures ValidPiece(p) <==>
            if p.kind == Space then p.text in [[0x20], [0x09], [0x0A], [0x0D]]
            else if p.kind == LBrace then p.text == [0x7B]
            else if p.kind == RBrace then p.text == [0x7D]
            else if p.kind == LBracket then p.text == [0x5B]
            else if p.kind == RBracket then p.text == [0x5D]
            else if p.kind == Colon then p.text == [0x3A]
            else if p.kind == Comma then p.text == [0x2C]
            else if p.kind == Str then IsString(p.text)
            else if p.kind == Scalar then IsScalar(p.text)
            else IsRemark(p.text)
  {
    hide IsString, IsScalar, IsRemark;
    if p.kind.Str? {
      StringBytes(p.text);
    } else if p.kind.Scalar? {
      ScalarBytes(p.text);
    } else if p.kind.Comment? {
      CommentBytes(p.text);
    } else if p.kind.Space? {
      if |p.text| == 1 { assert p.text == [p.text[0]]; }
    }
  }

  // And this may stand behind it: no number byte behind a number, nothing but a
  // line break behind a line comment.
  lemma SeamBytes(p: Piece, c: byte)
    requires ValidPiece(p)
    ensures MayFollow(p, c) <==>
            && !(p.kind == Scalar && p.text !in WORDS && NumberByte(c))
            && !(p.kind == Comment && p.text[..2] == [0x2F, 0x2F] && c != 0x0A && c != 0x0D)
  {
    assert WORDS[0] == TRUE && WORDS[1] == FALSE && WORDS[2] == NULL;
    if p.kind.Comment? { assert p.text[..2] == [p.text[0], p.text[1]]; }
  }
}
