/**
 The lexical grammar of JSONC (internal/clientconfig/jsonclex.go), with the
 whitespace kept: a source is a sequence of pieces, every blank byte being a
 piece of its own. The main result is that lexing and printing are inverse to
 each other, for a class of piece sequences that is described by looking at
 single pieces and at neighbours only. That is what makes re-lexing local.
 */
module JsoncLex {
  import opened Bytes

  datatype Kind =
    | Space
    | LBrace | RBrace | LBracket | RBracket
    | Colon | Comma
    | Str
    | Scalar
    | Comment

  datatype Piece = Piece(kind: Kind, text: bytes)

  predicate IsBlank(c: byte) { c == SP || c == TAB }

  predicate IsEol(c: byte) { c == LF || c == CR }

  predicate IsSpace(c: byte) { IsBlank(c) || IsEol(c) }

  predicate IsDigit(c: byte) { 0x30 <= c <= 0x39 }

  predicate IsNumStart(c: byte) { c == 0x2D || IsDigit(c) }

  // Digits and - + . e E: the scanner does not check a number's shape.
  predicate IsNumChar(c: byte) {
    IsDigit(c) || c == 0x2D || c == 0x2B || c == 0x2E || c == 0x65 || c == 0x45
  }

  const TRUE: bytes := [0x74, 0x72, 0x75, 0x65]
  const FALSE: bytes := [0x66, 0x61, 0x6C, 0x73, 0x65]
  const NULL: bytes := [0x6E, 0x75, 0x6C, 0x6C]

  // ----- scanning: where the token that starts at i ends -----

  // Index just past the closing quote, scanning the body from j. A backslash
  // skips whatever byte follows it, a line break included.
  function StringEnd(s: bytes, j: nat): (r: Option<nat>)
    ensures r.Some? ==> j < r.value <= |s|
    decreases |s| - j
  {
    if j >= |s| then None
    else if s[j] == BACKSLASH then StringEnd(s, j + 2)
    else if s[j] == QUOTE then Some(j + 1)
    else if IsEol(s[j]) then None
    else StringEnd(s, j + 1)
  }

  function NumEnd(s: bytes, j: nat): (r: nat)
    requires j <= |s|
    ensures j <= r <= |s|
    ensures forall k :: j <= k < r ==> IsNumChar(s[k])
    ensures r < |s| ==> !IsNumChar(s[r])
    decreases |s| - j
  {
    if j < |s| && IsNumChar(s[j]) then NumEnd(s, j + 1) else j
  }

  function LineEnd(s: bytes, j: nat): (r: nat)
    requires j <= |s|
    ensures j <= r <= |s|
    ensures forall k :: j <= k < r ==> !IsEol(s[k])
    ensures r < |s| ==> IsEol(s[r])
    decreases |s| - j
  {
    if j < |s| && !IsEol(s[j]) then LineEnd(s, j + 1) else j
  }

  // Index just past the first "*/" that starts at j or later.
  function BlockEnd(s: bytes, j: nat): (r: Option<nat>)
    ensures r.Some? ==> j + 2 <= r.value <= |s| && s[r.value - 2] == STAR && s[r.value - 1] == SLASH
    decreases |s| - j
  {
    if j + 1 >= |s| then None
    else if s[j] == STAR && s[j + 1] == SLASH then Some(j + 2)
    else BlockEnd(s, j + 1)
  }

  function Upto(e: Option<nat>, i: nat, kind: Kind): (r: Option<(Kind, nat)>)
    requires e.Some? ==> i < e.value
    ensures r.Some? <==> e.Some?
    ensures r.Some? ==> r.value == (kind, e.value - i)
  {
    if e.Some? then Some((kind, e.value - i)) else None
  }

  // Kind and length of the piece that starts at i, if the bytes there are a piece.
  function NextToken(s: bytes, i: nat): (r: Option<(Kind, nat)>)
    requires i < |s|
    ensures r.Some? ==> r.value.1 > 0 && i + r.value.1 <= |s|
  {
    var c := s[i];
    if IsSpace(c) then Some((Space, 1))
    else if c == LBRACE then Some((LBrace, 1))
    else if c == RBRACE then Some((RBrace, 1))
    else if c == LBRACKET then Some((LBracket, 1))
    else if c == RBRACKET then Some((RBracket, 1))
    else if c == COLON then Some((Colon, 1))
    else if c == COMMA then Some((Comma, 1))
    else if c == SLASH then
      if i + 1 >= |s| then None
      else if s[i + 1] == SLASH then Some((Comment, LineEnd(s, i + 2) - i))
      else if s[i + 1] == STAR then Upto(BlockEnd(s, i + 2), i, Comment)
      else None
    else if c == QUOTE then Upto(StringEnd(s, i + 1), i, Str)
    else if IsNumStart(c) then Some((Scalar, NumEnd(s, i) - i))
    else if At(s, i, TRUE) then Some((Scalar, 4))
    else if At(s, i, FALSE) then Some((Scalar, 5))
    else if At(s, i, NULL) then Some((Scalar, 4))
    else None
  }

  // All pieces of s from index i on.
  function Pieces(s: bytes, i: nat): (r: Option<seq<Piece>>)
    requires i <= |s|
    decreases |s| - i
  {
    if i == |s| then Some([])
    else match NextToken(s, i)
      case None => None
      case Some((kind, n)) => Prepend([Piece(kind, s[i..i + n])], Pieces(s, i + n))
  }

  function Prepend(a: seq<Piece>, r: Option<seq<Piece>>): Option<seq<Piece>> {
    if r.Some? then Some(a + r.value) else None
  }

  // ----- which piece sequences are the lexing of their own text -----

  predicate IsNumber(p: Piece) { p.kind.Scalar? && p.text != [] && IsNumStart(p.text[0]) }

  predicate IsLineComment(p: Piece) {
    p.kind.Comment? && |p.text| >= 2 && p.text[0] == SLASH && p.text[1] == SLASH
  }

  predicate ValidPiece(p: Piece) {
    var t := p.text;
    match p.kind
    case Space => |t| == 1 && IsSpace(t[0])
    case LBrace => t == [LBRACE]
    case RBrace => t == [RBRACE]
    case LBracket => t == [LBRACKET]
    case RBracket => t == [RBRACKET]
    case Colon => t == [COLON]
    case Comma => t == [COMMA]
    case Str => |t| >= 2 && t[0] == QUOTE && StringEnd(t, 1) == Some(|t|)
    case Scalar =>
      || t == TRUE || t == FALSE || t == NULL
      || (t != [] && IsNumStart(t[0]) && forall k :: 0 <= k < |t| ==> IsNumChar(t[k]))
    case Comment =>
      && |t| >= 2 && t[0] == SLASH
      && ( || (t[1] == SLASH && forall k :: 2 <= k < |t| ==> !IsEol(t[k]))
           || (t[1] == STAR && BlockEnd(t, 2) == Some(|t|)))
  }

  // A number runs on into number bytes, a line comment into anything but a line break.
  predicate MayFollow(p: Piece, c: byte) {
    && (IsNumber(p) ==> !IsNumChar(c))
    && (IsLineComment(p) ==> IsEol(c))
  }

  predicate Adjacent(p: Piece, q: Piece) { q.text != [] && MayFollow(p, q.text[0]) }

  ghost predicate Joined(ps: seq<Piece>, k: nat)
    requires k + 1 < |ps|
  {
    Adjacent(ps[k], ps[k + 1])
  }

  ghost predicate Lexical(ps: seq<Piece>) {
    && (forall k :: 0 <= k < |ps| ==> ValidPiece(ps[k]))
    && (forall k :: 0 <= k < |ps| - 1 ==> Joined(ps, k))
  }

  function Text(ps: seq<Piece>): bytes {
    if ps == [] then [] else ps[0].text + Text(ps[1..])
  }

  lemma {:induction false} TextConcat(a: seq<Piece>, b: seq<Piece>)
    ensures Text(a + b) == Text(a) + Text(b)
  {
    if a == [] {
      assert a + b == b;
    } else {
      assert (a + b)[0] == a[0] && (a + b)[1..] == a[1..] + b;
      TextConcat(a[1..], b);
    }
  }

  // ----- a scan sees only the piece itself and the byte after it -----

  // t is the part of s that starts at k.
  ghost predicate Window(s: bytes, k: nat, t: bytes) {
    && k + |t| <= |s|
    && forall n :: k <= n < k + |t| ==> s[n] == t[n - k]
  }

  lemma {:induction false} StringEndLocal(s: bytes, k: nat, t: bytes, j: nat)
    requires Window(s, k, t) && k <= j
    ensures StringEnd(t, j - k) == Some(|t|) <==> StringEnd(s, j) == Some(k + |t|)
    decreases |s| - j
  {
    if j < k + |t| {
      if s[j] == BACKSLASH {
        StringEndLocal(s, k, t, j + 2);
      } else if s[j] != QUOTE && !IsEol(s[j]) {
        StringEndLocal(s, k, t, j + 1);
      }
    }
  }

  lemma {:induction false} BlockEndLocal(s: bytes, k: nat, t: bytes, j: nat)
    requires Window(s, k, t) && k <= j
    ensures BlockEnd(t, j - k) == Some(|t|) <==> BlockEnd(s, j) == Some(k + |t|)
    decreases |s| - j
  {
    if j + 1 < k + |t| && !(s[j] == STAR && s[j + 1] == SLASH) {
      BlockEndLocal(s, k, t, j + 1);
    }
  }

  // The kind of a piece shows in its first byte.
  function KindOf(c: byte): Kind {
    if IsSpace(c) then Space
    else if c == LBRACE then LBrace
    else if c == RBRACE then RBrace
    else if c == LBRACKET then LBracket
    else if c == RBRACKET then RBracket
    else if c == COLON then Colon
    else if c == COMMA then Comma
    else if c == SLASH then Comment
    else if c == QUOTE then Str
    else Scalar
  }

  lemma FirstByte(p: Piece)
    requires ValidPiece(p)
    ensures p.text != [] && KindOf(p.text[0]) == p.kind
    ensures p.kind.Scalar? ==> IsNumStart(p.text[0]) || p.text[0] in [0x74, 0x66, 0x6E]
  {
  }

  lemma LineCommentExact(s: bytes, i: nat, t: bytes)
    requires Window(s, i, t) && |t| >= 2
    ensures LineEnd(s, i + 2) == i + |t| <==>
            && (forall k :: 2 <= k < |t| ==> !IsEol(t[k]))
            && (i + |t| < |s| ==> IsEol(s[i + |t|]))
  {
    var e := LineEnd(s, i + 2);
    assert forall k :: 0 <= k < |t| ==> t[k] == s[i + k];
    if e < i + |t| {
      assert t[e - i] == s[e];
    }
  }

  lemma NumberExact(s: bytes, i: nat, t: bytes)
    requires Window(s, i, t) && t != []
    ensures NumEnd(s, i) == i + |t| <==>
            && (forall k :: 0 <= k < |t| ==> IsNumChar(t[k]))
            && (i + |t| < |s| ==> !IsNumChar(s[i + |t|]))
  {
    var e := NumEnd(s, i);
    assert forall k :: 0 <= k < |t| ==> t[k] == s[i + k];
    if e < i + |t| {
      assert t[e - i] == s[e];
    }
  }

  lemma LiteralExact(s: bytes, i: nat, n: nat)
    requires 1 <= n && i + n <= |s|
    ensures s[i..i + n] == TRUE <==> n == 4 && At(s, i, TRUE)
    ensures s[i..i + n] == FALSE <==> n == 5 && At(s, i, FALSE)
    ensures s[i..i + n] == NULL <==> n == 4 && At(s, i, NULL)
    ensures At(s, i, TRUE) ==> s[i] == 0x74
    ensures At(s, i, FALSE) ==> s[i] == 0x66
    ensures At(s, i, NULL) ==> s[i] == 0x6E
  {
    assert s[i..i + n][0] == s[i];
    if At(s, i, TRUE) { AtIndex(s, i, TRUE, 0); }
    if At(s, i, FALSE) { AtIndex(s, i, FALSE, 0); }
    if At(s, i, NULL) { AtIndex(s, i, NULL, 0); }
  }

  // The scanner cuts t off at i exactly when it is a valid piece that the
  // byte after it does not extend.
  ghost predicate Cuts(s: bytes, i: nat, p: Piece)
    requires i < |s|
  {
    NextToken(s, i) == Some((p.kind, |p.text|))
  }

  ghost predicate Stands(s: bytes, i: nat, p: Piece) {
    ValidPiece(p) && (i + |p.text| < |s| ==> MayFollow(p, s[i + |p.text|]))
  }

  lemma CommentExact(s: bytes, i: nat, p: Piece)
    requires Window(s, i, p.text) && p.text != [] && p.text[0] == SLASH
    ensures Cuts(s, i, p) <==> Stands(s, i, p)
  {
    hide LineEnd, BlockEnd, StringEnd, NumEnd;
    if Stands(s, i, p) { FirstByte(p); }
    assert s[i] == SLASH;
    if |p.text| >= 2 {
      assert s[i + 1] == p.text[1];
      if s[i + 1] == STAR {
        BlockEndLocal(s, i, p.text, i + 2);
      } else if s[i + 1] == SLASH {
        LineCommentExact(s, i, p.text);
      }
    }
  }

  lemma StringExact(s: bytes, i: nat, p: Piece)
    requires Window(s, i, p.text) && p.text != [] && p.text[0] == QUOTE
    ensures Cuts(s, i, p) <==> Stands(s, i, p)
  {
    if Stands(s, i, p) { FirstByte(p); }
    assert s[i] == QUOTE;
    StringEndLocal(s, i, p.text, i + 1);
  }

  lemma ScalarExact(s: bytes, i: nat, p: Piece)
    requires Window(s, i, p.text) && p.text != [] && KindOf(p.text[0]) == Scalar
    ensures Cuts(s, i, p) <==> Stands(s, i, p)
  {
    if Stands(s, i, p) { FirstByte(p); }
    assert s[i] == p.text[0];
    assert s[i..i + |p.text|] == p.text;
    if IsNumStart(s[i]) {
      NumberExact(s, i, p.text);
    } else {
      LiteralExact(s, i, |p.text|);
    }
  }

  lemma NextTokenExact(s: bytes, i: nat, p: Piece)
    requires Window(s, i, p.text) && p.text != []
    ensures Cuts(s, i, p) <==> Stands(s, i, p)
  {
    match KindOf(p.text[0])
    case Comment => CommentExact(s, i, p);
    case Str => StringExact(s, i, p);
    case Scalar => ScalarExact(s, i, p);
    case _ =>
      if Stands(s, i, p) { FirstByte(p); }
      assert s[i] == p.text[0];
      if |p.text| == 1 { assert p.text == [p.text[0]]; }
  }

  // Nothing runs on from the end of a into the start of b.
  predicate Seam(a: seq<Piece>, b: seq<Piece>) {
    a != [] && b != [] ==> Adjacent(a[|a| - 1], b[0])
  }

  // Re-lexing is local: only the seam decides whether two lexed parts stay
  // apart when they are put together.
  lemma ConcatLexical(a: seq<Piece>, b: seq<Piece>)
    ensures Lexical(a + b) <==> Lexical(a) && Lexical(b) && Seam(a, b)
  {
    hide ValidPiece, Adjacent;
    var ps := a + b;
    if Lexical(ps) {
      forall k | 0 <= k < |a| ensures ValidPiece(a[k]) { assert ValidPiece(ps[k]); }
      forall k | 0 <= k < |b| ensures ValidPiece(b[k]) { assert ValidPiece(ps[|a| + k]); }
      forall k | 0 <= k < |a| - 1 ensures Joined(a, k) { assert Joined(ps, k); }
      forall k | 0 <= k < |b| - 1 ensures Joined(b, k) { assert Joined(ps, |a| + k); }
      if a != [] && b != [] { assert Joined(ps, |a| - 1); }
    }
    if Lexical(a) && Lexical(b) && Seam(a, b) {
      forall k | 0 <= k < |ps| - 1
        ensures Joined(ps, k)
      {
        if k < |a| - 1 { assert Joined(a, k); }
        else if k >= |a| { assert Joined(b, k - |a|); }
      }
    }
  }

  // ----- the two directions -----

  lemma PiecesStep(s: bytes, i: nat, p: Piece)
    requires At(s, i, p.text) && Stands(s, i, p)
    ensures p.text != [] && Pieces(s, i) == Prepend([p], Pieces(s, i + |p.text|))
  {
    FirstByte(p);
    assert forall k :: 0 <= k < |p.text| ==> p.text[k] == s[i..i + |p.text|][k];
    NextTokenExact(s, i, p);
  }

  lemma PrependTwice(a: seq<Piece>, b: seq<Piece>, r: Option<seq<Piece>>)
    ensures Prepend(a, Prepend(b, r)) == Prepend(a + b, r)
  {
    if r.Some? { assert a + (b + r.value) == (a + b) + r.value; }
  }

  lemma PrependNothing(r: Option<seq<Piece>>)
    ensures Prepend([], r) == r
  {
    if r.Some? { assert [] + r.value == r.value; }
  }

  lemma TextFirst(ps: seq<Piece>)
    requires ps != [] && ValidPiece(ps[0])
    ensures Text(ps) != [] && Text(ps)[0] == ps[0].text[0]
  {
    FirstByte(ps[0]);
  }

  // The byte after the first piece of a printed sequence does not extend it.
  lemma FirstStands(s: bytes, i: nat, p: Piece, rest: seq<Piece>)
    requires Lexical([p] + rest) && At(s, i, p.text) && At(s, i + |p.text|, Text(rest))
    requires rest == [] && i + |p.text| < |s| ==> MayFollow(p, s[i + |p.text|])
    ensures Stands(s, i, p)
  {
    hide ValidPiece, MayFollow;
    var a := [p] + rest;
    assert a[0] == p;
    if rest != [] {
      assert Joined(a, 0) && ValidPiece(a[1]);
      TextFirst(rest);
      AtIndex(s, i + |p.text|, Text(rest), 0);
    }
  }

  // Lexing starts with the pieces of a, whatever follows, if the seam allows it.
  lemma {:induction false} PiecesPrefix(s: bytes, i: nat, a: seq<Piece>)
    requires Lexical(a) && At(s, i, Text(a))
    requires a != [] && i + |Text(a)| < |s| ==> MayFollow(a[|a| - 1], s[i + |Text(a)|])
    ensures Pieces(s, i) == Prepend(a, Pieces(s, i + |Text(a)|))
    decreases |a|
  {
    hide NextToken, ValidPiece, Pieces, Stands;
    if a == [] {
      PrependNothing(Pieces(s, i));
    } else {
      var p, rest := a[0], a[1..];
      assert a == [p] + rest;
      AtConcat(s, i, p.text, Text(rest));
      FirstStands(s, i, p, rest);
      PiecesStep(s, i, p);
      ConcatLexical([p], rest);
      PiecesPrefix(s, i + |p.text|, rest);
      PrependTwice([p], rest, Pieces(s, i + |Text(a)|));
    }
  }

  lemma {:induction false} PiecesSound(s: bytes, i: nat)
    requires i <= |s|
    ensures Pieces(s, i).Some? ==> Lexical(Pieces(s, i).value) && Text(Pieces(s, i).value) == s[i..]
    decreases |s| - i
  {
    hide NextToken, ValidPiece;
    if i < |s| && NextToken(s, i).Some? {
      var (kind, n) := NextToken(s, i).value;
      var p := Piece(kind, s[i..i + n]);
      PiecesSound(s, i + n);
      NextTokenExact(s, i, p);
      if Pieces(s, i + n).Some? {
        var rest := Pieces(s, i + n).value;
        if rest != [] {
          assert ValidPiece(rest[0]);
          FirstByte(rest[0]);
          TextFirst(rest);
        }
        ConcatLexical([p], rest);
        assert ([p] + rest)[1..] == rest;
        assert s[i..] == p.text + s[i + n..];
      }
    }
  }

  const BOM: bytes := [0xEF, 0xBB, 0xBF]

  predicate HasBom(src: bytes) { At(src, 0, BOM) }

  function BomLen(src: bytes): (n: nat)
    ensures n <= |src|
  {
    if HasBom(src) then 3 else 0
  }

  datatype Lexed = Lexed(bom: bool, pieces: seq<Piece>)

  function BomText(bom: bool): bytes { if bom then BOM else [] }

  function Lex(src: bytes): Option<Lexed> {
    match Pieces(src, BomLen(src))
    case None => None
    case Some(ps) => Some(Lexed(HasBom(src), ps))
  }

  // The byte order mark is not the start of any piece, so it is read back as one.
  lemma BomOf(bom: bool, ps: seq<Piece>)
    requires Lexical(ps)
    ensures HasBom(BomText(bom) + Text(ps)) == bom
  {
    var src := BomText(bom) + Text(ps);
    if bom {
      assert src[..3] == BOM;
    } else if ps != [] {
      assert ValidPiece(ps[0]);
      assert src[0] == ps[0].text[0];
      if HasBom(src) { AtIndex(src, 0, BOM, 0); }
    }
  }

  // Lexing inverts printing, and accepts exactly the texts of lexical sequences.
  lemma LexExact(src: bytes, l: Lexed)
    ensures Lex(src) == Some(l) <==> Lexical(l.pieces) && src == BomText(l.bom) + Text(l.pieces)
  {
    hide Lexical, NextToken;
    var ps := l.pieces;
    if Lex(src) == Some(l) {
      PiecesSound(src, BomLen(src));
      assert src == src[..BomLen(src)] + src[BomLen(src)..];
      assert src[..BomLen(src)] == BomText(l.bom);
    }
    if Lexical(ps) && src == BomText(l.bom) + Text(ps) {
      BomOf(l.bom, ps);
      assert src[BomLen(src)..] == Text(ps);
      PiecesPrefix(src, BomLen(src), ps);
      assert ps + [] == ps;
    }
  }
}
