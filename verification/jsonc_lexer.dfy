/**
 The lexer as the source runs it (internal/clientconfig/jsonclex.go): cursor
 loops over the bytes that append to a token list. Blanks are not tokens, and
 offsets are absolute.
 */
module JsoncLexer {
  import opened Bytes
  import opened JsoncLex

  datatype Tok = Tok(kind: Kind, off: nat, len: nat) {
    function End(): nat { off + len }
  }

  // The token list of a piece sequence that starts at byte off.
  function Toks(ps: seq<Piece>, off: nat): seq<Tok> {
    if ps == [] then []
    else
      (if ps[0].kind.Space? then [] else [Tok(ps[0].kind, off, |ps[0].text|)])
      + Toks(ps[1..], off + |ps[0].text|)
  }

  // The number of tokens in a piece sequence: the pieces that are not blanks.
  function Count(ps: seq<Piece>): nat {
    if ps == [] then 0 else (if ps[0].kind.Space? then 0 else 1) + Count(ps[1..])
  }

  lemma {:induction false} ToksConcat(a: seq<Piece>, b: seq<Piece>, off: nat)
    ensures Toks(a + b, off) == Toks(a, off) + Toks(b, off + |Text(a)|)
  {
    if a == [] {
      assert a + b == b;
    } else {
      assert (a + b)[1..] == a[1..] + b;
      ToksConcat(a[1..], b, off + |a[0].text|);
    }
  }

  lemma {:induction false} CountConcat(a: seq<Piece>, b: seq<Piece>)
    ensures Count(a + b) == Count(a) + Count(b)
  {
    if a == [] {
      assert a + b == b;
    } else {
      assert (a + b)[1..] == a[1..] + b;
      CountConcat(a[1..], b);
    }
  }

  lemma {:induction false} ToksCount(ps: seq<Piece>, off: nat)
    ensures |Toks(ps, off)| == Count(ps)
  {
    if ps != [] { ToksCount(ps[1..], off + |ps[0].text|); }
  }

  // The token of a piece is found at its rank, with its offset.
  lemma TokAt(a: seq<Piece>, p: Piece, b: seq<Piece>, off: nat)
    requires !p.kind.Space?
    ensures |Toks(a + [p] + b, off)| == Count(a) + 1 + Count(b)
    ensures Toks(a + [p] + b, off)[Count(a)] == Tok(p.kind, off + |Text(a)|, |p.text|)
  {
    assert a + [p] + b == a + ([p] + b);
    ToksConcat(a, [p] + b, off);
    ToksCount(a, off);
    ToksCount(b, off + |Text(a)| + |p.text|);
    assert ([p] + b)[1..] == b;
  }

  // Every token of ps lies in the bytes of ps.
  lemma {:induction false} ToksWithin(ps: seq<Piece>, off: nat)
    requires forall k :: 0 <= k < |ps| ==> ps[k].text != []
    ensures forall t :: t in Toks(ps, off) ==> off <= t.off < t.End() <= off + |Text(ps)|
  {
    if ps != [] { ToksWithin(ps[1..], off + |ps[0].text|); }
  }

  method ScanJSONString(src: bytes, i: nat) returns (r: Option<nat>)
    requires i < |src| && src[i] == QUOTE
    ensures r == match StringEnd(src, i + 1) case None => None case Some(e) => Some(e - i)
  {
    var j := i + 1;
    while j < |src|
      invariant i + 1 <= j
      invariant StringEnd(src, i + 1) == StringEnd(src, j)
      decreases |src| - j
    {
      if src[j] == BACKSLASH {
        j := j + 1;
      } else if src[j] == QUOTE {
        return Some(j + 1 - i);
      } else if src[j] == LF || src[j] == CR {
        return None;
      }
      j := j + 1;
    }
    return None;
  }

  method ScanJSONNumber(src: bytes, i: nat) returns (n: nat)
    requires i < |src|
    ensures n == NumEnd(src, i) - i
    ensures i + n <= |src|
    ensures forall k :: i <= k < i + n ==> 0x30 <= src[k] <= 0x39 || src[k] in [0x2B, 0x2D, 0x2E, 0x45, 0x65]
    ensures i + n < |src| ==> !(0x30 <= src[i + n] <= 0x39) && src[i + n] !in [0x2B, 0x2D, 0x2E, 0x45, 0x65]
  {
    var j := i;
    while j < |src| && IsNumChar(src[j])
      invariant i <= j <= |src|
      invariant NumEnd(src, i) == NumEnd(src, j)
    {
      j := j + 1;
    }
    return j - i;
  }

  method ScanJSONComment(src: bytes, i: nat) returns (r: Option<(Kind, nat)>)
    requires i < |src| && src[i] == SLASH
    ensures r == NextToken(src, i)
  {
    if i + 1 >= |src| { return None; }
    if src[i + 1] == SLASH {
      var j := i + 2;
      while j < |src| && src[j] != LF && src[j] != CR
        invariant i + 2 <= j <= |src|
        invariant LineEnd(src, i + 2) == LineEnd(src, j)
      {
        j := j + 1;
      }
      return Some((Comment, j - i));
    } else if src[i + 1] == STAR {
      var j := i + 2;
      while j + 1 < |src|
        invariant i + 2 <= j <= |src|
        invariant BlockEnd(src, i + 2) == BlockEnd(src, j)
      {
        if src[j] == STAR && src[j + 1] == SLASH {
          return Some((Comment, j + 2 - i));
        }
        j := j + 1;
      }
      return None;
    }
    return None;
  }

  method NextJSONToken(src: bytes, i: nat) returns (r: Option<(Kind, nat)>)
    requires i < |src|
    ensures r == NextToken(src, i)
  {
    var c := src[i];
    if c == SP || c == TAB || c == CR || c == LF { return Some((Space, 1)); }
    if c == LBRACE { return Some((LBrace, 1)); }
    if c == RBRACE { return Some((RBrace, 1)); }
    if c == LBRACKET { return Some((LBracket, 1)); }
    if c == RBRACKET { return Some((RBracket, 1)); }
    if c == COLON { return Some((Colon, 1)); }
    if c == COMMA { return Some((Comma, 1)); }
    if c == SLASH {
      r := ScanJSONComment(src, i);
      return;
    }
    if c == QUOTE {
      var n := ScanJSONString(src, i);
      return if n.Some? then Some((Str, n.value)) else None;
    }
    if c == 0x2D || (0x30 <= c <= 0x39) {
      var n := ScanJSONNumber(src, i);
      return Some((Scalar, n));
    }
    r := None;
    var lits := [TRUE, FALSE, NULL];
    var k := 0;
    while k < 3
      invariant 0 <= k <= 3
      invariant forall m :: 0 <= m < k ==> !At(src, i, lits[m])
    {
      if |src| - i >= |lits[k]| && src[i..i + |lits[k]|] == lits[k] {
        assert forall m :: 0 <= m < k ==> !At(src, i, lits[m]);
        assert At(src, i, lits[k]);
        assert k > 0 ==> !At(src, i, lits[0]);
        assert k > 1 ==> !At(src, i, lits[1]);
        return Some((Scalar, |lits[k]|));
      }
      k := k + 1;
    }
    assert !At(src, i, lits[0]) && !At(src, i, lits[1]) && !At(src, i, lits[2]);
  }

  lemma BomBytes(src: bytes)
    ensures HasBom(src) <==> |src| >= 3 && src[0] == 0xEF && src[1] == 0xBB && src[2] == 0xBF
  {
    if |src| >= 3 { assert src[0..3] == [src[0], src[1], src[2]]; }
  }

  // The cursor is at i, and done is what has been cut off so far.
  ghost predicate LexedUpTo(src: bytes, b: nat, i: nat, done: seq<Piece>, toks: seq<Tok>) {
    && b <= i <= |src|
    && i == b + |Text(done)|
    && Pieces(src, b) == Prepend(done, Pieces(src, i))
    && toks == Toks(done, b)
  }

  lemma LexStep(src: bytes, b: nat, i: nat, done: seq<Piece>, toks: seq<Tok>)
    requires LexedUpTo(src, b, i, done, toks) && i < |src|
    ensures match NextToken(src, i)
            case None => Pieces(src, b).None?
            case Some((kind, n)) =>
              LexedUpTo(src, b, i + n, done + [Piece(kind, src[i..i + n])],
                        toks + if kind == Space then [] else [Tok(kind, i, n)])
  {
    hide NextToken;
    if NextToken(src, i).Some? {
      var (kind, n) := NextToken(src, i).value;
      var p := Piece(kind, src[i..i + n]);
      PrependTwice(done, [p], Pieces(src, i + n));
      ToksConcat(done, [p], b);
      TextConcat(done, [p]);
    }
  }

  // What a successful lex returns: the tokens of the pieces, with the byte
  // order mark skipped. LexExact says which pieces those are.
  method LexJSONC(src: bytes) returns (r: Result<seq<Tok>>)
    ensures match Lex(src)
            case None => r == Err(ParseFailure)
            case Some(l) => r == Ok(Toks(l.pieces, BomLen(src)))
  {
    hide NextToken;
    var toks: seq<Tok> := [];
    var i := 0;
    if |src| >= 3 && src[0] == 0xEF && src[1] == 0xBB && src[2] == 0xBF {
      i := 3;
    }
    ghost var b := i;
    BomBytes(src);
    ghost var done: seq<Piece> := [];
    PrependNothing(Pieces(src, i));
    while i < |src|
      invariant LexedUpTo(src, b, i, done, toks)
    {
      var next := NextJSONToken(src, i);
      LexStep(src, b, i, done, toks);
      if next.None? { return Err(ParseFailure); }
      var (kind, n) := next.value;
      done := done + [Piece(kind, src[i..i + n])];
      if kind != Space {
        toks := toks + [Tok(kind, i, n)];
      } else {
        assert toks + [] == toks;
      }
      i := i + n;
    }
    assert done + [] == done;
    return Ok(toks);
  }
}
