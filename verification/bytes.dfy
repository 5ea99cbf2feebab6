/** Bytes, results and the few sequence facts every other module uses. */
module Bytes {
  newtype byte = b: int | 0 <= b < 0x100

  type bytes = seq<byte>

  datatype Option<+T> = None | Some(value: T)

  // The sentinel errors of internal/clientconfig/errors.go that the patcher returns.
  datatype Error =
    | ParseFailure
    | KeyNotFound
    | UnsupportedStructure
    | InternalInconsistency

  datatype Result<+T> = Ok(value: T) | Err(error: Error)

  const TAB: byte := 0x09
  const LF: byte := 0x0A
  const CR: byte := 0x0D
  const SP: byte := 0x20
  const QUOTE: byte := 0x22
  const COMMA: byte := 0x2C
  const SLASH: byte := 0x2F
  const STAR: byte := 0x2A
  const COLON: byte := 0x3A
  const BACKSLASH: byte := 0x5C
  const LBRACKET: byte := 0x5B
  const RBRACKET: byte := 0x5D
  const LBRACE: byte := 0x7B
  const RBRACE: byte := 0x7D

  // x occurs in s at index i.
  predicate At<T(==)>(s: seq<T>, i: nat, x: seq<T>) {
    i + |x| <= |s| && s[i..i + |x|] == x
  }

  lemma AtConcat<T>(s: seq<T>, i: nat, x: seq<T>, y: seq<T>)
    ensures At(s, i, x + y) <==> At(s, i, x) && At(s, i + |x|, y)
  {
    if At(s, i, x + y) {
      assert s[i..i + |x|] == (x + y)[..|x|] == x;
      assert s[i + |x|..i + |x| + |y|] == (x + y)[|x|..] == y;
    }
    if At(s, i, x) && At(s, i + |x|, y) {
      assert s[i..i + |x + y|] == s[i..i + |x|] + s[i + |x|..i + |x| + |y|];
    }
  }

  lemma AtIndex<T>(s: seq<T>, i: nat, x: seq<T>, k: nat)
    requires At(s, i, x) && k < |x|
    ensures s[i + k] == x[k]
  {
    assert s[i + k] == s[i..i + |x|][k];
  }

  // Concatenation the other way round.
  lemma Assoc<T>(a: seq<T>, b: seq<T>, c: seq<T>)
    ensures a + (b + c) == a + b + c
  {}

  lemma Halves<T>(a: seq<T>, b: seq<T>)
    ensures (a + b)[..|a|] == a && (a + b)[|a|..] == b
  {}

  lemma Assoc4<T>(a: seq<T>, b: seq<T>, c: seq<T>, d: seq<T>)
    ensures a + (b + (c + d)) == a + b + c + d
    ensures a + (b + c + d) == a + b + c + d
    ensures a + b + (c + d) == a + b + c + d
  {}

  lemma Parts5<T>(a: seq<T>, x: seq<T>, p: seq<T>, y: seq<T>, b: seq<T>)
    ensures a + (x + p + y) == a + x + p + y
    ensures a + (x + p + y) + b == (a + x) + p + (y + b)
  {
    Assoc4(a, x, p, y);
    Assoc(a + x + p, y, b);
  }

  lemma MiddleOf<T>(a: seq<T>, b: seq<T>, c: seq<T>)
    ensures (a + b + c)[|a|..|a| + |b|] == b && (a + b + c)[|a| + |b|..] == c
  {
    Halves(a + b, c);
    Halves(a, b);
    assert (a + b + c)[|a|..|a| + |b|] == (a + b + c)[..|a + b|][|a|..];
  }

  // The one way a patch changes a file: one byte range out, one replacement in.
  function Splice(src: bytes, start: nat, end: nat, repl: bytes): bytes
    requires start <= end <= |src|
  {
    src[..start] + repl + src[end..]
  }
}
