/**
 naturalLess (internal/changelogfrag/fragments.go): the order of fragment names.
 A name is read as a list of tokens, a maximal run of digits being one number;
 the two-cursor comparison is the lexicographic order of those lists.
 */
module Natural {
  import opened Bytes

  const ZERO: byte := 0x30
  const NINE: byte := 0x39

  predicate IsDigit(c: byte) { ZERO <= c <= NINE }

  // ----- a name as tokens -----

  datatype Token = Num(value: nat) | Ch(c: byte)

  function Run(s: bytes): (n: nat)
    ensures n <= |s| && (forall i :: 0 <= i < n ==> IsDigit(s[i])) && (n < |s| ==> !IsDigit(s[n]))
  {
    if s == [] || !IsDigit(s[0]) then 0 else 1 + Run(s[1..])
  }

  function Pow10(n: nat): nat { if n == 0 then 1 else 10 * Pow10(n - 1) }

  function Digit(c: byte): (d: nat)
    requires IsDigit(c)
    ensures d <= 9
  {
    (c - ZERO) as nat
  }

  predicate Digits(s: bytes) { forall i :: 0 <= i < |s| ==> IsDigit(s[i]) }

  function Number(s: bytes): nat
    requires Digits(s)
  {
    if s == [] then 0 else Digit(s[0]) * Pow10(|s| - 1) + Number(s[1..])
  }

  function Tokens(s: bytes): seq<Token>
    decreases |s|
  {
    if s == [] then []
    else if IsDigit(s[0]) then [Num(Number(s[..Run(s)]))] + Tokens(s[Run(s)..])
    else [Ch(s[0])] + Tokens(s[1..])
  }

  // Numbers stand where the digits stand among the other bytes.
  predicate TokenLess(x: Token, y: Token) {
    match (x, y)
    case (Num(m), Num(n)) => m < n
    case (Num(_), Ch(c)) => NINE < c
    case (Ch(c), Num(_)) => c < ZERO
    case (Ch(c), Ch(d)) => c < d
  }

  predicate Less(x: seq<Token>, y: seq<Token>) {
    if y == [] then false
    else if x == [] then true
    else if x[0] == y[0] then Less(x[1..], y[1..])
    else TokenLess(x[0], y[0])
  }

  // Every token is a number or a byte that is no digit.
  predicate Proper(x: seq<Token>) { forall i :: 0 <= i < |x| && x[i].Ch? ==> !IsDigit(x[i].c) }

  lemma {:induction false} TokensProper(s: bytes)
    ensures Proper(Tokens(s))
    decreases |s|
  {
    if s != [] {
      TokensProper(if IsDigit(s[0]) then s[Run(s)..] else s[1..]);
    }
  }

  // ----- digits compared as text -----

  // The order of two strings in Go: byte by byte, a proper prefix first.
  predicate TextLess(x: bytes, y: bytes) {
    if y == [] then false
    else if x == [] then true
    else if x[0] == y[0] then TextLess(x[1..], y[1..])
    else x[0] < y[0]
  }

  function TrimZeros(s: bytes): (r: bytes)
    requires Digits(s)
    ensures Digits(r) && |r| <= |s| && (r == [] || r[0] != ZERO)
  {
    if s != [] && s[0] == ZERO then TrimZeros(s[1..]) else s
  }

  lemma {:induction false} TrimValue(s: bytes)
    requires Digits(s)
    ensures Number(TrimZeros(s)) == Number(s)
  {
    if s != [] && s[0] == ZERO { TrimValue(s[1..]); }
  }

  lemma Scale(d: nat, e: nat, p: nat)
    requires d < e
    ensures d * p + p <= e * p
  {
    var gap: nat := e - d - 1;
    assert e * p == (d + 1 + gap) * p == d * p + p + gap * p;
  }

  lemma {:induction false} NumberBelow(s: bytes)
    requires Digits(s)
    ensures Number(s) < Pow10(|s|)
    ensures s != [] ==> Digit(s[0]) * Pow10(|s| - 1) <= Number(s) < Digit(s[0]) * Pow10(|s| - 1) + Pow10(|s| - 1)
  {
    if s != [] {
      NumberBelow(s[1..]);
      Scale(Digit(s[0]), 10, Pow10(|s| - 1));
    }
  }

  lemma {:induction false} PowMonotone(m: nat, n: nat)
    requires m <= n
    ensures 1 <= Pow10(m) <= Pow10(n)
    decreases n
  {
    if m < n {
      PowMonotone(m, n - 1);
    } else if m > 0 {
      PowMonotone(m - 1, n - 1);
    }
  }

  // Same length: the text order is the numeric order.
  lemma {:induction false} SameLength(x: bytes, y: bytes)
    requires Digits(x) && Digits(y) && |x| == |y|
    ensures TextLess(x, y) <==> Number(x) < Number(y)
    ensures x == y <==> Number(x) == Number(y)
  {
    if x != [] {
      SameLength(x[1..], y[1..]);
      assert x == [x[0]] + x[1..] && y == [y[0]] + y[1..];
      if x[0] < y[0] {
        HeadDecides(x, y);
      } else if y[0] < x[0] {
        HeadDecides(y, x);
      }
    }
  }

  lemma HeadDecides(x: bytes, y: bytes)
    requires Digits(x) && Digits(y) && |x| == |y| && x != [] && x[0] < y[0]
    ensures Number(x) < Number(y)
  {
    NumberBelow(x);
    NumberBelow(y);
    hide Number, Pow10;
    Scale(Digit(x[0]), Digit(y[0]), Pow10(|x| - 1));
  }

  // Without leading zeros the shorter number is the smaller one.
  lemma Shorter(x: bytes, y: bytes)
    requires Digits(x) && Digits(y) && |x| < |y| && y[0] != ZERO
    ensures Number(x) < Number(y)
  {
    NumberBelow(x);
    NumberBelow(y);
    PowMonotone(|x|, |y| - 1);
    hide Number, Pow10;
    Scale(0, Digit(y[0]), Pow10(|y| - 1));
  }

  // What the source does with two digit runs compares their numbers.
  lemma TrimmedOrder(x: bytes, y: bytes)
    requires Digits(x) && Digits(y)
    ensures var t, u := TrimZeros(x), TrimZeros(y);
            && (Number(x) == Number(y) <==> t == u)
            && (Number(x) < Number(y) <==> if |t| != |u| then |t| < |u| else TextLess(t, u))
  {
    var t, u := TrimZeros(x), TrimZeros(y);
    TrimValue(x);
    TrimValue(y);
    if |t| < |u| {
      Shorter(t, u);
    } else if |u| < |t| {
      Shorter(u, t);
    } else {
      SameLength(t, u);
    }
  }

  // ----- the comparison -----

  lemma RunAt(s: bytes, i: nat, j: nat)
    requires i <= j <= |s| && Digits(s[i..j]) && (j < |s| ==> !IsDigit(s[j]))
    ensures Run(s[i..]) == j - i
  {
    var r := Run(s[i..]);
    assert forall n :: 0 <= n < j - i ==> s[i..][n] == s[i..j][n];
    assert j < |s| ==> s[i..][j - i] == s[j];
  }

  lemma TokensNumber(s: bytes, i: nat, j: nat)
    requires i < j <= |s| && Digits(s[i..j]) && (j < |s| ==> !IsDigit(s[j]))
    ensures Tokens(s[i..]) == [Num(Number(s[i..j]))] + Tokens(s[j..])
  {
    RunAt(s, i, j);
    assert s[i..][..j - i] == s[i..j] && s[i..][j - i..] == s[j..] && s[i..][0] == s[i..j][0];
  }

  method DigitsEnd(s: bytes, i: nat) returns (j: nat)
    requires i <= |s|
    ensures i <= j <= |s| && Digits(s[i..j]) && (j < |s| ==> !IsDigit(s[j]))
  {
    j := i;
    while j < |s| && IsDigit(s[j])
      invariant i <= j <= |s| && Digits(s[i..j])
    {
      assert s[i..j + 1] == s[i..j] + [s[j]];
      j := j + 1;
    }
  }

  method NaturalLess(a: bytes, b: bytes) returns (r: bool)
    ensures r <==> Less(Tokens(a), Tokens(b))
  {
    var ai, bi := 0, 0;
    while ai < |a| && bi < |b|
      invariant ai <= |a| && bi <= |b|
      invariant Less(Tokens(a), Tokens(b)) <==> Less(Tokens(a[ai..]), Tokens(b[bi..]))
      decreases |a| - ai
    {
      if IsDigit(a[ai]) && IsDigit(b[bi]) {
        var aEnd := DigitsEnd(a, ai);
        var bEnd := DigitsEnd(b, bi);
        TokensNumber(a, ai, aEnd);
        TokensNumber(b, bi, bEnd);
        var aNum, bNum := TrimZeros(a[ai..aEnd]), TrimZeros(b[bi..bEnd]);
        TrimmedOrder(a[ai..aEnd], b[bi..bEnd]);
        ai, bi := aEnd, bEnd;
        if |aNum| != |bNum| { return |aNum| < |bNum|; }
        if aNum != bNum { return TextLess(aNum, bNum); }
        continue;
      }
      assert a[ai..][1..] == a[ai + 1..] && b[bi..][1..] == b[bi + 1..];
      if a[ai] != b[bi] { return a[ai] < b[bi]; }
      ai, bi := ai + 1, bi + 1;
    }
    return |a| - ai < |b| - bi;
  }

  // ----- which of two names comes first -----

  // The two texts are read apart: no run of digits goes through the cut.
  predicate Cut(c: bytes, s: bytes) { c == [] || s == [] || !IsDigit(c[|c| - 1]) || !IsDigit(s[0]) }

  lemma RunCut(c: bytes, s: bytes)
    requires Cut(c, s) && c != []
    ensures Run(c + s) == Run(c)
  {
    var n := Run(c);
    assert forall i :: 0 <= i < n ==> (c + s)[i] == c[i];
    assert (c + s)[0..] == c + s;
    if n < |c| { assert (c + s)[n] == c[n]; } else if s != [] { assert (c + s)[n] == s[0] && c[|c| - 1] == c[n - 1]; }
    RunAt(c + s, 0, n);
  }

  lemma {:induction false} TokensCut(c: bytes, s: bytes)
    requires Cut(c, s)
    ensures Tokens(c + s) == Tokens(c) + Tokens(s)
    decreases |c|
  {
    if c == [] {
      assert c + s == s;
    } else {
      var n := if IsDigit(c[0]) then Run(c) else 1;
      RunCut(c, s);
      HeadToken(c);
      HeadToken(c + s);
      hide Tokens, Run, Token1;
      CutBehind(c, s, n);
      TokensCut(c[n..], s);
      Assoc([Token1(c)], Tokens(c[n..]), Tokens(s));
    }
  }

  // The first token.
  function Token1(s: bytes): Token
    requires s != []
  {
    if IsDigit(s[0]) then Num(Number(s[..Run(s)])) else Ch(s[0])
  }

  lemma HeadToken(s: bytes)
    requires s != []
    ensures Tokens(s) == [Token1(s)] + Tokens(s[if IsDigit(s[0]) then Run(s) else 1..])
  {}

  lemma CutBehind(c: bytes, s: bytes, n: nat)
    requires c != [] && 0 < n <= |c| && n == (if IsDigit(c[0]) then Run(c) else 1) && Cut(c, s)
    requires Run(c + s) == Run(c)
    ensures (c + s)[0] == c[0] && (c + s)[n..] == c[n..] + s && Cut(c[n..], s)
    ensures Token1(c + s) == Token1(c)
  {
    hide Number;
    assert (c + s)[..n] == c[..n];
    if n < |c| { assert c[n..][|c| - n - 1] == c[|c| - 1]; }
  }

  lemma {:induction false} LessBehind(p: seq<Token>, x: seq<Token>, y: seq<Token>)
    ensures Less(p + x, p + y) <==> Less(x, y)
  {
    if p == [] {
      assert p + x == x && p + y == y;
    } else {
      assert (p + x)[1..] == p[1..] + x && (p + y)[1..] == p[1..] + y;
      LessBehind(p[1..], x, y);
    }
  }

  lemma NumberHead(x: bytes, u: bytes)
    requires x != [] && Digits(x) && (u != [] ==> !IsDigit(u[0]))
    ensures Tokens(x + u) == [Num(Number(x))] + Tokens(u)
  {
    assert (x + u)[0..] == x + u && (x + u)[0..|x|] == x && (x + u)[|x|..] == u;
    if u != [] { assert (x + u)[|x|] == u[0]; }
    TokensNumber(x + u, 0, |x|);
  }

  // Behind a common start two runs of digits compare as their numbers do, however
  // they are written, and equal ones leave it to the rest.
  lemma NumbersDecide(c: bytes, x: bytes, u: bytes, y: bytes, v: bytes)
    requires x != [] && y != [] && Digits(x) && Digits(y)
    requires (c != [] ==> !IsDigit(c[|c| - 1])) && (u != [] ==> !IsDigit(u[0])) && (v != [] ==> !IsDigit(v[0]))
    ensures Less(Tokens(c + (x + u)), Tokens(c + (y + v))) <==>
            Number(x) < Number(y) || (Number(x) == Number(y) && Less(Tokens(u), Tokens(v)))
  {
    hide Tokens, Number;
    NumberHead(x, u);
    NumberHead(y, v);
    TokensCut(c, x + u);
    TokensCut(c, y + v);
    LessBehind(Tokens(c), Tokens(x + u), Tokens(y + v));
  }

  // Behind a common start two different bytes decide, unless a number goes
  // through the cut or both belong to one.
  lemma BytesDecide(c: bytes, d: byte, u: bytes, e: byte, v: bytes)
    requires d != e && !(IsDigit(d) && IsDigit(e))
    requires Cut(c, [d]) && Cut(c, [e])
    ensures Less(Tokens(c + ([d] + u)), Tokens(c + ([e] + v))) <==> d < e
  {
    TokensCut(c, [d] + u);
    TokensCut(c, [e] + v);
    LessBehind(Tokens(c), Tokens([d] + u), Tokens([e] + v));
  }

  // A name comes in front of every longer one that starts with it, where no
  // number is cut.
  lemma ShorterFirst(c: bytes, u: bytes)
    requires u != [] && Cut(c, u)
    ensures Less(Tokens(c), Tokens(c + u)) && !Less(Tokens(c + u), Tokens(c))
  {
    TokensCut(c, u);
    LessBehind(Tokens(c), [], Tokens(u));
    LessBehind(Tokens(c), Tokens(u), []);
    assert Tokens(c) + [] == Tokens(c);
  }

  // ----- a strict weak order -----

  lemma {:induction false} Transitive(x: seq<Token>, y: seq<Token>, z: seq<Token>)
    requires Proper(x) && Proper(y) && Proper(z) && Less(x, y) && Less(y, z)
    ensures Less(x, z)
  {
    if x != [] && x[0] == y[0] && y[0] == z[0] { Transitive(x[1..], y[1..], z[1..]); }
  }

  // Exactly one of: first, the same tokens, last.
  lemma {:induction false} Trichotomy(x: seq<Token>, y: seq<Token>)
    requires Proper(x) && Proper(y)
    ensures !(Less(x, y) && Less(y, x))
    ensures x == y <==> !Less(x, y) && !Less(y, x)
  {
    if x != [] && y != [] {
      Trichotomy(x[1..], y[1..]);
      assert x == [x[0]] + x[1..] && y == [y[0]] + y[1..];
    }
  }

  // ----- the names that tie -----

  // Every number without leading zeros, behind one zero that marks it.
  function Canonical(s: bytes): bytes
    decreases |s|
  {
    if s == [] then []
    else if IsDigit(s[0]) then [ZERO] + TrimZeros(s[..Run(s)]) + Canonical(s[Run(s)..])
    else [s[0]] + Canonical(s[1..])
  }

  lemma CanonicalHead(s: bytes)
    ensures Canonical(s) == [] <==> s == []
    ensures s != [] ==> (IsDigit(Canonical(s)[0]) <==> IsDigit(s[0]))
  {}

  lemma MarkedRun(run: bytes, rest: bytes)
    requires Digits(run) && (rest != [] ==> !IsDigit(rest[0]))
    ensures Tokens([ZERO] + TrimZeros(run) + rest) == [Num(Number(run))] + Tokens(rest)
  {
    hide Tokens;
    var marked := [ZERO] + TrimZeros(run);
    var c, n := marked + rest, |marked|;
    assert c[0..] == c && c[0..n] == marked && c[n..] == rest && (n < |c| ==> c[n] == rest[0]);
    TokensNumber(c, 0, n);
    TrimValue(run);
    assert marked[1..] == TrimZeros(run);
  }

  lemma {:induction false} CanonicalTokens(s: bytes)
    ensures Tokens(Canonical(s)) == Tokens(s)
    decreases |s|
  {
    if s == [] {
    } else if IsDigit(s[0]) {
      var run, rest := s[..Run(s)], s[Run(s)..];
      CanonicalTokens(rest);
      CanonicalHead(rest);
      MarkedRun(run, Canonical(rest));
    } else {
      CanonicalTokens(s[1..]);
      assert Canonical(s)[1..] == Canonical(s[1..]);
    }
  }

  lemma {:induction false} SameTokens(a: bytes, b: bytes)
    requires Tokens(a) == Tokens(b)
    ensures Canonical(a) == Canonical(b)
    decreases |a|
  {
    if a != [] && b != [] {
      var x, y := Tokens(a), Tokens(b);
      var m, n := if IsDigit(a[0]) then Run(a) else 1, if IsDigit(b[0]) then Run(b) else 1;
      assert x[1..] == Tokens(a[m..]) && y[1..] == Tokens(b[n..]);
      assert x[0] == y[0];
      SameTokens(a[m..], b[n..]);
      if IsDigit(a[0]) { TrimmedOrder(a[..m], b[..n]); }
    }
  }

  // Neither of two names comes first exactly when they are equal up to leading zeros.
  lemma TiesAreZeros(a: bytes, b: bytes)
    ensures !Less(Tokens(a), Tokens(b)) && !Less(Tokens(b), Tokens(a)) <==> Canonical(a) == Canonical(b)
  {
    TokensProper(a);
    TokensProper(b);
    Trichotomy(Tokens(a), Tokens(b));
    if Canonical(a) == Canonical(b) {
      CanonicalTokens(a);
      CanonicalTokens(b);
    } else if Tokens(a) == Tokens(b) {
      SameTokens(a, b);
    }
  }

  // ----- the sort -----

  // readFragments sorts stably and descending: i stands before j.
  predicate Before(names: seq<bytes>, i: nat, j: nat)
    requires i < |names| && j < |names|
  {
    var x, y := Tokens(names[i]), Tokens(names[j]);
    Less(y, x) || (!Less(x, y) && !Less(y, x) && i < j)
  }

  predicate Ordered(names: seq<bytes>, order: seq<nat>) {
    && (forall m :: 0 <= m < |order| ==> order[m] < |names|)
    && (forall m, n :: 0 <= m < n < |order| ==> Before(names, order[m], order[n]))
  }

  lemma BeforeOne(names: seq<bytes>, i: nat, j: nat)
    requires i < |names| && j < |names|
    ensures i != j ==> (Before(names, i, j) <==> !Before(names, j, i))
    ensures !Before(names, i, i)
  {
    TokensProper(names[i]);
    TokensProper(names[j]);
    Trichotomy(Tokens(names[i]), Tokens(names[j]));
    Trichotomy(Tokens(names[i]), Tokens(names[i]));
  }

  lemma Rest(names: seq<bytes>, p: seq<nat>)
    requires Ordered(names, p) && p != []
    ensures forall i :: i in p[1..] <==> i in p && i != p[0]
  {
    BeforeOne(names, p[0], p[0]);
    assert p == [p[0]] + p[1..];
    assert forall n :: 0 < n < |p| ==> Before(names, p[0], p[n]);
  }

  // The higher number stands first: 219 in front of 88.
  lemma HighestFirst(names: seq<bytes>, order: seq<nat>, m: nat, n: nat, c: bytes, x: bytes, u: bytes, y: bytes, v: bytes)
    requires Ordered(names, order) && m < |order| && n < |order|
    requires names[order[m]] == c + (x + u) && names[order[n]] == c + (y + v)
    requires x != [] && y != [] && Digits(x) && Digits(y)
    requires (c != [] ==> !IsDigit(c[|c| - 1])) && (u != [] ==> !IsDigit(u[0])) && (v != [] ==> !IsDigit(v[0]))
    ensures Number(x) > Number(y) ==> m < n
  {
    hide Tokens, Number, Less;
    NumbersDecide(c, y, v, x, u);
    NumbersDecide(c, x, u, y, v);
    if n <= m { NotBefore(names, order, m, n); }
  }

  lemma NotBefore(names: seq<bytes>, order: seq<nat>, m: nat, n: nat)
    requires Ordered(names, order) && n <= m < |order|
    ensures !Before(names, order[m], order[n])
  {
    hide Before;
    BeforeOne(names, order[m], order[n]);
    if n < m { assert Before(names, order[n], order[m]); }
  }

  // Two stable descending orders of the same fragments are the same order.
  lemma {:induction false} OneOrder(names: seq<bytes>, p: seq<nat>, q: seq<nat>)
    requires Ordered(names, p) && Ordered(names, q)
    requires forall i :: i in p <==> i in q
    ensures p == q
    decreases |p|
  {
    assert forall i :: i in p <==> i in q;
    assert p != [] ==> p[0] in p;
    assert q != [] ==> q[0] in q;
    if p != [] {
      assert p[0] in q;
      var n: nat :| n < |q| && q[n] == p[0];
      assert q[0] in p;
      var m: nat :| m < |p| && p[m] == q[0];
      if m > 0 && n > 0 {
        assert Before(names, p[0], p[m]) && Before(names, q[0], q[n]);
        BeforeOne(names, p[0], q[0]);
      }
      Rest(names, p);
      Rest(names, q);
      assert p[0] == q[0];
      OneOrder(names, p[1..], q[1..]);
      assert p == [p[0]] + p[1..] && q == [q[0]] + q[1..];
    }
  }
}
