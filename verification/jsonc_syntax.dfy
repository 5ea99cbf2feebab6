/**
 The grammar that the parser of internal/clientconfig/jsonc.go accepts, as a
 concrete syntax tree that keeps every blank, comment and comma. Printing and
 parsing are inverse to each other, so an edit can be read as a tree edit.
 */
module JsoncSyntax {
  import opened Bytes
  import opened JsoncLex
  import opened Scalars

  datatype BoxKind = Object | Array

  datatype Cst =
    | Leaf(piece: Piece)
    | Box(kind: BoxKind, items: seq<Item>, tail: seq<Piece>)

  // lead: what stands between the previous item (or the opener) and this one,
  // the separating comma included. name: key, colon and what surrounds the
  // colon; empty in an array.
  datatype Item = Item(lead: seq<Piece>, name: seq<Piece>, val: Cst)

  datatype Doc = Doc(pre: seq<Piece>, root: Cst, post: seq<Piece>)

  datatype File = File(bom: bool, doc: Doc)

  function Opener(kind: BoxKind): Piece {
    if kind.Object? then Piece(LBrace, [LBRACE]) else Piece(LBracket, [LBRACKET])
  }

  function Closer(kind: BoxKind): Piece {
    if kind.Object? then Piece(RBrace, [RBRACE]) else Piece(RBracket, [RBRACKET])
  }

  // ----- printing -----

  function Flat(c: Cst): seq<Piece>
    decreases c, 1
  {
    match c
    case Leaf(p) => [p]
    case Box(kind, items, tail) => [Opener(kind)] + FlatItems(items) + tail + [Closer(kind)]
  }

  function FlatItems(items: seq<Item>): seq<Piece>
    decreases items, 0
  {
    if items == [] then []
    else items[0].lead + items[0].name + Flat(items[0].val) + FlatItems(items[1..])
  }

  function FlatItem(it: Item): seq<Piece> { it.lead + it.name + Flat(it.val) }

  function FlatDoc(d: Doc): seq<Piece> { d.pre + Flat(d.root) + d.post }

  function Print(f: File): bytes { BomText(f.bom) + Text(FlatDoc(f.doc)) }

  lemma {:induction false} FlatItemsConcat(a: seq<Item>, b: seq<Item>)
    ensures FlatItems(a + b) == FlatItems(a) + FlatItems(b)
  {
    if a == [] {
      assert a + b == b;
    } else {
      assert (a + b)[1..] == a[1..] + b;
      FlatItemsConcat(a[1..], b);
    }
  }

  // ----- the grammar -----

  predicate IsTrivia(p: Piece) { p.kind.Space? || p.kind.Comment? }

  function SkipTrivia(ps: seq<Piece>, j: nat): (r: nat)
    requires j <= |ps|
    ensures j <= r <= |ps|
    ensures forall k :: j <= k < r ==> IsTrivia(ps[k])
    ensures r < |ps| ==> !IsTrivia(ps[r])
    decreases |ps| - j
  {
    if j < |ps| && IsTrivia(ps[j]) then SkipTrivia(ps, j + 1) else j
  }

  function SkipSpaces(ps: seq<Piece>, j: nat): (r: nat)
    requires j <= |ps|
    ensures j <= r <= |ps|
    ensures forall k :: j <= k < r ==> ps[k].kind.Space?
    ensures r < |ps| ==> !ps[r].kind.Space?
    decreases |ps| - j
  {
    if j < |ps| && ps[j].kind.Space? then SkipSpaces(ps, j + 1) else j
  }

  predicate AllTrivia(ps: seq<Piece>) { SkipTrivia(ps, 0) == |ps| }

  // Trivia around exactly one comma.
  predicate IsSeparator(ps: seq<Piece>) {
    var k := SkipTrivia(ps, 0);
    k < |ps| && ps[k].kind.Comma? && SkipTrivia(ps, k + 1) == |ps|
  }

  // A key whose literal decodes, blanks, a colon, trivia. A comment between the
  // key and its colon is not accepted.
  predicate IsName(ps: seq<Piece>) {
    && |ps| >= 2 && ps[0].kind.Str? && Decode(ps[0].text).Some?
    && var k := SkipSpaces(ps, 1);
       k < |ps| && ps[k].kind.Colon? && SkipTrivia(ps, k + 1) == |ps|
  }

  function KeyOf(it: Item): bytes {
    if it.name != [] && Decode(it.name[0].text).Some? then Decode(it.name[0].text).value else []
  }

  function FindKey(items: seq<Item>, key: bytes): (r: Option<nat>)
    ensures r.Some? ==> r.value < |items|
  {
    if items == [] then None
    else if KeyOf(items[0]) == key then Some(0)
    else match FindKey(items[1..], key) case None => None case Some(k) => Some(k + 1)
  }

  // The first item with the key, if there is one.
  lemma {:induction false} FindKeyExact(items: seq<Item>, key: bytes)
    ensures match FindKey(items, key)
            case None => forall k :: 0 <= k < |items| ==> KeyOf(items[k]) != key
            case Some(r) => KeyOf(items[r]) == key && forall k :: 0 <= k < r ==> KeyOf(items[k]) != key
  {
    hide KeyOf;
    if items != [] {
      FindKeyExact(items[1..], key);
      assert forall n :: 1 <= n < |items| ==> items[n] == items[1..][n - 1];
    }
  }

  predicate LeadOk(items: seq<Item>, k: nat)
    requires k < |items|
  {
    if k == 0 then AllTrivia(items[k].lead) else IsSeparator(items[k].lead)
  }

  predicate NameOk(kind: BoxKind, it: Item) {
    if kind.Object? then IsName(it.name) else it.name == []
  }

  ghost predicate DistinctKeys(items: seq<Item>) {
    forall m, n :: 0 <= m < n < |items| ==> KeyOf(items[m]) != KeyOf(items[n])
  }

  ghost predicate ItemsOk(kind: BoxKind, items: seq<Item>) {
    && (forall k :: 0 <= k < |items| ==> LeadOk(items, k))
    && (forall k :: 0 <= k < |items| ==> NameOk(kind, items[k]))
    && (kind.Object? ==> DistinctKeys(items))
  }

  // One trailing comma is allowed, after at least one item.
  predicate TailOk(items: seq<Item>, tail: seq<Piece>) {
    AllTrivia(tail) || (items != [] && IsSeparator(tail))
  }

  ghost predicate WellFormed(c: Cst) {
    match c
    case Leaf(p) => p.kind.Str? || p.kind.Scalar?
    case Box(kind, items, tail) =>
      && ItemsOk(kind, items) && TailOk(items, tail)
      && forall k :: 0 <= k < |items| ==> WellFormed(items[k].val)
  }

  ghost predicate WellFormedDoc(d: Doc) {
    AllTrivia(d.pre) && WellFormed(d.root) && AllTrivia(d.post)
  }

  // ----- parsing -----

  // The value whose first piece is at j, and the index after its last piece.
  function ParseValue(ps: seq<Piece>, j: nat): (r: Option<(Cst, nat)>)
    requires j <= |ps|
    ensures r.Some? ==> j < r.value.1 <= |ps|
    decreases |ps| - j, 0
  {
    if j == |ps| then None
    else match ps[j].kind
      case LBrace => ParseItems(ps, j + 1, Object, [])
      case LBracket => ParseItems(ps, j + 1, Array, [])
      case Str => Some((Leaf(ps[j]), j + 1))
      case Scalar => Some((Leaf(ps[j]), j + 1))
      case _ => None
  }

  // Where the key's value starts, when a key that is not taken yet and a colon stand at k.
  function ParseName(ps: seq<Piece>, k: nat, acc: seq<Item>): (r: Option<nat>)
    requires k <= |ps|
    ensures r.Some? ==> k < r.value <= |ps|
  {
    if k < |ps| && ps[k].kind.Str? && Decode(ps[k].text).Some?
       && FindKey(acc, Decode(ps[k].text).value).None?
    then
      var c := SkipSpaces(ps, k + 1);
      if c < |ps| && ps[c].kind.Colon? then Some(SkipTrivia(ps, c + 1)) else None
    else None
  }

  datatype Step =
    | Close(at: nat)    // the closer is here
    | ItemAt(at: nat)   // the next item's key or value starts here
    | Missing           // no comma where one is needed

  // What follows the items read so far, from j on.
  function NextItem(ps: seq<Piece>, j: nat, kind: BoxKind, first: bool): (r: Step)
    requires j <= |ps|
    ensures r.Close? ==> j <= r.at < |ps|
    ensures r.ItemAt? ==> j <= r.at <= |ps|
  {
    var c := SkipTrivia(ps, j);
    if c < |ps| && ps[c].kind == Closer(kind).kind then Close(c)
    else if first then ItemAt(c)
    else if c == |ps| || !ps[c].kind.Comma? then Missing
    else
      var k := SkipTrivia(ps, c + 1);
      if k < |ps| && ps[k].kind == Closer(kind).kind then Close(k) else ItemAt(k)
  }

  // The rest of a box, from j on, with the items acc already read.
  function ParseItems(ps: seq<Piece>, j: nat, kind: BoxKind, acc: seq<Item>): (r: Option<(Cst, nat)>)
    requires j <= |ps|
    ensures r.Some? ==> j < r.value.1 <= |ps|
    decreases |ps| - j, 1
  {
    match NextItem(ps, j, kind, acc == [])
    case Close(c) => Some((Box(kind, acc, ps[j..c]), c + 1))
    case Missing => None
    case ItemAt(k) =>
      var v := if kind.Object? then ParseName(ps, k, acc) else Some(k);
      if v.None? then None
      else match ParseValue(ps, v.value)
        case None => None
        case Some((val, e)) => ParseItems(ps, e, kind, acc + [Item(ps[j..k], ps[k..v.value], val)])
  }

  function ParseDoc(ps: seq<Piece>): Option<Doc> {
    var j := SkipTrivia(ps, 0);
    match ParseValue(ps, j)
    case None => None
    case Some((c, e)) =>
      if SkipTrivia(ps, e) == |ps| then Some(Doc(ps[..j], c, ps[e..])) else None
  }

  function Parse(src: bytes): Option<File> {
    match Lex(src)
    case None => None
    case Some(l) =>
      match ParseDoc(l.pieces)
      case None => None
      case Some(d) => Some(File(l.bom, d))
  }

  // ----- parsing what was printed -----

  lemma SkipTriviaIs(ps: seq<Piece>, j: nat, k: nat)
    requires j <= k <= |ps|
    requires forall n :: j <= n < k ==> IsTrivia(ps[n])
    requires k < |ps| ==> !IsTrivia(ps[k])
    ensures SkipTrivia(ps, j) == k
  {
  }

  // A run of trivia inside a larger sequence is skipped as a whole.
  lemma SkipRun(ps: seq<Piece>, j: nat, x: seq<Piece>)
    requires At(ps, j, x) && AllTrivia(x)
    requires j + |x| < |ps| ==> !IsTrivia(ps[j + |x|])
    ensures SkipTrivia(ps, j) == j + |x|
  {
    forall n | j <= n < j + |x| ensures IsTrivia(ps[n]) { AtIndex(ps, j, x, n - j); }
    SkipTriviaIs(ps, j, j + |x|);
  }

  // The same for trivia around one comma; k is the comma.
  lemma SkipSeparator(ps: seq<Piece>, j: nat, x: seq<Piece>)
    requires At(ps, j, x) && IsSeparator(x)
    requires j + |x| < |ps| ==> !IsTrivia(ps[j + |x|])
    ensures var k := SkipTrivia(ps, j);
            j <= k < j + |x| && ps[k].kind.Comma? && SkipTrivia(ps, k + 1) == j + |x|
  {
    forall n | j <= n < j + |x| ensures ps[n] == x[n - j] { AtIndex(ps, j, x, n - j); }
    var c := SkipTrivia(x, 0);
    SkipTriviaIs(ps, j, j + c);
    SkipTriviaIs(ps, j + c + 1, j + |x|);
  }

  lemma NameRun(ps: seq<Piece>, j: nat, x: seq<Piece>, acc: seq<Item>)
    requires At(ps, j, x) && IsName(x) && FindKey(acc, Decode(x[0].text).value).None?
    requires j + |x| < |ps| ==> !IsTrivia(ps[j + |x|])
    ensures ParseName(ps, j, acc) == Some(j + |x|)
  {
    forall n | j <= n < j + |x| ensures ps[n] == x[n - j] { AtIndex(ps, j, x, n - j); }
    var c := SkipSpaces(x, 1);
    assert SkipSpaces(ps, j + 1) == j + c;
    SkipTriviaIs(ps, j + c + 1, j + |x|);
  }

  // No value starts with trivia, a comma, a closer or a colon.
  lemma FlatFirst(c: Cst)
    requires WellFormed(c)
    ensures Flat(c) != []
    ensures Flat(c)[0].kind in {LBrace, LBracket, Str, Scalar}
  {
  }

  lemma NextItemRun(ps: seq<Piece>, j: nat, kind: BoxKind, items: seq<Item>, n: nat)
    requires n < |items| && LeadOk(items, n) && At(ps, j, items[n].lead)
    requires j + |items[n].lead| < |ps|
    requires ps[j + |items[n].lead|].kind in {LBrace, LBracket, Str, Scalar}
    ensures NextItem(ps, j, kind, n == 0) == ItemAt(j + |items[n].lead|)
  {
    if n == 0 {
      SkipRun(ps, j, items[n].lead);
    } else {
      SkipSeparator(ps, j, items[n].lead);
    }
  }

  lemma NextItemTail(ps: seq<Piece>, j: nat, kind: BoxKind, items: seq<Item>, tail: seq<Piece>)
    requires TailOk(items, tail) && At(ps, j, tail) && At(ps, j + |tail|, [Closer(kind)])
    ensures NextItem(ps, j, kind, items == []) == Close(j + |tail|)
  {
    AtIndex(ps, j + |tail|, [Closer(kind)], 0);
    if AllTrivia(tail) {
      SkipRun(ps, j, tail);
    } else {
      SkipSeparator(ps, j, tail);
    }
  }

  lemma {:induction false} ParsePrintedValue(ps: seq<Piece>, j: nat, c: Cst)
    requires WellFormed(c) && At(ps, j, Flat(c))
    ensures ParseValue(ps, j) == Some((c, j + |Flat(c)|))
    decreases c, 2, 0
  {
    hide ParseItems, FlatItems, ItemsOk;
    AtIndex(ps, j, Flat(c), 0);
    if c.Box? {
      var inner := FlatItems(c.items) + c.tail + [Closer(c.kind)];
      assert Flat(c) == [Opener(c.kind)] + inner;
      AtConcat(ps, j, [Opener(c.kind)], inner);
      assert c.items[0..] == c.items && c.items[..0] == [];
      ParsePrintedItems(ps, j + 1, c, 0);
    }
  }

  lemma {:induction false} ParsePrintedItems(ps: seq<Piece>, j: nat, c: Cst, n: nat)
    requires WellFormed(c) && c.Box? && n <= |c.items|
    requires At(ps, j, FlatItems(c.items[n..]) + c.tail + [Closer(c.kind)])
    ensures ParseItems(ps, j, c.kind, c.items[..n])
         == Some((c, j + |FlatItems(c.items[n..])| + |c.tail| + 1))
    decreases c, 1, |c.items| - n
  {
    hide WellFormed, ParseItems, ParseValue, Flat, FlatItems, FlatItem, At, Closer;
    if n == |c.items| {
      ParsePrintedTail(ps, j, c);
    } else {
      var it, more := c.items[n], FlatItems(c.items[n + 1..]) + c.tail + [Closer(c.kind)];
      ItemsAhead(c, n);
      AtConcat(ps, j, it.lead, it.name + (Flat(it.val) + more));
      AtConcat(ps, j + |it.lead|, it.name, Flat(it.val) + more);
      AtConcat(ps, j + |it.lead| + |it.name|, Flat(it.val), more);
      ParsePrintedItem(ps, j, c, n);
      assert c.items[..n] + [it] == c.items[..n + 1];
      ParsePrintedItems(ps, j + |FlatItem(it)|, c, n + 1);
    }
  }

  lemma ItemsAhead(c: Cst, n: nat)
    requires c.Box? && n < |c.items|
    ensures var it, more := c.items[n], FlatItems(c.items[n + 1..]) + c.tail + [Closer(c.kind)];
            && FlatItems(c.items[n..]) + c.tail + [Closer(c.kind)] == it.lead + (it.name + (Flat(it.val) + more))
            && |FlatItems(c.items[n..])| == |FlatItem(it)| + |FlatItems(c.items[n + 1..])|
            && |FlatItem(it)| == |it.lead| + |it.name| + |Flat(it.val)|
  {
    hide Flat;
    assert c.items[n..][1..] == c.items[n + 1..];
  }

  lemma ParsePrintedTail(ps: seq<Piece>, j: nat, c: Cst)
    requires WellFormed(c) && c.Box?
    requires At(ps, j, FlatItems(c.items[|c.items|..]) + c.tail + [Closer(c.kind)])
    ensures ParseItems(ps, j, c.kind, c.items[..|c.items|])
         == Some((c, j + |FlatItems(c.items[|c.items|..])| + |c.tail| + 1))
  {
    hide ParseValue, ParseName, NextItem, ItemsOk, AllTrivia, IsSeparator;
    assert TailOk(c.items, c.tail);
    assert FlatItems(c.items[|c.items|..]) == [];
    hide WellFormed, FlatItems, TailOk;
    var close := [Closer(c.kind)];
    assert FlatItems(c.items[|c.items|..]) + c.tail + close == c.tail + close;
    AtConcat(ps, j, c.tail, close);
    NextItemTail(ps, j, c.kind, c.items, c.tail);
    assert c.items[..|c.items|] == c.items;
  }

  // One round of the loop reads one printed item and leaves the cursor after it.
  lemma {:induction false} ParsePrintedItem(ps: seq<Piece>, j: nat, c: Cst, n: nat)
    requires WellFormed(c) && c.Box? && n < |c.items|
    requires At(ps, j, c.items[n].lead) && At(ps, j + |c.items[n].lead|, c.items[n].name)
    requires At(ps, j + |c.items[n].lead| + |c.items[n].name|, Flat(c.items[n].val))
    ensures ParseItems(ps, j, c.kind, c.items[..n])
         == ParseItems(ps, j + |FlatItem(c.items[n])|, c.kind, c.items[..n] + [c.items[n]])
    decreases c, 0, 0
  {
    hide ParseValue, ParseItems, ParseName, NextItem, IsName, IsTrivia, KeyOf, Flat, LeadOk, DistinctKeys;
    var it, acc := c.items[n], c.items[..n];
    var k := j + |it.lead|;
    var v := k + |it.name|;
    FlatFirst(it.val);
    AtIndex(ps, v, Flat(it.val), 0);
    assert LeadOk(c.items, n) && NameOk(c.kind, it);
    if c.kind.Object? {
      assert !IsTrivia(ps[v]) by { NotTrivia(ps[v]); }
      NamePrinted(ps, k, c.items, n);
    }
    assert ps[k].kind in {LBrace, LBracket, Str, Scalar};
    NextItemRun(ps, j, c.kind, c.items, n);
    ParsePrintedValue(ps, v, it.val);
    assert ps[j..k] == it.lead && ps[k..v] == it.name && it == Item(it.lead, it.name, it.val);
    ParseRound(ps, j, c.kind, acc, k, v, it.val, v + |Flat(it.val)|);
  }

  lemma NotTrivia(p: Piece)
    requires p.kind in {LBrace, LBracket, Str, Scalar}
    ensures !IsTrivia(p)
  {}

  lemma ParseRound(ps: seq<Piece>, j: nat, kind: BoxKind, acc: seq<Item>, k: nat, v: nat, val: Cst, e: nat)
    requires j <= k <= v <= |ps| && NextItem(ps, j, kind, acc == []) == ItemAt(k)
    requires (if kind.Object? then ParseName(ps, k, acc) else Some(k)) == Some(v)
    requires ParseValue(ps, v) == Some((val, e))
    ensures ParseItems(ps, j, kind, acc) == ParseItems(ps, e, kind, acc + [Item(ps[j..k], ps[k..v], val)])
  {
    hide ParseValue, ParseName, NextItem;
  }

  lemma NamePrinted(ps: seq<Piece>, k: nat, items: seq<Item>, n: nat)
    requires n < |items| && DistinctKeys(items) && IsName(items[n].name)
    requires At(ps, k, items[n].name)
    requires k + |items[n].name| < |ps| && !IsTrivia(ps[k + |items[n].name|])
    ensures ps[k].kind.Str? && ParseName(ps, k, items[..n]) == Some(k + |items[n].name|)
  {
    hide Decode;
    AtIndex(ps, k, items[n].name, 0);
    FindKeyExact(items[..n], KeyOf(items[n]));
    NameRun(ps, k, items[n].name, items[..n]);
  }

  // ----- printing what was parsed -----

  ghost predicate Valid(ps: seq<Piece>) { forall k :: 0 <= k < |ps| ==> ValidPiece(ps[k]) }

  // What a successful parse at j with end e says about the tree it returns.
  ghost predicate Printed(ps: seq<Piece>, j: nat, c: Cst, e: nat) {
    WellFormed(c) && At(ps, j, Flat(c)) && e == j + |Flat(c)|
  }

  ghost predicate PrintedRest(ps: seq<Piece>, j: nat, kind: BoxKind, acc: seq<Item>, c: Cst, e: nat) {
    && c.Box? && c.kind == kind && WellFormed(c) && acc <= c.items
    && var rest := FlatItems(c.items[|acc|..]) + c.tail + [Closer(kind)];
       At(ps, j, rest) && e == j + |rest|
  }

  ghost predicate AccOk(kind: BoxKind, acc: seq<Item>) {
    ItemsOk(kind, acc) && forall k :: 0 <= k < |acc| ==> WellFormed(acc[k].val)
  }

  lemma BracketPiece(ps: seq<Piece>, j: nat, p: Piece)
    requires Valid(ps) && j < |ps| && ps[j].kind == p.kind && p.kind in {LBrace, RBrace, LBracket, RBracket}
    requires ValidPiece(p)
    ensures At(ps, j, [p])
  {
    assert ValidPiece(ps[j]);
    assert ps[j..j + 1] == [ps[j]];
  }

  lemma BracketsValid(kind: BoxKind)
    ensures ValidPiece(Opener(kind)) && ValidPiece(Closer(kind))
  {
  }

  lemma SliceTrivia(ps: seq<Piece>, j: nat, k: nat)
    requires j <= k <= |ps| && forall n :: j <= n < k ==> IsTrivia(ps[n])
    ensures AllTrivia(ps[j..k])
  {
    assert forall n :: 0 <= n < k - j ==> ps[j..k][n] == ps[j + n];
    SkipTriviaIs(ps[j..k], 0, k - j);
  }

  lemma SliceSeparator(ps: seq<Piece>, j: nat, m: nat, k: nat)
    requires j <= m < k <= |ps| && ps[m].kind.Comma?
    requires forall n :: j <= n < k && n != m ==> IsTrivia(ps[n])
    ensures IsSeparator(ps[j..k])
  {
    assert forall n :: 0 <= n < k - j ==> ps[j..k][n] == ps[j + n];
    SkipTriviaIs(ps[j..k], 0, m - j);
    SkipTriviaIs(ps[j..k], m - j + 1, k - j);
  }

  // The pieces skipped before an item or a closer are trivia, with one comma
  // unless this is the first.
  lemma NextItemSkips(ps: seq<Piece>, j: nat, kind: BoxKind, first: bool)
    requires j <= |ps|
    ensures match NextItem(ps, j, kind, first)
            case Missing => true
            case Close(c) => ps[c].kind == Closer(kind).kind
                             && (AllTrivia(ps[j..c]) || (!first && IsSeparator(ps[j..c])))
            case ItemAt(k) => if first then AllTrivia(ps[j..k]) else IsSeparator(ps[j..k])
  {
    hide AllTrivia, IsSeparator;
    var c := SkipTrivia(ps, j);
    SliceTrivia(ps, j, c);
    if c < |ps| && ps[c].kind.Comma? {
      SliceSeparator(ps, j, c, SkipTrivia(ps, c + 1));
    }
  }

  lemma NameSound(ps: seq<Piece>, k: nat, acc: seq<Item>, it: Item)
    requires k <= |ps| && ParseName(ps, k, acc).Some? && it.name == ps[k..ParseName(ps, k, acc).value]
    ensures IsName(it.name)
    ensures forall n :: 0 <= n < |acc| ==> KeyOf(acc[n]) != KeyOf(it)
  {
    hide Decode;
    var c := SkipSpaces(ps, k + 1);
    var v := SkipTrivia(ps, c + 1);
    NameShape(ps, k, c, v);
    hide IsName, SkipSpaces, SkipTrivia;
    FindKeyExact(acc, Decode(ps[k].text).value);
  }

  lemma NameShape(ps: seq<Piece>, k: nat, c: nat, v: nat)
    requires k < c < v <= |ps| && ps[k].kind.Str? && Decode(ps[k].text).Some? && ps[c].kind.Colon?
    requires forall n :: k < n < c ==> ps[n].kind.Space?
    requires forall n :: c < n < v ==> IsTrivia(ps[n])
    ensures IsName(ps[k..v])
  {
    hide Decode;
    var name := ps[k..v];
    assert forall n :: 0 <= n < v - k ==> name[n] == ps[k + n];
    SkipSpacesIs(name, 1, c - k);
    SkipTriviaIs(name, c - k + 1, v - k);
  }

  lemma {:induction false} SkipSpacesIs(ps: seq<Piece>, j: nat, k: nat)
    requires j <= k <= |ps| && (k < |ps| ==> !ps[k].kind.Space?)
    requires forall n :: j <= n < k ==> ps[n].kind.Space?
    ensures SkipSpaces(ps, j) == k
    decreases k - j
  {
    if j < k { SkipSpacesIs(ps, j + 1, k); }
  }

  lemma CloseSound(ps: seq<Piece>, j: nat, kind: BoxKind, acc: seq<Item>)
    requires j <= |ps| && Valid(ps) && AccOk(kind, acc) && NextItem(ps, j, kind, acc == []).Close?
    ensures var c := NextItem(ps, j, kind, acc == []).at;
            PrintedRest(ps, j, kind, acc, Box(kind, acc, ps[j..c]), c + 1)
  {
    hide ValidPiece, ItemsOk, NextItem;
    var c := NextItem(ps, j, kind, acc == []).at;
    NextItemSkips(ps, j, kind, acc == []);
    BracketsValid(kind);
    BracketPiece(ps, c, Closer(kind));
    AtConcat(ps, j, ps[j..c], [Closer(kind)]);
    assert FlatItems(acc[|acc|..]) + ps[j..c] + [Closer(kind)] == ps[j..c] + [Closer(kind)];
    assert TailOk(acc, ps[j..c]);
  }

  lemma ItemSound(ps: seq<Piece>, j: nat, kind: BoxKind, acc: seq<Item>, k: nat, v: nat, val: Cst, e: nat)
    requires j <= |ps| && AccOk(kind, acc) && NextItem(ps, j, kind, acc == []) == ItemAt(k)
    requires v <= |ps| && if kind.Object? then ParseName(ps, k, acc) == Some(v) else v == k
    requires Printed(ps, v, val, e)
    ensures var it := Item(ps[j..k], ps[k..v], val);
            AccOk(kind, acc + [it]) && At(ps, j, FlatItem(it)) && e == j + |FlatItem(it)|
  {
    hide NextItem, ParseName, WellFormed, Flat, IsSeparator, IsName, AllTrivia, KeyOf;
    var it := Item(ps[j..k], ps[k..v], val);
    NextItemSkips(ps, j, kind, acc == []);
    var items := acc + [it];
    forall n | 0 <= n < |items| ensures LeadOk(items, n) {
      if n < |acc| { assert LeadOk(acc, n); }
    }
    if kind.Object? {
      NameSound(ps, k, acc, it);
    }
    assert ps[j..k] + ps[k..v] == ps[j..v];
    AtConcat(ps, j, ps[j..v], Flat(val));
  }

  lemma ItemJoins(ps: seq<Piece>, j: nat, kind: BoxKind, acc: seq<Item>, it: Item, c: Cst, e: nat)
    requires At(ps, j, FlatItem(it))
    requires PrintedRest(ps, j + |FlatItem(it)|, kind, acc + [it], c, e)
    ensures PrintedRest(ps, j, kind, acc, c, e)
  {
    hide WellFormed, Flat;
    var n := |acc|;
    assert c.items[n] == it by { assert (acc + [it])[n] == it; }
    assert c.items[n..][1..] == c.items[n + 1..];
    var rest := FlatItems(c.items[n + 1..]) + c.tail + [Closer(kind)];
    assert FlatItems(c.items[n..]) + c.tail + [Closer(kind)] == FlatItem(it) + rest;
    AtConcat(ps, j, FlatItem(it), rest);
  }

  lemma LeafPrinted(ps: seq<Piece>, j: nat)
    requires j < |ps| && (ps[j].kind.Str? || ps[j].kind.Scalar?)
    ensures Printed(ps, j, Leaf(ps[j]), j + 1)
  {
    assert ps[j..j + 1] == [ps[j]];
  }

  lemma BoxPrinted(ps: seq<Piece>, j: nat, kind: BoxKind, c: Cst, e: nat)
    requires Valid(ps) && j < |ps| && ps[j].kind == Opener(kind).kind
    requires PrintedRest(ps, j + 1, kind, [], c, e)
    ensures Printed(ps, j, c, e)
  {
    hide WellFormed, FlatItems, ValidPiece, Valid;
    assert c.items[0..] == c.items;
    BracketsValid(kind);
    BracketPiece(ps, j, Opener(kind));
    var rest := FlatItems(c.items) + c.tail + [Closer(kind)];
    AtConcat(ps, j, [Opener(kind)], rest);
    assert Flat(c) == [Opener(kind)] + rest;
  }

  lemma {:induction false} ParseValueSound(ps: seq<Piece>, j: nat)
    requires j <= |ps| && Valid(ps)
    ensures ParseValue(ps, j).Some? ==> Printed(ps, j, ParseValue(ps, j).value.0, ParseValue(ps, j).value.1)
    decreases |ps| - j, 0
  {
    hide ParseItems, WellFormed, Printed, PrintedRest, Valid;
    if j < |ps| && ParseValue(ps, j).Some? {
      if ps[j].kind.Str? || ps[j].kind.Scalar? {
        LeafPrinted(ps, j);
      } else {
        var kind := if ps[j].kind.LBrace? then Object else Array;
        var (c, e) := ParseItems(ps, j + 1, kind, []).value;
        ParseItemsSound(ps, j + 1, kind, []);
        BoxPrinted(ps, j, kind, c, e);
      }
    }
  }

  lemma {:induction false} ParseItemsSound(ps: seq<Piece>, j: nat, kind: BoxKind, acc: seq<Item>)
    requires j <= |ps| && Valid(ps) && AccOk(kind, acc)
    ensures ParseItems(ps, j, kind, acc).Some? ==>
            PrintedRest(ps, j, kind, acc, ParseItems(ps, j, kind, acc).value.0, ParseItems(ps, j, kind, acc).value.1)
    decreases |ps| - j, 1
  {
    hide ParseValue, ParseName, NextItem, WellFormed, AccOk;
    if ParseItems(ps, j, kind, acc).Some? {
      match NextItem(ps, j, kind, acc == [])
      case Close(c) => CloseSound(ps, j, kind, acc);
      case ItemAt(k) =>
        var v := if kind.Object? then ParseName(ps, k, acc).value else k;
        var (val, e) := ParseValue(ps, v).value;
        var it := Item(ps[j..k], ps[k..v], val);
        ParseValueSound(ps, v);
        ItemSound(ps, j, kind, acc, k, v, val, e);
        ParseItemsSound(ps, e, kind, acc + [it]);
        var rest := ParseItems(ps, e, kind, acc + [it]).value;
        ItemJoins(ps, j, kind, acc, it, rest.0, rest.1);
    }
  }

  // ----- the main result -----

  lemma DocSound(ps: seq<Piece>)
    requires Valid(ps) && ParseDoc(ps).Some?
    ensures WellFormedDoc(ParseDoc(ps).value) && ps == FlatDoc(ParseDoc(ps).value)
  {
    hide ParseValue, WellFormed, Flat, ValidPiece;
    var j := SkipTrivia(ps, 0);
    ParseValueSound(ps, j);
    var (c, e) := ParseValue(ps, j).value;
    SliceTrivia(ps, 0, j);
    SliceTrivia(ps, e, |ps|);
    assert ps == ps[..j] + ps[j..e] + ps[e..];
  }

  lemma DocComplete(ps: seq<Piece>, d: Doc)
    requires WellFormedDoc(d) && ps == FlatDoc(d)
    ensures ParseDoc(ps) == Some(d)
  {
    hide ParseValue, WellFormed, Flat, SkipTrivia;
    var j := |d.pre|;
    var e := j + |Flat(d.root)|;
    assert ps[..j] == d.pre && ps[j..e] == Flat(d.root) && ps[e..] == d.post;
    FlatFirst(d.root);
    AtIndex(ps, j, Flat(d.root), 0);
    SkipRun(ps, 0, d.pre);
    ParsePrintedValue(ps, j, d.root);
    SkipRun(ps, e, d.post);
  }

  // A tree that a source file can have: it obeys the grammar, and its pieces
  // stay apart when they are printed one after the other.
  ghost predicate Sound(f: File) { WellFormedDoc(f.doc) && Lexical(FlatDoc(f.doc)) }

  // Parsing and printing are inverse: every byte of the source is in the tree.
  lemma ParseExact(src: bytes, f: File)
    ensures Parse(src) == Some(f) <==> Sound(f) && src == Print(f)
  {
    hide ParseDoc, WellFormedDoc, FlatDoc, ValidPiece, Lex;
    if Lex(src).Some? {
      var l := Lex(src).value;
      LexExact(src, l);
      if ParseDoc(l.pieces).Some? { DocSound(l.pieces); }
    }
    if Sound(f) && src == Print(f) {
      LexExact(src, Lexed(f.bom, FlatDoc(f.doc)));
      DocComplete(FlatDoc(f.doc), f.doc);
    }
  }
}
