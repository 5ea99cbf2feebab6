/**
 The recursive-descent parser as the source runs it: a cursor over the token
 list and a tree of token indices (internal/clientconfig/jsonc.go). Every
 method is proved against the parse function of JsoncSyntax.
 */
module JsoncParser {
  import opened Bytes
  import opened JsoncLex
  import opened JsoncLexer
  import opened Scalars
  import opened JsoncSyntax

  datatype NodeMember = NodeMember(key: bytes, keyTok: nat, val: Node)

  // kind is that of the opening token; closeTok is used by containers only.
  datatype Node = Node(
    kind: Kind,
    tok: nat,
    closeTok: nat,
    members: seq<NodeMember>,
    elems: seq<Node>,
    trailing: bool)
  {
    predicate IsContainer() { kind.LBrace? || kind.LBracket? }
  }

  // The node of a tree whose first token has index k.
  function ToNode(c: Cst, k: nat): Node
    decreases c, 1
  {
    match c
    case Leaf(p) => Node(p.kind, k, 0, [], [], false)
    case Box(Object, items, tail) =>
      Node(LBrace, k, k + 1 + Count(FlatItems(items)) + Count(tail), ToMembers(items, k + 1), [], !AllTrivia(tail))
    case Box(Array, items, tail) =>
      Node(LBracket, k, k + 1 + Count(FlatItems(items)) + Count(tail), [], ToElems(items, k + 1), !AllTrivia(tail))
  }

  // Token indices of the key and the value of an item that starts at k.
  function KeyTok(it: Item, k: nat): nat { k + Count(it.lead) }
  function ValTok(it: Item, k: nat): nat { k + Count(it.lead) + Count(it.name) }
  function NextTok(it: Item, k: nat): nat { ValTok(it, k) + Count(Flat(it.val)) }

  function ToMembers(items: seq<Item>, k: nat): seq<NodeMember>
    decreases items, 0
  {
    if items == [] then []
    else
      [NodeMember(KeyOf(items[0]), KeyTok(items[0], k), ToNode(items[0].val, ValTok(items[0], k)))]
      + ToMembers(items[1..], NextTok(items[0], k))
  }

  function ToElems(items: seq<Item>, k: nat): seq<Node>
    decreases items, 0
  {
    if items == [] then []
    else [ToNode(items[0].val, ValTok(items[0], k))] + ToElems(items[1..], NextTok(items[0], k))
  }

  lemma CountItem(it: Item, rest: seq<Item>)
    ensures Count(FlatItems([it] + rest)) == Count(it.lead) + Count(it.name) + Count(Flat(it.val)) + Count(FlatItems(rest))
  {
    assert ([it] + rest)[1..] == rest;
    CountConcat(it.lead + it.name + Flat(it.val), FlatItems(rest));
    CountConcat(it.lead + it.name, Flat(it.val));
    CountConcat(it.lead, it.name);
  }

  lemma {:induction false} ToMembersAppend(items: seq<Item>, it: Item, k: nat)
    ensures var n := k + Count(FlatItems(items));
            (ToMembers(items + [it], k)
              == ToMembers(items, k) + [NodeMember(KeyOf(it), KeyTok(it, n), ToNode(it.val, ValTok(it, n)))])
  {
    hide KeyOf, ToNode, Flat;
    if items == [] {
      assert [] + [it] == [it];
    } else {
      var rest := items[1..];
      assert (items + [it])[1..] == rest + [it];
      assert items == [items[0]] + rest;
      CountItem(items[0], rest);
      ToMembersAppend(rest, it, NextTok(items[0], k));
    }
  }

  lemma {:induction false} ToElemsAppend(items: seq<Item>, it: Item, k: nat)
    ensures ToElems(items + [it], k)
         == ToElems(items, k) + [ToNode(it.val, ValTok(it, k + Count(FlatItems(items))))]
  {
    hide KeyOf, ToNode, Flat;
    if items == [] {
      assert [] + [it] == [it];
    } else {
      var rest := items[1..];
      assert (items + [it])[1..] == rest + [it];
      assert items == [items[0]] + rest;
      CountItem(items[0], rest);
      ToElemsAppend(rest, it, NextTok(items[0], k));
    }
  }

  // ----- pieces and tokens -----

  // The number of tokens in front of piece j.
  function Rank(ps: seq<Piece>, j: nat): nat
    requires j <= |ps|
  {
    Count(ps[..j])
  }

  lemma RankSlice(ps: seq<Piece>, j: nat, k: nat)
    requires j <= k <= |ps|
    ensures Rank(ps, k) == Rank(ps, j) + Count(ps[j..k])
  {
    assert ps[..k] == ps[..j] + ps[j..k];
    CountConcat(ps[..j], ps[j..k]);
  }

  lemma RankStep(ps: seq<Piece>, j: nat)
    requires j < |ps|
    ensures Rank(ps, j + 1) == Rank(ps, j) + if ps[j].kind.Space? then 0 else 1
  {
    RankSlice(ps, j, j + 1);
    assert ps[j..j + 1] == [ps[j]];
  }

  lemma {:induction false} RankSpaces(ps: seq<Piece>, j: nat)
    requires j <= |ps|
    ensures Rank(ps, SkipSpaces(ps, j)) == Rank(ps, j)
    decreases |ps| - j
  {
    if j < |ps| && ps[j].kind.Space? {
      RankStep(ps, j);
      RankSpaces(ps, j + 1);
    }
  }

  // The next token at or after piece j, if there is one, is that of the next
  // piece that is not a blank.
  lemma TokenAhead(ps: seq<Piece>, base: nat, j: nat)
    requires j <= |ps|
    ensures var n := SkipSpaces(ps, j);
            if n == |ps| then Rank(ps, j) == |Toks(ps, base)|
            else
              && Rank(ps, j) < |Toks(ps, base)|
              && Toks(ps, base)[Rank(ps, j)] == Tok(ps[n].kind, base + |Text(ps[..n])|, |ps[n].text|)
  {
    var n := SkipSpaces(ps, j);
    RankSpaces(ps, j);
    if n == |ps| {
      assert ps[..n] == ps;
      ToksCount(ps, base);
    } else {
      assert ps == ps[..n] + [ps[n]] + ps[n + 1..];
      TokAt(ps[..n], ps[n], ps[n + 1..], base);
    }
  }

  lemma {:induction false} SkipTriviaStep(ps: seq<Piece>, j: nat)
    requires j <= |ps|
    ensures var n := SkipSpaces(ps, j);
            && SkipTrivia(ps, n) == SkipTrivia(ps, j)
            && (n < |ps| && ps[n].kind.Comment? ==> SkipTrivia(ps, n + 1) == SkipTrivia(ps, n))
            && (n == |ps| || !ps[n].kind.Comment? ==> SkipTrivia(ps, n) == n)
    decreases |ps| - j
  {
    if j < |ps| && ps[j].kind.Space? { SkipTriviaStep(ps, j + 1); }
  }

  lemma NoSpaces(ps: seq<Piece>, j: nat)
    requires j <= |ps| && (j < |ps| ==> !ps[j].kind.Space?)
    ensures SkipSpaces(ps, j) == j
  {
  }

  lemma PieceText(ps: seq<Piece>, k: nat)
    requires k < |ps|
    ensures var m := |Text(ps[..k])|;
            m + |ps[k].text| <= |Text(ps)| && Text(ps)[m..m + |ps[k].text|] == ps[k].text
  {
    assert ps == ps[..k] + [ps[k]] + ps[k + 1..];
    TextConcat(ps[..k] + [ps[k]], ps[k + 1..]);
    TextConcat(ps[..k], [ps[k]]);
    assert Text([ps[k]]) == ps[k].text;
  }

  lemma SliceShifted(a: bytes, b: bytes, m: nat, n: nat)
    requires m <= n <= |b|
    ensures (a + b)[|a| + m..|a| + n] == b[m..n]
  {
    forall k | 0 <= k < n - m ensures (a + b)[|a| + m..|a| + n][k] == b[m..n][k] {}
  }

  datatype EntryStep = Closed(trailing: bool) | Proceed | NoComma

  class JsonParser {
    const src: bytes
    const toks: seq<Tok>
    var i: nat
    ghost const ps: seq<Piece>

    // The token list is that of the pieces ps, which make up src after its byte
    // order mark.
    ghost predicate Valid() {
      && toks == Toks(ps, BomLen(src))
      && src == src[..BomLen(src)] + Text(ps)
    }

    constructor (src: bytes, toks: seq<Tok>, ghost ps: seq<Piece>)
      requires toks == Toks(ps, BomLen(src)) && src == src[..BomLen(src)] + Text(ps)
      ensures Valid() && i == 0 && this.ps == ps && this.src == src && this.toks == toks
    {
      this.src, this.toks, this.ps, i := src, toks, ps, 0;
    }

    // The cursor stands at the first token that is not in front of piece j.
    ghost predicate AtPiece(j: nat)
      reads this`i
    {
      Valid() && j <= |ps| && i == Rank(ps, j)
    }

    predicate Sees(k: Kind)
      reads this`i
    {
      i < |toks| && toks[i].kind == k
    }

    lemma SeesExact(j: nat, k: Kind)
      requires AtPiece(j)
      ensures var n := SkipSpaces(ps, j); Sees(k) <==> n < |ps| && ps[n].kind == k
    {
      TokenAhead(ps, BomLen(src), j);
    }

    lemma TokText(k: nat)
      requires AtPiece(k) && k < |ps| && !ps[k].kind.Space?
      ensures i < |toks| && toks[i].End() <= |src| && src[toks[i].off..toks[i].End()] == ps[k].text
    {
      hide Toks, Text, Rank, SkipSpaces;
      TokenAhead(ps, BomLen(src), k);
      NoSpaces(ps, k);
      PieceText(ps, k);
      var m, n := |Text(ps[..k])|, |ps[k].text|;
      SliceShifted(src[..BomLen(src)], Text(ps), m, m + n);
    }

    method SkipComments(ghost j: nat)
      requires AtPiece(j)
      modifies this`i
      ensures AtPiece(SkipTrivia(ps, j))
    {
      hide Count, Toks, Text, Rank, SkipTrivia, SkipSpaces;
      ghost var m := SkipSpaces(ps, j);
      SkipTriviaStep(ps, j);
      RankSpaces(ps, j);
      while i < |toks| && toks[i].kind == Comment
        invariant AtPiece(m) && (m < |ps| ==> !ps[m].kind.Space?)
        invariant SkipTrivia(ps, m) == SkipTrivia(ps, j)
        decreases |ps| - m
      {
        SeesExact(m, Comment);
        NoSpaces(ps, m);
        CommentStep(ps, m);
        i := i + 1;
        m := SkipSpaces(ps, m + 1);
      }
      SeesExact(m, Comment);
      NoSpaces(ps, m);
      SkipTriviaStep(ps, m);
    }

    // What parsing the value at piece j leaves behind.
    ghost predicate Parsed(j: nat, k: nat, r: Option<Node>)
      requires j <= |ps|
      reads this`i
    {
      match ParseValue(ps, j)
      case None => r.None?
      case Some((c, e)) => r == Some(ToNode(c, k)) && AtPiece(e) && i == k + Count(Flat(c))
    }

    method ParseValueNode(ghost j: nat) returns (r: Option<Node>)
      requires AtPiece(j) && (j < |ps| ==> !ps[j].kind.Space?)
      modifies this`i
      ensures Parsed(j, old(i), r)
      decreases |ps| - j, 1
    {
      hide Toks, Text, ParseItems;
      NoSpaces(ps, j);
      SeesExact(j, LBrace);
      SeesExact(j, LBracket);
      SeesExact(j, Str);
      SeesExact(j, Scalar);
      if Sees(LBrace) {
        r := ParseObject(j);
      } else if Sees(LBracket) {
        r := ParseArray(j);
      } else if Sees(Str) || Sees(Scalar) {
        var t := toks[i];
        i := i + 1;
        RankStep(ps, j);
        LeafCount(ps[j]);
        r := Some(Node(t.kind, i - 1, 0, [], [], false));
      } else {
        r := None;
      }
    }

    // The items acc of the box at token k have been read; piece j comes next.
    ghost predicate Reading(j: nat, k: nat, acc: seq<Item>)
      reads this`i
    {
      AtPiece(j) && i == k + 1 + Count(FlatItems(acc))
    }

    // The head of the item loop of parseObject and parseArray: comments, the
    // closing bracket, the comma after the first item, a trailing comma. On
    // Closed the cursor stands at the closing bracket.
    method NextEntry(kind: BoxKind, first: bool, ghost p: nat) returns (s: EntryStep)
      requires AtPiece(p)
      modifies this`i
      ensures match NextItem(ps, p, kind, first)
              case Missing => s == NoComma
              case Close(c) => s == Closed(!AllTrivia(ps[p..c])) && AtPiece(c)
              case ItemAt(k) => s == Proceed && AtPiece(k) && (k < |ps| ==> !IsTrivia(ps[k]))
    {
      hide Toks, Text, Count, Rank;
      SkipComments(p);
      ghost var c := SkipTrivia(ps, p);
      NoSpaces(ps, c);
      SliceTrivia(ps, p, c);
      SeesExact(c, Closer(kind).kind);
      SeesExact(c, Comma);
      if Sees(Closer(kind).kind) { return Closed(false); }
      if !first {
        if !Sees(Comma) { return NoComma; }
        RankStep(ps, c);
        i := i + 1;
        SkipComments(c + 1);
        ghost var k := SkipTrivia(ps, c + 1);
        NoSpaces(ps, k);
        CommaInside(ps, p, c, k);
        SeesExact(k, Closer(kind).kind);
        if Sees(Closer(kind).kind) { return Closed(true); }
      }
      return Proceed;
    }

    // A key that is not in seen, and its colon: the decoded key, with the cursor
    // at the value.
    method ReadKey(seen: set<bytes>, ghost k: nat, ghost acc: seq<Item>) returns (r: Option<bytes>)
      requires AtPiece(k) && (k < |ps| ==> !IsTrivia(ps[k]))
      requires forall key :: key in seen <==> FindKey(acc, key).Some?
      modifies this`i
      ensures match ParseName(ps, k, acc)
              case None => r.None?
              case Some(v) => r.Some? && r == Decode(ps[k].text) && AtPiece(v) && (v < |ps| ==> !IsTrivia(ps[v]))
    {
      hide Toks, Text, Count, Rank, Decode, FindKey, ParseName;
      NoSpaces(ps, k);
      NameUnfold(ps, k, acc);
      SeesExact(k, Str);
      if !Sees(Str) { return None; }
      TokText(k);
      var key := Decode(src[toks[i].off..toks[i].End()]);
      if key.None? || key.value in seen { return None; }
      RankStep(ps, k);
      i := i + 1;
      SeesExact(k + 1, Colon);
      if !Sees(Colon) { return None; }
      ghost var d := SkipSpaces(ps, k + 1);
      RankSpaces(ps, k + 1);
      RankStep(ps, d);
      i := i + 1;
      SkipComments(d + 1);
      return key;
    }

    method ParseObject(ghost j: nat) returns (r: Option<Node>)
      requires AtPiece(j) && j < |ps| && ps[j].kind == LBrace
      modifies this`i
      ensures Parsed(j, old(i), r)
      decreases |ps| - j, 0
    {
      hide Toks, Text, ParseItems, ParseValue, ParseName, Count, Rank, ToNode, ToMembers, ToElems, Decode, KeyOf, FindKey, NextItem, Flat, FlatItems, AllTrivia, SkipTrivia;
      var tok := i;
      ghost var p, acc: seq<Item> := j + 1, [];
      RankStep(ps, j);
      BoxStart(ps, j, tok);
      i := i + 1;
      var members: seq<NodeMember> := [];
      var seen: set<bytes> := {};
      while true
        invariant j < p && Reading(p, tok, acc)
        invariant ParseValue(ps, j) == ParseItems(ps, p, Object, acc)
        invariant members == ToMembers(acc, tok + 1) && |members| == |acc|
        invariant forall key :: key in seen <==> FindKey(acc, key).Some?
        decreases |ps| - p
      {
        var step := NextEntry(Object, |members| == 0, p);
        if step.Closed? {
          r := Some(Node(LBrace, tok, i, members, [], step.trailing));
          CloseAt(ps, p, Object, acc, tok, NextItem(ps, p, Object, acc == []).at);
          i := i + 1;
          return;
        }
        if step.NoComma? {
          StepMissing(ps, p, Object, acc);
          return None;
        }
        ghost var k := NextItem(ps, p, Object, acc == []).at;
        var keyTok := i;
        var key := ReadKey(seen, k, acc);
        if key.None? {
          ItemNone(ps, p, Object, acc, k);
          return None;
        }
        ghost var v := ParseName(ps, k, acc).value;
        var val := ParseValueNode(v);
        if val.None? {
          ItemNone(ps, p, Object, acc, k);
          return None;
        }
        ghost var it, e := ItemSome(ps, p, Object, acc, k, v, tok);
        NameKey(ps, k, v, it);
        SeenStep(acc, it, seen);
        members := members + [NodeMember(key.value, keyTok, val.value)];
        seen := seen + {key.value};
        p, acc := e, acc + [it];
      }
    }

    method ParseArray(ghost j: nat) returns (r: Option<Node>)
      requires AtPiece(j) && j < |ps| && ps[j].kind == LBracket
      modifies this`i
      ensures Parsed(j, old(i), r)
      decreases |ps| - j, 0
    {
      hide Toks, Text, ParseItems, ParseValue, ParseName, Count, Rank, ToNode, ToMembers, ToElems, Decode, KeyOf, FindKey, NextItem, Flat, FlatItems, AllTrivia, SkipTrivia;
      var tok := i;
      ghost var p, acc: seq<Item> := j + 1, [];
      RankStep(ps, j);
      BoxStart(ps, j, tok);
      i := i + 1;
      var elems: seq<Node> := [];
      while true
        invariant j < p && Reading(p, tok, acc)
        invariant ParseValue(ps, j) == ParseItems(ps, p, Array, acc)
        invariant elems == ToElems(acc, tok + 1) && |elems| == |acc|
        decreases |ps| - p
      {
        var step := NextEntry(Array, |elems| == 0, p);
        if step.Closed? {
          r := Some(Node(LBracket, tok, i, [], elems, step.trailing));
          CloseAt(ps, p, Array, acc, tok, NextItem(ps, p, Array, acc == []).at);
          i := i + 1;
          return;
        }
        if step.NoComma? {
          StepMissing(ps, p, Array, acc);
          return None;
        }
        ghost var k := NextItem(ps, p, Array, acc == []).at;
        var val := ParseValueNode(k);
        if val.None? {
          ItemNone(ps, p, Array, acc, k);
          return None;
        }
        ghost var it, e := ItemSome(ps, p, Array, acc, k, k, tok);
        elems := elems + [val.value];
        p, acc := e, acc + [it];
      }
    }

    method ParseDocNode() returns (r: Result<Node>)
      requires Valid() && i == 0
      modifies this`i
      ensures match ParseDoc(ps)
              case None => r == Err(ParseFailure)
              case Some(d) => r == Ok(ToNode(d.root, Count(d.pre)))
    {
      hide Toks, Text, ParseValue, ToNode, Count;
      RankZero(ps);
      SkipComments(0);
      ghost var j := SkipTrivia(ps, 0);
      NoSpaces(ps, j);
      TokenAhead(ps, BomLen(src), j);
      if i >= |toks| {
        return Err(ParseFailure);
      }
      assert j < |ps|;
      var n := ParseValueNode(j);
      if n.None? { return Err(ParseFailure); }
      ghost var e := ParseValue(ps, j).value.1;
      SkipComments(e);
      ghost var m := SkipTrivia(ps, e);
      NoSpaces(ps, m);
      TokenAhead(ps, BomLen(src), m);
      if i != |toks| { return Err(ParseFailure); }
      return Ok(n.value);
    }
  }

  // ----- one round of the item loop, as the parse function sees it -----

  lemma BoxStart(ps: seq<Piece>, j: nat, tok: nat)
    requires j < |ps| && ps[j].kind in {LBrace, LBracket}
    ensures ParseValue(ps, j) == ParseItems(ps, j + 1, if ps[j].kind.LBrace? then Object else Array, [])
    ensures ToMembers([], tok + 1) == [] && ToElems([], tok + 1) == [] && Count(FlatItems([])) == 0
    ensures forall key :: FindKey([], key).None?
  {
    hide ParseItems;
  }

  lemma CommaInside(ps: seq<Piece>, j: nat, c: nat, k: nat)
    requires j <= c < k <= |ps| && ps[c].kind.Comma?
    ensures !AllTrivia(ps[j..k])
  {
    assert ps[j..k][c - j] == ps[c];
  }

  lemma CloseAt(ps: seq<Piece>, p: nat, kind: BoxKind, acc: seq<Item>, tok: nat, c: nat)
    requires p <= |ps| && NextItem(ps, p, kind, acc == []) == Close(c)
    requires Rank(ps, p) == tok + 1 + Count(FlatItems(acc))
    ensures var box := Box(kind, acc, ps[p..c]);
            && ParseItems(ps, p, kind, acc) == Some((box, c + 1))
            && tok + Count(Flat(box)) == Rank(ps, c) + 1 == Rank(ps, c + 1)
            && ToNode(box, tok) == Node(Opener(kind).kind, tok, Rank(ps, c),
                 if kind.Object? then ToMembers(acc, tok + 1) else [],
                 if kind.Object? then [] else ToElems(acc, tok + 1), !AllTrivia(ps[p..c]))
  {
    hide ParseValue, ParseName, NextItem, KeyOf, AllTrivia;
    var tail := ps[p..c];
    NextItemSkips(ps, p, kind, acc == []);
    RankStep(ps, c);
    RankSlice(ps, p, c);
    CountConcat([Opener(kind)] + FlatItems(acc) + tail, [Closer(kind)]);
    CountConcat([Opener(kind)] + FlatItems(acc), tail);
    CountConcat([Opener(kind)], FlatItems(acc));
  }

  lemma StepMissing(ps: seq<Piece>, p: nat, kind: BoxKind, acc: seq<Item>)
    requires p <= |ps| && NextItem(ps, p, kind, acc == []) == Missing
    ensures ParseItems(ps, p, kind, acc).None?
  {
    hide ParseValue, ParseName, NextItem;
  }

  lemma NameUnfold(ps: seq<Piece>, k: nat, acc: seq<Item>)
    requires k <= |ps|
    ensures ParseName(ps, k, acc) ==
            if k < |ps| && ps[k].kind.Str? && Decode(ps[k].text).Some?
               && FindKey(acc, Decode(ps[k].text).value).None?
            then
              var d := SkipSpaces(ps, k + 1);
              if d < |ps| && ps[d].kind.Colon? then Some(SkipTrivia(ps, d + 1)) else None
            else None
  {
    hide Decode, FindKey;
  }

  lemma ItemNone(ps: seq<Piece>, p: nat, kind: BoxKind, acc: seq<Item>, k: nat)
    requires p <= |ps| && NextItem(ps, p, kind, acc == []) == ItemAt(k)
    requires if kind.Object? && ParseName(ps, k, acc).None? then true
             else ParseValue(ps, if kind.Object? then ParseName(ps, k, acc).value else k).None?
    ensures ParseItems(ps, p, kind, acc).None?
  {
    hide ParseName, NextItem;
  }

  lemma ItemSome(ps: seq<Piece>, p: nat, kind: BoxKind, acc: seq<Item>, k: nat, v: nat, tok: nat) returns (it: Item, e: nat)
    requires p <= |ps| && NextItem(ps, p, kind, acc == []) == ItemAt(k)
    requires k <= v <= |ps| && if kind.Object? then ParseName(ps, k, acc) == Some(v) else v == k
    requires ParseValue(ps, v).Some?
    requires Rank(ps, p) == tok + 1 + Count(FlatItems(acc))
    ensures e == ParseValue(ps, v).value.1 && it == Item(ps[p..k], ps[k..v], ParseValue(ps, v).value.0)
    ensures ParseItems(ps, p, kind, acc) == ParseItems(ps, e, kind, acc + [it])
    ensures tok + 1 + Count(FlatItems(acc + [it])) == Rank(ps, v) + Count(Flat(it.val))
    ensures ToMembers(acc + [it], tok + 1)
         == ToMembers(acc, tok + 1) + [NodeMember(KeyOf(it), Rank(ps, k), ToNode(it.val, Rank(ps, v)))]
    ensures ToElems(acc + [it], tok + 1) == ToElems(acc, tok + 1) + [ToNode(it.val, Rank(ps, v))]
  {
    hide ParseItems, ParseValue, ParseName, NextItem, KeyOf, ToNode, Flat, ToMembers, ToElems, Rank, Count, FlatItems;
    var (val, end) := ParseValue(ps, v).value;
    e := end;
    it := Item(ps[p..k], ps[k..v], val);
    ItemUnfold(ps, p, kind, acc, k, v);
    RankSlice(ps, p, k);
    RankSlice(ps, k, v);
    FlatItemsConcat(acc, [it]);
    CountConcat(FlatItems(acc), FlatItems([it]));
    CountItem(it, []);
    NoMoreItems(it);
    ToMembersAppend(acc, it, tok + 1);
    ToElemsAppend(acc, it, tok + 1);
  }

  lemma NoMoreItems(it: Item)
    ensures Count(FlatItems([])) == 0 && [it] + [] == [it]
  {
  }

  lemma ItemUnfold(ps: seq<Piece>, p: nat, kind: BoxKind, acc: seq<Item>, k: nat, v: nat)
    requires p <= |ps| && NextItem(ps, p, kind, acc == []) == ItemAt(k)
    requires k <= v <= |ps| && if kind.Object? then ParseName(ps, k, acc) == Some(v) else v == k
    requires ParseValue(ps, v).Some?
    ensures var (val, e) := ParseValue(ps, v).value;
            ParseItems(ps, p, kind, acc) == ParseItems(ps, e, kind, acc + [Item(ps[p..k], ps[k..v], val)])
  {
    hide ParseName, NextItem, ParseValue;
  }

  lemma NameKey(ps: seq<Piece>, k: nat, v: nat, it: Item)
    requires k < v <= |ps| && it.name == ps[k..v] && Decode(ps[k].text).Some?
    ensures KeyOf(it) == Decode(ps[k].text).value
  {
    hide Decode;
  }

  // The set of keys seen so far grows by the key of the item just read.
  lemma SeenStep(acc: seq<Item>, it: Item, seen: set<bytes>)
    requires forall key :: key in seen <==> FindKey(acc, key).Some?
    ensures forall key :: key in seen + {KeyOf(it)} <==> FindKey(acc + [it], key).Some?
  {
    hide KeyOf, FindKey;
    forall key ensures key in seen + {KeyOf(it)} <==> FindKey(acc + [it], key).Some? {
      FindKeyExact(acc, key);
      FindKeyExact(acc + [it], key);
      assert (acc + [it])[|acc|] == it;
      if FindKey(acc, key).Some? {
        assert (acc + [it])[FindKey(acc, key).value] == acc[FindKey(acc, key).value];
      }
    }
  }

  lemma LeafCount(p: Piece)
    requires !p.kind.Space?
    ensures Count(Flat(Leaf(p))) == 1
  {
  }

  lemma RankZero(ps: seq<Piece>)
    ensures Rank(ps, 0) == 0
  {
  }

  lemma CommentStep(ps: seq<Piece>, m: nat)
    requires m < |ps| && ps[m].kind.Comment?
    ensures var n := SkipSpaces(ps, m + 1);
            Rank(ps, n) == Rank(ps, m) + 1 && SkipTrivia(ps, n) == SkipTrivia(ps, m)
  {
    RankStep(ps, m);
    RankSpaces(ps, m + 1);
    SkipTriviaStep(ps, m + 1);
  }

  // Lexing and parsing as the source runs them: what comes back is the token
  // list and the node tree of the file that Parse describes.
  method ParseJSONC(src: bytes) returns (r: Result<(seq<Tok>, Node)>)
    ensures match Parse(src)
            case None => r == Err(ParseFailure)
            case Some(f) => r == Ok((Toks(FlatDoc(f.doc), BomLen(src)), ToNode(f.doc.root, Count(f.doc.pre))))
  {
    hide Toks, ParseDoc, FlatDoc, ToNode, Pieces;
    var toks := LexJSONC(src);
    if toks.Err? { return Err(ParseFailure); }
    ghost var l := Lex(src).value;
    LexExact(src, l);
    BomPrefix(src, l);
    var p := new JsonParser(src, toks.value, l.pieces);
    var n := p.ParseDocNode();
    if n.Err? { return Err(ParseFailure); }
    DocSound(l.pieces);
    return Ok((toks.value, n.value));
  }

  lemma BomPrefix(src: bytes, l: Lexed)
    requires Lexical(l.pieces) && src == BomText(l.bom) + Text(l.pieces)
    ensures BomText(l.bom) == src[..BomLen(src)] && |BomText(l.bom)| == BomLen(src)
  {
    BomOf(l.bom, l.pieces);
  }
}
