/** Where the pieces of a parsed file lie in its bytes and in its token list. */
module JsoncSpans {
  import opened Bytes
  import opened JsoncLex
  import opened JsoncLexer
  import opened Scalars
  import opened JsoncSyntax
  import opened JsoncEdit
  import opened JsoncTrivia
  import opened JsoncPreserve
  import opened JsoncSeams
  import opened JsoncParser

  // The byte offset at which the pieces a end, when src starts with them.
  function Off(src: bytes, a: seq<Piece>): nat { BomLen(src) + |Text(a)| }

  // src is the text of the pieces ps after its byte order mark, toks their tokens.
  ghost predicate Lexes(src: bytes, toks: seq<Tok>, ps: seq<Piece>) {
    && toks == Toks(ps, BomLen(src))
    && src == src[..BomLen(src)] + Text(ps)
    && Lexical(ps)
  }

  // The tree c is the part of src between the pieces l and r.
  ghost predicate Inside(src: bytes, toks: seq<Tok>, l: seq<Piece>, c: Cst, r: seq<Piece>) {
    Lexes(src, toks, l + Flat(c) + r) && WellFormed(c)
  }

  // src with the pieces ps in place of its own.
  function Reprint(src: bytes, ps: seq<Piece>): bytes { src[..BomLen(src)] + Text(ps) }

  lemma OffInSrc(src: bytes, toks: seq<Tok>, a: seq<Piece>, b: seq<Piece>)
    requires Lexes(src, toks, a + b)
    ensures Off(src, a) <= |src| && src[..Off(src, a)] == Reprint(src, a) && src[Off(src, a)..] == Text(b)
  {
    hide Toks, Text, Lexical;
    TextConcat(a, b);
    Assoc(src[..BomLen(src)], Text(a), Text(b));
    Halves(Reprint(src, a), Text(b));
  }

  lemma SplicePieces(src: bytes, toks: seq<Tok>, a: seq<Piece>, m: seq<Piece>, b: seq<Piece>, x: seq<Piece>)
    requires Lexes(src, toks, a + m + b)
    ensures Off(src, a) <= Off(src, a + m) <= |src|
    ensures Splice(src, Off(src, a), Off(src, a + m), Text(x)) == Reprint(src, a + x + b)
  {
    hide Text, Toks, Lexical;
    OffInSrc(src, toks, a + m, b);
    assert a + m + b == a + (m + b);
    OffInSrc(src, toks, a, m + b);
    TextConcat(a, m);
    TextConcat(a, x);
    TextConcat(a + x, b);
  }

  lemma PieceOk(src: bytes, toks: seq<Tok>, ps: seq<Piece>, k: nat)
    requires Lexes(src, toks, ps) && k < |ps|
    ensures ValidPiece(ps[k])
  {
    hide ValidPiece, Text, Toks;
  }

  lemma TextOne(p: Piece)
    ensures Text([p]) == p.text
  {
    assert [p][1..] == [] && p.text + [] == p.text;
  }

  // The bytes at the end of a are those of the piece that follows.
  lemma ByteAt(src: bytes, toks: seq<Tok>, a: seq<Piece>, p: Piece, b: seq<Piece>)
    requires Lexes(src, toks, a + [p] + b)
    ensures ValidPiece(p) && p.text != []
    ensures Off(src, a + [p]) == Off(src, a) + |p.text| <= |src|
    ensures forall k :: 0 <= k < |p.text| ==> src[Off(src, a) + k] == p.text[k]
  {
    hide ValidPiece, Lexes, Text;
    var ps := a + [p] + b;
    assert ps[|a|] == p;
    PieceOk(src, toks, ps, |a|);
    FirstByte(p);
    assert ps == a + ([p] + b);
    OffInSrc(src, toks, a, [p] + b);
    OffInSrc(src, toks, a + [p], b);
    TextConcat(a, [p]);
    TextConcat([p], b);
    TextOne(p);
    assert forall k :: 0 <= k < |p.text| ==> src[Off(src, a) + k] == src[Off(src, a)..][k];
  }

  lemma TokenOff(src: bytes, toks: seq<Tok>, a: seq<Piece>, p: Piece, b: seq<Piece>)
    requires Lexes(src, toks, a + [p] + b) && !p.kind.Space?
    ensures Count(a) < |toks| && toks[Count(a)] == Tok(p.kind, Off(src, a), |p.text|)
    ensures toks[Count(a)].End() == Off(src, a + [p])
  {
    TokAt(a, p, b, BomLen(src));
    TextConcat(a, [p]);
    assert [p][1..] == [];
  }

  function BytesStart(n: Node, toks: seq<Tok>): nat
    requires n.tok < |toks|
  {
    toks[n.tok].off
  }

  function BytesEnd(n: Node, toks: seq<Tok>): nat
    requires n.tok < |toks| && n.closeTok < |toks|
  {
    if n.IsContainer() then toks[n.closeTok].End() else toks[n.tok].End()
  }

  // The span of a node is the text of its tree, brackets included.
  lemma NodeSpan(src: bytes, toks: seq<Tok>, l: seq<Piece>, c: Cst, r: seq<Piece>)
    requires Inside(src, toks, l, c, r)
    ensures var n := ToNode(c, Count(l));
            && n.tok < |toks| && n.closeTok < |toks|
            && BytesStart(n, toks) == Off(src, l) && BytesEnd(n, toks) == Off(src, l + Flat(c))
            && Off(src, l) <= Off(src, l + Flat(c)) <= |src|
            && (c.Box? ==> toks[n.closeTok].off == Off(src, l + BeforeCloser(c)))
  {
    hide Lexes, Toks, Text, Count, FlatItems;
    OffInSrc(src, toks, l + Flat(c), r);
    TextConcat(l, Flat(c));
    match c
    case Leaf(p) =>
      TokenOff(src, toks, l, p, r);
      assert Count(l) < |toks|;
    case Box(kind, items, tail) =>
      var inner := FlatItems(items) + tail;
      FlatBox(c);
      FlatBeforeCloser(c);
      assert l + Flat(c) + r == l + [Opener(kind)] + (inner + [Closer(kind)] + r);
      TokenOff(src, toks, l, Opener(kind), inner + [Closer(kind)] + r);
      assert l + Flat(c) + r == (l + BeforeCloser(c)) + [Closer(kind)] + r;
      TokenOff(src, toks, l + BeforeCloser(c), Closer(kind), r);
      assert l + Flat(c) == (l + BeforeCloser(c)) + [Closer(kind)];
      CountBox(l, c);
  }

  lemma CountBox(l: seq<Piece>, c: Cst)
    requires c.Box?
    ensures Count(l + BeforeCloser(c)) == Count(l) + 1 + Count(FlatItems(c.items)) + Count(c.tail)
  {
    hide FlatItems;
    assert c.items[..|c.items|] == c.items;
    CountConcat(l, BeforeCloser(c));
    CountConcat([Opener(c.kind)] + FlatItems(c.items), c.tail);
    CountConcat([Opener(c.kind)], FlatItems(c.items));
  }

  // The i-th member of a node is the i-th item of its tree.
  // Counting on from the first item.
  lemma CountOn(items: seq<Item>, i: nat, k: nat)
    requires 0 < i < |items|
    ensures NextTok(items[0], k) + Count(FlatItems(items[1..][..i - 1])) == k + Count(FlatItems(items[..i]))
    ensures items[1..][i - 1] == items[i]
  {
    hide Count, FlatItems;
    assert items[..i] == [items[0]] + items[1..][..i - 1];
    CountItem(items[0], items[1..][..i - 1]);
  }

  lemma {:induction false} MemberAt(items: seq<Item>, i: nat, k: nat)
    requires i < |items|
    ensures |ToMembers(items, k)| == |items|
    ensures var n := k + Count(FlatItems(items[..i]));
            (ToMembers(items, k)[i]
              == NodeMember(KeyOf(items[i]), KeyTok(items[i], n), ToNode(items[i].val, ValTok(items[i], n))))
  {
    hide KeyOf, ToNode, Flat;
    var rest := items[1..];
    assert items == [items[0]] + rest;
    if i == 0 {
      assert items[..0] == [];
      MembersLen(items, k);
    } else {
      CountOn(items, i, k);
      MemberAt(rest, i - 1, NextTok(items[0], k));
    }
  }

  lemma {:induction false} MembersLen(items: seq<Item>, k: nat)
    ensures |ToMembers(items, k)| == |items|
  {
    hide KeyOf, ToNode, Flat;
    if items != [] { MembersLen(items[1..], NextTok(items[0], k)); }
  }

  // Key token, value node and their offsets for item i of an object.
  lemma MemberSpan(src: bytes, toks: seq<Tok>, l: seq<Piece>, c: Cst, r: seq<Piece>, i: nat)
    requires Inside(src, toks, l, c, r) && IsObject(c) && i < |c.items|
    ensures var ms := ToNode(c, Count(l)).members;
            && |ms| == |c.items|
            && ms[i].key == KeyOf(c.items[i])
            && ms[i].val == ToNode(c.items[i].val, Count(l + BeforeVal(c, i)))
            && ms[i].keyTok < |toks|
            && toks[ms[i].keyTok].off == Off(src, l + BeforeItem(c, i) + c.items[i].lead)
    ensures Inside(src, toks, l + BeforeVal(c, i), c.items[i].val, AfterItem(c, i) + r)
  {
    hide Lexes, Toks, Text, Count, FlatItems, KeyOf, IsName, Flat, ToNode, WellFormed;
    var it := c.items[i];
    FlatAt(c, i);
    ItemValueOk(c, i);
    assert l + Flat(c) + r == (l + BeforeVal(c, i)) + Flat(it.val) + (AfterItem(c, i) + r);
    NodeMembers(c, Count(l));
    MemberAt(c.items, i, Count(l) + 1);
    CountBefore(l, c, i);
    ItemNameOk(c, i);
    NameNotEmpty(it.name);
    NameFirst(it.name);
    var a := l + BeforeItem(c, i) + it.lead;
    assert it.name == [it.name[0]] + it.name[1..];
    assert l + Flat(c) + r == a + [it.name[0]] + (it.name[1..] + Flat(it.val) + AfterItem(c, i) + r);
    TokenOff(src, toks, a, it.name[0], it.name[1..] + Flat(it.val) + AfterItem(c, i) + r);
  }

  lemma NodeMembers(c: Cst, k: nat)
    requires IsObject(c)
    ensures ToNode(c, k).members == ToMembers(c.items, k + 1)
    ensures ToNode(c, k).trailing == !AllTrivia(c.tail) && ToNode(c, k).kind == LBrace
  {
  }

  lemma CountOpener(kind: BoxKind)
    ensures Count([Opener(kind)]) == 1
  {
    assert [Opener(kind)][1..] == [];
  }

  lemma CountBefore(l: seq<Piece>, c: Cst, i: nat)
    requires c.Box? && i < |c.items|
    ensures var n := Count(l) + 1 + Count(FlatItems(c.items[..i]));
            && Count(l + BeforeItem(c, i) + c.items[i].lead) == KeyTok(c.items[i], n)
            && Count(l + BeforeVal(c, i)) == ValTok(c.items[i], n)
  {
    hide FlatItems, Count, Opener;
    var it := c.items[i];
    CountOpener(c.kind);
    CountConcat(l + BeforeItem(c, i), it.lead);
    CountConcat(l, BeforeItem(c, i));
    CountConcat([Opener(c.kind)], FlatItems(c.items[..i]));
    assert l + BeforeVal(c, i) == (l + BeforeItem(c, i) + it.lead) + it.name;
    CountConcat(l + BeforeItem(c, i) + it.lead, it.name);
  }

  // Longer pieces, later bytes.
  lemma OffStep(src: bytes, toks: seq<Tok>, a: seq<Piece>, m: seq<Piece>, b: seq<Piece>)
    requires Lexes(src, toks, a + m + b)
    ensures m != [] ==> Off(src, a) < Off(src, a + m)
    ensures Off(src, a) <= Off(src, a + m)
  {
    hide Toks, Text, ValidPiece, Lexical;
    TextConcat(a, m);
    if m != [] {
      assert a + m + b == a + [m[0]] + (m[1..] + b);
      ByteAt(src, toks, a, m[0], m[1..] + b);
      assert m == [m[0]] + m[1..];
      assert a + m == a + [m[0]] + m[1..];
      TextConcat(a + [m[0]], m[1..]);
    }
  }

  // Spans nest and do not overlap: a member's key, its value, the next member's
  // key and the closing brace follow one another in the bytes.
  lemma MembersInOrder(src: bytes, toks: seq<Tok>, l: seq<Piece>, c: Cst, r: seq<Piece>, i: nat)
    requires Inside(src, toks, l, c, r) && IsObject(c) && i < |c.items|
    ensures var n := ToNode(c, Count(l));
            && n.tok < |toks| && n.closeTok < |toks| && i < |n.members|
            && var m := n.members[i];
               && m.keyTok < |toks| && m.val.tok < |toks| && m.val.closeTok < |toks|
               && BytesStart(n, toks) < toks[m.keyTok].off < BytesStart(m.val, toks)
               && BytesStart(m.val, toks) < BytesEnd(m.val, toks) <= toks[n.closeTok].off < BytesEnd(n, toks)
               && (i + 1 < |n.members| ==>
                    && n.members[i + 1].keyTok < |toks|
                    && BytesEnd(m.val, toks) < toks[n.members[i + 1].keyTok].off)
  {
    hide Lexes, Toks, Text, Count, FlatItems, KeyOf, IsName, Flat, ToNode, WellFormed, Off, AfterItem;
    var it := c.items[i];
    NodeSpan(src, toks, l, c, r);
    MemberSpan(src, toks, l, c, r, i);
    NodeSpan(src, toks, l + BeforeVal(c, i), it.val, AfterItem(c, i) + r);
    FlatAt(c, i);
    FlatBeforeCloser(c);
    ItemNameOk(c, i);
    NameNotEmpty(it.name);
    ItemValueOk(c, i);
    FlatFirst(it.val);
    var ps := l + Flat(c) + r;
    var items := FlatItems(c.items[..i]) + it.lead;
    var key := l + BeforeItem(c, i) + it.lead;
    assert key == l + ([Opener(c.kind)] + items);
    assert ps == l + ([Opener(c.kind)] + items) + (it.name + Flat(it.val) + AfterItem(c, i) + r);
    OffStep(src, toks, l, [Opener(c.kind)] + items, it.name + Flat(it.val) + AfterItem(c, i) + r);
    assert ps == key + it.name + (Flat(it.val) + AfterItem(c, i) + r);
    OffStep(src, toks, key, it.name, Flat(it.val) + AfterItem(c, i) + r);
    assert key + it.name == l + BeforeVal(c, i);
    var val := l + BeforeVal(c, i) + Flat(it.val);
    assert ps == (l + BeforeVal(c, i)) + Flat(it.val) + (AfterItem(c, i) + r);
    OffStep(src, toks, l + BeforeVal(c, i), Flat(it.val), AfterItem(c, i) + r);
    UpToCloser(c, i);
    var rest := FlatItems(c.items[i + 1..]) + c.tail;
    assert l + BeforeCloser(c) == val + rest;
    assert ps == val + rest + ([Closer(c.kind)] + r);
    OffStep(src, toks, val, rest, [Closer(c.kind)] + r);
    assert ps == (l + BeforeCloser(c)) + [Closer(c.kind)] + r;
    OffStep(src, toks, l + BeforeCloser(c), [Closer(c.kind)], r);
    assert l + Flat(c) == l + BeforeCloser(c) + [Closer(c.kind)];
    if i + 1 < |c.items| { NextKeyLater(src, toks, l, c, r, i); }
  }

  // ----- the elements of an array -----

  // The i-th element of a node is the i-th item of its tree.
  lemma {:induction false} ElemAt(items: seq<Item>, i: nat, k: nat)
    requires i < |items|
    ensures |ToElems(items, k)| == |items|
    ensures ToElems(items, k)[i] == ToNode(items[i].val, ValTok(items[i], k + Count(FlatItems(items[..i]))))
  {
    hide KeyOf, ToNode, Flat;
    var rest := items[1..];
    assert items == [items[0]] + rest;
    if i == 0 {
      assert items[..0] == [];
      ElemsLen(items, k);
    } else {
      CountOn(items, i, k);
      ElemAt(rest, i - 1, NextTok(items[0], k));
    }
  }

  lemma {:induction false} ElemsLen(items: seq<Item>, k: nat)
    ensures |ToElems(items, k)| == |items|
  {
    hide KeyOf, ToNode, Flat;
    if items != [] { ElemsLen(items[1..], NextTok(items[0], k)); }
  }

  // Element i of an array node is the node of item i, at the bytes of that item.
  lemma ElemSpan(src: bytes, toks: seq<Tok>, l: seq<Piece>, c: Cst, r: seq<Piece>, i: nat)
    requires Inside(src, toks, l, c, r) && c.Box? && c.kind.Array? && i < |c.items|
    ensures var es := ToNode(c, Count(l)).elems;
            |es| == |c.items| && es[i] == ToNode(c.items[i].val, Count(l + BeforeVal(c, i)))
    ensures Inside(src, toks, l + BeforeVal(c, i), c.items[i].val, AfterItem(c, i) + r)
  {
    hide Lexes, Toks, Text, Count, FlatItems, KeyOf, IsName, Flat, ToNode, WellFormed;
    FlatAt(c, i);
    ItemValueOk(c, i);
    assert l + Flat(c) + r == (l + BeforeVal(c, i)) + Flat(c.items[i].val) + (AfterItem(c, i) + r);
    NodeElems(c, Count(l));
    ElemAt(c.items, i, Count(l) + 1);
    CountBefore(l, c, i);
  }

  lemma NodeElems(c: Cst, k: nat)
    requires c.Box? && c.kind.Array?
    ensures ToNode(c, k).elems == ToElems(c.items, k + 1)
  {
  }

  // Elements nest and do not overlap either: the opener, element i, element
  // i + 1 and the closer follow one another in the bytes.
  lemma ElemsInOrder(src: bytes, toks: seq<Tok>, l: seq<Piece>, c: Cst, r: seq<Piece>, i: nat)
    requires Inside(src, toks, l, c, r) && c.Box? && c.kind.Array? && i < |c.items|
    ensures var n := ToNode(c, Count(l));
            && n.tok < |toks| && n.closeTok < |toks| && |n.elems| == |c.items|
            && var v := n.elems[i];
               && v.tok < |toks| && v.closeTok < |toks|
               && BytesStart(n, toks) < BytesStart(v, toks) < BytesEnd(v, toks) <= toks[n.closeTok].off
               && toks[n.closeTok].off < BytesEnd(n, toks)
               && (i + 1 < |n.elems| ==>
                    && n.elems[i + 1].tok < |toks|
                    && BytesEnd(v, toks) < BytesStart(n.elems[i + 1], toks))
  {
    hide Lexes, Toks, Text, Count, FlatItems, Flat, ToNode, WellFormed, Off, AfterItem, BeforeVal;
    ElemSpan(src, toks, l, c, r, i);
    NodeSpan(src, toks, l, c, r);
    NodeSpan(src, toks, l + BeforeVal(c, i), c.items[i].val, AfterItem(c, i) + r);
    ValueInside(src, toks, l, c, r, i);
    if i + 1 < |c.items| {
      ElemSpan(src, toks, l, c, r, i + 1);
      NodeSpan(src, toks, l + BeforeVal(c, i + 1), c.items[i + 1].val, AfterItem(c, i + 1) + r);
      NextValueLater(src, toks, l, c, r, i);
    }
  }

  // The value of an item lies between its box's opener and closer.
  lemma ValueInside(src: bytes, toks: seq<Tok>, l: seq<Piece>, c: Cst, r: seq<Piece>, i: nat)
    requires Inside(src, toks, l, c, r) && c.Box? && i < |c.items|
    ensures var v := l + BeforeVal(c, i);
            && Off(src, l) < Off(src, v) < Off(src, v + Flat(c.items[i].val)) <= Off(src, l + BeforeCloser(c))
            && Off(src, l + BeforeCloser(c)) < Off(src, l + Flat(c))
  {
    hide Lexes, Toks, Text, FlatItems, Flat, WellFormed, Off, AfterItem;
    var it := c.items[i];
    var o, close := Flat(it.val), [Closer(c.kind)];
    FlatAt(c, i);
    FlatBeforeCloser(c);
    ItemValueOk(c, i);
    FlatFirst(it.val);
    var ps, v := l + Flat(c) + r, l + BeforeVal(c, i);
    assert ps == l + BeforeVal(c, i) + (o + AfterItem(c, i) + r);
    OffStep(src, toks, l, BeforeVal(c, i), o + AfterItem(c, i) + r);
    assert ps == v + o + (AfterItem(c, i) + r);
    OffStep(src, toks, v, o, AfterItem(c, i) + r);
    UpToCloser(c, i);
    var rest := FlatItems(c.items[i + 1..]) + c.tail;
    assert l + BeforeCloser(c) == v + o + rest;
    assert ps == (v + o) + rest + (close + r);
    OffStep(src, toks, v + o, rest, close + r);
    assert ps == (l + BeforeCloser(c)) + close + r && l + Flat(c) == l + BeforeCloser(c) + close;
    OffStep(src, toks, l + BeforeCloser(c), close, r);
  }

  lemma NextValueLater(src: bytes, toks: seq<Tok>, l: seq<Piece>, c: Cst, r: seq<Piece>, i: nat)
    requires Inside(src, toks, l, c, r) && c.Box? && i + 1 < |c.items|
    ensures Off(src, l + BeforeVal(c, i) + Flat(c.items[i].val)) < Off(src, l + BeforeVal(c, i + 1))
  {
    hide Lexes, Toks, Text, FlatItems, Flat, WellFormed, Off, AfterItem, IsSeparator;
    var next := c.items[i + 1];
    LeadSeparates(c, i + 1);
    SeparatorNotTrivia(next.lead);
    FlatAt(c, i + 1);
    BeforeNext(c, i);
    var a, m := l + BeforeVal(c, i) + Flat(c.items[i].val), next.lead + next.name;
    assert l + BeforeVal(c, i + 1) == a + m;
    assert l + Flat(c) + r == a + m + (Flat(next.val) + AfterItem(c, i + 1) + r);
    OffStep(src, toks, a, m, Flat(next.val) + AfterItem(c, i + 1) + r);
  }

  lemma UpToCloser(c: Cst, i: nat)
    requires c.Box? && i < |c.items|
    ensures BeforeCloser(c) == BeforeVal(c, i) + Flat(c.items[i].val) + (FlatItems(c.items[i + 1..]) + c.tail)
  {
    hide Flat;
    var items := c.items;
    assert items[..|items|] == items[..i] + items[i..];
    FlatItemsConcat(items[..i], items[i..]);
    assert items[i..][1..] == items[i + 1..];
    FlatSplit(items[i..]);
  }

  lemma NextKeyLater(src: bytes, toks: seq<Tok>, l: seq<Piece>, c: Cst, r: seq<Piece>, i: nat)
    requires Inside(src, toks, l, c, r) && IsObject(c) && i + 1 < |c.items|
    ensures var ms := ToNode(c, Count(l)).members;
            && |ms| == |c.items| && ms[i + 1].keyTok < |toks|
            && Off(src, l + BeforeVal(c, i) + Flat(c.items[i].val)) < toks[ms[i + 1].keyTok].off
  {
    hide Lexes, Toks, Text, Count, FlatItems, KeyOf, IsName, Flat, ToNode, WellFormed, Off, AfterItem, IsSeparator;
    var next := c.items[i + 1];
    MemberSpan(src, toks, l, c, r, i + 1);
    ItemLeadOk(c, i + 1);
    SeparatorNotTrivia(next.lead);
    FlatAt(c, i + 1);
    var a := l + BeforeVal(c, i) + Flat(c.items[i].val);
    BeforeNext(c, i);
    assert l + BeforeItem(c, i + 1) == a;
    assert l + Flat(c) + r == a + next.lead + (next.name + Flat(next.val) + AfterItem(c, i + 1) + r);
    OffStep(src, toks, a, next.lead, next.name + Flat(next.val) + AfterItem(c, i + 1) + r);
  }

  lemma BeforeNext(c: Cst, i: nat)
    requires c.Box? && i < |c.items|
    ensures BeforeItem(c, i + 1) == BeforeVal(c, i) + Flat(c.items[i].val)
  {
    hide Flat;
    assert c.items[..i + 1] == c.items[..i] + [c.items[i]];
    FlatItemsConcat(c.items[..i], [c.items[i]]);
    FlatSplit([c.items[i]]);
    assert [c.items[i]][1..] == [];
  }
}
