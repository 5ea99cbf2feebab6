/** Which edited trees still print to text that lexes back piece by piece. */
module JsoncSeams {
  import opened Bytes
  import opened JsoncLex
  import opened Scalars
  import opened JsoncSyntax
  import opened JsoncEdit
  import opened JsoncTrivia
  import opened JsoncPreserve

  // ----- the print of one box, around its item i -----

  function BeforeItem(c: Cst, i: nat): seq<Piece>
    requires c.Box? && i <= |c.items|
  {
    [Opener(c.kind)] + FlatItems(c.items[..i])
  }

  function AfterItem(c: Cst, i: nat): seq<Piece>
    requires c.Box? && i < |c.items|
  {
    FlatItems(c.items[i + 1..]) + c.tail + [Closer(c.kind)]
  }

  // Everything in front of the value of item i.
  function BeforeVal(c: Cst, i: nat): seq<Piece>
    requires c.Box? && i < |c.items|
  {
    BeforeItem(c, i) + c.items[i].lead + c.items[i].name
  }

  lemma FlatAt(c: Cst, i: nat)
    requires c.Box? && i < |c.items|
    ensures Flat(c) == BeforeVal(c, i) + Flat(c.items[i].val) + AfterItem(c, i)
  {
    hide Flat, FlatItems;
    var items, it := c.items, c.items[i];
    FlatBox(c);
    assert items == items[..i] + items[i..];
    FlatItemsConcat(items[..i], items[i..]);
    assert items[i..][1..] == items[i + 1..];
    FlatSplit(items[i..]);
    BoxGroups([Opener(c.kind)], FlatItems(items[..i]), it.lead, it.name, Flat(it.val),
              FlatItems(items[i + 1..]), c.tail, [Closer(c.kind)]);
  }

  // The same pieces, grouped around one item.
  lemma BoxGroups<T>(o: seq<T>, f: seq<T>, l: seq<T>, n: seq<T>, v: seq<T>, r: seq<T>, t: seq<T>, z: seq<T>)
    ensures o + (f + (l + n + v + r)) + t + z == o + f + l + n + v + (r + t + z)
  {
    Assoc(f, l + n + v, r);
    Assoc4(f, l, n, v);
    Assoc(o, f + l + n + v, r);
    Assoc(o, f + l + n, v);
    Assoc4(o, f, l, n);
    Assoc4(o + f + l + n + v, r, t, z);
  }

  lemma FlatBox(c: Cst)
    requires c.Box?
    ensures Flat(c) == [Opener(c.kind)] + FlatItems(c.items) + c.tail + [Closer(c.kind)]
  {
  }

  lemma FlatSplit(items: seq<Item>)
    requires items != []
    ensures FlatItems(items) == items[0].lead + items[0].name + Flat(items[0].val) + FlatItems(items[1..])
  {
  }

  lemma FlatSetVal(c: Cst, i: nat, v: Cst)
    requires c.Box? && i < |c.items|
    ensures Flat(SetVal(c, i, v)) == BeforeVal(c, i) + Flat(v) + AfterItem(c, i)
  {
    var d := SetVal(c, i, v);
    assert d.items[..i] == c.items[..i] && d.items[i + 1..] == c.items[i + 1..];
    FlatAt(d, i);
  }

  lemma FlatSetItem(c: Cst, i: nat, g: Frag)
    requires c.Box? && i < |c.items|
    ensures Flat(SetItem(c, i, g)) == BeforeVal(c, i) + FlatFrag(g) + AfterItem(c, i)
  {
    hide Flat, FlatItems;
    var d := SetItem(c, i, g);
    assert d.items[..i] == c.items[..i];
    FlatAt(d, i);
    SetItemAfter(c, i, g);
    assert BeforeVal(d, i) == BeforeVal(c, i) + g.pre;
  }

  lemma SetItemAfter(c: Cst, i: nat, g: Frag)
    requires c.Box? && i < |c.items|
    ensures AfterItem(SetItem(c, i, g), i) == g.post + AfterItem(c, i)
  {
    hide Flat;
    var d := SetItem(c, i, g);
    if i + 1 < |c.items| {
      var rest := c.items[i + 2..];
      assert c.items[i + 1..] == [c.items[i + 1]] + rest;
      assert d.items[i + 1..] == [d.items[i + 1]] + rest;
      FlatSplit(c.items[i + 1..]);
      FlatSplit(d.items[i + 1..]);
      assert d.items[i + 1].lead == g.post + c.items[i + 1].lead;
    } else {
      assert d.items[i + 1..] == [] == c.items[i + 1..];
    }
  }

  // Everything in front of the closing bracket.
  function BeforeCloser(c: Cst): seq<Piece>
    requires c.Box?
  {
    BeforeItem(c, |c.items|) + c.tail
  }

  lemma FlatBeforeCloser(c: Cst)
    requires c.Box?
    ensures Flat(c) == BeforeCloser(c) + [Closer(c.kind)]
  {
    assert c.items[..|c.items|] == c.items;
  }

  // The text an append puts in front of the closing bracket.
  function Entry(c: Cst, key: bytes, g: Frag): seq<Piece>
    requires c.Box?
  {
    AppendLead(c)[|c.tail|..] + NameFor(key, g.pre) + Flat(g.val) + g.post
  }

  lemma FlatAppend(c: Cst, key: bytes, g: Frag)
    requires c.Box?
    ensures Flat(AppendItem(c, key, g)) == BeforeCloser(c) + Entry(c, key, g) + [Closer(c.kind)]
  {
    hide Flat, FlatItems, NameFor, AppendLead;
    var d, n := AppendItem(c, key, g), |c.items|;
    FlatAt(d, n);
    NothingAfter(d);
    assert d.items[..n] == c.items[..n];
    LeadAppends(c);
    AppendGroups(BeforeItem(c, n), c.tail, AppendLead(c)[|c.tail|..], NameFor(key, g.pre), Flat(g.val), g.post, [Closer(c.kind)]);
  }

  lemma NothingAfter(c: Cst)
    requires c.Box? && c.items != []
    ensures AfterItem(c, |c.items| - 1) == c.tail + [Closer(c.kind)]
  {
    assert c.items[|c.items| - 1 + 1..] == [];
    assert [] + c.tail == c.tail;
  }

  lemma LeadAppends(c: Cst)
    requires c.Box?
    ensures AppendLead(c) == c.tail + AppendLead(c)[|c.tail|..]
  {}

  lemma AppendGroups<T>(a: seq<T>, t: seq<T>, r: seq<T>, n: seq<T>, v: seq<T>, p: seq<T>, z: seq<T>)
    ensures a + (t + r) + n + v + (p + z) == (a + t) + (r + n + v + p) + z
  {
    Assoc(a, t, r);
    Assoc4(a + t, r, n, v);
    Assoc(a + t + r + n + v, p, z);
    Assoc(a + t, r + n + v, p);
  }

  // A removal cuts Removed(c, i) out from between RemovedBefore and RemovedAfter.
  function RemovedBefore(c: Cst, i: nat): seq<Piece>
    requires c.Box? && i < |c.items|
  {
    BeforeItem(c, i) + Left(c, i)
  }

  function Removed(c: Cst, i: nat): seq<Piece>
    requires c.Box? && i < |c.items|
    requires i + 1 < |c.items| ==> IsSeparator(c.items[i + 1].lead)
  {
    var it := c.items[i];
    it.lead[|Left(c, i)|..] + it.name + Flat(it.val)
    + if i + 1 < |c.items| then c.items[i + 1].lead[..Resume(c.items[i + 1].lead, OwnLine(it.lead))] else []
  }

  function RemovedAfter(c: Cst, i: nat): seq<Piece>
    requires c.Box? && i < |c.items|
    requires i + 1 < |c.items| ==> IsSeparator(c.items[i + 1].lead)
  {
    if i + 1 < |c.items| then
      var next := c.items[i + 1];
      next.lead[Resume(next.lead, OwnLine(c.items[i].lead))..] + next.name + Flat(next.val) + AfterItem(c, i + 1)
    else c.tail + [Closer(c.kind)]
  }

  lemma LeftPrefix(c: Cst, i: nat)
    requires c.Box? && i < |c.items|
    ensures |Left(c, i)| <= |c.items[i].lead|
    ensures c.items[i].lead == Left(c, i) + c.items[i].lead[|Left(c, i)|..]
  {
  }

  lemma FlatRemove(c: Cst, i: nat)
    requires c.Box? && i < |c.items|
    requires i + 1 < |c.items| ==> IsSeparator(c.items[i + 1].lead)
    ensures Flat(c) == RemovedBefore(c, i) + Removed(c, i) + RemovedAfter(c, i)
    ensures Flat(RemoveItem(c, i)) == RemovedBefore(c, i) + RemovedAfter(c, i)
  {
    hide Flat, IsSeparator, Left, RemovedBefore, Removed, RemovedAfter, RemoveItem;
    FlatAt(c, i);
    LeftPrefix(c, i);
    if i + 1 < |c.items| {
      FlatRemoveInner(c, i);
    } else {
      FlatRemoveLast(c, i);
    }
  }

  lemma FlatRemoveInner(c: Cst, i: nat)
    requires c.Box? && i + 1 < |c.items| && IsSeparator(c.items[i + 1].lead)
    ensures Flat(c) == RemovedBefore(c, i) + Removed(c, i) + RemovedAfter(c, i)
    ensures Flat(RemoveItem(c, i)) == RemovedBefore(c, i) + RemovedAfter(c, i)
  {
    hide Flat, FlatItems, IsSeparator, Left, Resume, OwnLine, RemoveItem, BeforeItem, AfterItem;
    FlatRemovedInner(c, i);
    RemovedShape(c, i);
    LeftInner(c, i);
    FlatAt(RemoveItem(c, i), i);
    var next := c.items[i + 1];
    var room := next.lead[Resume(next.lead, OwnLine(c.items[i].lead))..];
    var a, k, v, z := BeforeItem(c, i), Left(c, i), Flat(next.val), AfterItem(c, i + 1);
    Assoc(a, k, room);
    Assoc(a + k, room, next.name);
    Assoc(a + k, room + next.name, v);
    Assoc(a + k, room + next.name + v, z);
  }

  lemma RemovedShape(c: Cst, i: nat)
    requires c.Box? && i + 1 < |c.items| && IsSeparator(c.items[i + 1].lead)
    ensures var d, next := RemoveItem(c, i), c.items[i + 1];
            && d.Box? && i < |d.items| && d.items[i].name == next.name && d.items[i].val == next.val
            && d.items[i].lead == Kept(c.items[i].lead) + next.lead[Resume(next.lead, OwnLine(c.items[i].lead))..]
            && BeforeItem(d, i) == BeforeItem(c, i) && AfterItem(d, i) == AfterItem(c, i + 1)
  {
    hide FlatItems, IsSeparator, Resume, Kept, OwnLine;
    var d := RemoveItem(c, i);
    assert d.items[..i] == c.items[..i] && d.items[i + 1..] == c.items[i + 2..];
  }

  lemma FlatRemovedInner(c: Cst, i: nat)
    requires c.Box? && i + 1 < |c.items| && IsSeparator(c.items[i + 1].lead)
    ensures Flat(c) == RemovedBefore(c, i) + Removed(c, i) + RemovedAfter(c, i)
  {
    hide Flat, FlatItems, IsSeparator, Left, Resume, Kept, OwnLine, BeforeItem, AfterItem;
    var it, next := c.items[i], c.items[i + 1];
    FlatAt(c, i);
    LeftPrefix(c, i);
    var r := Resume(next.lead, OwnLine(it.lead));
    AfterNext(c, i);
    var cut, rest := it.lead[|Left(c, i)|..], next.name + Flat(next.val) + AfterItem(c, i + 1);
    CutMiddle(BeforeItem(c, i), Left(c, i), cut, it.name, Flat(it.val), next.lead, r, rest);
    Assoc4(next.lead[r..], next.name, Flat(next.val), AfterItem(c, i + 1));
  }

  lemma AfterNext(c: Cst, i: nat)
    requires c.Box? && i + 1 < |c.items|
    ensures var next := c.items[i + 1]; AfterItem(c, i) == next.lead + (next.name + Flat(next.val) + AfterItem(c, i + 1))
  {
    hide Flat, FlatItems;
    assert c.items[i + 1..][1..] == c.items[i + 2..];
    FlatSplit(c.items[i + 1..]);
  }

  // The same pieces, cut at the ends of a removal.
  lemma CutMiddle<T>(a: seq<T>, left: seq<T>, cut: seq<T>, name: seq<T>, val: seq<T>, lead: seq<T>, r: nat, rest: seq<T>)
    requires r <= |lead|
    ensures a + (left + cut) + name + val + (lead + rest) == a + left + (cut + name + val + lead[..r]) + (lead[r..] + rest)
  {
    var x, y := lead[..r], lead[r..];
    assert lead == x + y;
    Assoc(a, left, cut);
    var h := a + left;
    Assoc(x, y, rest);
    Assoc(h + cut + name + val, x, y + rest);
    Assoc(h, cut + name + val, x);
    Assoc4(h, cut, name, val);
  }

  lemma FlatRemoveLast(c: Cst, i: nat)
    requires c.Box? && i + 1 == |c.items|
    ensures Flat(c) == RemovedBefore(c, i) + Removed(c, i) + RemovedAfter(c, i)
    ensures Flat(RemoveItem(c, i)) == RemovedBefore(c, i) + RemovedAfter(c, i)
  {
    hide Flat, Left, Kept, OwnLine;
    var d := RemoveItem(c, i);
    FlatAt(c, i);
    LeftPrefix(c, i);
    assert c.items[i + 1..] == [];
    FlatBeforeCloser(d);
    assert d.items[..|d.items|] == c.items[..i];
    LeftLast(c, i);
  }

  lemma LeftInner(c: Cst, i: nat)
    requires c.Box? && i + 1 < |c.items| && IsSeparator(c.items[i + 1].lead)
    ensures RemoveItem(c, i).items[i].lead == Left(c, i)
            + c.items[i + 1].lead[Resume(c.items[i + 1].lead, OwnLine(c.items[i].lead))..]
  {
  }

  lemma LeftLast(c: Cst, i: nat)
    requires c.Box? && i + 1 == |c.items|
    ensures RemoveItem(c, i).tail == Left(c, i) + c.tail
  {
  }

  lemma NoItems()
    ensures FlatItems([]) == []
  {
  }

  // ----- seams -----

  lemma FirstIsValid(ps: seq<Piece>)
    requires Lexical(ps) && ps != []
    ensures ValidPiece(ps[0])
  {
  }

  predicate AfterValue(k: Kind) { k in {Space, Comment, Comma, RBrace, RBracket} }

  lemma AfterItemFirst(c: Cst, i: nat)
    requires WellFormed(c) && c.Box? && i < |c.items|
    ensures AfterItem(c, i) != [] && AfterValue(AfterItem(c, i)[0].kind)
  {
    hide IsName, Flat;
    if i + 1 < |c.items| {
      assert LeadOk(c.items, i + 1);
      FlatSplit(c.items[i + 1..]);
      assert AfterItem(c, i)[0] == c.items[i + 1].lead[0];
    } else {
      TailFirst(c);
      assert AfterItem(c, i) == c.tail + [Closer(c.kind)];
    }
  }

  lemma TailFirst(c: Cst)
    requires WellFormed(c) && c.Box?
    ensures AfterValue((c.tail + [Closer(c.kind)])[0].kind)
  {
  }

  // Two neighbours fit unless two scalars meet or a line comment stays open.
  lemma SeamFits(p: Piece, q: Piece)
    requires ValidPiece(p) && ValidPiece(q)
    requires !p.kind.Scalar? || !q.kind.Scalar?
    ensures Adjacent(p, q) <==> (IsLineComment(p) ==> IsEol(q.text[0]))
  {
    FirstByte(q);
    if p.kind.Scalar? { NotNumberByte(q); }
  }

  lemma NotNumberByte(q: Piece)
    requires ValidPiece(q) && !q.kind.Scalar?
    ensures q.text != [] && !IsNumChar(q.text[0])
  {
    FirstByte(q);
  }

  // A line comment is not followed directly by anything but a line break.
  lemma NotOpen(a: seq<Piece>, b: seq<Piece>)
    requires Lexical(a + b) && a != [] && b != [] && !b[0].kind.Space?
    ensures !IsLineComment(a[|a| - 1])
  {
    hide ValidPiece;
    ConcatLexical(a, b);
    FirstByte(b[0]);
  }

  lemma InsertLexical(a: seq<Piece>, x: seq<Piece>, b: seq<Piece>)
    requires Lexical(a) && Lexical(x) && Lexical(b) && a != [] && x != [] && b != []
    requires !IsLineComment(a[|a| - 1]) && !IsLineComment(x[|x| - 1])
    requires !a[|a| - 1].kind.Scalar? || !x[0].kind.Scalar?
    requires !b[0].kind.Scalar?
    ensures Lexical(a + x + b)
  {
    hide ValidPiece, Adjacent;
    SeamFits(a[|a| - 1], x[0]);
    SeamFits(x[|x| - 1], b[0]);
    ConcatLexical(a, x);
    assert (a + x)[|a + x| - 1] == x[|x| - 1];
    ConcatLexical(a + x, b);
  }

  // A value may stand where another stood, if nothing runs on behind it.
  lemma ReplaceLexical(a: seq<Piece>, o: seq<Piece>, b: seq<Piece>, x: seq<Piece>)
    requires Lexical(a + o + b) && a != [] && o != [] && b != [] && !o[0].kind.Space?
    requires !a[|a| - 1].kind.Scalar? && !b[0].kind.Scalar?
    requires Lexical(x) && x != [] && !IsLineComment(x[|x| - 1])
    ensures Lexical(a + x + b)
  {
    hide ValidPiece, Adjacent;
    assert a + o + b == a + (o + b);
    NotOpen(a, o + b);
    ConcatLexical(a, o + b);
    ConcatLexical(o, b);
    InsertLexical(a, x, b);
  }

  lemma FragEnds(g: Frag)
    requires WellFormed(g.val) && Closed(g)
    ensures FlatFrag(g) != [] && !IsLineComment(FlatFrag(g)[|FlatFrag(g)| - 1])
  {
    FlatFirst(g.val);
    FlatLast(g.val);
  }

  lemma FlatLast(c: Cst)
    requires WellFormed(c)
    ensures Flat(c) != [] && Flat(c)[|Flat(c)| - 1].kind in {RBrace, RBracket, Str, Scalar}
  {
  }

  lemma BeforeValLast(c: Cst, i: nat)
    requires WellFormed(c) && IsObject(c) && i < |c.items|
    ensures BeforeVal(c, i) != [] && BeforeVal(c, i)[|BeforeVal(c, i)| - 1].kind in {Colon, Space, Comment}
  {
    hide IsName;
    assert NameOk(Object, c.items[i]);
    NameNotEmpty(c.items[i].name);
    NameLast(c.items[i].name);
  }

  lemma SetItemLexical(c: Cst, i: nat, g: Frag)
    requires WellFormed(c) && IsObject(c) && i < |c.items| && Lexical(Flat(c))
    requires FragOk(g) && Closed(g)
    ensures Lexical(Flat(SetItem(c, i, g)))
  {
    hide Flat, WellFormed, AfterItem, BeforeVal, Closed, Lexical;
    FlatAt(c, i);
    FlatSetItem(c, i, g);
    BeforeValLast(c, i);
    AfterItemFirst(c, i);
    ItemValueOk(c, i);
    FlatFirst(c.items[i].val);
    FragEnds(g);
    ReplaceLexical(BeforeVal(c, i), Flat(c.items[i].val), AfterItem(c, i), FlatFrag(g));
  }

  lemma SetValLexical(c: Cst, i: nat, v: Cst)
    requires WellFormed(c) && IsObject(c) && i < |c.items| && Lexical(Flat(c))
    requires WellFormed(v) && Lexical(Flat(v))
    ensures Lexical(Flat(SetVal(c, i, v)))
    ensures Lexical(Flat(c.items[i].val))
  {
    hide Flat, WellFormed, AfterItem, BeforeVal, Lexical;
    FlatAt(c, i);
    FlatSetVal(c, i, v);
    BeforeValLast(c, i);
    AfterItemFirst(c, i);
    ItemValueOk(c, i);
    FlatFirst(c.items[i].val);
    FlatFirst(v);
    FlatLast(v);
    ReplaceLexical(BeforeVal(c, i), Flat(c.items[i].val), AfterItem(c, i), Flat(v));
    ConcatLexical(BeforeVal(c, i) + Flat(c.items[i].val), AfterItem(c, i));
    ConcatLexical(BeforeVal(c, i), Flat(c.items[i].val));
  }

  // ----- new entries -----

  function KeyPieces(key: bytes): seq<Piece> {
    [Piece(Str, JsoncQuote(key)), ColonPiece(), BlankPiece()]
  }

  lemma KeyPiecesLexical(key: bytes)
    ensures Lexical(KeyPieces(key))
    ensures Lexical([CommaPiece(), BlankPiece()]) && Lexical([BlankPiece()])
  {
    hide Quoted, StringEnd;
    QuotedPiece(key, false, []);
    var ps := KeyPieces(key);
    forall k | 0 <= k < |ps| - 1 ensures Joined(ps, k) {}
  }

  lemma KeyPiecesEnds(key: bytes)
    ensures |KeyPieces(key)| == 3 && KeyPieces(key)[2] == BlankPiece()
  {
    hide Quoted;
  }

  lemma KeyPiecesText(key: bytes)
    ensures Text(KeyPieces(key)) == JsoncQuote(key) + [COLON, SP]
  {
    hide Quoted;
    var ps := KeyPieces(key);
    assert ps[1..] == [ColonPiece(), BlankPiece()];
    assert ps[1..][1..] == [BlankPiece()];
    assert Text([BlankPiece()]) == [SP];
  }

  // An optional separator, a key, a colon, a blank and the fragment.
  function Keyed(sep: seq<Piece>, key: bytes, g: Frag): seq<Piece> {
    sep + KeyPieces(key) + FlatFrag(g)
  }

  lemma KeyedLexical(sep: seq<Piece>, key: bytes, g: Frag)
    requires sep in {[], [BlankPiece()], [CommaPiece(), BlankPiece()]}
    requires FragOk(g) && Closed(g)
    ensures var x := Keyed(sep, key, g);
            Lexical(x) && x != [] && x[0].kind in {Str, Space, Comma} && !IsLineComment(x[|x| - 1])
  {
    hide ValidPiece, Quoted, WellFormed, Closed, Lexical, Flat;
    var k := KeyPieces(key);
    KeyPiecesLexical(key);
    FragEnds(g);
    BlankSeam(k);
    BlankSeam(FlatFrag(g));
    if sep == [] {
      assert sep + k == k;
    } else {
      ConcatLexical(sep, k);
    }
    ConcatLexical(sep + k, FlatFrag(g));
  }

  // Nothing runs on from a blank.
  lemma BlankSeam(ps: seq<Piece>)
    requires Lexical(ps) && ps != []
    ensures Adjacent(BlankPiece(), ps[0])
  {
    assert ValidPiece(ps[0]);
    FirstByte(ps[0]);
  }

  lemma BracketsLexical(kind: BoxKind)
    ensures Lexical([Opener(kind)]) && Lexical([Closer(kind)])
  {
  }

  lemma {:induction false} NestOk(keys: seq<bytes>, g: Frag)
    requires FragOk(g) && Closed(g)
    ensures FragOk(Nest(keys, g)) && Closed(Nest(keys, g))
  {
    NestGrammar(keys, g);
    if keys != [] {
      hide ValidPiece, Quoted, WellFormed, Lexical, IsName, KeyOf, Keyed;
      var inner := Nest(keys[1..], g);
      NestOk(keys[1..], g);
      var x := Keyed([], keys[0], inner);
      KeyedLexical([], keys[0], inner);
      BracketsLexical(Object);
      InsertLexical([Opener(Object)], x, [Closer(Object)]);
      FlatNest(keys, g);
      FlatLast(Nest(keys, g).val);
    }
  }

  lemma FlatNest(keys: seq<bytes>, g: Frag)
    requires keys != []
    ensures FlatFrag(Nest(keys, g))
         == [Opener(Object)] + Keyed([], keys[0], Nest(keys[1..], g)) + [Closer(Object)]
  {
    hide Quoted;
    var inner := Nest(keys[1..], g);
    var it := Item([], NameFor(keys[0], inner.pre), inner.val);
    FlatSplit([it]);
    assert [it][1..] == [];
    FlatBox(Box(Object, [it], inner.post));
    assert FlatItems([it]) == KeyPieces(keys[0]) + inner.pre + Flat(inner.val);
  }

  lemma AppendSeparator(c: Cst)
    requires c.Box?
    ensures AppendLead(c)[|c.tail|..] in {[], [BlankPiece()], [CommaPiece(), BlankPiece()]}
  {
    hide AllTrivia;
    if c.items == [] {
      assert AppendLead(c)[|c.tail|..] == [];
    } else if !AllTrivia(c.tail) {
      assert AppendLead(c)[|c.tail|..] == [BlankPiece()];
    } else {
      assert AppendLead(c)[|c.tail|..] == [CommaPiece(), BlankPiece()];
    }
  }

  lemma EntryKeyed(c: Cst, key: bytes, g: Frag)
    requires c.Box?
    ensures AppendLead(c)[|c.tail|..] in {[], [BlankPiece()], [CommaPiece(), BlankPiece()]}
    ensures Entry(c, key, g) == Keyed(AppendLead(c)[|c.tail|..], key, g)
  {
    hide Quoted, Flat, AppendLead;
    AppendSeparator(c);
    assert NameFor(key, g.pre) == KeyPieces(key) + g.pre;
  }

  lemma AppendLexical(c: Cst, key: bytes, g: Frag)
    requires c.Box? && Lexical(Flat(c)) && FragOk(g) && Closed(g)
    ensures Lexical(Flat(AppendItem(c, key, g)))
  {
    hide Flat, Lexical, Closed, WellFormed, ValidPiece, Entry, Keyed, AppendItem;
    var a, x, b := BeforeCloser(c), Entry(c, key, g), [Closer(c.kind)];
    FlatBeforeCloser(c);
    FlatAppend(c, key, g);
    EntryKeyed(c, key, g);
    KeyedLexical(AppendLead(c)[|c.tail|..], key, g);
    NotOpen(a, b);
    ConcatLexical(a, b);
    InsertLexical(a, x, b);
  }

  // ----- removal -----

  // The piece in front of the cut is a line comment whose end was cut away, and
  // the text after the cut does not start with a line break.
  predicate CommentRunsOn(c: Cst, i: nat)
    requires c.Box? && i < |c.items|
    requires i + 1 < |c.items| ==> IsSeparator(c.items[i + 1].lead)
  {
    var a, b := RemovedBefore(c, i), RemovedAfter(c, i);
    && a != [] && IsLineComment(a[|a| - 1])
    && b != [] && b[0].text != [] && !IsEol(b[0].text[0])
  }

  lemma RemovedAfterFirst(c: Cst, i: nat)
    requires WellFormed(c) && IsObject(c) && i < |c.items|
    requires i + 1 < |c.items| ==> IsSeparator(c.items[i + 1].lead)
    ensures RemovedAfter(c, i) != [] && !RemovedAfter(c, i)[0].kind.Scalar?
  {
    hide WellFormed, IsSeparator, IsName, AfterItem, Flat, Resume;
    if i + 1 < |c.items| {
      var next := c.items[i + 1];
      var r := Resume(next.lead, OwnLine(c.items[i].lead));
      ResumedTrivia(next.lead, OwnLine(c.items[i].lead));
      TriviaExact(next.lead[r..]);
      ItemNameOk(c, i + 1);
      NameNotEmpty(next.name);
      NameFirst(next.name);
      assert RemovedAfter(c, i)[0] == (next.lead[r..] + next.name)[0];
    } else {
      TailFirst(c);
    }
  }

  lemma NameFirst(name: seq<Piece>)
    requires IsName(name)
    ensures name[0].kind.Str?
  {
    hide Decode;
  }

  // After a removal the text lexes to the pieces that were not cut, exactly
  // when no comment runs on.
  lemma RemoveLexical(c: Cst, i: nat)
    requires WellFormed(c) && IsObject(c) && i < |c.items| && Lexical(Flat(c))
    requires i + 1 < |c.items| ==> IsSeparator(c.items[i + 1].lead)
    ensures Lexical(Flat(RemoveItem(c, i))) <==> !CommentRunsOn(c, i)
  {
    hide Flat, Lexical, WellFormed, ValidPiece, IsSeparator, Left, Removed, RemovedAfter, Adjacent;
    var a, m, b := RemovedBefore(c, i), Removed(c, i), RemovedAfter(c, i);
    FlatRemove(c, i);
    RemovedAfterFirst(c, i);
    ConcatLexical(a + m, b);
    ConcatLexical(a, m);
    LastAndFirstValid(a, b);
    SeamFits(a[|a| - 1], b[0]);
    ConcatLexical(a, b);
  }

  lemma LastAndFirstValid(a: seq<Piece>, b: seq<Piece>)
    requires Lexical(a) && Lexical(b) && a != [] && b != []
    ensures ValidPiece(a[|a| - 1]) && ValidPiece(b[0]) && b[0].text != []
  {
    FirstByte(b[0]);
  }

  // A removal that does not take a line break away cannot open a comment.
  lemma SameLineRemoval(c: Cst, i: nat)
    requires WellFormed(c) && IsObject(c) && i < |c.items| && Lexical(Flat(c))
    requires i + 1 < |c.items| ==> IsSeparator(c.items[i + 1].lead)
    requires !OwnLine(c.items[i].lead)
    ensures !CommentRunsOn(c, i)
  {
    hide Flat, Lexical, WellFormed, ValidPiece, RemovedAfter, IsName, Resume, OwnLine;
    var a, m, b := RemovedBefore(c, i), Removed(c, i), RemovedAfter(c, i);
    FlatRemove(c, i);
    ItemNameOk(c, i);
    NameNotEmpty(c.items[i].name);
    NameFirst(c.items[i].name);
    ItemLeadOk(c, i);
    LeftCut(c, i);
    assert a + m + b == a + (m + b);
    NotOpen(a, m + b);
  }

  lemma LeftCut(c: Cst, i: nat)
    requires c.Box? && i < |c.items| && LeadOk(c.items, i) && !OwnLine(c.items[i].lead)
    ensures var n := |Left(c, i)|;
            n == |c.items[i].lead| || (n < |c.items[i].lead| && c.items[i].lead[n].kind.Comma?)
  {
  }
}
