/**
 The other half of the grammar: whatever the parser accepts is one of the texts
 of JsonText, so it accepts exactly those.
 */
module JsonAccept {
  import opened Bytes
  import opened JsoncLex
  import opened Scalars
  import opened JsoncSyntax
  import opened JsoncEdit
  import opened JsoncTrivia
  import opened JsoncPreserve
  import opened JsoncSeams
  import opened JsoncMeaning
  import opened JsoncTheorems
  import opened JsoncSpans
  import opened JsonPieces
  import opened JsonString
  import opened JsonText

  // ----- gaps -----

  lemma LineThenBreak(p: Piece, q: Piece)
    requires ValidPiece(p) && ValidPiece(q) && IsLineComment(p) && Adjacent(p, q)
    ensures q.kind.Space? && q.text in [[0x0A], [0x0D]]
    ensures OneLine(p.text[2..]) && p.text == [0x2F, 0x2F] + p.text[2..]
  {
    FirstByte(q);
    assert q.text == [q.text[0]];
  }

  lemma BlockText(p: Piece)
    requires ValidPiece(p) && p.kind.Comment? && !IsLineComment(p)
    ensures |p.text| >= 4 && NoClose(p.text[2..|p.text| - 2])
    ensures p.text == [0x2F, 0x2A] + p.text[2..|p.text| - 2] + [0x2A, 0x2F]
  {
    hide NoClose;
    CommentBytes(p.text);
    if x :| OneLine(x) && p.text == [0x2F, 0x2F] + x {
      assert false;
    } else {
      var x :| NoClose(x) && p.text == [0x2F, 0x2A] + x + [0x2A, 0x2F];
      assert p.text[2..|p.text| - 2] == x;
    }
  }

  // The gap at the start of some trivia, and its number of pieces.
  lemma FirstGap(ps: seq<Piece>) returns (g: Gap, n: nat)
    requires Lexical(ps) && Calm(ps) && ps != [] && forall k :: 0 <= k < |ps| ==> IsTrivia(ps[k])
    ensures GapOk(g) && 0 < n <= |ps| && ps[..n] == GapPieces(g) && (ps[0].kind.Space? ==> g.Blank?)
  {
    hide ValidPiece, NoClose, OneLine, IsLineComment, Adjacent;
    var p := ps[0];
    assert ValidPiece(p) && IsTrivia(p);
    if IsLineComment(p) {
      assert |ps| > 1;
      assert ValidPiece(ps[1]) && Joined(ps, 0);
      LineThenBreak(p, ps[1]);
      IsComment(p);
      g, n := Line(p.text[2..], ps[1].text[0]), 2;
      assert ps[..2] == [p, ps[1]];
    } else {
      n := 1;
      assert ps[..1] == [p];
      if p.kind.Space? {
        PieceBytes(p);
        g := Blank(p.text[0]);
      } else {
        BlockText(p);
        g := Block(p.text[2..|p.text| - 2]);
      }
    }
  }

  lemma {:induction false} GapsOf(ps: seq<Piece>) returns (gs: seq<Gap>)
    requires Lexical(ps) && Calm(ps) && forall k :: 0 <= k < |ps| ==> IsTrivia(ps[k])
    ensures GapsOk(gs) && Gaps(gs) == ps
    ensures (forall k :: 0 <= k < |ps| ==> ps[k].kind.Space?) ==> forall k :: 0 <= k < |gs| ==> gs[k].Blank?
    decreases |ps|
  {
    hide Lexical, Calm, GapOk, GapPieces, IsTrivia;
    if ps == [] {
      gs := [];
    } else {
      var g, n := FirstGap(ps);
      var rest := Later(ps, n);
      gs := [g] + rest;
      assert gs[1..] == rest && ps == ps[..n] + ps[n..];
    }
  }

  lemma IsComment(p: Piece)
    requires IsLineComment(p)
    ensures p.kind.Comment?
  {}

  lemma {:induction false} Later(ps: seq<Piece>, n: nat) returns (gs: seq<Gap>)
    requires Lexical(ps) && Calm(ps) && 0 < n <= |ps| && forall k :: 0 <= k < |ps| ==> IsTrivia(ps[k])
    ensures GapsOk(gs) && Gaps(gs) == ps[n..]
    ensures (forall k :: 0 <= k < |ps| ==> ps[k].kind.Space?) ==> forall k :: 0 <= k < |gs| ==> gs[k].Blank?
    decreases |ps|, 0
  {
    hide Lexical, IsLineComment;
    assert ps == ps[..n] + ps[n..];
    ConcatLexical(ps[..n], ps[n..]);
    assert forall k :: 0 <= k < |ps[n..]| ==> ps[n..][k] == ps[n + k];
    gs := GapsOf(ps[n..]);
  }

  // A run of trivia in front of something that is no blank.
  lemma GapsIn(a: seq<Piece>, x: seq<Piece>, b: seq<Piece>) returns (gs: seq<Gap>)
    requires Lexical(a + x + b) && AllTrivia(x) && b != [] && !b[0].kind.Space?
    ensures GapsOk(gs) && Gaps(gs) == x
    ensures (forall k :: 0 <= k < |x| ==> x[k].kind.Space?) ==> forall k :: 0 <= k < |gs| ==> gs[k].Blank?
  {
    hide Lexical, ValidPiece;
    ConcatLexical(a + x, b);
    ConcatLexical(a, x);
    if x != [] && IsLineComment(x[|x| - 1]) {
      assert (a + x)[|a + x| - 1] == x[|x| - 1];
      FirstValid(b);
      FirstByte(b[0]);
    }
    TriviaExact(x);
    gs := GapsOf(x);
  }

  // ----- one box -----

  // What stands behind the comma, and what in front of the next one.
  function BehindComma(c: Cst, k: nat): seq<Piece>
    requires c.Box? && k < |c.items|
  {
    if k == 0 then c.items[0].lead
    else var s := SkipTrivia(c.items[k].lead, 0);
      if s < |c.items[k].lead| then c.items[k].lead[s + 1..] else []
  }

  function BeforeComma(c: Cst, k: nat): seq<Piece>
    requires c.Box? && k < |c.items|
  {
    if k + 1 < |c.items| then c.items[k + 1].lead[..SkipTrivia(c.items[k + 1].lead, 0)]
    else c.tail[..SkipTrivia(c.tail, 0)]
  }

  ghost predicate CellFor(c: Cst, k: nat, cell: Cell)
    requires c.Box? && k < |c.items|
  {
    && CellOk(c.kind, cell) && TreeOk(cell.val) && ToCst(cell.val) == c.items[k].val
    && Gaps(cell.pre) == BehindComma(c, k) && Gaps(cell.post) == BeforeComma(c, k)
    && Name(c.kind, cell) == c.items[k].name
  }

  lemma CommaIs(p: Piece)
    requires ValidPiece(p) && p.kind.Comma?
    ensures p == CommaPiece()
  {}

  lemma ColonIs(p: Piece)
    requires ValidPiece(p) && p.kind.Colon?
    ensures p == ColonPiece()
  {}

  lemma PieceValid(ps: seq<Piece>, k: nat)
    requires Lexical(ps) && k < |ps|
    ensures ValidPiece(ps[k])
  {
    hide ValidPiece;
  }

  // The gap in front of item k, its separator taken apart.
  lemma PreOf(c: Cst, k: nat) returns (pre: seq<Gap>)
    requires WellFormed(c) && c.Box? && k < |c.items| && Lexical(Flat(c))
    ensures GapsOk(pre) && Gaps(pre) == BehindComma(c, k)
    ensures k > 0 ==> var l := c.items[k].lead; var s := SkipTrivia(l, 0);
                      s < |l| && l == l[..s] + [CommaPiece()] + BehindComma(c, k)
  {
    hide WellFormed, Lexical, Flat, FlatItems, IsSeparator, AllTrivia, SkipTrivia, ValidPiece, IsName;
    var it := c.items[k];
    ItemLeadOk(c, k);
    ItemValueOk(c, k);
    ItemNameKind(c, k);
    FlatAt(c, k);
    FlatFirst(it.val);
    var a, b := BeforeItem(c, k), it.name + Flat(it.val) + AfterItem(c, k);
    assert b[0] == if it.name != [] then it.name[0] else Flat(it.val)[0];
    Assoc4(a + it.lead, it.name, Flat(it.val), AfterItem(c, k));
    if k == 0 {
      pre := GapsIn(a, it.lead, b);
    } else {
      var l := it.lead;
      SeparatorParts(l);
      var s := SkipTrivia(l, 0);
      PieceValid(Flat(c), |a| + s);
      assert Flat(c) == a + l + b;
      assert Flat(c)[|a| + s] == l[s];
      CommaIs(l[s]);
      Assoc(a, l[..s] + [l[s]], l[s + 1..]);
      pre := GapsIn(a + (l[..s] + [l[s]]), l[s + 1..], b);
    }
  }

  lemma ItemNameKind(c: Cst, k: nat)
    requires WellFormed(c) && c.Box? && k < |c.items|
    ensures NameOk(c.kind, c.items[k])
    ensures c.items[k].name != [] ==> c.items[k].name[0].kind.Str?
  {
    hide Decode;
    assert NameOk(c.kind, c.items[k]);
  }

  // The gap behind item k.
  lemma PostOf(c: Cst, k: nat) returns (post: seq<Gap>)
    requires WellFormed(c) && c.Box? && k < |c.items| && Lexical(Flat(c))
    ensures GapsOk(post) && Gaps(post) == BeforeComma(c, k)
  {
    hide WellFormed, Lexical, Flat, FlatItems, IsSeparator, AllTrivia, SkipTrivia, ValidPiece;
    if k + 1 < |c.items| {
      var l := c.items[k + 1].lead;
      ItemLeadOk(c, k + 1);
      SeparatorParts(l);
      var s := SkipTrivia(l, 0);
      FlatAt(c, k + 1);
      var a, b := BeforeItem(c, k + 1), c.items[k + 1].name + Flat(c.items[k + 1].val) + AfterItem(c, k + 1);
      Assoc4(a + l, c.items[k + 1].name, Flat(c.items[k + 1].val), AfterItem(c, k + 1));
      Parts5(a, l[..s], [l[s]], l[s + 1..], b);
      Assoc(a + l[..s], [l[s]], l[s + 1..] + b);
      post := GapsIn(a, l[..s], [l[s]] + (l[s + 1..] + b));
    } else {
      FlatBeforeCloser(c);
      TailKind(c);
      post := TailGap(c);
    }
  }

  lemma TailKind(c: Cst)
    requires WellFormed(c) && c.Box?
    ensures TailOk(c.items, c.tail)
  {}

  lemma TailGap(c: Cst) returns (post: seq<Gap>)
    requires WellFormed(c) && c.Box? && Lexical(Flat(c))
    ensures GapsOk(post) && Gaps(post) == c.tail[..SkipTrivia(c.tail, 0)]
  {
    hide WellFormed, Lexical, Flat, FlatItems, ValidPiece;
    TailKind(c);
    FlatBox(c);
    var a, t, z := [Opener(c.kind)] + FlatItems(c.items), c.tail, [Closer(c.kind)];
    var s := SkipTrivia(t, 0);
    if s == |t| {
      assert t[..s] == t;
      post := GapsIn(a, t, z);
    } else {
      SeparatorParts(t);
      hide IsSeparator, SkipTrivia, AllTrivia;
      Parts5(a, t[..s], [t[s]], t[s + 1..], z);
      Assoc(a + t[..s], [t[s]], t[s + 1..] + z);
      post := GapsIn(a, t[..s], [t[s]] + (t[s + 1..] + z));
    }
  }

  // The gap behind a trailing comma.
  lemma LastOf(c: Cst) returns (last: seq<Gap>)
    requires WellFormed(c) && c.Box? && Lexical(Flat(c)) && SkipTrivia(c.tail, 0) < |c.tail|
    ensures var s := SkipTrivia(c.tail, 0);
            GapsOk(last) && c.items != [] && c.tail == c.tail[..s] + [CommaPiece()] + Gaps(last)
  {
    hide WellFormed, Lexical, Flat, FlatItems, ValidPiece;
    TailKind(c);
    FlatBox(c);
    var a, t, z := [Opener(c.kind)] + FlatItems(c.items), c.tail, [Closer(c.kind)];
    var s := SkipTrivia(t, 0);
    SeparatorParts(t);
    hide IsSeparator, SkipTrivia, AllTrivia;
    PieceValid(Flat(c), |a| + s);
    assert Flat(c)[|a| + s] == t[s];
    CommaIs(t[s]);
    Assoc(a, t[..s] + [t[s]], t[s + 1..]);
    last := GapsIn(a + (t[..s] + [t[s]]), t[s + 1..], z);
  }

  // The key of item k, its spelling, and the gaps around its colon.
  lemma NamesOf(c: Cst, k: nat) returns (key: seq<Char>, mid: seq<Gap>, colon: seq<Gap>)
    requires WellFormed(c) && IsObject(c) && k < |c.items| && Lexical(Flat(c))
    ensures AllOk(key) && GapsOk(mid) && GapsOk(colon) && forall n :: 0 <= n < |mid| ==> mid[n].Blank?
    ensures c.items[k].name == [Piece(Str, Written(key))] + Gaps(mid) + [ColonPiece()] + Gaps(colon)
  {
    hide WellFormed, Lexical, Flat, FlatItems, ValidPiece, Written, Denote, AllOk, Decode;
    var it := c.items[k];
    var name := it.name;
    ItemNameOk(c, k);
    var s, m, y := NameParts(name);
    FlatAt(c, k);
    ItemValueOk(c, k);
    FlatFirst(it.val);
    hide IsName, SkipSpaces, SkipTrivia, AllTrivia;
    var a, b := BeforeItem(c, k) + it.lead, Flat(it.val) + AfterItem(c, k);
    assert b[0] == Flat(it.val)[0];
    Assoc(a + name, Flat(it.val), AfterItem(c, k));
    PieceValid(Flat(c), |a| + 1 + |m|);
    assert Flat(c)[|a| + 1 + |m|] == name[1 + |m|] == s;
    ColonIs(s);
    NameGroups(a, name[0], m, s, y, b);
    mid := GapsIn(a + [name[0]], m, [s] + (y + b));
    colon := GapsIn(a + ([name[0]] + m + [s]), y, b);
    key := SpellingOf(name[0].text);
    assert name[0] == Piece(Str, name[0].text);
  }

  lemma NameGroups<T>(a: seq<T>, h: T, m: seq<T>, s: T, y: seq<T>, b: seq<T>)
    ensures a + ([h] + m + [s] + y) + b == (a + [h]) + m + ([s] + (y + b))
    ensures a + ([h] + m + [s] + y) + b == (a + ([h] + m + [s])) + y + b
  {
    Assoc(a, [h] + m + [s], y);
    Assoc4(a, [h], m, [s]);
    Assoc4(a + [h] + m, [s], y, b);
  }

  lemma SpellingOf(raw: bytes) returns (key: seq<Char>)
    requires Decode(raw).Some?
    ensures AllOk(key) && raw == Written(key) && Decode(raw) == Some(Denote(key))
  {
    hide Decode, Written, Denote, AllOk;
    DecodeExact(raw, Decode(raw).value);
    key :| AllOk(key) && raw == Written(key) && Decode(raw).value == Denote(key);
  }

  lemma NameParts(name: seq<Piece>) returns (s: Piece, m: seq<Piece>, y: seq<Piece>)
    requires IsName(name)
    ensures |name| == 2 + |m| + |y| && name[0].kind.Str? && Decode(name[0].text).Some? && s.kind.Colon?
    ensures name == [name[0]] + m + [s] + y && name[1 + |m|] == s
    ensures AllTrivia(m) && AllTrivia(y) && forall n :: 0 <= n < |m| ==> m[n].kind.Space?
  {
    hide Decode;
    var c := SkipSpaces(name, 1);
    s, m, y := name[c], name[1..c], name[c + 1..];
    TriviaExact(m);
    SliceTrivia(name, c + 1, |name|);
  }

  // ----- the tree of a parsed value -----

  lemma {:induction false} CellOf(c: Cst, k: nat) returns (cell: Cell)
    requires WellFormed(c) && c.Box? && k < |c.items| && Lexical(Flat(c))
    ensures CellFor(c, k, cell)
    decreases c, 0, 0
  {
    hide WellFormed, Lexical, Flat, FlatItems, Gaps, GapsOk, BehindComma, BeforeComma, TreeOk, ToCst, Written, AllOk;
    var it := c.items[k];
    ItemValueOk(c, k);
    ItemLexical(c, k);
    var val := TreeOf(it.val);
    var pre := PreOf(c, k);
    var post := PostOf(c, k);
    if c.kind.Object? {
      var key, mid, colon := NamesOf(c, k);
      cell := Cell(pre, key, mid, colon, val, post);
    } else {
      ItemNameKind(c, k);
      cell := Cell(pre, [], [], [], val, post);
    }
  }

  lemma ItemLexical(c: Cst, k: nat)
    requires c.Box? && k < |c.items| && Lexical(Flat(c))
    ensures Lexical(Flat(c.items[k].val))
  {
    hide Lexical, Flat, FlatItems;
    FlatAt(c, k);
    ConcatLexical(BeforeVal(c, k) + Flat(c.items[k].val), AfterItem(c, k));
    ConcatLexical(BeforeVal(c, k), Flat(c.items[k].val));
  }

  lemma {:induction false} CellsOf(c: Cst, n: nat) returns (cells: seq<Cell>)
    requires WellFormed(c) && c.Box? && n <= |c.items| && Lexical(Flat(c))
    ensures |cells| == n && forall k :: 0 <= k < n ==> CellFor(c, k, cells[k])
    decreases c, 1, n
  {
    hide WellFormed, Lexical, Flat, CellFor;
    if n == 0 {
      cells := [];
    } else {
      var some := CellsOf(c, n - 1);
      var cell := CellOf(c, n - 1);
      cells := some + [cell];
    }
  }

  lemma {:induction false} TreeOf(c: Cst) returns (t: Tree)
    requires WellFormed(c) && Lexical(Flat(c))
    ensures TreeOk(t) && ToCst(t) == c
    decreases c, 2, 0
  {
    if c.Leaf? {
      t := Atom(c.piece.kind.Str?, c.piece.text);
      PieceValid(Flat(c), 0);
      hide ValidPiece, IsString, IsScalar;
      PieceBytes(c.piece);
    } else {
      hide WellFormed, Lexical, Flat, CellFor;
      var cells := CellsOf(c, |c.items|);
      t := GroupOf(c, cells);
    }
  }

  lemma GroupOf(c: Cst, cells: seq<Cell>) returns (t: Tree)
    requires WellFormed(c) && c.Box? && Lexical(Flat(c))
    requires |cells| == |c.items| && forall k :: 0 <= k < |cells| ==> CellFor(c, k, cells[k])
    ensures TreeOk(t) && ToCst(t) == c
  {
    hide WellFormed, Lexical, Flat, Gaps, GapsOk, CellOk, TreeOk, ToCst, BehindComma, BeforeComma, Name;
    var s := SkipTrivia(c.tail, 0);
    var trailing, last := s < |c.tail|, [];
    NoGaps();
    if trailing {
      last := LastOf(c);
    } else if c.items == [] {
      last := TailGap(c);
      assert c.tail[..s] == c.tail;
    }
    t := Group(c.kind, cells, trailing, last);
    GroupOk(c, t);
    TailSame(c, t);
    BoxOf(t);
    var d := ToCst(t);
    forall k | 0 <= k < |cells| ensures d.items[k] == c.items[k] {
      CellTree(t, k);
      LeadSame(c, t, k);
      assert CellFor(c, k, t.cells[k]);
    }
    assert d.items == c.items;
  }

  lemma GroupOk(c: Cst, t: Tree)
    requires WellFormed(c) && c.Box? && t.Group? && t.kind == c.kind && |t.cells| == |c.items|
    requires forall k :: 0 <= k < |t.cells| ==> CellFor(c, k, t.cells[k])
    requires GapsOk(t.last) && (t.trailing ==> t.cells != [])
    ensures TreeOk(t)
  {
    hide WellFormed, Gaps, GapsOk, ToCst, BehindComma, BeforeComma, Name, Denote, AllOk;
    forall k | 0 <= k < |t.cells| ensures CellOk(t.kind, t.cells[k]) && TreeOk(t.cells[k].val) {
      assert CellFor(c, k, t.cells[k]);
    }
    if c.kind.Object? {
      forall m, n | 0 <= m < n < |t.cells| ensures Denote(t.cells[m].key) != Denote(t.cells[n].key) {
        KeyIs(c, m, t.cells[m]);
        KeyIs(c, n, t.cells[n]);
        KeysDistinct(c, m, n);
      }
      assert UniqueKeys(t.cells);
    }
  }

  lemma KeyIs(c: Cst, k: nat, cell: Cell)
    requires IsObject(c) && k < |c.items| && CellFor(c, k, cell)
    ensures AllOk(cell.key) && KeyOf(c.items[k]) == Denote(cell.key)
  {
    hide Gaps, GapsOk, ToCst, TreeOk, BehindComma, BeforeComma, Written, Denote, AllOk, Decode;
    DecodeExact(Written(cell.key), Denote(cell.key));
    assert c.items[k].name[0] == Piece(Str, Written(cell.key));
  }

  lemma KeysDistinct(c: Cst, m: nat, n: nat)
    requires WellFormed(c) && IsObject(c) && m < n < |c.items|
    ensures KeyOf(c.items[m]) != KeyOf(c.items[n])
  {
    hide KeyOf;
    assert DistinctKeys(c.items);
  }

  lemma TailSame(c: Cst, t: Tree)
    requires c.Box? && t.Group? && |t.cells| == |c.items|
    requires forall k :: 0 <= k < |t.cells| ==> CellFor(c, k, t.cells[k])
    requires var s := SkipTrivia(c.tail, 0);
             && t.trailing == (s < |c.tail|) && (t.trailing ==> c.items != [])
             && (t.trailing ==> c.tail == c.tail[..s] + [CommaPiece()] + Gaps(t.last))
             && (!t.trailing && c.items != [] ==> t.last == [])
             && (!t.trailing && c.items == [] ==> Gaps(t.last) == c.tail)
    ensures Tail(t.cells, t.trailing, t.last) == c.tail
  {
    hide Gaps, CellFor, SkipTrivia;
    var s := SkipTrivia(c.tail, 0);
    assert Gaps([]) == [] by { NoGaps(); }
    if c.items != [] {
      LastPost(c, t.cells[|t.cells| - 1]);
      if !t.trailing { assert c.tail[..s] == c.tail && c.tail + [] + [] == c.tail; }
    } else {
      assert [] + c.tail == c.tail;
    }
  }

  lemma LastPost(c: Cst, cell: Cell)
    requires c.Box? && c.items != [] && CellFor(c, |c.items| - 1, cell)
    ensures Gaps(cell.post) == c.tail[..SkipTrivia(c.tail, 0)]
  {
    hide Gaps, CellOk, TreeOk, ToCst, BehindComma, Name;
  }

  lemma NoGaps()
    ensures Gaps([]) == [] && GapsOk([])
  {}

  lemma LeadSame(c: Cst, t: Tree, k: nat)
    requires WellFormed(c) && c.Box? && Lexical(Flat(c)) && t.Group? && |t.cells| == |c.items| && k < |t.cells|
    requires forall n :: 0 <= n < |t.cells| ==> CellFor(c, n, t.cells[n])
    ensures Lead(t.cells, k) == c.items[k].lead
  {
    hide WellFormed, Lexical, Flat, Gaps, GapsOk, CellOk, TreeOk, ToCst, Name;
    assert CellFor(c, k, t.cells[k]);
    if k == 0 {
      assert [] + c.items[0].lead == c.items[0].lead;
    } else {
      assert CellFor(c, k - 1, t.cells[k - 1]);
      var pre := PreOf(c, k);
    }
  }

  // ----- the whole file -----

  lemma FileOf(f: File) returns (pre: seq<Gap>, t: Tree, post: seq<Gap>, remark: Option<bytes>)
    requires Sound(f)
    ensures GapsOk(pre) && TreeOk(t) && GapsOk(post) && (remark.Some? ==> OneLine(remark.value))
    ensures Gaps(pre) == f.doc.pre && ToCst(t) == f.doc.root && Gaps(post) + RemarkPieces(remark) == f.doc.post
  {
    hide WellFormed, Lexical, Flat, ValidPiece, TreeOk, ToCst, Gaps, GapsOk, AllTrivia;
    var d := f.doc;
    FlatFirst(d.root);
    ConcatLexical(d.pre + Flat(d.root), d.post);
    ConcatLexical(d.pre, Flat(d.root));
    t := TreeOf(d.root);
    Assoc(d.pre, Flat(d.root), d.post);
    assert [] + d.pre == d.pre;
    pre := GapsIn([], d.pre, Flat(d.root));
    var n := |d.post|;
    if n > 0 && IsLineComment(d.post[n - 1]) {
      var x, p := d.post[..n - 1], d.post[n - 1];
      assert d.post == x + [p] && [] + x == x;
      TriviaConcat(x, [p]);
      assert p.kind.Comment?;
      post := GapsIn([], x, [p]);
      PieceValid(d.post, n - 1);
      assert OneLine(p.text[2..]) && p.text == [0x2F, 0x2F] + p.text[2..] by { LineText(p); }
      remark := Some(p.text[2..]);
      assert RemarkPieces(remark) == [p];
    } else {
      TriviaExact(d.post);
      post := GapsOf(d.post);
      remark := None;
      assert d.post + [] == d.post;
    }
  }

  lemma LineText(p: Piece)
    requires ValidPiece(p) && IsLineComment(p)
    ensures OneLine(p.text[2..]) && p.text == [0x2F, 0x2F] + p.text[2..]
  {}

  datatype Whole = Whole(bom: bool, pre: seq<Gap>, tree: Tree, post: seq<Gap>, remark: Option<bytes>)

  ghost predicate WholeOk(w: Whole) {
    GapsOk(w.pre) && TreeOk(w.tree) && GapsOk(w.post) && (w.remark.Some? ==> OneLine(w.remark.value))
  }

  ghost predicate IsFile(src: bytes, w: Whole) {
    WholeOk(w) && src == FileText(w.bom, w.pre, w.tree, w.post, w.remark)
  }

  // A source is accepted exactly when it is a text of the grammar.
  lemma AcceptExact(src: bytes)
    ensures Parse(src).Some? <==> exists w :: IsFile(src, w)
    ensures forall w :: IsFile(src, w) ==> MeaningOf(src) == Some(Mean(w.tree))
  {
    hide Parse, FileText, TreeOk, GapsOk, Mean, Sound, OneLine;
    if Parse(src).Some? {
      var f := Parse(src).value;
      ParseExact(src, f);
      var pre, t, post, remark := FileOf(f);
      var w := Whole(f.bom, pre, t, post, remark);
      FilePrints(f, w);
      assert IsFile(src, w);
    }
    forall w | IsFile(src, w) ensures MeaningOf(src) == Some(Mean(w.tree)) {
      TextParses(w.bom, w.pre, w.tree, w.post, w.remark);
    }
  }

  lemma FilePrints(f: File, w: Whole)
    requires WholeOk(w) && w.bom == f.bom
    requires Gaps(w.pre) == f.doc.pre && ToCst(w.tree) == f.doc.root && Gaps(w.post) + RemarkPieces(w.remark) == f.doc.post
    ensures Print(f) == FileText(w.bom, w.pre, w.tree, w.post, w.remark)
  {
    hide ToCst, Lexical, Flat, Text, Show, TreeOk, GapsOk, ShowGaps, Gaps, Free, AllTrivia;
    var a, c, b, z := Gaps(w.pre), f.doc.root, Gaps(w.post), RemarkPieces(w.remark);
    GapsFree(w.pre);
    GapsFree(w.post);
    TreePrints(w.tree);
    RemarkSoft(w.remark);
    Assoc(a + Flat(c), b, z);
    TextConcat(a, Flat(c));
    TextConcat(a + Flat(c), b);
    TextConcat(a + Flat(c) + b, z);
    Marked(w.bom, ShowGaps(w.pre), Show(w.tree), ShowGaps(w.post), Text(z));
  }
}
