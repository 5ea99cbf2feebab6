/**
 The texts that the patcher must read: RFC 8259, section by section, with the
 comments and the trailing comma of JSONC. The grammar here is written in bytes
 and by itself; that every text of it parses, and to what, is the theorem.
 */
module JsonText {
  import opened Bytes
  import opened JsoncLex
  import opened Scalars
  import opened JsoncSyntax
  import opened JsoncEdit
  import opened JsoncTrivia
  import opened JsoncSeams
  import opened JsoncMeaning
  import opened JsoncTheorems
  import opened JsoncSpans
  import opened JsonPieces
  import opened JsonString

  // ----- the grammar -----

  // White space and comments; a line comment goes up to its line break.
  datatype Gap = Blank(b: byte) | Line(text: bytes, eol: byte) | Block(text: bytes)

  datatype Tree =
    | Atom(isString: bool, text: bytes)
    | Group(kind: BoxKind, cells: seq<Cell>, trailing: bool, last: seq<Gap>)

  // One member, or one element, which has no key.
  datatype Cell = Cell(pre: seq<Gap>, key: seq<Char>, mid: seq<Gap>, colon: seq<Gap>, val: Tree, post: seq<Gap>)

  predicate GapOk(g: Gap) {
    match g
    case Blank(b) => b in [0x20, 0x09, 0x0A, 0x0D]
    case Line(text, eol) => OneLine(text) && eol in [0x0A, 0x0D]
    case Block(text) => NoClose(text)
  }

  predicate GapsOk(gs: seq<Gap>) { forall k :: 0 <= k < |gs| ==> GapOk(gs[k]) }

  ghost predicate CellOk(kind: BoxKind, c: Cell) {
    && GapsOk(c.pre) && GapsOk(c.post)
    && (kind.Object? ==>
          && AllOk(c.key) && GapsOk(c.mid) && GapsOk(c.colon)
          && forall k :: 0 <= k < |c.mid| ==> c.mid[k].Blank?)
  }

  ghost predicate UniqueKeys(cells: seq<Cell>)
    requires forall k :: 0 <= k < |cells| ==> AllOk(cells[k].key)
  {
    forall m, n :: 0 <= m < n < |cells| ==> Denote(cells[m].key) != Denote(cells[n].key)
  }

  ghost predicate TreeOk(t: Tree)
    decreases t
  {
    match t
    case Atom(isString, text) => if isString then IsString(text) else IsScalar(text)
    case Group(kind, cells, trailing, last) =>
      && (trailing ==> cells != []) && GapsOk(last)
      && (forall k :: 0 <= k < |cells| ==> CellOk(kind, cells[k]))
      && (forall k :: 0 <= k < |cells| ==> TreeOk(cells[k].val))
      && (kind.Object? ==> UniqueKeys(cells))
  }

  // ----- the bytes of a text -----

  function ShowGap(g: Gap): bytes {
    match g
    case Blank(b) => [b]
    case Line(text, eol) => [0x2F, 0x2F] + text + [eol]
    case Block(text) => [0x2F, 0x2A] + text + [0x2A, 0x2F]
  }

  function ShowGaps(gs: seq<Gap>): bytes { if gs == [] then [] else ShowGap(gs[0]) + ShowGaps(gs[1..]) }

  ghost function Show(t: Tree): bytes
    requires TreeOk(t)
    decreases t, 1, 0
  {
    match t
    case Atom(_, text) => text
    case Group(kind, cells, trailing, last) =>
      [if kind.Object? then 0x7B else 0x5B]
      + ShowCells(t, |cells|)
      + (if cells == [] then [] else ShowGaps(cells[|cells| - 1].post) + (if trailing then [0x2C] else []))
      + ShowGaps(last)
      + [if kind.Object? then 0x7D else 0x5D]
  }

  // The first n members or elements, with gap, comma and gap between two.
  ghost function ShowCells(t: Tree, n: nat): bytes
    requires TreeOk(t) && t.Group? && n <= |t.cells|
    decreases t, 0, n
  {
    if n == 0 then []
    else
      var c := t.cells[n - 1];
      ShowCells(t, n - 1)
      + (if n == 1 then [] else ShowGaps(t.cells[n - 2].post) + [0x2C])
      + ShowGaps(c.pre) + ShowKey(t.kind, c) + Show(c.val)
  }

  ghost function ShowKey(kind: BoxKind, c: Cell): bytes
    requires CellOk(kind, c)
  {
    if kind.Array? then [] else Written(c.key) + ShowGaps(c.mid) + [0x3A] + ShowGaps(c.colon)
  }

  // What it means.
  ghost function Mean(t: Tree): Value
    requires TreeOk(t)
    decreases t
  {
    match t
    case Atom(isString, text) => Literal(if isString then Str else Scalar, text)
    case Group(Object, cells, _, _) =>
      Obj(seq(|cells|, k requires 0 <= k < |cells| => Member(Denote(cells[k].key), Mean(cells[k].val))))
    case Group(Array, cells, _, _) =>
      Arr(seq(|cells|, k requires 0 <= k < |cells| => Mean(cells[k].val)))
  }

  // ----- the same text in pieces -----

  function GapPieces(g: Gap): seq<Piece> {
    match g
    case Blank(b) => [Piece(Space, [b])]
    case Line(text, eol) => [Piece(Comment, [0x2F, 0x2F] + text), Piece(Space, [eol])]
    case Block(text) => [Piece(Comment, [0x2F, 0x2A] + text + [0x2A, 0x2F])]
  }

  function Gaps(gs: seq<Gap>): seq<Piece> { if gs == [] then [] else GapPieces(gs[0]) + Gaps(gs[1..]) }

  function Lead(cells: seq<Cell>, k: nat): seq<Piece>
    requires k < |cells|
  {
    (if k == 0 then [] else Gaps(cells[k - 1].post) + [CommaPiece()]) + Gaps(cells[k].pre)
  }

  ghost function Name(kind: BoxKind, c: Cell): seq<Piece>
    requires CellOk(kind, c)
  {
    if kind.Array? then [] else [Piece(Str, Written(c.key))] + Gaps(c.mid) + [ColonPiece()] + Gaps(c.colon)
  }

  function Tail(cells: seq<Cell>, trailing: bool, last: seq<Gap>): seq<Piece> {
    (if cells == [] then [] else Gaps(cells[|cells| - 1].post) + (if trailing then [CommaPiece()] else [])) + Gaps(last)
  }

  ghost function ToCst(t: Tree): Cst
    requires TreeOk(t)
    decreases t
  {
    match t
    case Atom(isString, text) => Leaf(Piece(if isString then Str else Scalar, text))
    case Group(kind, cells, trailing, last) =>
      Box(kind,
          seq(|cells|, k requires 0 <= k < |cells| => Item(Lead(cells, k), Name(kind, cells[k]), ToCst(cells[k].val))),
          Tail(cells, trailing, last))
  }

  // ----- how such pieces go together -----

  // Neither a number nor a line comment at the end; no line comment; and no
  // number byte at the start.
  ghost predicate Ends(a: seq<Piece>) { a != [] ==> !IsNumber(a[|a| - 1]) && !IsLineComment(a[|a| - 1]) }
  ghost predicate Calm(a: seq<Piece>) { a != [] ==> !IsLineComment(a[|a| - 1]) }
  ghost predicate Soft(b: seq<Piece>) { b != [] ==> b[0].text != [] && !IsNumChar(b[0].text[0]) }

  // Pieces that may stand behind and in front of anything.
  ghost predicate Free(a: seq<Piece>) { Lexical(a) && Ends(a) && Soft(a) }

  lemma Join(a: seq<Piece>, b: seq<Piece>)
    requires Lexical(a) && Lexical(b) && Calm(a) && (Ends(a) || Soft(b))
    ensures Lexical(a + b)
    ensures Calm(b) ==> Calm(a + b)
    ensures Ends(b) && (b != [] || Ends(a)) ==> Ends(a + b)
    ensures Soft(a) && (a != [] || Soft(b)) ==> Soft(a + b)
  {
    hide Lexical, ValidPiece, IsNumber, IsLineComment;
    if b != [] {
      assert ValidPiece(b[0]) by { FirstValid(b); }
      NotEmpty(b[0]);
      assert (a + b)[|a + b| - 1] == b[|b| - 1];
    } else {
      assert a + b == a;
    }
    if a != [] { assert (a + b)[0] == a[0]; } else { assert a + b == b; }
    ConcatLexical(a, b);
  }

  lemma FirstValid(b: seq<Piece>)
    requires Lexical(b) && b != []
    ensures ValidPiece(b[0])
  {
    hide ValidPiece;
  }

  lemma NotEmpty(p: Piece)
    requires ValidPiece(p)
    ensures p.text != []
  {}

  lemma OnePieceFree(p: Piece)
    requires ValidPiece(p) && !p.kind.Scalar? && !IsLineComment(p)
    ensures Free([p])
  {
    FirstByte(p);
  }

  lemma LineFree(text: bytes, eol: byte)
    requires OneLine(text) && eol in [0x0A, 0x0D]
    ensures Free([Piece(Comment, [0x2F, 0x2F] + text), Piece(Space, [eol])])
  {
    var p, q := Piece(Comment, [0x2F, 0x2F] + text), Piece(Space, [eol]);
    assert ValidPiece(p) && ValidPiece(q);
    assert Adjacent(p, q);
    ConcatLexical([p], [q]);
    assert [p, q] == [p] + [q];
  }

  lemma GapFree(g: Gap)
    requires GapOk(g)
    ensures Free(GapPieces(g)) && Text(GapPieces(g)) == ShowGap(g)
    ensures forall k :: 0 <= k < |GapPieces(g)| ==> IsTrivia(GapPieces(g)[k])
  {
    hide Lexical, Ends, Soft;
    match g
    case Blank(b) =>
      OnePieceFree(Piece(Space, [b]));
      TextOne(Piece(Space, [b]));
    case Line(text, eol) =>
      LineFree(text, eol);
      var p, q := Piece(Comment, [0x2F, 0x2F] + text), Piece(Space, [eol]);
      assert [p, q] == [p] + [q];
      TextConcat([p], [q]);
      TextOne(p);
      TextOne(q);
    case Block(text) =>
      BlockValid(text);
      OnePieceFree(Piece(Comment, [0x2F, 0x2A] + text + [0x2A, 0x2F]));
      TextOne(Piece(Comment, [0x2F, 0x2A] + text + [0x2A, 0x2F]));
  }

  lemma NothingFree()
    ensures Free([]) && Text([]) == [] && AllTrivia([])
  {}

  lemma FreeIs(a: seq<Piece>)
    requires Free(a)
    ensures Lexical(a) && Ends(a) && Soft(a) && Calm(a)
  {
    hide Lexical;
  }

  lemma FreeJoin(a: seq<Piece>, b: seq<Piece>)
    requires Free(a) && Free(b)
    ensures Free(a + b)
  {
    hide Lexical;
    Join(a, b);
  }

  lemma {:induction false} GapsFree(gs: seq<Gap>)
    requires GapsOk(gs)
    ensures Free(Gaps(gs)) && Text(Gaps(gs)) == ShowGaps(gs) && AllTrivia(Gaps(gs))
  {
    hide Free, GapOk, GapPieces, ShowGap, AllTrivia;
    NothingFree();
    if gs != [] {
      GapFree(gs[0]);
      GapsFree(gs[1..]);
      FreeJoin(GapPieces(gs[0]), Gaps(gs[1..]));
      TextConcat(GapPieces(gs[0]), Gaps(gs[1..]));
      TriviaExact(GapPieces(gs[0]));
      TriviaConcat(GapPieces(gs[0]), Gaps(gs[1..]));
    }
  }

  lemma {:induction false} BlanksOnly(gs: seq<Gap>)
    requires forall k :: 0 <= k < |gs| ==> gs[k].Blank?
    ensures forall k :: 0 <= k < |Gaps(gs)| ==> Gaps(gs)[k].kind.Space?
  {
    if gs != [] { BlanksOnly(gs[1..]); }
  }

  lemma PunctuationFree()
    ensures Free([CommaPiece()]) && Free([ColonPiece()]) && Text([CommaPiece()]) == [0x2C] && Text([ColonPiece()]) == [0x3A]
  {
    OnePieceFree(CommaPiece());
    OnePieceFree(ColonPiece());
    TextOne(CommaPiece());
    TextOne(ColonPiece());
  }

  lemma LeadFree(kind: BoxKind, cells: seq<Cell>, k: nat)
    requires k < |cells| && forall n :: 0 <= n < |cells| ==> CellOk(kind, cells[n])
    ensures Free(Lead(cells, k)) && (k > 0 ==> Lead(cells, k) != [])
    ensures Text(Lead(cells, k)) == (if k == 0 then [] else ShowGaps(cells[k - 1].post) + [0x2C]) + ShowGaps(cells[k].pre)
    ensures if k == 0 then AllTrivia(Lead(cells, k)) else IsSeparator(Lead(cells, k))
  {
    hide Free, Gaps, ShowGaps, AllTrivia, IsSeparator, GapsOk, Text;
    assert CellOk(kind, cells[k]);
    var b := Gaps(cells[k].pre);
    GapsFree(cells[k].pre);
    if k == 0 {
      assert [] + b == b && [] + ShowGaps(cells[k].pre) == ShowGaps(cells[k].pre);
    } else {
      assert CellOk(kind, cells[k - 1]);
      var a := Gaps(cells[k - 1].post);
      GapsFree(cells[k - 1].post);
      PunctuationFree();
      FreeJoin(a, [CommaPiece()]);
      FreeJoin(a + [CommaPiece()], b);
      TextConcat(a, [CommaPiece()]);
      TextConcat(a + [CommaPiece()], b);
      SeparatorIs(a, CommaPiece(), b);
    }
  }

  lemma NameFree(kind: BoxKind, c: Cell)
    requires CellOk(kind, c)
    ensures Free(Name(kind, c)) && Text(Name(kind, c)) == ShowKey(kind, c)
    ensures kind.Object? ==> IsName(Name(kind, c)) && Name(kind, c)[0] == Piece(Str, Written(c.key))
    ensures kind.Object? ==> Decode(Written(c.key)) == Some(Denote(c.key))
  {
    hide Free, Gaps, ShowGaps, Written, Denote, GapsOk, AllOk, Text, IsName, AllTrivia, Decode, ValidPiece;
    NothingFree();
    if kind.Object? {
      var key, a, b := Piece(Str, Written(c.key)), Gaps(c.mid), Gaps(c.colon);
      WrittenPiece(c.key, []);
      DecodeExact(key.text, Denote(c.key));
      OnePieceFree(key);
      GapsFree(c.mid);
      GapsFree(c.colon);
      PunctuationFree();
      FreeJoin([key], a);
      FreeJoin([key] + a, [ColonPiece()]);
      FreeJoin([key] + a + [ColonPiece()], b);
      TextOne(key);
      TextConcat([key], a);
      TextConcat([key] + a, [ColonPiece()]);
      TextConcat([key] + a + [ColonPiece()], b);
      BlanksOnly(c.mid);
      NameIs(key, a, b);
    }
  }

  lemma NameIs(key: Piece, a: seq<Piece>, b: seq<Piece>)
    requires key.kind.Str? && Decode(key.text).Some? && AllTrivia(b)
    requires forall k :: 0 <= k < |a| ==> a[k].kind.Space?
    ensures IsName([key] + a + [ColonPiece()] + b)
  {
    hide Decode;
    var ps, c := [key] + a + [ColonPiece()] + b, 1 + |a|;
    assert ps[c] == ColonPiece();
    forall n | 1 <= n < c ensures ps[n].kind.Space? { assert ps[n] == a[n - 1]; }
    SkipSpacesIs(ps, 1, c);
    TriviaExact(b);
    forall n | c < n < |ps| ensures IsTrivia(ps[n]) { assert ps[n] == b[n - c - 1]; }
    SkipTriviaIs(ps, c + 1, |ps|);
  }

  lemma TailFree(t: Tree)
    requires TreeOk(t) && t.Group?
    ensures var tail := Tail(t.cells, t.trailing, t.last);
            && Free(tail)
            && Text(tail) == (if t.cells == [] then []
                              else ShowGaps(t.cells[|t.cells| - 1].post) + (if t.trailing then [0x2C] else []))
                             + ShowGaps(t.last)
            && (AllTrivia(tail) || (t.cells != [] && IsSeparator(tail)))
  {
    hide Free, Gaps, ShowGaps, AllTrivia, IsSeparator, GapsOk, Text;
    NothingFree();
    var b := Gaps(t.last);
    GapsFree(t.last);
    if t.cells == [] {
      assert [] + b == b && [] + ShowGaps(t.last) == ShowGaps(t.last);
    } else {
      var c := t.cells[|t.cells| - 1];
      assert CellOk(t.kind, c);
      var a := Gaps(c.post);
      GapsFree(c.post);
      PunctuationFree();
      FreeJoin(a, [CommaPiece()]);
      FreeJoin(a + [CommaPiece()], b);
      FreeJoin(a, b);
      TextConcat(a, [CommaPiece()]);
      TextConcat(a + [CommaPiece()], b);
      TextConcat(a, b);
      SeparatorIs(a, CommaPiece(), b);
      TriviaConcat(a, b);
      assert a + [] == a && ShowGaps(c.post) + [] == ShowGaps(c.post);
    }
  }

  // ----- the tree of a text -----

  lemma CellTree(t: Tree, k: nat)
    requires TreeOk(t) && t.Group? && k < |t.cells|
    ensures CellOk(t.kind, t.cells[k]) && TreeOk(t.cells[k].val)
    ensures ToCst(t).Box? && ToCst(t).kind == t.kind && |ToCst(t).items| == |t.cells|
    ensures ToCst(t).items[k] == Item(Lead(t.cells, k), Name(t.kind, t.cells[k]), ToCst(t.cells[k].val))
  {
    hide Lead, Name, Tail, CellOk;
  }

  lemma BoxOf(t: Tree)
    requires TreeOk(t) && t.Group?
    ensures ToCst(t).Box? && ToCst(t).kind == t.kind && |ToCst(t).items| == |t.cells|
    ensures ToCst(t).tail == Tail(t.cells, t.trailing, t.last)
  {
    hide Lead, Name, Tail, CellOk;
  }

  lemma {:induction false} TreeGrammar(t: Tree)
    requires TreeOk(t)
    ensures WellFormed(ToCst(t))
    decreases t
  {
    if t.Group? {
      hide ToCst, TreeOk, LeadOk, NameOk, IsSeparator, AllTrivia, Tail, Free, DistinctKeys, ShowGaps, Text;
      var c := ToCst(t);
      BoxOf(t);
      forall k | 0 <= k < |c.items|
        ensures LeadOk(c.items, k) && NameOk(c.kind, c.items[k]) && WellFormed(c.items[k].val)
      {
        ItemGrammar(t, k);
        TreeGrammar(t.cells[k].val);
      }
      TailFree(t);
      if c.kind.Object? { KeysApart(t); }
    }
  }

  lemma ItemGrammar(t: Tree, k: nat)
    requires TreeOk(t) && t.Group? && k < |t.cells|
    ensures TreeOk(t.cells[k].val) && ToCst(t).Box? && k < |ToCst(t).items|
    ensures ToCst(t).items[k].val == ToCst(t.cells[k].val)
    ensures LeadOk(ToCst(t).items, k) && NameOk(t.kind, ToCst(t).items[k])
  {
    hide ToCst, IsName, IsSeparator, AllTrivia, Lead, Free, Text, Decode, Written, Denote, ShowGaps, GapsOk;
    CellTree(t, k);
    LeadFree(t.kind, t.cells, k);
    NameFree(t.kind, t.cells[k]);
  }

  lemma CellKey(t: Tree, k: nat)
    requires TreeOk(t) && t.Group? && t.kind.Object? && k < |t.cells|
    ensures AllOk(t.cells[k].key) && k < |ToCst(t).items| && KeyOf(ToCst(t).items[k]) == Denote(t.cells[k].key)
  {
    hide ToCst, Denote, Written, Lead, Name, Decode, Free;
    CellTree(t, k);
    NameFree(t.kind, t.cells[k]);
    NameNotEmptyHere(Name(t.kind, t.cells[k]));
  }

  lemma NameNotEmptyHere(name: seq<Piece>)
    requires IsName(name)
    ensures name != []
  {
    hide Decode;
  }

  lemma KeysApart(t: Tree)
    requires TreeOk(t) && t.Group? && t.kind.Object?
    ensures DistinctKeys(ToCst(t).items)
  {
    hide ToCst, TreeOk, Denote, KeyOf;
    BoxOf(t);
    var items := ToCst(t).items;
    forall m, n | 0 <= m < n < |items| ensures KeyOf(items[m]) != KeyOf(items[n]) {
      CellKey(t, m);
      CellKey(t, n);
      KeysDiffer(t, m, n);
    }
  }

  lemma KeysDiffer(t: Tree, m: nat, n: nat)
    requires TreeOk(t) && t.Group? && t.kind.Object? && m < n < |t.cells|
    requires AllOk(t.cells[m].key) && AllOk(t.cells[n].key)
    ensures Denote(t.cells[m].key) != Denote(t.cells[n].key)
  {
    hide Denote, AllOk, GapsOk;
    assert UniqueKeys(t.cells);
  }

  // ----- its text, and how it lexes -----

  lemma Leaves(t: Tree)
    requires TreeOk(t) && !t.Group?
    ensures Lexical(Flat(ToCst(t))) && Calm(Flat(ToCst(t))) && Text(Flat(ToCst(t))) == Show(t)
  {
    hide ValidPiece, IsString, IsScalar;
    var p := ToCst(t).piece;
    PieceBytes(p);
    TextOne(p);
  }

  // The first n items behind the opener.
  lemma {:induction false} CellsPrint(t: Tree, n: nat)
    requires TreeOk(t) && t.Group? && n <= |t.cells|
    requires forall k :: 0 <= k < n ==> TreeOk(t.cells[k].val) && ValPrints(t.cells[k].val)
    ensures Printed(t, n)
    decreases n
  {
    hide TreeOk, Printed, ValPrints;
    if n == 0 {
      NonePrinted(t);
    } else {
      CellsPrint(t, n - 1);
      CellStep(t, n - 1);
    }
  }

  lemma NonePrinted(t: Tree)
    requires TreeOk(t) && t.Group?
    ensures Printed(t, 0)
  {
    hide TreeOk, ToCst, Lexical, Flat, FlatItems, Text, Show;
    BoxOf(t);
    assert ToCst(t).items[..0] == [];
    NoItemsPrint();
    OpenerFree(t.kind);
    assert [Opener(t.kind)] + [] == [Opener(t.kind)];
  }

  ghost predicate Printed(t: Tree, n: nat)
    requires TreeOk(t) && t.Group? && n <= |t.cells|
  {
    && ToCst(t).Box? && |ToCst(t).items| == |t.cells|
    && var ps := [Opener(t.kind)] + FlatItems(ToCst(t).items[..n]);
       Lexical(ps) && Calm(ps) && (n == 0 ==> Ends(ps)) && Text(FlatItems(ToCst(t).items[..n])) == ShowCells(t, n)
  }

  ghost predicate ValPrints(t: Tree)
    requires TreeOk(t)
  {
    && Lexical(Flat(ToCst(t))) && Calm(Flat(ToCst(t)))
    && Flat(ToCst(t)) != [] && Text(Flat(ToCst(t))) == Show(t)
  }

  lemma CellParts(t: Tree, k: nat) returns (lead: seq<Piece>, name: seq<Piece>)
    requires TreeOk(t) && t.Group? && k < |t.cells| && TreeOk(t.cells[k].val)
    ensures ToCst(t).Box? && |ToCst(t).items| == |t.cells|
    ensures ToCst(t).items[k] == Item(lead, name, ToCst(t.cells[k].val))
    ensures Free(lead) && Free(name) && (k > 0 ==> lead != [])
    ensures ShowCells(t, k + 1) == ShowCells(t, k) + Text(lead) + Text(name) + Show(t.cells[k].val)
  {
    hide TreeOk, ToCst, Lead, Name, Text, Show, CellOk, ShowGaps, Free, ShowKey, ShowCells, IsSeparator, AllTrivia, IsName, Written, Denote, Decode;
    CellTree(t, k);
    AllCells(t);
    LeadFree(t.kind, t.cells, k);
    NameFree(t.kind, t.cells[k]);
    ShownCell(t, k + 1);
    lead, name := Lead(t.cells, k), Name(t.kind, t.cells[k]);
  }

  lemma CellStep(t: Tree, k: nat)
    requires TreeOk(t) && t.Group? && k < |t.cells| && Printed(t, k)
    requires TreeOk(t.cells[k].val) && ValPrints(t.cells[k].val)
    ensures Printed(t, k + 1)
  {
    hide TreeOk, ToCst, Lexical, Flat, FlatItems, Text, Show, Ends, Calm, Free, ShowCells;
    var lead, name := CellParts(t, k);
    var items, val := ToCst(t).items, Flat(ToCst(t.cells[k].val));
    assert items[..k + 1] == items[..k] + [items[k]];
    var f := FlatItems(items[..k]);
    FlatItemsConcat(items[..k], [items[k]]);
    FlatOneItem(items[k]);
    OneMore([Opener(t.kind)], f, lead, name, val);
    Assoc4(ShowCells(t, k), Text(lead), Text(name), Text(val));
  }

  lemma AllCells(t: Tree)
    requires TreeOk(t) && t.Group?
    ensures forall n :: 0 <= n < |t.cells| ==> CellOk(t.kind, t.cells[n])
  {
    hide CellOk;
  }

  lemma OneMore(o: seq<Piece>, f: seq<Piece>, lead: seq<Piece>, name: seq<Piece>, val: seq<Piece>)
    requires Lexical(o + f) && Calm(o + f) && Free(lead) && Free(name) && Lexical(val) && Calm(val) && val != []
    requires lead != [] || Ends(o + f)
    ensures Lexical(o + (f + (lead + name + val))) && Calm(o + (f + (lead + name + val)))
    ensures Text(f + (lead + name + val)) == Text(f) + (Text(lead) + Text(name) + Text(val))
  {
    hide Lexical, Text, Calm;
    var a := o + f;
    FreeIs(lead);
    FreeIs(name);
    Join(a, lead);
    Join(a + lead, name);
    Join(a + lead + name, val);
    Assoc(o, f, lead + name + val);
    Assoc4(a, lead, name, val);
    TextConcat(f, lead + name + val);
    TextConcat(lead + name, val);
    TextConcat(lead, name);
  }

  lemma NoItemsPrint()
    ensures FlatItems([]) == [] && Text([]) == []
  {}

  lemma FlatOneItem(it: Item)
    ensures FlatItems([it]) == it.lead + it.name + Flat(it.val)
  {
    hide Flat;
    assert [it][1..] == [];
    NoItemsPrint();
    FlatSplit([it]);
    assert it.lead + it.name + Flat(it.val) + [] == it.lead + it.name + Flat(it.val);
  }

  lemma OpenerFree(kind: BoxKind)
    ensures Free([Opener(kind)]) && Free([Closer(kind)])
    ensures Text([Opener(kind)]) == [if kind.Object? then 0x7B else 0x5B]
    ensures Text([Closer(kind)]) == [if kind.Object? then 0x7D else 0x5D]
  {
    OnePieceFree(Opener(kind));
    OnePieceFree(Closer(kind));
    TextOne(Opener(kind));
    TextOne(Closer(kind));
  }

  lemma ShownCell(t: Tree, n: nat)
    requires TreeOk(t) && t.Group? && 0 < n <= |t.cells| && CellOk(t.kind, t.cells[n - 1]) && TreeOk(t.cells[n - 1].val)
    ensures var c := t.cells[n - 1];
            ShowCells(t, n) == ShowCells(t, n - 1)
              + ((if n == 1 then [] else ShowGaps(t.cells[n - 2].post) + [0x2C]) + ShowGaps(c.pre))
              + ShowKey(t.kind, c) + Show(c.val)
  {
    hide Show, ShowKey, ShowGaps, CellOk, TreeOk;
    Assoc(ShowCells(t, n - 1), if n == 1 then [] else ShowGaps(t.cells[n - 2].post) + [0x2C], ShowGaps(t.cells[n - 1].pre));
  }

  lemma {:induction false} TreePrints(t: Tree)
    requires TreeOk(t)
    ensures Lexical(Flat(ToCst(t))) && Calm(Flat(ToCst(t))) && Text(Flat(ToCst(t))) == Show(t)
    decreases t
  {
    if !t.Group? {
      Leaves(t);
    } else {
      hide ToCst, Lexical, Flat, Text, Show, WellFormed, Tail, ShowGaps;
      forall k | 0 <= k < |t.cells|
        ensures TreeOk(t.cells[k].val) && ValPrints(t.cells[k].val)
      {
        TreePrints(t.cells[k].val);
        TreeGrammar(t.cells[k].val);
        FlatLast(ToCst(t.cells[k].val));
      }
      CellsPrint(t, |t.cells|);
      GroupPrints(t);
    }
  }

  lemma GroupPrints(t: Tree)
    requires TreeOk(t) && t.Group? && Printed(t, |t.cells|)
    ensures Lexical(Flat(ToCst(t))) && Calm(Flat(ToCst(t))) && Text(Flat(ToCst(t))) == Show(t)
  {
    hide ToCst, Lexical, Flat, FlatItems, Text, Tail, TreeOk, ShowCells, ShowGaps;
    var c, close := ToCst(t), [Closer(t.kind)];
    BoxOf(t);
    TailFree(t);
    OpenerFree(t.kind);
    FlatBox(c);
    assert c.items[..|t.cells|] == c.items;
    var a, f := [Opener(t.kind)] + FlatItems(c.items), FlatItems(c.items);
    Join(a, c.tail);
    Join(a + c.tail, close);
    TextConcat([Opener(t.kind)], f);
    TextConcat(a, c.tail);
    TextConcat(a + c.tail, close);
    ShownGroup(t);
  }

  lemma ShownGroup(t: Tree)
    requires TreeOk(t) && t.Group?
    ensures Show(t) == [if t.kind.Object? then 0x7B else 0x5B] + ShowCells(t, |t.cells|)
              + ((if t.cells == [] then [] else ShowGaps(t.cells[|t.cells| - 1].post) + (if t.trailing then [0x2C] else []))
                 + ShowGaps(t.last))
              + [if t.kind.Object? then 0x7D else 0x5D]
  {
    hide ShowCells, ShowGaps, TreeOk;
    Assoc([if t.kind.Object? then 0x7B else 0x5B] + ShowCells(t, |t.cells|),
          if t.cells == [] then [] else ShowGaps(t.cells[|t.cells| - 1].post) + (if t.trailing then [0x2C] else []),
          ShowGaps(t.last));
  }

  // ----- its meaning -----

  lemma {:induction false} TreeMeans(t: Tree)
    requires TreeOk(t)
    ensures Meaning(ToCst(t)) == Mean(t)
    decreases t
  {
    if t.Group? {
      forall k | 0 <= k < |t.cells|
        ensures TreeOk(t.cells[k].val) && Meaning(ToCst(t.cells[k].val)) == Mean(t.cells[k].val)
      {
        TreeMeans(t.cells[k].val);
      }
      GroupMeans(t);
    }
  }

  lemma GroupMeans(t: Tree)
    requires TreeOk(t) && t.Group?
    requires forall k :: 0 <= k < |t.cells| ==> TreeOk(t.cells[k].val) && Meaning(ToCst(t.cells[k].val)) == Mean(t.cells[k].val)
    ensures Meaning(ToCst(t)) == Mean(t)
  {
    hide ToCst, KeyOf, Denote, Lead, Name, Tail, AllOk, GapsOk;
    var c := ToCst(t);
    BoxOf(t);
    forall k | 0 <= k < |t.cells| ensures c.items[k].val == ToCst(t.cells[k].val) { CellTree(t, k); }
    if t.kind.Object? {
      forall k | 0 <= k < |t.cells| ensures KeyOf(c.items[k]) == Denote(t.cells[k].key) { CellKey(t, k); }
      assert Meaning(c).members == Mean(t).members;
    } else {
      assert Meaning(c).elems == Mean(t).elems;
    }
  }

  // ----- the result -----

  // A whole file: a byte order mark or none, a text between gaps, and a last line
  // comment that no line break ends or none.
  ghost function FileText(bom: bool, pre: seq<Gap>, t: Tree, post: seq<Gap>, remark: Option<bytes>): bytes
    requires TreeOk(t)
  {
    (if bom then [0xEF, 0xBB, 0xBF] else []) + ShowGaps(pre) + Show(t) + ShowGaps(post)
    + (match remark case None => [] case Some(x) => [0x2F, 0x2F] + x)
  }

  // Every such file is accepted, and means what the grammar says: each number,
  // string and word as it is written, each key as it decodes, in order.
  lemma TextParses(bom: bool, pre: seq<Gap>, t: Tree, post: seq<Gap>, remark: Option<bytes>)
    requires GapsOk(pre) && TreeOk(t) && GapsOk(post) && (remark.Some? ==> OneLine(remark.value))
    ensures MeaningOf(FileText(bom, pre, t, post, remark)) == Some(Mean(t))
  {
    hide ToCst, Lexical, Flat, Text, Show, Mean, Meaning, TreeOk, GapsOk, ShowGaps, Gaps, WellFormed, Parse, Free, AllTrivia;
    var a, c, b := Gaps(pre), ToCst(t), Gaps(post);
    GapsFree(pre);
    GapsFree(post);
    TreePrints(t);
    TreeGrammar(t);
    TreeMeans(t);
    var z := RemarkPieces(remark);
    RemarkSoft(remark);
    FreeIs(a);
    FreeIs(b);
    Join(a, Flat(c));
    Join(a + Flat(c), b);
    Join(a + Flat(c) + b, z);
    Assoc(a + Flat(c), b, z);
    TriviaConcat(b, z);
    TextConcat(a, Flat(c));
    TextConcat(a + Flat(c), b);
    TextConcat(a + Flat(c) + b, z);
    var f := File(bom, Doc(a, c, b + z));
    Marked(bom, ShowGaps(pre), Show(t), ShowGaps(post), Text(z));
    ParseExact(FileText(bom, pre, t, post, remark), f);
  }

  lemma Marked(bom: bool, a: bytes, v: bytes, b: bytes, z: bytes)
    ensures BomText(bom) + (a + v + b + z) == (if bom then [0xEF, 0xBB, 0xBF] else []) + a + v + b + z
  {
    Assoc(BomText(bom), a + v + b, z);
    Assoc4(BomText(bom), a, v, b);
  }

  function RemarkPieces(remark: Option<bytes>): seq<Piece> {
    match remark case None => [] case Some(x) => [Piece(Comment, [0x2F, 0x2F] + x)]
  }

  lemma RemarkSoft(remark: Option<bytes>)
    requires remark.Some? ==> OneLine(remark.value)
    ensures var z := RemarkPieces(remark);
            && Lexical(z) && Soft(z) && AllTrivia(z)
            && Text(z) == match remark case None => [] case Some(x) => [0x2F, 0x2F] + x
  {
    match remark
    case None => NothingFree();
    case Some(x) =>
      var p := Piece(Comment, [0x2F, 0x2F] + x);
      assert ValidPiece(p);
      TextOne(p);
      TriviaExact([p]);
  }

  // ----- the texts of RFC 8259 are among them -----

  datatype Exp = NoExp | Exp(mark: byte, sign: bytes, digits: bytes)

  datatype Num = Num(minus: bool, whole: bytes, frac: bytes, exp: Exp)

  predicate AllDigits(s: bytes) { forall k :: 0 <= k < |s| ==> 0x30 <= s[k] <= 0x39 }

  predicate NumOk(n: Num) {
    && n.whole != [] && AllDigits(n.whole) && (n.whole[0] == 0x30 ==> |n.whole| == 1) && AllDigits(n.frac)
    && (n.exp.Exp? ==>
          && n.exp.mark in [0x65, 0x45] && n.exp.sign in [[], [0x2B], [0x2D]]
          && n.exp.digits != [] && AllDigits(n.exp.digits))
  }

  function NumText(n: Num): bytes {
    (if n.minus then [0x2D] else []) + n.whole + (if n.frac == [] then [] else [0x2E] + n.frac)
    + (match n.exp case NoExp => [] case Exp(mark, sign, digits) => [mark] + sign + digits)
  }

  predicate NumBytes(s: bytes) { forall k :: 0 <= k < |s| ==> NumberByte(s[k]) }

  lemma NumConcat(a: bytes, b: bytes)
    requires NumBytes(a) && NumBytes(b)
    ensures NumBytes(a + b)
  {}

  lemma NumberScalar(n: Num)
    requires NumOk(n)
    ensures NumText(n) != [] && NumBytes(NumText(n)) && (NumText(n)[0] == 0x2D || 0x30 <= NumText(n)[0] <= 0x39)
  {
    var a := if n.minus then [0x2D] else [];
    var f := if n.frac == [] then [] else [0x2E] + n.frac;
    var e := match n.exp case NoExp => [] case Exp(mark, sign, digits) => [mark] + sign + digits;
    if n.exp.Exp? {
      NumConcat([n.exp.mark], n.exp.sign);
      NumConcat([n.exp.mark] + n.exp.sign, n.exp.digits);
    }
    NumConcat([0x2E], n.frac);
    NumConcat(a, n.whole);
    NumConcat(a + n.whole, f);
    NumConcat(a + n.whole + f, e);
    assert NumText(n)[0] == (a + n.whole)[0];
  }

  // Every number and every string of the standard may stand as a value.
  lemma RfcAtoms(n: Num, cs: seq<Char>)
    ensures NumOk(n) ==> TreeOk(Atom(false, NumText(n)))
    ensures AllOk(cs) ==> TreeOk(Atom(true, Written(cs)))
    ensures forall k :: 0 <= k < |WORDS| ==> TreeOk(Atom(false, WORDS[k]))
  {
    hide NumText, Written, IsString;
    if NumOk(n) { NumberScalar(n); }
    if AllOk(cs) {
      WrittenPiece(cs, []);
      PieceBytes(Piece(Str, Written(cs)));
    }
  }

  // Every number is taken whole, in front of anything that is no number byte.
  lemma NumberTaken(n: Num, suffix: bytes)
    requires NumOk(n) && (suffix != [] ==> !NumberByte(suffix[0]))
    ensures NextToken(NumText(n) + suffix, 0) == Some((Scalar, |NumText(n)|))
  {
    hide NumText, ValidPiece;
    NumberScalar(n);
    var p := Piece(Scalar, NumText(n));
    PieceBytes(p);
    if suffix != [] { SeamBytes(p, suffix[0]); }
    NextTokenExact(NumText(n) + suffix, 0, p);
  }
}
