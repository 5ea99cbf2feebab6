/**
 One edit of a JSONC file, read as an edit of its syntax tree: what
 patchJSONC (internal/clientconfig/jsonc.go) does to the bytes, piece by piece.
 */
module JsoncEdit {
  import opened Bytes
  import opened JsoncLex
  import opened Scalars
  import opened JsoncSyntax

  datatype Edit = Edit(
    keyPath: seq<bytes>,
    value: bytes,
    createIfMissing: bool,
    valueJson: bytes,
    delete: bool)

  // A value with the trivia its text carries around it.
  datatype Frag = Frag(pre: seq<Piece>, val: Cst, post: seq<Piece>)

  function FlatFrag(g: Frag): seq<Piece> { g.pre + Flat(g.val) + g.post }

  predicate IsObject(c: Cst) { c.Box? && c.kind.Object? }

  function ColonPiece(): Piece { Piece(Colon, [COLON]) }
  function CommaPiece(): Piece { Piece(Comma, [COMMA]) }
  function BlankPiece(): Piece { Piece(Space, [SP]) }

  // `"key": ` and the trivia in front of the value.
  function NameFor(key: bytes, pre: seq<Piece>): seq<Piece> {
    [Piece(Str, JsoncQuote(key)), ColonPiece(), BlankPiece()] + pre
  }

  // What the edit writes. A caller's ValueJSON must parse on its own; one that
  // starts with a byte order mark cannot be read back from inside a file.
  function Fragment(e: Edit): Result<Frag> {
    if e.valueJson == [] then Ok(Frag([], Leaf(Piece(Str, JsoncQuote(e.value))), []))
    else match Parse(e.valueJson)
      case None => Err(UnsupportedStructure)
      case Some(f) =>
        if f.bom then Err(InternalInconsistency)
        else Ok(Frag(f.doc.pre, f.doc.root, f.doc.post))
  }

  // One object per missing path component around the value.
  function Nest(keys: seq<bytes>, g: Frag): Frag {
    if keys == [] then g
    else
      var inner := Nest(keys[1..], g);
      Frag([], Box(Object, [Item([], NameFor(keys[0], inner.pre), inner.val)], inner.post), [])
  }

  // ----- the three local edits of one object -----

  // The value of item i, with new trivia around it.
  function SetItem(c: Cst, i: nat, g: Frag): Cst
    requires c.Box? && i < |c.items|
  {
    var it := c.items[i].(name := c.items[i].name + g.pre, val := g.val);
    if i + 1 < |c.items| then
      var next := c.items[i + 1].(lead := g.post + c.items[i + 1].lead);
      c.(items := c.items[..i] + [it, next] + c.items[i + 2..])
    else c.(items := c.items[..i] + [it], tail := g.post + c.tail)
  }

  function SetVal(c: Cst, i: nat, v: Cst): Cst
    requires c.Box? && i < |c.items|
  {
    c.(items := c.items[..i] + [c.items[i].(val := v)] + c.items[i + 1..])
  }

  // What goes between the last item, or the opener, and an appended key.
  function AppendLead(c: Cst): seq<Piece>
    requires c.Box?
  {
    if c.items == [] then c.tail
    else if !AllTrivia(c.tail) then c.tail + [BlankPiece()]
    else c.tail + [CommaPiece(), BlankPiece()]
  }

  function AppendItem(c: Cst, key: bytes, g: Frag): Cst
    requires c.Box?
  {
    c.(items := c.items + [Item(AppendLead(c), NameFor(key, g.pre), g.val)], tail := g.post)
  }

  predicate IsByte(p: Piece, c: byte) { p.kind.Space? && p.text == [c] }

  predicate IsBlankPiece(p: Piece) { IsByte(p, SP) || IsByte(p, TAB) }

  // Where the blanks at the end of ps start.
  function BlankTail(ps: seq<Piece>): (k: nat)
    ensures k <= |ps|
    ensures forall n :: k <= n < |ps| ==> IsBlankPiece(ps[n])
    ensures k > 0 ==> !IsBlankPiece(ps[k - 1])
  {
    if ps != [] && IsBlankPiece(ps[|ps| - 1]) then BlankTail(ps[..|ps| - 1]) else |ps|
  }

  // Where the blanks of ps from j on end.
  function BlankEnd(ps: seq<Piece>, j: nat): (k: nat)
    requires j <= |ps|
    ensures j <= k <= |ps|
    ensures forall n :: j <= n < k ==> IsBlankPiece(ps[n])
    ensures k < |ps| ==> !IsBlankPiece(ps[k])
    decreases |ps| - j
  {
    if j < |ps| && IsBlankPiece(ps[j]) then BlankEnd(ps, j + 1) else j
  }

  // Only blanks stand between the key and the line break in front of it.
  predicate OwnLine(lead: seq<Piece>) {
    var k := BlankTail(lead);
    k > 0 && IsByte(lead[k - 1], LF)
  }

  // What is left of the lead of a removed item that opened its own line.
  function BeforeLine(lead: seq<Piece>): seq<Piece>
    requires OwnLine(lead)
  {
    lead[..BlankTail(lead) - 1]
  }

  function Kept(lead: seq<Piece>): seq<Piece> {
    if OwnLine(lead) then BeforeLine(lead) else lead
  }

  // Where the next lead resumes: past its comma, the blanks after it and, when
  // a whole line goes, past that line's break.
  function Resume(lead: seq<Piece>, ownLine: bool): (r: nat)
    requires IsSeparator(lead)
    ensures SkipTrivia(lead, 0) < r <= |lead|
  {
    var b := BlankEnd(lead, SkipTrivia(lead, 0) + 1);
    if !ownLine then b
    else
      var c := if b < |lead| && IsByte(lead[b], CR) then b + 1 else b;
      if c < |lead| && IsByte(lead[c], LF) then c + 1 else c
  }

  function RemoveItem(c: Cst, i: nat): Cst
    requires c.Box? && i < |c.items|
    requires i + 1 < |c.items| ==> IsSeparator(c.items[i + 1].lead)
  {
    var lead := c.items[i].lead;
    if i + 1 < |c.items| then
      var next := c.items[i + 1];
      var resumed := next.lead[Resume(next.lead, OwnLine(lead))..];
      c.(items := c.items[..i] + [next.(lead := Kept(lead) + resumed)] + c.items[i + 2..])
    else
      var left := if !OwnLine(lead) && i > 0 then lead[..SkipTrivia(lead, 0)] else Kept(lead);
      c.(items := c.items[..i], tail := left + c.tail)
  }

  // ----- the edit at a path -----

  function EditTree(c: Cst, e: Edit, path: seq<bytes>): Result<Cst>
    requires WellFormed(c)
    decreases |path|
  {
    if path == [] || !IsObject(c) then Err(KeyNotFound)
    else match FindKey(c.items, path[0])
      case None =>
        if !e.createIfMissing || (e.delete && |path| == 1) then Err(KeyNotFound)
        else (match Fragment(e)
          case Err(x) => Err(x)
          case Ok(g) => Ok(AppendItem(c, path[0], Nest(path[1..], g))))
      case Some(i) =>
        if |path| > 1 then
          match EditTree(c.items[i].val, e, path[1..])
          case Err(x) => Err(x)
          case Ok(v) => Ok(SetVal(c, i, v))
        else if e.delete then
          assert i + 1 < |c.items| ==> LeadOk(c.items, i + 1);
          Ok(RemoveItem(c, i))
        else if c.items[i].val.Box? && e.valueJson == [] then Err(UnsupportedStructure)
        else match Fragment(e)
          case Err(x) => Err(x)
          case Ok(g) => Ok(SetItem(c, i, g))
  }

  function WithRoot(f: File, c: Cst): File { f.(doc := f.doc.(root := c)) }

  // The whole patch: parse, edit, print, and refuse output that does not parse.
  ghost function Patched(src: bytes, e: Edit): Result<bytes> {
    match Parse(src)
    case None => Err(ParseFailure)
    case Some(f) =>
      ParseExact(src, f);
      match EditTree(f.doc.root, e, e.keyPath)
      case Err(x) => Err(x)
      case Ok(c) => Verified(Print(WithRoot(f, c)))
  }

  function Verified(out: bytes): Result<bytes> {
    if Parse(out).Some? then Ok(out) else Err(InternalInconsistency)
  }
}
