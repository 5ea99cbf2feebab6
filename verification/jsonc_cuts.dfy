/**
 Which bytes an edit touches. A delete takes one run of tokens out, and white
 space next to it; a set replaces the text of one value; a create puts one entry
 in front of a closing bracket. Everything else stays, byte for byte.
 */
module JsoncCuts {
  import opened Bytes
  import opened JsoncLex
  import opened Scalars
  import opened JsoncSyntax
  import opened JsoncEdit
  import opened JsoncTrivia
  import opened JsoncPreserve
  import opened JsoncSeams
  import opened JsoncMeaning
  import opened JsoncTheorems
  import opened JsoncSpans
  import opened JsoncPatch
  import opened JsoncCommas
  import opened JsoncAbsorb

  // ----- where the object that holds the key lies -----

  ghost function Ahead(c: Cst, path: seq<bytes>): seq<Piece>
    requires WellFormed(c) && Present(c, path)
    decreases |path|
  {
    FirstStep(c, path);
    var i := FindKey(c.items, path[0]).value;
    if |path| == 1 then [] else BeforeVal(c, i) + Ahead(c.items[i].val, path[1..])
  }

  ghost function Beyond(c: Cst, path: seq<bytes>): seq<Piece>
    requires WellFormed(c) && Present(c, path)
    decreases |path|
  {
    FirstStep(c, path);
    var i := FindKey(c.items, path[0]).value;
    if |path| == 1 then [] else Beyond(c.items[i].val, path[1..]) + AfterItem(c, i)
  }

  lemma Nested<T>(a: seq<T>, b: seq<T>, x: seq<T>, y: seq<T>, z: seq<T>)
    ensures a + (b + x + y) + z == (a + b) + x + (y + z)
  {
    Parts5(a, b, x, y, z);
  }

  lemma Alone<T>(x: seq<T>)
    ensures [] + x + [] == x
  {}

  // Another object in its place changes nothing around it.
  lemma {:induction false} RetargetFlat(c: Cst, path: seq<bytes>, x: Cst)
    requires WellFormed(c) && Present(c, path)
    ensures Flat(Retarget(c, path, x)) == Ahead(c, path) + Flat(x) + Beyond(c, path)
    decreases |path|
  {
    FirstStep(c, path);
    hide WellFormed, Flat, FindKey, BeforeVal, AfterItem, SetVal;
    var i := FindKey(c.items, path[0]).value;
    if |path| == 1 {
      Alone(Flat(x));
    } else {
      var v := c.items[i].val;
      RetargetFlat(v, path[1..], x);
      FlatSetVal(c, i, Retarget(v, path[1..], x));
      Nested(BeforeVal(c, i), Ahead(v, path[1..]), Flat(x), Beyond(v, path[1..]), AfterItem(c, i));
    }
  }

  lemma {:induction false} TargetFlat(c: Cst, path: seq<bytes>)
    requires WellFormed(c) && Present(c, path)
    ensures Flat(c) == Ahead(c, path) + Flat(Target(c, path).0) + Beyond(c, path)
    decreases |path|
  {
    FirstStep(c, path);
    hide WellFormed, Flat, FindKey, BeforeVal, AfterItem, Present;
    var i := FindKey(c.items, path[0]).value;
    if |path| == 1 {
      Alone(Flat(c));
    } else {
      var v := c.items[i].val;
      TargetFlat(v, path[1..]);
      FlatAt(c, i);
      Nested(BeforeVal(c, i), Ahead(v, path[1..]), Flat(Target(v, path[1..]).0), Beyond(v, path[1..]), AfterItem(c, i));
    }
  }

  // ----- what a delete takes -----

  const LINE_FEED: Piece := Piece(Space, [0x0A])
  const RETURN: Piece := Piece(Space, [0x0D])

  predicate Blank(p: Piece) { p.kind.Space? && p.text in [[0x20], [0x09]] }

  // Nothing but blanks stands between the line break at m and the key.
  predicate OpensLine(lead: seq<Piece>, m: nat) {
    m < |lead| && lead[m] == LINE_FEED && forall n :: m < n < |lead| ==> Blank(lead[n])
  }

  ghost predicate OnOwnLine(lead: seq<Piece>) { exists m: nat :: OpensLine(lead, m) }

  // All the blanks at the start of y.
  predicate Blanks(y: seq<Piece>, b: nat) {
    b <= |y| && (forall k :: 0 <= k < b ==> Blank(y[k])) && (b < |y| ==> !Blank(y[b]))
  }

  // The blanks, and the line break behind them if there is one.
  ghost predicate LineRest(y: seq<Piece>, n: nat) {
    exists b: nat :: Blanks(y, b)
      && n == b + (if At(y, b, [RETURN, LINE_FEED]) then 2 else if At(y, b, [RETURN]) || At(y, b, [LINE_FEED]) then 1 else 0)
  }

  // The pieces of the object, cut: a and b stay, run is the run of tokens that
  // goes, the gaps are white space that goes with it. x and y are what stands on
  // the two sides of the separating comma, m the line break in front of the key.
  datatype Cut = Cut(a: seq<Piece>, gap1: seq<Piece>, run: seq<Piece>, gap2: seq<Piece>, b: seq<Piece>,
                     x: seq<Piece>, y: seq<Piece>, m: nat)

  // A member that is not last: from its key to the comma behind its value. The
  // comments in front of it, and those in front of the next key, stay.
  ghost predicate InnerCut(obj: Cst, i: nat, k: Cut)
    requires IsObject(obj) && i + 1 < |obj.items|
  {
    var it := obj.items[i];
    && obj.items[i + 1].lead == k.x + [CommaPiece()] + k.y && AllTrivia(k.x) && AllTrivia(k.y)
    && k.a + k.gap1 == BeforeItem(obj, i) + it.lead
    && k.run == it.name + Flat(it.val) + k.x + [CommaPiece()]
    && |k.gap2| <= |k.y| && k.gap2 == k.y[..|k.gap2|]
    && if OnOwnLine(it.lead) then OpensLine(it.lead, k.m) && k.gap1 == it.lead[k.m..] && LineRest(k.y, |k.gap2|)
       else k.gap1 == [] && Blanks(k.y, |k.gap2|)
  }

  // The last member: on a line of its own from its key to its value's end, else
  // from the comma in front of it, if there is one.
  ghost predicate LastCut(obj: Cst, i: nat, k: Cut)
    requires IsObject(obj) && i + 1 == |obj.items|
  {
    var it := obj.items[i];
    && k.gap2 == []
    && if OnOwnLine(it.lead) then
         && OpensLine(it.lead, k.m) && k.gap1 == it.lead[k.m..] && k.a == BeforeItem(obj, i) + it.lead[..k.m]
         && k.run == it.name + Flat(it.val)
       else if i > 0 then
         && it.lead == k.x + [CommaPiece()] + k.y && AllTrivia(k.x) && AllTrivia(k.y)
         && k.gap1 == [] && k.a == BeforeItem(obj, i) + k.x
         && k.run == [CommaPiece()] + k.y + it.name + Flat(it.val)
       else k.gap1 == [] && k.a == BeforeItem(obj, i) + it.lead && k.run == it.name + Flat(it.val)
  }

  ghost predicate Takes(obj: Cst, i: nat, k: Cut)
    requires IsObject(obj) && i < |obj.items|
  {
    && Flat(obj) == k.a + k.gap1 + k.run + k.gap2 + k.b
    && (forall n :: 0 <= n < |k.gap1| ==> k.gap1[n].kind.Space?)
    && (forall n :: 0 <= n < |k.gap2| ==> k.gap2[n].kind.Space?)
    && if i + 1 < |obj.items| then InnerCut(obj, i, k) else LastCut(obj, i, k)
  }

  lemma OwnExact(lead: seq<Piece>)
    ensures OwnLine(lead) <==> OnOwnLine(lead)
    ensures OwnLine(lead) ==> OpensLine(lead, BlankTail(lead) - 1) && Kept(lead) == lead[..BlankTail(lead) - 1]
    ensures forall n :: BlankTail(lead) <= n < |lead| ==> lead[n].kind.Space?
  {
    hide BlankTail;
    var k := BlankTail(lead);
    if OwnLine(lead) { assert OpensLine(lead, k - 1); }
    if OnOwnLine(lead) {
      var m: nat :| OpensLine(lead, m);
      assert k <= m + 1;
      assert k == m + 1;
    }
  }

  lemma BlanksExact(lead: seq<Piece>, s: nat, y: seq<Piece>)
    requires s <= |lead| && y == lead[s..]
    ensures Blanks(y, BlankEnd(lead, s) - s)
  {
    hide BlankEnd;
    var b := BlankEnd(lead, s);
    assert forall j :: 0 <= j < |y| ==> y[j] == lead[s + j];
    forall k | 0 <= k < b - s ensures Blank(y[k]) { assert IsBlankPiece(lead[s + k]); }
  }

  lemma BlanksAreSpaces(y: seq<Piece>, n: nat)
    requires Blanks(y, n)
    ensures forall j :: 0 <= j < n ==> y[j].kind.Space?
  {}

  lemma ResumeExact(lead: seq<Piece>, own: bool, y: seq<Piece>)
    requires IsSeparator(lead) && y == lead[SkipTrivia(lead, 0) + 1..]
    ensures var n := Resume(lead, own) - (SkipTrivia(lead, 0) + 1);
            && 0 <= n <= |y| && (if own then LineRest(y, n) else Blanks(y, n))
            && forall j :: 0 <= j < n ==> y[j].kind.Space?
  {
    hide SkipTrivia, BlankEnd, LineRest, Blanks;
    var s := SkipTrivia(lead, 0) + 1;
    var b := BlankEnd(lead, s);
    BlanksExact(lead, s, y);
    if own {
      BreakExact(lead, s, b, y);
      RestIsSpaces(y, Resume(lead, own) - s);
    } else {
      BlanksAreSpaces(y, b - s);
    }
  }

  lemma RestIsSpaces(y: seq<Piece>, n: nat)
    requires LineRest(y, n)
    ensures n <= |y| && forall j :: 0 <= j < n ==> y[j].kind.Space?
  {
    var b: nat :| Blanks(y, b)
      && n == b + (if At(y, b, [RETURN, LINE_FEED]) then 2 else if At(y, b, [RETURN]) || At(y, b, [LINE_FEED]) then 1 else 0);
    BreakAt2(y, b);
    BlanksAreSpaces(y, b);
    hide At, Blanks;
  }

  lemma BreakExact(lead: seq<Piece>, s: nat, b: nat, y: seq<Piece>)
    requires s <= b <= |lead| && y == lead[s..] && Blanks(y, b - s)
    ensures var c := if b < |lead| && IsByte(lead[b], CR) then b + 1 else b;
            var e := if c < |lead| && IsByte(lead[c], LF) then c + 1 else c;
            LineRest(y, e - s)
  {
    var n: nat := b - s;
    var c := if b < |lead| && IsByte(lead[b], CR) then b + 1 else b;
    var e := if c < |lead| && IsByte(lead[c], LF) then c + 1 else c;
    assert forall j :: 0 <= j < |y| ==> y[j] == lead[s + j];
    BreakAt2(y, n);
    hide At, Blanks;
    assert c - s == (if n < |y| && y[n] == RETURN then n + 1 else n);
    assert e - s == (if c - s < |y| && y[c - s] == LINE_FEED then c - s + 1 else c - s);
    assert e - s == n + (if At(y, n, [RETURN, LINE_FEED]) then 2 else if At(y, n, [RETURN]) || At(y, n, [LINE_FEED]) then 1 else 0);
  }

  lemma BreakAt2(y: seq<Piece>, n: nat)
    ensures At(y, n, [RETURN]) <==> n < |y| && y[n] == RETURN
    ensures At(y, n, [LINE_FEED]) <==> n < |y| && y[n] == LINE_FEED
    ensures At(y, n, [RETURN, LINE_FEED]) <==> n + 1 < |y| && y[n] == RETURN && y[n + 1] == LINE_FEED
  {
    OneAt(y, n, RETURN);
    OneAt(y, n, LINE_FEED);
    OneAt(y, n + 1, LINE_FEED);
    assert [RETURN, LINE_FEED] == [RETURN] + [LINE_FEED];
    AtConcat(y, n, [RETURN], [LINE_FEED]);
  }

  lemma OneAt(y: seq<Piece>, n: nat, p: Piece)
    ensures At(y, n, [p]) <==> n < |y| && y[n] == p
  {
    if n < |y| { assert y[n..n + 1] == [y[n]]; }
  }

  // The separator behind the member, taken apart where the cut runs.
  lemma SeparatorCut(obj: Cst, i: nat) returns (x: seq<Piece>, y: seq<Piece>, gap2: seq<Piece>)
    requires WellFormed(obj) && IsObject(obj) && i + 1 < |obj.items| && Lexical(Flat(obj))
    requires IsSeparator(obj.items[i + 1].lead)
    ensures var sep, own := obj.items[i + 1].lead, OwnLine(obj.items[i].lead);
            && sep == x + [CommaPiece()] + y && AllTrivia(x) && AllTrivia(y)
            && |gap2| <= |y| && gap2 == y[..|gap2|] && (forall n :: 0 <= n < |gap2| ==> gap2[n].kind.Space?)
            && (if own then LineRest(y, |gap2|) else Blanks(y, |gap2|))
            && sep[..Resume(sep, own)] == x + [CommaPiece()] + gap2
  {
    hide WellFormed, Lexical, Flat, Resume, ValidPiece, LineRest, Blanks, OwnLine;
    var sep, own := obj.items[i + 1].lead, OwnLine(obj.items[i].lead);
    SeparatorParts(sep);
    SeparatorComma(obj, i);
    hide IsSeparator, SkipTrivia, AllTrivia;
    var s := SkipTrivia(sep, 0);
    x, y := sep[..s], sep[s + 1..];
    ResumeExact(sep, own, y);
    var n := Resume(sep, own) - s - 1;
    gap2 := y[..n];
    assert forall j :: 0 <= j < n ==> gap2[j] == y[j];
    hide LineRest, Blanks;
    UpToIn(sep, s, n);
  }

  lemma UpToIn<T>(t: seq<T>, s: nat, n: nat)
    requires s < |t| && n <= |t| - s - 1
    ensures t[..s + 1 + n] == t[..s] + [t[s]] + t[s + 1..][..n]
  {}

  // The two leads, taken apart where the cut runs.
  lemma InnerParts(obj: Cst, i: nat) returns (gap1: seq<Piece>, x: seq<Piece>, y: seq<Piece>, gap2: seq<Piece>)
    requires WellFormed(obj) && IsObject(obj) && i + 1 < |obj.items| && Lexical(Flat(obj))
    requires IsSeparator(obj.items[i + 1].lead)
    ensures var lead, sep, kept := obj.items[i].lead, obj.items[i + 1].lead, Left(obj, i);
            && lead == kept + gap1 && (forall n :: 0 <= n < |gap1| ==> gap1[n].kind.Space?)
            && (if OnOwnLine(lead) then OpensLine(lead, |kept|) && gap1 == lead[|kept|..] else gap1 == [])
            && sep == x + [CommaPiece()] + y && AllTrivia(x) && AllTrivia(y)
            && |gap2| <= |y| && gap2 == y[..|gap2|] && (forall n :: 0 <= n < |gap2| ==> gap2[n].kind.Space?)
            && (if OnOwnLine(lead) then LineRest(y, |gap2|) else Blanks(y, |gap2|))
            && sep[..Resume(sep, OwnLine(lead))] == x + [CommaPiece()] + gap2
            && gap1 == lead[|kept|..]
  {
    hide WellFormed, Lexical, Flat, Resume, Kept, IsSeparator, AllTrivia, LineRest, Blanks, OpensLine, OnOwnLine, OwnLine;
    var lead, kept := obj.items[i].lead, Left(obj, i);
    x, y, gap2 := SeparatorCut(obj, i);
    assert kept == Kept(lead);
    GapOne(lead, kept);
    gap1 := lead[|kept|..];
  }

  lemma CutInnerItem(obj: Cst, i: nat) returns (k: Cut)
    requires WellFormed(obj) && IsObject(obj) && i + 1 < |obj.items| && Lexical(Flat(obj))
    requires IsSeparator(obj.items[i + 1].lead)
    ensures Takes(obj, i, k) && Flat(RemoveItem(obj, i)) == k.a + k.b
    ensures k.a == RemovedBefore(obj, i) && k.b == RemovedAfter(obj, i)
  {
    hide WellFormed, Lexical, Flat, IsSeparator, Resume, OwnLine, Left, RemoveItem, RemovedAfter, AfterItem, BeforeItem, LineRest, Blanks, OpensLine, OnOwnLine, AllTrivia;
    var it := obj.items[i];
    var gap1, x, y, gap2 := InnerParts(obj, i);
    FlatRemove(obj, i);
    var kept := Left(obj, i);
    var run := it.name + Flat(it.val) + x + [CommaPiece()];
    k := Cut(RemovedBefore(obj, i), gap1, run, gap2, RemovedAfter(obj, i), x, y, |kept|);
    assert Removed(obj, i) == gap1 + it.name + Flat(it.val) + (x + [CommaPiece()] + gap2);
    InnerGroups(k.a, gap1, it.name, Flat(it.val), x, [CommaPiece()], gap2, k.b);
    Assoc(BeforeItem(obj, i), kept, gap1);
  }

  // What an own line leaves, and what it takes, of the text in front of the key.
  lemma GapOne(lead: seq<Piece>, kept: seq<Piece>)
    requires kept == Kept(lead)
    ensures |kept| <= |lead| && lead == kept + lead[|kept|..] && forall n :: 0 <= n < |lead[|kept|..]| ==> lead[|kept|..][n].kind.Space?
    ensures if OnOwnLine(lead) then OpensLine(lead, |kept|) else kept == lead
    ensures OnOwnLine(lead) <==> OwnLine(lead)
  {
    OwnExact(lead);
    hide BlankTail;
    if OwnLine(lead) {
      var m := BlankTail(lead) - 1;
      assert forall n :: 0 <= n < |lead[m..]| ==> lead[m..][n] == lead[m + n];
    }
  }

  lemma InnerGroups<T>(a: seq<T>, g: seq<T>, n: seq<T>, v: seq<T>, x: seq<T>, c: seq<T>, h: seq<T>, b: seq<T>)
    ensures a + (g + n + v + (x + c + h)) + b == a + g + (n + v + x + c) + h + b
  {
    Assoc4(g + n + v, x, c, h);
    Assoc(a, g + n + v + x + c, h);
    Assoc4(g, n, v, x);
    Assoc(g, n + v + x, c);
    Assoc(a, g, n + v + x + c);
  }

  lemma SeparatorComma(obj: Cst, i: nat)
    requires WellFormed(obj) && IsObject(obj) && i + 1 < |obj.items| && Lexical(Flat(obj))
    requires IsSeparator(obj.items[i + 1].lead)
    ensures var sep := obj.items[i + 1].lead; SkipTrivia(sep, 0) < |sep| && sep[SkipTrivia(sep, 0)] == CommaPiece()
  {
    hide WellFormed, Lexical, Flat, ValidPiece, BeforeItem;
    LeadComma(obj, i + 1);
  }

  lemma LeadComma(obj: Cst, i: nat)
    requires obj.Box? && i < |obj.items| && Lexical(Flat(obj)) && IsSeparator(obj.items[i].lead)
    ensures var sep := obj.items[i].lead; SkipTrivia(sep, 0) < |sep| && sep[SkipTrivia(sep, 0)] == CommaPiece()
  {
    hide Lexical, Flat, ValidPiece, BeforeItem, AfterItem;
    var sep, a := obj.items[i].lead, BeforeItem(obj, i);
    var s := SkipTrivia(sep, 0);
    FlatAt(obj, i);
    assert Flat(obj)[|a| + s] == sep[s];
    PieceAt(Flat(obj), |a| + s);
    CommaOnly(sep[s]);
  }

  lemma PieceAt(ps: seq<Piece>, k: nat)
    requires Lexical(ps) && k < |ps|
    ensures ValidPiece(ps[k])
  {
    hide ValidPiece;
  }

  lemma CommaOnly(p: Piece)
    requires ValidPiece(p) && p.kind.Comma?
    ensures p == CommaPiece()
  {}

  lemma SharedLeft(obj: Cst, i: nat)
    requires IsObject(obj) && 0 < i && i + 1 == |obj.items| && !OwnLine(obj.items[i].lead)
    ensures Left(obj, i) == obj.items[i].lead[..SkipTrivia(obj.items[i].lead, 0)]
  {}

  // Its lead, taken apart at the comma, where others stand in front of it.
  lemma SharedParts(obj: Cst, i: nat) returns (x: seq<Piece>, y: seq<Piece>)
    requires WellFormed(obj) && IsObject(obj) && 0 < i && i + 1 == |obj.items| && Lexical(Flat(obj))
    requires !OwnLine(obj.items[i].lead)
    ensures var lead := obj.items[i].lead;
            && lead == x + [CommaPiece()] + y && AllTrivia(x) && AllTrivia(y)
            && Left(obj, i) == x && lead[|Left(obj, i)|..] == [CommaPiece()] + y
  {
    hide WellFormed, Lexical, Flat, Kept, ValidPiece, OwnLine;
    var lead := obj.items[i].lead;
    ItemLeadOk(obj, i);
    SeparatorParts(lead);
    LeadComma(obj, i);
    SharedLeft(obj, i);
    hide IsSeparator, SkipTrivia, AllTrivia, Left;
    var s := SkipTrivia(lead, 0);
    x, y := lead[..s], lead[s + 1..];
    assert lead[s..] == [lead[s]] + y;
  }

  // The last member of a shared line, with others in front of it.
  lemma LastShared(obj: Cst, i: nat) returns (k: Cut)
    requires WellFormed(obj) && IsObject(obj) && 0 < i && i + 1 == |obj.items| && Lexical(Flat(obj))
    requires !OnOwnLine(obj.items[i].lead)
    ensures LastCut(obj, i, k) && k.a == RemovedBefore(obj, i) && k.b == RemovedAfter(obj, i)
    ensures k.gap1 == [] && k.run == Removed(obj, i)
  {
    hide WellFormed, Lexical, Flat, Left, BeforeItem, AllTrivia, OnOwnLine, OwnLine, RemovedAfter, LastCut;
    var it := obj.items[i];
    OwnExact(it.lead);
    var x, y := SharedParts(obj, i);
    var run := [CommaPiece()] + y + it.name + Flat(it.val);
    assert run + [] == run;
    k := Cut(RemovedBefore(obj, i), [], run, [], RemovedAfter(obj, i), x, y, 0);
    SharedCut(obj, i, k);
  }

  lemma SharedCut(obj: Cst, i: nat, k: Cut)
    requires IsObject(obj) && 0 < i && i + 1 == |obj.items| && !OnOwnLine(obj.items[i].lead)
    requires k.gap1 == [] && k.gap2 == [] && AllTrivia(k.x) && AllTrivia(k.y) && k.a == BeforeItem(obj, i) + k.x
    requires var it := obj.items[i];
             it.lead == k.x + [CommaPiece()] + k.y && k.run == [CommaPiece()] + k.y + it.name + Flat(it.val)
    ensures LastCut(obj, i, k)
  {
    hide AllTrivia, OnOwnLine, Flat, BeforeItem;
  }

  // The last member otherwise.
  lemma LastAlone(obj: Cst, i: nat) returns (k: Cut)
    requires IsObject(obj) && i + 1 == |obj.items| && (i == 0 || OnOwnLine(obj.items[i].lead))
    ensures LastCut(obj, i, k) && k.a == RemovedBefore(obj, i) && k.b == RemovedAfter(obj, i)
    ensures forall n :: 0 <= n < |k.gap1| ==> k.gap1[n].kind.Space?
    ensures k.gap1 + k.run == Removed(obj, i)
  {
    hide Flat, Kept, BeforeItem, OpensLine, OnOwnLine, OwnLine, RemovedAfter;
    var it := obj.items[i];
    var lead, name, val, left := it.lead, it.name, Flat(it.val), Left(obj, i);
    OwnExact(lead);
    GapOne(lead, left);
    var gap := lead[|left|..];
    k := Cut(RemovedBefore(obj, i), gap, name + val, [], RemovedAfter(obj, i), [], [], |left|);
    Assoc(gap, name, val);
    assert gap + name + val + [] == gap + name + val;
    assert lead[..|left|] == left;
    if !OnOwnLine(lead) { assert gap == []; }
  }

  lemma LastParts(obj: Cst, i: nat) returns (k: Cut)
    requires WellFormed(obj) && IsObject(obj) && i + 1 == |obj.items| && Lexical(Flat(obj))
    ensures LastCut(obj, i, k) && k.a == RemovedBefore(obj, i) && k.b == RemovedAfter(obj, i)
    ensures forall n :: 0 <= n < |k.gap1| ==> k.gap1[n].kind.Space?
    ensures k.gap1 + k.run == Removed(obj, i)
  {
    hide WellFormed, Lexical, Flat, OnOwnLine, LastCut, Removed, RemovedBefore, RemovedAfter;
    if i > 0 && !OnOwnLine(obj.items[i].lead) {
      k := LastShared(obj, i);
      assert [] + k.run == k.run;
    } else {
      k := LastAlone(obj, i);
    }
  }

  lemma CutLastItem(obj: Cst, i: nat) returns (k: Cut)
    requires WellFormed(obj) && IsObject(obj) && i + 1 == |obj.items| && Lexical(Flat(obj))
    ensures Takes(obj, i, k) && Flat(RemoveItem(obj, i)) == k.a + k.b
    ensures k.a == RemovedBefore(obj, i) && k.b == RemovedAfter(obj, i)
  {
    hide WellFormed, Lexical, Flat, RemoveItem, RemovedBefore, Removed, RemovedAfter, LastCut;
    k := LastParts(obj, i);
    FlatRemove(obj, i);
    NoSecondGap(obj, i, k);
    Assoc(k.a, k.gap1, k.run);
    assert k.a + k.gap1 + k.run + [] == k.a + k.gap1 + k.run;
  }

  lemma NoSecondGap(obj: Cst, i: nat, k: Cut)
    requires IsObject(obj) && i + 1 == |obj.items| && LastCut(obj, i, k)
    ensures k.gap2 == []
  {
    hide OnOwnLine, OpensLine, AllTrivia;
  }

  // ----- in the file -----

  // The tokens of a file, comments included: every piece that is no white space.
  function Solid(ps: seq<Piece>): seq<Piece> {
    if ps == [] then [] else (if ps[0].kind.Space? then [] else [ps[0]]) + Solid(ps[1..])
  }

  lemma {:induction false} SolidConcat(a: seq<Piece>, b: seq<Piece>)
    ensures Solid(a + b) == Solid(a) + Solid(b)
  {
    if a == [] {
      assert a + b == b;
    } else {
      assert (a + b)[1..] == a[1..] + b;
      SolidConcat(a[1..], b);
    }
  }

  lemma {:induction false} SolidSpaces(a: seq<Piece>)
    requires forall n :: 0 <= n < |a| ==> a[n].kind.Space?
    ensures Solid(a) == []
  {
    if a != [] { SolidSpaces(a[1..]); }
  }

  // No line comment stands open in front of the rest.
  predicate NoneOpen(a: seq<Piece>, b: seq<Piece>) {
    a != [] && b != [] && a[|a| - 1].kind == Comment && [0x2F, 0x2F] <= a[|a| - 1].text ==> b[0] in [LINE_FEED, RETURN]
  }

  lemma Around(pre: seq<Piece>, a: seq<Piece>, x: seq<Piece>, b: seq<Piece>, post: seq<Piece>)
    ensures pre + (a + x + b) + post == (pre + a) + x + (b + post)
  {
    Parts5(pre, a, x, b, post);
  }

  // The file, with the object that holds the key in its place; and the file that
  // the edit leaves, with another object there.
  lemma FileAround(src: bytes, e: Edit)
    requires Parse(src).Some? && Present(Parse(src).value.doc.root, e.keyPath) && Patched(src, e).Ok?
    ensures var f := Parse(src).value; var root := f.doc.root;
            && WellFormed(root) && IsObject(root) && Sound(f) && EditTree(root, e, e.keyPath).Ok?
            && var obj := Target(root, e.keyPath).0;
               var l, r := f.doc.pre + Ahead(root, e.keyPath), Beyond(root, e.keyPath) + f.doc.post;
               && Prints(obj)
               && FlatDoc(f.doc) == l + Flat(obj) + r && src == BomText(f.bom) + Text(l + Flat(obj) + r)
               && forall d :: EditTree(root, e, e.keyPath).value == Retarget(root, e.keyPath, d) ==>
                    && FlatDoc(WithRoot(f, EditTree(root, e, e.keyPath).value).doc) == l + Flat(d) + r
                    && Patched(src, e).value == BomText(f.bom) + Text(l + Flat(d) + r)
  {
    hide WellFormed, Lexical, Flat, Text, Parse, Fragment, EditTree, Target, Ahead, Beyond, Retarget, Present;
    var f := Parse(src).value;
    var root, path := f.doc.root, e.keyPath;
    ParseExact(src, f);
    PresentObject(root, path);
    RootSound(f, root);
    TargetPrints(root, path);
    var obj := Target(root, path).0;
    TargetFlat(root, path);
    Around(f.doc.pre, Ahead(root, path), Flat(obj), Beyond(root, path), f.doc.post);
    forall d | EditTree(root, e, path).value == Retarget(root, path, d)
      ensures FlatDoc(WithRoot(f, EditTree(root, e, path).value).doc)
           == f.doc.pre + Ahead(root, path) + Flat(d) + (Beyond(root, path) + f.doc.post)
    {
      RetargetFlat(root, path, d);
      Around(f.doc.pre, Ahead(root, path), Flat(d), Beyond(root, path), f.doc.post);
    }
  }

  // A delete that goes through takes exactly one such cut out of the bytes. Where
  // it opens no comment, the output's tokens are those of the input without the run.
  lemma DeleteCuts(src: bytes, e: Edit) returns (k: Cut)
    requires e.delete && Parse(src).Some? && Present(Parse(src).value.doc.root, e.keyPath) && Patched(src, e).Ok?
    ensures WellFormed(Parse(src).value.doc.root)
    ensures var f := Parse(src).value; var root := f.doc.root;
            var (obj, i) := Target(root, e.keyPath);
            var l, r := f.doc.pre + Ahead(root, e.keyPath), Beyond(root, e.keyPath) + f.doc.post;
            var out := Patched(src, e).value;
            && Takes(obj, i, k)
            && Lex(src) == Some(Lexed(f.bom, (l + k.a) + k.gap1 + k.run + k.gap2 + (k.b + r)))
            && src == BomText(f.bom) + (Text(l + k.a) + Text(k.gap1) + Text(k.run) + Text(k.gap2) + Text(k.b + r))
            && out == BomText(f.bom) + (Text(l + k.a) + Text(k.b + r))
            && (NoneOpen(l + k.a, k.b + r) ==>
                  && Lex(out) == Some(Lexed(f.bom, (l + k.a) + (k.b + r)))
                  && Solid(Lex(src).value.pieces) == Solid(l + k.a) + Solid(k.run) + Solid(k.b + r)
                  && Solid(Lex(out).value.pieces) == Solid(l + k.a) + Solid(k.b + r))
  {
    hide WellFormed, Lexical, Flat, Text, Parse, Fragment, EditTree, Target, Ahead, Beyond, Retarget, Present, Takes, RemoveItem, Solid, NoneOpen, Lex, Patched, Sound, FlatDoc;
    var f := Parse(src).value;
    var root, path := f.doc.root, e.keyPath;
    FileAround(src, e);
    var (obj, i) := Target(root, path);
    EditTarget(root, e, path);
    k := CutItem(obj, i);
    var l, r := f.doc.pre + Ahead(root, path), Beyond(root, path) + f.doc.post;
    CutFile(obj, i, k, l, r);
    SoundLexes(src, f);
    var out := Patched(src, e).value;
    assert out == BomText(f.bom) + Text(l + Flat(RemoveItem(obj, i)) + r);
    if NoneOpen(l + k.a, k.b + r) {
      NoneOpenStays(obj, i, k, l, r);
      StaysSafe(src, e, f);
      DeleteExact(src, e);
      SoundLexes(out, Parse(out).value);
      CutSolid(k, l, r);
    }
  }

  lemma SoundLexes(src: bytes, f: File)
    requires Parse(src) == Some(f)
    ensures Lex(src) == Some(Lexed(f.bom, FlatDoc(f.doc)))
  {
    hide Lex, WellFormedDoc, FlatDoc, Lexical, Parse;
    ParseExact(src, f);
    LexExact(src, Lexed(f.bom, FlatDoc(f.doc)));
  }

  lemma CutItem(obj: Cst, i: nat) returns (k: Cut)
    requires Prints(obj) && IsObject(obj) && i < |obj.items|
    requires i + 1 < |obj.items| ==> IsSeparator(obj.items[i + 1].lead)
    ensures Takes(obj, i, k) && Flat(RemoveItem(obj, i)) == k.a + k.b
    ensures k.a == RemovedBefore(obj, i) && k.b == RemovedAfter(obj, i)
    ensures forall n :: 0 <= n < |k.gap1| ==> k.gap1[n].kind.Space?
    ensures forall n :: 0 <= n < |k.gap2| ==> k.gap2[n].kind.Space?
  {
    hide WellFormed, Lexical, Flat, RemoveItem, Takes, RemovedBefore, RemovedAfter;
    if i + 1 < |obj.items| { k := CutInnerItem(obj, i); } else { k := CutLastItem(obj, i); }
    TakesSpaces(obj, i, k);
  }

  lemma TakesSpaces(obj: Cst, i: nat, k: Cut)
    requires IsObject(obj) && i < |obj.items| && Takes(obj, i, k)
    ensures forall n :: 0 <= n < |k.gap1| ==> k.gap1[n].kind.Space?
    ensures forall n :: 0 <= n < |k.gap2| ==> k.gap2[n].kind.Space?
  {
    hide InnerCut, LastCut;
  }

  lemma CutFile(obj: Cst, i: nat, k: Cut, l: seq<Piece>, r: seq<Piece>)
    requires IsObject(obj) && i < |obj.items| && Takes(obj, i, k)
    ensures l + Flat(obj) + r == (l + k.a) + k.gap1 + k.run + k.gap2 + (k.b + r)
    ensures Text(l + Flat(obj) + r) == Text(l + k.a) + Text(k.gap1) + Text(k.run) + Text(k.gap2) + Text(k.b + r)
    ensures l + (k.a + k.b) + r == (l + k.a) + (k.b + r)
    ensures Text(l + (k.a + k.b) + r) == Text(l + k.a) + Text(k.b + r)
  {
    hide Flat, Text, InnerCut, LastCut;
    var m := k.gap1 + k.run + k.gap2;
    Assoc4(k.a, k.gap1, k.run, k.gap2);
    assert Flat(obj) == k.a + m + k.b;
    Parts5(l, k.a, m, k.b, r);
    Assoc4(l + k.a, k.gap1, k.run, k.gap2);
    Assoc(l, k.a, k.b);
    Assoc(l + k.a, k.b, r);
    TextConcat((l + k.a) + k.gap1 + k.run + k.gap2, k.b + r);
    TextConcat((l + k.a) + k.gap1 + k.run, k.gap2);
    TextConcat((l + k.a) + k.gap1, k.run);
    TextConcat(l + k.a, k.gap1);
    TextConcat(l + k.a, k.b + r);
  }

  lemma CutSolid(k: Cut, l: seq<Piece>, r: seq<Piece>)
    requires forall n :: 0 <= n < |k.gap1| ==> k.gap1[n].kind.Space?
    requires forall n :: 0 <= n < |k.gap2| ==> k.gap2[n].kind.Space?
    ensures Solid((l + k.a) + k.gap1 + k.run + k.gap2 + (k.b + r)) == Solid(l + k.a) + Solid(k.run) + Solid(k.b + r)
    ensures Solid((l + k.a) + (k.b + r)) == Solid(l + k.a) + Solid(k.b + r)
  {
    hide Solid;
    SolidSpaces(k.gap1);
    SolidSpaces(k.gap2);
    SolidConcat((l + k.a) + k.gap1 + k.run + k.gap2, k.b + r);
    SolidConcat((l + k.a) + k.gap1 + k.run, k.gap2);
    SolidConcat((l + k.a) + k.gap1, k.run);
    SolidConcat(l + k.a, k.gap1);
    SolidConcat(l + k.a, k.b + r);
    assert Solid(l + k.a) + [] == Solid(l + k.a);
    assert Solid(l + k.a) + Solid(k.run) + [] == Solid(l + k.a) + Solid(k.run);
  }

  lemma NoneOpenStays(obj: Cst, i: nat, k: Cut, l: seq<Piece>, r: seq<Piece>)
    requires IsObject(obj) && i < |obj.items|
    requires i + 1 < |obj.items| ==> IsSeparator(obj.items[i + 1].lead)
    requires k.a == RemovedBefore(obj, i) && k.b == RemovedAfter(obj, i) && NoneOpen(l + k.a, k.b + r)
    ensures !CommentRunsOn(obj, i)
  {
    hide RemovedBefore, RemovedAfter, NoneOpen, IsLineComment;
    if CommentRunsOn(obj, i) { OpenStays(l, k.a, k.b, r); }
  }

  lemma OpenStays(l: seq<Piece>, a: seq<Piece>, b: seq<Piece>, r: seq<Piece>)
    requires a != [] && IsLineComment(a[|a| - 1]) && b != [] && b[0].text != [] && !IsEol(b[0].text[0])
    ensures !NoneOpen(l + a, b + r)
  {
    var p := a[|a| - 1];
    assert (l + a)[|l + a| - 1] == p && (b + r)[0] == b[0];
    assert p.text[..2] == [0x2F, 0x2F];
  }

  // A delete that goes through and opens no comment was safe.
  lemma StaysSafe(src: bytes, e: Edit, f: File)
    requires e.delete && Parse(src) == Some(f) && Present(f.doc.root, e.keyPath) && Patched(src, e).Ok?
    requires WellFormed(f.doc.root)
    requires var (obj, i) := Target(f.doc.root, e.keyPath); !CommentRunsOn(obj, i)
    ensures DeleteSafe(f.doc.root, e.keyPath)
  {
    hide WellFormed, Lexical, Flat, Parse, Fragment, EditTree, Target, CommentRunsOn, CommasFit, Print;
    var (obj, i) := Target(f.doc.root, e.keyPath);
    if !CommasFit(obj, i) {
      DeleteRefused(src, e);
      assert false;
    }
  }

  // ----- what a set replaces -----

  lemma FragBytes(e: Edit)
    requires Fragment(e).Ok?
    ensures Text(FlatFrag(Fragment(e).value)) == if e.valueJson == [] then JsoncQuote(e.value) else e.valueJson
  {
    hide Parse, Text, FlatFrag, Quoted;
    if e.valueJson == [] {
      LeafText(JsoncQuote(e.value));
    } else {
      FragText(e);
      var f := Parse(e.valueJson).value;
      ParseExact(e.valueJson, f);
      assert [] + Text(FlatDoc(f.doc)) == Text(FlatDoc(f.doc));
    }
  }

  // A set of a key that is there replaces the bytes of its value, and no other.
  lemma SetReplaces(src: bytes, e: Edit)
    requires !e.delete && Parse(src).Some? && Present(Parse(src).value.doc.root, e.keyPath) && Patched(src, e).Ok?
    ensures WellFormed(Parse(src).value.doc.root)
    ensures var f := Parse(src).value; var root := f.doc.root;
            var (obj, i) := Target(root, e.keyPath);
            var l := f.doc.pre + Ahead(root, e.keyPath) + BeforeVal(obj, i);
            var r := AfterItem(obj, i) + (Beyond(root, e.keyPath) + f.doc.post);
            && src == BomText(f.bom) + (Text(l) + Text(Flat(obj.items[i].val)) + Text(r))
            && Patched(src, e).value
               == BomText(f.bom) + (Text(l) + (if e.valueJson == [] then JsoncQuote(e.value) else e.valueJson) + Text(r))
  {
    hide WellFormed, Lexical, Flat, Text, Parse, Fragment, EditTree, Target, Ahead, Beyond, Retarget, Present, SetItem, Patched, Sound, FlatDoc, FlatFrag, Quoted, BeforeVal, AfterItem;
    var f := Parse(src).value;
    var root, path := f.doc.root, e.keyPath;
    FileAround(src, e);
    var (obj, i) := Target(root, path);
    EditTarget(root, e, path);
    var g := Fragment(e).value;
    FlatAt(obj, i);
    FlatSetItem(obj, i, g);
    FragBytes(e);
    var l, r := f.doc.pre + Ahead(root, path), Beyond(root, path) + f.doc.post;
    FiveTexts(l, BeforeVal(obj, i), Flat(obj.items[i].val), AfterItem(obj, i), r);
    FiveTexts(l, BeforeVal(obj, i), FlatFrag(g), AfterItem(obj, i), r);
    assert Patched(src, e).value == BomText(f.bom) + Text(l + Flat(SetItem(obj, i, g)) + r);
  }

  lemma FiveTexts(l: seq<Piece>, a: seq<Piece>, x: seq<Piece>, b: seq<Piece>, r: seq<Piece>)
    ensures Text(l + (a + x + b) + r) == Text(l + a) + Text(x) + Text(b + r)
  {
    hide Text;
    Parts5(l, a, x, b, r);
    TextConcat((l + a) + x, b + r);
    TextConcat(l + a, x);
  }

  // ----- what a create puts in -----

  // Some object on the way has no member of the next name.
  predicate Missing(c: Cst, path: seq<bytes>)
    decreases |path|
  {
    && path != [] && IsObject(c)
    && match FindKey(c.items, path[0])
       case None => true
       case Some(i) => |path| > 1 && Missing(c.items[i].val, path[1..])
  }

  // That object, the names that are missing, and the pieces around it.
  datatype Spot = Spot(ahead: seq<Piece>, obj: Cst, keys: seq<bytes>, beyond: seq<Piece>)

  ghost function SpotOf(c: Cst, path: seq<bytes>): (s: Spot)
    requires Missing(c, path)
    ensures IsObject(s.obj) && s.keys != []
    decreases |path|
  {
    match FindKey(c.items, path[0])
    case None => Spot([], c, path, [])
    case Some(i) =>
      var s := SpotOf(c.items[i].val, path[1..]);
      Spot(BeforeVal(c, i) + s.ahead, s.obj, s.keys, s.beyond + AfterItem(c, i))
  }

  // `"key": value`, with one fresh object per further name around the value.
  function Fresh(keys: seq<bytes>, value: bytes): bytes
    requires keys != []
  {
    JsoncQuote(keys[0]) + [0x3A, 0x20] + (if |keys| == 1 then value else [0x7B] + Fresh(keys[1..], value) + [0x7D])
  }

  lemma {:induction false} FreshIs(keys: seq<bytes>, value: bytes)
    requires keys != []
    ensures Fresh(keys, value) == JsoncQuote(keys[0]) + [COLON, SP] + NestText(keys[1..], value)
  {
    hide Quoted;
    if |keys| > 1 { FreshIs(keys[1..], value); }
  }

  lemma {:induction false} SpotEdit(c: Cst, e: Edit, path: seq<bytes>)
    requires WellFormed(c) && Missing(c, path) && EditTree(c, e, path).Ok?
    ensures var s := SpotOf(c, path);
            && Fragment(e).Ok?
            && var d := AppendItem(s.obj, s.keys[0], Nest(s.keys[1..], Fragment(e).value));
               && Flat(c) == s.ahead + Flat(s.obj) + s.beyond
               && Flat(EditTree(c, e, path).value) == s.ahead + Flat(d) + s.beyond
    decreases |path|
  {
    hide WellFormed, Flat, FindKey, BeforeVal, AfterItem, SetVal, Fragment, AppendItem, Nest;
    match FindKey(c.items, path[0])
    case None =>
      var d := EditTree(c, e, path).value;
      assert [] + Flat(c) + [] == Flat(c) && [] + Flat(d) + [] == Flat(d);
    case Some(i) =>
      var v := c.items[i].val;
      ItemValueOk(c, i);
      SpotEdit(v, e, path[1..]);
      var s := SpotOf(v, path[1..]);
      var d := AppendItem(s.obj, s.keys[0], Nest(s.keys[1..], Fragment(e).value));
      FlatAt(c, i);
      FlatSetVal(c, i, EditTree(v, e, path[1..]).value);
      Nested(BeforeVal(c, i), s.ahead, Flat(s.obj), s.beyond, AfterItem(c, i));
      Nested(BeforeVal(c, i), s.ahead, Flat(d), s.beyond, AfterItem(c, i));
  }

  // A create puts one entry in front of the closing brace, behind a comma and a
  // blank, behind a blank where a comma stands already, or behind nothing.
  lemma CreateInserts(src: bytes, e: Edit)
    requires !e.delete && Parse(src).Some? && Missing(Parse(src).value.doc.root, e.keyPath) && Patched(src, e).Ok?
    ensures var f := Parse(src).value;
            var s := SpotOf(f.doc.root, e.keyPath);
            var l, r := f.doc.pre + s.ahead + BeforeCloser(s.obj), [Closer(Object)] + (s.beyond + f.doc.post);
            var sep := if s.obj.items == [] then [] else if AllTrivia(s.obj.tail) then [0x2C, 0x20] else [0x20];
            var value := if e.valueJson == [] then JsoncQuote(e.value) else e.valueJson;
            && src == BomText(f.bom) + (Text(l) + Text(r))
            && Patched(src, e).value == BomText(f.bom) + (Text(l) + (sep + Fresh(s.keys, value)) + Text(r))
  {
    hide WellFormed, Lexical, Flat, Text, Parse, Fragment, EditTree, SpotOf, AppendItem, Nest, Sound, FlatFrag, Quoted, BeforeCloser, Entry, Fresh, NestText, KeyPieces, Missing;
    var f := Parse(src).value;
    var root, path := f.doc.root, e.keyPath;
    ParseExact(src, f);
    assert WellFormed(root) by { RootOk(f); }
    SpotEdit(root, e, path);
    var s, g := SpotOf(root, path), Fragment(e).value;
    var n := Nest(s.keys[1..], g);
    var d := AppendItem(s.obj, s.keys[0], n);
    FlatBeforeCloser(s.obj);
    FlatAppend(s.obj, s.keys[0], n);
    EntryText(s.obj, s.keys[0], n);
    KeyText(s.keys[0], n);
    NestTextPrints(s.keys[1..], g);
    FragBytes(e);
    FreshIs(s.keys, if e.valueJson == [] then JsoncQuote(e.value) else e.valueJson);
    var l, r := f.doc.pre + s.ahead, s.beyond + f.doc.post;
    Around(f.doc.pre, s.ahead, Flat(s.obj), s.beyond, f.doc.post);
    Around(f.doc.pre, s.ahead, Flat(d), s.beyond, f.doc.post);
    var a, x, z := BeforeCloser(s.obj), Entry(s.obj, s.keys[0], n), [Closer(Object)];
    assert a + [] == a;
    FiveTexts(l, a, [], z, r);
    FiveTexts(l, a, x, z, r);
    NoText();
    assert Text(l + a) + [] == Text(l + a);
  }

  lemma RootOk(f: File)
    requires Sound(f)
    ensures WellFormed(f.doc.root)
  {
    hide WellFormed, Lexical;
  }
}
