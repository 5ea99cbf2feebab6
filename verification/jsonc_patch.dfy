/**
 patchJSONC and its helpers as the source runs them (internal/clientconfig/jsonc.go):
 walk the node tree, find byte offsets, splice. Proved against the tree edits of
 JsoncEdit, whose meaning JsoncTheorems states.
 */
module JsoncPatch {
  import opened Bytes
  import opened JsoncLex
  import opened JsoncLexer
  import opened Scalars
  import opened JsoncSyntax
  import opened JsoncEdit
  import opened JsoncTrivia
  import opened JsoncPreserve
  import opened JsoncSeams
  import opened JsoncParser
  import opened JsoncSpans

  // ----- searches -----

  method FindJSONMember(members: seq<NodeMember>, key: bytes, ghost items: seq<Item>) returns (r: Option<nat>)
    requires |members| == |items| && forall k :: 0 <= k < |items| ==> members[k].key == KeyOf(items[k])
    ensures r == FindKey(items, key)
  {
    hide KeyOf, FindKey;
    FindKeyExact(items, key);
    var i := 0;
    while i < |members|
      invariant 0 <= i <= |members|
      invariant forall k :: 0 <= k < i ==> KeyOf(items[k]) != key
    {
      if members[i].key == key { return Some(i); }
      i := i + 1;
    }
    return None;
  }

  predicate IsCommaIn(t: Tok, from: nat, to: nat) { t.kind.Comma? && from <= t.off < to }

  // The first comma token whose offset lies in the range, or none.
  method FindJSONComma(toks: seq<Tok>, from: nat, to: nat) returns (r: Option<nat>)
    ensures r.None? ==> forall k :: 0 <= k < |toks| ==> !IsCommaIn(toks[k], from, to)
    ensures r.Some? ==> exists k :: 0 <= k < |toks| && IsCommaIn(toks[k], from, to) && toks[k].off == r.value
  {
    for k := 0 to |toks|
      invariant forall n :: 0 <= n < k ==> !IsCommaIn(toks[n], from, to)
    {
      var t := toks[k];
      if t.kind == Comma && t.off >= from && t.off < to {
        assert IsCommaIn(toks[k], from, to);
        return Some(t.off);
      }
    }
    return None;
  }

  lemma {:induction false} TriviaToks(ps: seq<Piece>, off: nat)
    requires AllTrivia(ps)
    ensures forall t :: t in Toks(ps, off) ==> t.kind.Comment?
  {
    if ps != [] {
      assert ps == [ps[0]] + ps[1..];
      TriviaConcat([ps[0]], ps[1..]);
      TriviaExact([ps[0]]);
      assert [ps[0]][0] == ps[0];
      TriviaToks(ps[1..], off + |ps[0].text|);
    }
  }

  // Between two neighbours lies exactly one comma, that of the separator.
  lemma CommaBetween(src: bytes, toks: seq<Tok>, a: seq<Piece>, sep: seq<Piece>, b: seq<Piece>)
    requires Lexes(src, toks, a + sep + b) && IsSeparator(sep)
    ensures var c := SkipTrivia(sep, 0);
            var comma := Off(src, a + sep[..c]);
            && Off(src, a + sep[..c + 1]) == comma + 1
            && (exists k :: 0 <= k < |toks| && IsCommaIn(toks[k], Off(src, a), Off(src, a + sep)))
            && (forall k :: 0 <= k < |toks| && IsCommaIn(toks[k], Off(src, a), Off(src, a + sep))
                  ==> toks[k].off == comma)
  {
    hide Toks, Text, Lexical, IsSeparator, ValidPiece;
    var c := SkipTrivia(sep, 0);
    var base := BomLen(src);
    SeparatorParts(sep);
    var x, p, y := sep[..c], sep[c], sep[c + 1..];
    hide SkipTrivia, AllTrivia, Count, Off;
    Parts5(a, x, [p], y, b);
    TokenOff(src, toks, a + x, p, y + b);
    ByteAt(src, toks, a + x, p, y + b);
    CommaText(p);
    assert sep[..c + 1] == x + [p];
    Assoc(a, x, [p]);
    CommaInSep(src, a, x, p, y);
    TokensAround(src, toks, a, x, p, y, b);
    assert IsCommaIn(toks[Count(a + x)], Off(src, a), Off(src, a + sep));
  }

  lemma CommaInSep(src: bytes, a: seq<Piece>, x: seq<Piece>, p: Piece, y: seq<Piece>)
    ensures Off(src, a) <= Off(src, a + x)
    ensures Off(src, a + x + [p]) == Off(src, a + x) + |p.text|
    ensures Off(src, a + x + [p]) <= Off(src, a + x + [p] + y)
  {
    hide Text;
    TextConcat(a, x);
    TextConcat(a + x, [p]);
    TextConcat(a + x + [p], y);
    TextOne(p);
  }

  lemma CommaText(p: Piece)
    requires ValidPiece(p) && p.kind.Comma?
    ensures |p.text| == 1
  {
  }

  lemma TokensAround(src: bytes, toks: seq<Tok>, a: seq<Piece>, x: seq<Piece>, p: Piece, y: seq<Piece>, b: seq<Piece>)
    requires Lexes(src, toks, a + (x + [p] + y) + b) && AllTrivia(x) && p.kind.Comma? && AllTrivia(y)
    ensures forall t :: t in toks && IsCommaIn(t, Off(src, a), Off(src, a + (x + [p] + y))) ==> t.off == Off(src, a + x)
  {
    hide Toks, Text, ValidPiece;
    var base := BomLen(src);
    var all := a + (x + [p] + y) + b;
    ConcatLexical(a + (x + [p] + y), b);
    ConcatLexical(a, x + [p] + y);
    ToksConcat(a + (x + [p] + y), b, base);
    ToksConcat(a, x + [p] + y, base);
    ToksConcat(x + [p], y, Off(src, a));
    ToksConcat(x, [p], Off(src, a));
    TextConcat(a, x);
    TextsNotEmpty(a);
    TextsNotEmpty(b);
    ToksWithin(a, base);
    ToksWithin(b, Off(src, a + (x + [p] + y)));
    TriviaToks(x, Off(src, a));
    TriviaToks(y, Off(src, a) + |Text(x + [p])|);
    OneTok(p, Off(src, a) + |Text(x)|);
  }

  lemma OneTok(p: Piece, off: nat)
    requires p.kind.Comma?
    ensures Toks([p], off) == [Tok(p.kind, off, |p.text|)]
  {
  }

  lemma TextsNotEmpty(ps: seq<Piece>)
    requires Lexical(ps)
    ensures forall k :: 0 <= k < |ps| ==> ps[k].text != []
  {
    forall k | 0 <= k < |ps| ensures ps[k].text != [] { FirstByte(ps[k]); }
  }

  // ----- the bytes around a cut -----

  lemma {:induction false} StringEndsInQuote(s: bytes, j: nat)
    requires StringEnd(s, j).Some?
    ensures s[StringEnd(s, j).value - 1] == QUOTE
    decreases |s| - j
  {
    if s[j] == BACKSLASH { StringEndsInQuote(s, j + 2); }
    else if s[j] != QUOTE { StringEndsInQuote(s, j + 1); }
  }

  // Only a blank piece or a line comment ends in a blank or a line feed.
  lemma LastByte(p: Piece)
    requires ValidPiece(p) && !p.kind.Space? && !IsLineComment(p)
    ensures p.text != [] && !IsBlank(p.text[|p.text| - 1]) && p.text[|p.text| - 1] != LF
  {
    if p.kind.Str? { StringEndsInQuote(p.text, 1); }
  }

  // What a look at the byte in front of lead[..n] tells, where a key follows
  // the lead and only blanks lie between.
  ghost predicate LooksBack(src: bytes, l: seq<Piece>, lead: seq<Piece>, n: nat)
    requires BlankTail(lead) <= n <= |lead|
  {
    var o := Off(src, l + lead[..n]);
    && 0 < o <= |src|
    && (IsBlank(src[o - 1]) <==> n > BlankTail(lead))
    && (n > BlankTail(lead) ==> Off(src, l + lead[..n - 1]) == o - 1 && src[o - 1] != LF)
    && (n == BlankTail(lead) ==> (src[o - 1] == LF <==> OwnLine(lead)))
    && (n == BlankTail(lead) && OwnLine(lead) ==> Off(src, l + BeforeLine(lead)) == o - 1)
  }

  // The byte in front of b is the last byte of the piece in front of it.
  lemma ByteBefore(src: bytes, toks: seq<Tok>, a: seq<Piece>, p: Piece, b: seq<Piece>)
    requires Lexes(src, toks, a + [p] + b)
    ensures ValidPiece(p) && p.text != []
    ensures var o := Off(src, a + [p]);
            0 < o <= |src| && o == Off(src, a) + |p.text| && src[o - 1] == p.text[|p.text| - 1]
  {
    hide Toks, Text, ValidPiece, Lexical, Off;
    ByteAt(src, toks, a, p, b);
  }

  lemma LeadSplit<T>(l: seq<T>, lead: seq<T>, rest: seq<T>, n: nat)
    requires n < |lead|
    ensures l + lead[..n + 1] == l + lead[..n] + [lead[n]]
    ensures l + lead + rest == l + lead[..n] + [lead[n]] + (lead[n + 1..] + rest)
  {
    var x, p, y := lead[..n], [lead[n]], lead[n + 1..];
    assert lead[..n + 1] == x + p && lead == x + p + y;
    Assoc(l, x, p);
    Parts5(l, x, p, y, rest);
  }

  lemma LookBack(src: bytes, toks: seq<Tok>, l: seq<Piece>, lead: seq<Piece>, rest: seq<Piece>, n: nat)
    requires Lexes(src, toks, l + lead + rest)
    requires l != [] && !IsTrivia(l[|l| - 1]) && rest != [] && rest[0].kind.Str?
    requires BlankTail(lead) <= n <= |lead|
    ensures LooksBack(src, l, lead, n)
  {
    hide Toks, Text, ValidPiece, Lexical, BlankTail, Off, Lexes;
    var b := lead[n..] + rest;
    if n > 0 {
      var p, a := lead[n - 1], l + lead[..n - 1];
      LeadSplit(l, lead, rest, n - 1);
      ByteBefore(src, toks, a, p, b);
      LastOf(src, toks, a, p, b);
    } else {
      var p, a := l[|l| - 1], l[..|l| - 1];
      assert l == a + [p] && lead[..n] == [] && lead[n..] == lead && l + [] == l;
      Assoc(l, lead, rest);
      ByteBefore(src, toks, a, p, b);
      LastOf(src, toks, a, p, b);
    }
  }

  // In front of a blank or a key, the last byte of a piece tells its kind.
  lemma LastOf(src: bytes, toks: seq<Tok>, a: seq<Piece>, p: Piece, b: seq<Piece>)
    requires Lexes(src, toks, a + [p] + b) && ValidPiece(p) && p.text != []
    requires b != [] && (b[0].kind.Str? || IsBlankPiece(b[0]))
    ensures var x := p.text[|p.text| - 1];
            && (IsBlank(x) <==> IsBlankPiece(p))
            && (x == LF <==> IsByte(p, LF))
            && (p.kind.Space? ==> |p.text| == 1)
  {
    hide Toks, Text, ValidPiece, Lexical;
    if p.kind.Space? {
      SpaceText(p);
    } else {
      BlankOrKeyNotEol(a + [p], b);
      LastByte(p);
    }
  }

  lemma SpaceText(p: Piece)
    requires ValidPiece(p) && p.kind.Space?
    ensures p.text == [p.text[0]] && IsSpace(p.text[0])
  {
  }

  // In front of a blank or a key no line comment can stand.
  lemma BlankOrKeyNotEol(a: seq<Piece>, b: seq<Piece>)
    requires Lexical(a + b) && a != [] && b != [] && (b[0].kind.Str? || IsBlankPiece(b[0]))
    ensures !IsLineComment(a[|a| - 1])
  {
    hide ValidPiece;
    ConcatLexical(a, b);
    FirstByte(b[0]);
  }

  // The source's look back from a key: where its line starts, if only blanks
  // stand in front of it, and the key itself otherwise.
  method LineStart(src: bytes, toks: seq<Tok>, key: nat, ghost l: seq<Piece>, ghost lead: seq<Piece>, ghost rest: seq<Piece>)
    returns (start: nat)
    requires Lexes(src, toks, l + lead + rest) && key == Off(src, l + lead)
    requires l != [] && !IsTrivia(l[|l| - 1]) && rest != [] && rest[0].kind.Str?
    ensures 0 < start <= |src| && (src[start - 1] == LF <==> OwnLine(lead))
    ensures start == if OwnLine(lead) then Off(src, l + BeforeLine(lead)) + 1 else key
  {
    hide Toks, Text, ValidPiece, Lexical, BlankTail, OwnLine, BeforeLine, Lexes, Off;
    start := key;
    assert lead[..|lead|] == lead;
    LookBack(src, toks, l, lead, rest, |lead|);
    if start > 0 && src[start - 1] != LF {
      var i := start;
      ghost var n := |lead|;
      while i > 0 && (src[i - 1] == SP || src[i - 1] == TAB)
        invariant BlankTail(lead) <= n <= |lead| && i == Off(src, l + lead[..n])
        invariant LooksBack(src, l, lead, n)
      {
        n := n - 1;
        i := i - 1;
        LookBack(src, toks, l, lead, rest, n);
      }
      if i == 0 || src[i - 1] != LF {
        i := start;
      }
      start := i;
    }
  }

  // What a look at the byte after lead[..n] tells, where a key follows the lead.
  ghost predicate LooksAhead(src: bytes, a: seq<Piece>, lead: seq<Piece>, n: nat)
    requires n <= |lead|
  {
    var o := Off(src, a + lead[..n]);
    && o < |src|
    && (IsBlank(src[o]) <==> n < |lead| && IsBlankPiece(lead[n]))
    && (src[o] == CR <==> n < |lead| && IsByte(lead[n], CR))
    && (src[o] == LF <==> n < |lead| && IsByte(lead[n], LF))
    && (IsSpace(src[o]) ==> n < |lead| && Off(src, a + lead[..n + 1]) == o + 1)
  }

  lemma LookAhead(src: bytes, toks: seq<Tok>, a: seq<Piece>, lead: seq<Piece>, rest: seq<Piece>, n: nat)
    requires Lexes(src, toks, a + lead + rest) && rest != [] && rest[0].kind.Str? && n <= |lead|
    ensures LooksAhead(src, a, lead, n)
  {
    hide Toks, Text, ValidPiece, Lexical;
    var b := lead[n..] + rest;
    var p := b[0];
    assert a + lead + rest == (a + lead[..n]) + [p] + b[1..];
    ByteAt(src, toks, a + lead[..n], p, b[1..]);
    FirstByte(p);
    if n < |lead| { assert a + lead[..n + 1] == a + lead[..n] + [p]; }
    if p.kind.Space? { SpaceText(p); }
  }

  lemma BlankEndStep(ps: seq<Piece>, j: nat)
    requires j <= |ps|
    ensures BlankEnd(ps, j) == if j < |ps| && IsBlankPiece(ps[j]) then BlankEnd(ps, j + 1) else j
  {}

  // The source's look ahead from the separating comma: past the blanks and,
  // when a whole line goes, past its line break.
  method CutEnd(src: bytes, toks: seq<Tok>, from: nat, ownLine: bool, ghost a: seq<Piece>, ghost lead: seq<Piece>, ghost rest: seq<Piece>)
    returns (end: nat)
    requires Lexes(src, toks, a + lead + rest) && IsSeparator(lead)
    requires rest != [] && rest[0].kind.Str?
    requires from == Off(src, a + lead[..SkipTrivia(lead, 0) + 1])
    ensures end == Off(src, a + lead[..Resume(lead, ownLine)])
  {
    hide Toks, Text, ValidPiece, Lexical, Lexes, Off, IsSeparator, SkipTrivia, BlankEnd;
    ghost var n: nat := SkipTrivia(lead, 0) + 1;
    assert n <= Resume(lead, ownLine) <= |lead|;
    end := PastBlanks(src, toks, from, a, lead, rest, n);
    n := BlankEnd(lead, n);
    if ownLine {
      LookAhead(src, toks, a, lead, rest, n);
      if end < |src| && src[end] == CR {
        end := end + 1;
        n := n + 1;
        LookAhead(src, toks, a, lead, rest, n);
      }
      if end < |src| && src[end] == LF {
        end := end + 1;
      }
    }
  }

  method PastBlanks(src: bytes, toks: seq<Tok>, from: nat, ghost a: seq<Piece>, ghost lead: seq<Piece>, ghost rest: seq<Piece>, ghost start: nat)
    returns (end: nat)
    requires Lexes(src, toks, a + lead + rest) && rest != [] && rest[0].kind.Str?
    requires start <= |lead| && from == Off(src, a + lead[..start])
    ensures end == Off(src, a + lead[..BlankEnd(lead, start)])
  {
    hide Toks, Text, ValidPiece, Lexical, Lexes, Off, BlankEnd;
    end := from;
    ghost var n: nat := start;
    LookAhead(src, toks, a, lead, rest, n);
    while end < |src| && (src[end] == SP || src[end] == TAB)
      invariant n <= |lead| && end == Off(src, a + lead[..n])
      invariant LooksAhead(src, a, lead, n)
      invariant BlankEnd(lead, n) == BlankEnd(lead, start)
    {
      BlankEndStep(lead, n);
      end := end + 1;
      n := n + 1;
      LookAhead(src, toks, a, lead, rest, n);
    }
    BlankEndStep(lead, n);
  }

  // ----- the three splices -----

  // The piece in front of an item's lead ends a value or opens the box.
  lemma BeforeItemLast(c: Cst, i: nat)
    requires WellFormed(c) && c.Box? && i <= |c.items|
    ensures BeforeItem(c, i) != [] && !IsTrivia(BeforeItem(c, i)[|BeforeItem(c, i)| - 1])
  {
    hide WellFormed, Flat, FlatItems;
    if i == 0 {
      FirstItem(c);
    } else {
      ItemValueOk(c, i - 1);
      FlatLast(c.items[i - 1].val);
      BeforeNext(c, i - 1);
    }
  }

  lemma FirstItem(c: Cst)
    requires c.Box?
    ensures BeforeItem(c, 0) == [Opener(c.kind)] && !IsTrivia(Opener(c.kind))
  {
    assert c.items[..0] == [];
  }

  // A file as the text around the lead of item i, which a key follows.
  lemma AroundLead(src: bytes, toks: seq<Tok>, l: seq<Piece>, c: Cst, r: seq<Piece>, i: nat) returns (rest: seq<Piece>)
    requires Inside(src, toks, l, c, r) && IsObject(c) && i < |c.items|
    ensures Lexes(src, toks, (l + BeforeItem(c, i)) + c.items[i].lead + rest)
    ensures rest != [] && rest[0].kind.Str?
    ensures l + BeforeItem(c, i) != [] && !IsTrivia((l + BeforeItem(c, i))[|l + BeforeItem(c, i)| - 1])
    ensures l + Flat(c) + r == (l + BeforeItem(c, i)) + c.items[i].lead + rest
  {
    hide WellFormed, Flat, Lexes, IsName, BeforeItem, AfterItem;
    var it := c.items[i];
    FlatAt(c, i);
    ItemNameOk(c, i);
    NameNotEmpty(it.name);
    NameFirst(it.name);
    BeforeItemLast(c, i);
    rest := it.name + Flat(it.val) + AfterItem(c, i) + r;
    assert l + Flat(c) + r == (l + BeforeItem(c, i)) + it.lead + rest;
  }

  method RemoveInnerMember(src: bytes, toks: seq<Tok>, obj: Node, idx: nat, start: nat,
      ghost l: seq<Piece>, ghost c: Cst, ghost r: seq<Piece>) returns (out: bytes)
    requires Inside(src, toks, l, c, r) && IsObject(c) && obj == ToNode(c, Count(l))
    requires idx + 1 < |obj.members| == |c.items|
    requires 0 < start <= |src| && (src[start - 1] == LF <==> OwnLine(c.items[idx].lead))
    requires start == if OwnLine(c.items[idx].lead) then Off(src, l + BeforeItem(c, idx) + BeforeLine(c.items[idx].lead)) + 1
                      else Off(src, l + BeforeItem(c, idx) + c.items[idx].lead)
    ensures IsSeparator(c.items[idx + 1].lead)
    ensures out == Reprint(src, l + Flat(RemoveItem(c, idx)) + r)
  {
    hide WellFormed, Flat, Lexes, IsSeparator, BeforeItem, AfterItem, ToNode, Toks, Text, Off, OwnLine, BeforeLine, Count, Resume, RemoveItem, Reprint;
    ItemLeadOk(c, idx + 1);
    MemberSpan(src, toks, l, c, r, idx);
    MemberSpan(src, toks, l, c, r, idx + 1);
    ghost var next := c.items[idx + 1];
    ghost var a := l + BeforeItem(c, idx + 1);
    BeforeNext(c, idx);
    assert l + (BeforeVal(c, idx) + Flat(c.items[idx].val)) == l + BeforeVal(c, idx) + Flat(c.items[idx].val);
    NodeSpan(src, toks, l + BeforeVal(c, idx), c.items[idx].val, AfterItem(c, idx) + r);
    ghost var rest := AroundLead(src, toks, l, c, r, idx + 1);
    CommaBetween(src, toks, a, next.lead, rest);
    var end := BytesEnd(obj.members[idx].val, toks);
    var nextKey := toks[obj.members[idx + 1].keyTok].off;
    var comma := FindJSONComma(toks, end, nextKey);
    if comma.None? { return src; }
    end := comma.value + 1;
    var ownLine := src[start - 1] == LF;
    end := CutEnd(src, toks, end, ownLine, a, next.lead, rest);
    var from := if ownLine then start - 1 else start;
    CutInner(src, toks, l, c, r, idx);
    out := Splice(src, from, end, []);
  }

  // The cut of an inner member in bytes.
  lemma CutInner(src: bytes, toks: seq<Tok>, l: seq<Piece>, c: Cst, r: seq<Piece>, i: nat)
    requires Inside(src, toks, l, c, r) && IsObject(c) && i + 1 < |c.items| && IsSeparator(c.items[i + 1].lead)
    ensures var lead, next := c.items[i].lead, c.items[i + 1].lead;
            var from := Off(src, l + BeforeItem(c, i) + Kept(lead));
            var end := Off(src, l + BeforeItem(c, i + 1) + next[..Resume(next, OwnLine(lead))]);
            && from <= end <= |src|
            && Splice(src, from, end, []) == Reprint(src, l + Flat(RemoveItem(c, i)) + r)
  {
    hide WellFormed, Flat, Lexes, IsSeparator, AfterItem, BeforeItem, Toks, Text, Off, OwnLine, Kept, Resume, RemoveItem, RemovedAfter, Reprint;
    FlatRemove(c, i);
    BeforeNext(c, i);
    LeftPrefix(c, i);
    var a, m, b := RemovedBefore(c, i), Removed(c, i), RemovedAfter(c, i);
    Parts5(l, a, m, b, r);
    SplicePieces(src, toks, l + a, m, b + r, []);
    NoText();
    Parts5(l, a, [], b, r);
    assert a + [] == a;
    var lead, next := c.items[i].lead, c.items[i + 1].lead;
    assert Left(c, i) == Kept(lead);
    Assoc(l, BeforeItem(c, i), Kept(lead));
    CutPieces(c, i);
    Assoc(l, a, m);
    Assoc(l, BeforeItem(c, i + 1), next[..Resume(next, OwnLine(lead))]);
  }

  lemma CutPieces(c: Cst, i: nat)
    requires c.Box? && i + 1 < |c.items| && IsSeparator(c.items[i + 1].lead)
    ensures var next := c.items[i + 1].lead;
            RemovedBefore(c, i) + Removed(c, i) == BeforeItem(c, i + 1) + next[..Resume(next, OwnLine(c.items[i].lead))]
  {
    hide Flat, IsSeparator, BeforeItem, Left, Resume, OwnLine;
    var it, next := c.items[i], c.items[i + 1].lead;
    BeforeNext(c, i);
    LeftPrefix(c, i);
    var a, k, x := BeforeItem(c, i), Left(c, i), it.lead[|Left(c, i)|..];
    Assoc(a, k, x);
    var w := next[..Resume(next, OwnLine(it.lead))];
    Assoc(a + k, x + it.name + Flat(it.val), w);
    Assoc4(a + k, x, it.name, Flat(it.val));
  }

  lemma NoText()
    ensures Text([]) == []
  {
  }

  method RemoveLastMember(src: bytes, toks: seq<Tok>, obj: Node, idx: nat, start: nat,
      ghost l: seq<Piece>, ghost c: Cst, ghost r: seq<Piece>) returns (out: bytes)
    requires Inside(src, toks, l, c, r) && IsObject(c) && obj == ToNode(c, Count(l))
    requires idx + 1 == |obj.members| == |c.items|
    requires 0 < start <= |src| && (src[start - 1] == LF <==> OwnLine(c.items[idx].lead))
    requires start == if OwnLine(c.items[idx].lead) then Off(src, l + BeforeItem(c, idx) + BeforeLine(c.items[idx].lead)) + 1
                      else Off(src, l + BeforeItem(c, idx) + c.items[idx].lead)
    ensures out == Reprint(src, l + Flat(RemoveItem(c, idx)) + r)
  {
    hide WellFormed, Flat, Lexes, IsSeparator, BeforeItem, AfterItem, ToNode, Toks, Text, Off, OwnLine, BeforeLine, Count, RemoveItem, Reprint, SkipTrivia;
    MemberSpan(src, toks, l, c, r, idx);
    NodeSpan(src, toks, l + BeforeVal(c, idx), c.items[idx].val, AfterItem(c, idx) + r);
    var end := BytesEnd(obj.members[idx].val, toks);
    ghost var lead := c.items[idx].lead;
    var cutStart := start;
    if start > 0 && src[start - 1] == LF {
      cutStart := cutStart - 1;
    } else {
      if idx > 0 {
        MemberSpan(src, toks, l, c, r, idx - 1);
        NodeSpan(src, toks, l + BeforeVal(c, idx - 1), c.items[idx - 1].val, AfterItem(c, idx - 1) + r);
        BeforeNext(c, idx - 1);
        assert l + BeforeVal(c, idx - 1) + Flat(c.items[idx - 1].val) == l + BeforeItem(c, idx);
        ItemLeadOk(c, idx);
        ghost var rest := AroundLead(src, toks, l, c, r, idx);
        CommaBetween(src, toks, l + BeforeItem(c, idx), lead, rest);
        var prevEnd := BytesEnd(obj.members[idx - 1].val, toks);
        var comma := FindJSONComma(toks, prevEnd, start);
        if comma.Some? {
          cutStart := comma.value;
        }
      }
    }
    CutLast(src, toks, l, c, r, idx);
    out := Splice(src, cutStart, end, []);
    if idx > 0 && cutStart == start {
      // The source would take the comma out in a second pass here, but the first
      // cut always starts in front of the member.
      assert false;
    }
  }

  // The cut of a last member in bytes.
  lemma CutLast(src: bytes, toks: seq<Tok>, l: seq<Piece>, c: Cst, r: seq<Piece>, i: nat)
    requires Inside(src, toks, l, c, r) && IsObject(c) && i + 1 == |c.items|
    ensures var from := Off(src, l + BeforeItem(c, i) + Left(c, i));
            var end := Off(src, l + BeforeVal(c, i) + Flat(c.items[i].val));
            && from <= end <= |src|
            && Splice(src, from, end, []) == Reprint(src, l + Flat(RemoveItem(c, i)) + r)
    ensures |Left(c, i)| < |c.items[i].lead| ==>
            Off(src, l + BeforeItem(c, i) + Left(c, i)) < Off(src, l + BeforeItem(c, i) + c.items[i].lead)
  {
    hide WellFormed, Flat, Lexes, IsSeparator, AfterItem, BeforeItem, Toks, Text, OwnLine, Kept, RemoveItem, RemovedAfter, Reprint;
    FlatRemove(c, i);
    LeftPrefix(c, i);
    var a, m, b := RemovedBefore(c, i), Removed(c, i), RemovedAfter(c, i);
    assert l + Flat(c) + r == (l + a) + m + (b + r);
    SplicePieces(src, toks, l + a, m, b + r, []);
    NoText();
    assert (l + a) + [] + (b + r) == l + (a + b) + r;
    assert l + BeforeItem(c, i) + Left(c, i) == l + a;
    assert l + BeforeVal(c, i) + Flat(c.items[i].val) == (l + a) + m;
    LongerText(src, toks, l, c, r, i);
  }

  lemma LongerText(src: bytes, toks: seq<Tok>, l: seq<Piece>, c: Cst, r: seq<Piece>, i: nat)
    requires Inside(src, toks, l, c, r) && IsObject(c) && i < |c.items|
    ensures |Left(c, i)| < |c.items[i].lead| ==>
            |Text(l + BeforeItem(c, i) + Left(c, i))| < |Text(l + BeforeItem(c, i) + c.items[i].lead)|
  {
    hide WellFormed, Flat, AfterItem, BeforeItem, Toks, Left, ValidPiece;
    if |Left(c, i)| < |c.items[i].lead| {
      LeftPrefix(c, i);
      var cut := c.items[i].lead[|Left(c, i)|..];
      var rest := AroundLead(src, toks, l, c, r, i);
      var a := l + BeforeItem(c, i);
      assert a + c.items[i].lead == (a + Left(c, i)) + cut;
      TextConcat(a + Left(c, i), cut);
      var ps := a + c.items[i].lead + rest;
      assert cut[0] == ps[|a| + |Left(c, i)|];
      assert ValidPiece(ps[|a| + |Left(c, i)|]);
      FirstByte(cut[0]);
    }
  }

  // Removes the member with the key, or returns src when there is none.
  method RemoveJSONMember(src: bytes, toks: seq<Tok>, obj: Node, key: bytes,
      ghost l: seq<Piece>, ghost c: Cst, ghost r: seq<Piece>) returns (out: bytes)
    requires Inside(src, toks, l, c, r) && IsObject(c) && obj == ToNode(c, Count(l))
    ensures FindKey(c.items, key).None? ==> out == src
    ensures FindKey(c.items, key).Some? ==>
            var i := FindKey(c.items, key).value;
            && (i + 1 < |c.items| ==> IsSeparator(c.items[i + 1].lead))
            && out == Reprint(src, l + Flat(RemoveItem(c, i)) + r)
  {
    hide WellFormed, Flat, Lexes, IsSeparator, BeforeItem, AfterItem, ToNode, Toks, Text, Off, OwnLine, BeforeLine, Count, RemoveItem, Reprint, FindKey, KeyOf;
    NodeKeys(src, toks, l, c, r);
    var found := FindJSONMember(obj.members, key, c.items);
    if found.None? { return src; }
    var idx := found.value;
    MemberSpan(src, toks, l, c, r, idx);
    ghost var rest := AroundLead(src, toks, l, c, r, idx);
    var start := LineStart(src, toks, toks[obj.members[idx].keyTok].off, l + BeforeItem(c, idx), c.items[idx].lead, rest);
    if idx + 1 < |obj.members| {
      out := RemoveInnerMember(src, toks, obj, idx, start, l, c, r);
    } else {
      out := RemoveLastMember(src, toks, obj, idx, start, l, c, r);
    }
  }

  lemma NodeKeys(src: bytes, toks: seq<Tok>, l: seq<Piece>, c: Cst, r: seq<Piece>)
    requires Inside(src, toks, l, c, r) && IsObject(c)
    ensures var ms := ToNode(c, Count(l)).members;
            |ms| == |c.items| && forall k :: 0 <= k < |c.items| ==> ms[k].key == KeyOf(c.items[k])
  {
    hide WellFormed, Flat, Lexes, ToNode, KeyOf, Inside;
    NodeMembers(c, Count(l));
    MembersLen(c.items, Count(l) + 1);
    forall k | 0 <= k < |c.items| ensures ToNode(c, Count(l)).members[k].key == KeyOf(c.items[k]) {
      MemberSpan(src, toks, l, c, r, k);
    }
  }

  function SepText(c: Cst): bytes
    requires c.Box?
  {
    if c.items == [] then [] else if AllTrivia(c.tail) then [COMMA, SP] else [SP]
  }

  // Puts an entry, whatever its text, in front of the closing brace.
  method InsertJSONMember(src: bytes, toks: seq<Tok>, obj: Node, entry: bytes,
      ghost l: seq<Piece>, ghost c: Cst, ghost r: seq<Piece>) returns (out: bytes)
    requires Inside(src, toks, l, c, r) && IsObject(c) && obj == ToNode(c, Count(l))
    ensures out == Reprint(src, l + BeforeCloser(c)) + (SepText(c) + entry) + Text([Closer(c.kind)] + r)
  {
    hide WellFormed, Flat, Lexes, ToNode, Toks, Text, Off, Count, Reprint, BeforeCloser, AllTrivia;
    NodeKeys(src, toks, l, c, r);
    NodeMembers(c, Count(l));
    NodeSpan(src, toks, l, c, r);
    var text := entry;
    if |obj.members| == 0 {
      assert [] + entry == entry;
    } else if obj.trailing {
      text := [SP] + text;
    } else {
      text := [COMMA, SP] + text;
    }
    var at := toks[obj.closeTok].off;
    out := Splice(src, at, at, text);
    FlatBeforeCloser(c);
    ghost var a, b := l + BeforeCloser(c), [Closer(c.kind)] + r;
    assert l + Flat(c) + r == a + b;
    OffInSrc(src, toks, a, b);
  }

  // With the text of a fragment the result is the print of the appended tree.
  lemma InsertPrints(src: bytes, l: seq<Piece>, c: Cst, r: seq<Piece>, key: bytes, g: Frag)
    requires IsObject(c)
    ensures Reprint(src, l + BeforeCloser(c)) + (SepText(c) + Text(KeyPieces(key) + FlatFrag(g))) + Text([Closer(c.kind)] + r)
         == Reprint(src, l + Flat(AppendItem(c, key, g)) + r)
  {
    hide Flat, Text, AppendItem, KeyPieces, FlatFrag, BeforeCloser, Entry;
    EntryText(c, key, g);
    FlatAppend(c, key, g);
    var a, x, b := l + BeforeCloser(c), Entry(c, key, g), [Closer(c.kind)] + r;
    assert l + Flat(AppendItem(c, key, g)) + r == a + x + b;
    TextConcat(a + x, b);
    TextConcat(a, x);
  }

  lemma SeparatorText()
    ensures Text([BlankPiece()]) == [SP] && Text([CommaPiece(), BlankPiece()]) == [COMMA, SP] && Text([]) == []
  {
    assert [CommaPiece(), BlankPiece()][1..] == [BlankPiece()];
  }

  lemma EntryText(c: Cst, key: bytes, g: Frag)
    requires c.Box?
    ensures Text(Entry(c, key, g)) == SepText(c) + Text(KeyPieces(key) + FlatFrag(g))
  {
    hide FlatFrag, KeyPieces, Text, Entry, AllTrivia;
    EntryKeyed(c, key, g);
    SeparatorText();
    var sep := AppendLead(c)[|c.tail|..];
    assert Keyed(sep, key, g) == sep + (KeyPieces(key) + FlatFrag(g));
    TextConcat(sep, KeyPieces(key) + FlatFrag(g));
  }

  // ----- the texts an edit writes -----

  method JsonValueBytes(e: Edit) returns (r: Result<bytes>)
    ensures match Fragment(e)
            case Ok(g) => r == Ok(Text(FlatFrag(g)))
            case Err(UnsupportedStructure) => r == Err(UnsupportedStructure)
            case Err(InternalInconsistency) => r == Ok(e.valueJson) && HasBom(e.valueJson)
            case Err(_) => false
  {
    hide Parse, Lex, ParseDoc, Quoted, Flat, Text, FlatDoc;
    if e.valueJson == [] {
      var q := QuoteBasic(e.value, false);
      LeafText(q);
      return Ok(q);
    }
    var p := ParseJSONC(e.valueJson);
    if p.Err? { return Err(UnsupportedStructure); }
    ghost var f := Parse(e.valueJson).value;
    ParseExact(e.valueJson, f);
    BomOf(f.bom, FlatDoc(f.doc));
    if !f.bom { assert e.valueJson == Text(FlatDoc(f.doc)); }
    FragText(e);
    return Ok(e.valueJson);
  }

  lemma LeafText(q: bytes)
    ensures Text(FlatFrag(Frag([], Leaf(Piece(Str, q)), []))) == q
  {
    var g := Frag([], Leaf(Piece(Str, q)), []);
    assert FlatFrag(g) == [Piece(Str, q)];
  }

  lemma FragText(e: Edit)
    requires e.valueJson != [] && Parse(e.valueJson).Some?
    ensures var f := Parse(e.valueJson).value;
            Fragment(e) == if f.bom then Err(InternalInconsistency) else Ok(Frag(f.doc.pre, f.doc.root, f.doc.post))
    ensures Fragment(e).Ok? ==> FlatFrag(Fragment(e).value) == FlatDoc(Parse(e.valueJson).value.doc)
  {
    hide Parse, Flat;
  }

  lemma KeyText(key: bytes, g: Frag)
    ensures Text(KeyPieces(key) + FlatFrag(g)) == JsoncQuote(key) + [COLON, SP] + Text(FlatFrag(g))
  {
    hide Quoted, FlatFrag;
    TextConcat(KeyPieces(key), FlatFrag(g));
    var ps := KeyPieces(key);
    assert ps[1..] == [ColonPiece(), BlankPiece()];
    assert ps[1..][1..] == [BlankPiece()];
    assert Text([BlankPiece()]) == [SP];
    assert Text([ColonPiece(), BlankPiece()]) == [COLON, SP];
  }

  method JsonMemberEntry(e: Edit, key: bytes) returns (r: Result<bytes>)
    ensures e.delete ==> r == Err(KeyNotFound)
    ensures !e.delete ==> match Fragment(e)
            case Ok(g) => r == Ok(JsoncQuote(key) + [COLON, SP] + Text(FlatFrag(g)))
            case Err(UnsupportedStructure) => r == Err(UnsupportedStructure)
            case Err(InternalInconsistency) => r == Ok(JsoncQuote(key) + [COLON, SP] + e.valueJson) && HasBom(e.valueJson)
            case Err(_) => false
  {
    hide Fragment, Text, FlatFrag;
    if e.delete { return Err(KeyNotFound); }
    var val := JsonValueBytes(e);
    if val.Err? { return val; }
    var q := QuoteBasic(key, false);
    return Ok(q + [COLON, SP] + val.value);
  }

  // The objects that a missing path is created with, around any leaf text.
  function NestText(keys: seq<bytes>, leaf: bytes): bytes {
    if keys == [] then leaf
    else [LBRACE] + (JsoncQuote(keys[0]) + [COLON, SP] + NestText(keys[1..], leaf)) + [RBRACE]
  }

  method JsonNestedEntry(e: Edit, path: seq<bytes>) returns (r: Result<bytes>)
    requires |path| >= 2
    ensures match Fragment(e)
            case Ok(g) => r == Ok(JsoncQuote(path[0]) + [COLON, SP] + NestText(path[1..], Text(FlatFrag(g))))
            case Err(UnsupportedStructure) => r == Err(UnsupportedStructure)
            case Err(InternalInconsistency) => r == Ok(JsoncQuote(path[0]) + [COLON, SP] + NestText(path[1..], e.valueJson)) && HasBom(e.valueJson)
            case Err(_) => false
  {
    hide Fragment, Text, FlatFrag, Quoted;
    var leaf := JsonValueBytes(e);
    if leaf.Err? { return leaf; }
    var inner := leaf.value;
    var i := |path| - 1;
    assert path[i + 1..] == [];
    ghost var outermost := JsoncQuote(path[1]) + [COLON, SP] + NestText(path[2..], leaf.value);
    while i > 0
      invariant 0 <= i < |path|
      invariant if i > 0 then inner == NestText(path[i + 1..], leaf.value) else inner == outermost
    {
      var q := QuoteBasic(path[i], false);
      assert path[i..][1..] == path[i + 1..];
      inner := q + [COLON, SP] + inner;
      if i > 1 {
        inner := [LBRACE] + inner + [RBRACE];
      }
      i := i - 1;
    }
    var q := QuoteBasic(path[0], false);
    assert path[1..][1..] == path[2..];
    return Ok(q + [COLON, SP] + ([LBRACE] + inner + [RBRACE]));
  }

  lemma {:induction false} NestTextPrints(keys: seq<bytes>, g: Frag)
    ensures NestText(keys, Text(FlatFrag(g))) == Text(FlatFrag(Nest(keys, g)))
  {
    if keys != [] {
      hide Quoted, FlatFrag, Nest;
      var inner := Nest(keys[1..], g);
      NestTextPrints(keys[1..], g);
      FlatNest(keys, g);
      KeyText(keys[0], inner);
      var x := KeyPieces(keys[0]) + FlatFrag(inner);
      assert Keyed([], keys[0], inner) == x;
      TextConcat([Opener(Object)] + x, [Closer(Object)]);
      TextConcat([Opener(Object)], x);
      BracketText();
    }
  }

  lemma BracketText()
    ensures Text([Opener(Object)]) == [LBRACE] && Text([Closer(Object)]) == [RBRACE]
  {
  }

  // ----- a byte order mark in the middle of a file -----

  // The pieces in front of the leaf.
  function NestPrefix(keys: seq<bytes>): seq<Piece> {
    if keys == [] then [] else [Opener(Object)] + KeyPieces(keys[0]) + NestPrefix(keys[1..])
  }

  lemma {:induction false} NestPrefixLexical(keys: seq<bytes>, key: bytes)
    ensures var ps := KeyPieces(key) + NestPrefix(keys);
            Lexical(ps) && ps != [] && ps[|ps| - 1] == BlankPiece()
    decreases |keys|
  {
    hide Quoted, ValidPiece, Lexical, KeyPieces;
    KeyPiecesLexical(key);
    KeyPiecesEnds(key);
    if keys == [] {
      assert KeyPieces(key) + [] == KeyPieces(key);
    } else {
      var more := [Opener(Object)] + (KeyPieces(keys[0]) + NestPrefix(keys[1..]));
      NestPrefixLexical(keys[1..], keys[0]);
      BracketsLexical(Object);
      BracketSeam(KeyPieces(keys[0]) + NestPrefix(keys[1..]));
      ConcatLexical([Opener(Object)], KeyPieces(keys[0]) + NestPrefix(keys[1..]));
      BlankSeam(more);
      ConcatLexical(KeyPieces(key), more);
      assert NestPrefix(keys) == more;
    }
  }

  lemma BracketSeam(ps: seq<Piece>)
    requires Lexical(ps) && ps != []
    ensures Adjacent(Opener(Object), ps[0])
  {
    assert ValidPiece(ps[0]);
    FirstByte(ps[0]);
  }

  lemma {:induction false} NestTextPrefix(keys: seq<bytes>, key: bytes, leaf: bytes) returns (rest: bytes)
    ensures JsoncQuote(key) + [COLON, SP] + NestText(keys, leaf) == Text(KeyPieces(key) + NestPrefix(keys)) + leaf + rest
    decreases |keys|
  {
    hide Quoted, Text, KeyPieces;
    KeyText(key, Frag([], Leaf(BlankPiece()), []));
    KeyPiecesText(key);
    TextConcat(KeyPieces(key), NestPrefix(keys));
    if keys == [] {
      rest := [];
      assert NestText(keys, leaf) == leaf;
      NoText();
    } else {
      var more := KeyPieces(keys[0]) + NestPrefix(keys[1..]);
      var inner := NestTextPrefix(keys[1..], keys[0], leaf);
      Assoc([Opener(Object)], KeyPieces(keys[0]), NestPrefix(keys[1..]));
      TextConcat([Opener(Object)], more);
      BracketText();
      rest := inner + [RBRACE];
      assert NestText(keys, leaf) == [LBRACE] + (Text(more) + leaf + inner) + [RBRACE];
      BraceGroups(Text(KeyPieces(key)), [LBRACE], Text(more), leaf, inner, [RBRACE]);
    }
  }

  lemma BraceGroups(q: bytes, o: bytes, m: bytes, leaf: bytes, inner: bytes, z: bytes)
    ensures q + (o + (m + leaf + inner) + z) == q + (o + m) + leaf + (inner + z)
  {
    Assoc4(o, m, leaf, inner);
    Assoc(o + m + leaf, inner, z);
    Assoc(q, o + m + leaf, inner + z);
    Assoc(q, o + m, leaf);
  }

  // Text with a byte order mark behind its first piece never lexes.
  lemma MarkInside(src: bytes, a: seq<Piece>, leaf: bytes, rest: bytes)
    requires Lexical(a) && a != [] && HasBom(leaf)
    requires !IsLineComment(a[|a| - 1])
    ensures Lex(Reprint(src, a) + leaf + rest).None?
  {
    hide ValidPiece, Lexical, NextToken, Text, Reprint, HasBom;
    var bom := HasBom(src);
    var out := Reprint(src, a) + leaf + rest;
    MarkAhead(src, a, leaf, rest);
    var i := BomLen(out) + |Text(a)|;
    MarkByte(leaf);
    assert out[i] == (leaf + rest)[0] == 0xEF;
    PiecesPrefix(out, BomLen(out), a);
    assert NextToken(out, i).None? by { NoMark(out, i); }
  }

  lemma MarkByte(leaf: bytes)
    requires HasBom(leaf)
    ensures leaf != [] && leaf[0] == 0xEF
  {
    AtIndex(leaf, 0, BOM, 0);
  }

  lemma NoMark(s: bytes, i: nat)
    requires i < |s| && s[i] == 0xEF
    ensures NextToken(s, i).None?
  {
    if At(s, i, TRUE) { AtIndex(s, i, TRUE, 0); }
    if At(s, i, FALSE) { AtIndex(s, i, FALSE, 0); }
    if At(s, i, NULL) { AtIndex(s, i, NULL, 0); }
  }

  lemma MarkAhead(src: bytes, a: seq<Piece>, leaf: bytes, rest: bytes)
    requires Lexical(a) && a != [] && HasBom(leaf)
    ensures var out := Reprint(src, a) + leaf + rest;
            BomLen(out) == BomLen(src) && At(out, BomLen(out), Text(a))
            && out[BomLen(out) + |Text(a)|..] == leaf + rest
  {
    hide ValidPiece, Lexical, Text;
    var out := Reprint(src, a) + leaf + rest;
    Assoc(Reprint(src, a), leaf, rest);
    MiddleOf(src[..BomLen(src)], Text(a), leaf + rest);
    if HasBom(src) {
      assert out[0..3] == src[..3];
    } else {
      assert ValidPiece(a[0]) by { FirstIsValid(a); }
      FirstByte(a[0]);
      TextFirst(a);
      assert out[0] == a[0].text[0];
      if HasBom(out) { AtIndex(out, 0, BOM, 0); }
    }
  }

  // ----- the edit -----

  method VerifyJSONC(out: bytes) returns (r: Result<bytes>)
    ensures r == Verified(out)
  {
    hide Parse, FlatDoc, ToNode;
    var p := ParseJSONC(out);
    return if p.Err? then Err(InternalInconsistency) else Ok(out);
  }

  lemma NeverParses(out: bytes)
    requires Lex(out).None?
    ensures Verified(out) == Err(InternalInconsistency)
  {
  }

  lemma SetPrints(src: bytes, toks: seq<Tok>, l: seq<Piece>, c: Cst, r: seq<Piece>, i: nat, g: Frag)
    requires Inside(src, toks, l, c, r) && IsObject(c) && i < |c.items|
    ensures var from, to := Off(src, l + BeforeVal(c, i)), Off(src, l + BeforeVal(c, i) + Flat(c.items[i].val));
            && from <= to <= |src|
            && Splice(src, from, to, Text(FlatFrag(g))) == Reprint(src, l + Flat(SetItem(c, i, g)) + r)
  {
    hide Flat, Text, Lexes, WellFormed, BeforeVal, AfterItem, FlatFrag, SetItem, Reprint, Off, Splice;
    FlatAt(c, i);
    FlatSetItem(c, i, g);
    var a, m, b := l + BeforeVal(c, i), Flat(c.items[i].val), AfterItem(c, i) + r;
    assert l + Flat(c) + r == a + m + b;
    SplicePieces(src, toks, a, m, b, FlatFrag(g));
    assert l + Flat(SetItem(c, i, g)) + r == a + FlatFrag(g) + b;
  }

  // What stands in front of a value, or of a closing brace, does not run on.
  lemma BeforeValClosed(src: bytes, toks: seq<Tok>, l: seq<Piece>, c: Cst, r: seq<Piece>, i: nat)
    requires Inside(src, toks, l, c, r) && IsObject(c) && i < |c.items|
    ensures var a := l + BeforeVal(c, i);
            Lexical(a) && a != [] && !IsLineComment(a[|a| - 1])
  {
    hide Flat, Text, Toks, Lexical, WellFormed, BeforeVal, AfterItem;
    var a, b := l + BeforeVal(c, i), Flat(c.items[i].val) + AfterItem(c, i) + r;
    FlatAt(c, i);
    assert l + Flat(c) + r == a + b;
    ItemValueOk(c, i);
    FlatFirst(c.items[i].val);
    BeforeValLast(c, i);
    NotOpen(a, b);
    ConcatLexical(a, b);
  }

  lemma BeforeCloserClosed(src: bytes, toks: seq<Tok>, l: seq<Piece>, c: Cst, r: seq<Piece>)
    requires Inside(src, toks, l, c, r) && IsObject(c)
    ensures var a := l + BeforeCloser(c);
            Lexical(a) && a != [] && !IsLineComment(a[|a| - 1])
  {
    hide Flat, Text, Toks, Lexical, WellFormed;
    var a, b := l + BeforeCloser(c), [Closer(c.kind)] + r;
    FlatBeforeCloser(c);
    assert l + Flat(c) + r == a + b;
    NotOpen(a, b);
    ConcatLexical(a, b);
  }

  method SetJSONValue(src: bytes, toks: seq<Tok>, val: Node, e: Edit,
      ghost i: nat, ghost l: seq<Piece>, ghost c: Cst, ghost r: seq<Piece>) returns (res: Result<bytes>)
    requires Inside(src, toks, l, c, r) && IsObject(c) && i < |c.items|
    requires val == ToNode(c.items[i].val, Count(l + BeforeVal(c, i)))
    ensures Fragment(e).Err? ==> res == Err(Fragment(e).error)
    ensures Fragment(e).Ok? ==> res == Verified(Reprint(src, l + Flat(SetItem(c, i, Fragment(e).value)) + r))
  {
    hide Flat, Text, Toks, Lexical, Lexes, WellFormed, BeforeVal, AfterItem, FlatFrag, SetItem, Reprint, Splice, Fragment, ToNode, Count, Parse, Off, KeyOf;
    MemberSpan(src, toks, l, c, r, i);
    NodeSpan(src, toks, l + BeforeVal(c, i), c.items[i].val, AfterItem(c, i) + r);
    var repl := JsonValueBytes(e);
    if repl.Err? { return repl; }
    var start, end := BytesStart(val, toks), BytesEnd(val, toks);
    var out := Splice(src, start, end, repl.value);
    if Fragment(e).Ok? {
      SetPrints(src, toks, l, c, r, i, Fragment(e).value);
    } else {
      MarkSet(src, toks, l, c, r, i, e.valueJson);
    }
    res := VerifyJSONC(out);
  }

  lemma MarkSet(src: bytes, toks: seq<Tok>, l: seq<Piece>, c: Cst, r: seq<Piece>, i: nat, leaf: bytes)
    requires Inside(src, toks, l, c, r) && IsObject(c) && i < |c.items| && HasBom(leaf)
    ensures var from, to := Off(src, l + BeforeVal(c, i)), Off(src, l + BeforeVal(c, i) + Flat(c.items[i].val));
            from <= to <= |src| && Verified(Splice(src, from, to, leaf)) == Err(InternalInconsistency)
  {
    hide Flat, Text, Toks, Lexical, Lexes, WellFormed, BeforeVal, AfterItem, Lex, Parse;
    SetPrints(src, toks, l, c, r, i, Frag([], Leaf(BlankPiece()), []));
    BeforeValClosed(src, toks, l, c, r, i);
    var a, b := l + BeforeVal(c, i), Flat(c.items[i].val) + AfterItem(c, i) + r;
    FlatAt(c, i);
    assert l + Flat(c) + r == a + b;
    OffInSrc(src, toks, a, b);
    var rest := src[Off(src, a + Flat(c.items[i].val))..];
    MarkInside(src, a, leaf, rest);
    NeverParses(Reprint(src, a) + leaf + rest);
  }

  // A missing key: one entry for it, with fresh objects for what is left of the path.
  method CreateJSONMember(src: bytes, toks: seq<Tok>, obj: Node, e: Edit, path: seq<bytes>,
      ghost l: seq<Piece>, ghost c: Cst, ghost r: seq<Piece>) returns (res: Result<bytes>)
    requires Inside(src, toks, l, c, r) && IsObject(c) && obj == ToNode(c, Count(l)) && path != []
    ensures e.delete && |path| == 1 ==> res == Err(KeyNotFound)
    ensures !(e.delete && |path| == 1) && Fragment(e).Err? ==> res == Err(Fragment(e).error)
    ensures !(e.delete && |path| == 1) && Fragment(e).Ok? ==>
            res == Verified(Reprint(src, l + Flat(AppendItem(c, path[0], Nest(path[1..], Fragment(e).value))) + r))
  {
    hide Flat, Text, Toks, Lexical, Lexes, WellFormed, BeforeCloser, FlatFrag, AppendItem, Reprint, Fragment, ToNode, Count, Parse, Quoted, Nest, SepText, NestText;
    var entry;
    if |path| > 1 {
      entry := JsonNestedEntry(e, path);
    } else {
      entry := JsonMemberEntry(e, path[0]);
      assert NestText(path[1..], e.valueJson) == e.valueJson by { NoNest(path[1..], e.valueJson, Frag([], Leaf(BlankPiece()), [])); }
    }
    if entry.Err? { return entry; }
    var out := InsertJSONMember(src, toks, obj, entry.value, l, c, r);
    if Fragment(e).Ok? {
      ghost var g := Fragment(e).value;
      ghost var n := Nest(path[1..], g);
      if |path| == 1 { NoNest(path[1..], e.valueJson, g); } else { NestTextPrints(path[1..], g); }
      KeyText(path[0], n);
      InsertPrints(src, l, c, r, path[0], n);
    } else {
      MarkEntry(src, toks, l, c, r, path, e.valueJson, Text([Closer(c.kind)] + r));
    }
    res := VerifyJSONC(out);
  }

  lemma NoNest(keys: seq<bytes>, leaf: bytes, g: Frag)
    requires keys == []
    ensures NestText(keys, leaf) == leaf && Nest(keys, g) == g
  {
  }

  lemma MarkEntry(src: bytes, toks: seq<Tok>, l: seq<Piece>, c: Cst, r: seq<Piece>, path: seq<bytes>, leaf: bytes, end: bytes)
    requires Inside(src, toks, l, c, r) && IsObject(c) && path != [] && HasBom(leaf)
    ensures var entry := JsoncQuote(path[0]) + [COLON, SP] + NestText(path[1..], leaf);
            Verified(Reprint(src, l + BeforeCloser(c)) + (SepText(c) + entry) + end) == Err(InternalInconsistency)
  {
    hide Flat, Text, Toks, Lexical, Lexes, WellFormed, BeforeCloser, Quoted, Lex, Parse, NestText, KeyPieces, NestPrefix, AllTrivia, ValidPiece;
    var a := l + BeforeCloser(c);
    BeforeCloserClosed(src, toks, l, c, r);
    var keyed := KeyPieces(path[0]) + NestPrefix(path[1..]);
    NestPrefixLexical(path[1..], path[0]);
    var rest := NestTextPrefix(path[1..], path[0], leaf);
    var sep := AppendLead(c)[|c.tail|..];
    KeyPiecesEnds(path[0]);
    assert keyed[0] == KeyPieces(path[0])[0];
    KeyPiecesFirst(path[0]);
    SepSeams(c, keyed);
    var x := sep + keyed;
    TextConcat(sep, keyed);
    TextConcat(a, x);
    InsertSeam(a, x);
    ConcatLexical(a, x);
    assert (a + x)[|a + x| - 1] == BlankPiece();
    MarkInside(src, a + x, leaf, rest + end);
    Assoc(src[..BomLen(src)], Text(a), Text(x));
    EndsAfter(Reprint(src, a), SepText(c), Text(keyed), leaf, rest, end);
    NeverParses(Reprint(src, a + x) + leaf + (rest + end));
  }

  lemma KeyPiecesFirst(key: bytes)
    ensures KeyPieces(key)[0].kind.Str?
  {
    hide Quoted;
  }

  lemma EndsAfter(a: bytes, s: bytes, k: bytes, leaf: bytes, rest: bytes, end: bytes)
    ensures a + (s + (k + leaf + rest)) + end == a + (s + k) + leaf + (rest + end)
  {
    Assoc4(s, k, leaf, rest);
    Assoc(a, s + k + leaf, rest);
    Assoc(a, s + k, leaf);
    Assoc(a + (s + k) + leaf, rest, end);
  }

  lemma SepSeams(c: Cst, keyed: seq<Piece>)
    requires c.Box? && Lexical(keyed) && keyed != [] && keyed[0].kind.Str?
    ensures var sep := AppendLead(c)[|c.tail|..];
            && Text(sep) == SepText(c) && Lexical(sep + keyed)
            && (sep + keyed)[0].kind in {Str, Space, Comma}
  {
    hide ValidPiece, Lexical, AllTrivia;
    var sep := AppendLead(c)[|c.tail|..];
    SeparatorText();
    KeyPiecesLexical([]);
    BlankSeam(keyed);
    EntryKeyed(c, [], Frag([], Leaf(BlankPiece()), []));
    if c.items == [] {
      assert sep == [] && sep + keyed == keyed;
    } else if AllTrivia(c.tail) {
      assert sep == [CommaPiece(), BlankPiece()];
      ConcatLexical(sep, keyed);
    } else {
      assert sep == [BlankPiece()];
      ConcatLexical(sep, keyed);
    }
  }

  lemma InsertSeam(a: seq<Piece>, x: seq<Piece>)
    requires Lexical(a) && Lexical(x) && a != [] && x != []
    requires !IsLineComment(a[|a| - 1]) && !x[0].kind.Scalar?
    ensures Seam(a, x)
  {
    hide ValidPiece;
    LastAndFirstValid(a, x);
    SeamFits(a[|a| - 1], x[0]);
  }

  // What is left to do at c, in terms of the whole edit.
  ghost predicate Remains(f: File, e: Edit, l: seq<Piece>, c: Cst, r: seq<Piece>, path: seq<bytes>)
    requires WellFormed(f.doc.root) && WellFormed(c)
  {
    match EditTree(c, e, path)
    case Err(x) => EditTree(f.doc.root, e, e.keyPath) == Err(x)
    case Ok(d) =>
      && EditTree(f.doc.root, e, e.keyPath).Ok?
      && FlatDoc(f.doc.(root := EditTree(f.doc.root, e, e.keyPath).value)) == l + Flat(d) + r
  }

  lemma Descend(f: File, e: Edit, l: seq<Piece>, c: Cst, r: seq<Piece>, path: seq<bytes>, i: nat)
    requires WellFormed(f.doc.root) && WellFormed(c) && Remains(f, e, l, c, r, path)
    requires IsObject(c) && |path| > 1 && FindKey(c.items, path[0]) == Some(i)
    ensures WellFormed(c.items[i].val)
    ensures Remains(f, e, l + BeforeVal(c, i), c.items[i].val, AfterItem(c, i) + r, path[1..])
  {
    hide WellFormed, Flat, BeforeVal, AfterItem, FindKey, FlatDoc, SetVal, SetItem, RemoveItem, Fragment;
    ItemValueOk(c, i);
    if EditTree(c.items[i].val, e, path[1..]).Ok? {
      var v := EditTree(c.items[i].val, e, path[1..]).value;
      FlatSetVal(c, i, v);
      assert l + (BeforeVal(c, i) + Flat(v) + AfterItem(c, i)) + r
          == (l + BeforeVal(c, i)) + Flat(v) + (AfterItem(c, i) + r);
    }
  }

  // patchJSONC: exactly the edit of the tree, printed and parsed again.
  method PatchJSONC(src: bytes, e: Edit) returns (res: Result<bytes>)
    ensures res == Patched(src, e)
  {
    hide WellFormed, Flat, Toks, Text, Lexical, Lexes, Count, ToNode, BeforeVal, AfterItem, FindKey, Remains, Parse, Fragment, Reprint, KeyOf, FlatDoc, Print, RemoveItem, SetItem, AppendItem;
    var parsed := ParseJSONC(src);
    if parsed.Err? { return Err(ParseFailure); }
    var (toks, root) := parsed.value;
    ghost var f := Parse(src).value;
    ghost var l, c, r := f.doc.pre, f.doc.root, f.doc.post;
    StartAtRoot(src, toks, f, e);
    var cur := root;
    var idx := 0;
    assert e.keyPath[0..] == e.keyPath;
    while idx < |e.keyPath|
      invariant 0 <= idx <= |e.keyPath|
      invariant Inside(src, toks, l, c, r) && cur == ToNode(c, Count(l))
      invariant Remains(f, e, l, c, r, e.keyPath[idx..])
    {
      var part := e.keyPath[idx];
      var path := e.keyPath[idx..];
      assert path[0] == part && |path| == |e.keyPath| - idx;
      KindOfNode(c, Count(l));
      Outcome(src, f, e, l, c, r, path);
      if cur.kind != LBrace { return Err(KeyNotFound); }
      NodeKeys(src, toks, l, c, r);
      var m := FindJSONMember(cur.members, part, c.items);
      if m.None? {
        if !e.createIfMissing { return Err(KeyNotFound); }
        res := CreateJSONMember(src, toks, cur, e, path, l, c, r);
        return;
      }
      var i := m.value;
      MemberSpan(src, toks, l, c, r, i);
      if idx == |e.keyPath| - 1 {
        if e.delete {
          var out := RemoveJSONMember(src, toks, cur, part, l, c, r);
          res := VerifyJSONC(out);
          return;
        }
        KindOfNode(c.items[i].val, Count(l + BeforeVal(c, i)));
        if cur.members[i].val.IsContainer() && e.valueJson == [] {
          return Err(UnsupportedStructure);
        }
        res := SetJSONValue(src, toks, cur.members[i].val, e, i, l, c, r);
        return;
      }
      Descend(f, e, l, c, r, path, i);
      cur := cur.members[i].val;
      l, c, r := l + BeforeVal(c, i), c.items[i].val, AfterItem(c, i) + r;
      idx := idx + 1;
      assert path[1..] == e.keyPath[idx..];
    }
    assert e.keyPath[idx..] == [];
    Outcome(src, f, e, l, c, r, []);
    return Err(KeyNotFound);
  }

  lemma StartAtRoot(src: bytes, toks: seq<Tok>, f: File, e: Edit)
    requires Parse(src) == Some(f) && toks == Toks(FlatDoc(f.doc), BomLen(src))
    ensures Inside(src, toks, f.doc.pre, f.doc.root, f.doc.post)
    ensures Remains(f, e, f.doc.pre, f.doc.root, f.doc.post, e.keyPath)
  {
    hide WellFormed, Flat, Toks, Lexical, Parse, EditTree;
    ParseExact(src, f);
    BomPrefix(src, Lexed(f.bom, FlatDoc(f.doc)));
  }

  lemma KindOfNode(c: Cst, k: nat)
    ensures WellFormed(c) ==> (ToNode(c, k).kind == LBrace <==> IsObject(c)) && (ToNode(c, k).IsContainer() <==> c.Box?)
  {
  }

  // The whole patch, once the edit at c is known.
  lemma Outcome(src: bytes, f: File, e: Edit, l: seq<Piece>, c: Cst, r: seq<Piece>, path: seq<bytes>)
    requires Parse(src) == Some(f) && WellFormed(f.doc.root) && WellFormed(c)
    requires Remains(f, e, l, c, r, path)
    ensures match EditTree(c, e, path)
            case Err(x) => Patched(src, e) == Err(x)
            case Ok(d) => Patched(src, e) == Verified(Reprint(src, l + Flat(d) + r))
  {
    hide WellFormed, Flat, Parse, EditTree, Text;
    ParseExact(src, f);
    BomPrefix(src, Lexed(f.bom, FlatDoc(f.doc)));
  }
}
