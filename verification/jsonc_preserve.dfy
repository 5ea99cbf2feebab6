/** Which edited trees still obey the grammar. */
module JsoncPreserve {
  import opened Bytes
  import opened JsoncLex
  import opened Scalars
  import opened JsoncSyntax
  import opened JsoncEdit
  import opened JsoncTrivia

  ghost predicate FragOk(g: Frag) {
    AllTrivia(g.pre) && WellFormed(g.val) && AllTrivia(g.post) && Lexical(FlatFrag(g))
  }

  // The fragment does not end in a comment that would run on.
  ghost predicate Closed(g: Frag) {
    g.post == [] || !IsLineComment(g.post[|g.post| - 1])
  }

  lemma FragmentOk(e: Edit)
    requires Fragment(e).Ok?
    ensures FragOk(Fragment(e).value)
    ensures e.valueJson == [] ==> Closed(Fragment(e).value)
  {
    hide ValidPiece, Quoted, ParseValue, Lex;
    var g := Fragment(e).value;
    if e.valueJson == [] {
      QuotedPiece(e.value, false, []);
      assert FlatFrag(g) == [g.val.piece];
      TriviaExact([]);
    } else {
      ParseExact(e.valueJson, Parse(e.valueJson).value);
    }
  }

  lemma ItemValueOk(c: Cst, i: nat)
    requires WellFormed(c) && c.Box? && i < |c.items|
    ensures WellFormed(c.items[i].val)
  {
  }

  lemma ItemNameOk(c: Cst, i: nat)
    requires WellFormed(c) && IsObject(c) && i < |c.items|
    ensures IsName(c.items[i].name)
  {
    assert NameOk(Object, c.items[i]);
  }

  lemma ItemLeadOk(c: Cst, i: nat)
    requires WellFormed(c) && c.Box? && i < |c.items|
    ensures LeadOk(c.items, i)
  {
  }

  lemma SetItemGrammar(c: Cst, i: nat, g: Frag)
    requires WellFormed(c) && IsObject(c) && i < |c.items|
    requires AllTrivia(g.pre) && WellFormed(g.val) && AllTrivia(g.post)
    ensures WellFormed(SetItem(c, i, g)) && IsObject(SetItem(c, i, g))
  {
    hide IsName, IsSeparator, AllTrivia, KeyOf, LeadOk, NameOk;
    var d := SetItem(c, i, g);
    if i + 1 == |c.items| {
      if AllTrivia(c.tail) { TriviaConcat(g.post, c.tail); } else { TriviaThenSeparator(g.post, c.tail); }
    }
    forall k | 0 <= k < |d.items|
      ensures LeadOk(d.items, k) && NameOk(Object, d.items[k]) && WellFormed(d.items[k].val)
      ensures KeyOf(d.items[k]) == KeyOf(c.items[k])
    {
      SetItemAt(c, i, g, k);
    }
  }

  lemma SetItemAt(c: Cst, i: nat, g: Frag, k: nat)
    requires WellFormed(c) && IsObject(c) && i < |c.items| && k < |c.items|
    requires AllTrivia(g.pre) && WellFormed(g.val) && AllTrivia(g.post)
    ensures var d := SetItem(c, i, g);
            && LeadOk(d.items, k) && NameOk(Object, d.items[k]) && WellFormed(d.items[k].val)
            && KeyOf(d.items[k]) == KeyOf(c.items[k])
  {
    hide IsName, IsSeparator, AllTrivia, KeyOf, WellFormed;
    ItemLeadOk(c, k);
    ItemNameOk(c, k);
    ItemValueOk(c, k);
    NameNotEmpty(c.items[k].name);
    if k == i { NameWith(c.items[k].name, g.pre); }
    if k == i + 1 { TriviaThenSeparator(g.post, c.items[k].lead); }
    SameKey(c.items[k], SetItem(c, i, g).items[k]);
  }

  lemma SameKey(a: Item, b: Item)
    requires a.name != [] && b.name != [] && a.name[0] == b.name[0]
    ensures KeyOf(a) == KeyOf(b)
  {
    hide Decode;
  }

  lemma SetValGrammar(c: Cst, i: nat, v: Cst)
    requires WellFormed(c) && IsObject(c) && i < |c.items| && WellFormed(v)
    ensures WellFormed(SetVal(c, i, v)) && IsObject(SetVal(c, i, v))
  {
    hide IsName, IsSeparator, AllTrivia, KeyOf;
    var d := SetVal(c, i, v);
    assert NameOk(Object, c.items[i]);
    forall k | 0 <= k < |d.items|
      ensures LeadOk(d.items, k) && NameOk(Object, d.items[k]) && WellFormed(d.items[k].val)
      ensures KeyOf(d.items[k]) == KeyOf(c.items[k])
    {
      assert LeadOk(c.items, k) && NameOk(Object, c.items[k]);
      if k == i { NameNotEmpty(c.items[k].name); SameKey(c.items[k], d.items[k]); }
    }
  }

  lemma NameNotEmpty(name: seq<Piece>)
    requires IsName(name)
    ensures name != []
  {
    hide Decode;
  }

  lemma AppendLeadGrammar(c: Cst)
    requires WellFormed(c) && c.Box?
    ensures if c.items == [] then AllTrivia(AppendLead(c)) else IsSeparator(AppendLead(c))
  {
    hide IsSeparator, ItemsOk;
    TriviaExact([BlankPiece()]);
    if AllTrivia(c.tail) {
      SeparatorIs(c.tail, CommaPiece(), [BlankPiece()]);
      assert c.tail + [CommaPiece(), BlankPiece()] == c.tail + [CommaPiece()] + [BlankPiece()];
    } else {
      SeparatorThenTrivia(c.tail, [BlankPiece()]);
    }
  }

  lemma AppendGrammar(c: Cst, key: bytes, g: Frag)
    requires WellFormed(c) && IsObject(c) && FindKey(c.items, key).None?
    requires AllTrivia(g.pre) && WellFormed(g.val) && AllTrivia(g.post)
    ensures WellFormed(AppendItem(c, key, g)) && IsObject(AppendItem(c, key, g))
  {
    hide IsName, IsSeparator, AllTrivia, KeyOf, AppendLead;
    var d := AppendItem(c, key, g);
    var n := |c.items|;
    AppendLeadGrammar(c);
    NameForExact(key, g.pre, AppendLead(c), g.val);
    FindKeyExact(c.items, key);
    forall k | 0 <= k < |d.items|
      ensures LeadOk(d.items, k) && NameOk(Object, d.items[k]) && WellFormed(d.items[k].val)
      ensures k < n ==> d.items[k] == c.items[k]
    {
      if k < n { assert LeadOk(c.items, k) && NameOk(Object, c.items[k]); }
    }
  }

  lemma {:induction false} NestGrammar(keys: seq<bytes>, g: Frag)
    requires AllTrivia(g.pre) && WellFormed(g.val) && AllTrivia(g.post)
    ensures var n := Nest(keys, g); AllTrivia(n.pre) && WellFormed(n.val) && AllTrivia(n.post)
  {
    hide IsName, AllTrivia, KeyOf, NameFor;
    if keys != [] {
      var inner := Nest(keys[1..], g);
      NestGrammar(keys[1..], g);
      NameForExact(keys[0], inner.pre, [], inner.val);
      TriviaExact([]);
    }
  }

  // ----- removal -----

  lemma KeptGrammar(lead: seq<Piece>)
    ensures AllTrivia(lead) ==> AllTrivia(Kept(lead))
    ensures IsSeparator(lead) ==> IsSeparator(Kept(lead))
  {
    hide IsSeparator;
    if OwnLine(lead) {
      var k := BlankTail(lead) - 1;
      assert lead == lead[..k] + lead[k..];
      TriviaExact(lead[k..]);
      TriviaConcat(lead[..k], lead[k..]);
      if IsSeparator(lead) { SeparatorCut(lead, k); }
    }
  }

  lemma SeparatorCut(ps: seq<Piece>, k: nat)
    requires IsSeparator(ps) && k <= |ps| && forall n :: k <= n < |ps| ==> IsTrivia(ps[n])
    ensures SkipTrivia(ps, 0) < k && IsSeparator(ps[..k])
  {
    var c := SkipTrivia(ps, 0);
    SeparatorParts(ps);
    SliceTrivia(ps, c + 1, k);
    SeparatorIs(ps[..c], ps[c], ps[c + 1..k]);
    assert ps[..k] == ps[..c] + [ps[c]] + ps[c + 1..k];
  }

  lemma ResumedTrivia(lead: seq<Piece>, ownLine: bool)
    requires IsSeparator(lead)
    ensures AllTrivia(lead[Resume(lead, ownLine)..])
  {
    SliceTrivia(lead, Resume(lead, ownLine), |lead|);
  }

  // What the removed member leaves of the text in front of it.
  function Left(c: Cst, i: nat): seq<Piece>
    requires c.Box? && i < |c.items|
  {
    var lead := c.items[i].lead;
    if i + 1 == |c.items| && !OwnLine(lead) && i > 0 then lead[..SkipTrivia(lead, 0)] else Kept(lead)
  }

  // The commas work out: a last member may go unless that leaves a comma with
  // no member in front of it, or two commas in a row.
  predicate CommasFit(c: Cst, i: nat)
    requires c.Box? && i < |c.items|
  {
    || i + 1 < |c.items|
    || AllTrivia(c.tail)
    || (i > 0 && !OwnLine(c.items[i].lead))
  }

  lemma LeadSeparates(c: Cst, i: nat)
    requires WellFormed(c) && c.Box? && 0 < i < |c.items|
    ensures IsSeparator(c.items[i].lead)
  {
    hide IsSeparator, AllTrivia;
    assert LeadOk(c.items, i);
  }

  // Each item after a removal in front of it.
  lemma RemovedItem(c: Cst, i: nat, k: nat)
    requires WellFormed(c) && IsObject(c) && i + 1 < |c.items| && k + 1 < |c.items|
    requires IsSeparator(c.items[i + 1].lead)
    ensures var d := RemoveItem(c, i);
            && LeadOk(d.items, k) && NameOk(Object, d.items[k]) && WellFormed(d.items[k].val)
            && KeyOf(d.items[k]) == KeyOf(c.items[if k < i then k else k + 1])
  {
    hide IsName, IsSeparator, AllTrivia, KeyOf, Kept, Resume, OwnLine, WellFormed;
    var m := if k < i then k else k + 1;
    ItemLeadOk(c, m);
    ItemNameOk(c, m);
    ItemValueOk(c, m);
    if k == i {
      var lead, next := c.items[i].lead, c.items[i + 1];
      ItemLeadOk(c, i);
      KeptGrammar(lead);
      var resumed := next.lead[Resume(next.lead, OwnLine(lead))..];
      ResumedTrivia(next.lead, OwnLine(lead));
      if i == 0 { TriviaConcat(Kept(lead), resumed); } else { SeparatorThenTrivia(Kept(lead), resumed); }
      NameNotEmpty(next.name);
      SameKey(next, RemoveItem(c, i).items[k]);
    }
  }

  lemma RemoveInnerGrammar(c: Cst, i: nat)
    requires WellFormed(c) && IsObject(c) && i + 1 < |c.items|
    ensures IsSeparator(c.items[i + 1].lead)
    ensures WellFormed(RemoveItem(c, i)) && IsObject(RemoveItem(c, i))
  {
    hide IsName, IsSeparator, AllTrivia, KeyOf, Kept, Resume, LeadOk, NameOk, OwnLine;
    LeadSeparates(c, i + 1);
    var d := RemoveItem(c, i);
    forall k | 0 <= k < |d.items|
      ensures LeadOk(d.items, k) && NameOk(Object, d.items[k]) && WellFormed(d.items[k].val)
      ensures KeyOf(d.items[k]) == KeyOf(c.items[if k < i then k else k + 1])
    {
      RemovedItem(c, i, k);
    }
    forall m, n | 0 <= m < n < |d.items| ensures KeyOf(d.items[m]) != KeyOf(d.items[n]) {}
  }

  lemma RemoveLastGrammar(c: Cst, i: nat)
    requires WellFormed(c) && IsObject(c) && i + 1 == |c.items|
    ensures WellFormed(RemoveItem(c, i)) <==> CommasFit(c, i)
    ensures IsObject(RemoveItem(c, i))
  {
    hide IsName, IsSeparator, AllTrivia, KeyOf, Kept;
    var d := RemoveItem(c, i);
    var lead := c.items[i].lead;
    assert LeadOk(c.items, i);
    KeptGrammar(lead);
    forall k | 0 <= k < |d.items|
      ensures LeadOk(d.items, k) && NameOk(Object, d.items[k]) && WellFormed(d.items[k].val)
    {
      assert LeadOk(c.items, k) && NameOk(Object, c.items[k]);
    }
    assert ItemsOk(Object, d.items);
    TailAfterRemoval(c, i, Left(c, i));
  }

  lemma TailAfterRemoval(c: Cst, i: nat, left: seq<Piece>)
    requires WellFormed(c) && IsObject(c) && i + 1 == |c.items| && left == Left(c, i)
    ensures TailOk(c.items[..i], left + c.tail) <==> CommasFit(c, i)
  {
    hide IsSeparator, AllTrivia, Kept, SkipTrivia;
    var lead := c.items[i].lead;
    assert LeadOk(c.items, i);
    KeptGrammar(lead);
    TriviaConcat(left, c.tail);
    if i == 0 {
      assert AllTrivia(left);
    } else if OwnLine(lead) {
      if AllTrivia(c.tail) { SeparatorThenTrivia(left, c.tail); } else { TwoSeparators(left, c.tail); }
    } else {
      SeparatorParts(lead);
      assert AllTrivia(left);
      if !AllTrivia(c.tail) { TriviaThenSeparator(left, c.tail); }
    }
  }
}
