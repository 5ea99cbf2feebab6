/** Edits that undo or repeat one another. */
module JsoncRoundtrip {
  import opened Bytes
  import opened JsoncLex
  import opened Scalars
  import opened JsoncSyntax
  import opened JsoncEdit
  import opened JsoncTrivia
  import opened JsoncPreserve
  import opened JsoncSeams
  import opened JsoncMeaning
  import opened JsoncTheorems

  // ----- the value at a path -----

  function Get(c: Cst, path: seq<bytes>): Option<Cst>
    decreases |path|
  {
    if path == [] then Some(c)
    else if !IsObject(c) || FindKey(c.items, path[0]).None? then None
    else Get(c.items[FindKey(c.items, path[0]).value].val, path[1..])
  }

  // Neither path runs through the other.
  predicate Incomparable(p: seq<bytes>, q: seq<bytes>) {
    p != [] && q != [] && (p[0] != q[0] || Incomparable(p[1..], q[1..]))
  }

  // A set edit whose text starts and ends with its value.
  ghost predicate PlainSet(e: Edit) {
    !e.delete && (Fragment(e).Ok? ==> Fragment(e).value.pre == [] && Fragment(e).value.post == [])
  }

  // The value of e already stands at its path.
  ghost predicate Bound(c: Cst, e: Edit, path: seq<bytes>) {
    Fragment(e).Ok? && Get(c, path) == Some(Fragment(e).value.val)
  }

  lemma {:induction false} FindKeySame(a: seq<Item>, b: seq<Item>, key: bytes)
    requires |a| == |b| && forall k :: 0 <= k < |a| ==> KeyOf(a[k]) == KeyOf(b[k])
    ensures FindKey(a, key) == FindKey(b, key)
  {
    hide KeyOf;
    if a != [] { FindKeySame(a[1..], b[1..], key); }
  }

  lemma {:induction false} FindKeyAppend(a: seq<Item>, it: Item, key: bytes)
    ensures FindKey(a + [it], key) ==
            if FindKey(a, key).Some? then FindKey(a, key) else if KeyOf(it) == key then Some(|a|) else None
  {
    hide KeyOf;
    if a == [] {
      assert [] + [it] == [it];
    } else {
      assert (a + [it])[1..] == a[1..] + [it];
      FindKeyAppend(a[1..], it, key);
    }
  }

  lemma {:induction false} GetNest(keys: seq<bytes>, g: Frag)
    requires AllTrivia(g.pre) && WellFormed(g.val) && AllTrivia(g.post)
    ensures Get(Nest(keys, g).val, keys) == Some(g.val)
  {
    hide WellFormed, AllTrivia, NameFor, KeyOf;
    if keys != [] {
      var inner := Nest(keys[1..], g);
      NestGrammar(keys[1..], g);
      GetNest(keys[1..], g);
      NameForExact(keys[0], inner.pre, [], inner.val);
    }
  }

  // The keys of an object do not change when a value is set.
  lemma SetKeepsKeys(c: Cst, i: nat, g: Frag, key: bytes)
    requires WellFormed(c) && IsObject(c) && i < |c.items|
    ensures FindKey(SetItem(c, i, g).items, key) == FindKey(c.items, key)
    ensures FindKey(SetVal(c, i, g.val).items, key) == FindKey(c.items, key)
  {
    hide WellFormed, KeyOf, FindKey, AllTrivia, IsName;
    ItemNameOk(c, i);
    NameNotEmpty(c.items[i].name);
    SameKey(c.items[i], SetItem(c, i, g).items[i]);
    SameKey(c.items[i], SetVal(c, i, g.val).items[i]);
    if i + 1 < |c.items| {
      ItemNameOk(c, i + 1);
      NameNotEmpty(c.items[i + 1].name);
      SameKey(c.items[i + 1], SetItem(c, i, g).items[i + 1]);
    }
    FindKeySame(SetItem(c, i, g).items, c.items, key);
    FindKeySame(SetVal(c, i, g.val).items, c.items, key);
  }

  lemma AppendKeepsKeys(c: Cst, key: bytes, g: Frag, other: bytes)
    requires WellFormed(c) && IsObject(c) && FindKey(c.items, key).None? && AllTrivia(g.pre)
    ensures FindKey(AppendItem(c, key, g).items, key) == Some(|c.items|)
    ensures other != key ==> FindKey(AppendItem(c, key, g).items, other) == FindKey(c.items, other)
  {
    hide WellFormed, KeyOf, FindKey, AllTrivia, NameFor, AppendLead;
    NameForExact(key, g.pre, AppendLead(c), g.val);
    FindKeyAppend(c.items, Item(AppendLead(c), NameFor(key, g.pre), g.val), key);
    FindKeyAppend(c.items, Item(AppendLead(c), NameFor(key, g.pre), g.val), other);
  }

  // ----- set, then set again -----

  lemma {:induction false} SetBinds(c: Cst, e: Edit, path: seq<bytes>)
    requires WellFormed(c) && !e.delete && EditTree(c, e, path).Ok?
    ensures Bound(EditTree(c, e, path).value, e, path)
    decreases |path|
  {
    hide WellFormed, KeyOf, FindKey, AllTrivia, Fragment, Nest, AppendItem, SetItem, SetVal;
    FragmentSet(c, e, path);
    var g := Fragment(e).value;
    FragmentOk(e);
    match FindKey(c.items, path[0])
    case None =>
      NestGrammar(path[1..], g);
      AppendKeepsKeys(c, path[0], Nest(path[1..], g), path[0]);
      AppendedVal(c, path[0], Nest(path[1..], g));
      GetNest(path[1..], g);
    case Some(i) =>
      ItemValueOk(c, i);
      if |path| > 1 {
        var v := EditTree(c.items[i].val, e, path[1..]).value;
        SetBinds(c.items[i].val, e, path[1..]);
        SetKeepsKeys(c, i, Frag([], v, []), path[0]);
        SetVals(c, i, Frag([], v, []));
      } else {
        SetKeepsKeys(c, i, g, path[0]);
        SetVals(c, i, g);
        assert path[1..] == [] && Get(g.val, []) == Some(g.val);
        assert EditTree(c, e, path) == Ok(SetItem(c, i, g));
      }
  }

  // A set edit that succeeds has something to write.
  lemma {:induction false} FragmentSet(c: Cst, e: Edit, path: seq<bytes>)
    requires WellFormed(c) && !e.delete && EditTree(c, e, path).Ok?
    ensures Fragment(e).Ok?
    decreases |path|
  {
    hide WellFormed, Fragment, KeyOf;
    if FindKey(c.items, path[0]).Some? {
      var i := FindKey(c.items, path[0]).value;
      ItemValueOk(c, i);
      if |path| > 1 { FragmentSet(c.items[i].val, e, path[1..]); }
    }
  }

  lemma AppendedVal(c: Cst, key: bytes, g: Frag)
    requires IsObject(c)
    ensures var d := AppendItem(c, key, g);
            IsObject(d) && |d.items| == |c.items| + 1 && d.items[|c.items|].val == g.val
            && forall k :: 0 <= k < |c.items| ==> d.items[k] == c.items[k]
  {
    hide AppendLead, NameFor;
  }

  lemma SetVals(c: Cst, i: nat, g: Frag)
    requires IsObject(c) && i < |c.items|
    ensures var d := SetItem(c, i, g);
            IsObject(d) && |d.items| == |c.items|
            && forall k :: 0 <= k < |c.items| ==> d.items[k].val == if k == i then g.val else c.items[k].val
    ensures var d := SetVal(c, i, g.val);
            IsObject(d) && |d.items| == |c.items|
            && forall k :: 0 <= k < |c.items| ==> d.items[k].val == if k == i then g.val else c.items[k].val
  {
  }

  // Fresh objects hold nothing beside the way to their value.
  lemma {:induction false} NestElsewhere(keys: seq<bytes>, g: Frag, other: seq<bytes>)
    requires AllTrivia(g.pre) && WellFormed(g.val) && AllTrivia(g.post) && Incomparable(keys, other)
    ensures Get(Nest(keys, g).val, other).None?
  {
    hide WellFormed, AllTrivia, NameFor, KeyOf;
    var inner := Nest(keys[1..], g);
    NestGrammar(keys[1..], g);
    NameForExact(keys[0], inner.pre, [], inner.val);
    if keys[0] == other[0] { NestElsewhere(keys[1..], g, other[1..]); }
  }

  // Whatever a path that does not meet the edited one holds, or that it holds
  // nothing, stays as it is.
  lemma {:induction false} SetKeeps(c: Cst, e: Edit, path: seq<bytes>, other: seq<bytes>)
    requires WellFormed(c) && !e.delete && EditTree(c, e, path).Ok? && Incomparable(path, other)
    ensures Get(EditTree(c, e, path).value, other) == Get(c, other)
    decreases |path|
  {
    hide WellFormed, KeyOf, FindKey, AllTrivia, Fragment, Nest, AppendItem, SetItem, SetVal;
    FragmentSet(c, e, path);
    var g := Fragment(e).value;
    FragmentOk(e);
    match FindKey(c.items, path[0])
    case None =>
      NestGrammar(path[1..], g);
      AppendKeepsKeys(c, path[0], Nest(path[1..], g), other[0]);
      AppendedVal(c, path[0], Nest(path[1..], g));
      if path[0] == other[0] { NestElsewhere(path[1..], g, other[1..]); }
    case Some(i) =>
      ItemValueOk(c, i);
      FindKeyExact(c.items, path[0]);
      FindKeyExact(c.items, other[0]);
      if |path| > 1 {
        var v := EditTree(c.items[i].val, e, path[1..]).value;
        SetKeepsKeys(c, i, Frag([], v, []), other[0]);
        SetVals(c, i, Frag([], v, []));
        if path[0] == other[0] { SetKeeps(c.items[i].val, e, path[1..], other[1..]); }
      } else {
        SetKeepsKeys(c, i, g, other[0]);
        SetVals(c, i, g);
      }
  }

  // ----- delete -----

  lemma {:induction false} PresentGet(c: Cst, path: seq<bytes>)
    requires path != []
    ensures Present(c, path) <==> Get(c, path).Some?
    decreases |path|
  {
    hide FindKey;
    if IsObject(c) && FindKey(c.items, path[0]).Some? {
      if |path| > 1 {
        PresentGet(c.items[FindKey(c.items, path[0]).value].val, path[1..]);
      } else {
        assert path[1..] == [];
      }
    }
  }

  // The keys and values that a removal leaves.
  lemma RemovedVals(c: Cst, i: nat)
    requires WellFormed(c) && IsObject(c) && i < |c.items|
    ensures i + 1 < |c.items| ==> IsSeparator(c.items[i + 1].lead)
    ensures var d := RemoveItem(c, i);
            && IsObject(d) && |d.items| == |c.items| - 1
            && forall k :: 0 <= k < |d.items| ==>
              var m := if k < i then k else k + 1;
              KeyOf(d.items[k]) == KeyOf(c.items[m]) && d.items[k].val == c.items[m].val
  {
    hide WellFormed, KeyOf, IsName, Kept, Resume, IsSeparator, OwnLine;
    if i + 1 < |c.items| { LeadSeparates(c, i + 1); }
    var d := RemoveItem(c, i);
    forall k | 0 <= k < |d.items|
      ensures var m := if k < i then k else k + 1;
              KeyOf(d.items[k]) == KeyOf(c.items[m]) && d.items[k].val == c.items[m].val
    {
      var m := if k < i then k else k + 1;
      ItemNameOk(c, m);
      NameNotEmpty(c.items[m].name);
      assert d.items[k].name == c.items[m].name;
      SameKey(d.items[k], c.items[m]);
    }
  }

  lemma KeysDistinct(c: Cst)
    requires WellFormed(c) && IsObject(c)
    ensures forall m, n :: 0 <= m < n < |c.items| ==> KeyOf(c.items[m]) != KeyOf(c.items[n])
  {
    hide KeyOf;
  }

  lemma RemovedKeys(c: Cst, i: nat, key: bytes)
    requires WellFormed(c) && IsObject(c) && i < |c.items| && FindKey(c.items, KeyOf(c.items[i])) == Some(i)
    requires i + 1 < |c.items| ==> IsSeparator(c.items[i + 1].lead)
    ensures var d, f := RemoveItem(c, i), FindKey(c.items, key);
            && IsObject(d)
            && FindKey(d.items, key) == if f == None || f == Some(i) then None
                                        else Some(if f.value < i then f.value else f.value - 1)
  {
    hide KeyOf, FindKey, RemoveItem, IsSeparator, WellFormed;
    var d := RemoveItem(c, i);
    RemovedVals(c, i);
    KeysDistinct(c);
    FindKeyExact(c.items, key);
    FindKeyExact(d.items, key);
    var f := FindKey(c.items, key);
    if f.Some? && f.value != i {
      var k := if f.value < i then f.value else f.value - 1;
      assert KeyOf(d.items[k]) == key;
    }
  }

  lemma OneKeyApart(path: seq<bytes>, other: seq<bytes>)
    requires |path| == 1 && Incomparable(path, other)
    ensures other != [] && other[0] != path[0]
  {
    assert path[1..] == [];
    assert !Incomparable([], other[1..]);
  }

  lemma RemovedGet(c: Cst, i: nat, other: seq<bytes>)
    requires WellFormed(c) && IsObject(c) && i < |c.items| && other != []
    requires i + 1 < |c.items| ==> IsSeparator(c.items[i + 1].lead)
    requires FindKey(c.items, KeyOf(c.items[i])) == Some(i) && FindKey(c.items, other[0]) != Some(i)
    ensures Get(RemoveItem(c, i), other) == Get(c, other)
  {
    hide KeyOf, FindKey, RemoveItem, IsSeparator, WellFormed;
    RemovedVals(c, i);
    RemovedKeys(c, i, other[0]);
  }

  // A delete leaves nothing at its path, and every path that does not meet it as it is.
  lemma {:induction false} DeleteKeeps(c: Cst, e: Edit, path: seq<bytes>, other: seq<bytes>)
    requires WellFormed(c) && e.delete && Present(c, path)
    ensures EditTree(c, e, path).Ok? && Get(EditTree(c, e, path).value, path).None?
    ensures Incomparable(path, other) ==> Get(EditTree(c, e, path).value, other) == Get(c, other)
    decreases |path|
  {
    hide WellFormed, KeyOf, FindKey, Fragment, RemoveItem, SetVal, IsSeparator;
    var i := FindKey(c.items, path[0]).value;
    FindKeyExact(c.items, path[0]);
    ItemValueOk(c, i);
    if |path| > 1 {
      DeleteKeeps(c.items[i].val, e, path[1..], if other == [] then [] else other[1..]);
      var v := EditTree(c.items[i].val, e, path[1..]).value;
      SetKeepsKeys(c, i, Frag([], v, []), path[0]);
      if other != [] { SetKeepsKeys(c, i, Frag([], v, []), other[0]); }
      SetVals(c, i, Frag([], v, []));
      if other != [] { FindKeyExact(c.items, other[0]); }
    } else {
      RemovedVals(c, i);
      RemovedKeys(c, i, path[0]);
      assert EditTree(c, e, path) == Ok(RemoveItem(c, i));
      if Incomparable(path, other) {
        OneKeyApart(path, other);
        FindKeyExact(c.items, other[0]);
        RemovedKeys(c, i, other[0]);
        RemovedGet(c, i, other);
      }
    }
  }

  // Setting what is already there is the identity on the tree.
  lemma {:induction false} SetAgain(c: Cst, e: Edit, path: seq<bytes>)
    requires WellFormed(c) && PlainSet(e) && path != [] && Bound(c, e, path)
    ensures EditTree(c, e, path) == Ok(c)
    decreases |path|
  {
    hide WellFormed, KeyOf, FindKey, AllTrivia, SetItem, SetVal;
    var g := Fragment(e).value;
    var i := FindKey(c.items, path[0]).value;
    ItemValueOk(c, i);
    if |path| > 1 {
      SetAgain(c.items[i].val, e, path[1..]);
      SetSame(c, i, Frag([], c.items[i].val, []));
    } else {
      assert path[1..] == [];
      SetSame(c, i, g);
    }
  }

  lemma SetSame(c: Cst, i: nat, g: Frag)
    requires IsObject(c) && i < |c.items| && g == Frag([], c.items[i].val, [])
    ensures SetItem(c, i, g) == c && SetVal(c, i, g.val) == c
  {
    assert c.items == c.items[..i] + [c.items[i]] + c.items[i + 1..];
    if i + 1 < |c.items| {
      assert c.items == c.items[..i] + [c.items[i], c.items[i + 1]] + c.items[i + 2..];
      assert [] + c.items[i + 1].lead == c.items[i + 1].lead;
    } else {
      assert c.items[..i] + [c.items[i]] == c.items;
      assert [] + c.tail == c.tail;
    }
    assert c.items[i].name + [] == c.items[i].name;
  }
}
