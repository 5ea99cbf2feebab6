/**
 What an edit does to the meaning of a file. The meaning forgets blanks,
 comments and commas; the edit of the bytes and the edit of the meaning are
 two sides of a square, and these lemmas close it.
 */
module JsoncMeaning {
  import opened Bytes
  import opened JsoncLex
  import opened Scalars
  import opened JsoncSyntax
  import opened JsoncEdit
  import opened JsoncTrivia
  import opened JsoncPreserve
  import opened JsoncSeams

  // A string or scalar keeps its literal; an object is an ordered member list.
  datatype Value =
    | Literal(kind: Kind, text: bytes)
    | Obj(members: seq<Member>)
    | Arr(elems: seq<Value>)

  datatype Member = Member(key: bytes, val: Value)

  function Meaning(c: Cst): Value
    decreases c
  {
    match c
    case Leaf(p) => Literal(p.kind, p.text)
    case Box(Object, items, _) =>
      Obj(seq(|items|, k requires 0 <= k < |items| => Member(KeyOf(items[k]), Meaning(items[k].val))))
    case Box(Array, items, _) =>
      Arr(seq(|items|, k requires 0 <= k < |items| => Meaning(items[k].val)))
  }

  // ----- the edit of a value -----

  function FindMember(ms: seq<Member>, key: bytes): (r: Option<nat>)
    ensures r.Some? ==> r.value < |ms|
  {
    if ms == [] then None
    else if ms[0].key == key then Some(0)
    else match FindMember(ms[1..], key) case None => None case Some(k) => Some(k + 1)
  }

  // The value inside one fresh single-member object per key.
  function Wrap(keys: seq<bytes>, v: Value): Value {
    if keys == [] then v else Obj([Member(keys[0], Wrap(keys[1..], v))])
  }

  // The value that the edit binds: its string, or what its ValueJSON means.
  function NewValue(e: Edit): Result<Value> {
    if e.valueJson == [] then Ok(Literal(Str, JsoncQuote(e.value)))
    else match Parse(e.valueJson)
      case None => Err(UnsupportedStructure)
      case Some(f) => if f.bom then Err(InternalInconsistency) else Ok(Meaning(f.doc.root))
  }

  function EditValue(v: Value, e: Edit, path: seq<bytes>): Result<Value>
    decreases |path|
  {
    if path == [] || !v.Obj? then Err(KeyNotFound)
    else match FindMember(v.members, path[0])
      case None =>
        if !e.createIfMissing || (e.delete && |path| == 1) then Err(KeyNotFound)
        else (match NewValue(e)
          case Err(x) => Err(x)
          case Ok(x) => Ok(Obj(v.members + [Member(path[0], Wrap(path[1..], x))])))
      case Some(i) =>
        if |path| > 1 then
          match EditValue(v.members[i].val, e, path[1..])
          case Err(x) => Err(x)
          case Ok(x) => Ok(Obj(v.members[i := Member(path[0], x)]))
        else if e.delete then Ok(Obj(v.members[..i] + v.members[i + 1..]))
        else if !v.members[i].val.Literal? && e.valueJson == [] then Err(UnsupportedStructure)
        else match NewValue(e)
          case Err(x) => Err(x)
          case Ok(x) => Ok(Obj(v.members[i := Member(path[0], x)]))
  }

  // ----- the square, on trees -----

  lemma {:induction false} FindSame(items: seq<Item>, ms: seq<Member>, key: bytes)
    requires |ms| == |items| && forall k :: 0 <= k < |items| ==> ms[k].key == KeyOf(items[k])
    ensures FindMember(ms, key) == FindKey(items, key)
  {
    hide KeyOf;
    if items != [] { FindSame(items[1..], ms[1..], key); }
  }

  lemma FragmentMeaning(e: Edit)
    ensures match Fragment(e)
            case Err(x) => NewValue(e) == Err(x)
            case Ok(g) => NewValue(e) == Ok(Meaning(g.val))
  {
    hide Parse, Quoted;
  }

  lemma {:induction false} NestMeaning(keys: seq<bytes>, g: Frag)
    requires AllTrivia(g.pre) && WellFormed(g.val) && AllTrivia(g.post)
    ensures Meaning(Nest(keys, g).val) == Wrap(keys, Meaning(g.val))
  {
    hide WellFormed, AllTrivia, NameFor, KeyOf;
    if keys != [] {
      var inner := Nest(keys[1..], g);
      NestGrammar(keys[1..], g);
      NestMeaning(keys[1..], g);
      NameForExact(keys[0], inner.pre, [], inner.val);
    }
  }

  lemma AppendMeaning(c: Cst, key: bytes, g: Frag)
    requires IsObject(c) && AllTrivia(g.pre)
    ensures Meaning(AppendItem(c, key, g)) == Obj(Meaning(c).members + [Member(key, Meaning(g.val))])
  {
    hide AllTrivia, NameFor, KeyOf, AppendLead;
    NameForExact(key, g.pre, AppendLead(c), g.val);
  }

  lemma SetItemMeaning(c: Cst, i: nat, g: Frag)
    requires WellFormed(c) && IsObject(c) && i < |c.items|
    ensures Meaning(SetItem(c, i, g)) == Obj(Meaning(c).members[i := Member(KeyOf(c.items[i]), Meaning(g.val))])
  {
    hide WellFormed, KeyOf, IsName;
    var d := SetItem(c, i, g);
    ItemNameOk(c, i);
    NameNotEmpty(c.items[i].name);
    SameKey(c.items[i], d.items[i]);
    forall k | 0 <= k < |c.items| && k != i
      ensures KeyOf(d.items[k]) == KeyOf(c.items[k]) && d.items[k].val == c.items[k].val
    {
      ItemNameOk(c, k);
      NameNotEmpty(c.items[k].name);
      SameKey(c.items[k], d.items[k]);
    }
  }

  lemma SetValMeaning(c: Cst, i: nat, v: Cst)
    requires WellFormed(c) && IsObject(c) && i < |c.items|
    ensures Meaning(SetVal(c, i, v)) == Obj(Meaning(c).members[i := Member(KeyOf(c.items[i]), Meaning(v))])
  {
    hide AllTrivia, KeyOf, IsName, IsSeparator;
    ItemNameOk(c, i);
    NameNotEmpty(c.items[i].name);
    SameKey(c.items[i], SetVal(c, i, v).items[i]);
  }

  lemma MembersOf(c: Cst)
    requires IsObject(c)
    ensures Meaning(c).Obj? && |Meaning(c).members| == |c.items|
    ensures forall k :: 0 <= k < |c.items| ==> Meaning(c).members[k] == Member(KeyOf(c.items[k]), Meaning(c.items[k].val))
  {
    hide KeyOf;
  }

  lemma NotObj(c: Cst)
    requires !IsObject(c)
    ensures !Meaning(c).Obj?
  {}

  // A leaf, and nothing else, means a literal.
  lemma LeafMeans(c: Cst)
    ensures c.Leaf? <==> Meaning(c).Literal?
  {}

  // A removal leaves every other key and value as it was.
  lemma RemoveKeeps(c: Cst, i: nat, k: nat)
    requires WellFormed(c) && IsObject(c) && i < |c.items| && k < |c.items| && k != i
    requires i + 1 < |c.items| ==> IsSeparator(c.items[i + 1].lead)
    ensures var d, m := RemoveItem(c, i), if k < i then k else k - 1;
            && IsObject(d) && |d.items| == |c.items| - 1
            && KeyOf(d.items[m]) == KeyOf(c.items[k]) && d.items[m].val == c.items[k].val
  {
    hide WellFormed, AllTrivia, KeyOf, IsName, IsSeparator, Kept, Resume, OwnLine;
    if k == i + 1 {
      ItemNameOk(c, k);
      NameNotEmpty(c.items[k].name);
      SameKey(c.items[k], RemoveItem(c, i).items[i]);
    }
  }

  lemma RemoveMeaning(c: Cst, i: nat)
    requires WellFormed(c) && IsObject(c) && i < |c.items|
    requires i + 1 < |c.items| ==> IsSeparator(c.items[i + 1].lead)
    ensures Meaning(RemoveItem(c, i)) == Obj(Meaning(c).members[..i] + Meaning(c).members[i + 1..])
  {
    hide WellFormed, Meaning, KeyOf, IsSeparator, RemoveItem;
    var d := RemoveItem(c, i);
    if |c.items| > 1 { RemoveKeeps(c, i, if i == 0 then 1 else 0); } else { RemoveOnly(c); }
    MembersOf(c);
    MembersOf(d);
    var ms := Meaning(c).members;
    forall m | 0 <= m < |d.items| ensures Meaning(d).members[m] == (ms[..i] + ms[i + 1..])[m] {
      RemoveKeeps(c, i, if m < i then m else m + 1);
    }
  }

  lemma RemoveOnly(c: Cst)
    requires IsObject(c) && |c.items| == 1
    ensures IsObject(RemoveItem(c, 0)) && RemoveItem(c, 0).items == []
  {
    hide Kept, OwnLine;
  }

  // The edit of the tree means the edit of the value, error for error.
  lemma {:induction false} EditMeaning(c: Cst, e: Edit, path: seq<bytes>)
    requires WellFormed(c)
    ensures match EditTree(c, e, path)
            case Err(x) => EditValue(Meaning(c), e, path) == Err(x)
            case Ok(d) => EditValue(Meaning(c), e, path) == Ok(Meaning(d))
    decreases |path|
  {
    hide WellFormed, KeyOf, Fragment, NewValue, RemoveItem, SetItem, AppendItem, IsSeparator, Meaning, Nest, Wrap, SetVal;
    if !IsObject(c) {
      NotObj(c);
    } else if path != [] {
      MembersOf(c);
      FindSame(c.items, Meaning(c).members, path[0]);
      FindKeyExact(c.items, path[0]);
      FragmentMeaning(e);
      match FindKey(c.items, path[0])
      case None =>
        if Fragment(e).Ok? {
          var g := Fragment(e).value;
          FragmentOk(e);
          NestGrammar(path[1..], g);
          NestMeaning(path[1..], g);
          AppendMeaning(c, path[0], Nest(path[1..], g));
        }
      case Some(i) =>
        ItemValueOk(c, i);
        if |path| > 1 {
          EditMeaning(c.items[i].val, e, path[1..]);
          if EditTree(c.items[i].val, e, path[1..]).Ok? {
            SetValMeaning(c, i, EditTree(c.items[i].val, e, path[1..]).value);
          }
        } else if e.delete {
          if i + 1 < |c.items| { ItemLeadOk(c, i + 1); }
          RemoveMeaning(c, i);
        } else if Fragment(e).Ok? {
          SetItemMeaning(c, i, Fragment(e).value);
        }
        LeafMeans(c.items[i].val);
    }
  }
}
