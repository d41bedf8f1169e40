/**
 The attributes of an element: a singly linked list in chunks of the pool of the
 document, which behaves like a map that remembers the order of insertion.
 */
module AttributeLists {
  import opened Bytes
  import opened Documents
  import opened MemPools
  import opened Parsing

  // ------------------------------------------------------------ the map

  /** The attributes in order. */
  type Items = seq<Attr>

  ghost predicate DistinctNames(s: Items) {
    forall i, j :: 0 <= i < j < |s| ==> s[i].name != s[j].name
  }

  /** The place of the name, or the number of attributes. */
  function IndexOf(s: Items, name: bytes): (i: nat)
    ensures i <= |s| && (i < |s| ==> s[i].name == name)
    ensures forall j :: 0 <= j < i ==> s[j].name != name
  {
    if s == [] then 0
    else if s[0].name == name then 0
    else 1 + IndexOf(s[1..], name)
  }

  function Lookup(s: Items, name: bytes): Option<bytes> {
    var i := IndexOf(s, name);
    if i < |s| then Some(s[i].value) else None
  }

  /** A new name goes to the end, a known one keeps its place. */
  function Set(s: Items, name: bytes, value: bytes): Items {
    var i := IndexOf(s, name);
    if i < |s| then s[i := Attr(name, value)] else s + [Attr(name, value)]
  }

  function Delete(s: Items, name: bytes): Items {
    var i := IndexOf(s, name);
    if i < |s| then s[..i] + s[i + 1..] else s
  }

  lemma IndexIs(s: Items, name: bytes, i: nat)
    requires i <= |s| && (i < |s| ==> s[i].name == name) && forall j :: 0 <= j < i ==> s[j].name != name
    ensures IndexOf(s, name) == i
  {
  }

  /** The last value set is the one that is found; the other names are left alone. */
  lemma LookupAfterSet(s: Items, name: bytes, value: bytes, other: bytes)
    ensures Lookup(Set(s, name, value), other) == if other == name then Some(value) else Lookup(s, other)
  {
    var i, s' := IndexOf(s, name), Set(s, name, value);
    if other == name {
      IndexIs(s', name, i);
    } else {
      var k := IndexOf(s, other);
      if k == |s| && i == |s| {
        IndexIs(s', other, k + 1);
      } else {
        IndexIs(s', other, k);
      }
    }
  }

  /** A deleted name is not found, and no other name is lost. */
  lemma LookupAfterDelete(s: Items, name: bytes, other: bytes)
    requires DistinctNames(s)
    ensures Lookup(Delete(s, name), other) == if other == name then None else Lookup(s, other)
  {
    var i, s' := IndexOf(s, name), Delete(s, name);
    if i < |s| {
      assert forall j :: 0 <= j < |s'| ==> s'[j] == s[if j < i then j else j + 1];
      if other == name {
        IndexIs(s', name, |s'|);
      } else {
        var k := IndexOf(s, other);
        IndexIs(s', other, if k < i then k else k - 1);
      }
    }
  }

  function NamesOf(s: Items): (n: seq<bytes>)
    ensures |n| == |s| && forall i :: 0 <= i < |s| ==> n[i] == s[i].name
  {
    if s == [] then [] else [s[0].name] + NamesOf(s[1..])
  }

  /** Names stay distinct and in the order of their first insertion. */
  lemma OrderAfterSet(s: Items, name: bytes, value: bytes)
    requires DistinctNames(s)
    ensures DistinctNames(Set(s, name, value))
    ensures NamesOf(Set(s, name, value)) == if name in NamesOf(s) then NamesOf(s) else NamesOf(s) + [name]
  {
    var i, s' := IndexOf(s, name), Set(s, name, value);
    if i < |s| {
      assert NamesOf(s)[i] == name;
      assert forall j :: 0 <= j < |s| ==> s'[j].name == s[j].name;
      assert NamesOf(s') == NamesOf(s);
    } else {
      assert NamesOf(s') == NamesOf(s) + [name];
    }
  }

  lemma SameNames(s: Items, s': Items)
    requires DistinctNames(s) && |s'| == |s| && forall j :: 0 <= j < |s| ==> s'[j].name == s[j].name
    ensures DistinctNames(s')
  {
  }

  lemma NewName(s: Items, x: Attr)
    requires DistinctNames(s) && IndexOf(s, x.name) == |s|
    ensures DistinctNames(s + [x])
  {
  }

  lemma OrderAfterDelete(s: Items, name: bytes)
    requires DistinctNames(s)
    ensures DistinctNames(Delete(s, name)) && name !in NamesOf(Delete(s, name))
    ensures var i := IndexOf(s, name);
            NamesOf(Delete(s, name)) == if i < |s| then NamesOf(s)[..i] + NamesOf(s)[i + 1..] else NamesOf(s)
  {
    var i, s' := IndexOf(s, name), Delete(s, name);
    if i < |s| {
      DeleteAt(s, i, s');
      NamesApart(s', name);
      assert NamesOf(s') == NamesOf(s)[..i] + NamesOf(s)[i + 1..] by {
        hide DistinctNames, Delete;
      }
    }
  }

  lemma DeleteAt(s: Items, i: nat, s': Items)
    requires DistinctNames(s) && i < |s| && s' == s[..i] + s[i + 1..]
    ensures DistinctNames(s') && forall j :: 0 <= j < |s'| ==> s'[j] == s[if j < i then j else j + 1]
    ensures forall j :: 0 <= j < |s'| ==> s'[j].name != s[i].name
  {
    forall j, k | 0 <= j < k < |s'| ensures s'[j].name != s'[k].name {
      var j', k' := if j < i then j else j + 1, if k < i then k else k + 1;
      assert s'[j] == s[j'] && s'[k] == s[k'];
    }
  }

  lemma NamesApart(s: Items, name: bytes)
    requires forall j :: 0 <= j < |s| ==> s[j].name != name
    ensures name !in NamesOf(s)
  {
  }

  /** The attributes of `xs` set one after the other. */
  function SetAll(s: Items, xs: Items): Items
    decreases |xs|
  {
    if xs == [] then s else SetAll(Set(s, xs[0].name, xs[0].value), xs[1..])
  }

  lemma {:induction false} SetAllBuilds(s: Items, xs: Items)
    requires DistinctNames(s + xs)
    ensures SetAll(s, xs) == s + xs
    decreases |xs|
  {
    if xs != [] {
      forall j | 0 <= j < |s| ensures s[j].name != xs[0].name {
        assert (s + xs)[j] == s[j] && (s + xs)[|s|] == xs[0];
      }
      assert s + [xs[0]] + xs[1..] == s + xs;
      SetAllBuilds(s + [xs[0]], xs[1..]);
    }
  }

  /** Set one by one, attributes with distinct names build themselves. */
  lemma SetUp(xs: Items)
    requires DistinctNames(xs)
    ensures SetAll([], xs) == xs
  {
    ConcatEmpty(xs);
    SetAllBuilds([], xs);
  }

  lemma Repeated(s: Items, k: nat)
    requires k < |s| && Lookup(s[..k], s[k].name).Some?
    ensures !DistinctNames(s)
  {
    var i := IndexOf(s[..k], s[k].name);
    assert s[..k][i] == s[i];
  }

  // ------------------------------------------------------------ runs

  datatype Op = SetOp(name: bytes, value: bytes) | DeleteOp(name: bytes)

  function Apply(s: Items, op: Op): Items {
    match op
    case SetOp(name, value) => Set(s, name, value)
    case DeleteOp(name) => Delete(s, name)
  }

  function ApplyAll(s: Items, ops: seq<Op>): Items
    decreases |ops|
  {
    if ops == [] then s else ApplyAll(Apply(s, ops[0]), ops[1..])
  }

  /** What the last operation on the name leaves, or `before` without one. */
  function Latest(ops: seq<Op>, name: bytes, before: Option<bytes>): Option<bytes> {
    if ops == [] then before
    else
      var op := ops[|ops| - 1];
      if op.name != name then Latest(ops[..|ops| - 1], name, before)
      else if op.SetOp? then Some(op.value) else None
  }

  lemma {:induction false} LatestCons(op: Op, ops: seq<Op>, name: bytes, before: Option<bytes>)
    ensures var next := if op.name != name then before else if op.SetOp? then Some(op.value) else None;
            Latest([op] + ops, name, before) == Latest(ops, name, next)
  {
    if ops == [] {
      assert [op] + ops == [op];
    } else {
      assert ([op] + ops)[..|[op] + ops| - 1] == [op] + ops[..|ops| - 1];
      LatestCons(op, ops[..|ops| - 1], name, before);
    }
  }

  /** After any run the names are distinct, and a name has the value last given to it. */
  lemma {:induction false} LookupAfterRun(s: Items, ops: seq<Op>, name: bytes)
    requires DistinctNames(s)
    ensures DistinctNames(ApplyAll(s, ops))
    ensures Lookup(ApplyAll(s, ops), name) == Latest(ops, name, Lookup(s, name))
    decreases |ops|
  {
    hide Set, Delete, Lookup, DistinctNames;
    if ops != [] {
      var op, s' := ops[0], Apply(s, ops[0]);
      match op {
        case SetOp(n, v) =>
          LookupAfterSet(s, n, v, name);
          OrderAfterSet(s, n, v);
        case DeleteOp(n) =>
          LookupAfterDelete(s, n, name);
          OrderAfterDelete(s, n);
      }
      LookupAfterRun(s', ops[1..], name);
      assert [op] + ops[1..] == ops;
      LatestCons(op, ops[1..], name, Lookup(s, name));
    }
  }

  // ------------------------------------------------------------ the list

  class XMLAttribute {
    const mem: Address
    var name: bytes
    var value: bytes
    var next: XMLAttribute?

    constructor (mem: Address)
      ensures this.mem == mem && next == null && name == [] && value == []
    {
      this.mem := mem;
      name, value, next := [], [], null;
    }
  }

  /** The attribute part of an `XMLElement`. */
  class AttributeList {
    const attributePool: MemPool
    var rootAttribute: XMLAttribute?
    ghost var cells: seq<XMLAttribute>

    constructor (pool: MemPool)
      requires pool.Valid()
      ensures Valid() && Contents() == [] && attributePool == pool
    {
      attributePool, rootAttribute, cells := pool, null, [];
    }

    static ghost function Nth(l: seq<XMLAttribute>, i: int): XMLAttribute? {
      if 0 <= i < |l| then l[i] else null
    }

    static ghost predicate NextIs(l: seq<XMLAttribute>, i: nat)
      requires i < |l|
      reads l`next
    {
      l[i].next == Nth(l, i + 1)
    }

    static ghost predicate Chain(l: seq<XMLAttribute>)
      reads l`next
    {
      && (forall i :: 0 <= i < |l| ==> NextIs(l, i))
      && (forall i, j :: 0 <= i < j < |l| ==> l[i] != l[j] && l[i].mem != l[j].mem)
    }

    static ghost function ItemsOf(l: seq<XMLAttribute>): (s: Items)
      reads l`name, l`value
      ensures |s| == |l| && forall i :: 0 <= i < |l| ==> s[i] == Attr(l[i].name, l[i].value)
    {
      if l == [] then [] else ItemsOf(l[..|l| - 1]) + [Attr(l[|l| - 1].name, l[|l| - 1].value)]
    }

    ghost function Contents(): Items
      reads `cells, cells`name, cells`value
    {
      ItemsOf(cells)
    }

    ghost predicate Valid()
      reads this, cells, attributePool
    {
      && rootAttribute == Nth(cells, 0) && Chain(cells) && DistinctNames(Contents())
      && attributePool.Valid() && (forall i :: 0 <= i < |cells| ==> cells[i].mem in attributePool.live)
    }

    /** `XMLElement::FindAttribute`. */
    method FindAttribute(name: bytes) returns (a: XMLAttribute?)
      requires Valid()
      ensures a == Nth(cells, IndexOf(Contents(), name))
    {
      a := rootAttribute;
      ghost var i := 0;
      while a != null
        invariant 0 <= i <= |cells| && a == Nth(cells, i)
        invariant forall j :: 0 <= j < i ==> Contents()[j].name != name
        decreases |cells| - i
      {
        if a.name == name {
          IndexIs(Contents(), name, i);
          return;
        }
        assert NextIs(cells, i);
        a := a.next;
        i := i + 1;
      }
      IndexIs(Contents(), name, i);
    }

    /** `Attribute( name )`. */
    method Attribute(name: bytes) returns (value: Option<bytes>)
      requires Valid()
      ensures value == Lookup(Contents(), name)
    {
      var a := FindAttribute(name);
      value := if a == null then None else Some(a.value);
    }

    /** `XMLElement::FindOrCreateAttribute`: a new attribute is linked behind the last one. */
    method FindOrCreateAttribute(name: bytes) returns (a: XMLAttribute)
      requires Valid()
      modifies `rootAttribute, `cells, cells`next, attributePool
      ensures Valid() && a == Nth(cells, IndexOf(old(Contents()), name))
      ensures if IndexOf(old(Contents()), name) < |old(cells)| then
                cells == old(cells) && Contents() == old(Contents()) && attributePool.live == old(attributePool.live)
              else
                && cells == old(cells) + [a] && fresh(a) && Contents() == old(Contents()) + [Attr(name, [])]
                && attributePool.live == old(attributePool.live) + {a.mem} && a.mem !in old(attributePool.live)
    {
      var last: XMLAttribute? := null;
      var attrib := rootAttribute;
      ghost var i := 0;
      while attrib != null
        invariant 0 <= i <= |cells| && attrib == Nth(cells, i) && last == Nth(cells, i - 1)
        invariant forall j :: 0 <= j < i ==> Contents()[j].name != name
        decreases |cells| - i
      {
        if attrib.name == name {
          break;
        }
        assert NextIs(cells, i);
        last := attrib;
        attrib := attrib.next;
        i := i + 1;
      }
      IndexIs(Contents(), name, i);
      if attrib != null {
        return attrib;
      }
      a := Append(last, name);
    }

    method Append(last: XMLAttribute?, name: bytes) returns (attrib: XMLAttribute)
      requires Valid() && last == Nth(cells, |cells| - 1) && IndexOf(Contents(), name) == |cells|
      modifies `rootAttribute, `cells, cells`next, attributePool
      ensures Valid() && cells == old(cells) + [attrib] && fresh(attrib) && Contents() == old(Contents()) + [Attr(name, [])]
      ensures attributePool.live == old(attributePool.live) + {attrib.mem} && attrib.mem !in old(attributePool.live)
    {
      hide MemPool.Valid, Chain, DistinctNames, IndexOf, ItemsOf;
      attrib := NewAttribute(Attr(name, []));
      LinkItem(last, attrib, Attr(name, []));
    }

    /** The chunks of the attributes. */
    static ghost function Mems(l: seq<XMLAttribute>): set<Address> {
      set a <- l :: a.mem
    }

    /** The first `k` attributes are linked, `prev` is the last of them, and only they took chunks. */
    ghost predicate Linked(items: Items, k: nat, prev: XMLAttribute?, live: set<Address>)
      reads this, cells, attributePool
    {
      && Valid() && k <= |items| && Contents() == items[..k] && prev == Nth(cells, k - 1)
      && attributePool.live == live + Mems(cells)
    }

    /**
     The linking of `XMLElement::ParseAttributes`, for attributes that were read from the
     text: each goes behind the one before it, until a name comes again. The attribute
     with that name gives its chunk back.
     */
    method LinkParsed(items: Items) returns (ok: bool)
      requires Valid() && cells == []
      modifies `rootAttribute, `cells, attributePool
      ensures Valid() && (ok <==> DistinctNames(items)) && |cells| <= |items| && Contents() == items[..|cells|]
      ensures if ok then |cells| == |items| else |cells| < |items| && Lookup(Contents(), items[|cells|].name).Some?
      ensures attributePool.live == old(attributePool.live) + Mems(cells)
    {
      var prev: XMLAttribute? := null;
      var k := 0;
      ghost var live := attributePool.live;
      assert Mems(cells) == {};
      while k < |items|
        invariant Linked(items, k, prev, live) && forall i :: 0 <= i < |cells| ==> fresh(cells[i])
      {
        hide *;
        var a := LinkNext(items, k, prev, live);
        if a == null {
          StopsHere(items, k, prev, live);
          return false;
        }
        prev := a;
        k := k + 1;
      }
      assert items[..k] == items;
      ok := true;
    }

    lemma StopsHere(items: Items, k: nat, prev: XMLAttribute?, live: set<Address>)
      requires Linked(items, k, prev, live) && k < |items| && Lookup(items[..k], items[k].name).Some?
      ensures Valid() && !DistinctNames(items) && |cells| == k && Contents() == items[..k]
      ensures attributePool.live == live + Mems(cells)
    {
      Repeated(items, k);
    }

    /** One round: a new attribute, which is dropped if its name is there already. */
    method LinkNext(items: Items, k: nat, prev: XMLAttribute?, ghost live: set<Address>) returns (a: XMLAttribute?)
      requires k < |items| && Linked(items, k, prev, live)
      modifies `rootAttribute, `cells, cells`next, attributePool
      ensures if a == null then Linked(items, k, prev, live) && cells == old(cells) && Lookup(items[..k], items[k].name).Some?
              else Linked(items, k + 1, a, live) && cells == old(cells) + [a] && fresh(a)
    {
      hide MemPool.Valid, Chain, DistinctNames, IndexOf, ItemsOf;
      var attrib := NewAttribute(items[k]);
      var other := Attribute(items[k].name);
      if other.Some? {
        Release(attrib.mem);
        return null;
      }
      assert items[..k + 1] == items[..k] + [items[k]];
      LinkItem(prev, attrib, items[k]);
      a := attrib;
    }

    /** `new (attributePool.Alloc()) XMLAttribute()`, with what was read from the text. */
    method NewAttribute(x: Attr) returns (attrib: XMLAttribute)
      requires Valid()
      modifies attributePool
      ensures Valid() && fresh(attrib) && attrib.next == null && attrib.name == x.name && attrib.value == x.value
      ensures Contents() == old(Contents()) && attributePool.live == old(attributePool.live) + {attrib.mem}
      ensures attrib.mem !in old(attributePool.live)
      ensures forall i :: 0 <= i < |cells| ==> cells[i].mem != attrib.mem
    {
      hide MemPool.Valid, Chain, DistinctNames, ItemsOf;
      var mem := attributePool.Alloc();
      attrib := new XMLAttribute(mem);
      attrib.name, attrib.value := x.name, x.value;
    }

    method LinkItem(last: XMLAttribute?, attrib: XMLAttribute, x: Attr)
      requires Valid() && last == Nth(cells, |cells| - 1) && IndexOf(Contents(), x.name) == |cells|
      requires attrib !in cells && attrib.next == null && attrib.name == x.name && attrib.value == x.value
      requires attrib.mem in attributePool.live && forall i :: 0 <= i < |cells| ==> cells[i].mem != attrib.mem
      modifies `rootAttribute, `cells, cells`next
      ensures Valid() && cells == old(cells) + [attrib] && Contents() == old(Contents()) + [x]
    {
      hide MemPool.Valid, Chain, ItemsOf, DistinctNames, IndexOf;
      ghost var l := cells;
      LinkLast(last, attrib);
      ItemsSnoc(l, attrib);
      NewName(old(Contents()), x);
    }

    method LinkLast(last: XMLAttribute?, attrib: XMLAttribute)
      requires rootAttribute == Nth(cells, 0) && Chain(cells) && last == Nth(cells, |cells| - 1)
      requires attrib !in cells && attrib.next == null && forall i :: 0 <= i < |cells| ==> cells[i].mem != attrib.mem
      modifies `rootAttribute, `cells, cells`next
      ensures cells == old(cells) + [attrib] && rootAttribute == Nth(cells, 0) && Chain(cells)
    {
      ghost var l := cells;
      if last != null {
        last.next := attrib;
      } else {
        rootAttribute := attrib;
      }
      cells := cells + [attrib];
      ChainSnoc(l, attrib);
    }

    static lemma ItemsSnoc(l: seq<XMLAttribute>, a: XMLAttribute)
      ensures ItemsOf(l + [a]) == ItemsOf(l) + [Attr(a.name, a.value)]
    {
      assert (l + [a])[..|l + [a]| - 1] == l;
    }

    /** The chain after a last link was added: the old last one points at the new one. */
    static twostate lemma ChainSnoc(l: seq<XMLAttribute>, new a: XMLAttribute)
      requires old(Chain(l)) && a !in l && a.next == null && forall i :: 0 <= i < |l| ==> l[i].mem != a.mem
      requires l != [] ==> l[|l| - 1].next == a
      requires forall i :: 0 <= i < |l| - 1 ==> l[i].next == old(l[i].next)
      ensures Chain(l + [a])
    {
      forall i | 0 <= i < |l + [a]| ensures NextIs(l + [a], i) {
        if i < |l| - 1 {
          assert old(NextIs(l, i));
        }
      }
    }

    /** `XMLElement::SetAttribute`. */
    method SetAttribute(name: bytes, value: bytes)
      requires Valid()
      modifies `rootAttribute, `cells, cells`next, cells`value, attributePool
      ensures Valid() && Contents() == Set(old(Contents()), name, value)
      ensures if IndexOf(old(Contents()), name) < |old(cells)| then
                cells == old(cells) && attributePool.live == old(attributePool.live)
              else
                && |cells| == |old(cells)| + 1 && cells[..|old(cells)|] == old(cells)
                && attributePool.live == old(attributePool.live) + {cells[|old(cells)|].mem}
                && cells[|old(cells)|].mem !in old(attributePool.live)
    {
      hide MemPool.Valid, ItemsOf, Chain, DistinctNames, IndexOf;
      ghost var i := IndexOf(Contents(), name);
      var a := FindOrCreateAttribute(name);
      StoreValue(a, value, i);
    }

    /** `XMLAttribute::SetAttribute` of the attribute at `i`. */
    method StoreValue(a: XMLAttribute, value: bytes, ghost i: nat)
      requires Valid() && i < |cells| && cells[i] == a
      modifies a`value
      ensures Valid() && Contents() == old(Contents())[i := Attr(a.name, value)]
    {
      hide MemPool.Valid, ItemsOf, DistinctNames;
      a.value := value;
      assert Contents() == old(Contents())[i := Attr(a.name, value)];
      SameNames(old(Contents()), Contents());
    }

    /** `XMLElement::DeleteAttribute`. */
    method DeleteAttribute(name: bytes)
      requires Valid()
      modifies `rootAttribute, `cells, cells`next, attributePool
      ensures Valid() && Contents() == Delete(old(Contents()), name)
      ensures var i := IndexOf(old(Contents()), name);
              if i < |old(cells)| then
                && cells == old(cells)[..i] + old(cells)[i + 1..]
                && attributePool.live == old(attributePool.live) - {old(cells)[i].mem}
              else
                cells == old(cells) && attributePool.live == old(attributePool.live)
    {
      var prev: XMLAttribute? := null;
      var a := rootAttribute;
      ghost var i := 0;
      while a != null
        invariant 0 <= i <= |cells| && a == Nth(cells, i) && prev == Nth(cells, i - 1)
        invariant forall j :: 0 <= j < i ==> Contents()[j].name != name
        decreases |cells| - i
      {
        if name == a.name {
          IndexIs(Contents(), name, i);
          Remove(prev, a, i);
          return;
        }
        assert NextIs(cells, i);
        prev := a;
        a := a.next;
        i := i + 1;
      }
      IndexIs(Contents(), name, i);
    }

    /** Unlinks the attribute `a` behind `prev` and frees its chunk. */
    method Remove(prev: XMLAttribute?, a: XMLAttribute, ghost i: nat)
      requires Valid() && i < |cells| && a == cells[i] && prev == Nth(cells, i - 1)
      modifies `rootAttribute, `cells, cells`next, attributePool
      ensures Valid() && Contents() == old(Contents())[..i] + old(Contents())[i + 1..]
      ensures cells == old(cells)[..i] + old(cells)[i + 1..]
      ensures attributePool.live == old(attributePool.live) - {a.mem}
    {
      assert a.mem in attributePool.live;
      hide *;
      TakeOut(prev, a, i);
      Release(a.mem);
    }

    method TakeOut(prev: XMLAttribute?, a: XMLAttribute, ghost i: nat)
      requires Valid() && i < |cells| && a == cells[i] && prev == Nth(cells, i - 1)
      modifies `rootAttribute, `cells, cells`next
      ensures Valid() && Contents() == old(Contents())[..i] + old(Contents())[i + 1..]
      ensures cells == old(cells)[..i] + old(cells)[i + 1..]
      ensures forall j :: 0 <= j < |cells| ==> cells[j].mem != a.mem
    {
      hide MemPool.Valid, ItemsOf, DistinctNames, Chain;
      ghost var l := cells;
      UnlinkAfter(prev, a, i);
      ItemsWithout(l, i);
      DeleteAt(old(Contents()), i, Contents());
    }

    /** The chunk of an attribute that is not in the list goes back to the pool. */
    method Release(mem: Address)
      requires Valid() && mem in attributePool.live && forall j :: 0 <= j < |cells| ==> cells[j].mem != mem
      modifies attributePool
      ensures Valid() && Contents() == old(Contents()) && attributePool.live == old(attributePool.live) - {mem}
    {
      hide MemPool.Valid, ItemsOf, DistinctNames, Chain;
      attributePool.Free(mem);
    }

    method UnlinkAfter(prev: XMLAttribute?, a: XMLAttribute, ghost i: nat)
      requires rootAttribute == Nth(cells, 0) && Chain(cells)
      requires i < |cells| && a == cells[i] && prev == Nth(cells, i - 1)
      modifies `rootAttribute, `cells, cells`next
      ensures cells == old(cells)[..i] + old(cells)[i + 1..] && rootAttribute == Nth(cells, 0) && Chain(cells)
      ensures forall j :: 0 <= j < |cells| ==> cells[j] == old(cells)[if j < i then j else j + 1] && cells[j].mem != a.mem
    {
      ghost var l := cells;
      assert NextIs(l, i);
      if prev != null {
        prev.next := a.next;
      } else {
        rootAttribute := a.next;
      }
      cells := l[..i] + l[i + 1..];
      ChainWithout(l, i);
    }

    static lemma ItemsWithout(l: seq<XMLAttribute>, i: nat)
      requires i < |l|
      ensures ItemsOf(l[..i] + l[i + 1..]) == ItemsOf(l)[..i] + ItemsOf(l)[i + 1..]
    {
      hide ItemsOf;
      var l', s := l[..i] + l[i + 1..], ItemsOf(l);
      var s' := s[..i] + s[i + 1..];
      forall j | 0 <= j < |l'| ensures ItemsOf(l')[j] == s'[j] {
        var k := if j < i then j else j + 1;
        assert l'[j] == l[k] && s'[j] == s[k];
      }
    }

    static twostate lemma ChainWithout(l: seq<XMLAttribute>, new i: nat)
      requires old(Chain(l)) && i < |l|
      requires i > 0 ==> l[i - 1].next == old(l[i].next)
      requires forall j :: 0 <= j < |l| && j != i - 1 ==> l[j].next == old(l[j].next)
      ensures Chain(l[..i] + l[i + 1..])
    {
      var l' := l[..i] + l[i + 1..];
      assert forall j :: 0 <= j < |l'| ==> l'[j] == l[if j < i then j else j + 1];
      assert old(NextIs(l, i));
      forall j | 0 <= j < |l'| ensures NextIs(l', j) {
        assert old(NextIs(l, if j < i then j else j + 1));
      }
      forall j, k | 0 <= j < k < |l'| ensures l'[j] != l'[k] && l'[j].mem != l'[k].mem {
        var j', k' := if j < i then j else j + 1, if k < i then k else k + 1;
        assert l'[j] == l[j'] && l'[k] == l[k'];
      }
    }
  }
}
