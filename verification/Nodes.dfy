/**
 `XMLNode` with its doubly linked list of children.
 */
module Nodes {
  import opened Bytes
  import opened Parsing
  import opened StrPairs
  import opened MemPools

  /** The class of a node; the document is the root of the tree. */
  datatype NodeKind = DocumentKind | ElementKind | LeafNodeKind(leaf: LeafKind)

  /** `XMLElement::ClosingType`: `<foo>`, `<foo/>` and `</foo>`. */
  datatype ClosingType = OPEN | CLOSED | CLOSING

  /** `XMLAttribute`. */
  datatype AttrCell = AttrCell(name: StrPair, value: StrPair, mem: Address)

  /** The pools of the document, and a chunk of one of them. */
  datatype PoolId = ElementPool | AttributePool | TextPool | CommentPool

  datatype Chunk = Chunk(pool: PoolId, mem: Address)

  /** `memPool`, as `Identify` sets it: the other leaves share the pool of the comments. */
  function PoolOf(kind: NodeKind): PoolId {
    match kind
    case LeafNodeKind(PlainText) => TextPool
    case LeafNodeKind(CData) => TextPool
    case LeafNodeKind(_) => CommentPool
    case _ => ElementPool
  }

  /** The chunk of the node itself; the document is not in a pool. */
  ghost function OwnChunk(kind: NodeKind, mem: Address): multiset<Chunk> {
    if kind == DocumentKind then multiset{} else multiset{Chunk(PoolOf(kind), mem)}
  }

  class XMLNode {
    const kind: NodeKind
    const mem: Address
    var value: StrPair
    var closingType: ClosingType
    var attrs: seq<AttrCell>
    var parent: XMLNode?
    var firstChild: XMLNode?
    var lastChild: XMLNode?
    var prev: XMLNode?
    var next: XMLNode?
    ghost var kids: seq<XMLNode>    // the children in order
    ghost var repr: set<XMLNode>    // this node and everything below it
    ghost var chunks: multiset<Chunk>   // the chunks of all of these
    ghost var tree: RawNode         // the tree they spell

    constructor (kind: NodeKind, mem: Address)
      ensures this.kind == kind && this.mem == mem && parent == null && kids == [] && LinksOk()
      ensures value == EMPTY_PAIR && closingType == OPEN && attrs == []
      ensures repr == {this} && chunks == OwnChunk(kind, mem) && tree == RawElement(Span(0, 0), [], false, [])
    {
      this.kind, this.mem := kind, mem;
      value, closingType, attrs := EMPTY_PAIR, OPEN, [];
      parent, firstChild, lastChild, prev, next := null, null, null, null, null;
      kids, repr, chunks := [], {this}, OwnChunk(kind, mem);
      tree := RawElement(Span(0, 0), [], false, []);
    }

    /** The pointers of this node and of its children spell the list `kids`. */
    ghost predicate LinksOk()
      reads `firstChild, `lastChild, `kids, kids`parent, kids`prev, kids`next
    {
      && firstChild == Nth(kids, 0) && lastChild == Nth(kids, |kids| - 1)
      && (forall i :: 0 <= i < |kids| ==> LinkedAt(kids, i))
      && Distinct(kids) && this !in kids
    }

    static ghost predicate Distinct(l: seq<XMLNode>) {
      forall i, j :: 0 <= i < j < |l| ==> l[i] != l[j]
    }

    static lemma DistinctWith(l: seq<XMLNode>, i: nat, x: XMLNode)
      requires Distinct(l) && i <= |l| && x !in l
      ensures Distinct(l[..i] + [x] + l[i..])
    {
      var l' := l[..i] + [x] + l[i..];
      assert forall j :: 0 <= j < |l'| ==> l'[j] == if j < i then l[j] else if j == i then x else l[j - 1];
    }

    /** The child at `i` points at this node and at its neighbours. */
    ghost predicate LinkedAt(l: seq<XMLNode>, i: int)
      requires 0 <= i < |l|
      reads l`parent, l`prev, l`next
    {
      l[i].parent == this && l[i].prev == Nth(l, i - 1) && l[i].next == Nth(l, i + 1)
    }

    /** The element at `i`, or the null pointer beyond the ends. */
    static ghost function Nth(l: seq<XMLNode>, i: int): XMLNode? {
      if 0 <= i < |l| then l[i] else null
    }

    lemma NotLinked(n: XMLNode)
      requires LinksOk() && n.parent == null
      ensures n !in kids
    {
      forall i | 0 <= i < |kids| ensures kids[i] != n {
        assert LinkedAt(kids, i);
      }
    }

    method InsertEndChild(addThis: XMLNode)
      requires LinksOk() && addThis != this && addThis.parent == null
      modifies `firstChild, `lastChild, `kids, kids`next, addThis`prev, addThis`next, addThis`parent
      ensures LinksOk() && kids == old(kids) + [addThis]
    {
      ghost var k := kids;
      NotLinked(addThis);
      if lastChild != null {
        assert LinkedAt(k, |k| - 1);
        lastChild.next := addThis;
        addThis.prev := lastChild;
        lastChild := addThis;
        addThis.next := null;
      } else {
        firstChild, lastChild := addThis, addThis;
        addThis.prev := null;
        addThis.next := null;
      }
      addThis.parent := this;
      kids := kids + [addThis];
      forall i | 0 <= i < |kids| ensures LinkedAt(kids, i) {
        if i < |k| { assert old(LinkedAt(k, i)); }
      }
    }

    method InsertFirstChild(addThis: XMLNode)
      requires LinksOk() && addThis != this && addThis.parent == null
      modifies `firstChild, `lastChild, `kids, kids`prev, addThis`prev, addThis`next, addThis`parent
      ensures LinksOk() && kids == [addThis] + old(kids)
    {
      ghost var k := kids;
      NotLinked(addThis);
      if firstChild != null {
        assert LinkedAt(k, 0);
        firstChild.prev := addThis;
        addThis.next := firstChild;
        firstChild := addThis;
        addThis.prev := null;
      } else {
        firstChild, lastChild := addThis, addThis;
        addThis.prev := null;
        addThis.next := null;
      }
      addThis.parent := this;
      kids := [addThis] + kids;
      forall i | 0 <= i < |kids| ensures LinkedAt(kids, i) {
        if i > 0 { assert old(LinkedAt(k, i - 1)); }
      }
    }

    /** `false` is the null pointer: `afterThis` is not a child of this node. */
    method InsertAfterChild(afterThis: XMLNode, addThis: XMLNode, ghost i: nat) returns (ok: bool)
      requires LinksOk() && addThis != this && addThis.parent == null
      requires afterThis.parent == this ==> i < |kids| && kids[i] == afterThis
      modifies `firstChild, `lastChild, `kids, kids`prev, kids`next, addThis`prev, addThis`next, addThis`parent
      ensures LinksOk() && ok == (old(afterThis.parent) == this)
      ensures kids == if ok then old(kids)[..i + 1] + [addThis] + old(kids)[i + 1..] else old(kids)
      ensures !ok ==> unchanged(this) && unchanged(addThis) && forall x :: x in kids ==> unchanged(x)
    {
      if afterThis.parent != this {
        return false;
      }
      ok := true;
      ghost var k := kids;
      NotLinked(addThis);
      assert LinkedAt(k, i);
      if afterThis.next == null {
        assert i == |k| - 1 && k[..i + 1] == k && k[i + 1..] == [];
        InsertEndChild(addThis);
        return;
      }
      InsertBetween(afterThis, addThis, i);
    }

    /** `InsertAfterChild` of a child that is not the last one. */
    method InsertBetween(afterThis: XMLNode, addThis: XMLNode, ghost i: nat)
      requires LinksOk() && addThis != this && addThis !in kids
      requires i + 1 < |kids| && kids[i] == afterThis && afterThis.next != null
      modifies `kids, kids`prev, kids`next, addThis`prev, addThis`next, addThis`parent
      ensures LinksOk() && kids == old(kids)[..i + 1] + [addThis] + old(kids)[i + 1..]
    {
      ghost var k := kids;
      assert LinkedAt(k, i) && LinkedAt(k, i + 1);
      addThis.prev := afterThis;
      addThis.next := afterThis.next;
      afterThis.next.prev := addThis;
      afterThis.next := addThis;
      addThis.parent := this;
      kids := k[..i + 1] + [addThis] + k[i + 1..];
      forall j | 0 <= j < |k| ensures SplicedAt(k, i, addThis, j) {
        assert old(LinkedAt(k, j));
      }
      Spliced(k, i, addThis);
    }

    /** The pointers of child `j` of the list `l`, when `x` was put behind child `i`. */
    ghost predicate SplicedAt(l: seq<XMLNode>, i: nat, x: XMLNode, j: nat)
      requires j < |l|
      reads l`parent, l`prev, l`next
    {
      && l[j].parent == this && l[j].next == (if j == i then x else Nth(l, j + 1))
      && l[j].prev == if j == i + 1 then x else Nth(l, j - 1)
    }

    lemma Spliced(l: seq<XMLNode>, i: nat, x: XMLNode)
      requires i + 1 < |l| && Distinct(l) && x !in l && this !in l && x != this
      requires forall j :: 0 <= j < |l| ==> SplicedAt(l, i, x, j)
      requires x.prev == l[i] && x.next == l[i + 1] && x.parent == this
      requires firstChild == l[0] && lastChild == l[|l| - 1] && kids == l[..i + 1] + [x] + l[i + 1..]
      ensures LinksOk()
    {
      DistinctWith(l, i + 1, x);
      forall j | 0 <= j < |kids| ensures LinkedAt(kids, j) {
        if j <= i { assert SplicedAt(l, i, x, j); }
        if j > i + 1 { assert SplicedAt(l, i, x, j - 1); }
      }
    }

    /** The unlinked child keeps its stale `prev` and `next`. */
    method Unlink(child: XMLNode, ghost i: nat)
      requires LinksOk() && i < |kids| && kids[i] == child
      modifies `firstChild, `lastChild, `kids, kids`prev, kids`next, child`parent
      ensures LinksOk() && kids == old(kids)[..i] + old(kids)[i + 1..]
      ensures child.parent == null && child.prev == old(child.prev) && child.next == old(child.next)
    {
      ghost var k := kids;
      assert LinkedAt(k, i);
      if child == firstChild {
        firstChild := firstChild.next;
      }
      if child == lastChild {
        lastChild := lastChild.prev;
      }
      if child.prev != null {
        child.prev.next := child.next;
      }
      if child.next != null {
        child.next.prev := child.prev;
      }
      child.parent := null;
      kids := k[..i] + k[i + 1..];
      forall j | 0 <= j < |kids| ensures LinkedAt(kids, j) {
        if j < i { assert old(LinkedAt(k, j)); } else { assert old(LinkedAt(k, j + 1)); }
      }
    }
  }

  // ------------------------------------------------------------ runs of operations

  datatype ListOp =
    | InsertEnd(n: XMLNode) | InsertFirst(n: XMLNode)
    | InsertAfter(afterThis: XMLNode, n: XMLNode) | Remove(child: XMLNode)

  ghost function Position(l: seq<XMLNode>, x: XMLNode): (i: nat)
    requires x in l
    ensures i < |l| && l[i] == x
  {
    if l[0] == x then 0 else 1 + Position(l[1..], x)
  }

  /** The operation on the sequence of children. */
  ghost function Applied(l: seq<XMLNode>, op: ListOp): seq<XMLNode> {
    match op
    case InsertEnd(n) => l + [n]
    case InsertFirst(n) => [n] + l
    case InsertAfter(a, n) => if a in l then l[..Position(l, a) + 1] + [n] + l[Position(l, a) + 1..] else l
    case Remove(c) => if c in l then l[..Position(l, c)] + l[Position(l, c) + 1..] else l
  }

  ghost function Run(l: seq<XMLNode>, ops: seq<ListOp>): seq<XMLNode>
    decreases |ops|
  {
    if ops == [] then l else Run(Applied(l, ops[0]), ops[1..])
  }

  /** Only unlinked nodes are inserted, only children are removed. */
  ghost predicate Legal(l: seq<XMLNode>, op: ListOp, nodes: set<XMLNode>) {
    match op
    case InsertEnd(n) => n in nodes && n !in l
    case InsertFirst(n) => n in nodes && n !in l
    case InsertAfter(a, n) => a in nodes && n in nodes && n !in l
    case Remove(c) => c in l
  }

  ghost predicate LegalRun(l: seq<XMLNode>, ops: seq<ListOp>, nodes: set<XMLNode>)
    decreases |ops|
  {
    ops == [] || (Legal(l, ops[0], nodes) && LegalRun(Applied(l, ops[0]), ops[1..], nodes))
  }

  /** The nodes are the children of `p` and unlinked nodes, whatever their stale pointers say. */
  ghost predicate Family(p: XMLNode, nodes: set<XMLNode>)
    reads p, nodes, p.kids
  {
    && p.LinksOk() && p !in nodes
    && (forall n :: n in p.kids ==> n in nodes)
    && (forall n :: n in nodes ==> (n.parent == null <==> n !in p.kids) && (n.parent == null || n.parent == p))
  }

  method Apply(p: XMLNode, op: ListOp, ghost nodes: set<XMLNode>)
    requires Family(p, nodes) && Legal(p.kids, op, nodes)
    modifies p, nodes
    ensures Family(p, nodes) && p.kids == Applied(old(p.kids), op)
  {
    hide XMLNode.LinksOk;
    match op {
      case InsertEnd(n) =>
        p.InsertEndChild(n);
        Joined(p, nodes, n, |p.kids| - 1);
      case InsertFirst(n) =>
        p.InsertFirstChild(n);
        Joined(p, nodes, n, 0);
      case InsertAfter(a, n) =>
        ApplyAfter(p, a, n, nodes);
      case Remove(c) =>
        ApplyRemove(p, c, nodes);
    }
  }

  method ApplyAfter(p: XMLNode, a: XMLNode, n: XMLNode, ghost nodes: set<XMLNode>)
    requires Family(p, nodes) && Legal(p.kids, InsertAfter(a, n), nodes)
    modifies p, nodes
    ensures Family(p, nodes) && p.kids == Applied(old(p.kids), InsertAfter(a, n))
  {
    hide XMLNode.LinksOk;
    ghost var i := if a in p.kids then Position(p.kids, a) else 0;
    var ok := p.InsertAfterChild(a, n, i);
    if ok {
      Joined(p, nodes, n, i + 1);
    }
  }

  method ApplyRemove(p: XMLNode, c: XMLNode, ghost nodes: set<XMLNode>)
    requires Family(p, nodes) && Legal(p.kids, Remove(c), nodes)
    modifies p, nodes
    ensures Family(p, nodes) && p.kids == Applied(old(p.kids), Remove(c))
  {
    hide XMLNode.LinksOk;
    ghost var i := Position(p.kids, c);
    p.Unlink(c, i);
    Left(p, nodes, c, i);
  }

  twostate lemma Joined(p: XMLNode, new nodes: set<XMLNode>, new n: XMLNode, new i: nat)
    requires old(allocated(nodes)) && old(Family(p, nodes)) && p.LinksOk() && n in nodes && n !in old(p.kids)
    requires i <= |old(p.kids)| && p.kids == old(p.kids)[..i] + [n] + old(p.kids)[i..]
    requires forall x :: x in nodes && x != n ==> x.parent == old(x.parent)
    ensures Family(p, nodes)
  {
    assert p.kids[i] == n && p.LinkedAt(p.kids, i);
    ghost var l := old(p.kids);
    assert l == l[..i] + l[i..];
    forall x ensures x in p.kids <==> x == n || x in l {
    }
  }

  twostate lemma Left(p: XMLNode, new nodes: set<XMLNode>, new c: XMLNode, new i: nat)
    requires old(allocated(nodes)) && old(Family(p, nodes)) && p.LinksOk() && i < |old(p.kids)| && old(p.kids)[i] == c
    requires p.kids == old(p.kids)[..i] + old(p.kids)[i + 1..] && c.parent == null
    requires forall x :: x in nodes && x != c ==> x.parent == old(x.parent)
    ensures Family(p, nodes)
  {
    ghost var l := old(p.kids);
    assert old(p.LinksOk()) && XMLNode.Distinct(l);
    assert l == l[..i] + [c] + l[i + 1..];
    forall x ensures x in p.kids <==> x != c && x in l {
    }
  }

  /** Any run of the four operations keeps a well linked list and does what it does to a sequence. */
  method ApplyAll(p: XMLNode, ops: seq<ListOp>, ghost nodes: set<XMLNode>)
    requires Family(p, nodes) && LegalRun(p.kids, ops, nodes)
    modifies p, nodes
    ensures Family(p, nodes) && p.kids == Run(old(p.kids), ops)
  {
    var k := 0;
    while k < |ops|
      invariant k <= |ops| && Family(p, nodes) && LegalRun(p.kids, ops[k..], nodes)
      invariant Run(p.kids, ops[k..]) == Run(old(p.kids), ops)
    {
      Apply(p, ops[k], nodes);
      assert ops[k..][1..] == ops[k + 1..];
      k := k + 1;
    }
    assert ops[k..] == [];
  }
}
