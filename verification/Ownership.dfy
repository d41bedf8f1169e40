/**
 The nodes below a node as one piece of the heap: which nodes and which chunks belong
 to it. Linking and unlinking a child moves its part of the heap as a whole.
 */
module Ownership {
  import opened Parsing
  import opened MemPools
  import opened StrPairs
  import opened Nodes

  ghost function AttrChunks(attrs: seq<AttrCell>): multiset<Chunk> {
    if attrs == [] then multiset{}
    else multiset{Chunk(AttributePool, attrs[0].mem)} + AttrChunks(attrs[1..])
  }

  ghost function KidChunks(l: seq<XMLNode>): multiset<Chunk>
    reads l`chunks
  {
    if l == [] then multiset{} else l[0].chunks + KidChunks(l[1..])
  }

  lemma {:induction false} AttrChunksSnoc(l: seq<AttrCell>, x: AttrCell)
    ensures AttrChunks(l + [x]) == AttrChunks(l) + multiset{Chunk(AttributePool, x.mem)}
  {
    if l == [] {
      assert l + [x] == [x];
    } else {
      assert (l + [x])[1..] == l[1..] + [x];
      AttrChunksSnoc(l[1..], x);
    }
  }

  lemma {:induction false} KidChunksSnoc(l: seq<XMLNode>, x: XMLNode)
    ensures KidChunks(l + [x]) == KidChunks(l) + x.chunks
  {
    if l == [] {
      assert l + [x] == [x];
    } else {
      assert (l + [x])[1..] == l[1..] + [x];
      KidChunksSnoc(l[1..], x);
    }
  }

  /** The parts of the children `l` divide `whole` without `n`. */
  ghost predicate Divide(l: seq<XMLNode>, n: XMLNode, whole: set<XMLNode>)
    reads l`repr
  {
    n in whole && Cover(l, n, whole) && Inside(l, n, whole) && DisjointParts(l)
  }

  ghost predicate Cover(l: seq<XMLNode>, n: XMLNode, whole: set<XMLNode>)
    reads l`repr
  {
    forall x :: x in whole && x != n ==> exists i :: 0 <= i < |l| && x in l[i].repr
  }

  ghost predicate Inside(l: seq<XMLNode>, n: XMLNode, whole: set<XMLNode>)
    reads l`repr
  {
    forall i :: 0 <= i < |l| ==> l[i] in l[i].repr && l[i].repr <= whole - {n}
  }

  ghost predicate DisjointParts(l: seq<XMLNode>)
    reads l`repr
  {
    forall i, j :: 0 <= i < j < |l| ==> l[i].repr !! l[j].repr
  }

  /** The children of `m` have disjoint parts of the heap inside that of `m`. */
  ghost predicate Nested(m: XMLNode)
    reads m`kids, m`repr, m.kids`repr
  {
    Divide(m.kids, m, m.repr)
  }

  /** The chunks are those of the node, of its attributes and of its children. */
  ghost predicate Tally(m: XMLNode)
    reads m`kids, m`chunks, m`attrs, m.kids`chunks
  {
    m.chunks == OwnChunk(m.kind, m.mem) + AttrChunks(m.attrs) + KidChunks(m.kids)
  }

  /** What a single node has to do with the parts of the heap of its children. */
  ghost predicate Local(m: XMLNode)
    reads m`firstChild, m`lastChild, m`kids, m`repr, m`chunks, m`attrs
    reads m.kids`parent, m.kids`prev, m.kids`next, m.kids`repr, m.kids`chunks
  {
    m.LinksOk() && Nested(m) && Tally(m)
  }

  /** Every node that belongs to `n` keeps to itself. */
  ghost predicate Owned(n: XMLNode)
    reads n`repr, n.repr`firstChild, n.repr`lastChild, n.repr`kids, n.repr`repr, n.repr`chunks, n.repr`attrs
    reads n.repr`parent, n.repr`prev, n.repr`next
  {
    && n in n.repr && (forall m :: m in n.repr ==> m.repr <= n.repr)
    && (forall m, x :: m in n.repr && x in m.repr ==> x.repr <= m.repr)
    && (forall m :: m in n.repr ==> (forall k :: k in m.kids ==> k in n.repr) && Local(m))
  }

  ghost function RawAttrs(attrs: seq<AttrCell>): seq<RawAttr> {
    if attrs == [] then []
    else [RawAttr(SpanOf(attrs[0].name), SpanOf(attrs[0].value))] + RawAttrs(attrs[1..])
  }

  ghost function SpanOf(x: StrPair): Span {
    Span(x.start, x.end)
  }

  /** `tree` is what the fields of the node and the trees of its children say. */
  ghost predicate Shape(m: XMLNode)
    reads m, m.kids`tree
  {
    if m.kind.LeafNodeKind? then
      m.tree == RawLeaf(m.kind.leaf, SpanOf(m.value)) && m.kids == [] && m.attrs == []
    else
      && m.tree.RawElement? && |m.tree.children| == |m.kids|
      && (forall i :: 0 <= i < |m.kids| ==> m.tree.children[i] == m.kids[i].tree)
      && if m.kind == DocumentKind then m.attrs == []
         else m.tree.name == SpanOf(m.value) && m.tree.attrs == RawAttrs(m.attrs)
              && m.tree.sealed == (m.closingType == CLOSED)
  }

  ghost predicate Shaped(n: XMLNode)
    reads n, n.repr
  {
    forall m :: m in n.repr ==> (forall k :: k in m.kids ==> k in n.repr) && Shape(m)
  }

  ghost function WithChild(t: RawNode, child: RawNode): RawNode {
    match t
    case RawElement(name, attrs, sealed, children) => RawElement(name, attrs, sealed, children + [child])
    case RawLeaf(_, _) => t
  }

  twostate lemma LocalFrame(m: XMLNode)
    requires old(Local(m))
    requires m.firstChild == old(m.firstChild) && m.lastChild == old(m.lastChild) && m.kids == old(m.kids)
    requires m.repr == old(m.repr) && m.chunks == old(m.chunks) && m.attrs == old(m.attrs)
    requires forall k :: k in m.kids ==>
      k.parent == old(k.parent) && k.prev == old(k.prev) && k.next == old(k.next)
      && k.repr == old(k.repr) && k.chunks == old(k.chunks)
    ensures Local(m)
  {
    hide KidChunks, AttrChunks, Divide, XMLNode.LinksOk;
    KidChunksFrame(m.kids);
    DivideFrame(m.kids, m, m.repr);
    LinksFrame(m);
  }

  twostate lemma LinksFrame(m: XMLNode)
    requires old(m.LinksOk())
    requires m.firstChild == old(m.firstChild) && m.lastChild == old(m.lastChild) && m.kids == old(m.kids)
    requires forall k :: k in m.kids ==> k.parent == old(k.parent) && k.prev == old(k.prev) && k.next == old(k.next)
    ensures m.LinksOk()
  {
    forall i | 0 <= i < |m.kids| ensures m.LinkedAt(m.kids, i) {
      assert old(m.LinkedAt(m.kids, i));
      assert m.kids[i] in m.kids;
    }
  }

  twostate lemma {:induction false} KidChunksFrame(l: seq<XMLNode>)
    requires forall k :: k in l ==> k.chunks == old(k.chunks)
    ensures KidChunks(l) == old(KidChunks(l))
  {
    if l != [] {
      KidChunksFrame(l[1..]);
    }
  }

  /** A node of another part of the heap becomes the last child: both parts become one. */
  method Adopt(n: XMLNode, node: XMLNode)
    requires Owned(n) && Owned(node) && n.repr !! node.repr && node.parent == null
    modifies n`firstChild, n`lastChild, n`kids, n`repr, n`chunks, n`tree
    modifies n.kids`next, node`prev, node`next, node`parent
    ensures Owned(n) && n.kids == old(n.kids) + [node] && n.tree == WithChild(old(n.tree), node.tree)
    ensures old(Shaped(n) && Shaped(node)) && n.tree.RawElement? ==> Shaped(n)
    ensures n.repr == old(n.repr) + node.repr && n.chunks == old(n.chunks) + node.chunks
  {
    hide Nested, Tally, XMLNode.LinksOk, KidChunks, AttrChunks;
    assert Local(n);
    n.InsertEndChild(node);
    n.repr := n.repr + node.repr;
    n.chunks := n.chunks + node.chunks;
    n.tree := WithChild(n.tree, node.tree);
    Adopted(n, node);
    if old(Shaped(n) && Shaped(node)) && n.tree.RawElement? {
      AdoptShaped(n, node);
    }
  }

  twostate lemma AdoptShaped(n: XMLNode, new node: XMLNode)
    requires old(allocated(node)) && old(Owned(n)) && old(Owned(node)) && old(n.repr) !! old(node.repr)
    requires old(Shaped(n)) && old(Shaped(node)) && n.tree.RawElement?
    requires forall x :: x in old(n.repr) + old(node.repr) ==> OnlyLinked(n, node, x)
    requires n.kids == old(n.kids) + [node] && n.repr == old(n.repr) + node.repr
    requires n.tree == WithChild(old(n.tree), node.tree)
    ensures Shaped(n)
  {
    hide Divide, Tally, XMLNode.LinksOk, RawAttrs;
    assert node != n && OnlyLinked(n, node, node) && node.repr == old(node.repr);
    forall m | m in n.repr ensures (forall k :: k in m.kids ==> k in n.repr) && Shape(m) {
      var r := if m in old(n.repr) then n else node;
      assert OnlyLinked(n, node, m) && m in old(r.repr) && old(Shape(m));
      forall k | k in old(m.kids) ensures k.tree == old(k.tree) {
        ChildOf(r, m, k);
        assert OnlyLinked(n, node, k);
      }
    }
  }

  twostate lemma Adopted(n: XMLNode, new node: XMLNode)
    requires old(allocated(node))
    requires old(Owned(n)) && old(Owned(node)) && old(n.repr !! node.repr) && old(node.parent) == null
    requires forall x :: x in old(n.repr) + old(node.repr) ==> OnlyLinked(n, node, x)
    requires n.LinksOk() && n.kids == old(n.kids) + [node]
    requires n.repr == old(n.repr) + node.repr && n.chunks == old(n.chunks) + node.chunks
    ensures Owned(n)
  {
    hide Nested, Tally, XMLNode.LinksOk, KidChunks, AttrChunks;
    assert node != n && OnlyLinked(n, node, node) && node.repr == old(node.repr);
    forall k | k in old(n.kids) ensures k.repr == old(k.repr) && k.chunks == old(k.chunks) {
      ChildOf(n, n, k);
      assert OnlyLinked(n, node, k);
    }
    AdoptNested(n, node);
    AdoptTally(n, node);
    forall m | m in n.repr ensures Local(m) {
      if m != n {
        Elsewhere(if m in old(n.repr) then n else node, n, node, m);
      }
    }
    forall m, x | m in n.repr && x in m.repr ensures x.repr <= m.repr {
      if m in old(n.repr) && m != n {
        Below(n, m);
      }
      assert OnlyLinked(n, node, m) && OnlyLinked(n, node, x);
    }
  }

  twostate lemma AdoptNested(n: XMLNode, new node: XMLNode)
    requires old(Nested(n)) && node in node.repr && old(n.repr) !! node.repr
    requires n.kids == old(n.kids) + [node] && n.repr == old(n.repr) + node.repr
    requires forall k :: k in old(n.kids) ==> k.repr == old(k.repr)
    ensures Nested(n)
  {
    ghost var l := old(n.kids);
    forall x | x in n.repr && x != n ensures exists i :: 0 <= i < |n.kids| && x in n.kids[i].repr {
      if x in old(n.repr) {
        var i :| 0 <= i < |l| && x in old(l[i].repr);
        assert n.kids[i] == l[i];
      } else {
        assert n.kids[|l|] == node;
      }
    }
    forall i | 0 <= i < |n.kids| ensures n.kids[i] in n.kids[i].repr && n.kids[i].repr <= n.repr - {n} {
      assert i < |l| ==> n.kids[i] == l[i];
    }
    forall i, j | 0 <= i < j < |n.kids| ensures n.kids[i].repr !! n.kids[j].repr {
      assert n.kids[i] == l[i] && l[i].repr <= old(n.repr);
      assert j < |l| ==> n.kids[j] == l[j];
    }
  }

  twostate lemma AdoptTally(n: XMLNode, new node: XMLNode)
    requires old(Tally(n))
    requires n.kids == old(n.kids) + [node] && n.attrs == old(n.attrs) && n.chunks == old(n.chunks) + node.chunks
    requires forall k :: k in old(n.kids) ==> k.chunks == old(k.chunks)
    ensures Tally(n)
  {
    KidChunksSnoc(old(n.kids), node);
    KidChunksFrame(old(n.kids));
  }

  /** A child of `m` is neither a child of another node, nor `n` itself, nor unlinked. */
  twostate lemma ChildOf(n: XMLNode, new m: XMLNode, new k: XMLNode)
    requires old(allocated(m)) && old(allocated(k))
    requires old(Owned(n)) && m in old(n.repr) && k in old(m.kids)
    ensures old(k.parent) == m && k != n && k in old(n.repr)
  {
    ghost var l := old(m.kids);
    var i :| 0 <= i < |l| && l[i] == k;
    assert old(m.LinkedAt(l, i));
    assert old(l[i].repr) <= old(m.repr) - {m};
  }

  twostate lemma Below(n: XMLNode, new m: XMLNode)
    requires old(allocated(m)) && old(Owned(n)) && m in old(n.repr) && m != n
    ensures n !in old(m.repr)
  {
    ghost var l := old(n.kids);
    var i :| 0 <= i < |l| && m in old(l[i].repr);
    assert l[i] in l;
  }

  /** What linking or unlinking `node` as a child of `n` may have changed. */
  twostate predicate OnlyLinked(n: XMLNode, new node: XMLNode, new x: XMLNode)
    requires old(allocated(x))
    reads x
  {
    && (x != n ==> x.firstChild == old(x.firstChild) && x.lastChild == old(x.lastChild) && x.kids == old(x.kids)
                   && x.repr == old(x.repr) && x.chunks == old(x.chunks))
    && (x != n ==> x.tree == old(x.tree))
    && x.attrs == old(x.attrs) && x.value == old(x.value) && x.closingType == old(x.closingType)
    && (x != node && x !in old(n.kids) ==>
          x.prev == old(x.prev) && x.next == old(x.next) && x.parent == old(x.parent))
  }

  /** It leaves every node but `n` alone, in the part of the heap of a root `r`. */
  twostate lemma Elsewhere(r: XMLNode, new n: XMLNode, new node: XMLNode, new m: XMLNode)
    requires old(allocated(n)) && old(allocated(node)) && old(allocated(m))
    requires old(Owned(r)) && old(Owned(n)) && (r == n || n !in old(r.repr))
    requires old(node.parent) == null || node in old(n.kids)
    requires forall x :: x in old(r.repr) ==> OnlyLinked(n, node, x)
    requires m != n && m in old(r.repr)
    ensures Local(m)
  {
    forall k | k in m.kids
      ensures k.parent == old(k.parent) && k.prev == old(k.prev) && k.next == old(k.next)
              && k.repr == old(k.repr) && k.chunks == old(k.chunks)
    {
      ChildOf(r, m, k);
      if k in old(n.kids) {
        ChildOf(n, n, k);
      }
      if node in old(n.kids) {
        ChildOf(n, n, node);
      }
      assert OnlyLinked(n, node, k);
    }
    assert OnlyLinked(n, node, m);
    LocalFrame(m);
  }

  /** The reverse: the child `i` and all below it become a part of their own. */
  method Disown(n: XMLNode, child: XMLNode, ghost i: nat)
    requires Owned(n) && i < |n.kids| && n.kids[i] == child
    modifies n`firstChild, n`lastChild, n`kids, n`repr, n`chunks, n.kids`prev, n.kids`next, child`parent
    ensures Owned(n) && Owned(child) && n.repr !! child.repr && child.parent == null
    ensures n.kids == old(n.kids)[..i] + old(n.kids)[i + 1..] && child.kids == old(child.kids)
    ensures old(n.repr) == n.repr + child.repr && old(n.chunks) == n.chunks + child.chunks
    ensures child.repr == old(child.repr)
  {
    hide Nested, Tally, XMLNode.LinksOk, KidChunks, AttrChunks;
    ChildOf(n, n, child);
    n.Unlink(child, i);
    n.repr := n.repr - child.repr;
    n.chunks := n.chunks - child.chunks;
    Disowned(n, child, i);
  }

  twostate lemma Disowned(n: XMLNode, new child: XMLNode, new i: nat)
    requires old(allocated(child)) && old(Owned(n)) && i < |old(n.kids)| && old(n.kids)[i] == child
    requires forall x :: x in old(n.repr) ==> OnlyLinked(n, child, x)
    requires n.LinksOk() && n.kids == old(n.kids)[..i] + old(n.kids)[i + 1..]
    requires n.repr == old(n.repr) - child.repr && n.chunks == old(n.chunks) - child.chunks
    ensures Owned(n) && Owned(child)
    ensures old(n.repr) == n.repr + child.repr && old(n.chunks) == n.chunks + child.chunks
  {
    hide Tally, XMLNode.LinksOk, KidChunks, AttrChunks;
    forall k | k in old(n.kids) ensures k.repr == old(k.repr) && k.chunks == old(k.chunks) {
      ChildOf(n, n, k);
      assert OnlyLinked(n, child, k);
    }
    DisownNested(n, child, i);
    DisownTally(n, child, i);
    forall m | m in old(n.repr) && m != n ensures Local(m) && m.repr == old(m.repr) {
      Elsewhere(n, n, child, m);
      assert OnlyLinked(n, child, m);
    }
    ChildOf(n, n, child);
    RestOwned(n, n.repr);
    RestOwned(child, child.repr);
  }

  /** Nodes that keep to themselves form a part of the heap, if their parts nest. */
  lemma RestOwned(n: XMLNode, part: set<XMLNode>)
    requires part == n.repr && n in part
    requires forall m :: m in part ==> Local(m) && m.repr <= part
    requires forall m, x :: m in part && x in m.repr ==> x.repr <= m.repr
    ensures Owned(n)
  {
    forall m, k | m in part && k in m.kids ensures k in part {
      assert Local(m);
    }
  }

  twostate lemma DisownNested(n: XMLNode, new child: XMLNode, new i: nat)
    requires old(Nested(n)) && i < |old(n.kids)| && old(n.kids)[i] == child
    requires n.kids == old(n.kids)[..i] + old(n.kids)[i + 1..] && n.repr == old(n.repr) - child.repr
    requires forall k :: k in old(n.kids) ==> k.repr == old(k.repr)
    ensures Nested(n) && old(n.repr) == n.repr + child.repr
  {
    hide Cover, DisjointParts, Without;
    DivideFrame(old(n.kids), n, old(n.repr));
    assert child in old(n.kids) && child.repr <= old(n.repr);
    hide Divide;
    SliceWithout(old(n.kids), i);
    DropPart(old(n.kids), n.kids, n, old(n.repr), n.repr, i);
  }

  twostate lemma DivideFrame(l: seq<XMLNode>, new n: XMLNode, new whole: set<XMLNode>)
    requires old(allocated(n)) && old(allocated(whole))
    requires old(Divide(l, n, whole)) && forall k :: k in l ==> k.repr == old(k.repr)
    ensures Divide(l, n, whole)
  {
    forall j | 0 <= j < |l| ensures l[j].repr == old(l[j].repr) {
      assert l[j] in l;
    }
  }

  /** The list without its element `i`, element by element. */
  ghost predicate Without(l: seq<XMLNode>, l': seq<XMLNode>, i: nat) {
    && i < |l| && |l'| == |l| - 1
    && forall j :: 0 <= j < |l'| ==> l'[j] == l[if j < i then j else j + 1]
  }

  lemma SliceWithout(l: seq<XMLNode>, i: nat)
    requires i < |l|
    ensures Without(l, l[..i] + l[i + 1..], i)
  {
  }

  lemma DropPart(l: seq<XMLNode>, l': seq<XMLNode>, n: XMLNode, whole: set<XMLNode>, rest: set<XMLNode>, i: nat)
    requires Divide(l, n, whole) && Without(l, l', i) && rest == whole - l[i].repr
    ensures Divide(l', n, rest)
  {
    DropCover(l, l', n, whole, rest, i);
    DropDisjoint(l, l', i);
    assert n in rest by {
      hide Cover, DisjointParts;
    }
    hide Cover;
    forall j | 0 <= j < |l'| ensures l'[j] in l'[j].repr && l'[j].repr <= rest - {n} {
      var j' := if j < i then j else j + 1;
      assert l'[j] == l[j'] && l[j'].repr !! l[i].repr;
    }
  }

  lemma DropCover(l: seq<XMLNode>, l': seq<XMLNode>, n: XMLNode, whole: set<XMLNode>, rest: set<XMLNode>, i: nat)
    requires Cover(l, n, whole) && Without(l, l', i) && rest == whole - l[i].repr
    ensures Cover(l', n, rest)
  {
    forall x | x in rest && x != n ensures exists j :: 0 <= j < |l'| && x in l'[j].repr {
      var j :| 0 <= j < |l| && x in l[j].repr;
      assert l'[if j < i then j else j - 1] == l[j];
    }
  }

  lemma DropDisjoint(l: seq<XMLNode>, l': seq<XMLNode>, i: nat)
    requires DisjointParts(l) && Without(l, l', i)
    ensures DisjointParts(l')
  {
    forall j, k | 0 <= j < k < |l'| ensures l'[j].repr !! l'[k].repr {
      var j', k' := if j < i then j else j + 1, if k < i then k else k + 1;
      assert l'[j] == l[j'] && l'[k] == l[k'] && l[j'].repr !! l[k'].repr;
    }
  }

  twostate lemma DisownTally(n: XMLNode, new child: XMLNode, new i: nat)
    requires old(Tally(n)) && i < |old(n.kids)| && old(n.kids)[i] == child && n.attrs == old(n.attrs)
    requires n.kids == old(n.kids)[..i] + old(n.kids)[i + 1..] && n.chunks == old(n.chunks) - child.chunks
    requires forall k :: k in old(n.kids) ==> k.chunks == old(k.chunks)
    ensures Tally(n) && old(n.chunks) == n.chunks + child.chunks
  {
    hide KidChunks, AttrChunks;
    KidChunksFrame(old(n.kids));
    KidChunksWithout(old(n.kids), i);
    TakeBack(OwnChunk(n.kind, n.mem) + AttrChunks(n.attrs), KidChunks(n.kids), child.chunks);
  }

  lemma TakeBack<T>(a: multiset<T>, b: multiset<T>, c: multiset<T>)
    ensures a + (b + c) - c == a + b && a + b + c == a + (b + c)
  {
  }

  lemma {:induction false} KidChunksWithout(l: seq<XMLNode>, i: nat)
    requires i < |l|
    ensures KidChunks(l) == KidChunks(l[..i] + l[i + 1..]) + l[i].chunks
  {
    if i == 0 {
      assert l[..0] + l[1..] == l[1..];
    } else {
      assert (l[..i] + l[i + 1..])[1..] == l[1..][..i - 1] + l[1..][i..];
      KidChunksWithout(l[1..], i - 1);
    }
  }

  /** What a node may do to its own attributes and strings. */
  twostate predicate OnlyOwnFields(n: XMLNode, new x: XMLNode)
    requires old(allocated(x))
    reads x
  {
    && x.firstChild == old(x.firstChild) && x.lastChild == old(x.lastChild) && x.kids == old(x.kids)
    && x.repr == old(x.repr) && x.prev == old(x.prev) && x.next == old(x.next) && x.parent == old(x.parent)
    && (x != n ==> x.chunks == old(x.chunks) && x.attrs == old(x.attrs))
  }

  /** Chunks other than those of the attributes. */
  ghost function OtherChunks(n: XMLNode): multiset<Chunk>
    reads n`kids, n.kids`chunks
  {
    OwnChunk(n.kind, n.mem) + KidChunks(n.kids)
  }

  lemma SplitChunks(n: XMLNode)
    requires Owned(n)
    ensures n.chunks == AttrChunks(n.attrs) + OtherChunks(n)
  {
    assert Local(n);
  }

  /** It may change them if its chunks follow. */
  twostate lemma OwnFields(n: XMLNode)
    requires old(Owned(n)) && n.chunks == AttrChunks(n.attrs) + old(OtherChunks(n))
    requires forall x :: x in old(n.repr) ==> OnlyOwnFields(n, x)
    ensures Owned(n)
  {
    hide Divide, XMLNode.LinksOk, KidChunks, AttrChunks;
    forall k | k in n.kids ensures k.chunks == old(k.chunks) && k in n.repr && k != n {
      ChildOf(n, n, k);
      assert OnlyOwnFields(n, k);
    }
    assert OnlyOwnFields(n, n);
    KidChunksFrame(n.kids);
    forall m | m in n.repr ensures Local(m) && m.repr == old(m.repr) && m.kids == old(m.kids) {
      assert OnlyOwnFields(n, m);
      forall k | k in m.kids
        ensures k.parent == old(k.parent) && k.prev == old(k.prev) && k.next == old(k.next)
                && k.repr == old(k.repr) && k.chunks == old(k.chunks)
      {
        ChildOf(n, m, k);
        assert OnlyOwnFields(n, k);
      }
      if m == n {
        LinksFrame(n);
        DivideFrame(n.kids, n, n.repr);
      } else {
        LocalFrame(m);
      }
    }
  }

  lemma LoneOwned(n: XMLNode)
    requires n.LinksOk() && n.kids == [] && n.repr == {n} && Tally(n)
    ensures Owned(n)
  {
  }

  lemma NoChildren(n: XMLNode)
    requires Owned(n) && n.firstChild == null
    ensures n.kids == [] && n.repr == {n}
  {
    assert Local(n);
  }

  lemma FirstChildIs(n: XMLNode)
    requires Owned(n) && n.firstChild != null
    ensures n.kids != [] && n.kids[0] == n.firstChild
    ensures n.kids[0].repr <= n.repr - {n} && n in n.repr && forall k :: k in n.kids ==> k in n.repr
  {
    assert Local(n);
  }

  lemma ChildIn(n: XMLNode, i: nat)
    requires Owned(n) && i < |n.kids|
    ensures n.kids[i] in n.kids && n.kids[i] in n.repr && n.kids[i] != n
    ensures n.kids[i].repr <= n.repr - {n} && n in n.repr && forall k :: k in n.kids ==> k in n.repr
  {
    assert Local(n) && n.kids[i] in n.kids;
  }

  lemma LoneChunks(n: XMLNode)
    requires Owned(n) && n.kids == [] && n.attrs == []
    ensures n.chunks == OwnChunk(n.kind, n.mem)
  {
    assert Local(n);
  }

  lemma InPart(n: XMLNode)
    requires Owned(n)
    ensures n in n.repr
  {
  }

  lemma {:induction false} RawAttrsAt(attrs: seq<AttrCell>, k: nat)
    ensures |RawAttrs(attrs)| == |attrs|
    ensures k < |attrs| ==> RawAttrs(attrs)[k] == RawAttr(SpanOf(attrs[k].name), SpanOf(attrs[k].value))
  {
    if attrs != [] {
      RawAttrsAt(attrs[1..], if k == 0 then 0 else k - 1);
    }
  }

  lemma {:induction false} RawAttrsSnoc(attrs: seq<AttrCell>, x: AttrCell)
    ensures RawAttrs(attrs + [x]) == RawAttrs(attrs) + [RawAttr(SpanOf(x.name), SpanOf(x.value))]
  {
    if attrs == [] {
      assert attrs + [x] == [x];
    } else {
      assert (attrs + [x])[1..] == attrs[1..] + [x];
      RawAttrsSnoc(attrs[1..], x);
    }
  }

  lemma {:induction false} AttrChunksSame(l: seq<AttrCell>, l': seq<AttrCell>)
    requires |l| == |l'| && forall k :: 0 <= k < |l| ==> l[k].mem == l'[k].mem
    ensures AttrChunks(l) == AttrChunks(l')
  {
    if l != [] {
      AttrChunksSame(l[1..], l'[1..]);
    }
  }

  /** What reading a string of `m` may change: pairs of `m`, which stay where they are. */
  twostate predicate OnlyRead(m: XMLNode, new x: XMLNode)
    requires old(allocated(x))
    reads x
  {
    && x.firstChild == old(x.firstChild) && x.lastChild == old(x.lastChild) && x.kids == old(x.kids)
    && x.repr == old(x.repr) && x.prev == old(x.prev) && x.next == old(x.next) && x.parent == old(x.parent)
    && x.chunks == old(x.chunks) && x.tree == old(x.tree) && x.closingType == old(x.closingType)
    && (x != m ==> x.attrs == old(x.attrs) && x.value == old(x.value))
  }

  /** The attributes after such a change. */
  ghost predicate SameCells(l: seq<AttrCell>, l': seq<AttrCell>) {
    |l| == |l'| && forall k :: 0 <= k < |l| ==>
      l[k].mem == l'[k].mem && SpanOf(l[k].name) == SpanOf(l'[k].name) && SpanOf(l[k].value) == SpanOf(l'[k].value)
  }

  lemma {:induction false} SameRawAttrs(l: seq<AttrCell>, l': seq<AttrCell>)
    requires SameCells(l, l')
    ensures RawAttrs(l) == RawAttrs(l')
  {
    if l != [] {
      SameRawAttrs(l[1..], l'[1..]);
    }
  }

  twostate lemma ReadOwned(n: XMLNode, new m: XMLNode)
    requires old(allocated(m)) && old(Owned(n)) && m in old(n.repr) && SameCells(old(m.attrs), m.attrs)
    requires forall x :: x in old(n.repr) ==> OnlyRead(m, x)
    ensures Owned(n)
  {
    hide Divide, XMLNode.LinksOk, KidChunks, AttrChunks;
    AttrChunksSame(old(m.attrs), m.attrs);
    assert OnlyRead(m, n);
    forall x | x in n.repr ensures Local(x) && x.repr == old(x.repr) && x.kids == old(x.kids) {
      assert OnlyRead(m, x);
      forall k | k in x.kids
        ensures k.parent == old(k.parent) && k.prev == old(k.prev) && k.next == old(k.next)
                && k.repr == old(k.repr) && k.chunks == old(k.chunks)
      {
        ChildOf(n, x, k);
        assert OnlyRead(m, k);
      }
      if x == m {
        LinksFrame(m);
        DivideFrame(m.kids, m, m.repr);
        KidChunksFrame(m.kids);
      } else {
        LocalFrame(x);
      }
    }
  }

  twostate lemma ReadShaped(n: XMLNode, new m: XMLNode)
    requires old(allocated(m)) && n in old(n.repr) && old(Shaped(n)) && SameCells(old(m.attrs), m.attrs)
    requires SpanOf(m.value) == old(SpanOf(m.value))
    requires forall x :: x in old(n.repr) ==> OnlyRead(m, x)
    ensures Shaped(n)
  {
    hide RawAttrs;
    SameRawAttrs(old(m.attrs), m.attrs);
    assert OnlyRead(m, n);
    forall x | x in n.repr ensures (forall k :: k in x.kids ==> k in n.repr) && Shape(x) {
      assert OnlyRead(m, x) && old(Shape(x));
      forall k | k in old(x.kids) ensures k.tree == old(k.tree) {
        assert OnlyRead(m, k);
      }
    }
  }
}
