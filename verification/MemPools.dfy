/**
 `MemPoolT`: blocks of COUNT chunks with a free list threaded through the free chunks.
 An address is a positive number, chunk `i` of block `b` being `b * COUNT + i + 1`;
 0 is the null pointer.
 */
module MemPools {

  type Address = nat

  class MemPool {
    const count: nat                  // COUNT, 1024 / SIZE
    var root: Address                 // the first free chunk
    var next: map<Address, Address>   // the `next` word of every chunk that was ever free
    var blocks: nat                   // blockPtrs.Size()
    var currentAllocs: nat
    var nAllocs: nat
    var maxAllocs: nat
    ghost var free: seq<Address>      // the free list
    ghost var live: set<Address>      // the chunks handed out

    ghost predicate Valid()
      reads this
    {
      && count >= 1
      && IsList(root, next, free) && Distinct(free)
      && (forall a :: a in live ==> a !in free)
      && (forall a :: 1 <= a <= count * blocks <==> a in live || a in free)
      && currentAllocs == |live| && currentAllocs + |free| == count * blocks
      && currentAllocs <= maxAllocs && currentAllocs <= nAllocs
    }

    /** Following `next` from `a` visits `l` and then meets the null pointer. */
    static ghost predicate IsList(a: Address, next: map<Address, Address>, l: seq<Address>)
      decreases |l|
    {
      if l == [] then a == 0
      else a == l[0] && a != 0 && a in next && IsList(next[a], next, l[1..])
    }

    /** No chunk comes twice: the list has no cycle. */
    static ghost predicate Distinct(l: seq<Address>) {
      forall j, k :: 0 <= j < k < |l| ==> l[j] != l[k]
    }

    constructor (size: nat)
      requires 1 <= size <= 1024
      ensures Valid() && live == {} && count == 1024 / size
      ensures free == [] && blocks == nAllocs == maxAllocs == currentAllocs == 0
    {
      count := 1024 / size;
      root, next, blocks := 0, map[], 0;
      currentAllocs, nAllocs, maxAllocs := 0, 0, 0;
      free, live := [], {};
    }

    /** The chunks of block `b`, in order. */
    ghost function NewChunks(b: nat): seq<Address> {
      seq(count, i requires 0 <= i < count => count * b + 1 + i)
    }

    /** Takes the first free chunk, from a new block if and only if there is none. */
    method Alloc() returns (result: Address)
      requires Valid()
      modifies this
      ensures Valid() && result != 0
      ensures result !in old(live) && live == old(live) + {result}
      ensures old(free) != [] ==> [result] + free == old(free) && blocks == old(blocks)
      ensures old(free) == [] ==>
        && blocks == old(blocks) + 1 && [result] + free == NewChunks(old(blocks)) && |free| == count - 1
      ensures nAllocs == old(nAllocs) + 1
      ensures maxAllocs == if currentAllocs > old(maxAllocs) then currentAllocs else old(maxAllocs)
    {
      hide Distinct, NewChunks;
      if root == 0 {
        NewBlock();
      }
      result := TakeFirst();
    }

    method TakeFirst() returns (result: Address)
      requires Valid() && free != []
      modifies `root, `live, `free, `currentAllocs, `maxAllocs, `nAllocs
      ensures Valid() && result != 0 && [result] + free == old(free)
      ensures result !in old(live) && live == old(live) + {result}
      ensures nAllocs == old(nAllocs) + 1
      ensures maxAllocs == if currentAllocs > old(maxAllocs) then currentAllocs else old(maxAllocs)
    {
      result := root;
      Taken(live, free);
      hide Distinct;
      root := next[root];
      live := live + {result};
      free := free[1..];
      currentAllocs := currentAllocs + 1;
      if currentAllocs > maxAllocs {
        maxAllocs := currentAllocs;
      }
      nAllocs := nAllocs + 1;
    }

    /** The first free chunk becomes a live one. */
    static lemma Taken(live: set<Address>, free: seq<Address>)
      requires free != [] && Distinct(free) && forall a :: a in live ==> a !in free
      ensures Distinct(free[1..]) && free[0] !in live && |live + {free[0]}| == |live| + 1
      ensures forall a :: a in live + {free[0]} ==> a !in free[1..]
      ensures forall a :: a in live || a in free <==> a in live + {free[0]} || a in free[1..]
    {
      assert free == [free[0]] + free[1..];
    }

    /** Links the chunks of a new block in order. */
    method NewBlock()
      requires Valid() && root == 0
      modifies this
      ensures Valid() && live == old(live) && free != []
      ensures free == NewChunks(old(blocks)) && blocks == old(blocks) + 1
      ensures nAllocs == old(nAllocs) && maxAllocs == old(maxAllocs) && currentAllocs == old(currentAllocs)
    {
      var base: Address := count * blocks + 1;
      var m: map<Address, Address>;
      ghost var l: seq<Address>;
      m, l := LinkChunks(base);
      BlockIsNew(base, l, live);
      next, root, free := m, base, l;
      blocks := blocks + 1;
    }

    method LinkChunks(base: Address) returns (m: map<Address, Address>, ghost l: seq<Address>)
      requires count >= 1 && base >= 1
      ensures IsList(base, m, l) && IsRun(base, l)
    {
      m := next[base + count - 1 := 0];
      l := [base + count - 1];
      var i := count - 1;
      while i > 0
        invariant 0 <= i < count && |l| == count - i
        invariant forall k :: 0 <= k < |l| ==> l[k] == base + i + k
        invariant IsList(base + i, m, l)
      {
        i := i - 1;
        ListFrame(base + i + 1, m, base + i, base + i + 1, l);
        m := m[base + i := base + i + 1];
        l := [base + i] + l;
      }
    }

    /** The chunks of one block, in order. */
    ghost predicate IsRun(base: Address, l: seq<Address>) {
      |l| == count && forall k :: 0 <= k < |l| ==> l[k] == base + k
    }

    lemma BlockIsNew(base: Address, l: seq<Address>, live: set<Address>)
      requires count >= 1 && base == count * blocks + 1 && IsRun(base, l)
      requires forall a :: 1 <= a < base <==> a in live
      ensures count * (blocks + 1) == base - 1 + |l|
      ensures Distinct(l) && (forall a :: a in live ==> a !in l)
      ensures forall a :: 1 <= a <= base - 1 + |l| <==> a in live || a in l
    {
      forall a ensures a in l <==> base <= a < base + count {
        if base <= a < base + count {
          assert l[a - base] == a;
        }
      }
    }

    /** Writing the `next` word of a chunk that is not in the list leaves the list alone. */
    static lemma ListFrame(a: Address, next: map<Address, Address>, b: Address, x: Address, l: seq<Address>)
      requires IsList(a, next, l) && b !in l
      ensures IsList(a, next[b := x], l)
      decreases |l|
    {
      if l != [] {
        ListFrame(next[a], next, b, x, l[1..]);
      }
    }

    /** Gives a chunk back; it becomes the first free one. */
    method Free(mem: Address)
      requires Valid() && (mem == 0 || mem in live)
      modifies this
      ensures Valid() && live == old(live) - {mem}
      ensures mem != 0 ==> root == mem && free == [mem] + old(free)
      ensures mem == 0 ==> free == old(free)
      ensures blocks == old(blocks) && nAllocs == old(nAllocs) && maxAllocs == old(maxAllocs)
    {
      if mem == 0 {
        assert 0 !in live;
        return;
      }
      currentAllocs := currentAllocs - 1;
      ListFrame(root, next, mem, root, free);
      next := next[mem := root];
      root := mem;
      free := [mem] + free;
      live := live - {mem};
    }
  }
}
