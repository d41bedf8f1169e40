/**
 `DynArray`: a growing array that starts in a pool of `init` elements.
 */
module DynArrays {

  function Max(m: nat, n: nat): nat {
    if m < n then n else m
  }

  class DynArray<T(0)> {
    var mem: array<T>
    var capacity: nat       // objects allocated
    var size: nat           // number of objects in use
    ghost var copied: nat   // elements copied by all growths so far
    ghost var peak: nat     // the largest size reached

    /** All growths together have copied fewer than twice as many elements as `most`. */
    ghost predicate Bounded(most: nat)
      reads this
    {
      && mem.Length == capacity && size <= capacity && size <= most
      && (copied == 0 || (copied < capacity <= 2 * most))
    }

    ghost predicate Valid()
      reads this
    {
      Bounded(peak)
    }

    /** The sequence that the array stands for. */
    ghost function Contents(): seq<T>
      reads this, mem
      requires Valid()
    {
      mem[..size]
    }

    constructor (init: nat)
      ensures Valid() && fresh(mem) && Contents() == [] && copied == 0 && peak == 0 && capacity == init
    {
      mem := new T[init];
      capacity := init;
      size := 0;
      copied, peak := 0, 0;
    }

    /** Doubles the wanted capacity when it is not there yet. */
    method EnsureCapacity(cap: nat)
      requires Valid() && size <= cap
      modifies `mem, `capacity, `copied
      ensures Bounded(Max(peak, cap)) && cap <= capacity && mem[..size] == old(Contents())
      ensures mem == old(mem) || fresh(mem)
      ensures copied == old(copied) + if cap > old(capacity) then size else 0
      ensures capacity == if cap > old(capacity) then 2 * cap else old(capacity)
    {
      if cap > capacity {
        var newCapacity := cap * 2;
        var newMem := new T[newCapacity];
        var i := 0;
        while i < size
          invariant 0 <= i <= size && newMem[..i] == mem[..i]
          modifies newMem
        {
          newMem[i] := mem[i];
          i := i + 1;
        }
        copied := copied + size;
        mem := newMem;
        capacity := newCapacity;
      }
    }

    method Push(t: T)
      requires Valid()
      modifies this, mem
      ensures Valid() && Contents() == old(Contents()) + [t] && (mem == old(mem) || fresh(mem))
      ensures peak == Max(old(peak), size) && copied >= old(copied)
    {
      EnsureCapacity(size + 1);
      mem[size] := t;
      size := size + 1;
      peak := Max(peak, size);
    }

    /** Makes room for `count` elements, still unwritten, and gives the place of the first. */
    method PushArr(count: nat) returns (ret: nat)
      requires Valid()
      modifies this
      ensures Valid() && (mem == old(mem) || fresh(mem))
      ensures ret == old(size) && size == ret + count && mem[..ret] == old(Contents())
      ensures peak == Max(old(peak), size) && copied >= old(copied)
    {
      EnsureCapacity(size + count);
      ret := size;
      size := size + count;
      peak := Max(peak, size);
    }

    method Pop() returns (t: T)
      requires Valid() && size > 0
      modifies `size
      ensures Valid() && mem == old(mem) && old(Contents()) == Contents() + [t]
    {
      size := size - 1;
      t := mem[size];
    }

    method Apply(op: Op<T>)
      requires Valid() && (op.DoPop? ==> size > 0)
      modifies this, mem
      ensures Valid() && (mem == old(mem) || fresh(mem))
      ensures size == NextSize(old(size), op) && peak == Max(old(peak), size) && copied >= old(copied)
    {
      match op {
        case DoPush(t) => Push(t);
        case DoPushArr(count) => var _ := PushArr(count);
        case DoPop => var _ := Pop();
      }
    }

    /**
     Any run of the operations: the array goes through the sizes that they give it, and
     all growths of a new array together copy fewer than twice as many elements as it
     held at its largest.
     */
    method Run(ops: seq<Op<T>>)
      requires Valid() && Legal(size, ops)
      modifies this, mem
      ensures Valid() && (mem == old(mem) || fresh(mem))
      ensures size == SizeAfter(old(size), ops) && peak == Max(old(peak), Largest(old(size), ops))
      ensures copied >= old(copied) && (copied == 0 || copied < 2 * peak)
    {
      var k := 0;
      while k < |ops|
        invariant k <= |ops| && Valid() && (mem == old(mem) || fresh(mem)) && Legal(size, ops[k..])
        invariant SizeAfter(size, ops[k..]) == SizeAfter(old(size), ops) && copied >= old(copied)
        invariant Max(peak, Largest(size, ops[k..])) == Max(old(peak), Largest(old(size), ops))
      {
        hide Bounded, Legal, SizeAfter, Largest;
        RunStep(size, ops[k..], ops[k], ops[k + 1..]);
        Apply(ops[k]);
        k := k + 1;
      }
      assert ops[k..] == [];
    }
  }

  // ------------------------------------------------------------ runs

  datatype Op<T> = DoPush(t: T) | DoPushArr(count: nat) | DoPop

  function NextSize<T>(n: nat, op: Op<T>): nat {
    match op
    case DoPush(_) => n + 1
    case DoPushArr(count) => n + count
    case DoPop => if n == 0 then 0 else n - 1
  }

  function SizeAfter<T>(n: nat, ops: seq<Op<T>>): nat
    decreases |ops|
  {
    if ops == [] then n else SizeAfter(NextSize(n, ops[0]), ops[1..])
  }

  /** The largest of the sizes on the way. */
  function Largest<T>(n: nat, ops: seq<Op<T>>): (most: nat)
    ensures n <= most
    decreases |ops|
  {
    if ops == [] then n else Max(n, Largest(NextSize(n, ops[0]), ops[1..]))
  }

  /** Nothing is popped from an empty array. */
  predicate Legal<T>(n: nat, ops: seq<Op<T>>)
    decreases |ops|
  {
    ops == [] || ((ops[0].DoPop? ==> n > 0) && Legal(NextSize(n, ops[0]), ops[1..]))
  }

  lemma RunStep<T>(n: nat, ops: seq<Op<T>>, op: Op<T>, rest: seq<Op<T>>)
    requires Legal(n, ops) && ops == [op] + rest
    ensures (op.DoPop? ==> n > 0) && Legal(NextSize(n, op), rest)
    ensures SizeAfter(n, ops) == SizeAfter(NextSize(n, op), rest)
    ensures Largest(n, ops) == Max(n, Largest(NextSize(n, op), rest)) && NextSize(n, op) <= Largest(NextSize(n, op), rest)
  {
    assert ops[1..] == rest;
  }

  /** `n` pushes on a new array copy fewer than `2 * n` elements in all. */
  method PushAll<T(0)>(init: nat, ts: seq<T>) returns (a: DynArray<T>)
    ensures fresh(a) && a.Valid() && a.Contents() == ts
    ensures a.copied == 0 || a.copied < 2 * |ts|
  {
    a := new DynArray<T>(init);
    var k := 0;
    while k < |ts|
      invariant k <= |ts| && fresh(a) && fresh(a.mem) && a.Valid() && a.Contents() == ts[..k] && a.peak == k
    {
      assert ts[..k + 1] == ts[..k] + [ts[k]];
      a.Push(ts[k]);
      k := k + 1;
    }
    assert ts[..k] == ts;
  }
}
