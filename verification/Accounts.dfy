/**
 The books of the pools: equations between the chunks in use and the chunks of a node,
 before and after a step. Each side is a multiset, so that nothing is counted twice.
 */
module Accounts {
  import opened Nodes

  lemma Balance(l0: multiset<Chunk>, c0: multiset<Chunk>, l1: multiset<Chunk>, c1: multiset<Chunk>,
                       l2: multiset<Chunk>, c2: multiset<Chunk>)
    requires l0 + c1 == l1 + c0 && l1 + c2 == l2 + c1
    ensures l0 + c2 == l2 + c0
  {
    forall c ensures (l0 + c2)[c] == (l2 + c0)[c] {
      assert (l0 + c1)[c] == (l1 + c0)[c] && (l1 + c2)[c] == (l2 + c1)[c];
    }
  }

  lemma Settle(l0: multiset<Chunk>, c0: multiset<Chunk>, l1: multiset<Chunk>, l2: multiset<Chunk>,
                      c2: multiset<Chunk>, c: multiset<Chunk>)
    requires l1 == l0 + c && l1 + c2 == l2 + c0 + c
    ensures l0 + c2 == l2 + c0
  {
    forall x ensures (l0 + c2)[x] == (l2 + c0)[x] {
      assert (l1 + c2)[x] == (l2 + c0 + c)[x];
    }
  }

  lemma Grow(l0: multiset<Chunk>, c0: multiset<Chunk>, l1: multiset<Chunk>, c1: multiset<Chunk>,
                    c: multiset<Chunk>)
    requires l0 + c1 == l1 + c0 && c1 <= l1
    ensures l0 + (c1 + c) == (l1 + c) + c0 && c1 + c <= l1 + c
  {
    forall x ensures (l0 + (c1 + c))[x] == (l1 + c + c0)[x] {
      assert (l0 + c1)[x] == (l1 + c0)[x];
    }
  }

  lemma ChildFreed(l0: multiset<Chunk>, c0: multiset<Chunk>, l1: multiset<Chunk>, c1: multiset<Chunk>,
                          c: multiset<Chunk>)
    requires l0 == l1 + c && c0 == c1 + c && c0 <= l0
    ensures c1 <= l1 && l0 + c1 == l1 + c0
  {
    assert forall x :: c1[x] + c[x] == c0[x] <= l0[x] == l1[x] + c[x];
  }

  lemma FreedLast(l0: multiset<Chunk>, c0: multiset<Chunk>, l2: multiset<Chunk>, c: Chunk)
    requires l0 + multiset{c} == (l2 + multiset{c}) + c0
    ensures l0 == l2 + c0
  {
    forall x ensures l0[x] == (l2 + c0)[x] {
      assert (l0 + multiset{c})[x] == (l2 + multiset{c} + c0)[x];
    }
  }

  lemma Emptied(l: multiset<Chunk>, c: multiset<Chunk>, l0: multiset<Chunk>)
    requires l0 + c == l + l0 && c == multiset{}
    ensures l == multiset{}
  {
    forall x ensures l[x] == 0 {
      assert (l0 + c)[x] == (l + l0)[x];
    }
  }

  lemma FrontFreed(l: multiset<Chunk>, c: Chunk, rest: multiset<Chunk>)
    requires multiset{c} + rest <= l
    ensures c in l && rest <= l - multiset{c}
    ensures l + rest == (l - multiset{c}) + (multiset{c} + rest)
  {
    assert forall x :: (multiset{c} + rest)[x] <= l[x];
  }

  lemma SameRest(l0: multiset<Chunk>, l: multiset<Chunk>, m: multiset<Chunk>, c: multiset<Chunk>)
    requires l0 == l + c && l0 == m + c
    ensures l == m
  {
    forall x ensures l[x] == m[x] {
      assert (l + c)[x] == (m + c)[x];
    }
  }
}
