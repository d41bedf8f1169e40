/**
 The early log of the UART: a ring that keeps the newest bytes until the port can be
 used, and is then emptied into it by every further byte.
 */
module Uart {
  import opened Bytes

  const BUF_SIZE: nat := 4096

  /**
   The history behind the ring: `stream` is the byte that stands in the ring at first,
   followed by all bytes put; the first `got` of them were sent or dropped; `sent` is what
   the port received. The newest byte is never sent at once: it waits for the next one.
   */
  datatype Log = Log(stream: bytes, got: nat, sent: bytes)

  const EMPTY_LOG := Log([0], 0, [])

  ghost predicate LogOk(l: Log) {
    |l.stream| >= 1 && l.got <= |l.stream| - 1 <= l.got + (BUF_SIZE - 1)
  }

  /** The bytes that wait in the ring. */
  function Pending(l: Log): bytes
    requires l.got <= |l.stream| - 1
  {
    l.stream[l.got..|l.stream| - 1]
  }

  /** The last `n` bytes of `s`, or all. */
  function Newest(s: bytes, n: nat): bytes {
    if |s| <= n then s else s[|s| - n..]
  }

  /** One call of `uart_putc`; `ready` says that the port can be used. */
  function Put(l: Log, c: byte, ready: bool): (r: Log)
    requires LogOk(l)
    ensures LogOk(r)
  {
    var stream := l.stream + [c];
    var got := if |stream| - 1 == l.got + BUF_SIZE then l.got + 1 else l.got;
    if ready then Log(stream, |stream| - 1, l.sent + stream[got..|stream| - 1])
    else Log(stream, got, l.sent)
  }

  function PutAll(l: Log, cs: bytes, ready: bool): (r: Log)
    requires LogOk(l)
    ensures LogOk(r)
    decreases |cs|
  {
    if cs == [] then l else PutAll(Put(l, cs[0], ready), cs[1..], ready)
  }

  class EarlyLog {
    const buf: array<byte>
    var putIdx: nat
    var getIdx: nat
    var mmioBase: nat       // 0 until the port is mapped
    var sent: bytes         // what was written to the transmit register
    ghost var stream: bytes
    ghost var got: nat

    constructor ()
      ensures Valid() && History() == EMPTY_LOG && mmioBase == 0 && fresh(buf)
    {
      buf := new byte[BUF_SIZE](_ => 0);
      putIdx, getIdx, mmioBase := 0, 0, 0;
      sent, stream, got := [], [0], 0;
    }

    ghost function History(): Log
      reads this
    {
      Log(stream, got, sent)
    }

    /** The ring holds the last BUF_SIZE bytes of the stream, each at its place modulo BUF_SIZE. */
    ghost predicate Valid()
      reads this, buf
    {
      && buf.Length == BUF_SIZE && LogOk(History())
      && putIdx == (|stream| - 1) % BUF_SIZE && getIdx == got % BUF_SIZE
      && Ring(buf[..], stream)
    }

    static ghost predicate Ring(b: bytes, stream: bytes) {
      |b| == BUF_SIZE && forall k :: 0 <= k < |stream| && |stream| <= k + BUF_SIZE ==> b[k % BUF_SIZE] == stream[k]
    }

    /** `uart_putc`. */
    method Putc(c: byte)
      requires Valid()
      modifies this, buf
      ensures Valid() && mmioBase == old(mmioBase)
      ensures History() == Put(old(History()), c, mmioBase != 0)
    {
      Meet(|stream|, got);
      Store(c);
      if putIdx == getIdx {
        NextIndex(got);
        getIdx := getIdx + 1;
        getIdx := getIdx % BUF_SIZE;
        got := got + 1;
      }
      if mmioBase == 0 {
        return;
      }
      Drain();
    }

    /** `buf[++put_idx % BUF_SIZE] = c`. */
    method Store(c: byte)
      requires Valid()
      modifies `putIdx, `stream, buf
      ensures stream == old(stream) + [c] && Ring(buf[..], stream) && putIdx == (|stream| - 1) % BUF_SIZE
    {
      hide Ring;
      NextIndex(|stream| - 1);
      RingStored(buf[..], stream, c);
      putIdx := putIdx + 1;
      putIdx := putIdx % BUF_SIZE;
      buf[putIdx] := c;
      assert buf[..] == old(buf[..])[putIdx := c];
      stream := stream + [c];
    }

    /** The loop over the transmit register. */
    method Drain()
      requires Valid()
      modifies `getIdx, `got, `sent
      ensures Valid() && got == |stream| - 1 && sent == old(sent) + stream[old(got)..got]
    {
      hide Ring;
      while putIdx != getIdx
        invariant Valid() && old(got) <= got && sent == old(sent) + stream[old(got)..got]
        decreases |stream| - got
      {
        Meet(|stream| - 1, got);
        RingAt(buf[..], stream, got);
        NextIndex(got);
        assert stream[old(got)..got + 1] == stream[old(got)..got] + [stream[got]];
        ConcatAssoc(old(sent), stream[old(got)..got], [stream[got]]);
        sent := sent + [buf[getIdx]];
        getIdx := getIdx + 1;
        getIdx := getIdx % BUF_SIZE;
        got := got + 1;
      }
      Meet(|stream| - 1, got);
    }

    static lemma RingAt(b: bytes, stream: bytes, k: nat)
      requires Ring(b, stream) && k < |stream| <= k + BUF_SIZE
      ensures b[k % BUF_SIZE] == stream[k]
    {
    }

    static lemma RingStored(b: bytes, stream: bytes, c: byte)
      requires Ring(b, stream)
      ensures Ring(b[|stream| % BUF_SIZE := c], stream + [c])
    {
      var b', s' := b[|stream| % BUF_SIZE := c], stream + [c];
      forall k | 0 <= k < |s'| && |s'| <= k + BUF_SIZE ensures b'[k % BUF_SIZE] == s'[k] {
        Meet(|stream|, k);
      }
    }

    static lemma NextIndex(n: nat)
      ensures (n % BUF_SIZE + 1) % BUF_SIZE == (n + 1) % BUF_SIZE
    {
    }

    /** Two positions less than two rounds apart share a place only if they are equal or one round apart. */
    static lemma Meet(p: nat, g: nat)
      ensures g <= p <= g + BUF_SIZE ==> (p % BUF_SIZE == g % BUF_SIZE <==> p == g || p == g + BUF_SIZE)
    {
    }
  }

  // ------------------------------------------------------------ runs

  /** What waits is the newest part of the stream in front of the last byte, oldest bytes dropped first. */
  ghost predicate KeepsNewest(l: Log) {
    LogOk(l) && Pending(l) == Newest(l.stream[..|l.stream| - 1], BUF_SIZE - 1)
  }

  /** Before the port can be used, nothing is sent and only the newest bytes are kept. */
  lemma {:induction false} EarlyRun(l: Log, cs: bytes)
    requires LogOk(l) && (l.got == 0 || |l.stream| - 1 == l.got + (BUF_SIZE - 1))
    ensures var r := PutAll(l, cs, false);
            r.stream == l.stream + cs && r.sent == l.sent && KeepsNewest(r)
            && (r.got == 0 || |r.stream| - 1 == r.got + (BUF_SIZE - 1))
    decreases |cs|
  {
    if cs == [] {
      ConcatEmpty(l.stream);
      assert KeepsNewest(l);
    } else {
      EarlyRun(Put(l, cs[0], false), cs[1..]);
      assert l.stream + [cs[0]] + cs[1..] == l.stream + cs;
    }
  }

  /** From the start: nothing is sent, and the last 4095 bytes wait that were put before the newest one. */
  lemma EarlyBytes(early: bytes)
    ensures var r := PutAll(EMPTY_LOG, early, false);
            var before := ([0] + early)[..|early|];
            && r.sent == []
            && Pending(r) == if |before| <= 4095 then before else before[|before| - 4095..]
  {
    EarlyRun(EMPTY_LOG, early);
  }

  /** Once it can, every byte put sends the one before it; `all` is the stream in the end. */
  lemma {:induction false} LateRun(l: Log, cs: bytes, all: bytes)
    requires LogOk(l) && l.got == |l.stream| - 1 && all == l.stream + cs
    ensures PutAll(l, cs, true) == Log(all, |all| - 1, l.sent + all[l.got..|all| - 1])
    decreases |cs|
  {
    if cs == [] {
      ConcatEmpty(l.stream);
      ConcatEmpty(l.sent);
    } else {
      var next := Put(l, cs[0], true);
      assert all == next.stream + cs[1..];
      LateRun(next, cs[1..], all);
      assert next.sent == l.sent + [all[l.got]];
      assert all[l.got..|all| - 1] == [all[l.got]] + all[next.got..|all| - 1];
    }
  }

  /**
   The whole life of the log: bytes put `early`, then, with the port in use, at least one
   `late`. The port gets the newest early bytes, behind a zero if none was dropped, and
   all late ones in order but the last.
   */
  lemma WhatThePortReceives(early: bytes, late: bytes)
    requires late != []
    ensures var all := [0] + early;
            PutAll(PutAll(EMPTY_LOG, early, false), late, true).sent
            == (if |all| <= 4095 then all else all[|all| - 4095..]) + late[..|late| - 1]
  {
    EarlyRun(EMPTY_LOG, early);
    LateBytes(PutAll(EMPTY_LOG, early, false), late);
  }

  lemma LateBytes(l: Log, late: bytes)
    requires LogOk(l) && l.sent == [] && (l.got == 0 || |l.stream| - 1 == l.got + (BUF_SIZE - 1)) && late != []
    ensures PutAll(l, late, true).sent == Newest(l.stream, BUF_SIZE - 1) + late[..|late| - 1]
  {
    hide *;
    var all := l.stream + late;
    FirstLate(l, late[0]);
    PutFirst(l, late);
    Tails(l.stream, late, all);
    LateRun(Put(l, late[0], true), late[1..], all);
  }

  lemma PutFirst(l: Log, cs: bytes)
    requires LogOk(l) && cs != []
    ensures PutAll(l, cs, true) == PutAll(Put(l, cs[0], true), cs[1..], true)
  {
  }

  lemma Tails(s: bytes, late: bytes, all: bytes)
    requires late != [] && all == s + late
    ensures all == (s + [late[0]]) + late[1..] && all[|s|..|all| - 1] == late[..|late| - 1]
  {
  }

  /** The first byte put with the port in use sends all that has waited. */
  lemma FirstLate(l: Log, c: byte)
    requires LogOk(l) && l.sent == [] && (l.got == 0 || |l.stream| - 1 == l.got + (BUF_SIZE - 1))
    ensures var r := Put(l, c, true);
            r.stream == l.stream + [c] && r.got == |r.stream| - 1 && r.sent == Newest(l.stream, BUF_SIZE - 1)
  {
    var r := Put(l, c, true);
    assert r.stream[..|r.stream| - 1] == l.stream;
    ConcatEmpty(r.sent);
  }
}
