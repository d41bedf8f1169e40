/**
 `StrPair`: a range of the character buffer that is decoded in place, in the same
 buffer, the first time it is read.
 */
module StrPairs {
  import opened Bytes
  import opened Decoding
  import opened CharRef

  /**
   The pair is embedded by value in nodes and attributes and copied as a value; its
   methods take it and give back its new state. `flush` is `NEEDS_FLUSH`.
   */
  datatype StrPair = StrPair(start: nat, end: nat, flush: bool, flags: Flags) {
    predicate Empty() { start == end }
  }

  const EMPTY_PAIR := StrPair(0, 0, false, NO_FLAGS)

  /** `StrPair::Set`. */
  function Pair(start: nat, end: nat, flags: Flags): StrPair {
    StrPair(start, end, true, flags)
  }

  /** `strncmp( p, x, |x| ) == 0`: compares until a byte differs, which the NUL does. */
  method Matches(buf: array<byte>, base: nat, i: nat, x: bytes, ghost t: bytes) returns (b: bool)
    requires TextAt(buf[..], base, t) && i <= |t| && NoNul(x)
    ensures b <==> At(t, i, x)
  {
    var n := 0;
    while n < |x|
      invariant 0 <= n <= |x| && i + n <= |t|
      invariant forall k :: 0 <= k < n ==> t[i + k] == x[k]
    {
      if buf[base + i + n] != x[n] {
        return false;
      }
      n := n + 1;
    }
    b := true;
  }

  /** The loop over the entity table. */
  method MatchEntity(buf: array<byte>, p: nat, ghost t: bytes) returns (i: nat)
    requires TextAt(buf[..], p, t) && |t| >= 1
    ensures i == FindEntity(t, 0)
  {
    i := 0;
    while i < NUM_ENTITIES
      invariant i <= NUM_ENTITIES
      invariant FindEntity(t, i) == FindEntity(t, 0)
    {
      var pattern := EntityTable(i).pattern;
      var b := Matches(buf, p, 1, pattern, t);
      if b && buf[p + |pattern| + 1] == SEMI {
        return;
      }
      i := i + 1;
    }
  }

  /** What one round leaves: `out` at the write pointer and everything else as it was. */
  ghost predicate Wrote(before: bytes, after: bytes, q: nat, out: bytes) {
    |before| == |after| && q + |out| <= |before|
    && after[..q] == before[..q]
    && after[q..q + |out|] == out
    && after[q + |out|..] == before[q + |out|..]
  }

  /** `&#...;`: the reference is expanded into a local buffer and copied down. */
  method ExpandReference(buf: array<byte>, p: nat, q: nat, ghost t: bytes) returns (p': nat, q': nat)
    requires TextAt(buf[..], p, t) && q <= p && t != [] && CharacterRef(t).Reference?
    modifies buf
    ensures var r := CharacterRef(t);
            p' == p + r.adv && q' == q + |r.out| && Wrote(old(buf[..]), buf[..], q, r.out)
  {
    var value := new byte[10];
    var next, length := GetCharacterRef(buf, p, value, t);
    p' := next.value;
    ghost var b0, out := buf[..], CharacterRef(t).out;
    NothingWrote(b0, q, out);
    var i := 0;
    while i < length
      invariant 0 <= i <= length && value[..length] == out && Wrote(b0, buf[..], q, out[..i])
    {
      ghost var b := buf[..];
      buf[q + i] := value[i];
      assert value[..length][i] == out[i];
      WroteOne(b0, b, buf[..], q, out, i);
      i := i + 1;
    }
    q' := q + length;
    assert out[..length] == out;
  }

  lemma NothingWrote(b: bytes, q: nat, out: bytes)
    requires q <= |b|
    ensures Wrote(b, b, q, out[..0])
  {
  }

  lemma WroteOne(b0: bytes, b: bytes, b': bytes, q: nat, out: bytes, i: nat)
    requires i < |out| && q + i < |b| && b' == b[q + i := out[i]] && Wrote(b0, b, q, out[..i])
    ensures Wrote(b0, b', q, out[..i + 1])
  {
    var k := q + i;
    assert out[..i + 1] == out[..i] + [out[i]];
    assert b'[..q] == b[..q];
    assert b'[q..k] == b[q..k];
    assert b'[q..k + 1] == b'[q..k] + [out[i]];
    assert b'[k + 1..] == b[k..][1..] == b0[k..][1..] == b0[k + 1..];
  }

  /** What the round leaves at the write pointer, where `stale` stood before. */
  ghost function Output(st: Step, stale: byte): bytes {
    match st case Write(_, out) => out case Skip => [stale]
  }

  /** One round of the loop of `GetStr`. */
  method Round(buf: array<byte>, p: nat, q: nat, f: Flags, ghost t: bytes, ghost st: Step)
    returns (p': nat, q': nat)
    requires TextAt(buf[..], p, t) && q <= p && t != [] && StepAt(t, f) == Some(st)
    modifies buf
    ensures var b := old(buf[..]);
            p' == p + Advance(st) && q' == q + |Output(st, b[q])| && Wrote(b, buf[..], q, Output(st, b[q]))
  {
    assert buf[p + 1] == Peek(t, 1);
    if f.newlines && buf[p] == CR {
      p' := if buf[p + 1] == LF then p + 2 else p + 1;
      buf[q] := LF;
      q' := q + 1;
    } else if f.newlines && buf[p] == LF {
      p' := if buf[p + 1] == CR then p + 2 else p + 1;
      buf[q] := LF;
      q' := q + 1;
    } else if f.entities && buf[p] == AMP {
      if buf[p + 1] == HASH {
        p', q' := ExpandReference(buf, p, q, t);
      } else {
        var i := MatchEntity(buf, p, t);
        if i == NUM_ENTITIES {
          p', q' := p + 1, q + 1;
        } else {
          buf[q] := EntityTable(i).value;
          p', q' := p + |EntityTable(i).pattern| + 2, q + 1;
        }
      }
    } else {
      buf[q] := buf[p];
      p', q' := p + 1, q + 1;
    }
  }

  /** The text of a pair after it was read: its decoding, then a NUL, inside the range. */
  ghost predicate Holds(b: bytes, start: nat, end: nat, d: bytes) {
    start + |d| <= end < |b| && b[start..start + |d|] == d && b[start + |d|] == 0
  }

  /**
   `StrPair::GetStr`. The first call writes the terminator, decodes in place and clears
   the flags; the range then holds the decoding of what it held, and no byte outside
   the inclusive range `start..end` changes. A later call does nothing.
   */
  method GetStr(buf: array<byte>, sp: StrPair) returns (r: StrPair)
    requires sp.start <= sp.end < buf.Length
    requires sp.flush ==> NoNul(buf[sp.start..sp.end]) && Decode(buf[sp.start..sp.end], sp.flags).Some?
    modifies buf
    ensures r == sp.(flush := false, flags := if sp.flush then NO_FLAGS else sp.flags)
    ensures !sp.flush ==> buf[..] == old(buf[..])
    ensures buf[..sp.start] == old(buf[..sp.start]) && buf[sp.end + 1..] == old(buf[sp.end + 1..])
    ensures sp.flush ==> Holds(buf[..], sp.start, sp.end, old(Decode(buf[sp.start..sp.end], sp.flags).value))
  {
    r := sp;
    if !sp.flush { return; }
    ghost var text := buf[sp.start..sp.end];
    buf[sp.end] := 0;
    assert buf[sp.start..sp.end] == text;
    r := sp.(flush := false, flags := NO_FLAGS);
    if sp.flags == NO_FLAGS {
      DecodePlain(text);
      return;
    }
    DecodeInPlace(buf, sp.start, sp.end, sp.flags, text);
  }

  /** The bytes between two rounds: written up to `q`, and from there still the text. */
  ghost predicate Midway(b0: bytes, b: bytes, start: nat, q: nat, text: bytes) {
    var end := start + |text|;
    && start <= q <= end < |b| == |b0|
    && b[..start] == b0[..start] && b[end + 1..] == b0[end + 1..]
    && b[q..end] == text[q - start..] && b[end] == 0
  }

  lemma MidwayText(b0: bytes, b: bytes, start: nat, p: nat, r: nat, q: nat, text: bytes)
    requires NoNul(text) && Midway(b0, b, start, q, text) && q <= p == start + r && r < |text|
    ensures TextAt(b, p, text[r..]) && b[q] == text[q - start]
  {
    forall j | q <= j < start + |text| ensures b[j] == text[j - start] {
      assert b[j] == b[q..start + |text|][j - q];
    }
  }

  lemma MidwayStep(b0: bytes, b: bytes, b': bytes, start: nat, q: nat, text: bytes, out: bytes)
    requires Midway(b0, b, start, q, text)
    requires Wrote(b, b', q, out) && q + |out| <= start + |text|
    ensures Midway(b0, b', start, q + |out|, text)
    ensures b'[start..q + |out|] == b[start..q] + out
  {
    var end, q' := start + |text|, q + |out|;
    forall k | 0 <= k < |b| && !(q <= k < q') ensures b'[k] == b[k] {
      if k < q {
        assert b'[..q][k] == b[..q][k];
      } else {
        assert b'[q'..][k - q'] == b[q'..][k - q'];
      }
    }
    assert b[q..end][q' - q..] == b[q'..end];
    assert b'[start..q] == b[start..q];
    assert b'[start..q'] == b'[start..q] + b'[q..q'];
  }

  /** Where the read pointer is after `k` rounds, relative to the start. */
  ghost function ReadAt(sc: seq<Step>, k: nat): nat
    requires k <= |sc|
  {
    if k == 0 then 0 else ReadAt(sc, k - 1) + Advance(sc[k - 1])
  }

  /** What `k` rounds have written. */
  ghost function OutAt(text: bytes, sc: seq<Step>, k: nat): bytes
    requires k <= |sc|
  {
    if k == 0 then []
    else OutAt(text, sc, k - 1) + Output(sc[k - 1], Peek(text, |OutAt(text, sc, k - 1)|))
  }

  /** After `k` rounds the script of the rest is the rest of the script. */
  ghost predicate After(text: bytes, f: Flags, sc: seq<Step>, k: nat) {
    && k <= |sc| && |OutAt(text, sc, k)| <= ReadAt(sc, k) <= |text|
    && Script(text[ReadAt(sc, k)..], f) == Some(sc[k..])
    && InPlace(text, sc[k..], OutAt(text, sc, k)) == InPlace(text, sc, [])
  }

  lemma {:induction false} AfterRounds(text: bytes, f: Flags, sc: seq<Step>, k: nat)
    requires Script(text, f) == Some(sc) && k <= |sc|
    ensures After(text, f, sc, k)
  {
    hide *;
    if k == 0 {
      BeforeRounds(text, f, sc);
    } else {
      AfterRounds(text, f, sc, k - 1);
      AfterRound(text, f, sc, k - 1, k);
    }
  }

  lemma BeforeRounds(text: bytes, f: Flags, sc: seq<Step>)
    requires Script(text, f) == Some(sc)
    ensures After(text, f, sc, 0)
  {
    hide Script, InPlace;
    assert text[0..] == text && sc[0..] == sc;
  }

  lemma AfterRound(text: bytes, f: Flags, sc: seq<Step>, k: nat, k': nat)
    requires After(text, f, sc, k) && k < |sc| && k' == k + 1
    ensures After(text, f, sc, k')
  {
    hide Script, InPlace, Advance, Output;
    assert sc[k..] == [sc[k]] + sc[k'..];
    OneRound(text, f, sc[k], sc[k..], sc[k'..], ReadAt(sc, k), OutAt(text, sc, k));
  }

  /** One round, with the script `todo` before and `rest` after it. */
  lemma OneRound(text: bytes, f: Flags, st: Step, todo: seq<Step>, rest: seq<Step>, r: nat, out: bytes)
    requires |out| <= r <= |text| && Script(text[r..], f) == Some(todo) && todo == [st] + rest
    ensures |out + Output(st, Peek(text, |out|))| <= r + Advance(st) <= |text|
    ensures Script(text[r + Advance(st)..], f) == Some(rest)
    ensures InPlace(text, rest, out + Output(st, Peek(text, |out|))) == InPlace(text, todo, out)
  {
    hide Script, InPlace, StepAt;
    assert todo[1..] == rest;
    ScriptHead(text[r..], f, todo);
    assert text[r..][Advance(st)..] == text[r + Advance(st)..];
    InPlaceCons(text, st, rest, out);
  }

  lemma ScriptHead(t: bytes, f: Flags, sc: seq<Step>)
    requires Script(t, f) == Some(sc) && sc != []
    ensures t != [] && StepAt(t, f) == Some(sc[0]) && Script(t[Advance(sc[0])..], f) == Some(sc[1..])
  {
  }

  /** The pointers stay in order and in the text over round `k`. */
  ghost predicate InOrder(text: bytes, sc: seq<Step>, k: nat) {
    && k < |sc|
    && |OutAt(text, sc, k)| <= ReadAt(sc, k) < |text|
    && |OutAt(text, sc, k + 1)| <= ReadAt(sc, k + 1) <= |text|
  }

  /** The round that stands at `k`. */
  lemma RoundAt(text: bytes, f: Flags, sc: seq<Step>, k: nat)
    requires Script(text, f) == Some(sc) && k < |sc|
    ensures InOrder(text, sc, k) && StepAt(text[ReadAt(sc, k)..], f) == Some(sc[k])
  {
    AfterRounds(text, f, sc, k);
    AfterRounds(text, f, sc, k + 1);
    ScriptHead(text[ReadAt(sc, k)..], f, sc[k..]);
  }

  lemma AllRounds(text: bytes, f: Flags, sc: seq<Step>)
    requires Script(text, f) == Some(sc)
    ensures ReadAt(sc, |sc|) == |text| && Decode(text, f) == Some(OutAt(text, sc, |sc|))
    ensures forall k :: 0 <= k < |sc| ==> ReadAt(sc, k) < |text|
  {
    AfterRounds(text, f, sc, |sc|);
    assert sc[|sc|..] == [];
    forall k | 0 <= k < |sc| ensures ReadAt(sc, k) < |text| {
      RoundAt(text, f, sc, k);
    }
  }

  /** After `k` rounds, with `b0` the buffer before the loop. */
  ghost predicate InLoop(b0: bytes, b: bytes, start: nat, p: nat, q: nat, text: bytes, sc: seq<Step>, k: nat)
  {
    && k <= |sc| && p == start + ReadAt(sc, k) && q == start + |OutAt(text, sc, k)|
    && Midway(b0, b, start, q, text) && b[start..q] == OutAt(text, sc, k)
  }

  lemma RoundReady(b0: bytes, b: bytes, start: nat, p: nat, q: nat, text: bytes, sc: seq<Step>, k: nat, t: bytes)
    requires NoNul(text) && InOrder(text, sc, k) && InLoop(b0, b, start, p, q, text, sc, k)
    requires t == text[ReadAt(sc, k)..]
    ensures TextAt(b, p, t) && q <= p && q < |b|
  {
    MidwayText(b0, b, start, p, ReadAt(sc, k), q, text);
  }

  lemma RoundKeeps(b0: bytes, b: bytes, b': bytes, start: nat, p: nat, q: nat, p': nat, q': nat,
                   text: bytes, sc: seq<Step>, k: nat)
    requires InOrder(text, sc, k) && InLoop(b0, b, start, p, q, text, sc, k) && q < |b|
    requires p' == p + Advance(sc[k]) && q' == q + |Output(sc[k], b[q])| && Wrote(b, b', q, Output(sc[k], b[q]))
    ensures InLoop(b0, b', start, p', q', text, sc, k + 1)
  {
    assert b[q] == b[q..start + |text|][0];
    MidwayStep(b0, b, b', start, q, text, Output(sc[k], b[q]));
  }

  /** A round keeps the invariant. */
  method NextRound(buf: array<byte>, start: nat, p: nat, q: nat, f: Flags,
                   ghost b0: bytes, ghost text: bytes, ghost sc: seq<Step>, ghost k: nat)
    returns (p': nat, q': nat)
    requires NoNul(text) && InOrder(text, sc, k) && StepAt(text[ReadAt(sc, k)..], f) == Some(sc[k])
    requires InLoop(b0, buf[..], start, p, q, text, sc, k)
    modifies buf
    ensures InLoop(b0, buf[..], start, p', q', text, sc, k + 1)
  {
    ghost var b, t := buf[..], text[ReadAt(sc, k)..];
    RoundReady(b0, b, start, p, q, text, sc, k, t);
    p', q' := Round(buf, p, q, f, t, sc[k]);
    RoundKeeps(b0, b, buf[..], start, p, q, p', q', text, sc, k);
  }

  /** The loop over the read pointer `p` and the write pointer `q`. */
  method RunRounds(buf: array<byte>, start: nat, end: nat, f: Flags, ghost text: bytes, ghost sc: seq<Step>)
    returns (q: nat)
    requires start + |text| == end && NoNul(text) && Midway(buf[..], buf[..], start, start, text)
    requires Script(text, f) == Some(sc)
    modifies buf
    ensures Midway(old(buf[..]), buf[..], start, q, text) && buf[start..q] == OutAt(text, sc, |sc|)
  {
    var p: nat := start;
    q := start;
    ghost var b0, k: nat := buf[..], 0;
    AllRounds(text, f, sc);
    while p < end
      invariant InLoop(b0, buf[..], start, p, q, text, sc, k)
      decreases |sc| - k
    {
      RoundAt(text, f, sc, k);
      p, q := NextRound(buf, start, p, q, f, b0, text, sc, k);
      k := k + 1;
    }
  }

  /** The loop and the final NUL. */
  method DecodeInPlace(buf: array<byte>, start: nat, end: nat, f: Flags, ghost text: bytes)
    requires start + |text| == end && TextAt(buf[..], start, text) && Decode(text, f).Some?
    modifies buf
    ensures buf[..start] == old(buf[..start]) && buf[end + 1..] == old(buf[end + 1..])
    ensures Holds(buf[..], start, end, Decode(text, f).value)
  {
    ghost var sc := Script(text, f).value;
    assert buf[start..end] == text;
    hide Script, Decode, OutAt, ReadAt, Holds;
    AllRounds(text, f, sc);
    var q := RunRounds(buf, start, end, f, text, sc);
    ghost var b := buf[..];
    buf[q] := 0;
    Terminated(old(buf[..]), b, buf[..], start, end, q, text);
  }

  lemma Terminated(b0: bytes, b: bytes, b': bytes, start: nat, end: nat, q: nat, text: bytes)
    requires Midway(b0, b, start, q, text) && end == start + |text| && b' == b[q := 0]
    ensures b'[..start] == b0[..start] && b'[end + 1..] == b0[end + 1..] && Holds(b', start, end, b[start..q])
  {
    assert b'[..start] == b[..start] && b'[start..q] == b[start..q] && b'[end + 1..] == b[end + 1..];
  }
}
