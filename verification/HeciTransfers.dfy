/**
 What `get_attkb` achieves with which devices: whether the host gets the file, goes out of
 the bounds of its buffer, or never ends.
 */
module HeciTransfers {
  import opened Bytes
  import opened Heci

  // ------------------------------------------------------------ what the host gets

  /** The device holds the file `f` and answers every request for a part of it with a prefix of that part. */
  ghost predicate Holds(dev: Device, f: bytes) {
    && 0 < |f| < 0x1_0000 && SpeaksHeci(dev) && MakesProgress(dev)
    && forall k: nat, q: Request :: Answers(dev(k, q), q, f)
  }

  ghost predicate Answers(a: Answer, q: Request, f: bytes) {
    && a.reply.result == 0 && a.reply.totalFileSize == |f|
    && (q.offset + q.size <= |f| ==>
          a.reply.readSize <= q.size && a.reply.fileData == f[q.offset..q.offset + a.reply.readSize])
  }

  /** The bytes of the chunk that the wait cut off are zero; the others are those of the file. */
  ghost predicate IsChunk(c: bytes, a: Answer, offset: nat, f: bytes) {
    && |c| == ReadSize(a) > 0 && offset + |c| <= |f|
    && forall i :: 0 <= i < |c| ==> c[i] == if RESPONSE_SIZE + i < 4 * a.arrived then f[offset + i] else 0
  }

  /** The replies of such a device to the requests of the host are small enough. */
  lemma ReplyFits(a: Answer, q: Request, f: bytes)
    requires SingleMessage(a) && Answers(a, q, f)
    requires q.offset + q.size <= |f| && q.size <= ALIGNED_MAX_TRANSFER_BUFFER
    ensures Fits(a)
  {
  }

  /** What a round takes of a reply: the data as far as they arrived, then zeros. */
  function Taken(a: Answer): (c: bytes)
    requires SingleMessage(a)
    ensures |c| == ReadSize(a)
  {
    seq(ReadSize(a), i requires 0 <= i < ReadSize(a) =>
      if RESPONSE_SIZE + i < 4 * a.arrived then a.reply.fileData[i] else 0)
  }

  lemma HonestRound(dev: Device, f: bytes, k: nat, offset: nat, remaining: nat)
    requires Holds(dev, f) && 0 < remaining && offset + remaining == |f|
    ensures var r := Round(dev, k, offset, remaining);
            r.Delivered? && IsChunk(r.data, dev(k, ChunkRequest(offset, remaining)), offset, f)
  {
    var q := ChunkRequest(offset, remaining);
    var a := dev(k, q);
    assert SingleMessage(a) && Answers(a, q, f) && a.reply.readSize > 0;
    hide Holds, Received, Sent, IsChunk, Taken;
    ReplyFits(a, q, f);
    ReadsSomething(a, q);
    ReceivedBytes(a, q);
    TakenIsChunk(a, q, f);
  }

  lemma TakenIsChunk(a: Answer, q: Request, f: bytes)
    requires SingleMessage(a) && Answers(a, q, f) && a.reply.readSize > 0
    requires q.offset + q.size <= |f| && q.size > 0
    ensures IsChunk(Taken(a), a, q.offset, f)
  {
  }

  /** The buffer after an exchange: the result, and the data. */
  lemma ReceivedBytes(a: Answer, q: Request)
    requires SingleMessage(a) && Fits(a)
    ensures Received(Sent(q), a)[3] == if a.arrived >= 1 then a.reply.result else 0
    ensures var end := RESPONSE_SIZE + ReadSize(a);
            end <= BUFFER_SIZE ==> Received(Sent(q), a)[RESPONSE_SIZE..end] == Taken(a)
  {
    var b, w := Received(Sent(q), a), Wire(a);
    if RESPONSE_SIZE + ReadSize(a) <= BUFFER_SIZE {
      forall i | 0 <= i < ReadSize(a) ensures b[RESPONSE_SIZE + i] == Taken(a)[i] {
        if RESPONSE_SIZE + i < 4 * a.arrived {
          assert w[RESPONSE_SIZE + i] == a.reply.fileData[i];
        } else {
          assert b[RESPONSE_SIZE + i] == Sent(q)[RESPONSE_SIZE + i] == 0;
        }
      }
      assert b[RESPONSE_SIZE..RESPONSE_SIZE + ReadSize(a)] == Taken(a);
    }
  }

  // ------------------------------------------------------------ what the fields of a reply decide

  /** The bytes of a request, with the flag `Encrypt`, and zeros behind it. */
  lemma RequestOnWire(offset: u16, remaining: u16)
    ensures var size := if remaining < 496 then remaining else 496;
            var b := Sent(ChunkRequest(offset, remaining));
            && b[..12] == [0x0A, 0x1A, 0, 0, offset % 256, offset / 256, size % 256, size / 256, 1, 0, 0, 0]
            && |b| == 508 && forall i :: 12 <= i < |b| ==> b[i] == 0
  {
  }

  /** The bytes of a reply. */
  lemma ReplyOnWire(a: Answer)
    ensures var r := a.reply;
            Wire(a) == [0x0A, 0x1A + 0x80, 0, r.result, r.totalFileSize % 256, r.totalFileSize / 256, r.readOffset % 256,
                        r.readOffset / 256, r.readSize % 256, r.readSize / 256, 0, 0] + r.fileData + a.pad
  {
  }

  /**
   A round gives up exactly if an error result arrived or the reply reads more than was
   asked for. Otherwise it takes the data, as far as they arrived.
   */
  lemma RoundByReply(dev: Device, k: nat, offset: u16, remaining: u16, q: Request, a: Answer)
    requires SpeaksHeci(dev) && remaining > 0
    requires q == Request(offset, if remaining < 496 then remaining else 496) && a == dev(k, q)
    ensures SingleMessage(a)
    ensures var refused := (a.arrived >= 1 && a.reply.result != 0) || ReadSize(a) > q.size;
            && (4 * a.arrived > 508 <==> Round(dev, k, offset, remaining) == Overrun)
            && (4 * a.arrived <= 508 ==> (Round(dev, k, offset, remaining) == GaveUp <==> refused))
            && (4 * a.arrived <= 508 && !refused ==> Round(dev, k, offset, remaining) == Delivered(Taken(a)))
  {
    assert SingleMessage(a);
    hide SpeaksHeci, SingleMessage, Received, Sent, Taken;
    if Fits(a) {
      ReadsSomething(a, q);
      ReceivedBytes(a, q);
    }
  }

  /** The size is zero if an error result arrived, and else the one of the second word, if that arrived. */
  lemma SizeByReply(dev: Device, a: Answer)
    requires SpeaksHeci(dev) && a == dev(0, Request(0, 0))
    ensures FileSize(dev) ==
      if 4 * a.arrived > 508 then None
      else if a.arrived >= 1 && a.reply.result != 0 then Some(0)
      else if a.arrived >= 2 then Some(a.reply.totalFileSize) else Some(0)
  {
    var q := Request(0, 0);
    assert SingleMessage(a);
    if Fits(a) {
      ReceivedBytes(a, q);
      U16ReadsBack(a.reply.totalFileSize);
      var b := Received(Sent(q), a);
      if a.arrived >= 2 {
        assert b[4] == Wire(a)[4] && b[5] == Wire(a)[5];
      } else {
        assert b[4] == Sent(q)[4] == 0 && b[5] == Sent(q)[5] == 0;
      }
    }
  }

  /** The bytes of the file that the wait cut off are zero anyway. */
  ghost predicate CutOffZero(a: Answer, offset: nat, n: nat, f: bytes)
    requires offset + n <= |f|
  {
    forall j :: offset <= j < offset + n && RESPONSE_SIZE + (j - offset) >= 4 * a.arrived ==> f[j] == 0
  }

  /** From `offset` on, every byte that a wait cut off is zero in the file anyway. */
  ghost predicate Lossless(dev: Device, k: nat, offset: nat, f: bytes)
    requires Holds(dev, f) && offset <= |f|
    decreases |f| - offset
  {
    offset == |f| ||
    (var a := dev(k, ChunkRequest(offset, |f| - offset));
     var n := ReadSize(a);
     HonestRound(dev, f, k, offset, |f| - offset);
     && n > 0 && offset + n <= |f|
     && CutOffZero(a, offset, n, f)
     && Lossless(dev, k + 1, offset + n, f))
  }

  /** Where there is room for it, such a device delivers; what it delivers is the file if and only if nothing was lost. */
  lemma {:induction false} RoundsBring(dev: Device, k: nat, offset: nat, left: nat, f: bytes, room: nat, limit: nat)
    returns (r: bytes)
    requires Holds(dev, f) && offset + left == |f| <= room && left <= limit
    ensures Rounds(dev, k, offset, left, room, limit) == Delivered(r) && (r == f[offset..] <==> Lossless(dev, k, offset, f))
    decreases left
  {
    hide *;
    HoldsParts(dev, f);
    if left == 0 {
      r := [];
      NothingLeft(dev, k, offset, f);
      NoRounds(dev, k, offset, 0, room, limit);
    } else {
      var c, a := HonestChunk(dev, f, k, offset, left);
      var rest := RoundsBring(dev, k + 1, offset + |c|, left - |c|, f, room, limit - 1);
      RoundsCons(dev, k, offset, left, c, rest, offset + |c|, left - |c|, room, limit, limit - 1);
      LosslessCons(dev, k, offset, left, f, c, a);
      PartsAgree(c, rest, f, offset, offset + |c|);
      r := c + rest;
    }
  }

  /** Where there is not, it runs out of bounds. */
  lemma {:induction false} RoundsOverrun(dev: Device, k: nat, offset: nat, left: nat, f: bytes, room: nat, limit: nat)
    requires Holds(dev, f) && offset + left == |f| && offset <= room < |f| && left <= limit
    ensures Rounds(dev, k, offset, left, room, limit) == Overrun
    decreases left
  {
    hide *;
    HoldsParts(dev, f);
    var c, a := HonestChunk(dev, f, k, offset, left);
    if offset + |c| <= room {
      RoundsOverrun(dev, k + 1, offset + |c|, left - |c|, f, room, limit - 1);
    }
    OverrunCons(dev, k, offset, left, c, offset + |c|, left - |c|, room, limit, limit - 1);
  }

  lemma OverrunCons(dev: Device, k: nat, offset: nat, remaining: nat, c: bytes, next: nat, left: nat,
                    room: nat, limit: nat, fewer: nat)
    requires SpeaksHeci(dev) && 0 < remaining && offset + remaining < 0x1_0000 && limit == fewer + 1
    requires Round(dev, k, offset, remaining) == Delivered(c) && next == offset + |c| && left == remaining - |c|
    requires next <= room ==> Rounds(dev, k + 1, next, left, room, fewer) == Overrun
    ensures Rounds(dev, k, offset, remaining, room, limit) == Overrun
  {
    hide Round;
  }

  lemma HoldsParts(dev: Device, f: bytes)
    requires Holds(dev, f)
    ensures SpeaksHeci(dev) && MakesProgress(dev) && 0 < |f| < 0x1_0000
  {
    hide SpeaksHeci, MakesProgress;
  }

  lemma NothingLeft(dev: Device, k: nat, offset: nat, f: bytes)
    requires Holds(dev, f) && offset == |f|
    ensures f[offset..] == [] && Lossless(dev, k, offset, f)
  {
  }

  /** The chunk of a round, which is that of the file if and only if the wait cut off nothing but zeros. */
  lemma HonestChunk(dev: Device, f: bytes, k: nat, offset: nat, left: nat) returns (c: bytes, a: Answer)
    requires Holds(dev, f) && 0 < left && offset + left == |f|
    ensures Round(dev, k, offset, left) == Delivered(c) && 0 < |c| <= left
    ensures a == dev(k, ChunkRequest(offset, left)) && |c| == ReadSize(a)
    ensures c == f[offset..offset + |c|] <==> CutOffZero(a, offset, |c|, f)
  {
    hide Round;
    HonestRound(dev, f, k, offset, left);
    c, a := Round(dev, k, offset, left).data, dev(k, ChunkRequest(offset, left));
    ChunkAgrees(c, a, offset, f);
  }

  lemma RoundsCons(dev: Device, k: nat, offset: nat, remaining: nat, c: bytes, rest: bytes, next: nat, left: nat,
                   room: nat, limit: nat, fewer: nat)
    requires SpeaksHeci(dev) && 0 < remaining && offset + remaining < 0x1_0000 && limit == fewer + 1
    requires Round(dev, k, offset, remaining) == Delivered(c)
    requires next == offset + |c| <= room && left == remaining - |c|
    requires Rounds(dev, k + 1, next, left, room, fewer) == Delivered(rest)
    ensures Rounds(dev, k, offset, remaining, room, limit) == Delivered(c + rest)
  {
    hide Round;
  }

  lemma LosslessCons(dev: Device, k: nat, offset: nat, left: nat, f: bytes, c: bytes, a: Answer)
    requires Holds(dev, f) && 0 < left && offset + left == |f| && 0 < |c| <= left
    requires a == dev(k, ChunkRequest(offset, left)) && |c| == ReadSize(a)
    ensures Lossless(dev, k, offset, f) <==>
      CutOffZero(a, offset, |c|, f) && Lossless(dev, k + 1, offset + |c|, f)
  {
    hide CutOffZero, ReadSize;
    assert |f| - offset == left;
  }

  lemma PartsAgree(c: bytes, rest: bytes, f: bytes, offset: nat, next: nat)
    requires next == offset + |c| && next + |rest| == |f|
    ensures c + rest == f[offset..] <==> c == f[offset..next] && rest == f[next..]
  {
    assert f[offset..] == f[offset..next] + f[next..];
    if c + rest == f[offset..] {
      assert c == (c + rest)[..|c|] && rest == (c + rest)[|c|..];
    }
  }

  lemma ChunkAgrees(c: bytes, a: Answer, offset: nat, f: bytes)
    requires IsChunk(c, a, offset, f)
    ensures |c| == ReadSize(a) && offset + |c| <= |f|
    ensures c == f[offset..offset + |c|] <==> CutOffZero(a, offset, |c|, f)
  {
    if c == f[offset..offset + |c|] {
      forall j | offset <= j < offset + |c| && RESPONSE_SIZE + (j - offset) >= 4 * a.arrived ensures f[j] == 0 {
        assert c[j - offset] == f[offset..offset + |c|][j - offset];
      }
    }
    if CutOffZero(a, offset, |c|, f) {
      forall i | 0 <= i < |c| ensures c[i] == f[offset..offset + |c|][i] {
        assert f[offset..offset + |c|][i] == f[offset + i];
      }
    }
  }

  /** The size arrives with the second word of the reply, also when the rest does not. */
  lemma FileSizeIs(dev: Device, f: bytes)
    requires Holds(dev, f)
    ensures FileSize(dev) == Some(if SizeArrives(dev) then |f| else 0)
  {
    var q := Request(0, 0);
    var a := dev(0, q);
    assert SingleMessage(a) && Answers(a, q, f);
    hide Holds, FileSize;
    ReplyFits(a, q, f);
    SizeByReply(dev, a);
  }

  predicate SizeArrives(dev: Device) {
    dev(0, Request(0, 0)).arrived >= 2
  }

  /**
   With a device that holds `f`, the transfer gives up exactly if the size was not read. It
   copies behind the end of the buffer exactly if the size was read and `f` is too long;
   otherwise it yields as many bytes, and `f` exactly if every byte that a wait cut off
   is zero in `f`. As many rounds as bytes are enough.
   */
  lemma TransferIsExact(dev: Device, f: bytes, room: nat, limit: nat)
    requires Holds(dev, f) && |f| <= limit
    ensures var o := Transfer(dev, room, limit);
            && (o == GaveUp <==> !SizeArrives(dev))
            && (o == Overrun <==> SizeArrives(dev) && |f| > room)
            && (o.Delivered? <==> SizeArrives(dev) && |f| <= room)
            && (o.Delivered? ==> |o.data| == |f|)
            && (o == Delivered(f) <==> SizeArrives(dev) && |f| <= room && Lossless(dev, 1, 0, f))
  {
    FileSizeIs(dev, f);
    assert f[0..] == f;
    hide FileSize, Rounds, Lossless, SizeArrives;
    if |f| <= room {
      var r := RoundsBring(dev, 1, 0, |f|, f, room, limit);
    } else {
      RoundsOverrun(dev, 1, 0, |f|, f, room, limit);
    }
  }

  /** With the buffer that the caller allocates, every copy stays inside unless the file is longer. */
  lemma CopiesStayInside(dev: Device, f: bytes, limit: nat)
    requires Holds(dev, f) && |f| <= limit
    ensures Transfer(dev, MAX_ATTKB_SIZE, limit) != Overrun <==> !SizeArrives(dev) || |f| <= 16384
  {
    hide Transfer, SizeArrives, Lossless;
    TransferIsExact(dev, f, MAX_ATTKB_SIZE, limit);
  }

  /** Holds the byte 7 as often as `n` says, and sends one at a time. */
  function SevensDevice(n: u16): Device {
    (k: nat, q: Request) =>
      if q.size == 0 then Answer(Response(0, n, 0, 0, []), [], 3)
      else Answer(Response(0, n, q.offset, 1, [7]), [0, 0, 0], 4)
  }

  lemma SevensHolds(n: u16)
    requires n > 0
    ensures Holds(SevensDevice(n), seq(n, _ => 7)) && SizeArrives(SevensDevice(n))
  {
    var dev, f := SevensDevice(n), seq(n, _ => 7);
    assert SpeaksHeci(dev) && MakesProgress(dev);
    forall k: nat, q: Request ensures Answers(dev(k, q), q, f) {
      if q.size > 0 && q.offset + q.size <= n {
        assert f[q.offset..q.offset + 1] == [7];
      }
    }
  }

  /** One byte more than the caller has room for, and the copy goes out of bounds. */
  lemma LargeFileOverruns()
    ensures Transfer(SevensDevice(16385), MAX_ATTKB_SIZE, 16385) == Overrun
  {
    SevensHolds(16385);
    hide Transfer, SizeArrives, Holds, SevensDevice;
    CopiesStayInside(SevensDevice(16385), seq(16385, _ => 7), 16385);
  }

  // ------------------------------------------------------------ how many rounds

  /** The device answers every request for a part of the file in full. */
  ghost predicate AnswersInFull(dev: Device, f: bytes) {
    forall k: nat, q: Request :: q.offset + q.size <= |f| ==> dev(k, q).reply.readSize == q.size && Complete(dev(k, q))
  }

  lemma FullRound(dev: Device, k: nat, offset: nat, left: nat, f: bytes) returns (c: bytes)
    requires Holds(dev, f) && AnswersInFull(dev, f) && offset + left == |f| && left > 0
    ensures Round(dev, k, offset, left) == Delivered(c) && |c| == if left < 496 then left else 496
    ensures c == f[offset..offset + |c|]
  {
    var q := ChunkRequest(offset, left);
    var a := dev(k, q);
    assert SingleMessage(a) && Answers(a, q, f) && Complete(a);
    HonestRound(dev, f, k, offset, left);
    c := Round(dev, k, offset, left).data;
  }

  /** Such a device is asked once for every 496 bytes of the file, and once for the rest. */
  lemma {:induction false} FullRounds(dev: Device, k: nat, offset: nat, left: nat, f: bytes, room: nat, limit: nat)
    requires Holds(dev, f) && AnswersInFull(dev, f) && offset + left == |f| <= room
    ensures Rounds(dev, k, offset, left, room, limit) == if left <= 496 * limit then Delivered(f[offset..]) else Unfinished
    decreases limit
  {
    hide *;
    HoldsParts(dev, f);
    if left == 0 || limit == 0 {
      NoBytesLeft(f, offset, left);
      NoRounds(dev, k, offset, left, room, limit);
    } else {
      var c := FullRound(dev, k, offset, left, f);
      FullRounds(dev, k + 1, offset + |c|, left - |c|, f, room, limit - 1);
      FullCons(dev, k, offset, left, c, offset + |c|, left - |c|, f, room, limit, limit - 1);
    }
  }

  lemma NoBytesLeft(f: bytes, offset: nat, left: nat)
    requires offset + left == |f|
    ensures left == 0 ==> f[offset..] == []
  {
  }

  lemma FullCons(dev: Device, k: nat, offset: nat, remaining: nat, c: bytes, next: nat, left: nat, f: bytes,
                 room: nat, limit: nat, fewer: nat)
    requires SpeaksHeci(dev) && 0 < remaining && offset + remaining == |f| < 0x1_0000 && limit == fewer + 1 && |f| <= room
    requires Round(dev, k, offset, remaining) == Delivered(c) && next == offset + |c| && left == remaining - |c|
    requires |c| == (if remaining < 496 then remaining else 496) && c == f[offset..next]
    requires Rounds(dev, k + 1, next, left, room, fewer) == if left <= 496 * fewer then Delivered(f[next..]) else Unfinished
    ensures Rounds(dev, k, offset, remaining, room, limit)
         == if remaining <= 496 * limit then Delivered(f[offset..]) else Unfinished
  {
    hide Round;
    assert f[offset..] == f[offset..next] + f[next..];
  }

  /** The number of rounds of a whole transfer from a device that always answers in full. */
  lemma TransferRounds(dev: Device, f: bytes, room: nat, limit: nat)
    requires Holds(dev, f) && AnswersInFull(dev, f) && |f| <= room
    ensures Transfer(dev, room, limit) == if |f| <= 496 * limit then Delivered(f) else Unfinished
  {
    FileSizeIs(dev, f);
    assert Complete(dev(0, Request(0, 0)));
    assert f[0..] == f;
    hide FileSize, Rounds;
    FullRounds(dev, 1, 0, |f|, f, room, limit);
  }

  // ------------------------------------------------------------ a transfer that does not end

  /** A device that brings something in every reply is asked at most once a byte. */
  lemma {:induction false} ProgressEnds(dev: Device, k: nat, offset: nat, remaining: nat, room: nat, limit: nat)
    requires SpeaksHeci(dev) && MakesProgress(dev) && offset + remaining < 0x1_0000 && remaining <= limit
    ensures Rounds(dev, k, offset, remaining, room, limit) != Unfinished
    decreases remaining
  {
    hide *;
    if remaining == 0 {
      NoRounds(dev, k, offset, remaining, room, limit);
    } else {
      var c, next, left := NextPlace(dev, k, offset, remaining);
      ProgressEnds(dev, k + 1, next, left, room, limit - 1);
      EndsCons(dev, k, offset, remaining, c, next, left, room, limit, limit - 1);
    }
  }

  lemma NextPlace(dev: Device, k: nat, offset: nat, remaining: nat) returns (c: Outcome, next: nat, left: nat)
    requires SpeaksHeci(dev) && MakesProgress(dev) && offset + remaining < 0x1_0000 && remaining > 0
    ensures c == Round(dev, k, offset, remaining) && next + left == offset + remaining && left < remaining
    ensures c.Delivered? ==> next == offset + |c.data| && left == remaining - |c.data|
  {
    RoundProgresses(dev, k, offset, remaining);
    hide Round, MakesProgress;
    c := Round(dev, k, offset, remaining);
    var n := if c.Delivered? then |c.data| else remaining;
    next, left := offset + n, remaining - n;
  }

  lemma EndsCons(dev: Device, k: nat, offset: nat, remaining: nat, c: Outcome, next: nat, left: nat,
                 room: nat, limit: nat, fewer: nat)
    requires SpeaksHeci(dev) && 0 < remaining && offset + remaining < 0x1_0000 && limit == fewer + 1
    requires c == Round(dev, k, offset, remaining) && next + left == offset + remaining
    requires c.Delivered? ==> next == offset + |c.data| && left == remaining - |c.data|
    requires Rounds(dev, k + 1, next, left, room, fewer) != Unfinished
    ensures Rounds(dev, k, offset, remaining, room, limit) != Unfinished
  {
    hide Round;
  }

  lemma RoundProgresses(dev: Device, k: nat, offset: nat, remaining: nat)
    requires SpeaksHeci(dev) && offset + remaining < 0x1_0000 && remaining > 0
    ensures var r := Round(dev, k, offset, remaining);
            r.Delivered? ==> |r.data| == ReadSize(dev(k, ChunkRequest(offset, remaining)))
    ensures var r := Round(dev, k, offset, remaining);
            MakesProgress(dev) && r.Delivered? ==> |r.data| > 0
  {
    var q := ChunkRequest(offset, remaining);
    var a := dev(k, q);
    assert SingleMessage(a);
    hide Received, Sent;
    if Fits(a) {
      ReadsSomething(a, q);
    }
  }

  /** Announces a byte, but sends none. */
  function SilentDevice(k: nat, q: Request): Answer {
    Answer(Response(0, 1, 0, 0, []), [], 3)
  }

  /** The host asks it again and again: however many rounds there are, it asks for the byte again. */
  lemma SilentDeviceNeverEnds(room: nat, limit: nat)
    ensures SpeaksHeci(SilentDevice) && Transfer(SilentDevice, room, limit) == Unfinished
  {
    assert SpeaksHeci(SilentDevice);
    SilentSize();
    hide FileSize;
    SilentRounds(1, room, limit);
  }

  lemma SilentSize()
    requires SpeaksHeci(SilentDevice)
    ensures FileSize(SilentDevice) == Some(1)
  {
    var b := Received(Sent(Request(0, 0)), SilentDevice(0, Request(0, 0)));
    assert b[3] == 0 && b[4] == 1 && b[5] == 0;
  }

  lemma {:induction false} SilentRounds(k: nat, room: nat, limit: nat)
    requires SpeaksHeci(SilentDevice)
    ensures Rounds(SilentDevice, k, 0, 1, room, limit) == Unfinished
    decreases limit
  {
    if limit > 0 {
      SilentRound(k);
      SilentRounds(k + 1, room, limit - 1);
      hide Round;
    }
  }

  /** A round that leaves the offset and the number of bytes to come as they were. */
  lemma SilentRound(k: nat)
    requires SpeaksHeci(SilentDevice)
    ensures Round(SilentDevice, k, 0, 1) == Delivered([])
  {
    var q := ChunkRequest(0, 1);
    var a := SilentDevice(k, q);
    assert SingleMessage(a) && Fits(a);
    hide Sent;
    ReadsSomething(a, q);
    ReceivedBytes(a, q);
  }

  /** The `n` rounds from exchange `k` on bring nothing. */
  ghost predicate Idle(dev: Device, k: nat, offset: nat, remaining: nat, n: nat)
    requires SpeaksHeci(dev) && offset + remaining < 0x1_0000
  {
    forall j :: k <= j < k + n ==> Round(dev, j, offset, remaining) == Delivered([])
  }

  ghost predicate IdleForEver(dev: Device, k: nat, offset: nat, remaining: nat)
    requires SpeaksHeci(dev) && offset + remaining < 0x1_0000
  {
    forall j :: k <= j ==> Round(dev, j, offset, remaining) == Delivered([])
  }

  /** The round brings something, for which there is room. */
  ghost predicate Goes(dev: Device, k: nat, offset: nat, remaining: nat, room: nat)
    requires SpeaksHeci(dev) && offset + remaining < 0x1_0000
  {
    var c := Round(dev, k, offset, remaining);
    c.Delivered? && |c.data| > 0 && offset + |c.data| <= room
  }

  /** Bytes are still to come when the device falls silent for ever, perhaps after rounds that bring some. */
  ghost predicate Stalls(dev: Device, k: nat, offset: nat, remaining: nat, room: nat)
    requires SpeaksHeci(dev) && offset + remaining < 0x1_0000
    decreases remaining
  {
    remaining > 0 &&
    (IdleForEver(dev, k, offset, remaining) ||
     exists n: nat :: Idle(dev, k, offset, remaining, n) && Goes(dev, k + n, offset, remaining, room) &&
       var m := |Round(dev, k + n, offset, remaining).data|;
       Stalls(dev, k + n + 1, offset + m, remaining - m, room))
  }

  ghost predicate NeverEnds(dev: Device, k: nat, offset: nat, remaining: nat, room: nat)
    requires SpeaksHeci(dev) && offset + remaining < 0x1_0000
  {
    forall limit: nat :: GoesOn(dev, k, offset, remaining, room, limit)
  }

  predicate GoesOn(dev: Device, k: nat, offset: nat, remaining: nat, room: nat, limit: nat)
    requires SpeaksHeci(dev) && offset + remaining < 0x1_0000
  {
    Rounds(dev, k, offset, remaining, room, limit) == Unfinished
  }

  lemma IdleRound(dev: Device, k: nat, offset: nat, remaining: nat, room: nat, limit: nat, fewer: nat)
    requires SpeaksHeci(dev) && 0 < remaining && offset + remaining < 0x1_0000 && offset <= room && limit == fewer + 1
    requires Round(dev, k, offset, remaining) == Delivered([])
    ensures Rounds(dev, k, offset, remaining, room, limit) == Rounds(dev, k + 1, offset, remaining, room, fewer)
  {
    hide Round;
    NothingJoined(Rounds(dev, k + 1, offset, remaining, room, fewer));
  }

  lemma {:induction false} IdleRounds(dev: Device, k: nat, offset: nat, remaining: nat, room: nat, n: nat, limit: nat)
    requires SpeaksHeci(dev) && 0 < remaining && offset + remaining < 0x1_0000 && offset <= room
    requires Idle(dev, k, offset, remaining, n)
    ensures Rounds(dev, k, offset, remaining, room, limit)
         == if limit <= n then Unfinished else Rounds(dev, k + n, offset, remaining, room, limit - n)
    decreases n
  {
    hide Round;
    if limit == 0 {
      NoRounds(dev, k, offset, remaining, room, limit);
    } else if n > 0 {
      assert Idle(dev, k + 1, offset, remaining, n - 1);
      assert Round(dev, k, offset, remaining) == Delivered([]);
      hide *;
      IdleRound(dev, k, offset, remaining, room, limit, limit - 1);
      IdleRounds(dev, k + 1, offset, remaining, room, n - 1, limit - 1);
    }
  }

  /** The first round that is not idle. */
  lemma {:induction false} FirstBusy(dev: Device, k: nat, offset: nat, remaining: nat, j: nat) returns (n: nat)
    requires SpeaksHeci(dev) && offset + remaining < 0x1_0000
    requires k <= j && Round(dev, j, offset, remaining) != Delivered([])
    ensures Idle(dev, k, offset, remaining, n) && Round(dev, k + n, offset, remaining) != Delivered([])
    decreases j - k
  {
    hide Round;
    if Round(dev, k, offset, remaining) != Delivered([]) {
      n := 0;
    } else {
      var m := FirstBusy(dev, k + 1, offset, remaining, j);
      n := m + 1;
    }
  }

  lemma StallsAtFirstBusy(dev: Device, k: nat, offset: nat, remaining: nat, room: nat, n: nat)
    requires SpeaksHeci(dev) && 0 < remaining && offset + remaining < 0x1_0000
    requires Idle(dev, k, offset, remaining, n) && Round(dev, k + n, offset, remaining) != Delivered([])
    ensures Stalls(dev, k, offset, remaining, room) <==>
      Goes(dev, k + n, offset, remaining, room) &&
      var m := |Round(dev, k + n, offset, remaining).data|;
      Stalls(dev, k + n + 1, offset + m, remaining - m, room)
  {
    hide Round;
  }

  lemma IdleNeverEnds(dev: Device, k: nat, offset: nat, remaining: nat, room: nat)
    requires SpeaksHeci(dev) && 0 < remaining && offset + remaining < 0x1_0000 && offset <= room
    requires IdleForEver(dev, k, offset, remaining)
    ensures NeverEnds(dev, k, offset, remaining, room)
  {
    hide Round, Rounds;
    forall limit: nat ensures GoesOn(dev, k, offset, remaining, room, limit) {
      assert Idle(dev, k, offset, remaining, limit);
      IdleRounds(dev, k, offset, remaining, room, limit, limit);
    }
  }

  /** Idle rounds decide nothing. */
  lemma SkipIdle(dev: Device, k: nat, offset: nat, remaining: nat, room: nat, n: nat, k': nat)
    requires SpeaksHeci(dev) && 0 < remaining && offset + remaining < 0x1_0000 && offset <= room
    requires Idle(dev, k, offset, remaining, n) && k' == k + n
    ensures NeverEnds(dev, k, offset, remaining, room) <==> NeverEnds(dev, k', offset, remaining, room)
  {
    hide Rounds, Idle;
    NoRounds(dev, k', offset, remaining, room, 0);
    if NeverEnds(dev, k, offset, remaining, room) {
      forall limit: nat ensures GoesOn(dev, k', offset, remaining, room, limit) {
        assert GoesOn(dev, k, offset, remaining, room, limit + n);
        IdleRounds(dev, k, offset, remaining, room, n, limit + n);
      }
    }
    if NeverEnds(dev, k', offset, remaining, room) {
      forall limit: nat ensures GoesOn(dev, k, offset, remaining, room, limit) {
        if limit > n {
          assert GoesOn(dev, k', offset, remaining, room, limit - n);
        }
        IdleRounds(dev, k, offset, remaining, room, n, limit);
      }
    }
  }

  /** A round that brings something brings the transfer forward; another ends it. */
  lemma BusyEnds(dev: Device, k: nat, offset: nat, remaining: nat, room: nat)
    requires SpeaksHeci(dev) && 0 < remaining && offset + remaining < 0x1_0000
    requires Round(dev, k, offset, remaining) != Delivered([]) && !Goes(dev, k, offset, remaining, room)
    ensures !NeverEnds(dev, k, offset, remaining, room)
  {
    EndsNow(dev, k, offset, remaining, room, 1);
    hide Round, Rounds;
    assert !GoesOn(dev, k, offset, remaining, room, 1);
  }

  lemma EndsNow(dev: Device, k: nat, offset: nat, remaining: nat, room: nat, limit: nat)
    requires SpeaksHeci(dev) && 0 < remaining && offset + remaining < 0x1_0000 && limit > 0
    requires Round(dev, k, offset, remaining) != Delivered([]) && !Goes(dev, k, offset, remaining, room)
    ensures Rounds(dev, k, offset, remaining, room, limit) != Unfinished
  {
    hide Round;
  }

  lemma BusyGoes(dev: Device, k: nat, offset: nat, remaining: nat, room: nat, c: bytes, k': nat, next: nat, left: nat)
    requires SpeaksHeci(dev) && 0 < remaining && offset + remaining < 0x1_0000
    requires Round(dev, k, offset, remaining) == Delivered(c) && next == offset + |c| <= room && left == remaining - |c| && k' == k + 1
    ensures NeverEnds(dev, k, offset, remaining, room) <==> NeverEnds(dev, k', next, left, room)
  {
    hide *;
    ForwardGoesOn(dev, k, offset, remaining, room, c, k', next, left);
    ForwardFromNext(dev, k, offset, remaining, room, c, k', next, left);
  }

  lemma ForwardGoesOn(dev: Device, k: nat, offset: nat, remaining: nat, room: nat, c: bytes, k': nat, next: nat, left: nat)
    requires SpeaksHeci(dev) && 0 < remaining && offset + remaining < 0x1_0000
    requires Round(dev, k, offset, remaining) == Delivered(c) && next == offset + |c| <= room && left == remaining - |c| && k' == k + 1
    ensures NeverEnds(dev, k, offset, remaining, room) ==> NeverEnds(dev, k', next, left, room)
  {
    hide Round, Rounds;
    if NeverEnds(dev, k, offset, remaining, room) {
      forall limit: nat ensures GoesOn(dev, k', next, left, room, limit) {
        assert GoesOn(dev, k, offset, remaining, room, limit + 1);
        GoesStep(dev, k, offset, remaining, room, c, k', next, left, limit + 1, limit);
      }
    }
  }

  lemma ForwardFromNext(dev: Device, k: nat, offset: nat, remaining: nat, room: nat, c: bytes, k': nat, next: nat, left: nat)
    requires SpeaksHeci(dev) && 0 < remaining && offset + remaining < 0x1_0000
    requires Round(dev, k, offset, remaining) == Delivered(c) && next == offset + |c| <= room && left == remaining - |c| && k' == k + 1
    ensures NeverEnds(dev, k', next, left, room) ==> NeverEnds(dev, k, offset, remaining, room)
  {
    hide Round, Rounds;
    NoRounds(dev, k, offset, remaining, room, 0);
    if NeverEnds(dev, k', next, left, room) {
      forall limit: nat ensures GoesOn(dev, k, offset, remaining, room, limit) {
        if limit > 0 {
          assert GoesOn(dev, k', next, left, room, limit - 1);
          GoesStep(dev, k, offset, remaining, room, c, k', next, left, limit, limit - 1);
        }
      }
    }
  }

  lemma GoesStep(dev: Device, k: nat, offset: nat, remaining: nat, room: nat, c: bytes, k': nat, next: nat, left: nat,
                 limit: nat, fewer: nat)
    requires SpeaksHeci(dev) && 0 < remaining && offset + remaining < 0x1_0000 && limit == fewer + 1
    requires Round(dev, k, offset, remaining) == Delivered(c) && next == offset + |c| <= room && left == remaining - |c| && k' == k + 1
    ensures Rounds(dev, k, offset, remaining, room, limit) == Unfinished <==>
            Rounds(dev, k', next, left, room, fewer) == Unfinished
  {
    hide Round;
  }

  /** The transfer goes on for ever if and only if the device falls silent for ever. */
  lemma {:induction false} NeverEndsIff(dev: Device, k: nat, offset: nat, remaining: nat, room: nat)
    requires SpeaksHeci(dev) && offset + remaining < 0x1_0000 && offset <= room
    ensures NeverEnds(dev, k, offset, remaining, room) <==> Stalls(dev, k, offset, remaining, room)
    decreases remaining
  {
    hide Round, Rounds, Stalls, Idle, NeverEnds;
    if remaining == 0 {
      NothingToEnd(dev, k, offset, room);
    } else if IdleForEver(dev, k, offset, remaining) {
      IdleNeverEnds(dev, k, offset, remaining, room);
      IdleStalls(dev, k, offset, remaining, room);
    } else {
      var j :| k <= j && Round(dev, j, offset, remaining) != Delivered([]);
      var n := FirstBusy(dev, k, offset, remaining, j);
      SkipIdle(dev, k, offset, remaining, room, n, k + n);
      StallsAtFirstBusy(dev, k, offset, remaining, room, n);
      if !Goes(dev, k + n, offset, remaining, room) {
        BusyEnds(dev, k + n, offset, remaining, room);
      } else {
        var c := Round(dev, k + n, offset, remaining).data;
        var m := |c|;
        BusyGoes(dev, k + n, offset, remaining, room, c, k + n + 1, offset + m, remaining - m);
        NeverEndsIff(dev, k + n + 1, offset + m, remaining - m, room);
      }
    }
  }

  lemma NothingToEnd(dev: Device, k: nat, offset: nat, room: nat)
    requires SpeaksHeci(dev) && offset < 0x1_0000
    ensures !NeverEnds(dev, k, offset, 0, room) && !Stalls(dev, k, offset, 0, room)
  {
    NoRounds(dev, k, offset, 0, room, 0);
    assert !GoesOn(dev, k, offset, 0, room, 0);
  }

  lemma IdleStalls(dev: Device, k: nat, offset: nat, remaining: nat, room: nat)
    requires SpeaksHeci(dev) && 0 < remaining && offset + remaining < 0x1_0000 && IdleForEver(dev, k, offset, remaining)
    ensures Stalls(dev, k, offset, remaining, room)
  {
  }

  predicate TransferGoesOn(dev: Device, room: nat, limit: nat)
    requires SpeaksHeci(dev)
  {
    Transfer(dev, room, limit) == Unfinished
  }

  /** The same for the whole of `get_attkb`. */
  lemma TransferNeverEndsIff(dev: Device, room: nat)
    requires SpeaksHeci(dev)
    ensures (forall limit: nat :: TransferGoesOn(dev, room, limit)) <==>
      FileSize(dev).Some? && FileSize(dev).value > 0 && Stalls(dev, 1, 0, FileSize(dev).value, room)
  {
    hide FileSize, Rounds, Stalls;
    match FileSize(dev)
    case None =>
      assert !TransferGoesOn(dev, room, 0);
    case Some(size) =>
      if size == 0 {
        assert !TransferGoesOn(dev, room, 0);
      } else {
        NeverEndsIff(dev, 1, 0, size, room);
        forall limit: nat ensures TransferGoesOn(dev, room, limit) <==> GoesOn(dev, 1, 0, size, room, limit) {
        }
      }
  }

  // ------------------------------------------------------------ lost words

  /** All words with data of the file have arrived. */
  predicate DataArrived(a: Answer) {
    4 * a.arrived >= RESPONSE_SIZE + a.reply.readSize
  }

  /**
   The replies by which the device would send the file from `offset` on, each as long as
   its own field says, arrive with all their data.
   */
  ghost predicate AllDataArrives(dev: Device, k: nat, offset: nat, f: bytes)
    requires Holds(dev, f) && offset <= |f|
    decreases |f| - offset
  {
    offset == |f| ||
    (var a := dev(k, ChunkRequest(offset, |f| - offset));
     assert Answers(a, ChunkRequest(offset, |f| - offset), f);
     DataArrived(a) && AllDataArrives(dev, k + 1, offset + a.reply.readSize, f))
  }

  lemma LossOf(a: Answer, offset: nat, f: bytes)
    requires a.reply.readSize > 0 && offset + a.reply.readSize <= |f|
    ensures ReadSize(a) > 0 && offset + ReadSize(a) <= |f|
    ensures DataArrived(a) ==> ReadSize(a) == a.reply.readSize && CutOffZero(a, offset, ReadSize(a), f)
    ensures NoNul(f) && CutOffZero(a, offset, ReadSize(a), f) ==> DataArrived(a)
  {
    if !DataArrived(a) {
      var j := if a.arrived >= 3 then offset + (4 * a.arrived - RESPONSE_SIZE) else offset;
      assert offset <= j < offset + ReadSize(a) && RESPONSE_SIZE + (j - offset) >= 4 * a.arrived;
      assert NoNul(f) ==> f[j] != 0;
    }
  }

  lemma NextReply(dev: Device, k: nat, offset: nat, f: bytes) returns (a: Answer)
    requires Holds(dev, f) && offset < |f|
    ensures a == dev(k, ChunkRequest(offset, |f| - offset)) && a.reply.readSize > 0
    ensures offset + a.reply.readSize <= |f|
  {
    var q := ChunkRequest(offset, |f| - offset);
    a := dev(k, q);
    assert Answers(a, q, f);
  }

  lemma {:induction false} ArrivingIsLossless(dev: Device, k: nat, offset: nat, f: bytes)
    requires Holds(dev, f) && offset <= |f|
    ensures AllDataArrives(dev, k, offset, f) ==> Lossless(dev, k, offset, f)
    ensures NoNul(f) && Lossless(dev, k, offset, f) ==> AllDataArrives(dev, k, offset, f)
    decreases |f| - offset
  {
    if offset < |f| {
      var a := NextReply(dev, k, offset, f);
      hide Holds, CutOffZero, ReadSize, DataArrived, NoNul;
      LossOf(a, offset, f);
      ArrivingIsLossless(dev, k + 1, offset + a.reply.readSize, f);
    }
  }

  /**
   Where there is room for it, a file without zero bytes is transferred if and only if its
   size and all the data that the device sends arrive; for other files that is enough.
   */
  lemma TransferNeedsData(dev: Device, f: bytes, room: nat, limit: nat)
    requires Holds(dev, f) && |f| <= limit && |f| <= room
    ensures SizeArrives(dev) && AllDataArrives(dev, 1, 0, f) ==> Transfer(dev, room, limit) == Delivered(f)
    ensures NoNul(f) ==>
      (Transfer(dev, room, limit) == Delivered(f) <==> SizeArrives(dev) && AllDataArrives(dev, 1, 0, f))
  {
    hide Transfer, Lossless, AllDataArrives, SizeArrives;
    TransferIsExact(dev, f, room, limit);
    ArrivingIsLossless(dev, 1, 0, f);
  }

  /** Holds the one byte 7, whose word is lost on the way. */
  function LateDevice(k: nat, q: Request): Answer {
    if q.size == 0 then Answer(Response(0, 1, 0, 0, []), [], 3)
    else Answer(Response(0, 1, q.offset, 1, [7]), [0, 0, 0], 3)
  }

  /** The host takes the transfer from this device for a success, with another byte. */
  lemma LateDataIsNotNoticed()
    ensures Holds(LateDevice, [7])
    ensures var o := Transfer(LateDevice, MAX_ATTKB_SIZE, 1); o.Delivered? && o != Delivered([7])
  {
    var f: bytes := [7];
    assert SpeaksHeci(LateDevice) && MakesProgress(LateDevice);
    forall k: nat, q: Request ensures Answers(LateDevice(k, q), q, f) {
      if q.size > 0 && q.offset + q.size <= 1 {
        assert q.offset == 0 && f[0..1] == [7];
      }
    }
    assert Holds(LateDevice, f);
    LateIsLate(LateDevice, f);
  }

  lemma LateIsLate(dev: Device, f: bytes)
    requires Holds(dev, f) && |f| == 1 && NoNul(f)
    requires SizeArrives(dev) && !DataArrived(dev(1, Request(0, 1)))
    ensures var o := Transfer(dev, MAX_ATTKB_SIZE, 1); o.Delivered? && o != Delivered(f)
  {
    assert ChunkRequest(0, 1) == Request(0, 1);
    hide Transfer, DataArrived, Holds, SizeArrives, Lossless;
    TransferNeedsData(dev, f, MAX_ATTKB_SIZE, 1);
    TransferIsExact(dev, f, MAX_ATTKB_SIZE, 1);
  }

  /** Whenever all messages arrive in full, the host gets a file that fits its buffer. */
  lemma TransferBringsFile(dev: Device, f: bytes, limit: nat)
    requires Holds(dev, f) && |f| <= MAX_ATTKB_SIZE && |f| <= limit
    requires forall k: nat, q: Request :: Complete(dev(k, q))
    ensures Transfer(dev, MAX_ATTKB_SIZE, limit) == Delivered(f)
  {
    assert Complete(dev(0, Request(0, 0)));
    AllArrive(dev, 1, 0, f);
    hide Transfer;
    TransferNeedsData(dev, f, MAX_ATTKB_SIZE, limit);
  }

  lemma {:induction false} AllArrive(dev: Device, k: nat, offset: nat, f: bytes)
    requires Holds(dev, f) && offset <= |f| && forall k: nat, q: Request :: Complete(dev(k, q))
    ensures AllDataArrives(dev, k, offset, f)
    decreases |f| - offset
  {
    if offset < |f| {
      var a := NextReply(dev, k, offset, f);
      assert Complete(a) && SingleMessage(a);
      AllArrive(dev, k + 1, offset + a.reply.readSize, f);
    }
  }
}
