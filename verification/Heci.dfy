/**
 The transfer of the attestation key box over HECI: `get_attkb` asks for the file in
 chunks, each small enough for its reply to be a single message.
 */
module Heci {
  import opened Bytes

  type u16 = x: int | 0 <= x < 0x1_0000

  const REQUEST_SIZE: nat := 12     // sizeof(MCA_BOOTLOADER_READ_ATTKB_EX_Request)
  const RESPONSE_SIZE: nat := 12    // sizeof(MCA_BOOTLOADER_READ_ATTKB_EX_Response)
  const HECI_MSG_SIZE: nat := 511   // the largest value of the 9-bit length field
  const MAX_TRANSFER_BUFFER: nat := HECI_MSG_SIZE - RESPONSE_SIZE
  const ALIGNED_MAX_TRANSFER_BUFFER: nat := MAX_TRANSFER_BUFFER - MAX_TRANSFER_BUFFER % 4
  const BUFFER_SIZE: nat := RESPONSE_SIZE + ALIGNED_MAX_TRANSFER_BUFFER
  const MAX_ATTKB_SIZE: nat := 16384   // what the caller of get_attkb allocates

  datatype Request = Request(offset: u16, size: u16)

  datatype Response = Response(result: byte, totalFileSize: u16, readOffset: u16, readSize: u16, fileData: bytes)

  /**
   What the device does with a request: it sends `reply`, in words that end in `pad`, and
   `arrived` of these words reach the host before a wait runs into its time limit.
   */
  datatype Answer = Answer(reply: Response, pad: bytes, arrived: nat)

  /** The device, by the number of the exchange and the request. */
  type Device = (nat, Request) -> Answer

  // ------------------------------------------------------------ the messages

  function U16(x: u16): bytes {
    [x % 256, x / 256]
  }

  function Word(lo: byte, hi: byte): u16 {
    var low: int, high: int := lo, hi;
    low + 256 * high
  }

  function U16At(b: bytes, i: nat): u16
    requires i + 1 < |b|
  {
    Word(b[i], b[i + 1])
  }

  /** Group 0x0A, command 0x1A, offset, size and the flag `Encrypt`. */
  function EncodeRequest(q: Request): (r: bytes)
    ensures |r| == REQUEST_SIZE
  {
    [0x0A, 0x1A, 0, 0] + U16(q.offset) + U16(q.size) + [1, 0, 0, 0]
  }

  function DecodeRequest(b: bytes): Request
    requires |b| >= REQUEST_SIZE
  {
    Request(U16At(b, 4), U16At(b, 6))
  }

  /** The header of a reply repeats group and command, with the response bit set. */
  function EncodeResponse(r: Response): (m: bytes)
    ensures |m| == RESPONSE_SIZE + |r.fileData|
  {
    [0x0A, 0x9A, 0, r.result] + U16(r.totalFileSize) + U16(r.readOffset) + U16(r.readSize) + [0, 0] + r.fileData
  }

  /** The reply is one message, sent in whole words. */
  predicate SingleMessage(a: Answer) {
    && |a.reply.fileData| == a.reply.readSize
    && RESPONSE_SIZE + |a.reply.fileData| <= HECI_MSG_SIZE
    && |a.pad| < 4 && (RESPONSE_SIZE + |a.reply.fileData| + |a.pad|) % 4 == 0
    && 4 * a.arrived <= RESPONSE_SIZE + |a.reply.fileData| + |a.pad|
  }

  function Wire(a: Answer): bytes {
    EncodeResponse(a.reply) + a.pad
  }

  predicate Complete(a: Answer) {
    4 * a.arrived == |Wire(a)|
  }

  /** The words that arrive fit the buffer of the host. */
  predicate Fits(a: Answer) {
    4 * a.arrived <= BUFFER_SIZE
  }

  /** The buffer after an exchange: the words that arrived over what the host had written. */
  function Received(b: bytes, a: Answer): (r: bytes)
    requires |b| == BUFFER_SIZE && SingleMessage(a) && Fits(a)
    ensures |r| == BUFFER_SIZE
  {
    Wire(a)[..4 * a.arrived] + b[4 * a.arrived..]
  }

  ghost predicate SpeaksHeci(dev: Device) {
    forall k: nat, q: Request :: SingleMessage(dev(k, q))
  }

  /** Every reply to a request for bytes brings some. */
  ghost predicate MakesProgress(dev: Device) {
    forall k: nat, q: Request :: q.size > 0 ==> dev(k, q).reply.readSize > 0
  }

  lemma U16ReadsBack(x: u16)
    ensures Word(U16(x)[0], U16(x)[1]) == x
  {
  }

  lemma RequestReadsBack(q: Request, rest: bytes)
    ensures DecodeRequest(EncodeRequest(q) + rest) == q
  {
    U16ReadsBack(q.offset);
    U16ReadsBack(q.size);
  }

  /** The chunk size is the largest multiple of four with which a reply is still one message. */
  lemma ChunkFitsMessage(n: nat)
    ensures RESPONSE_SIZE + n <= HECI_MSG_SIZE && n % 4 == 0 <==> n <= ALIGNED_MAX_TRANSFER_BUFFER && n % 4 == 0
    ensures ALIGNED_MAX_TRANSFER_BUFFER == 496 && BUFFER_SIZE == 508 && BUFFER_SIZE <= HECI_MSG_SIZE
  {
  }

  // ------------------------------------------------------------ the exchange

  /** The number of words of a message, by its 9-bit length field. */
  function Words(length: nat): nat { (length + 3) / 4 }

  /** The test `BufSize >= Index * 4` in front of the store of word `i`. */
  predicate Guarded(i: nat) { BUFFER_SIZE >= 4 * i }

  predicate Inside(i: nat) { 4 * i + 4 <= BUFFER_SIZE }

  /**
   The test lets a word in that begins where the buffer ends. Every store is inside the
   buffer if and only if the length field is not 509, 510 or 511.
   */
  lemma StoresStayInside(length: nat)
    requires length <= HECI_MSG_SIZE
    ensures (forall i :: 0 <= i < Words(length) && Guarded(i) ==> Inside(i)) <==> length <= BUFFER_SIZE
  {
    if length > BUFFER_SIZE {
      assert Guarded(127) && !Inside(127);
    }
  }

  /** The buffer `b'` has the first `n` words of `w` over `b`. */
  ghost predicate Stored(b: bytes, w: bytes, n: nat, b': bytes) {
    4 * n <= |w| && 4 * n <= |b| && b' == w[..4 * n] + b[4 * n..]
  }

  /** How an exchange ends; `OutOfBounds` stands for a store behind the end of the buffer. */
  datatype Status = Code(code: int) | OutOfBounds

  function StatusOf(a: Answer): Status {
    if !Fits(a) then OutOfBounds else Code(if Complete(a) then 0 else 1)
  }

  /** `heci_receive_impl` for one message; the time limit stops it after `arrived` words. */
  method Receive(buf: array<byte>, a: Answer) returns (status: Status)
    requires buf.Length == BUFFER_SIZE && SingleMessage(a)
    modifies buf
    ensures status == StatusOf(a) && (Fits(a) ==> buf[..] == Received(old(buf[..]), a))
    ensures status == OutOfBounds <==> 4 * a.arrived > 508
    ensures 4 * a.arrived <= 508 ==> status == Code(if 4 * a.arrived == 12 + |a.reply.fileData| + |a.pad| then 0 else 1)
  {
    var w := Wire(a);
    ghost var b := buf[..];
    var words := Words(RESPONSE_SIZE + |a.reply.fileData|);
    WholeWords(a);
    NothingStored(b, w);
    StatusIs(a);
    hide *;
    var index := StoreWords(buf, w, words, a.arrived, b);
    if index == a.arrived {
      AllStored(a, words, b, buf[..], index);
      status := Code(if index == words then 0 else 1);
    } else {
      TooLong(a, index);
      status := OutOfBounds;
    }
  }

  lemma StatusIs(a: Answer)
    requires SingleMessage(a)
    ensures StatusOf(a) == OutOfBounds <==> 4 * a.arrived > 508
    ensures 4 * a.arrived <= 508 ==> StatusOf(a) == Code(if 4 * a.arrived == 12 + |a.reply.fileData| + |a.pad| then 0 else 1)
  {
  }

  /** The loop over the words; it stops before a store out of bounds. */
  method StoreWords(buf: array<byte>, w: bytes, words: nat, arrived: nat, ghost b: bytes) returns (index: nat)
    requires buf.Length == |b| == BUFFER_SIZE && |w| == 4 * words && arrived <= words && Stored(b, w, 0, buf[..])
    modifies buf
    ensures index <= arrived && Stored(b, w, index, buf[..]) && (index < arrived ==> !Inside(index))
  {
    hide *;
    index := 0;
    while index < words && index < arrived
      invariant index <= arrived && Stored(b, w, index, buf[..])
    {
      var inside := StoreNext(buf, index, w, b);
      if !inside {
        return;
      }
      index := index + 1;
    }
  }

  /** One word, behind the guard; `false` is a store out of bounds. */
  method StoreNext(buf: array<byte>, i: nat, w: bytes, ghost b: bytes) returns (inside: bool)
    requires 4 * i + 4 <= |w| && buf.Length == |b| == BUFFER_SIZE && Stored(b, w, i, buf[..])
    modifies buf
    ensures inside == Inside(i) && Stored(b, w, if inside then i + 1 else i, buf[..])
  {
    inside := true;
    if Guarded(i) {
      if !Inside(i) {
        return false;
      }
      StoreWord(buf, i, w, b);
    }
  }

  lemma TooLong(a: Answer, i: nat)
    requires i < a.arrived && !Inside(i)
    ensures StatusOf(a) == OutOfBounds && !Fits(a)
  {
  }

  lemma NothingStored(b: bytes, w: bytes)
    ensures Stored(b, w, 0, b)
  {
    assert b == w[..0] + b[0..];
  }

  lemma AllStored(a: Answer, words: nat, b: bytes, b': bytes, n: nat)
    requires SingleMessage(a) && |b| == BUFFER_SIZE && |Wire(a)| == 4 * words && a.arrived <= words
    requires n == a.arrived && Stored(b, Wire(a), n, b')
    ensures Fits(a) && b' == Received(b, a) && StatusOf(a) == Code(if n == words then 0 else 1)
  {
  }

  lemma WholeWords(a: Answer)
    requires SingleMessage(a)
    ensures |Wire(a)| == 4 * Words(RESPONSE_SIZE + |a.reply.fileData|)
    ensures a.arrived <= Words(RESPONSE_SIZE + |a.reply.fileData|)
  {
  }

  /** `Message[Index] = value`. */
  method StoreWord(buf: array<byte>, i: nat, w: bytes, ghost b: bytes)
    requires 4 * i + 4 <= |w| && 4 * i + 4 <= buf.Length == |b| && Stored(b, w, i, buf[..])
    modifies buf
    ensures Stored(b, w, i + 1, buf[..])
  {
    var k := 4 * i;
    buf[k], buf[k + 1], buf[k + 2], buf[k + 3] := w[k], w[k + 1], w[k + 2], w[k + 3];
    WordStored(b, w, i, k, buf[..]);
  }

  lemma WordStored(b: bytes, w: bytes, i: nat, k: nat, b': bytes)
    requires k == 4 * i && k + 4 <= |w| && k + 4 <= |b| == |b'|
    requires forall j :: 0 <= j < |b| ==> b'[j] == if k <= j < k + 4 then w[j] else (w[..k] + b[k..])[j]
    ensures Stored(b, w, i + 1, b')
  {
    assert b' == w[..k + 4] + b[k + 4..];
  }

  /** `HeciSendwACK`: the request is the front of the buffer, the reply overwrites it. */
  method SendWithAck(buf: array<byte>, dev: Device, k: nat) returns (status: Status)
    requires buf.Length == BUFFER_SIZE && SpeaksHeci(dev)
    modifies buf
    ensures var b := old(buf[..]);
            var a := dev(k, DecodeRequest(b));
            status == StatusOf(a) && (Fits(a) ==> buf[..] == Received(b, a))
  {
    var a := dev(k, DecodeRequest(buf[..]));
    assert SingleMessage(a);
    status := Receive(buf, a);
  }

  /** The buffer with a request, before it is sent. */
  function Sent(q: Request): (b: bytes)
    ensures |b| == BUFFER_SIZE && DecodeRequest(b) == q
  {
    RequestReadsBack(q, seq(ALIGNED_MAX_TRANSFER_BUFFER, _ => 0));
    EncodeRequest(q) + seq(ALIGNED_MAX_TRANSFER_BUFFER, _ => 0)
  }

  method Ask(buf: array<byte>, dev: Device, k: nat, q: Request) returns (status: Status)
    requires buf.Length == BUFFER_SIZE && SpeaksHeci(dev)
    modifies buf
    ensures var a := dev(k, q);
            status == StatusOf(a) && (Fits(a) ==> buf[..] == Received(Sent(q), a))
  {
    var b := Sent(q);
    forall i | 0 <= i < buf.Length {
      buf[i] := b[i];
    }
    assert buf[..] == b;
    status := SendWithAck(buf, dev, k);
  }

  // ------------------------------------------------------------ the transfer

  /** `get_attkb_size`: a request for no bytes; zero on failure, `None` for a store out of bounds. */
  function FileSize(dev: Device): Option<u16>
    requires SpeaksHeci(dev)
  {
    var a := dev(0, Request(0, 0));
    if !Fits(a) then None
    else
      var b := Received(Sent(Request(0, 0)), a);
      Some(if b[3] != 0 then 0 else U16At(b, 4))
  }

  method GetAttkbSize(buf: array<byte>, dev: Device) returns (size: Option<u16>)
    requires buf.Length == BUFFER_SIZE && SpeaksHeci(dev)
    modifies buf
    ensures size == FileSize(dev)
  {
    var status := Ask(buf, dev, 0, Request(0, 0));
    if status.OutOfBounds? {
      return None;
    }
    ghost var b := buf[..];
    if status.code < 0 || buf[3] != 0 {
      return Some(0);
    }
    size := Some(Word(buf[4], buf[5]));
  }

  /**
   How a transfer, or one round of it, can end: with data, with the result zero, with a
   store or a copy behind the end of a buffer; or it has not ended yet.
   */
  datatype Outcome = Delivered(data: bytes) | GaveUp | Overrun | Unfinished

  /**
   What one round of the loop of `get_attkb` takes from the buffer, or `None` where it
   gives up. A wait that ran out gives the status 1, which the test `status < 0` lets
   pass: then the words that did not arrive are those of the request.
   */
  function Chunk(b: bytes, remaining: u16, size: u16): (r: Option<bytes>)
    requires |b| == BUFFER_SIZE && size <= ALIGNED_MAX_TRANSFER_BUFFER
    ensures r.Some? ==> |r.value| <= size && |r.value| <= remaining
  {
    var readSize := U16At(b, 8);
    if b[3] != 0 || readSize > remaining || readSize > size then None
    else Some(b[RESPONSE_SIZE..RESPONSE_SIZE + readSize])
  }

  function ChunkRequest(offset: u16, remaining: u16): (q: Request)
    ensures q.size <= ALIGNED_MAX_TRANSFER_BUFFER && q.size <= remaining && (remaining > 0 ==> q.size > 0)
  {
    Request(offset, if remaining < ALIGNED_MAX_TRANSFER_BUFFER then remaining else ALIGNED_MAX_TRANSFER_BUFFER)
  }

  /** The round that is exchange number `k`. */
  function Round(dev: Device, k: nat, offset: u16, remaining: u16): (r: Outcome)
    requires SpeaksHeci(dev)
    ensures !r.Unfinished? && (r.Delivered? ==> |r.data| <= remaining)
  {
    var q := ChunkRequest(offset, remaining);
    var a := dev(k, q);
    if !Fits(a) then Overrun
    else
      match Chunk(Received(Sent(q), a), remaining, q.size)
      case None => GaveUp
      case Some(c) => Delivered(c)
  }

  /** The field `ReadSize` is that of the reply, or one: the flag `Encrypt` of the request. */
  lemma ReadsSomething(a: Answer, q: Request)
    requires SingleMessage(a) && Fits(a)
    ensures U16At(Received(Sent(q), a), 8) == ReadSize(a)
  {
    U16ReadsBack(a.reply.readSize);
  }

  /** How many bytes a round takes: without the third word of the reply, one. */
  function ReadSize(a: Answer): nat {
    if a.arrived >= 3 then a.reply.readSize else 1
  }

  function Joined(c: bytes, rest: Outcome): Outcome {
    if rest.Delivered? then Delivered(c + rest.data) else rest
  }

  /** The rounds from exchange `k` on, at most `limit`, into a buffer of `room` bytes. */
  function Rounds(dev: Device, k: nat, offset: nat, remaining: nat, room: nat, limit: nat): (r: Outcome)
    requires SpeaksHeci(dev) && offset + remaining < 0x1_0000
    ensures r.Delivered? ==> |r.data| == remaining
    decreases limit
  {
    if remaining == 0 then Delivered([])
    else if limit == 0 then Unfinished
    else
      var c := Round(dev, k, offset, remaining);
      if !c.Delivered? then c
      else if offset + |c.data| > room then Overrun
      else Joined(c.data, Rounds(dev, k + 1, offset + |c.data|, remaining - |c.data|, room, limit - 1))
  }

  /** The whole of `get_attkb`. */
  function Transfer(dev: Device, room: nat, limit: nat): Outcome
    requires SpeaksHeci(dev)
  {
    match FileSize(dev)
    case None => Overrun
    case Some(size) => if size == 0 then GaveUp else Rounds(dev, 1, 0, size, room, limit)
  }

  /** What the caller sees: a result, or a run that has gone out of bounds or goes on. */
  datatype End = Returned(n: nat) | WentOutOfBounds | StillRunning

  function EndOf(o: Outcome): End {
    match o
    case Delivered(data) => Returned(|data|)
    case GaveUp => Returned(0)
    case Overrun => WentOutOfBounds
    case Unfinished => StillRunning
  }

  /** `get_attkb`, for at most `limit` rounds of its loop. */
  method GetAttkb(attkb: array?<byte>, dev: Device, limit: nat) returns (end: End)
    requires SpeaksHeci(dev)
    modifies attkb
    ensures attkb == null ==> end == Returned(0)
    ensures attkb != null ==>
      var o := Transfer(dev, attkb.Length, limit);
      && end == EndOf(o)
      && (o.Delivered? ==> |o.data| <= attkb.Length && attkb[..|o.data|] == o.data)
      && forall i :: 0 <= i < attkb.Length && FileSize(dev).Some? && FileSize(dev).value <= i ==> attkb[i] == old(attkb[i])
  {
    if attkb == null {
      return Returned(0);
    }
    var buf := new byte[BUFFER_SIZE];
    var size := GetAttkbSize(buf, dev);
    if size.None? {
      return WentOutOfBounds;
    }
    if size.value == 0 {
      return Returned(0);
    }
    end := TransferChunks(attkb, buf, dev, size.value, limit);
  }

  /** The loop over the chunks. */
  method TransferChunks(attkb: array<byte>, buf: array<byte>, dev: Device, size: nat, limit: nat) returns (end: End)
    requires SpeaksHeci(dev) && 0 < size < 0x1_0000 && buf.Length == BUFFER_SIZE && attkb != buf
    modifies attkb, buf
    ensures var o := Rounds(dev, 1, 0, size, attkb.Length, limit);
            end == EndOf(o) && (o.Delivered? ==> size <= attkb.Length && attkb[..size] == o.data)
    ensures forall i :: size <= i < attkb.Length ==> attkb[i] == old(attkb[i])
  {
    hide Round, Rounds, SpeaksHeci;
    var offset: nat, remaining: nat, k := 0, size, 0;
    ghost var o := Rounds(dev, 1, 0, size, attkb.Length, limit);
    NothingJoined(o);
    assert attkb[..0] == [];
    while remaining > 0 && k < limit
      invariant offset + remaining == size && offset <= attkb.Length && k <= limit
      invariant forall i :: size <= i < attkb.Length ==> attkb[i] == old(attkb[i])
      invariant o == Joined(attkb[..offset], Rounds(dev, 1 + k, offset, remaining, attkb.Length, limit - k))
    {
      hide Joined;
      ghost var before := attkb[..offset];
      RoundsStep(dev, 1 + k, offset, remaining, attkb.Length, limit - k, before, limit - (k + 1));
      var stop, readSize := NextChunk(attkb, offset, remaining, buf, dev, 1 + k);
      if stop.Some? {
        return stop.value;
      }
      offset := offset + readSize;
      remaining := remaining - readSize;
      k := k + 1;
    }
    NoRounds(dev, 1 + k, offset, remaining, attkb.Length, limit - k);
    end := if remaining > 0 then StillRunning else Returned(size);
    ConcatEmpty(attkb[..offset]);
  }

  lemma NothingJoined(o: Outcome)
    ensures Joined([], o) == o
  {
    if o.Delivered? {
      ConcatEmpty(o.data);
    }
  }

  lemma NoRounds(dev: Device, k: nat, offset: nat, remaining: nat, room: nat, limit: nat)
    requires SpeaksHeci(dev) && offset + remaining < 0x1_0000 && (remaining == 0 || limit == 0)
    ensures Rounds(dev, k, offset, remaining, room, limit) == if remaining == 0 then Delivered([]) else Unfinished
  {
  }

  lemma RoundsStep(dev: Device, k: nat, offset: nat, remaining: nat, room: nat, limit: nat, a: bytes, fewer: nat)
    requires SpeaksHeci(dev) && 0 < remaining && offset + remaining < 0x1_0000 && limit == fewer + 1
    ensures var whole := Joined(a, Rounds(dev, k, offset, remaining, room, limit));
            var c := Round(dev, k, offset, remaining);
            if !c.Delivered? then whole == c
            else if offset + |c.data| > room then whole == Overrun
            else whole == Joined(a + c.data, Rounds(dev, k + 1, offset + |c.data|, remaining - |c.data|, room, fewer))
  {
    hide Round;
    var c := Round(dev, k, offset, remaining);
    if c.Delivered? && offset + |c.data| <= room {
      var rest := Rounds(dev, k + 1, offset + |c.data|, remaining - |c.data|, room, fewer);
      if rest.Delivered? {
        ConcatAssoc(a, c.data, rest.data);
      }
    }
  }

  /** One round of the loop; the copy trusts that `attkb` has room. */
  method NextChunk(attkb: array<byte>, offset: nat, remaining: nat, buf: array<byte>, dev: Device, k: nat)
    returns (stop: Option<End>, readSize: nat)
    requires SpeaksHeci(dev) && buf.Length == BUFFER_SIZE && attkb != buf
    requires 0 < remaining && offset + remaining < 0x1_0000 && offset <= attkb.Length
    modifies attkb, buf
    ensures readSize <= remaining && offset + readSize <= attkb.Length
    ensures forall i :: offset + readSize <= i < attkb.Length ==> attkb[i] == old(attkb[i])
    ensures var c := Round(dev, k, offset, remaining);
            if !c.Delivered? then stop == Some(EndOf(c))
            else if offset + |c.data| > attkb.Length then stop == Some(WentOutOfBounds)
            else stop == None && readSize == |c.data| && attkb[..offset + readSize] == old(attkb[..offset]) + c.data
  {
    hide Received, Sent;
    var q := ChunkRequest(offset, remaining);
    var status := Ask(buf, dev, k, q);
    if status.OutOfBounds? {
      return Some(WentOutOfBounds), 0;
    }
    readSize := Word(buf[8], buf[9]);
    if status.code < 0 || buf[3] != 0 {
      return Some(Returned(0)), 0;
    }
    if readSize > remaining || readSize > q.size {
      return Some(Returned(0)), 0;
    }
    if offset + readSize > attkb.Length {
      return Some(WentOutOfBounds), 0;
    }
    CopyOut(attkb, offset, buf, readSize);
    stop := None;
  }

  /** `memcpy_s` of the data of a reply. */
  method CopyOut(attkb: array<byte>, offset: nat, buf: array<byte>, n: nat)
    requires buf.Length == BUFFER_SIZE && RESPONSE_SIZE + n <= BUFFER_SIZE && offset + n <= attkb.Length && attkb != buf
    modifies attkb
    ensures attkb[..offset + n] == old(attkb[..offset]) + buf[RESPONSE_SIZE..RESPONSE_SIZE + n]
    ensures attkb[offset + n..] == old(attkb[offset + n..])
  {
    forall i | 0 <= i < n {
      attkb[offset + i] := buf[RESPONSE_SIZE + i];
    }
  }
}
