/**
 The strings of the nodes, all of them ranges of one character buffer `b` that was a
 copy of the text `s`.
 */
module LiveStrings {
  import opened Bytes
  import opened CharRef
  import opened Decoding
  import opened StrPairs
  import opened Parsing
  import opened Documents
  import opened Nodes
  import opened Ownership
  import opened Scanning

  /** Which string of a node: its value or name, or the name or value of an attribute. */
  datatype Slot = ValueSlot | NameSlot(k: nat) | AttrSlot(k: nat)

  /** The strings of one node, as values. */
  datatype Record = Record(kind: NodeKind, value: StrPair, attrs: seq<AttrCell>)

  function RecordOf(m: XMLNode): Record
    reads m`value, m`attrs
  {
    Record(m.kind, m.value, m.attrs)
  }

  predicate HasSlot(r: Record, sl: Slot) {
    match sl
    case ValueSlot => r.kind != DocumentKind
    case NameSlot(k) => k < |r.attrs|
    case AttrSlot(k) => k < |r.attrs|
  }

  function PairAt(r: Record, sl: Slot): StrPair
    requires HasSlot(r, sl)
  {
    match sl
    case ValueSlot => r.value
    case NameSlot(k) => r.attrs[k].name
    case AttrSlot(k) => r.attrs[k].value
  }

  /** The flags with which the parser sets the pair. */
  function SlotFlags(kind: NodeKind, sl: Slot): Flags {
    match sl
    case ValueSlot => if kind.LeafNodeKind? then LeafFlags(kind.leaf) else NO_FLAGS
    case NameSlot(_) => NO_FLAGS
    case AttrSlot(_) => TEXT_FLAGS
  }

  /**
   A pair that was not read yet still stands on its piece of the text; one that was
   read stands on the decoding of that piece, with a NUL behind it.
   */
  ghost predicate Stored(b: bytes, s: bytes, x: StrPair, f: Flags) {
    && x.start <= x.end <= |s| < |b|
    && if x.flush then x.flags == f && b[x.start..x.end] == s[x.start..x.end]
       else match Decode(s[x.start..x.end], f)
            case Some(d) => Holds(b, x.start, x.end, d)
            case None => false
  }

  /** The ranges, each with the byte behind it, have no byte in common. */
  ghost predicate Apart(x: StrPair, y: StrPair) {
    x.end < y.start || y.end < x.start
  }

  ghost predicate StoredAt(r: Record, b: bytes, s: bytes, lo: nat, hi: nat, sl: Slot)
    requires HasSlot(r, sl)
  {
    && lo <= PairAt(r, sl).start && PairAt(r, sl).end < hi
    && Stored(b, s, PairAt(r, sl), SlotFlags(r.kind, sl))
  }

  ghost predicate Neat(r: Record, b: bytes, s: bytes, lo: nat, hi: nat) {
    && (forall sl :: HasSlot(r, sl) ==> StoredAt(r, b, s, lo, hi, sl))
    && (forall sl, sl' :: HasSlot(r, sl) && HasSlot(r, sl') && sl != sl' ==> Apart(PairAt(r, sl), PairAt(r, sl')))
  }

  ghost predicate ApartRecords(r: Record, r': Record) {
    forall sl, sl' :: HasSlot(r, sl) && HasSlot(r', sl') ==> Apart(PairAt(r, sl), PairAt(r', sl'))
  }

  /** The strings of the nodes of `part` lie in `lo..hi`, each on bytes of its own. */
  ghost predicate Readable(part: set<XMLNode>, b: bytes, s: bytes, lo: nat, hi: nat)
    reads part`value, part`attrs
  {
    && (forall m :: m in part ==> Neat(RecordOf(m), b, s, lo, hi))
    && (forall m, m' :: m in part && m' in part && m != m' ==> ApartRecords(RecordOf(m), RecordOf(m')))
  }

  lemma StoredFrame(b: bytes, b': bytes, s: bytes, x: StrPair, f: Flags, lo: nat, hi: nat)
    requires Stored(b, s, x, f) && Agree(b, b', lo, hi) && lo <= x.start && x.end < hi
    ensures Stored(b', s, x, f)
  {
    assert b'[x.start..x.end] == b[x.start..x.end];
    if !x.flush {
      var d := Decode(s[x.start..x.end], f).value;
      assert b'[x.start..x.start + |d|] == b[x.start..x.start + |d|];
    }
  }

  lemma NeatFrame(r: Record, b: bytes, b': bytes, s: bytes, lo: nat, hi: nat)
    requires Neat(r, b, s, lo, hi) && Agree(b, b', lo, hi)
    ensures Neat(r, b', s, lo, hi)
  {
    forall sl | HasSlot(r, sl) ensures StoredAt(r, b', s, lo, hi, sl) {
      assert StoredAt(r, b, s, lo, hi, sl);
      StoredFrame(b, b', s, PairAt(r, sl), SlotFlags(r.kind, sl), lo, hi);
    }
  }

  /** Bytes outside the range may change. */
  lemma ReadableFrame(part: set<XMLNode>, b: bytes, b': bytes, s: bytes, lo: nat, hi: nat)
    requires Readable(part, b, s, lo, hi) && Agree(b, b', lo, hi)
    ensures Readable(part, b', s, lo, hi)
  {
    forall m | m in part ensures Neat(RecordOf(m), b', s, lo, hi) {
      NeatFrame(RecordOf(m), b, b', s, lo, hi);
    }
  }

  lemma NeatWider(r: Record, b: bytes, s: bytes, lo: nat, hi: nat, lo': nat, hi': nat)
    requires Neat(r, b, s, lo, hi) && lo' <= lo && hi <= hi'
    ensures Neat(r, b, s, lo', hi')
  {
    forall sl | HasSlot(r, sl) ensures StoredAt(r, b, s, lo', hi', sl) {
      assert StoredAt(r, b, s, lo, hi, sl);
    }
  }

  lemma NeatApart(r: Record, r': Record, b: bytes, s: bytes, lo: nat, mid: nat, hi: nat)
    requires Neat(r, b, s, lo, mid) && Neat(r', b, s, mid, hi)
    ensures ApartRecords(r, r') && ApartRecords(r', r)
  {
    forall sl, sl' | HasSlot(r, sl) && HasSlot(r', sl')
      ensures Apart(PairAt(r, sl), PairAt(r', sl')) && Apart(PairAt(r', sl'), PairAt(r, sl))
    {
      assert StoredAt(r, b, s, lo, mid, sl) && StoredAt(r', b, s, mid, hi, sl');
    }
  }

  /** Two sets of nodes whose strings lie in adjacent stretches of the buffer. */
  lemma ReadableUnion(part: set<XMLNode>, part': set<XMLNode>, b: bytes, s: bytes, lo: nat, mid: nat, hi: nat)
    requires Readable(part, b, s, lo, mid) && Readable(part', b, s, mid, hi) && lo <= mid <= hi
    ensures Readable(part + part', b, s, lo, hi)
  {
    hide Neat, ApartRecords;
    forall m | m in part + part' ensures Neat(RecordOf(m), b, s, lo, hi) {
      if m in part {
        NeatWider(RecordOf(m), b, s, lo, mid, lo, hi);
      } else {
        NeatWider(RecordOf(m), b, s, mid, hi, lo, hi);
      }
    }
    forall m, m' | m in part + part' && m' in part + part' && m != m'
      ensures ApartRecords(RecordOf(m), RecordOf(m'))
    {
      if m in part && m' !in part {
        NeatApart(RecordOf(m), RecordOf(m'), b, s, lo, mid, hi);
      } else if m !in part && m' in part {
        NeatApart(RecordOf(m'), RecordOf(m), b, s, lo, mid, hi);
      }
    }
  }

  /** The strings of a list of attributes alone. */
  ghost predicate AttrsNeat(attrs: seq<AttrCell>, b: bytes, s: bytes, lo: nat, hi: nat) {
    Neat(Record(DocumentKind, EMPTY_PAIR, attrs), b, s, lo, hi)
  }

  lemma AttrAppend(attrs: seq<AttrCell>, cell: AttrCell, b: bytes, b': bytes, s: bytes, lo: nat, mid: nat, hi: nat)
    requires AttrsNeat(attrs, b, s, lo, mid) && Agree(b, b', lo, mid) && lo <= mid <= cell.name.start
    requires cell.name.end < cell.value.start && cell.value.end < hi
    requires Stored(b', s, cell.name, NO_FLAGS) && Stored(b', s, cell.value, TEXT_FLAGS)
    ensures AttrsNeat(attrs + [cell], b', s, lo, hi)
  {
    assert cell.name.start <= cell.name.end && cell.value.start <= cell.value.end;
    hide Stored, Agree, StoredAt;
    var r, r' := Record(DocumentKind, EMPTY_PAIR, attrs), Record(DocumentKind, EMPTY_PAIR, attrs + [cell]);
    NeatFrame(r, b, b', s, lo, mid);
    forall sl | HasSlot(r', sl) ensures StoredAt(r', b', s, lo, hi, sl) && NewOrOld(r, r', cell, sl, mid) {
      AppendAt(r, r', cell, b', s, lo, mid, hi, sl);
    }
    StillApart(r, r', cell, b', s, lo, mid, hi);
  }

  lemma AppendAt(r: Record, r': Record, cell: AttrCell, b: bytes, s: bytes, lo: nat, mid: nat, hi: nat, sl: Slot)
    requires r.kind == DocumentKind && r' == r.(attrs := r.attrs + [cell]) && HasSlot(r', sl)
    requires Neat(r, b, s, lo, mid) && lo <= mid <= cell.name.start
    requires cell.name.end < cell.value.start && cell.value.end < hi
    requires cell.name.start <= cell.name.end && cell.value.start <= cell.value.end
    requires Stored(b, s, cell.name, NO_FLAGS) && Stored(b, s, cell.value, TEXT_FLAGS)
    ensures StoredAt(r', b, s, lo, hi, sl) && NewOrOld(r, r', cell, sl, mid)
  {
    hide Stored;
    if HasSlot(r, sl) {
      assert StoredAt(r, b, s, lo, mid, sl);
    }
  }

  lemma StillApart(r: Record, r': Record, cell: AttrCell, b: bytes, s: bytes, lo: nat, mid: nat, hi: nat)
    requires Neat(r, b, s, lo, mid) && mid <= cell.name.start <= cell.name.end < cell.value.start <= cell.value.end
    requires forall sl :: HasSlot(r', sl) ==> StoredAt(r', b, s, lo, hi, sl) && NewOrOld(r, r', cell, sl, mid)
    ensures Neat(r', b, s, lo, hi)
  {
    hide StoredAt;
    forall sl, sl' | HasSlot(r', sl) && HasSlot(r', sl') && sl != sl' ensures Apart(PairAt(r', sl), PairAt(r', sl')) {
      assert NewOrOld(r, r', cell, sl, mid) && NewOrOld(r, r', cell, sl', mid);
    }
  }

  /** After an attribute was added, a string is that of the same place before, or one of the two new ones. */
  ghost predicate NewOrOld(r: Record, r': Record, cell: AttrCell, sl: Slot, mid: nat)
    requires HasSlot(r', sl)
  {
    if HasSlot(r, sl) then PairAt(r', sl) == PairAt(r, sl) && PairAt(r, sl).end < mid
    else
      || (sl == NameSlot(|r.attrs|) && PairAt(r', sl) == cell.name)
      || (sl == AttrSlot(|r.attrs|) && PairAt(r', sl) == cell.value)
  }

  lemma ElementNeat(value: StrPair, attrs: seq<AttrCell>, b: bytes, s: bytes, lo: nat, mid: nat, hi: nat)
    requires Stored(b, s, value, NO_FLAGS) && lo <= value.start && value.end < mid <= hi
    requires AttrsNeat(attrs, b, s, mid, hi)
    ensures Neat(Record(ElementKind, value, attrs), b, s, lo, hi)
  {
    var r, r' := Record(DocumentKind, EMPTY_PAIR, attrs), Record(ElementKind, value, attrs);
    forall sl | HasSlot(r', sl)
      ensures StoredAt(r', b, s, lo, hi, sl)
      ensures sl == ValueSlot || (HasSlot(r, sl) && PairAt(r, sl) == PairAt(r', sl) && mid <= PairAt(r, sl).start)
    {
      if HasSlot(r, sl) {
        assert StoredAt(r, b, s, mid, hi, sl);
      }
    }
  }

  lemma LeafNeat(kind: LeafKind, value: StrPair, b: bytes, s: bytes, lo: nat, hi: nat)
    requires Stored(b, s, value, LeafFlags(kind)) && lo <= value.start && value.end < hi
    ensures Neat(Record(LeafNodeKind(kind), value, []), b, s, lo, hi)
  {
  }

  /** What `GetStr` leaves of a pair: it now stands on its decoding. */
  lemma ReadStored(b: bytes, b': bytes, s: bytes, x: StrPair, r: StrPair, f: Flags)
    requires Stored(b, s, x, f) && |b'| == |b|
    requires r == x.(flush := false, flags := if x.flush then NO_FLAGS else x.flags)
    requires x.flush ==> Decode(s[x.start..x.end], f).Some?
                         && Holds(b', x.start, x.end, Decode(b[x.start..x.end], f).value)
    requires !x.flush ==> b' == b
    ensures Stored(b', s, r, f)
  {
  }

  /** A name that was read is the NUL-terminated name of the text. */
  lemma NameText(b: bytes, s: bytes, x: StrPair)
    requires Stored(b, s, x, NO_FLAGS) && !x.flush && NoNul(s)
    ensures TextAt(b, x.start, s[x.start..x.end])
  {
    var d := s[x.start..x.end];
    DecodePlain(d);
    forall k | x.start <= k < x.start + |d| ensures b[k] == d[k - x.start] {
      assert b[x.start..x.start + |d|][k - x.start] == b[k];
    }
  }

  /** Outside of its range, `GetStr` leaves the buffer as it was. */
  ghost predicate OnlyRange(b: bytes, b': bytes, x: StrPair) {
    |b| == |b'| && x.start <= x.end < |b| && b'[..x.start] == b[..x.start] && b'[x.end + 1..] == b[x.end + 1..]
  }

  lemma RangeAgree(b: bytes, b': bytes, x: StrPair, lo: nat, hi: nat)
    requires OnlyRange(b, b', x) && (hi <= x.start || x.end < lo)
    ensures Agree(b, b', lo, hi)
  {
    forall k | lo <= k < hi && k < |b| ensures b[k] == b'[k] {
      if hi <= x.start {
        assert b[..x.start][k] == b'[..x.start][k];
      } else {
        assert b[x.end + 1..][k - (x.end + 1)] == b'[x.end + 1..][k - (x.end + 1)];
      }
    }
  }

  /** The record after one of its strings was read: the pair moved nowhere. */
  ghost predicate SameBut(r: Record, r': Record, at: Slot) {
    && r'.kind == r.kind && |r'.attrs| == |r.attrs|
    && (forall sl :: HasSlot(r, sl) && sl != at ==> PairAt(r', sl) == PairAt(r, sl))
    && (HasSlot(r, at) ==> PairAt(r', at).start == PairAt(r, at).start && PairAt(r', at).end == PairAt(r, at).end)
  }

  lemma StoredApart(b: bytes, b': bytes, s: bytes, x: StrPair, f: Flags, y: StrPair)
    requires Stored(b, s, x, f) && OnlyRange(b, b', y) && Apart(x, y)
    ensures Stored(b', s, x, f)
  {
    RangeAgree(b, b', y, x.start, x.end + 1);
    StoredFrame(b, b', s, x, f, x.start, x.end + 1);
  }

  /** Reading one string of a node leaves its other strings as they were. */
  lemma NeatAfter(r: Record, r': Record, at: Slot, b: bytes, b': bytes, s: bytes, lo: nat, hi: nat)
    requires Neat(r, b, s, lo, hi) && HasSlot(r, at) && OnlyRange(b, b', PairAt(r, at)) && SameBut(r, r', at)
    requires Stored(b', s, PairAt(r', at), SlotFlags(r.kind, at))
    ensures Neat(r', b', s, lo, hi)
  {
    forall sl | HasSlot(r', sl)
      ensures StoredAt(r', b', s, lo, hi, sl)
    {
      assert HasSlot(r, sl) && StoredAt(r, b, s, lo, hi, sl);
      if sl != at {
        StoredApart(b, b', s, PairAt(r, sl), SlotFlags(r.kind, sl), PairAt(r, at));
      }
    }
    SameApart(r, r', at);
  }

  lemma SameApart(r: Record, r': Record, at: Slot)
    requires SameBut(r, r', at) && HasSlot(r, at)
    requires forall sl, sl' :: HasSlot(r, sl) && HasSlot(r, sl') && sl != sl' ==> Apart(PairAt(r, sl), PairAt(r, sl'))
    ensures forall sl, sl' :: HasSlot(r', sl) && HasSlot(r', sl') && sl != sl' ==> Apart(PairAt(r', sl), PairAt(r', sl'))
  {
    forall sl, sl' | HasSlot(r', sl) && HasSlot(r', sl') && sl != sl' ensures Apart(PairAt(r', sl), PairAt(r', sl')) {
      assert HasSlot(r, sl) && HasSlot(r, sl') && Apart(PairAt(r, sl), PairAt(r, sl'));
    }
  }

  /** Nor does it touch the strings of another node. */
  lemma NeatOther(r: Record, b: bytes, b': bytes, s: bytes, lo: nat, hi: nat, y: StrPair)
    requires Neat(r, b, s, lo, hi) && OnlyRange(b, b', y)
    requires forall sl :: HasSlot(r, sl) ==> Apart(PairAt(r, sl), y)
    ensures Neat(r, b', s, lo, hi)
  {
    forall sl | HasSlot(r, sl) ensures StoredAt(r, b', s, lo, hi, sl) {
      assert StoredAt(r, b, s, lo, hi, sl);
      StoredApart(b, b', s, PairAt(r, sl), SlotFlags(r.kind, sl), y);
    }
  }

  lemma ReadableWider(part: set<XMLNode>, b: bytes, s: bytes, lo: nat, hi: nat, lo': nat, hi': nat)
    requires Readable(part, b, s, lo, hi) && lo' <= lo && hi <= hi'
    ensures Readable(part, b, s, lo', hi')
  {
    forall m | m in part ensures Neat(RecordOf(m), b, s, lo', hi') {
      NeatWider(RecordOf(m), b, s, lo, hi, lo', hi');
    }
  }

  /** Reading a string of `m` keeps all strings of the part readable. */
  twostate lemma ReadableAfter(part: set<XMLNode>, new m: XMLNode, new at: Slot, new b: bytes, new b': bytes,
                               new s: bytes, new lo: nat, new hi: nat)
    requires old(allocated(m)) && old(Readable(part, b, s, lo, hi)) && m in part && HasSlot(old(RecordOf(m)), at)
    requires forall x :: x in part && x != m ==> x.value == old(x.value) && x.attrs == old(x.attrs)
    requires SameBut(old(RecordOf(m)), RecordOf(m), at) && OnlyRange(b, b', PairAt(old(RecordOf(m)), at))
    requires Stored(b', s, PairAt(RecordOf(m), at), SlotFlags(m.kind, at))
    ensures Readable(part, b', s, lo, hi)
  {
    hide Neat, OnlyRange, Stored, ApartRecords;
    ghost var r := old(RecordOf(m));
    forall x | x in part ensures Neat(RecordOf(x), b', s, lo, hi) {
      assert old(Neat(RecordOf(x), b, s, lo, hi));
      if x == m {
        NeatAfter(r, RecordOf(m), at, b, b', s, lo, hi);
      } else {
        assert old(ApartRecords(RecordOf(x), RecordOf(m)));
        ApartFrom(RecordOf(x), r, at);
        NeatOther(RecordOf(x), b, b', s, lo, hi, PairAt(r, at));
      }
    }
    forall x, y | x in part && y in part && x != y ensures ApartRecords(RecordOf(x), RecordOf(y)) {
      assert old(ApartRecords(RecordOf(x), RecordOf(y)));
      if x == m {
        ApartStays(r, RecordOf(m), at, RecordOf(y));
      } else if y == m {
        ApartStays(r, RecordOf(m), at, RecordOf(x));
      }
    }
  }

  lemma ApartFrom(r: Record, r': Record, at: Slot)
    requires ApartRecords(r, r') && HasSlot(r', at)
    ensures forall sl :: HasSlot(r, sl) ==> Apart(PairAt(r, sl), PairAt(r', at))
  {
  }

  lemma ApartStays(r: Record, r': Record, at: Slot, o: Record)
    requires SameBut(r, r', at) && HasSlot(r, at)
    ensures ApartRecords(r, o) ==> ApartRecords(r', o)
    ensures ApartRecords(o, r) ==> ApartRecords(o, r')
  {
    forall sl, sl' | HasSlot(r', sl) && HasSlot(o, sl')
      ensures ApartRecords(r, o) ==> Apart(PairAt(r', sl), PairAt(o, sl'))
      ensures ApartRecords(o, r) ==> Apart(PairAt(o, sl'), PairAt(r', sl))
    {
      assert HasSlot(r, sl);
    }
  }

  /** The pair of a name that was not read yet needs the bytes of the name only. */
  lemma UnreadFrame(b: bytes, b': bytes, s: bytes, x: StrPair)
    requires Stored(b, s, x, NO_FLAGS) && x.flush && Agree(b, b', 0, x.end)
    ensures Stored(b', s, x, NO_FLAGS)
  {
    assert b'[x.start..x.end] == b[x.start..x.end];
  }

  /** The names of attributes are read while parsing, in the search for a repeated name. */
  ghost predicate NamesRead(attrs: seq<AttrCell>) {
    forall k :: 0 <= k < |attrs| ==> !attrs[k].name.flush
  }

  lemma NameAt(attrs: seq<AttrCell>, b: bytes, s: bytes, lo: nat, mid: nat, k: nat)
    requires AttrsNeat(attrs, b, s, lo, mid) && NamesRead(attrs) && NoNul(s) && k < |attrs|
    ensures |RawAttrs(attrs)| == |attrs| && !attrs[k].name.flush && attrs[k].name.start <= attrs[k].name.end < |b|
    ensures TextAt(b, attrs[k].name.start, Slice(s, RawAttrs(attrs)[k].name))
  {
    assert StoredAt(Record(DocumentKind, EMPTY_PAIR, attrs), b, s, lo, mid, NameSlot(k));
    NameText(b, s, attrs[k].name);
    RawAttrsAt(attrs, k);
  }

  lemma AttrsFrame(attrs: seq<AttrCell>, b: bytes, b': bytes, s: bytes, lo: nat, hi: nat)
    requires AttrsNeat(attrs, b, s, lo, hi) && Agree(b, b', lo, hi)
    ensures AttrsNeat(attrs, b', s, lo, hi)
  {
    NeatFrame(Record(DocumentKind, EMPTY_PAIR, attrs), b, b', s, lo, hi);
  }

  /** An element, its tag read from `lo` to `mid`, and what was read behind it up to `hi`. */
  ghost predicate BodyRead(node: XMLNode, b: bytes, s: bytes, lo: nat, mid: nat, hi: nat)
    reads node`repr, node`value, node`attrs, node.repr`value, node.repr`attrs
  {
    && node.kind == ElementKind && mid <= hi && Neat(RecordOf(node), b, s, lo, mid)
    && Readable(node.repr - {node}, b, s, mid, hi)
  }

  lemma BodyFrame(node: XMLNode, b: bytes, b': bytes, s: bytes, lo: nat, mid: nat, hi: nat)
    requires BodyRead(node, b, s, lo, mid, hi) && Agree(b, b', 0, hi)
    ensures BodyRead(node, b', s, lo, mid, hi)
  {
    NeatFrame(RecordOf(node), b, b', s, lo, mid);
    ReadableFrame(node.repr - {node}, b, b', s, mid, hi);
  }

  /** The bytes after the name of the element was read; `r` is its record before that. */
  lemma BodyAfter(node: XMLNode, r: Record, b: bytes, b': bytes, s: bytes, lo: nat, mid: nat, hi: nat)
    requires r.kind == ElementKind == node.kind && mid <= hi && Neat(r, b, s, lo, mid)
    requires Readable(node.repr - {node}, b, s, mid, hi)
    requires node.value == r.value.(flush := false) && node.attrs == r.attrs
    requires OnlyRange(b, b', r.value) && Stored(b', s, node.value, NO_FLAGS)
    ensures BodyRead(node, b', s, lo, mid, hi)
  {
    assert StoredAt(r, b, s, lo, mid, ValueSlot);
    NeatAfter(r, RecordOf(node), ValueSlot, b, b', s, lo, mid);
    RangeAgree(b, b', r.value, mid, hi);
    ReadableFrame(node.repr - {node}, b, b', s, mid, hi);
  }

  lemma InBody(node: XMLNode, b: bytes, s: bytes, lo: nat, mid: nat, hi: nat)
    requires BodyRead(node, b, s, lo, mid, hi)
    ensures Stored(b, s, node.value, NO_FLAGS) && lo <= node.value.start <= node.value.end < mid <= hi
    ensures node.kind == ElementKind && Neat(RecordOf(node), b, s, lo, mid)
    ensures Readable(node.repr - {node}, b, s, mid, hi)
  {
    assert StoredAt(RecordOf(node), b, s, lo, mid, ValueSlot);
  }

  /** The buffer before and after the name of a new attribute was read. */
  lemma AfterName(attrs: seq<AttrCell>, cell: AttrCell, name: StrPair, b: bytes, b': bytes, s: bytes,
                         lo: nat, p: nat, next: nat)
    requires Tail(b, s, p) && AttrsNeat(attrs, b, s, lo, p) && lo <= p == cell.name.start
    requires cell.name.end < cell.value.start <= cell.value.end < next <= |s| && cell.name.start <= cell.name.end
    requires cell.name.flush && cell.name.flags == NO_FLAGS && cell.value.flush && cell.value.flags == TEXT_FLAGS
    requires OnlyRange(b, b', cell.name) && name == cell.name.(flush := false)
    requires Decode(b[p..cell.name.end], NO_FLAGS).Some?
    requires Holds(b', p, cell.name.end, Decode(b[p..cell.name.end], NO_FLAGS).value)
    ensures Agree(b, b', 0, p) && Tail(b', s, next) && AttrsNeat(attrs, b', s, lo, p)
    ensures Stored(b', s, name, NO_FLAGS) && Stored(b', s, cell.value, TEXT_FLAGS)
  {
    hide Neat, AttrsNeat;
    TailStored(b, s, p, cell.name);
    RangeAgree(b, b', cell.name, 0, p);
    RangeAgree(b, b', cell.name, cell.name.end + 1, |b|);
    assert Tail(b', s, cell.name.end + 1);
    TailStored(b', s, cell.name.end + 1, cell.value);
    DecodePlain(b[p..cell.name.end]);
    AttrsFrame(attrs, b, b', s, lo, p);
  }
}
