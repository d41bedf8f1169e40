/**
 Decoding, byte by byte: a text is put together from characters, line ends, named
 entities and numeric references, each written out, and is read as what they stand for.
 */
module DecodedText {
  import opened Bytes
  import opened CharRef
  import opened Decoding
  import opened Documents
  import opened Numerals
  import opened Parsing

  /** The four ways to end a line that the code knows. */
  datatype LineEnd = Lf | Cr | CrLf | LfCr

  datatype Item =
    | Char(b: byte)
    | Ending(form: LineEnd)
    | Quot | Amp | Apos | Lt | Gt
    | Number(n: nat, hex: bool, table: bytes)

  function WriteEnd(form: LineEnd): bytes {
    match form
    case Lf => [10]
    case Cr => [13]
    case CrLf => [13, 10]
    case LfCr => [10, 13]
  }

  predicate ItemOk(x: Item, f: Flags) {
    match x
    case Char(b) => b != 10 && b != 13 && (f.entities ==> b != 38)
    case Ending(_) => true
    case Number(n, hex, table) => f.entities && n < 0x1_0000_0000 && IsTable(if hex then 16 else 10, table)
    case _ => f.entities
  }

  /** The item as it stands in the text. */
  function WriteItem(x: Item): (w: bytes) {
    match x
    case Char(b) => [b]
    case Ending(form) => WriteEnd(form)
    case Quot => [38, 113, 117, 111, 116, 59]     // &quot;
    case Amp => [38, 97, 109, 112, 59]            // &amp;
    case Apos => [38, 97, 112, 111, 115, 59]      // &apos;
    case Lt => [38, 108, 116, 59]                 // &lt;
    case Gt => [38, 103, 116, 59]                 // &gt;
    case Number(n, hex, table) =>
      var base := if hex then 16 else 10;
      (if hex then [38, 35, 120] else [38, 35])
      + (if base <= |table| then Numeral(n, base, table) else []) + [59]
  }

  /** The bytes that it stands for. */
  function ItemMeans(x: Item): bytes {
    match x
    case Char(b) => [b]
    case Ending(_) => [10]
    case Quot => [34]
    case Amp => [38]
    case Apos => [39]
    case Lt => [60]
    case Gt => [62]
    case Number(n, _, _) => Utf8(n)
  }

  function WriteItems(xs: seq<Item>): bytes {
    if xs == [] then [] else WriteItem(xs[0]) + WriteItems(xs[1..])
  }

  function ItemsMean(xs: seq<Item>): bytes {
    if xs == [] then [] else ItemMeans(xs[0]) + ItemsMean(xs[1..])
  }

  /** No line end of one byte is followed by the byte that would make it one of two. */
  predicate Separate(x: Item, rest: bytes) {
    && (x == Ending(Lf) ==> Peek(rest, 0) != 13)
    && (x == Ending(Cr) ==> Peek(rest, 0) != 10)
  }

  predicate ItemsOk(xs: seq<Item>, f: Flags) {
    xs == [] || (ItemOk(xs[0], f) && Separate(xs[0], WriteItems(xs[1..])) && ItemsOk(xs[1..], f))
  }

  // ------------------------------------------------------------ one round

  lemma NamedStep(x: Item, rest: bytes, f: Flags)
    requires f.entities && (x.Quot? || x.Amp? || x.Apos? || x.Lt? || x.Gt?)
    ensures StepAt(WriteItem(x) + rest, f) == Some(Write(|WriteItem(x)|, ItemMeans(x)))
  {
    hide StepAt;
    var i := if x.Quot? then 0 else if x.Amp? then 1 else if x.Apos? then 2 else if x.Lt? then 3 else 4;
    EntityStep(i, rest, f);
    assert EntityText(i) == WriteItem(x);
  }

  lemma NumberStep(x: Item, rest: bytes, f: Flags)
    requires x.Number? && ItemOk(x, f)
    ensures StepAt(WriteItem(x) + rest, f) == Some(Write(|WriteItem(x)|, ItemMeans(x)))
  {
    hide CharacterRef, Utf8, Numeral, FindEntity;
    TableSize(if x.hex then 16 else 10, x.table);
    NumeralReference(x.n, x.hex, x.table, rest);
    var t := WriteItem(x) + rest;
    assert t[0] == 38 && t[1] == 35;
  }

  lemma ItemStep(x: Item, rest: bytes, f: Flags)
    requires f.newlines && ItemOk(x, f) && Separate(x, rest)
    ensures StepAt(WriteItem(x) + rest, f) == Some(Write(|WriteItem(x)|, ItemMeans(x)))
  {
    match x
    case Number(_, _, _) => NumberStep(x, rest, f);
    case Char(b) => assert (WriteItem(x) + rest)[0] == b;
    case Ending(form) =>
      var t := WriteItem(x) + rest;
      assert Peek(t, 1) == if |WriteEnd(form)| == 2 then WriteEnd(form)[1] else Peek(rest, 0);
    case _ => NamedStep(x, rest, f);
  }

  lemma {:induction false} ItemsScript(xs: seq<Item>, f: Flags)
    requires f.newlines && ItemsOk(xs, f)
    ensures var sc := Script(WriteItems(xs), f);
            && sc.Some? && Meaning(sc.value) == ItemsMean(xs)
            && (forall k :: 0 <= k < |sc.value| ==> sc.value[k].Write?)
  {
    hide StepAt, WriteItem, ItemMeans, ItemOk;
    if xs != [] {
      var x, rest := xs[0], WriteItems(xs[1..]);
      ItemsScript(xs[1..], f);
      ItemNotEmpty(x);
      ItemStep(x, rest, f);
      var st, sc := Write(|WriteItem(x)|, ItemMeans(x)), Script(rest, f).value;
      ScriptCons(WriteItem(x) + rest, f, st, rest);
      assert ([st] + sc)[1..] == sc;
    }
  }

  lemma ItemNotEmpty(x: Item)
    ensures WriteItem(x) != []
  {
  }

  /** The text is read as what its items stand for. */
  lemma DecodeItems(xs: seq<Item>, f: Flags)
    requires f.newlines && ItemsOk(xs, f)
    ensures Decode(WriteItems(xs), f) == Some(ItemsMean(xs))
  {
    ItemsScript(xs, f);
    NoSkipMeets(WriteItems(xs), Script(WriteItems(xs), f).value, 0);
    DecodeIsMeaning(WriteItems(xs), f);
  }

  // ------------------------------------------------------------ lines

  function JoinLines(lines: seq<bytes>, end: bytes): bytes {
    if lines == [] then [] else if |lines| == 1 then lines[0] else lines[0] + end + JoinLines(lines[1..], end)
  }

  /** The bytes of a line, or of several lines that end in LF. */
  function CharItems(v: bytes): (xs: seq<Item>)
    ensures |xs| == |v|
  {
    if v == [] then [] else [if v[0] == 10 then Ending(Lf) else Char(v[0])] + CharItems(v[1..])
  }

  lemma {:induction false} CharsBefore(v: bytes, ys: seq<Item>, f: Flags)
    requires (forall k :: 0 <= k < |v| ==> v[k] != 13 && (f.entities ==> v[k] != 38)) && ItemsOk(ys, f)
    requires v != [] && v[|v| - 1] == 10 ==> Peek(WriteItems(ys), 0) != 13
    ensures ItemsOk(CharItems(v) + ys, f)
    ensures WriteItems(CharItems(v) + ys) == v + WriteItems(ys) && ItemsMean(CharItems(v) + ys) == v + ItemsMean(ys)
    decreases |v|
  {
    if v == [] {
      assert CharItems(v) + ys == ys;
      ConcatEmpty(WriteItems(ys));
      ConcatEmpty(ItemsMean(ys));
    } else {
      var x := if v[0] == 10 then Ending(Lf) else Char(v[0]);
      var c, w := v[0], v[1..];
      CharsBefore(w, ys, f);
      assert v == [c] + w && CharItems(v) == [x] + CharItems(w);
      assert Peek(w + WriteItems(ys), 0) == if |w| > 0 then w[0] else Peek(WriteItems(ys), 0);
      hide *;
      ConcatAssoc([x], CharItems(w), ys);
      OneMore(x, c, CharItems(w) + ys, f);
      ConcatAssoc([c], w, WriteItems(ys));
      ConcatAssoc([c], w, ItemsMean(ys));
    }
  }

  lemma OneMore(x: Item, c: byte, zs: seq<Item>, f: Flags)
    requires x == if c == 10 then Ending(Lf) else Char(c)
    requires c != 13 && (f.entities ==> c != 38) && ItemsOk(zs, f) && (c == 10 ==> Peek(WriteItems(zs), 0) != 13)
    ensures ItemsOk([x] + zs, f) && WriteItems([x] + zs) == [c] + WriteItems(zs)
    ensures ItemsMean([x] + zs) == [c] + ItemsMean(zs)
  {
    assert ([x] + zs)[1..] == zs;
  }

  /** The bytes of lines have no line ends, and no `&` where entities are read. */
  ghost predicate LinesOk(lines: seq<bytes>, f: Flags) {
    forall i, k :: 0 <= i < |lines| && 0 <= k < |lines[i]| ==>
      lines[i][k] != 10 && lines[i][k] != 13 && (f.entities ==> lines[i][k] != 38)
  }

  lemma {:induction false} LinesAreItems(lines: seq<bytes>, form: LineEnd, f: Flags) returns (xs: seq<Item>)
    requires LinesOk(lines, f)
    ensures ItemsOk(xs, f)
    ensures WriteItems(xs) == JoinLines(lines, WriteEnd(form)) && ItemsMean(xs) == JoinLines(lines, [10])
    ensures form == Lf ==> Peek(WriteItems(xs), 0) != 13
    ensures form == Cr ==> Peek(WriteItems(xs), 0) != 10
    decreases |lines|
  {
    if lines == [] {
      xs := [];
    } else if |lines| == 1 {
      CharsBefore(lines[0], [], f);
      assert CharItems(lines[0]) + [] == CharItems(lines[0]);
      ConcatEmpty(lines[0]);
      xs := CharItems(lines[0]);
    } else {
      var rest := LinesAreItems(lines[1..], form, f);
      var ys := OneEnding(form, rest, f);
      var line := lines[0];
      assert line + WriteEnd(form) + JoinLines(lines[1..], WriteEnd(form)) == JoinLines(lines, WriteEnd(form));
      CharsBefore(line, ys, f);
      xs := CharItems(line) + ys;
      ConcatAssoc(line, WriteEnd(form), JoinLines(lines[1..], WriteEnd(form)));
      ConcatAssoc(line, [10], JoinLines(lines[1..], [10]));
    }
  }

  lemma OneEnding(form: LineEnd, rest: seq<Item>, f: Flags) returns (ys: seq<Item>)
    requires ItemsOk(rest, f) && (form == Lf ==> Peek(WriteItems(rest), 0) != 13) && (form == Cr ==> Peek(WriteItems(rest), 0) != 10)
    ensures ItemsOk(ys, f) && WriteItems(ys) == WriteEnd(form) + WriteItems(rest) && ItemsMean(ys) == [10] + ItemsMean(rest)
  {
    ys := [Ending(form)] + rest;
    assert ys[1..] == rest;
  }

  /** XML 1.0 section 2.11, and LF CR: however lines end, they are read as ending in LF. */
  lemma LineEndsAreOne(lines: seq<bytes>, form: LineEnd, f: Flags)
    requires f == NEWLINES_ONLY || f == TEXT_FLAGS
    requires LinesOk(lines, Flags(f == TEXT_FLAGS, true))
    ensures Decode(JoinLines(lines, match form case Lf => [10] case Cr => [13] case CrLf => [13, 10] case LfCr => [10, 13]), f)
         == Some(JoinLines(lines, [10]))
  {
    var xs := LinesAreItems(lines, form, f);
    DecodeItems(xs, f);
  }

  // ------------------------------------------------------------ entities

  /** The five entities, in front of any text without `&` and CR. */
  lemma NamedEntities(v: bytes)
    requires forall k :: 0 <= k < |v| ==> v[k] != 38 && v[k] != 13
    ensures Decode([38, 113, 117, 111, 116, 59] + v, TEXT_FLAGS) == Some([34] + v)
    ensures Decode([38, 97, 109, 112, 59] + v, TEXT_FLAGS) == Some([38] + v)
    ensures Decode([38, 97, 112, 111, 115, 59] + v, TEXT_FLAGS) == Some([39] + v)
    ensures Decode([38, 108, 116, 59] + v, TEXT_FLAGS) == Some([60] + v)
    ensures Decode([38, 103, 116, 59] + v, TEXT_FLAGS) == Some([62] + v)
  {
    hide Decode, WriteItems, ItemsMean;
    OneEntity(Quot, v);
    OneEntity(Amp, v);
    OneEntity(Apos, v);
    OneEntity(Lt, v);
    OneEntity(Gt, v);
  }

  lemma OneEntity(x: Item, v: bytes)
    requires forall k :: 0 <= k < |v| ==> v[k] != 38 && v[k] != 13
    requires x.Quot? || x.Amp? || x.Apos? || x.Lt? || x.Gt?
    ensures Decode(WriteItem(x) + v, TEXT_FLAGS) == Some(ItemMeans(x) + v)
  {
    hide Decode, WriteItem, ItemMeans;
    CharsBefore(v, [], TEXT_FLAGS);
    assert CharItems(v) + [] == CharItems(v);
    ConcatEmpty(v);
    var xs := [x] + CharItems(v);
    assert xs[1..] == CharItems(v);
    DecodeItems(xs, TEXT_FLAGS);
  }

  // ------------------------------------------------------------ the rest of the ampersands

  lemma EntityAtFront(t: bytes, i: nat)
    requires t != [] && t[0] == 38 && i < NUM_ENTITIES
    ensures EntityAt(t, i) <==> At(t, 0, EntityText(i))
  {
    var p := EntityTable(i).pattern;
    AtSplit(t, 0, [AMP] + p, [SEMI]);
    AtSplit(t, 0, [AMP], p);
    AtOne(t, 0, AMP);
    AtOne(t, 1 + |p|, SEMI);
  }

  /** An `&` is passed over exactly if none of the five entities and no `&#` stands there. */
  lemma PassedOverIff(t: bytes, f: Flags)
    requires t != []
    ensures StepAt(t, f) == Some(Skip) <==>
      && f.entities && t[0] == 38 && Peek(t, 1) != 35
      && !At(t, 0, [38, 113, 117, 111, 116, 59]) && !At(t, 0, [38, 97, 109, 112, 59])
      && !At(t, 0, [38, 97, 112, 111, 115, 59]) && !At(t, 0, [38, 108, 116, 59]) && !At(t, 0, [38, 103, 116, 59])
  {
    if f.entities && t[0] == 38 {
      FiveTexts();
      hide At, EntityAt, EntityText, CharacterRef;
      EntityAtFront(t, 0);
      EntityAtFront(t, 1);
      EntityAtFront(t, 2);
      EntityAtFront(t, 3);
      EntityAtFront(t, 4);
      if FindEntity(t, 0) == NUM_ENTITIES {
        NoEntityFound(t, 0);
      }
    }
  }

  lemma FiveTexts()
    ensures EntityText(0) == [38, 113, 117, 111, 116, 59] && EntityText(1) == [38, 97, 109, 112, 59]
    ensures EntityText(2) == [38, 97, 112, 111, 115, 59] && EntityText(3) == [38, 108, 116, 59]
    ensures EntityText(4) == [38, 103, 116, 59]
  {
  }

  lemma NoEntityFound(t: bytes, i: nat)
    requires i <= NUM_ENTITIES && FindEntity(t, i) == NUM_ENTITIES
    ensures forall j :: i <= j < NUM_ENTITIES ==> !EntityAt(t, j)
    decreases NUM_ENTITIES - i
  {
    if i < NUM_ENTITIES {
      NoEntityFound(t, i + 1);
    }
  }

  // ------------------------------------------------------------ strings of a document

  /** A text is read with its entities and line ends; the other leaves with their line ends only. */
  lemma LeafText(s: bytes, kind: LeafKind, value: Span, xs: seq<Item>)
    requires Slice(s, value) == WriteItems(xs) && ItemsOk(xs, Flags(kind == PlainText, true))
    ensures NodeOf(s, RawLeaf(kind, value)) == Some(LeafNode(kind, ItemsMean(xs)))
  {
    hide WriteItems, ItemsMean, ItemsOk, Slice;
    DecodeItems(xs, Flags(kind == PlainText, true));
  }

  /** An attribute has its name as it stands, and its value with entities and line ends read. */
  lemma AttrText(s: bytes, raw: RawAttr, xs: seq<Item>, more: seq<RawAttr>, rest: seq<Attr>)
    requires Slice(s, raw.value) == WriteItems(xs) && ItemsOk(xs, Flags(true, true)) && AttrsOf(s, more) == Some(rest)
    ensures AttrsOf(s, [raw] + more) == Some([Attr(Slice(s, raw.name), ItemsMean(xs))] + rest)
  {
    hide WriteItems, ItemsMean, ItemsOk, Slice, Decode;
    DecodeItems(xs, Flags(true, true));
    assert ([raw] + more)[1..] == more;
  }
}
