/**
 `XMLPrinter` printing to memory. Every operation appends to the buffer what the
 functions of `Documents` say for the printer's state, and moves to the state they say.
 */
module Printer {
  import opened Bytes
  import opened Decoding
  import opened Escaping
  import opened Parsing
  import opened Documents
  import opened DynArrays

  const ENTITY_RANGE: nat := 64

  lemma {:induction false} EscapeConcat(a: bytes, b: bytes, restricted: bool)
    ensures Escape(a + b, restricted) == Escape(a, restricted) + Escape(b, restricted)
    decreases |a|
  {
    if a == [] {
      ConcatEmpty(b);
    } else {
      assert (a + b)[1..] == a[1..] + b && (a + b)[0] == a[0];
      EscapeConcat(a[1..], b, restricted);
      ConcatAssoc(EscapeByte(a[0], restricted), Escape(a[1..], restricted), Escape(b, restricted));
    }
  }

  lemma {:induction false} EscapePlain(a: bytes, restricted: bool)
    requires forall k :: 0 <= k < |a| ==> !Flagged(a[k], restricted)
    ensures Escape(a, restricted) == a
    decreases |a|
  {
    if a != [] {
      EscapePlain(a[1..], restricted);
      assert a == [a[0]] + a[1..];
    }
  }

  /** The texts one behind the other. */
  function Joined(texts: seq<bytes>): bytes {
    if texts == [] then [] else texts[0] + Joined(texts[1..])
  }

  lemma {:induction false} JoinedSnoc(texts: seq<bytes>, x: bytes)
    ensures Joined(texts + [x]) == Joined(texts) + x
  {
    if texts == [] {
      assert texts + [x] == [x];
    } else {
      assert (texts + [x])[1..] == texts[1..] + [x];
      JoinedSnoc(texts[1..], x);
      ConcatAssoc(texts[0], Joined(texts[1..]), x);
    }
  }

  class XMLPrinter {
    var elementJustOpened: bool
    var firstElement: bool
    var depth: int
    var textDepth: int
    var processEntities: bool
    const compactMode: bool
    const entityFlag: seq<bool>
    const restrictedEntityFlag: seq<bool>
    const stack: DynArray<bytes>
    const buffer: DynArray<byte>

    ghost predicate Valid()
      reads stack, stack.mem, buffer, buffer.mem
    {
      && stack.Valid() && buffer.Valid()
      && buffer.size > 0 && buffer.mem[buffer.size - 1] == 0 && buffer.peak == buffer.size
      && FlagsFor(entityFlag, false) && FlagsFor(restrictedEntityFlag, true)
    }

    static ghost predicate FlagsFor(flags: seq<bool>, restricted: bool) {
      |flags| == ENTITY_RANGE && forall c: byte :: c < ENTITY_RANGE ==> flags[c] == Flagged(c, restricted)
    }

    /** Everything printed so far: the buffer without its NUL. */
    ghost function Out(): bytes
      reads buffer, buffer.mem
      requires buffer.Valid() && buffer.size > 0
    {
      buffer.Contents()[..buffer.size - 1]
    }

    /** `CStr()`, without its NUL. */
    method Text() returns (text: bytes)
      requires Valid()
      ensures text == Out()
    {
      text := buffer.mem[..buffer.size - 1];
    }

    ghost function State(): PState
      reads this
    {
      PState(elementJustOpened, firstElement, depth, textDepth)
    }

    /** The names of the open elements. */
    ghost function Names(): seq<bytes>
      reads stack, stack.mem
      requires stack.Valid()
    {
      stack.Contents()
    }

    ghost function Repr(): set<object>
      reads this, stack, buffer
    {
      {this, stack, stack.mem, buffer, buffer.mem}
    }

    constructor (compact: bool)
      ensures Valid() && fresh(Repr()) && Out() == [] && State() == START && Names() == []
      ensures processEntities && compactMode == compact
    {
      elementJustOpened := false;
      firstElement := true;
      depth := 0;
      textDepth := -1;
      processEntities := true;
      compactMode := compact;
      var none := seq(ENTITY_RANGE, _ => false);
      entityFlag := none[QUOTE := true][AMP := true][APOS := true][LT := true][GT := true];
      restrictedEntityFlag := none[AMP := true][LT := true][GT := true];
      var st := new DynArray<bytes>(10);
      var buf := new DynArray<byte>(20);
      buf.Push(0);
      stack, buffer := st, buf;
    }

    /** `Print`, with its format already expanded to `text`: overwrites the NUL and adds a new one. */
    method Print(text: bytes)
      requires Valid()
      modifies buffer, buffer.mem
      ensures Valid() && (buffer.mem == old(buffer.mem) || fresh(buffer.mem))
      ensures Out() == old(Out()) + text
    {
      ghost var out := Out();
      var p := buffer.PushArr(|text|);
      p := p - 1;
      assert buffer.mem[..p] == out;
      WriteText(buffer.mem, p, text);
      assert Out() == buffer.mem[..p] + buffer.mem[p..p + |text|];
    }

    /** The copying done for the buffer is linear in the output, whatever was called. */
    lemma CopiesAreLinear()
      requires Valid()
      ensures buffer.copied == 0 || buffer.copied < 2 * (|Out()| + 1)
    {
    }

    /** Any run of `Print`: the buffer is all of the output and one NUL. */
    method PrintAll(texts: seq<bytes>)
      requires Valid()
      modifies buffer, buffer.mem
      ensures Valid() && (buffer.mem == old(buffer.mem) || fresh(buffer.mem))
      ensures buffer.Contents() == old(Out()) + Joined(texts) + [0]
      ensures buffer.copied == 0 || buffer.copied < 2 * (|old(Out())| + |Joined(texts)| + 1)
    {
      var k := 0;
      ghost var out := Out();
      assert texts[..0] == [];
      ConcatEmpty(out);
      while k < |texts|
        invariant k <= |texts| && Valid() && (buffer.mem == old(buffer.mem) || fresh(buffer.mem))
        invariant Out() == out + Joined(texts[..k])
      {
        hide Out;
        Print(texts[k]);
        JoinedSnoc(texts[..k], texts[k]);
        assert texts[..k + 1] == texts[..k] + [texts[k]];
        ConcatAssoc(out, Joined(texts[..k]), texts[k]);
        k := k + 1;
      }
      assert texts[..k] == texts;
      CopiesAreLinear();
    }

    /** `PrintSpace`: four spaces for each level. */
    method PrintSpace(depth: int)
      requires Valid()
      modifies buffer, buffer.mem
      ensures Valid() && (buffer.mem == old(buffer.mem) || fresh(buffer.mem))
      ensures Out() == old(Out()) + Spaces(depth)
    {
      hide Out, Spaces;
      var i := 0;
      ghost var out := Out();
      NoSpaces(out, depth);
      while i < depth
        invariant 0 <= i && (0 <= depth ==> i <= depth) && (depth < 0 ==> i == 0)
        invariant Valid() && (buffer.mem == old(buffer.mem) || fresh(buffer.mem))
        invariant Out() == out + Spaces(i)
      {
        Print([SPACE, SPACE, SPACE, SPACE]);
        FourMore(out, i);
        i := i + 1;
      }
    }

    /** Prints the bytes `v[p..q]` one by one. */
    method PrintRun(v: bytes, p: nat, q: nat)
      requires Valid() && p <= q <= |v|
      modifies buffer, buffer.mem
      ensures Valid() && (buffer.mem == old(buffer.mem) || fresh(buffer.mem))
      ensures Out() == old(Out()) + v[p..q]
    {
      var k := p;
      ghost var out := Out();
      assert out + v[p..p] == out;
      while k < q
        invariant p <= k <= q
        invariant Valid() && (buffer.mem == old(buffer.mem) || fresh(buffer.mem))
        invariant Out() == out + v[p..k]
      {
        Print([v[k]]);
        ConcatAssoc(out, v[p..k], [v[k]]);
        assert v[p..k] + [v[k]] == v[p..k + 1];
        k := k + 1;
      }
    }

    /** The entity for a flagged byte: `&`, its name in the table, `;`. */
    method PrintEntity(c: byte, ghost restricted: bool)
      requires Valid() && Flagged(c, restricted)
      modifies buffer, buffer.mem
      ensures Valid() && (buffer.mem == old(buffer.mem) || fresh(buffer.mem))
      ensures Out() == old(Out()) + EscapeByte(c, restricted)
    {
      var i := 0;
      while i < NUM_ENTITIES && EntityTable(i).value != c
        invariant i <= NUM_ENTITIES && i <= EntityFor(c)
      {
        i := i + 1;
      }
      assert i == EntityFor(c);
      Print([AMP] + EntityTable(i).pattern + [SEMI]);
    }

    /** Looks for runs of bytes between entities: `p` is the start of the run, `q` looks ahead. */
    method PrintString(v: bytes, restricted: bool)
      requires Valid()
      modifies buffer, buffer.mem
      ensures Valid() && (buffer.mem == old(buffer.mem) || fresh(buffer.mem))
      ensures Out() == old(Out()) + if processEntities then Escape(v, restricted) else v
    {
      hide Out, Escape, Flagged;
      ghost var out := Out();
      var p := 0;
      if processEntities {
        p := PrintEscaped(v, restricted);
        EscapeRest(out, v, p, restricted);
      }
      if !processEntities || |v| - p > 0 {
        Print(v[p..]);
      }
    }

    /** The loop: everything up to the last flagged byte, with `p` behind it. */
    method PrintEscaped(v: bytes, restricted: bool) returns (p: nat)
      requires Valid()
      modifies buffer, buffer.mem
      ensures Valid() && (buffer.mem == old(buffer.mem) || fresh(buffer.mem))
      ensures p <= |v| && (forall k :: p <= k < |v| ==> !Flagged(v[k], restricted))
      ensures Out() == old(Out()) + Escape(v[..p], restricted)
    {
      p := 0;
      var q := 0;
      var flag := if restricted then restrictedEntityFlag else entityFlag;
      ghost var out := Out();
      EscapeNone(out, v, restricted);
      hide Out, Escape, EscapeByte, Flagged;
      while q < |v|
        invariant 0 <= p <= q <= |v|
        invariant forall k :: p <= k < q ==> !Flagged(v[k], restricted)
        invariant Valid() && (buffer.mem == old(buffer.mem) || fresh(buffer.mem))
        invariant Out() == out + Escape(v[..p], restricted)
      {
        if 0 < v[q] < ENTITY_RANGE {
          if flag[v[q]] {
            PrintFlagged(v, p, q, restricted, out);
            p := q + 1;
          }
        }
        q := q + 1;
      }
    }

    /** The run in front of a flagged byte, and the entity for that byte. */
    method PrintFlagged(v: bytes, p: nat, q: nat, restricted: bool, ghost out: bytes)
      requires Valid() && p <= q < |v| && Flagged(v[q], restricted)
      requires (forall k :: p <= k < q ==> !Flagged(v[k], restricted)) && Out() == out + Escape(v[..p], restricted)
      modifies buffer, buffer.mem
      ensures Valid() && (buffer.mem == old(buffer.mem) || fresh(buffer.mem))
      ensures Out() == out + Escape(v[..q + 1], restricted)
    {
      hide Out, Escape, EscapeByte;
      PrintRun(v, p, q);
      PrintEntity(v[q], restricted);
      EscapeRun(out, v, p, q, restricted);
    }

    method SealElement()
      requires Valid() && elementJustOpened
      modifies this, buffer, buffer.mem
      ensures Valid() && (buffer.mem == old(buffer.mem) || fresh(buffer.mem))
      ensures Out() == old(Out()) + [GT] && State() == old(State()).(justOpened := false)
      ensures processEntities == old(processEntities)
    {
      elementJustOpened := false;
      Print([GT]);
    }

    /** Seals the parent's tag and breaks the line, where that is due. */
    method BeginItem(indent: bool)
      requires Valid()
      modifies this, buffer, buffer.mem
      ensures Valid() && (buffer.mem == old(buffer.mem) || fresh(buffer.mem))
      ensures Out() == old(Out()) + Seal(old(State())) + if indent then Indent(old(State()), compactMode) else []
      ensures State() == old(State()).(justOpened := false) && processEntities == old(processEntities)
    {
      ghost var out, st := Out(), State();
      ConcatEmpty(out);
      if elementJustOpened {
        SealElement();
      }
      ConcatEmpty(out + Seal(st));
      if indent && textDepth < 0 && !firstElement && !compactMode {
        Print([LF]);
        PrintSpace(depth);
        ConcatAssoc(out + Seal(st), [LF], Spaces(depth));
      }
    }

    method OpenElement(name: bytes)
      requires Valid()
      modifies this, stack, stack.mem, buffer, buffer.mem
      ensures Valid() && (buffer.mem == old(buffer.mem) || fresh(buffer.mem))
      ensures stack.mem == old(stack.mem) || fresh(stack.mem)
      ensures var r := OpenOut(name, old(State()), compactMode);
              Out() == old(Out()) + r.out && State() == r.st
      ensures Names() == old(Names()) + [name] && processEntities == old(processEntities)
    {
      hide Out, Indent;
      ghost var out, st := Out(), State();
      BeginItem(true);
      stack.Push(name);
      Print([LT] + name);
      Concat3(out, Seal(st), Indent(st, compactMode), [LT], name);
      elementJustOpened := true;
      firstElement := false;
      depth := depth + 1;
    }

    method PushAttribute(name: bytes, value: bytes)
      requires Valid() && elementJustOpened && processEntities
      modifies buffer, buffer.mem
      ensures Valid() && (buffer.mem == old(buffer.mem) || fresh(buffer.mem))
      ensures Out() == old(Out()) + AttrOut(Attr(name, value))
    {
      ghost var out := Out();
      Print([SPACE] + name + [EQ, QUOTE]);
      PrintString(value, false);
      Print([QUOTE]);
      Concat3(out, [SPACE] + name + [EQ, QUOTE], Escape(value, false), [QUOTE], []);
      ConcatEmpty([QUOTE]);
    }

    /** `/>` for an element without content, or the end tag, on a line of its own where that is due. */
    method PrintEndTag(name: bytes)
      requires Valid()
      modifies buffer, buffer.mem
      ensures Valid() && (buffer.mem == old(buffer.mem) || fresh(buffer.mem))
      ensures Out() == old(Out()) + EndTag(name, State(), compactMode)
    {
      hide Out;
      ghost var out := Out();
      if elementJustOpened {
        Print([SLASH, GT]);
      } else {
        ConcatEmpty(out);
        if textDepth < 0 && !compactMode {
          Print([LF]);
          PrintSpace(depth);
          ConcatAssoc(out, [LF], Spaces(depth));
        }
        Print([LT, SLASH] + name + [GT]);
        CloseGroup(out, if textDepth < 0 && !compactMode then NewLine(depth) else [], name);
      }
    }

    method CloseElement()
      requires Valid() && Names() != []
      modifies `elementJustOpened, `depth, `textDepth, stack, buffer, buffer.mem
      ensures Valid() && (buffer.mem == old(buffer.mem) || fresh(buffer.mem)) && stack.mem == old(stack.mem)
      ensures var names := old(Names());
              var r := CloseOut(names[|names| - 1], old(State()), compactMode);
              Out() == old(Out()) + r.out && State() == r.st && Names() == names[..|names| - 1]
    {
      hide Out, CloseOut, EndTag, EndLine;
      ghost var out, st, names := Out(), State(), Names();
      depth := depth - 1;
      var name := stack.Pop();
      LastName(names, Names(), name);
      PrintEndTag(name);
      CloseOutIs(name, st, State(), compactMode, out);
      PrintEndLine();
      textDepth := if textDepth == depth then -1 else textDepth;
      elementJustOpened := false;
    }

    /** The line feed behind an element at the top level. */
    method PrintEndLine()
      requires Valid()
      modifies buffer, buffer.mem
      ensures Valid() && (buffer.mem == old(buffer.mem) || fresh(buffer.mem))
      ensures Out() == old(Out()) + EndLine(depth, compactMode)
    {
      hide Out;
      ConcatEmpty(Out());
      if depth == 0 && !compactMode {
        Print([LF]);
      }
    }

    method PushText(text: bytes, cdata: bool)
      requires Valid() && processEntities
      modifies this, buffer, buffer.mem
      ensures Valid() && (buffer.mem == old(buffer.mem) || fresh(buffer.mem))
      ensures var r := LeafOut(if cdata then CData else PlainText, text, old(State()), compactMode);
              Out() == old(Out()) + r.out && State() == r.st
      ensures processEntities
    {
      hide Out, Escape, Indent;
      ghost var out, st := Out(), State();
      textDepth := depth - 1;
      BeginItem(false);
      ConcatEmpty(out + Seal(st));
      if cdata {
        Print(CDATA_HEADER);
        Print(text);
        Print(Terminator(CData));
        Concat3(out, Seal(st), CDATA_HEADER, text, Terminator(CData));
      } else {
        PrintString(text, true);
        ConcatAssoc(out, Seal(st), Escape(text, true));
      }
    }

    /** `PushComment`, `PushDeclaration` and `PushUnknown`, which differ in their brackets. */
    method PushLeaf(kind: LeafKind, value: bytes)
      requires Valid() && !IsText(kind)
      modifies this, buffer, buffer.mem
      ensures Valid() && (buffer.mem == old(buffer.mem) || fresh(buffer.mem))
      ensures var r := LeafOut(kind, value, old(State()), compactMode);
              Out() == old(Out()) + r.out && State() == r.st
      ensures processEntities == old(processEntities)
    {
      hide Out, Indent;
      ghost var out, st := Out(), State();
      BeginItem(true);
      firstElement := false;
      Print(Header(kind) + value + Terminator(kind));
      ConcatAssoc(out, Seal(st), Indent(st, compactMode));
      ConcatAssoc(out, Seal(st) + Indent(st, compactMode), Header(kind) + value + Terminator(kind));
    }
  }

  lemma Concat3(out: bytes, a: bytes, b: bytes, c: bytes, d: bytes)
    ensures out + a + b + (c + d) == out + (a + b + c + d)
    ensures out + a + b + c + d == out + (a + (b + c + d))
    ensures out + a + b + c == out + (a + b + c)
  {
  }

  function EndTag(name: bytes, st: PState, compact: bool): bytes {
    if st.justOpened then [SLASH, GT]
    else (if st.textDepth < 0 && !compact then NewLine(st.depth) else []) + [LT, SLASH] + name + [GT]
  }

  lemma LastName(names: seq<bytes>, rest: seq<bytes>, name: bytes)
    requires names == rest + [name]
    ensures names != [] && names[|names| - 1] == name && rest == names[..|names| - 1]
  {
  }

  /** The printer's steps in closing an element, put together. */
  lemma CloseOutIs(name: bytes, st: PState, now: PState, compact: bool, out: bytes)
    requires now == st.(depth := st.depth - 1)
    ensures var r := CloseOut(name, st, compact);
            && r.st == PState(false, st.first, now.depth, if st.textDepth == now.depth then -1 else st.textDepth)
            && out + r.out == out + EndTag(name, now, compact) + EndLine(now.depth, compact)
  {
    hide NewLine;
    ConcatAssoc(out, EndTag(name, now, compact), EndLine(now.depth, compact));
  }

  lemma NoAttrs(out: bytes, attrs: seq<Attr>)
    ensures out + AttrsOut(attrs[..0]) == out
  {
  }

  lemma NoNodes(out: bytes, xs: seq<Node>, st: PState, compact: bool)
    ensures PrintNodes(xs[..0], st, compact) == Printed([], st) && out + [] == out
  {
  }

  lemma CloseGroup(out: bytes, ci: bytes, name: bytes)
    ensures out + ci + ([LT, SLASH] + name + [GT]) == out + (ci + [LT, SLASH] + name + [GT])
  {
  }

  lemma ElementGroup(out: bytes, a: bytes, b: bytes, c: bytes, d: bytes)
    ensures out + a + b + c + d == out + (a + b + c + d)
  {
  }

  lemma {:induction false} AttrsOutSnoc(attrs: seq<Attr>, a: Attr)
    ensures AttrsOut(attrs + [a]) == AttrsOut(attrs) + AttrOut(a)
    decreases |attrs|
  {
    if attrs == [] {
      assert ([] + [a])[1..] == [];
      ConcatEmpty(AttrOut(a));
    } else {
      assert (attrs + [a])[1..] == attrs[1..] + [a];
      AttrsOutSnoc(attrs[1..], a);
      ConcatAssoc(AttrOut(attrs[0]), AttrsOut(attrs[1..]), AttrOut(a));
    }
  }

  lemma {:induction false} PrintNodesSnoc(xs: seq<Node>, x: Node, st: PState, compact: bool)
    ensures var before := PrintNodes(xs, st, compact);
            var last := PrintNode(x, before.st, compact);
            PrintNodes(xs + [x], st, compact) == Printed(before.out + last.out, last.st)
    decreases |xs|
  {
    hide PrintNode;
    if xs == [] {
      assert ([] + [x])[1..] == [];
      ConcatEmpty(PrintNode(x, st, compact).out);
    } else {
      var head := PrintNode(xs[0], st, compact);
      assert (xs + [x])[1..] == xs[1..] + [x];
      PrintNodesSnoc(xs[1..], x, head.st, compact);
      var before := PrintNodes(xs[1..], head.st, compact);
      ConcatAssoc(head.out, before.out, PrintNode(x, before.st, compact).out);
    }
  }

  lemma NoSpaces(out: bytes, depth: int)
    ensures out + Spaces(0) == out && (depth < 0 ==> Spaces(depth) == Spaces(0))
  {
  }

  lemma FourMore(out: bytes, i: int)
    requires i >= 0
    ensures out + Spaces(i) + [SPACE, SPACE, SPACE, SPACE] == out + Spaces(i + 1)
  {
    ConcatAssoc(out, Spaces(i), [SPACE, SPACE, SPACE, SPACE]);
  }

  lemma EscapeNone(out: bytes, v: bytes, restricted: bool)
    ensures out + Escape(v[..0], restricted) == out
  {
  }

  lemma EscapeRun(out: bytes, v: bytes, p: nat, q: nat, restricted: bool)
    requires p <= q < |v| && forall k :: p <= k < q ==> !Flagged(v[k], restricted)
    ensures out + Escape(v[..p], restricted) + v[p..q] + EscapeByte(v[q], restricted)
         == out + Escape(v[..q + 1], restricted)
  {
    hide Escape;
    EscapeConcat(v[..p], v[p..q], restricted);
    EscapePlain(v[p..q], restricted);
    assert v[..p] + v[p..q] == v[..q] && v[..q] + [v[q]] == v[..q + 1];
    EscapeConcat(v[..q], [v[q]], restricted);
    EscapeOne(v[q], restricted);
    ConcatAssoc(out, Escape(v[..p], restricted), v[p..q]);
    ConcatAssoc(out, Escape(v[..q], restricted), EscapeByte(v[q], restricted));
  }

  lemma EscapeOne(c: byte, restricted: bool)
    ensures Escape([c], restricted) == EscapeByte(c, restricted)
  {
    assert [c][1..] == [];
    ConcatEmpty(EscapeByte(c, restricted));
  }

  lemma EscapeRest(out: bytes, v: bytes, p: nat, restricted: bool)
    requires p <= |v| && forall k :: p <= k < |v| ==> !Flagged(v[k], restricted)
    ensures out + Escape(v[..p], restricted) + v[p..] == out + Escape(v, restricted)
    ensures p == |v| ==> out + Escape(v[..p], restricted) == out + Escape(v, restricted)
  {
    assert v[..p] + v[p..] == v && (p == |v| ==> v[..p] == v);
    EscapeConcat(v[..p], v[p..], restricted);
    EscapePlain(v[p..], restricted);
    ConcatAssoc(out, Escape(v[..p], restricted), v[p..]);
  }

  /** `vsnprintf( p, len+1, ... )`: the text and its NUL. */
  method WriteText(mem: array<byte>, p: nat, text: bytes)
    requires p + |text| < mem.Length
    modifies mem
    ensures mem[..p] == old(mem[..p]) && mem[p..p + |text|] == text && mem[p + |text|] == 0
  {
    var i := 0;
    while i < |text|
      invariant 0 <= i <= |text|
      invariant mem[..p] == old(mem[..p]) && mem[p..p + i] == text[..i]
    {
      mem[p + i] := text[i];
      i := i + 1;
    }
    mem[p + |text|] := 0;
  }
}
