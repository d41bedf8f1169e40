/**
 What `XMLPrinter::PrintString` makes of a string, and that `StrPair` reads it back.
 */
module Escaping {
  import opened Bytes
  import opened Decoding

  /** `entityFlag`, or `restrictedEntityFlag` for text: the bytes written as entities. */
  predicate Flagged(c: byte, restricted: bool) {
    c == AMP || c == LT || c == GT || (!restricted && (c == QUOTE || c == APOS))
  }

  /** The table entry whose value is `c`, or NUM_ENTITIES. */
  function EntityFor(c: byte): (r: nat)
    ensures r <= NUM_ENTITIES && (r < NUM_ENTITIES ==> EntityTable(r).value == c)
  {
    if c == QUOTE then 0 else if c == AMP then 1 else if c == APOS then 2
    else if c == LT then 3 else if c == GT then 4 else NUM_ENTITIES
  }

  function EscapeByte(c: byte, restricted: bool): bytes {
    if Flagged(c, restricted) then EntityText(EntityFor(c)) else [c]
  }

  function Escape(v: bytes, restricted: bool): bytes {
    if v == [] then [] else EscapeByte(v[0], restricted) + Escape(v[1..], restricted)
  }

  /** No byte of the escaped string can end the attribute or the text it stands in. */
  lemma {:induction false} EscapeIsSafe(v: bytes, restricted: bool)
    ensures forall k :: 0 <= k < |Escape(v, restricted)| ==>
              var c := Escape(v, restricted)[k];
              && c != LT && c != GT && (!restricted ==> c != QUOTE && c != APOS)
    ensures NoCR(v) ==> NoCR(Escape(v, restricted))
    ensures NoNul(v) ==> NoNul(Escape(v, restricted))
    decreases |v|
  {
    if v != [] {
      EscapeIsSafe(v[1..], restricted);
      EscapeByteIsSafe(v[0], restricted);
    }
  }

  lemma EscapeByteIsSafe(c: byte, restricted: bool)
    ensures forall k :: 0 <= k < |EscapeByte(c, restricted)| ==>
              var d := EscapeByte(c, restricted)[k];
              && d != LT && d != GT && (!restricted ==> d != QUOTE && d != APOS)
              && (d == CR ==> c == CR) && (d == 0 ==> c == 0)
  {
  }

  /** Every byte of the string is written back by exactly one round of the decoder. */
  lemma {:induction false} EscapeScript(v: bytes, restricted: bool)
    requires NoCR(v)
    ensures var sc := Script(Escape(v, restricted), TEXT_FLAGS);
            && sc.Some? && Meaning(sc.value) == v
            && (forall k :: 0 <= k < |sc.value| ==> sc.value[k].Write?)
    decreases |v|
  {
    if v != [] {
      var c, rest := v[0], Escape(v[1..], restricted);
      hide Script, StepAt, EscapeByte;
      EscapeScript(v[1..], restricted);
      var sc := Script(rest, TEXT_FLAGS).value;
      EscapeIsSafe(v[1..], restricted);
      var st := Write(|EscapeByte(c, restricted)|, [c]);
      EscapeStep(c, restricted, rest);
      ScriptCons(Escape(v, restricted), TEXT_FLAGS, st, rest);
      assert ([st] + sc)[1..] == sc;
      assert v == [c] + v[1..];
    }
  }

  lemma EscapeStep(c: byte, restricted: bool, rest: bytes)
    requires c != CR && NoCR(rest)
    ensures var t := EscapeByte(c, restricted) + rest;
            && StepAt(t, TEXT_FLAGS) == Some(Write(|EscapeByte(c, restricted)|, [c]))
            && t[|EscapeByte(c, restricted)|..] == rest
  {
    if Flagged(c, restricted) {
      EntityStep(EntityFor(c), rest, TEXT_FLAGS);
    } else {
      var t := [c] + rest;
      assert Peek(t, 1) != CR;
    }
  }

  /** A string without CR is read back from its escaped form, as text and as attribute value. */
  lemma EscapeDecode(v: bytes, restricted: bool)
    requires NoCR(v)
    ensures Decode(Escape(v, restricted), TEXT_FLAGS) == Some(v)
  {
    EscapeScript(v, restricted);
    var sc := Script(Escape(v, restricted), TEXT_FLAGS).value;
    NoSkipMeets(Escape(v, restricted), sc, 0);
    DecodeIsMeaning(Escape(v, restricted), TEXT_FLAGS);
  }

  /** Comments and the like are printed as they are; without CR they are read as they are. */
  lemma {:induction false} NewlineScript(v: bytes)
    requires NoCR(v)
    ensures var sc := Script(v, NEWLINES_ONLY);
            && sc.Some? && Meaning(sc.value) == v
            && (forall k :: 0 <= k < |sc.value| ==> sc.value[k].Write?)
    decreases |v|
  {
    if v != [] {
      var st := Write(1, [v[0]]);
      NewlineScript(v[1..]);
      var sc := Script(v[1..], NEWLINES_ONLY).value;
      assert Peek(v, 1) != CR;
      ScriptCons(v, NEWLINES_ONLY, st, v[1..]);
      assert ([st] + sc)[1..] == sc;
      assert v == [v[0]] + v[1..];
    }
  }

  lemma NewlineDecode(v: bytes)
    requires NoCR(v)
    ensures Decode(v, NEWLINES_ONLY) == Some(v)
  {
    NewlineScript(v);
    NoSkipMeets(v, Script(v, NEWLINES_ONLY).value, 0);
    DecodeIsMeaning(v, NEWLINES_ONLY);
  }

  /**
   In a text `&`, `<` and `>` are written as entities, in an attribute both quotes too;
   every other byte is left as it is.
   */
  lemma EscapedBytes(c: byte)
    ensures Escape([c], true) ==
      if c == 38 then [38, 97, 109, 112, 59]
      else if c == 60 then [38, 108, 116, 59]
      else if c == 62 then [38, 103, 116, 59] else [c]
    ensures Escape([c], false) ==
      if c == 34 then [38, 113, 117, 111, 116, 59]
      else if c == 39 then [38, 97, 112, 111, 115, 59] else Escape([c], true)
  {
    ConcatEmpty(EscapeByte(c, true));
    ConcatEmpty(EscapeByte(c, false));
  }

  /**
   The whole way: the escaped string and its terminator stand at `i`; `ParseText` stops
   exactly at the terminator and the range decodes to the string.
   */
  lemma EscapeParse(s: bytes, i: nat, v: bytes, restricted: bool, quote: byte)
    requires NoCR(v) && i <= |s|
    requires if restricted then quote == LT else quote == QUOTE || quote == APOS
    requires At(s, i, Escape(v, restricted) + [quote])
    ensures var e := i + |Escape(v, restricted)|;
            && e < |s| && FindEnd(s, i, [quote]) == Some(e)
            && Decode(s[i..e], TEXT_FLAGS) == Some(v)
  {
    var x := Escape(v, restricted);
    assert quote !in x by {
      EscapeIsSafe(v, restricted);
    }
    FindEndBehind(s, i, x, quote);
    AtSplit(s, i, x, [quote]);
    AtSlice(s, i, x);
    EscapeDecode(v, restricted);
  }
}
