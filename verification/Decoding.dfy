/**
 The text that `StrPair::GetStr` makes of a run of bytes: newline normalisation,
 the five entities of the table and numeric references.
 */
module Decoding {
  import opened Bytes
  import CharRef

  /** `NEEDS_ENTITY_PROCESSING` and `NEEDS_NEWLINE_NORMALIZATION`. */
  datatype Flags = Flags(entities: bool, newlines: bool)

  const NO_FLAGS := Flags(false, false)
  const TEXT_FLAGS := Flags(true, true)        // TEXT_ELEMENT and ATTRIBUTE_VALUE
  const NEWLINES_ONLY := Flags(false, true)    // COMMENT, CDATA, declarations, unknowns

  datatype Entity = Entity(pattern: bytes, value: byte)

  const NUM_ENTITIES: nat := 5

  /** The entity table: quot, amp, apos, lt, gt. */
  function EntityTable(i: nat): Entity
    requires i < NUM_ENTITIES
  {
    match i
    case 0 => Entity([113, 117, 111, 116], QUOTE)
    case 1 => Entity([97, 109, 112], AMP)
    case 2 => Entity([97, 112, 111, 115], APOS)
    case 3 => Entity([108, 116], LT)
    case _ => Entity([103, 116], GT)
  }

  /** Table entry `i` is written, between `&` and `;`, at the front of `t`. */
  predicate EntityAt(t: bytes, i: nat)
    requires i < NUM_ENTITIES
  {
    At(t, 1, EntityTable(i).pattern) && Peek(t, |EntityTable(i).pattern| + 1) == SEMI
  }

  /** The first entry from `i` on that is written at the front of `t`, or NUM_ENTITIES. */
  function FindEntity(t: bytes, i: nat): (r: nat)
    requires i <= NUM_ENTITIES
    ensures i <= r <= NUM_ENTITIES
    ensures r < NUM_ENTITIES ==> EntityAt(t, r)
    decreases NUM_ENTITIES - i
  {
    if i < NUM_ENTITIES && !EntityAt(t, i) then FindEntity(t, i + 1) else i
  }

  /**
   One round of the loop: bytes read and written; or, on an unrecognised `&`, both
   pointers move by one and nothing is written.
   */
  datatype Step = Write(adv: nat, out: bytes) | Skip

  /** The round at the front of `t`; `None` where the read pointer becomes null. */
  function StepAt(t: bytes, f: Flags): (r: Option<Step>)
    requires t != []
    ensures r.Some? && r.value.Write? ==> 1 <= r.value.adv <= |t| && |r.value.out| <= r.value.adv
  {
    if f.newlines && t[0] == CR then
      Some(Write(if Peek(t, 1) == LF then 2 else 1, [LF]))
    else if f.newlines && t[0] == LF then
      Some(Write(if Peek(t, 1) == CR then 2 else 1, [LF]))
    else if f.entities && t[0] == AMP then
      if Peek(t, 1) == HASH then
        match CharRef.CharacterRef(t)
        case Null => None
        case Reference(adv, out) => Some(Write(adv, out))
      else
        var i := FindEntity(t, 0);
        if i == NUM_ENTITIES then Some(Skip)
        else Some(Write(|EntityTable(i).pattern| + 2, [EntityTable(i).value]))
    else
      Some(Write(1, [t[0]]))
  }

  function Advance(st: Step): nat {
    match st case Write(adv, _) => adv case Skip => 1
  }

  /** How many bytes the rounds write (a skipped byte counts). */
  function Written(sc: seq<Step>): nat {
    if sc == [] then 0
    else (match sc[0] case Write(_, out) => |out| case Skip => 1) + Written(sc[1..])
  }

  /** The rounds of the loop over the text `t`, or `None` if a null pointer ends it. */
  function Script(t: bytes, f: Flags): (r: Option<seq<Step>>)
    ensures r.Some? ==> Written(r.value) <= |t|
  {
    if t == [] then Some([])
    else
      match StepAt(t, f)
      case None => None
      case Some(st) =>
        match Script(t[Advance(st)..], f)
        case None => None
        case Some(rest) =>
          assert ([st] + rest)[1..] == rest;
          Some([st] + rest)
  }

  /**
   What the buffer holds after the rounds, when `out` was written before them: an
   unrecognised `&` leaves whatever byte of `s` the write pointer stands on.
   */
  function InPlace(s: bytes, sc: seq<Step>, out: bytes): (r: bytes)
    ensures |r| == |out| + Written(sc)
    decreases |sc|
  {
    if sc == [] then out
    else
      match sc[0]
      case Write(_, o) => InPlace(s, sc[1..], out + o)
      case Skip => InPlace(s, sc[1..], out + [Peek(s, |out|)])
  }

  /** `None` when the code runs into a null pointer: a malformed numeric reference. */
  function Decode(s: bytes, f: Flags): (r: Option<bytes>)
    ensures r.Some? ==> |r.value| <= |s|
  {
    match Script(s, f)
    case None => None
    case Some(sc) => Some(InPlace(s, sc, []))
  }

  // ------------------------------------------- what a reader would expect

  /** The rounds with an unrecognised `&` standing for itself. */
  function Meaning(sc: seq<Step>): (r: bytes)
    ensures |r| == Written(sc)
  {
    if sc == [] then []
    else (match sc[0] case Write(_, out) => out case Skip => [AMP]) + Meaning(sc[1..])
  }

  /**
   Whenever the read pointer is on an unrecognised `&`, the write pointer `q` is on a
   `&` too. That is so as long as nothing has been shortened.
   */
  predicate AmpersandsMeet(s: bytes, sc: seq<Step>, q: nat)
    decreases |sc|
  {
    sc == [] ||
    match sc[0]
    case Write(_, out) => AmpersandsMeet(s, sc[1..], q + |out|)
    case Skip => Peek(s, q) == AMP && AmpersandsMeet(s, sc[1..], q + 1)
  }

  lemma {:induction false} InPlaceIsMeaning(s: bytes, sc: seq<Step>, out: bytes)
    ensures InPlace(s, sc, out)[..|out|] == out
    ensures InPlace(s, sc, out) == out + Meaning(sc) <==> AmpersandsMeet(s, sc, |out|)
    decreases |sc|
  {
    hide *;
    if sc == [] {
      NoSteps(s, out);
    } else {
      var o, o' := FirstStep(s, sc, out);
      InPlaceIsMeaning(s, sc[1..], out + o);
      PutBehind(out, o, o', Meaning(sc[1..]), InPlace(s, sc[1..], out + o));
    }
  }

  lemma NoSteps(s: bytes, out: bytes)
    ensures InPlace(s, [], out) == out + Meaning([]) && out[..|out|] == out && AmpersandsMeet(s, [], |out|)
  {
  }

  /** What the first round leaves, and what it means. */
  lemma FirstStep(s: bytes, sc: seq<Step>, out: bytes) returns (o: bytes, o': bytes)
    requires sc != []
    ensures |o| == |o'| && InPlace(s, sc, out) == InPlace(s, sc[1..], out + o) && Meaning(sc) == o' + Meaning(sc[1..])
    ensures AmpersandsMeet(s, sc, |out|) <==> o == o' && AmpersandsMeet(s, sc[1..], |out + o|)
  {
    o := match sc[0] case Write(_, o) => o case Skip => [Peek(s, |out|)];
    o' := match sc[0] case Write(_, o) => o case Skip => [AMP];
  }

  lemma PutBehind(out: bytes, o: bytes, o': bytes, rest: bytes, r: bytes)
    requires |o| == |o'| && |out + o| <= |r| && r[..|out + o|] == out + o
    ensures r[..|out|] == out
    ensures r == out + (o' + rest) <==> o == o' && r == (out + o) + rest
  {
    assert r[..|out|] == r[..|out + o|][..|out|];
    if r == out + (o' + rest) {
      assert o == r[..|out + o|][|out|..] == o';
    }
    assert out + (o + rest) == (out + o) + rest;
  }

  /** The read pointer comes to `i`: rounds that do not meet a null pointer add up to it. */
  predicate Reached(t: bytes, f: Flags, i: nat) {
    i == 0 ||
    (t != [] &&
     match StepAt(t, f)
     case None => false
     case Some(st) => Advance(st) <= i && Reached(t[Advance(st)..], f, i - Advance(st)))
  }

  /** A malformed reference stands where the read pointer comes to. */
  ghost predicate Undecodable(t: bytes, f: Flags) {
    f.entities && exists i :: MeetsMalformed(t, f, i)
  }

  ghost predicate MeetsMalformed(t: bytes, f: Flags, i: nat) {
    i < |t| && Reached(t, f, i) && CharRef.Malformed(t[i..])
  }

  lemma StepFails(t: bytes, f: Flags)
    requires t != []
    ensures StepAt(t, f).None? <==> f.entities && CharRef.Malformed(t)
  {
    hide CharRef.CharacterRef, CharRef.Malformed, FindEntity;
    if t[0] == AMP {
      CharRef.NullIsMalformed(t);
    }
    if CharRef.Malformed(t) {
      MalformedFront(t);
    } else if f.entities && t[0] == AMP && Peek(t, 1) != HASH {
      assert StepAt(t, f).Some?;
    }
  }

  lemma MalformedFront(t: bytes)
    requires CharRef.Malformed(t)
    ensures |t| > 2 && t[0] == AMP && t[1] == HASH
  {
  }

  lemma {:induction false} ScriptFails(t: bytes, f: Flags)
    ensures Script(t, f).None? <==> Undecodable(t, f)
    decreases |t|
  {
    hide StepAt, CharRef.Malformed;
    if t != [] {
      StepFails(t, f);
      assert t[0..] == t;
      match StepAt(t, f)
      case None =>
        assert MeetsMalformed(t, f, 0);
      case Some(st) =>
        var n, rest := Advance(st), t[Advance(st)..];
        ScriptFails(rest, f);
        assert !(f.entities && MeetsMalformed(t, f, 0));
        forall i | n <= i < |t| ensures MeetsMalformed(t, f, i) <==> MeetsMalformed(rest, f, i - n) {
          LaterMalformed(t, f, st, n, rest, i);
        }
        if Undecodable(rest, f) {
          var j :| MeetsMalformed(rest, f, j);
          assert MeetsMalformed(t, f, n + j);
        }
    }
  }

  lemma LaterMalformed(t: bytes, f: Flags, st: Step, n: nat, rest: bytes, i: nat)
    requires t != [] && StepAt(t, f) == Some(st) && n == Advance(st) && n <= i < |t| && rest == t[n..]
    ensures MeetsMalformed(t, f, i) <==> MeetsMalformed(rest, f, i - n)
  {
    hide StepAt, CharRef.Malformed;
    assert rest[i - n..] == t[i..];
  }

  /**
   A text has no decoding exactly if the read pointer comes to a malformed reference.
   Otherwise decoding in place gives what a reader expects if and only if every
   unrecognised `&` is written over a `&`.
   */
  lemma DecodeIsMeaning(s: bytes, f: Flags)
    ensures Decode(s, f).None? <==> Undecodable(s, f)
    ensures match Script(s, f)
            case Some(sc) => Decode(s, f) == Some(Meaning(sc)) <==> AmpersandsMeet(s, sc, 0)
            case None => Undecodable(s, f)
  {
    hide Undecodable;
    ScriptFails(s, f);
    match Script(s, f)
    case Some(sc) =>
      InPlaceIsMeaning(s, sc, []);
      assert [] + Meaning(sc) == Meaning(sc);
    case None =>
  }

  lemma {:induction false} NoSkipMeets(s: bytes, sc: seq<Step>, q: nat)
    requires forall k :: 0 <= k < |sc| ==> sc[k].Write?
    ensures AmpersandsMeet(s, sc, q)
    decreases |sc|
  {
    if sc != [] {
      NoSkipMeets(s, sc[1..], q + |sc[0].out|);
    }
  }

  lemma {:induction false} PlainScript(t: bytes)
    ensures Script(t, NO_FLAGS).Some? && Meaning(Script(t, NO_FLAGS).value) == t
    ensures forall k :: 0 <= k < |Script(t, NO_FLAGS).value| ==> Script(t, NO_FLAGS).value[k].Write?
  {
    if t != [] {
      PlainScript(t[1..]);
      assert StepAt(t, NO_FLAGS) == Some(Write(1, [t[0]]));
      var rest := Script(t[1..], NO_FLAGS).value;
      assert ([Write(1, [t[0]])] + rest)[1..] == rest;
    }
  }

  /** Without flags the text is its own decoding. */
  lemma DecodePlain(s: bytes)
    ensures Decode(s, NO_FLAGS) == Some(s)
  {
    PlainScript(s);
    NoSkipMeets(s, Script(s, NO_FLAGS).value, 0);
    DecodeIsMeaning(s, NO_FLAGS);
  }

  function EntityText(i: nat): bytes
    requires i < NUM_ENTITIES
  {
    [AMP] + EntityTable(i).pattern + [SEMI]
  }

  lemma EntityFound(i: nat, rest: bytes)
    requires i < NUM_ENTITIES
    ensures FindEntity(EntityText(i) + rest, 0) == i
  {
    var t, p := EntityText(i) + rest, EntityTable(i).pattern;
    assert forall k :: 0 <= k < |p| ==> t[1 + k] == p[k];
    assert t[|p| + 1] == SEMI;
    assert EntityAt(t, i);
    assert t[1 + 0] == p[0] && t[1 + 1] == p[1];
    forall j | 0 <= j < i ensures !EntityAt(t, j) {
      var q := EntityTable(j).pattern;
      assert t[1 + 0] != q[0] || t[1 + 1] != q[1];
    }
    FirstEntity(t, 0, i);
  }

  lemma FirstEntity(t: bytes, j: nat, i: nat)
    requires j <= i < NUM_ENTITIES && EntityAt(t, i)
    requires forall k :: j <= k < i ==> !EntityAt(t, k)
    ensures FindEntity(t, j) == i
    decreases i - j
  {
    if j < i {
      FirstEntity(t, j + 1, i);
    }
  }

  /** The entity written out in full is one round that writes its character. */
  lemma EntityStep(i: nat, rest: bytes, f: Flags)
    requires i < NUM_ENTITIES && f.entities
    ensures StepAt(EntityText(i) + rest, f) == Some(Write(|EntityText(i)|, [EntityTable(i).value]))
    ensures (EntityText(i) + rest)[|EntityText(i)|..] == rest
  {
    EntityFound(i, rest);
  }

  lemma ScriptCons(t: bytes, f: Flags, st: Step, rest: bytes)
    requires t != [] && StepAt(t, f) == Some(st) && t[Advance(st)..] == rest && Script(rest, f).Some?
    ensures Script(t, f) == Some([st] + Script(rest, f).value)
  {
  }

  lemma InPlaceCons(s: bytes, st: Step, rest: seq<Step>, out: bytes)
    ensures InPlace(s, [st] + rest, out)
         == InPlace(s, rest, out + match st case Write(_, o) => o case Skip => [Peek(s, |out|)])
  {
    assert ([st] + rest)[1..] == rest;
  }

  /** The byte that an unrecognised `&` leaves is the one under the write pointer. */
  lemma SkipLeavesStale(s: bytes, sc: seq<Step>, out: bytes)
    requires sc != [] && sc[0].Skip?
    ensures var r := InPlace(s, sc, out); r[..|out|] == out && r[|out|] == Peek(s, |out|)
  {
    var o := out + [Peek(s, |out|)];
    InPlaceIsMeaning(s, sc[1..], o);
    var r := InPlace(s, sc[1..], o);
    assert r[..|o|][..|out|] == r[..|out|] && r[..|o|][|out|] == r[|out|];
  }

  lemma ScriptAfterEntity(i: nat, t: bytes, f: Flags)
    requires i < NUM_ENTITIES && f.entities && Script(t, f).Some?
    ensures Script(EntityText(i) + t, f)
         == Some([Write(|EntityText(i)|, [EntityTable(i).value])] + Script(t, f).value)
  {
    EntityStep(i, t, f);
    ScriptCons(EntityText(i) + t, f, Write(|EntityText(i)|, [EntityTable(i).value]), t);
  }

  /**
   A bare `&` right behind a shortened entity is lost: `&lt;` followed by a text `t`
   that begins with one is read as `<l...`.
   */
  lemma BareAmpersandIsLost(t: bytes, f: Flags, sc: seq<Step>)
    requires f.entities && Script(t, f) == Some(sc) && sc != [] && sc[0].Skip?
    ensures var d := Decode(EntityText(3) + t, f);
            d.Some? && |d.value| >= 2 && d.value[0] == LT && d.value[1] == 108
  {
    var s, out: bytes := EntityText(3) + t, [LT];
    assert Decode(s, f) == Some(InPlace(s, sc, out)) by {
      ScriptAfterEntity(3, t, f);
      InPlaceCons(s, Write(4, out), sc, []);
      assert [] + out == out;
    }
    SkipLeavesStale(s, sc, out);
    assert InPlace(s, sc, out)[0] == InPlace(s, sc, out)[..1][0];
  }
}
