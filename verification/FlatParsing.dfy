/**
 When a parse fails, and how: a flat reading of the tokens with the names of the open
 elements on a stack gives the same error as the recursive parser. One of these errors
 is no result at all; the condition for it is stated on the text.
 */
module FlatParsing {
  import opened Bytes
  import CharRef
  import opened Decoding
  import opened ParserRounds
  import opened Parsing

  /** Where the reading stops, and with which error. */
  datatype Stop = Stop(at: nat, error: XMLError)

  function FlatRun(s: bytes, i: nat, names: seq<bytes>): (r: Stop)
    requires i <= |s|
    ensures r.at <= |s|
    decreases |s| - i
  {
    match LexOne(s, i)
    case LexFail(error) => Stop(i, error)
    case LexEnd => Stop(i, if names == [] then NoError else ParsingError)
    case Lex(LeafToken(_, _), next) => FlatRun(s, next, names)
    case Lex(SealedTag(_, _), next) => FlatRun(s, next, names)
    case Lex(OpenTag(name, _), next) =>
      if next == |s| then Stop(i, MismatchedElement) else FlatRun(s, next, names + [Slice(s, name)])
    case Lex(CloseTag(name), next) =>
      if names == [] then Stop(i, NoError)
      else if names[|names| - 1] == Slice(s, name) then FlatRun(s, next, names[..|names| - 1])
      else Stop(i, MismatchedElement)
  }

  /** How the reading `st` of a level goes on at the closing tag that ends the level. */
  ghost predicate Closes(s: bytes, st: Stop, names: seq<bytes>, name: Span, next: nat)
    requires next <= |s|
  {
    if names == [] then
      st.error == NoError && st.at <= |s| && LexOne(s, st.at) == Lex(CloseTag(name), next)
    else if names[|names| - 1] == Slice(s, name) then
      st == FlatRun(s, next, names[..|names| - 1])
    else st.error == MismatchedElement
  }

  /** The text has ended: an error inside an element. */
  ghost predicate Ends(s: bytes, st: Stop, names: seq<bytes>) {
    && st.error == (if names == [] then NoError else ParsingError)
    && st.at <= |s| && LexOne(s, st.at).LexEnd?
  }

  lemma {:induction false} FlatOne(s: bytes, i: nat, names: seq<bytes>)
    requires i <= |s|
    ensures match ParseOne(s, i)
            case OneEnd => Ends(s, FlatRun(s, i, names), names)
            case OneFail(error) => FlatRun(s, i, names).error == error
            case OneClose(name, next) => Closes(s, FlatRun(s, i, names), names, name, next)
            case OneNode(_, next) => FlatRun(s, i, names) == FlatRun(s, next, names)
    decreases |s| - i, 0
  {
    hide LexOne;
    match LexOne(s, i)
    case Lex(OpenTag(name, _), next) =>
      if next < |s| {
        FlatLevel(s, next, names + [Slice(s, name)]);
        assert (names + [Slice(s, name)])[..|names|] == names;
      }
    case _ =>
  }

  lemma {:induction false} FlatLevel(s: bytes, i: nat, names: seq<bytes>)
    requires i <= |s|
    ensures match ParseLevel(s, i).finish
            case AtEnd => Ends(s, FlatRun(s, i, names), names)
            case Failed(error) => FlatRun(s, i, names).error == error
            case AtClose(name, next) => Closes(s, FlatRun(s, i, names), names, name, next)
    decreases |s| - i, 1
  {
    hide LexOne, Ends, Closes;
    FlatOne(s, i, names);
    match ParseOne(s, i)
    case OneNode(_, next) => FlatLevel(s, next, names);
    case _ =>
  }

  /** The recursive parser and the flat reading agree on every error. */
  lemma ErrorIsFlat(s: bytes)
    ensures var t := Parse(s).text;
            Parse(s).error == if t == [] then EmptyDocument else FlatRun(t, 0, []).error
  {
    hide LexOne, At, SkipSpace;
    FlatLevel(Parse(s).text, 0, []);
  }

  // ------------------------------------------------- text that is not read

  /**
   After a parse without error, either only white space is left where the reading stopped,
   or a closing tag stands there outside all elements, and nothing behind it was read.
   */
  lemma WholeTextIff(s: bytes)
    requires Parse(s).error == NoError
    ensures var t := Parse(s).text;
            var st := FlatRun(t, 0, []);
            && (ParseLevel(t, 0).finish.AtEnd? <==> SkipSpace(t, st.at) == |t|)
            && (ParseLevel(t, 0).finish.AtClose? <==> LexOne(t, st.at).Lex?)
            && (LexOne(t, st.at).Lex? ==> LexOne(t, st.at).token.CloseTag?)
  {
    hide At, SkipSpace, LexTag, LexLeaf;
    var t := Parse(s).text;
    FlatLevel(t, 0, []);
    EndIsSpace(t, FlatRun(t, 0, []).at);
  }

  lemma EndIsSpace(t: bytes, i: nat)
    requires i <= |t|
    ensures LexOne(t, i).LexEnd? <==> SkipSpace(t, i) == |t|
  {
    hide At, SkipSpace, LexTag, LexLeaf;
  }

  /** `</a>x` */
  const STRAY_CLOSE: bytes := [60, 47, 97, 62, 120]

  /** The letter behind the stray closing tag is dropped without an error. */
  lemma StrayCloseEndsParse()
    ensures var p := Parse(STRAY_CLOSE);
            p.error == NoError && p.nodes == [] && p.text == STRAY_CLOSE
    ensures ParseLevel(STRAY_CLOSE, 0).finish == AtClose(Span(2, 3), 4)
  {
    hide *;
    var t := STRAY_CLOSE;
    StrayText(t);
    SlashTag(t, 3, 4, false);
    ClosedAtOnce(t, Span(2, 3), 4);
  }

  lemma StrayText(t: bytes)
    requires t == STRAY_CLOSE
    ensures |t| == 5 && t[0] == LT && t[1] == SLASH && IsAlpha(t[2]) && t[3] == GT
  {
  }

  lemma ClosedAtOnce(t: bytes, name: Span, next: nat)
    requires t != [] && t[0] == LT && next <= |t| && LexOne(t, 0) == Lex(CloseTag(name), next)
    ensures var p := Parse(t);
            p.error == NoError && p.nodes == [] && p.text == t && ParseLevel(t, 0).finish == AtClose(name, next)
  {
    hide LexOne, At, Parse, ParseLevel;
    FrontParsed(t);
    assert ParseOne(t, 0) == OneClose(name, next);
    LevelIs(t, 0);
  }

  lemma FrontParsed(t: bytes)
    requires t != [] && t[0] == LT
    ensures var level := ParseLevel(t, 0);
            Parse(t) == Parsed(false, t, level.nodes, LevelError(level))
  {
    hide At, ParseLevel;
    SkipSpaceUnique(t, 0, 0);
    NotAt(t, 0, BOM, 0);
    assert t[0..] == t;
  }

  // ------------------------------------------------- tags that begin with a slash

  /** `</a/>` */
  const SLASHED_TAG: bytes := [60, 47, 97, 47, 62]

  /** It is read as an empty element. */
  lemma SlashedTagIsNode()
    ensures var p := Parse(SLASHED_TAG);
            p.error == NoError && p.text == SLASHED_TAG && p.nodes == [RawElement(Span(2, 3), [], true, [])]
  {
    hide *;
    var t := SLASHED_TAG;
    SlashedText(t);
    SlashTag(t, 3, 5, true);
    SealedAtOnce(t, Span(2, 3), []);
  }

  lemma SlashedText(t: bytes)
    requires t == SLASHED_TAG
    ensures |t| == 5 && t[0] == LT && t[1] == SLASH && IsAlpha(t[2]) && t[3] == SLASH && t[4] == GT
  {
  }

  lemma SealedAtOnce(t: bytes, name: Span, attrs: seq<RawAttr>)
    requires t != [] && t[0] == LT && LexOne(t, 0) == Lex(SealedTag(name, attrs), |t|)
    ensures var p := Parse(t);
            p.error == NoError && p.text == t && p.nodes == [RawElement(name, attrs, true, [])]
  {
    hide LexOne, At, Parse, ParseLevel;
    FrontParsed(t);
    NothingBehind(t);
    assert ParseOne(t, 0) == OneNode(RawElement(name, attrs, true, []), |t|);
    LevelIs(t, 0);
  }

  lemma NothingBehind(t: bytes)
    ensures ParseLevel(t, |t|) == Level([], AtEnd)
  {
    hide At, LexTag, LexLeaf;
  }

  /** The tag `</`, a letter, an optional slash and `>`. */
  lemma SlashTag(t: bytes, e: nat, next: nat, sealed: bool)
    requires e == 3 && next == (if sealed then 5 else 4) && next <= |t|
    requires t[0] == LT && t[1] == SLASH && IsAlpha(t[2])
    requires if sealed then t[3] == SLASH && t[4] == GT else t[3] == GT
    ensures LexOne(t, 0) == Lex(if sealed then SealedTag(Span(2, e), []) else CloseTag(Span(2, e)), next)
  {
    hide At, FindEnd, LexLeaf, ParseAttr;
    TagHere(t, 0);
    SkipSpaceUnique(t, 1, 1);
    NameEndUnique(t, 2, 3);
    SkipSpaceUnique(t, 3, 3);
  }

  lemma TagHere(t: bytes, i: nat)
    requires i + 1 < |t| && t[i] == LT && t[i + 1] != 63 && t[i + 1] != 33
    ensures SkipSpace(t, i) == i && Identify(t, i) == Tag(i + 1)
  {
    hide At;
    SkipSpaceUnique(t, i, i);
    NotAt(t, i, XML_HEADER, 1);
    NotAt(t, i, COMMENT_HEADER, 1);
    NotAt(t, i, CDATA_HEADER, 1);
    NotAt(t, i, DTD_HEADER, 1);
    AtOne(t, i, LT);
  }

  /** Where a tag ends, and what the byte in front of its `>` says. */
  lemma {:induction false} TagEnd(s: bytes, i: nat, seen: seq<RawAttr>)
    requires 0 < i <= |s| && s[i - 1] != SLASH
    ensures match ParseAttrs(s, i, seen)
            case AttrsOk(_, sealed, next) => next >= i + 1 && s[next - 1] == GT && (sealed <==> s[next - 2] == SLASH)
            case AttrsFail(_) => true
    decreases |s| - i
  {
    hide SkipSpace, ParseAttr, HasAttr, RepeatError;
    var p := SkipSpace(s, i);
    assert p > i ==> IsSpace(s[p - 1]);
    if p < |s| && IsAlpha(s[p]) {
      match ParseAttr(s, p)
      case AttrOk(a, next) =>
        QuoteBehind(s, p, a, next);
        if !HasAttr(s, seen, a.name) {
          TagEnd(s, next, seen + [a]);
        }
      case AttrFail =>
    }
  }

  lemma QuoteBehind(s: bytes, i: nat, a: RawAttr, next: nat)
    requires i <= |s| && ParseAttr(s, i) == AttrOk(a, next)
    ensures s[next - 1] == QUOTE || s[next - 1] == APOS
  {
    hide SkipSpace, ParseName;
    assert [s[a.value.start - 1]][0] == s[a.value.start - 1];
    AtOne(s, next - 1, s[a.value.start - 1]);
  }

  /**
   A tag that begins with a slash becomes a node, without children, if and only if it is
   well formed up to its `>` and a slash stands in front of that too.
   */
  lemma SlashedTagIff(s: bytes, i: nat, q: nat)
    requires i <= |s| && Identify(s, i) == Tag(q) && Peek(s, SkipSpace(s, q)) == SLASH
    ensures var lex := LexOne(s, i);
            && (lex.Lex? ==> lex.next >= 2 && s[lex.next - 1] == GT)
            && (ParseOne(s, i).OneNode? <==> lex.Lex? && s[lex.next - 2] == SLASH)
            && (ParseOne(s, i).OneClose? <==> lex.Lex? && s[lex.next - 2] != SLASH)
  {
    hide SkipSpace, ParseAttrs, At, FindEnd, LexLeaf;
    var n := SkipSpace(s, q) + 1;
    assert n <= |s|;
    if ParseName(s, n).Some? {
      var e := ParseName(s, n).value;
      assert IsNameByte(s[e - 1]);
      TagEnd(s, e, []);
    }
  }

  // ------------------------------------------------- runs without a result

  /** The attributes that stand one behind the other from `i` on, repeated names and all. */
  function AttrRun(s: bytes, i: nat): seq<RawAttr>
    requires i <= |s|
    decreases |s| - i
  {
    var p := SkipSpace(s, i);
    if p < |s| && IsAlpha(s[p]) then
      match ParseAttr(s, p)
      case AttrFail => []
      case AttrOk(a, next) => [a] + AttrRun(s, next)
    else []
  }

  /** Attribute `j` is the first one that repeats a name. */
  predicate FirstRepeat(s: bytes, run: seq<RawAttr>, j: nat) {
    j < |run| && HasAttr(s, run[..j], run[j].name) && forall i :: 0 <= i < j ==> !HasAttr(s, run[..i], run[i].name)
  }

  /** Whatever follows, a repeated name ends the parse of the tag with its error. */
  lemma {:induction false} RepeatFails(s: bytes, i: nat, seen: seq<RawAttr>, j: nat)
    requires i <= |s| && FirstRepeat(s, seen + AttrRun(s, i), j)
    requires forall m :: 0 <= m < |seen| ==> !HasAttr(s, seen[..m], seen[m].name)
    ensures var run := seen + AttrRun(s, i);
            ParseAttrs(s, i, seen) == AttrsFail(RepeatError(s, run[..j], run[j].name))
    decreases |s| - i
  {
    hide SkipSpace, ParseAttr, HasAttr, RepeatError;
    var p := SkipSpace(s, i);
    var run := seen + AttrRun(s, i);
    forall m | 0 <= m < |seen| ensures run[..m] == seen[..m] && run[m] == seen[m] {
    }
    assert j >= |seen|;
    assert AttrRun(s, i) != [];
    var a, next := ParseAttr(s, p).attr, ParseAttr(s, p).next;
    assert run == seen + [a] + AttrRun(s, next);
    assert run[|seen|] == a && run[..|seen|] == seen;
    if !HasAttr(s, seen, a.name) {
      forall m | 0 <= m < |seen + [a]| ensures !HasAttr(s, (seen + [a])[..m], (seen + [a])[m].name) {
        assert (seen + [a])[..m] == seen[..m];
      }
      RepeatFails(s, next, seen + [a], j);
    } else {
      assert j == |seen|;
    }
  }

  /** The value of the attribute whose name comes again holds a malformed reference. */
  ghost predicate MalformedFirst(s: bytes, run: seq<RawAttr>, j: nat)
    requires FirstRepeat(s, run, j)
  {
    Undecodable(Slice(s, run[FirstNamed(s, run[..j], run[j].name)].value), TEXT_FLAGS)
  }

  ghost predicate NullRepeat(s: bytes, run: seq<RawAttr>) {
    exists j :: FirstRepeat(s, run, j) && MalformedFirst(s, run, j)
  }

  /** At `p` a tag begins in which a name comes again whose first value is malformed. */
  ghost predicate NullTag(s: bytes, p: nat)
    requires p <= |s|
  {
    match Identify(s, p)
    case Tag(q) =>
      var k := SkipSpace(s, q);
      var n := if Peek(s, k) == SLASH then k + 1 else k;
      (match ParseName(s, n) case Some(e) => NullRepeat(s, AttrRun(s, e)) case None => false)
    case _ => false
  }

  lemma {:induction false} AttrsReadNull(s: bytes, i: nat, seen: seq<RawAttr>)
    requires i <= |s| && forall m :: 0 <= m < |seen| ==> !HasAttr(s, seen[..m], seen[m].name)
    ensures ParseAttrs(s, i, seen) == AttrsFail(NullRead) <==> NullRepeat(s, seen + AttrRun(s, i))
    decreases |s| - i
  {
    hide SkipSpace, ParseAttr, HasAttr, MalformedFirst, Decode;
    var p := SkipSpace(s, i);
    var run := seen + AttrRun(s, i);
    if p < |s| && IsAlpha(s[p]) && ParseAttr(s, p).AttrOk? {
      var a, next := ParseAttr(s, p).attr, ParseAttr(s, p).next;
      assert run == seen + [a] + AttrRun(s, next);
      assert run[|seen|] == a && run[..|seen|] == seen;
      forall m | 0 <= m < |seen| ensures run[..m] == seen[..m] && run[m] == seen[m] {
      }
      if HasAttr(s, seen, a.name) {
        RepeatHere(s, run, seen, a);
      } else {
        forall m | 0 <= m < |seen + [a]| ensures !HasAttr(s, (seen + [a])[..m], (seen + [a])[m].name) {
          assert (seen + [a])[..m] == seen[..m];
        }
        AttrsReadNull(s, next, seen + [a]);
      }
    } else {
      assert run == seen;
    }
  }

  lemma NullIsUndecodable(s: bytes, run: seq<RawAttr>, j: nat, seen: seq<RawAttr>, a: RawAttr)
    requires FirstRepeat(s, run, j) && run[..j] == seen && run[j] == a
    ensures MalformedFirst(s, run, j) <==> RepeatError(s, seen, a.name) == NullRead
  {
    hide HasAttr, Decode, Undecodable;
    DecodeIsMeaning(Slice(s, seen[FirstNamed(s, seen, a.name)].value), TEXT_FLAGS);
  }

  /** The first repetition is at the end of `seen`. */
  lemma RepeatHere(s: bytes, run: seq<RawAttr>, seen: seq<RawAttr>, a: RawAttr)
    requires |seen| < |run| && run[|seen|] == a && run[..|seen|] == seen && HasAttr(s, seen, a.name)
    requires forall m :: 0 <= m < |seen| ==> !HasAttr(s, run[..m], run[m].name)
    ensures RepeatError(s, seen, a.name) == NullRead <==> NullRepeat(s, run)
  {
    hide HasAttr, RepeatError, MalformedFirst;
    assert FirstRepeat(s, run, |seen|);
    NullIsUndecodable(s, run, |seen|, seen, a);
    if NullRepeat(s, run) {
      var j :| FirstRepeat(s, run, j) && MalformedFirst(s, run, j);
      assert j == |seen|;
    }
  }

  lemma TagReadsNull(s: bytes, p: nat)
    requires p <= |s|
    ensures LexOne(s, p) == LexFail(NullRead) <==> NullTag(s, p)
  {
    hide SkipSpace, NullRepeat, At, FindEnd, ParseAttrs, AttrRun;
    if Identify(s, p).Tag? {
      var k := SkipSpace(s, Identify(s, p).next);
      var n := if Peek(s, k) == SLASH then k + 1 else k;
      match ParseName(s, n)
      case Some(e) =>
        AttrsReadNull(s, e, []);
        assert [] + AttrRun(s, e) == AttrRun(s, e);
      case None =>
    }
  }

  lemma {:induction false} FlatReadsNull(s: bytes, i: nat, names: seq<bytes>)
    requires i <= |s|
    ensures FlatRun(s, i, names).error == NullRead <==> LexOne(s, FlatRun(s, i, names).at) == LexFail(NullRead)
    decreases |s| - i
  {
    hide LexOne;
    match LexOne(s, i)
    case Lex(LeafToken(_, _), next) => FlatReadsNull(s, next, names);
    case Lex(SealedTag(_, _), next) => FlatReadsNull(s, next, names);
    case Lex(OpenTag(name, _), next) =>
      if next < |s| {
        FlatReadsNull(s, next, names + [Slice(s, name)]);
      }
    case Lex(CloseTag(name), next) =>
      if names != [] && names[|names| - 1] == Slice(s, name) {
        FlatReadsNull(s, next, names[..|names| - 1]);
      }
    case _ =>
  }

  /**
   A parse has no result if and only if the flat reading stops at a tag in which a name
   is repeated whose first value is malformed.
   */
  lemma NoResultIff(s: bytes)
    ensures var t := Parse(s).text;
            Parse(s).error == NullRead <==> t != [] && NullTag(t, FlatRun(t, 0, []).at)
  {
    hide LexOne, At, SkipSpace, NullTag, FlatRun, ParseLevel;
    var t := Parse(s).text;
    ErrorIsFlat(s);
    FlatReadsNull(t, 0, []);
    TagReadsNull(t, FlatRun(t, 0, []).at);
  }

  /** `<a x="&#z;" x="1"/>` */
  const REPEATED_NAME: bytes :=
    [60, 97, 32, 120, 61, 34, 38, 35, 122, 59, 34, 32, 120, 61, 34, 49, 34, 47, 62]

  /** A text whose parse has no result: the value `&#z;` is read when its name comes again. */
  lemma ParseWithoutResult()
    ensures Parse(REPEATED_NAME).error == NullRead
  {
    hide *;
    var t := REPEATED_NAME;
    TagAtFront(t);
    RepeatedAttrs(t);
    FrontFails(t);
  }

  lemma TagAtFront(t: bytes)
    requires t == REPEATED_NAME
    ensures SkipSpace(t, 0) == 0 && !At(t, 0, BOM) && Identify(t, 0) == Tag(1)
    ensures SkipSpace(t, 1) == 1 && Peek(t, 1) != SLASH && ParseName(t, 1) == Some(2)
  {
    hide At, Identify;
    TagHere(t, 0);
    SkipSpaceUnique(t, 1, 1);
    NotAt(t, 0, BOM, 0);
    NameEndUnique(t, 1, 2);
  }

  lemma FrontFails(t: bytes)
    requires |t| > 2 && SkipSpace(t, 0) == 0 && !At(t, 0, BOM) && Identify(t, 0) == Tag(1)
    requires SkipSpace(t, 1) == 1 && Peek(t, 1) != SLASH && ParseName(t, 1) == Some(2)
    requires ParseAttrs(t, 2, []) == AttrsFail(NullRead)
    ensures Parse(t).error == NullRead
  {
    hide At, SkipSpace, Identify, ParseName, ParseAttrs, LexLeaf;
    assert LexTag(t, 1) == LexFail(NullRead);
    assert LexOne(t, 0) == LexFail(NullRead);
    assert ParseOne(t, 0) == OneFail(NullRead);
    assert ParseLevel(t, 0) == Level([], Failed(NullRead));
    assert t[0..] == t;
  }

  lemma RepeatedAttrs(t: bytes)
    requires t == REPEATED_NAME
    ensures |t| > 2 && ParseAttrs(t, 2, []) == AttrsFail(NullRead)
  {
    var x, y := RawAttr(Span(3, 4), Span(6, 10)), RawAttr(Span(12, 13), Span(15, 16));
    hide *;
    AttrTexts(t, x, y);
    AttrPlaces(t, x, y);
    NotReference(Slice(t, x.value));
    FirstAttr(t, x);
    ConcatEmpty([x]);
    SecondAttr(t, x, y);
  }

  lemma AttrTexts(t: bytes, x: RawAttr, y: RawAttr)
    requires t == REPEATED_NAME
    requires x == RawAttr(Span(3, 4), Span(6, 10)) && y == RawAttr(Span(12, 13), Span(15, 16))
    ensures Slice(t, x.name) == Slice(t, y.name) && Slice(t, x.value) == [38, 35, 122, 59]
  {
    assert t[3..4] == [120] == t[12..13];
  }

  lemma AttrPlaces(t: bytes, x: RawAttr, y: RawAttr)
    requires t == REPEATED_NAME
    requires x == RawAttr(Span(3, 4), Span(6, 10)) && y == RawAttr(Span(12, 13), Span(15, 16))
    ensures |t| == 19 && IsAlpha(t[3]) && IsAlpha(t[12])
    ensures SkipSpace(t, 2) == 3 && SkipSpace(t, 11) == 12
    ensures ParseAttr(t, 3) == AttrOk(x, 11) && ParseAttr(t, 12) == AttrOk(y, 17)
  {
    hide SkipSpace, ParseAttr;
    SkipSpaceUnique(t, 2, 3);
    SkipSpaceUnique(t, 11, 12);
    QuotedAttr(t, 3, 4, 10);
    QuotedAttr(t, 12, 13, 16);
  }

  lemma NotReference(v: bytes)
    requires v == [38, 35, 122, 59]
    ensures Decode(v, TEXT_FLAGS) == None
  {
    hide CharRef.Utf8, FindEntity;
    assert CharRef.IndexOf(v, 2, SEMI) == 3 && CharRef.Digit(122, 10) == 10;
    assert CharRef.CharacterRef(v) == CharRef.Null;
    assert StepAt(v, TEXT_FLAGS) == None;
  }

  lemma FirstAttr(t: bytes, x: RawAttr)
    requires |t| == 19 && SkipSpace(t, 2) == 3 && IsAlpha(t[3]) && ParseAttr(t, 3) == AttrOk(x, 11)
    ensures ParseAttrs(t, 2, []) == ParseAttrs(t, 11, [] + [x])
  {
    hide ParseAttr, SkipSpace;
  }

  lemma SecondAttr(t: bytes, x: RawAttr, y: RawAttr)
    requires |t| == 19 && SkipSpace(t, 11) == 12 && IsAlpha(t[12]) && ParseAttr(t, 12) == AttrOk(y, 17)
    requires Slice(t, x.name) == Slice(t, y.name) && Decode(Slice(t, x.value), TEXT_FLAGS) == None
    ensures ParseAttrs(t, 11, [x]) == AttrsFail(NullRead)
  {
    hide ParseAttr, SkipSpace, Decode, Slice;
    assert [x][0] == x;
    FirstNamedIs(t, [x], y.name, 0);
  }

  lemma QuotedAttr(t: bytes, i: nat, e: nat, q: nat)
    requires e + 2 <= q < |t| && i + 1 == e && IsAlpha(t[i]) && t[e] == EQ && t[e + 1] == QUOTE && t[q] == QUOTE
    requires forall k :: e + 2 <= k < q ==> t[k] != QUOTE
    ensures ParseAttr(t, i) == AttrOk(RawAttr(Span(i, e), Span(e + 2, q)), q + 1)
  {
    assert ParseName(t, i) == Some(e) by {
      NameEndUnique(t, i, e);
    }
    assert SkipSpace(t, e) == e && SkipSpace(t, e + 1) == e + 1 by {
      SkipSpaceUnique(t, e, e);
      SkipSpaceUnique(t, e + 1, e + 1);
    }
    hide At, FindEnd, SkipSpace, ParseName;
    QuoteFound(t, e + 2, q);
  }

  lemma QuoteFound(t: bytes, i: nat, q: nat)
    requires i <= q < |t| && t[q] == QUOTE && forall k :: i <= k < q ==> t[k] != QUOTE
    ensures FindEnd(t, i, [QUOTE]) == Some(q)
  {
    hide At, FindEnd;
    AtOne(t, q, QUOTE);
    forall k | i <= k < q ensures !At(t, k, [QUOTE]) {
      AtOne(t, k, QUOTE);
    }
    FindEndUnique(t, i, [QUOTE], q);
  }
}
