/**
 The tokens of the parser, written out in bytes: which texts are read as a token, that no
 others are, and which error is reported for which text.
 */
module Tokens {
  import opened Bytes
  import opened FlatParsing
  import opened Parsing
  import opened Syntax

  // ------------------------------------------------------------ leaves

  /** `<?`, `<!--`, `<![CDATA[` and `<!`; a text has no header. */
  function HeadOf(kind: LeafKind): bytes {
    match kind
    case Declaration => [60, 63]
    case Comment => [60, 33, 45, 45]
    case CData => [60, 33, 91, 67, 68, 65, 84, 65, 91]
    case Unknown => [60, 33]
    case PlainText => []
  }

  /** `?>`, `-->`, `]]>` and `>`; a text ends in front of the next `<`. */
  function TailOf(kind: LeafKind): bytes {
    match kind
    case Declaration => [63, 62]
    case Comment => [45, 45, 62]
    case CData => [93, 93, 62]
    case Unknown => [62]
    case PlainText => [60]
  }

  lemma TailIsTerminator(kind: LeafKind)
    ensures TailOf(kind) == Terminator(kind) && TailOf(kind) != []
  {
  }

  /** With the tail behind it, the value holds no earlier one. */
  ghost predicate EndsFirst(v: bytes, tail: bytes) {
    forall k :: 0 <= k < |v| ==> !At(v + tail, k, tail)
  }

  lemma FirstTail(s: bytes, q: nat, v: bytes, tail: bytes)
    requires At(s, q, v + tail) && EndsFirst(v, tail) && tail != []
    ensures q <= |s| && FindEnd(s, q, tail) == Some(q + |v|)
  {
    AtSplit(s, q, v, tail);
    AtFirst(s, q + |v|, tail);
    forall k | q <= k < q + |v| ensures !At(s, k, tail) {
      if At(s, k, tail) {
        WithinText(s, q, v + tail, k, k - q, tail);
      }
    }
    FindEndUnique(s, q, tail, q + |v|);
  }

  lemma WithinText(s: bytes, q: nat, x: bytes, k: nat, j: nat, t: bytes)
    requires At(s, q, x) && At(s, k, t) && k == q + j && j + |t| <= |x|
    ensures At(x, j, t)
  {
    forall m | 0 <= m < |t| ensures x[j + m] == t[m] {
      assert s[q + (j + m)] == x[j + m] && s[k + m] == t[m];
    }
  }

  lemma TailIsFirst(s: bytes, q: nat, e: nat, tail: bytes)
    requires q <= |s| && FindEnd(s, q, tail) == Some(e)
    ensures q <= e && At(s, q, s[q..e] + tail) && EndsFirst(s[q..e], tail)
  {
    AtFits(s, e, tail);
    AtSlice(s, q, s[q..e]);
    AtSplit(s, q, s[q..e], tail);
    var x := s[q..e] + tail;
    forall k | 0 <= k < e - q ensures !At(x, k, tail) {
      if At(x, k, tail) {
        OutOfText(s, q, x, k, tail);
      }
    }
  }

  lemma OutOfText(s: bytes, q: nat, x: bytes, k: nat, t: bytes)
    requires At(s, q, x) && At(x, k, t)
    ensures At(s, q + k, t)
  {
    forall m | 0 <= m < |t| ensures s[q + k + m] == t[m] {
      assert x[k + m] == t[m] && s[q + (k + m)] == x[k + m];
    }
  }

  // ------------------------------------------------------------ all tokens

  /**
   A token as it is written: a tag or a leaf behind white space; or a text, which begins
   with its white space and has another byte in it.
   */
  datatype LexText = TagLex(space: bytes, tag: TagText) | LeafLex(space: bytes, kind: LeafKind, value: bytes) | TextLex(value: bytes)

  ghost predicate LexTextOk(x: LexText) {
    match x
    case TagLex(space, tag) => AllWhite(space) && TagTextOk(tag)
    case LeafLex(space, kind, v) =>
      && AllWhite(space) && kind != PlainText && EndsFirst(v, TailOf(kind))
      && (kind == Unknown ==> !At(v, 0, [45, 45]) && !At(v, 0, [91, 67, 68, 65, 84, 65, 91]))
    case TextLex(v) => !AllWhite(v) && 60 !in v
  }

  function WriteLex(x: LexText): bytes {
    match x
    case TagLex(space, tag) => space + WriteTag(tag)
    case LeafLex(space, kind, v) => space + HeadOf(kind) + (v + TailOf(kind))
    case TextLex(v) => v
  }

  /** A text is followed by a `<` that is not the last byte. */
  predicate FollowedOk(s: bytes, next: nat, x: LexText) {
    x.TextLex? ==> next + 1 < |s| && s[next] == 60
  }

  function LexToken(x: LexText, i: nat): Token {
    match x
    case TagLex(space, tag) => TagToken(tag, i + |space|)
    case LeafLex(space, kind, v) => LeafToken(kind, Span(i + |space| + |HeadOf(kind)|, i + |space| + |HeadOf(kind)| + |v|))
    case TextLex(v) => LeafToken(PlainText, Span(i, i + |v|))
  }

  lemma HeadersAre()
    ensures HeadOf(Declaration) == XML_HEADER && HeadOf(Comment) == COMMENT_HEADER && HeadOf(CData) == CDATA_HEADER
    ensures HeadOf(Unknown) == DTD_HEADER && ELEMENT_HEADER == [60]
  {
  }

  function Headed(s: bytes, i: nat, p: nat): Identity
    requires p < |s|
  {
    if At(s, p, [60, 63]) then Leaf(Declaration, p + 2)
    else if At(s, p, [60, 33, 45, 45]) then Leaf(Comment, p + 4)
    else if At(s, p, [60, 33, 91, 67, 68, 65, 84, 65, 91]) then Leaf(CData, p + 9)
    else if At(s, p, [60, 33]) then Leaf(Unknown, p + 2)
    else if s[p] == 60 then Tag(p + 1)
    else Leaf(PlainText, i)
  }

  /** What `Identify` finds behind white space, with the headers in the order in which they are tried. */
  lemma IdentifiedAt(s: bytes, i: nat, p: nat)
    requires i <= |s| && SkipSpace(s, i) == p
    ensures p == |s| ==> Identify(s, i) == Nothing
    ensures p < |s| ==> Identify(s, i) == Headed(s, i, p)
  {
    HeadersAre();
    if p < |s| {
      AtOne(s, p, 60);
    }
    hide At, SkipSpace;
  }

  lemma TwoBytes(s: bytes, p: nat, c: byte, x: bytes)
    requires p + 1 < |s| && |x| >= 2 && x[1] == c && s[p + 1] != c
    ensures !At(s, p, x)
  {
    NotAt(s, p, x, 1);
  }

  /** Only one of the headers stands at a place, if an unknown does not begin like one of the others. */
  lemma HeaderIs(s: bytes, i: nat, p: nat, kind: LeafKind)
    requires i <= |s| && SkipSpace(s, i) == p && kind != PlainText && At(s, p, HeadOf(kind))
    requires kind == Unknown ==> !At(s, p + 2, [45, 45]) && !At(s, p + 2, [91, 67, 68, 65, 84, 65, 91])
    ensures p < |s| && Identify(s, i) == Leaf(kind, p + |HeadOf(kind)|)
  {
    AtFirst(s, p, HeadOf(kind));
    AtFits(s, p, HeadOf(kind));
    IdentifiedAt(s, i, p);
    AtSplit(s, p, [60, 33], [45, 45]);
    AtSplit(s, p, [60, 33], [91, 67, 68, 65, 84, 65, 91]);
    assert [60, 33] + [45, 45] == HeadOf(Comment) && [60, 33] + [91, 67, 68, 65, 84, 65, 91] == HeadOf(CData);
    assert s[p + 1] == HeadOf(kind)[1];
    if kind != Declaration {
      TwoBytes(s, p, 63, [60, 63]);
    }
    if kind == CData {
      assert s[p + 2] == HeadOf(CData)[2];
      NotAt(s, p, [60, 33, 45, 45], 2);
    }
  }

  lemma LexLeafIs(s: bytes, i: nat, kind: LeafKind, q: nat, e: nat)
    requires i <= |s| && Identify(s, i) == Leaf(kind, q) && kind != PlainText && FindEnd(s, q, TailOf(kind)) == Some(e)
    ensures LexOne(s, i) == Lex(LeafToken(kind, Span(q, e)), e + |TailOf(kind)|)
  {
    TailIsTerminator(kind);
    hide At, FindEnd, SkipSpace, Identify, Terminator, TailOf;
  }

  // ------------------------------------------------------------ texts that are read

  /** Such a text is read as a tag or a leaf, in full. */
  lemma TextIsLexed(s: bytes, i: nat, x: LexText)
    requires LexTextOk(x) && At(s, i, WriteLex(x)) && FollowedOk(s, i + |WriteLex(x)|, x)
    ensures i <= |s| && LexOne(s, i) == Lex(LexToken(x, i), i + |WriteLex(x)|)
  {
    hide LexOne, At, TagTextOk, WriteTag, TagToken, AllWhite, EndsFirst, HeadOf, TailOf;
    match x
    case TagLex(space, tag) => TagIsLexed(s, i, space, tag);
    case LeafLex(space, kind, v) => LeafIsLexed(s, i, space, kind, v);
    case TextLex(v) => PlainIsLexed(s, i, v);
  }

  lemma TagIsLexed(s: bytes, i: nat, space: bytes, tag: TagText)
    requires AllWhite(space) && TagTextOk(tag) && At(s, i, space + WriteTag(tag))
    ensures i <= |s| && LexOne(s, i) == Lex(TagToken(tag, i + |space|), i + |space + WriteTag(tag)|)
  {
    hide At, AllWhite, TagTextOk, WriteTag, TagToken, LexTag, SkipSpace, LexLeaf;
    var p := i + |space|;
    AtSplit(s, i, space, WriteTag(tag));
    TagIsRead(s, p, tag);
    assert !White(60);
    WhiteSkipped(s, i, space, p);
    IdentifiedAt(s, i, p);
    TwoBytes(s, p, 63, [60, 63]);
    TwoBytes(s, p, 33, [60, 33, 45, 45]);
    TwoBytes(s, p, 33, [60, 33, 91, 67, 68, 65, 84, 65, 91]);
    TwoBytes(s, p, 33, [60, 33]);
    hide Identify;
  }

  lemma LeafIsLexed(s: bytes, i: nat, space: bytes, kind: LeafKind, v: bytes)
    requires AllWhite(space) && kind != PlainText && EndsFirst(v, TailOf(kind))
    requires kind == Unknown ==> !At(v, 0, [45, 45]) && !At(v, 0, [91, 67, 68, 65, 84, 65, 91])
    requires At(s, i, space + HeadOf(kind) + (v + TailOf(kind)))
    ensures i <= |s|
    ensures LexOne(s, i) == Lex(LexToken(LeafLex(space, kind, v), i), i + |space + HeadOf(kind) + (v + TailOf(kind))|)
  {
    hide At, AllWhite, EndsFirst, LexOne, SkipSpace, Identify;
    var p := i + |space|;
    var q := p + |HeadOf(kind)|;
    AtSplit(s, i, space + HeadOf(kind), v + TailOf(kind));
    AtSplit(s, i, space, HeadOf(kind));
    AtFirst(s, p, HeadOf(kind));
    assert !White(60);
    WhiteSkipped(s, i, space, p);
    TailIsTerminator(kind);
    FirstTail(s, q, v, TailOf(kind));
    if kind == Unknown {
      NotBehind(s, q, v, [45, 45]);
      NotBehind(s, q, v, [91, 67, 68, 65, 84, 65, 91]);
    }
    HeaderIs(s, i, p, kind);
    LexLeafIs(s, i, kind, q, q + |v|);
  }

  /** A string without `>` that does not begin `v` does not stand where `v>` stands. */
  lemma NotBehind(s: bytes, q: nat, v: bytes, x: bytes)
    requires At(s, q, v + [62]) && 62 !in x && !At(v, 0, x)
    ensures !At(s, q, x)
  {
    AtBytes(s, q, v + [62]);
    if |x| > |v| {
      assert s[q + |v|] == (v + [62])[|v|];
      assert x[|v|] in x;
      NotAt(s, q, x, |v|);
    } else if At(s, q, x) {
      forall k | 0 <= k < |x| ensures v[0 + k] == x[k] {
        assert s[q + k] == (v + [62])[k];
      }
    }
  }

  lemma PlainIsLexed(s: bytes, i: nat, v: bytes)
    requires !AllWhite(v) && 60 !in v && At(s, i, v) && i + |v| + 1 < |s| && s[i + |v|] == 60
    ensures i <= |s| && LexOne(s, i) == Lex(LeafToken(PlainText, Span(i, i + |v|)), i + |v|)
  {
    var p := TextBegins(s, i, v);
    AtBytes(s, i, v);
    IdentifiedAt(s, i, p);
    NotLess(s, p);
    assert Identify(s, i) == Leaf(PlainText, i);
    NextLess(s, i, i + |v|);
    hide At, Identify, SkipSpace, FindEnd;
  }

  /** The first byte of a text that is not white. */
  lemma TextBegins(s: bytes, i: nat, v: bytes) returns (p: nat)
    requires !AllWhite(v) && 60 !in v && At(s, i, v)
    ensures i <= p < i + |v| <= |s| && SkipSpace(s, i) == p && s[p] != 60
  {
    AtBytes(s, i, v);
    var k := FirstDark(v, 0);
    WhiteIsSpace();
    forall j | i <= j < i + k ensures IsSpace(s[j]) {
      assert s[j] == v[j - i];
    }
    p := i + k;
    assert s[p] == v[k];
    SkipSpaceUnique(s, i, p);
  }

  lemma FirstDark(v: bytes, j: nat) returns (k: nat)
    requires j <= |v| && !AllWhite(v) && forall m :: 0 <= m < j ==> White(v[m])
    ensures k < |v| && !White(v[k]) && forall m :: 0 <= m < k ==> White(v[m])
    decreases |v| - j
  {
    if !White(v[j]) {
      k := j;
    } else {
      k := FirstDark(v, j + 1);
    }
  }

  lemma NotLess(s: bytes, p: nat)
    requires p < |s| && s[p] != 60
    ensures !At(s, p, [60, 63]) && !At(s, p, [60, 33, 45, 45]) && !At(s, p, [60, 33])
    ensures !At(s, p, [60, 33, 91, 67, 68, 65, 84, 65, 91])
  {
    NotAt(s, p, [60, 63], 0);
    NotAt(s, p, [60, 33, 45, 45], 0);
    NotAt(s, p, [60, 33], 0);
    NotAt(s, p, [60, 33, 91, 67, 68, 65, 84, 65, 91], 0);
  }

  lemma NextLess(s: bytes, i: nat, e: nat)
    requires i <= e < |s| && s[e] == 60 && forall k :: i <= k < e ==> s[k] != 60
    ensures FindEnd(s, i, [LT]) == Some(e)
  {
    AtOne(s, e, 60);
    forall k | i <= k < e ensures !At(s, k, [LT]) {
      AtOne(s, k, 60);
    }
    FindEndUnique(s, i, [LT], e);
  }

  // ------------------------------------------------------------ and no others

  /** Every token that is read was written so. */
  lemma LexedIsText(s: bytes, i: nat, token: Token, next: nat) returns (x: LexText)
    requires i <= |s| && LexOne(s, i) == Lex(token, next)
    ensures LexTextOk(x) && At(s, i, WriteLex(x)) && FollowedOk(s, next, x)
    ensures next == i + |WriteLex(x)| && token == LexToken(x, i)
  {
    hide LexOne, SkipSpace, Identify, At;
    var p := SkippedTo(s, i);
    NotNothing(s, i, token, next);
    match Identify(s, i)
    case Tag(q) => x := LexedIsTag(s, i, p, q, token, next);
    case Leaf(kind, q) =>
      if kind == PlainText {
        x := LexedIsPlain(s, i, p, q, token, next);
      } else {
        x := LexedIsLeaf(s, i, p, kind, q, token, next);
      }
    case _ =>
  }

  lemma NotNothing(s: bytes, i: nat, token: Token, next: nat)
    requires i <= |s| && LexOne(s, i) == Lex(token, next)
    ensures !Identify(s, i).Nothing?
  {
    hide At, SkipSpace;
  }

  lemma LexedIsTag(s: bytes, i: nat, p: nat, q: nat, token: Token, next: nat) returns (x: LexText)
    requires i <= |s| && p == SkipSpace(s, i) && AllWhite(s[i..p]) && Identify(s, i) == Tag(q) && LexOne(s, i) == Lex(token, next)
    ensures LexTextOk(x) && At(s, i, WriteLex(x)) && x.TagLex? && next == i + |WriteLex(x)| && token == LexToken(x, i)
  {
    TagIdentified(s, i, p, q, token, next);
    hide *;
    var t := ReadIsTag(s, p, token, next);
    x := TagLex(s[i..p], t);
    AtSlice(s, i, s[i..p]);
    AtSplit(s, i, s[i..p], WriteTag(t));
    TagLexOk(s[i..p], t, i, p);
  }

  lemma TagIdentified(s: bytes, i: nat, p: nat, q: nat, token: Token, next: nat)
    requires i <= |s| && p == SkipSpace(s, i) && Identify(s, i) == Tag(q) && LexOne(s, i) == Lex(token, next)
    ensures i <= p < |s| && s[p] == LT && LexTag(s, p + 1) == Lex(token, next)
  {
    hide *;
    IdentifiedAt(s, i, p);
    SkipBound(s, i);
    LexByIdentity(s, i);
    if p < |s| {
      HeadedTag(s, i, p);
    }
  }

  lemma HeadedTag(s: bytes, i: nat, p: nat)
    requires p < |s|
    ensures Headed(s, i, p).Tag? ==> s[p] == LT && Headed(s, i, p) == Tag(p + 1)
  {
    hide At;
  }

  lemma LexByIdentity(s: bytes, i: nat)
    requires i <= |s|
    ensures match Identify(s, i)
            case Nothing => LexOne(s, i) == LexEnd
            case Tag(q) => LexOne(s, i) == LexTag(s, q)
            case Leaf(kind, q) => LexOne(s, i) == LexLeaf(s, kind, q)
  {
    hide LexTag, LexLeaf, At, SkipSpace;
  }

  lemma TagLexOk(space: bytes, t: TagText, i: nat, p: nat)
    requires AllWhite(space) && TagTextOk(t) && p == i + |space|
    ensures LexTextOk(TagLex(space, t)) && WriteLex(TagLex(space, t)) == space + WriteTag(t)
    ensures LexToken(TagLex(space, t), i) == TagToken(t, p)
  {
    hide AllWhite, TagTextOk, WriteTag, TagToken;
  }

  lemma LexedIsLeaf(s: bytes, i: nat, p: nat, kind: LeafKind, q: nat, token: Token, next: nat) returns (x: LexText)
    requires i <= |s| && p == SkipSpace(s, i) && AllWhite(s[i..p]) && kind != PlainText
    requires Identify(s, i) == Leaf(kind, q) && LexOne(s, i) == Lex(token, next)
    ensures LexTextOk(x) && At(s, i, WriteLex(x)) && x.LeafLex? && next == i + |WriteLex(x)| && token == LexToken(x, i)
  {
    var e := LeafValue(s, i, kind, q, token, next);
    HeaderRead(s, i, p, kind, q);
    SkipBound(s, i);
    var v := s[q..e];
    hide *;
    TailIsFirst(s, q, e, TailOf(kind));
    x := LeafLex(s[i..p], kind, v);
    LeafJoined(s, i, p, q, kind, v);
    if kind == Unknown {
      NotInside(s, q, e, [45, 45]);
      NotInside(s, q, e, [91, 67, 68, 65, 84, 65, 91]);
    }
    LeafLexOk(s[i..p], kind, v, i, q, e);
  }

  lemma LeafJoined(s: bytes, i: nat, p: nat, q: nat, kind: LeafKind, v: bytes)
    requires i <= p <= |s| && At(s, p, HeadOf(kind)) && q == p + |HeadOf(kind)| && At(s, q, v + TailOf(kind))
    ensures At(s, i, s[i..p] + HeadOf(kind) + (v + TailOf(kind)))
  {
    hide At, HeadOf, TailOf;
    AtSlice(s, i, s[i..p]);
    AtSplit(s, i, s[i..p], HeadOf(kind));
    AtSplit(s, i, s[i..p] + HeadOf(kind), v + TailOf(kind));
  }

  lemma SkipBound(s: bytes, i: nat)
    requires i <= |s|
    ensures i <= SkipSpace(s, i) <= |s|
  {
  }

  lemma LeafLexOk(space: bytes, kind: LeafKind, v: bytes, i: nat, q: nat, e: nat)
    requires AllWhite(space) && kind != PlainText && EndsFirst(v, TailOf(kind))
    requires kind == Unknown ==> !At(v, 0, [45, 45]) && !At(v, 0, [91, 67, 68, 65, 84, 65, 91])
    requires q == i + |space| + |HeadOf(kind)| && e == q + |v|
    ensures var x := LeafLex(space, kind, v);
            && LexTextOk(x) && WriteLex(x) == space + HeadOf(kind) + (v + TailOf(kind))
            && LexToken(x, i) == LeafToken(kind, Span(q, e))
            && i + |WriteLex(x)| == e + |TailOf(kind)|
  {
    hide AllWhite, EndsFirst, HeadOf, TailOf, At;
  }

  lemma NotInside(s: bytes, q: nat, e: nat, x: bytes)
    requires q <= e <= |s|
    ensures At(s[q..e], 0, x) ==> At(s, q, x)
  {
    if At(s[q..e], 0, x) {
      AtSlice(s, q, s[q..e]);
      OutOfText(s, q, s[q..e], 0, x);
    }
  }

  lemma LeafValue(s: bytes, i: nat, kind: LeafKind, q: nat, token: Token, next: nat) returns (e: nat)
    requires i <= |s| && kind != PlainText && Identify(s, i) == Leaf(kind, q) && LexOne(s, i) == Lex(token, next)
    ensures q <= e <= |s| && FindEnd(s, q, TailOf(kind)) == Some(e)
    ensures token == LeafToken(kind, Span(q, e)) && next == e + |TailOf(kind)|
  {
    TailIsTerminator(kind);
    hide At, FindEnd, SkipSpace, Identify, Terminator, TailOf;
    e := FindEnd(s, q, TailOf(kind)).value;
    AtFits(s, e, TailOf(kind));
  }

  lemma HeaderRead(s: bytes, i: nat, p: nat, kind: LeafKind, q: nat)
    requires i <= |s| && p == SkipSpace(s, i) && kind != PlainText && Identify(s, i) == Leaf(kind, q)
    ensures q == p + |HeadOf(kind)| && At(s, p, HeadOf(kind))
    ensures kind == Unknown ==> !At(s, q, [45, 45]) && !At(s, q, [91, 67, 68, 65, 84, 65, 91])
  {
    IdentifiedAt(s, i, p);
    AtSplit(s, p, [60, 33], [45, 45]);
    AtSplit(s, p, [60, 33], [91, 67, 68, 65, 84, 65, 91]);
    assert [60, 33] + [45, 45] == HeadOf(Comment) && [60, 33] + [91, 67, 68, 65, 84, 65, 91] == HeadOf(CData);
    hide At, SkipSpace, Identify;
  }

  lemma LexedIsPlain(s: bytes, i: nat, p: nat, q: nat, token: Token, next: nat) returns (x: LexText)
    requires i <= |s| && p == SkipSpace(s, i) && Identify(s, i) == Leaf(PlainText, q) && LexOne(s, i) == Lex(token, next)
    ensures LexTextOk(x) && At(s, i, WriteLex(x)) && FollowedOk(s, next, x)
    ensures next == i + |WriteLex(x)| && token == LexToken(x, i)
  {
    var e := PlainValue(s, i, p, q, token, next);
    x := TextLex(s[i..e]);
    AtSlice(s, i, s[i..e]);
    SkippedIsWhite(s, i, p);
    assert s[i..e][p - i] == s[p];
  }

  lemma PlainValue(s: bytes, i: nat, p: nat, q: nat, token: Token, next: nat) returns (e: nat)
    requires i <= |s| && p == SkipSpace(s, i) && Identify(s, i) == Leaf(PlainText, q) && LexOne(s, i) == Lex(token, next)
    ensures i <= p < e == next && e + 1 < |s| && s[e] == 60 && 60 !in s[i..e]
    ensures token == LeafToken(PlainText, Span(i, e))
  {
    IdentifiedAt(s, i, p);
    NotLess60(s, i, p);
    assert q == i;
    e := FindEnd(s, i, [LT]).value;
    ValueEnds(s, i, LT, e);
    hide At, SkipSpace, Identify, FindEnd;
    assert token == LeafToken(PlainText, Span(i, e)) && next == e;
    WhiteIsSpace();
  }

  lemma NotLess60(s: bytes, i: nat, p: nat)
    requires i <= |s| && p == SkipSpace(s, i)
    ensures forall k :: i <= k < p ==> s[k] != 60
  {
  }

  // ------------------------------------------------------------ errors

  /** No token is left exactly where nothing but white space is. */
  lemma NothingLeftIff(s: bytes, i: nat)
    requires i <= |s|
    ensures LexOne(s, i) == LexEnd <==> AllWhite(s[i..])
  {
    EndIsSpace(s, i);
    SkippedIsWhite(s, i, SkipSpace(s, i));
    hide LexOne;
    var p := SkipSpace(s, i);
    if p < |s| {
      assert s[i..][p - i] == s[p];
    } else {
      assert s[i..p] == s[i..];
    }
  }

  /** A header without its tail: each kind has its own error. */
  lemma LeafWithoutTail(s: bytes, i: nat, space: bytes, kind: LeafKind)
    requires AllWhite(space) && kind != PlainText && At(s, i, space + HeadOf(kind))
    requires var q := i + |space + HeadOf(kind)|;
             && (kind == Unknown ==> !At(s, q, [45, 45]) && !At(s, q, [91, 67, 68, 65, 84, 65, 91]))
             && forall k :: q <= k < |s| ==> !At(s, k, TailOf(kind))
    ensures i <= |s|
    ensures kind == Declaration ==> LexOne(s, i) == LexFail(ParsingDeclaration)
    ensures kind == Comment ==> LexOne(s, i) == LexFail(ParsingComment)
    ensures kind == CData ==> LexOne(s, i) == LexFail(ParsingCData)
    ensures kind == Unknown ==> LexOne(s, i) == LexFail(ParsingUnknown)
  {
    assert kind == Unknown ==> |HeadOf(kind)| == 2;
    hide At, AllWhite, LexOne, SkipSpace, Identify, HeadOf;
    var p := i + |space|;
    var q := p + |HeadOf(kind)|;
    AtSplit(s, i, space, HeadOf(kind));
    HeadBegins(s, p, kind);
    WhiteSkipped(s, i, space, p);
    HeaderIs(s, i, p, kind);
    AtFits(s, p, HeadOf(kind));
    NoTail(s, q, TailOf(kind));
    TailIsTerminator(kind);
    LexByIdentity(s, i);
  }

  lemma HeadBegins(s: bytes, p: nat, kind: LeafKind)
    requires kind != PlainText && At(s, p, HeadOf(kind))
    ensures p < |s| && s[p] == 60 && !White(60)
  {
    AtFirst(s, p, HeadOf(kind));
  }

  lemma NoTail(s: bytes, q: nat, tail: bytes)
    requires q <= |s| && forall k :: q <= k < |s| ==> !At(s, k, tail)
    ensures FindEnd(s, q, tail) == None || (FindEnd(s, q, tail) == Some(|s|) && tail == [])
    decreases |s| - q
  {
    if q < |s| {
      NoTail(s, q + 1, tail);
    }
  }

  /** A text that no `<` ends, and one whose `<` is the last byte. */
  lemma TextWithoutTag(s: bytes, i: nat, v: bytes)
    requires i <= |s| && !AllWhite(v) && 60 !in v
    ensures s[i..] == v ==> LexOne(s, i) == LexFail(ParsingText)
    ensures s[i..] == v + [60] ==> LexOne(s, i) == LexFail(ParsingError)
  {
    hide LexOne, AllWhite;
    if s[i..] == v {
      AtSlice(s, i, v);
      PlainIdentified(s, i, v);
      NoLess(s, i, v);
      LexByIdentity(s, i);
    }
    if s[i..] == v + [60] {
      AtSlice(s, i, v + [60]);
      AtSplit(s, i, v, [60]);
      AtOne(s, i + |v|, 60);
      AtBytes(s, i, v);
      PlainIdentified(s, i, v);
      NextLess(s, i, i + |v|);
      LexByIdentity(s, i);
    }
  }

  lemma PlainIdentified(s: bytes, i: nat, v: bytes)
    requires !AllWhite(v) && 60 !in v && At(s, i, v)
    ensures i <= |s| && Identify(s, i) == Leaf(PlainText, i)
  {
    var p := TextBegins(s, i, v);
    IdentifiedAt(s, i, p);
    NotLess(s, p);
    hide Identify, At, SkipSpace;
  }

  lemma NoLess(s: bytes, i: nat, v: bytes)
    requires i <= |s| && s[i..] == v && 60 !in v
    ensures FindEnd(s, i, [LT]) == None
  {
    forall k | i <= k < |s| ensures !At(s, k, [LT]) {
      assert s[k] == v[k - i];
      AtOne(s, k, LT);
    }
    NoTail(s, i, [LT]);
  }

  /** A tag up to what ends it. */
  function TagFront(t: TagText): bytes {
    TagOpens(t) + t.name + WriteRun(t.run) + t.last
  }

  lemma FrontParts(s: bytes, i: nat, t: TagText)
    requires At(s, i, TagFront(t))
    ensures var n := i + |TagOpens(t)|;
            var e := n + |t.name|;
            var l := e + |WriteRun(t.run)|;
            && At(s, i, TagOpens(t)) && At(s, n, t.name) && At(s, e, WriteRun(t.run)) && At(s, l, t.last)
            && i + |TagFront(t)| == l + |t.last|
  {
    hide At, TagOpens, WriteRun;
    var x1 := TagOpens(t) + t.name;
    var x2 := x1 + WriteRun(t.run);
    AtSplit(s, i, x2, t.last);
    AtSplit(s, i, x1, WriteRun(t.run));
    AtSplit(s, i, TagOpens(t), t.name);
  }

  /** The byte behind the name is none of a name. */
  lemma NameEnds(s: bytes, e: nat, t: TagText)
    requires TagTextOk(t) && At(s, e, WriteRun(t.run)) && At(s, e + |WriteRun(t.run)|, t.last)
    requires var z := e + |WriteRun(t.run)| + |t.last|;
             t.run == [] && t.last == [] && z < |s| ==> !InName(s[z])
    ensures e <= |s| && (e < |s| ==> !InName(s[e]))
  {
    if t.run != [] {
      RunParts(s, e, t.run);
      AtFirst(s, e, t.run[0].space);
      assert White(t.run[0].space[0]);
    } else if t.last != [] {
      AtFirst(s, e, t.last);
      assert White(t.last[0]);
    }
  }

  /** What is left for `ParseAttributes` behind the front of a tag, which ends at `z`. */
  lemma FrontIsRead(s: bytes, i: nat, space: bytes, t: TagText, z: nat) returns (attrs: seq<RawAttr>, l: nat)
    requires AllWhite(space) && TagTextOk(t) && At(s, i, space + TagFront(t)) && z == i + |space + TagFront(t)|
    requires z < |s| ==> !White(s[z])
    requires t.run == [] && t.last == [] && z < |s| ==> !InName(s[z])
    ensures i <= |s| && l <= |s| && SkipSpace(s, l) == z <= |s|
    ensures attrs == RunAt(t.run, i + |space| + |TagOpens(t)| + |t.name|) && At(s, i + |space| + |TagOpens(t)| + |t.name|, WriteRun(t.run))
    ensures ParseAttrs(s, l, attrs).AttrsFail? ==> LexOne(s, i) == LexFail(ParseAttrs(s, l, attrs).error)
  {
    hide *;
    var p := i + |space|;
    AtSplit(s, i, space, TagFront(t));
    FrontParts(s, p, t);
    var n := p + |TagOpens(t)|;
    var e := n + |t.name|;
    l := e + |WriteRun(t.run)|;
    FrontSizes(t, i, space, p, l, z);
    FrontOfTag(s, p, t);
    NameEnds(s, e, t);
    NameRead(s, n, t.name, e);
    NothingSeen(s, t);
    RunIsRead(s, e, t.run, []);
    attrs := RunAt(t.run, e);
    ConcatEmpty(attrs);
    WhiteSkipped(s, l, t.last, z);
    TagStarts(s, i, space, p);
    LexTagFails(s, p + 1, t, n, e);
  }

  lemma FrontSizes(t: TagText, i: nat, space: bytes, p: nat, l: nat, z: nat)
    requires TagTextOk(t) && p == i + |space| && l == p + |TagOpens(t)| + |t.name| + |WriteRun(t.run)|
    requires z == i + |space + TagFront(t)|
    ensures z == l + |t.last| && IsName(t.name) && AllWhite(t.last) && RunOk(t.run)
  {
    hide IsName, AllWhite, RunOk, WriteRun, TagOpens;
  }

  /** A `<` behind white space begins a tag, if neither `?` nor `!` follows. */
  lemma TagStarts(s: bytes, i: nat, space: bytes, p: nat)
    requires AllWhite(space) && At(s, i, space) && p == i + |space| && p + 1 < |s| && s[p] == LT && s[p + 1] != 63 && s[p + 1] != 33
    ensures i <= |s| && LexOne(s, i) == LexTag(s, p + 1)
  {
    hide At, AllWhite, LexTag, SkipSpace, LexOne, Identify;
    assert !White(60);
    WhiteSkipped(s, i, space, p);
    IdentifiedAt(s, i, p);
    TwoBytes(s, p, 63, [60, 63]);
    TwoBytes(s, p, 33, [60, 33, 45, 45]);
    TwoBytes(s, p, 33, [60, 33, 91, 67, 68, 65, 84, 65, 91]);
    TwoBytes(s, p, 33, [60, 33]);
    LexByIdentity(s, i);
  }

  lemma LexTagFails(s: bytes, i: nat, t: TagText, n: nat, e: nat)
    requires 0 < i <= |s| && n <= |s| && e <= |s|
    requires var k := SkipSpace(s, i); (Peek(s, k) == SLASH <==> t.closing) && n == if t.closing then k + 1 else k
    requires ParseName(s, n) == Some(e)
    ensures ParseAttrs(s, e, []).AttrsFail? ==> LexTag(s, i) == LexFail(ParseAttrs(s, e, []).error)
  {
    hide SkipSpace, ParseName, ParseAttrs;
  }

  /** A tag that neither goes on with an attribute nor ends. */
  lemma TagWithoutEnd(s: bytes, i: nat, space: bytes, t: TagText, z: nat)
    requires AllWhite(space) && TagTextOk(t) && At(s, i, space + TagFront(t)) && z == i + |space + TagFront(t)|
    requires z < |s| ==> !White(s[z]) && !Letter(s[z]) && s[z] != 62 && !(s[z] == 47 && Peek(s, z + 1) == 62)
    requires t.run == [] && t.last == [] && z < |s| ==> !InName(s[z])
    ensures i <= |s| && LexOne(s, i) == LexFail(ParsingElement)
  {
    var attrs, l := FrontIsRead(s, i, space, t, z);
    hide *;
    NoEndHere(s, l, z, attrs);
  }

  lemma NoEndHere(s: bytes, l: nat, z: nat, attrs: seq<RawAttr>)
    requires l <= |s| && SkipSpace(s, l) == z
    requires z < |s| ==> !Letter(s[z]) && s[z] != 62 && !(s[z] == 47 && Peek(s, z + 1) == 62)
    ensures ParseAttrs(s, l, attrs) == AttrsFail(ParsingElement)
  {
    LettersAre();
    hide SkipSpace, ParseAttr, Letter, InName;
  }

  /** A tag in which a letter begins what is no attribute. */
  lemma TagWithBadAttribute(s: bytes, i: nat, space: bytes, t: TagText, z: nat)
    requires AllWhite(space) && TagTextOk(t) && At(s, i, space + TagFront(t)) && z == i + |space + TagFront(t)| < |s|
    requires Letter(s[z]) && (t.run == [] ==> t.last != [])
    requires forall a :: AttrTextOk(a) ==> !At(s, z, WriteAttr(a))
    ensures i <= |s| && LexOne(s, i) == LexFail(ParsingAttribute)
  {
    NotWhite(s[z]);
    var attrs, l := FrontIsRead(s, i, space, t, z);
    LettersAre();
    hide At, SkipSpace, LexOne, TagFront, AllWhite, TagTextOk, White, Letter, InName, ParseAttr, WriteAttr;
    if ParseAttr(s, z).AttrOk? {
      var a := ReadIsAttr(s, z, ParseAttr(s, z).attr, ParseAttr(s, z).next);
    }
  }

  /** A `<` with no name behind it. */
  lemma TagWithoutName(s: bytes, i: nat, space: bytes, inner: bytes, closing: bool, n: nat)
    requires AllWhite(space) && AllWhite(inner)
    requires At(s, i, space + ([60] + inner) + (if closing then [47] else []))
    requires n == i + |space| + 1 + |inner| + (if closing then 1 else 0)
    requires n < |s| ==> !Letter(s[n])
    requires !closing ==> (n < |s| ==> !White(s[n]) && s[n] != 47) && (inner == [] ==> n < |s| && s[n] != 63 && s[n] != 33)
    ensures i <= |s| && LexOne(s, i) == LexFail(ParsingError)
  {
    var p := i + |space|;
    BareTag(s, i, space, inner, closing, p, n);
    TagStarts(s, i, space, p);
    LettersAre();
    hide At, AllWhite, SkipSpace, LexOne, ParseAttrs;
  }

  lemma BareTag(s: bytes, i: nat, space: bytes, inner: bytes, closing: bool, p: nat, n: nat)
    requires AllWhite(inner) && p == i + |space|
    requires At(s, i, space + ([60] + inner) + (if closing then [47] else []))
    requires n == p + 1 + |inner| + (if closing then 1 else 0)
    requires !closing ==> (n < |s| ==> !White(s[n]) && s[n] != 47) && (inner == [] ==> n < |s| && s[n] != 63 && s[n] != 33)
    ensures At(s, i, space) && p + 1 < |s| && s[p] == LT && s[p + 1] != 63 && s[p + 1] != 33 && n <= |s|
    ensures var k := SkipSpace(s, p + 1); (Peek(s, k) == SLASH <==> closing) && n == if closing then k + 1 else k
  {
    var c: bytes := if closing then [47] else [];
    AtSplit(s, i, space + ([60] + inner), c);
    AtSplit(s, i, space, [60] + inner);
    AtSplit(s, p, [60], inner);
    AtFits(s, p, [60] + inner);
    AtOne(s, p, 60);
    var k := p + 1 + |inner|;
    if closing {
      AtOne(s, k, 47);
    }
    if inner != [] {
      AtFirst(s, p + 1, inner);
      assert White(inner[0]);
    }
    WhiteSkipped(s, p + 1, inner, k);
  }

  /** White space in front of a tag or a leaf changes nothing but where it stands. */
  lemma SpaceIsSkipped(s: bytes, i: nat, p: nat)
    requires i <= p < |s| && AllWhite(s[i..p]) && s[p] == 60
    ensures LexOne(s, i) == LexOne(s, p)
  {
    hide LexTag, LexLeaf;
    assert !White(60);
    AtSlice(s, i, s[i..p]);
    WhiteSkipped(s, i, s[i..p], p);
    AtSlice(s, p, s[p..p]);
    WhiteSkipped(s, p, s[p..p], p);
    IdentifiedAt(s, i, p);
    IdentifiedAt(s, p, p);
    LexByIdentity(s, i);
    LexByIdentity(s, p);
    hide LexOne, At, SkipSpace, Identify;
  }

  // ------------------------------------------------------------ the front of a text

  /** Behind white space and a byte order mark, the rest is the text of the document. */
  lemma TextBehindMark(w: bytes, body: bytes)
    requires AllWhite(w)
    ensures Parse(w + [239, 187, 191] + body).bom && Parse(w + [239, 187, 191] + body).text == body
  {
    hide ParseLevel;
    var s := w + [239, 187, 191] + body;
    AtSlice(s, 0, w + [239, 187, 191]);
    AtSplit(s, 0, w, [239, 187, 191]);
    AtFirst(s, |w|, [239, 187, 191]);
    WhiteSkipped(s, 0, w, |w|);
  }

  /** Without one, the text begins at the first byte that is not white. */
  lemma TextWithoutMark(w: bytes, body: bytes)
    requires AllWhite(w) && (body != [] ==> !White(body[0])) && !At(body, 0, [239, 187, 191])
    ensures !Parse(w + body).bom && Parse(w + body).text == body
  {
    hide ParseLevel;
    var s := w + body;
    AtSlice(s, 0, w);
    WhiteSkipped(s, 0, w, |w|);
    if At(s, |w|, [239, 187, 191]) {
      MarkInBody(s, w, body);
    }
  }

  lemma MarkInBody(s: bytes, w: bytes, body: bytes)
    requires s == w + body && At(s, |w|, [239, 187, 191])
    ensures At(body, 0, [239, 187, 191])
  {
    forall k | 0 <= k < 3 ensures body[0 + k] == [239, 187, 191][k] {
      assert s[|w| + k] == [239, 187, 191][k];
    }
  }
}
