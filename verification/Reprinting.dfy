/**
 The other way round: which parsed documents can be printed and read back. Names, the
 ends of leaves and the places of text need no condition, since the parser sees to them.
 */
module Reprinting {
  import opened Bytes
  import opened Decoding
  import opened Documents
  import opened ElementAttributes
  import opened Parsing
  import opened RoundTrip

  /** The strings of the tree have no CR and no NUL, and no text is white space alone. */
  ghost predicate Clean(x: Node) {
    match x
    case LeafNode(kind, v) => CleanString(v) && (kind == PlainText ==> !AllSpace(v))
    case Element(_, attrs, children) =>
      && (forall k :: 0 <= k < |attrs| ==> CleanString(attrs[k].value))
      && (forall k :: 0 <= k < |children| ==> Clean(children[k]))
  }

  // ------------------------------------------------------------ leaves

  predicate OnOneLine(t: bytes) {
    forall k :: 0 <= k < |t| ==> t[k] != LF && t[k] != CR
  }

  lemma NewlineStep(r: bytes)
    requires r != []
    ensures var st := StepAt(r, NEWLINES_ONLY);
            && st.Some? && st.value.Write? && |st.value.out| == 1
            && (st.value.out[0] != LF ==> st.value == Write(1, [r[0]]))
  {
  }

  lemma {:induction false} NewlinesOnly(r: bytes)
    ensures Script(r, NEWLINES_ONLY).Some?
    ensures forall k :: 0 <= k < |Script(r, NEWLINES_ONLY).value| ==> Script(r, NEWLINES_ONLY).value[k].Write?
    ensures Decode(r, NEWLINES_ONLY) == Some(Meaning(Script(r, NEWLINES_ONLY).value))
    decreases |r|
  {
    hide StepAt, Meaning, InPlace;
    if r != [] {
      NewlineStep(r);
      NewlinesOnly(r[Advance(StepAt(r, NEWLINES_ONLY).value)..]);
    }
    NoSkipMeets(r, Script(r, NEWLINES_ONLY).value, 0);
    DecodeIsMeaning(r, NEWLINES_ONLY);
  }

  /** What one round leaves of the text, and what it writes. */
  lemma NewlineRound(r: bytes) returns (n: nat, c: byte, rest: bytes)
    requires r != []
    ensures 1 <= n <= |r| && rest == r[n..] && (c != LF ==> n == 1 && c == r[0])
    ensures NewlineText(r) == [c] + NewlineText(rest)
  {
    hide StepAt;
    NewlineStep(r);
    NewlinesOnly(r);
    var st := StepAt(r, NEWLINES_ONLY).value;
    n, c, rest := Advance(st), st.out[0], r[Advance(st)..];
    NewlinesOnly(rest);
    var sc := Script(rest, NEWLINES_ONLY).value;
    ScriptCons(r, NEWLINES_ONLY, st, rest);
    assert ([st] + sc)[1..] == sc;
    assert st.out == [c];
  }

  function NewlineText(r: bytes): bytes {
    match Script(r, NEWLINES_ONLY)
    case Some(sc) => Meaning(sc)
    case None => []
  }

  lemma NothingDecoded()
    ensures NewlineText([]) == []
  {
  }

  /** What a decoded text begins with and is on one line, the text begins with. */
  lemma {:induction false} FrontIsRaw(r: bytes, t: bytes)
    requires OnOneLine(t) && At(NewlineText(r), 0, t)
    ensures At(r, 0, t)
    decreases |t|
  {
    if t != [] {
      var v := NewlineText(r);
      AtFirst(v, 0, t);
      NothingDecoded();
      var n, c, rest := NewlineRound(r);
      hide NewlineText;
      assert v[0] == c == t[0];
      AtTail(v, [c], NewlineText(rest), t);
      FrontIsRaw(rest, t[1..]);
      assert r == [t[0]] + rest;
      AtCons(r, rest, t);
    }
  }

  lemma AtTail(v: bytes, c: bytes, w: bytes, t: bytes)
    requires |c| == 1 && v == c + w && t != [] && At(v, 0, t)
    ensures At(w, 0, t[1..])
  {
    forall k | 0 <= k < |t[1..]| ensures w[k] == t[1..][k] {
      assert v[0 + (k + 1)] == t[k + 1];
    }
  }

  lemma AtCons(r: bytes, rest: bytes, t: bytes)
    requires t != [] && r == [t[0]] + rest && At(rest, 0, t[1..])
    ensures At(r, 0, t)
  {
    forall k | 0 <= k < |t| ensures r[0 + k] == t[k] {
      if k > 0 {
        assert rest[0 + (k - 1)] == t[1..][k - 1];
      }
    }
  }

  /** What occurs in the decoded text on one line occurs in the text. */
  lemma {:induction false} OccursRaw(r: bytes, k: nat, t: bytes) returns (j: nat)
    requires OnOneLine(t) && t != [] && At(NewlineText(r), k, t)
    ensures At(r, j, t)
    decreases k
  {
    if k == 0 {
      FrontIsRaw(r, t);
      j := 0;
    } else {
      var v := NewlineText(r);
      AtFirst(v, k, t);
      NothingDecoded();
      var n, c, rest := NewlineRound(r);
      hide NewlineText;
      ShiftAt(v, [c], NewlineText(rest), k, k - 1, t);
      var j' := OccursRaw(rest, k - 1, t);
      assert r == r[..n] + rest;
      j := n + j';
      ShiftBack(r, r[..n], rest, j, j', t);
    }
  }

  lemma ShiftAt(v: bytes, a: bytes, b: bytes, k: nat, k': nat, t: bytes)
    requires v == a + b && k == |a| + k' && At(v, k, t)
    ensures At(b, k', t)
  {
    forall m | 0 <= m < |t| ensures b[k' + m] == t[m] {
      assert v[k + m] == t[m];
    }
  }

  lemma ShiftBack(v: bytes, a: bytes, b: bytes, k: nat, k': nat, t: bytes)
    requires v == a + b && k == |a| + k' && At(b, k', t)
    ensures At(v, k, t)
  {
    forall m | 0 <= m < |t| ensures v[k + m] == t[m] {
      assert b[k' + m] == t[m];
    }
  }

  lemma SliceAt(s: bytes, i: nat, e: nat, j: nat, t: bytes)
    requires i <= e <= |s| && At(s[i..e], j, t)
    ensures i + j + |t| <= e && At(s, i + j, t)
  {
    forall m | 0 <= m < |t| ensures s[i + j + m] == t[m] {
      assert s[i..e][j + m] == t[m];
    }
  }

  lemma TerminatorFacts(kind: LeafKind)
    requires kind != PlainText
    ensures OnOneLine(Terminator(kind)) && Terminator(kind) != []
    ensures LeafFlags(kind) == NEWLINES_ONLY
  {
  }

  /** A leaf ends at the first terminator, so that its value holds none. */
  lemma NoTerminator(s: bytes, kind: LeafKind, q: nat, e: nat, v: bytes)
    requires kind != PlainText && q <= e <= |s| && FindEnd(s, q, Terminator(kind)) == Some(e)
    requires Decode(s[q..e], LeafFlags(kind)) == Some(v)
    ensures !Occurs(v, Terminator(kind))
  {
    hide At, Terminator, NewlineText, Decode, LeafFlags, OnOneLine;
    TerminatorFacts(kind);
    var t := Terminator(kind);
    IsNewlineText(s[q..e]);
    assert forall k :: q <= k < e ==> !At(s, k, t);
    if Occurs(v, t) {
      var k :| 0 <= k < |v| && At(v, k, t);
      var j := OccursRaw(s[q..e], k, t);
      SliceAt(s, q, e, j, t);
    }
  }

  lemma IsNewlineText(r: bytes)
    ensures Decode(r, NEWLINES_ONLY) == Some(NewlineText(r))
  {
    hide Decode, Script, Meaning;
    NewlinesOnly(r);
  }

  /** An unknown does not begin like a comment or a CDATA section: it would have been one. */
  lemma NotHeader(s: bytes, p: nat, e: nat, v: bytes, header: bytes)
    requires p + 2 <= e <= |s| && At(s, p, DTD_HEADER) && |header| > 2 && header[..2] == DTD_HEADER
    requires OnOneLine(header[2..]) && Decode(s[p + 2..e], NEWLINES_ONLY) == Some(v)
    requires !At(s, p, header)
    ensures !At(v, 0, header[2..])
  {
    hide At, NewlineText, Decode;
    IsNewlineText(s[p + 2..e]);
    assert DTD_HEADER + header[2..] == header;
    AtSplit(s, p, DTD_HEADER, header[2..]);
    if At(v, 0, header[2..]) {
      FrontIsRaw(s[p + 2..e], header[2..]);
      SliceAt(s, p + 2, e, 0, header[2..]);
    }
  }

  lemma HeaderFacts()
    ensures COMMENT_HEADER[..2] == DTD_HEADER && CDATA_HEADER[..2] == DTD_HEADER
    ensures OnOneLine(COMMENT_HEADER[2..]) && OnOneLine(CDATA_HEADER[2..])
  {
  }

  /** How `Identify` comes to an unknown. */
  lemma UnknownAt(s: bytes, i: nat, q: nat)
    requires i <= |s| && Identify(s, i) == Leaf(Unknown, q)
    ensures q >= 2 && At(s, q - 2, DTD_HEADER) && !At(s, q - 2, COMMENT_HEADER) && !At(s, q - 2, CDATA_HEADER)
  {
    hide At, SkipSpace;
  }

  lemma TagIsNoLeaf(s: bytes, q: nat)
    requires q <= |s|
    ensures LexTag(s, q).Lex? ==> !LexTag(s, q).token.LeafToken?
  {
    hide SkipSpace, ParseName, ParseAttrs;
  }

  lemma LeafAt(s: bytes, i: nat, kind: LeafKind, value: Span, next: nat)
    requires i <= |s| && LexOne(s, i) == Lex(LeafToken(kind, value), next)
    ensures value.start <= value.end <= |s| && Identify(s, i) == Leaf(kind, value.start)
    ensures FindEnd(s, value.start, Terminator(kind)) == Some(value.end)
    ensures kind == PlainText ==> next == value.end && next + 1 < |s| && s[next] == LT
  {
    hide At, SkipSpace, LexTag;
    if Identify(s, i).Tag? {
      TagIsNoLeaf(s, Identify(s, i).next);
    }
    assert Identify(s, i).Leaf?;
    var q := Identify(s, i).next;
    var k := Identify(s, i).kind;
    assert LexOne(s, i) == LexLeaf(s, k, q);
    if FindEnd(s, q, Terminator(k)).Some? {
      AtBound(s, FindEnd(s, q, Terminator(k)).value, Terminator(k));
    }
    if kind == PlainText {
      AtOne(s, next, LT);
    }
  }

  lemma AtBound(s: bytes, i: nat, t: bytes)
    requires At(s, i, t)
    ensures i + |t| <= |s|
  {
  }

  lemma LeafPrintable(s: bytes, i: nat, kind: LeafKind, value: Span, next: nat, v: bytes)
    requires i <= |s| && LexOne(s, i) == Lex(LeafToken(kind, value), next)
    requires Decode(Slice(s, value), LeafFlags(kind)) == Some(v)
    requires CleanString(v) && (kind == PlainText ==> !AllSpace(v))
    ensures PrintableLeaf(kind, v)
  {
    hide LexOne, Decode, Identify, FindEnd, At, Occurs, CleanString, AllSpace, OnOneLine;
    LeafAt(s, i, kind, value, next);
    if kind != PlainText {
      TerminatorFacts(kind);
      NoTerminator(s, kind, value.start, value.end, v);
      if kind == Unknown {
        UnknownAt(s, i, value.start);
        HeaderFacts();
        NotHeader(s, value.start - 2, value.end, v, COMMENT_HEADER);
        NotHeader(s, value.start - 2, value.end, v, CDATA_HEADER);
      }
    }
  }

  // ------------------------------------------------------------ elements

  ghost predicate NamesValid(s: bytes, attrs: seq<RawAttr>) {
    forall k :: 0 <= k < |attrs| ==> ValidName(Slice(s, attrs[k].name))
  }

  lemma NameIsValid(s: bytes, n: nat, e: nat)
    requires n <= |s| && ParseName(s, n) == Some(e)
    ensures ValidName(Slice(s, Span(n, e)))
  {
    assert forall k :: 0 <= k < e - n ==> s[n..e][k] == s[n + k];
  }

  lemma AttrNameIsValid(s: bytes, p: nat, a: RawAttr, next: nat)
    requires p <= |s| && ParseAttr(s, p) == AttrOk(a, next)
    ensures ValidName(Slice(s, a.name))
  {
    hide SkipSpace, ParseName, FindEnd, ValidName, Slice;
    NameIsValid(s, p, a.name.end);
  }

  lemma {:induction false} AttrsValid(s: bytes, i: nat, seen: seq<RawAttr>)
    requires i <= |s| && NamesValid(s, seen)
    ensures var r := ParseAttrs(s, i, seen); r.AttrsOk? ==> NamesValid(s, r.attrs)
    decreases |s| - i
  {
    hide SkipSpace, ParseAttr, Slice, RepeatError, HasAttr, ValidName;
    var p := SkipSpace(s, i);
    if p < |s| && IsAlpha(s[p]) {
      match ParseAttr(s, p)
      case AttrOk(a, next) =>
        AttrNameIsValid(s, p, a, next);
        if !HasAttr(s, seen, a.name) {
          AttrsValid(s, next, seen + [a]);
        }
      case AttrFail =>
    }
  }

  ghost predicate TagValid(s: bytes, name: Span, attrs: seq<RawAttr>) {
    ValidName(Slice(s, name)) && NamesValid(s, attrs) && NamesApart(s, attrs)
  }

  /** The parts of a tag. */
  lemma TagParts(s: bytes, q: nat, name: Span, attrs: seq<RawAttr>, next: nat)
    requires q <= |s|
    requires LexTag(s, q) == Lex(OpenTag(name, attrs), next) || LexTag(s, q) == Lex(SealedTag(name, attrs), next)
    ensures name.start <= |s| && ParseName(s, name.start) == Some(name.end)
    ensures ParseAttrs(s, name.end, []).AttrsOk? && ParseAttrs(s, name.end, []).attrs == attrs
  {
    hide SkipSpace, ParseName, ParseAttrs;
  }

  lemma PartsValid(s: bytes, q: nat, name: Span, attrs: seq<RawAttr>, next: nat)
    requires q <= |s|
    requires LexTag(s, q) == Lex(OpenTag(name, attrs), next) || LexTag(s, q) == Lex(SealedTag(name, attrs), next)
    ensures TagValid(s, name, attrs)
  {
    assert NamesValid(s, []) && NamesApart(s, []);
    hide LexTag, ParseName, ParseAttrs, NamesApart, NamesValid, ValidName, Slice;
    TagParts(s, q, name, attrs, next);
    NameIsValid(s, name.start, name.end);
    AttrsValid(s, name.end, []);
    AttrsApart(s, name.end, []);
  }

  lemma LexTagValid(s: bytes, q: nat)
    requires q <= |s|
    ensures match LexTag(s, q)
            case Lex(OpenTag(name, attrs), _) => TagValid(s, name, attrs)
            case Lex(SealedTag(name, attrs), _) => TagValid(s, name, attrs)
            case _ => true
  {
    hide LexTag, TagValid;
    match LexTag(s, q)
    case Lex(OpenTag(name, attrs), next) => PartsValid(s, q, name, attrs, next);
    case Lex(SealedTag(name, attrs), next) => PartsValid(s, q, name, attrs, next);
    case _ =>
  }

  lemma LexValid(s: bytes, i: nat)
    requires i <= |s|
    ensures match LexOne(s, i)
            case Lex(OpenTag(name, attrs), _) => TagValid(s, name, attrs)
            case Lex(SealedTag(name, attrs), _) => TagValid(s, name, attrs)
            case _ => true
  {
    hide LexTag, TagValid, FindEnd, At, SkipSpace;
    if Identify(s, i).Tag? {
      LexTagValid(s, Identify(s, i).next);
    }
  }

  lemma TagPrintable(s: bytes, name: Span, raws: seq<RawAttr>, attrs: seq<Attr>)
    requires TagValid(s, name, raws) && AttrsOf(s, raws) == Some(attrs)
    requires forall k :: 0 <= k < |attrs| ==> CleanString(attrs[k].value)
    ensures ValidName(Slice(s, name)) && PrintableAttrs(attrs)
  {
    AttrsOfAt(s, raws, attrs);
    hide Decode, Slice, AttrsOf, ValidName, CleanString;
  }

  // ------------------------------------------------------------ the tree

  /** Behind a text comes a `<`, and not another text. */
  lemma NoTextAtTag(s: bytes, i: nat)
    requires i < |s| && s[i] == LT
    ensures Identify(s, i).Nothing? || (Identify(s, i).Leaf? ==> Identify(s, i).kind != PlainText)
  {
    hide At;
    SkipSpaceUnique(s, i, i);
    AtOne(s, i, LT);
  }

  predicate IsText(one: One) {
    one.OneNode? && one.node.RawLeaf? && one.node.kind == PlainText
  }

  lemma TextThenTag(s: bytes, i: nat)
    requires i <= |s| && IsText(ParseOne(s, i))
    ensures !IsText(ParseOne(s, ParseOne(s, i).next))
  {
    hide LexOne, Identify, FindEnd;
    var next := ParseOne(s, i).next;
    LeafAt(s, i, PlainText, ParseOne(s, i).node.value, next);
    NoTextAtTag(s, next);
    if IsText(ParseOne(s, next)) {
      LeafAt(s, next, PlainText, ParseOne(s, next).node.value, ParseOne(s, next).next);
    }
  }

  lemma {:induction false} OnePrintable(s: bytes, i: nat, x: Node)
    requires i <= |s| && ParseOne(s, i).OneNode? && NodeOf(s, ParseOne(s, i).node) == Some(x) && Clean(x)
    ensures Printable(x) && (IsPlain(x) <==> IsText(ParseOne(s, i)))
    decreases |s| - i, 0
  {
    hide LexOne, Decode, PrintableLeaf, PrintableAttrs, TagValid, ValidName;
    LexValid(s, i);
    match LexOne(s, i)
    case Lex(LeafToken(kind, value), next) =>
      LeafPrintable(s, i, kind, value, next, x.value);
    case Lex(SealedTag(name, attrs), _) =>
      TagPrintable(s, name, attrs, x.attrs);
    case Lex(OpenTag(name, attrs), next) =>
      TagPrintable(s, name, attrs, x.attrs);
      LevelPrintable(s, next, x.children);
    case _ =>
  }

  lemma {:induction false} LevelPrintable(s: bytes, i: nat, xs: seq<Node>)
    requires i <= |s| && NodesOf(s, ParseLevel(s, i).nodes) == Some(xs)
    requires forall k :: 0 <= k < |xs| ==> Clean(xs[k])
    ensures PrintableNodes(xs)
    ensures xs != [] ==> ParseOne(s, i).OneNode? && (IsPlain(xs[0]) <==> IsText(ParseOne(s, i)))
    decreases |s| - i, 1
  {
    hide NodeOf, Printable, ParseOne, Clean;
    match ParseOne(s, i)
    case OneNode(node, next) =>
      var rest := ParseLevel(s, next).nodes;
      assert ([node] + rest)[1..] == rest;
      var x, ys := xs[0], xs[1..];
      assert xs == [x] + ys;
      OnePrintable(s, i, x);
      LevelPrintable(s, next, ys);
      if IsText(ParseOne(s, i)) {
        TextThenTag(s, i);
      }
    case _ =>
  }

  lemma {:induction false} PrintableIsClean(x: Node)
    requires Printable(x)
    ensures Clean(x)
  {
    match x
    case LeafNode(_, _) =>
    case Element(_, _, children) =>
      forall k | 0 <= k < |children| ensures Clean(children[k]) {
        PrintableIsClean(children[k]);
      }
  }

  /** What makes a parsed document printable, and nothing else: nodes, clean strings and no text outside. */
  ghost predicate CanReprint(xs: seq<Node>) {
    xs != [] && forall k :: 0 <= k < |xs| ==> Clean(xs[k]) && !IsPlain(xs[k])
  }

  lemma ParsedIsPrintableIff(s: bytes, xs: seq<Node>)
    requires NodesOf(Parse(s).text, Parse(s).nodes) == Some(xs)
    ensures PrintableDocument(Document(Parse(s).bom, xs)) <==> CanReprint(xs)
  {
    hide ParseLevel, Clean, Printable, At, SkipSpace, NodesOf;
    if CanReprint(xs) {
      assert NodesOf(Parse(s).text, []) == Some([]) by {
        NoNodesOf(Parse(s).text);
      }
      LevelPrintable(Parse(s).text, 0, xs);
    }
    if PrintableDocument(Document(Parse(s).bom, xs)) {
      forall k | 0 <= k < |xs| ensures Clean(xs[k]) {
        PrintableIsClean(xs[k]);
      }
    }
  }

  lemma NoNodesOf(s: bytes)
    ensures NodesOf(s, []) == Some([])
  {
  }

  /** Whatever text a document was read from: printed, pretty or compact, and read again it is the same. */
  lemma ParseThenPrint(s: bytes, xs: seq<Node>, compact: bool)
    requires NodesOf(Parse(s).text, Parse(s).nodes) == Some(xs) && CanReprint(xs)
    ensures var p := Parse(PrintDocument(Document(Parse(s).bom, xs), compact));
            p.error == NoError && p.bom == Parse(s).bom && NodesOf(p.text, p.nodes) == Some(xs)
  {
    hide Parse, PrintDocument, NodesOf, CanReprint, PrintableDocument;
    ParsedIsPrintableIff(s, xs);
    PrintThenParse(Document(Parse(s).bom, xs), compact);
  }
}
