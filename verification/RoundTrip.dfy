/**
 Printing a document, pretty or compact, and parsing the result gives the document back.
 */
module RoundTrip {
  import opened Bytes
  import opened Decoding
  import opened Escaping
  import opened Parsing
  import opened Documents

  // ------------------------------------------------- attributes

  lemma AttrPieces(s: bytes, i: nat, name: bytes, x: bytes, rest: bytes)
    requires At(s, i, [SPACE] + name + [EQ, QUOTE] + x + [QUOTE] + rest)
    ensures var e := i + 1 + |name|;
            var v := e + 2 + |x|;
            && v < |s| && s[i] == SPACE && At(s, i + 1, name) && s[e] == EQ && s[e + 1] == QUOTE
            && At(s, e + 2, x + [QUOTE]) && At(s, v + 1, rest)
  {
    var e := i + 1 + |name|;
    var r2 := (x + [QUOTE]) + rest;
    assert [SPACE] + name + [EQ, QUOTE] + x + [QUOTE] + rest == [SPACE] + (name + ([EQ] + ([QUOTE] + r2)));
    AtSplit(s, i, [SPACE], name + ([EQ] + ([QUOTE] + r2)));
    AtSplit(s, i + 1, name, [EQ] + ([QUOTE] + r2));
    AtSplit(s, e, [EQ], [QUOTE] + r2);
    AtSplit(s, e + 1, [QUOTE], r2);
    AtSplit(s, e + 2, x + [QUOTE], rest);
    AtOne(s, i, SPACE);
    AtOne(s, e, EQ);
    AtOne(s, e + 1, QUOTE);
  }

  lemma AttrParses(s: bytes, i: nat, a: Attr, rest: bytes) returns (raw: RawAttr)
    requires ValidName(a.name) && CleanString(a.value) && At(s, i, AttrOut(a) + rest)
    ensures var next := i + |AttrOut(a)|;
            && i + 1 < |s| && SkipSpace(s, i) == i + 1 && IsAlpha(s[i + 1])
            && ParseAttr(s, i + 1) == AttrOk(raw, next) && At(s, next, rest)
    ensures Slice(s, raw.name) == a.name && Decode(Slice(s, raw.value), TEXT_FLAGS) == Some(a.value)
  {
    var x := Escape(a.value, false);
    var e := i + 1 + |a.name|;
    hide Decode, Escape, ParseName, FindEnd, SkipSpace;
    AttrPieces(s, i, a.name, x, rest);
    assert s[i + 1 + 0] == a.name[0];
    EscapeParse(s, e + 2, a.value, false, QUOTE);
    AtSlice(s, i + 1, a.name);
    hide At;
    SkipSpaceUnique(s, i, i + 1);
    ParseNameAt(s, i + 1, a.name);
    SkipSpaceUnique(s, e, e);
    SkipSpaceUnique(s, e + 1, e + 1);
    raw := RawAttr(Span(i + 1, e), Span(e + 2, e + 2 + |x|));
  }

  ghost predicate NamesDiffer(s: bytes, seen: seq<RawAttr>, attrs: seq<Attr>) {
    forall j, k :: 0 <= j < |seen| && 0 <= k < |attrs| ==> Slice(s, seen[j].name) != attrs[k].name
  }

  /** A run of printed attributes up to the end of the tag. */
  lemma {:induction false} AttrsParse(s: bytes, i: nat, seen: seq<RawAttr>, attrs: seq<Attr>, sealed: bool)
    returns (raws: seq<RawAttr>)
    requires PrintableAttrs(attrs) && NamesDiffer(s, seen, attrs)
    requires At(s, i, AttrsOut(attrs) + TagEnd(sealed))
    ensures i <= |s|
    ensures ParseAttrs(s, i, seen) == AttrsOk(seen + raws, sealed, i + |AttrsOut(attrs) + TagEnd(sealed)|)
    ensures AttrsOf(s, raws) == Some(attrs)
    decreases |attrs|
  {
    hide *;
    var end := TagEnd(sealed);
    if attrs == [] {
      raws := [];
      NoAttrs(s);
      ConcatEmpty(end);
      ConcatEmpty(seen);
      AttrsEnd(s, i, seen, sealed);
    } else {
      var a, more := attrs[0], attrs[1..];
      FirstAttr(attrs);
      ConcatAssoc(AttrOut(a), AttrsOut(more), end);
      var raw := AttrParses(s, i, a, AttrsOut(more) + end);
      var next := i + |AttrOut(a)|;
      NamesStillDiffer(s, seen, raw, attrs);
      AttrsStep(s, i, seen, raw, next);
      var tail := AttrsParse(s, next, seen + [raw], more, sealed);
      raws := [raw] + tail;
      ConcatAssoc(seen, [raw], tail);
      AttrsOfCons(s, raw, tail, a, more);
    }
  }

  lemma NoAttrs(s: bytes)
    ensures AttrsOut([]) == [] && AttrsOf(s, []) == Some([])
  {
  }

  function TagEnd(sealed: bool): bytes {
    if sealed then [SLASH, GT] else [GT]
  }

  lemma AttrsEnd(s: bytes, i: nat, seen: seq<RawAttr>, sealed: bool)
    requires At(s, i, TagEnd(sealed))
    ensures i <= |s| && ParseAttrs(s, i, seen) == AttrsOk(seen, sealed, i + |TagEnd(sealed)|)
  {
    assert s[i + 0] == TagEnd(sealed)[0] && (sealed ==> s[i + 1] == TagEnd(sealed)[1]);
    SkipSpaceUnique(s, i, i);
  }

  lemma AttrsStep(s: bytes, i: nat, seen: seq<RawAttr>, raw: RawAttr, next: nat)
    requires i + 1 < |s| && SkipSpace(s, i) == i + 1 && IsAlpha(s[i + 1])
    requires ParseAttr(s, i + 1) == AttrOk(raw, next) && !HasAttr(s, seen, raw.name)
    ensures ParseAttrs(s, i, seen) == ParseAttrs(s, next, seen + [raw])
  {
  }

  lemma FirstAttr(attrs: seq<Attr>)
    requires attrs != [] && PrintableAttrs(attrs)
    ensures ValidName(attrs[0].name) && CleanString(attrs[0].value) && attrs == [attrs[0]] + attrs[1..]
    ensures AttrsOut(attrs) == AttrOut(attrs[0]) + AttrsOut(attrs[1..])
  {
  }

  lemma NamesStillDiffer(s: bytes, seen: seq<RawAttr>, raw: RawAttr, attrs: seq<Attr>)
    requires attrs != [] && PrintableAttrs(attrs) && NamesDiffer(s, seen, attrs)
    requires Slice(s, raw.name) == attrs[0].name
    ensures PrintableAttrs(attrs[1..]) && NamesDiffer(s, seen + [raw], attrs[1..])
    ensures !HasAttr(s, seen, raw.name)
  {
    forall j, k | 0 <= j < |seen + [raw]| && 0 <= k < |attrs[1..]|
      ensures Slice(s, (seen + [raw])[j].name) != attrs[1..][k].name
    {
      assert attrs[1..][k] == attrs[k + 1];
      if j < |seen| {
        assert (seen + [raw])[j] == seen[j];
      }
    }
  }

  lemma AttrsOfCons(s: bytes, raw: RawAttr, tail: seq<RawAttr>, a: Attr, more: seq<Attr>)
    requires Slice(s, raw.name) == a.name && Decode(Slice(s, raw.value), TEXT_FLAGS) == Some(a.value)
    requires AttrsOf(s, tail) == Some(more)
    ensures AttrsOf(s, [raw] + tail) == Some([a] + more)
  {
    assert ([raw] + tail)[1..] == tail;
  }

  // ------------------------------------------------- leaves

  /** White space in front of a `<` is skipped. */
  lemma SkipsTo(s: bytes, i: nat, w: bytes, rest: bytes)
    requires AllSpace(w) && rest != [] && rest[0] == LT && At(s, i, w + rest)
    ensures i + |w| < |s| && SkipSpace(s, i) == i + |w| && At(s, i + |w|, rest)
  {
    AtSplit(s, i, w, rest);
    assert s[i + |w| + 0] == rest[0];
    forall k | i <= k < i + |w| ensures IsSpace(s[k]) {
      assert s[i + (k - i)] == w[k - i];
    }
    SkipSpaceUnique(s, i, i + |w|);
  }

  /** The header decides the kind; an unknown must not look like a comment or CDATA. */
  lemma HeaderDecides(s: bytes, p: nat, kind: LeafKind, v: bytes)
    requires kind != PlainText && PrintableLeaf(kind, v)
    requires At(s, p, Header(kind) + (v + Terminator(kind)))
    ensures At(s, p, Header(kind)) && At(s, p + |Header(kind)|, v + Terminator(kind))
    ensures kind != Declaration ==> !At(s, p, XML_HEADER)
    ensures kind != Declaration && kind != Comment ==> !At(s, p, COMMENT_HEADER)
    ensures kind == Unknown ==> !At(s, p, CDATA_HEADER)
  {
    var h, x := Header(kind), v + Terminator(kind);
    AtSplit(s, p, h, x);
    assert s[p + 1] == h[1];
    if kind != Declaration {
      NotAt(s, p, XML_HEADER, 1);
    }
    if kind == CData {
      assert s[p + 2] == h[2];
      NotAt(s, p, COMMENT_HEADER, 2);
    }
    if kind == Unknown {
      UnknownIsNot(s, p, v, COMMENT_HEADER);
      UnknownIsNot(s, p, v, CDATA_HEADER);
    }
  }

  lemma UnknownIsNot(s: bytes, p: nat, v: bytes, h: bytes)
    requires |h| > 2 && GT !in h && !At(v, 0, h[2..]) && At(s, p + 2, v + [GT])
    ensures !At(s, p, h)
  {
    var x := v + [GT];
    if |v| < |h| - 2 {
      assert s[p + 2 + |v|] == x[|v|] == GT;
      NotAt(s, p, h, |v| + 2);
    } else {
      var k :| 0 <= k < |h| - 2 && v[0 + k] != h[2..][k];
      assert s[p + 2 + k] == x[k] == v[k];
      NotAt(s, p, h, k + 2);
    }
  }

  /** The first terminator behind `v` is the one that was printed: they end in their only `>`. */
  lemma TerminatorFound(s: bytes, j: nat, kind: LeafKind, v: bytes)
    requires kind != PlainText && !Occurs(v, Terminator(kind)) && At(s, j, v + Terminator(kind))
    ensures j + |v| < |s| && FindEnd(s, j, Terminator(kind)) == Some(j + |v|)
    ensures Slice(s, Span(j, j + |v|)) == v && j + |v| + |Terminator(kind)| <= |s|
  {
    var t := Terminator(kind);
    AtSplit(s, j, v, t);
    AtSlice(s, j, v);
    forall k | j <= k < j + |v| ensures !At(s, k, t) {
      var a := k - j;
      if a + |t| <= |v| {
        assert !At(v, a, t);
        var n :| 0 <= n < |t| && v[a + n] != t[n];
        assert s[j + (a + n)] == v[a + n];
        NotAt(s, k, t, n);
      } else {
        var n := a + |t| - 1 - |v|;
        assert s[j + |v| + n] == t[n];
        NotAt(s, k, t, |t| - 1);
      }
    }
    FindEndUnique(s, j, t, j + |v|);
  }

  /** A printed comment, declaration, unknown or CDATA section is read as one token. */
  lemma LeafLexed(s: bytes, i: nat, w: bytes, kind: LeafKind, v: bytes)
    requires kind != PlainText && PrintableLeaf(kind, v) && AllSpace(w)
    requires At(s, i, w + (Header(kind) + (v + Terminator(kind))))
    ensures var j := i + |w| + |Header(kind)|;
            && j + |v| + |Terminator(kind)| <= |s|
            && LexOne(s, i) == Lex(LeafToken(kind, Span(j, j + |v|)), j + |v| + |Terminator(kind)|)
            && NodeOf(s, RawLeaf(kind, Span(j, j + |v|))) == Some(LeafNode(kind, v))
  {
    hide SkipSpace, FindEnd, Decode, At, Identify, Occurs, AllSpace, NoNul, NoCR;
    var rest := Header(kind) + (v + Terminator(kind));
    SkipsTo(s, i, w, rest);
    HeaderDecides(s, i + |w|, kind, v);
    assert Identify(s, i) == Leaf(kind, i + |w| + |Header(kind)|) by {
      HeaderIdentifies(s, i, i + |w|, kind);
    }
    TerminatorFound(s, i + |w| + |Header(kind)|, kind, v);
    NewlineDecode(v);
  }

  lemma HeaderIdentifies(s: bytes, i: nat, p: nat, kind: LeafKind)
    requires i <= |s| && SkipSpace(s, i) == p < |s| && kind != PlainText && At(s, p, Header(kind))
    requires kind != Declaration ==> !At(s, p, XML_HEADER)
    requires kind != Declaration && kind != Comment ==> !At(s, p, COMMENT_HEADER)
    requires kind == Unknown ==> !At(s, p, CDATA_HEADER)
    ensures Identify(s, i) == Leaf(kind, p + |Header(kind)|)
  {
    hide At;
  }

  /** A text that is not blank shows ink in front of the `<` that ends it. */
  lemma {:induction false} InkInText(v: bytes) returns (k: nat)
    requires !AllSpace(v)
    ensures k < |Escape(v, true)| && !IsSpace(Escape(v, true)[k])
    ensures forall j :: 0 <= j < k ==> IsSpace(Escape(v, true)[j])
    decreases |v|
  {
    if IsSpace(v[0]) {
      var n := InkInText(v[1..]);
      k := n + 1;
      assert Escape(v, true) == [v[0]] + Escape(v[1..], true);
    } else {
      k := 0;
    }
  }

  /** Printed plain text in front of a `<` is read as one token that stops at the `<`. */
  lemma TextLexed(s: bytes, i: nat, v: bytes)
    requires PrintableLeaf(PlainText, v) && At(s, i, Escape(v, true) + [LT])
    requires i + |Escape(v, true)| + 1 < |s|
    ensures var e := i + |Escape(v, true)|;
            && i <= |s| && s[e] == LT
            && LexOne(s, i) == Lex(LeafToken(PlainText, Span(i, e)), e)
            && NodeOf(s, RawLeaf(PlainText, Span(i, e))) == Some(LeafNode(PlainText, v))
  {
    hide Decode, FindEnd, Escape, SkipSpace, At, Identify, AllSpace;
    var x := Escape(v, true);
    EscapeParse(s, i, v, true, LT);
    AtSplit(s, i, x, [LT]);
    AtOne(s, i + |x|, LT);
    var k := InkInText(v);
    AtBytes(s, i, x);
    SkipSpaceUnique(s, i, i + k);
    EscapeIsSafe(v, true);
    TextIdentifies(s, i, i + k);
  }

  lemma TextIdentifies(s: bytes, i: nat, p: nat)
    requires i <= |s| && SkipSpace(s, i) == p < |s| && s[p] != LT
    ensures Identify(s, i) == Leaf(PlainText, i)
  {
    hide SkipSpace;
    NotAt(s, p, XML_HEADER, 0);
    NotAt(s, p, COMMENT_HEADER, 0);
    NotAt(s, p, CDATA_HEADER, 0);
    NotAt(s, p, DTD_HEADER, 0);
    NotAt(s, p, ELEMENT_HEADER, 0);
  }

  // ------------------------------------------------- tags

  /** The opening tag of a printed element, up to its `>` or slash and `>`. */
  lemma OpenTagLexed(s: bytes, i: nat, w: bytes, name: bytes, attrs: seq<Attr>, sealed: bool)
    returns (raws: seq<RawAttr>)
    requires AllSpace(w) && ValidName(name) && PrintableAttrs(attrs)
    requires At(s, i, w + ([LT] + (name + (AttrsOut(attrs) + TagEnd(sealed)))))
    ensures var n := i + |w| + 1;
            var next := n + |name| + |AttrsOut(attrs) + TagEnd(sealed)|;
            && next <= |s|
            && LexOne(s, i) == Lex(if sealed then SealedTag(Span(n, n + |name|), raws)
                                   else OpenTag(Span(n, n + |name|), raws), next)
            && Slice(s, Span(n, n + |name|)) == name && AttrsOf(s, raws) == Some(attrs)
  {
    hide SkipSpace, ParseName, ParseAttrs, Decode, At, Identify, PrintableAttrs, AttrsOut, AttrsOf, ValidName;
    var tail := AttrsOut(attrs) + TagEnd(sealed);
    var n := i + |w| + 1;
    SkipsTo(s, i, w, [LT] + (name + tail));
    AtSplit(s, n - 1, [LT], name + tail);
    AtOne(s, n - 1, LT);
    AtSplit(s, n, name, tail);
    AtSlice(s, n, name);
    FirstOfName(name);
    AtFirst(s, n, name);
    TagIdentifies(s, i, n - 1);
    SkipSpaceUnique(s, n, n);
    TailFirst(attrs, sealed);
    AtFirst(s, n + |name|, tail);
    ParseNameAt(s, n, name);
    raws := AttrsParse(s, n + |name|, [], attrs, sealed);
    ConcatEmpty(raws);
  }

  lemma FirstOfName(name: bytes)
    requires ValidName(name)
    ensures name != [] && IsAlpha(name[0])
  {
  }

  lemma TailFirst(attrs: seq<Attr>, sealed: bool)
    ensures var tail := AttrsOut(attrs) + TagEnd(sealed); tail != [] && !IsNameByte(tail[0])
  {
  }

  lemma TagIdentifies(s: bytes, i: nat, p: nat)
    requires i <= |s| && SkipSpace(s, i) == p && p + 1 < |s| && s[p] == LT && (IsAlpha(s[p + 1]) || s[p + 1] == SLASH)
    ensures Identify(s, i) == Tag(p + 1)
  {
    hide SkipSpace;
    NotAt(s, p, XML_HEADER, 1);
    NotAt(s, p, COMMENT_HEADER, 1);
    NotAt(s, p, CDATA_HEADER, 1);
    NotAt(s, p, DTD_HEADER, 1);
    AtOne(s, p, LT);
  }

  /** The closing tag of a printed element. */
  lemma CloseTagLexed(s: bytes, i: nat, w: bytes, name: bytes)
    requires AllSpace(w) && ValidName(name) && At(s, i, w + ([LT] + ([SLASH] + (name + [GT]))))
    ensures var n := i + |w| + 2;
            && n + |name| + 1 <= |s|
            && LexOne(s, i) == Lex(CloseTag(Span(n, n + |name|)), n + |name| + 1)
            && Slice(s, Span(n, n + |name|)) == name
  {
    hide SkipSpace, ParseName, ParseAttrs, At, Identify;
    var n := i + |w| + 2;
    SkipsTo(s, i, w, [LT] + ([SLASH] + (name + [GT])));
    AtSplit(s, n - 2, [LT], [SLASH] + (name + [GT]));
    AtSplit(s, n - 1, [SLASH], name + [GT]);
    AtSplit(s, n, name, [GT]);
    AtOne(s, n - 2, LT);
    AtOne(s, n - 1, SLASH);
    AtOne(s, n + |name|, GT);
    AtSlice(s, n, name);
    TagIdentifies(s, i, n - 2);
    SkipSpaceUnique(s, n - 1, n - 1);
    ParseNameAt(s, n, name);
    AttrsEnd(s, n + |name|, [], false);
  }

  // ------------------------------------------------- the printer's state

  /** A node leaves the depth as it was; after plain text `textDepth` marks this level. */
  lemma {:induction false} AfterNode(x: Node, st: PState, compact: bool)
    ensures var r := PrintNode(x, st, compact).st;
            && r.depth == st.depth && !r.justOpened && (IsPlain(x) ==> r.textDepth == st.depth - 1)
    decreases x
  {
    if x.Element? {
      AfterNodes(x.children, OpenOut(x.name, st, compact).st, compact);
    }
  }

  lemma {:induction false} AfterNodes(xs: seq<Node>, st: PState, compact: bool)
    ensures var r := PrintNodes(xs, st, compact).st;
            && r.depth == st.depth && (xs != [] || !st.justOpened ==> !r.justOpened)
            && (xs != [] && IsPlain(xs[|xs| - 1]) ==> r.textDepth == st.depth - 1)
    decreases xs
  {
    if xs != [] {
      AfterNode(xs[0], st, compact);
      AfterNodes(xs[1..], PrintNode(xs[0], st, compact).st, compact);
    }
  }

  function Sealed(st: PState): PState { st.(justOpened := false) }

  /** The first child writes the `>` that its parent's tag still lacks. */
  lemma SealFirst(x: Node, st: PState, compact: bool)
    ensures PrintNode(x, st, compact).out == Seal(st) + PrintNode(x, Sealed(st), compact).out
    ensures PrintNode(x, st, compact).st == PrintNode(x, Sealed(st), compact).st
  {
    hide PrintNodes, AttrsOut, Escape;
    match x
    case LeafNode(kind, v) =>
      if kind == PlainText || kind == CData {
        ConcatEmpty(if kind == CData then Header(kind) + v + Terminator(kind) else Escape(v, true));
      } else {
        SealGroup(Seal(st), Indent(st, compact), Header(kind) + v + Terminator(kind), [], [], []);
      }
    case Element(name, attrs, children) =>
      var open := OpenOut(name, st, compact);
      var body := PrintNodes(children, open.st, compact);
      SealGroup(Seal(st), Indent(st, compact), [LT] + name, AttrsOut(attrs), body.out,
                CloseOut(name, body.st, compact).out);
      ConcatAssoc(Seal(st) + Indent(st, compact), [LT], name);
      ConcatAssoc([] + Indent(st, compact), [LT], name);
  }

  lemma SealGroup(seal: bytes, indent: bytes, a: bytes, b: bytes, c: bytes, d: bytes)
    ensures seal + indent + a + b + c + d == seal + ([] + indent + a + b + c + d)
    ensures seal + indent + a == seal + ([] + indent + a)
  {
  }

  lemma SealNodes(xs: seq<Node>, st: PState, compact: bool)
    requires xs != []
    ensures PrintNodes(xs, st, compact).out == Seal(st) + PrintNodes(xs, Sealed(st), compact).out
    ensures PrintNodes(xs, st, compact).st == PrintNodes(xs, Sealed(st), compact).st
  {
    hide PrintNode;
    SealFirst(xs[0], st, compact);
    ConcatAssoc(Seal(st), PrintNode(xs[0], Sealed(st), compact).out,
                PrintNodes(xs[1..], PrintNode(xs[0], st, compact).st, compact).out);
  }

  /** Where no line break is due, anything but plain text begins with `<` at once. */
  lemma StartsWithTag(x: Node, st: PState, compact: bool)
    requires !IsPlain(x) && !st.justOpened && Indent(st, compact) == [] && Printable(x)
    ensures var out := PrintNode(x, st, compact).out; |out| >= 2 && out[0] == LT
  {
    hide AttrsOut, PrintNodes, PrintableAttrs, PrintableNodes, PrintableLeaf;
    match x
    case LeafNode(kind, v) =>
    case Element(name, attrs, children) =>
      assert ([] + [] + [LT] + name)[0] == LT;
  }

  // ------------------------------------------------- nodes

  function TagText(name: bytes, attrs: bytes, sealed: bool): bytes {
    [LT] + (name + (attrs + TagEnd(sealed)))
  }

  function EndTagText(name: bytes): bytes {
    [LT] + ([SLASH] + (name + [GT]))
  }

  lemma GroupSealed(w: bytes, ind: bytes, name: bytes, a: bytes, nl: bytes)
    ensures w + ([] + ind + [LT] + name + a + [] + ([SLASH, GT] + nl))
         == ((w + ind) + TagText(name, a, true)) + nl
  {
  }

  lemma GroupOpen(w: bytes, ind: bytes, name: bytes, a: bytes, inner: bytes, ci: bytes, nl: bytes)
    ensures w + ([] + ind + [LT] + name + a + ([GT] + inner) + (ci + [LT, SLASH] + name + [GT] + nl))
         == ((w + ind) + TagText(name, a, false)) + (inner + ((ci + EndTagText(name)) + nl))
  {
    assert [LT, SLASH] == [LT] + [SLASH];
  }

  /** The line break in front of a closing tag. */
  function CloseIndent(st: PState, compact: bool): bytes {
    if st.textDepth < 0 && !compact then NewLine(st.depth - 1) else []
  }

  /** What an element prints, in the order in which the parser meets it. */
  lemma ElementOut(x: Node, st: PState, compact: bool, w: bytes)
    requires x.Element? && !st.justOpened
    ensures var st1 := PState(false, false, st.depth + 1, st.textDepth);
            var inner := PrintNodes(x.children, st1, compact);
            var a := AttrsOut(x.attrs);
            var ws, nl := w + Indent(st, compact), EndLine(st.depth, compact);
            w + PrintNode(x, st, compact).out
            == if x.children == [] then (ws + TagText(x.name, a, true)) + nl
               else (ws + TagText(x.name, a, false))
                    + (inner.out + ((CloseIndent(inner.st, compact) + EndTagText(x.name)) + nl))
  {
    hide AttrsOut, TagText, EndTagText, Indent, NewLine;
    var open := OpenOut(x.name, st, compact);
    var body := PrintNodes(x.children, open.st, compact);
    AfterNodes(x.children, open.st, compact);
    if x.children == [] {
      GroupSealed(w, Indent(st, compact), x.name, AttrsOut(x.attrs), EndLine(st.depth, compact));
    } else {
      SealNodes(x.children, open.st, compact);
      var inner := PrintNodes(x.children, Sealed(open.st), compact);
      GroupOpen(w, Indent(st, compact), x.name, AttrsOut(x.attrs), inner.out,
                CloseIndent(inner.st, compact), EndLine(st.depth, compact));
    }
  }

  /** The conditions under which a printed node can be read at `i`, behind white space `w`. */
  ghost predicate Ready(x: Node, st: PState, compact: bool, s: bytes, i: nat, w: bytes) {
    var end := i + |w + PrintNode(x, st, compact).out|;
    && Printable(x) && !st.justOpened && st.depth >= 0 && AllSpace(w)
    && At(s, i, w + PrintNode(x, st, compact).out)
    && (IsPlain(x) ==> w == [] && st.depth > 0 && end + 1 < |s| && s[end] == LT)
  }

  /** A printed leaf is the next node. */
  lemma LeafParses(x: Node, st: PState, compact: bool, s: bytes, i: nat, w: bytes) returns (raw: RawNode)
    requires x.LeafNode? && Ready(x, st, compact, s, i, w)
    ensures i <= |s| && ParseOne(s, i) == OneNode(raw, i + |w + PrintNode(x, st, compact).out|)
    ensures NodeOf(s, raw) == Some(x)
  {
    hide LexOne, NodeOf, At, PrintableLeaf, Indent, Escape, AllSpace;
    var v, ind := x.value, Indent(st, compact);
    if x.kind == PlainText {
      var e := i + |Escape(v, true)|;
      ConcatEmpty(Escape(v, true));
      AtSplit(s, i, Escape(v, true), [LT]);
      AtOne(s, e, LT);
      TextLexed(s, i, v);
      raw := RawLeaf(PlainText, Span(i, e));
    } else {
      var ws := if x.kind == CData then w else w + ind;
      var text := Header(x.kind) + (v + Terminator(x.kind));
      SpacesConcat(w, ind, st, compact);
      assert w + PrintNode(x, st, compact).out == ws + text by {
        LeafGroup(w, ind, Header(x.kind), v, Terminator(x.kind));
      }
      LeafLexed(s, i, ws, x.kind, v);
      var j := i + |ws| + |Header(x.kind)|;
      raw := RawLeaf(x.kind, Span(j, j + |v|));
    }
  }

  lemma LeafGroup(w: bytes, ind: bytes, h: bytes, v: bytes, t: bytes)
    ensures w + ([] + (h + v + t)) == w + (h + (v + t))
    ensures w + ([] + ind + (h + v + t)) == (w + ind) + (h + (v + t))
  {
  }

  lemma SpacesConcat(w: bytes, ind: bytes, st: PState, compact: bool)
    requires AllSpace(w) && ind == Indent(st, compact)
    ensures AllSpace(w + ind)
  {
  }

  lemma ParseSealed(s: bytes, i: nat, name: Span, attrs: seq<RawAttr>, next: nat)
    requires i <= |s| && LexOne(s, i) == Lex(SealedTag(name, attrs), next)
    ensures ParseOne(s, i) == OneNode(RawElement(name, attrs, true, []), next)
  {
    hide LexOne;
  }

  lemma ParseOpen(s: bytes, i: nat, name: Span, attrs: seq<RawAttr>, next: nat, kids: seq<RawNode>,
                  endTag: Span, after: nat)
    requires i <= |s| && LexOne(s, i) == Lex(OpenTag(name, attrs), next) && next < |s|
    requires ParseLevel(s, next) == Level(kids, AtClose(endTag, after)) && Slice(s, endTag) == Slice(s, name)
    ensures ParseOne(s, i) == OneNode(RawElement(name, attrs, false, kids), after)
  {
    hide LexOne, ParseLevel, Slice;
  }

  lemma ParseClosed(s: bytes, j: nat, endTag: Span, after: nat)
    requires j <= |s| && LexOne(s, j) == Lex(CloseTag(endTag), after)
    ensures ParseLevel(s, j) == Level([], AtClose(endTag, after))
  {
    hide LexOne;
  }

  lemma ElementOf(s: bytes, name: Span, raws: seq<RawAttr>, sealed: bool, kids: seq<RawNode>, x: Node)
    requires x.Element? && Slice(s, name) == x.name && AttrsOf(s, raws) == Some(x.attrs)
    requires NodesOf(s, kids) == Some(x.children)
    ensures NodeOf(s, RawElement(name, raws, sealed, kids)) == Some(x)
  {
  }

  /** A printed element is the next node; only its trailing line feed is left. */
  lemma {:induction false} ElementParses(x: Node, st: PState, compact: bool, s: bytes, i: nat, w: bytes)
    returns (raw: RawNode, m: nat)
    requires x.Element? && Ready(x, st, compact, s, i, w)
    ensures i <= |s| && ParseOne(s, i) == OneNode(raw, m) && NodeOf(s, raw) == Some(x)
    ensures At(s, m, EndLine(st.depth, compact))
    ensures m + |EndLine(st.depth, compact)| == i + |w + PrintNode(x, st, compact).out|
    decreases x, 0
  {
    hide LexOne, ParseOne, ParseLevel, NodeOf, At, AllSpace, AttrsOut, AttrsOf, TagText, EndTagText, PrintNode, PrintNodes;
    hide NodesOf, CloseIndent, Indent, PrintableNodes, PrintableAttrs, ValidName;
    var ws, nl := w + Indent(st, compact), EndLine(st.depth, compact);
    var a := AttrsOut(x.attrs);
    ElementOut(x, st, compact, w);
    SpacesConcat(w, Indent(st, compact), st, compact);
    if x.children == [] {
      var tag := ws + TagText(x.name, a, true);
      AtSplit(s, i, tag, nl);
      var raws, name, next := TagParses(s, i, ws, x.name, x.attrs, true);
      m := i + |tag|;
      raw := RawElement(name, raws, true, []);
      ParseSealed(s, i, name, raws, m);
      NoNodes(s);
      ElementOf(s, name, raws, true, [], x);
    } else {
      var tag := ws + TagText(x.name, a, false);
      var st1 := PState(false, false, st.depth + 1, st.textDepth);
      var inner := PrintNodes(x.children, st1, compact);
      var ci := CloseIndent(inner.st, compact);
      var close := ci + EndTagText(x.name);
      AtSplit(s, i, tag, inner.out + (close + nl));
      var raws, name, next := TagParses(s, i, ws, x.name, x.attrs, false);
      AtSplit(s, next, inner.out, close + nl);
      AtSplit(s, next + |inner.out|, close, nl);
      ChildrenReady(x.children, st1, compact, s, next, x.name);
      ConcatEmpty(inner.out);
      NoSpace();
      var kids, j := NodesParse(x.children, st1, compact, s, next, []);
      var endTag, after := EndTagParses(s, j, ci, x.name);
      ParseClosed(s, j, endTag, after);
      m := after;
      raw := RawElement(name, raws, false, kids);
      ConcatEmpty(kids);
      ParseOpen(s, i, name, raws, next, kids, endTag, after);
      ElementOf(s, name, raws, false, kids, x);
    }
  }

  lemma NoSpace()
    ensures AllSpace([])
  {
  }

  lemma NothingPrinted(st: PState, compact: bool)
    ensures PrintNodes([], st, compact) == Printed([], st)
  {
  }

  lemma NoNodes(s: bytes)
    ensures NodesOf(s, []) == Some([])
  {
  }

  lemma TagParses(s: bytes, i: nat, ws: bytes, name: bytes, attrs: seq<Attr>, sealed: bool)
    returns (raws: seq<RawAttr>, n: Span, next: nat)
    requires AllSpace(ws) && ValidName(name) && PrintableAttrs(attrs)
    requires At(s, i, ws + TagText(name, AttrsOut(attrs), sealed))
    ensures i <= |s| && next == i + |ws + TagText(name, AttrsOut(attrs), sealed)| <= |s|
    ensures LexOne(s, i) == Lex(if sealed then SealedTag(n, raws) else OpenTag(n, raws), next)
    ensures Slice(s, n) == name && AttrsOf(s, raws) == Some(attrs)
  {
    hide LexOne, AttrsOf, AttrsOut, AllSpace, ValidName, PrintableAttrs, At;
    raws := OpenTagLexed(s, i, ws, name, attrs, sealed);
    var start := i + |ws| + 1;
    n := Span(start, start + |name|);
    next := start + |name| + |AttrsOut(attrs) + TagEnd(sealed)|;
  }

  lemma EndTagParses(s: bytes, i: nat, w: bytes, name: bytes) returns (n: Span, next: nat)
    requires AllSpace(w) && ValidName(name) && At(s, i, w + EndTagText(name))
    ensures i <= |s| && next == i + |w + EndTagText(name)| <= |s|
    ensures LexOne(s, i) == Lex(CloseTag(n), next) && Slice(s, n) == name
  {
    hide LexOne, AllSpace, ValidName, At;
    CloseTagLexed(s, i, w, name);
    var start := i + |w| + 2;
    n := Span(start, start + |name|);
    next := start + |name| + 1;
  }

  /** Behind a last plain text no line break is written: the `<` of the closing tag comes at once. */
  lemma ChildrenReady(xs: seq<Node>, st: PState, compact: bool, s: bytes, i: nat, name: bytes)
    requires xs != [] && st.depth > 0 && !st.justOpened && PrintableNodes(xs)
    requires var r := PrintNodes(xs, st, compact);
             At(s, i + |r.out|, CloseIndent(r.st, compact) + EndTagText(name))
    ensures AllSpace(CloseIndent(PrintNodes(xs, st, compact).st, compact))
    ensures LastReady(xs, s, i + |PrintNodes(xs, st, compact).out|)
  {
    hide PrintNodes;
    var r := PrintNodes(xs, st, compact);
    AfterNodes(xs, st, compact);
    if IsPlain(xs[|xs| - 1]) {
      ConcatEmpty(EndTagText(name));
      AtFirst(s, i + |r.out|, EndTagText(name));
    }
  }

  /** If the last of `xs` is plain text, a `<` that is not the last byte follows at `end`. */
  ghost predicate LastReady(xs: seq<Node>, s: bytes, end: nat) {
    xs != [] && IsPlain(xs[|xs| - 1]) ==> end + 1 < |s| && s[end] == LT
  }

  /** Printed siblings are read as that many nodes, and the level goes on behind them. */
  lemma {:induction false} NodesParse(xs: seq<Node>, st: PState, compact: bool, s: bytes, i: nat, w: bytes)
    returns (raws: seq<RawNode>, m: nat)
    requires PrintableNodes(xs) && !st.justOpened && st.depth >= 0 && AllSpace(w)
    requires At(s, i, w + PrintNodes(xs, st, compact).out)
    requires st.depth == 0 ==> forall k :: 0 <= k < |xs| ==> !IsPlain(xs[k])
    requires st.depth > 0 ==> w == []
    requires LastReady(xs, s, i + |w + PrintNodes(xs, st, compact).out|)
    ensures var end := i + |w + PrintNodes(xs, st, compact).out|;
            i <= m <= end <= |s| && AllSpace(s[m..end]) && (st.depth > 0 ==> m == end)
    ensures ParseLevel(s, i) == Level(raws + ParseLevel(s, m).nodes, ParseLevel(s, m).finish)
    ensures NodesOf(s, raws) == Some(xs)
    decreases xs, 1
  {
    hide LexOne, ParseOne, ParseLevel, NodeOf, NodesOf, At, AllSpace, PrintNode, PrintNodes, Ready, LastReady, PrintableNodes;
    if xs == [] {
      raws, m := [], i;
      NothingPrinted(st, compact);
      AtSlice(s, i, w);
      ConcatEmpty(w);
      ConcatEmpty(ParseLevel(s, i).nodes);
      NoNodes(s);
    } else {
      PrintNodesCons(xs, st, compact);
      var x, tail := xs[0], xs[1..];
      var head := PrintNode(x, st, compact);
      var rest := PrintNodes(tail, head.st, compact);
      var e := i + |w + head.out|;
      ConcatAssoc(w, head.out, rest.out);
      AtSplit(s, i, w + head.out, rest.out);
      HeadReady(xs, st, compact, s, i, w);
      AfterNode(x, st, compact);
      var raw, next, gap;
      if x.LeafNode? {
        raw := LeafParses(x, st, compact, s, i, w);
        next, gap := e, [];
        ConcatEmpty(rest.out);
        NoSpace();
      } else {
        raw, next := ElementParses(x, st, compact, s, i, w);
        gap := EndLine(st.depth, compact);
        AtSplit(s, next, gap, rest.out);
        EndLineIsSpace(st.depth, compact);
      }
      var more;
      more, m := NodesParse(tail, head.st, compact, s, next, gap);
      raws := [raw] + more;
      LevelCons(s, i, raw, next, more, m);
      NodesOfCons(s, raw, more, x, tail);
    }
  }

  lemma EndLineIsSpace(depth: int, compact: bool)
    ensures AllSpace(EndLine(depth, compact)) && (depth > 0 ==> EndLine(depth, compact) == [])
  {
  }

  lemma LevelCons(s: bytes, i: nat, raw: RawNode, next: nat, more: seq<RawNode>, m: nat)
    requires i <= |s| && m <= |s| && ParseOne(s, i) == OneNode(raw, next)
    requires ParseLevel(s, next) == Level(more + ParseLevel(s, m).nodes, ParseLevel(s, m).finish)
    ensures ParseLevel(s, i) == Level([raw] + more + ParseLevel(s, m).nodes, ParseLevel(s, m).finish)
  {
    hide ParseOne;
    ConcatAssoc([raw], more, ParseLevel(s, m).nodes);
  }

  lemma NodesOfCons(s: bytes, raw: RawNode, more: seq<RawNode>, x: Node, tail: seq<Node>)
    requires NodeOf(s, raw) == Some(x) && NodesOf(s, more) == Some(tail)
    ensures NodesOf(s, [raw] + more) == Some([x] + tail)
  {
    hide NodeOf;
    assert ([raw] + more)[1..] == more;
  }

  /** The first of the siblings can be read, and so can the others behind it. */
  lemma HeadReady(xs: seq<Node>, st: PState, compact: bool, s: bytes, i: nat, w: bytes)
    requires xs != [] && PrintableNodes(xs) && !st.justOpened && st.depth >= 0 && AllSpace(w)
    requires st.depth == 0 ==> forall k :: 0 <= k < |xs| ==> !IsPlain(xs[k])
    requires st.depth > 0 ==> w == []
    requires LastReady(xs, s, i + |w + PrintNodes(xs, st, compact).out|)
    requires var head := PrintNode(xs[0], st, compact);
             At(s, i, w + head.out) && At(s, i + |w + head.out|, PrintNodes(xs[1..], head.st, compact).out)
    ensures Ready(xs[0], st, compact, s, i, w) && PrintableNodes(xs[1..])
    ensures st.depth == 0 ==> forall k :: 0 <= k < |xs[1..]| ==> !IsPlain(xs[1..][k])
    ensures LastReady(xs[1..], s, i + |w + PrintNodes(xs, st, compact).out|)
    ensures [xs[0]] + xs[1..] == xs
  {
    hide PrintNode, PrintNodes, Printable, At, AllSpace;
    var tail, head := xs[1..], PrintNode(xs[0], st, compact);
    var rest := PrintNodes(tail, head.st, compact).out;
    TailFacts(xs, st);
    PrintNodesCons(xs, st, compact);
    AfterNode(xs[0], st, compact);
    if IsPlain(xs[0]) {
      if tail != [] {
        StartsWithTag(tail[0], head.st, compact);
        PrintNodesFirst(tail, head.st, compact);
        AtFirst(s, i + |w + head.out|, rest);
        AtFits(s, i + |w + head.out|, rest);
      } else {
        NothingPrinted(head.st, compact);
        ConcatEmpty(head.out);
      }
    }
  }

  lemma TailFacts(xs: seq<Node>, st: PState)
    requires xs != [] && PrintableNodes(xs)
    requires st.depth == 0 ==> forall k :: 0 <= k < |xs| ==> !IsPlain(xs[k])
    ensures [xs[0]] + xs[1..] == xs && Printable(xs[0]) && PrintableNodes(xs[1..])
    ensures st.depth == 0 ==> !IsPlain(xs[0]) && forall k :: 0 <= k < |xs[1..]| ==> !IsPlain(xs[1..][k])
    ensures xs[1..] != [] ==> Printable(xs[1]) && (IsPlain(xs[0]) ==> !IsPlain(xs[1])) && xs[1..][0] == xs[1]
  {
    hide Printable;
    forall k | 0 <= k < |xs[1..]| ensures xs[1..][k] == xs[k + 1] {
    }
  }

  lemma PrintNodesCons(xs: seq<Node>, st: PState, compact: bool)
    requires xs != []
    ensures var head := PrintNode(xs[0], st, compact);
            var tail := PrintNodes(xs[1..], head.st, compact);
            PrintNodes(xs, st, compact) == Printed(head.out + tail.out, tail.st)
  {
    hide PrintNode;
  }

  lemma PrintNodesFirst(xs: seq<Node>, st: PState, compact: bool)
    requires xs != [] && |PrintNode(xs[0], st, compact).out| >= 2
    ensures var out := PrintNodes(xs, st, compact).out;
            |out| >= 2 && out[0] == PrintNode(xs[0], st, compact).out[0]
  {
    hide PrintNode;
  }

  lemma AtFits(s: bytes, i: nat, x: bytes)
    requires At(s, i, x)
    ensures i + |x| <= |s|
  {
  }

  // ------------------------------------------------- documents

  /** Behind the last node only white space is left: the parse ends without an error. */
  lemma EndsInSpace(s: bytes, m: nat)
    requires m <= |s| && AllSpace(s[m..])
    ensures ParseLevel(s, m) == Level([], AtEnd)
  {
    forall k | m <= k < |s| ensures IsSpace(s[k]) {
      assert s[m..][k - m] == s[k];
    }
    SkipSpaceUnique(s, m, |s|);
  }

  lemma DocumentStarts(d: Document, compact: bool)
    requires PrintableDocument(d)
    ensures var body := PrintNodes(d.nodes, START, compact).out; |body| >= 2 && body[0] == LT
  {
    hide PrintNode, Printable;
    StartsWithTag(d.nodes[0], START, compact);
  }

  /** `Parse` skips no byte of a printed document but its byte order mark. */
  lemma ParseStarts(bom: bool, body: bytes)
    requires body != [] && body[0] == LT
    ensures var p := Parse((if bom then BOM else []) + body);
            var level := ParseLevel(body, 0);
            p == Parsed(bom, body, level.nodes, if level.finish.Failed? then level.finish.error else NoError)
  {
    hide ParseLevel;
    var s := (if bom then BOM else []) + body;
    SkipSpaceUnique(s, 0, 0);
    if bom {
      assert At(s, 0, BOM) && s[3..] == body;
    } else {
      NotAt(s, 0, BOM, 0);
      assert s[0..] == body;
    }
  }

  /**
   The whole way: a document printed by a new printer, pretty or compact, is parsed
   without an error and read back as the same document.
   */
  lemma PrintThenParse(d: Document, compact: bool)
    requires PrintableDocument(d)
    ensures var p := Parse(PrintDocument(d, compact));
            p.error == NoError && p.bom == d.bom && NodesOf(p.text, p.nodes) == Some(d.nodes)
  {
    hide ParseLevel, PrintNodes, Parse, NodesOf;
    var body := PrintNodes(d.nodes, START, compact).out;
    DocumentStarts(d, compact);
    ParseStarts(d.bom, body);
    ConcatEmpty(body);
    assert At(body, 0, body);
    var raws, m := NodesParse(d.nodes, START, compact, body, 0, []);
    assert body[m..] == body[m..|body|];
    EndsInSpace(body, m);
    ConcatEmpty(raws);
  }

  /** Pretty and compact printing are read as the same tree. */
  lemma PrettyIsCompact(d: Document)
    requires PrintableDocument(d)
    ensures var p, c := Parse(PrintDocument(d, false)), Parse(PrintDocument(d, true));
            && p.error == c.error == NoError && p.bom == c.bom
            && NodesOf(p.text, p.nodes) == NodesOf(c.text, c.nodes) != None
  {
    hide Parse, PrintDocument, NodesOf, PrintableDocument;
    PrintThenParse(d, false);
    PrintThenParse(d, true);
  }
}
