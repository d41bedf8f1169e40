/**
 Documents as values: the tree that a reader of the DOM sees, and what the printer
 writes for it as a function of the printer's state.
 */
module Documents {
  import opened Bytes
  import opened Decoding
  import opened Escaping
  import opened Parsing

  datatype Attr = Attr(name: bytes, value: bytes)

  datatype Node =
    | Element(name: bytes, attrs: seq<Attr>, children: seq<Node>)
    | LeafNode(kind: LeafKind, value: bytes)

  datatype Document = Document(bom: bool, nodes: seq<Node>)

  // ------------------------------------------------- reading a parsed tree

  /** The flags with which `ParseDeep` sets the value of a leaf. */
  function LeafFlags(kind: LeafKind): Flags {
    if kind == PlainText then TEXT_FLAGS else NEWLINES_ONLY
  }

  function AttrsOf(s: bytes, raws: seq<RawAttr>): Option<seq<Attr>> {
    if raws == [] then Some([])
    else
      match (Decode(Slice(s, raws[0].value), TEXT_FLAGS), AttrsOf(s, raws[1..]))
      case (Some(v), Some(rest)) => Some([Attr(Slice(s, raws[0].name), v)] + rest)
      case _ => None
  }

  /** The tree with every string decoded; `None` if decoding one meets a null pointer. */
  function NodeOf(s: bytes, raw: RawNode): Option<Node> {
    match raw
    case RawLeaf(kind, value) =>
      (match Decode(Slice(s, value), LeafFlags(kind))
       case Some(v) => Some(LeafNode(kind, v))
       case None => None)
    case RawElement(name, attrs, _, children) =>
      match (AttrsOf(s, attrs), NodesOf(s, children))
      case (Some(a), Some(c)) => Some(Element(Slice(s, name), a, c))
      case _ => None
  }

  function NodesOf(s: bytes, raws: seq<RawNode>): Option<seq<Node>> {
    if raws == [] then Some([])
    else
      match (NodeOf(s, raws[0]), NodesOf(s, raws[1..]))
      case (Some(n), Some(rest)) => Some([n] + rest)
      case _ => None
  }

  // ------------------------------------------------- printing

  /** `elementJustOpened`, `firstElement`, `depth` and `textDepth` of `XMLPrinter`. */
  datatype PState = PState(justOpened: bool, first: bool, depth: int, textDepth: int)

  const START := PState(false, true, 0, -1)

  datatype Printed = Printed(out: bytes, st: PState)

  /** `PrintSpace`. */
  function Spaces(depth: int): (r: bytes)
    ensures AllSpace(r)
  {
    if depth <= 0 then [] else Spaces(depth - 1) + [SPACE, SPACE, SPACE, SPACE]
  }

  function NewLine(depth: int): (r: bytes)
    ensures AllSpace(r)
  {
    [LF] + Spaces(depth)
  }

  /** `SealElement`, if an element was just opened. */
  function Seal(st: PState): bytes {
    if st.justOpened then [GT] else []
  }

  /** The line break in front of a tag, a comment, a declaration or an unknown. */
  function Indent(st: PState, compact: bool): bytes {
    if st.textDepth < 0 && !st.first && !compact then NewLine(st.depth) else []
  }

  function OpenOut(name: bytes, st: PState, compact: bool): Printed {
    Printed(Seal(st) + Indent(st, compact) + [LT] + name,
            PState(true, false, st.depth + 1, st.textDepth))
  }

  function AttrOut(a: Attr): bytes {
    [SPACE] + a.name + [EQ, QUOTE] + Escape(a.value, false) + [QUOTE]
  }

  function AttrsOut(attrs: seq<Attr>): bytes {
    if attrs == [] then [] else AttrOut(attrs[0]) + AttrsOut(attrs[1..])
  }

  function EndLine(depth: int, compact: bool): bytes {
    if depth == 0 && !compact then [LF] else []
  }

  function CloseOut(name: bytes, st: PState, compact: bool): Printed {
    var depth := st.depth - 1;
    var tag := if st.justOpened then [SLASH, GT]
               else (if st.textDepth < 0 && !compact then NewLine(depth) else []) + [LT, SLASH] + name + [GT];
    Printed(tag + EndLine(depth, compact),
            PState(false, st.first, depth, if st.textDepth == depth then -1 else st.textDepth))
  }

  function Header(kind: LeafKind): bytes {
    match kind
    case Declaration => XML_HEADER
    case Comment => COMMENT_HEADER
    case CData => CDATA_HEADER
    case Unknown => DTD_HEADER
    case PlainText => []
  }

  predicate IsText(kind: LeafKind) { kind == PlainText || kind == CData }

  /** `PushText`, `PushComment`, `PushDeclaration` and `PushUnknown`. */
  function LeafOut(kind: LeafKind, v: bytes, st: PState, compact: bool): Printed {
    if kind == PlainText then
      Printed(Seal(st) + Escape(v, true), st.(justOpened := false, textDepth := st.depth - 1))
    else if kind == CData then
      Printed(Seal(st) + (Header(kind) + v + Terminator(kind)),
              st.(justOpened := false, textDepth := st.depth - 1))
    else
      Printed(Seal(st) + Indent(st, compact) + (Header(kind) + v + Terminator(kind)),
              st.(justOpened := false, first := false))
  }

  /** The visit of a node: enter, attributes, children, exit. */
  function PrintNode(x: Node, st: PState, compact: bool): Printed {
    match x
    case LeafNode(kind, v) => LeafOut(kind, v, st, compact)
    case Element(name, attrs, children) =>
      var open := OpenOut(name, st, compact);
      var body := PrintNodes(children, open.st, compact);
      var close := CloseOut(name, body.st, compact);
      Printed(open.out + AttrsOut(attrs) + body.out + close.out, close.st)
  }

  function PrintNodes(xs: seq<Node>, st: PState, compact: bool): Printed {
    if xs == [] then Printed([], st)
    else
      var head := PrintNode(xs[0], st, compact);
      var tail := PrintNodes(xs[1..], head.st, compact);
      Printed(head.out + tail.out, tail.st)
  }

  /** `XMLDocument::Print` into a new printer. */
  function PrintDocument(d: Document, compact: bool): bytes {
    (if d.bom then BOM else []) + PrintNodes(d.nodes, START, compact).out
  }

  // ------------------------------------------------- what can be printed faithfully

  ghost predicate Occurs(v: bytes, t: bytes) {
    exists k :: 0 <= k < |v| && At(v, k, t)
  }

  /** Bytes that the parser's newline handling and C strings leave alone. */
  ghost predicate CleanString(v: bytes) { NoCR(v) && NoNul(v) }

  ghost predicate PrintableLeaf(kind: LeafKind, v: bytes) {
    && CleanString(v)
    && (kind == PlainText ==> !AllSpace(v))
    && (kind != PlainText ==> !Occurs(v, Terminator(kind)))
    && (kind == Unknown ==> !At(v, 0, COMMENT_HEADER[2..]) && !At(v, 0, CDATA_HEADER[2..]))
  }

  ghost predicate PrintableAttrs(attrs: seq<Attr>) {
    && (forall k :: 0 <= k < |attrs| ==> ValidName(attrs[k].name) && CleanString(attrs[k].value))
    && (forall j, k :: 0 <= j < k < |attrs| ==> attrs[j].name != attrs[k].name)
  }

  predicate IsPlain(x: Node) { x.LeafNode? && x.kind == PlainText }

  ghost predicate Printable(x: Node) {
    match x
    case LeafNode(kind, v) => PrintableLeaf(kind, v)
    case Element(name, attrs, children) =>
      ValidName(name) && PrintableAttrs(attrs) && PrintableNodes(children)
  }

  /** Adjacent runs of plain text would be read back as one. */
  ghost predicate PrintableNodes(xs: seq<Node>) {
    && (forall k :: 0 <= k < |xs| ==> Printable(xs[k]))
    && (forall k :: 0 <= k < |xs| - 1 ==> !(IsPlain(xs[k]) && IsPlain(xs[k + 1])))
  }

  /** A document has nodes, and none of them is plain text. */
  ghost predicate PrintableDocument(d: Document) {
    d.nodes != [] && PrintableNodes(d.nodes) && forall k :: 0 <= k < |d.nodes| ==> !IsPlain(d.nodes[k])
  }
}
