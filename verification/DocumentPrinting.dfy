/**
 `XMLDocument::Print`: the printer visits the nodes on the heap and reads each string,
 decoding it in the buffer of the document, when it comes to it.
 */
module DocumentPrinting {
  import opened Bytes
  import opened Decoding
  import opened DocumentAccess
  import opened Documents
  import opened ElementAttributes
  import opened Escaping
  import opened LiveStrings
  import opened Nodes
  import opened Ownership
  import opened Parsing
  import opened Printer
  import opened Reprinting
  import opened XMLDocuments

  // ------------------------------------------------------------ what is seen of a tree

  function SeenAttrs(attrs: seq<Attr>): (r: seq<Attr>)
    ensures |r| == |attrs|
    ensures forall k :: 0 <= k < |attrs| ==> r[k] == Attr(attrs[k].name, CString(attrs[k].value))
  {
    seq(|attrs|, k requires 0 <= k < |attrs| => Attr(attrs[k].name, CString(attrs[k].value)))
  }

  /** The tree with every string up to its first NUL. */
  function Seen(x: Node): Node {
    match x
    case LeafNode(kind, v) => LeafNode(kind, CString(v))
    case Element(name, attrs, children) => Element(name, SeenAttrs(attrs), SeenAll(children))
  }

  function SeenAll(xs: seq<Node>): (r: seq<Node>)
    ensures |r| == |xs| && forall k :: 0 <= k < |xs| ==> r[k] == Seen(xs[k])
  {
    if xs == [] then [] else [Seen(xs[0])] + SeenAll(xs[1..])
  }

  /** A clean tree is seen whole. */
  lemma {:induction false} SeenWhole(x: Node)
    requires Clean(x)
    ensures Seen(x) == x
  {
    match x
    case LeafNode(_, v) => CStringWhole(v);
    case Element(_, attrs, children) =>
      forall k | 0 <= k < |attrs| ensures SeenAttrs(attrs)[k] == attrs[k] {
        CStringWhole(attrs[k].value);
      }
      assert SeenAttrs(attrs) == attrs;
      forall k | 0 <= k < |children| ensures SeenAll(children)[k] == children[k] {
        SeenWhole(children[k]);
      }
      assert SeenAll(children) == children;
  }

  lemma {:induction false} NodesOfAt(s: bytes, raws: seq<RawNode>, xs: seq<Node>)
    requires NodesOf(s, raws) == Some(xs)
    ensures |raws| == |xs| && forall k :: 0 <= k < |xs| ==> NodeOf(s, raws[k]) == Some(xs[k])
  {
    hide NodeOf;
    if raws != [] {
      NodesOfAt(s, raws[1..], NodesOf(s, raws[1..]).value);
    }
  }

  // ------------------------------------------------------------ the visits

  /** What the printer has printed, with its state and its open elements; its memory is its own. */
  ghost predicate Printing(doc: XMLDocument, p: XMLPrinter, now: Printed, names: seq<bytes>)
    reads doc`charBuffer, p, p.stack, p.stack.mem, p.buffer, p.buffer.mem
  {
    && p.Valid() && p.processEntities && p.buffer.mem != doc.charBuffer
    && p.Out() == now.out && p.State() == now.st && p.Names() == names
  }

  /** `r` printed behind what there was. */
  function Behind(now: Printed, r: Printed): Printed {
    Printed(now.out + r.out, r.st)
  }

  lemma PoolsAre(doc: XMLDocument)
    ensures forall m :: m in doc.Pools() ==>
      m == doc.elementPool || m == doc.attributePool || m == doc.textPool || m == doc.commentPool
  {
  }

  /** The visit of a text, a comment, a declaration or an unknown. */
  method PrintLeaf(doc: XMLDocument, node: XMLNode, p: XMLPrinter, ghost v: bytes, ghost now: Printed, ghost names: seq<bytes>)
    requires InDocument(doc, node) && Printing(doc, p, now, names) && node.kind.LeafNodeKind?
    requires doc.Meant(node, ValueSlot) == Some(v)
    modifies doc.charBuffer, node`value, node`attrs, p, p.stack, p.stack.mem, p.buffer, p.buffer.mem
    ensures InDocument(doc, node)
    ensures Printing(doc, p, Behind(now, LeafOut(node.kind.leaf, CString(v), now.st, p.compactMode)), names)
    ensures (p.buffer.mem == old(p.buffer.mem) || fresh(p.buffer.mem)) && (p.stack.mem == old(p.stack.mem) || fresh(p.stack.mem))
  {
    hide XMLDocument.Valid, Decode, XMLDocument.Meant, CString, LeafOut, XMLPrinter.Out;
    var text := ReadText(doc, node, ValueSlot);
    var kind := node.kind.leaf;
    PoolsAre(doc);
    if kind == PlainText || kind == CData {
      p.PushText(text, kind == CData);
    } else {
      p.PushLeaf(kind, text);
    }
  }

  /** The loop over the attributes in `VisitEnter`. */
  method PrintAttributes(doc: XMLDocument, node: XMLNode, p: XMLPrinter, ghost attrs: seq<Attr>,
                         ghost now: Printed, ghost names: seq<bytes>)
    requires InDocument(doc, node) && Printing(doc, p, now, names) && now.st.justOpened
    requires node.kind == ElementKind && node.tree.RawElement? && AttrsOf(doc.text, node.tree.attrs) == Some(attrs)
    modifies doc.charBuffer, node`value, node`attrs, p.buffer, p.buffer.mem
    ensures InDocument(doc, node) && (p.buffer.mem == old(p.buffer.mem) || fresh(p.buffer.mem))
    ensures Printing(doc, p, Behind(now, Printed(AttrsOut(SeenAttrs(attrs)), now.st)), names)
  {
    hide XMLDocument.Valid, AttrsOf, Decode, Slice, Printing, AttrsOut, AttrOut, SeenAttrs;
    AttrsOfAt(doc.text, node.tree.attrs, attrs);
    AttrIs(doc, node, 0);
    ghost var seen := SeenAttrs(attrs);
    NoAttrs(now.out, seen);
    var k := 0;
    while k < |node.attrs|
      invariant InDocument(doc, node) && k <= |node.attrs| == |attrs|
      invariant p.buffer.mem == old(p.buffer.mem) || fresh(p.buffer.mem)
      invariant Printing(doc, p, Printed(now.out + AttrsOut(seen[..k]), now.st), names)
    {
      PrintAttribute(doc, node, p, k, attrs[k], Printed(now.out + AttrsOut(seen[..k]), now.st), names);
      AttrsOutSnoc(seen[..k], seen[k]);
      assert seen[..k] + [seen[k]] == seen[..k + 1];
      ConcatAssoc(now.out, AttrsOut(seen[..k]), AttrOut(seen[k]));
      k := k + 1;
    }
    assert seen[..k] == seen;
  }

  method PrintAttribute(doc: XMLDocument, node: XMLNode, p: XMLPrinter, k: nat, ghost a: Attr,
                        ghost now: Printed, ghost names: seq<bytes>)
    requires InDocument(doc, node) && Printing(doc, p, now, names) && now.st.justOpened
    requires node.kind == ElementKind && node.tree.RawElement? && k < |node.attrs| == |node.tree.attrs|
    requires Slice(doc.text, node.tree.attrs[k].name) == a.name
    requires Decode(Slice(doc.text, node.tree.attrs[k].value), TEXT_FLAGS) == Some(a.value)
    modifies doc.charBuffer, node`value, node`attrs, p.buffer, p.buffer.mem
    ensures InDocument(doc, node) && |node.attrs| == |old(node.attrs)|
    ensures p.buffer.mem == old(p.buffer.mem) || fresh(p.buffer.mem)
    ensures Printing(doc, p, Printed(now.out + AttrOut(Attr(a.name, CString(a.value))), now.st), names)
  {
    hide XMLDocument.Valid, Decode, Slice, XMLPrinter.Out, AttrOut;
    var name := ReadAttrName(doc, node, k);
    var value := ReadAttrValue(doc, node, k, a.value);
    PoolsAre(doc);
    p.PushAttribute(name, value);
  }

  /** The visit of a node: its strings, then its children, in order. */
  method PrintNode(doc: XMLDocument, node: XMLNode, p: XMLPrinter, ghost x: Node, ghost now: Printed, ghost names: seq<bytes>)
    requires InDocument(doc, node) && Printing(doc, p, now, names) && NodeOf(doc.text, node.tree) == Some(x)
    modifies doc.charBuffer, doc.root.repr`value, doc.root.repr`attrs, p, p.stack, p.stack.mem, p.buffer, p.buffer.mem
    ensures InDocument(doc, node)
    ensures Printing(doc, p, Behind(now, Documents.PrintNode(Seen(x), now.st, p.compactMode)), names)
    ensures (p.buffer.mem == old(p.buffer.mem) || fresh(p.buffer.mem)) && (p.stack.mem == old(p.stack.mem) || fresh(p.stack.mem))
    decreases node.repr, 2
  {
    hide XMLDocument.Valid, Decode, XMLDocument.Meant, Printing, Documents.PrintNodes, OpenOut, CloseOut,
      LeafOut, AttrsOut, AttrsOf, Slice, CString;
    FieldsAre(doc, node);
    if node.kind.LeafNodeKind? {
      PrintLeaf(doc, node, p, x.value, now, names);
      return;
    }
    PrintElement(doc, node, p, x, now, names);
  }

  method PrintElement(doc: XMLDocument, node: XMLNode, p: XMLPrinter, ghost x: Node, ghost now: Printed, ghost names: seq<bytes>)
    requires InDocument(doc, node) && Printing(doc, p, now, names) && node.kind == ElementKind
    requires node.tree.RawElement? && NodeOf(doc.text, node.tree) == Some(x)
    modifies doc.charBuffer, doc.root.repr`value, doc.root.repr`attrs, p, p.stack, p.stack.mem, p.buffer, p.buffer.mem
    ensures InDocument(doc, node)
    ensures Printing(doc, p, Behind(now, Documents.PrintNode(Seen(x), now.st, p.compactMode)), names)
    ensures (p.buffer.mem == old(p.buffer.mem) || fresh(p.buffer.mem)) && (p.stack.mem == old(p.stack.mem) || fresh(p.stack.mem))
    decreases node.repr, 1
  {
    hide XMLDocument.Valid, Printing, NodeOf, NodesOf, AttrsOf, Slice, Behind, OpenOut,
      CloseOut, AttrsOut, SeenAttrs, SeenAll, Seen, Documents.PrintNode, Documents.PrintNodes;
    ElementParts(doc.text, node.tree, x);
    ghost var open, body, whole := ElementPrinted(x, now, p.compactMode);
    OpenTag(doc, node, p, x.name, x.attrs, now, names);
    PrintChildren(doc, node, p, x.children, open, names + [x.name]);
    CloseTag(doc, node, p, x.name, body, names);
  }

  lemma ElementParts(s: bytes, tree: RawNode, x: Node)
    requires tree.RawElement? && NodeOf(s, tree) == Some(x)
    ensures x.Element? && x.name == Slice(s, tree.name) && AttrsOf(s, tree.attrs) == Some(x.attrs)
    ensures NodesOf(s, tree.children) == Some(x.children)
  {
  }

  /** The start tag, with its attributes. */
  function Opened(name: bytes, attrs: seq<Attr>, st: PState, compact: bool): Printed {
    var open := OpenOut(name, st, compact);
    Printed(open.out + AttrsOut(attrs), open.st)
  }

  /** What has been printed behind the start tag, the children and the end tag of an element. */
  lemma ElementPrinted(x: Node, now: Printed, compact: bool) returns (open: Printed, body: Printed, whole: Printed)
    requires x.Element?
    ensures open == Behind(now, Opened(x.name, SeenAttrs(x.attrs), now.st, compact))
    ensures body == Behind(open, Documents.PrintNodes(SeenAll(x.children), open.st, compact))
    ensures whole == Behind(body, CloseOut(x.name, body.st, compact))
    ensures whole == Behind(now, Documents.PrintNode(Seen(x), now.st, compact))
  {
    hide OpenOut, CloseOut, AttrsOut, SeenAttrs, SeenAll, Documents.PrintNodes;
    open := Behind(now, Opened(x.name, SeenAttrs(x.attrs), now.st, compact));
    body := Behind(open, Documents.PrintNodes(SeenAll(x.children), open.st, compact));
    whole := Behind(body, CloseOut(x.name, body.st, compact));
    var o := OpenOut(x.name, now.st, compact).out;
    ConcatAssoc(now.out, o, AttrsOut(SeenAttrs(x.attrs)));
    ElementGroup(now.out, o, AttrsOut(SeenAttrs(x.attrs)), Documents.PrintNodes(SeenAll(x.children), open.st, compact).out,
                 CloseOut(x.name, body.st, compact).out);
  }

  method OpenTag(doc: XMLDocument, node: XMLNode, p: XMLPrinter, ghost name: bytes, ghost attrs: seq<Attr>,
                 ghost now: Printed, ghost names: seq<bytes>)
    requires InDocument(doc, node) && Printing(doc, p, now, names) && node.kind == ElementKind && node.tree.RawElement?
    requires name == Slice(doc.text, node.tree.name) && AttrsOf(doc.text, node.tree.attrs) == Some(attrs)
    modifies doc.charBuffer, node`value, node`attrs, p, p.stack, p.stack.mem, p.buffer, p.buffer.mem
    ensures InDocument(doc, node)
    ensures Printing(doc, p, Behind(now, Opened(name, SeenAttrs(attrs), now.st, p.compactMode)), names + [name])
    ensures (p.buffer.mem == old(p.buffer.mem) || fresh(p.buffer.mem)) && (p.stack.mem == old(p.stack.mem) || fresh(p.stack.mem))
  {
    hide XMLDocument.Valid, Decode, XMLPrinter.Out, AttrsOut, AttrsOf, Slice, SeenAttrs;
    var n := ReadName(doc, node);
    PoolsAre(doc);
    p.OpenElement(n);
    ghost var open := OpenOut(name, now.st, p.compactMode);
    PrintAttributes(doc, node, p, attrs, Behind(now, open), names + [name]);
    ConcatAssoc(now.out, open.out, AttrsOut(SeenAttrs(attrs)));
  }

  method CloseTag(doc: XMLDocument, node: XMLNode, p: XMLPrinter, ghost name: bytes, ghost now: Printed, ghost names: seq<bytes>)
    requires InDocument(doc, node) && Printing(doc, p, now, names + [name])
    modifies p, p.stack, p.stack.mem, p.buffer, p.buffer.mem
    ensures InDocument(doc, node) && Printing(doc, p, Behind(now, CloseOut(name, now.st, p.compactMode)), names)
    ensures (p.buffer.mem == old(p.buffer.mem) || fresh(p.buffer.mem)) && (p.stack.mem == old(p.stack.mem) || fresh(p.stack.mem))
  {
    hide XMLDocument.Valid, XMLPrinter.Out, XMLPrinter.Names, CloseOut;
    PoolsAre(doc);
    p.CloseElement();
  }

  /** `Accept` of the children, along the `next` pointers. */
  method PrintChildren(doc: XMLDocument, n: XMLNode, p: XMLPrinter, ghost xs: seq<Node>, ghost now: Printed, ghost names: seq<bytes>)
    requires doc.Valid() && n in doc.root.repr && Printing(doc, p, now, names)
    requires n.tree.RawElement? && NodesOf(doc.text, n.tree.children) == Some(xs)
    modifies doc.charBuffer, doc.root.repr`value, doc.root.repr`attrs, p, p.stack, p.stack.mem, p.buffer, p.buffer.mem
    ensures doc.Valid()
    ensures Printing(doc, p, Behind(now, Documents.PrintNodes(SeenAll(xs), now.st, p.compactMode)), names)
    ensures (p.buffer.mem == old(p.buffer.mem) || fresh(p.buffer.mem)) && (p.stack.mem == old(p.stack.mem) || fresh(p.stack.mem))
    decreases n.repr, 0
  {
    hide XMLDocument.Valid, Printing, NodesOf, NodeOf, SeenAll, Documents.PrintNodes, Documents.PrintNode, Seen, Behind;
    ghost var i: nat, seen := 0, SeenAll(xs);
    NonePrinted(now, seen, p.compactMode);
    KidIn(doc, n, 0);
    var child := n.firstChild;
    while child != null
      invariant doc.Valid() && i <= |n.kids| && child == XMLNode.Nth(n.kids, i) && i <= |xs|
      invariant (p.buffer.mem == old(p.buffer.mem) || fresh(p.buffer.mem)) && (p.stack.mem == old(p.stack.mem) || fresh(p.stack.mem))
      invariant Printing(doc, p, Behind(now, Documents.PrintNodes(seen[..i], now.st, p.compactMode)), names)
      decreases |n.kids| - i
    {
      KidIn(doc, n, i);
      ChildMeans(doc, n, i, xs);
      OneMorePrinted(now, seen, i, p.compactMode);
      PrintNode(doc, child, p, xs[i], Behind(now, Documents.PrintNodes(seen[..i], now.st, p.compactMode)), names);
      KidIn(doc, n, i);
      child := child.next;
      i := i + 1;
    }
    ChildMeans(doc, n, i, xs);
    assert seen[..i] == seen;
  }

  lemma NonePrinted(now: Printed, seen: seq<Node>, compact: bool)
    ensures Behind(now, Documents.PrintNodes(seen[..0], now.st, compact)) == now
  {
    ConcatEmpty(now.out);
  }

  lemma OneMorePrinted(now: Printed, seen: seq<Node>, i: nat, compact: bool)
    requires i < |seen|
    ensures var before := Behind(now, Documents.PrintNodes(seen[..i], now.st, compact));
            Behind(before, Documents.PrintNode(seen[i], before.st, compact))
            == Behind(now, Documents.PrintNodes(seen[..i + 1], now.st, compact))
  {
    hide Documents.PrintNode, Documents.PrintNodes;
    var before := Documents.PrintNodes(seen[..i], now.st, compact);
    PrintNodesSnoc(seen[..i], seen[i], now.st, compact);
    assert seen[..i] + [seen[i]] == seen[..i + 1];
    ConcatAssoc(now.out, before.out, Documents.PrintNode(seen[i], before.st, compact).out);
  }

  /** The child at `i` is the node at `i` of the tree, and lies deeper. */
  lemma ChildMeans(doc: XMLDocument, n: XMLNode, i: nat, xs: seq<Node>)
    requires doc.Valid() && n in doc.root.repr && n.tree.RawElement?
    requires NodesOf(doc.text, n.tree.children) == Some(xs)
    ensures |xs| == |n.kids|
    ensures i < |n.kids| ==>
      && n.kids[i].repr < n.repr && NodeOf(doc.text, n.kids[i].tree) == Some(xs[i]) && SeenAll(xs)[i] == Seen(xs[i])
  {
    hide NodeOf, NodesOf, Seen, SeenAll, XMLDocument.PoolsOk, Readable;
    NodesOfAt(doc.text, n.tree.children, xs);
    assert Local(n) && Shape(n);
    if i < |n.kids| {
      assert n.kids[i] in n.kids && n.tree.children[i] == n.kids[i].tree;
    }
  }

  /**
   `XMLDocument::Print` into a new printer. The document stays valid, and its text and its
   tree stay as they were, so that it can be printed again.
   */
  method Print(doc: XMLDocument, compact: bool, ghost xs: seq<Node>) returns (p: XMLPrinter)
    requires doc.Valid() && doc.root.tree.RawElement? && NodesOf(doc.text, doc.root.tree.children) == Some(xs)
    modifies doc.charBuffer, doc.root.repr`value, doc.root.repr`attrs
    ensures doc.Valid() && fresh(p) && p.Valid()
    ensures p.Out() == PrintDocument(Document(doc.writeBOM, SeenAll(xs)), compact)
  {
    p := StartPrinter(doc, compact);
    RootIn(doc);
    hide XMLDocument.Valid, NodesOf, Documents.PrintNodes, SeenAll;
    PrintChildren(doc, doc.root, p, xs, Printed(if doc.writeBOM then BOM else [], START), []);
  }

  /** A new printer, with the byte order mark of the document. */
  method StartPrinter(doc: XMLDocument, compact: bool) returns (p: XMLPrinter)
    requires doc.Valid()
    ensures doc.Valid() && fresh(p.Repr()) && p.compactMode == compact
    ensures Printing(doc, p, Printed(if doc.writeBOM then BOM else [], START), [])
  {
    hide XMLDocument.Valid;
    PoolsAre(doc);
    p := new XMLPrinter(compact);
    ConcatEmpty(p.Out());
    if doc.writeBOM {
      p.Print(BOM);
    }
  }

  lemma RootIn(doc: XMLDocument)
    requires doc.Valid()
    ensures doc.root in doc.root.repr
  {
    hide XMLDocument.PoolsOk, Shaped, Readable;
  }

  // ------------------------------------------------------------ the round trip on the heap

  lemma NameNoNul(n: bytes)
    requires ValidName(n)
    ensures NoNul(n)
  {
  }

  lemma {:induction false} AttrsNoNul(attrs: seq<Attr>)
    requires PrintableAttrs(attrs)
    ensures NoNul(AttrsOut(attrs))
  {
    if attrs != [] {
      var a := attrs[0];
      NameNoNul(a.name);
      EscapeIsSafe(a.value, false);
      AttrsNoNul(attrs[1..]);
    }
  }

  lemma SpaceNoNul(s: bytes)
    requires AllSpace(s)
    ensures NoNul(s)
  {
  }

  lemma LeafNoNul(kind: LeafKind, v: bytes, st: PState, compact: bool)
    requires NoNul(v)
    ensures NoNul(LeafOut(kind, v, st, compact).out)
  {
    EscapeIsSafe(v, true);
    IndentNoNul(st, compact);
    BracketsNoNul(kind);
    hide NoNul, Seal, Indent, Escape, Header, Terminator;
    ConcatNoNul(Header(kind), v, Terminator(kind), []);
    ConcatEmpty(Header(kind) + v + Terminator(kind));
    ConcatNoNul(Seal(st), Escape(v, true), [], []);
    ConcatNoNul(Seal(st), Header(kind) + v + Terminator(kind), [], []);
    ConcatNoNul(Seal(st), Indent(st, compact), Header(kind) + v + Terminator(kind), []);
    ConcatEmpty(Seal(st) + Indent(st, compact) + (Header(kind) + v + Terminator(kind)));
  }

  lemma IndentNoNul(st: PState, compact: bool)
    ensures NoNul(Seal(st)) && NoNul(Indent(st, compact)) && NoNul([])
  {
    hide NewLine;
    SpaceNoNul(NewLine(st.depth));
  }

  lemma BracketsNoNul(kind: LeafKind)
    ensures NoNul(Header(kind)) && NoNul(Terminator(kind))
  {
  }

  lemma TagNoNul(name: bytes, st: PState, compact: bool)
    requires NoNul(name)
    ensures NoNul(OpenOut(name, st, compact).out) && NoNul(CloseOut(name, st, compact).out)
  {
    hide NewLine;
    SpaceNoNul(NewLine(st.depth));
    SpaceNoNul(NewLine(st.depth - 1));
  }

  lemma ConcatNoNul(a: bytes, b: bytes, c: bytes, d: bytes)
    requires NoNul(a) && NoNul(b) && NoNul(c) && NoNul(d)
    ensures NoNul(a + b + c + d) && NoNul(a + b)
  {
  }

  /** What is printed for a printable tree is a C string of that length. */
  lemma {:induction false} NodeNoNul(x: Node, st: PState, compact: bool)
    requires Printable(x)
    ensures NoNul(Documents.PrintNode(x, st, compact).out)
    decreases x, 0
  {
    hide NoNul, LeafOut, OpenOut, CloseOut, AttrsOut, PrintableAttrs;
    match x
    case LeafNode(kind, v) =>
      assert CleanString(v);
      LeafNoNul(kind, v, st, compact);
    case Element(name, attrs, children) =>
      var open := OpenOut(name, st, compact);
      var body := Documents.PrintNodes(children, open.st, compact);
      NameNoNul(name);
      TagNoNul(name, st, compact);
      TagNoNul(name, body.st, compact);
      AttrsNoNul(attrs);
      NodesNoNul(children, open.st, compact);
      ConcatNoNul(open.out, AttrsOut(attrs), body.out, CloseOut(name, body.st, compact).out);
  }

  lemma {:induction false} NodesNoNul(xs: seq<Node>, st: PState, compact: bool)
    requires forall k :: 0 <= k < |xs| ==> Printable(xs[k])
    ensures NoNul(Documents.PrintNodes(xs, st, compact).out)
    decreases xs, 1
  {
    hide Documents.PrintNode, Printable;
    if xs != [] {
      NodeNoNul(xs[0], st, compact);
      NodesNoNul(xs[1..], Documents.PrintNode(xs[0], st, compact).st, compact);
    }
  }

  lemma DocumentNoNul(d: Document, compact: bool)
    requires PrintableDocument(d)
    ensures NoNul(PrintDocument(d, compact))
  {
    hide Documents.PrintNodes, Printable;
    NodesNoNul(d.nodes, START, compact);
  }

  lemma AllSeenWhole(xs: seq<Node>)
    requires CanReprint(xs)
    ensures SeenAll(xs) == xs
  {
    hide Clean, Seen;
    forall k | 0 <= k < |xs| ensures SeenAll(xs)[k] == xs[k] {
      SeenWhole(xs[k]);
    }
  }

  /** What the text promises for the second document. */
  lemma SecondIsFirst(input: bytes, out: bytes, compact: bool, xs: seq<Node>)
    requires NodesOf(Parse(input).text, Parse(input).nodes) == Some(xs) && CanReprint(xs)
    requires out == PrintDocument(Document(Parse(input).bom, SeenAll(xs)), compact)
    ensures NoNul(out) && out != [] && Parse(out).text != []
    ensures Parse(out).error == NoError && Parse(out).bom == Parse(input).bom
    ensures NodesOf(Parse(out).text, Parse(out).nodes) == Some(xs)
  {
    hide PrintDocument, NodesOf, CanReprint, PrintableDocument, ParseLevel, At, SkipSpace, SeenAll;
    AllSeenWhole(xs);
    ParsedIsPrintableIff(input, xs);
    DocumentNoNul(Document(Parse(input).bom, xs), compact);
    ParseThenPrint(input, xs, compact);
    NoInput();
    NoNodesOf(Parse(out).text);
    TextFirst(out);
  }

  lemma NoInput()
    ensures Parse([]).text == [] && Parse([]).error == EmptyDocument
  {
    SkipSpaceUnique([], 0, 0);
  }

  lemma TextFirst(s: bytes)
    ensures Parse(s).text == [] ==> Parse(s).nodes == [] && Parse(s).error == EmptyDocument
  {
    hide At, SkipSpace, ParseLevel;
  }

  lemma HasText(input: bytes, xs: seq<Node>)
    requires NodesOf(Parse(input).text, Parse(input).nodes) == Some(xs) && CanReprint(xs)
    ensures Parse(input).text != [] && input != []
  {
    hide Parse, NodesOf, Clean;
    NoNodesOf(Parse(input).text);
    TextFirst(input);
    NoInput();
  }

  /**
   The round trip on the heap: a text is parsed, the document is printed, pretty or
   compact, and what was printed is parsed again. If the strings are clean and no text
   stands outside the elements, the tree means the same as before.
   */
  method ParsePrintParse(doc: XMLDocument, input: bytes, compact: bool, ghost xs: seq<Node>)
    requires doc.Valid() && NoNul(input)
    requires NodesOf(Parse(input).text, Parse(input).nodes) == Some(xs) && CanReprint(xs)
    modifies doc, doc.Pools(), doc.root.repr
    ensures doc.Valid() && doc.errorID == NoError && doc.writeBOM == Parse(input).bom
    ensures doc.root.tree.RawElement? && NodesOf(doc.text, doc.root.tree.children) == Some(xs)
  {
    hide *;
    var out := ParseAndPrint(doc, input, compact, xs);
    SecondIsFirst(input, out, compact, xs);
    var error := doc.Parse(out);
  }

  method ParseAndPrint(doc: XMLDocument, input: bytes, compact: bool, ghost xs: seq<Node>) returns (out: bytes)
    requires doc.Valid() && NoNul(input)
    requires NodesOf(Parse(input).text, Parse(input).nodes) == Some(xs) && CanReprint(xs)
    modifies doc, doc.Pools(), doc.root.repr
    ensures doc.Valid() && out == PrintDocument(Document(Parse(input).bom, SeenAll(xs)), compact)
    ensures forall m :: m in doc.root.repr ==> m == doc.root || fresh(m)
  {
    hide *;
    HasText(input, xs);
    var error := doc.Parse(input);
    var p := Print(doc, compact, xs);
    PoolsAre(doc);
    out := p.Text();
  }
}
