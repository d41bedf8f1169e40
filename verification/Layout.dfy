/**
 Where the printer breaks lines and how far it indents, read off the tree alone: a
 document is a row of tags, texts and line starts, and the compact output is the same row
 without the line starts.
 */
module Layout {
  import opened Bytes
  import opened Documents
  import opened Escaping
  import opened Parsing

  /**
   A tag, a comment, a declaration, an unknown or a CDATA section; a plain text; the start
   of a line at a depth; or the line feed behind an element at the top.
   */
  datatype Piece = Mark(out: bytes) | Run(out: bytes) | Line(depth: nat) | Feed

  function Pad(depth: nat): bytes {
    seq(4 * depth, _ => 32)
  }

  function WritePiece(p: Piece, compact: bool): bytes {
    match p
    case Mark(out) => out
    case Run(out) => out
    case Line(depth) => if compact then [] else [10] + Pad(depth)
    case Feed => if compact then [] else [10]
  }

  function WritePieces(ps: seq<Piece>, compact: bool): bytes {
    if ps == [] then [] else WritePiece(ps[0], compact) + WritePieces(ps[1..], compact)
  }

  /** The pieces, the depth of the innermost element with a text, and whether nothing was printed before. */
  datatype Laid = Laid(pieces: seq<Piece>, text: int, first: bool)

  function AttrMark(attrs: seq<Attr>): bytes {
    if attrs == [] then []
    else [32] + attrs[0].name + [61, 34] + Escape(attrs[0].value, false) + [34] + AttrMark(attrs[1..])
  }

  function OpenMark(name: bytes, attrs: seq<Attr>, empty: bool): Piece {
    Mark([60] + name + AttrMark(attrs) + if empty then [47, 62] else [62])
  }

  function CloseMark(name: bytes): Piece {
    Mark([60, 47] + name + [62])
  }

  function LeafMark(kind: LeafKind, v: bytes): Piece {
    match kind
    case Declaration => Mark([60, 63] + v + [63, 62])
    case Comment => Mark([60, 33, 45, 45] + v + [45, 45, 62])
    case CData => Mark([60, 33, 91, 67, 68, 65, 84, 65, 91] + v + [93, 93, 62])
    case Unknown => Mark([60, 33] + v + [62])
    case PlainText => Run(Escape(v, true))
  }

  /** A line starts where no text of an element around is open, but not at the very start. */
  function LineAt(depth: nat, text: int, first: bool): seq<Piece> {
    if text < 0 && !first then [Line(depth)] else []
  }

  /** A node at the depth, while the innermost element with a text is at the depth `text`. */
  function LayNode(x: Node, depth: nat, text: int, first: bool): Laid {
    match x
    case LeafNode(kind, v) =>
      if kind == PlainText || kind == CData then Laid([LeafMark(kind, v)], depth - 1, first)
      else Laid(LineAt(depth, text, first) + [LeafMark(kind, v)], text, false)
    case Element(name, attrs, children) =>
      var kids := LayNodes(children, depth + 1, text, false);
      var end := if children == [] then [] else LineAt(depth, kids.text, false) + [CloseMark(name)];
      Laid(LineAt(depth, text, first) + [OpenMark(name, attrs, children == [])] + kids.pieces + end
           + (if depth == 0 then [Feed] else []),
           if kids.text == depth then -1 else kids.text, false)
  }

  function LayNodes(xs: seq<Node>, depth: nat, text: int, first: bool): Laid {
    if xs == [] then Laid([], text, first)
    else
      var head := LayNode(xs[0], depth, text, first);
      var tail := LayNodes(xs[1..], depth, head.text, head.first);
      Laid(head.pieces + tail.pieces, tail.text, tail.first)
  }

  // ------------------------------------------------------------ the printer does that

  lemma {:induction false} WriteConcat(a: seq<Piece>, b: seq<Piece>, compact: bool)
    ensures WritePieces(a + b, compact) == WritePieces(a, compact) + WritePieces(b, compact)
  {
    if a == [] {
      assert a + b == b;
    } else {
      assert (a + b)[1..] == a[1..] + b;
      WriteConcat(a[1..], b, compact);
      ConcatAssoc(WritePiece(a[0], compact), WritePieces(a[1..], compact), WritePieces(b, compact));
    }
  }

  lemma WriteOne(p: Piece, compact: bool)
    ensures WritePieces([p], compact) == WritePiece(p, compact)
  {
    ConcatEmpty(WritePiece(p, compact));
  }

  lemma {:induction false} SpacesArePad(depth: nat)
    ensures Spaces(depth) == Pad(depth)
  {
    if depth > 0 {
      SpacesArePad(depth - 1);
    }
  }

  lemma LineIsNewLine(depth: nat, text: int, first: bool, st: PState, compact: bool)
    requires st.depth == depth && st.textDepth == text && st.first == first
    ensures WritePieces(LineAt(depth, text, first), compact) == Indent(st, compact)
  {
    SpacesArePad(depth);
    WriteOne(Line(depth), compact);
  }

  lemma {:induction false} AttrsAreMark(attrs: seq<Attr>)
    ensures AttrsOut(attrs) == AttrMark(attrs)
  {
    hide Escape;
    if attrs != [] {
      AttrsAreMark(attrs[1..]);
    }
  }

  lemma LeafIsMark(kind: LeafKind, v: bytes)
    ensures WritePiece(LeafMark(kind, v), true) == WritePiece(LeafMark(kind, v), false)
         == if kind == PlainText then Escape(v, true) else Header(kind) + v + Terminator(kind)
  {
  }

  lemma LeafLaid(kind: LeafKind, v: bytes, st: PState, compact: bool)
    requires st.depth >= 0
    ensures var l := LayNode(LeafNode(kind, v), st.depth, st.textDepth, st.first);
            LeafOut(kind, v, st, compact)
            == Printed(Seal(st) + WritePieces(l.pieces, compact), PState(false, l.first, st.depth, l.text))
  {
    hide Escape, LeafMark, WritePieces, WritePiece, Header, Terminator;
    var m := LeafMark(kind, v);
    LeafIsMark(kind, v);
    WriteOne(m, compact);
    if kind != PlainText && kind != CData {
      LineIsNewLine(st.depth, st.textDepth, st.first, st, compact);
      WriteConcat(LineAt(st.depth, st.textDepth, st.first), [m], compact);
      ConcatAssoc(Seal(st), Indent(st, compact), WritePiece(m, compact));
    }
  }

  /** The printer's state machine prints a node as it is laid out. */
  lemma {:induction false} NodeLaid(x: Node, st: PState, compact: bool)
    requires st.depth >= 0
    ensures var l := LayNode(x, st.depth, st.textDepth, st.first);
            PrintNode(x, st, compact)
            == Printed(Seal(st) + WritePieces(l.pieces, compact), PState(false, l.first, st.depth, l.text))
    decreases x, 0
  {
    hide LeafOut, WritePieces;
    match x
    case LeafNode(kind, v) => LeafLaid(kind, v, st, compact);
    case Element(name, attrs, children) =>
      var n: nat := st.depth;
      var st1 := PState(true, false, n + 1, st.textDepth);
      NodesLaid(children, st1, compact);
      ElementLaid(x, n, st, st1, compact);
  }

  lemma {:induction false} NodesLaid(xs: seq<Node>, st: PState, compact: bool)
    requires st.depth >= 0
    ensures var l := LayNodes(xs, st.depth, st.textDepth, st.first);
            PrintNodes(xs, st, compact)
            == if xs == [] then Printed([], st)
               else Printed(Seal(st) + WritePieces(l.pieces, compact), PState(false, l.first, st.depth, l.text))
    decreases xs, 1
  {
    hide PrintNode, LayNode, WritePieces;
    if xs != [] {
      var head := LayNode(xs[0], st.depth, st.textDepth, st.first);
      var st1 := PState(false, head.first, st.depth, head.text);
      NodeLaid(xs[0], st, compact);
      NodesLaid(xs[1..], st1, compact);
      var tail := LayNodes(xs[1..], st.depth, head.text, head.first);
      WriteConcat(head.pieces, tail.pieces, compact);
      ConcatAssoc(Seal(st), WritePieces(head.pieces, compact), WritePieces(tail.pieces, compact));
      NoPieces(compact);
      ConcatEmpty(head.pieces);
      ConcatEmpty(Seal(st) + WritePieces(head.pieces, compact));
    }
  }

  lemma NoPieces(compact: bool)
    ensures WritePieces([], compact) == []
  {
  }

  /** The parts of an element put together. */
  lemma ElementLaid(x: Node, n: nat, st: PState, st1: PState, compact: bool)
    requires x.Element? && n == st.depth && st1 == PState(true, false, n + 1, st.textDepth)
    requires var l := LayNodes(x.children, n + 1, st.textDepth, false);
             PrintNodes(x.children, st1, compact)
             == if x.children == [] then Printed([], st1)
                else Printed([62] + WritePieces(l.pieces, compact), PState(false, l.first, n + 1, l.text))
    ensures var l := LayNode(x, n, st.textDepth, st.first);
            PrintNode(x, st, compact)
            == Printed(Seal(st) + WritePieces(l.pieces, compact), PState(false, l.first, n, l.text))
  {
    hide PrintNodes, LayNodes, WritePieces, AttrsOut, AttrMark;
    var l := LayNodes(x.children, n + 1, st.textDepth, false);
    FirstStays(x.children, n + 1, st.textDepth);
    AttrsAreMark(x.attrs);
    WritePartsOf(x, n, st, l, compact);
    var ind, a, k := Indent(st, compact), AttrMark(x.attrs), WritePieces(l.pieces, compact);
    var open := OpenOut(x.name, st, compact);
    assert open == Printed(Seal(st) + ind + [60] + x.name, st1);
    if x.children == [] {
      NoChildrenLaid(x, n, st.textDepth, l);
      assert CloseOut(x.name, st1, compact).out == [47, 62] + EndLine(n, compact);
      EmptyJoined(Seal(st), ind, x.name, a, EndLine(n, compact));
    } else {
      FullJoined(Seal(st), ind, x.name, a, k, if l.text < 0 && !compact then NewLine(n) else [], EndLine(n, compact));
    }
  }

  lemma {:induction false} FirstStays(xs: seq<Node>, n: nat, text: int)
    ensures !LayNodes(xs, n, text, false).first
  {
    if xs != [] {
      FirstStays(xs[1..], n, LayNode(xs[0], n, text, false).text);
    }
  }

  /** What the pieces of an element write. */
  lemma WritePartsOf(x: Node, n: nat, st: PState, l: Laid, compact: bool)
    requires x.Element? && n == st.depth && l == LayNodes(x.children, n + 1, st.textDepth, false)
    ensures var ind, a, k := Indent(st, compact), AttrMark(x.attrs), WritePieces(l.pieces, compact);
            WritePieces(LayNode(x, n, st.textDepth, st.first).pieces, compact)
            == if x.children == [] then ind + ([60] + x.name + a + [47, 62]) + EndLine(n, compact)
               else ind + ([60] + x.name + a + [62]) + k
                    + ((if l.text < 0 && !compact then NewLine(n) else []) + ([60, 47] + x.name + [62])) + EndLine(n, compact)
  {
    hide LayNodes, WritePieces, AttrMark, Indent;
    var line, open := LineAt(n, st.textDepth, st.first), OpenMark(x.name, x.attrs, x.children == []);
    LineIsNewLine(n, st.textDepth, st.first, st, compact);
    WriteOne(open, compact);
    WriteConcat(line, [open], compact);
    EndIsLaid(x.name, n, l.text, compact);
    FeedIsEndLine(n, compact);
    NoPieces(compact);
    var end := if x.children == [] then [] else LineAt(n, l.text, false) + [CloseMark(x.name)];
    var feed: seq<Piece> := if n == 0 then [Feed] else [];
    WriteConcat(line + [open], l.pieces, compact);
    WriteConcat(line + [open] + l.pieces, end, compact);
    WriteConcat(line + [open] + l.pieces + end, feed, compact);
    if x.children == [] {
      NoChildrenLaid(x, n, st.textDepth, l);
      ConcatEmpty(Indent(st, compact) + ([60] + x.name + AttrMark(x.attrs) + [47, 62]));
    }
  }

  lemma NoChildrenLaid(x: Node, n: nat, text: int, l: Laid)
    requires x.Element? && x.children == [] && l == LayNodes(x.children, n + 1, text, false)
    ensures l == Laid([], text, false)
  {
  }

  lemma EndIsLaid(name: bytes, n: nat, text: int, compact: bool)
    ensures WritePieces(LineAt(n, text, false) + [CloseMark(name)], compact)
         == (if text < 0 && !compact then NewLine(n) else []) + ([60, 47] + name + [62])
  {
    hide WritePieces;
    SpacesArePad(n);
    WriteOne(Line(n), compact);
    NoPieces(compact);
    WriteOne(CloseMark(name), compact);
    WriteConcat(LineAt(n, text, false), [CloseMark(name)], compact);
  }

  lemma FeedIsEndLine(n: nat, compact: bool)
    ensures WritePieces(if n == 0 then [Feed] else [], compact) == EndLine(n, compact)
  {
    WriteOne(Feed, compact);
  }

  lemma EmptyJoined(seal: bytes, ind: bytes, name: bytes, a: bytes, end: bytes)
    ensures seal + ind + [60] + name + a + [] + ([47, 62] + end) == seal + (ind + ([60] + name + a + [47, 62]) + end)
  {
  }

  lemma FullJoined(seal: bytes, ind: bytes, name: bytes, a: bytes, k: bytes, ci: bytes, end: bytes)
    ensures seal + ind + [60] + name + a + ([62] + k) + (ci + [60, 47] + name + [62] + end)
         == seal + (ind + ([60] + name + a + [62]) + k + (ci + ([60, 47] + name + [62])) + end)
  {
  }

  // ------------------------------------------------------------ whole documents

  /** The pieces of a document; the byte order mark stands in front of them. */
  function LayDocument(d: Document): seq<Piece> {
    LayNodes(d.nodes, 0, -1, true).pieces
  }

  /** The printed document is the row of its pieces; compact output leaves out the line starts and nothing else. */
  lemma DocumentIsLaid(d: Document, compact: bool)
    ensures PrintDocument(d, compact) == (if d.bom then [239, 187, 191] else []) + WritePieces(LayDocument(d), compact)
  {
    hide PrintNodes, LayNodes, WritePieces;
    NodesLaid(d.nodes, START, compact);
    NothingPrinted(compact);
    ConcatEmpty(WritePieces(LayDocument(d), compact));
  }

  lemma NothingPrinted(compact: bool)
    ensures LayNodes([], 0, -1, true) == Laid([], -1, true) && WritePieces([], compact) == []
  {
  }

  // ------------------------------------------------------------ no line start beside a text

  /**
   Every line start stands in front of a tag or leaf; behind a text comes another text or
   one of these; and a text does not come behind a line feed.
   */
  ghost predicate Tidy(ps: seq<Piece>) {
    forall k :: 0 <= k < |ps| ==> TidyAt(ps, k)
  }

  predicate TidyAt(ps: seq<Piece>, k: nat)
    requires k < |ps|
  {
    && (ps[k].Line? ==> k + 1 < |ps| && ps[k + 1].Mark?)
    && (ps[k].Run? && k + 1 < |ps| ==> ps[k + 1].Mark? || ps[k + 1].Run?)
    && (ps[k].Feed? && k + 1 < |ps| ==> !ps[k + 1].Run?)
  }

  /** What may follow a row: no line start behind a text, no text behind a line feed. */
  predicate Joins(a: seq<Piece>, b: seq<Piece>) {
    a != [] && b != [] ==>
      && (a[|a| - 1].Run? ==> b[0].Mark? || b[0].Run?)
      && (a[|a| - 1].Feed? ==> !b[0].Run?)
  }

  lemma TidyJoin(a: seq<Piece>, b: seq<Piece>)
    requires Tidy(a) && Tidy(b) && Joins(a, b)
    ensures Tidy(a + b)
  {
    forall k | 0 <= k < |a + b| ensures TidyAt(a + b, k) {
      if k < |a| {
        assert TidyAt(a, k);
      } else {
        assert TidyAt(b, k - |a|);
      }
    }
  }

  /** The row behind a place where a text is open (`text >= 0`) does not begin with a line start. */
  ghost predicate LaidOk(l: Laid, depth: nat, text: int) {
    && Tidy(l.pieces)
    && (text >= 0 && l.pieces != [] ==> l.pieces[0].Mark? || l.pieces[0].Run?)
    && (l.pieces != [] && l.pieces[|l.pieces| - 1].Run? ==> l.text >= 0 || depth == 0)
    && (l.pieces != [] && l.pieces[|l.pieces| - 1].Feed? ==> depth == 0)
    && (l.pieces == [] ==> l.text == text)
  }

  lemma {:induction false} NodeTidy(x: Node, depth: nat, text: int, first: bool)
    requires depth == 0 ==> !IsPlain(x)
    ensures LaidOk(LayNode(x, depth, text, first), depth, text)
    ensures var ps := LayNode(x, depth, text, first).pieces;
            ps != [] && (depth == 0 ==> !ps[0].Run? && !ps[|ps| - 1].Run?)
    decreases x, 0
  {
    hide OpenMark, CloseMark;
    match x
    case LeafNode(kind, v) => LeafTidy(kind, v, depth, text, first);
    case Element(name, attrs, children) =>
      NodesTidy(children, depth + 1, text, false);
      ElementTidy(x, depth, text, first);
  }

  lemma LeafTidy(kind: LeafKind, v: bytes, depth: nat, text: int, first: bool)
    requires depth == 0 ==> kind != PlainText
    ensures LaidOk(LayNode(LeafNode(kind, v), depth, text, first), depth, text)
    ensures var ps := LayNode(LeafNode(kind, v), depth, text, first).pieces;
            ps != [] && (depth == 0 ==> !ps[0].Run? && !ps[|ps| - 1].Run?)
  {
    hide Escape;
  }

  lemma MarksTidy(line: seq<Piece>, m: Piece)
    requires m.Mark? && (line == [] || exists n: nat :: line == [Line(n)])
    ensures Tidy(line + [m]) && (line + [m])[|line + [m]| - 1] == m
  {
  }

  lemma ElementTidy(x: Node, depth: nat, text: int, first: bool)
    requires x.Element? && LaidOk(LayNodes(x.children, depth + 1, text, false), depth + 1, text)
    ensures LaidOk(LayNode(x, depth, text, first), depth, text)
    ensures var ps := LayNode(x, depth, text, first).pieces;
            ps != [] && (depth == 0 ==> !ps[0].Run? && !ps[|ps| - 1].Run?)
  {
    hide LayNodes, Tidy;
    var open, close := OpenMark(x.name, x.attrs, x.children == []), CloseMark(x.name);
    assert open.Mark? && close.Mark?;
    hide OpenMark, CloseMark;
    var kids := LayNodes(x.children, depth + 1, text, false);
    var line, line' := LineAt(depth, text, first), LineAt(depth, kids.text, false);
    var end := if x.children == [] then [] else line' + [close];
    MarksTidy(line, open);
    MarksTidy(line', close);
    NothingTidy();
    if x.children == [] {
      NoChildrenLaid(x, depth, text, kids);
    }
    RowTidy(line, open, kids.pieces, end, if depth == 0 then [Feed] else []);
  }

  /** The parts of an element form a tidy row. */
  lemma RowTidy(line: seq<Piece>, open: Piece, kids: seq<Piece>, end: seq<Piece>, feed: seq<Piece>)
    requires open.Mark? && Tidy(line + [open]) && Tidy(kids) && Tidy(end) && Tidy(feed)
    requires kids != [] ==> end != [] && !kids[|kids| - 1].Feed? && (kids[|kids| - 1].Run? ==> end[0].Mark?)
    requires end != [] ==> end[|end| - 1].Mark?
    ensures var ps := line + [open] + kids + end + feed;
            && Tidy(ps) && ps != [] && ps[0] == (if line == [] then open else line[0])
            && (if feed == [] then ps[|ps| - 1].Mark? else ps[|ps| - 1] == feed[|feed| - 1])
  {
    hide *;
    var a := line + [open];
    var b := a + kids;
    var c := b + end;
    LastOf(line, [open]);
    LastOf(a, kids);
    LastOf(b, end);
    LastOf(c, feed);
    EndsInMark(a, kids);
    TidyJoin(a, kids);
    JoinsEnd(b, kids, end);
    TidyJoin(b, end);
    EndsInMark(c, feed);
    TidyJoin(c, feed);
  }

  lemma LastOf(a: seq<Piece>, b: seq<Piece>)
    ensures b != [] ==> a + b != [] && (a + b)[|a + b| - 1] == b[|b| - 1]
    ensures b == [] ==> a + b == a
    ensures a != [] ==> a + b != [] && (a + b)[0] == a[0]
    ensures a == [] ==> a + b == b
  {
  }

  lemma EndsInMark(a: seq<Piece>, b: seq<Piece>)
    requires a != [] && a[|a| - 1].Mark?
    ensures Joins(a, b)
  {
  }

  lemma JoinsEnd(b: seq<Piece>, kids: seq<Piece>, end: seq<Piece>)
    requires b != [] && (kids != [] ==> b[|b| - 1] == kids[|kids| - 1]) && (kids == [] ==> b[|b| - 1].Mark?)
    requires kids != [] ==> end != [] && !kids[|kids| - 1].Feed? && (kids[|kids| - 1].Run? ==> end[0].Mark?)
    ensures Joins(b, end)
  {
  }

  lemma NothingTidy()
    ensures Tidy([]) && Tidy([Feed])
  {
  }

  lemma {:induction false} NodesTidy(xs: seq<Node>, depth: nat, text: int, first: bool)
    requires depth == 0 ==> forall k :: 0 <= k < |xs| ==> !IsPlain(xs[k])
    ensures LaidOk(LayNodes(xs, depth, text, first), depth, text)
    ensures var ps := LayNodes(xs, depth, text, first).pieces;
            depth == 0 && ps != [] ==> !ps[0].Run?
    decreases xs, 1
  {
    hide LayNode, Tidy;
    NothingTidy();
    if xs != [] {
      var head := LayNode(xs[0], depth, text, first);
      NodeTidy(xs[0], depth, text, first);
      NodesTidy(xs[1..], depth, head.text, head.first);
      TidyJoin(head.pieces, LayNodes(xs[1..], depth, head.text, head.first).pieces);
    }
  }

  /** In a printable document no line feed and no indentation stands beside a text. */
  lemma TextsStandAlone(d: Document)
    requires PrintableDocument(d)
    ensures var ps := LayDocument(d);
            forall k :: 0 <= k < |ps| && ps[k].Run? ==>
              && (k > 0 ==> ps[k - 1].Mark? || ps[k - 1].Run?)
              && (k + 1 < |ps| ==> ps[k + 1].Mark? || ps[k + 1].Run?)
  {
    hide LayNodes;
    NodesTidy(d.nodes, 0, -1, true);
    var ps := LayDocument(d);
    forall k | 0 <= k < |ps| && ps[k].Run?
      ensures k > 0 ==> ps[k - 1].Mark? || ps[k - 1].Run?
      ensures k + 1 < |ps| ==> ps[k + 1].Mark? || ps[k + 1].Run?
    {
      assert TidyAt(ps, k);
      if k > 0 {
        assert TidyAt(ps, k - 1);
      }
    }
  }

  // ------------------------------------------------------------ documents without text

  ghost predicate TextFree(x: Node) {
    match x
    case LeafNode(kind, _) => kind != PlainText && kind != CData
    case Element(_, _, children) => forall k :: 0 <= k < |children| ==> TextFree(children[k])
  }

  datatype OneLine = OneLine(depth: nat, mark: bytes)

  /** One line for each leaf and each tag, at its depth. */
  function LinesOf(x: Node, depth: nat): seq<OneLine> {
    match x
    case LeafNode(kind, v) => [OneLine(depth, LeafMark(kind, v).out)]
    case Element(name, attrs, children) =>
      [OneLine(depth, OpenMark(name, attrs, children == []).out)] + LinesOfAll(children, depth + 1)
      + if children == [] then [] else [OneLine(depth, CloseMark(name).out)]
  }

  function LinesOfAll(xs: seq<Node>, depth: nat): seq<OneLine> {
    if xs == [] then [] else LinesOf(xs[0], depth) + LinesOfAll(xs[1..], depth)
  }

  /** A line feed, four spaces for each level, and the tag or leaf. */
  function WriteLines(ls: seq<OneLine>): bytes {
    if ls == [] then [] else [10] + Pad(ls[0].depth) + ls[0].mark + WriteLines(ls[1..])
  }

  lemma {:induction false} LinesConcat(a: seq<OneLine>, b: seq<OneLine>)
    ensures WriteLines(a + b) == WriteLines(a) + WriteLines(b)
  {
    if a == [] {
      assert a + b == b;
    } else {
      assert (a + b)[1..] == a[1..] + b;
      LinesConcat(a[1..], b);
      ConcatAssoc([10] + Pad(a[0].depth) + a[0].mark, WriteLines(a[1..]), WriteLines(b));
    }
  }

  lemma OneLineWritten(depth: nat, m: Piece)
    requires m.Mark?
    ensures WriteLines([OneLine(depth, m.out)]) == WritePieces([Line(depth), m], false)
  {
    assert [Line(depth), m][1..] == [m];
    WriteOne(m, false);
    ConcatEmpty([10] + Pad(depth) + m.out);
    ConcatEmpty(m.out);
  }

  /** Inside an element, a node without text is written as its lines. */
  lemma {:induction false} NodeInLines(x: Node, depth: nat)
    requires TextFree(x) && depth > 0
    ensures LayNode(x, depth, -1, false).text == -1 && !LayNode(x, depth, -1, false).first
    ensures WritePieces(LayNode(x, depth, -1, false).pieces, false) == WriteLines(LinesOf(x, depth))
    decreases x, 0
  {
    match x
    case LeafNode(kind, v) => LeafInLine(kind, v, depth);
    case Element(name, attrs, children) =>
      NodesInLines(children, depth + 1);
      ElementInLines(x, depth, false);
      hide WritePieces, WriteLines, LinesOf, LayNode;
      ConcatEmpty(WriteLines(LinesOf(x, depth)));
  }

  lemma LeafInLine(kind: LeafKind, v: bytes, depth: nat)
    requires kind != PlainText && kind != CData
    ensures var x := LeafNode(kind, v);
            && LayNode(x, depth, -1, false) == Laid([Line(depth), LeafMark(kind, v)], -1, false)
            && WritePieces([Line(depth), LeafMark(kind, v)], false) == WriteLines(LinesOf(x, depth))
            && LayNode(x, depth, -1, true) == Laid([LeafMark(kind, v)], -1, false)
  {
    hide WritePieces, WriteLines;
    OneLineWritten(depth, LeafMark(kind, v));
    assert LineAt(depth, -1, false) + [LeafMark(kind, v)] == [Line(depth), LeafMark(kind, v)];
    assert LineAt(depth, -1, true) + [LeafMark(kind, v)] == [LeafMark(kind, v)];
  }

  /** The lines of an element; the first mark of the document has no line start. */
  lemma ElementInLines(x: Node, depth: nat, first: bool)
    requires x.Element? && var l := LayNodes(x.children, depth + 1, -1, false);
             l.text == -1 && WritePieces(l.pieces, false) == WriteLines(LinesOfAll(x.children, depth + 1))
    ensures LayNode(x, depth, -1, first).text == -1 && !LayNode(x, depth, -1, first).first
    ensures var feed: bytes := if depth == 0 then [10] else [];
            var w := WritePieces(LayNode(x, depth, -1, first).pieces, false);
            if first then [10] + Pad(depth) + w == WriteLines(LinesOf(x, depth)) + feed
            else w == WriteLines(LinesOf(x, depth)) + feed
  {
    var kids := LayNodes(x.children, depth + 1, -1, false);
    var open, close := OpenMark(x.name, x.attrs, x.children == []), CloseMark(x.name);
    var inner := LinesOfAll(x.children, depth + 1);
    PiecesOfElement(x, depth, first, kids, open, close);
    LinesOfElement(x, depth, open, close, inner);
    hide *;
    LinesJoined(Pad(depth), open.out, WriteLines(inner), WriteEnd(x, depth, close), if depth == 0 then [10] else []);
  }

  /** The end tag on its line, if there is one. */
  function WriteEnd(x: Node, depth: nat, close: Piece): bytes
    requires x.Element? && close.Mark?
  {
    if x.children == [] then [] else [10] + Pad(depth) + close.out
  }

  lemma PiecesOfElement(x: Node, depth: nat, first: bool, kids: Laid, open: Piece, close: Piece)
    requires x.Element? && kids == LayNodes(x.children, depth + 1, -1, false) && kids.text == -1
    requires open == OpenMark(x.name, x.attrs, x.children == []) && close == CloseMark(x.name)
    ensures open.Mark? && close.Mark?
    ensures LayNode(x, depth, -1, first).text == -1 && !LayNode(x, depth, -1, first).first
    ensures WritePieces(LayNode(x, depth, -1, first).pieces, false)
         == (if first then [] else [10] + Pad(depth)) + open.out + WritePieces(kids.pieces, false) + WriteEnd(x, depth, close)
            + (if depth == 0 then [10] else [])
  {
    hide WritePieces, LayNodes, AttrMark;
    var line, line' := LineAt(depth, -1, first), LineAt(depth, -1, false);
    var end := if x.children == [] then [] else line' + [close];
    var feed: seq<Piece> := if depth == 0 then [Feed] else [];
    NoPieces(false);
    WriteOne(Line(depth), false);
    WriteOne(open, false);
    WriteOne(close, false);
    WriteOne(Feed, false);
    WriteConcat(line', [close], false);
    WriteConcat(line, [open], false);
    WriteConcat(line + [open], kids.pieces, false);
    WriteConcat(line + [open] + kids.pieces, end, false);
    WriteConcat(line + [open] + kids.pieces + end, feed, false);
  }

  lemma LinesOfElement(x: Node, depth: nat, open: Piece, close: Piece, inner: seq<OneLine>)
    requires x.Element? && inner == LinesOfAll(x.children, depth + 1) && open.Mark? && close.Mark?
    requires open == OpenMark(x.name, x.attrs, x.children == []) && close == CloseMark(x.name)
    ensures WriteLines(LinesOf(x, depth)) == [10] + Pad(depth) + open.out + WriteLines(inner) + WriteEnd(x, depth, close)
  {
    hide WriteLines, LinesOfAll, OpenMark, CloseMark, WritePieces;
    var a, c := [OneLine(depth, open.out)], if x.children == [] then [] else [OneLine(depth, close.out)];
    OneWritten(OneLine(depth, open.out));
    OneWritten(OneLine(depth, close.out));
    LinesConcat(a, inner);
    LinesConcat(a + inner, c);
    NoLines();
    ConcatEmpty(WriteLines(a + inner));
  }

  lemma OneWritten(l: OneLine)
    ensures WriteLines([l]) == [10] + Pad(l.depth) + l.mark
  {
    ConcatEmpty([10] + Pad(l.depth) + l.mark);
  }

  lemma NoLines()
    ensures WriteLines([]) == []
  {
  }

  lemma LinesJoined(pad: bytes, open: bytes, inner: bytes, end: bytes, feed: bytes)
    ensures [10] + pad + ([] + open + inner + end + feed) == ([10] + pad + open + inner + end) + feed
    ensures ([10] + pad) + open + inner + end + feed == ([10] + pad + open + inner + end) + feed
  {
  }

  lemma {:induction false} NodesInLines(xs: seq<Node>, depth: nat)
    requires depth > 0 && forall k :: 0 <= k < |xs| ==> TextFree(xs[k])
    ensures LayNodes(xs, depth, -1, false).text == -1 && !LayNodes(xs, depth, -1, false).first
    ensures WritePieces(LayNodes(xs, depth, -1, false).pieces, false) == WriteLines(LinesOfAll(xs, depth))
    decreases xs, 1
  {
    hide LayNode, LinesOf;
    if xs != [] {
      NodeInLines(xs[0], depth);
      NodesInLines(xs[1..], depth);
      hide WritePieces, WriteLines;
      WriteConcat(LayNode(xs[0], depth, -1, false).pieces, LayNodes(xs[1..], depth, -1, false).pieces, false);
      LinesConcat(LinesOf(xs[0], depth), LinesOfAll(xs[1..], depth));
    }
  }

  /** The nodes at the top: no line feed in front of the first, and one behind every element. */
  function TopLines(xs: seq<Node>, first: bool): bytes {
    if xs == [] then []
    else
      var lines := WriteLines(LinesOf(xs[0], 0));
      (if first && lines != [] then lines[1..] else lines) + (if xs[0].Element? then [10] else []) + TopLines(xs[1..], false)
  }

  lemma TopNode(x: Node, first: bool)
    requires TextFree(x)
    ensures LayNode(x, 0, -1, first).text == -1 && !LayNode(x, 0, -1, first).first
    ensures var lines := WriteLines(LinesOf(x, 0));
            && lines != []
            && WritePieces(LayNode(x, 0, -1, first).pieces, false)
               == (if first then lines[1..] else lines) + if x.Element? then [10] else []
  {
    match x
    case LeafNode(kind, v) =>
      LeafInLine(kind, v, 0);
      hide WritePieces, WriteLines;
      var m := LeafMark(kind, v);
      OneWritten(OneLine(0, m.out));
      WriteOne(m, false);
      PadNothing(m.out);
      ConcatEmpty(m.out);
      ConcatEmpty(WriteLines(LinesOf(x, 0)));
    case Element(name, attrs, children) =>
      NodesInLines(children, 1);
      ElementInLines(x, 0, first);
      hide WritePieces, LayNode;
      LinesBegin(x);
      var w := WritePieces(LayNode(x, 0, -1, first).pieces, false);
      PadNothing(w);
      if first {
        DropFirst(w, WriteLines(LinesOf(x, 0)), [10]);
      }
  }

  lemma PadNothing(w: bytes)
    ensures [10] + Pad(0) + w == [10] + w
  {
  }

  lemma LinesBegin(x: Node)
    ensures x.Element? ==> WriteLines(LinesOf(x, 0)) != []
  {
  }

  lemma DropFirst(w: bytes, lines: bytes, feed: bytes)
    requires [10] + w == lines + feed && lines != []
    ensures w == lines[1..] + feed
  {
    assert ([10] + w)[1..] == (lines + feed)[1..];
  }

  lemma {:induction false} NodesAtTop(xs: seq<Node>, first: bool)
    requires forall k :: 0 <= k < |xs| ==> TextFree(xs[k])
    ensures WritePieces(LayNodes(xs, 0, -1, first).pieces, false) == TopLines(xs, first)
    decreases |xs|
  {
    hide WritePieces, WriteLines, LayNode, LinesOf, TextFree;
    NoPieces(false);
    if xs != [] {
      TopNode(xs[0], first);
      NodesAtTop(xs[1..], false);
      WriteConcat(LayNode(xs[0], 0, -1, first).pieces, LayNodes(xs[1..], 0, -1, false).pieces, false);
    }
  }

  /**
   A document without text is printed with one line for each tag and leaf, four spaces to
   a level.
   */
  lemma PrettyLines(d: Document)
    requires forall k :: 0 <= k < |d.nodes| ==> TextFree(d.nodes[k])
    ensures PrintDocument(d, false) == (if d.bom then [239, 187, 191] else []) + TopLines(d.nodes, true)
  {
    hide PrintDocument, WritePieces, LayNodes, TopLines, TextFree;
    DocumentIsLaid(d, false);
    NodesAtTop(d.nodes, true);
  }
}
