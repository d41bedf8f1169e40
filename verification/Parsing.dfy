/**
 The parser as a function of the text: `XMLDocument::Identify`, the `ParseDeep`
 family and `ParseAttributes`. Strings are ranges of the text, as in `StrPair`.
 */
module Parsing {
  import opened Bytes
  import Decoding

  /**
   The error ids of the library. `NullRead` is not one of them: it stands for a run that
   has no result, because it reads through a null pointer.
   */
  datatype XMLError =
    | NoError | EmptyDocument | ParsingError
    | ParsingElement | ParsingAttribute | ParsingText | ParsingCData
    | ParsingComment | ParsingDeclaration | ParsingUnknown | MismatchedElement
    | NullRead

  datatype Span = Span(start: nat, end: nat)

  function Slice(s: bytes, x: Span): bytes {
    if x.start <= x.end <= |s| then s[x.start..x.end] else []
  }

  datatype LeafKind = Declaration | Comment | CData | Unknown | PlainText

  /** What `Identify` sees: nothing, the inside of a leaf, or the inside of a tag. */
  datatype Identity = Nothing | Leaf(kind: LeafKind, next: nat) | Tag(next: nat)

  const XML_HEADER: bytes := [LT, 63]                                   // <?
  const COMMENT_HEADER: bytes := [LT, 33, DASH, DASH]                   // <!--
  const CDATA_HEADER: bytes := [LT, 33, 91, 67, 68, 65, 84, 65, 91]     // <![CDATA[
  const DTD_HEADER: bytes := [LT, 33]                                   // <!
  const ELEMENT_HEADER: bytes := [LT]                                   // <

  /** The terminator that ends a leaf. */
  function Terminator(kind: LeafKind): bytes {
    match kind
    case Declaration => [63, GT]
    case Comment => [DASH, DASH, GT]
    case CData => [93, 93, GT]
    case Unknown => [GT]
    case PlainText => [LT]
  }

  function LeafError(kind: LeafKind): XMLError {
    match kind
    case Declaration => ParsingDeclaration
    case Comment => ParsingComment
    case CData => ParsingCData
    case Unknown => ParsingUnknown
    case PlainText => ParsingText
  }

  /** The headers are tried in this order; text backs up over its white space. */
  function Identify(s: bytes, i: nat): (r: Identity)
    requires i <= |s|
    ensures r.Leaf? ==> i <= r.next <= |s|
    ensures r.Tag? ==> i < r.next <= |s|
    ensures r.Leaf? && r.kind != PlainText ==> i < r.next
  {
    var p := SkipSpace(s, i);
    if p == |s| then Nothing
    else if At(s, p, XML_HEADER) then Leaf(Declaration, p + 2)
    else if At(s, p, COMMENT_HEADER) then Leaf(Comment, p + 4)
    else if At(s, p, CDATA_HEADER) then Leaf(CData, p + 9)
    else if At(s, p, DTD_HEADER) then Leaf(Unknown, p + 2)
    else if At(s, p, ELEMENT_HEADER) then Tag(p + 1)
    else Leaf(PlainText, i)
  }

  // ------------------------------------------------------------ attributes

  datatype RawAttr = RawAttr(name: Span, value: Span)

  datatype AttrResult = AttrOk(attr: RawAttr, next: nat) | AttrFail

  /** `XMLAttribute::ParseDeep`. */
  function ParseAttr(s: bytes, i: nat): (r: AttrResult)
    requires i <= |s|
    ensures r.AttrOk? ==>
      var a := r.attr;
      i == a.name.start < a.name.end < a.value.start <= a.value.end < r.next <= |s|
  {
    match ParseName(s, i)
    case None => AttrFail
    case Some(e) =>
      var p := SkipSpace(s, e);
      if Peek(s, p) != EQ then AttrFail
      else
        var q := SkipSpace(s, p + 1);
        if Peek(s, q) != QUOTE && Peek(s, q) != APOS then AttrFail
        else
          match FindEnd(s, q + 1, [s[q]])
          case None => AttrFail
          case Some(v) => AttrOk(RawAttr(Span(i, e), Span(q + 1, v)), v + 1)
  }

  predicate HasAttr(s: bytes, attrs: seq<RawAttr>, name: Span) {
    exists k :: 0 <= k < |attrs| && Slice(s, attrs[k].name) == Slice(s, name)
  }

  /** The first of the attributes with the name, or their number. */
  function FirstNamed(s: bytes, attrs: seq<RawAttr>, name: Span): (k: nat)
    ensures k <= |attrs| && (k < |attrs| ==> Slice(s, attrs[k].name) == Slice(s, name))
    ensures forall j :: 0 <= j < k ==> Slice(s, attrs[j].name) != Slice(s, name)
    ensures k < |attrs| <==> HasAttr(s, attrs, name)
  {
    FirstFrom(s, attrs, name, 0)
  }

  function FirstFrom(s: bytes, attrs: seq<RawAttr>, name: Span, i: nat): (k: nat)
    requires i <= |attrs|
    ensures i <= k <= |attrs| && (k < |attrs| ==> Slice(s, attrs[k].name) == Slice(s, name))
    ensures forall j :: i <= j < k ==> Slice(s, attrs[j].name) != Slice(s, name)
    decreases |attrs| - i
  {
    if i == |attrs| || Slice(s, attrs[i].name) == Slice(s, name) then i else FirstFrom(s, attrs, name, i + 1)
  }

  lemma FirstNamedIs(s: bytes, attrs: seq<RawAttr>, name: Span, k: nat)
    requires k <= |attrs| && (k < |attrs| ==> Slice(s, attrs[k].name) == Slice(s, name))
    requires forall j :: 0 <= j < k ==> Slice(s, attrs[j].name) != Slice(s, name)
    ensures FirstNamed(s, attrs, name) == k
  {
  }

  /**
   A repeated name is found by `Attribute`, which reads the value of the attribute that
   has the name already. With a malformed numeric reference in that value `GetStr` goes
   on with a null pointer.
   */
  function RepeatError(s: bytes, attrs: seq<RawAttr>, name: Span): (e: XMLError)
    ensures e != NoError
  {
    var k := FirstNamed(s, attrs, name);
    if k < |attrs| && Decoding.Decode(Slice(s, attrs[k].value), Decoding.TEXT_FLAGS) == None then NullRead
    else ParsingAttribute
  }

  datatype AttrsResult =
    | AttrsOk(attrs: seq<RawAttr>, sealed: bool, next: nat)
    | AttrsFail(error: XMLError)

  /**
   `XMLElement::ParseAttributes`, with the attributes `seen` so far; `sealed` says that
   the tag ended in a slash. A repeated name is an error.
   */
  function ParseAttrs(s: bytes, i: nat, seen: seq<RawAttr>): (r: AttrsResult)
    requires i <= |s|
    ensures r.AttrsOk? ==> i < r.next <= |s| && seen <= r.attrs
    ensures r.AttrsFail? ==> r.error != NoError
    decreases |s| - i
  {
    var p := SkipSpace(s, i);
    if p == |s| then AttrsFail(ParsingElement)
    else if IsAlpha(s[p]) then
      match ParseAttr(s, p)
      case AttrFail => AttrsFail(ParsingAttribute)
      case AttrOk(a, next) =>
        if HasAttr(s, seen, a.name) then AttrsFail(RepeatError(s, seen, a.name))
        else ParseAttrs(s, next, seen + [a])
    else if s[p] == SLASH && Peek(s, p + 1) == GT then AttrsOk(seen, true, p + 2)
    else if s[p] == GT then AttrsOk(seen, false, p + 1)
    else AttrsFail(ParsingElement)
  }

  // ------------------------------------------------------------ tokens

  /** One header with what follows it, up to its end: a leaf or a single tag. */
  datatype Token =
    | LeafToken(kind: LeafKind, value: Span)
    | OpenTag(name: Span, attrs: seq<RawAttr>)
    | SealedTag(name: Span, attrs: seq<RawAttr>)
    | CloseTag(name: Span)

  datatype Lexeme = LexEnd | Lex(token: Token, next: nat) | LexFail(error: XMLError)

  /**
   The tag part of `XMLElement::ParseDeep`. A slash before the name makes a closing tag,
   unless the tag also ends in one: `closingType` is then overwritten with CLOSED.
   */
  function LexTag(s: bytes, i: nat): (r: Lexeme)
    requires i <= |s|
    ensures r.Lex? ==> i < r.next <= |s|
    ensures !r.LexEnd? && (r.LexFail? ==> r.error != NoError)
  {
    var k := SkipSpace(s, i);
    var closing := Peek(s, k) == SLASH;
    var n := if closing then k + 1 else k;
    match ParseName(s, n)
    case None => LexFail(ParsingError)
    case Some(e) =>
      match ParseAttrs(s, e, [])
      case AttrsFail(error) => LexFail(error)
      case AttrsOk(attrs, sealed, next) =>
        Lex(if sealed then SealedTag(Span(n, e), attrs)
            else if closing then CloseTag(Span(n, e))
            else OpenTag(Span(n, e), attrs), next)
  }

  /**
   `ParseDeep` of the leaf classes. Text steps back onto the `<` that ends it, and fails
   without an error of its own when that is the last byte.
   */
  function LexLeaf(s: bytes, kind: LeafKind, i: nat): (r: Lexeme)
    requires i <= |s|
    ensures r.Lex? ==> i <= r.next <= |s|
    ensures !r.LexEnd? && (r.LexFail? ==> r.error != NoError)
  {
    match FindEnd(s, i, Terminator(kind))
    case None => LexFail(LeafError(kind))
    case Some(e) =>
      if kind == PlainText then
        if e + 1 < |s| then Lex(LeafToken(kind, Span(i, e)), e) else LexFail(ParsingError)
      else
        Lex(LeafToken(kind, Span(i, e)), e + |Terminator(kind)|)
  }

  /** Every token moves the cursor: also text, which stops in front of its terminator. */
  function LexOne(s: bytes, i: nat): (r: Lexeme)
    requires i <= |s|
    ensures r.Lex? ==> i < r.next <= |s|
    ensures r.LexFail? ==> r.error != NoError
  {
    match Identify(s, i)
    case Nothing => LexEnd
    case Tag(next) => LexTag(s, next)
    case Leaf(kind, next) =>
      assert kind == PlainText ==> !At(s, SkipSpace(s, i), ELEMENT_HEADER);
      assert kind == PlainText && SkipSpace(s, i) == i ==> !At(s, i, Terminator(kind));
      assert kind == PlainText && i < SkipSpace(s, i) ==> s[i] != LT;
      assert kind == PlainText ==> !At(s, i, Terminator(kind));
      LexLeaf(s, kind, next)
  }

  // ------------------------------------------------------------ the tree

  datatype RawNode =
    | RawLeaf(kind: LeafKind, value: Span)
    | RawElement(name: Span, attrs: seq<RawAttr>, sealed: bool, children: seq<RawNode>)

  /** How `XMLNode::ParseDeep` leaves a level: the end of the text, a closing tag, an error. */
  datatype Finish = AtEnd | AtClose(name: Span, next: nat) | Failed(error: XMLError)

  datatype Level = Level(nodes: seq<RawNode>, finish: Finish)

  datatype One = OneEnd | OneNode(node: RawNode, next: nat) | OneClose(name: Span, next: nat) | OneFail(error: XMLError)

  /**
   One round of the loop of `XMLNode::ParseDeep`: the next node with its children, whose
   closing tag the child level has read, or the closing tag of the enclosing element.
   */
  function ParseOne(s: bytes, i: nat): (r: One)
    requires i <= |s|
    ensures r.OneNode? || r.OneClose? ==> i < r.next <= |s|
    ensures r.OneFail? ==> r.error != NoError
    decreases |s| - i, 0
  {
    match LexOne(s, i)
    case LexEnd => OneEnd
    case LexFail(error) => OneFail(error)
    case Lex(LeafToken(kind, value), next) => OneNode(RawLeaf(kind, value), next)
    case Lex(SealedTag(name, attrs), next) => OneNode(RawElement(name, attrs, true, []), next)
    case Lex(CloseTag(name), next) => OneClose(name, next)
    case Lex(OpenTag(name, attrs), next) =>
      if next == |s| then OneFail(MismatchedElement)
      else
        var level := ParseLevel(s, next);
        match level.finish
        case AtEnd => OneFail(ParsingError)
        case Failed(error) => OneFail(error)
        case AtClose(endTag, after) =>
          if Slice(s, endTag) == Slice(s, name)
          then OneNode(RawElement(name, attrs, false, level.nodes), after)
          else OneFail(MismatchedElement)
  }

  /** `XMLNode::ParseDeep`: nodes until the text ends, a closing tag comes or an error. */
  function ParseLevel(s: bytes, i: nat): (r: Level)
    requires i <= |s|
    ensures r.finish.AtClose? ==> i < r.finish.next <= |s|
    ensures r.finish.Failed? ==> r.finish.error != NoError
    decreases |s| - i, 1
  {
    match ParseOne(s, i)
    case OneEnd => Level([], AtEnd)
    case OneFail(error) => Level([], Failed(error))
    case OneClose(name, next) => Level([], AtClose(name, next))
    case OneNode(node, next) =>
      var rest := ParseLevel(s, next);
      Level([node] + rest.nodes, rest.finish)
  }

  datatype Parsed = Parsed(bom: bool, text: bytes, nodes: seq<RawNode>, error: XMLError)

  const BOM: bytes := [0xEF, 0xBB, 0xBF]

  /**
   `XMLDocument::Parse`: white space, then the byte order mark, then the nodes of the
   document, whose ranges refer to `text`. What was linked before an error stays.
   */
  function Parse(s: bytes): Parsed {
    var p := SkipSpace(s, 0);
    var bom := At(s, p, BOM);
    var text := if bom then s[p + 3..] else s[p..];
    if text == [] then Parsed(bom, text, [], EmptyDocument)
    else
      var level := ParseLevel(text, 0);
      Parsed(bom, text, level.nodes, if level.finish.Failed? then level.finish.error else NoError)
  }
}
