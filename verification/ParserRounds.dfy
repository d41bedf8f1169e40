/**
 The rounds of the loops of the parser, as single unfoldings of the functions of `Parsing`.
 */
module ParserRounds {
  import opened Bytes
  import opened Parsing

  /** The first position at which a string behind `p` can begin: a `<` belongs to no string. */
  ghost function Floor(s: bytes, p: nat): nat {
    if Peek(s, p) == LT then p + 1 else p
  }

  /** One round of the loop of `ParseAttributes`, on the text. */
  lemma AttrsRound(s: bytes, p: nat, q: nat, seen: seq<RawAttr>)
    requires p <= |s| && q == SkipSpace(s, p)
    ensures p <= q <= |s|
    ensures q == |s| ==> ParseAttrs(s, p, seen) == AttrsFail(ParsingElement)
    ensures q < |s| && IsAlpha(s[q]) ==> ParseAttrs(s, p, seen) == AfterAttr(s, ParseAttr(s, q), seen)
    ensures q < |s| && !IsAlpha(s[q]) ==> ParseAttrs(s, p, seen) == AtTagEnd(s, q, seen)
  {
  }

  ghost function AtTagEnd(s: bytes, q: nat, seen: seq<RawAttr>): AttrsResult
    requires q < |s|
  {
    if s[q] == SLASH && Peek(s, q + 1) == GT then AttrsOk(seen, true, q + 2)
    else if s[q] == GT then AttrsOk(seen, false, q + 1)
    else AttrsFail(ParsingElement)
  }

  ghost function AfterAttr(s: bytes, a: AttrResult, seen: seq<RawAttr>): AttrsResult
    requires a.AttrOk? ==> a.next <= |s|
  {
    match a
    case AttrFail => AttrsFail(ParsingAttribute)
    case AttrOk(attr, next) =>
      if HasAttr(s, seen, attr.name) then AttrsFail(RepeatError(s, seen, attr.name))
      else ParseAttrs(s, next, seen + [attr])
  }

  /** What the text says of the node whose tag is `lex`, as in `ParseOne`. */
  ghost function AfterTag(s: bytes, lex: Lexeme): One
    requires lex.Lex? ==> lex.next <= |s|
  {
    match lex
    case LexEnd => OneEnd
    case LexFail(error) => OneFail(error)
    case Lex(LeafToken(kind, value), next) => OneNode(RawLeaf(kind, value), next)
    case Lex(SealedTag(name, attrs), next) => OneNode(RawElement(name, attrs, true, []), next)
    case Lex(CloseTag(name), next) => OneClose(name, next)
    case Lex(OpenTag(name, attrs), next) =>
      if next == |s| then OneFail(MismatchedElement)
      else
        match ParseLevel(s, next).finish
        case AtEnd => OneFail(ParsingError)
        case Failed(error) => OneFail(error)
        case AtClose(endTag, after) =>
          if Slice(s, endTag) == Slice(s, name)
          then OneNode(RawElement(name, attrs, false, ParseLevel(s, next).nodes), after)
          else OneFail(MismatchedElement)
  }

  lemma OneIs(s: bytes, p: nat)
    requires p <= |s|
    ensures match Parsing.Identify(s, p)
            case Nothing => ParseOne(s, p) == OneEnd
            case Tag(q) => ParseOne(s, p) == AfterTag(s, LexTag(s, q))
            case Leaf(kind, q) => ParseOne(s, p) == AfterTag(s, LexLeaf(s, kind, q))
  {
  }

  lemma LevelIs(s: bytes, p: nat)
    requires p <= |s|
    ensures match ParseOne(s, p)
            case OneEnd => ParseLevel(s, p) == Level([], AtEnd)
            case OneFail(error) => ParseLevel(s, p) == Level([], Failed(error))
            case OneClose(name, next) => ParseLevel(s, p) == Level([], AtClose(name, next))
            case OneNode(node, next) =>
              ParseLevel(s, p) == Level([node] + ParseLevel(s, next).nodes, ParseLevel(s, next).finish)
  {
  }

  lemma IdentifyFloor(s: bytes, p: nat)
    requires p <= |s|
    ensures match Parsing.Identify(s, p)
            case Nothing => true
            case Leaf(_, q) => Floor(s, p) <= q <= |s|
            case Tag(q) => Floor(s, p) <= q <= |s| && p < q
  {
    AtOne(s, p, LT);
  }

  lemma ParseIs(input: bytes, p: nat, bom: bool)
    requires var q := SkipSpace(input, 0); bom == At(input, q, BOM) && p == if bom then q + 3 else q
    ensures p <= |input|
    ensures var spec := Parsing.Parse(input);
            && spec.bom == bom && spec.text == input[p..]
            && (p == |input| ==> spec.text == [] && spec.nodes == [] && spec.error == EmptyDocument)
            && (p < |input| ==>
                  && spec.nodes == ParseLevel(input[p..], 0).nodes
                  && spec.error == LevelError(ParseLevel(input[p..], 0)))
  {
    var q := SkipSpace(input, 0);
    assert p <= |input|;
    hide At, SkipSpace, ParseLevel;
    if p < |input| {
      ParseOfText(input, p, bom, input[p..]);
    } else {
      ParseOfNothing(input, p, bom, input[p..]);
    }
  }

  lemma ParseOfText(input: bytes, p: nat, bom: bool, text: bytes)
    requires var q := SkipSpace(input, 0); bom == At(input, q, BOM) && p == if bom then q + 3 else q
    requires p < |input| && text == input[p..]
    ensures var level := ParseLevel(text, 0);
            Parsing.Parse(input) == Parsed(bom, text, level.nodes, LevelError(level))
  {
    hide At, SkipSpace, ParseLevel;
  }

  lemma ParseOfNothing(input: bytes, p: nat, bom: bool, text: bytes)
    requires var q := SkipSpace(input, 0); bom == At(input, q, BOM) && p == if bom then q + 3 else q
    requires p == |input| && text == input[p..]
    ensures text == [] && Parsing.Parse(input) == Parsed(bom, [], [], EmptyDocument)
  {
    hide At, SkipSpace, ParseLevel;
  }

  ghost function LevelError(level: Level): XMLError {
    if level.finish.Failed? then level.finish.error else NoError
  }
}
