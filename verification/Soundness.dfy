/**
 The recursive parser against an independent reading of the text: a flat sequence of
 tokens and a stack. Both accept the same texts and build the same trees.
 */
module Soundness {
  import opened Bytes
  import opened Parsing

  /** A token with the text of a closing tag's name in place of its position. */
  datatype Symbol =
    | SLeaf(kind: LeafKind, value: Span)
    | SOpen(name: Span, attrs: seq<RawAttr>)
    | SSealed(name: Span, attrs: seq<RawAttr>)
    | SClose(text: bytes)

  function SymbolOf(s: bytes, t: Token): Symbol {
    match t
    case LeafToken(kind, value) => SLeaf(kind, value)
    case OpenTag(name, attrs) => SOpen(name, attrs)
    case SealedTag(name, attrs) => SSealed(name, attrs)
    case CloseTag(name) => SClose(Slice(s, name))
  }

  /** Where the tokens that spell `w`, read one after the other from `i`, end. */
  function LexWord(s: bytes, i: nat, w: seq<Symbol>): (r: Option<nat>)
    requires i <= |s|
    ensures r.Some? ==> i <= r.value <= |s|
    decreases |w|
  {
    if w == [] then Some(i)
    else
      match LexOne(s, i)
      case Lex(token, next) => if SymbolOf(s, token) == w[0] then LexWord(s, next, w[1..]) else None
      case _ => None
  }

  lemma LexWordCons(s: bytes, i: nat, token: Token, next: nat, w: seq<Symbol>)
    requires i <= |s| && LexOne(s, i) == Lex(token, next)
    ensures LexWord(s, i, [SymbolOf(s, token)] + w) == LexWord(s, next, w)
  {
    assert ([SymbolOf(s, token)] + w)[1..] == w;
  }

  lemma {:induction false} LexWordConcat(s: bytes, i: nat, v: seq<Symbol>, w: seq<Symbol>)
    requires i <= |s|
    ensures LexWord(s, i, v + w)
         == match LexWord(s, i, v) case None => None case Some(j) => LexWord(s, j, w)
    decreases |v|
  {
    if v == [] {
      assert v + w == w;
    } else {
      assert (v + w)[1..] == v[1..] + w;
      match LexOne(s, i)
      case Lex(token, next) => LexWordConcat(s, next, v[1..], w);
      case _ =>
    }
  }

  // ------------------------------------------------------ words and trees

  /** The bracket word of a tree. */
  function Word(s: bytes, node: RawNode): seq<Symbol> {
    match node
    case RawLeaf(kind, value) => [SLeaf(kind, value)]
    case RawElement(name, attrs, sealed, children) =>
      if sealed then [SSealed(name, attrs)]
      else [SOpen(name, attrs)] + Words(s, children) + [SClose(Slice(s, name))]
  }

  function Words(s: bytes, nodes: seq<RawNode>): seq<Symbol> {
    if nodes == [] then [] else Word(s, nodes[0]) + Words(s, nodes[1..])
  }

  /** Only an element that was not sealed has children. */
  ghost predicate Proper(nodes: seq<RawNode>) {
    forall k :: 0 <= k < |nodes| ==> ProperNode(nodes[k])
  }

  ghost predicate ProperNode(node: RawNode) {
    node.RawElement? ==> (node.sealed ==> node.children == []) && Proper(node.children)
  }

  lemma {:induction false} WordsConcat(s: bytes, a: seq<RawNode>, b: seq<RawNode>)
    ensures Words(s, a + b) == Words(s, a) + Words(s, b)
    decreases |a|
  {
    if a == [] {
      assert a + b == b;
    } else {
      assert (a + b)[1..] == a[1..] + b;
      WordsConcat(s, a[1..], b);
    }
  }

  lemma WordsOne(s: bytes, node: RawNode)
    ensures Words(s, [node]) == Word(s, node)
  {
    assert [node][1..] == [];
  }

  /** An element whose closing tag is still to come, and the siblings in front of it. */
  datatype Frame = Frame(name: Span, attrs: seq<RawAttr>, before: seq<RawNode>)

  /**
   The reference: reads the word from left to right with a stack of open elements; a
   closing tag must carry the name on top. `None` when the word is not balanced.
   */
  function Build(s: bytes, w: seq<Symbol>, stack: seq<Frame>, done: seq<RawNode>): Option<seq<RawNode>>
    decreases |w|
  {
    if w == [] then
      if stack == [] then Some(done) else None
    else
      match w[0]
      case SLeaf(kind, value) => Build(s, w[1..], stack, done + [RawLeaf(kind, value)])
      case SSealed(name, attrs) => Build(s, w[1..], stack, done + [RawElement(name, attrs, true, [])])
      case SOpen(name, attrs) => Build(s, w[1..], stack + [Frame(name, attrs, done)], [])
      case SClose(text) =>
        if stack == [] then None
        else
          var top := stack[|stack| - 1];
          if Slice(s, top.name) != text then None
          else Build(s, w[1..], stack[..|stack| - 1],
                     top.before + [RawElement(top.name, top.attrs, false, done)])
  }

  /** The reference reads the word of a forest as that forest. */
  lemma {:induction false} BuildWords(s: bytes, nodes: seq<RawNode>, rest: seq<Symbol>,
                                      stack: seq<Frame>, done: seq<RawNode>)
    requires Proper(nodes)
    ensures Build(s, Words(s, nodes) + rest, stack, done) == Build(s, rest, stack, done + nodes)
    decreases nodes
  {
    if nodes == [] {
      assert Words(s, nodes) + rest == rest && done + nodes == done;
    } else {
      var node, tail := nodes[0], nodes[1..];
      var more := Words(s, tail) + rest;
      assert Words(s, nodes) + rest == Word(s, node) + more;
      assert done + nodes == done + [node] + tail;
      assert Build(s, Word(s, node) + more, stack, done) == Build(s, more, stack, done + [node]) by {
        BuildWord(s, node, more, stack, done);
      }
      BuildWords(s, tail, rest, stack, done + [node]);
    }
  }

  lemma {:induction false} BuildWord(s: bytes, node: RawNode, rest: seq<Symbol>, stack: seq<Frame>, done: seq<RawNode>)
    requires ProperNode(node)
    ensures Build(s, Word(s, node) + rest, stack, done) == Build(s, rest, stack, done + [node])
    decreases node
  {
    var w := Word(s, node) + rest;
    if node.RawElement? && !node.sealed {
      var close := [SClose(Slice(s, node.name))];
      assert w == [SOpen(node.name, node.attrs)] + (Words(s, node.children) + (close + rest));
      assert w[1..] == Words(s, node.children) + (close + rest);
      var frame := Frame(node.name, node.attrs, done);
      BuildWords(s, node.children, close + rest, stack + [frame], []);
      assert [] + node.children == node.children;
      assert (close + rest)[1..] == rest && (stack + [frame])[..|stack|] == stack;
    } else {
      assert w[1..] == rest;
    }
  }

  /** The word of what is on the stack: every open element with what stands before it. */
  function StackWord(s: bytes, stack: seq<Frame>, done: seq<RawNode>): seq<Symbol>
    decreases |stack|
  {
    if stack == [] then Words(s, done)
    else
      var top := stack[|stack| - 1];
      StackWord(s, stack[..|stack| - 1], top.before) + [SOpen(top.name, top.attrs)] + Words(s, done)
  }

  lemma StackWordSnoc(s: bytes, stack: seq<Frame>, done: seq<RawNode>, node: RawNode)
    ensures StackWord(s, stack, done + [node]) == StackWord(s, stack, done) + Word(s, node)
  {
    WordsConcat(s, done, [node]);
    WordsOne(s, node);
  }

  lemma StackWordPush(s: bytes, stack: seq<Frame>, f: Frame)
    ensures StackWord(s, stack + [f], []) == StackWord(s, stack, f.before) + [SOpen(f.name, f.attrs)]
  {
    assert (stack + [f])[..|stack|] == stack;
  }

  /** Everything the reference accepts is the word of the forest that it builds. */
  lemma {:induction false} BuildIsWord(s: bytes, w: seq<Symbol>, stack: seq<Frame>, done: seq<RawNode>, r: seq<RawNode>)
    requires Build(s, w, stack, done) == Some(r)
    ensures StackWord(s, stack, done) + w == Words(s, r)
    decreases |w|
  {
    if w == [] {
      assert StackWord(s, stack, done) + w == StackWord(s, stack, done);
    } else {
      assert w == [w[0]] + w[1..];
      var sw := StackWord(s, stack, done);
      assert sw + w == (sw + [w[0]]) + w[1..];
      match w[0]
      case SLeaf(kind, value) =>
        StackWordSnoc(s, stack, done, RawLeaf(kind, value));
        BuildIsWord(s, w[1..], stack, done + [RawLeaf(kind, value)], r);
      case SSealed(name, attrs) =>
        StackWordSnoc(s, stack, done, RawElement(name, attrs, true, []));
        BuildIsWord(s, w[1..], stack, done + [RawElement(name, attrs, true, [])], r);
      case SOpen(name, attrs) =>
        StackWordPush(s, stack, Frame(name, attrs, done));
        BuildIsWord(s, w[1..], stack + [Frame(name, attrs, done)], [], r);
      case SClose(text) =>
        var top, below := stack[|stack| - 1], stack[..|stack| - 1];
        var node := RawElement(top.name, top.attrs, false, done);
        StackWordSnoc(s, below, top.before, node);
        assert sw + [w[0]] == StackWord(s, below, top.before) + Word(s, node);
        BuildIsWord(s, w[1..], below, top.before + [node], r);
    }
  }

  // ------------------------------------------------------ the parser

  lemma {:induction false} LevelProper(s: bytes, i: nat)
    requires i <= |s|
    ensures Proper(ParseLevel(s, i).nodes)
    decreases |s| - i, 1
  {
    hide LexOne, SkipSpace, At;
    match ParseOne(s, i)
    case OneNode(node, next) =>
      OneProper(s, i);
      LevelProper(s, next);
    case _ =>
  }

  lemma {:induction false} OneProper(s: bytes, i: nat)
    requires i <= |s|
    ensures ParseOne(s, i).OneNode? ==> ProperNode(ParseOne(s, i).node)
    decreases |s| - i, 0
  {
    hide LexOne, SkipSpace, At;
    match LexOne(s, i)
    case Lex(OpenTag(name, attrs), next) => LevelProper(s, next);
    case _ =>
  }

  /** The tokens that the parser consumes spell the word of the tree that it builds. */
  lemma {:induction false} LevelSpells(s: bytes, i: nat) returns (j: nat)
    requires i <= |s|
    ensures LexWord(s, i, Words(s, ParseLevel(s, i).nodes)) == Some(j)
    ensures match ParseLevel(s, i).finish
            case AtEnd => LexOne(s, j) == LexEnd
            case AtClose(name, next) => LexOne(s, j) == Lex(CloseTag(name), next)
            case Failed(error) => ParseOne(s, j) == OneFail(error)
    decreases |s| - i, 1
  {
    hide LexOne, SkipSpace, At;
    j := i;
    match ParseOne(s, i)
    case OneNode(node, next) =>
      OneSpells(s, i);
      var rest := ParseLevel(s, next).nodes;
      j := LevelSpells(s, next);
      LexWordConcat(s, i, Word(s, node), Words(s, rest));
      assert ([node] + rest)[1..] == rest;
    case _ =>
  }

  lemma {:induction false} OneSpells(s: bytes, i: nat)
    requires i <= |s|
    ensures match ParseOne(s, i)
            case OneNode(node, next) => LexWord(s, i, Word(s, node)) == Some(next)
            case _ => true
    decreases |s| - i, 0
  {
    hide LexOne, SkipSpace, At;
    match LexOne(s, i)
    case Lex(OpenTag(name, attrs), next) =>
      if ParseOne(s, i).OneNode? {
        var j := LevelSpells(s, next);
        var level := ParseLevel(s, next);
        ElementSpells(s, i, OpenTag(name, attrs), next, level.nodes, j, level.finish.name, level.finish.next);
      }
    case _ =>
  }

  lemma ElementSpells(s: bytes, i: nat, open: Token, next: nat, nodes: seq<RawNode>, j: nat, endTag: Span, after: nat)
    requires i <= |s| && LexOne(s, i) == Lex(open, next) && open.OpenTag?
    requires LexWord(s, next, Words(s, nodes)) == Some(j) && LexOne(s, j) == Lex(CloseTag(endTag), after)
    requires Slice(s, endTag) == Slice(s, open.name)
    ensures LexWord(s, i, Word(s, RawElement(open.name, open.attrs, false, nodes))) == Some(after)
  {
    hide LexOne, SkipSpace, At;
    var body, close := Words(s, nodes), [SymbolOf(s, CloseTag(endTag))];
    LexWordCons(s, j, CloseTag(endTag), after, []);
    assert close + [] == close;
    LexWordConcat(s, next, body, close);
    LexWordCons(s, i, open, next, body + close);
    assert [SymbolOf(s, open)] + body + close == [SymbolOf(s, open)] + (body + close);
  }

  /** Conversely, when the tokens spell the word of a forest the parser builds that forest. */
  lemma {:induction false} SpelledLevel(s: bytes, i: nat, nodes: seq<RawNode>, j: nat)
    requires i <= |s| && Proper(nodes) && LexWord(s, i, Words(s, nodes)) == Some(j)
    ensures ParseLevel(s, i) == Level(nodes + ParseLevel(s, j).nodes, ParseLevel(s, j).finish)
    decreases nodes
  {
    hide LexOne, LexWord, ParseOne, ParseLevel, Word, Words, Proper, ProperNode;
    var rest := ParseLevel(s, j);
    if nodes == [] {
      NoWords(s, i);
      assert nodes + rest.nodes == rest.nodes;
    } else {
      var node, tail := nodes[0], nodes[1..];
      WordsHead(s, nodes);
      LexWordConcat(s, i, Word(s, node), Words(s, tail));
      var k := LexWord(s, i, Word(s, node)).value;
      SpelledOne(s, i, node, k);
      SpelledLevel(s, k, tail, j);
      ParseLevelCons(s, i, node, k);
      ConcatAssoc([node], tail, rest.nodes);
    }
  }

  lemma NoWords(s: bytes, i: nat)
    requires i <= |s|
    ensures LexWord(s, i, Words(s, [])) == Some(i)
  {
  }

  lemma WordsHead(s: bytes, nodes: seq<RawNode>)
    requires nodes != [] && Proper(nodes)
    ensures Words(s, nodes) == Word(s, nodes[0]) + Words(s, nodes[1..]) && nodes == [nodes[0]] + nodes[1..]
    ensures ProperNode(nodes[0]) && Proper(nodes[1..])
  {
    hide Word, ProperNode;
  }

  lemma ParseLevelCons(s: bytes, i: nat, node: RawNode, k: nat)
    requires i <= |s| && ParseOne(s, i) == OneNode(node, k)
    ensures ParseLevel(s, i) == Level([node] + ParseLevel(s, k).nodes, ParseLevel(s, k).finish)
  {
  }

  lemma {:induction false} SpelledOne(s: bytes, i: nat, node: RawNode, k: nat)
    requires i <= |s| && ProperNode(node) && LexWord(s, i, Word(s, node)) == Some(k)
    ensures ParseOne(s, i) == OneNode(node, k)
    decreases node
  {
    hide LexOne, SkipSpace, At;
    if node.RawElement? && !node.sealed {
      var next, j, endTag := SpelledElement(s, i, node, k);
      SpelledLevel(s, next, node.children, j);
      assert node.children + [] == node.children;
    } else {
      assert Word(s, node)[1..] == [];
    }
  }

  lemma SpelledElement(s: bytes, i: nat, node: RawNode, k: nat) returns (next: nat, j: nat, endTag: Span)
    requires i <= |s| && node.RawElement? && !node.sealed && LexWord(s, i, Word(s, node)) == Some(k)
    ensures LexOne(s, i) == Lex(OpenTag(node.name, node.attrs), next)
    ensures LexWord(s, next, Words(s, node.children)) == Some(j)
    ensures LexOne(s, j) == Lex(CloseTag(endTag), k) && Slice(s, endTag) == Slice(s, node.name)
    ensures ParseLevel(s, j) == Level([], AtClose(endTag, k)) && next < |s|
  {
    hide LexOne, SkipSpace, At;
    var open, body, close := [SOpen(node.name, node.attrs)], Words(s, node.children), [SClose(Slice(s, node.name))];
    assert open + body + close == open + (body + close) && (open + (body + close))[1..] == body + close;
    next := LexOne(s, i).next;
    LexWordConcat(s, next, body, close);
    j := LexWord(s, next, body).value;
    assert close[1..] == [];
    endTag := LexOne(s, j).token.name;
  }

  /** The text ends, or a closing tag stands outside all elements, where the parse stops. */
  ghost predicate StopsAt(s: bytes, j: nat)
    requires j <= |s|
  {
    LexOne(s, j).LexEnd? || (LexOne(s, j).Lex? && LexOne(s, j).token.CloseTag?)
  }

  /**
   A parse without error: the consumed tokens spell a balanced word, with equal names in
   opening and closing tags, and the tree is the one the reference builds from it.
   */
  lemma ParserIsSound(s: bytes) returns (w: seq<Symbol>, j: nat)
    requires Parse(s).error == NoError
    ensures var t := Parse(s).text;
            && LexWord(t, 0, w) == Some(j) && StopsAt(t, j)
            && Build(t, w, [], []) == Some(Parse(s).nodes)
  {
    hide LexOne, SkipSpace, At;
    var p := Parse(s);
    w, j := LevelIsSound(p.text);
  }

  lemma LevelIsSound(t: bytes) returns (w: seq<Symbol>, j: nat)
    requires !ParseLevel(t, 0).finish.Failed?
    ensures LexWord(t, 0, w) == Some(j) && StopsAt(t, j)
    ensures Build(t, w, [], []) == Some(ParseLevel(t, 0).nodes)
  {
    hide LexOne, SkipSpace, At;
    var nodes := ParseLevel(t, 0).nodes;
    w := Words(t, nodes);
    j := LevelSpells(t, 0);
    LevelProper(t, 0);
    BuildWords(t, nodes, [], [], []);
    assert w + [] == w && [] + nodes == nodes;
  }

  /** Every text that the reference accepts is parsed without error, to the same tree. */
  lemma ParserIsComplete(s: bytes, w: seq<Symbol>, j: nat, nodes: seq<RawNode>)
    requires var t := Parse(s).text;
             && t != [] && LexWord(t, 0, w) == Some(j) && StopsAt(t, j)
             && Build(t, w, [], []) == Some(nodes)
    ensures Parse(s).error == NoError && Parse(s).nodes == nodes
  {
    hide LexOne, SkipSpace, At;
    var t := Parse(s).text;
    BuildIsWord(t, w, [], [], nodes);
    assert StackWord(t, [], []) + w == w;
    BuildProper(t, w, [], [], nodes);
    SpelledLevel(t, 0, nodes, j);
    assert ParseLevel(t, j).nodes == [] && nodes + [] == nodes;
  }

  lemma {:induction false} BuildProper(s: bytes, w: seq<Symbol>, stack: seq<Frame>, done: seq<RawNode>, r: seq<RawNode>)
    requires Build(s, w, stack, done) == Some(r)
    requires Proper(done) && forall k :: 0 <= k < |stack| ==> Proper(stack[k].before)
    ensures Proper(r)
    decreases |w|
  {
    if w != [] {
      match w[0]
      case SLeaf(kind, value) =>
        BuildProper(s, w[1..], stack, done + [RawLeaf(kind, value)], r);
      case SSealed(name, attrs) =>
        BuildProper(s, w[1..], stack, done + [RawElement(name, attrs, true, [])], r);
      case SOpen(name, attrs) =>
        BuildProper(s, w[1..], stack + [Frame(name, attrs, done)], [], r);
      case SClose(text) =>
        var top, below := stack[|stack| - 1], stack[..|stack| - 1];
        BuildProper(s, w[1..], below, top.before + [RawElement(top.name, top.attrs, false, done)], r);
    }
  }
}
