/**
 The attributes of a parsed element: their names differ, in every element of every
 parsed text, so that the list they form behaves like a map from the start.
 */
module ElementAttributes {
  import opened AttributeLists
  import opened Bytes
  import opened Decoding
  import opened Documents
  import opened Nodes
  import opened Ownership
  import opened Parsing

  ghost predicate NamesApart(s: bytes, attrs: seq<RawAttr>) {
    forall i, j :: 0 <= i < j < |attrs| ==> Slice(s, attrs[i].name) != Slice(s, attrs[j].name)
  }

  /** The names differ in an element and in all elements inside it. */
  ghost predicate AllApart(s: bytes, raw: RawNode) {
    match raw
    case RawLeaf(_, _) => true
    case RawElement(_, attrs, _, children) =>
      NamesApart(s, attrs) && forall k :: 0 <= k < |children| ==> AllApart(s, children[k])
  }

  // ------------------------------------------------------------ the parser

  lemma {:induction false} AttrsApart(s: bytes, i: nat, seen: seq<RawAttr>)
    requires i <= |s| && NamesApart(s, seen)
    ensures var r := ParseAttrs(s, i, seen); r.AttrsOk? ==> NamesApart(s, r.attrs)
    decreases |s| - i
  {
    hide SkipSpace, ParseAttr, Slice, RepeatError;
    var p := SkipSpace(s, i);
    if p < |s| && IsAlpha(s[p]) {
      match ParseAttr(s, p)
      case AttrOk(a, next) =>
        if !HasAttr(s, seen, a.name) {
          AttrsApart(s, next, seen + [a]);
        }
      case AttrFail =>
    }
  }

  ghost predicate TagApart(s: bytes, t: Token) {
    match t
    case OpenTag(_, attrs) => NamesApart(s, attrs)
    case SealedTag(_, attrs) => NamesApart(s, attrs)
    case _ => true
  }

  lemma LexTagApart(s: bytes, q: nat)
    requires q <= |s|
    ensures LexTag(s, q).Lex? ==> TagApart(s, LexTag(s, q).token)
  {
    hide *;
    var k := SkipSpace(s, q);
    var n := if Peek(s, k) == SLASH then k + 1 else k;
    TagAttrs(s, q, k, n);
    if ParseName(s, n).Some? {
      NoNames(s);
      AttrsApart(s, ParseName(s, n).value, []);
    }
  }

  lemma NoNames(s: bytes)
    ensures NamesApart(s, [])
  {
  }

  lemma TagAttrs(s: bytes, q: nat, k: nat, n: nat)
    requires q <= |s| && k == SkipSpace(s, q) && n == if Peek(s, k) == SLASH then k + 1 else k
    ensures n <= |s|
    ensures LexTag(s, q).Lex? ==>
      ParseName(s, n).Some? && ParseAttrs(s, ParseName(s, n).value, []).AttrsOk?
    ensures LexTag(s, q).Lex? && NamesApart(s, ParseAttrs(s, ParseName(s, n).value, []).attrs) ==>
      TagApart(s, LexTag(s, q).token)
  {
    hide SkipSpace, ParseName, ParseAttrs, NamesApart;
  }

  lemma LexApart(s: bytes, i: nat)
    requires i <= |s|
    ensures var lex := LexOne(s, i); lex.Lex? ==> TagApart(s, lex.token)
  {
    hide LexTag, NamesApart, FindEnd, At, SkipSpace;
    if Identify(s, i).Tag? {
      LexTagApart(s, Identify(s, i).next);
    }
  }

  lemma {:induction false} OneApart(s: bytes, i: nat)
    requires i <= |s|
    ensures var one := ParseOne(s, i); one.OneNode? ==> AllApart(s, one.node)
    decreases |s| - i, 0
  {
    hide LexOne, NamesApart;
    LexApart(s, i);
    match LexOne(s, i)
    case Lex(OpenTag(_, _), next) =>
      if next < |s| {
        LevelApart(s, next);
      }
    case _ =>
  }

  lemma {:induction false} LevelApart(s: bytes, i: nat)
    requires i <= |s|
    ensures forall k :: 0 <= k < |ParseLevel(s, i).nodes| ==> AllApart(s, ParseLevel(s, i).nodes[k])
    decreases |s| - i, 1
  {
    hide LexOne, NamesApart, AllApart;
    OneApart(s, i);
    match ParseOne(s, i)
    case OneNode(_, next) => LevelApart(s, next);
    case _ =>
  }

  /** No element that `Parse` leaves, on success or failure, has a name twice. */
  lemma ParsedNamesApart(s: bytes)
    ensures var r := Parse(s); forall k :: 0 <= k < |r.nodes| ==> AllApart(r.text, r.nodes[k])
  {
    hide ParseLevel, At, SkipSpace, AllApart;
    LevelApart(Parse(s).text, 0);
  }

  // ------------------------------------------------------------ the nodes

  lemma KidOwned(n: XMLNode, k: XMLNode)
    requires Owned(n) && k in n.kids
    ensures k in n.repr && k.repr < n.repr && Owned(k) && (Shaped(n) ==> Shaped(k))
  {
    hide Tally, XMLNode.LinksOk, Shape;
    assert Local(n);
    RestOwned(k, k.repr);
  }

  /** What holds of a tree of nodes holds of every node in it. */
  lemma {:induction false} NodeApart(n: XMLNode, m: XMLNode, s: bytes)
    requires Owned(n) && Shaped(n) && m in n.repr && AllApart(s, n.tree)
    ensures AllApart(s, m.tree)
    decreases n.repr
  {
    hide NamesApart, RawAttrs, XMLNode.LinksOk, Tally;
    if m != n {
      assert Local(n) && Shape(n);
      var i :| 0 <= i < |n.kids| && m in n.kids[i].repr;
      var k := n.kids[i];
      hide Owned, Shaped, Local, Divide;
      KidOwned(n, k);
      assert n.tree.children[i] == k.tree;
      NodeApart(k, m, s);
    }
  }

  /** Every element below a document that was parsed from `s` has distinct names. */
  lemma ElementNamesApart(root: XMLNode, m: XMLNode, s: bytes)
    requires Owned(root) && Shaped(root) && root.kind == DocumentKind && root.tree.RawElement?
    requires root.tree.children == Parse(s).nodes
    requires m in root.repr && m.kind == ElementKind
    ensures NamesApart(Parse(s).text, RawAttrs(m.attrs))
  {
    hide XMLNode.LinksOk, Tally, Parse;
    ParsedNamesApart(s);
    var t := Parse(s).text;
    assert Local(root) && Shape(root) && Shape(m);
    var i :| 0 <= i < |root.kids| && m in root.kids[i].repr;
    var k := root.kids[i];
    assert root.tree.children[i] == k.tree;
    hide Owned, Shaped, Local, Divide;
    KidOwned(root, k);
    NodeApart(k, m, t);
  }

  // ------------------------------------------------------------ the map

  /** The decoded attributes, one for one. */
  lemma {:induction false} AttrsOfAt(s: bytes, raws: seq<RawAttr>, items: Items)
    requires AttrsOf(s, raws) == Some(items)
    ensures |items| == |raws|
    ensures forall k :: 0 <= k < |raws| ==>
      items[k].name == Slice(s, raws[k].name) && Decode(Slice(s, raws[k].value), TEXT_FLAGS) == Some(items[k].value)
  {
    hide Decode, Slice;
    if raws != [] {
      AttrsOfAt(s, raws[1..], AttrsOf(s, raws[1..]).value);
    }
  }

  /**
   A parsed element is such a map: its names differ, `FindAttribute` answers the same in
   the text and in the map, and setting its attributes one by one builds it.
   */
  lemma ElementIsMap(s: bytes, raws: seq<RawAttr>, items: Items, name: Span)
    requires NamesApart(s, raws) && AttrsOf(s, raws) == Some(items)
    ensures DistinctNames(items) && SetAll([], items) == items
    ensures IndexOf(items, Slice(s, name)) == FirstNamed(s, raws, name)
    ensures Lookup(items, Slice(s, name)) ==
      if HasAttr(s, raws, name)
      then Decode(Slice(s, raws[FirstNamed(s, raws, name)].value), TEXT_FLAGS) else None
  {
    AttrsOfAt(s, raws, items);
    hide Decode, Slice, AttrsOf;
    assert DistinctNames(items);
    var k := FirstNamed(s, raws, name);
    IndexIs(items, Slice(s, name), k);
    SetUp(items);
  }
}
