/**
 `XMLDocument`: the root node, the four pools and the character buffer, and the parser
 that builds the tree over the buffer.
 */
module XMLDocuments {
  import opened Accounts
  import opened Bytes
  import opened CharRef
  import opened Decoding
  import opened Documents
  import opened LiveStrings
  import opened MemPools
  import opened Nodes
  import opened Ownership
  import opened ParserRounds
  import opened Parsing
  import opened Scanning
  import opened StrPairs

  /** The state of the document and of a node before a step of the parser. */
  datatype Before = Before(b: bytes, live: multiset<Chunk>, chunks: multiset<Chunk>, value: StrPair, closing: ClosingType)

  /** One call of an accessor: which string of which node. */
  datatype Request = Request(node: XMLNode, at: Slot)

  const BLANK_TREE := RawElement(Span(0, 0), [], false, [])

  class XMLDocument {
    const root: XMLNode           // the XMLNode that the document is
    const elementPool: MemPool
    const attributePool: MemPool
    const textPool: MemPool
    const commentPool: MemPool
    var charBuffer: array<byte>
    var writeBOM: bool
    var errorID: XMLError
    ghost var live: multiset<Chunk>   // the chunks that the pools have handed out
    ghost var text: bytes             // the text that the buffer was a copy of

    /** The sizes are those of the four classes that the pools hold. */
    constructor (elementSize: nat, attributeSize: nat, textSize: nat, commentSize: nat)
      requires 1 <= elementSize <= 1024 && 1 <= attributeSize <= 1024
      requires 1 <= textSize <= 1024 && 1 <= commentSize <= 1024
      ensures Valid() && root.kids == [] && errorID == NoError
      ensures elementPool.count == 1024 / elementSize && attributePool.count == 1024 / attributeSize
      ensures textPool.count == 1024 / textSize && commentPool.count == 1024 / commentSize
    {
      hide *;
      root := new XMLNode(DocumentKind, 0);
      elementPool := new MemPool(elementSize);
      attributePool := new MemPool(attributeSize);
      textPool := new MemPool(textSize);
      commentPool := new MemPool(commentSize);
      charBuffer := new byte[1];
      writeBOM, errorID, live, text := false, NoError, multiset{}, [];
      new;
      PoolsNew();
      DocumentAlone();
      BareDocument();
    }

    lemma PoolsNew()
      requires elementPool.Valid() && attributePool.Valid() && textPool.Valid() && commentPool.Valid()
      requires elementPool != attributePool && elementPool != textPool && elementPool != commentPool
      requires attributePool != textPool && attributePool != commentPool && textPool != commentPool
      requires elementPool.live == attributePool.live == textPool.live == commentPool.live == {} && live == multiset{}
      ensures PoolsOk()
    {
      hide MemPool.Valid;
    }

    lemma DocumentAlone()
      requires PoolsOk() && root.LinksOk() && root.kids == [] && root.attrs == [] && root.repr == {root}
      requires root.kind == DocumentKind && root.chunks == OwnChunk(root.kind, root.mem) && root.parent == null
      requires root.tree == RawElement(Span(0, 0), [], false, []) && live == multiset{}
      ensures Blank() && NoNul([])
    {
      hide PoolsOk;
      LoneOwned(root);
    }

    /**
     The nodes are a tree, and every chunk in use belongs to a node or an attribute of it.
     Every string is a range of the buffer, apart from all others, and stands on the text
     that was parsed or on the decoding of it.
     */
    ghost predicate Valid()
      reads this, Pools(), charBuffer, root, root.repr
    {
      && PoolsOk() && Owned(root) && root.kind == DocumentKind && root.parent == null && live == root.chunks
      && Shaped(root) && NoDocument(root.repr - {root}) && NoNul(text) && charBuffer.Length == |text| + 1
      && Readable(root.repr - {root}, charBuffer[..], text, 0, |text|)
    }

    /** The document without a node. */
    ghost predicate Blank()
      reads `live, Pools(), root, root.repr
    {
      && PoolsOk() && Owned(root) && root.kind == DocumentKind && root.parent == null && live == root.chunks == multiset{}
      && root.kids == [] && root.attrs == [] && root.repr == {root} && root.tree == BLANK_TREE
    }

    lemma BareDocument()
      requires Blank() && NoNul(text) && charBuffer.Length == |text| + 1
      ensures Valid() && root.tree == BLANK_TREE
    {
      hide PoolsOk, Owned;
      assert root.repr - {root} == {};
    }

    function Pool(id: PoolId): MemPool {
      match id
      case ElementPool => elementPool
      case AttributePool => attributePool
      case TextPool => textPool
      case CommentPool => commentPool
    }

    ghost function Pools(): set<MemPool> {
      {elementPool, attributePool, textPool, commentPool}
    }

    ghost predicate PoolsOk()
      reads `live, Pools()
    {
      && (forall id, id' :: id != id' ==> Pool(id) != Pool(id'))
      && (forall id :: Pool(id).Valid())
      && (forall c: Chunk :: live[c] == if c.mem in Pool(c.pool).live then 1 else 0)
    }

    /** A pool is neither the document nor its buffer. */
    lemma PoolsApart()
      ensures forall m :: m in Pools() ==> m as object != this && m as object != charBuffer
    {
    }

    lemma NodesApart(part: set<XMLNode>)
      ensures forall m, x :: m in Pools() && x in part ==> m as object != x as object
    {
    }

    method NewChunk(id: PoolId) returns (mem: Address)
      requires PoolsOk()
      modifies `live, Pools()
      ensures PoolsOk() && live == old(live) + multiset{Chunk(id, mem)} && Chunk(id, mem) !in old(live)
      ensures mem in Pool(id).live && mem !in old(Pool(id).live)
    {
      hide MemPool.Valid;
      mem := Pool(id).Alloc();
      live := live + multiset{Chunk(id, mem)};
    }

    method FreeChunk(id: PoolId, mem: Address)
      requires PoolsOk() && Chunk(id, mem) in live
      modifies `live, Pools()
      ensures PoolsOk() && live == old(live) - multiset{Chunk(id, mem)}
    {
      hide MemPool.Valid;
      Pool(id).Free(mem);
      live := live - multiset{Chunk(id, mem)};
    }

    // -------------------------------------------------- creation and deletion

    /** The node that `Identify` makes, in a chunk of the pool of its class. */
    method NewNode(kind: NodeKind) returns (node: XMLNode)
      requires PoolsOk() && kind != DocumentKind
      modifies `live, Pools()
      ensures PoolsOk() && fresh(node) && Owned(node) && node.kind == kind && node.repr == {node}
      ensures node.kids == [] && node.attrs == [] && node.parent == null
      ensures node.value == EMPTY_PAIR && node.closingType == OPEN
      ensures live == old(live) + node.chunks && node.chunks == OwnChunk(kind, node.mem)
      ensures kind == ElementKind ==> node.mem in elementPool.live && node.mem !in old(elementPool.live)
      ensures kind == LeafNodeKind(PlainText) || kind == LeafNodeKind(CData) ==>
        node.mem in textPool.live && node.mem !in old(textPool.live)
      ensures kind == LeafNodeKind(Comment) || kind == LeafNodeKind(Declaration) || kind == LeafNodeKind(Unknown) ==>
        node.mem in commentPool.live && node.mem !in old(commentPool.live)
    {
      hide MemPool.Valid, Owned, XMLNode.LinksOk;
      var mem := NewChunk(PoolOf(kind));
      node := new XMLNode(kind, mem);
      LoneOwned(node);
    }

    /** The destructor of `XMLElement`. */
    method DeleteAttributes(node: XMLNode)
      requires PoolsOk() && Owned(node) && node.chunks <= live
      modifies `live, Pools(), node`attrs, node`chunks
      ensures PoolsOk() && Owned(node) && node.attrs == []
      ensures node.chunks <= live && old(live) + node.chunks == live + old(node.chunks)
    {
      hide *;
      while node.attrs != []
        invariant PoolsOk() && Owned(node) && node.chunks <= live
        invariant old(live) + node.chunks == live + old(node.chunks)
        decreases |node.attrs|
      {
        ghost var live0, chunks0 := live, node.chunks;
        DeleteFirstAttribute(node);
        Balance(old(live), old(node.chunks), live0, chunks0, live, node.chunks);
      }
    }

    method DeleteFirstAttribute(node: XMLNode)
      requires PoolsOk() && Owned(node) && node.chunks <= live && node.attrs != []
      modifies `live, Pools(), node`attrs, node`chunks
      ensures PoolsOk() && Owned(node) && node.attrs == old(node.attrs)[1..]
      ensures node.chunks <= live && old(live) + node.chunks == live + old(node.chunks)
    {
      hide PoolsOk, Owned;
      NodesApart({node});
      ghost var live0, c := live, Chunk(AttributePool, node.attrs[0].mem);
      var mem := node.attrs[0].mem;
      UnlinkFirst(node);
      FrontFreed(live0, c, node.chunks);
      FreeChunk(AttributePool, mem);
    }

    /** `rootAttribute = next`. */
    static method UnlinkFirst(node: XMLNode)
      requires Owned(node) && node.attrs != []
      modifies node`attrs, node`chunks
      ensures Owned(node) && node.attrs == old(node.attrs)[1..]
      ensures old(node.chunks) == multiset{Chunk(AttributePool, old(node.attrs)[0].mem)} + node.chunks
    {
      hide Owned, KidChunks, OwnChunk;
      SplitChunks(node);
      node.chunks := AttrChunks(node.attrs[1..]) + OtherChunks(node);
      node.attrs := node.attrs[1..];
      OwnFields(node);
    }

    /** `XMLNode::DeleteChildren`. */
    method DeleteChildren(n: XMLNode)
      requires PoolsOk() && Owned(n) && n.chunks <= live && forall m :: m in n.repr - {n} ==> m.kind != DocumentKind
      modifies `live, Pools(), n.repr
      ensures PoolsOk() && Owned(n) && n.kids == [] && n.repr == {n}
      ensures n.attrs == old(n.attrs) && n.parent == old(n.parent)
      ensures n.chunks <= live && old(live) + n.chunks == live + old(n.chunks)
      decreases n.repr, 2
    {
      hide *;
      while n.firstChild != null
        invariant PoolsOk() && Owned(n) && n.chunks <= live && n.repr <= old(n.repr)
        invariant old(live) + n.chunks == live + old(n.chunks)
        invariant n.attrs == old(n.attrs) && n.parent == old(n.parent)
        decreases |n.kids|
      {
        ghost var live0, chunks0 := live, n.chunks;
        DeleteFirstChild(n);
        Balance(old(live), old(n.chunks), live0, chunks0, live, n.chunks);
      }
      NoChildren(n);
    }

    method DeleteFirstChild(n: XMLNode)
      requires PoolsOk() && Owned(n) && n.chunks <= live && forall m :: m in n.repr - {n} ==> m.kind != DocumentKind
      requires n.firstChild != null
      modifies `live, Pools(), n.repr
      ensures PoolsOk() && Owned(n) && |n.kids| < |old(n.kids)| && n.repr <= old(n.repr)
      ensures n.attrs == old(n.attrs) && n.parent == old(n.parent)
      ensures n.chunks <= live && old(live) + n.chunks == live + old(n.chunks)
      decreases n.repr, 1
    {
      hide PoolsOk, MemPool.Valid, Owned, XMLNode.LinksOk;
      FirstChildIs(n);
      DeleteChild(n, n.firstChild, 0);
      InPart(n);
      assert Untouched(n, n);
    }

    /**
     `XMLNode::DeleteChild`: the child with all below it is unlinked and destroyed, and
     gives exactly its chunks back; the other nodes are left alone.
     */
    method DeleteChild(n: XMLNode, node: XMLNode, ghost i: nat)
      requires PoolsOk() && Owned(n) && n.chunks <= live && forall m :: m in n.repr - {n} ==> m.kind != DocumentKind
      requires i < |n.kids| && n.kids[i] == node
      modifies `live, Pools(), n.repr
      ensures PoolsOk() && Owned(n) && n.kids == old(n.kids)[..i] + old(n.kids)[i + 1..]
      ensures n.repr == old(n.repr) - old(node.repr) && n.tree == old(n.tree)
      ensures forall m :: m in n.repr ==> Untouched(n, m)
      ensures n.chunks <= live && old(live) == live + old(node.chunks) && old(n.chunks) == n.chunks + old(node.chunks)
      ensures old(live) + n.chunks == live + old(n.chunks)
      decreases n.repr, 0
    {
      hide PoolsOk, MemPool.Valid, Owned, XMLNode.LinksOk;
      ChildIn(n, i);
      ghost var live0, chunks0 := live, n.chunks;
      Disown(n, node, i);
      ghost var c := node.chunks;
      DeleteNode(node);
      ChildFreed(live0, chunks0, live, n.chunks, c);
    }

    /** What the deletion of a child of `n` does to a node that stays: nothing but to pointers. */
    static twostate predicate Untouched(n: XMLNode, new m: XMLNode)
      requires old(allocated(m))
      reads m
    {
      && m.value == old(m.value) && m.attrs == old(m.attrs) && m.closingType == old(m.closingType)
      && (m != n ==> m.kids == old(m.kids) && m.repr == old(m.repr) && m.tree == old(m.tree))
      && (m == n ==> m.parent == old(m.parent))
    }

    /** A child of the document is deleted: the document stays valid, and its tree loses just that child. */
    method DeleteTopNode(node: XMLNode, ghost i: nat)
      requires Valid() && i < |root.kids| && root.kids[i] == node && root.tree.RawElement?
      modifies `live, Pools(), root.repr
      ensures Valid() && root.kids == old(root.kids)[..i] + old(root.kids)[i + 1..] && old(live) == live + old(node.chunks)
      ensures root.tree == old(root.tree).(children := old(root.tree).children[..i] + old(root.tree).children[i + 1..])
    {
      hide PoolsOk, Owned, Shaped, Readable, MemPool.Valid;
      InPart(root);
      TopShape(i);
      PoolsApart();
      NodesApart(root.repr);
      ghost var c := node.chunks;
      DeleteChild(root, node, i);
      SameRest(old(live), live, root.chunks, c);
      InPart(root);
      assert Untouched(root, root);
      root.tree := root.tree.(children := root.tree.children[..i] + root.tree.children[i + 1..]);
      ShapedWithout(i);
      ReadableFewer(old(root.repr) - {root}, root.repr - {root}, charBuffer[..], text, |text|);
    }

    lemma TopShape(i: nat)
      requires Shaped(root) && root in root.repr && root.kind == DocumentKind && root.tree.RawElement? && i < |root.kids|
      ensures i < |root.tree.children| == |root.kids|
    {
      assert Shape(root);
    }

    twostate lemma ShapedWithout(new i: nat)
      requires old(Owned(root)) && old(Shaped(root)) && Owned(root) && root.kind == DocumentKind
      requires old(root.tree).RawElement? && i < |old(root.kids)| == |old(root.tree).children|
      requires root.repr <= old(root.repr) && root.kids == old(root.kids)[..i] + old(root.kids)[i + 1..]
      requires forall m :: m in root.repr ==> Untouched(root, m)
      requires root.tree == old(root.tree).(children := old(root.tree).children[..i] + old(root.tree).children[i + 1..])
      ensures Shaped(root)
    {
      hide Local, RawAttrs;
      forall m | m in root.repr ensures (forall k :: k in m.kids ==> k in root.repr) && Shape(m) {
        assert Untouched(root, m) && old(Shape(m));
        forall k | k in m.kids ensures k in root.repr && k.tree == old(k.tree) {
          KidBelow(m, k);
          assert Untouched(root, k);
        }
        if m == root {
          TopTrees(i);
        }
      }
    }

    twostate lemma KidBelow(new m: XMLNode, new k: XMLNode)
      requires old(allocated(m)) && old(allocated(k)) && Owned(root) && m in root.repr && k in m.kids
      ensures k in root.repr && k != root
    {
      assert Local(m) && Local(root);
    }

    /** The trees of the children that stay. */
    twostate lemma TopTrees(new i: nat)
      requires old(Shape(root)) && root.kind == DocumentKind && old(root.tree).RawElement?
      requires i < |old(root.kids)| == |old(root.tree).children|
      requires root.kids == old(root.kids)[..i] + old(root.kids)[i + 1..]
      requires root.tree == old(root.tree).(children := old(root.tree).children[..i] + old(root.tree).children[i + 1..])
      requires forall k :: k in root.kids ==> k.tree == old(k.tree)
      ensures |root.tree.children| == |root.kids|
      ensures forall j :: 0 <= j < |root.kids| ==> root.tree.children[j] == root.kids[j].tree
    {
      forall j | 0 <= j < |root.kids| ensures root.tree.children[j] == root.kids[j].tree {
        var j' := if j < i then j else j + 1;
        assert root.kids[j] == old(root.kids)[j'] && root.kids[j] in root.kids;
        assert old(root.tree).children[j'] == old(root.kids[j'].tree);
      }
    }

    static twostate lemma ReadableFewer(part: set<XMLNode>, new part': set<XMLNode>, new b: bytes, new s: bytes, new hi: nat)
      requires old(allocated(part')) && old(Readable(part, b, s, 0, hi)) && part' <= part
      requires forall m :: m in part' ==> m.value == old(m.value) && m.attrs == old(m.attrs)
      ensures Readable(part', b, s, 0, hi)
    {
      hide Neat, ApartRecords;
      forall m | m in part' ensures RecordOf(m) == old(RecordOf(m)) {
      }
    }

    /**
     DELETE_NODE: the destructor of a node that is not linked, and `Free` of its chunk.
     Only an element has attributes.
     */
    method DeleteNode(node: XMLNode)
      requires PoolsOk() && Owned(node) && node.chunks <= live
      requires forall m :: m in node.repr ==> m.kind != DocumentKind
      modifies `live, Pools(), node.repr
      ensures PoolsOk() && old(live) == live + old(node.chunks)
      decreases node.repr, 3
    {
      hide PoolsOk, MemPool.Valid, Owned, XMLNode.LinksOk;
      ghost var live0, chunks0 := live, node.chunks;
      InPart(node);
      DeleteAttributes(node);
      ghost var live1, chunks1 := live, node.chunks;
      DeleteChildren(node);
      Balance(live0, chunks0, live1, chunks1, live, node.chunks);
      LoneChunks(node);
      ghost var c := Chunk(PoolOf(node.kind), node.mem);
      assert c in node.chunks;
      FreeChunk(PoolOf(node.kind), node.mem);
      FreedLast(live0, chunks0, live, c);
    }

    // ------------------------------------------------------------ attributes

    /** `XMLAttribute::ParseDeep`. */
    method ParseAttribute(p: nat, attrib: AttrCell, ghost s: bytes) returns (r: Option<nat>, cell: AttrCell)
      requires Tail(charBuffer[..], s, p) && NoNul(s)
      ensures cell.mem == attrib.mem
      ensures match ParseAttr(s, p)
              case AttrFail => r == None
              case AttrOk(a, next) =>
                r == Some(next) && cell.name == Pair(a.name.start, a.name.end, NO_FLAGS)
                && cell.value == Pair(a.value.start, a.value.end, TEXT_FLAGS)
    {
      hide Tail, NoNul, At, ParseName, FindEnd;
      var name: StrPair, value: StrPair;
      Length(charBuffer[..], s, p);
      cell := attrib;
      r, name := ScanName(charBuffer, p, cell.name, s);
      cell := cell.(name := name);
      if r == None {
        return;
      }
      TailLater(charBuffer[..], s, p, r.value);
      TailAt(charBuffer[..], s, p, r.value);
      if charBuffer[r.value] == 0 {
        return None, cell;
      }
      var q := SkipWhiteSpace(charBuffer, r.value, s);
      TailAt(charBuffer[..], s, p, q);
      if charBuffer[q] != EQ {
        return None, cell;
      }
      TailLater(charBuffer[..], s, p, q + 1);
      q := SkipWhiteSpace(charBuffer, q + 1, s);
      TailAt(charBuffer[..], s, p, q);
      if charBuffer[q] != QUOTE && charBuffer[q] != APOS {
        return None, cell;
      }
      TailLater(charBuffer[..], s, p, q + 1);
      r, value := ScanText(charBuffer, q + 1, [charBuffer[q]], TEXT_FLAGS, cell.value, s);
      cell := cell.(value := value);
    }

    /**
     `XMLElement::FindAttribute` while the tag is parsed, when the names have all been read;
     the number of attributes stands for the null pointer.
     */
    method FindAttribute(node: XMLNode, name: StrPair, ghost s: bytes, ghost lo: nat, ghost mid: nat) returns (k: nat)
      requires NoNul(s) && !name.flush && Stored(charBuffer[..], s, name, NO_FLAGS)
      requires AttrsNeat(node.attrs, charBuffer[..], s, lo, mid) && NamesRead(node.attrs)
      modifies charBuffer
      ensures charBuffer[..] == old(charBuffer[..]) && |RawAttrs(node.attrs)| == |node.attrs|
      ensures k == FirstNamed(s, RawAttrs(node.attrs), SpanOf(name))
    {
      hide Decode, Neat, AttrsNeat, NamesRead, RawAttrs, TextAt;
      ghost var raws, x := RawAttrs(node.attrs), Slice(s, SpanOf(name));
      NameText(charBuffer[..], s, name);
      RawAttrsAt(node.attrs, 0);
      k := 0;
      while k < |node.attrs|
        invariant charBuffer[..] == old(charBuffer[..]) && k <= |node.attrs|
        invariant forall j :: 0 <= j < k ==> Slice(s, raws[j].name) != x
      {
        NameAt(node.attrs, charBuffer[..], s, lo, mid, k);
        var a := GetStr(charBuffer, node.attrs[k].name);
        var same := SameString(charBuffer, a.start, name.start, Slice(s, raws[k].name), x);
        if same {
          FirstNamedIs(s, raws, SpanOf(name), k);
          return;
        }
        k := k + 1;
      }
      FirstNamedIs(s, raws, SpanOf(name), k);
    }

    /** The name of a new attribute is read, and looked for among those before it. */
    method CheckName(node: XMLNode, cell: AttrCell, ghost s: bytes, ghost lo: nat, ghost next: nat)
      returns (cell': AttrCell, k: nat)
      requires NoNul(s) && Tail(charBuffer[..], s, cell.name.start) && lo <= cell.name.start
      requires AttrsNeat(node.attrs, charBuffer[..], s, lo, cell.name.start) && NamesRead(node.attrs)
      requires cell.name.start <= cell.name.end < cell.value.start <= cell.value.end < next <= |s|
      requires cell.name == Pair(cell.name.start, cell.name.end, NO_FLAGS)
      requires cell.value == Pair(cell.value.start, cell.value.end, TEXT_FLAGS)
      modifies charBuffer
      ensures cell' == cell.(name := cell.name.(flush := false))
      ensures k == FirstNamed(s, RawAttrs(node.attrs), SpanOf(cell.name)) && |RawAttrs(node.attrs)| == |node.attrs|
      ensures Agree(old(charBuffer[..]), charBuffer[..], 0, cell.name.start) && Tail(charBuffer[..], s, next)
      ensures AttrsNeat(node.attrs, charBuffer[..], s, lo, cell.name.start)
      ensures AttrsNeat(node.attrs + [cell'], charBuffer[..], s, lo, next)
    {
      hide Decode, Neat, NoNul;
      ghost var b, p := charBuffer[..], cell.name.start;
      PlainName(b, s, p, cell.name.end);
      var name := GetStr(charBuffer, cell.name);
      cell' := cell.(name := name);
      AfterName(node.attrs, cell, name, b, charBuffer[..], s, lo, p, next);
      k := FindAttribute(node, name, s, lo, p);
      AttrAppend(node.attrs, cell', charBuffer[..], charBuffer[..], s, lo, p, next);
    }

    /**
     `Attribute` also reads the value that it returns. With a malformed reference in that
     value the read pointer becomes null, and the run has no result.
     */
    method ReadDuplicate(node: XMLNode, k: nat, ghost s: bytes, ghost lo: nat, ghost hi: nat) returns (e: XMLError)
      requires NoNul(s) && k < |node.attrs| && AttrsNeat(node.attrs, charBuffer[..], s, lo, hi) && Owned(node)
      modifies charBuffer, node`attrs
      ensures Agree(old(charBuffer[..]), charBuffer[..], 0, lo)
      ensures Owned(node) && |node.attrs| == |old(node.attrs)|
      ensures e == if Decode(Slice(s, SpanOf(old(node.attrs)[k].value)), TEXT_FLAGS) == None then NullRead
                   else ParsingAttribute
    {
      hide Decode, RawAttrs, Owned, MemPool.Valid;
      ValueStored(node.attrs, charBuffer[..], s, lo, hi, k);
      SplitChunks(node);
      var x := node.attrs[k].value;
      if x.flush && Decode(charBuffer[x.start..x.end], x.flags).None? {
        return NullRead;
      }
      ghost var b, l := charBuffer[..], node.attrs;
      var r := GetStr(charBuffer, x);
      RangeAgree(b, charBuffer[..], x, 0, lo);
      node.attrs := node.attrs[k := node.attrs[k].(value := r)];
      AttrChunksSame(l, node.attrs);
      OwnFields(node);
      e := ParsingAttribute;
    }

    static lemma RepeatIs(s: bytes, attrs: seq<AttrCell>, name: Span, k: nat)
      requires k == FirstNamed(s, RawAttrs(attrs), name)
      ensures k < |attrs| ==>
        RepeatError(s, RawAttrs(attrs), name) ==
          if Decode(Slice(s, SpanOf(attrs[k].value)), TEXT_FLAGS) == None then NullRead else ParsingAttribute
    {
      hide Decode;
      RawAttrsAt(attrs, k);
    }

    static lemma ValueStored(attrs: seq<AttrCell>, b: bytes, s: bytes, lo: nat, hi: nat, k: nat)
      requires AttrsNeat(attrs, b, s, lo, hi) && NoNul(s) && k < |attrs|
      ensures var x := attrs[k].value;
              && lo <= x.start <= x.end <= |s| < |b|
              && (x.flush ==> x.flags == TEXT_FLAGS && NoNul(b[x.start..x.end]) && b[x.start..x.end] == s[x.start..x.end])
              && (!x.flush ==> Decode(s[x.start..x.end], TEXT_FLAGS).Some?)
              && Slice(s, SpanOf(x)) == s[x.start..x.end]
    {
      hide Decode;
      assert StoredAt(Record(DocumentKind, EMPTY_PAIR, attrs), b, s, lo, hi, AttrSlot(k));
    }

    /** What holds of the attributes of `node` while the cursor stands at `p`. */
    ghost predicate AttrsSoFar(node: XMLNode, s: bytes, lo: nat, p: nat)
      reads `live, `charBuffer, Pools(), charBuffer, node`repr, node`attrs, node`chunks
      reads node.repr`firstChild, node.repr`lastChild, node.repr`kids, node.repr`repr, node.repr`chunks
      reads node.repr`attrs, node.repr`parent, node.repr`prev, node.repr`next
    {
      && PoolsOk() && Owned(node) && node.chunks <= live
      && NoNul(s) && Tail(charBuffer[..], s, p) && lo <= p
      && AttrsNeat(node.attrs, charBuffer[..], s, lo, p) && NamesRead(node.attrs)
    }

    /** One attribute: a new chunk, which goes back if the attribute is malformed or repeated. */
    method NextAttribute(node: XMLNode, p: nat, ghost s: bytes, ghost lo: nat) returns (r: Option<nat>)
      requires AttrsSoFar(node, s, lo, p)
      modifies `live, `errorID, Pools(), charBuffer, node`attrs, node`chunks
      ensures PoolsOk() && Owned(node) && node.chunks <= live && old(live) + node.chunks == live + old(node.chunks)
      ensures Agree(old(charBuffer[..]), charBuffer[..], 0, lo)
      ensures match ParseAttr(s, p)
              case AttrFail => r == None && errorID == ParsingAttribute
              case AttrOk(a, next) =>
                if HasAttr(s, old(RawAttrs(node.attrs)), a.name) then
                  r == None && errorID == RepeatError(s, old(RawAttrs(node.attrs)), a.name)
                else r == Some(next) && errorID == old(errorID) && AttrsSoFar(node, s, lo, next)
                     && RawAttrs(node.attrs) == old(RawAttrs(node.attrs)) + [a]
    {
      hide MemPool.Valid, PoolsOk, Owned, Neat, RawAttrs, Decode, AttrsNeat, NamesRead, HasAttr, RepeatError, ParseAttr, Tail;
      ghost var live0, chunks0 := live, node.chunks;
      var cell: AttrCell;
      r, cell := NewAttribute(p, s);
      if r == None {
        errorID := ParsingAttribute;
      } else {
        ghost var live1 := live;
        r := AddAttribute(node, cell, r.value, s, lo);
        Settle(live0, chunks0, live1, live, node.chunks, multiset{Chunk(AttributePool, cell.mem)});
      }
    }

    /** The chunk and the source of an attribute; a malformed one is deleted at once. */
    method NewAttribute(p: nat, ghost s: bytes) returns (r: Option<nat>, cell: AttrCell)
      requires PoolsOk() && Tail(charBuffer[..], s, p) && NoNul(s)
      modifies `live, Pools()
      ensures PoolsOk()
      ensures match ParseAttr(s, p)
              case AttrFail => r == None && live == old(live)
              case AttrOk(a, next) =>
                r == Some(next) && live == old(live) + multiset{Chunk(AttributePool, cell.mem)}
                && cell.name == Pair(a.name.start, a.name.end, NO_FLAGS)
                && cell.value == Pair(a.value.start, a.value.end, TEXT_FLAGS)
    {
      hide MemPool.Valid, PoolsOk, ParseAttr;
      var mem := NewChunk(AttributePool);
      r, cell := ParseAttribute(p, AttrCell(EMPTY_PAIR, EMPTY_PAIR, mem), s);
      if r == None {
        FreeChunk(AttributePool, mem);
      }
    }

    /** Links the attribute, unless its name is taken: then it is deleted. */
    method AddAttribute(node: XMLNode, cell: AttrCell, next: nat, ghost s: bytes, ghost lo: nat) returns (r: Option<nat>)
      requires PoolsOk() && Owned(node) && node.chunks + multiset{Chunk(AttributePool, cell.mem)} <= live
      requires NoNul(s) && Tail(charBuffer[..], s, cell.name.start) && lo <= cell.name.start
      requires AttrsNeat(node.attrs, charBuffer[..], s, lo, cell.name.start) && NamesRead(node.attrs)
      requires cell.name.start <= cell.name.end < cell.value.start <= cell.value.end < next <= |s|
      requires cell.name == Pair(cell.name.start, cell.name.end, NO_FLAGS)
      requires cell.value == Pair(cell.value.start, cell.value.end, TEXT_FLAGS)
      modifies `live, `errorID, Pools(), charBuffer, node`attrs, node`chunks
      ensures PoolsOk() && Owned(node) && node.chunks <= live
      ensures old(live) + node.chunks == live + old(node.chunks) + multiset{Chunk(AttributePool, cell.mem)}
      ensures Agree(old(charBuffer[..]), charBuffer[..], 0, lo)
      ensures if HasAttr(s, old(RawAttrs(node.attrs)), SpanOf(cell.name)) then
                r == None && errorID == RepeatError(s, old(RawAttrs(node.attrs)), SpanOf(cell.name))
              else r == Some(next) && errorID == old(errorID) && AttrsSoFar(node, s, lo, next)
                   && RawAttrs(node.attrs) == old(RawAttrs(node.attrs)) + [RawAttr(SpanOf(cell.name), SpanOf(cell.value))]
    {
      hide MemPool.Valid, PoolsOk, Owned, Neat, RawAttrs, Decode, AttrChunks, AttrsNeat, HasAttr, FirstNamed, RepeatError;
      var cell', k := CheckName(node, cell, s, lo, next);
      if k < |node.attrs| {
        ghost var b := charBuffer[..];
        RejectRepeat(node, cell, k, s, lo);
        AgreeLess(old(charBuffer[..]), b, lo, cell.name.start);
        AgreeTrans(old(charBuffer[..]), b, charBuffer[..], 0, lo);
        r := None;
      } else {
        r := Some(next);
        RawAttrsSnoc(node.attrs, cell');
        Link(node, cell');
      }
    }

    /** DELETE_ATTRIBUTE of an attribute whose name is taken by attribute `k`. */
    method RejectRepeat(node: XMLNode, cell: AttrCell, k: nat, ghost s: bytes, ghost lo: nat)
      requires PoolsOk() && Owned(node) && node.chunks + multiset{Chunk(AttributePool, cell.mem)} <= live && NoNul(s)
      requires AttrsNeat(node.attrs, charBuffer[..], s, lo, cell.name.start)
      requires k == FirstNamed(s, RawAttrs(node.attrs), SpanOf(cell.name)) && k < |node.attrs|
      modifies `live, `errorID, Pools(), charBuffer, node`attrs
      ensures PoolsOk() && Owned(node) && node.chunks <= live
      ensures old(live) == live + multiset{Chunk(AttributePool, cell.mem)}
      ensures Agree(old(charBuffer[..]), charBuffer[..], 0, lo)
      ensures errorID == RepeatError(s, old(RawAttrs(node.attrs)), SpanOf(cell.name))
    {
      hide MemPool.Valid, PoolsOk, Owned, Neat, RawAttrs, Decode, AttrsNeat, FirstNamed, RepeatError, Agree;
      PoolsApart();
      NodesApart(node.repr);
      RepeatIs(s, node.attrs, SpanOf(cell.name), k);
      var e := ReadDuplicate(node, k, s, lo, cell.name.start);
      ghost var b := charBuffer[..];
      FreeChunk(AttributePool, cell.mem);
      errorID := e;
      assert charBuffer[..] == b;
    }

    /** The new attribute goes behind the last one. */
    method Link(node: XMLNode, cell: AttrCell)
      requires Owned(node)
      modifies node`attrs, node`chunks
      ensures Owned(node) && node.attrs == old(node.attrs) + [cell]
      ensures node.chunks == old(node.chunks) + multiset{Chunk(AttributePool, cell.mem)}
    {
      hide Owned, AttrChunks, KidChunks;
      SplitChunks(node);
      AttrChunksSnoc(node.attrs, cell);
      node.attrs := node.attrs + [cell];
      node.chunks := node.chunks + multiset{Chunk(AttributePool, cell.mem)};
      OwnFields(node);
    }

    /** `GetStr` of a name: it only writes the NUL behind the name. */
    method ReadName(x: StrPair, ghost s: bytes) returns (r: StrPair)
      requires NoNul(s) && charBuffer.Length == |s| + 1 && Stored(charBuffer[..], s, x, NO_FLAGS)
      modifies charBuffer
      ensures r == x.(flush := false) && Stored(charBuffer[..], s, r, NO_FLAGS)
      ensures TextAt(charBuffer[..], x.start, s[x.start..x.end])
      ensures Agree(old(charBuffer[..]), charBuffer[..], 0, x.end)
      ensures Agree(old(charBuffer[..]), charBuffer[..], x.end + 1, |s| + 1)
      ensures OnlyRange(old(charBuffer[..]), charBuffer[..], x)
    {
      hide Decode, TextAt;
      ghost var b, d := charBuffer[..], s[x.start..x.end];
      DecodePlain(d);
      r := GetStr(charBuffer, x);
      ReadStored(b, charBuffer[..], s, x, r, NO_FLAGS);
      NameText(charBuffer[..], s, r);
      RangeAgree(b, charBuffer[..], x, 0, x.start);
      RangeAgree(b, charBuffer[..], x, x.end + 1, |s| + 1);
      assert x.flush ==> charBuffer[x.start..x.end] == b[x.start..x.end];
      assert forall k :: x.start <= k < x.end ==> charBuffer[k] == charBuffer[x.start..x.end][k - x.start];
    }

    /** The cursor is at `p` in the tag whose name ends at `start`. */
    ghost predicate InTag(node: XMLNode, s: bytes, start: nat, p: nat, was: Before)
      reads this, Pools(), charBuffer, node, node.repr
    {
      && start <= p && AttrsSoFar(node, s, if p == start then start else start + 1, p)
      && (p == start ==> node.attrs == []) && (start < |s| ==> !IsNameByte(s[start]))
      && errorID == NoError && node.value == was.value && node.closingType == was.closing
      && Stored(charBuffer[..], s, node.value, NO_FLAGS) && node.value.end == start && node.value.flush
      && ParseAttrs(s, p, RawAttrs(node.attrs)) == ParseAttrs(s, start, [])
    }

    /** The tag was read, as the text says. */
    ghost predicate TagRead(node: XMLNode, s: bytes, start: nat, r: Option<nat>, was: Before)
      reads this, Pools(), charBuffer, node, node.repr
    {
      start <= |s| &&
      match ParseAttrs(s, start, [])
      case AttrsFail(error) => r == None && errorID == error
      case AttrsOk(attrs, sealed, next) =>
        r == Some(next) && errorID == NoError && AttrsSoFar(node, s, start + 1, next) && node.value == was.value
        && RawAttrs(node.attrs) == attrs && node.closingType == if sealed then CLOSED else was.closing
    }

    /** What the chunks in use and the buffer in front of `lo` have to do with the state before. */
    ghost predicate Kept(node: XMLNode, lo: nat, was: Before)
      reads `live, `charBuffer, Pools(), charBuffer, node`repr, node`chunks
      reads node.repr`firstChild, node.repr`lastChild, node.repr`kids, node.repr`repr, node.repr`chunks
      reads node.repr`attrs, node.repr`parent, node.repr`prev, node.repr`next
    {
      && PoolsOk() && Owned(node) && node.chunks <= live && was.live + node.chunks == live + was.chunks
      && Agree(was.b, charBuffer[..], 0, lo)
    }

    /** One or the other, according to `done`. */
    ghost predicate AttrsLoop(node: XMLNode, s: bytes, start: nat, p: nat, done: bool, r: Option<nat>, was: Before)
      reads this, Pools(), charBuffer, node, node.repr
    {
      Kept(node, start, was) && p <= |s|
      && if done then TagRead(node, s, start, r, was) else InTag(node, s, start, p, was)
    }

    /** `XMLElement::ParseAttributes`. */
    method ParseAttributes(node: XMLNode, start: nat, ghost s: bytes, ghost was: Before) returns (r: Option<nat>)
      requires InTag(node, s, start, start, was) && Kept(node, start, was)
      modifies `live, `errorID, Pools(), charBuffer, node`attrs, node`chunks, node`value, node`closingType
      ensures Kept(node, start, was) && TagRead(node, s, start, r, was)
    {
      var p, done := start, false;
      r := None;
      assert AttrsLoop(node, s, start, p, done, r, was) by { SoFar(node, s, start, start); }
      while !done
        invariant AttrsLoop(node, s, start, p, done, r, was)
        decreases !done, |s| - p
      {
        hide *;
        done, r, p := TagPart(node, start, p, r, s, was);
      }
    }

    /** One round of the loop: `done` when it ends the loop. */
    method TagPart(node: XMLNode, start: nat, p: nat, r0: Option<nat>, ghost s: bytes, ghost was: Before)
      returns (done: bool, r: Option<nat>, p': nat)
      requires AttrsLoop(node, s, start, p, false, r0, was)
      modifies `live, `errorID, Pools(), charBuffer, node`attrs, node`chunks, node`value, node`closingType
      ensures AttrsLoop(node, s, start, p', done, r, was) && (!done ==> p < p' <= |s|)
    {
      hide PoolsOk, Owned, MemPool.Valid, AttrsNeat, RawAttrs, NamesRead, Decode, ParseAttrs, ParseAttr, HasAttr, Agree;
      ghost var seen := RawAttrs(node.attrs);
      var q := SkipWhiteSpace(charBuffer, p, s);
      AttrsRound(s, p, q, seen);
      TailAt(charBuffer[..], s, p, q);
      done, r, p' := true, None, p;
      if charBuffer[q] == 0 {
        Unclosed(node, start, p, s, was);
      } else if IsAlpha(charBuffer[q]) {
        SkippedTo(node, s, start, p, q);
        ghost var b, live1, chunks1, value1 := charBuffer[..], live, node.chunks, node.value;
        r := NextAttribute(node, q, s, start + 1);
        Balance(was.live, was.chunks, live1, chunks1, live, node.chunks);
        AgreeFewer(was.b, b, charBuffer[..], start, start + 1);
        UnreadFrame(b, charBuffer[..], s, value1);
        done := r == None;
        if !done {
          p' := r.value;
        }
      } else if charBuffer[q] == SLASH && charBuffer[q + 1] == GT {
        node.closingType := CLOSED;
        SkippedTo(node, s, start, p, q + 2);
        r := Some(q + 2);
      } else if charBuffer[q] == GT {
        SkippedTo(node, s, start, p, q + 1);
        r := Some(q + 1);
      } else {
        errorID := ParsingElement;
      }
    }

    /** The text ends in a tag: the error message reads the name of the element. */
    method Unclosed(node: XMLNode, start: nat, p: nat, ghost s: bytes, ghost was: Before)
      requires Kept(node, start, was) && InTag(node, s, start, p, was)
      requires ParseAttrs(s, start, []) == AttrsFail(ParsingElement)
      modifies `errorID, charBuffer, node`value
      ensures Kept(node, start, was) && TagRead(node, s, start, None, was)
    {
      hide PoolsOk, Owned, MemPool.Valid, AttrsNeat, RawAttrs, NamesRead, Decode, ParseAttrs, Agree;
      ghost var b := charBuffer[..];
      PoolsApart();
      errorID := ParsingElement;
      assert charBuffer[..] == b;
      node.value := ReadName(node.value, s);
      AgreeTrans(was.b, b, charBuffer[..], 0, start);
    }

    lemma SoFar(node: XMLNode, s: bytes, lo: nat, p: nat)
      requires AttrsSoFar(node, s, lo, p)
      ensures PoolsOk() && Owned(node) && node.chunks <= live && NoNul(s) && Tail(charBuffer[..], s, p)
      ensures charBuffer.Length == |s| + 1
    {
      hide PoolsOk, Owned;
    }

    lemma SkippedTo(node: XMLNode, s: bytes, start: nat, p: nat, q: nat)
      requires AttrsSoFar(node, s, if p == start then start else start + 1, p) && (p == start ==> node.attrs == [])
      requires start <= p <= q <= |s| && start < q
      ensures AttrsSoFar(node, s, start + 1, q)
    {
      hide PoolsOk, MemPool.Valid, Owned;
      if p > start {
        NeatWider(Record(DocumentKind, EMPTY_PAIR, node.attrs), charBuffer[..], s, start + 1, p, start + 1, q);
      }
    }

    // ------------------------------------------------------------ the nodes

    /** `errorID` is `error` once the caller has set a missing error to XML_ERROR_PARSING. */
    ghost predicate Reports(error: XMLError)
      reads `errorID
    {
      errorID == error || (errorID == NoError && error == ParsingError)
    }

    lemma LeafReadable(node: XMLNode, kind: LeafKind, p: nat, s: bytes, next: nat)
      requires node.kind == LeafNodeKind(kind) && node.attrs == [] && node.repr == {node}
      requires Tail(charBuffer[..], s, p) && p <= node.value.start <= node.value.end < |s|
      requires node.value == Pair(node.value.start, node.value.end, LeafFlags(kind))
      requires node.value.end < next || (node.value.end == next && s[next] == LT)
      ensures Readable(node.repr, charBuffer[..], s, p, Floor(s, next))
    {
      hide Decode, Neat;
      TailStored(charBuffer[..], s, p, node.value);
      LeafNeat(kind, node.value, charBuffer[..], s, p, Floor(s, next));
    }

    /** `ParseDeep` of the leaf classes. */
    method ParseLeaf(node: XMLNode, kind: LeafKind, p: nat, ghost s: bytes) returns (r: Option<nat>)
      requires node.kind == LeafNodeKind(kind) && node.kids == [] && node.attrs == [] && node.repr == {node}
      requires NoNul(s) && Tail(charBuffer[..], s, p) && errorID == NoError
      modifies `errorID, node`value, node`tree
      ensures match LexLeaf(s, kind, p)
              case Lex(token, next) =>
                r == Some(next) && errorID == NoError && token == LeafToken(kind, SpanOf(node.value))
                && node.tree == RawLeaf(kind, SpanOf(node.value)) && Shaped(node)
                && Readable(node.repr, charBuffer[..], s, p, Floor(s, next))
              case LexFail(error) => r == None && Reports(error)
              case LexEnd => false
    {
      hide Decode, At, Readable, Tail, NoNul;
      var value;
      r, value := ScanText(charBuffer, p, Terminator(kind), LeafFlags(kind), node.value, s);
      node.value := value;
      node.tree := RawLeaf(kind, SpanOf(value));
      if r == None {
        errorID := LeafError(kind);
      } else {
        AtBytes(s, value.end, Terminator(kind));
        TailAt(charBuffer[..], s, p, r.value);
        LeafReadable(node, kind, p, s, if kind == PlainText then value.end else r.value);
        if kind == PlainText {
          r := if charBuffer[r.value] != 0 then Some(r.value - 1) else None;
        }
      }
    }

    /** The tag that the fields of an element spell. */
    static ghost function TagOf(node: XMLNode): Token
      reads node
    {
      match node.closingType
      case OPEN => OpenTag(SpanOf(node.value), RawAttrs(node.attrs))
      case CLOSED => SealedTag(SpanOf(node.value), RawAttrs(node.attrs))
      case CLOSING => CloseTag(SpanOf(node.value))
    }

    /** An element of which only the tag was read, from `lo` to `hi`; its name was not read yet. */
    ghost predicate TagNode(node: XMLNode, s: bytes, lo: nat, hi: nat)
      reads this, charBuffer, node
    {
      && node.kind == ElementKind && node.kids == [] && node.repr == {node}
      && node.value == Pair(node.value.start, node.value.end, NO_FLAGS) && !node.value.Empty()
      && node.tree == RawElement(SpanOf(node.value), RawAttrs(node.attrs), node.closingType == CLOSED, [])
      && Neat(RecordOf(node), charBuffer[..], s, lo, hi)
    }

    /** The tag was read, as the text says. */
    ghost predicate HeadRead(node: XMLNode, s: bytes, p: nat, r: Option<nat>)
      requires p <= |s|
      reads this, charBuffer, node
    {
      match LexTag(s, p)
      case LexFail(error) => r == None && Reports(error)
      case LexEnd => false
      case Lex(token, next) =>
        r == Some(next) && errorID == NoError && Tail(charBuffer[..], s, next) && TagNode(node, s, p, next)
        && token == TagOf(node)
    }

    /** The tag part of `XMLElement::ParseDeep`. */
    method ParseHead(node: XMLNode, p: nat, ghost s: bytes, ghost was: Before) returns (r: Option<nat>)
      requires NewlyMade(node) && node.kind == ElementKind && Kept(node, p, was) && NoNul(s) && Tail(charBuffer[..], s, p) && errorID == NoError
      modifies `live, `errorID, Pools(), charBuffer
      modifies node`attrs, node`chunks, node`value, node`closingType, node`tree
      ensures Kept(node, p, was) && HeadRead(node, s, p, r)
    {
      hide MemPool.Valid, PoolsOk, Owned, RawAttrs, Decode, Neat, ParseAttrs, ParseName, Kept, AttrsSoFar;
      PoolsApart();
      var k := SkipWhiteSpace(charBuffer, p, s);
      if charBuffer[k] == SLASH {
        node.closingType := CLOSING;
        k := k + 1;
      }
      var value;
      r, value := ScanName(charBuffer, k, node.value, s);
      node.value := value;
      if node.value.Empty() {
        r := None;
        return;
      }
      r := TagRest(node, p, k, r.value, s, was);
    }

    lemma TagEntered(node: XMLNode, p: nat, n: nat, e: nat, s: bytes, was: Before)
      requires Kept(node, p, was) && NoNul(s) && Tail(charBuffer[..], s, p) && errorID == NoError && node.attrs == []
      requires p <= n <= |s| && ParseName(s, n) == Some(e) && node.value == Pair(n, e, NO_FLAGS)
      ensures var now := Before(charBuffer[..], live, node.chunks, node.value, node.closingType);
              Kept(node, e, now) && InTag(node, s, e, e, now)
    {
      hide PoolsOk, Owned, MemPool.Valid;
      TailStored(charBuffer[..], s, p, node.value);
      assert RawAttrs([]) == [];
    }

    /** `ParseAttributes` after the name. */
    method TagRest(node: XMLNode, ghost p: nat, ghost n: nat, e: nat, ghost s: bytes, ghost was: Before)
      returns (r: Option<nat>)
      requires Kept(node, p, was) && NoNul(s) && Tail(charBuffer[..], s, p) && errorID == NoError && node.attrs == []
      requires p <= n <= |s| && ParseName(s, n) == Some(e) && node.value == Pair(n, e, NO_FLAGS)
      requires node.kind == ElementKind && node.kids == [] && node.repr == {node} && node.closingType != CLOSED
      modifies `live, `errorID, Pools(), charBuffer
      modifies node`attrs, node`chunks, node`value, node`closingType, node`tree
      ensures Kept(node, p, was)
      ensures match ParseAttrs(s, e, [])
              case AttrsFail(error) => r == None && errorID == error
              case AttrsOk(attrs, sealed, next) =>
                r == Some(next) && errorID == NoError && Tail(charBuffer[..], s, next) && TagNode(node, s, p, next)
                && node.value == old(node.value) && RawAttrs(node.attrs) == attrs
                && node.closingType == if sealed then CLOSED else old(node.closingType)
    {
      hide MemPool.Valid, PoolsOk, Owned, RawAttrs, Decode, Neat, ParseAttrs, ParseName, Agree, AttrsNeat, InTag;
      TagEntered(node, p, n, e, s, was);
      ghost var now := Before(charBuffer[..], live, node.chunks, node.value, node.closingType);
      r := ParseAttributes(node, e, s, now);
      Balance(was.live, was.chunks, now.live, now.chunks, live, node.chunks);
      AgreeFewer(was.b, now.b, charBuffer[..], p, e);
      if r != None {
        UnreadFrame(now.b, charBuffer[..], s, node.value);
        ElementNeat(node.value, node.attrs, charBuffer[..], s, p, e + 1, r.value);
        PoolsApart();
        node.tree := RawElement(SpanOf(node.value), RawAttrs(node.attrs), node.closingType == CLOSED, []);
      }
    }

    /** `XMLDocument::Identify`. */
    method Identify(p: nat, ghost s: bytes) returns (q: nat, node: XMLNode?)
      requires PoolsOk() && NoNul(s) && Tail(charBuffer[..], s, p)
      modifies `live, Pools()
      ensures PoolsOk() && live == old(live) + (if node == null then multiset{} else node.chunks)
      ensures node != null ==> fresh(node) && NewlyMade(node)
      ensures match Parsing.Identify(s, p)
              case Nothing => node == null
              case Leaf(kind, next) => node != null && node.kind == LeafNodeKind(kind) && q == next
              case Tag(next) => node != null && node.kind == ElementKind && q == next
    {
      hide PoolsOk, Owned, At, MemPool.Valid;
      node := null;
      q := SkipWhiteSpace(charBuffer, p, s);
      TailAt(charBuffer[..], s, p, q);
      if charBuffer[q] == 0 {
        return;
      }
      assert Tail(charBuffer[..], s, q);
      var kind: NodeKind;
      kind, q := Classify(p, q, s);
      node := NewNode(kind);
    }

    /** The headers in the order in which `Identify` tries them. */
    method Classify(start: nat, p: nat, ghost s: bytes) returns (kind: NodeKind, q: nat)
      requires NoNul(s) && Tail(charBuffer[..], s, p) && p < |s| && start <= p == SkipSpace(s, start)
      ensures kind != DocumentKind
      ensures Parsing.Identify(s, start) == match kind
                                            case LeafNodeKind(leaf) => Leaf(leaf, q)
                                            case _ => Tag(q)
    {
      hide At, Tail;
      var b := StartsWith(charBuffer, p, XML_HEADER, s);
      if b { return LeafNodeKind(Declaration), p + 2; }
      b := StartsWith(charBuffer, p, COMMENT_HEADER, s);
      if b { return LeafNodeKind(Comment), p + 4; }
      b := StartsWith(charBuffer, p, CDATA_HEADER, s);
      if b { return LeafNodeKind(CData), p + 9; }
      b := StartsWith(charBuffer, p, DTD_HEADER, s);
      if b { return LeafNodeKind(Unknown), p + 2; }
      b := StartsWith(charBuffer, p, ELEMENT_HEADER, s);
      if b { return ElementKind, p + 1; }
      return LeafNodeKind(PlainText), start;
    }

    /** A node as the constructors make it. */
    static ghost predicate NewlyMade(node: XMLNode)
      reads node, node.repr
    {
      && Owned(node) && node.kind != DocumentKind && node.kids == [] && node.attrs == [] && node.repr == {node}
      && node.value == EMPTY_PAIR && node.closingType == OPEN && node.parent == null
    }

    static ghost predicate NoDocument(part: set<XMLNode>) {
      forall m :: m in part ==> m.kind != DocumentKind
    }

    /** What `XMLNode::ParseDeep` leaves of a node whose tree was `bare`. */
    ghost predicate LevelRead(n: XMLNode, s: bytes, p: nat, r: Option<nat>, endTag: StrPair, bare: RawNode)
      requires p <= |s|
      reads this, charBuffer, n, n.repr
    {
      var level := ParseLevel(s, p);
      && bare.RawElement? && n.tree == RawElement(bare.name, bare.attrs, bare.sealed, level.nodes)
      && Shaped(n) && NoDocument(n.repr - {n})
      && match level.finish
         case AtEnd =>
           r == None && errorID == NoError && Readable(n.repr - {n}, charBuffer[..], s, Floor(s, p), |s|)
         case Failed(error) =>
           r == None && errorID == error && Readable(n.repr - {n}, charBuffer[..], s, Floor(s, p), |s|)
         case AtClose(name, next) =>
           && r == Some(next) && errorID == NoError && Tail(charBuffer[..], s, next)
           && EndTag(s, name, next, endTag) && Floor(s, p) <= name.start
           && Readable(n.repr - {n}, charBuffer[..], s, Floor(s, p), name.start)
    }

    /** The pair of an end tag that ends in front of `next`; it was not read yet. */
    ghost predicate EndTag(s: bytes, name: Span, next: nat, endTag: StrPair)
      reads `charBuffer, charBuffer
    {
      && endTag == Pair(name.start, name.end, NO_FLAGS) && name.start < name.end < next
      && Stored(charBuffer[..], s, endTag, NO_FLAGS)
    }

    /** What `XMLElement::ParseDeep` leaves. */
    ghost predicate ElementRead(node: XMLNode, s: bytes, p: nat, r: Option<nat>, endTag: StrPair)
      requires p <= |s|
      reads this, charBuffer, node, node.repr
    {
      match LexTag(s, p)
      case LexFail(error) => r == None && Reports(error) && NoDocument(node.repr)
      case LexEnd => false
      case Lex(token, next) =>
        if token.OpenTag? && next < |s| then
          && node.kind == ElementKind && node.closingType == OPEN && TagOf(node) == token
          && LevelRead(node, s, next, r, endTag, RawElement(token.name, token.attrs, false, []))
          && node.value == Pair(token.name.start, token.name.end, NO_FLAGS)
          && Neat(RecordOf(node), charBuffer[..], s, p, next)
        else
          && r == Some(next) && errorID == NoError && Tail(charBuffer[..], s, next) && TagNode(node, s, p, next)
          && token == TagOf(node) && endTag.Empty()
    }

    /** `XMLElement::ParseDeep`. */
    method ParseElement(node: XMLNode, p: nat, ghost s: bytes, ghost was: Before)
      returns (r: Option<nat>, endTag: StrPair)
      requires NewlyMade(node) && node.kind == ElementKind && Kept(node, p, was)
      requires NoNul(s) && Tail(charBuffer[..], s, p) && errorID == NoError
      modifies `live, `errorID, Pools(), charBuffer, node
      ensures Kept(node, p, was) && ElementRead(node, s, p, r, endTag) && node.parent == null
      ensures forall m :: m in node.repr ==> m == node || fresh(m)
      decreases |s| - p, 1
    {
      hide MemPool.Valid, PoolsOk, Owned, RawAttrs, Decode, Neat, Kept, LexTag, LevelRead, Readable, Shaped, Tail, Agree;
      endTag := EMPTY_PAIR;
      r := ParseHead(node, p, s, was);
      if r == None {
        return;
      }
      TailAt(charBuffer[..], s, r.value, r.value);
      if charBuffer[r.value] == 0 || node.closingType != OPEN {
        return;
      }
      var next := r.value;
      ghost var now := Before(charBuffer[..], live, node.chunks, node.value, node.closingType);
      HeadDone(node, p, next, s, was, now);
      LevelBegins(node, s, next, now);
      r, endTag := ParseDeep(node, next, s, node.tree, now);
      BodyDone(node, p, next, s, was, now);
    }

    lemma HeadDone(node: XMLNode, p: nat, next: nat, s: bytes, was: Before, now: Before)
      requires Kept(node, p, was) && TagNode(node, s, p, next) && node.closingType == OPEN && next <= |s|
      requires now == Before(charBuffer[..], live, node.chunks, node.value, node.closingType)
      ensures Kept(node, Floor(s, next), now) && Shaped(node)
      ensures was.live + now.chunks == now.live + was.chunks && Agree(was.b, now.b, 0, p)
    {
      hide PoolsOk, Owned, Neat, Decode;
    }

    lemma BodyDone(node: XMLNode, p: nat, next: nat, s: bytes, was: Before, now: Before)
      requires Kept(node, Floor(s, next), now) && p <= next <= |s|
      requires was.live + now.chunks == now.live + was.chunks && Agree(was.b, now.b, 0, p)
      requires Neat(RecordOf(node), now.b, s, p, next)
      ensures Kept(node, p, was) && Neat(RecordOf(node), charBuffer[..], s, p, next)
    {
      hide PoolsOk, Owned, Decode;
      Balance(was.live, was.chunks, now.live, now.chunks, live, node.chunks);
      AgreeFewer(was.b, now.b, charBuffer[..], p, Floor(s, next));
      NeatFrame(RecordOf(node), now.b, charBuffer[..], s, p, next);
    }

    /** The loop of `XMLNode::ParseDeep` that began at `start`, with the cursor at `p`. */
    ghost predicate LevelLoop(n: XMLNode, s: bytes, start: nat, p: nat, done: bool, r: Option<nat>, endTag: StrPair,
                              bare: RawNode, was: Before)
      reads this, Pools(), charBuffer, n, n.repr
    {
      && Kept(n, Floor(s, start), was) && start <= p <= |s| && NoNul(s)
      && if done then LevelRead(n, s, start, r, endTag, bare) else LevelSoFar(n, s, start, p, bare)
    }

    ghost predicate LevelSoFar(n: XMLNode, s: bytes, start: nat, p: nat, bare: RawNode)
      requires start <= p <= |s|
      reads this, charBuffer, n, n.repr
    {
      && errorID == NoError && Tail(charBuffer[..], s, p) && bare.RawElement? && n.tree.RawElement?
      && n.tree == RawElement(bare.name, bare.attrs, bare.sealed, n.tree.children)
      && Shaped(n) && NoDocument(n.repr - {n})
      && Readable(n.repr - {n}, charBuffer[..], s, Floor(s, start), Floor(s, p))
      && ParseLevel(s, start) == Level(n.tree.children + ParseLevel(s, p).nodes, ParseLevel(s, p).finish)
    }

    /** `XMLNode::ParseDeep`. */
    method ParseDeep(n: XMLNode, p: nat, ghost s: bytes, ghost bare: RawNode, ghost was: Before)
      returns (r: Option<nat>, endTag: StrPair)
      requires LevelLoop(n, s, p, p, false, None, EMPTY_PAIR, bare, was)
      requires p < charBuffer.Length && p <= |s| && n.repr == {n} && n.kids == []
      modifies `live, `errorID, Pools(), charBuffer
      modifies n`firstChild, n`lastChild, n`kids, n`repr, n`chunks, n`tree
      ensures LevelLoop(n, s, p, p, true, r, endTag, bare, was)
      ensures forall m :: m in n.repr ==> m == n || fresh(m)
      decreases |s| - p, 5
    {
      hide LevelLoop, ParseLevel, ParseOne;
      var cursor: nat, done := p, false;
      r, endTag := None, EMPTY_PAIR;
      while !done && charBuffer[cursor] != 0
        invariant LevelLoop(n, s, p, cursor, done, r, endTag, bare, was)
        invariant cursor < charBuffer.Length
        invariant forall m :: m in n.repr ==> m == n || fresh(m)
        invariant forall i :: 0 <= i < |n.kids| ==> fresh(n.kids[i])
        invariant cursor <= |s| && (!done ==> r == None && endTag == EMPTY_PAIR)
        decreases !done, |s| - cursor
      {
        done, r, endTag, cursor := NextChild(n, cursor, s, p, bare, was);
      }
      LevelDone(n, s, p, cursor, done, r, endTag, bare, was);
    }

    /** The loop is over: at a NUL, or with its result. */
    lemma LevelDone(n: XMLNode, s: bytes, start: nat, p: nat, done: bool, r: Option<nat>, endTag: StrPair,
                    bare: RawNode, was: Before)
      requires p < charBuffer.Length && LevelLoop(n, s, start, p, done, r, endTag, bare, was)
      requires done || (charBuffer[p] == 0 && r == None && endTag == EMPTY_PAIR)
      ensures LevelLoop(n, s, start, start, true, r, endTag, bare, was)
    {
      hide Kept, LevelRead, LevelSoFar;
      if !done {
        LevelEnds(n, s, start, p, bare, was);
      }
    }

    lemma LevelEnds(n: XMLNode, s: bytes, start: nat, p: nat, bare: RawNode, was: Before)
      requires p < charBuffer.Length && LevelLoop(n, s, start, p, false, None, EMPTY_PAIR, bare, was)
      requires charBuffer[p] == 0
      ensures LevelRead(n, s, start, None, EMPTY_PAIR, bare)
    {
      hide Kept, Shaped, Readable, ParseOne;
      TailAt(charBuffer[..], s, p, p);
      OneIs(s, p);
      assert ParseLevel(s, p) == Level([], AtEnd);
      assert n.tree.children + [] == n.tree.children;
    }

    lemma LevelBegins(n: XMLNode, s: bytes, p: nat, was: Before)
      requires Kept(n, Floor(s, p), was) && NoNul(s) && Tail(charBuffer[..], s, p) && errorID == NoError
      requires n.kids == [] && n.repr == {n} && n.tree.RawElement? && n.tree.children == [] && Shaped(n)
      ensures LevelLoop(n, s, p, p, false, None, EMPTY_PAIR, n.tree, was) && p < charBuffer.Length && p <= |s|
    {
      hide Kept, Shaped, Tail, ParseLevel;
      Length(charBuffer[..], s, p);
      assert n.repr - {n} == {};
      assert [] + ParseLevel(s, p).nodes == ParseLevel(s, p).nodes;
    }

    /** One round of the loop. */
    method NextChild(n: XMLNode, p: nat, ghost s: bytes, ghost start: nat, ghost bare: RawNode, ghost was: Before)
      returns (done: bool, r: Option<nat>, endTag: StrPair, p': nat)
      requires p <= |s| && LevelLoop(n, s, start, p, false, None, EMPTY_PAIR, bare, was)
      modifies `live, `errorID, Pools(), charBuffer
      modifies n`firstChild, n`lastChild, n`kids, n`repr, n`chunks, n`tree, n.kids`next
      ensures LevelLoop(n, s, start, p', done, r, endTag, bare, was) && p' <= |s| && p' < charBuffer.Length
      ensures !done ==> p < p' && r == None && endTag == EMPTY_PAIR
      ensures forall m :: m in n.repr ==> m in old(n.repr) || fresh(m)
      ensures forall i :: 0 <= i < |n.kids| ==> (i < |old(n.kids)| && n.kids[i] == old(n.kids)[i]) || fresh(n.kids[i])
      decreases |s| - p, 4
    {
      hide PoolsOk, Owned, MemPool.Valid, Shaped, Readable, ParseLevel, ParseOne, Tail, Stored, Agree, NoNul, LevelRead;
      ghost var b, live1 := charBuffer[..], live;
      InPart(n);
      Length(b, s, p);
      LevelIs(s, p);
      var node: XMLNode?, closing: bool;
      r, node, closing, endTag := NextNode(p, s);
      done, p' := true, p;
      if node == null {
        NoChild(n, s, start, p, b, closing, r, endTag, bare);
        LoopKept(n, s, start, p, was, live1, b);
      } else {
        InPart(node);
        AddChild(n, node, s, start, p, r.value, bare, was, live1, b);
        done, p', r, endTag := false, r.value, None, EMPTY_PAIR;
      }
    }

    /** `InsertEndChild` of the node that was read between `p` and `next`. */
    method AddChild(n: XMLNode, node: XMLNode, ghost s: bytes, ghost start: nat, ghost p: nat, ghost next: nat,
                    ghost bare: RawNode, ghost was: Before, ghost live1: multiset<Chunk>, ghost b: bytes)
      requires start <= p < next <= |s| && PoolsOk() && Owned(n) && errorID == NoError && NoNul(s)
      requires n.chunks <= live1 && was.live + n.chunks == live1 + was.chunks && live == live1 + node.chunks
      requires Agree(was.b, b, 0, Floor(s, start)) && Agree(b, charBuffer[..], 0, Floor(s, p))
      requires bare.RawElement? && n.tree.RawElement?
      requires n.tree == RawElement(bare.name, bare.attrs, bare.sealed, n.tree.children)
      requires Shaped(n) && NoDocument(n.repr - {n}) && Readable(n.repr - {n}, b, s, Floor(s, start), Floor(s, p))
      requires ParseLevel(s, start) == Level(n.tree.children + ParseLevel(s, p).nodes, ParseLevel(s, p).finish)
      requires Tail(charBuffer[..], s, next) && ParseOne(s, p) == OneNode(node.tree, next)
      requires Ready(node, node.tree, s, Floor(s, p), Floor(s, next)) && n.repr !! node.repr
      modifies n`firstChild, n`lastChild, n`kids, n`repr, n`chunks, n`tree
      modifies n.kids`next, node`prev, node`next, node`parent
      ensures LevelLoop(n, s, start, next, false, None, EMPTY_PAIR, bare, was)
      ensures n.kids == old(n.kids) + [node] && n.repr == old(n.repr) + node.repr
    {
      hide PoolsOk, Owned, MemPool.Valid, Shaped, Readable, ParseLevel, ParseOne, Tail, Agree, NoNul;
      ghost var part, children := n.repr - {n}, n.tree.children;
      InPart(n);
      LevelIs(s, p);
      ConcatAssoc(children, [node.tree], ParseLevel(s, next).nodes);
      AgreeFewer(was.b, b, charBuffer[..], Floor(s, start), Floor(s, p));
      AgreeFrom(b, charBuffer[..], Floor(s, start), Floor(s, p));
      ReadableFrame(part, b, charBuffer[..], s, Floor(s, start), Floor(s, p));
      ReadableUnion(part, node.repr, charBuffer[..], s, Floor(s, start), Floor(s, p), Floor(s, next));
      Grow(was.live, was.chunks, live1, n.chunks, node.chunks);
      NodesApart({n, node} + set k | k in n.kids);
      Adopt(n, node);
      assert n.repr - {n} == part + node.repr;
    }

    /** The level ends without another child. */
    lemma NoChild(n: XMLNode, s: bytes, start: nat, p: nat, b: bytes, closing: bool, r: Option<nat>, endTag: StrPair,
                  bare: RawNode)
      requires start <= p <= |s| && NodeRead(null, s, p, ParseOne(s, p), r, closing, endTag, live)
      requires bare.RawElement? && n.tree.RawElement?
      requires n.tree == RawElement(bare.name, bare.attrs, bare.sealed, n.tree.children)
      requires Shaped(n) && NoDocument(n.repr - {n}) && Agree(b, charBuffer[..], 0, Floor(s, p))
      requires Readable(n.repr - {n}, b, s, Floor(s, start), Floor(s, p))
      requires ParseLevel(s, start) == Level(n.tree.children + ParseLevel(s, p).nodes, ParseLevel(s, p).finish)
      ensures LevelRead(n, s, start, r, endTag, bare)
    {
      hide Shaped, ParseLevel, ParseOne, Neat;
      LevelIs(s, p);
      assert n.tree.children + [] == n.tree.children;
      ReadableFrame(n.repr - {n}, b, charBuffer[..], s, Floor(s, start), Floor(s, p));
      var hi := if ParseOne(s, p).OneClose? then ParseOne(s, p).name.start else |s|;
      ReadableWider(n.repr - {n}, charBuffer[..], s, Floor(s, start), Floor(s, p), Floor(s, start), hi);
    }

    lemma LoopKept(n: XMLNode, s: bytes, start: nat, p: nat, was: Before, live1: multiset<Chunk>, b: bytes)
      requires PoolsOk() && Owned(n) && live == live1 && start <= p
      requires n.chunks <= live1 && was.live + n.chunks == live1 + was.chunks
      requires Agree(was.b, b, 0, Floor(s, start)) && Agree(b, charBuffer[..], 0, Floor(s, p))
      ensures Kept(n, Floor(s, start), was)
    {
      hide PoolsOk, Owned;
    }

    /** Both names are read and compared. */
    method CheckEndTag(node: XMLNode, endTag: StrPair, ghost s: bytes, ghost lo: nat, ghost mid: nat,
                       ghost name: Span, ghost next: nat) returns (same: bool)
      requires NoNul(s) && Tail(charBuffer[..], s, next) && EndTag(s, name, next, endTag)
      requires BodyRead(node, charBuffer[..], s, lo, mid, name.start)
      modifies charBuffer, node`value
      ensures same <==> Slice(s, name) == Slice(s, old(SpanOf(node.value)))
      ensures Tail(charBuffer[..], s, next) && Agree(old(charBuffer[..]), charBuffer[..], 0, lo)
      ensures BodyRead(node, charBuffer[..], s, lo, mid, name.start) && SpanOf(node.value) == old(SpanOf(node.value))
    {
      hide Decode, Stored, TextAt, Neat, Readable, BodyRead, Agree, OnlyRange, Tail;
      ghost var b0, r := charBuffer[..], RecordOf(node);
      InBody(node, b0, s, lo, mid, name.start);
      Length(b0, s, next);
      var e := ReadName(endTag, s);
      ghost var b1 := charBuffer[..];
      AgreeLess(b0, b1, name.start, name.end);
      BodyFrame(node, b0, b1, s, lo, mid, name.start);
      InBody(node, b1, s, lo, mid, name.start);
      TailFrame(b0, b1, s, name.end + 1, next);
      node.value := ReadName(node.value, s);
      ghost var b2 := charBuffer[..];
      BodyAfter(node, r, b1, b2, s, lo, mid, name.start);
      TailFrame(b1, b2, s, node.value.end + 1, next);
      StoredApart(b1, b2, s, e, NO_FLAGS, r.value);
      NameText(b2, s, e);
      AgreeLess(b0, b1, lo, name.end);
      AgreeLess(b1, b2, lo, node.value.end);
      AgreeTrans(b0, b1, b2, 0, lo);
      same := SameString(charBuffer, endTag.start, node.value.start, Slice(s, name), Slice(s, SpanOf(node.value)));
    }

    /** A complete node, not yet linked, with its strings in `lo..hi`. */
    ghost predicate Ready(node: XMLNode, raw: RawNode, s: bytes, lo: nat, hi: nat)
      reads this, charBuffer, node, node.repr
    {
      && Owned(node) && Shaped(node) && node.tree == raw && node.parent == null && NoDocument(node.repr)
      && Readable(node.repr, charBuffer[..], s, lo, hi)
    }

    /** DELETE_NODE of a node that the parser has just made: the chunks are those from before it. */
    method Drop(node: XMLNode, ghost lo: nat, ghost was: Before, ghost live0: multiset<Chunk>)
      requires Kept(node, lo, was) && was.live == live0 + was.chunks && node.parent == null && NoDocument(node.repr)
      modifies `live, Pools(), node.repr
      ensures PoolsOk() && live == live0 && charBuffer[..] == old(charBuffer[..])
    {
      hide PoolsOk, Owned, MemPool.Valid, Agree;
      ghost var c, live1 := node.chunks, live;
      DeleteNode(node);
      forall x ensures live[x] == live0[x] {
        assert (was.live + c)[x] == (live1 + was.chunks)[x] && live1[x] == (live + c)[x] && was.live[x] == (live0 + was.chunks)[x];
      }
    }

    lemma KeptAfter(node: XMLNode, p: nat, was: Before, b: bytes)
      requires PoolsOk() && Owned(node) && node.chunks <= live && was.live + node.chunks == live + was.chunks
      requires Agree(was.b, b, 0, p) && Agree(b, charBuffer[..], 0, p)
      ensures Kept(node, p, was)
    {
    }

    /** An element whose children were read up to an end tag. */
    lemma ElementHasBody(node: XMLNode, s: bytes, p: nat, r: nat, endTag: StrPair)
      requires p <= |s| && ElementRead(node, s, p, Some(r), endTag) && !endTag.Empty() && node in node.repr
      ensures node.closingType == OPEN && NoDocument(node.repr) && Shaped(node) && errorID == NoError
      ensures Tail(charBuffer[..], s, r) && EndTag(s, SpanOf(endTag), r, endTag) && endTag.start <= r
      ensures var lex := LexTag(s, p);
              lex.Lex? && BodyRead(node, charBuffer[..], s, p, Floor(s, lex.next), endTag.start)
      ensures AfterTag(s, LexTag(s, p)) ==
              if Slice(s, SpanOf(endTag)) == Slice(s, SpanOf(node.value)) then OneNode(node.tree, r)
              else OneFail(MismatchedElement)
    {
      hide Tail, Stored, Neat, Readable, Decode, Shaped, LexTag;
      var next := LexTag(s, p).next;
      NeatWider(RecordOf(node), charBuffer[..], s, p, next, p, Floor(s, next));
    }

    /** An element that is complete with its tag, or that the text ends behind. */
    lemma ElementIsTag(node: XMLNode, s: bytes, p: nat, r: nat, endTag: StrPair)
      requires p <= |s| && ElementRead(node, s, p, Some(r), endTag) && endTag.Empty() && node.closingType != CLOSING
      ensures errorID == NoError && Tail(charBuffer[..], s, r) && TagNode(node, s, p, r)
      ensures Stored(charBuffer[..], s, node.value, NO_FLAGS) && p <= node.value.end
      ensures AfterTag(s, LexTag(s, p)) ==
              if node.closingType == OPEN then OneFail(MismatchedElement) else OneNode(node.tree, r)
    {
      hide Tail, Readable, Decode, Shaped, LexTag;
      assert StoredAt(RecordOf(node), charBuffer[..], s, p, r, ValueSlot);
    }

    lemma TagReady(node: XMLNode, s: bytes, p: nat, r: nat)
      requires TagNode(node, s, p, r) && Owned(node) && node.parent == null
      ensures Ready(node, node.tree, s, p, r) && NoDocument(node.repr)
    {
      hide Owned, Neat;
    }

    lemma BodyReady(node: XMLNode, s: bytes, p: nat, mid: nat, hi: nat, r: nat)
      requires BodyRead(node, charBuffer[..], s, p, mid, hi) && p <= mid && hi <= r && node in node.repr
      requires Owned(node) && Shaped(node) && node.parent == null && NoDocument(node.repr)
      ensures Ready(node, node.tree, s, p, r)
    {
      hide Owned, Neat, Shaped;
      ReadableUnion({node}, node.repr - {node}, charBuffer[..], s, p, mid, hi);
      assert {node} + (node.repr - {node}) == node.repr;
      ReadableWider(node.repr, charBuffer[..], s, p, hi, p, r);
    }

    /**
     The checks of `XMLNode::ParseDeep` after an element that is not an end tag: an open
     element must have met its end tag, and the names must agree.
     */
    method CheckElement(node: XMLNode, r: nat, endTag: StrPair, p: nat, ghost s: bytes, ghost was: Before)
      returns (ok: bool)
      requires Kept(node, p, was) && NoNul(s) && p <= |s| && ElementRead(node, s, p, Some(r), endTag)
      requires node.closingType != CLOSING && node.parent == null && node in node.repr
      modifies `errorID, charBuffer, node`value
      ensures Kept(node, p, was) && NoDocument(node.repr)
      ensures match AfterTag(s, LexTag(s, p))
              case OneNode(raw, next) =>
                ok && next == r && errorID == NoError && Tail(charBuffer[..], s, r) && Ready(node, raw, s, p, r)
              case OneFail(error) => !ok && errorID == error
              case _ => false
    {
      hide PoolsOk, Owned, MemPool.Valid, Tail, Stored, Neat, Readable, Decode, Shaped, LexTag, ElementRead, AfterTag, NoNul,
           Agree, BodyRead, EndTag, TagNode;
      PoolsApart();
      ghost var b := charBuffer[..];
      if endTag.Empty() {
        ElementIsTag(node, s, p, r, endTag);
        TagReady(node, s, p, r);
        ok := node.closingType != OPEN;
        if !ok {
          Length(b, s, r);
          node.value := ReadName(node.value, s);
          AgreeLess(b, charBuffer[..], p, node.value.end);
          KeptAfter(node, p, was, b);
        }
      } else {
        ElementHasBody(node, s, p, r, endTag);
        ghost var mid := Floor(s, LexTag(s, p).next);
        ok := CheckEndTag(node, endTag, s, p, mid, SpanOf(endTag), r);
        KeptAfter(node, p, was, b);
        ReadShaped(node, node);
        if ok {
          BodyReady(node, s, p, mid, endTag.start, r);
        }
      }
      if !ok {
        errorID := MismatchedElement;
      }
    }

    lemma ElementFailed(node: XMLNode, s: bytes, p: nat, endTag: StrPair)
      requires p <= |s| && ElementRead(node, s, p, None, endTag) && node.kind == ElementKind
      ensures NoDocument(node.repr)
      ensures var one := AfterTag(s, LexTag(s, p)); one.OneFail? && Reports(one.error)
    {
      hide LexTag, Readable, Shaped, Neat;
    }

    lemma ElementCloses(node: XMLNode, s: bytes, p: nat, r: nat, endTag: StrPair)
      requires p <= |s| && ElementRead(node, s, p, Some(r), endTag) && node.closingType == CLOSING
      ensures NoDocument(node.repr) && errorID == NoError && Tail(charBuffer[..], s, r)
      ensures AfterTag(s, LexTag(s, p)) == OneClose(SpanOf(node.value), r)
      ensures EndTag(s, SpanOf(node.value), r, node.value) && p <= node.value.start
    {
      hide LexTag, Tail;
      assert StoredAt(RecordOf(node), charBuffer[..], s, p, r, ValueSlot);
    }

    /** One round of `XMLNode::ParseDeep` for an element, up to the linking. */
    method ReadElement(node: XMLNode, p: nat, ghost s: bytes, ghost was: Before, ghost live0: multiset<Chunk>)
      returns (r: Option<nat>, closing: bool, endTag: StrPair)
      requires NewlyMade(node) && node.kind == ElementKind && Kept(node, p, was) && was.live == live0 + was.chunks
      requires NoNul(s) && Tail(charBuffer[..], s, p) && errorID == NoError
      modifies `live, `errorID, Pools(), charBuffer, node
      ensures PoolsOk() && Agree(was.b, charBuffer[..], 0, p)
      ensures match AfterTag(s, LexTag(s, p))
              case OneNode(raw, next) =>
                r == Some(next) && !closing && errorID == NoError && Tail(charBuffer[..], s, next)
                && Ready(node, raw, s, p, next) && Kept(node, p, was)
                && (forall m :: m in node.repr ==> m == node || fresh(m))
              case OneClose(name, next) =>
                r == Some(next) && closing && errorID == NoError && Tail(charBuffer[..], s, next)
                && EndTag(s, name, next, endTag) && p <= name.start && live == live0
              case OneFail(error) => r == None && !closing && errorID == error && live == live0
              case OneEnd => false
      decreases |s| - p, 2
    {
      hide MemPool.Valid, PoolsOk, Owned, RawAttrs, Decode, Neat, LexTag, LevelRead, Readable, Shaped, Tail, Agree,
           TagNode, Stored;
      Length(charBuffer[..], s, p);
      closing := false;
      r, endTag := ParseElement(node, p, s, was);
      if r == None {
        ElementFailed(node, s, p, endTag);
        Drop(node, p, was, live0);
        if errorID == NoError {
          errorID := ParsingError;
        }
      } else if node.closingType == CLOSING {
        ElementCloses(node, s, p, r.value, endTag);
        closing, endTag := true, node.value;
        Drop(node, p, was, live0);
      } else {
        InPart(node);
        var ok := CheckElement(node, r.value, endTag, p, s, was);
        if !ok {
          Drop(node, p, was, live0);
          r := None;
        }
      }
    }

    /** The same for a leaf. */
    method ReadLeaf(node: XMLNode, p: nat, ghost s: bytes, ghost was: Before, ghost live0: multiset<Chunk>)
      returns (r: Option<nat>)
      requires NewlyMade(node) && node.kind.LeafNodeKind? && Kept(node, p, was) && was.live == live0 + was.chunks
      requires NoNul(s) && Tail(charBuffer[..], s, p) && errorID == NoError
      modifies `live, `errorID, Pools(), node
      ensures PoolsOk() && charBuffer[..] == old(charBuffer[..]) && (r != None ==> node.repr == {node})
      ensures match AfterTag(s, LexLeaf(s, node.kind.leaf, p))
              case OneNode(raw, next) =>
                r == Some(next) && errorID == NoError && Tail(charBuffer[..], s, next)
                && Ready(node, raw, s, p, Floor(s, next)) && Kept(node, p, was)
              case OneFail(error) => r == None && errorID == error && live == live0
              case _ => false
    {
      hide MemPool.Valid, PoolsOk, Owned, RawAttrs, Decode, Neat, LexLeaf, Readable, Shaped, Agree;
      PoolsApart();
      r := ParseLeaf(node, node.kind.leaf, p, s);
      if r == None {
        Drop(node, p, was, live0);
        if errorID == NoError {
          errorID := ParsingError;
        }
      }
    }

    /** What the loop of `XMLNode::ParseDeep` has of its next node, when the text says `one`. */
    ghost predicate NodeRead(node: XMLNode?, s: bytes, p: nat, one: One, r: Option<nat>, closing: bool,
                             endTag: StrPair, live0: multiset<Chunk>)
      reads this, charBuffer, if node == null then {} else {node} + node.repr
    {
      match one
      case OneEnd => node == null && r == None && !closing && errorID == NoError && live == live0
      case OneFail(error) => node == null && r == None && !closing && errorID == error && live == live0
      case OneClose(name, next) =>
        && node == null && r == Some(next) && closing && errorID == NoError && live == live0
        && Tail(charBuffer[..], s, next) && EndTag(s, name, next, endTag) && Floor(s, p) <= name.start
      case OneNode(raw, next) =>
        && node != null && r == Some(next) && !closing && errorID == NoError && live == live0 + node.chunks
        && Tail(charBuffer[..], s, next) && Ready(node, raw, s, Floor(s, p), Floor(s, next))
    }

    lemma JustMade(node: XMLNode, q: nat, was: Before, live0: multiset<Chunk>)
      requires PoolsOk() && Owned(node) && live == live0 + node.chunks
      requires was == Before(charBuffer[..], live, node.chunks, node.value, node.closingType)
      ensures Kept(node, q, was) && was.live == live0 + was.chunks
    {
      hide PoolsOk, Owned;
    }

    lemma NodeDone(node: XMLNode, raw: RawNode, s: bytes, lo: nat, hi: nat, p: nat, next: nat, was: Before,
                   live0: multiset<Chunk>)
      requires Ready(node, raw, s, lo, hi) && Floor(s, p) <= lo && hi <= Floor(s, next)
      requires Kept(node, lo, was) && was.live == live0 + was.chunks
      ensures Ready(node, raw, s, Floor(s, p), Floor(s, next)) && live == live0 + node.chunks
    {
      hide PoolsOk, Owned, Shaped;
      ReadableWider(node.repr, charBuffer[..], s, lo, hi, Floor(s, p), Floor(s, next));
      forall x ensures live[x] == (live0 + node.chunks)[x] {
        assert (was.live + node.chunks)[x] == (live + was.chunks)[x] && was.live[x] == (live0 + was.chunks)[x];
      }
    }

    /** One round of the loop of `XMLNode::ParseDeep`, up to the linking. */
    method NextNode(p: nat, ghost s: bytes)
      returns (r: Option<nat>, node: XMLNode?, closing: bool, endTag: StrPair)
      requires PoolsOk() && NoNul(s) && Tail(charBuffer[..], s, p) && errorID == NoError
      modifies `live, `errorID, Pools(), charBuffer
      ensures PoolsOk() && Agree(old(charBuffer[..]), charBuffer[..], 0, Floor(s, p))
      ensures NodeRead(node, s, p, ParseOne(s, p), r, closing, endTag, old(live))
      ensures node != null ==> fresh(node.repr)
      decreases |s| - p, 3
    {
      hide MemPool.Valid, PoolsOk, Owned, RawAttrs, Decode, Neat, LexTag, LexLeaf, Readable, Shaped, AfterTag, Stored;
      Length(charBuffer[..], s, p);
      OneIs(s, p);
      IdentifyFloor(s, p);
      r, closing, endTag := None, false, EMPTY_PAIR;
      var q: nat;
      q, node := Identify(p, s);
      if node == null {
        return;
      }
      ghost var was := Before(charBuffer[..], live, node.chunks, node.value, node.closingType);
      JustMade(node, q, was, old(live));
      TailLater(charBuffer[..], s, p, q);
      if node.kind == ElementKind {
        r, closing, endTag := ReadElement(node, q, s, was, old(live));
      } else {
        r := ReadLeaf(node, q, s, was, old(live));
      }
      if r == None || closing {
        node := null;
      } else {
        ghost var hi := if node.kind == ElementKind then r.value else Floor(s, r.value);
        NodeDone(node, ParseOne(s, p).node, s, q, hi, p, r.value, was, old(live));
      }
    }

    // ------------------------------------------------------------ the document

    /** `DeleteChildren` of the document, as its destructor calls it: every pool is empty then. */
    method Clear()
      requires Valid()
      modifies this, Pools(), root.repr
      ensures Valid() && root.kids == [] && live == multiset{}
      ensures forall id :: Pool(id).currentAllocs == 0
    {
      hide PoolsOk, Owned, MemPool.Valid;
      RootInPart();
      Reset();
      BareDocument();
      PoolsEmpty();
    }

    /** `DeleteChildren` and `InitDocument`; a buffer of one byte stands for the null pointer. */
    method Reset()
      requires Valid()
      modifies this, Pools(), root.repr
      ensures Blank() && errorID == NoError && text == [] && charBuffer.Length == 1
      ensures fresh(charBuffer)
    {
      hide PoolsOk, Owned, Readable, MemPool.Valid;
      InPart(root);
      assert root.attrs == [];
      DeleteChildren(root);
      LoneChunks(root);
      Emptied(live, root.chunks, old(live));
      root.tree := BLANK_TREE;
      charBuffer, text := new byte[1], [];
      errorID := NoError;
    }

    lemma PoolsEmpty()
      requires PoolsOk() && live == multiset{}
      ensures forall id :: Pool(id).currentAllocs == 0
    {
      forall id ensures Pool(id).currentAllocs == 0 {
        var l := Pool(id).live;
        forall mem ensures mem !in l {
          assert live[Chunk(id, mem)] == 0;
        }
        assert l == {};
      }
    }

    /**
     `XMLDocument::Parse`: with every error of the library the document is valid and
     matches the text. The answer `NullRead` says that the code has no result on this
     input; what the other clauses say of the fields does not matter then.
     */
    method Parse(input: bytes) returns (error: XMLError)
      requires Valid() && NoNul(input)
      modifies this, Pools(), root.repr
      ensures Valid()
      ensures error == errorID == Parsing.Parse(input).error
      ensures root.tree.RawElement? && root.tree.children == Parsing.Parse(input).nodes
      ensures Parsing.Parse(input).text != [] ==> text == Parsing.Parse(input).text
      ensures input != [] ==> writeBOM == Parsing.Parse(input).bom
      ensures fresh(charBuffer) && forall m :: m in root.repr ==> m == root || fresh(m)
    {
      RootInPart();
      assert NoNul([]);
      hide *;
      Reset();
      if input == [] {
        ParseIs(input, 0, false);
        NothingToParse();
      } else {
        SkipAndParse(input);
      }
      error := errorID;
    }

    /** White space and the byte order mark, then the nodes. */
    method SkipAndParse(input: bytes)
      requires Blank() && NoNul(input) && errorID == NoError && text == [] && charBuffer.Length == 1
      modifies this, Pools(), root
      ensures Valid() && errorID == Parsing.Parse(input).error && writeBOM == Parsing.Parse(input).bom
      ensures root.tree.RawElement? && root.tree.children == Parsing.Parse(input).nodes
      ensures Parsing.Parse(input).text != [] ==> text == Parsing.Parse(input).text
      ensures (charBuffer == old(charBuffer) || fresh(charBuffer)) && forall m :: m in root.repr ==> m == root || fresh(m)
    {
      assert BLANK_TREE.RawElement? && BLANK_TREE.children == [];
      hide *;
      var p := SkipSpace(input, 0);
      writeBOM := At(input, p, BOM);
      p := if writeBOM then p + 3 else p;
      ParseIs(input, p, writeBOM);
      ParseFrom(input, p);
    }

    /** Behind the byte order mark. */
    method ParseFrom(input: bytes, p: nat)
      requires Blank() && NoNul(input) && p <= |input| && errorID == NoError && text == [] && charBuffer.Length == 1
      modifies this, Pools(), root
      ensures Valid() && writeBOM == old(writeBOM)
      ensures p == |input| ==> errorID == EmptyDocument && root.tree == BLANK_TREE
      ensures p < |input| ==> text == input[p..]
      ensures p < |input| ==>
        var level := ParseLevel(input[p..], 0);
        root.tree == RawElement(Span(0, 0), [], false, level.nodes) && errorID == LevelError(level)
      ensures (charBuffer == old(charBuffer) || fresh(charBuffer)) && forall m :: m in root.repr ==> m == root || fresh(m)
    {
      assert NoNul([]);
      hide *;
      if p == |input| {
        NothingToParse();
      } else {
        LoadBuffer(input, p);
        ParseBuffer();
      }
    }

    method NothingToParse()
      requires Blank() && NoNul(text) && charBuffer.Length == |text| + 1
      modifies `errorID
      ensures Valid() && errorID == EmptyDocument && root.tree == BLANK_TREE
      ensures root.repr == {root}
    {
      errorID := EmptyDocument;
      BareDocument();
    }

    /** The copy of what follows the byte order mark. */
    method LoadBuffer(input: bytes, p: nat)
      requires Blank() && NoNul(input) && p <= |input|
      modifies `charBuffer, `text
      ensures fresh(charBuffer) && text == input[p..] && NoNul(text) && Tail(charBuffer[..], text, 0)
      ensures Blank()
    {
      hide Blank, Tail;
      PoolsApart();
      charBuffer := new byte[|input| - p + 1](i requires 0 <= i <= |input| - p => Peek(input, p + i));
      text := input[p..];
      Copied(charBuffer[..], input, p);
    }

    /** `ParseDeep` of the document over its new buffer. */
    method ParseBuffer()
      requires Blank() && NoNul(text) && Tail(charBuffer[..], text, 0) && errorID == NoError
      modifies this, Pools(), charBuffer, root
      ensures Valid() && text == old(text) && writeBOM == old(writeBOM)
      ensures var level := ParseLevel(text, 0);
              root.tree == RawElement(Span(0, 0), [], false, level.nodes)
              && errorID == LevelError(level)
      ensures charBuffer == old(charBuffer) && forall m :: m in root.repr ==> m == root || fresh(m)
    {
      hide PoolsOk, Owned, MemPool.Valid, ParseLevel, Readable, Shaped;
      ghost var was := Before(charBuffer[..], live, root.chunks, root.value, root.closingType);
      RootShaped();
      LevelBegins(root, text, 0, was);
      var r, endTag := ParseDeep(root, 0, text, root.tree, was);
      Parsed(r, endTag, was);
    }

    lemma RootInPart()
      requires Valid()
      ensures root in root.repr
    {
    }

    lemma RootShaped()
      requires Blank()
      ensures Shaped(root)
    {
      hide PoolsOk, Owned;
    }

    lemma Parsed(r: Option<nat>, endTag: StrPair, was: Before)
      requires root.kind == DocumentKind && root.parent == null && NoNul(text)
      requires Kept(root, Floor(text, 0), was) && LevelRead(root, text, 0, r, endTag, BLANK_TREE)
      requires was.live == was.chunks == multiset{} && |was.b| == |text| + 1
      ensures Valid()
    {
      hide PoolsOk, Owned, ParseLevel, Shaped, Neat;
      forall x ensures live[x] == root.chunks[x] {
        assert (was.live + root.chunks)[x] == (live + was.chunks)[x];
      }
      var finish := ParseLevel(text, 0).finish;
      var hi := if finish.AtClose? then finish.name.start else |text|;
      ReadableWider(root.repr - {root}, charBuffer[..], text, Floor(text, 0), hi, 0, |text|);
    }

    // ------------------------------------------------------------ reading strings

    /** The text that string `at` of the node stands for. */
    ghost function Meant(node: XMLNode, at: Slot): Option<bytes>
      requires HasSlot(RecordOf(node), at)
      reads `text, node`value, node`attrs
    {
      Decode(Slice(text, SpanOf(PairAt(RecordOf(node), at))), SlotFlags(node.kind, at))
    }

    /**
     `Value()` of a node, `Name()` or `Value()` of an attribute. A first call may meet a
     malformed reference, for which the code has no result.
     */
    method GetString(node: XMLNode, at: Slot) returns (x: StrPair)
      requires Valid() && node in root.repr && node != root && HasSlot(RecordOf(node), at) && Meant(node, at).Some?
      modifies charBuffer, node`value, node`attrs
      ensures Valid() && SameBut(old(RecordOf(node)), RecordOf(node), at)
      ensures x == PairAt(RecordOf(node), at) && !x.flush && Meant(node, at) == old(Meant(node, at))
      ensures Holds(charBuffer[..], x.start, x.end, Meant(node, at).value)
    {
      hide PoolsOk, Owned, MemPool.Valid, Shaped, Readable, Neat, Decode, NoNul, Stored, SameCells, SameBut, Holds, Valid;
      StringStored(node, at);
      PoolsApart();
      NodesApart({node});
      ghost var b, x0 := charBuffer[..], PairAt(RecordOf(node), at);
      assert b[x0.start..x0.end] == charBuffer[x0.start..x0.end];
      x := GetStr(charBuffer, PairAt(RecordOf(node), at));
      ReadStored(b, charBuffer[..], text, x0, x, SlotFlags(node.kind, at));
      SetPair(node, at, x);
      StringRead(node, at);
    }

    /** The pair is kept by value in the node: its new state is stored where it was. */
    static method SetPair(node: XMLNode, at: Slot, x: StrPair)
      requires HasSlot(RecordOf(node), at) && SpanOf(x) == SpanOf(PairAt(RecordOf(node), at))
      modifies node`value, node`attrs
      ensures SameBut(old(RecordOf(node)), RecordOf(node), at) && PairAt(RecordOf(node), at) == x
      ensures SameCells(old(node.attrs), node.attrs) && SpanOf(node.value) == old(SpanOf(node.value))
    {
      match at {
        case ValueSlot => node.value := x;
        case NameSlot(k) => node.attrs := node.attrs[k := node.attrs[k].(name := x)];
        case AttrSlot(k) => node.attrs := node.attrs[k := node.attrs[k].(value := x)];
      }
    }

    twostate lemma StringRead(node: XMLNode, new at: Slot)
      requires old(Valid()) && node in old(root.repr) && node != root && HasSlot(old(RecordOf(node)), at)
      requires PoolsOk() && live == old(live) && text == old(text) && charBuffer == old(charBuffer)
      requires forall x :: x in old(root.repr) ==> OnlyRead(node, x)
      requires SameBut(old(RecordOf(node)), RecordOf(node), at) && SameCells(old(node.attrs), node.attrs)
      requires SpanOf(node.value) == old(SpanOf(node.value))
      requires OnlyRange(old(charBuffer[..]), charBuffer[..], PairAt(old(RecordOf(node)), at))
      requires Stored(charBuffer[..], text, PairAt(RecordOf(node), at), SlotFlags(node.kind, at))
      ensures Valid()
    {
      assert root in old(root.repr);
      hide PoolsOk, Owned, Shaped, Readable, Neat, Decode, NoNul, Stored, SameCells, SameBut, OnlyRange;
      assert OnlyRead(node, root);
      ReadOwned(root, node);
      ReadShaped(root, node);
      forall x | x in root.repr && x != node ensures x.value == old(x.value) && x.attrs == old(x.attrs) {
        assert OnlyRead(node, x);
      }
      ReadableAfter(root.repr - {root}, node, at, old(charBuffer[..]), charBuffer[..], text, 0, |text|);
    }

    lemma StringStored(node: XMLNode, at: Slot)
      requires Valid() && node in root.repr && node != root && HasSlot(RecordOf(node), at) && Meant(node, at).Some?
      ensures var x := PairAt(RecordOf(node), at);
              && Stored(charBuffer[..], text, x, SlotFlags(node.kind, at)) && x.end < charBuffer.Length && PoolsOk()
              && (x.flush ==> NoNul(charBuffer[x.start..x.end]) && x.flags == SlotFlags(node.kind, at))
              && Meant(node, at) == Decode(text[x.start..x.end], SlotFlags(node.kind, at)) && x.start <= x.end
              && (x.flush ==> Decode(charBuffer[x.start..x.end], x.flags) == Meant(node, at))
              && (!x.flush ==> Holds(charBuffer[..], x.start, x.end, Meant(node, at).value))
    {
      hide PoolsOk, Owned, Shaped, Decode;
      assert StoredAt(RecordOf(node), charBuffer[..], text, 0, |text|, at);
    }

    ghost predicate CanRead(q: Request)
      reads this, root, q.node
    {
      q.node in root.repr && q.node != root && HasSlot(RecordOf(q.node), q.at) && Meant(q.node, q.at).Some?
    }

    ghost predicate WasRead(q: Request)
      reads q.node
    {
      HasSlot(RecordOf(q.node), q.at) && !PairAt(RecordOf(q.node), q.at).flush
    }

    /** The string `d` stands in the buffer, where the pair says. */
    ghost predicate Stands(q: Request, d: bytes)
      reads this, q.node, charBuffer
    {
      && HasSlot(RecordOf(q.node), q.at)
      && var x := PairAt(RecordOf(q.node), q.at); Holds(charBuffer[..], x.start, x.end, d)
    }

    /** Request `i` means `spec[i]`; the first `k` have been made. */
    ghost predicate Requests(requests: seq<Request>, spec: seq<bytes>, k: nat)
      reads this, Pools(), charBuffer, root, root.repr, set q | q in requests :: q.node
    {
      && Valid() && k <= |requests| == |spec|
      && (forall i :: 0 <= i < |requests| ==>
            CanRead(requests[i]) && Meant(requests[i].node, requests[i].at) == Some(spec[i]))
      && (forall j :: 0 <= j < k ==> WasRead(requests[j]))
    }

    /**
     The strings are read in any order, each any number of times. In the end all of them
     stand in the buffer at once, each the decoding of its piece of the text.
     */
    method GetStrings(requests: seq<Request>, ghost spec: seq<bytes>)
      requires Requests(requests, spec, 0)
      modifies charBuffer, root.repr`value, root.repr`attrs
      ensures Requests(requests, spec, |requests|)
      ensures forall i :: 0 <= i < |requests| ==> Stands(requests[i], spec[i])
    {
      var k := 0;
      while k < |requests|
        invariant k <= |requests| && Requests(requests, spec, k)
      {
        hide *;
        GetNext(requests, spec, k);
        k := k + 1;
      }
      forall i | 0 <= i < |requests| ensures Stands(requests[i], spec[i]) {
        ReadStands(requests, spec, i);
      }
    }

    method GetNext(requests: seq<Request>, ghost spec: seq<bytes>, k: nat)
      requires Requests(requests, spec, k) && k < |requests|
      modifies charBuffer, root.repr`value, root.repr`attrs
      ensures Requests(requests, spec, k + 1)
    {
      hide Valid, Meant;
      var q := requests[k];
      var x := GetString(q.node, q.at);
      forall i | 0 <= i < |requests|
        ensures CanRead(requests[i]) && Meant(requests[i].node, requests[i].at) == Some(spec[i])
        ensures i < k ==> WasRead(requests[i])
      {
        assert old(CanRead(requests[i]));
        StillMeant(requests[i], q);
      }
    }

    twostate lemma StillMeant(q: Request, new done: Request)
      requires old(allocated(done)) && old(CanRead(q)) && old(CanRead(done)) && root.repr == old(root.repr) && text == old(text)
      requires SameBut(old(RecordOf(done.node)), RecordOf(done.node), done.at) && WasRead(done)
      requires q.node != done.node ==> RecordOf(q.node) == old(RecordOf(q.node))
      ensures CanRead(q) && Meant(q.node, q.at) == old(Meant(q.node, q.at))
      ensures old(WasRead(q)) || q == done ==> WasRead(q)
    {
      hide Decode;
      assert HasSlot(old(RecordOf(q.node)), q.at);
    }

    lemma ReadStands(requests: seq<Request>, spec: seq<bytes>, i: nat)
      requires Requests(requests, spec, |requests|) && i < |requests|
      ensures Stands(requests[i], spec[i])
    {
      hide Valid, Decode, Meant;
      assert CanRead(requests[i]) && WasRead(requests[i]);
      StringStored(requests[i].node, requests[i].at);
    }
  }
}
