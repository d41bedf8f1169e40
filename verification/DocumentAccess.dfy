/**
 The accessors of a parsed document: every string they look at is decoded in the buffer
 then, and what they answer is what the text says.
 */
module DocumentAccess {
  import opened AttributeLists
  import opened Bytes
  import opened Decoding
  import opened Documents
  import opened ElementAttributes
  import opened LiveStrings
  import opened Nodes
  import opened Ownership
  import opened Parsing
  import opened StrPairs
  import opened XMLDocuments

  // ------------------------------------------------------------ C strings

  /** What a caller sees of a decoded string: a reference may have put a NUL into it. */
  function CString(d: bytes): (r: bytes)
    ensures |r| <= |d| && r == d[..|r|] && NoNul(r) && (|r| < |d| ==> d[|r|] == 0)
  {
    if d == [] || d[0] == 0 then [] else [d[0]] + CString(d[1..])
  }

  lemma {:induction false} CStringIs(d: bytes, n: nat)
    requires n <= |d| && NoNul(d[..n]) && (n < |d| ==> d[n] == 0)
    ensures CString(d) == d[..n]
    decreases n
  {
    if n > 0 {
      assert d[0] == d[..n][0] && d[1..][..n - 1] == d[..n][1..];
      CStringIs(d[1..], n - 1);
    }
  }

  /** A string without NUL is seen whole. */
  lemma CStringWhole(d: bytes)
    requires NoNul(d)
    ensures CString(d) == d
  {
    assert d[..|d|] == d;
    CStringIs(d, |d|);
  }

  lemma HeldBytes(b: bytes, start: nat, end: nat, d: bytes)
    requires Holds(b, start, end, d)
    ensures start + |d| < |b| && b[start + |d|] == 0 && forall k :: 0 <= k < |d| ==> b[start + k] == d[k]
  {
    forall k | 0 <= k < |d| ensures b[start + k] == d[k] {
      assert b[start..start + |d|][k] == b[start + k];
    }
  }

  lemma SeenUpTo(b: bytes, start: nat, d: bytes, n: nat)
    requires n <= |d| && start + |d| < |b| && b[start + |d|] == 0 && b[start + n] == 0
    requires forall k :: 0 <= k < |d| ==> b[start + k] == d[k]
    requires forall k :: 0 <= k < n ==> d[k] != 0
    ensures b[start..start + n] == CString(d)
  {
    assert b[start..start + n] == d[..n];
    CStringIs(d, n);
  }

  // ------------------------------------------------------------ strings

  /** `node` is a node of the document other than the document itself. */
  ghost predicate InDocument(doc: XMLDocument, node: XMLNode)
    reads doc, doc.Pools(), doc.charBuffer, doc.root, doc.root.repr
  {
    doc.Valid() && node in doc.root.repr && node != doc.root
  }

  lemma SlotStays(r: Record, r': Record, at: Slot)
    requires SameBut(r, r', at) && HasSlot(r, at)
    ensures HasSlot(r', at)
  {
  }

  /** `Name()` or `Value()`, as the caller sees it. */
  method ReadText(doc: XMLDocument, node: XMLNode, at: Slot) returns (v: bytes)
    requires InDocument(doc, node) && HasSlot(RecordOf(node), at) && doc.Meant(node, at).Some?
    modifies doc.charBuffer, node`value, node`attrs
    ensures InDocument(doc, node) && v == CString(old(doc.Meant(node, at)).value)
  {
    hide XMLDocument.Valid, SameBut, Holds, XMLDocument.Meant, HasSlot;
    ghost var r := RecordOf(node);
    var x := doc.GetString(node, at);
    SlotStays(r, RecordOf(node), at);
    ghost var d := doc.Meant(node, at).value;
    HeldBytes(doc.charBuffer[..], x.start, x.end, d);
    var n := 0;
    while doc.charBuffer[x.start + n] != 0
      invariant n <= |d| && forall k :: 0 <= k < n ==> d[k] != 0
      decreases |d| - n
    {
      n := n + 1;
    }
    v := doc.charBuffer[x.start..x.start + n];
    SeenUpTo(doc.charBuffer[..], x.start, d, n);
  }

  /** What the tree says of a node, the fields of the node say, read or not. */
  lemma FieldsAre(doc: XMLDocument, node: XMLNode)
    requires InDocument(doc, node)
    ensures node.kind != DocumentKind
    ensures node.kind.LeafNodeKind? ==>
      && node.tree.RawLeaf? && node.tree.kind == node.kind.leaf
      && doc.Meant(node, ValueSlot) == Decode(Slice(doc.text, node.tree.value), LeafFlags(node.kind.leaf))
    ensures node.kind == ElementKind ==>
      && node.tree.RawElement? && node.tree.attrs == RawAttrs(node.attrs)
      && doc.Meant(node, ValueSlot) == Some(Slice(doc.text, node.tree.name))
  {
    hide XMLDocument.PoolsOk, Owned, Readable, Decode, RawAttrs;
    assert Shape(node);
    if node.kind == ElementKind {
      DecodePlain(Slice(doc.text, node.tree.name));
    }
  }

  lemma AttrIs(doc: XMLDocument, node: XMLNode, k: nat)
    requires InDocument(doc, node) && node.kind == ElementKind
    ensures node.tree.RawElement? && |node.tree.attrs| == |node.attrs|
    ensures k < |node.attrs| ==>
      && doc.Meant(node, NameSlot(k)) == Some(Slice(doc.text, node.tree.attrs[k].name))
      && doc.Meant(node, AttrSlot(k)) == Decode(Slice(doc.text, node.tree.attrs[k].value), TEXT_FLAGS)
  {
    hide XMLDocument.Valid, Decode, RawAttrs;
    FieldsAre(doc, node);
    RawAttrsAt(node.attrs, k);
    if k < |node.attrs| {
      DecodePlain(Slice(doc.text, node.tree.attrs[k].name));
    }
  }

  lemma SliceNoNul(s: bytes, x: Span)
    requires NoNul(s)
    ensures NoNul(Slice(s, x))
  {
  }

  lemma TextNoNul(doc: XMLDocument)
    requires doc.Valid()
    ensures NoNul(doc.text)
  {
    hide XMLDocument.PoolsOk, Owned, Readable, Shaped;
  }

  lemma NamePlain(doc: XMLDocument, node: XMLNode) returns (n: bytes)
    requires InDocument(doc, node) && node.kind == ElementKind
    ensures node.tree.RawElement? && n == Slice(doc.text, node.tree.name)
    ensures doc.Meant(node, ValueSlot) == Some(n) && CString(n) == n
  {
    TextNoNul(doc);
    hide XMLDocument.Valid, Decode, XMLDocument.Meant, NoNul, CString, Slice;
    FieldsAre(doc, node);
    n := Slice(doc.text, node.tree.name);
    SliceNoNul(doc.text, node.tree.name);
    CStringWhole(n);
  }

  /** The name of an element. */
  method ReadName(doc: XMLDocument, node: XMLNode) returns (v: bytes)
    requires InDocument(doc, node) && node.kind == ElementKind
    modifies doc.charBuffer, node`value, node`attrs
    ensures InDocument(doc, node) && node.tree.RawElement? && v == Slice(doc.text, node.tree.name)
  {
    hide XMLDocument.Valid, Decode, XMLDocument.Meant, NoNul, CString, Slice;
    ghost var n := NamePlain(doc, node);
    v := ReadText(doc, node, ValueSlot);
  }

  method ReadAttrName(doc: XMLDocument, node: XMLNode, k: nat) returns (v: bytes)
    requires InDocument(doc, node) && node.kind == ElementKind && k < |node.attrs|
    modifies doc.charBuffer, node`value, node`attrs
    ensures InDocument(doc, node) && node.tree.RawElement? && |node.attrs| == |node.tree.attrs| == |old(node.attrs)|
    ensures v == Slice(doc.text, node.tree.attrs[k].name)
  {
    TextNoNul(doc);
    hide XMLDocument.Valid, Decode, XMLDocument.Meant, NoNul, CString, Slice;
    AttrIs(doc, node, k);
    SliceNoNul(doc.text, node.tree.attrs[k].name);
    CStringWhole(Slice(doc.text, node.tree.attrs[k].name));
    v := ReadText(doc, node, NameSlot(k));
    AttrIs(doc, node, k);
  }

  method ReadAttrValue(doc: XMLDocument, node: XMLNode, k: nat, ghost d: bytes) returns (v: bytes)
    requires InDocument(doc, node) && node.kind == ElementKind && k < |node.attrs| == |node.tree.attrs|
    requires node.tree.RawElement? && Decode(Slice(doc.text, node.tree.attrs[k].value), TEXT_FLAGS) == Some(d)
    modifies doc.charBuffer, node`value, node`attrs
    ensures InDocument(doc, node) && |node.attrs| == |old(node.attrs)| && v == CString(d)
  {
    hide XMLDocument.Valid, Decode, XMLDocument.Meant, CString, Slice;
    AttrIs(doc, node, k);
    v := ReadText(doc, node, AttrSlot(k));
    AttrIs(doc, node, k);
  }

  // ------------------------------------------------------------ attributes

  /** The first of the attributes with this name, or their number. */
  ghost predicate IsFirst(s: bytes, attrs: seq<RawAttr>, name: bytes, k: nat) {
    && k <= |attrs| && (k < |attrs| ==> Slice(s, attrs[k].name) == name)
    && forall j :: 0 <= j < k ==> Slice(s, attrs[j].name) != name
  }

  /** `XMLElement::FindAttribute`: the number of attributes stands for the null pointer. */
  method FindAttribute(doc: XMLDocument, node: XMLNode, name: bytes) returns (k: nat)
    requires InDocument(doc, node) && node.kind == ElementKind
    modifies doc.charBuffer, node`value, node`attrs
    ensures InDocument(doc, node) && node.tree.RawElement? && |node.attrs| == |node.tree.attrs|
    ensures IsFirst(doc.text, node.tree.attrs, name, k)
  {
    hide XMLDocument.Valid, Slice;
    AttrIs(doc, node, 0);
    k := 0;
    while k < |node.attrs|
      invariant InDocument(doc, node) && |node.attrs| == |node.tree.attrs| && k <= |node.attrs|
      invariant forall j :: 0 <= j < k ==> Slice(doc.text, node.tree.attrs[j].name) != name
    {
      var n := ReadAttrName(doc, node, k);
      if n == name {
        return;
      }
      k := k + 1;
    }
  }

  /**
   `XMLElement::Attribute`: the value of the first attribute with the name, as a C string.
   The second argument may ask for a value; then another value is no answer.
   */
  method Attribute(doc: XMLDocument, node: XMLNode, name: bytes, value: Option<bytes>, ghost items: Items)
    returns (r: Option<bytes>)
    requires InDocument(doc, node) && node.kind == ElementKind && node.tree.RawElement?
    requires AttrsOf(doc.text, node.tree.attrs) == Some(items)
    modifies doc.charBuffer, node`value, node`attrs
    ensures InDocument(doc, node)
    ensures r == None <==> (forall k :: 0 <= k < |items| ==> items[k].name != name)
                           || (value.Some? && value.value != CString(items[IndexOf(items, name)].value))
    ensures r.Some? ==> IndexOf(items, name) < |items| && r.value == CString(items[IndexOf(items, name)].value)
  {
    hide XMLDocument.Valid, Slice, Decode, AttrsOf, CString;
    AttrsOfAt(doc.text, node.tree.attrs, items);
    var k := FindAttribute(doc, node, name);
    IndexIs(items, name, k);
    if k == |node.attrs| {
      return None;
    }
    var v := ReadAttrValue(doc, node, k, items[k].value);
    r := if value.None? || value.value == v then Some(v) else None;
  }

  // ------------------------------------------------------------ children

  /** An element that the argument of `FirstChildElement` and `LastChildElement` lets pass. */
  ghost predicate Matches(s: bytes, x: XMLNode, value: Option<bytes>)
    reads x`tree
  {
    x.kind == ElementKind && x.tree.RawElement? && (value.Some? ==> Slice(s, x.tree.name) == value.value)
  }

  lemma KidIn(doc: XMLDocument, n: XMLNode, i: nat)
    requires doc.Valid() && n in doc.root.repr
    ensures n.LinksOk()
    ensures i < |n.kids| ==> InDocument(doc, n.kids[i]) && n.LinkedAt(n.kids, i)
  {
    assert Local(n);
    hide XMLDocument.PoolsOk, Readable, Shaped, Tally, Divide;
    if i < |n.kids| {
      assert n.kids[i] in n.kids && n.LinkedAt(n.kids, i);
    }
  }

  method MatchesHere(doc: XMLDocument, x: XMLNode, value: Option<bytes>) returns (b: bool)
    requires InDocument(doc, x)
    modifies doc.charBuffer, x`value, x`attrs
    ensures InDocument(doc, x) && b == Matches(doc.text, x, value)
  {
    hide XMLDocument.Valid, Slice;
    FieldsAre(doc, x);
    if x.kind != ElementKind {
      return false;
    }
    if value.None? {
      return true;
    }
    var v := ReadName(doc, x);
    b := v == value.value;
  }

  /** `XMLNode::FirstChildElement`, along the `next` pointers. */
  method FirstChildElement(doc: XMLDocument, n: XMLNode, value: Option<bytes>) returns (node: XMLNode?, ghost i: nat)
    requires doc.Valid() && n in doc.root.repr
    modifies doc.charBuffer, doc.root.repr`value, doc.root.repr`attrs
    ensures doc.Valid() && i <= |n.kids| && node == XMLNode.Nth(n.kids, i)
    ensures i < |n.kids| ==> Matches(doc.text, n.kids[i], value)
    ensures forall j :: 0 <= j < i ==> !Matches(doc.text, n.kids[j], value)
  {
    hide XMLDocument.Valid, Matches;
    KidIn(doc, n, 0);
    i := 0;
    node := n.firstChild;
    while node != null
      invariant doc.Valid() && i <= |n.kids| && node == XMLNode.Nth(n.kids, i)
      invariant forall j :: 0 <= j < i ==> !Matches(doc.text, n.kids[j], value)
      decreases |n.kids| - i
    {
      KidIn(doc, n, i);
      var b := MatchesHere(doc, node, value);
      if b {
        return;
      }
      KidIn(doc, n, i);
      node := node.next;
      i := i + 1;
    }
  }

  /** `XMLNode::LastChildElement`, along the `prev` pointers; `i` is -1 for the null pointer. */
  method LastChildElement(doc: XMLDocument, n: XMLNode, value: Option<bytes>) returns (node: XMLNode?, ghost i: int)
    requires doc.Valid() && n in doc.root.repr
    modifies doc.charBuffer, doc.root.repr`value, doc.root.repr`attrs
    ensures doc.Valid() && -1 <= i < |n.kids| && node == XMLNode.Nth(n.kids, i)
    ensures i >= 0 ==> Matches(doc.text, n.kids[i], value)
    ensures forall j :: i < j < |n.kids| ==> !Matches(doc.text, n.kids[j], value)
  {
    hide XMLDocument.Valid, Matches;
    KidIn(doc, n, 0);
    i := |n.kids| - 1;
    node := n.lastChild;
    while node != null
      invariant doc.Valid() && -1 <= i < |n.kids| && node == XMLNode.Nth(n.kids, i)
      invariant forall j :: i < j < |n.kids| ==> !Matches(doc.text, n.kids[j], value)
      decreases i + 1
    {
      KidIn(doc, n, i);
      var b := MatchesHere(doc, node, value);
      if b {
        return;
      }
      KidIn(doc, n, i);
      node := node.prev;
      i := i - 1;
    }
  }
}
