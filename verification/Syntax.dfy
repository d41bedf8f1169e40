/**
 Attributes and tags, written out in bytes: which texts are read as one, and that no
 others are.
 */
module Syntax {
  import opened Bytes
  import opened Parsing

  // ------------------------------------------------------------ bytes

  /** TAB, LF, VT, FF, CR and the space. */
  predicate White(b: byte) {
    b == 9 || b == 10 || b == 11 || b == 12 || b == 13 || b == 32
  }

  predicate AllWhite(w: bytes) {
    forall k :: 0 <= k < |w| ==> White(w[k])
  }

  /** `A` to `Z`, `a` to `z` and everything outside ASCII. */
  predicate Letter(b: byte) {
    65 <= b <= 90 || 97 <= b <= 122 || 128 <= b
  }

  /** Letters, `0` to `9`, `-`, `.`, `:` and `_`. */
  predicate InName(b: byte) {
    Letter(b) || 48 <= b <= 57 || b == 45 || b == 46 || b == 58 || b == 95
  }

  predicate IsName(n: bytes) {
    n != [] && Letter(n[0]) && forall k :: 0 <= k < |n| ==> InName(n[k])
  }

  lemma WhiteIsSpace()
    ensures forall b: byte :: White(b) <==> IsSpace(b)
  {
  }

  lemma LettersAre()
    ensures forall b: byte :: Letter(b) <==> IsAlpha(b)
    ensures forall b: byte :: InName(b) <==> IsNameByte(b)
  {
  }

  /** White space that ends where it is said to end is skipped. */
  lemma WhiteSkipped(s: bytes, i: nat, w: bytes, p: nat)
    requires AllWhite(w) && At(s, i, w) && p == i + |w| && (p < |s| ==> !White(s[p]))
    ensures p <= |s| && SkipSpace(s, i) == p
  {
    WhiteIsSpace();
    AtBytes(s, i, w);
    SkipSpaceUnique(s, i, p);
  }

  lemma SkippedIsWhite(s: bytes, i: nat, p: nat)
    requires i <= |s| && p == SkipSpace(s, i)
    ensures AllWhite(s[i..p]) && (p < |s| ==> !White(s[p]))
  {
    WhiteIsSpace();
  }

  lemma NameRead(s: bytes, i: nat, n: bytes, e: nat)
    requires IsName(n) && At(s, i, n) && e == i + |n| && (e < |s| ==> !InName(s[e]))
    ensures i <= |s| && ParseName(s, i) == Some(e) && Letter(s[i])
  {
    LettersAre();
    AtFirst(s, i, n);
    ParseNameAt(s, i, n);
  }

  lemma ReadIsName(s: bytes, i: nat, e: nat)
    requires i <= |s| && ParseName(s, i) == Some(e)
    ensures i < e <= |s| && IsName(s[i..e]) && (e < |s| ==> !InName(s[e]))
  {
    LettersAre();
    forall k | 0 <= k < e - i ensures InName(s[i..e][k]) {
      assert s[i..e][k] == s[i + k];
    }
  }

  // ------------------------------------------------------------ attributes

  /** An attribute as it is written. */
  datatype AttrText = AttrText(name: bytes, before: bytes, after: bytes, quote: byte, value: bytes)

  predicate AttrTextOk(a: AttrText) {
    IsName(a.name) && AllWhite(a.before) && AllWhite(a.after) && (a.quote == 34 || a.quote == 39) && a.quote !in a.value
  }

  function WriteAttr(a: AttrText): bytes {
    a.name + a.before + [61] + a.after + [a.quote] + a.value + [a.quote]
  }

  /** Where its name and its value stand, when it begins at `i`. */
  function AttrAt(a: AttrText, i: nat): RawAttr {
    var v := i + |a.name| + |a.before| + |a.after| + 2;
    RawAttr(Span(i, i + |a.name|), Span(v, v + |a.value|))
  }

  lemma AttrParts(s: bytes, i: nat, a: AttrText)
    requires At(s, i, WriteAttr(a))
    ensures var e := i + |a.name|;
            var p := e + |a.before|;
            var q := p + 1 + |a.after|;
            && At(s, i, a.name) && At(s, e, a.before) && At(s, p, [61]) && At(s, p + 1, a.after)
            && At(s, q, [a.quote]) && At(s, q + 1, a.value + [a.quote])
  {
    hide At;
    var x1 := a.name + a.before;
    var x2 := x1 + [61];
    var x3 := x2 + a.after;
    var x4 := x3 + [a.quote];
    assert WriteAttr(a) == x4 + (a.value + [a.quote]);
    AtSplit(s, i, x4, a.value + [a.quote]);
    AtSplit(s, i, x3, [a.quote]);
    AtSplit(s, i, x2, a.after);
    AtSplit(s, i, x1, [61]);
    AtSplit(s, i, a.name, a.before);
  }

  /** What stands in front of a byte that is not white. */
  lemma WhiteUpTo(s: bytes, i: nat, w: bytes, c: byte)
    requires AllWhite(w) && At(s, i, w) && At(s, i + |w|, [c]) && !White(c)
    ensures i <= |s| && SkipSpace(s, i) == i + |w| && i + |w| < |s| && s[i + |w|] == c
  {
    AtOne(s, i + |w|, c);
    WhiteSkipped(s, i, w, i + |w|);
  }

  /** The first byte behind a name: of the white space, or the one behind that. */
  lemma NotInName(s: bytes, i: nat, w: bytes, c: byte)
    requires AllWhite(w) && At(s, i, w) && At(s, i + |w|, [c]) && !InName(c)
    ensures i < |s| && !InName(s[i])
  {
    AtOne(s, i + |w|, c);
    if w != [] {
      AtFirst(s, i, w);
      assert White(w[0]);
    }
  }

  /** Such a text is read as an attribute, in full. */
  lemma AttrIsRead(s: bytes, i: nat, a: AttrText)
    requires AttrTextOk(a) && At(s, i, WriteAttr(a))
    ensures i < |s| && Letter(s[i]) && ParseAttr(s, i) == AttrOk(AttrAt(a, i), i + |WriteAttr(a)|)
  {
    hide *;
    AttrParts(s, i, a);
    var e := i + |a.name|;
    var p := e + |a.before|;
    var q := p + 1 + |a.after|;
    AttrSize(a, i, q);
    NotInName(s, e, a.before, 61);
    NameRead(s, i, a.name, e);
    WhiteUpTo(s, e, a.before, 61);
    WhiteUpTo(s, p + 1, a.after, a.quote);
    FindEndBehind(s, q + 1, a.value, a.quote);
    AttrUnfold(s, i, e, p, q, q + 1 + |a.value|);
  }

  lemma AttrSize(a: AttrText, i: nat, q: nat)
    requires AttrTextOk(a) && q == i + |a.name| + |a.before| + 1 + |a.after|
    ensures IsName(a.name) && AllWhite(a.before) && AllWhite(a.after) && (a.quote == 34 || a.quote == 39) && a.quote !in a.value
    ensures AttrAt(a, i) == RawAttr(Span(i, i + |a.name|), Span(q + 1, q + 1 + |a.value|))
    ensures i + |WriteAttr(a)| == q + 1 + |a.value| + 1
    ensures !InName(61) && !White(61) && !White(a.quote)
  {
    hide IsName, AllWhite;
  }

  lemma AttrUnfold(s: bytes, i: nat, e: nat, p: nat, q: nat, v: nat)
    requires i <= |s| && ParseName(s, i) == Some(e) && SkipSpace(s, e) == p < |s| && s[p] == 61
    requires SkipSpace(s, p + 1) == q < |s| && (s[q] == 34 || s[q] == 39) && FindEnd(s, q + 1, [s[q]]) == Some(v)
    ensures ParseAttr(s, i) == AttrOk(RawAttr(Span(i, e), Span(q + 1, v)), v + 1)
  {
    hide At, SkipSpace, ParseName, FindEnd;
  }

  /** And nothing else is. */
  lemma ReadIsAttr(s: bytes, i: nat, r: RawAttr, next: nat) returns (a: AttrText)
    requires i <= |s| && ParseAttr(s, i) == AttrOk(r, next)
    ensures AttrTextOk(a) && At(s, i, WriteAttr(a)) && r == AttrAt(a, i) && next == i + |WriteAttr(a)|
  {
    hide At, IsName, AllWhite, White, InName, Letter, SkipSpace, ParseName, FindEnd, ParseAttr, WriteAttr;
    var e, p, q, v := AttrFolded(s, i, r, next);
    ReadIsName(s, i, e);
    SkippedIsWhite(s, e, p);
    SkippedIsWhite(s, p + 1, q);
    ValueEnds(s, q + 1, s[q], v);
    a := AttrText(s[i..e], s[e..p], s[p + 1..q], s[q], s[q + 1..v]);
    SevenParts(s, i, e, p, q, v, a);
    AtSlice(s, i, WriteAttr(a));
  }

  lemma AttrFolded(s: bytes, i: nat, r: RawAttr, next: nat) returns (e: nat, p: nat, q: nat, v: nat)
    requires i <= |s| && ParseAttr(s, i) == AttrOk(r, next)
    ensures ParseName(s, i) == Some(e) && e <= |s| && SkipSpace(s, e) == p < |s| && s[p] == 61
    ensures SkipSpace(s, p + 1) == q < |s| && (s[q] == 34 || s[q] == 39) && FindEnd(s, q + 1, [s[q]]) == Some(v)
    ensures r == RawAttr(Span(i, e), Span(q + 1, v)) && next == v + 1
  {
    hide At, SkipSpace, ParseName, FindEnd;
    e := ParseName(s, i).value;
    p := SkipSpace(s, e);
    q := SkipSpace(s, p + 1);
    v := FindEnd(s, q + 1, [s[q]]).value;
  }

  lemma SevenParts(s: bytes, i: nat, e: nat, p: nat, q: nat, v: nat, a: AttrText)
    requires i <= e <= p < q <= v < |s| && p + 1 <= q && q + 1 <= v && s[p] == 61 && s[v] == s[q]
    requires a == AttrText(s[i..e], s[e..p], s[p + 1..q], s[q], s[q + 1..v])
    ensures WriteAttr(a) == s[i..v + 1]
  {
    assert a.name + a.before == s[i..p];
    assert s[i..p] + [61] == s[i..p + 1];
    assert s[i..p + 1] + a.after == s[i..q];
    assert s[i..q] + [a.quote] == s[i..q + 1];
    assert s[i..q + 1] + a.value == s[i..v];
    assert s[i..v] + [a.quote] == s[i..v + 1];
  }

  lemma ValueEnds(s: bytes, i: nat, c: byte, v: nat)
    requires i <= |s| && FindEnd(s, i, [c]) == Some(v)
    ensures i <= v < |s| && s[v] == c && c !in s[i..v]
  {
    AtOne(s, v, c);
    forall k | 0 <= k < v - i ensures s[i..v][k] != c {
      AtOne(s, i + k, c);
    }
  }

  // ------------------------------------------------------------ the attributes of a tag

  /** Attributes, each behind white space. */
  datatype Spaced = Spaced(space: bytes, attr: AttrText)

  function WriteRun(run: seq<Spaced>): bytes {
    if run == [] then [] else run[0].space + WriteAttr(run[0].attr) + WriteRun(run[1..])
  }

  function RunAt(run: seq<Spaced>, i: nat): seq<RawAttr> {
    if run == [] then []
    else
      var p := i + |run[0].space|;
      [AttrAt(run[0].attr, p)] + RunAt(run[1..], p + |WriteAttr(run[0].attr)|)
  }

  predicate RunOk(run: seq<Spaced>) {
    forall k :: 0 <= k < |run| ==> AllWhite(run[k].space) && AttrTextOk(run[k].attr)
  }

  /** Every name is new, to the attributes `seen` before and to those in front of it. */
  ghost predicate NewNames(s: bytes, seen: seq<RawAttr>, run: seq<Spaced>) {
    && (forall j, k :: 0 <= j < |seen| && 0 <= k < |run| ==> Slice(s, seen[j].name) != run[k].attr.name)
    && (forall j, k :: 0 <= j < k < |run| ==> run[j].attr.name != run[k].attr.name)
  }

  lemma NameOfAttr(s: bytes, i: nat, a: AttrText)
    requires At(s, i, WriteAttr(a))
    ensures Slice(s, AttrAt(a, i).name) == a.name
  {
    AttrParts(s, i, a);
    AtSlice(s, i, a.name);
  }

  lemma RunParts(s: bytes, i: nat, run: seq<Spaced>)
    requires run != [] && At(s, i, WriteRun(run))
    ensures var p := i + |run[0].space|;
            && At(s, i, run[0].space) && At(s, p, WriteAttr(run[0].attr))
            && At(s, p + |WriteAttr(run[0].attr)|, WriteRun(run[1..]))
  {
    hide At, WriteAttr;
    AtSplit(s, i, run[0].space + WriteAttr(run[0].attr), WriteRun(run[1..]));
    AtSplit(s, i, run[0].space, WriteAttr(run[0].attr));
  }

  /** The attributes are read one after the other; what follows them decides how it goes on. */
  lemma {:induction false} RunIsRead(s: bytes, i: nat, run: seq<Spaced>, seen: seq<RawAttr>)
    requires RunOk(run) && At(s, i, WriteRun(run)) && NewNames(s, seen, run)
    ensures i + |WriteRun(run)| <= |s|
    ensures ParseAttrs(s, i, seen) == ParseAttrs(s, i + |WriteRun(run)|, seen + RunAt(run, i))
    decreases |run|
  {
    hide *;
    AtFits(s, i, WriteRun(run));
    if run == [] {
      NoRun(i);
      ConcatEmpty(seen);
    } else {
      RunParts(s, i, run);
      var x, rest := run[0], run[1..];
      var p := i + |x.space|;
      var next := p + |WriteAttr(x.attr)|;
      var a := AttrAt(x.attr, p);
      RunCons(run, i, x, rest, p, next);
      NamesGoOn(s, seen, run, p);
      OneIsRead(s, i, x, seen, p, next);
      RunIsRead(s, next, rest, seen + [a]);
      ConcatAssoc(seen, [a], RunAt(rest, next));
    }
  }

  lemma NoRun(i: nat)
    ensures WriteRun([]) == [] && RunAt([], i) == []
  {
  }

  lemma RunCons(run: seq<Spaced>, i: nat, x: Spaced, rest: seq<Spaced>, p: nat, next: nat)
    requires run != [] && RunOk(run) && x == run[0] && rest == run[1..]
    requires p == i + |x.space| && next == p + |WriteAttr(x.attr)|
    ensures AllWhite(x.space) && AttrTextOk(x.attr) && RunOk(rest)
    ensures WriteRun(run) == x.space + WriteAttr(x.attr) + WriteRun(rest)
    ensures i + |WriteRun(run)| == next + |WriteRun(rest)| && RunAt(run, i) == [AttrAt(x.attr, p)] + RunAt(rest, next)
  {
    hide *;
    RunOkTail(run);
    RunUnfold(run, i, x, rest, p, next);
  }

  lemma RunUnfold(run: seq<Spaced>, i: nat, x: Spaced, rest: seq<Spaced>, p: nat, next: nat)
    requires run != [] && x == run[0] && rest == run[1..]
    requires p == i + |x.space| && next == p + |WriteAttr(x.attr)|
    ensures WriteRun(run) == x.space + WriteAttr(x.attr) + WriteRun(rest)
    ensures RunAt(run, i) == [AttrAt(x.attr, p)] + RunAt(rest, next)
  {
    hide WriteAttr, AttrAt;
  }

  lemma RunOkTail(run: seq<Spaced>)
    requires run != [] && RunOk(run)
    ensures AllWhite(run[0].space) && AttrTextOk(run[0].attr) && RunOk(run[1..])
  {
    hide AttrTextOk, AllWhite;
  }

  lemma AtFits(s: bytes, i: nat, x: bytes)
    requires At(s, i, x)
    ensures i + |x| <= |s|
  {
  }

  lemma OneIsRead(s: bytes, i: nat, x: Spaced, seen: seq<RawAttr>, p: nat, next: nat)
    requires AllWhite(x.space) && AttrTextOk(x.attr) && At(s, i, x.space) && At(s, p, WriteAttr(x.attr))
    requires p == i + |x.space| && next == p + |WriteAttr(x.attr)|
    requires forall j :: 0 <= j < |seen| ==> Slice(s, seen[j].name) != x.attr.name
    ensures i <= |s| && next <= |s|
    ensures ParseAttrs(s, i, seen) == ParseAttrs(s, next, seen + [AttrAt(x.attr, p)])
  {
    LetterBegins(s, i, x, p, next);
    NameOfAttr(s, p, x.attr);
    AttrsUnfold(s, i, p, seen, AttrAt(x.attr, p), next);
  }

  lemma LetterBegins(s: bytes, i: nat, x: Spaced, p: nat, next: nat)
    requires AllWhite(x.space) && AttrTextOk(x.attr) && At(s, i, x.space) && At(s, p, WriteAttr(x.attr))
    requires p == i + |x.space| && next == p + |WriteAttr(x.attr)|
    ensures i <= |s| && SkipSpace(s, i) == p < |s| && IsAlpha(s[p]) && ParseAttr(s, p) == AttrOk(AttrAt(x.attr, p), next)
  {
    hide At, SkipSpace, ParseAttr, WriteAttr;
    AttrIsRead(s, p, x.attr);
    LettersAre();
    NotWhite(s[p]);
    WhiteSkipped(s, i, x.space, p);
  }

  lemma NotWhite(b: byte)
    requires InName(b)
    ensures !White(b)
  {
  }

  lemma AttrsUnfold(s: bytes, i: nat, p: nat, seen: seq<RawAttr>, a: RawAttr, next: nat)
    requires i <= |s| && p == SkipSpace(s, i) && p < |s| && IsAlpha(s[p]) && ParseAttr(s, p) == AttrOk(a, next)
    ensures ParseAttrs(s, i, seen) ==
      if HasAttr(s, seen, a.name) then AttrsFail(RepeatError(s, seen, a.name)) else ParseAttrs(s, next, seen + [a])
  {
    hide SkipSpace, ParseAttr, HasAttr, RepeatError;
  }

  lemma NamesGoOn(s: bytes, seen: seq<RawAttr>, run: seq<Spaced>, p: nat)
    requires run != [] && NewNames(s, seen, run) && At(s, p, WriteAttr(run[0].attr))
    ensures NewNames(s, seen + [AttrAt(run[0].attr, p)], run[1..])
    ensures forall j :: 0 <= j < |seen| ==> Slice(s, seen[j].name) != run[0].attr.name
  {
    NameOfAttr(s, p, run[0].attr);
    hide At, WriteAttr, Slice;
  }

  // ------------------------------------------------------------ tags

  /** A tag as it is written. */
  datatype TagText = TagText(space: bytes, closing: bool, name: bytes, run: seq<Spaced>, last: bytes, sealed: bool)

  ghost predicate TagTextOk(t: TagText) {
    && AllWhite(t.space) && IsName(t.name) && RunOk(t.run) && AllWhite(t.last)
    && (t.run != [] ==> t.run[0].space != [])
    && (forall j, k :: 0 <= j < k < |t.run| ==> t.run[j].attr.name != t.run[k].attr.name)
  }

  function TagOpens(t: TagText): bytes {
    [60] + t.space + (if t.closing then [47] else [])
  }

  function TagCloses(sealed: bool): bytes {
    if sealed then [47, 62] else [62]
  }

  function WriteTag(t: TagText): bytes {
    TagOpens(t) + t.name + WriteRun(t.run) + t.last + TagCloses(t.sealed)
  }

  /** The token that a tag at `i` is read as. */
  function TagToken(t: TagText, i: nat): Token {
    var n := i + |TagOpens(t)|;
    var name, attrs := Span(n, n + |t.name|), RunAt(t.run, n + |t.name|);
    if t.sealed then SealedTag(name, attrs) else if t.closing then CloseTag(name) else OpenTag(name, attrs)
  }

  lemma TagParts(s: bytes, i: nat, t: TagText)
    requires At(s, i, WriteTag(t))
    ensures var n := i + |TagOpens(t)|;
            var e := n + |t.name|;
            var l := e + |WriteRun(t.run)|;
            var z := l + |t.last|;
            && At(s, i, TagOpens(t)) && At(s, n, t.name) && At(s, e, WriteRun(t.run)) && At(s, l, t.last)
            && At(s, z, TagCloses(t.sealed))
  {
    hide At, TagOpens, WriteRun, TagCloses;
    var x1 := TagOpens(t) + t.name;
    var x2 := x1 + WriteRun(t.run);
    var x3 := x2 + t.last;
    AtSplit(s, i, x3, TagCloses(t.sealed));
    AtSplit(s, i, x2, t.last);
    AtSplit(s, i, x1, WriteRun(t.run));
    AtSplit(s, i, TagOpens(t), t.name);
  }

  /** How `ParseAttributes` ends. */
  lemma TagEndIsRead(s: bytes, l: nat, last: bytes, sealed: bool, seen: seq<RawAttr>)
    requires AllWhite(last) && At(s, l, last) && At(s, l + |last|, TagCloses(sealed))
    ensures l <= |s| && ParseAttrs(s, l, seen) == AttrsOk(seen, sealed, l + |last| + |TagCloses(sealed)|)
  {
    var z := l + |last|;
    ClosesAt(s, z, sealed);
    WhiteSkipped(s, l, last, z);
    hide At, SkipSpace, ParseAttr;
  }

  lemma ClosesAt(s: bytes, z: nat, sealed: bool)
    requires At(s, z, TagCloses(sealed))
    ensures z < |s| && !White(s[z]) && !InName(s[z]) && !IsAlpha(s[z])
    ensures if sealed then s[z] == SLASH && Peek(s, z + 1) == GT else s[z] == GT
  {
    AtFirst(s, z, TagCloses(sealed));
    if sealed {
      assert s[z + 1] == TagCloses(sealed)[1];
    }
  }

  /** The byte behind the name of a tag. */
  lemma BehindName(s: bytes, e: nat, t: TagText)
    requires TagTextOk(t) && At(s, e, WriteRun(t.run)) && At(s, e + |WriteRun(t.run)|, t.last)
    requires At(s, e + |WriteRun(t.run)| + |t.last|, TagCloses(t.sealed))
    ensures e < |s| && !InName(s[e])
  {
    if t.run != [] {
      RunParts(s, e, t.run);
      AtFirst(s, e, t.run[0].space);
      assert White(t.run[0].space[0]);
    } else {
      ClosesAt(s, e + |t.last|, t.sealed);
      if t.last != [] {
        AtFirst(s, e, t.last);
        assert White(t.last[0]);
      }
    }
  }

  lemma NothingSeen(s: bytes, t: TagText)
    requires TagTextOk(t)
    ensures NewNames(s, [], t.run)
  {
  }

  /** What `LexTag` meets in front of the name; `q` is behind the `<`. */
  lemma FrontOfTag(s: bytes, i: nat, t: TagText)
    requires TagTextOk(t) && At(s, i, TagOpens(t)) && At(s, i + |TagOpens(t)|, t.name)
    ensures i + 1 < |s| && s[i] == LT && s[i + 1] != 63 && s[i + 1] != 33
    ensures var k := SkipSpace(s, i + 1);
            && k <= |s| && (Peek(s, k) == SLASH <==> t.closing)
            && i + |TagOpens(t)| == if t.closing then k + 1 else k
  {
    AtFirst(s, i, TagOpens(t));
    var k := i + 1 + |t.space|;
    OpensParts(s, i, t, k);
    AtFirst(s, i + |TagOpens(t)|, t.name);
    assert Letter(t.name[0]);
    WhiteSkipped(s, i + 1, t.space, k);
    if t.space != [] {
      AtFirst(s, i + 1, t.space);
      assert White(t.space[0]);
    }
  }

  lemma OpensParts(s: bytes, i: nat, t: TagText, k: nat)
    requires At(s, i, TagOpens(t)) && k == i + 1 + |t.space|
    ensures At(s, i + 1, t.space) && k == i + |TagOpens(t)| - (if t.closing then 1 else 0)
    ensures t.closing ==> k < |s| && s[k] == SLASH
  {
    var c: bytes := if t.closing then [47] else [];
    AtSplit(s, i, [60] + t.space, c);
    AtSplit(s, i, [60], t.space);
    if t.closing {
      AtOne(s, k, 47);
    }
  }

  lemma LexTagUnfold(s: bytes, i: nat, t: TagText, n: nat, e: nat, attrs: seq<RawAttr>, next: nat)
    requires 0 < i <= |s| && n <= |s| && e <= |s|
    requires var k := SkipSpace(s, i); (Peek(s, k) == SLASH <==> t.closing) && n == if t.closing then k + 1 else k
    requires ParseName(s, n) == Some(e) && ParseAttrs(s, e, []) == AttrsOk(attrs, t.sealed, next)
    ensures LexTag(s, i) == Lex(if t.sealed then SealedTag(Span(n, e), attrs)
                                else if t.closing then CloseTag(Span(n, e)) else OpenTag(Span(n, e), attrs), next)
  {
    hide SkipSpace, ParseName, ParseAttrs;
  }

  /** Such a text is read as one tag, in full. */
  lemma TagIsRead(s: bytes, i: nat, t: TagText)
    requires TagTextOk(t) && At(s, i, WriteTag(t))
    ensures i + 1 < |s| && s[i] == LT && s[i + 1] != 63 && s[i + 1] != 33
    ensures LexTag(s, i + 1) == Lex(TagToken(t, i), i + |WriteTag(t)|)
  {
    hide At, IsName, AllWhite, RunOk, WriteRun, RunAt, TagOpens, TagCloses, SkipSpace, ParseName, ParseAttrs, LexTag;
    TagParts(s, i, t);
    var n := i + |TagOpens(t)|;
    var e := n + |t.name|;
    var l := e + |WriteRun(t.run)|;
    FrontOfTag(s, i, t);
    BehindName(s, e, t);
    NameRead(s, n, t.name, e);
    NothingSeen(s, t);
    RunIsRead(s, e, t.run, []);
    ConcatEmpty(RunAt(t.run, e));
    TagEndIsRead(s, l, t.last, t.sealed, RunAt(t.run, e));
    LexTagUnfold(s, i + 1, t, n, e, RunAt(t.run, e), l + |t.last| + |TagCloses(t.sealed)|);
  }

  /** How the attributes of a tag were written. */
  lemma {:induction false} ReadIsRun(s: bytes, i: nat, seen: seq<RawAttr>, attrs: seq<RawAttr>, sealed: bool, next: nat)
    returns (run: seq<Spaced>, last: bytes)
    requires i <= |s| && ParseAttrs(s, i, seen) == AttrsOk(attrs, sealed, next)
    ensures RunOk(run) && NewNames(s, seen, run) && AllWhite(last) && attrs == seen + RunAt(run, i)
    ensures At(s, i, WriteRun(run)) && At(s, i + |WriteRun(run)|, last)
    ensures At(s, i + |WriteRun(run)| + |last|, TagCloses(sealed))
    ensures next == i + |WriteRun(run)| + |last| + |TagCloses(sealed)|
    decreases |s| - i
  {
    hide *;
    var p := SkippedTo(s, i);
    if p < |s| && IsAlpha(s[p]) {
      var a, mid := AttrInFront(s, i, p, seen, attrs, sealed, next);
      run, last := ReadIsRun(s, mid, seen + [a.0], attrs, sealed, next);
      var x := Spaced(s[i..p], a.1);
      RunOfCons(s, i, p, mid, seen, a.0, x, run);
      run := [x] + run;
    } else {
      last := EndOfTag(s, i, p, seen, attrs, sealed, next);
      run := [];
      NoRunWritten(s, i, seen);
    }
  }

  lemma SkippedTo(s: bytes, i: nat) returns (p: nat)
    requires i <= |s|
    ensures p == SkipSpace(s, i) && i <= p <= |s| && AllWhite(s[i..p])
  {
    p := SkipSpace(s, i);
    SkippedIsWhite(s, i, p);
  }

  lemma NoRunWritten(s: bytes, i: nat, seen: seq<RawAttr>)
    requires i <= |s|
    ensures RunOk([]) && NewNames(s, seen, []) && seen == seen + RunAt([], i) && At(s, i, WriteRun([])) && WriteRun([]) == []
  {
  }

  lemma AttrInFront(s: bytes, i: nat, p: nat, seen: seq<RawAttr>, attrs: seq<RawAttr>, sealed: bool, next: nat)
    returns (a: (RawAttr, AttrText), mid: nat)
    requires i <= |s| && p == SkipSpace(s, i) && p < |s| && IsAlpha(s[p])
    requires ParseAttrs(s, i, seen) == AttrsOk(attrs, sealed, next)
    ensures AttrTextOk(a.1) && At(s, p, WriteAttr(a.1)) && a.0 == AttrAt(a.1, p) && mid == p + |WriteAttr(a.1)| <= |s| && i < mid
    ensures forall j :: 0 <= j < |seen| ==> Slice(s, seen[j].name) != a.1.name
    ensures ParseAttrs(s, mid, seen + [a.0]) == AttrsOk(attrs, sealed, next)
  {
    hide SkipSpace, ParseAttr, RepeatError, WriteAttr, AttrTextOk, At, AttrAt;
    var r := ParseAttr(s, p).attr;
    mid := ParseAttr(s, p).next;
    var x := ReadIsAttr(s, p, r, mid);
    NameOfAttr(s, p, x);
    a := (r, x);
    assert !HasAttr(s, seen, r.name);
  }

  lemma EndOfTag(s: bytes, i: nat, p: nat, seen: seq<RawAttr>, attrs: seq<RawAttr>, sealed: bool, next: nat) returns (last: bytes)
    requires i <= |s| && p == SkipSpace(s, i) && AllWhite(s[i..p]) && (p < |s| ==> !IsAlpha(s[p]))
    requires ParseAttrs(s, i, seen) == AttrsOk(attrs, sealed, next)
    ensures AllWhite(last) && attrs == seen && At(s, i, last) && At(s, i + |last|, TagCloses(sealed))
    ensures next == i + |last| + |TagCloses(sealed)|
  {
    hide SkipSpace, ParseAttr, AllWhite;
    last := s[i..p];
    AtSlice(s, i, last);
    AtSlice(s, p, TagCloses(sealed));
  }

  lemma RunOfCons(s: bytes, i: nat, p: nat, mid: nat, seen: seq<RawAttr>, r: RawAttr, x: Spaced, run: seq<Spaced>)
    requires i <= p <= |s| && x.space == s[i..p] && AllWhite(x.space) && AttrTextOk(x.attr)
    requires At(s, p, WriteAttr(x.attr)) && r == AttrAt(x.attr, p) && mid == p + |WriteAttr(x.attr)|
    requires forall j :: 0 <= j < |seen| ==> Slice(s, seen[j].name) != x.attr.name
    requires RunOk(run) && NewNames(s, seen + [r], run) && At(s, mid, WriteRun(run))
    ensures RunOk([x] + run) && NewNames(s, seen, [x] + run) && At(s, i, WriteRun([x] + run))
    ensures (seen + [r]) + RunAt(run, mid) == seen + RunAt([x] + run, i)
    ensures i + |WriteRun([x] + run)| == mid + |WriteRun(run)|
  {
    hide *;
    NamesOfCons(s, p, seen, r, x, run);
    RunOkCons(x, run);
    RunUnfold([x] + run, i, x, run, p, mid);
    AtSlice(s, i, x.space);
    AtSplit(s, i, x.space, WriteAttr(x.attr));
    AtSplit(s, i, x.space + WriteAttr(x.attr), WriteRun(run));
    ConcatAssoc(seen, [r], RunAt(run, mid));
  }

  lemma RunOkCons(x: Spaced, run: seq<Spaced>)
    requires AllWhite(x.space) && AttrTextOk(x.attr) && RunOk(run)
    ensures RunOk([x] + run) && ([x] + run)[0] == x && ([x] + run)[1..] == run
  {
    hide AttrTextOk, AllWhite;
  }

  lemma NamesOfCons(s: bytes, p: nat, seen: seq<RawAttr>, r: RawAttr, x: Spaced, run: seq<Spaced>)
    requires At(s, p, WriteAttr(x.attr)) && r == AttrAt(x.attr, p)
    requires forall j :: 0 <= j < |seen| ==> Slice(s, seen[j].name) != x.attr.name
    requires NewNames(s, seen + [r], run)
    ensures NewNames(s, seen, [x] + run)
  {
    NameOfAttr(s, p, x.attr);
    hide At, WriteAttr, Slice, AttrAt;
    assert (seen + [r])[|seen|] == r;
    assert forall j :: 0 <= j < |seen| ==> (seen + [r])[j] == seen[j];
  }

  lemma TagFolded(s: bytes, i: nat, token: Token, next: nat)
    returns (k: nat, closing: bool, n: nat, e: nat, attrs: seq<RawAttr>, sealed: bool)
    requires 0 < i <= |s| && LexTag(s, i) == Lex(token, next)
    ensures k == SkipSpace(s, i) && (closing <==> Peek(s, k) == SLASH) && n == (if closing then k + 1 else k) && n <= |s|
    ensures i <= k && (closing ==> k < |s| && s[k] == SLASH)
    ensures ParseName(s, n) == Some(e) && e <= |s| && ParseAttrs(s, e, []) == AttrsOk(attrs, sealed, next)
    ensures token == if sealed then SealedTag(Span(n, e), attrs) else if closing then CloseTag(Span(n, e)) else OpenTag(Span(n, e), attrs)
  {
    hide SkipSpace, ParseName, ParseAttrs;
    k := SkipSpace(s, i);
    closing := Peek(s, k) == SLASH;
    n := if closing then k + 1 else k;
    e := ParseName(s, n).value;
    attrs, sealed := ParseAttrs(s, e, []).attrs, ParseAttrs(s, e, []).sealed;
  }

  /** Nothing else is read as a tag. */
  lemma ReadIsTag(s: bytes, i: nat, token: Token, next: nat) returns (t: TagText)
    requires i < |s| && s[i] == LT && LexTag(s, i + 1) == Lex(token, next)
    ensures TagTextOk(t) && At(s, i, WriteTag(t)) && token == TagToken(t, i) && next == i + |WriteTag(t)|
  {
    hide *;
    var k, closing, n, e, attrs, sealed := TagFolded(s, i + 1, token, next);
    SkippedIsWhite(s, i + 1, k);
    ReadIsName(s, n, e);
    var run, last := ReadIsRun(s, e, [], attrs, sealed, next);
    t := TagText(s[i + 1..k], closing, s[n..e], run, last, sealed);
    TagWritten(s, i, t, k, n, e, attrs);
  }

  lemma TagWritten(s: bytes, i: nat, t: TagText, k: nat, n: nat, e: nat, attrs: seq<RawAttr>)
    requires i < |s| && s[i] == LT && i + 1 <= k <= n < e <= |s| && t.space == s[i + 1..k] && t.name == s[n..e]
    requires n == (if t.closing then k + 1 else k) && (t.closing ==> s[k] == SLASH)
    requires AllWhite(t.space) && IsName(t.name) && RunOk(t.run) && AllWhite(t.last) && (e < |s| ==> !InName(s[e]))
    requires NewNames(s, [], t.run) && attrs == [] + RunAt(t.run, e)
    requires At(s, e, WriteRun(t.run)) && At(s, e + |WriteRun(t.run)|, t.last)
    requires At(s, e + |WriteRun(t.run)| + |t.last|, TagCloses(t.sealed))
    ensures TagTextOk(t) && At(s, i, WriteTag(t)) && i + |TagOpens(t)| == n
    ensures i + |WriteTag(t)| == e + |WriteRun(t.run)| + |t.last| + |TagCloses(t.sealed)|
    ensures TagToken(t, i) == if t.sealed then SealedTag(Span(n, e), attrs)
                              else if t.closing then CloseTag(Span(n, e)) else OpenTag(Span(n, e), attrs)
  {
    SpaceInFront(s, e, t.run);
    FrontWritten(s, i, t, k, n);
    AtSlice(s, n, t.name);
    ConcatEmpty(RunAt(t.run, e));
    TagJoined(s, i, t, n, e);
    TagIsOk(s, t);
    hide *;
    TokenOfTag(t, i, n, e);
  }

  lemma TagIsOk(s: bytes, t: TagText)
    requires AllWhite(t.space) && IsName(t.name) && RunOk(t.run) && AllWhite(t.last)
    requires NewNames(s, [], t.run) && (t.run != [] ==> t.run[0].space != [])
    ensures TagTextOk(t)
  {
    hide AllWhite, IsName, RunOk;
  }

  lemma TokenOfTag(t: TagText, i: nat, n: nat, e: nat)
    requires n == i + |TagOpens(t)| && e == n + |t.name|
    ensures TagToken(t, i) == if t.sealed then SealedTag(Span(n, e), RunAt(t.run, e))
                              else if t.closing then CloseTag(Span(n, e)) else OpenTag(Span(n, e), RunAt(t.run, e))
  {
  }

  lemma TagJoined(s: bytes, i: nat, t: TagText, n: nat, e: nat)
    requires At(s, i, TagOpens(t)) && n == i + |TagOpens(t)| && At(s, n, t.name) && e == n + |t.name|
    requires At(s, e, WriteRun(t.run)) && At(s, e + |WriteRun(t.run)|, t.last)
    requires At(s, e + |WriteRun(t.run)| + |t.last|, TagCloses(t.sealed))
    ensures At(s, i, WriteTag(t))
    ensures i + |WriteTag(t)| == e + |WriteRun(t.run)| + |t.last| + |TagCloses(t.sealed)|
  {
    hide At, WriteRun, TagOpens, TagCloses;
    var x1 := TagOpens(t) + t.name;
    var x2 := x1 + WriteRun(t.run);
    var x3 := x2 + t.last;
    AtSplit(s, i, TagOpens(t), t.name);
    AtSplit(s, i, x1, WriteRun(t.run));
    AtSplit(s, i, x2, t.last);
    AtSplit(s, i, x3, TagCloses(t.sealed));
  }

  lemma SpaceInFront(s: bytes, e: nat, run: seq<Spaced>)
    requires RunOk(run) && At(s, e, WriteRun(run)) && (e < |s| ==> !InName(s[e]))
    ensures run != [] ==> run[0].space != []
  {
    if run != [] && run[0].space == [] {
      RunParts(s, e, run);
      AttrParts(s, e, run[0].attr);
      AtFirst(s, e, run[0].attr.name);
    }
  }

  lemma FrontWritten(s: bytes, i: nat, t: TagText, k: nat, n: nat)
    requires i < |s| && s[i] == LT && i + 1 <= k <= n <= |s| && t.space == s[i + 1..k]
    requires n == (if t.closing then k + 1 else k) && (t.closing ==> s[k] == SLASH)
    ensures At(s, i, TagOpens(t)) && i + |TagOpens(t)| == n
  {
    assert TagOpens(t) == s[i..n];
    AtSlice(s, i, TagOpens(t));
  }
}
