/**
 Bytes, text and the character classes of the XML library.

 A text is the sequence of bytes in front of the terminating NUL of a C string;
 `Peek` reads the NUL at its end.
 */
module Bytes {

  type byte = b: int | 0 <= b < 256
  type bytes = seq<byte>

  datatype Option<+T> = None | Some(value: T)

  const LF: byte := 10
  const CR: byte := 13
  const SPACE: byte := 32
  const QUOTE: byte := 34
  const HASH: byte := 35
  const AMP: byte := 38
  const APOS: byte := 39
  const DASH: byte := 45
  const SLASH: byte := 47
  const SEMI: byte := 59
  const LT: byte := 60
  const EQ: byte := 61
  const GT: byte := 62
  const LOWER_X: byte := 120

  lemma ConcatAssoc<T>(a: seq<T>, b: seq<T>, c: seq<T>)
    ensures (a + b) + c == a + (b + c)
  {
  }

  lemma ConcatEmpty<T>(a: seq<T>)
    ensures a + [] == a && [] + a == a
  {
  }

  /** The byte at `i`, or the terminating NUL. */
  function Peek(s: bytes, i: nat): byte {
    if i < |s| then s[i] else 0
  }

  /** `isspace` in the C locale; bytes of 128 and above never count. */
  predicate IsSpace(b: byte) {
    9 <= b <= 13 || b == SPACE
  }

  predicate IsAlpha(b: byte) {
    65 <= b <= 90 || 97 <= b <= 122 || b >= 128
  }

  predicate IsAlphaNum(b: byte) {
    IsAlpha(b) || 48 <= b <= 57
  }

  /** The bytes that may continue a name: letters, digits, `_`, `-`, `.` and `:`. */
  predicate IsNameByte(b: byte) {
    IsAlphaNum(b) || b == 95 || b == DASH || b == 46 || b == 58
  }

  ghost predicate AllSpace(s: bytes) {
    forall k :: 0 <= k < |s| ==> IsSpace(s[k])
  }

  /** A text holds no NUL: the C string would have ended there. */
  ghost predicate NoNul(s: bytes) {
    forall k :: 0 <= k < |s| ==> s[k] != 0
  }

  ghost predicate NoCR(s: bytes) {
    forall k :: 0 <= k < |s| ==> s[k] != CR
  }

  /** A name that `StrPair::ParseName` accepts in full. */
  ghost predicate ValidName(n: bytes) {
    |n| > 0 && IsAlpha(n[0]) && forall k :: 0 <= k < |n| ==> IsNameByte(n[k])
  }

  /** `x` stands at position `i` of `s`: what `strncmp(p, x, |x|) == 0` decides. */
  predicate At(s: bytes, i: nat, x: bytes) {
    i + |x| <= |s| && forall k :: 0 <= k < |x| ==> s[i + k] == x[k]
  }

  lemma AtSplit(s: bytes, i: nat, x: bytes, y: bytes)
    ensures At(s, i, x + y) <==> At(s, i, x) && At(s, i + |x|, y)
  {
    if At(s, i, x + y) {
      assert forall k :: 0 <= k < |x| ==> x[k] == (x + y)[k];
      forall k | 0 <= k < |y| ensures s[i + |x| + k] == y[k] {
        assert y[k] == (x + y)[|x| + k] == s[i + (|x| + k)];
      }
    }
    if At(s, i, x) && At(s, i + |x|, y) {
      forall k | 0 <= k < |x + y| ensures s[i + k] == (x + y)[k] {
        if k >= |x| {
          assert s[i + |x| + (k - |x|)] == y[k - |x|];
        }
      }
    }
  }

  lemma NotAt(s: bytes, i: nat, x: bytes, k: nat)
    requires k < |x| && (i + k >= |s| || s[i + k] != x[k])
    ensures !At(s, i, x)
  {
  }

  lemma AtFirst(s: bytes, i: nat, x: bytes)
    requires At(s, i, x) && x != []
    ensures i < |s| && s[i] == x[0]
  {
    assert s[i + 0] == x[0];
  }

  lemma AtBytes(s: bytes, i: nat, x: bytes)
    requires At(s, i, x)
    ensures i + |x| <= |s| && forall k :: i <= k < i + |x| ==> s[k] == x[k - i]
  {
    forall k | i <= k < i + |x| ensures s[k] == x[k - i] {
      assert s[i + (k - i)] == x[k - i];
    }
  }

  lemma AtOne(s: bytes, i: nat, c: byte)
    ensures At(s, i, [c]) <==> i < |s| && s[i] == c
  {
    assert [c][0] == c;
    if i < |s| {
      assert s[i + 0] == s[i];
    }
  }

  lemma AtSlice(s: bytes, i: nat, x: bytes)
    ensures At(s, i, x) <==> i + |x| <= |s| && s[i..i + |x|] == x
  {
    if i + |x| <= |s| && s[i..i + |x|] == x {
      forall k | 0 <= k < |x| ensures s[i + k] == x[k] {
        assert s[i..i + |x|][k] == s[i + k];
      }
    }
  }

  /** The first position at or after `i` that is not white space. */
  function SkipSpace(s: bytes, i: nat): (r: nat)
    requires i <= |s|
    ensures i <= r <= |s|
    ensures forall k :: i <= k < r ==> IsSpace(s[k])
    ensures r < |s| ==> !IsSpace(s[r])
    decreases |s| - i
  {
    if i < |s| && IsSpace(s[i]) then SkipSpace(s, i + 1) else i
  }

  lemma SkipSpaceUnique(s: bytes, i: nat, r: nat)
    requires i <= r <= |s|
    requires forall k :: i <= k < r ==> IsSpace(s[k])
    requires r < |s| ==> !IsSpace(s[r])
    ensures SkipSpace(s, i) == r
    decreases r - i
  {
    if i < r {
      SkipSpaceUnique(s, i + 1, r);
    }
  }

  /** The end of the run of name bytes that starts at `i`. */
  function NameEnd(s: bytes, i: nat): (r: nat)
    requires i <= |s|
    ensures i <= r <= |s|
    ensures forall k :: i <= k < r ==> IsNameByte(s[k])
    ensures r < |s| ==> !IsNameByte(s[r])
    decreases |s| - i
  {
    if i < |s| && IsNameByte(s[i]) then NameEnd(s, i + 1) else i
  }

  lemma NameEndUnique(s: bytes, i: nat, r: nat)
    requires i <= r <= |s|
    requires forall k :: i <= k < r ==> IsNameByte(s[k])
    requires r < |s| ==> !IsNameByte(s[r])
    ensures NameEnd(s, i) == r
    decreases r - i
  {
    if i < r {
      NameEndUnique(s, i + 1, r);
    }
  }

  /** `StrPair::ParseName`: the end of the name at `i`, if one starts there. */
  function ParseName(s: bytes, i: nat): (r: Option<nat>)
    requires i <= |s|
    ensures r.Some? ==> i < r.value <= |s| && IsAlpha(s[i])
    ensures r.Some? ==> forall k :: i <= k < r.value ==> IsNameByte(s[k])
    ensures r.Some? && r.value < |s| ==> !IsNameByte(s[r.value])
  {
    if i < |s| && IsAlpha(s[i]) then Some(NameEnd(s, i)) else None
  }

  lemma ParseNameAt(s: bytes, i: nat, n: bytes)
    requires ValidName(n) && At(s, i, n)
    requires i + |n| < |s| ==> !IsNameByte(s[i + |n|])
    ensures ParseName(s, i) == Some(i + |n|)
  {
    forall k | i <= k < i + |n| ensures s[k] == n[k - i] {
      assert s[i + (k - i)] == n[k - i];
    }
    NameEndUnique(s, i, i + |n|);
  }

  /** `StrPair::ParseText`: the first occurrence of the terminator `t` at or after `i`. */
  function FindEnd(s: bytes, i: nat, t: bytes): (r: Option<nat>)
    requires i <= |s|
    ensures r.Some? ==> i <= r.value && At(s, r.value, t)
    ensures r.Some? ==> forall k :: i <= k < r.value ==> !At(s, k, t)
    decreases |s| - i
  {
    if i == |s| then None
    else if At(s, i, t) then Some(i)
    else FindEnd(s, i + 1, t)
  }

  lemma FindEndUnique(s: bytes, i: nat, t: bytes, e: nat)
    requires i <= e < |s| && At(s, e, t)
    requires forall k :: i <= k < e ==> !At(s, k, t)
    ensures FindEnd(s, i, t) == Some(e)
    decreases e - i
  {
    if i < e {
      assert !At(s, i, t);
      FindEndUnique(s, i + 1, t, e);
    }
  }

  lemma FindEndNone(s: bytes, i: nat, t: bytes)
    requires i <= |s|
    ensures FindEnd(s, i, t).None? ==> forall k :: i <= k < |s| ==> !At(s, k, t)
    decreases |s| - i
  {
    if i < |s| && !At(s, i, t) {
      FindEndNone(s, i + 1, t);
    }
  }

  /** A one-byte terminator that does not occur in `x` is found right behind it. */
  lemma FindEndBehind(s: bytes, i: nat, x: bytes, c: byte)
    requires At(s, i, x + [c]) && c !in x
    ensures i + |x| < |s| && s[i + |x|] == c && FindEnd(s, i, [c]) == Some(i + |x|)
  {
    AtSplit(s, i, x, [c]);
    AtOne(s, i + |x|, c);
    forall k | i <= k < i + |x| ensures !At(s, k, [c]) {
      assert s[i + (k - i)] == x[k - i];
      AtOne(s, k, c);
    }
    FindEndUnique(s, i, [c], i + |x|);
  }
}
