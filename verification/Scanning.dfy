/**
 The scanning loops of the parser over the character buffer. The buffer still holds the
 text `s` from the cursor on; what lies before it may have been rewritten.
 */
module Scanning {
  import opened Bytes
  import opened CharRef
  import opened Decoding
  import opened StrPairs

  ghost predicate Tail(b: bytes, s: bytes, p: nat) {
    |b| == |s| + 1 && p <= |s| && forall k :: p <= k <= |s| ==> b[k] == Peek(s, k)
  }

  ghost predicate Agree(b: bytes, b': bytes, lo: nat, hi: nat) {
    |b| == |b'| && forall k :: lo <= k < hi && k < |b| ==> b[k] == b'[k]
  }

  lemma AgreeTrans(a: bytes, b: bytes, c: bytes, lo: nat, hi: nat)
    requires Agree(a, b, lo, hi) && Agree(b, c, lo, hi)
    ensures Agree(a, c, lo, hi)
  {
  }

  lemma AgreeLess(a: bytes, b: bytes, lo: nat, hi: nat)
    requires Agree(a, b, 0, hi) && lo <= hi
    ensures Agree(a, b, 0, lo)
  {
  }

  lemma AgreeFrom(a: bytes, b: bytes, lo: nat, hi: nat)
    requires Agree(a, b, 0, hi)
    ensures Agree(a, b, lo, hi)
  {
  }

  lemma AgreeFewer(a: bytes, b: bytes, c: bytes, lo: nat, hi: nat)
    requires Agree(a, b, 0, lo) && Agree(b, c, 0, hi) && lo <= hi
    ensures Agree(a, c, 0, lo) && Agree(b, c, 0, lo)
  {
  }

  lemma TailStored(b: bytes, s: bytes, p: nat, x: StrPair)
    requires Tail(b, s, p) && p <= x.start <= x.end <= |s|
    ensures b[x.start..x.end] == s[x.start..x.end]
  {
  }

  /** `XMLUtil::SkipWhiteSpace`. */
  method SkipWhiteSpace(buf: array<byte>, p: nat, ghost s: bytes) returns (r: nat)
    requires Tail(buf[..], s, p)
    ensures r == SkipSpace(s, p)
  {
    r := p;
    while IsSpace(buf[r])
      invariant p <= r <= |s| && SkipSpace(s, r) == SkipSpace(s, p)
      decreases |s| - r
    {
      r := r + 1;
    }
  }

  /** `XMLUtil::StringEqual` of the text at `p` with a prefix of known length. */
  method StartsWith(buf: array<byte>, p: nat, x: bytes, ghost s: bytes) returns (b: bool)
    requires Tail(buf[..], s, p) && NoNul(x)
    ensures b <==> At(s, p, x)
  {
    var n := 0;
    while n < |x|
      invariant 0 <= n <= |x| && p + n <= |s|
      invariant forall k :: 0 <= k < n ==> s[p + k] == x[k]
    {
      if buf[p + n] != x[n] {
        NotAt(s, p, x, n);
        return false;
      }
      n := n + 1;
    }
    b := true;
  }

  /** `StrPair::ParseName`; the pair stays as it was when no name starts here. */
  method ScanName(buf: array<byte>, p: nat, sp: StrPair, ghost s: bytes) returns (r: Option<nat>, sp': StrPair)
    requires Tail(buf[..], s, p) && NoNul(s)
    ensures r == ParseName(s, p)
    ensures sp' == if r.Some? then Pair(p, r.value, NO_FLAGS) else sp
  {
    r, sp' := None, sp;
    if buf[p] == 0 || !IsAlpha(buf[p]) {
      return;
    }
    var q := p;
    while buf[q] != 0 && IsNameByte(buf[q])
      invariant p <= q <= |s| && NameEnd(s, q) == NameEnd(s, p)
      decreases |s| - q
    {
      q := q + 1;
    }
    r, sp' := Some(q), Pair(p, q, NO_FLAGS);
  }

  /** `StrPair::ParseText`: the cursor behind the terminator, or the null pointer. */
  method ScanText(buf: array<byte>, p: nat, endTag: bytes, flags: Flags, sp: StrPair, ghost s: bytes)
    returns (r: Option<nat>, sp': StrPair)
    requires Tail(buf[..], s, p) && NoNul(s) && NoNul(endTag) && endTag != []
    ensures match FindEnd(s, p, endTag)
            case Some(e) => r == Some(e + |endTag|) && sp' == Pair(p, e, flags)
            case None => r == None && sp' == sp
  {
    var q := p;
    r, sp' := None, sp;
    while buf[q] != 0
      invariant p <= q <= |s| && FindEnd(s, q, endTag) == FindEnd(s, p, endTag)
      decreases |s| - q
    {
      if buf[q] == endTag[0] {
        var b := StartsWith(buf, q, endTag, s);
        if b {
          r, sp' := Some(q + |endTag|), Pair(p, q, flags);
          return;
        }
      }
      assert !At(s, q, endTag) by {
        if s[q] != endTag[0] { NotAt(s, q, endTag, 0); }
      }
      q := q + 1;
    }
  }

  /** `XMLUtil::StringEqual` of two strings that end in a NUL. */
  method SameString(buf: array<byte>, i: nat, j: nat, ghost x: bytes, ghost y: bytes) returns (b: bool)
    requires TextAt(buf[..], i, x) && TextAt(buf[..], j, y)
    ensures b <==> x == y
  {
    if i == j {
      SameText(buf[..], i, x, y);
      return true;
    }
    var n := 0;
    while buf[i + n] != 0 && buf[j + n] != 0 && buf[i + n] == buf[j + n]
      invariant 0 <= n <= |x| && n <= |y| && x[..n] == y[..n]
      decreases |x| - n
    {
      assert x[n] == y[n];
      n := n + 1;
    }
    b := buf[i + n] == 0 && buf[j + n] == 0;
    if b {
      assert n == |x| == |y| && x == x[..n] && y == y[..n];
    }
  }

  lemma SameText(b: bytes, i: nat, x: bytes, y: bytes)
    requires TextAt(b, i, x) && TextAt(b, i, y)
    ensures x == y
  {
    assert b[i + |x|] == 0 && b[i + |y|] == 0;
    assert |x| == |y|;
    assert b[i..i + |x|] == x && b[i..i + |x|] == y;
  }

  lemma TailAt(b: bytes, s: bytes, p: nat, q: nat)
    requires Tail(b, s, p) && p <= q <= |s| && NoNul(s)
    ensures q < |b| && (b[q] == 0 <==> q == |s|)
    ensures q < |s| ==> b[q] == s[q] && q + 1 < |b| && b[q + 1] == Peek(s, q + 1)
  {
  }

  lemma Length(b: bytes, s: bytes, p: nat)
    requires Tail(b, s, p)
    ensures |b| == |s| + 1 && p <= |s|
  {
  }

  lemma TailLater(b: bytes, s: bytes, p: nat, q: nat)
    requires Tail(b, s, p) && p <= q <= |s|
    ensures Tail(b, s, q)
  {
  }

  lemma TailFrame(b: bytes, b': bytes, s: bytes, lo: nat, p: nat)
    requires Tail(b, s, p) && Agree(b, b', lo, |s| + 1) && lo <= p
    ensures Tail(b', s, p)
  {
  }

  lemma Copied(b: bytes, input: bytes, p: nat)
    requires p <= |input| && |b| == |input| - p + 1 && forall k :: 0 <= k < |b| ==> b[k] == Peek(input, p + k)
    ensures Tail(b, input[p..], 0)
  {
  }

  lemma PlainName(b: bytes, s: bytes, i: nat, e: nat)
    requires Tail(b, s, i) && NoNul(s) && i <= e <= |s|
    ensures NoNul(b[i..e]) && Decode(b[i..e], NO_FLAGS) == Some(s[i..e])
  {
    assert b[i..e] == s[i..e];
    DecodePlain(b[i..e]);
  }
}
