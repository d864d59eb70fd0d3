/** Byte-wise lexicographic order on strings, the order in which the ordered
    key-value store keeps and iterates its keys (std::string comparison). */
module Lex {

  /** `p` is a prefix of `s`. */
  predicate IsPrefix(p: string, s: string) {
    |p| <= |s| && s[..|p|] == p
  }

  /** Strict lexicographic order: `a` sorts before `b`. Characters compare
      by code point; on the ASCII characters every key is made of, that is
      the unsigned byte order std::string comparison uses. */
  predicate Less(a: string, b: string)
    decreases |a|
  {
    |b| > 0 && (|a| == 0 || a[0] < b[0] || (a[0] == b[0] && Less(a[1..], b[1..])))
  }

  lemma {:induction false} LessIrreflexive(a: string)
    ensures !Less(a, a)
    decreases |a|
  {
    if |a| > 0 {
      LessIrreflexive(a[1..]);
    }
  }

  lemma {:induction false} LessTransitive(a: string, b: string, c: string)
    requires Less(a, b) && Less(b, c)
    ensures Less(a, c)
    decreases |a|
  {
    if |a| > 0 && a[0] == b[0] && b[0] == c[0] {
      LessTransitive(a[1..], b[1..], c[1..]);
    }
  }

  lemma LessAsymmetric(a: string, b: string)
    requires Less(a, b)
    ensures !Less(b, a)
  {
    if Less(b, a) {
      LessTransitive(a, b, a);
      LessIrreflexive(a);
    }
  }

  lemma {:induction false} LessTotal(a: string, b: string)
    ensures a == b || Less(a, b) || Less(b, a)
    decreases |a|
  {
    if |a| > 0 && |b| > 0 && a[0] == b[0] {
      LessTotal(a[1..], b[1..]);
      if a[1..] == b[1..] {
        assert a == [a[0]] + a[1..] && b == [b[0]] + b[1..];
      }
    }
  }

  /** A common prefix does not change the order. */
  lemma {:induction false} LessCommonPrefix(p: string, x: string, y: string)
    ensures Less(p + x, p + y) <==> Less(x, y)
    decreases |p|
  {
    if |p| > 0 {
      assert (p + x)[0] == p[0] == (p + y)[0];
      assert (p + x)[1..] == p[1..] + x;
      assert (p + y)[1..] == p[1..] + y;
      LessCommonPrefix(p[1..], x, y);
    } else {
      assert p + x == x && p + y == y;
    }
  }

  /** Between strings of equal length the order is decided before anything appended. */
  lemma {:induction false} LessEqualLength(x: string, y: string, u: string, v: string)
    requires |x| == |y| && Less(x, y)
    ensures Less(x + u, y + v)
    decreases |x|
  {
    assert (x + u)[0] == x[0] && (y + v)[0] == y[0];
    if x[0] == y[0] && !(x[0] < y[0]) {
      assert (x + u)[1..] == x[1..] + u;
      assert (y + v)[1..] == y[1..] + v;
      LessEqualLength(x[1..], y[1..], u, v);
    }
  }

  /** A proper prefix sorts first. */
  lemma {:induction false} PrefixIsLess(p: string, s: string)
    requires IsPrefix(p, s) && p != s
    ensures Less(p, s)
    decreases |p|
  {
    if |p| > 0 {
      assert s[1..][..|p| - 1] == p[1..];
      PrefixIsLess(p[1..], s[1..]);
    }
  }

  lemma PrefixAppend(p: string, x: string)
    ensures IsPrefix(p, p + x)
  {
    assert (p + x)[..|p|] == p;
  }

  lemma PrefixTransitive(p: string, q: string, s: string)
    requires IsPrefix(p, q) && IsPrefix(q, s)
    ensures IsPrefix(p, s)
  {
    assert s[..|q|][..|p|] == s[..|p|];
  }

  /** If `b` follows a string carrying prefix `p` but does not carry it
      itself, then every string carrying `p` sorts before `b`: the strings
      sharing a prefix form one contiguous run of the order. */
  lemma {:induction false} PrefixRunEnds(p: string, a: string, b: string, c: string)
    requires IsPrefix(p, a) && !IsPrefix(p, b) && Less(a, b)
    requires IsPrefix(p, c)
    ensures Less(c, b)
    decreases |p|
  {
    if |p| == 0 {
    } else {
      assert a[0] == p[0] && c[0] == p[0];
      assert |b| > 0;
      if b[0] == p[0] {
        assert a[1..][..|p| - 1] == p[1..];
        assert c[1..][..|p| - 1] == p[1..];
        PrefixRunEnds(p[1..], a[1..], b[1..], c[1..]);
      }
    }
  }

  /** When `p` sorts before `q` and is not a prefix of it, every string
      carrying `p` sorts before every string carrying `q`. */
  lemma {:induction false} PrefixBlocksOrdered(p: string, q: string, a: string, b: string)
    requires Less(p, q) && !IsPrefix(p, q)
    requires IsPrefix(p, a) && IsPrefix(q, b)
    ensures Less(a, b)
    decreases |p|
  {
    assert |p| > 0;
    assert a[0] == p[0] && b[0] == q[0];
    if p[0] == q[0] && !(p[0] < q[0]) {
      assert a[1..][..|p| - 1] == p[1..];
      assert b[1..][..|q| - 1] == q[1..];
      PrefixBlocksOrdered(p[1..], q[1..], a[1..], b[1..]);
    }
  }
}
