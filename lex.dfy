/**
 * Lexicographic order on sequences of integers.  Python compares `bytes`
 * byte by byte and `str` code point by code point, a proper prefix being
 * smaller than any extension; `Less` is that comparison (`a < b`).
 */
module Lex {

  /** `a < b` in Python's comparison of two `bytes` (or two `str` as code points). */
  predicate Less(a: seq<int>, b: seq<int>)
    decreases |a|
  {
    if b == [] then false
    else if a == [] then true
    else if a[0] != b[0] then a[0] < b[0]
    else Less(a[1..], b[1..])
  }

  /** `a <= b` */
  predicate LessEq(a: seq<int>, b: seq<int>)
  {
    a == b || Less(a, b)
  }

  lemma {:induction false} Irreflexive(a: seq<int>)
    ensures !Less(a, a)
    decreases |a|
  {
    if a != [] {
      Irreflexive(a[1..]);
    }
  }

  lemma {:induction false} Asymmetric(a: seq<int>, b: seq<int>)
    ensures !(Less(a, b) && Less(b, a))
    decreases |a|
  {
    if a != [] && b != [] && a[0] == b[0] {
      Asymmetric(a[1..], b[1..]);
    }
  }

  lemma {:induction false} Transitive(a: seq<int>, b: seq<int>, c: seq<int>)
    requires Less(a, b) && Less(b, c)
    ensures Less(a, c)
    decreases |a|
  {
    if a != [] && a[0] == b[0] && b[0] == c[0] {
      Transitive(a[1..], b[1..], c[1..]);
    }
  }

  /** Any two different sequences are comparable. */
  lemma {:induction false} Total(a: seq<int>, b: seq<int>)
    requires a != b
    ensures Less(a, b) || Less(b, a)
    decreases |a|
  {
    if a != [] && b != [] && a[0] == b[0] {
      assert a == [a[0]] + a[1..] && b == [b[0]] + b[1..];
      Total(a[1..], b[1..]);
    }
  }

  lemma LessEqTransitive(a: seq<int>, b: seq<int>, c: seq<int>)
    requires LessEq(a, b) && LessEq(b, c)
    ensures LessEq(a, c)
  {
    if a != b && b != c {
      Transitive(a, b, c);
    }
  }

  /** A proper prefix sorts before every extension of it. */
  lemma {:induction false} PrefixLess(a: seq<int>, x: seq<int>)
    requires x != []
    ensures Less(a, a + x)
    decreases |a|
  {
    if a != [] {
      assert (a + x)[1..] == a[1..] + x;
      PrefixLess(a[1..], x);
    }
  }

  /** Among sequences of one length, the order of two heads decides whatever follows. */
  lemma {:induction false} LessAppend(a: seq<int>, b: seq<int>, x: seq<int>, y: seq<int>)
    requires |a| == |b| && Less(a, b)
    ensures Less(a + x, b + y)
    decreases |a|
  {
    if a[0] == b[0] {
      assert (a + x)[1..] == a[1..] + x && (b + y)[1..] == b[1..] + y;
      LessAppend(a[1..], b[1..], x, y);
    }
  }

  /** Conversely, comparing `a + x` with `b + y` for heads of one length compares the heads first. */
  lemma {:induction false} AppendLess(a: seq<int>, b: seq<int>, x: seq<int>, y: seq<int>)
    requires |a| == |b| && Less(a + x, b + y)
    ensures LessEq(a, b)
    ensures a == b ==> Less(x, y)
    decreases |a|
  {
    if a != [] {
      assert (a + x)[1..] == a[1..] + x && (b + y)[1..] == b[1..] + y;
      if a[0] == b[0] {
        AppendLess(a[1..], b[1..], x, y);
        assert a == [a[0]] + a[1..] && b == [b[0]] + b[1..];
      }
    } else {
      assert a + x == x && b + y == y;
    }
  }

  /** A shared head does not change the order of what follows it. */
  lemma {:induction false} SharedPrefix(p: seq<int>, u: seq<int>, v: seq<int>)
    requires Less(u, v)
    ensures Less(p + u, p + v)
    decreases |p|
  {
    if p != [] {
      assert (p + u)[0] == p[0] == (p + v)[0];
      assert (p + u)[1..] == p[1..] + u && (p + v)[1..] == p[1..] + v;
      SharedPrefix(p[1..], u, v);
    } else {
      assert p + u == u && p + v == v;
    }
  }
}
