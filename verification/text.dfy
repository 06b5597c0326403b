/** String helpers shared by the model: prefix and suffix tests, the
    lexicographic order that Kotlin's `String.compareTo` induces, substring
    containment and the byte count of `String.toByteArray()` (UTF-8). */
module Text {

  predicate StartsWith(s: string, prefix: string) {
    |prefix| <= |s| && s[..|prefix|] == prefix
  }

  predicate EndsWith(s: string, suffix: string) {
    |suffix| <= |s| && s[|s| - |suffix|..] == suffix
  }

  /** `x` occurs in `s` starting at index `k`. */
  predicate InfixAt(x: string, s: string, k: int) {
    0 <= k <= |s| - |x| && s[k..k + |x|] == x
  }

  /** `x` occurs in `s` as a contiguous piece. */
  predicate Infix(x: string, s: string) {
    exists k :: 0 <= k <= |s| && InfixAt(x, s, k)
  }

  /** Strict lexicographic order: the first differing character decides,
      and a proper prefix sorts before the longer string. */
  predicate Below(a: string, b: string)
    decreases |a|
  {
    if |a| == 0 then |b| > 0
    else |b| > 0 && (a[0] < b[0] || (a[0] == b[0] && Below(a[1..], b[1..])))
  }

  lemma {:induction false} BelowIrreflexive(a: string)
    ensures !Below(a, a)
    decreases |a|
  {
    if |a| > 0 {
      BelowIrreflexive(a[1..]);
    }
  }

  lemma {:induction false} BelowAsymmetric(a: string, b: string)
    ensures Below(a, b) ==> !Below(b, a)
    decreases |a|
  {
    if |a| > 0 && |b| > 0 {
      BelowAsymmetric(a[1..], b[1..]);
    }
  }

  lemma {:induction false} BelowTransitive(a: string, b: string, c: string)
    requires Below(a, b) && Below(b, c)
    ensures Below(a, c)
    decreases |a|
  {
    if |a| > 0 && a[0] == b[0] && b[0] == c[0] {
      BelowTransitive(a[1..], b[1..], c[1..]);
    }
  }

  lemma {:induction false} BelowTotal(a: string, b: string)
    ensures a == b || Below(a, b) || Below(b, a)
    decreases |a|
  {
    if |a| > 0 && |b| > 0 && a[0] == b[0] {
      BelowTotal(a[1..], b[1..]);
      assert a == [a[0]] + a[1..];
      assert b == [b[0]] + b[1..];
    }
  }

  /** Comparing two concatenations whose first parts have equal length:
      the first parts decide unless they are equal. */
  lemma {:induction false} BelowConcat(s1: string, t1: string, s2: string, t2: string)
    requires |s1| == |t1|
    ensures Below(s1 + s2, t1 + t2) <==> Below(s1, t1) || (s1 == t1 && Below(s2, t2))
    decreases |s1|
  {
    if |s1| == 0 {
      assert s1 + s2 == s2;
      assert t1 + t2 == t2;
    } else {
      assert (s1 + s2)[1..] == s1[1..] + s2;
      assert (t1 + t2)[1..] == t1[1..] + t2;
      assert s1 == [s1[0]] + s1[1..];
      assert t1 == [t1[0]] + t1[1..];
      BelowConcat(s1[1..], t1[1..], s2, t2);
    }
  }

  /** A shared prefix does not change the order of two strings. */
  lemma BelowCommonPrefix(p: string, a: string, b: string)
    ensures Below(p + a, p + b) <==> Below(a, b)
  {
    BelowConcat(p, p, a, b);
    BelowIrreflexive(p);
  }

  lemma InfixOfConcat(x: string, a: string, b: string)
    requires Infix(x, a) || Infix(x, b)
    ensures Infix(x, a + b)
  {
    if Infix(x, a) {
      var k :| 0 <= k <= |a| && InfixAt(x, a, k);
      assert (a + b)[k..k + |x|] == a[k..k + |x|];
      assert InfixAt(x, a + b, k);
    } else {
      var k :| 0 <= k <= |b| && InfixAt(x, b, k);
      assert 0 <= k <= |b| - |x| && b[k..k + |x|] == x;
      assert (a + b)[|a| + k..|a| + k + |x|] == b[k..k + |x|];
      assert InfixAt(x, a + b, |a| + k);
    }
  }

  lemma InfixSelf(x: string)
    ensures Infix(x, x)
  {
    assert x[0..|x|] == x;
    assert InfixAt(x, x, 0);
  }

  /** Bytes one character takes in UTF-8. */
  function Utf8Width(c: char): nat {
    if c as int < 0x80 then 1
    else if c as int < 0x800 then 2
    else if c as int < 0x1_0000 then 3
    else 4
  }

  /** Length of `s.toByteArray()`, the UTF-8 encoding of `s`. */
  function ByteLength(s: string): (n: nat)
    ensures |s| <= n <= 4 * |s|
  {
    if |s| == 0 then 0 else Utf8Width(s[0]) + ByteLength(s[1..])
  }

  /** The encoding of a concatenation is the concatenation of the
      encodings, so byte lengths add up. */
  lemma {:induction false} ByteLengthConcat(a: string, b: string)
    ensures ByteLength(a + b) == ByteLength(a) + ByteLength(b)
    decreases |a|
  {
    if |a| > 0 {
      assert (a + b)[1..] == a[1..] + b;
      ByteLengthConcat(a[1..], b);
    } else {
      assert a + b == b;
    }
  }

  /** ASCII text takes one byte per character. */
  lemma {:induction false} ByteLengthAscii(s: string)
    requires forall i :: 0 <= i < |s| ==> s[i] as int < 0x80
    ensures ByteLength(s) == |s|
    decreases |s|
  {
    if |s| > 0 {
      ByteLengthAscii(s[1..]);
    }
  }
}
