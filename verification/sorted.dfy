/** Ascending sequences of names, and the sorted listing of a finite set of
    names under `Text.Below`. */
module Sorted {
  import opened Text

  /** Strictly ascending, hence also free of duplicates. */
  predicate Ascending(s: seq<string>) {
    forall i, j :: 0 <= i < j < |s| ==> Below(s[i], s[j])
  }

  lemma BelowIsAsymmetric()
    ensures forall a: string, b: string :: Below(a, b) ==> !Below(b, a)
  {
    forall a: string, b: string
      ensures Below(a, b) ==> !Below(b, a)
    {
      BelowAsymmetric(a, b);
    }
  }

  /** `m` is the least name of `s`. */
  predicate IsLeast(m: string, s: set<string>) {
    m in s && forall x :: x in s && x != m ==> Below(m, x)
  }

  lemma {:induction false} LeastExists(s: set<string>)
    requires s != {}
    ensures exists m :: IsLeast(m, s)
    decreases |s|
  {
    var y :| y in s;
    if s == {y} {
      assert IsLeast(y, s);
    } else {
      var rest := s - {y};
      LeastExists(rest);
      var m :| IsLeast(m, rest);
      BelowTotal(m, y);
      if Below(m, y) {
        assert IsLeast(m, s);
      } else {
        forall x | x in s && x != y
          ensures Below(y, x)
        {
          if x != m {
            BelowTransitive(y, m, x);
          }
        }
        assert IsLeast(y, s);
      }
    }
  }

  /** The least name of a non-empty set. */
  function Least(s: set<string>): (m: string)
    requires s != {}
    ensures m in s
    ensures forall x :: x in s && x != m ==> Below(m, x)
  {
    LeastExists(s);
    BelowIsAsymmetric();
    var m :| IsLeast(m, s);
    m
  }

  /** The names of `s`, least first. */
  function SortSet(s: set<string>): (r: seq<string>)
    ensures forall x :: x in r <==> x in s
    ensures |r| == |s|
    decreases |s|
  {
    if s == {} then []
    else
      var m := Least(s);
      var rest := SortSet(s - {m});
      [m] + rest
  }

  /** The sorted listing is ascending. */
  lemma {:induction false} SortSetAscending(s: set<string>)
    ensures Ascending(SortSet(s))
    decreases |s|
  {
    if s != {} {
      var m := Least(s);
      var r := SortSet(s);
      var rest := SortSet(s - {m});
      SortSetAscending(s - {m});
      assert r == [m] + rest;
      forall i, j | 0 <= i < j < |r|
        ensures Below(r[i], r[j])
      {
        if i == 0 {
          assert r[j] == rest[j - 1] && rest[j - 1] in s - {m};
        } else {
          assert r[i] == rest[i - 1] && r[j] == rest[j - 1];
        }
      }
    }
  }

  /** An ascending sequence is determined by its elements: this is why the
      sorted listing is exactly "the elements, in name order". */
  lemma {:induction false} AscendingUnique(a: seq<string>, b: seq<string>)
    requires Ascending(a) && Ascending(b)
    requires forall x :: x in a <==> x in b
    ensures a == b
    decreases |a|
  {
    if |a| > 0 {
      assert a[0] in b;
    }
    if |b| > 0 {
      assert b[0] in a;
    }
    if |a| > 0 {
      if a[0] != b[0] {
        BelowAsymmetric(a[0], b[0]);
        assert false;
      }
      forall x
        ensures x in a[1..] <==> x in b[1..]
      {
        BelowIrreflexive(x);
        if x in a[1..] {
          var i :| 1 <= i < |a| && a[i] == x;
          assert x in a;
          assert x in b;
          var j :| 0 <= j < |b| && b[j] == x;
          assert j != 0;
        }
        if x in b[1..] {
          var j :| 1 <= j < |b| && b[j] == x;
          assert x in b;
          assert x in a;
          var i :| 0 <= i < |a| && a[i] == x;
          assert i != 0;
        }
      }
      AscendingUnique(a[1..], b[1..]);
      assert a == [a[0]] + a[1..];
      assert b == [b[0]] + b[1..];
    }
  }
}
