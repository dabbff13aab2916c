/** `Array.prototype.sort()` with no comparator, on strings: the result is
    the input rearranged so that no element is `Less` than one before it.
    The engine's own algorithm is not modelled; `SortedUnique` shows that
    any algorithm with that outcome returns the same sequence. */
module Sorting {
  import opened Strings
  import opened Seqs

  /** No element is `Less` than an element before it. */
  predicate Ascending(s: seq<string>)
  {
    forall i, j :: 0 <= i < j < |s| ==> !Less(s[j], s[i])
  }

  predicate StrictlyAscending(s: seq<string>)
  {
    forall i, j :: 0 <= i < j < |s| ==> Less(s[i], s[j])
  }

  predicate StrictlyDescending(s: seq<string>)
  {
    forall i, j :: 0 <= i < j < |s| ==> Less(s[j], s[i])
  }

  /** "Not after" is transitive. */
  lemma NotLessTransitive(a: string, b: string, c: string)
    requires !Less(b, a) && !Less(c, b)
    ensures !Less(c, a)
  {
    if Less(c, a) {
      if a == b {
      } else {
        LessTotal(a, b);
        LessTransitive(c, a, b);
      }
    }
  }

  /** `Less` is never both ways. */
  lemma LessAsymmetric(a: string, b: string)
    requires Less(a, b)
    ensures !Less(b, a)
  {
    if Less(b, a) {
      LessTransitive(a, b, a);
      LessIrreflexive(a);
    }
  }

  /** Putting in front of an ascending sequence an element that no element
      of it is `Less` than keeps the sequence ascending. */
  lemma ConsAscending(y: string, rest: seq<string>)
    requires Ascending(rest)
    requires forall z :: z in rest ==> !Less(z, y)
    ensures Ascending([y] + rest)
  {
    var r := [y] + rest;
    forall i, j | 0 <= i < j < |r| ensures !Less(r[j], r[i]) {
      assert r[j] == rest[j - 1];
      if i > 0 {
        assert r[i] == rest[i - 1];
      }
    }
  }

  /** Places `x` into the ascending sequence `s`, before the first element
      not `Less` than it. */
  function Insert(x: string, s: seq<string>): (r: seq<string>)
    requires Ascending(s)
    ensures multiset(r) == multiset(s) + multiset{x}
    ensures Ascending(r)
  {
    if s == [] || !Less(s[0], x) then
      assert forall z :: z in s ==> !Less(z, x) by {
        forall z | z in s ensures !Less(z, x) {
          var j :| 0 <= j < |s| && s[j] == z;
          if j > 0 {
            NotLessTransitive(x, s[0], s[j]);
          }
        }
      }
      ConsAscending(x, s);
      [x] + s
    else
      var rest := Insert(x, s[1..]);
      assert s == [s[0]] + s[1..];
      LessAsymmetric(s[0], x);
      assert forall z :: z in rest ==> !Less(z, s[0]) by {
        forall z | z in rest ensures !Less(z, s[0]) {
          assert z in multiset(rest);
          if z != x {
            var k :| 0 <= k < |s[1..]| && s[1..][k] == z;
            assert s[k + 1] == z;
          }
        }
      }
      ConsAscending(s[0], rest);
      [s[0]] + rest
  }

  /** Sorting by repeated insertion. */
  function Sort(s: seq<string>): (r: seq<string>)
    ensures multiset(r) == multiset(s)
    ensures Ascending(r)
  {
    if s == [] then []
    else
      assert s == [s[0]] + s[1..];
      Insert(s[0], Sort(s[1..]))
  }

  /** Two ascending arrangements of the same strings are the same sequence,
      so `Sort` gives what any correct sorting algorithm gives. */
  lemma {:induction false} SortedUnique(a: seq<string>, b: seq<string>)
    requires Ascending(a) && Ascending(b)
    requires multiset(a) == multiset(b)
    ensures a == b
  {
    if a != [] {
      assert a == [a[0]] + a[1..];
      assert a[0] in multiset(b);
      assert b != [] && b == [b[0]] + b[1..];
      assert b[0] in multiset(a);
      var i :| 0 <= i < |b| && b[i] == a[0];
      var j :| 0 <= j < |a| && a[j] == b[0];
      if i == 0 || j == 0 {
        LessIrreflexive(a[0]);
      }
      assert !Less(a[0], b[0]);
      assert !Less(b[0], a[0]);
      if a[0] != b[0] {
        LessTotal(a[0], b[0]);
      }
      assert a[0] == b[0];
      SameTails(a, b);
      SortedUnique(a[1..], b[1..]);
    }
  }

  /** Taking the same first element off two arrangements of the same
      strings leaves arrangements of the same strings. */
  lemma SameTails(a: seq<string>, b: seq<string>)
    requires a != [] && b != [] && a[0] == b[0]
    requires multiset(a) == multiset(b)
    ensures multiset(a[1..]) == multiset(b[1..])
  {
    assert a == [a[0]] + a[1..] && b == [b[0]] + b[1..];
    assert multiset(a[1..]) == multiset(a) - multiset{a[0]};
    assert multiset(b[1..]) == multiset(b) - multiset{b[0]};
  }

  /** Sorting strings that are all different gives a strictly ascending
      sequence of the same strings. */
  lemma SortDistinct(s: seq<string>)
    requires Distinct(s)
    ensures Distinct(Sort(s))
    ensures StrictlyAscending(Sort(s))
  {
    var r := Sort(s);
    DistinctIff(s);
    DistinctIff(r);
    forall i, j | 0 <= i < j < |r| ensures Less(r[i], r[j]) {
      LessTotal(r[i], r[j]);
    }
  }

  /** Reversing a strictly ascending sequence gives a strictly descending one. */
  lemma ReverseDescending(s: seq<string>)
    requires StrictlyAscending(s)
    ensures StrictlyDescending(Reverse(s))
  {
    var r := Reverse(s);
    forall i, j | 0 <= i < j < |r| ensures Less(r[j], r[i]) {
      assert r[j] == s[|s| - 1 - j] && r[i] == s[|s| - 1 - i];
    }
  }
}
