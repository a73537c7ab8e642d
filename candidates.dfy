/** Candidate lists: the per-cell lists of digits that `possible` holds.
    A list starts as [1..9] and is only ever filtered, so it stays a
    strictly ascending list of digits. */
module Candidates {

  /** Every element is a digit 1..9 and the list is strictly ascending
      (hence free of duplicates). */
  predicate IsCandidateList(s: seq<int>) {
    && (forall k :: 0 <= k < |s| ==> 1 <= s[k] <= 9)
    && (forall a, b :: 0 <= a < b < |s| ==> s[a] < s[b])
  }

  /** The list every cell starts with (Sudoku.js:82). */
  const AllDigits: seq<int> := [1, 2, 3, 4, 5, 6, 7, 8, 9]

  /** `list.filter(x => x != v)`: drops every occurrence of `v`, keeps the
      rest in their original order. */
  function Without(s: seq<int>, v: int): (r: seq<int>)
    ensures |r| <= |s|
    ensures forall x :: x in r <==> x in s && x != v
    ensures v !in s ==> r == s
  {
    if s == [] then []
    else
      var rest := Without(s[1..], v);
      assert forall x :: x in s <==> x == s[0] || x in s[1..];
      if s[0] == v then rest else [s[0]] + rest
  }

  /** Filtering keeps a candidate list a candidate list: what is left is
      still a strictly ascending list of digits. */
  lemma {:induction false} WithoutKeepsCandidates(s: seq<int>, v: int)
    requires IsCandidateList(s)
    ensures IsCandidateList(Without(s, v))
  {
    if s != [] {
      WithoutKeepsCandidates(s[1..], v);
      if s[0] != v {
        var rest := Without(s[1..], v);
        forall k | 0 <= k < |rest| ensures s[0] < rest[k] {
          assert rest[k] in s[1..];
          var m :| 0 <= m < |s[1..]| && s[1..][m] == rest[k];
          assert s[0] < s[m + 1];
        }
        ConsCandidates(s[0], rest);
      }
    }
  }

  /** A digit below every element of a candidate list can head it. */
  lemma ConsCandidates(h: int, rest: seq<int>)
    requires IsCandidateList(rest) && 1 <= h <= 9
    requires forall k :: 0 <= k < |rest| ==> h < rest[k]
    ensures IsCandidateList([h] + rest)
  {
    var t := [h] + rest;
    forall a, b | 0 <= a < b < |t| ensures t[a] < t[b] {
      assert t[b] == rest[b - 1];
      if a > 0 {
        assert t[a] == rest[a - 1];
      }
    }
  }

  /** Filtering twice by the same value is filtering once: the row, column
      and box passes of updatePossible may all touch the same cell. */
  lemma {:induction false} WithoutIdempotent(s: seq<int>, v: int)
    ensures Without(Without(s, v), v) == Without(s, v)
  {
    if s != [] {
      WithoutIdempotent(s[1..], v);
    }
  }

  /** A candidate list is determined by its elements: two candidate lists
      holding the same digits are the same list. */
  lemma {:induction false} AscendingUnique(a: seq<int>, b: seq<int>)
    requires IsCandidateList(a) && IsCandidateList(b)
    requires forall x :: x in a <==> x in b
    ensures a == b
  {
    if a != [] { assert a[0] in b; }
    if b != [] { assert b[0] in a; }
    if a != [] {
      // The head of a strictly ascending list is its least element.
      assert a[0] == b[0] by {
        var i :| 0 <= i < |a| && a[i] == b[0];
        var j :| 0 <= j < |b| && b[j] == a[0];
        assert a[0] <= a[i];
        assert b[0] <= b[j];
      }
      forall x ensures x in a[1..] <==> x in b[1..] {
        if x in a[1..] {
          var k :| 1 <= k < |a| && a[k] == x;
          assert x in b && x != b[0];
        }
        if x in b[1..] {
          var k :| 1 <= k < |b| && b[k] == x;
          assert x in a && x != a[0];
        }
      }
      AscendingUnique(a[1..], b[1..]);
      assert a == [a[0]] + a[1..];
      assert b == [b[0]] + b[1..];
    }
  }
}
