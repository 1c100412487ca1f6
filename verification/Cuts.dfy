/** Sorted sets of bit offsets: the cut points shared by slice lists, ports and the cut registry. */
module Cuts {
  ghost predicate Increasing(s: seq<nat>) {
    forall i, j :: 0 <= i < j < |s| ==> s[i] < s[j]
  }

  lemma Prepend(x: nat, s: seq<nat>)
    requires Increasing(s) && forall y :: y in s ==> x < y
    ensures Increasing([x] + s)
  {
    forall j | 0 <= j < |s| ensures x < s[j] { assert s[j] in s; }
  }

  lemma Append(s: seq<nat>, x: nat)
    requires Increasing(s) && forall y :: y in s ==> y < x
    ensures Increasing(s + [x])
  {
    forall j | 0 <= j < |s| ensures s[j] < x { assert s[j] in s; }
  }

  /** `x` placed in order; not again if it is there already. */
  function Insert(s: seq<nat>, x: nat): (r: seq<nat>)
    requires Increasing(s)
    ensures Increasing(r) && forall y :: y in r <==> y in s || y == x
  {
    if s == [] then [x]
    else if x < s[0] then [x] + s
    else if x == s[0] then s
    else
      var r := Insert(s[1..], x);
      assert s == [s[0]] + s[1..];
      Prepend(s[0], r);
      [s[0]] + r
  }

  /** std::sort with std::unique: the same offsets, ascending, each once. */
  function SortedUnique(s: seq<nat>): (r: seq<nat>)
    ensures Increasing(r) && forall y :: y in r <==> y in s
  {
    if s == [] then [] else Insert(SortedUnique(s[..|s| - 1]), s[|s| - 1])
  }

  /** The offsets strictly between `lo` and `hi` (from std::upper_bound to std::lower_bound). */
  function Between(s: seq<nat>, lo: nat, hi: nat): (r: seq<nat>)
    requires Increasing(s)
    ensures Increasing(r) && forall y :: y in r <==> y in s && lo < y < hi
  {
    if s == [] then []
    else
      assert s == s[..|s| - 1] + [s[|s| - 1]];
      var r := Between(s[..|s| - 1], lo, hi);
      if lo < s[|s| - 1] < hi then Append(r, s[|s| - 1]); r + [s[|s| - 1]] else r
  }

  /** An increasing sequence has one place for each of its offsets: no other lies between neighbours. */
  lemma NoneBetween(s: seq<nat>, i: nat, y: nat)
    requires Increasing(s) && i + 1 < |s| && y in s
    ensures y <= s[i] || s[i + 1] <= y
  {
    var j :| 0 <= j < |s| && s[j] == y;
    assert j < i ==> s[j] < s[i];
    assert j > i + 1 ==> s[i + 1] < s[j];
  }
}
