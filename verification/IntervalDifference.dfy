/**
  The difference of two interval maps (source/IntervalMapUtils.hpp). A map is the
  ascending list of its intervals.
  */
module IntervalDifference {
  datatype Piece<V> = Piece(lo: int, hi: int, value: V) {
    predicate Has(b: int) {
      lo <= b <= hi
    }
  }

  ghost predicate Ascending<V>(s: seq<Piece<V>>) {
    && (forall k :: 0 <= k < |s| ==> s[k].lo <= s[k].hi)
    && (forall j, k :: 0 <= j < k < |s| ==> s[j].hi < s[k].lo)
  }

  ghost predicate Holds<V>(s: seq<Piece<V>>, b: int) {
    exists k :: 0 <= k < |s| && s[k].Has(b)
  }

  /** Bit `b` has value `v`. */
  ghost predicate Maps<V>(s: seq<Piece<V>>, b: int, v: V) {
    exists k :: 0 <= k < |s| && s[k].Has(b) && s[k].value == v
  }

  ghost predicate EndsAt<V>(s: seq<Piece<V>>, b: int) {
    exists k :: 0 <= k < |s| && s[k].hi == b
  }

  /**
    The last bit of an interval that reaches it from below is kept although it is
    taken away: the walk stops once it stands there, before it sees what starts there.
    */
  ghost predicate KeepsLastBit<V, W>(p: Piece<V>, second: seq<Piece<W>>) {
    p.lo < p.hi && EndsAt(second, p.hi - 1)
  }

  ghost predicate Remains<V, W>(p: Piece<V>, second: seq<Piece<W>>, b: int) {
    p.Has(b) && (!Holds(second, b) || (b == p.hi && KeepsLastBit(p, second)))
  }

  /** Pieces for the bits of `p` below `current` that remain. */
  ghost predicate Subtracted<V, W>(kept: seq<Piece<V>>, p: Piece<V>, second: seq<Piece<W>>, current: int) {
    && Ascending(kept)
    && (forall k :: 0 <= k < |kept| ==> kept[k].value == p.value && p.lo <= kept[k].lo && kept[k].hi < current && kept[k].hi <= p.hi)
    && (forall b {:trigger Holds(kept, b)} :: b < current ==> (Holds(kept, b) <==> Remains(p, second, b)))
  }

  /** No piece touches the next one. */
  ghost predicate Apart<V>(s: seq<Piece<V>>) {
    forall j, k :: 0 <= j < k < |s| ==> s[j].hi + 1 < s[k].lo
  }

  /** The pieces stand apart, and the last one does not reach up to `current`. */
  ghost predicate ApartBelow<V>(s: seq<Piece<V>>, current: int) {
    Apart(s) && forall k :: 0 <= k < |s| ==> s[k].hi + 1 < current
  }

  lemma AppendHolds<V>(s: seq<Piece<V>>, p: Piece<V>, b: int)
    ensures Holds(s + [p], b) <==> Holds(s, b) || p.Has(b)
  {
    if Holds(s, b) {
      var k :| 0 <= k < |s| && s[k].Has(b);
      assert (s + [p])[k].Has(b);
    }
    if p.Has(b) {
      assert (s + [p])[|s|].Has(b);
    }
  }

  /** Before interval `j`: those seen end below `current` or start above `p`, and `current` is where one of them led. */
  ghost predicate Walked<V, W>(p: Piece<V>, second: seq<Piece<W>>, j: int, current: int) {
    && 0 <= j <= |second| && p.lo <= current
    && (current == p.lo || exists i :: 0 <= i < j && second[i].hi + 1 == current)
    && (forall i :: 0 <= i < j ==> second[i].hi < current || second[i].lo > p.hi)
  }

  /** The bits from `current` to the end of `p` all remain. */
  ghost predicate RestRemains<V, W>(p: Piece<V>, second: seq<Piece<W>>, current: int) {
    forall b :: current <= b <= p.hi ==> Remains(p, second, b)
  }

  /** Appends what is left of one interval, in pieces as long as they can be. */
  method SubtractSingle<V, W>(result: seq<Piece<V>>, p: Piece<V>, second: seq<Piece<W>>) returns (r: seq<Piece<V>>)
    requires p.lo <= p.hi && Ascending(second)
    ensures result <= r && Subtracted(r[|result|..], p, second, p.hi + 1) && Apart(r[|result|..])
  {
    var current;
    ghost var kept;
    r, kept, current := KeepGaps(result, p, second);
    if current <= p.hi {
      LastPiece(kept, p, second, current);
      r := r + [Piece(current, p.hi, p.value)];
      kept := kept + [Piece(current, p.hi, p.value)];
    } else {
      PastTheEnd(kept, p, second, current);
    }
    assert r == result + kept && r[|result|..] == kept;
  }

  lemma PastTheEnd<V, W>(kept: seq<Piece<V>>, p: Piece<V>, second: seq<Piece<W>>, current: int)
    requires Subtracted(kept, p, second, current) && p.hi < current
    ensures Subtracted(kept, p, second, p.hi + 1)
  {
  }

  /** At interval `j`, still short of the end of `p`. */
  ghost predicate Under<V, W>(kept: seq<Piece<V>>, p: Piece<V>, second: seq<Piece<W>>, j: int, current: int) {
    && Walked(p, second, j, current)
    && (current < p.hi || p.lo == p.hi == current)
    && Subtracted(kept, p, second, current)
  }

  /** Appends the gaps between the other map's intervals, until `current` has reached the end of `p` or no interval is left. */
  method KeepGaps<V, W>(result: seq<Piece<V>>, p: Piece<V>, second: seq<Piece<W>>)
    returns (r: seq<Piece<V>>, ghost kept: seq<Piece<V>>, current: int)
    requires p.lo <= p.hi && Ascending(second)
    ensures r == result + kept && p.lo <= current && Subtracted(kept, p, second, current) && RestRemains(p, second, current)
    ensures ApartBelow(kept, current)
  {
    current, r, kept := p.lo, result, [];
    var j := 0;
    while j < |second|
      invariant r == result + kept && Under(kept, p, second, j, current) && ApartBelow(kept, current)
    {
      var bounds := second[j];
      if bounds.hi < current || bounds.lo > p.hi {
        j := j + 1;
        continue;
      }
      StepSubtracts(kept, p, second, j, current);
      GapStandsApart(kept, p, current, bounds, if current >= bounds.hi + 1 then current else bounds.hi + 1);
      if bounds.lo > current {
        r := r + [Piece(current, if p.hi <= bounds.lo - 1 then p.hi else bounds.lo - 1, p.value)];
      }
      kept := WithGap(kept, p, current, bounds);
      current := if current >= bounds.hi + 1 then current else bounds.hi + 1;
      if current >= p.hi {
        return;
      }
      j := j + 1;
    }
  }

  /** What is kept once `bounds`, which overlaps the rest of `p`, is taken away. */
  function WithGap<V, W>(kept: seq<Piece<V>>, p: Piece<V>, current: int, bounds: Piece<W>): seq<Piece<V>> {
    if bounds.lo > current then kept + [Piece(current, bounds.lo - 1, p.value)] else kept
  }

  lemma GapStandsApart<V, W>(kept: seq<Piece<V>>, p: Piece<V>, current: int, bounds: Piece<W>, next: int)
    requires ApartBelow(kept, current) && current <= next && bounds.lo <= bounds.hi < next
    ensures ApartBelow(WithGap(kept, p, current, bounds), next)
  {
  }

  /** Bits below `current` are not in the intervals to come. */
  lemma SeenBelow<V, W>(p: Piece<V>, second: seq<Piece<W>>, j: int, current: int, b: int)
    requires Ascending(second) && Walked(p, second, j, current) && j < |second| && second[j].hi >= current && current <= b < second[j].lo && b <= p.hi
    ensures !Holds(second, b)
  {
    forall i | 0 <= i < |second|
      ensures !second[i].Has(b)
    {
      if i > j {
        assert second[j].hi < second[i].lo;
      }
    }
  }

  /** One overlapping interval: the gap before it remains, the interval itself does not. */
  lemma StepSubtracts<V, W>(kept: seq<Piece<V>>, p: Piece<V>, second: seq<Piece<W>>, j: int, current: int)
    requires Ascending(second) && Under(kept, p, second, j, current)
    requires p.lo <= p.hi && j < |second| && current <= second[j].hi && second[j].lo <= p.hi
    ensures Subtracted(WithGap(kept, p, current, second[j]), p, second, second[j].hi + 1)
    ensures second[j].hi + 1 < p.hi ==> Under(WithGap(kept, p, current, second[j]), p, second, j + 1, second[j].hi + 1)
    ensures second[j].hi + 1 >= p.hi ==> RestRemains(p, second, second[j].hi + 1)
  {
    forall b | b < second[j].hi + 1
      ensures Holds(WithGap(kept, p, current, second[j]), b) <==> Remains(p, second, b)
    {
      BitSubtracts(kept, p, second, j, current, b);
    }
    if second[j].hi + 1 == p.hi {
      assert EndsAt(second, p.hi - 1);
    }
  }

  lemma BitSubtracts<V, W>(kept: seq<Piece<V>>, p: Piece<V>, second: seq<Piece<W>>, j: int, current: int, b: int)
    requires Ascending(second) && Under(kept, p, second, j, current)
    requires p.lo <= p.hi && j < |second| && current <= second[j].hi && second[j].lo <= p.hi && b <= second[j].hi
    ensures Holds(WithGap(kept, p, current, second[j]), b) <==> Remains(p, second, b)
  {
    AppendHolds(kept, Piece(current, second[j].lo - 1, p.value), b);
    if current <= b < second[j].lo {
      SeenBelow(p, second, j, current, b);
    } else if current <= b {
      assert second[j].Has(b) && !Holds(kept, b);
      if b == p.hi {
        NoEndJustBefore(p, second, j, current);
      }
    }
  }

  /** While the walk is below the end of `p`, no interval ends just before that end. */
  lemma NoEndJustBefore<V, W>(p: Piece<V>, second: seq<Piece<W>>, j: int, current: int)
    requires Ascending(second) && Walked(p, second, j, current) && (current < p.hi || p.lo == p.hi == current)
    requires j < |second| && current <= second[j].hi && second[j].lo <= p.hi <= second[j].hi
    ensures !KeepsLastBit(p, second)
  {
    forall i | 0 <= i < |second|
      ensures p.lo < p.hi ==> second[i].hi != p.hi - 1
    {
      if i >= j {
        assert second[j].hi <= second[i].hi;
      }
    }
  }

  lemma LastPiece<V, W>(kept: seq<Piece<V>>, p: Piece<V>, second: seq<Piece<W>>, current: int)
    requires p.lo <= current <= p.hi && Subtracted(kept, p, second, current) && RestRemains(p, second, current)
    ensures Subtracted(kept + [Piece(current, p.hi, p.value)], p, second, p.hi + 1)
  {
    forall b | b < p.hi + 1
      ensures Holds(kept + [Piece(current, p.hi, p.value)], b) <==> Remains(p, second, b)
    {
      AppendHolds(kept, Piece(current, p.hi, p.value), b);
    }
  }

  /** Bit `b` of the first `n` intervals, with value `v`, remains. */
  ghost predicate Left<V, W>(first: seq<Piece<V>>, n: nat, second: seq<Piece<W>>, b: int, v: V) {
    exists f :: 0 <= f < n && f < |first| && first[f].value == v && Remains(first[f], second, b)
  }

  ghost predicate IsDifference<V(!new), W>(result: seq<Piece<V>>, first: seq<Piece<V>>, n: nat, second: seq<Piece<W>>) {
    && Ascending(result)
    && (n < |first| ==> forall k :: 0 <= k < |result| ==> result[k].hi < first[n].lo)
    && (forall b, v :: Maps(result, b, v) <==> Left(first, n, second, b, v))
  }

  /** Where the two pieces touch, one of the first `n` intervals of the first map ends. */
  ghost predicate TouchAtEnd<V>(a: Piece<V>, b: Piece<V>, first: seq<Piece<V>>, n: nat) {
    a.hi + 1 < b.lo || exists f :: 0 <= f < n && f < |first| && first[f].hi == a.hi
  }

  ghost predicate TouchAtEnds<V>(result: seq<Piece<V>>, first: seq<Piece<V>>, n: nat) {
    forall j, k :: 0 <= j < k < |result| ==> TouchAtEnd(result[j], result[k], first, n)
  }

  /**
    Every interval of the first map without the bits of the second, but for a last bit kept
    too much; no interval is cut anywhere else.
    */
  method Difference<V(!new), W>(first: seq<Piece<V>>, second: seq<Piece<W>>) returns (result: seq<Piece<V>>)
    requires Ascending(first) && Ascending(second)
    ensures IsDifference(result, first, |first|, second) && TouchAtEnds(result, first, |first|)
  {
    if second == [] {
      NothingTakenAway(first, second);
      return first;
    }
    result := [];
    for n := 0 to |first|
      invariant IsDifference(result, first, n, second) && TouchAtEnds(result, first, n)
    {
      ghost var before := result;
      result := SubtractSingle(result, first[n], second);
      assert before + result[|before|..] == result;
      DifferenceGrows(before, result[|before|..], first, n, second);
      TouchStays(before, result[|before|..], first, n, second);
    }
  }

  /** What is left of the next interval touches what is there only where an interval ends. */
  lemma TouchStays<V(!new), W>(before: seq<Piece<V>>, kept: seq<Piece<V>>, first: seq<Piece<V>>, n: nat, second: seq<Piece<W>>)
    requires Ascending(first) && 0 <= n < |first| && IsDifference(before, first, n, second) && TouchAtEnds(before, first, n)
    requires Subtracted(kept, first[n], second, first[n].hi + 1) && Apart(kept)
    ensures TouchAtEnds(before + kept, first, n + 1)
  {
    var result := before + kept;
    forall j, k | 0 <= j < k < |result|
      ensures TouchAtEnd(result[j], result[k], first, n + 1)
    {
      if k < |before| {
        assert TouchAtEnd(before[j], before[k], first, n);
      } else if j < |before| {
        LastIsInsideOne(before, first, n, second);
        assert result[k] == kept[k - |before|] && result[j].hi <= before[|before| - 1].hi;
      } else {
        assert result[j] == kept[j - |before|] && result[k] == kept[k - |before|];
      }
    }
  }

  lemma LastIsInsideOne<V(!new), W>(before: seq<Piece<V>>, first: seq<Piece<V>>, n: nat, second: seq<Piece<W>>)
    requires Ascending(first) && 0 <= n < |first| && IsDifference(before, first, n, second) && before != []
    ensures n > 0 && before[|before| - 1].hi <= first[n - 1].hi < first[n].lo
  {
    var last := before[|before| - 1];
    assert Maps(before, last.hi, last.value);
    var f :| 0 <= f < n && first[f].value == last.value && Remains(first[f], second, last.hi);
    assert f < n - 1 ==> first[f].hi < first[n - 1].lo;
  }

  lemma NothingTakenAway<V(!new), W>(first: seq<Piece<V>>, second: seq<Piece<W>>)
    requires Ascending(first) && second == []
    ensures IsDifference(first, first, |first|, second)
  {
    forall b, v
      ensures Maps(first, b, v) <==> Left(first, |first|, second, b, v)
    {
      if Maps(first, b, v) {
        var k :| 0 <= k < |first| && first[k].Has(b) && first[k].value == v;
        assert Remains(first[k], second, b);
      }
    }
  }

  lemma DifferenceGrows<V(!new), W>(before: seq<Piece<V>>, kept: seq<Piece<V>>, first: seq<Piece<V>>, n: nat, second: seq<Piece<W>>)
    requires Ascending(first) && 0 <= n < |first| && IsDifference(before, first, n, second)
    requires Subtracted(kept, first[n], second, first[n].hi + 1)
    ensures IsDifference(before + kept, first, n + 1, second)
  {
    forall b, v
      ensures Maps(before + kept, b, v) <==> Left(first, n + 1, second, b, v)
    {
      JoinMaps(before, kept, b, v);
      KeptMaps(kept, first[n], second, b, v);
      if Left(first, n + 1, second, b, v) {
        var f :| 0 <= f < n + 1 && first[f].value == v && Remains(first[f], second, b);
      }
    }
  }

  lemma JoinMaps<V>(a: seq<Piece<V>>, c: seq<Piece<V>>, b: int, v: V)
    ensures Maps(a + c, b, v) <==> Maps(a, b, v) || Maps(c, b, v)
  {
    if Maps(a, b, v) {
      var k :| 0 <= k < |a| && a[k].Has(b) && a[k].value == v;
      assert (a + c)[k] == a[k];
    }
    if Maps(c, b, v) {
      var k :| 0 <= k < |c| && c[k].Has(b) && c[k].value == v;
      assert (a + c)[|a| + k] == c[k];
    }
  }

  lemma KeptMaps<V, W>(kept: seq<Piece<V>>, p: Piece<V>, second: seq<Piece<W>>, b: int, v: V)
    requires Subtracted(kept, p, second, p.hi + 1)
    ensures Maps(kept, b, v) <==> p.value == v && Remains(p, second, b)
  {
    if p.value == v && Remains(p, second, b) {
      assert Holds(kept, b);
    }
    if Maps(kept, b, v) {
      assert Holds(kept, b);
    }
  }

  /** A multi-bit interval whose last bit starts another interval right after one ends: that bit is wrongly kept. */
  ghost predicate Spoils<V, W>(p: Piece<V>, second: seq<Piece<W>>) {
    KeepsLastBit(p, second) && Holds(second, p.hi)
  }

  /** The difference is the difference of the two sets of bits exactly when no interval keeps its last bit wrongly. */
  lemma ExactUnlessSpoilt<V(!new), W>(result: seq<Piece<V>>, first: seq<Piece<V>>, second: seq<Piece<W>>)
    requires Ascending(first) && IsDifference(result, first, |first|, second)
    ensures (forall b, v :: Maps(result, b, v) <==> Maps(first, b, v) && !Holds(second, b))
            <==> forall f :: 0 <= f < |first| ==> !Spoils(first[f], second)
  {
    if f :| 0 <= f < |first| && Spoils(first[f], second) {
      assert Maps(first, first[f].hi, first[f].value) && Left(first, |first|, second, first[f].hi, first[f].value);
      assert Maps(result, first[f].hi, first[f].value);
    } else {
      forall b, v
        ensures Maps(result, b, v) <==> Maps(first, b, v) && !Holds(second, b)
      {
        if Left(first, |first|, second, b, v) {
          var f :| 0 <= f < |first| && first[f].value == v && Remains(first[f], second, b);
        }
        if Maps(first, b, v) && !Holds(second, b) {
          var f :| 0 <= f < |first| && first[f].Has(b) && first[f].value == v;
          assert Remains(first[f], second, b);
        }
      }
    }
  }

  /** Bits 0 to 3 without bits 0 to 2 and bit 3: bit 3 is kept. */
  lemma LastBitIsKept<V, W>(first: seq<Piece<V>>, second: seq<Piece<W>>, v: V, w: W)
    requires first == [Piece(0, 3, v)] && second == [Piece(0, 2, w), Piece(3, 3, w)]
    ensures Ascending(first) && Ascending(second) && Left(first, 1, second, 3, v) && Holds(second, 3)
  {
    assert second[0].hi == 2 && second[1].Has(3);
    assert EndsAt(second, 2);
    assert Remains(first[0], second, 3);
  }
}
