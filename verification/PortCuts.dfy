/**
  Cut points propagated across ports (source/PortConnectionHandler.cpp,
  source/CutRegistry.hpp): the cuts an actual expression implies, the registry that
  keeps them per symbol, and the port nodes split at them.
  */
module PortCuts {
  import opened BitRanges
  import opened BitSlices
  import opened Cuts
  import opened UnsplitSlices
  import opened Wrappers

  /** The cuts an expression implies, in the order they are found; operands least significant first. */
  function ActualCuts(e: Expr, base: nat, registry: Registry): seq<nat>
    requires ValidRegistry(registry)
    decreases e, 1
  {
    match e
    case Concat(ops) => OperandCuts(ops, base, base + WidthOfAll(ops), registry)
    case Replicate(count, unit, _) =>
      if count.None? || count.value <= 0 then [] else CopyCuts(count.value, unit, base, base + Width(e), registry)
    case Convert(inner, w, _, _) =>
      if w == Width(inner) then ActualCuts(inner, base, registry)
      else if w > Width(inner) then ActualCuts(inner, base, registry) + [base + Width(inner)]
      else []
    case ValuePath(root, lo, hi, _) => PathCuts(root.symbol, lo, hi, base, registry)
    case _ => []
  }

  /** The cuts of a symbol inside the bits a path may read, as offsets from `base`. */
  function PathCuts(s: Symbol, lo: nat, hi: nat, base: nat, registry: Registry): seq<nat>
    requires ValidRegistry(registry)
  {
    if s in registry then Moved(Between(registry[s], lo, hi + 1), base, lo) else []
  }

  function OperandCuts(ops: seq<Expr>, offset: nat, end: nat, registry: Registry): seq<nat>
    requires ValidRegistry(registry)
    decreases ops, 0
  {
    if ops == [] then []
    else
      var low := ops[|ops| - 1];
      var next := offset + Width(low);
      ActualCuts(low, offset, registry) + (if next != end then [next] else [])
      + OperandCuts(ops[..|ops| - 1], next, end, registry)
  }

  function CopyCuts(count: nat, unit: Expr, offset: nat, end: nat, registry: Registry): seq<nat>
    requires ValidRegistry(registry)
    decreases unit, 2, count
  {
    if count == 0 then []
    else
      var next := offset + Width(unit);
      ActualCuts(unit, offset, registry) + (if next != end then [next] else [])
      + CopyCuts(count - 1, unit, next, end, registry)
  }

  /** Offsets above `lo` of a symbol, as offsets from `base`. */
  function Moved(inside: seq<nat>, base: nat, lo: nat): (r: seq<nat>)
    requires forall y :: y in inside ==> lo < y
    ensures |r| == |inside| && forall y :: y in inside ==> base + (y - lo) in r
  {
    if inside == [] then []
    else
      assert inside[0] in inside && forall y :: y in inside[1..] ==> y in inside;
      assert forall y :: y in inside ==> y == inside[0] || y in inside[1..];
      [base + (inside[0] - lo)] + Moved(inside[1..], base, lo)
  }

  /**
    No conditional that is taken apart arm by arm has an arm in several slices; the cuts
    inside such a conditional are not collected. A conditional in a folded or narrowed
    operand, or in one repeated no times, is not taken apart.
    */
  predicate NoHiddenEnd(e: Expr, hints: Registry)
    decreases e
  {
    match e
    case Concat(ops) => forall i :: 0 <= i < |ops| ==> NoHiddenEnd(ops[i], hints)
    case Replicate(count, unit, _) => count.None? || count.value <= 0 || NoHiddenEnd(unit, hints)
    case Convert(inner, w, _, folded) => Folds(folded, w) || w < Width(inner) || NoHiddenEnd(inner, hints)
    case Select(_, plain, left, right, w) =>
      !plain || Width(left) != Width(right) || Width(left) != w || (Unsplit(left, hints) && Unsplit(right, hints))
    case _ => true
  }

  /** Every slice but the last ends on a cut. */
  ghost predicate EndsOnCuts(slices: seq<Slice>, end: nat, cuts: seq<nat>) {
    forall k {:trigger slices[k]} :: 0 <= k < |slices| ==> slices[k].hi == end || slices[k].hi in cuts
  }

  lemma JoinEnds(all: seq<Slice>, a: seq<Slice>, b: seq<Slice>, mid: nat, end: nat,
                 cuts: seq<nat>, aCuts: seq<nat>, midCut: seq<nat>, bCuts: seq<nat>)
    requires all == a + b && cuts == aCuts + midCut + bCuts && (mid == end || mid in midCut)
    requires EndsOnCuts(a, mid, aCuts) && EndsOnCuts(b, end, bCuts)
    ensures EndsOnCuts(all, end, cuts)
  {
    forall k | 0 <= k < |all|
      ensures all[k].hi == end || all[k].hi in cuts
    {
      assert all[k] == if k < |a| then a[k] else b[k - |a|];
    }
  }

  lemma {:induction false} StretchEnds(root: Root, lspLo: nat, lspHi: nat, base: nat, prev: nat, inside: seq<nat>)
    requires lspLo <= prev < lspHi && Increasing(inside) && forall y :: y in inside ==> prev < y < lspHi
    ensures EndsOnCuts(Stretches(root, lspLo, lspHi, base, prev, inside), base + (lspHi - lspLo), Moved(inside, base, lspLo))
    decreases |inside|
  {
    if inside != [] {
      assert inside[0] in inside && forall j :: 0 < j < |inside| ==> inside[j] in inside;
      StretchEnds(root, lspLo, lspHi, base, inside[0], inside[1..]);
      OneMoreStretch(root, lspLo, lspHi, base, prev, inside, Stretches(root, lspLo, lspHi, base, inside[0], inside[1..]),
                     Moved(inside[1..], base, lspLo));
    }
  }

  lemma OneMoreStretch(root: Root, lspLo: nat, lspHi: nat, base: nat, prev: nat, inside: seq<nat>, rest: seq<Slice>, restCuts: seq<nat>)
    requires lspLo <= prev < lspHi && inside != [] && Increasing(inside) && forall y :: y in inside ==> prev < y < lspHi
    requires inside[0] in inside && forall j :: 0 < j < |inside| ==> inside[j] in inside
    requires rest == Stretches(root, lspLo, lspHi, base, inside[0], inside[1..]) && restCuts == Moved(inside[1..], base, lspLo)
    requires EndsOnCuts(rest, base + (lspHi - lspLo), restCuts)
    ensures EndsOnCuts(Stretches(root, lspLo, lspHi, base, prev, inside), base + (lspHi - lspLo), Moved(inside, base, lspLo))
  {
    var mid := base + (inside[0] - lspLo);
    var low := Slice(base + (prev - lspLo), mid, [Lsp(root, lspLo, base, base + (lspHi - lspLo))]);
    PrependEnds(low, rest, base + (lspHi - lspLo), restCuts);
  }

  lemma PrependEnds(low: Slice, rest: seq<Slice>, end: nat, cuts: seq<nat>)
    requires EndsOnCuts(rest, end, cuts)
    ensures EndsOnCuts([low] + rest, end, [low.hi] + cuts)
  {
    assert [] + [low.hi] + cuts == [low.hi] + cuts;
    JoinEnds([low] + rest, [low], rest, low.hi, end, [low.hi] + cuts, [], [low.hi], cuts);
  }

  /** Where slices of an expression end, the cuts collected from it are, whether or not the slices were split at hints. */
  lemma {:induction false} BoundariesAreCuts(e: Expr, base: nat, hints: Registry, registry: Registry)
    requires ValidRegistry(registry) && ValidRegistry(hints) && hints.Items <= registry.Items && Sized(e, hints) && NoHiddenEnd(e, hints)
    ensures EndsOnCuts(Slices(e, base, hints), base + Width(e), ActualCuts(e, base, registry))
    decreases e, 1
  {
    match e
    case ValuePath(root, lo, hi, w) => PathBoundaries(root, root.symbol, lo, hi, w, base, hints, registry);
    case Concat(ops) => OperandBoundaries(ops, base, base + WidthOfAll(ops), hints, registry);
    case Replicate(count, unit, _) =>
      if count.Some? && count.value > 0 {
        CopyBoundaries(count.value, unit, base, base + Width(e), hints, registry);
      }
    case Convert(inner, w, _, folded) =>
      if !Folds(folded, w) && w >= Width(inner) {
        BoundariesAreCuts(inner, base, hints, registry);
        ConversionBoundaries(e, base, hints, registry);
      }
    case Select(_, _, _, _, _) => UnsplitEnds(e, base, hints, ActualCuts(e, base, registry));
    case _ =>
  }

  lemma PathEnds(slices: seq<Slice>, cuts: seq<nat>, root: Root, lo: nat, hi: nat, w: nat, base: nat, inside: seq<nat>)
    requires lo <= hi && Increasing(inside) && forall y :: y in inside ==> lo < y < hi + 1
    requires inside != [] && w > 0 ==> w == hi - lo + 1 && cuts == Moved(inside, base, lo)
    requires slices == if w == 0 then [] else if inside == [] then [Slice(base, base + w, [Lsp(root, lo, base, base + w)])]
                       else Stretches(root, lo, hi + 1, base, lo, inside)
    ensures EndsOnCuts(slices, base + w, cuts)
  {
    if w > 0 && inside != [] {
      StretchEnds(root, lo, hi + 1, base, lo, inside);
    }
  }

  lemma PathBoundaries(root: Root, s: Symbol, lo: nat, hi: nat, w: nat, base: nat, hints: Registry, registry: Registry)
    requires ValidRegistry(registry) && ValidRegistry(hints) && hints.Items <= registry.Items && s == root.symbol
    requires lo <= hi && (w == hi - lo + 1 || w == 0 || Uncut(s, lo, hi, hints))
    ensures EndsOnCuts(LspSlices(root, lo, hi, w, base, hints), base + w, PathCuts(s, lo, hi, base, registry))
  {
    var inside := if s in hints then Between(hints[s], lo, hi + 1) else [];
    if inside != [] {
      assert (s, hints[s]) in hints.Items;
      NoneInside(hints[s], lo, hi + 1);
    }
    PathEnds(LspSlices(root, lo, hi, w, base, hints), PathCuts(s, lo, hi, base, registry), root, lo, hi, w, base, inside);
  }

  /** An expression in one piece ends where its width ends; no cut is needed. */
  lemma UnsplitEnds(e: Expr, base: nat, hints: Registry, cuts: seq<nat>)
    requires ValidRegistry(hints) && Sized(e, hints) && Unsplit(e, hints)
    ensures EndsOnCuts(Slices(e, base, hints), base + Width(e), cuts)
  {
    UnsplitIsOneSlice(e, base, hints);
    ExpressionTiles(e, base, hints);
    TilesReach(Slices(e, base, hints), base, base + Width(e));
  }

  lemma ConversionBoundaries(e: Expr, base: nat, hints: Registry, registry: Registry)
    requires ValidRegistry(registry) && ValidRegistry(hints) && Sized(e, hints) && e.Convert?
    requires !Folds(e.folded, e.width) && e.width >= Width(e.inner)
    requires EndsOnCuts(Slices(e.inner, base, hints), base + Width(e.inner), ActualCuts(e.inner, base, registry))
    ensures EndsOnCuts(Slices(e, base, hints), base + e.width, ActualCuts(e, base, registry))
  {
    if e.width > Width(e.inner) {
      NextStart(e.inner, base, hints);
      WidenedEnds(Slices(e, base, hints), Slices(e.inner, base, hints), base, Width(e.inner), e.width, e.signExtend,
                  ActualCuts(e, base, registry), ActualCuts(e.inner, base, registry));
    } else {
      assert Slices(e, base, hints) == Slices(e.inner, base, hints);
      assert ActualCuts(e, base, registry) == ActualCuts(e.inner, base, registry);
    }
  }

  lemma WidenedEnds(all: seq<Slice>, low: seq<Slice>, base: nat, w: nat, total: nat, signExtend: bool, cuts: seq<nat>, lowCuts: seq<nat>)
    requires total > w && all == Widened(low, base, total - w, signExtend) && cuts == lowCuts + [base + w]
    requires (if low == [] then base else EndOf(low)) == base + w
    requires EndsOnCuts(low, base + w, lowCuts)
    ensures EndsOnCuts(all, base + total, cuts)
  {
    var mid := base + w;
    var top := ExtensionSlice(mid, total - w, signExtend);
    assert lowCuts + [mid] + [] == lowCuts + [mid];
    JoinEnds(all, low, [top], mid, base + total, cuts, lowCuts, [mid], []);
  }

  lemma {:induction false} OperandBoundaries(ops: seq<Expr>, offset: nat, end: nat, hints: Registry, registry: Registry)
    requires ValidRegistry(registry) && ValidRegistry(hints) && hints.Items <= registry.Items
    requires forall i :: 0 <= i < |ops| ==> Sized(ops[i], hints) && NoHiddenEnd(ops[i], hints)
    requires end == offset + WidthOfAll(ops)
    ensures EndsOnCuts(SlicesOfAll(ops, offset, hints), end, OperandCuts(ops, offset, end, registry))
    decreases ops, 0
  {
    if ops != [] {
      var low, rest := ops[|ops| - 1], ops[..|ops| - 1];
      var next := offset + Width(low);
      BoundariesAreCuts(low, offset, hints, registry);
      OperandBoundaries(rest, next, end, hints, registry);
      LowOperand(ops, low, rest, offset, next, hints);
      JoinEnds(SlicesOfAll(ops, offset, hints), Slices(low, offset, hints), SlicesOfAll(rest, next, hints), next, end,
               OperandCuts(ops, offset, end, registry), ActualCuts(low, offset, registry), if next != end then [next] else [],
               OperandCuts(rest, next, end, registry));
    }
  }

  lemma {:induction false} CopyBoundaries(count: nat, unit: Expr, offset: nat, end: nat, hints: Registry, registry: Registry)
    requires ValidRegistry(registry) && ValidRegistry(hints) && hints.Items <= registry.Items
    requires count > 0 ==> Sized(unit, hints) && NoHiddenEnd(unit, hints)
    requires end == offset + Times(count, Width(unit))
    ensures EndsOnCuts(SlicesOfCopies(count, unit, offset, hints), end, CopyCuts(count, unit, offset, end, registry))
    decreases unit, 2, count
  {
    if count > 0 {
      var rest, next := count - 1, offset + Width(unit);
      BoundariesAreCuts(unit, offset, hints, registry);
      CopyBoundaries(rest, unit, next, end, hints, registry);
      LowCopy(count, rest, unit, offset, next, hints);
      JoinEnds(SlicesOfCopies(count, unit, offset, hints), Slices(unit, offset, hints), SlicesOfCopies(rest, unit, next, hints), next, end,
               CopyCuts(count, unit, offset, end, registry), ActualCuts(unit, offset, registry), if next != end then [next] else [],
               CopyCuts(rest, unit, next, end, registry));
    }
  }

  /** Appends the cuts an expression implies. */
  method CollectActualCuts(e: Expr, registry: Registry, base: nat, cuts: seq<nat>) returns (r: seq<nat>)
    requires ValidRegistry(registry)
    ensures r == cuts + ActualCuts(e, base, registry)
    decreases e, 1
  {
    match e
    case Concat(_) => r := CollectOperandCuts(e, registry, base, cuts);
    case Replicate(_, _, _) => r := CollectCopyCuts(e, registry, base, cuts);
    case Convert(inner, outerWidth, _, _) =>
      r := cuts;
      var innerWidth := Width(inner);
      if outerWidth == innerWidth {
        r := CollectActualCuts(inner, registry, base, cuts);
      } else if outerWidth > innerWidth {
        r := CollectActualCuts(inner, registry, base, cuts);
        r := r + [base + innerWidth];
      }
    case ValuePath(root, lspLo, lspHi, _) =>
      r := cuts;
      if root.symbol in registry {
        r := CollectHints(Between(registry[root.symbol], lspLo, lspHi + 1), base, lspLo, cuts);
      }
    case Select(_, _, _, _, _) => r := cuts;
    case Other(_, _, _) => r := cuts;
  }

  method CollectHints(inside: seq<nat>, base: nat, lspLo: nat, cuts: seq<nat>) returns (r: seq<nat>)
    requires forall y :: y in inside ==> lspLo < y
    ensures r == cuts + Moved(inside, base, lspLo)
  {
    r := cuts;
    var rest: seq<nat> := inside;
    while rest != []
      invariant forall y :: y in rest ==> lspLo < y
      invariant r + Moved(rest, base, lspLo) == cuts + Moved(inside, base, lspLo)
      decreases |rest|
    {
      assert rest[0] in rest && forall y :: y in rest[1..] ==> y in rest;
      r := r + [base + (rest[0] - lspLo)];
      rest := rest[1..];
    }
  }

  method CollectOperandCuts(e: Expr, registry: Registry, base: nat, cuts: seq<nat>) returns (r: seq<nat>)
    requires ValidRegistry(registry) && e.Concat?
    ensures r == cuts + ActualCuts(e, base, registry)
    decreases e, 0
  {
    var ops, end := e.operands, base + Width(e);
    var offset: nat := base;
    r := cuts;
    ghost var whole := cuts + OperandCuts(ops, base, end, registry);
    var i := |ops|;
    assert ops[..i] == ops;
    while i > 0
      invariant 0 <= i <= |ops|
      invariant r + OperandCuts(ops[..i], offset, end, registry) == whole
    {
      i := i - 1;
      LastOperandCuts(r, ops, i, offset, end, registry);
      r := CollectActualCuts(ops[i], registry, offset, r);
      offset := offset + Width(ops[i]);
      if offset != end {
        r := r + [offset];
      }
    }
  }

  /** The cuts of operands 0 to i are those of operand i, the end of it, and those of the others. */
  lemma LastOperandCuts(before: seq<nat>, ops: seq<Expr>, i: nat, offset: nat, end: nat, registry: Registry)
    requires ValidRegistry(registry) && i < |ops|
    ensures var next := offset + Width(ops[i]);
            before + OperandCuts(ops[..i + 1], offset, end, registry)
            == before + ActualCuts(ops[i], offset, registry) + (if next != end then [next] else []) + OperandCuts(ops[..i], next, end, registry)
  {
    assert ops[..i + 1][..i] == ops[..i];
  }

  method CollectCopyCuts(e: Expr, registry: Registry, base: nat, cuts: seq<nat>) returns (r: seq<nat>)
    requires ValidRegistry(registry) && e.Replicate?
    ensures r == cuts + ActualCuts(e, base, registry)
    decreases e, 0
  {
    r := cuts;
    if e.count.None? || e.count.value <= 0 {
      return;
    }
    var count: nat, end := e.count.value, base + Width(e);
    var offset: nat := base;
    var i := 0;
    while i < count
      invariant i <= count
      invariant r + CopyCuts(count - i, e.unit, offset, end, registry) == cuts + CopyCuts(count, e.unit, base, end, registry)
    {
      r := CollectActualCuts(e.unit, registry, offset, r);
      offset := offset + Width(e.unit);
      if offset != end {
        r := r + [offset];
      }
      i := i + 1;
    }
  }

  /** Sorted cut offsets per symbol. */
  class CutRegistry {
    var entries: Registry

    ghost predicate Valid()
      reads this
    {
      ValidRegistry(entries)
    }

    constructor ()
      ensures Valid() && entries == map[]
    {
      entries := map[];
    }

    function CutsFor(s: Symbol): Option<seq<nat>>
      reads this
    {
      if s in entries then Some(entries[s]) else None
    }

    /** The symbol's cuts grow by the new ones that are inside its width; no cuts make no entry. */
    method AddCuts(s: Symbol, width: nat, cuts: seq<nat>)
      requires Valid()
      modifies this
      ensures Valid()
      ensures cuts == [] ==> entries == old(entries)
      ensures cuts != [] ==> s in entries && entries == old(entries)[s := entries[s]]
      ensures cuts != [] ==>
                forall y :: y in entries[s] <==> (s in old(entries) && y in old(entries)[s]) || (y in cuts && 0 < y < width)
    {
      if cuts == [] {
        return;
      }
      var offsets: seq<nat> := if s in entries then entries[s] else [];
      var i := 0;
      while i < |cuts|
        invariant i <= |cuts|
        invariant forall y :: y in offsets <==> (s in entries && y in entries[s]) || (y in cuts[..i] && 0 < y < width)
      {
        assert cuts[..i + 1] == cuts[..i] + [cuts[i]];
        if 0 < cuts[i] < width {
          offsets := offsets + [cuts[i]];
        }
        i := i + 1;
      }
      assert cuts[..i] == cuts;
      entries := entries[s := SortedUnique(offsets)];
    }

    /** A connection of the port's own width adds the inner cuts of its actual to those of the port; others add nothing. */
    method RecordCuts(port: Symbol, portWidth: nat, e: Expr)
      requires Valid()
      modifies this
      ensures Valid() && forall s :: s != port ==> (s in entries <==> s in old(entries))
                                                   && (s in entries ==> entries[s] == old(entries)[s])
      ensures Width(e) != portWidth ==> entries == old(entries)
      ensures Width(e) == portWidth ==>
                forall y :: port in entries && y in entries[port]
                            <==> (port in old(entries) && y in old(entries)[port])
                                 || (0 < y < portWidth && y in ActualCuts(e, 0, old(entries)))
    {
      if portWidth != Width(e) {
        return;
      }
      var cuts := CollectActualCuts(e, entries, 0, []);
      if cuts != [] {
        AddCuts(port, portWidth, cuts);
      }
    }
  }

  /** Consecutive, non-empty ranges that make up bits lo..hi. */
  ghost predicate Pieces(ranges: seq<BitRange>, lo: nat, hi: int) {
    && ranges != []
    && ranges[0].left == lo && ranges[|ranges| - 1].right == hi
    && (forall k :: 0 <= k < |ranges| ==> ranges[k].left <= ranges[k].right)
    && (forall k :: 0 <= k < |ranges| - 1 ==> ranges[k].right + 1 == ranges[k + 1].left)
  }

  /** No cut divides the range. */
  ghost predicate Undivided(r: BitRange, cuts: seq<nat>) {
    forall y :: y in cuts ==> !(r.left < y <= r.right)
  }

  /** Bits lo..end - 1 split into pieces that meet at cuts and that no cut divides. */
  ghost predicate Split(ranges: seq<BitRange>, lo: nat, end: nat, cuts: seq<nat>) {
    && (if ranges == [] then end == lo else Pieces(ranges, lo, end - 1))
    && (forall k :: 0 <= k < |ranges| ==> Undivided(ranges[k], cuts))
    && (forall k :: 0 < k < |ranges| ==> ranges[k].left in cuts)
  }

  lemma SplitGrows(ranges: seq<BitRange>, lo: nat, prev: nat, next: nat, cuts: seq<nat>)
    requires Split(ranges, lo, prev, cuts) && prev < next && (ranges != [] ==> prev in cuts)
    requires Undivided(BitRange(prev, next - 1), cuts)
    ensures Split(ranges + [BitRange(prev, next - 1)], lo, next, cuts)
  {
  }

  /** A driver's range split at every cut strictly inside it, one port node a piece; whole when there are no hints. */
  method SplitAtCuts(lo: nat, hi: nat, hints: Option<seq<nat>>) returns (segments: seq<BitRange>)
    requires lo <= hi && (hints.Some? ==> Increasing(hints.value))
    ensures hints.None? ==> segments == [BitRange(lo, hi)]
    ensures hints.Some? ==> Split(segments, lo, hi + 1, hints.value)
  {
    if hints.None? {
      segments := [BitRange(lo, hi)];
    } else {
      segments := SplitAtHints(lo, hi + 1, hints.value);
    }
  }

  method SplitAtHints(lo: nat, hi: nat, hints: seq<nat>) returns (segments: seq<BitRange>)
    requires lo < hi && Increasing(hints)
    ensures Split(segments, lo, hi, hints)
  {
    var inside := Between(hints, lo, hi);
    var prev := lo;
    segments := [];
    for i := 0 to |inside|
      invariant prev == (if i == 0 then lo else inside[i - 1]) && |segments| == i && Split(segments, lo, prev, hints)
    {
      var next := inside[i];
      NextCut(hints, inside, lo, hi, i, prev);
      SplitGrows(segments, lo, prev, next, hints);
      segments := segments + [BitRange(prev, next - 1)];
      prev := next;
    }
    LastCut(hints, inside, lo, hi, prev);
    SplitGrows(segments, lo, prev, hi, hints);
    segments := segments + [BitRange(prev, hi - 1)];
  }

  /** Between one inner cut and the next there is none. */
  lemma NextCut(cuts: seq<nat>, inside: seq<nat>, lo: nat, hi: nat, i: nat, prev: nat)
    requires Increasing(cuts) && inside == Between(cuts, lo, hi) && i < |inside| && prev == if i == 0 then lo else inside[i - 1]
    ensures lo <= prev < inside[i] < hi && (i > 0 ==> prev in cuts) && Undivided(BitRange(prev, inside[i] - 1), cuts)
  {
    assert inside[i] in inside;
    if i > 0 {
      assert inside[i - 1] in inside;
    }
    forall y | y in cuts
      ensures !(prev < y < inside[i])
    {
      if lo < y < hi {
        var j :| 0 <= j < |inside| && inside[j] == y;
        assert j < i ==> j < i - 1 ==> inside[j] < inside[i - 1];
        assert j > i ==> inside[i] < inside[j];
      }
    }
  }

  lemma LastCut(cuts: seq<nat>, inside: seq<nat>, lo: nat, hi: nat, prev: nat)
    requires Increasing(cuts) && inside == Between(cuts, lo, hi) && prev == if inside == [] then lo else inside[|inside| - 1]
    requires lo < hi
    ensures prev < hi && Undivided(BitRange(prev, hi - 1), cuts) && (inside != [] ==> prev in cuts)
  {
    if inside != [] {
      assert prev in inside;
    }
    forall y | y in cuts
      ensures !(prev < y < hi)
    {
      if lo < y < hi {
        var j :| 0 <= j < |inside| && inside[j] == y;
      }
    }
  }

  /** A range that no end of a slice divides lies inside one slice. */
  lemma UndividedIsInOneSlice(slices: seq<Slice>, w: nat, cuts: seq<nat>, r: BitRange, q: nat)
    requires Tiles(slices, 0, w) && EndsOnCuts(slices, w, cuts)
    requires 0 <= r.left <= q <= r.right < w && Undivided(r, cuts)
    ensures FindSlice(slices, q) == FindSlice(slices, r.left)
  {
    var k := TilesFind(slices, 0, w, r.left);
    TilesUnique(slices, 0, w, k, q);
  }

  /**
    Once the cuts of an actual expression are recorded for a port, every piece of a
    port driver lies inside a single slice of that actual.
    */
  lemma PieceIsInOneSlice(e: Expr, registry: Registry, portCuts: seq<nat>, pieces: seq<BitRange>, lo: nat, hi: nat, k: nat, q: nat)
    requires ValidRegistry(registry) && Sized(e, map[]) && NoHiddenEnd(e, map[])
    requires forall y :: y in ActualCuts(e, 0, registry) && 0 < y < Width(e) ==> y in portCuts
    requires lo <= hi < Width(e) && Split(pieces, lo, hi + 1, portCuts)
    requires k < |pieces| && pieces[k].left <= q <= pieces[k].right
    ensures lo <= pieces[k].left && pieces[k].right <= hi
    ensures FindSlice(Slices(e, 0, map[]), q) == FindSlice(Slices(e, 0, map[]), pieces[k].left)
  {
    PiecesReach(pieces, lo, hi, k);
    var none: Registry := map[];
    BoundariesAreCuts(e, 0, none, registry);
    SlicesAreExact(e, 0, none, 0);
    InnerCutsSuffice(Slices(e, 0, none), Width(e), ActualCuts(e, 0, registry), portCuts);
    UndividedIsInOneSlice(Slices(e, 0, none), Width(e), portCuts, pieces[k], q);
  }

  lemma InnerCutsSuffice(slices: seq<Slice>, w: nat, cuts: seq<nat>, kept: seq<nat>)
    requires Tiles(slices, 0, w) && EndsOnCuts(slices, w, cuts)
    requires forall y :: y in cuts && 0 < y < w ==> y in kept
    ensures EndsOnCuts(slices, w, kept)
  {
    forall k | 0 <= k < |slices|
      ensures slices[k].hi == w || slices[k].hi in kept
    {
      TilesStartsLate(slices, 0, w, k);
    }
  }

  lemma {:induction false} PiecesReach(pieces: seq<BitRange>, lo: nat, hi: int, k: nat)
    requires Pieces(pieces, lo, hi) && k < |pieces|
    ensures lo <= pieces[k].left && pieces[k].right <= hi
    decreases |pieces|
  {
    if |pieces| > 1 {
      if k == 0 {
        PiecesReach(pieces[1..], pieces[1].left, hi, 0);
      } else {
        PiecesReach(pieces[1..], pieces[1].left, hi, k - 1);
      }
    }
  }

  /** The pieces hold every bit of the driver once. */
  lemma {:induction false} PiecesPartition(pieces: seq<BitRange>, lo: nat, hi: int, b: int) returns (k: nat)
    requires Pieces(pieces, lo, hi) && lo <= b <= hi
    ensures k < |pieces| && pieces[k].Has(b) && forall j :: 0 <= j < |pieces| && pieces[j].Has(b) ==> j == k
    decreases |pieces|
  {
    if b <= pieces[0].right {
      k := 0;
      forall j | 0 < j < |pieces| ensures b < pieces[j].left { PiecesReach(pieces[1..], pieces[1].left, hi, j - 1); }
    } else {
      k := PiecesPartition(pieces[1..], pieces[1].left, hi, b);
      assert forall j :: 0 < j < |pieces| ==> pieces[j] == pieces[1..][j - 1];
      k := k + 1;
    }
  }
}
