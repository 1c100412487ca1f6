/**
  The mutable slice list and the decomposition that appends to it
  (source/BitSliceList.cpp), proved against the function of BitSlices.
  */
module BitSliceList {
  import opened Cuts
  import opened BitSlices
  import opened Joints

  class BitSliceList {
    var slices: seq<Slice>

    constructor ()
      ensures slices == []
    {
      slices := [];
    }

    function Width(): nat
      reads this
    {
      EndOf(slices)
    }

    method PushOpaque(e: Expr)
      modifies this
      ensures slices == old(slices) + OpaqueSlice(e, old(Width()))
    {
      var w := BitSlices.Width(e);
      if w == 0 {
        return;
      }
      var lo := Width();
      slices := slices + [Slice(lo, lo + w, [Opaque(e)])];
    }

    method PushConstant(value: seq<Bit>, w: nat)
      modifies this
      ensures slices == old(slices) + ConstantSlice(value, w, old(Width()))
    {
      if w == 0 {
        return;
      }
      var lo := Width();
      slices := slices + [Slice(lo, lo + w, [Constant(value, lo, lo + w)])];
    }

    method PushPaddingSlice(slice: Slice)
      modifies this
      ensures slices == old(slices) + [slice]
    {
      slices := slices + [slice];
    }

    /** One slice per stretch between the hints; every slice keeps the whole path's source range. */
    method PushStretches(root: Root, lspLo: nat, lspHi: nat, inside: seq<nat>)
      requires lspLo < lspHi && Increasing(inside) && forall y :: y in inside ==> lspLo < y < lspHi
      modifies this
      ensures slices == old(slices) + Stretches(root, lspLo, lspHi, old(Width()), lspLo, inside)
    {
      var lo := Width();
      var srcHi := lo + (lspHi - lspLo);
      var prev: nat, rest: seq<nat> := lspLo, inside;
      while rest != []
        invariant lspLo <= prev < lspHi && Increasing(rest) && forall y :: y in rest ==> prev < y < lspHi
        invariant slices + Stretches(root, lspLo, lspHi, lo, prev, rest)
                  == old(slices) + Stretches(root, lspLo, lspHi, lo, lspLo, inside)
        decreases |rest|
      {
        var cut := rest[0];
        assert cut in rest && forall j :: 0 < j < |rest| ==> rest[j] in rest;
        ghost var slice := Slice(lo + (prev - lspLo), lo + (cut - lspLo), [Lsp(root, lspLo, lo, srcHi)]);
        assert Stretches(root, lspLo, lspHi, lo, prev, rest) == [slice] + Stretches(root, lspLo, lspHi, lo, cut, rest[1..]);
        slices := slices + [Slice(lo + (prev - lspLo), lo + (cut - lspLo), [Lsp(root, lspLo, lo, srcHi)])];
        prev, rest := cut, rest[1..];
      }
      slices := slices + [Slice(lo + (prev - lspLo), srcHi, [Lsp(root, lspLo, lo, srcHi)])];
    }

    /** One slice, or one per stretch between the cut hints that fall inside the path's bounds. */
    method PushLsp(root: Root, lspFirst: nat, lspLast: nat, w: nat, cuts: Registry)
      requires ValidRegistry(cuts) && lspFirst <= lspLast
      modifies this
      ensures slices == old(slices) + LspSlices(root, lspFirst, lspLast, w, old(Width()), cuts)
    {
      if w == 0 {
        return;
      }
      var lo := Width();
      if root.symbol in cuts {
        var lspLo, lspHi := lspFirst, lspLast + 1;
        var inside := Between(cuts[root.symbol], lspLo, lspHi);
        if inside != [] {
          PushStretches(root, lspLo, lspHi, inside);
          return;
        }
      }
      slices := slices + [Slice(lo, lo + w, [Lsp(root, lspFirst, lo, lo + w)])];
    }

    /** Appends the slices of `e`, least significant first. */
    method BuildInto(e: Expr, cuts: Registry)
      requires ValidRegistry(cuts) && Sized(e, cuts)
      modifies this
      ensures slices == old(slices) + Slices(e, old(Width()), cuts)
      decreases e, 1
    {
      match e
      case ValuePath(root, lo, hi, w) => PushLsp(root, lo, hi, w, cuts);
      case Concat(_) => BuildOperands(e, cuts);
      case Replicate(_, _, _) => BuildCopies(e, cuts);
      case Convert(_, _, _, _) => BuildConversion(e, cuts);
      case Select(_, _, _, _, _) => BuildConditional(e, cuts);
      case Other(_, w, folded) =>
        if Folds(folded, w) {
          PushConstant(folded.value, w);
        } else {
          PushOpaque(e);
        }
    }

    /** Walks the operands in reverse, so that the least significant one comes first. */
    method BuildOperands(e: Expr, cuts: Registry)
      requires ValidRegistry(cuts) && Sized(e, cuts) && e.Concat?
      modifies this
      ensures slices == old(slices) + Slices(e, old(Width()), cuts)
      decreases e, 0
    {
      ghost var whole := slices + SlicesOfAll(e.operands, Width(), cuts);
      var i := |e.operands|;
      assert e.operands[..i] == e.operands;
      while i > 0
        invariant 0 <= i <= |e.operands|
        invariant slices + SlicesOfAll(e.operands[..i], Width(), cuts) == whole
      {
        i := i - 1;
        LastOperandFirst(slices, e.operands, i, cuts);
        BuildInto(e.operands[i], cuts);
      }
    }

    /** Builds the unit `count` times over; no times when the count is not positive. */
    method BuildCopies(e: Expr, cuts: Registry)
      requires ValidRegistry(cuts) && Sized(e, cuts) && e.Replicate?
      modifies this
      ensures slices == old(slices) + Slices(e, old(Width()), cuts)
      decreases e, 0
    {
      if e.count.None? {
        PushOpaque(e);
        return;
      }
      var count := e.count.value;
      if count <= 0 {
        return;
      }
      ghost var whole := slices + SlicesOfCopies(count, e.unit, EndOf(slices), cuts);
      var i := 0;
      while i < count
        invariant 0 <= i <= count
        invariant slices + SlicesOfCopies(count - i, e.unit, EndOf(slices), cuts) == whole
      {
        ghost var before := slices;
        BuildInto(e.unit, cuts);
        NextCopyFirst(before, slices, count - i, e.unit, cuts);
        i := i + 1;
      }
    }

    method BuildConversion(e: Expr, cuts: Registry)
      requires ValidRegistry(cuts) && Sized(e, cuts) && e.Convert?
      modifies this
      ensures slices == old(slices) + Slices(e, old(Width()), cuts)
      decreases e, 0
    {
      var outerWidth, innerWidth := e.width, BitSlices.Width(e.inner);
      if Folds(e.folded, outerWidth) {
        PushConstant(e.folded.value, outerWidth);
      } else if outerWidth == innerWidth {
        BuildInto(e.inner, cuts);
      } else if outerWidth > innerWidth {
        ghost var before := slices;
        BuildInto(e.inner, cuts);
        WidenedIsAppended(before, Slices(e.inner, EndOf(before), cuts), outerWidth - innerWidth, e.signExtend);
        PushExtension(outerWidth - innerWidth, e.signExtend);
      } else {
        PushOpaque(e);
      }
    }

    /** Sign padding, or constant zeros, on top of what is there. */
    method PushExtension(padWidth: nat, signExtend: bool)
      modifies this
      ensures slices == old(slices) + [ExtensionSlice(old(Width()), padWidth, signExtend)]
    {
      var lo := Width();
      var src := if signExtend then Padding else Constant(seq(padWidth, _ => B0), lo, lo + padWidth);
      PushPaddingSlice(Slice(lo, lo + padWidth, [src]));
    }

    /** Builds both arms apart and lays them on their common grid, or gives up when their widths differ. */
    method BuildConditional(e: Expr, cuts: Registry)
      requires ValidRegistry(cuts) && Sized(e, cuts) && e.Select?
      modifies this
      ensures slices == old(slices) + Slices(e, old(Width()), cuts)
      decreases e, 0
    {
      var leftWidth, rightWidth := BitSlices.Width(e.left), BitSlices.Width(e.right);
      if leftWidth != rightWidth || leftWidth != e.width || !e.plain {
        PushOpaque(e);
        return;
      }
      var l := BuildList(e.left, cuts);
      var r := BuildList(e.right, cuts);
      if EndOf(l) != EndOf(r) {
        PushOpaque(e);
        return;
      }
      PushGrid(l, r, e.condition);
    }

    /** One slice per stretch of the common grid, with the sources of both arms there and the condition. */
    method PushGrid(l: seq<Slice>, r: seq<Slice>, condition: Expr)
      modifies this
      ensures slices == old(slices) + GridSlices(l, r, condition, old(Width()), Grid(l, r), 0)
    {
      var unifiedCuts := MergeCuts(CollectCuts(l), CollectCuts(r));
      var baseOffset := Width();
      ghost var whole := slices + GridSlices(l, r, condition, baseOffset, unifiedCuts, 0);
      var i := 0;
      while i + 1 < |unifiedCuts|
        invariant i < |unifiedCuts| && unifiedCuts == Grid(l, r)
        invariant slices + GridSlices(l, r, condition, baseOffset, unifiedCuts, i) == whole
        decreases |unifiedCuts| - i
      {
        var bit := unifiedCuts[i];
        var sources := TranslateAll(SourcesAt(l, bit), baseOffset) + TranslateAll(SourcesAt(r, bit), baseOffset);
        var slice := Slice(baseOffset + bit, baseOffset + unifiedCuts[i + 1], sources + [Opaque(condition)]);
        NextGridSlice(slices, l, r, condition, baseOffset, unifiedCuts, i, slice);
        PushPaddingSlice(slice);
        i := i + 1;
      }
    }
  }

  /** The width after appending is the end of what was appended, if that is anything; appending is associative. */
  lemma JoinIsAssociative(a: seq<Slice>, b: seq<Slice>, c: seq<Slice>)
    ensures EndOf(a + b) == if b == [] then EndOf(a) else EndOf(b)
    ensures a + b + c == a + (b + c)
  {
  }

  lemma NextCopyFirst(before: seq<Slice>, after: seq<Slice>, count: int, unit: Expr, cuts: Registry)
    requires ValidRegistry(cuts) && count > 0 && after == before + Slices(unit, EndOf(before), cuts)
    ensures before + SlicesOfCopies(count, unit, EndOf(before), cuts) == after + SlicesOfCopies(count - 1, unit, EndOf(after), cuts)
  {
    JoinIsAssociative(before, Slices(unit, EndOf(before), cuts), SlicesOfCopies(count - 1, unit, EndOf(after), cuts));
  }

  lemma NextGridSlice(before: seq<Slice>, l: seq<Slice>, r: seq<Slice>, c: Expr, base: nat, grid: seq<nat>, k: nat, slice: Slice)
    requires k + 1 < |grid|
    requires slice == Slice(base + grid[k], base + grid[k + 1],
                            TranslateAll(SourcesAt(l, grid[k]), base) + TranslateAll(SourcesAt(r, grid[k]), base) + [Opaque(c)])
    ensures before + GridSlices(l, r, c, base, grid, k) == before + [slice] + GridSlices(l, r, c, base, grid, k + 1)
  {
    JoinIsAssociative(before, [slice], GridSlices(l, r, c, base, grid, k + 1));
  }

  lemma WidenedIsAppended(before: seq<Slice>, low: seq<Slice>, pad: nat, signExtend: bool)
    ensures before + Widened(low, EndOf(before), pad, signExtend)
            == before + low + [ExtensionSlice(EndOf(before + low), pad, signExtend)]
  {
    JoinIsAssociative(before, low, [ExtensionSlice(EndOf(before + low), pad, signExtend)]);
  }

  /** What is appended for operands 0 to i is that of operand i, and then that of the others. */
  lemma LastOperandFirst(before: seq<Slice>, ops: seq<Expr>, i: nat, cuts: Registry)
    requires ValidRegistry(cuts) && i < |ops|
    ensures var after := before + Slices(ops[i], EndOf(before), cuts);
            before + SlicesOfAll(ops[..i + 1], EndOf(before), cuts) == after + SlicesOfAll(ops[..i], EndOf(after), cuts)
  {
    assert ops[..i + 1][..i] == ops[..i];
    var low := Slices(ops[i], EndOf(before), cuts);
    JoinIsAssociative(before, low, SlicesOfAll(ops[..i], EndOf(before + low), cuts));
  }

  /** A new list for an expression. */
  method BuildList(e: Expr, cuts: Registry) returns (slices: seq<Slice>)
    requires ValidRegistry(cuts) && Sized(e, cuts)
    ensures slices == Slices(e, 0, cuts)
    decreases e, 2
  {
    var list := new BitSliceList();
    list.BuildInto(e, cuts);
    slices := list.slices;
  }

  /** Decomposes an expression, or leaves it one opaque slice when decomposition is switched off. */
  method Build(e: Expr, enabled: bool, cuts: Registry) returns (slices: seq<Slice>)
    requires ValidRegistry(cuts) && Sized(e, cuts)
    ensures Tiles(slices, 0, BitSlices.Width(e))
    ensures forall q: nat :: q < BitSlices.Width(e) ==> WordOf(slices, q) == if enabled then Deps(e, q) else {Whole(e)}
    ensures forall q: nat :: 0 < q < BitSlices.Width(e) ==> (StartsAt(slices, q) <==> enabled && IsJoint(e, q, cuts))
  {
    if !enabled {
      var list := new BitSliceList();
      list.PushOpaque(e);
      slices := list.slices;
    } else {
      slices := BuildList(e, cuts);
    }
    BuiltIsExact(e, enabled, cuts, 0);
    forall q: nat | q < BitSlices.Width(e)
      ensures WordOf(slices, q) == if enabled then Deps(e, q) else {Whole(e)}
      ensures q > 0 ==> (StartsAt(slices, q) <==> enabled && IsJoint(e, q, cuts))
    {
      BuiltIsExact(e, enabled, cuts, q);
    }
  }

  lemma BuiltIsExact(e: Expr, enabled: bool, cuts: Registry, q: nat)
    requires ValidRegistry(cuts) && Sized(e, cuts)
    ensures var slices := if enabled then Slices(e, 0, cuts) else OpaqueSlice(e, 0);
            && Tiles(slices, 0, BitSlices.Width(e))
            && (q < BitSlices.Width(e) ==> WordOf(slices, q) == if enabled then Deps(e, q) else {Whole(e)})
            && (0 < q < BitSlices.Width(e) ==> (StartsAt(slices, q) <==> enabled && IsJoint(e, q, cuts)))
  {
    assert 0 + q == q;
    if enabled {
      SlicesAreExact(e, 0, cuts, q);
      if 0 < q < BitSlices.Width(e) {
        SlicesStartAtJoints(e, 0, cuts, q, q);
      }
    } else {
      OpaqueSays(e, 0, q);
      if q > 0 {
        OneSliceStarts(OpaqueSlice(e, 0), 0, q);
      }
    }
  }
}
