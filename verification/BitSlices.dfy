/**
  Bit slices of an expression (source/BitSlice.hpp, source/BitSliceList.cpp): the
  decomposition as a function, what a slice list says of each bit, and the proof
  that the two agree. Bit 0 of an expression is its least significant bit.
  */
module BitSlices {
  import opened Wrappers
  import opened Cuts

  type Symbol = nat

  datatype Bit = B0 | B1 | BX | BZ

  /**
    The part of an expression that decomposition looks at. A value path reads
    symbol bits lo..hi; `width` is its own width, which differs when an index is
    dynamic. Concatenation operands are listed most significant first.
    `folded` is the constant the expression evaluates to, least significant bit first.
    */
  datatype Expr =
    | ValuePath(root: Root, lo: nat, hi: nat, width: nat)
    | Concat(operands: seq<Expr>)
    | Replicate(count: Option<int>, unit: Expr, width: nat)
    | Convert(inner: Expr, width: nat, signExtend: bool, folded: Option<seq<Bit>>)
    | Select(condition: Expr, plain: bool, left: Expr, right: Expr, width: nat)
    | Other(id: nat, width: nat, folded: Option<seq<Bit>>)

  /** The symbol a path starts from, and the selectors along it that are not constant. */
  datatype Root = Root(symbol: Symbol, selectors: seq<Expr>)

  type Registry = map<Symbol, seq<nat>>

  ghost predicate ValidRegistry(cuts: Registry) {
    forall s :: s in cuts ==> Increasing(cuts[s])
  }

  function Width(e: Expr): nat
    decreases e, 0
  {
    match e
    case ValuePath(_, _, _, w) => w
    case Concat(ops) => WidthOfAll(ops)
    case Replicate(count, unit, w) => if count.None? then w else Times(count.value, Width(unit))
    case Convert(_, w, _, _) => w
    case Select(_, _, _, _, w) => w
    case Other(_, w, _) => w
  }

  function WidthOfAll(ops: seq<Expr>): nat
    decreases ops, 0
  {
    if ops == [] then 0 else WidthOfAll(ops[..|ops| - 1]) + Width(ops[|ops| - 1])
  }

  /** `count` times `w`; a count that is not positive yields no bits. */
  function Times(count: int, w: nat): nat
    decreases if count <= 0 then 0 else count
  {
    if count <= 0 then 0 else w + Times(count - 1, w)
  }

  /**
    The slices of every path taken apart keep its width: a path with a dynamic index,
    narrower than the bits it may read, has no hint inside those bits.
    */
  predicate Sized(e: Expr, cuts: Registry)
    decreases e, 0
  {
    match e
    case ValuePath(root, lo, hi, w) => lo <= hi && (w == hi - lo + 1 || w == 0 || Uncut(root.symbol, lo, hi, cuts))
    case Concat(ops) => forall i :: 0 <= i < |ops| ==> Sized(ops[i], cuts)
    case Replicate(count, unit, _) => count.None? || count.value <= 0 || Sized(unit, cuts)
    case Convert(inner, w, _, folded) => Folds(folded, w) || w < Width(inner) || Sized(inner, cuts)
    case Select(_, plain, left, right, w) => !plain || Width(left) != Width(right) || Width(left) != w || (Sized(left, cuts) && Sized(right, cuts))
    case Other(_, _, _) => true
  }

  predicate Uncut(s: Symbol, lo: nat, hi: nat, cuts: Registry) {
    s !in cuts || forall y :: y in cuts[s] ==> !(lo < y < hi + 1)
  }

  /** What one bit of a value depends on: a chooser is a selector that decides which bit is meant. */
  datatype Dep =
    | SymbolBit(symbol: Symbol, bit: int)
    | ConstantBit(value: Bit)
    | SignBit
    | Whole(e: Expr)
    | Chooser(e: Expr)
    | WholeNode(node: nat)

  function Choosers(root: Root): set<Dep> {
    set x | x in root.selectors :: Chooser(x)
  }

  /** One bit of a path's symbol, and the selectors along the path. */
  function PathBit(root: Root, bit: int): set<Dep> {
    {SymbolBit(root.symbol, bit)} + Choosers(root)
  }

  predicate Folds(folded: Option<seq<Bit>>, w: nat) {
    folded.Some? && |folded.value| == w
  }

  /**
    The dependencies of bit `p` of an expression, read off its structure. Of a path with a
    dynamic index, whose bits are not known, the lowest it may read are taken.
    */
  function Deps(e: Expr, p: nat): set<Dep>
    decreases e, 0
  {
    match e
    case ValuePath(root, lo, _, _) => PathBit(root, lo + p)
    case Concat(ops) => DepsOfAll(ops, p)
    case Replicate(count, unit, _) => if count.None? then {Whole(e)} else DepsOfCopies(count.value, unit, p)
    case Convert(inner, w, signExtend, folded) =>
      if Folds(folded, w) then (if p < w then {ConstantBit(folded.value[p])} else {})
      else if w < Width(inner) then {Whole(e)}
      else if p < Width(inner) then Deps(inner, p)
      else if signExtend then {SignBit}
      else {ConstantBit(B0)}
    case Select(c, plain, left, right, w) =>
      if plain && Width(left) == Width(right) == w then Deps(left, p) + Deps(right, p) + {Whole(c)} else {Whole(e)}
    case Other(_, w, folded) =>
      if Folds(folded, w) && p < w then {ConstantBit(folded.value[p])} else {Whole(e)}
  }

  function DepsOfAll(ops: seq<Expr>, p: nat): set<Dep>
    decreases ops, 0
  {
    if ops == [] then {}
    else
      var low := ops[|ops| - 1];
      if p < Width(low) then Deps(low, p) else DepsOfAll(ops[..|ops| - 1], p - Width(low))
  }

  function DepsOfCopies(count: int, unit: Expr, p: nat): set<Dep>
    decreases unit, 1, if count <= 0 then 0 else count
  {
    if count <= 0 then {}
    else if p < Width(unit) then Deps(unit, p)
    else DepsOfCopies(count - 1, unit, p - Width(unit))
  }

  /** One contributor to a slice; srcLo is where its own bit 0 stands in the list's bit space. */
  datatype Source =
    | Lsp(root: Root, lspLo: nat, srcLo: nat, srcHi: nat)
    | Padding
    | Opaque(e: Expr)
    | Constant(value: seq<Bit>, srcLo: nat, srcHi: nat)
    | PortNode(node: nat, srcLo: nat, srcHi: nat)

  datatype Slice = Slice(lo: nat, hi: nat, sources: seq<Source>) {
    predicate Has(p: int) {
      lo <= p < hi
    }
  }

  function EndOf(slices: seq<Slice>): nat {
    if slices == [] then 0 else slices[|slices| - 1].hi
  }

  function FindSlice(slices: seq<Slice>, bit: nat): Option<Slice> {
    if slices == [] then None
    else if slices[0].Has(bit) then Some(slices[0])
    else FindSlice(slices[1..], bit)
  }

  function CollectCuts(slices: seq<Slice>): (r: seq<nat>)
    ensures forall y :: y in r <==> y == 0 || exists i :: 0 <= i < |slices| && slices[i].hi == y
  {
    if slices == [] then [0]
    else
      var r := CollectCuts(slices[..|slices| - 1]);
      assert forall i :: 0 <= i < |slices| - 1 ==> slices[..|slices| - 1][i] == slices[i];
      r + [slices[|slices| - 1].hi]
  }

  function MergeCuts(a: seq<nat>, b: seq<nat>): seq<nat> {
    SortedUnique(a + b)
  }

  /** A source seen from a list that starts `offset` bits further up. */
  function Translate(src: Source, offset: nat): Source {
    match src
    case Lsp(s, l, lo, hi) => Lsp(s, l, lo + offset, hi + offset)
    case Constant(v, lo, hi) => Constant(v, lo + offset, hi + offset)
    case PortNode(n, lo, hi) => PortNode(n, lo + offset, hi + offset)
    case _ => src
  }

  function TranslateAll(sources: seq<Source>, offset: nat): seq<Source> {
    seq(|sources|, i requires 0 <= i < |sources| => Translate(sources[i], offset))
  }

  function SourcesAt(slices: seq<Slice>, bit: nat): seq<Source> {
    match FindSlice(slices, bit)
    case None => []
    case Some(s) => s.sources
  }

  function OpaqueSlice(e: Expr, base: nat): seq<Slice> {
    if Width(e) == 0 then [] else [Slice(base, base + Width(e), [Opaque(e)])]
  }

  function ConstantSlice(value: seq<Bit>, w: nat, base: nat): seq<Slice> {
    if w == 0 then [] else [Slice(base, base + w, [Constant(value, base, base + w)])]
  }

  /** The value path's slices: one, or one per stretch between the cut hints inside its bounds. */
  function LspSlices(root: Root, lo: nat, hi: nat, w: nat, base: nat, cuts: Registry): seq<Slice>
    requires ValidRegistry(cuts) && lo <= hi
  {
    if w == 0 then []
    else
      var inside := if root.symbol in cuts then Between(cuts[root.symbol], lo, hi + 1) else [];
      if inside == [] then [Slice(base, base + w, [Lsp(root, lo, base, base + w)])]
      else Stretches(root, lo, hi + 1, base, lo, inside)
  }

  function Stretches(root: Root, lspLo: nat, lspHi: nat, base: nat, prev: nat, inside: seq<nat>): seq<Slice>
    requires lspLo <= prev < lspHi && Increasing(inside) && forall y :: y in inside ==> prev < y < lspHi
    decreases |inside|
  {
    if inside == [] then
      [Slice(base + (prev - lspLo), base + (lspHi - lspLo), [Lsp(root, lspLo, base, base + (lspHi - lspLo))])]
    else
      var next := inside[0];
      assert next in inside && forall j :: 0 < j < |inside| ==> inside[j] in inside;
      [Slice(base + (prev - lspLo), base + (next - lspLo), [Lsp(root, lspLo, base, base + (lspHi - lspLo))])]
      + Stretches(root, lspLo, lspHi, base, next, inside[1..])
  }

  /** The slices of a `?:` on the common grid of its arms, from position `k` of the grid on. */
  function GridSlices(l: seq<Slice>, r: seq<Slice>, condition: Expr, base: nat, grid: seq<nat>, k: nat): seq<Slice>
    requires k < |grid|
    decreases |grid| - k
  {
    if k + 1 == |grid| then []
    else
      var bit := grid[k];
      [Slice(base + bit, base + grid[k + 1],
             TranslateAll(SourcesAt(l, bit), base) + TranslateAll(SourcesAt(r, bit), base) + [Opaque(condition)])]
      + GridSlices(l, r, condition, base, grid, k + 1)
  }

  function Grid(l: seq<Slice>, r: seq<Slice>): (g: seq<nat>)
    ensures g != []
  {
    assert 0 in CollectCuts(l) + CollectCuts(r);
    MergeCuts(CollectCuts(l), CollectCuts(r))
  }

  function ExtensionSlice(lo: nat, pad: nat, signExtend: bool): Slice {
    Slice(lo, lo + pad, [if signExtend then Padding else Constant(seq(pad, _ => B0), lo, lo + pad)])
  }

  /** The operand's slices and, above them, a slice of sign or zero bits. */
  function Widened(low: seq<Slice>, base: nat, pad: nat, signExtend: bool): seq<Slice> {
    var lo := if low == [] then base else EndOf(low);
    low + [ExtensionSlice(lo, pad, signExtend)]
  }

  /** The slices decomposition appends for `e` to a list that is `base` bits wide. */
  function Slices(e: Expr, base: nat, cuts: Registry): seq<Slice>
    requires ValidRegistry(cuts)
    decreases e, 0
  {
    match e
    case ValuePath(root, lo, hi, w) => if lo <= hi then LspSlices(root, lo, hi, w, base, cuts) else []
    case Concat(ops) => SlicesOfAll(ops, base, cuts)
    case Replicate(count, unit, _) =>
      if count.None? then OpaqueSlice(e, base) else SlicesOfCopies(count.value, unit, base, cuts)
    case Convert(inner, w, signExtend, folded) =>
      if Folds(folded, w) then ConstantSlice(folded.value, w, base)
      else if w == Width(inner) then Slices(inner, base, cuts)
      else if w > Width(inner) then
        Widened(Slices(inner, base, cuts), base, w - Width(inner), signExtend)
      else OpaqueSlice(e, base)
    case Select(c, plain, left, right, w) =>
      if !plain || Width(left) != Width(right) || Width(left) != w then OpaqueSlice(e, base)
      else
        var l, r := Slices(left, 0, cuts), Slices(right, 0, cuts);
        if EndOf(l) != EndOf(r) then OpaqueSlice(e, base)
        else GridSlices(l, r, c, base, Grid(l, r), 0)
    case Other(_, w, folded) =>
      if Folds(folded, w) then ConstantSlice(folded.value, w, base) else OpaqueSlice(e, base)
  }

  /** Operands from the last, least significant one on. */
  function SlicesOfAll(ops: seq<Expr>, base: nat, cuts: Registry): seq<Slice>
    requires ValidRegistry(cuts)
    decreases ops, 0
  {
    if ops == [] then []
    else
      var low := Slices(ops[|ops| - 1], base, cuts);
      low + SlicesOfAll(ops[..|ops| - 1], if low == [] then base else EndOf(low), cuts)
  }

  function SlicesOfCopies(count: int, unit: Expr, base: nat, cuts: Registry): seq<Slice>
    requires ValidRegistry(cuts)
    decreases unit, 1, if count <= 0 then 0 else count
  {
    if count <= 0 then []
    else
      var low := Slices(unit, base, cuts);
      low + SlicesOfCopies(count - 1, unit, if low == [] then base else EndOf(low), cuts)
  }

  /** Consecutive, non-empty slices from `base` to `end`. */
  ghost predicate Tiles(slices: seq<Slice>, base: nat, end: nat) {
    if slices == [] then base == end
    else slices[0].lo == base && base < slices[0].hi && Tiles(slices[1..], slices[0].hi, end)
  }

  /** What a source says of the bit at position `p` of the list. */
  function Says(src: Source, p: int): set<Dep> {
    match src
    case Lsp(root, l, lo, _) => PathBit(root, l + (p - lo))
    case Padding => {SignBit}
    case Opaque(e) => {Whole(e)}
    case Constant(v, lo, _) => {if 0 <= p - lo < |v| then ConstantBit(v[p - lo]) else ConstantBit(BX)}
    case PortNode(n, _, _) => {WholeNode(n)}
  }

  /** What a list says of bit `p`: the words of every source of the slice that holds it. */
  function SaysAll(sources: seq<Source>, p: int): set<Dep> {
    set src, d | src in sources && d in Says(src, p) :: d
  }

  lemma {:induction false} TilesReach(a: seq<Slice>, base: nat, end: nat)
    requires Tiles(a, base, end)
    ensures base <= end && (if a == [] then base == end else base < end && EndOf(a) == end)
  {
    if a != [] {
      TilesReach(a[1..], a[0].hi, end);
    }
  }

  /** Appending consecutive lists: each bit is looked up in its own part. */
  lemma {:induction false} TilesAppend(a: seq<Slice>, b: seq<Slice>, base: nat, mid: nat, end: nat, p: nat)
    requires Tiles(a, base, mid) && Tiles(b, mid, end)
    ensures Tiles(a + b, base, end)
    ensures base <= p < end ==> FindSlice(a + b, p) == if p < mid then FindSlice(a, p) else FindSlice(b, p)
  {
    if a == [] {
      assert a + b == b;
    } else {
      assert (a + b)[1..] == a[1..] + b;
      TilesReach(a[1..], a[0].hi, mid);
      TilesAppend(a[1..], b, a[0].hi, mid, end, p);
    }
  }

  /** Each bit of a tiled range lies in a slice of the list, and that is the one found. */
  lemma {:induction false} TilesFind(a: seq<Slice>, base: nat, end: nat, p: nat) returns (k: nat)
    requires Tiles(a, base, end) && base <= p < end
    ensures k < |a| && FindSlice(a, p) == Some(a[k]) && a[k].Has(p) && base <= a[k].lo && a[k].hi <= end
  {
    if p < a[0].hi {
      k := 0;
      TilesReach(a[1..], a[0].hi, end);
    } else {
      k := TilesFind(a[1..], a[0].hi, end, p);
      k := k + 1;
    }
  }

  /** A single slice. */
  lemma OneSlice(slice: Slice, base: nat, end: nat, p: nat)
    requires slice.lo == base < slice.hi == end && base <= p < end
    ensures Tiles([slice], base, end) && FindSlice([slice], p) == Some(slice)
  {
    assert [slice][1..] == [];
  }

  lemma {:induction false} StretchesTile(root: Root, lspLo: nat, lspHi: nat, base: nat, prev: nat, inside: seq<nat>)
    requires lspLo <= prev < lspHi && Increasing(inside) && forall y :: y in inside ==> prev < y < lspHi
    ensures Tiles(Stretches(root, lspLo, lspHi, base, prev, inside), base + (prev - lspLo), base + (lspHi - lspLo))
    ensures forall i :: 0 <= i < |Stretches(root, lspLo, lspHi, base, prev, inside)| ==>
              Stretches(root, lspLo, lspHi, base, prev, inside)[i].sources == [Lsp(root, lspLo, base, base + (lspHi - lspLo))]
    decreases |inside|
  {
    var slices := Stretches(root, lspLo, lspHi, base, prev, inside);
    if inside == [] {
      assert slices[1..] == [];
    } else {
      assert inside[0] in inside && forall j :: 0 < j < |inside| ==> inside[j] in inside;
      StretchesTile(root, lspLo, lspHi, base, inside[0], inside[1..]);
      assert slices[1..] == Stretches(root, lspLo, lspHi, base, inside[0], inside[1..]);
    }
  }

  /** The only slice of a tiled list that holds a bit is the one found. */
  lemma {:induction false} TilesUnique(a: seq<Slice>, base: nat, end: nat, k: nat, p: nat)
    requires Tiles(a, base, end) && k < |a| && a[k].Has(p)
    ensures FindSlice(a, p) == Some(a[k])
  {
    if k > 0 {
      TilesStartsLate(a[1..], a[0].hi, end, k - 1);
      TilesUnique(a[1..], a[0].hi, end, k - 1, p);
    }
  }

  lemma {:induction false} TilesStartsLate(a: seq<Slice>, base: nat, end: nat, k: nat)
    requires Tiles(a, base, end) && k < |a|
    ensures base <= a[k].lo < a[k].hi <= end
  {
    TilesReach(a[1..], a[0].hi, end);
    if k > 0 {
      TilesStartsLate(a[1..], a[0].hi, end, k - 1);
    }
  }

  /** All inner ends of a list are on the grid, which reaches from 0 to `w`. */
  ghost predicate OnGrid(a: seq<Slice>, grid: seq<nat>) {
    forall k :: 0 <= k < |a| ==> a[k].hi in grid
  }

  /** Between two neighbouring grid points a list on the grid stays in one slice. */
  lemma GridStaysInSlice(a: seq<Slice>, w: nat, grid: seq<nat>, i: nat, q: nat)
    requires Tiles(a, 0, w) && Increasing(grid) && OnGrid(a, grid)
    requires i + 1 < |grid| && grid[i + 1] <= w && grid[i] <= q < grid[i + 1]
    ensures FindSlice(a, grid[i]) == FindSlice(a, q)
  {
    var k := TilesFind(a, 0, w, grid[i]);
    NoneBetween(grid, i, a[k].hi);
    TilesUnique(a, 0, w, k, q);
  }

  /** Merging the cuts of two lists of equal width makes their common grid. */
  lemma GridOfTwo(l: seq<Slice>, r: seq<Slice>, w: nat)
    requires Tiles(l, 0, w) && Tiles(r, 0, w)
    ensures CommonGrid(l, r, Grid(l, r), w)
  {
    var g := Grid(l, r);
    var cuts := CollectCuts(l) + CollectCuts(r);
    assert forall y :: y in g <==> y in CollectCuts(l) || y in CollectCuts(r);
    forall i | 0 <= i < |g|
      ensures g[i] <= w
    {
      assert g[i] in g;
      if k :| 0 <= k < |l| && l[k].hi == g[i] {
        TilesStartsLate(l, 0, w, k);
      } else if k :| 0 <= k < |r| && r[k].hi == g[i] {
        TilesStartsLate(r, 0, w, k);
      }
    }
    assert 0 in g;
    TilesReach(l, 0, w);
    assert w in g by {
      if l != [] { assert l[|l| - 1].hi == w; }
    }
    var e :| 0 <= e < |g| && g[e] == w;
    assert g[e] <= g[|g| - 1];
  }

  lemma {:induction false} GridSlicesTile(l: seq<Slice>, r: seq<Slice>, c: Expr, base: nat, grid: seq<nat>, k: nat, p: nat)
    returns (i: nat)
    requires Increasing(grid) && k < |grid|
    ensures Tiles(GridSlices(l, r, c, base, grid, k), base + grid[k], base + grid[|grid| - 1])
    ensures base + grid[k] <= p < base + grid[|grid| - 1] ==>
              && i + 1 < |grid| && base + grid[i] <= p < base + grid[i + 1]
              && SourcesAt(GridSlices(l, r, c, base, grid, k), p)
                 == TranslateAll(SourcesAt(l, grid[i]), base) + TranslateAll(SourcesAt(r, grid[i]), base) + [Opaque(c)]
    decreases |grid| - k
  {
    i := k;
    if k + 1 < |grid| {
      var slices := GridSlices(l, r, c, base, grid, k);
      assert slices[1..] == GridSlices(l, r, c, base, grid, k + 1);
      var j := GridSlicesTile(l, r, c, base, grid, k + 1, p);
      if p >= base + grid[k + 1] {
        i := j;
      }
    }
  }

  lemma TranslatedSaysTheSame(sources: seq<Source>, offset: nat, q: nat)
    ensures SaysAll(TranslateAll(sources, offset), offset + q) == SaysAll(sources, q)
  {
    var moved := TranslateAll(sources, offset);
    forall i | 0 <= i < |sources|
      ensures Says(moved[i], offset + q) == Says(sources[i], q)
    {
    }
    forall d
      ensures d in SaysAll(moved, offset + q) <==> d in SaysAll(sources, q)
    {
      if d in SaysAll(moved, offset + q) {
        var src :| src in moved && d in Says(src, offset + q);
        var i :| 0 <= i < |moved| && moved[i] == src;
        assert sources[i] in sources && d in Says(sources[i], q);
      }
      if d in SaysAll(sources, q) {
        var src :| src in sources && d in Says(src, q);
        var i :| 0 <= i < |sources| && sources[i] == src;
        assert moved[i] in moved && d in Says(moved[i], offset + q);
      }
    }
  }

  /** An ascending grid from 0 to `w` that holds every slice end of both lists. */
  ghost predicate CommonGrid(l: seq<Slice>, r: seq<Slice>, grid: seq<nat>, w: nat) {
    && Increasing(grid) && grid != [] && grid[0] == 0 && grid[|grid| - 1] == w
    && OnGrid(l, grid) && OnGrid(r, grid)
  }

  lemma GridTiles(l: seq<Slice>, r: seq<Slice>, c: Expr, base: nat, w: nat, grid: seq<nat>)
    requires CommonGrid(l, r, grid, w)
    ensures Tiles(GridSlices(l, r, c, base, grid, 0), base, base + w)
  {
    var i := GridSlicesTile(l, r, c, base, grid, 0, 0);
  }

  /** On the common grid, each bit of a `?:` carries the translated sources of both arms, and the condition. */
  lemma GridSources(l: seq<Slice>, r: seq<Slice>, c: Expr, base: nat, w: nat, grid: seq<nat>, q: nat)
    requires Tiles(l, 0, w) && Tiles(r, 0, w) && CommonGrid(l, r, grid, w) && q < w
    ensures SourcesAt(GridSlices(l, r, c, base, grid, 0), base + q)
            == TranslateAll(SourcesAt(l, q), base) + TranslateAll(SourcesAt(r, q), base) + [Opaque(c)]
  {
    var i := GridSlicesTile(l, r, c, base, grid, 0, base + q);
    assert grid[i + 1] <= grid[|grid| - 1];
    GridStaysInSlice(l, w, grid, i, q);
    GridStaysInSlice(r, w, grid, i, q);
  }

  /** So each bit of a `?:` says what both arms and the condition say. */
  lemma GridSay(l: seq<Slice>, r: seq<Slice>, c: Expr, base: nat, w: nat, grid: seq<nat>, q: nat)
    requires Tiles(l, 0, w) && Tiles(r, 0, w) && CommonGrid(l, r, grid, w) && q < w
    ensures SaysAll(SourcesAt(GridSlices(l, r, c, base, grid, 0), base + q), base + q)
            == SaysAll(SourcesAt(l, q), q) + SaysAll(SourcesAt(r, q), q) + {Whole(c)}
  {
    GridSources(l, r, c, base, w, grid, q);
    var a, b := SourcesAt(l, q), SourcesAt(r, q);
    TranslatedSaysTheSame(a, base, q);
    TranslatedSaysTheSame(b, base, q);
    SaysAllThree(TranslateAll(a, base), TranslateAll(b, base), Opaque(c), base + q);
  }

  lemma SaysAllThree(a: seq<Source>, b: seq<Source>, c: Source, p: nat)
    ensures SaysAll(a + b + [c], p) == SaysAll(a, p) + SaysAll(b, p) + Says(c, p)
  {
    assert forall src :: src in a + b + [c] <==> src in a || src in b || src == c;
    assert c in a + b + [c];
  }

  /** What a slice list says of bit `p`. */
  function WordOf(slices: seq<Slice>, p: nat): set<Dep> {
    SaysAll(SourcesAt(slices, p), p)
  }

  lemma OneSourceSays(slice: Slice, src: Source, base: nat, end: nat, q: nat)
    requires slice == Slice(base, end, [src]) && base <= q < end
    ensures Tiles([slice], base, end) && WordOf([slice], q) == Says(src, q)
  {
    OneSlice(slice, base, end, q);
    assert src in [src];
  }

  lemma OpaqueSays(e: Expr, base: nat, q: nat)
    ensures Tiles(OpaqueSlice(e, base), base, base + Width(e))
    ensures q < Width(e) ==> WordOf(OpaqueSlice(e, base), base + q) == {Whole(e)}
  {
    var w := Width(e);
    if w > 0 {
      OneSourceSays(Slice(base, base + w, [Opaque(e)]), Opaque(e), base, base + w, base + if q < w then q else 0);
    }
  }

  lemma ConstantSays(value: seq<Bit>, w: nat, base: nat, q: nat)
    requires |value| == w
    ensures Tiles(ConstantSlice(value, w, base), base, base + w)
    ensures q < w ==> WordOf(ConstantSlice(value, w, base), base + q) == {ConstantBit(value[q])}
  {
    if w > 0 {
      var src := Constant(value, base, base + w);
      OneSourceSays(Slice(base, base + w, [src]), src, base, base + w, base + if q < w then q else 0);
    }
  }

  lemma JoinSays(a: seq<Slice>, b: seq<Slice>, base: nat, mid: nat, end: nat, q: nat)
    requires Tiles(a, base, mid) && Tiles(b, mid, end)
    ensures Tiles(a + b, base, end)
    ensures base + q < end ==> WordOf(a + b, base + q) == if base + q < mid then WordOf(a, base + q) else WordOf(b, base + q)
  {
    TilesAppend(a, b, base, mid, end, base + q);
  }

  /** The slices are consecutive from `base`, `w` bits wide, and say `deps` of bit `q` if it is one of them. */
  ghost predicate Spells(slices: seq<Slice>, base: nat, w: nat, q: nat, deps: set<Dep>) {
    Tiles(slices, base, base + w) && (q < w ==> WordOf(slices, base + q) == deps)
  }

  lemma NextStarts(low: seq<Slice>, base: nat, w: nat, q: nat, deps: set<Dep>)
    requires Spells(low, base, w, q, deps)
    ensures (if low == [] then base else EndOf(low)) == base + w
  {
    TilesReach(low, base, base + w);
  }

  lemma NothingSpells(slices: seq<Slice>, base: nat, w: nat, q: nat, deps: set<Dep>)
    requires slices == [] && w == 0
    ensures Spells(slices, base, w, q, deps)
  {
  }

  lemma StretchSpells(slices: seq<Slice>, root: Root, lo: nat, base: nat, w: nat, q: nat, deps: set<Dep>)
    requires slices == [Slice(base, base + w, [Lsp(root, lo, base, base + w)])] && w > 0 && deps == PathBit(root, lo + q)
    ensures Spells(slices, base, w, q, deps)
  {
    var src := Lsp(root, lo, base, base + w);
    OneSourceSays(slices[0], src, base, base + w, base + if q < w then q else 0);
  }

  lemma StretchesSpell(slices: seq<Slice>, root: Root, lo: nat, hi: nat, base: nat, inside: seq<nat>, w: nat, q: nat, deps: set<Dep>)
    requires lo < hi && Increasing(inside) && (forall y :: y in inside ==> lo < y < hi) && w == hi - lo
    requires slices == Stretches(root, lo, hi, base, lo, inside) && deps == PathBit(root, lo + q)
    ensures Spells(slices, base, w, q, deps)
  {
    StretchesTile(root, lo, hi, base, lo, inside);
    if q < w {
      var k := TilesFind(slices, base, base + w, base + q);
      OneSourceInAll(slices[k].sources, Lsp(root, lo, base, base + w), base + q);
    }
  }

  lemma OneSourceInAll(sources: seq<Source>, src: Source, p: int)
    requires sources == [src]
    ensures SaysAll(sources, p) == Says(src, p)
  {
    assert src in sources;
  }

  /** With or without hints, a path's slices tile its width and say of each position which symbol bit it is, and its selectors. */
  lemma LspSlicesSay(root: Root, lo: nat, hi: nat, w: nat, base: nat, cuts: Registry, q: nat)
    requires ValidRegistry(cuts) && lo <= hi && (w == hi - lo + 1 || w == 0 || Uncut(root.symbol, lo, hi, cuts))
    ensures Spells(LspSlices(root, lo, hi, w, base, cuts), base, w, q, PathBit(root, lo + q))
  {
    var inside := if root.symbol in cuts then Between(cuts[root.symbol], lo, hi + 1) else [];
    if inside != [] && w > 0 {
      NoneInside(cuts[root.symbol], lo, hi + 1);
    }
    PathSpells(LspSlices(root, lo, hi, w, base, cuts), root, lo, hi, w, base, inside, q, PathBit(root, lo + q));
  }

  lemma PathSpells(slices: seq<Slice>, root: Root, lo: nat, hi: nat, w: nat, base: nat, inside: seq<nat>, q: nat, deps: set<Dep>)
    requires lo <= hi && Increasing(inside) && (forall y :: y in inside ==> lo < y < hi + 1) && deps == PathBit(root, lo + q)
    requires w > 0 && inside != [] ==> w == hi - lo + 1
    requires slices == if w == 0 then [] else if inside == [] then [Slice(base, base + w, [Lsp(root, lo, base, base + w)])]
                       else Stretches(root, lo, hi + 1, base, lo, inside)
    ensures Spells(slices, base, w, q, deps)
  {
    if w == 0 {
      NothingSpells(slices, base, w, q, deps);
    } else if inside == [] {
      StretchSpells(slices, root, lo, base, w, q, deps);
    } else {
      StretchesSpell(slices, root, lo, hi + 1, base, inside, w, q, deps);
    }
  }

  /** In a list joined from two, each bit is looked up in its own part. */
  lemma JoinSpells(all: seq<Slice>, low: seq<Slice>, high: seq<Slice>, base: nat, w: nat, more: nat, total: nat,
                   q: nat, highQ: nat, deps: set<Dep>, lowDeps: set<Dep>, highDeps: set<Dep>)
    requires Spells(low, base, w, q, lowDeps) && Spells(high, base + w, more, highQ, highDeps)
    requires all == low + high && total == w + more && (q >= w ==> highQ == q - w)
    requires q < total ==> deps == if q < w then lowDeps else highDeps
    ensures Spells(all, base, total, q, deps)
  {
    JoinSays(low, high, base, base + w, base + w + more, q);
  }

  /** A widening leaves the operand's bits alone and fills the others. */
  lemma WidenedSays(low: seq<Slice>, base: nat, w: nat, pad: nat, signExtend: bool, q: nat)
    requires Tiles(low, base, base + w) && pad > 0
    ensures Tiles(Widened(low, base, pad, signExtend), base, base + w + pad)
    ensures q < w + pad ==> WordOf(Widened(low, base, pad, signExtend), base + q)
                            == if q < w then WordOf(low, base + q) else if signExtend then {SignBit} else {ConstantBit(B0)}
  {
    TilesReach(low, base, base + w);
    var mid := base + w;
    var src := if signExtend then Padding else Constant(seq(pad, _ => B0), mid, mid + pad);
    var top := [Slice(mid, mid + pad, [src])];
    OneSourceSays(top[0], src, mid, mid + pad, if w <= q < w + pad then base + q else mid);
    JoinSays(low, top, base, mid, mid + pad, q);
  }

  lemma TilesOnGrid(l: seq<Slice>, r: seq<Slice>, w: nat)
    requires Tiles(l, 0, w) && Tiles(r, 0, w)
    ensures EndOf(l) == EndOf(r) && CommonGrid(l, r, Grid(l, r), w)
  {
    TilesReach(l, 0, w);
    TilesReach(r, 0, w);
    GridOfTwo(l, r, w);
  }

  /**
    The decomposition of paths, concatenations, replications, widenings,
    conditionals and constants preserves every bit's dependencies, with or without
    cut hints.
    */
  lemma {:induction false} SlicesAreExact(e: Expr, base: nat, cuts: Registry, q: nat)
    requires ValidRegistry(cuts) && Sized(e, cuts)
    ensures Spells(Slices(e, base, cuts), base, Width(e), q, Deps(e, q))
    decreases e, 3
  {
    match e
    case ValuePath(root, lo, hi, w) => LspSlicesSay(root, lo, hi, w, base, cuts, q);
    case Concat(ops) => OperandsAreExact(ops, base, cuts, q);
    case Replicate(_, _, _) => ReplicateIsExact(e, base, cuts, q);
    case Convert(_, _, _, _) => ConvertIsExact(e, base, cuts, q);
    case Select(_, _, _, _, _) => SelectIsExact(e, base, cuts, q);
    case Other(_, w, folded) =>
      if Folds(folded, w) {
        ConstantSays(folded.value, w, base, q);
      } else {
        OpaqueSays(e, base, q);
      }
  }

  lemma {:induction false} ReplicateIsExact(e: Expr, base: nat, cuts: Registry, q: nat)
    requires ValidRegistry(cuts) && Sized(e, cuts) && e.Replicate?
    ensures Spells(Slices(e, base, cuts), base, Width(e), q, Deps(e, q))
    decreases e, 2
  {
    if e.count.Some? {
      CopiesAreExact(e.count.value, e.unit, base, cuts, q);
    } else {
      OpaqueSays(e, base, q);
    }
  }

  lemma WidenedSpells(slices: seq<Slice>, low: seq<Slice>, base: nat, w: nat, total: nat, signExtend: bool, q: nat, deps: set<Dep>, lowDeps: set<Dep>)
    requires total > w && Spells(low, base, w, q, lowDeps) && slices == Widened(low, base, total - w, signExtend)
    requires q < total ==> deps == if q < w then lowDeps else if signExtend then {SignBit} else {ConstantBit(B0)}
    ensures Spells(slices, base, total, q, deps)
  {
    WidenedSays(low, base, w, total - w, signExtend, q);
  }

  lemma WideningIsExact(e: Expr, base: nat, cuts: Registry, q: nat)
    requires ValidRegistry(cuts) && e.Convert? && !Folds(e.folded, e.width) && e.width > Width(e.inner)
    requires Spells(Slices(e.inner, base, cuts), base, Width(e.inner), q, Deps(e.inner, q))
    ensures Spells(Slices(e, base, cuts), base, Width(e), q, Deps(e, q))
  {
    WidenedSpells(Slices(e, base, cuts), Slices(e.inner, base, cuts), base, Width(e.inner), e.width, e.signExtend, q, Deps(e, q), Deps(e.inner, q));
  }

  lemma {:induction false} ConvertIsExact(e: Expr, base: nat, cuts: Registry, q: nat)
    requires ValidRegistry(cuts) && Sized(e, cuts) && e.Convert?
    ensures Spells(Slices(e, base, cuts), base, Width(e), q, Deps(e, q))
    decreases e, 2
  {
    var inner, w := e.inner, e.width;
    if Folds(e.folded, w) {
      ConstantSays(e.folded.value, w, base, q);
    } else if w == Width(inner) {
      SlicesAreExact(inner, base, cuts, q);
    } else if w > Width(inner) {
      SlicesAreExact(inner, base, cuts, q);
      WideningIsExact(e, base, cuts, q);
    } else {
      OpaqueSays(e, base, q);
    }
  }

  lemma GridSpells(l: seq<Slice>, r: seq<Slice>, c: Expr, base: nat, w: nat, q: nat, left: set<Dep>, right: set<Dep>)
    requires Spells(l, 0, w, q, left) && Spells(r, 0, w, q, right)
    ensures EndOf(l) == EndOf(r)
    ensures Spells(GridSlices(l, r, c, base, Grid(l, r), 0), base, w, q, left + right + {Whole(c)})
  {
    var grid := Grid(l, r);
    TilesOnGrid(l, r, w);
    GridTiles(l, r, c, base, w, grid);
    if q < w {
      assert WordOf(l, q) == left && WordOf(r, q) == right;
      GridSay(l, r, c, base, w, grid, q);
    }
  }

  lemma {:induction false} SelectIsExact(e: Expr, base: nat, cuts: Registry, q: nat)
    requires ValidRegistry(cuts) && Sized(e, cuts) && e.Select?
    ensures Spells(Slices(e, base, cuts), base, Width(e), q, Deps(e, q))
    decreases e, 2
  {
    if e.plain && Width(e.left) == Width(e.right) == e.width {
      SlicesAreExact(e.left, 0, cuts, q);
      SlicesAreExact(e.right, 0, cuts, q);
      GridSpells(Slices(e.left, 0, cuts), Slices(e.right, 0, cuts), e.condition, base, e.width, q, Deps(e.left, q), Deps(e.right, q));
    } else {
      OpaqueSays(e, base, q);
    }
  }

  lemma OperandsJoin(ops: seq<Expr>, e: Expr, rest: seq<Expr>, base: nat, cuts: Registry, w: nat, low: seq<Slice>, q: nat)
    requires ValidRegistry(cuts) && ops != [] && e == ops[|ops| - 1] && rest == ops[..|ops| - 1] && w == Width(e)
    requires low == Slices(e, base, cuts) && (if low == [] then base else EndOf(low)) == base + w
    ensures SlicesOfAll(ops, base, cuts) == low + SlicesOfAll(rest, base + w, cuts) && WidthOfAll(ops) == w + WidthOfAll(rest)
    ensures DepsOfAll(ops, q) == if q < w then Deps(e, q) else DepsOfAll(rest, q - w)
  {
  }

  lemma {:induction false} OperandsAreExact(ops: seq<Expr>, base: nat, cuts: Registry, q: nat)
    requires ValidRegistry(cuts) && forall i :: 0 <= i < |ops| ==> Sized(ops[i], cuts)
    ensures Spells(SlicesOfAll(ops, base, cuts), base, WidthOfAll(ops), q, DepsOfAll(ops, q))
    decreases ops, 0
  {
    if ops == [] {
      NothingSpells(SlicesOfAll(ops, base, cuts), base, WidthOfAll(ops), q, DepsOfAll(ops, q));
    } else {
      var e, rest := ops[|ops| - 1], ops[..|ops| - 1];
      var w := Width(e);
      var highQ := if q < w then 0 else q - w;
      var low, high := Slices(e, base, cuts), SlicesOfAll(rest, base + w, cuts);
      var lowDeps, highDeps := Deps(e, q), DepsOfAll(rest, highQ);
      SlicesAreExact(e, base, cuts, q);
      OperandsAreExact(rest, base + w, cuts, highQ);
      NextStarts(low, base, w, q, lowDeps);
      OperandsJoin(ops, e, rest, base, cuts, w, low, q);
      JoinSpells(SlicesOfAll(ops, base, cuts), low, high, base, w, WidthOfAll(rest), WidthOfAll(ops), q, highQ, DepsOfAll(ops, q), lowDeps, highDeps);
    }
  }

  lemma CopySlicesJoin(count: int, rest: int, unit: Expr, base: nat, next: nat, cuts: Registry, low: seq<Slice>)
    requires ValidRegistry(cuts) && rest >= 0 && count == rest + 1
    requires low == Slices(unit, base, cuts) && next == if low == [] then base else EndOf(low)
    ensures SlicesOfCopies(count, unit, base, cuts) == low + SlicesOfCopies(rest, unit, next, cuts)
  {
  }

  lemma CopiesJoin(count: int, unit: Expr, base: nat, cuts: Registry, w: nat, low: seq<Slice>, q: nat)
    requires ValidRegistry(cuts) && count > 0 && w == Width(unit)
    requires low == Slices(unit, base, cuts) && (if low == [] then base else EndOf(low)) == base + w
    ensures SlicesOfCopies(count, unit, base, cuts) == low + SlicesOfCopies(count - 1, unit, base + w, cuts)
    ensures Times(count, w) == w + Times(count - 1, w)
    ensures DepsOfCopies(count, unit, q) == if q < w then Deps(unit, q) else DepsOfCopies(count - 1, unit, q - w)
  {
  }

  lemma {:induction false} CopiesAreExact(count: int, unit: Expr, base: nat, cuts: Registry, q: nat)
    requires ValidRegistry(cuts) && (count > 0 ==> Sized(unit, cuts))
    ensures Spells(SlicesOfCopies(count, unit, base, cuts), base, Times(count, Width(unit)), q, DepsOfCopies(count, unit, q))
    decreases unit, 4, if count <= 0 then 0 else count
  {
    var w := Width(unit);
    if count <= 0 {
      NothingSpells(SlicesOfCopies(count, unit, base, cuts), base, Times(count, w), q, DepsOfCopies(count, unit, q));
    } else {
      var highQ := if q < w then 0 else q - w;
      var low, high := Slices(unit, base, cuts), SlicesOfCopies(count - 1, unit, base + w, cuts);
      var lowDeps, highDeps := Deps(unit, q), DepsOfCopies(count - 1, unit, highQ);
      SlicesAreExact(unit, base, cuts, q);
      CopiesAreExact(count - 1, unit, base + w, cuts, highQ);
      NextStarts(low, base, w, q, lowDeps);
      CopiesJoin(count, unit, base, cuts, w, low, q);
      JoinSpells(SlicesOfCopies(count, unit, base, cuts), low, high, base, w, Times(count - 1, w), Times(count, w), q, highQ,
                 DepsOfCopies(count, unit, q), lowDeps, highDeps);
    }
  }

  /** What follows an expression's slices starts where its width ends. */
  lemma NextStart(e: Expr, base: nat, cuts: Registry)
    requires ValidRegistry(cuts) && Sized(e, cuts)
    ensures (if Slices(e, base, cuts) == [] then base else EndOf(Slices(e, base, cuts))) == base + Width(e)
  {
    SlicesAreExact(e, base, cuts, 0);
    NextStarts(Slices(e, base, cuts), base, Width(e), 0, Deps(e, 0));
  }

  lemma StretchesEnd(root: Root, lo: nat, hi: nat, base: nat, inside: seq<nat>)
    requires lo < hi && Increasing(inside) && forall y :: y in inside ==> lo < y < hi
    ensures EndOf(Stretches(root, lo, hi, base, lo, inside)) == base + (hi - lo)
  {
    StretchesTile(root, lo, hi, base, lo, inside);
    TilesReach(Stretches(root, lo, hi, base, lo, inside), base, base + (hi - lo));
  }

  lemma NoneInside(cuts: seq<nat>, lo: nat, hi: nat)
    requires Increasing(cuts)
    ensures Between(cuts, lo, hi) == [] <==> forall y :: y in cuts ==> !(lo < y < hi)
  {
    var inside := Between(cuts, lo, hi);
    if inside != [] {
      assert inside[0] in inside;
    }
  }

  /**
    A path with a dynamic index is narrower than the bits it may read. Its slices
    then keep its width exactly when no hint cuts into those bits.
    */
  lemma LspWidthIsKept(root: Root, lo: nat, hi: nat, w: nat, base: nat, cuts: Registry)
    requires ValidRegistry(cuts) && lo <= hi && w > 0
    ensures EndOf(LspSlices(root, lo, hi, w, base, cuts)) == base + w <==> w == hi - lo + 1 || Uncut(root.symbol, lo, hi, cuts)
  {
    LspEnd(root, lo, hi, w, base, cuts);
    if root.symbol in cuts {
      NoneInside(cuts[root.symbol], lo, hi + 1);
    }
  }

  lemma LspEnd(root: Root, lo: nat, hi: nat, w: nat, base: nat, cuts: Registry)
    requires ValidRegistry(cuts) && lo <= hi && w > 0
    ensures EndOf(LspSlices(root, lo, hi, w, base, cuts))
            == base + if root.symbol in cuts && Between(cuts[root.symbol], lo, hi + 1) != [] then hi - lo + 1 else w
  {
    if root.symbol in cuts && Between(cuts[root.symbol], lo, hi + 1) != [] {
      StretchesEnd(root, lo, hi + 1, base, Between(cuts[root.symbol], lo, hi + 1));
    }
  }
}
