/**
  Ranges of bits of a symbol (include/netlist/DriverBitRange.hpp). A range is
  declared by its two ends in either order; its bits run from the lower end to
  the upper end inclusive.
  */
module BitRanges {
  import opened Wrappers

  datatype BitRange = BitRange(left: int, right: int) {
    function Lower(): int {
      if left <= right then left else right
    }

    function Upper(): int {
      if left <= right then right else left
    }

    /** Ascending order, as every interval-map key needs. */
    function Normalized(): BitRange {
      BitRange(Lower(), Upper())
    }

    predicate Has(b: int) {
      Lower() <= b <= Upper()
    }

    predicate Overlaps(other: BitRange) {
      Lower() <= other.Upper() && other.Lower() <= Upper()
    }

    predicate IsContiguousWith(other: BitRange) {
      Upper() + 1 >= other.Lower() && other.Upper() + 1 >= Lower()
    }

    /** The widened range of two contiguous ranges holds the bits of both and no others. */
    function UnionWith(other: BitRange): (r: BitRange)
      requires IsContiguousWith(other)
      ensures forall b :: r.Has(b) <==> Has(b) || other.Has(b)
    {
      BitRange(if Lower() <= other.Lower() then Lower() else other.Lower(),
               if Upper() >= other.Upper() then Upper() else other.Upper())
    }

    /** The common bits, or nothing when there are none. */
    function Intersection(other: BitRange): (r: Option<BitRange>)
      ensures r.None? <==> !exists b :: Has(b) && other.Has(b)
      ensures r.Some? ==> forall b :: r.value.Has(b) <==> Has(b) && other.Has(b)
    {
      if !Overlaps(other) then
        None
      else
        var lo := if Lower() >= other.Lower() then Lower() else other.Lower();
        var hi := if Upper() <= other.Upper() then Upper() else other.Upper();
        assert Has(lo) && other.Has(lo);
        Some(BitRange(lo, hi))
    }
  }
}
