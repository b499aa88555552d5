/**
  The earlier single-header front end: `std::array<std::size_t, N>` comparison
  operators and the `SerializableClassPaddingIndexes` struct exposing the four
  constants of the layout passes together.

  The padding walk in this header (and in its oldest copy) performs exactly the
  arithmetic of the impl header's passes, so the constants here are the
  PaddingReflection functions; this module states what holds between them.
*/
module LittlePP {
  import opened ArrayUtil
  import opened DataModel
  import opened PaddingReflection

  // ---------------------------------------------------------------------------
  // Array comparison
  // ---------------------------------------------------------------------------

  /** `OperatorDetails<N>::constexpr_for<start, end, 1>(lhs, rhs)`: false at the
      first differing slot, true when the range is exhausted. */
  function ConstexprFor(lhs: seq<nat>, rhs: seq<nat>, start: nat, end: nat): (r: bool)
    requires |lhs| == |rhs| && end <= |lhs|
    ensures r <==> forall k :: start <= k < end ==> lhs[k] == rhs[k]
    decreases end - start
  {
    if start < end then
      if lhs[start] != rhs[start] then false else ConstexprFor(lhs, rhs, start + 1, end)
    else
      true
  }

  /** `operator==`: elementwise for equal lengths, false (the N1, N2 overload) for
      different lengths. It is sequence equality. */
  function ArrayEqual(lhs: seq<nat>, rhs: seq<nat>): (r: bool)
    ensures r <==> lhs == rhs
  {
    if |lhs| == |rhs| then
      var same := ConstexprFor(lhs, rhs, 0, |lhs|);
      assert same ==> lhs == rhs;
      same
    else
      false
  }

  /** `operator!=`: the negated elementwise walk for equal lengths, true for
      different lengths. It is the negation of `operator==`. */
  function ArrayNotEqual(lhs: seq<nat>, rhs: seq<nat>): (r: bool)
    ensures r <==> lhs != rhs
    ensures r == !ArrayEqual(lhs, rhs)
  {
    if |lhs| == |rhs| then
      var same := ConstexprFor(lhs, rhs, 0, |lhs|);
      assert same ==> lhs == rhs;
      !same
    else
      true
  }

  /** The header's own static_asserts on `kEmptyArray`, `kSomeArray`, `kOtherArray`. */
  lemma ComparisonAsserts()
    ensures ArrayEqual([], [])
    ensures ArrayEqual([1, 2], [1, 2])
    ensures ArrayNotEqual([1, 2], [])
    ensures ArrayNotEqual([1, 2], [2, 1])
  {
    assert [1, 2][0] != [2, 1][0];
  }

  // ---------------------------------------------------------------------------
  // The four constants
  // ---------------------------------------------------------------------------

  /** The static members of `SerializableClassPaddingIndexes<Class, Model>`. */
  datatype PaddingIndexes = PaddingIndexes(
    kPaddingLocationsCount: nat,
    kPaddingLocationsPaddingByteCount: seq<nat>,
    kPaddingBytesCount: nat,
    kPaddingByteIndexes: seq<nat>)

  /** The struct's constants for a record under a model. Each array has the
      length its predecessor computed, the total is the sum of the per-location
      counts, every location has at least one byte, and the indexes are strictly
      increasing. */
  function SerializableClassPaddingIndexesOf(m: DataModel, fields: seq<Tag>): (r: PaddingIndexes)
    requires FieldsAligned(m, fields)
    ensures |r.kPaddingLocationsPaddingByteCount| == r.kPaddingLocationsCount
    ensures forall k :: 0 <= k < |r.kPaddingLocationsPaddingByteCount| ==> r.kPaddingLocationsPaddingByteCount[k] >= 1
    ensures r.kPaddingBytesCount == Sum(r.kPaddingLocationsPaddingByteCount)
    ensures |r.kPaddingByteIndexes| == r.kPaddingBytesCount
    ensures StrictlyIncreasing(r.kPaddingByteIndexes)
    ensures r.kPaddingByteIndexes == Flatten(PaddingRuns(m, fields))
  {
    PaddingIndexesIncreasing(m, fields);
    PaddingIndexes(
      SerializableClassPaddingLocations(m, fields),
      SerializableClassPaddingLocationsByteCounts(m, fields),
      SerializableClassPaddingByteCount(m, fields),
      SerializableClassPaddingIndexes(m, fields))
  }
}
