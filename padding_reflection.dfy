/**
  The layout simulator: which byte offsets of a record are padding under a
  data model.

  The record is its ordered list of field types (the reflection that extracts it
  from a C++ struct is not part of this model). The field walk keeps a cursor,
  `current_alignment_filled`; before a misaligned field it inserts internal
  padding, after the last field trailing padding up to the record alignment.
  Because a C++ array's length must be a compile-time constant, the walk is run
  three times: pass 1 counts padding locations, pass 2 fills an array of that many
  byte counts, and pass 3 fills an array of (sum of those counts) byte indexes,
  taking each run's length from pass 2 rather than recomputing it.

  Each pass is modelled as the source's template recursion: a function indexed by
  the field position `start`, threading its accumulators as parameters. The
  reference `RemainingRuns` is the same walk done once, producing the runs
  themselves; every pass is proved to agree with it.
*/
module PaddingReflection {
  import opened DataModel
  import opened ArrayUtil

  /** The simulator divides by every field's alignment. */
  predicate FieldsAligned(m: DataModel, fields: seq<Tag>)
  {
    forall i :: 0 <= i < |fields| ==> GetAlignment(m, fields[i]) > 0
  }

  // ---------------------------------------------------------------------------
  // Record alignment
  // ---------------------------------------------------------------------------

  /** `SerializableClassAlignment::constexpr_for<start, end, 1>(current_alignment)`. */
  function AlignmentFrom(m: DataModel, fields: seq<Tag>, start: nat, current: nat): (r: nat)
    requires start <= |fields|
    ensures current <= r
    decreases |fields| - start
  {
    if start < |fields| then
      var fieldAlignment := GetAlignment(m, fields[start]);
      AlignmentFrom(m, fields, start + 1, if fieldAlignment > current then fieldAlignment else current)
    else
      current
  }

  /** The walk's result bounds every remaining field alignment and is either the
      starting value or one of them. */
  lemma {:induction false} AlignmentFromIsMax(m: DataModel, fields: seq<Tag>, start: nat, current: nat)
    requires start <= |fields|
    ensures forall i :: start <= i < |fields| ==> GetAlignment(m, fields[i]) <= AlignmentFrom(m, fields, start, current)
    ensures AlignmentFrom(m, fields, start, current) == current
         || exists i :: start <= i < |fields| && GetAlignment(m, fields[i]) == AlignmentFrom(m, fields, start, current)
    decreases |fields| - start
  {
    if start < |fields| {
      var fieldAlignment := GetAlignment(m, fields[start]);
      var next := if fieldAlignment > current then fieldAlignment else current;
      AlignmentFromIsMax(m, fields, start + 1, next);
    }
  }

  /** `SerializableClassAlignment::kValue`. */
  function SerializableClassAlignment(m: DataModel, fields: seq<Tag>): nat
  {
    AlignmentFrom(m, fields, 0, 0)
  }

  /** The record alignment is the largest field alignment, and 0 for a record with
      no fields. */
  lemma SerializableClassAlignmentIsMax(m: DataModel, fields: seq<Tag>)
    ensures fields == [] ==> SerializableClassAlignment(m, fields) == 0
    ensures forall i :: 0 <= i < |fields| ==> GetAlignment(m, fields[i]) <= SerializableClassAlignment(m, fields)
    ensures fields != [] ==> exists i :: 0 <= i < |fields| && GetAlignment(m, fields[i]) == SerializableClassAlignment(m, fields)
  {
    AlignmentFromIsMax(m, fields, 0, 0);
    if fields != [] && SerializableClassAlignment(m, fields) == 0 {
      assert GetAlignment(m, fields[0]) == 0;
    }
  }

  /** With positive field alignments, only the empty record has alignment 0. */
  lemma AlignmentPositive(m: DataModel, fields: seq<Tag>)
    requires FieldsAligned(m, fields)
    ensures SerializableClassAlignment(m, fields) > 0 <==> fields != []
  {
    SerializableClassAlignmentIsMax(m, fields);
    if fields != [] {
      assert GetAlignment(m, fields[0]) <= SerializableClassAlignment(m, fields);
    }
  }

  // ---------------------------------------------------------------------------
  // The padding amounts
  // ---------------------------------------------------------------------------

  /** The internal padding the source inserts before a field whose alignment the
      cursor misses: `cursor > align ? cursor % align : align - cursor`. This is
      not the usual `align - cursor % align` (see InternalPaddingAligns). */
  function InternalPadding(cursor: nat, alignment: nat): (r: nat)
    requires alignment > 0 && cursor % alignment != 0
    ensures 0 < r < alignment
    ensures cursor < alignment ==> cursor + r == alignment
    ensures cursor > alignment ==> r == cursor % alignment
  {
    if cursor > alignment then cursor % alignment else alignment - cursor
  }

  /** The trailing padding: `align - cursor % align`. */
  function TrailingPadding(cursor: nat, alignment: nat): (r: nat)
    requires alignment > 0 && cursor % alignment != 0
    ensures 0 < r < alignment
    ensures (cursor + r) % alignment == 0
  {
    ModAddComplement(cursor, alignment);
    alignment - cursor % alignment
  }

  /** cursor + (a - cursor % a) is the next multiple of a. */
  lemma ModAddComplement(cursor: nat, a: nat)
    requires a > 0 && cursor % a != 0
    ensures (cursor + (a - cursor % a)) % a == 0
  {
    var q := cursor / a;
    assert cursor == q * a + cursor % a;
    assert cursor + (a - cursor % a) == (q + 1) * a;
    MulMod(q + 1, a);
  }

  /** A multiple of a leaves no remainder. */
  lemma MulMod(k: nat, a: nat)
    requires a > 0
    ensures (k * a) % a == 0
  {
    var x := k * a;
    assert x == k * a + 0;
    DivModUnique(x, a, k, 0);
  }

  /** Euclidean division is unique. */
  lemma DivModUnique(x: nat, a: nat, q: nat, r: nat)
    requires a > 0 && r < a && x == q * a + r
    ensures x / a == q && x % a == r
  {
    var q', r' := x / a, x % a;
    var k: int := q - q';
    assert k * a == r' - r;
    MultipleBounds(k, a);
  }

  /** A non-zero multiple of a is at least a away from zero. */
  lemma MultipleBounds(k: int, a: nat)
    ensures k >= 1 ==> k * a >= a
    ensures k <= -1 ==> k * a + a <= 0
  {
    if k >= 1 {
      var j: nat := k - 1;
      assert k * a == j * a + a;
    } else if k <= -1 {
      var j: nat := -k - 1;
      assert k * a == -(j * a) - a;
    }
  }

  /** The quirk: the field placed after internal padding is aligned exactly when
      the cursor was below the alignment or the remainder is half the alignment.
      Otherwise (cursor 5, alignment 4: 1 byte, field at offset 6) it is not. */
  lemma InternalPaddingAligns(cursor: nat, alignment: nat)
    requires alignment > 0 && cursor % alignment != 0
    ensures (cursor + InternalPadding(cursor, alignment)) % alignment == 0
        <==> cursor < alignment || 2 * (cursor % alignment) == alignment
  {
    var rem := cursor % alignment;
    var q := cursor / alignment;
    assert cursor == q * alignment + rem;
    if cursor < alignment {
      MulMod(1, alignment);
    } else {
      var p := InternalPadding(cursor, alignment);
      assert p == rem;
      if 2 * rem == alignment {
        assert cursor + p == (q + 1) * alignment;
        MulMod(q + 1, alignment);
      } else if 2 * rem < alignment {
        assert cursor + p == q * alignment + 2 * rem;
        DivModUnique(cursor + p, alignment, q, 2 * rem);
      } else {
        assert cursor + p == (q + 1) * alignment + (2 * rem - alignment);
        DivModUnique(cursor + p, alignment, q + 1, 2 * rem - alignment);
      }
    }
  }

  /** It agrees with the usual amount under the same condition, which always holds
      for alignments 1 and 2. */
  lemma InternalPaddingIsUsualWhen(cursor: nat, alignment: nat)
    requires alignment > 0 && cursor % alignment != 0
    requires cursor < alignment || 2 * (cursor % alignment) == alignment
    ensures InternalPadding(cursor, alignment) == alignment - cursor % alignment
  {
    if cursor < alignment {
      DivModUnique(cursor, alignment, 0, cursor);
    }
  }

  /** For alignments 1 and 2 the quirk never shows. */
  lemma SmallAlignmentAlwaysAgrees(cursor: nat, alignment: nat)
    requires 0 < alignment <= 2 && cursor % alignment != 0
    ensures cursor < alignment || 2 * (cursor % alignment) == alignment
  {
  }

  // ---------------------------------------------------------------------------
  // The reference walk: one pass producing the runs
  // ---------------------------------------------------------------------------

  /** One maximal run of padding bytes: `length` bytes from `offset`. */
  datatype Run = Run(offset: nat, length: nat)

  /** The trailing run, when the end cursor misses the record alignment. */
  function TrailingRuns(structAlignment: nat, cursor: nat): seq<Run>
  {
    if structAlignment > 0 && cursor % structAlignment != 0 then
      [Run(cursor, TrailingPadding(cursor, structAlignment))]
    else
      []
  }

  /** The runs the walk inserts from field `start` on, the cursor standing at
      `cursor`, followed by the trailing run. */
  function RemainingRuns(m: DataModel, fields: seq<Tag>, start: nat, cursor: nat): seq<Run>
    requires start <= |fields| && FieldsAligned(m, fields)
    decreases |fields| - start
  {
    if start < |fields| then
      var size := GetSize(m, fields[start]);
      var alignment := GetAlignment(m, fields[start]);
      if cursor % alignment != 0 then
        var padding := InternalPadding(cursor, alignment);
        [Run(cursor, padding)] + RemainingRuns(m, fields, start + 1, cursor + padding + size)
      else
        RemainingRuns(m, fields, start + 1, cursor + size)
    else
      TrailingRuns(SerializableClassAlignment(m, fields), cursor)
  }

  /** The cursor after the last field, before trailing padding. */
  function EndCursor(m: DataModel, fields: seq<Tag>, start: nat, cursor: nat): (r: nat)
    requires start <= |fields| && FieldsAligned(m, fields)
    ensures cursor <= r
    decreases |fields| - start
  {
    if start < |fields| then
      var size := GetSize(m, fields[start]);
      var alignment := GetAlignment(m, fields[start]);
      if cursor % alignment != 0 then
        EndCursor(m, fields, start + 1, cursor + InternalPadding(cursor, alignment) + size)
      else
        EndCursor(m, fields, start + 1, cursor + size)
    else
      cursor
  }

  /** All padding runs of the record. */
  function PaddingRuns(m: DataModel, fields: seq<Tag>): seq<Run>
    requires FieldsAligned(m, fields)
  {
    RemainingRuns(m, fields, 0, 0)
  }

  /** The record's size: the end cursor plus trailing padding. */
  function RecordSize(m: DataModel, fields: seq<Tag>): nat
    requires FieldsAligned(m, fields)
  {
    var end := EndCursor(m, fields, 0, 0);
    var structAlignment := SerializableClassAlignment(m, fields);
    if structAlignment > 0 && end % structAlignment != 0 then end + TrailingPadding(end, structAlignment) else end
  }

  /** Each run's length, run after run. */
  function RunLengths(runs: seq<Run>): seq<nat>
  {
    if runs == [] then [] else [runs[0].length] + RunLengths(runs[1..])
  }

  /** Each run's byte indexes, run after run. */
  function Flatten(runs: seq<Run>): seq<nat>
  {
    if runs == [] then [] else Range(runs[0].offset, runs[0].length) + Flatten(runs[1..])
  }

  /** One length per run, in run order. */
  lemma {:induction false} RunLengthsLength(runs: seq<Run>)
    ensures |RunLengths(runs)| == |runs|
    ensures forall k :: 0 <= k < |runs| ==> RunLengths(runs)[k] == runs[k].length
  {
    if runs != [] {
      RunLengthsLength(runs[1..]);
    }
  }

  /** The number of flattened indexes is the sum of the run lengths. */
  lemma {:induction false} FlattenLength(runs: seq<Run>)
    ensures |Flatten(runs)| == Sum(RunLengths(runs))
  {
    if runs != [] {
      FlattenLength(runs[1..]);
    }
  }

  // ---- properties of the reference walk --------------------------------------

  /** Every emitted run has at least one byte. */
  lemma {:induction false} RunsNonEmpty(m: DataModel, fields: seq<Tag>, start: nat, cursor: nat)
    requires start <= |fields| && FieldsAligned(m, fields)
    ensures forall k :: 0 <= k < |RemainingRuns(m, fields, start, cursor)| ==>
              RemainingRuns(m, fields, start, cursor)[k].length >= 1
    decreases |fields| - start
  {
    if start < |fields| {
      var size := GetSize(m, fields[start]);
      var alignment := GetAlignment(m, fields[start]);
      if cursor % alignment != 0 {
        RunsNonEmpty(m, fields, start + 1, cursor + InternalPadding(cursor, alignment) + size);
      } else {
        RunsNonEmpty(m, fields, start + 1, cursor + size);
      }
    }
  }

  /** Runs start at or after the cursor, come in increasing order and never
      overlap. */
  predicate RunsOrderedFrom(runs: seq<Run>, cursor: nat)
  {
    (forall k :: 0 <= k < |runs| ==> cursor <= runs[k].offset) &&
    (forall k :: 0 <= k < |runs| - 1 ==> runs[k].offset + runs[k].length <= runs[k + 1].offset)
  }

  /** The reference walk keeps its runs ordered. */
  lemma {:induction false} RunsOrdered(m: DataModel, fields: seq<Tag>, start: nat, cursor: nat)
    requires start <= |fields| && FieldsAligned(m, fields)
    ensures RunsOrderedFrom(RemainingRuns(m, fields, start, cursor), cursor)
    decreases |fields| - start
  {
    if start < |fields| {
      var size := GetSize(m, fields[start]);
      var alignment := GetAlignment(m, fields[start]);
      if cursor % alignment != 0 {
        var padding := InternalPadding(cursor, alignment);
        var next := cursor + padding + size;
        RunsOrdered(m, fields, start + 1, next);
        var rest := RemainingRuns(m, fields, start + 1, next);
        var runs := [Run(cursor, padding)] + rest;
        assert runs == RemainingRuns(m, fields, start, cursor);
        forall k | 0 <= k < |runs| - 1
          ensures runs[k].offset + runs[k].length <= runs[k + 1].offset
        {
          if k > 0 {
            assert runs[k] == rest[k - 1] && runs[k + 1] == rest[k];
          }
        }
      } else {
        RunsOrdered(m, fields, start + 1, cursor + size);
      }
    }
  }

  /** A sorted-without-duplicates sequence of byte indexes. */
  predicate StrictlyIncreasing(s: seq<nat>)
  {
    forall i, j :: 0 <= i < j < |s| ==> s[i] < s[j]
  }

  /** Flattening ordered runs gives strictly increasing indexes, all at or after
      the first run's offset. */
  lemma {:induction false} FlattenIncreasing(runs: seq<Run>, cursor: nat)
    requires RunsOrderedFrom(runs, cursor)
    ensures StrictlyIncreasing(Flatten(runs))
    ensures forall k :: 0 <= k < |Flatten(runs)| ==> cursor <= Flatten(runs)[k]
  {
    if runs != [] {
      var head := Range(runs[0].offset, runs[0].length);
      var tailStart := runs[0].offset + runs[0].length;
      assert RunsOrderedFrom(runs[1..], tailStart) by {
        forall k | 0 <= k < |runs[1..]|
          ensures tailStart <= runs[1..][k].offset
        {
          OrderedTransitive(runs, 0, k + 1);
        }
        forall k | 0 <= k < |runs[1..]| - 1
          ensures runs[1..][k].offset + runs[1..][k].length <= runs[1..][k + 1].offset
        {
          assert runs[1..][k] == runs[k + 1] && runs[1..][k + 1] == runs[k + 2];
        }
      }
      FlattenIncreasing(runs[1..], tailStart);
      var tail := Flatten(runs[1..]);
      var all := head + tail;
      assert all == Flatten(runs);
      forall i, j | 0 <= i < j < |all| ensures all[i] < all[j] {
        if j < |head| {
        } else if i < |head| {
          assert all[i] == runs[0].offset + i;
          assert all[j] == tail[j - |head|];
        } else {
          assert all[i] == tail[i - |head|] && all[j] == tail[j - |head|];
        }
      }
      forall k | 0 <= k < |all| ensures cursor <= all[k] {
        if k >= |head| {
          assert all[k] == tail[k - |head|];
        }
      }
    }
  }

  /** Between non-overlapping consecutive runs, every later run starts past the
      end of every earlier one. */
  lemma {:induction false} OrderedTransitive(runs: seq<Run>, i: nat, j: nat)
    requires forall k :: 0 <= k < |runs| - 1 ==> runs[k].offset + runs[k].length <= runs[k + 1].offset
    requires i < j < |runs|
    ensures runs[i].offset + runs[i].length <= runs[j].offset
    decreases j - i
  {
    if j > i + 1 {
      OrderedTransitive(runs, i, j - 1);
    }
  }

  /** Trailing padding: the record's last run starts at the end cursor exactly
      when the record alignment is positive and the end cursor misses it, and
      then it is the trailing padding; afterwards the record size is a multiple
      of the record alignment. */
  lemma TrailingRunLaw(m: DataModel, fields: seq<Tag>)
    requires FieldsAligned(m, fields)
    ensures var end := EndCursor(m, fields, 0, 0);
            var structAlignment := SerializableClassAlignment(m, fields);
            var runs := PaddingRuns(m, fields);
            (|runs| > 0 && runs[|runs| - 1].offset == end) <==> (structAlignment > 0 && end % structAlignment != 0)
    ensures var end := EndCursor(m, fields, 0, 0);
            var structAlignment := SerializableClassAlignment(m, fields);
            var runs := PaddingRuns(m, fields);
            structAlignment > 0 && end % structAlignment != 0 ==>
              |runs| > 0 && runs[|runs| - 1] == Run(end, TrailingPadding(end, structAlignment))
    ensures SerializableClassAlignment(m, fields) > 0 ==>
              RecordSize(m, fields) % SerializableClassAlignment(m, fields) == 0
    ensures RecordSize(m, fields) - EndCursor(m, fields, 0, 0) < SerializableClassAlignment(m, fields) || fields == []
  {
    AlignmentPositive(m, fields);
    var end := EndCursor(m, fields, 0, 0);
    var structAlignment := SerializableClassAlignment(m, fields);
    var runs := PaddingRuns(m, fields);
    RunsEndWithTrailing(m, fields, 0, 0);
    RunsNonEmpty(m, fields, 0, 0);
    var internal :| && runs == internal + TrailingRuns(structAlignment, end)
                    && InternalBetween(internal, 0, end);
    if !(structAlignment > 0 && end % structAlignment != 0) && |runs| > 0 {
      assert runs == internal;
      assert runs[|runs| - 1].length >= 1;
    }
  }

  /** The runs are the internal runs in field order followed by the trailing run:
      every internal run lies between the cursor and the end cursor, so the
      trailing run is the only one at or past the end cursor. */
  lemma {:induction false} RunsEndWithTrailing(m: DataModel, fields: seq<Tag>, start: nat, cursor: nat)
    requires start <= |fields| && FieldsAligned(m, fields)
    ensures exists internal: seq<Run> ::
              && RemainingRuns(m, fields, start, cursor)
                 == internal + TrailingRuns(SerializableClassAlignment(m, fields), EndCursor(m, fields, start, cursor))
              && InternalBetween(internal, cursor, EndCursor(m, fields, start, cursor))
    decreases |fields| - start
  {
    var end := EndCursor(m, fields, start, cursor);
    var trailing := TrailingRuns(SerializableClassAlignment(m, fields), end);
    if start < |fields| {
      var size := GetSize(m, fields[start]);
      var alignment := GetAlignment(m, fields[start]);
      if cursor % alignment != 0 {
        var padding := InternalPadding(cursor, alignment);
        var next := cursor + padding + size;
        RunsEndWithTrailing(m, fields, start + 1, next);
        var internal :| && RemainingRuns(m, fields, start + 1, next) == internal + trailing
                        && InternalBetween(internal, next, end);
        assert RemainingRuns(m, fields, start, cursor) == ([Run(cursor, padding)] + internal) + trailing;
        InternalBetweenCons(Run(cursor, padding), internal, cursor, next, end);
      } else {
        RunsEndWithTrailing(m, fields, start + 1, cursor + size);
        var internal :| && RemainingRuns(m, fields, start + 1, cursor + size) == internal + trailing
                        && InternalBetween(internal, cursor + size, end);
        assert InternalBetween(internal, cursor, end);
      }
    } else {
      assert RemainingRuns(m, fields, start, cursor) == [] + trailing;
      assert InternalBetween([], cursor, end);
    }
  }

  /** Every run starts at or after `low` and ends at or before `high`. */
  predicate InternalBetween(runs: seq<Run>, low: nat, high: nat)
  {
    forall k :: 0 <= k < |runs| ==> low <= runs[k].offset && runs[k].offset + runs[k].length <= high
  }

  /** A run placed before runs that start at or after its end keeps the bounds. */
  lemma InternalBetweenCons(run: Run, rest: seq<Run>, low: nat, next: nat, high: nat)
    requires low <= run.offset && run.offset + run.length <= next && next <= high
    requires InternalBetween(rest, next, high)
    ensures InternalBetween([run] + rest, low, high)
  {
    assert forall k :: 1 <= k < |[run] + rest| ==> ([run] + rest)[k] == rest[k - 1];
  }

  /** An empty record has no padding at all. */
  lemma EmptyRecordHasNoPadding(m: DataModel)
    ensures SerializableClassAlignment(m, []) == 0
    ensures PaddingRuns(m, []) == []
    ensures RecordSize(m, []) == 0
    ensures SerializableClassPaddingLocations(m, []) == 0
    ensures SerializableClassPaddingByteCount(m, []) == 0
    ensures SerializableClassPaddingIndexes(m, []) == []
  {
  }

  // ---------------------------------------------------------------------------
  // Pass 1: SerializableClassPaddingLocations
  // ---------------------------------------------------------------------------

  /** `padding_locations_count<start, end, 1>(return_value, current_alignment_filled)`. */
  function PaddingLocationsCountFrom(m: DataModel, fields: seq<Tag>, start: nat, count: nat, cursor: nat): nat
    requires start <= |fields| && FieldsAligned(m, fields)
    decreases |fields| - start
  {
    if start < |fields| then
      var size := GetSize(m, fields[start]);
      var alignment := GetAlignment(m, fields[start]);
      if cursor % alignment != 0 then
        PaddingLocationsCountFrom(m, fields, start + 1, count + 1, cursor + InternalPadding(cursor, alignment) + size)
      else
        PaddingLocationsCountFrom(m, fields, start + 1, count, cursor + size)
    else
      var structAlignment := SerializableClassAlignment(m, fields);
      if structAlignment > 0 && cursor % structAlignment != 0 then count + 1 else count
  }

  /** Pass 1 counts the runs of the reference walk. */
  lemma {:induction false} PaddingLocationsCountFromIsRunCount(m: DataModel, fields: seq<Tag>, start: nat, count: nat, cursor: nat)
    requires start <= |fields| && FieldsAligned(m, fields)
    ensures PaddingLocationsCountFrom(m, fields, start, count, cursor) == count + |RemainingRuns(m, fields, start, cursor)|
    decreases |fields| - start
  {
    if start < |fields| {
      var size := GetSize(m, fields[start]);
      var alignment := GetAlignment(m, fields[start]);
      if cursor % alignment != 0 {
        PaddingLocationsCountFromIsRunCount(m, fields, start + 1, count + 1, cursor + InternalPadding(cursor, alignment) + size);
      } else {
        PaddingLocationsCountFromIsRunCount(m, fields, start + 1, count, cursor + size);
      }
    }
  }

  /** `SerializableClassPaddingLocations::kValue`: the number of padding runs,
      trailing run included. */
  function SerializableClassPaddingLocations(m: DataModel, fields: seq<Tag>): (r: nat)
    requires FieldsAligned(m, fields)
    ensures r == |PaddingRuns(m, fields)|
  {
    PaddingLocationsCountFromIsRunCount(m, fields, 0, 0, 0);
    PaddingLocationsCountFrom(m, fields, 0, 0, 0)
  }

  // ---------------------------------------------------------------------------
  // Pass 2: SerializableClassPaddingLocationsByteCounts
  // ---------------------------------------------------------------------------

  /** `padding_locations_byte_counts<start, end, 1, append_index>(locations_byte_counts,
      current_alignment_filled)`. */
  function ByteCountsFrom(m: DataModel, fields: seq<Tag>, start: nat, appendIndex: nat,
                          byteCounts: seq<nat>, cursor: nat): seq<nat>
    requires start <= |fields| && FieldsAligned(m, fields)
    decreases |fields| - start
  {
    if start < |fields| then
      var size := GetSize(m, fields[start]);
      var alignment := GetAlignment(m, fields[start]);
      if cursor % alignment != 0 then
        var paddingBytes := InternalPadding(cursor, alignment);
        ByteCountsFrom(m, fields, start + 1, appendIndex + 1,
                       SfinaeSet(byteCounts, appendIndex, paddingBytes), cursor + paddingBytes + size)
      else
        ByteCountsFrom(m, fields, start + 1, appendIndex, byteCounts, cursor + size)
    else
      var structAlignment := SerializableClassAlignment(m, fields);
      if structAlignment > 0 && cursor % structAlignment != 0 then
        SfinaeSet(byteCounts, appendIndex, structAlignment - cursor % structAlignment)
      else
        byteCounts
  }

  /** Pass 2 writes the run lengths of the reference walk, in order, from its
      append index on. */
  lemma {:induction false} ByteCountsFromWritesRunLengths(m: DataModel, fields: seq<Tag>, start: nat, appendIndex: nat,
                                                          byteCounts: seq<nat>, cursor: nat)
    requires start <= |fields| && FieldsAligned(m, fields)
    ensures ByteCountsFrom(m, fields, start, appendIndex, byteCounts, cursor)
         == WriteFrom(byteCounts, appendIndex, RunLengths(RemainingRuns(m, fields, start, cursor)))
    decreases |fields| - start
  {
    var runs := RemainingRuns(m, fields, start, cursor);
    if start < |fields| {
      var size := GetSize(m, fields[start]);
      var alignment := GetAlignment(m, fields[start]);
      if cursor % alignment != 0 {
        var paddingBytes := InternalPadding(cursor, alignment);
        var next := cursor + paddingBytes + size;
        ByteCountsFromWritesRunLengths(m, fields, start + 1, appendIndex + 1,
                                       SfinaeSet(byteCounts, appendIndex, paddingBytes), next);
        assert runs[1..] == RemainingRuns(m, fields, start + 1, next);
        assert RunLengths(runs) == [paddingBytes] + RunLengths(RemainingRuns(m, fields, start + 1, next));
      } else {
        ByteCountsFromWritesRunLengths(m, fields, start + 1, appendIndex, byteCounts, cursor + size);
      }
    } else {
      var structAlignment := SerializableClassAlignment(m, fields);
      if structAlignment > 0 && cursor % structAlignment != 0 {
        assert runs == [Run(cursor, TrailingPadding(cursor, structAlignment))];
        assert runs[1..] == [];
        var lengths := RunLengths(runs);
        assert lengths == [structAlignment - cursor % structAlignment] + RunLengths([]);
        assert WriteFrom(byteCounts, appendIndex, lengths)
            == WriteFrom(SfinaeSet(byteCounts, appendIndex, lengths[0]), appendIndex + 1, lengths[1..]);
      }
    }
  }

  /** `SerializableClassPaddingLocationsByteCounts::kValue`: one entry per padding
      location, each the length of that run; every slot is written (so none is left
      at its initial 0) because pass 1 sized the array exactly. */
  function SerializableClassPaddingLocationsByteCounts(m: DataModel, fields: seq<Tag>): (r: seq<nat>)
    requires FieldsAligned(m, fields)
    ensures |r| == SerializableClassPaddingLocations(m, fields)
    ensures r == RunLengths(PaddingRuns(m, fields))
    ensures forall k :: 0 <= k < |r| ==> r[k] >= 1
  {
    var count := SerializableClassPaddingLocations(m, fields);
    var runs := PaddingRuns(m, fields);
    ByteCountsFromWritesRunLengths(m, fields, 0, 0, Zeros(count), 0);
    RunLengthsLength(runs);
    WriteFromZerosExact(RunLengths(runs));
    RunsNonEmpty(m, fields, 0, 0);
    ByteCountsFrom(m, fields, 0, 0, Zeros(count), 0)
  }

  // ---------------------------------------------------------------------------
  // Pass 2.5: SerializableClassPaddingByteCount
  // ---------------------------------------------------------------------------

  /** `padding_bytes_count<start, end, 1>(return_value)`. */
  function PaddingBytesCountFrom(byteCounts: seq<nat>, start: nat, end: nat, total: nat): nat
    decreases end - start
  {
    if start < end then PaddingBytesCountFrom(byteCounts, start + 1, end, total + SfinaeGet(byteCounts, start))
    else total
  }

  /** Pass 2.5 adds up the byte counts from `start` on. */
  lemma {:induction false} PaddingBytesCountFromIsSum(byteCounts: seq<nat>, start: nat, total: nat)
    requires start <= |byteCounts|
    ensures PaddingBytesCountFrom(byteCounts, start, |byteCounts|, total) == total + Sum(byteCounts[start..])
    decreases |byteCounts| - start
  {
    if start < |byteCounts| {
      PaddingBytesCountFromIsSum(byteCounts, start + 1, total + byteCounts[start]);
      assert byteCounts[start..][1..] == byteCounts[start + 1..];
    }
  }

  /** `SerializableClassPaddingByteCount::kValue`: the sum of the per-location byte
      counts, which is the total number of padding byte indexes. */
  function SerializableClassPaddingByteCount(m: DataModel, fields: seq<Tag>): (r: nat)
    requires FieldsAligned(m, fields)
    ensures r == Sum(SerializableClassPaddingLocationsByteCounts(m, fields))
    ensures r == |Flatten(PaddingRuns(m, fields))|
  {
    var byteCounts := SerializableClassPaddingLocationsByteCounts(m, fields);
    PaddingBytesCountFromIsSum(byteCounts, 0, 0);
    assert byteCounts[0..] == byteCounts;
    FlattenLength(PaddingRuns(m, fields));
    PaddingBytesCountFrom(byteCounts, 0, SerializableClassPaddingLocations(m, fields), 0)
  }

  // ---------------------------------------------------------------------------
  // Pass 3: SerializableClassPaddingIndexes
  // ---------------------------------------------------------------------------

  /** `append_helper_padding_byte_indexes<start, end, 1, append_index>(padding_byte_indexes,
      first_padding_byte_index)`: writes end-start consecutive indexes. */
  function AppendHelper(indexes: seq<nat>, start: nat, end: nat, appendIndex: nat, firstIndex: nat): seq<nat>
    decreases end - start
  {
    if start < end then
      AppendHelper(SfinaeSet(indexes, appendIndex, firstIndex), start + 1, end, appendIndex + 1, firstIndex + 1)
    else
      indexes
  }

  /** The helper writes the consecutive indexes from `firstIndex` on. */
  lemma {:induction false} AppendHelperWritesRange(indexes: seq<nat>, start: nat, end: nat, appendIndex: nat, firstIndex: nat)
    requires start <= end
    ensures AppendHelper(indexes, start, end, appendIndex, firstIndex)
         == WriteFrom(indexes, appendIndex, Range(firstIndex, end - start))
    decreases end - start
  {
    if start < end {
      AppendHelperWritesRange(SfinaeSet(indexes, appendIndex, firstIndex), start + 1, end, appendIndex + 1, firstIndex + 1);
      assert Range(firstIndex, end - start)[1..] == Range(firstIndex + 1, end - (start + 1));
    }
  }

  /** `padding_byte_indexes<start, end, 1, count_index, append_index>(return_value,
      current_alignment_filled)`; `byteCounts` is pass 2's array, read with
      sfinae_get at the current location index. */
  function IndexesFrom(m: DataModel, fields: seq<Tag>, byteCounts: seq<nat>, start: nat, countIndex: nat,
                       appendIndex: nat, indexes: seq<nat>, cursor: nat): seq<nat>
    requires start <= |fields| && FieldsAligned(m, fields)
    decreases |fields| - start
  {
    var paddingBytes := SfinaeGet(byteCounts, countIndex);
    if start < |fields| then
      var size := GetSize(m, fields[start]);
      var alignment := GetAlignment(m, fields[start]);
      if cursor % alignment != 0 then
        IndexesFrom(m, fields, byteCounts, start + 1, countIndex + 1, appendIndex + paddingBytes,
                    AppendHelper(indexes, 0, paddingBytes, appendIndex, cursor), cursor + paddingBytes + size)
      else
        IndexesFrom(m, fields, byteCounts, start + 1, countIndex, appendIndex, indexes, cursor + size)
    else
      var structAlignment := SerializableClassAlignment(m, fields);
      if structAlignment > 0 && cursor % structAlignment != 0 then
        AppendHelper(indexes, 0, paddingBytes, appendIndex, cursor)
      else
        indexes
  }

  /** Pass 2's array, from slot `countIndex` on, holds the lengths of the runs that
      remain. */
  predicate CountsAhead(byteCounts: seq<nat>, countIndex: nat, runs: seq<Run>)
  {
    countIndex + |runs| <= |byteCounts| &&
    forall k :: 0 <= k < |runs| ==> byteCounts[countIndex + k] == runs[k].length
  }

  /** Pass 3 writes the flattened runs of the reference walk from its append
      index on, given pass 2's lengths for the runs still ahead. */
  lemma {:induction false} IndexesFromWritesFlatten(m: DataModel, fields: seq<Tag>, byteCounts: seq<nat>, start: nat,
                                                    countIndex: nat, appendIndex: nat, indexes: seq<nat>, cursor: nat)
    requires start <= |fields| && FieldsAligned(m, fields)
    requires CountsAhead(byteCounts, countIndex, RemainingRuns(m, fields, start, cursor))
    ensures IndexesFrom(m, fields, byteCounts, start, countIndex, appendIndex, indexes, cursor)
         == WriteFrom(indexes, appendIndex, Flatten(RemainingRuns(m, fields, start, cursor)))
    decreases |fields| - start, 1
  {
    if start < |fields| && cursor % GetAlignment(m, fields[start]) != 0 {
      IndexesFromWritesFlattenPad(m, fields, byteCounts, start, countIndex, appendIndex, indexes, cursor);
    } else if start < |fields| {
      IndexesFromSkips(m, fields, byteCounts, start, countIndex, appendIndex, indexes, cursor);
      IndexesFromWritesFlatten(m, fields, byteCounts, start + 1, countIndex, appendIndex, indexes,
                               cursor + GetSize(m, fields[start]));
    } else {
      IndexesFromEnds(m, fields, byteCounts, start, countIndex, appendIndex, indexes, cursor);
    }
  }

  /** `IndexesFromWritesFlatten` at a field the cursor misses: one run of
      internal padding, then the rest of the walk. */
  lemma {:induction false} IndexesFromWritesFlattenPad(m: DataModel, fields: seq<Tag>, byteCounts: seq<nat>, start: nat,
                                                       countIndex: nat, appendIndex: nat, indexes: seq<nat>, cursor: nat)
    requires start < |fields| && FieldsAligned(m, fields)
    requires cursor % GetAlignment(m, fields[start]) != 0
    requires CountsAhead(byteCounts, countIndex, RemainingRuns(m, fields, start, cursor))
    ensures IndexesFrom(m, fields, byteCounts, start, countIndex, appendIndex, indexes, cursor)
         == WriteFrom(indexes, appendIndex, Flatten(RemainingRuns(m, fields, start, cursor)))
    decreases |fields| - start, 0
  {
    var padding := InternalPadding(cursor, GetAlignment(m, fields[start]));
    var next := cursor + padding + GetSize(m, fields[start]);
    var written := AppendHelper(indexes, 0, padding, appendIndex, cursor);
    CountsAheadPad(m, fields, byteCounts, start, countIndex, cursor);
    IndexesFromWritesFlatten(m, fields, byteCounts, start + 1, countIndex + 1, appendIndex + padding, written, next);
    IndexesFromPadStep(m, fields, byteCounts, start, countIndex, appendIndex, indexes, cursor, padding);
  }

  /** The step of `IndexesFromWritesFlattenPad`: once pass 3 writes the rest of
      the walk's runs after this run's indexes, it writes all of them. */
  lemma IndexesFromPadStep(m: DataModel, fields: seq<Tag>, byteCounts: seq<nat>, start: nat,
                           countIndex: nat, appendIndex: nat, indexes: seq<nat>, cursor: nat, padding: nat)
    requires start < |fields| && FieldsAligned(m, fields)
    requires cursor % GetAlignment(m, fields[start]) != 0
    requires padding == InternalPadding(cursor, GetAlignment(m, fields[start]))
    requires SfinaeGet(byteCounts, countIndex) == padding
    requires IndexesFrom(m, fields, byteCounts, start + 1, countIndex + 1, appendIndex + padding,
                         AppendHelper(indexes, 0, padding, appendIndex, cursor), cursor + padding + GetSize(m, fields[start]))
          == WriteFrom(AppendHelper(indexes, 0, padding, appendIndex, cursor), appendIndex + padding,
                       Flatten(RemainingRuns(m, fields, start + 1, cursor + padding + GetSize(m, fields[start]))))
    ensures IndexesFrom(m, fields, byteCounts, start, countIndex, appendIndex, indexes, cursor)
         == WriteFrom(indexes, appendIndex, Flatten(RemainingRuns(m, fields, start, cursor)))
  {
    IndexesFromPads(m, fields, byteCounts, start, countIndex, appendIndex, indexes, cursor, padding);
    WriteRunThenRest(indexes, appendIndex, Run(cursor, padding),
                     RemainingRuns(m, fields, start + 1, cursor + padding + GetSize(m, fields[start])));
  }

  /** One step of pass 3 and of the walk at a field the cursor misses. */
  lemma IndexesFromPads(m: DataModel, fields: seq<Tag>, byteCounts: seq<nat>, start: nat,
                        countIndex: nat, appendIndex: nat, indexes: seq<nat>, cursor: nat, padding: nat)
    requires start < |fields| && FieldsAligned(m, fields)
    requires cursor % GetAlignment(m, fields[start]) != 0
    requires padding == InternalPadding(cursor, GetAlignment(m, fields[start]))
    requires SfinaeGet(byteCounts, countIndex) == padding
    ensures IndexesFrom(m, fields, byteCounts, start, countIndex, appendIndex, indexes, cursor)
         == IndexesFrom(m, fields, byteCounts, start + 1, countIndex + 1, appendIndex + padding,
                        AppendHelper(indexes, 0, padding, appendIndex, cursor),
                        cursor + padding + GetSize(m, fields[start]))
    ensures RemainingRuns(m, fields, start, cursor)
         == [Run(cursor, padding)] + RemainingRuns(m, fields, start + 1, cursor + padding + GetSize(m, fields[start]))
  {
  }

  /** One step of pass 3 and of the walk at a field the cursor meets. */
  lemma IndexesFromSkips(m: DataModel, fields: seq<Tag>, byteCounts: seq<nat>, start: nat,
                         countIndex: nat, appendIndex: nat, indexes: seq<nat>, cursor: nat)
    requires start < |fields| && FieldsAligned(m, fields)
    requires cursor % GetAlignment(m, fields[start]) == 0
    ensures IndexesFrom(m, fields, byteCounts, start, countIndex, appendIndex, indexes, cursor)
         == IndexesFrom(m, fields, byteCounts, start + 1, countIndex, appendIndex, indexes,
                        cursor + GetSize(m, fields[start]))
    ensures RemainingRuns(m, fields, start, cursor)
         == RemainingRuns(m, fields, start + 1, cursor + GetSize(m, fields[start]))
  {
  }

  /** After the last field, pass 3 writes the trailing run's indexes, which is
      all the walk still has. */
  lemma IndexesFromEnds(m: DataModel, fields: seq<Tag>, byteCounts: seq<nat>, start: nat,
                        countIndex: nat, appendIndex: nat, indexes: seq<nat>, cursor: nat)
    requires start == |fields| && FieldsAligned(m, fields)
    requires CountsAhead(byteCounts, countIndex, RemainingRuns(m, fields, start, cursor))
    ensures IndexesFrom(m, fields, byteCounts, start, countIndex, appendIndex, indexes, cursor)
         == WriteFrom(indexes, appendIndex, Flatten(RemainingRuns(m, fields, start, cursor)))
  {
    var structAlignment := SerializableClassAlignment(m, fields);
    if structAlignment > 0 && cursor % structAlignment != 0 {
      var run := Run(cursor, TrailingPadding(cursor, structAlignment));
      assert SfinaeGet(byteCounts, countIndex) == run.length by {
        assert byteCounts[countIndex + 0] == [run][0].length;
      }
      WriteRunThenRest(indexes, appendIndex, run, []);
      assert [run] + [] == [run];
    }
  }

  /** At a field the cursor misses, pass 2's slot holds the run's length and the
      following slots hold the lengths of the runs after it. */
  lemma CountsAheadPad(m: DataModel, fields: seq<Tag>, byteCounts: seq<nat>, start: nat, countIndex: nat, cursor: nat)
    requires start < |fields| && FieldsAligned(m, fields)
    requires cursor % GetAlignment(m, fields[start]) != 0
    requires CountsAhead(byteCounts, countIndex, RemainingRuns(m, fields, start, cursor))
    ensures SfinaeGet(byteCounts, countIndex) == InternalPadding(cursor, GetAlignment(m, fields[start]))
    ensures CountsAhead(byteCounts, countIndex + 1,
                        RemainingRuns(m, fields, start + 1,
                                      cursor + InternalPadding(cursor, GetAlignment(m, fields[start])) + GetSize(m, fields[start])))
  {
    var padding := InternalPadding(cursor, GetAlignment(m, fields[start]));
    var runs := RemainingRuns(m, fields, start, cursor);
    var rest := RemainingRuns(m, fields, start + 1, cursor + padding + GetSize(m, fields[start]));
    assert runs == [Run(cursor, padding)] + rest;
    assert byteCounts[countIndex + 0] == runs[0].length;
    forall k | 0 <= k < |rest| ensures byteCounts[countIndex + 1 + k] == rest[k].length {
      assert runs[k + 1] == rest[k];
    }
  }

  /** Writing one run's indexes with `append_helper`, then the rest's, is writing
      the flattened runs. */
  lemma WriteRunThenRest(indexes: seq<nat>, appendIndex: nat, run: Run, rest: seq<Run>)
    ensures WriteFrom(AppendHelper(indexes, 0, run.length, appendIndex, run.offset), appendIndex + run.length, Flatten(rest))
         == WriteFrom(indexes, appendIndex, Flatten([run] + rest))
  {
    AppendHelperWritesRange(indexes, 0, run.length, appendIndex, run.offset);
    WriteFromConcat(indexes, appendIndex, Range(run.offset, run.length), Flatten(rest));
    assert ([run] + rest)[1..] == rest;
  }

  /** `SerializableClassPaddingIndexes::kValue`: the absolute index of every padding
      byte, run after run, as many as pass 2.5 counted. */
  function SerializableClassPaddingIndexes(m: DataModel, fields: seq<Tag>): (r: seq<nat>)
    requires FieldsAligned(m, fields)
    ensures |r| == SerializableClassPaddingByteCount(m, fields)
    ensures r == Flatten(PaddingRuns(m, fields))
  {
    var byteCounts := SerializableClassPaddingLocationsByteCounts(m, fields);
    var total := SerializableClassPaddingByteCount(m, fields);
    var runs := PaddingRuns(m, fields);
    RunLengthsLength(runs);
    assert CountsAhead(byteCounts, 0, runs);
    IndexesFromWritesFlatten(m, fields, byteCounts, 0, 0, 0, Zeros(total), 0);
    WriteFromZerosExact(Flatten(runs));
    IndexesFrom(m, fields, byteCounts, 0, 0, 0, Zeros(total), 0)
  }

  /** The padding byte indexes are strictly increasing, and run k is the
      byte-count[k] consecutive indexes from its offset. */
  lemma PaddingIndexesIncreasing(m: DataModel, fields: seq<Tag>)
    requires FieldsAligned(m, fields)
    ensures StrictlyIncreasing(SerializableClassPaddingIndexes(m, fields))
  {
    RunsOrdered(m, fields, 0, 0);
    FlattenIncreasing(PaddingRuns(m, fields), 0);
  }
}
