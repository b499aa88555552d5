# little_pp padding reflection, modelled in Dafny

little_pp is a C++ library that works out, at compile time, where a plain
struct's padding bytes would sit under a chosen *data model*. A data model
gives a size and an alignment for each of sixteen fundamental types. Given a
struct's field types in declaration order and a model, the library computes
five things:

- the struct's alignment: the largest alignment of its fields;
- how many padding locations it has: runs of consecutive padding bytes;
- each location's byte count;
- the total number of padding bytes;
- the index of every padding byte, in increasing order.

A second stage, the *unique padding differ*, takes the padding byte indexes of
one struct under two models. It returns a compressed list of runs of bytes
that are padding under only one of the two models, each run tagged with the
model it belongs to.

The project has six modules:

- `DataModel` (`data_model.dfy`): the sixteen type tags and the 32-parameter
  data model. The parameter list round-trips through the record, and each
  lookup reads its own parameter.
- `ArrayUtil` (`array_util.dfy`): the library's `sfinae_get` and `sfinae_set`.
  A read out of range yields 0 and a write out of range is dropped. It also
  holds the sequence helpers the passes need.
- `PaddingReflection` (`padding_reflection.dfy`): the five layout passes, one
  function each, each a recursion over the field index, as the template
  recursion is. The alignment pass is proved to be the largest field
  alignment. The four padding passes are each proved equal to a single
  reference walk (`PaddingRuns`). That walk lists the padding as runs of (offset, length).
  The counts, byte counts, total and indexes are then properties of the runs:
  lengths, sum and flattening. Ordering and positivity of the runs follow.
- `LittlePP` (`little_pp.dfy`): the single-header front end. It holds the
  `std::array` `==` and `!=` operators and the struct that exposes the four
  layout constants together. The padding walk in `include/little_pp.h` and in
  the older `little_pp.h` uses the same arithmetic as
  `include/impl/padding_reflection.h`, so every header shares the one set of
  PaddingReflection functions.
- `UniquePadding` (`unique_padding.dfy`): the differ. `UniquePaddingSpec`
  states the walk as a function of the two index sequences. `FuncImpl` is the
  walk itself, over a mutable array the size of both inputs together, with a
  loop, and it is proved to produce the specification. `Trimmer` and `Value`
  cut the result down to the elements written. Proved properties:
  - swapping the two models flips every run's flag and changes nothing else;
  - every run has at least one byte;
  - the runs cover precisely the reported bytes;
  - the reported bytes number both inputs' bytes minus twice the matched
    bytes;
  - against a model with no padding, every byte of the other model is
    reported.
- `TestTables` (`test_tables.dfy`): the repository's compile-time assertion
  tables and test expectations, stated as lemmas about the model. It also
  holds the data models those tests use.

Sizes and indexes are `nat`; the source's `std::size_t` never wraps in the
modelled computations (see "Left out").

The internal padding rule is modelled as the source writes it. When the
running offset is below the field's alignment, the padding is
`alignment - offset`. Above it, the padding is `offset % alignment`. The
second case is the usual amount only when the remainder is half the
alignment; `InternalPaddingIsUsualWhen` and `SmallAlignmentAlwaysAgrees` state
when the two agree. `TestTables.QuirkMisalignsField` gives a record on which
they differ: five chars followed by an int.

The differ merges a new index into the previous run when that run ends just
before the new index. The source tests `previous.first == index -
previous.length` in `std::size_t`. The model tests `previous.first +
previous.length == index`, which is the same test for values below 2^64. The
merge does not look at which model the previous run belongs to, and the model
keeps that behaviour.

Five of the test-data headers (`expected_data_char_short_int_char_struct.h`,
`expected_data_char_short_int_struct.h`, `expected_data_empty_struct.h`,
`expected_data_internal_padding_3_32bit_struct.h` and
`expected_data_no_padding_32bit_struct.h`) name `data_models::Simple32BitButIntsNotSelfAlignedDataModel`,
which `test/test_data/tested_data_models.h` does not define. The model uses the
definition of the same name in `test/little_pp_test_data.hpp` (int and unsigned int of
size 4, aligned to 2), which is also the model of the static tables' `Simple32BitDatModelButIntsNotSelfAligned`.

## Model

| member | source | states |
|---|---|---|
| DataModel.FromParameters | include/data_model.h:30-51 | building a model from the 32 template parameters keeps them: reading the parameter list back gives the input |
| DataModel.ParametersRoundTrip | include/data_model.h:30-51 | a model is determined by its parameter list: rebuilding it from its parameters gives the same model |
| DataModel.LookupIsOwnParameter | include/data_model.h:53-229 | `get_size<T>` returns the T-size parameter and `get_alignment<T>` the T-alignment parameter, for each of the sixteen types, in template-parameter order |
| DataModel.ParametersIndependent | data_model.h:33-205 | changing one template parameter changes a type's size or alignment only if it is that type's own parameter |
| DataModel.TagAtPosition | data_model.h:8-31 | each supported type has its own pair of template parameters: the type whose pair comes at a type's position is that type |
| PaddingReflection.AlignmentFromIsMax | include/impl/padding_reflection.h:69-91 | the alignment recursion from field `start` with running value `current` returns at least every remaining field's alignment, and it is either `current` or one of those alignments |
| PaddingReflection.SerializableClassAlignmentIsMax | include/impl/padding_reflection.h:67-95 | a struct's alignment is 0 for no fields, otherwise the largest alignment among its fields, attained by one of them |
| PaddingReflection.AlignmentPositive | include/impl/padding_reflection.h:67-95 | under a model with positive alignments, the struct's alignment is positive exactly when it has a field (the guard that skips trailing padding fires exactly for the empty struct) |
| PaddingReflection.InternalPadding | include/impl/padding_reflection.h:121-131 | internal padding before a misaligned field is between 1 and alignment-1; below the alignment it reaches the alignment, above it it is the remainder |
| PaddingReflection.TrailingPadding | include/impl/padding_reflection.h:146-155 | trailing padding is between 1 and alignment-1 and brings the size to a multiple of the struct's alignment |
| PaddingReflection.InternalPaddingAligns | include/impl/padding_reflection.h:121-131 | the field placed after the rule's padding is aligned if and only if the offset was below the alignment or its remainder is half the alignment |
| PaddingReflection.InternalPaddingIsUsualWhen | include/impl/padding_reflection.h:121-131 | in those cases the rule's padding equals the usual `alignment - offset % alignment` |
| PaddingReflection.SmallAlignmentAlwaysAgrees | include/impl/padding_reflection.h:121-131 | for alignments 1 and 2 those cases always hold, so the rule is the usual one |
| PaddingReflection.RunsNonEmpty | include/impl/padding_reflection.h:97-160 | every padding location the walk finds has at least one byte |
| PaddingReflection.RunsOrdered | include/impl/padding_reflection.h:291-366 | the padding locations the walk finds are in increasing order and do not overlap; each starts at or after the offset the walk had reached |
| PaddingReflection.TrailingRunLaw | include/impl/padding_reflection.h:146-155 | the record's last location starts at the end offset exactly when the struct alignment is positive and the end offset is not a multiple of it, and it is then the run of trailing padding at the end offset; the size is a multiple of the struct alignment, and the trailing padding is less than the alignment |
| PaddingReflection.RunsEndWithTrailing | include/impl/padding_reflection.h:137-156 | the walk's locations are internal runs, each lying between the starting cursor and the end cursor, followed by the trailing run at the end cursor if there is one |
| PaddingReflection.EmptyRecordHasNoPadding | include/impl/padding_reflection.h:146-148 | the empty struct has alignment 0, size 0, no padding locations, no padding bytes and no indexes |
| PaddingReflection.PaddingLocationsCountFromIsRunCount | include/impl/padding_reflection.h:104-156 | the location-counting recursion adds, to its running count, exactly the number of padding locations of the rest of the struct |
| PaddingReflection.SerializableClassPaddingLocations | include/impl/padding_reflection.h:97-160 | the padding location count is the number of padding runs in the struct's layout |
| PaddingReflection.ByteCountsFromWritesRunLengths | include/impl/padding_reflection.h:169-233 | the byte-count recursion writes the lengths of the rest of the struct's padding runs into consecutive slots from its append index, through `sfinae_set` |
| PaddingReflection.SerializableClassPaddingLocationsByteCounts | include/impl/padding_reflection.h:162-237 | the byte-count array has one entry per padding location, each entry the length of that run and at least 1 |
| PaddingReflection.PaddingBytesCountFromIsSum | include/impl/padding_reflection.h:241-255 | the total-counting recursion adds the sum of the remaining byte counts to its running total |
| PaddingReflection.SerializableClassPaddingByteCount | include/impl/padding_reflection.h:239-261 | the total padding byte count is the sum of the per-location byte counts and the number of padding bytes in the layout |
| PaddingReflection.AppendHelperWritesRange | include/impl/padding_reflection.h:270-289 | the append helper writes the consecutive indexes first..first+n-1 into consecutive slots from its append index |
| PaddingReflection.IndexesFromWritesFlatten | include/impl/padding_reflection.h:291-366 | the index recursion, given byte counts that agree with the rest of the walk, writes every padding byte index of the rest of the struct, in order, from its append index |
| PaddingReflection.SerializableClassPaddingIndexes | include/impl/padding_reflection.h:263-371 | the padding index array has as many entries as the total byte count, and lists the bytes of each padding location in turn |
| PaddingReflection.PaddingIndexesIncreasing | include/impl/padding_reflection.h:263-371 | the padding index array is strictly increasing |
| LittlePP.ConstexprFor | include/little_pp.h:26-43 | the comparison recursion over [start, end) is true exactly when the two arrays agree at every slot in that range |
| LittlePP.ArrayEqual | include/little_pp.h:45-55 | `operator==` is true exactly when the arrays have the same length and the same elements |
| LittlePP.ArrayNotEqual | include/little_pp.h:57-67 | `operator!=` is true exactly when the arrays differ, and is the negation of `operator==` |
| LittlePP.ComparisonAsserts | include/little_pp.h:72-79 | the header's assertions on the empty array, {1, 2} and {2, 1} hold |
| LittlePP.SerializableClassPaddingIndexesOf | include/little_pp.h:123-425 | the four constants chain: the byte-count array has one entry per location, each at least 1; the total is their sum; the index array has that many entries, is strictly increasing and lists every padding byte |
| UniquePadding.Append | include/impl/padding_reflection.h:638-674 | appending one reported index either extends the last run or adds one new run, so the result is never empty and grows by at most one element |
| UniquePadding.AppendAddsOne | include/impl/padding_reflection.h:638-674 | appending one reported index adds exactly that index to the bytes the runs cover, at the end, and one to their total length |
| UniquePadding.AppendUniquePaddingElement | include/impl/padding_reflection.h:638-674 | the in-place append returns true exactly when it extended the previous element. The array prefix then equals the functional append; the slots past the one written (the extended element, or the new one) are unchanged |
| UniquePadding.AppendAndAdvance | include/impl/padding_reflection.h:693-699 | the append-then-advance step: the element count grows by at most one, the written prefix is the functional append of the reported index, and compressing the rest of the stream onto it gives what compressing the whole stream gave |
| UniquePadding.FuncImpl | include/impl/padding_reflection.h:676-758 | the walk, run over a buffer as long as both inputs together, leaves in its first `i_return` slots exactly the unique padding runs of the specification |
| UniquePadding.FuncImplBoth | include/impl/padding_reflection.h:676-710 | one step with both arrays unfinished: equal normalised indexes advance both sides and report nothing; otherwise the smaller side's raw index is reported. The walk state and its relation to the specification are kept |
| UniquePadding.FuncImplFirstExhausted | include/impl/padding_reflection.h:712-728 | one step with the first array finished reports the second's next index and keeps the walk invariant |
| UniquePadding.FuncImplSecondExhausted | include/impl/padding_reflection.h:730-746 | one step with the second array finished reports the first's next index and keeps the walk invariant |
| UniquePadding.ReportFirst | include/impl/padding_reflection.h:692-700 | reporting the first array's index: i1 and its unique-byte count advance by one and the walk invariant is kept |
| UniquePadding.ReportSecond | include/impl/padding_reflection.h:701-709 | reporting the second array's index: i2 and its unique-byte count advance by one and the walk invariant is kept |
| UniquePadding.TrimFrom | include/impl/padding_reflection.h:760-786 | the trimmer recursion from slot i copies slots i..n-1 of the untrimmed array and keeps those already copied |
| UniquePadding.Trimmer | include/impl/padding_reflection.h:760-786 | the trimmed array is the first n elements of the untrimmed one |
| UniquePadding.Value | include/impl/padding_reflection.h:590-610 | `value()` on a struct and two models returns the specification's unique padding runs of the two models' padding index arrays |
| UniquePadding.EmittedAccountsForAll | include/impl/padding_reflection.h:676-758 | every input index is either reported once or matched with one of the other side's indexes: reported + 2 * matched = both inputs' remaining lengths |
| UniquePadding.FirstExhausted | include/impl/padding_reflection.h:712-728 | once the first array is finished, every remaining index of the second array is reported, in order, as the second model's |
| UniquePadding.SecondExhausted | include/impl/padding_reflection.h:730-746 | once the second array is finished, every remaining index of the first array is reported, in order, as the first model's |
| UniquePadding.EmittedProvenance | include/impl/padding_reflection.h:676-758 | every reported index comes from the array of the model it is attributed to |
| UniquePadding.NormalisationNeverUnderflows | include/impl/padding_reflection.h:683-686 | on strictly increasing index arrays the normalising subtraction never goes below zero, so its `std::size_t` result never wraps |
| UniquePadding.ValueNormalisationsNonNegative | include/impl/padding_reflection.h:683-686 | for the two models' index arrays, every normalised index (an index minus the count of unique bytes so far) is non-negative |
| UniquePadding.UniquePaddingOfSame | include/impl/padding_reflection.h:676-758 | the differ of an index array against itself is empty |
| UniquePadding.SameModelHasNoUniquePadding | include/impl/padding_reflection.h:590-610 | a struct compared under one data model against itself has no unique padding |
| UniquePadding.UniquePaddingSwap | include/impl/padding_reflection.h:590-758 | swapping the two models gives the same runs with every flag flipped |
| UniquePadding.CompressPreserves | include/impl/padding_reflection.h:638-674 | compressing a stream of reported indexes into runs keeps all of them: the runs cover the stream's indexes in order, and their total length grows by the stream's length |
| UniquePadding.CompressShape | include/impl/padding_reflection.h:638-674 | compression creates no empty run, and at most one run per reported index |
| UniquePadding.UniquePaddingShape | include/impl/padding_reflection.h:590-758 | every unique padding run has at least one byte, there are at most as many runs as input indexes, and their lengths sum to both inputs' lengths minus twice the matched bytes |
| UniquePadding.UniquePaddingExpands | include/impl/padding_reflection.h:590-758 | expanding the runs back into indexes gives exactly the reported indexes, in walk order |
| UniquePadding.AgainstNoPadding | include/impl/padding_reflection.h:730-746 | against a model where the struct has no padding, every padding byte of the other model is reported as its own |
| TestTables.AlignmentAsserts | little_pp.h:123-171 | the alignment assertions: 0 for the empty struct, 1, 2 and 4 for the three others |
| TestTables.StaticTestTable | main_static_testing.cc:24-470 | the static assertion table under the 4-byte-int model: the location counts, byte counts, totals and indexes of the eleven records |
| TestTables.StaticTestTableIntsNotSelfAligned | main_static_testing.cc:159-470 | the same table's assertions under the model whose ints are aligned to 2 |
| TestTables.LegacyStaticTestTable | little_pp.h:436-442 | the oldest table's one-byte-internal-padding record, as declared (two unsigned chars), has no padding at all |
| TestTables.LegacyOneBytePaddingCorrected | main_static_testing.cc:64-74 | the record as the later table declares it (unsigned char, unsigned short) has the one location of one byte at index 1 that both tables expect |
| TestTables.GtestExpectations | test/little_pp_test.cc:33-63 | the typed test suite's expectations for the empty, no-padding and three-byte-internal-padding records under both 4-byte-int models |
| TestTables.GtestExpectedData | test/test_data/expected_data_char_short_int_char_struct.h:11-53 | the expected counts and indexes of the char-short-int-char, char-int-long, int-char and short-uchar-char-int records under the test data models |
| TestTables.QuirkMisalignsField | include/impl/padding_reflection.h:121-131 | five chars then an int: the rule pads one byte at offset 5, so the int starts at offset 6 and not 8; two trailing bytes bring the size to 12 |
| TestTables.UniquePaddingExpectations | test/unique_padding_test.cc:10-66 | {char, int, char, char}: under the 32-bit model against the all-1-aligned model the unique runs are {1, 3, first} and {10, 2, first}; with the models swapped the same runs are the second's |

## Left out

- Boost.PFR field reflection is not modelled. A struct is given directly as the sequence of its field types.
- `IsSerializableType` and `IsSupportedType` are not modelled. Their trait checks are compile-time type filters. In the model every field is already one of the sixteen tags.
- The `CHAR_BIT == 8` assertions (little_pp.h:67, include/little_pp.h:18, include/padding_reflection.h:18) are not modelled. Neither are the endianness enumeration and `get_this_architecture_endianess` (include/data_model.h:8-26), or the older `endianess` and `GetThisArchitectureendianess` (little_pp.h:69-85): no computation reads them. The two data model headers otherwise differ only in how the accessors are spelt (`GetSize`/`GetAlignment` against `get_size`/`get_alignment`), in the `little_pp` namespace, and in how an unlisted type is rejected (a failing `static_assert` at data_model.h:35 and 122, against deleted primary templates at include/data_model.h:53-54 and 142-143). Both map each of the sixteen types to the same parameters, so they share `DataModel.DataModel`.
- The `main` functions of `little_pp.h` and `main_static_testing.cc` are not modelled. Each prints the element count and then every padding index of `ForNotSelfAligned_ArbitraryMixedPaddings1Then3` under the model whose ints are aligned to 2. That output is I/O. The indexes it prints are those `TestTables.StaticTestTableIntsNotSelfAligned` states.
- The commented-out draft differ in `include/impl/padding_reflection.h` (lines 393-588) is not modelled. Neither is `FillFromRemainingPaddingArray` (lines 373-391), which nothing calls.
- The public aliases of `include/padding_reflection.h` are not modelled separately: each one names a PaddingReflection function. `unique_padding_v`, which the differ's tests use, is not defined in any of the files modelled here; `UniquePadding.UniquePaddingFor` stands for it.
- `std::size_t` is unbounded `nat`. Sizes, offsets and indexes are taken to stay below 2^64, which the compile-time computations never approach. Under that assumption, the differ's wrap-around subtraction in its merge test is written as an addition. The differ's normalisation (a raw index minus the number of that side's bytes already reported) is computed in `int` rather than `std::size_t`. `UniquePadding.ValueNormalisationsNonNegative` proves that on the two models' padding index arrays it is never negative, so the unsigned subtraction never wraps there.
- The test fixtures, gtest macros and the `std_array_comparison_operators.h` copy of the comparison operators are not modelled, except as the expectations the tables state.
- `Simple16BitDataModel` is not modelled: no test uses it.
- The fixed-width types `uint8_t`, `uint16_t` and `uint32_t` of the alignment assertions are taken as unsigned char, unsigned short and unsigned int.

## Findings

| source | as written | input that shows it | evidently intended | confidence | as-written member | corrected member |
|---|---|---|---|---|---|---|
| little_pp.h:436-442 | `OnlyInternalPadding1_Simple` is declared {unsigned char, unsigned char}, while the assertions at lines 557, 576, 595 and 614 expect one padding location of one byte at index 1 | the two unsigned chars under the table's own model: no padding location, no bytes, no indexes | {unsigned char, unsigned short}, as main_static_testing.cc:64-74 declares it, which has one byte of padding at index 1 | not executed | TestTables.LegacyStaticTestTable | TestTables.LegacyOneBytePaddingCorrected |
