/**
  The unique-padding differ: given the padding byte indexes of one record under
  two data models, which padding bytes does only one of the models have?

  The walk (`func_impl`) steps through both sorted index sequences at once. Each
  side's raw index is normalised by subtracting the number of that side's bytes
  already reported as unique, so that a byte shifted by earlier unique padding
  still lines up with its partner. Equal normalised values are a shared padding
  byte (both sides advance, nothing is reported); otherwise the smaller side's raw
  index is unique to that side. Reported indexes are compressed into runs
  (`UniquePaddingElement`), extending the previous run whenever the new index
  directly follows it, whichever model the previous run belonged to.

  `UniquePaddingSpec` is the walk as a function over the two sequences;
  `FuncImpl` is the source's walk over a fixed-size result buffer, proved to
  produce it.
*/
module UniquePadding {
  import opened ArrayUtil
  import opened DataModel
  import opened PaddingReflection

  /** `UniquePaddingElement`: a run of unique padding bytes, and which model has it. */
  datatype UniquePaddingElement = UniquePaddingElement(
    paddingFirstIndex: nat,
    paddingSpanLength: nat,
    isPaddingForFirstPassedDataModel: bool)

  /** A value-initialised element, as in a fresh result array. */
  const DefaultElement := UniquePaddingElement(0, 0, false)

  /** A raw index reported as unique, and whether it belongs to the first model. */
  datatype Emission = Emission(index: nat, first: bool)

  // ---------------------------------------------------------------------------
  // The walk
  // ---------------------------------------------------------------------------

  /** The indexes the walk reports from state (i1, i2, u1, u2) on, in order:
      i1/i2 are the positions in the two sequences, u1/u2 the unique bytes already
      reported for each side. The four branches are the four `func_impl`
      overloads (both sides left, first exhausted, second exhausted, both). */
  function Emitted(a: seq<nat>, b: seq<nat>, i1: nat, i2: nat, u1: nat, u2: nat): seq<Emission>
    requires i1 <= |a| && i2 <= |b|
    decreases (|a| - i1) + (|b| - i2)
  {
    if i1 < |a| && i2 < |b| then
      var normalisedFirst: int := a[i1] - u1;
      var normalisedSecond: int := b[i2] - u2;
      if normalisedFirst == normalisedSecond then
        Emitted(a, b, i1 + 1, i2 + 1, u1, u2)
      else if normalisedFirst < normalisedSecond then
        [Emission(a[i1], true)] + Emitted(a, b, i1 + 1, i2, u1 + 1, u2)
      else
        [Emission(b[i2], false)] + Emitted(a, b, i1, i2 + 1, u1, u2 + 1)
    else if i2 < |b| then
      [Emission(b[i2], false)] + Emitted(a, b, i1, i2 + 1, u1, u2 + 1)
    else if i1 < |a| then
      [Emission(a[i1], true)] + Emitted(a, b, i1 + 1, i2, u1 + 1, u2)
    else
      []
  }

  /** The number of shared bytes (equal normalised pairs) the walk consumes. */
  function Matched(a: seq<nat>, b: seq<nat>, i1: nat, i2: nat, u1: nat, u2: nat): nat
    requires i1 <= |a| && i2 <= |b|
    decreases (|a| - i1) + (|b| - i2)
  {
    if i1 < |a| && i2 < |b| then
      var normalisedFirst: int := a[i1] - u1;
      var normalisedSecond: int := b[i2] - u2;
      if normalisedFirst == normalisedSecond then
        1 + Matched(a, b, i1 + 1, i2 + 1, u1, u2)
      else if normalisedFirst < normalisedSecond then
        Matched(a, b, i1 + 1, i2, u1 + 1, u2)
      else
        Matched(a, b, i1, i2 + 1, u1, u2 + 1)
    else
      0
  }

  /** `append_unique_padding_element` on the elements written so far: extend the
      last run when the index directly follows it (the flag is not compared),
      otherwise start a new run of one. */
  function Append(acc: seq<UniquePaddingElement>, e: Emission): (r: seq<UniquePaddingElement>)
    ensures |acc| <= |r| <= |acc| + 1
    ensures |r| > 0
  {
    if acc == [] then
      [UniquePaddingElement(e.index, 1, e.first)]
    else
      var previous := acc[|acc| - 1];
      if previous.paddingFirstIndex + previous.paddingSpanLength == e.index then
        acc[|acc| - 1 := previous.(paddingSpanLength := previous.paddingSpanLength + 1)]
      else
        acc + [UniquePaddingElement(e.index, 1, e.first)]
  }

  /** Appending a sequence of reported indexes one by one. */
  function CompressFrom(acc: seq<UniquePaddingElement>, s: seq<Emission>): seq<UniquePaddingElement>
    decreases |s|
  {
    if s == [] then acc else CompressFrom(Append(acc, s[0]), s[1..])
  }

  /** What the differ returns for two padding index sequences. */
  function UniquePaddingSpec(a: seq<nat>, b: seq<nat>): seq<UniquePaddingElement>
  {
    CompressFrom([], Emitted(a, b, 0, 0, 0, 0))
  }

  /** `UniquePaddingImpl<Class, First, Second>::value()` as a function of the
      record and the two models. */
  function UniquePaddingFor(m1: DataModel, m2: DataModel, fields: seq<Tag>): seq<UniquePaddingElement>
    requires FieldsAligned(m1, fields) && FieldsAligned(m2, fields)
  {
    UniquePaddingSpec(SerializableClassPaddingIndexes(m1, fields), SerializableClassPaddingIndexes(m2, fields))
  }

  // ---------------------------------------------------------------------------
  // The source's implementation over a result buffer
  // ---------------------------------------------------------------------------

  /** `append_unique_padding_element<i_return, index, flag>(return_array)`: returns
      true when the previous run was extended, false when a new element was
      written at slot iReturn. */
  method AppendUniquePaddingElement(returnArray: array<UniquePaddingElement>, iReturn: nat,
                                    paddingIndexValue: nat, isPaddingForFirst: bool)
    returns (extended: bool)
    requires iReturn < returnArray.Length
    modifies returnArray
    ensures extended ==> iReturn > 0
    ensures returnArray[..if extended then iReturn else iReturn + 1]
         == Append(old(returnArray[..iReturn]), Emission(paddingIndexValue, isPaddingForFirst))
    ensures forall k :: (if extended then iReturn else iReturn + 1) <= k < returnArray.Length ==> returnArray[k] == old(returnArray[k])
  {
    if iReturn == 0 {
      returnArray[iReturn] := UniquePaddingElement(paddingIndexValue, 1, isPaddingForFirst);
      return false;
    }
    var previousIndex := returnArray[iReturn - 1].paddingFirstIndex;
    var previousLength := returnArray[iReturn - 1].paddingSpanLength;
    if previousIndex == paddingIndexValue - previousLength {
      returnArray[iReturn - 1] := returnArray[iReturn - 1].(paddingSpanLength := previousLength + 1);
      return true;
    }
    returnArray[iReturn] := UniquePaddingElement(paddingIndexValue, 1, isPaddingForFirst);
    return false;
  }

  /** `func_impl()`: the walk, writing into an array of |a| + |b| elements; the
      first iReturn of them are the result. Each iteration is one instantiation
      of the recursive `func_impl` template, dispatched on which sequences still
      have indexes (the fourth overload, both exhausted, ends the loop). */
  method FuncImpl(a: seq<nat>, b: seq<nat>) returns (returnArray: array<UniquePaddingElement>, iReturn: nat)
    ensures returnArray.Length == |a| + |b|
    ensures iReturn <= returnArray.Length
    ensures returnArray[..iReturn] == UniquePaddingSpec(a, b)
  {
    returnArray := new UniquePaddingElement[|a| + |b|](_ => DefaultElement);
    iReturn := 0;
    var i1: nat, i2: nat, u1: nat, u2: nat := 0, 0, 0, 0;
    while i1 < |a| || i2 < |b|
      invariant i1 <= |a| && i2 <= |b|
      invariant u1 <= i1 && u2 <= i2 && iReturn <= u1 + u2
      invariant returnArray.Length == |a| + |b|
      invariant CompressFrom(returnArray[..iReturn], Emitted(a, b, i1, i2, u1, u2)) == UniquePaddingSpec(a, b)
      decreases (|a| - i1) + (|b| - i2)
    {
      if i1 < |a| && i2 < |b| {
        i1, i2, iReturn, u1, u2 := FuncImplBoth(a, b, returnArray, i1, i2, iReturn, u1, u2);
      } else if i1 == |a| {
        i2, iReturn, u2 := FuncImplFirstExhausted(a, b, returnArray, i1, i2, iReturn, u1, u2);
      } else {
        i1, iReturn, u1 := FuncImplSecondExhausted(a, b, returnArray, i1, i2, iReturn, u1, u2);
      }
    }
  }

  /** The walk state a `func_impl` step starts from: indexes in range, no more
      unique bytes than consumed indexes, no more elements than unique bytes. */
  predicate StepState(a: seq<nat>, b: seq<nat>, length: nat, i1: nat, i2: nat, iReturn: nat, u1: nat, u2: nat)
  {
    i1 <= |a| && i2 <= |b| && u1 <= i1 && u2 <= i2 && iReturn <= u1 + u2 && length == |a| + |b|
  }

  /** The first `func_impl` overload (both sequences have indexes left): compare
      the normalised indexes, then skip a shared byte or report the smaller. */
  method FuncImplBoth(a: seq<nat>, b: seq<nat>, returnArray: array<UniquePaddingElement>,
                      i1: nat, i2: nat, iReturn: nat, u1: nat, u2: nat)
    returns (i1': nat, i2': nat, iReturn': nat, u1': nat, u2': nat)
    requires i1 < |a| && i2 < |b|
    requires StepState(a, b, returnArray.Length, i1, i2, iReturn, u1, u2)
    modifies returnArray
    ensures StepState(a, b, returnArray.Length, i1', i2', iReturn', u1', u2')
    ensures i1 <= i1' && i2 <= i2' && i1 + i2 < i1' + i2'
    ensures CompressFrom(returnArray[..iReturn'], Emitted(a, b, i1', i2', u1', u2'))
         == CompressFrom(old(returnArray[..iReturn]), Emitted(a, b, i1, i2, u1, u2))
  {
    var normalisedFirst: int := a[i1] - u1;
    var normalisedSecond: int := b[i2] - u2;
    if normalisedFirst == normalisedSecond {
      EmittedShared(a, b, i1, i2, u1, u2);
      i1', i2', iReturn', u1', u2' := i1 + 1, i2 + 1, iReturn, u1, u2;
    } else if normalisedFirst < normalisedSecond {
      i1', iReturn', u1' := ReportFirst(a, b, returnArray, i1, i2, iReturn, u1, u2);
      i2', u2' := i2, u2;
    } else {
      i2', iReturn', u2' := ReportSecond(a, b, returnArray, i1, i2, iReturn, u1, u2);
      i1', u1' := i1, u1;
    }
  }

  /** The second overload (first sequence exhausted): the second's next index is
      unique to the second model. */
  method FuncImplFirstExhausted(a: seq<nat>, b: seq<nat>, returnArray: array<UniquePaddingElement>,
                                i1: nat, i2: nat, iReturn: nat, u1: nat, u2: nat)
    returns (i2': nat, iReturn': nat, u2': nat)
    requires i1 == |a| && i2 < |b|
    requires StepState(a, b, returnArray.Length, i1, i2, iReturn, u1, u2)
    modifies returnArray
    ensures StepState(a, b, returnArray.Length, i1, i2', iReturn', u1, u2')
    ensures i2' == i2 + 1
    ensures CompressFrom(returnArray[..iReturn'], Emitted(a, b, i1, i2', u1, u2'))
         == CompressFrom(old(returnArray[..iReturn]), Emitted(a, b, i1, i2, u1, u2))
  {
    i2', iReturn', u2' := ReportSecond(a, b, returnArray, i1, i2, iReturn, u1, u2);
  }

  /** The third overload (second sequence exhausted): the first's next index is
      unique to the first model. */
  method FuncImplSecondExhausted(a: seq<nat>, b: seq<nat>, returnArray: array<UniquePaddingElement>,
                                 i1: nat, i2: nat, iReturn: nat, u1: nat, u2: nat)
    returns (i1': nat, iReturn': nat, u1': nat)
    requires i1 < |a| && i2 == |b|
    requires StepState(a, b, returnArray.Length, i1, i2, iReturn, u1, u2)
    modifies returnArray
    ensures StepState(a, b, returnArray.Length, i1', i2, iReturn', u1', u2)
    ensures i1' == i1 + 1
    ensures CompressFrom(returnArray[..iReturn'], Emitted(a, b, i1', i2, u1', u2))
         == CompressFrom(old(returnArray[..iReturn]), Emitted(a, b, i1, i2, u1, u2))
  {
    i1', iReturn', u1' := ReportFirst(a, b, returnArray, i1, i2, iReturn, u1, u2);
  }

  /** Reporting the first sequence's next index as unique to the first model
      (it is smaller than the second's, or the second is exhausted). */
  method ReportFirst(a: seq<nat>, b: seq<nat>, returnArray: array<UniquePaddingElement>,
                     i1: nat, i2: nat, iReturn: nat, u1: nat, u2: nat)
    returns (i1': nat, iReturn': nat, u1': nat)
    requires i1 < |a| && (i2 == |b| || (i2 < |b| && a[i1] - u1 < b[i2] - u2))
    requires StepState(a, b, returnArray.Length, i1, i2, iReturn, u1, u2)
    modifies returnArray
    ensures StepState(a, b, returnArray.Length, i1', i2, iReturn', u1', u2)
    ensures i1' == i1 + 1 && u1' == u1 + 1
    ensures CompressFrom(returnArray[..iReturn'], Emitted(a, b, i1', i2, u1', u2))
         == CompressFrom(old(returnArray[..iReturn]), Emitted(a, b, i1, i2, u1, u2))
  {
    EmittedFirst(a, b, i1, i2, u1, u2);
    iReturn' := AppendAndAdvance(returnArray, iReturn, a[i1], true, Emitted(a, b, i1 + 1, i2, u1 + 1, u2));
    i1', u1' := i1 + 1, u1 + 1;
  }

  /** Reporting the second sequence's next index as unique to the second model
      (it is smaller than the first's, or the first is exhausted). */
  method ReportSecond(a: seq<nat>, b: seq<nat>, returnArray: array<UniquePaddingElement>,
                      i1: nat, i2: nat, iReturn: nat, u1: nat, u2: nat)
    returns (i2': nat, iReturn': nat, u2': nat)
    requires i2 < |b| && (i1 == |a| || (i1 < |a| && a[i1] - u1 > b[i2] - u2))
    requires StepState(a, b, returnArray.Length, i1, i2, iReturn, u1, u2)
    modifies returnArray
    ensures StepState(a, b, returnArray.Length, i1, i2', iReturn', u1, u2')
    ensures i2' == i2 + 1 && u2' == u2 + 1
    ensures CompressFrom(returnArray[..iReturn'], Emitted(a, b, i1, i2', u1, u2'))
         == CompressFrom(old(returnArray[..iReturn]), Emitted(a, b, i1, i2, u1, u2))
  {
    EmittedSecond(a, b, i1, i2, u1, u2);
    iReturn' := AppendAndAdvance(returnArray, iReturn, b[i2], false, Emitted(a, b, i1, i2 + 1, u1, u2 + 1));
    i2', u2' := i2 + 1, u2 + 1;
  }

  /** A shared byte: both sequences advance and nothing is reported. */
  lemma EmittedShared(a: seq<nat>, b: seq<nat>, i1: nat, i2: nat, u1: nat, u2: nat)
    requires i1 < |a| && i2 < |b| && a[i1] - u1 == b[i2] - u2
    ensures Emitted(a, b, i1, i2, u1, u2) == Emitted(a, b, i1 + 1, i2 + 1, u1, u2)
  {
  }

  /** The first sequence's next index is reported when it is the smaller one or
      the second sequence is exhausted. */
  lemma EmittedFirst(a: seq<nat>, b: seq<nat>, i1: nat, i2: nat, u1: nat, u2: nat)
    requires i1 < |a| && (i2 == |b| || (i2 < |b| && a[i1] - u1 < b[i2] - u2))
    ensures Emitted(a, b, i1, i2, u1, u2) == [Emission(a[i1], true)] + Emitted(a, b, i1 + 1, i2, u1 + 1, u2)
  {
  }

  /** The second sequence's next index is reported when it is the smaller one or
      the first sequence is exhausted. */
  lemma EmittedSecond(a: seq<nat>, b: seq<nat>, i1: nat, i2: nat, u1: nat, u2: nat)
    requires i2 < |b| && (i1 == |a| || (i1 < |a| && a[i1] - u1 > b[i2] - u2))
    ensures Emitted(a, b, i1, i2, u1, u2) == [Emission(b[i2], false)] + Emitted(a, b, i1, i2 + 1, u1, u2 + 1)
  {
  }

    /** One reported index: `append_unique_padding_element`, then the recursive
      call at the same slot (run extended) or the next one (element written).
      What is still to be reported then compresses onto the new prefix as the
      index and the rest compressed onto the old one. */
  method AppendAndAdvance(returnArray: array<UniquePaddingElement>, iReturn: nat,
                          paddingIndexValue: nat, isPaddingForFirst: bool, ghost rest: seq<Emission>)
    returns (nextIReturn: nat)
    requires iReturn < returnArray.Length
    modifies returnArray
    ensures nextIReturn <= iReturn + 1
    ensures returnArray[..nextIReturn] == Append(old(returnArray[..iReturn]), Emission(paddingIndexValue, isPaddingForFirst))
    ensures CompressFrom(returnArray[..nextIReturn], rest)
         == CompressFrom(old(returnArray[..iReturn]), [Emission(paddingIndexValue, isPaddingForFirst)] + rest)
  {
    ghost var before := returnArray[..iReturn];
    var extended := AppendUniquePaddingElement(returnArray, iReturn, paddingIndexValue, isPaddingForFirst);
    nextIReturn := if extended then iReturn else iReturn + 1;
    CompressStep(before, Emission(paddingIndexValue, isPaddingForFirst), rest);
  }

  /** Reporting one index, then the rest. */
  lemma CompressStep(acc: seq<UniquePaddingElement>, e: Emission, rest: seq<Emission>)
    ensures CompressFrom(acc, [e] + rest) == CompressFrom(Append(acc, e), rest)
  {
    assert ([e] + rest)[1..] == rest;
  }

  /** `trimmer<last_appended_index, i>(untrimmed_array, trimmed_array)`: copies
      slots i.. n-1 of the untrimmed array into the n-element result. */
  function TrimFrom(untrimmed: seq<UniquePaddingElement>, n: nat, i: nat,
                    trimmed: seq<UniquePaddingElement>): (r: seq<UniquePaddingElement>)
    requires n <= |untrimmed| && |trimmed| == n && i <= n
    ensures |r| == n
    ensures r[..i] == trimmed[..i]
    ensures r[i..] == untrimmed[i..n]
    decreases n - i
  {
    if i < n then TrimFrom(untrimmed, n, i + 1, trimmed[i := untrimmed[i]]) else trimmed
  }

  /** `trimmer<n>(untrimmed_array)`: the first n elements. */
  function Trimmer(untrimmed: seq<UniquePaddingElement>, n: nat): (r: seq<UniquePaddingElement>)
    requires n <= |untrimmed|
    ensures r == untrimmed[..n]
  {
    TrimFrom(untrimmed, n, 0, seq(n, _ => DefaultElement))
  }

  /** `UniquePaddingImpl<Class, First, Second>::value()`: run the walk on the two
      models' padding indexes, then trim. */
  method Value(m1: DataModel, m2: DataModel, fields: seq<Tag>) returns (r: seq<UniquePaddingElement>)
    requires FieldsAligned(m1, fields) && FieldsAligned(m2, fields)
    ensures r == UniquePaddingFor(m1, m2, fields)
  {
    var firstArray := SerializableClassPaddingIndexes(m1, fields);
    var secondArray := SerializableClassPaddingIndexes(m2, fields);
    var untrimmedArray, lastAppendedIndex := FuncImpl(firstArray, secondArray);
    r := Trimmer(untrimmedArray[..], lastAppendedIndex);
  }

  // ---------------------------------------------------------------------------
  // Properties of the walk
  // ---------------------------------------------------------------------------

  /** Every index is either reported or consumed as half of a shared pair. */
  lemma {:induction false} EmittedAccountsForAll(a: seq<nat>, b: seq<nat>, i1: nat, i2: nat, u1: nat, u2: nat)
    requires i1 <= |a| && i2 <= |b|
    ensures |Emitted(a, b, i1, i2, u1, u2)| + 2 * Matched(a, b, i1, i2, u1, u2) == (|a| - i1) + (|b| - i2)
    decreases (|a| - i1) + (|b| - i2)
  {
    if i1 < |a| && i2 < |b| && a[i1] - u1 == b[i2] - u2 {
      EmittedShared(a, b, i1, i2, u1, u2);
      EmittedAccountsForAll(a, b, i1 + 1, i2 + 1, u1, u2);
    } else if i1 < |a| && (i2 == |b| || a[i1] - u1 < b[i2] - u2) {
      EmittedFirst(a, b, i1, i2, u1, u2);
      EmittedAccountsForAll(a, b, i1 + 1, i2, u1 + 1, u2);
    } else if i2 < |b| {
      EmittedSecond(a, b, i1, i2, u1, u2);
      EmittedAccountsForAll(a, b, i1, i2 + 1, u1, u2 + 1);
    }
  }

  /** The reports of one side, all with the same flag. */
  function SideEmissions(s: seq<nat>, first: bool): (r: seq<Emission>)
    ensures |r| == |s|
    ensures forall k :: 0 <= k < |s| ==> r[k] == Emission(s[k], first)
  {
    seq(|s|, k requires 0 <= k < |s| => Emission(s[k], first))
  }

  /** Once the first sequence is exhausted, every remaining index of the second is
      reported, in order, flagged as the second model's. */
  lemma {:induction false} FirstExhausted(a: seq<nat>, b: seq<nat>, i2: nat, u1: nat, u2: nat)
    requires i2 <= |b|
    ensures Emitted(a, b, |a|, i2, u1, u2) == SideEmissions(b[i2..], false)
    decreases |b| - i2
  {
    if i2 < |b| {
      FirstExhausted(a, b, i2 + 1, u1, u2 + 1);
      assert b[i2..] == [b[i2]] + b[i2 + 1..];
    }
  }

  /** Once the second sequence is exhausted, every remaining index of the first is
      reported, flagged as the first model's. */
  lemma {:induction false} SecondExhausted(a: seq<nat>, b: seq<nat>, i1: nat, u1: nat, u2: nat)
    requires i1 <= |a|
    ensures Emitted(a, b, i1, |b|, u1, u2) == SideEmissions(a[i1..], true)
    decreases |a| - i1
  {
    if i1 < |a| {
      SecondExhausted(a, b, i1 + 1, u1 + 1, u2);
      assert a[i1..] == [a[i1]] + a[i1 + 1..];
    }
  }

  /** A reported index comes from the side its flag names. */
  lemma {:induction false} EmittedProvenance(a: seq<nat>, b: seq<nat>, i1: nat, i2: nat, u1: nat, u2: nat)
    requires i1 <= |a| && i2 <= |b|
    ensures forall e :: e in Emitted(a, b, i1, i2, u1, u2) ==>
              if e.first then e.index in a[i1..] else e.index in b[i2..]
    decreases (|a| - i1) + (|b| - i2)
  {
    if i1 < |a| && i2 < |b| {
      var normalisedFirst: int := a[i1] - u1;
      var normalisedSecond: int := b[i2] - u2;
      if normalisedFirst == normalisedSecond {
        EmittedProvenance(a, b, i1 + 1, i2 + 1, u1, u2);
        SuffixIn(a, i1);
        SuffixIn(b, i2);
      } else if normalisedFirst < normalisedSecond {
        EmittedProvenance(a, b, i1 + 1, i2, u1 + 1, u2);
        SuffixIn(a, i1);
      } else {
        EmittedProvenance(a, b, i1, i2 + 1, u1, u2 + 1);
        SuffixIn(b, i2);
      }
    } else if i2 < |b| {
      EmittedProvenance(a, b, i1, i2 + 1, u1, u2 + 1);
      SuffixIn(b, i2);
    } else if i1 < |a| {
      EmittedProvenance(a, b, i1 + 1, i2, u1 + 1, u2);
      SuffixIn(a, i1);
    }
  }

  lemma SuffixIn(s: seq<nat>, i: nat)
    requires i < |s|
    ensures s[i] in s[i..]
    ensures forall x :: x in s[i + 1..] ==> x in s[i..]
  {
    assert s[i..] == [s[i]] + s[i + 1..];
  }

  /** With strictly increasing inputs (as the layout simulator produces) the
      normalisation never goes below zero: a side's unique count never exceeds its
      position, and its index at position i is at least i. So the source's
      unsigned subtraction does not wrap. */
  lemma NormalisationNeverUnderflows(s: seq<nat>, i: nat, u: nat)
    requires StrictlyIncreasing(s) && u <= i < |s|
    ensures s[i] - u >= 0
  {
    IncreasingAtLeastPosition(s, i);
  }

  lemma {:induction false} IncreasingAtLeastPosition(s: seq<nat>, i: nat)
    requires StrictlyIncreasing(s) && i < |s|
    ensures s[i] >= i
  {
    if i > 0 {
      IncreasingAtLeastPosition(s, i - 1);
    }
  }

  /** On the two models' padding index arrays, every normalisation the walk
      computes (the both-sides step, where u1 <= i1 and u2 <= i2 by the loop
      invariant of `FuncImpl`) is non-negative, so the source's unsigned
      subtraction never wraps. */
  lemma ValueNormalisationsNonNegative(m1: DataModel, m2: DataModel, fields: seq<Tag>,
                                       i1: nat, i2: nat, u1: nat, u2: nat)
    requires FieldsAligned(m1, fields) && FieldsAligned(m2, fields)
    requires i1 < |SerializableClassPaddingIndexes(m1, fields)| && u1 <= i1
    requires i2 < |SerializableClassPaddingIndexes(m2, fields)| && u2 <= i2
    ensures SerializableClassPaddingIndexes(m1, fields)[i1] - u1 >= 0
    ensures SerializableClassPaddingIndexes(m2, fields)[i2] - u2 >= 0
  {
    PaddingIndexesIncreasing(m1, fields);
    PaddingIndexesIncreasing(m2, fields);
    NormalisationNeverUnderflows(SerializableClassPaddingIndexes(m1, fields), i1, u1);
    NormalisationNeverUnderflows(SerializableClassPaddingIndexes(m2, fields), i2, u2);
  }

  // ---- the swap law ----------------------------------------------------------

  /** The reports with every flag negated. */
  function FlipEmissions(s: seq<Emission>): (r: seq<Emission>)
    ensures |r| == |s|
    ensures forall k :: 0 <= k < |s| ==> r[k] == Emission(s[k].index, !s[k].first)
  {
    seq(|s|, k requires 0 <= k < |s| => Emission(s[k].index, !s[k].first))
  }

  /** The runs with every flag negated. */
  function FlipElements(s: seq<UniquePaddingElement>): (r: seq<UniquePaddingElement>)
    ensures |r| == |s|
    ensures forall k :: 0 <= k < |s| ==>
              r[k] == s[k].(isPaddingForFirstPassedDataModel := !s[k].isPaddingForFirstPassedDataModel)
  {
    seq(|s|, k requires 0 <= k < |s| =>
      s[k].(isPaddingForFirstPassedDataModel := !s[k].isPaddingForFirstPassedDataModel))
  }

  /** Swapping the sequences reports the same indexes with the flags negated. */
  lemma {:induction false} EmittedSwap(a: seq<nat>, b: seq<nat>, i1: nat, i2: nat, u1: nat, u2: nat)
    requires i1 <= |a| && i2 <= |b|
    ensures Emitted(b, a, i2, i1, u2, u1) == FlipEmissions(Emitted(a, b, i1, i2, u1, u2))
    decreases (|a| - i1) + (|b| - i2)
  {
    if i1 < |a| && i2 < |b| {
      var normalisedFirst: int := a[i1] - u1;
      var normalisedSecond: int := b[i2] - u2;
      if normalisedFirst == normalisedSecond {
        EmittedSwap(a, b, i1 + 1, i2 + 1, u1, u2);
      } else if normalisedFirst < normalisedSecond {
        EmittedSwap(a, b, i1 + 1, i2, u1 + 1, u2);
        FlipCons(Emission(a[i1], true), Emitted(a, b, i1 + 1, i2, u1 + 1, u2));
      } else {
        EmittedSwap(a, b, i1, i2 + 1, u1, u2 + 1);
        FlipCons(Emission(b[i2], false), Emitted(a, b, i1, i2 + 1, u1, u2 + 1));
      }
    } else if i2 < |b| {
      EmittedSwap(a, b, i1, i2 + 1, u1, u2 + 1);
      FlipCons(Emission(b[i2], false), Emitted(a, b, i1, i2 + 1, u1, u2 + 1));
    } else if i1 < |a| {
      EmittedSwap(a, b, i1 + 1, i2, u1 + 1, u2);
      FlipCons(Emission(a[i1], true), Emitted(a, b, i1 + 1, i2, u1 + 1, u2));
    }
  }

  /** Negating the flags distributes over a leading report. */
  lemma FlipCons(e: Emission, s: seq<Emission>)
    ensures FlipEmissions([e] + s) == [Emission(e.index, !e.first)] + FlipEmissions(s)
  {
  }

  /** Compression does not look at the flags, so it commutes with negating them. */
  lemma {:induction false} CompressFlip(acc: seq<UniquePaddingElement>, s: seq<Emission>)
    ensures CompressFrom(FlipElements(acc), FlipEmissions(s)) == FlipElements(CompressFrom(acc, s))
    decreases |s|
  {
    if s != [] {
      var e := s[0];
      var flipped := Emission(e.index, !e.first);
      assert FlipEmissions(s)[0] == flipped;
      assert FlipEmissions(s)[1..] == FlipEmissions(s[1..]);
      AppendFlip(acc, e);
      CompressFlip(Append(acc, e), s[1..]);
    }
  }

  /** One append commutes with negating the flags. */
  lemma AppendFlip(acc: seq<UniquePaddingElement>, e: Emission)
    ensures Append(FlipElements(acc), Emission(e.index, !e.first)) == FlipElements(Append(acc, e))
  {
    if acc != [] {
      assert FlipElements(acc)[|acc| - 1].paddingFirstIndex == acc[|acc| - 1].paddingFirstIndex;
    }
  }

  /** Swapping the two data models gives the same runs with every flag negated. */
  lemma UniquePaddingSwap(a: seq<nat>, b: seq<nat>)
    ensures UniquePaddingSpec(b, a) == FlipElements(UniquePaddingSpec(a, b))
  {
    EmittedSwap(a, b, 0, 0, 0, 0);
    CompressFlip([], Emitted(a, b, 0, 0, 0, 0));
    assert FlipElements([]) == [];
  }

  // ---- compression ------------------------------------------------------------

  /** The number of bytes the runs cover. */
  function SpanTotal(es: seq<UniquePaddingElement>): nat
  {
    if es == [] then 0 else SpanTotal(es[..|es| - 1]) + es[|es| - 1].paddingSpanLength
  }

  /** The byte indexes the runs cover, run after run. */
  function Expand(es: seq<UniquePaddingElement>): seq<nat>
  {
    if es == [] then [] else Expand(es[..|es| - 1]) + Range(es[|es| - 1].paddingFirstIndex, es[|es| - 1].paddingSpanLength)
  }

  /** The reported indexes, without their flags. */
  function Indexes(s: seq<Emission>): (r: seq<nat>)
    ensures |r| == |s|
    ensures forall k :: 0 <= k < |s| ==> r[k] == s[k].index
  {
    seq(|s|, k requires 0 <= k < |s| => s[k].index)
  }

  /** A run one longer covers one more byte at its end. */
  lemma RangeSnoc(first: nat, n: nat)
    ensures Range(first, n + 1) == Range(first, n) + [first + n]
  {
  }

  /** One append adds one byte to the total span and exactly that index to the
      covered bytes. */
  lemma AppendAddsOne(acc: seq<UniquePaddingElement>, e: Emission)
    ensures SpanTotal(Append(acc, e)) == SpanTotal(acc) + 1
    ensures Expand(Append(acc, e)) == Expand(acc) + [e.index]
  {
    var r := Append(acc, e);
    if acc == [] {
      assert r[..0] == [];
      assert Range(e.index, 1) == [e.index];
    } else {
      var previous := acc[|acc| - 1];
      if previous.paddingFirstIndex + previous.paddingSpanLength == e.index {
        assert r[..|r| - 1] == acc[..|acc| - 1];
        RangeSnoc(previous.paddingFirstIndex, previous.paddingSpanLength);
      } else {
        assert r[..|r| - 1] == acc;
        assert Range(e.index, 1) == [e.index];
      }
    }
  }

  /** Compression is lossless: the runs cover exactly the reported indexes, in
      order, and their spans add up to the number reported. */
  lemma {:induction false} CompressPreserves(acc: seq<UniquePaddingElement>, s: seq<Emission>)
    ensures SpanTotal(CompressFrom(acc, s)) == SpanTotal(acc) + |s|
    ensures Expand(CompressFrom(acc, s)) == Expand(acc) + Indexes(s)
    decreases |s|
  {
    if s != [] {
      AppendAddsOne(acc, s[0]);
      CompressPreserves(Append(acc, s[0]), s[1..]);
      assert Indexes(s) == [s[0].index] + Indexes(s[1..]);
    }
  }

  /** Every run has at least one byte and there are no more runs than reports. */
  lemma {:induction false} CompressShape(acc: seq<UniquePaddingElement>, s: seq<Emission>)
    requires forall k :: 0 <= k < |acc| ==> acc[k].paddingSpanLength >= 1
    ensures forall k :: 0 <= k < |CompressFrom(acc, s)| ==> CompressFrom(acc, s)[k].paddingSpanLength >= 1
    ensures |CompressFrom(acc, s)| <= |acc| + |s|
    decreases |s|
  {
    if s != [] {
      CompressShape(Append(acc, s[0]), s[1..]);
    }
  }

  /** The differ's result: every span is at least 1, there are at most |a| + |b|
      elements, and the spans add up to |a| + |b| less both halves of every shared
      byte. */
  lemma UniquePaddingShape(a: seq<nat>, b: seq<nat>)
    ensures forall k :: 0 <= k < |UniquePaddingSpec(a, b)| ==> UniquePaddingSpec(a, b)[k].paddingSpanLength >= 1
    ensures |UniquePaddingSpec(a, b)| <= |a| + |b|
    ensures SpanTotal(UniquePaddingSpec(a, b)) == |a| + |b| - 2 * Matched(a, b, 0, 0, 0, 0)
  {
    CompressShape([], Emitted(a, b, 0, 0, 0, 0));
    CompressPreserves([], Emitted(a, b, 0, 0, 0, 0));
    EmittedAccountsForAll(a, b, 0, 0, 0, 0);
  }

  /** The runs expand back to exactly the reported indexes. */
  lemma UniquePaddingExpands(a: seq<nat>, b: seq<nat>)
    ensures Expand(UniquePaddingSpec(a, b)) == Indexes(Emitted(a, b, 0, 0, 0, 0))
  {
    CompressPreserves([], Emitted(a, b, 0, 0, 0, 0));
  }

  /** When the second model has no padding, the result is the first model's
      padding, compressed and flagged true. */
  lemma AgainstNoPadding(a: seq<nat>)
    ensures UniquePaddingSpec(a, []) == CompressFrom([], SideEmissions(a, true))
  {
    SecondExhausted(a, [], 0, 0, 0);
    assert a[0..] == a;
  }

  /** A sequence walked against itself matches every index: nothing is reported. */
  lemma {:induction false} EmittedSelf(a: seq<nat>, i: nat, u: nat)
    requires i <= |a|
    ensures Emitted(a, a, i, i, u, u) == []
    decreases |a| - i
  {
    if i < |a| {
      EmittedSelf(a, i + 1, u);
    }
  }

  /** Identical padding has no unique padding. */
  lemma UniquePaddingOfSame(a: seq<nat>)
    ensures UniquePaddingSpec(a, a) == []
  {
    EmittedSelf(a, 0, 0);
  }

  /** A record compared under the same model twice has no unique padding. */
  lemma SameModelHasNoUniquePadding(m: DataModel, fields: seq<Tag>)
    requires FieldsAligned(m, fields)
    ensures UniquePaddingFor(m, m, fields) == []
  {
    UniquePaddingOfSame(SerializableClassPaddingIndexes(m, fields));
  }
}
