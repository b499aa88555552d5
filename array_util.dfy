/**
  Fixed-size `std::array<std::size_t, N>` values as the layout passes use them.

  The passes build their result arrays by value: an array of the final size is
  value-initialised (all zero) and slots are written one at a time with
  `sfinae_set<I>`, which silently does nothing when I is out of range;
  `sfinae_get<I>` yields 0 when I is out of range.
*/
module ArrayUtil {

  /** `sfinae_get<I>(array)`. */
  function SfinaeGet(arr: seq<nat>, i: nat): nat
  {
    if i < |arr| then arr[i] else 0
  }

  /** `sfinae_set<I>(array, val)`: the arr with slot I replaced, or unchanged. */
  function SfinaeSet(arr: seq<nat>, i: nat, val: nat): seq<nat>
  {
    if i < |arr| then arr[i := val] else arr
  }

  /** A value-initialised `std::array<std::size_t, n>`. */
  function Zeros(n: nat): (r: seq<nat>)
    ensures |r| == n
  {
    seq(n, _ => 0)
  }

  /** The consecutive values first, first+1, ..., first+n-1. */
  function Range(first: nat, n: nat): (r: seq<nat>)
    ensures |r| == n
    ensures forall k :: 0 <= k < n ==> r[k] == first + k
    decreases n
  {
    if n == 0 then [] else [first] + Range(first + 1, n - 1)
  }

  /** The sum of a sequence, from the front. */
  function Sum(s: seq<nat>): nat
  {
    if s == [] then 0 else s[0] + Sum(s[1..])
  }

  /** Writing vals[0], vals[1], ... at slots i, i+1, ... with sfinae_set. */
  function WriteFrom(arr: seq<nat>, i: nat, vals: seq<nat>): (r: seq<nat>)
    ensures |r| == |arr|
    decreases |vals|
  {
    if vals == [] then arr else WriteFrom(SfinaeSet(arr, i, vals[0]), i + 1, vals[1..])
  }

  /** When every write is in range, the values land exactly in slots i.. i+|vals|-1
      and nothing else changes. */
  lemma {:induction false} WriteFromInRange(arr: seq<nat>, i: nat, vals: seq<nat>)
    requires i + |vals| <= |arr|
    ensures WriteFrom(arr, i, vals) == arr[..i] + vals + arr[i + |vals|..]
    decreases |vals|
  {
    if vals == [] {
      assert arr[..i] + arr[i..] == arr;
    } else {
      var next := arr[i := vals[0]];
      WriteFromInRange(next, i + 1, vals[1..]);
      assert next[..i + 1] == arr[..i] + [vals[0]];
      assert next[i + 1 + |vals[1..]|..] == arr[i + |vals|..];
      assert [vals[0]] + vals[1..] == vals;
      assert arr[..i] + [vals[0]] + vals[1..] == arr[..i] + vals;
    }
  }

  /** Two consecutive write runs are one write run of the concatenation. */
  lemma {:induction false} WriteFromConcat(arr: seq<nat>, i: nat, xs: seq<nat>, ys: seq<nat>)
    ensures WriteFrom(WriteFrom(arr, i, xs), i + |xs|, ys) == WriteFrom(arr, i, xs + ys)
    decreases |xs|
  {
    if xs == [] {
      assert xs + ys == ys;
    } else {
      assert (xs + ys)[0] == xs[0];
      assert (xs + ys)[1..] == xs[1..] + ys;
      WriteFromConcat(SfinaeSet(arr, i, xs[0]), i + 1, xs[1..], ys);
    }
  }

  /** A zero arr of exactly the right size, written from slot 0, is the values. */
  lemma WriteFromZerosExact(vals: seq<nat>)
    ensures WriteFrom(Zeros(|vals|), 0, vals) == vals
  {
    WriteFromInRange(Zeros(|vals|), 0, vals);
    assert Zeros(|vals|)[..0] + vals + Zeros(|vals|)[|vals|..] == vals;
  }
}
