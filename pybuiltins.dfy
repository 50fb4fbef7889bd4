/** The few Python built-ins that the embedder's logic is written with:
    `range` with a step, slicing with clamped bounds, single-character
    `str.replace` and `''.join`. Strings are sequences of code points, as
    Python's `str` is, so `len` and slicing count characters. */
module PyBuiltins {

  datatype Option<+T> = None | Some(value: T)

  datatype Result<+R, +E> = Success(value: R) | Failure(error: E)

  /** The exceptions the modelled built-ins raise. */
  datatype PyError = ValueError(message: string)

  function Min(a: int, b: int): int { if a <= b then a else b }

  /** The values `range(start, stop, step)` yields for a non-zero step,
      generated one after the other. */
  function Progression(start: int, stop: int, step: int): seq<int>
    requires step != 0
    decreases if step > 0 then stop - start else start - stop
  {
    if (step > 0 && start < stop) || (step < 0 && start > stop) then
      [start] + Progression(start + step, stop, step)
    else
      []
  }

  /** What `range` promises: the k-th value is start + k * step, every value
      lies strictly before `stop` in the direction of `step`, and the value
      that would come next does not. */
  lemma {:induction false} ProgressionValues(start: int, stop: int, step: int)
    requires step != 0
    ensures var r := Progression(start, stop, step);
      && (forall k :: 0 <= k < |r| ==> r[k] == start + k * step)
      && (step > 0 ==> (forall k :: 0 <= k < |r| ==> r[k] < stop) && start + |r| * step >= stop)
      && (step < 0 ==> (forall k :: 0 <= k < |r| ==> r[k] > stop) && start + |r| * step <= stop)
    decreases if step > 0 then stop - start else start - stop
  {
    if (step > 0 && start < stop) || (step < 0 && start > stop) {
      var rest := Progression(start + step, stop, step);
      ProgressionValues(start + step, stop, step);
      var r := Progression(start, stop, step);
      assert r == [start] + rest;
      forall k | 1 <= k < |r|
        ensures r[k] == start + k * step
      {
        assert r[k] == rest[k - 1];
        ShiftedMultiple(k, step);
      }
      ShiftedMultiple(|r|, step);
    }
  }

  lemma ShiftedMultiple(k: int, step: int)
    ensures step + (k - 1) * step == k * step
  {
  }

  /** `range(start, stop, step)`: a zero step raises `ValueError`. */
  function Range(start: int, stop: int, step: int): Result<seq<int>, PyError> {
    if step == 0 then Failure(ValueError("range() arg 3 must not be zero"))
    else Success(Progression(start, stop, step))
  }

  /** How Python turns a slice bound into a position in a sequence of
      length n: a negative bound counts from the end, and anything outside
      the sequence is clamped to it. */
  function ClampIndex(i: int, n: nat): (r: nat)
    ensures r <= n
    ensures 0 <= i <= n ==> r == i
    ensures i > n ==> r == n
    ensures i < 0 <= i + n ==> r == i + n
    ensures i + n < 0 ==> r == 0
  {
    if i < 0 then (if i + n < 0 then 0 else i + n)
    else if i > n then n
    else i
  }

  /** The slice `s[i:j]`; an empty slice when the clamped bounds cross. */
  function Slice<T>(s: seq<T>, i: int, j: int): seq<T> {
    var lo, hi := ClampIndex(i, |s|), ClampIndex(j, |s|);
    if lo < hi then s[lo..hi] else []
  }

  /** A slice whose start lies inside the sequence and whose end is no
      earlier than its start is the contiguous run up to `j`, cut at the
      end of the sequence. */
  lemma SliceFromInside<T>(s: seq<T>, i: int, j: int)
    requires 0 <= i <= |s| && i <= j
    ensures Slice(s, i, j) == s[i..Min(j, |s|)]
    ensures |Slice(s, i, j)| == Min(j, |s|) - i
  {
  }

  /** `s.replace(target, replacement)` where both are single characters:
      every occurrence of `target` is replaced, nothing else changes. */
  function ReplaceChar(s: string, target: char, replacement: char): (r: string)
    ensures |r| == |s|
    ensures forall i :: 0 <= i < |s| ==> r[i] == (if s[i] == target then replacement else s[i])
  {
    if s == [] then []
    else [if s[0] == target then replacement else s[0]] + ReplaceChar(s[1..], target, replacement)
  }

  /** `''.join(parts)`: the parts concatenated in order. */
  function Join(parts: seq<string>): string {
    if parts == [] then [] else Join(parts[..|parts| - 1]) + parts[|parts| - 1]
  }
}
