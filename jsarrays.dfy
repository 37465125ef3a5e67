/** `Array.prototype.slice(start, end)` with both arguments given. */
module JsArrays {
  import opened JsNumbers

  /**
   * Steps 3 to 5 of `slice` for one argument: the argument becomes an
   * integer (NaN becomes 0), then a negative index counts back from the
   * end and both are clamped to `[0, len]`.
   */
  function RelativeIndex(x: JsNumber, len: nat): (r: nat)
    ensures r <= len
  {
    match x
    case NaN => 0
    case Finite(k) =>
      if k < 0 then (if len + k > 0 then len + k else 0)
      else if k < len then k else len
  }

  /**
   * `xs.slice(start, end)`: the elements from the start index up to, not
   * including, the end index, both taken by `RelativeIndex`.
   */
  function Slice<T>(xs: seq<T>, start: JsNumber, end: JsNumber): (r: seq<T>)
    ensures |r| <= |xs|
    ensures RelativeIndex(start, |xs|) < RelativeIndex(end, |xs|) ==>
      |r| == RelativeIndex(end, |xs|) - RelativeIndex(start, |xs|)
    ensures RelativeIndex(end, |xs|) <= RelativeIndex(start, |xs|) ==> r == []
  {
    var from := RelativeIndex(start, |xs|);
    var to := RelativeIndex(end, |xs|);
    if from < to then xs[from..to] else []
  }

  function Min(a: int, b: int): int
  {
    if a < b then a else b
  }

  function Max(a: int, b: int): int
  {
    if a < b then b else a
  }

  /**
   * For non-negative indices a slice is the clamped half-open window: it
   * holds at most `e - s` elements and none once `s` reaches the length.
   */
  lemma SliceWindow<T>(xs: seq<T>, s: int, e: int)
    requires 0 <= s <= e
    ensures Slice(xs, Finite(s), Finite(e)) == xs[Min(s, |xs|)..Min(e, |xs|)]
    ensures |Slice(xs, Finite(s), Finite(e))| <= e - s
    ensures s >= |xs| ==> Slice(xs, Finite(s), Finite(e)) == []
  {
  }

  /**
   * A negative index counts back from the end: `-k` selects the same
   * position as `length - k`.
   */
  lemma SliceFromEnd<T>(xs: seq<T>, a: int, b: int)
    requires 0 <= a < |xs| && 0 <= b < |xs|
    ensures Slice(xs, Finite(a - |xs|), Finite(b - |xs|)) == Slice(xs, Finite(a), Finite(b))
  {
  }
}
