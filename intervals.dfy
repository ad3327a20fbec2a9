/** Speech intervals as the VAD model reports them: `[startMs, endMs]`, in
    integer milliseconds from the start of the recording. */
module Intervals {

  datatype Interval = Interval(start: int, end: int)

  function Duration(iv: Interval): int
  {
    iv.end - iv.start
  }

  function Min(a: int, b: int): int
  {
    if a <= b then a else b
  }

  /** Every interval has a positive length. */
  ghost predicate Proper(s: seq<Interval>)
  {
    forall k :: 0 <= k < |s| ==> s[k].start < s[k].end
  }

  /** Each interval ends no later than the next one starts: sorted and
      non-overlapping. */
  ghost predicate Ordered(s: seq<Interval>)
  {
    forall k :: 0 <= k < |s| - 1 ==> s[k].end <= s[k + 1].start
  }
}
