/** The per-file routine (`routine` in SSL/local/vad.py).

    A recording that cannot be read is skipped and the routine returns
    normally. A recording no longer than the maximum duration is dropped
    when it is also no longer than the minimum duration, and otherwise
    copied whole. Any other recording goes through voice activity
    detection, whole-file or in 200 ms chunks. The detected intervals are
    merged and each merged interval is cut into pieces; piece `j` of merged
    interval `i` is written as the clip `i-j.wav`.

    Durations are integer milliseconds. A recording of `n` samples at rate
    `sr` lasts `n / sr` seconds, so "no longer than `ms` milliseconds" is
    `1000 * n <= ms * sr`. The detector's answers are inputs. */
module Routine {
  import opened Wrappers
  import opened Intervals
  import Merger
  import Streaming
  import opened Splitter

  /** What `sf.read` returned: the number of samples and the sample rate. */
  datatype Recording = Recording(samples: nat, sampleRate: nat)

  /** The command-line thresholds, in milliseconds. */
  datatype Config = Config(streaming: bool, maxMs: Option<nat>, mergeMs: Option<int>, minMs: int, blankMs: int)

  datatype Route = Discard | CopyWhole | Segment

  datatype RoutineError =
    | ZeroSampleRate                           // `n / 0` on the fast path
    | NoMaxDuration                            // `x <= None` on the fast path
    | StreamFailed(streamError: Streaming.StreamError)
    | SplitFailed(splitError: SplitError)

  /** A clip written to `<interval>-<piece>.wav`, holding `speech[lo:hi]`
      with the meaning of a Python slice: the bounds are clamped to the
      recording, and a negative bound counts from its end. */
  datatype Clip = Clip(interval: nat, piece: nat, lo: int, hi: int)

  datatype Outcome = Unreadable | Discarded | Copied | Clips(clips: seq<Clip>)

  /** `n` samples at `sampleRate` last no longer than `ms` milliseconds. */
  predicate AtMost(n: nat, sampleRate: nat, ms: int)
  {
    1000 * n <= ms * sampleRate
  }

  /** The check at the head of `routine`. */
  function FastPath(n: nat, sampleRate: nat, maxMs: Option<nat>, minMs: int): Result<Route, RoutineError>
  {
    if sampleRate == 0 then Failure(ZeroSampleRate)
    else if maxMs.None? then Failure(NoMaxDuration)
    else if AtMost(n, sampleRate, maxMs.value) then
      (if AtMost(n, sampleRate, minMs) then Success(Discard) else Success(CopyWhole))
    else Success(Segment)
  }

  function Rank(r: Route): nat
  {
    match r
    case Discard => 0
    case CopyWhole => 1
    case Segment => 2
  }

  /** The fast path is decided by length alone, and a longer recording never
      takes an earlier route: dropped, then copied, then segmented. A
      recording is dropped exactly when it is no longer than both limits,
      copied exactly when it is no longer than the maximum but longer than
      the minimum, and segmented exactly when it is longer than the
      maximum. */
  lemma FastPathMonotone(n1: nat, n2: nat, sampleRate: nat, maxMs: nat, minMs: int)
    requires n1 <= n2 && sampleRate > 0
    ensures FastPath(n1, sampleRate, Some(maxMs), minMs).Success?
    ensures Rank(FastPath(n1, sampleRate, Some(maxMs), minMs).value)
      <= Rank(FastPath(n2, sampleRate, Some(maxMs), minMs).value)
    ensures FastPath(n1, sampleRate, Some(maxMs), minMs) == Success(Discard)
      <==> AtMost(n1, sampleRate, maxMs) && AtMost(n1, sampleRate, minMs)
    ensures FastPath(n1, sampleRate, Some(maxMs), minMs) == Success(CopyWhole)
      <==> AtMost(n1, sampleRate, maxMs) && !AtMost(n1, sampleRate, minMs)
    ensures FastPath(n1, sampleRate, Some(maxMs), minMs) == Success(Segment)
      <==> !AtMost(n1, sampleRate, maxMs)
  {
  }

  /** The clips cut from merged interval `i`, numbered in order. */
  function ClipsOf(i: nat, pieces: seq<Piece>): (c: seq<Clip>)
    ensures |c| == |pieces|
    ensures forall j :: 0 <= j < |c| ==> c[j].interval == i && c[j].lo == pieces[j].lo && c[j].hi == pieces[j].hi
    ensures forall j1, j2 :: 0 <= j1 < j2 < |c| ==> Before(c[j1], c[j2])
  {
    seq(|pieces|, j requires 0 <= j < |pieces| => Clip(i, j, pieces[j].lo, pieces[j].hi))
  }

  /** The clips of the merged intervals from index `i` on. */
  function CutFrom(merged: seq<Interval>, sampleRate: nat, maxSize: Option<nat>, i: nat): Result<seq<Clip>, SplitError>
    requires i <= |merged|
    decreases |merged| - i
  {
    if i == |merged| then Success([])
    else
      var pieces := Split(MsToIndex(merged[i].start, sampleRate), MsToIndex(merged[i].end, sampleRate), maxSize);
      if pieces.Failure? then Failure(pieces.error)
      else
        var rest := CutFrom(merged, sampleRate, maxSize, i + 1);
        if rest.Failure? then rest else Success(ClipsOf(i, pieces.value) + rest.value)
  }

  /** The loop over `enumerate(res[0]["value"])`: the clips written, in
      order, or the first error. */
  method WriteClips(merged: seq<Interval>, sampleRate: nat, maxSize: Option<nat>)
    returns (r: Result<seq<Clip>, SplitError>)
    ensures r == CutFrom(merged, sampleRate, maxSize, 0)
  {
    ghost var whole := CutFrom(merged, sampleRate, maxSize, 0);
    var written: seq<Clip> := [];
    for i := 0 to |merged|
      invariant whole.Success? ==>
        CutFrom(merged, sampleRate, maxSize, i).Success?
        && whole.value == written + CutFrom(merged, sampleRate, maxSize, i).value
      invariant whole.Failure? ==> whole == CutFrom(merged, sampleRate, maxSize, i)
    {
      var item := merged[i];
      var startIndex := MsToIndex(item.start, sampleRate);
      var endIndex := MsToIndex(item.end, sampleRate);
      var segments := SplitRange(startIndex, endIndex, maxSize);
      CutFromStep(merged, sampleRate, maxSize, i, segments);
      if segments.Failure? {
        return Failure(segments.error);
      }
      var clips := WritePieces(i, segments.value);
      if whole.Success? {
        var rest := CutFrom(merged, sampleRate, maxSize, i + 1).value;
        assert written + (clips + rest) == (written + clips) + rest;
      }
      written := written + clips;
    }
    assert CutFrom(merged, sampleRate, maxSize, |merged|) == Success([]);
    assert written + [] == written;
    r := Success(written);
  }

  /** The inner loop over `enumerate(segments)`: one clip per piece, named
      by the merged interval and the piece's position. */
  method WritePieces(i: nat, pieces: seq<Piece>) returns (clips: seq<Clip>)
    ensures clips == ClipsOf(i, pieces)
  {
    clips := [];
    for j := 0 to |pieces|
      invariant clips == ClipsOf(i, pieces[..j])
    {
      var piece := pieces[j];
      clips := clips + [Clip(i, j, piece.lo, piece.hi)];
      assert ClipsOf(i, pieces[..j + 1]) == ClipsOf(i, pieces[..j]) + [Clip(i, j, piece.lo, piece.hi)];
    }
    assert pieces[..|pieces|] == pieces;
  }

  /** One step of `CutFrom`: the pieces of merged interval `i`, then the
      rest. */
  lemma CutFromStep(merged: seq<Interval>, sampleRate: nat, maxSize: Option<nat>, i: nat, pieces: Result<seq<Piece>, SplitError>)
    requires i < |merged|
    requires pieces == Split(MsToIndex(merged[i].start, sampleRate), MsToIndex(merged[i].end, sampleRate), maxSize)
    ensures pieces.Failure? ==> CutFrom(merged, sampleRate, maxSize, i) == Failure(pieces.error)
    ensures pieces.Success? && CutFrom(merged, sampleRate, maxSize, i + 1).Failure? ==>
      CutFrom(merged, sampleRate, maxSize, i) == CutFrom(merged, sampleRate, maxSize, i + 1)
    ensures pieces.Success? && CutFrom(merged, sampleRate, maxSize, i + 1).Success? ==>
      CutFrom(merged, sampleRate, maxSize, i)
      == Success(ClipsOf(i, pieces.value) + CutFrom(merged, sampleRate, maxSize, i + 1).value)
  {
  }

  /** Clip `a` is written before clip `b` and under a different name. */
  predicate Before(a: Clip, b: Clip)
  {
    a.interval < b.interval || (a.interval == b.interval && a.piece < b.piece)
  }

  /** The clips come out in name order, so no two share a file name, and
      the clips of each merged interval are numbered from 0 without gaps. */
  lemma {:induction false} CutFromOrdered(merged: seq<Interval>, sampleRate: nat, maxSize: Option<nat>, i: nat)
    requires i <= |merged| && CutFrom(merged, sampleRate, maxSize, i).Success?
    ensures var c := CutFrom(merged, sampleRate, maxSize, i).value;
      (forall k :: 0 <= k < |c| ==> i <= c[k].interval < |merged|)
      && (forall k :: 0 <= k < |c| - 1 ==> Before(c[k], c[k + 1]))
      && Numbered(c)
    decreases |merged| - i
  {
    if i < |merged| {
      CutFromOrdered(merged, sampleRate, maxSize, i + 1);
      var pieces := Split(MsToIndex(merged[i].start, sampleRate), MsToIndex(merged[i].end, sampleRate), maxSize);
      var head := ClipsOf(i, pieces.value);
      var rest := CutFrom(merged, sampleRate, maxSize, i + 1).value;
      var c := head + rest;
      forall k | 0 <= k < |c| - 1
        ensures Before(c[k], c[k + 1])
      {
        if k + 1 < |head| {
          assert c[k] == head[k] && c[k + 1] == head[k + 1];
        } else if k + 1 == |head| {
          assert c[k] == head[k] && c[k + 1] == rest[0];
        } else {
          assert c[k] == rest[k - |head|] && c[k + 1] == rest[k + 1 - |head|];
        }
      }
      NumberedAppend(i, pieces.value, rest);
    }
  }

  /** The clips of one merged interval put before numbered clips keep the
      numbering. */
  lemma NumberedAppend(i: nat, pieces: seq<Piece>, rest: seq<Clip>)
    requires Numbered(rest)
    ensures Numbered(ClipsOf(i, pieces) + rest)
  {
    var head := ClipsOf(i, pieces);
    var c := head + rest;
    forall k | 0 <= k < |c|
      ensures NumberedAt(c, k)
    {
      if k < |head| {
        assert c[k] == head[k];
        if k > 0 {
          assert c[k - 1] == head[k - 1];
        }
      } else {
        assert NumberedAt(rest, k - |head|);
        assert c[k] == rest[k - |head|];
        if k > |head| {
          assert c[k - 1] == rest[k - 1 - |head|];
        }
      }
    }
  }

  /** Clip `k` is the first of its merged interval, numbered 0, or follows
      the previous clip of the same interval with the next number. */
  predicate NumberedAt(c: seq<Clip>, k: nat)
    requires k < |c|
  {
    c[k].piece == 0 || (k > 0 && c[k - 1].interval == c[k].interval && c[k].piece == c[k - 1].piece + 1)
  }

  /** The clips of each merged interval are numbered from 0 without gaps. */
  predicate Numbered(c: seq<Clip>)
  {
    forall k :: 0 <= k < |c| ==> NumberedAt(c, k)
  }

  /** Distinct positions in the output hold clips with distinct names. */
  lemma {:induction false} OrderedDistinct(c: seq<Clip>, k1: nat, k2: nat)
    requires forall k :: 0 <= k < |c| - 1 ==> Before(c[k], c[k + 1])
    requires k1 < k2 < |c|
    ensures Before(c[k1], c[k2])
    decreases k2 - k1
  {
    if k1 + 1 < k2 {
      OrderedDistinct(c, k1 + 1, k2);
    }
  }

  /** The routine's result for one task. `wholeFile` is the detector's answer
      for the whole file and `chunkOutputs` its answers to the streamed
      chunks; only the one the configuration selects is used. */
  function RoutineResult(read: Option<Recording>, cfg: Config, wholeFile: seq<Interval>, chunkOutputs: seq<seq<Interval>>)
    : Result<Outcome, RoutineError>
    requires cfg.streaming && read.Some? ==>
      |chunkOutputs| == Streaming.CallCount(read.value.samples, read.value.sampleRate)
  {
    if read.None? then Success(Unreadable)
    else
      var rec := read.value;
      var route := FastPath(rec.samples, rec.sampleRate, cfg.maxMs, cfg.minMs);
      if route.Failure? then Failure(route.error)
      else if route.value == Discard then Success(Discarded)
      else if route.value == CopyWhole then Success(Copied)
      else
        var vad :=
          if !cfg.streaming then Success(wholeFile)
          else if Streaming.Stride(rec.sampleRate) == 0 then Failure(Streaming.ZeroStride)
          else Streaming.Reduce([], chunkOutputs);
        if vad.Failure? then Failure(StreamFailed(vad.error))
        else
          var merged := Merger.Merge(vad.value, cfg.mergeMs, cfg.minMs, cfg.blankMs);
          var maxSize := if cfg.maxMs.Some? then Some(MaxSize(cfg.maxMs.value, rec.sampleRate)) else None;
          var clips := CutFrom(merged, rec.sampleRate, maxSize, 0);
          if clips.Failure? then Failure(SplitFailed(clips.error)) else Success(Clips(clips.value))
  }

  /** `routine(wav_file, tgt_dir, model, device, args)`. */
  method RunRoutine(read: Option<Recording>, cfg: Config, wholeFile: seq<Interval>, chunkOutputs: seq<seq<Interval>>)
    returns (r: Result<Outcome, RoutineError>)
    requires cfg.streaming && read.Some? ==>
      |chunkOutputs| == Streaming.CallCount(read.value.samples, read.value.sampleRate)
    ensures r == RoutineResult(read, cfg, wholeFile, chunkOutputs)
  {
    if read.None? {
      return Success(Unreadable);
    }
    var rec := read.value;
    var route := FastPath(rec.samples, rec.sampleRate, cfg.maxMs, cfg.minMs);
    if route.Failure? {
      return Failure(route.error);
    }
    if route.value == Discard {
      return Success(Discarded);
    }
    if route.value == CopyWhole {
      return Success(Copied);
    }
    var vad: seq<Interval>;
    if cfg.streaming {
      var calls, streamed := Streaming.StreamingVad(rec.samples, rec.sampleRate, chunkOutputs);
      if streamed.Failure? {
        return Failure(StreamFailed(streamed.error));
      }
      vad := streamed.value;
    } else {
      vad := wholeFile;
    }
    var merged := Merger.MergeSegment(vad, cfg.mergeMs, cfg.minMs, cfg.blankMs);
    var maxSize: Option<nat> := None;
    if cfg.maxMs.Some? {
      maxSize := Some(MaxSize(cfg.maxMs.value, rec.sampleRate));
    }
    var clips := WriteClips(merged, rec.sampleRate, maxSize);
    if clips.Failure? {
      return Failure(SplitFailed(clips.error));
    }
    r := Success(Clips(clips.value));
  }

  /** An unreadable file is not an error: the routine returns and the worker
      logs the task as done. A missing maximum duration always raises on a
      readable file, as `ZeroSampleRate` when the sample rate is 0 and as
      `NoMaxDuration` otherwise. Clips are written only for recordings longer than the
      maximum, never two under the same name, and the clips of merged
      interval `i` are numbered `i-0`, `i-1`, ... in order. */
  lemma RoutineOutcomes(read: Option<Recording>, cfg: Config, wholeFile: seq<Interval>, chunkOutputs: seq<seq<Interval>>)
    requires cfg.streaming && read.Some? ==>
      |chunkOutputs| == Streaming.CallCount(read.value.samples, read.value.sampleRate)
    ensures read.None? ==> RoutineResult(read, cfg, wholeFile, chunkOutputs) == Success(Unreadable)
    ensures read.Some? && read.value.sampleRate > 0 && cfg.maxMs.None? ==>
      RoutineResult(read, cfg, wholeFile, chunkOutputs) == Failure(NoMaxDuration)
    ensures read.Some? && cfg.maxMs.None? ==> RoutineResult(read, cfg, wholeFile, chunkOutputs).Failure?
    ensures var r := RoutineResult(read, cfg, wholeFile, chunkOutputs);
      r.Success? && r.value.Clips? ==>
        read.Some? && cfg.maxMs.Some? && read.value.sampleRate > 0
        && !AtMost(read.value.samples, read.value.sampleRate, cfg.maxMs.value)
        && (forall k1, k2 :: 0 <= k1 < k2 < |r.value.clips| ==> Before(r.value.clips[k1], r.value.clips[k2]))
        && Numbered(r.value.clips)
  {
    var r := RoutineResult(read, cfg, wholeFile, chunkOutputs);
    if r.Success? && r.value.Clips? {
      var rec := read.value;
      var vad :=
        if !cfg.streaming then Success(wholeFile)
        else if Streaming.Stride(rec.sampleRate) == 0 then Failure(Streaming.ZeroStride)
        else Streaming.Reduce([], chunkOutputs);
      var merged := Merger.Merge(vad.value, cfg.mergeMs, cfg.minMs, cfg.blankMs);
      var maxSize := if cfg.maxMs.Some? then Some(MaxSize(cfg.maxMs.value, rec.sampleRate)) else None;
      CutFromOrdered(merged, rec.sampleRate, maxSize, 0);
      var c := r.value.clips;
      forall k1, k2 | 0 <= k1 < k2 < |c|
        ensures Before(c[k1], c[k2])
      {
        OrderedDistinct(c, k1, k2);
      }
    }
  }
}
