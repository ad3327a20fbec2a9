/** Chunked ("streaming") VAD over one recording (SSL/local/vad.py, the
    `args.streaming` branch of `routine`).

    The recording of `n` samples is cut into 200 ms chunks; the VAD model is
    called once per chunk, in order, with `is_final` set on the last call.
    The model itself is not part of this model: its answer to the i-th call
    is the input `outputs[i]`, which may depend on anything the model saw
    before. The answers are reduced into one interval list: a first
    interval whose start is the continuation marker -1 overwrites the end of
    the last interval accumulated so far; every other interval is
    appended. */
module Streaming {
  import opened Wrappers
  import opened Intervals
  import opened Seqs

  /** Chunk length in milliseconds. */
  const ChunkMs: nat := 200

  /** Start value of an interval that continues the previous one. */
  const ContinuationMarker: int := -1

  /** Samples per chunk: `int(chunk_size * sample_rate / 1000)`. */
  function Stride(sampleRate: nat): nat
  {
    ChunkMs * sampleRate / 1000
  }

  /** Number of VAD calls: `int(len(speech - 1) / stride + 1)`. The
      subtraction applies to every sample, not to the length, so the count
      is `n / stride + 1`. */
  function ChunkCount(n: nat, stride: nat): nat
    requires stride > 0
  {
    n / stride + 1
  }

  /** One VAD call: the sample range `[lo, hi)` it is given and its
      `is_final` flag. */
  datatype Chunk = Chunk(lo: nat, hi: nat, isFinal: bool)

  lemma StrideMul(n: nat, stride: nat, i: nat)
    requires stride > 0 && i <= n / stride
    ensures i * stride <= n
  {
    assert i * stride <= (n / stride) * stride;
  }

  /** The i-th call: `speech[i * stride : (i + 1) * stride]`, where Python's
      slice stops at the end of the recording. */
  function ChunkAt(n: nat, stride: nat, i: nat): Chunk
    requires stride > 0 && i < ChunkCount(n, stride)
  {
    StrideMul(n, stride, i);
    Chunk(i * stride, Min((i + 1) * stride, n), i == ChunkCount(n, stride) - 1)
  }

  /** All calls, in the order they are made. */
  function Chunks(n: nat, stride: nat): seq<Chunk>
    requires stride > 0
  {
    seq(ChunkCount(n, stride), i requires 0 <= i < ChunkCount(n, stride) => ChunkAt(n, stride, i))
  }

  /** The bounds of one call, in closed form. */
  lemma ChunkAtBounds(n: nat, stride: nat, i: nat)
    requires stride > 0 && i < ChunkCount(n, stride)
    ensures ChunkAt(n, stride, i).lo == i * stride
    ensures i < n / stride ==> ChunkAt(n, stride, i).hi == i * stride + stride
    ensures i == n / stride ==> ChunkAt(n, stride, i).hi == n && n - i * stride == n % stride
  {
    assert (i + 1) * stride == i * stride + stride;
    if i < n / stride {
      StrideMul(n, stride, i + 1);
    } else {
      assert n == i * stride + n % stride;
    }
  }

  /** The chunks start at sample 0, follow each other without gap or
      overlap, end at sample `n`; all but the last hold exactly `stride`
      samples, the last at most `stride` and none exactly when `stride`
      divides `n`; only the last is final. */
  lemma ChunksTile(n: nat, stride: nat)
    requires stride > 0
    ensures var cs := Chunks(n, stride);
      && |cs| == n / stride + 1
      && cs[0].lo == 0
      && cs[|cs| - 1].hi == n
      && (forall i :: 0 <= i < |cs| - 1 ==> cs[i].hi == cs[i + 1].lo && cs[i].hi - cs[i].lo == stride)
      && cs[|cs| - 1].lo <= n && n - cs[|cs| - 1].lo < stride
      && (cs[|cs| - 1].lo == n <==> n % stride == 0)
      && (forall i :: 0 <= i < |cs| ==> (cs[i].isFinal <==> i == |cs| - 1))
  {
    var cs := Chunks(n, stride);
    forall i | 0 <= i < |cs| - 1
      ensures cs[i].hi == cs[i + 1].lo && cs[i].hi - cs[i].lo == stride
    {
      InnerChunk(n, stride, i);
    }
    assert |cs| == n / stride + 1;
    assert cs[0] == ChunkAt(n, stride, 0) && cs[|cs| - 1] == ChunkAt(n, stride, n / stride);
    ChunkAtBounds(n, stride, 0);
    LastChunk(n, stride);
  }

  /** A chunk before the last holds `stride` samples and ends where the
      next one starts. */
  lemma InnerChunk(n: nat, stride: nat, i: nat)
    requires stride > 0 && i < n / stride
    ensures ChunkAt(n, stride, i).hi == ChunkAt(n, stride, i + 1).lo
    ensures ChunkAt(n, stride, i).hi - ChunkAt(n, stride, i).lo == stride
  {
    ChunkAtBounds(n, stride, i);
    ChunkAtBounds(n, stride, i + 1);
  }

  /** The last chunk ends at `n` and holds the `n mod stride` samples left
      over. */
  lemma LastChunk(n: nat, stride: nat)
    requires stride > 0
    ensures var c := ChunkAt(n, stride, n / stride);
      c.hi == n && c.lo <= n && n - c.lo < stride && (c.lo == n <==> n % stride == 0)
  {
    ChunkAtBounds(n, stride, n / stride);
  }

  /** The samples of the chunks, put back together, are the recording. */
  function Joined<T>(speech: seq<T>, cs: seq<Chunk>): seq<T>
    requires forall i :: 0 <= i < |cs| ==> cs[i].lo <= cs[i].hi <= |speech|
  {
    if cs == [] then [] else speech[cs[0].lo..cs[0].hi] + Joined(speech, cs[1..])
  }

  lemma {:induction false} JoinedContiguous<T>(speech: seq<T>, cs: seq<Chunk>)
    requires cs != []
    requires forall i :: 0 <= i < |cs| ==> cs[i].lo <= cs[i].hi <= |speech|
    requires forall i :: 0 <= i < |cs| - 1 ==> cs[i].hi == cs[i + 1].lo
    ensures cs[0].lo <= cs[|cs| - 1].hi && Joined(speech, cs) == speech[cs[0].lo..cs[|cs| - 1].hi]
  {
    if |cs| > 1 {
      JoinedContiguous(speech, cs[1..]);
      assert speech[cs[0].lo..cs[|cs| - 1].hi] == speech[cs[0].lo..cs[0].hi] + speech[cs[1].lo..cs[|cs| - 1].hi];
    }
  }

  /** Feeding the chunks one after another gives the model every sample of
      the recording exactly once, in order. */
  lemma ChunksCoverSpeech<T>(speech: seq<T>, stride: nat)
    requires stride > 0
    ensures forall c :: c in Chunks(|speech|, stride) ==> c.lo <= c.hi <= |speech|
    ensures Joined(speech, Chunks(|speech|, stride)) == speech
  {
    var cs := Chunks(|speech|, stride);
    ChunksTile(|speech|, stride);
    forall i | 0 <= i < |cs|
      ensures cs[i].lo <= cs[i].hi <= |speech|
    {
      if i < |cs| - 1 {
        assert cs[i].hi - cs[i].lo == stride;
      }
    }
    JoinedContiguous(speech, cs);
  }

  datatype StreamError =
    | ZeroStride       // the chunk count divides by a stride of 0 samples
    | NothingToExtend  // a continuation arrives while nothing has been accumulated

  /** The reduction of one VAD answer into the accumulated list. */
  function Absorb(acc: seq<Interval>, batch: seq<Interval>): (r: Result<seq<Interval>, StreamError>)
    ensures r.Failure? <==> batch != [] && batch[0].start == ContinuationMarker && acc == []
    ensures r.Failure? ==> r.error == NothingToExtend
  {
    if batch == [] then
      Success(acc)
    else if batch[0].start == ContinuationMarker then
      if acc == [] then
        Failure(NothingToExtend)
      else
        Success(acc[..|acc| - 1] + [Interval(acc[|acc| - 1].start, batch[0].end)] + batch[1..])
    else
      Success(acc + batch)
  }

  /** The reduction of a series of VAD answers, in call order; it can only
      fail on a continuation with nothing accumulated. */
  function Reduce(acc: seq<Interval>, outputs: seq<seq<Interval>>): (r: Result<seq<Interval>, StreamError>)
    ensures r.Failure? ==> r.error == NothingToExtend
    decreases |outputs|
  {
    if outputs == [] then
      Success(acc)
    else
      match Absorb(acc, outputs[0])
      case Failure(e) => Failure(e)
      case Success(next) => Reduce(next, outputs[1..])
  }

  lemma {:induction false} ReduceSnoc(acc: seq<Interval>, outputs: seq<seq<Interval>>, batch: seq<Interval>)
    ensures Reduce(acc, outputs + [batch]) ==
      match Reduce(acc, outputs)
      case Failure(e) => Failure(e)
      case Success(v) => Absorb(v, batch)
    decreases |outputs|
  {
    if outputs == [] {
      assert [batch][1..] == [];
    } else {
      assert (outputs + [batch])[1..] == outputs[1..] + [batch];
      if Absorb(acc, outputs[0]).Success? {
        ReduceSnoc(Absorb(acc, outputs[0]).value, outputs[1..], batch);
      }
    }
  }

  /** No answer opens with a continuation. */
  ghost predicate NoContinuation(outputs: seq<seq<Interval>>)
  {
    forall i :: 0 <= i < |outputs| && outputs[i] != [] ==> outputs[i][0].start != ContinuationMarker
  }

  /** When the model never continues an interval across a chunk boundary,
      the reduction is plain concatenation of its answers. */
  lemma {:induction false} ReduceWithoutContinuation(acc: seq<Interval>, outputs: seq<seq<Interval>>)
    requires NoContinuation(outputs)
    ensures Reduce(acc, outputs) == Success(acc + Flatten(outputs))
    decreases |outputs|
  {
    if outputs != [] {
      assert forall i :: 0 <= i < |outputs| - 1 ==> outputs[1..][i] == outputs[i + 1];
      assert outputs[0] == [] ==> acc + outputs[0] == acc;
      assert Absorb(acc, outputs[0]) == Success(acc + outputs[0]);
      ReduceWithoutContinuation(acc + outputs[0], outputs[1..]);
      assert acc + outputs[0] + Flatten(outputs[1..]) == acc + (outputs[0] + Flatten(outputs[1..]));
    } else {
      assert acc + Flatten(outputs) == acc;
    }
  }

  /** The first non-empty answer opens with a continuation. */
  predicate OpensWithContinuation(outputs: seq<seq<Interval>>)
  {
    outputs != [] &&
    if outputs[0] == [] then OpensWithContinuation(outputs[1..])
    else outputs[0][0].start == ContinuationMarker
  }

  /** The reduction fails exactly when a continuation arrives before any
      interval has been accumulated. */
  lemma {:induction false} ReduceFails(acc: seq<Interval>, outputs: seq<seq<Interval>>)
    ensures Reduce(acc, outputs).Failure? <==> acc == [] && OpensWithContinuation(outputs)
    decreases |outputs|
  {
    if outputs != [] {
      var a := Absorb(acc, outputs[0]);
      if a.Success? {
        ReduceFails(a.value, outputs[1..]);
        if outputs[0] != [] {
          assert a.value != [];
        }
      }
    }
  }

  function Markers(outputs: seq<seq<Interval>>): nat
  {
    if outputs == [] then 0
    else (if outputs[0] != [] && outputs[0][0].start == ContinuationMarker then 1 else 0) + Markers(outputs[1..])
  }

  /** Every interval of every answer ends up in the result, except the
      continuations, which are folded into an existing interval. */
  lemma {:induction false} ReduceLength(acc: seq<Interval>, outputs: seq<seq<Interval>>)
    requires Reduce(acc, outputs).Success?
    ensures |Reduce(acc, outputs).value| == |acc| + |Flatten(outputs)| - Markers(outputs)
    decreases |outputs|
  {
    if outputs != [] {
      ReduceLength(Absorb(acc, outputs[0]).value, outputs[1..]);
    }
  }

  /** Intervals accumulated before the reduction are left alone, except that
      the last one may get a new end; its start is kept. */
  lemma {:induction false} ReduceKeepsEarlier(acc: seq<Interval>, outputs: seq<seq<Interval>>)
    requires acc != [] && Reduce(acc, outputs).Success?
    ensures var v := Reduce(acc, outputs).value;
      && |v| >= |acc|
      && v[..|acc| - 1] == acc[..|acc| - 1]
      && v[|acc| - 1].start == acc[|acc| - 1].start
    decreases |outputs|
  {
    if outputs != [] {
      var next := Absorb(acc, outputs[0]).value;
      assert |next| >= |acc| && next[..|acc| - 1] == acc[..|acc| - 1] && next[|acc| - 1].start == acc[|acc| - 1].start;
      ReduceKeepsEarlier(next, outputs[1..]);
      var v := Reduce(acc, outputs).value;
      if |acc| < |next| {
        assert v[..|next| - 1][..|acc|] == next[..|next| - 1][..|acc|];
      }
    }
  }

  /** No interval starts at the continuation marker. */
  ghost predicate NoMarker(s: seq<Interval>)
  {
    forall k :: 0 <= k < |s| ==> s[k].start != ContinuationMarker
  }

  /** When the marker can appear only at the head of an answer, it never
      reaches the accumulated list. */
  lemma {:induction false} ReduceDropsMarkers(acc: seq<Interval>, outputs: seq<seq<Interval>>)
    requires NoMarker(acc)
    requires forall i :: 0 <= i < |outputs| && outputs[i] != [] ==> NoMarker(outputs[i][1..])
    requires Reduce(acc, outputs).Success?
    ensures NoMarker(Reduce(acc, outputs).value)
    decreases |outputs|
  {
    if outputs != [] {
      var b := outputs[0];
      if b != [] {
        assert b == [b[0]] + b[1..];
        assert NoMarker(b[1..]);
      }
      ReduceDropsMarkers(Absorb(acc, b).value, outputs[1..]);
    }
  }

  /** Number of calls the streaming loop makes when it is not stopped by an
      error (none when the stride is 0). */
  function CallCount(n: nat, sampleRate: nat): nat
  {
    if Stride(sampleRate) == 0 then 0 else ChunkCount(n, Stride(sampleRate))
  }

  /** The streaming branch of `routine`: the VAD calls it makes, in order,
      and the reduced interval list. `outputs[i]` is the model's answer to
      the i-th call. On a failure the last call made is the one whose answer
      failed: every answer before it was absorbed. */
  method StreamingVad(n: nat, sampleRate: nat, outputs: seq<seq<Interval>>)
    returns (calls: seq<Chunk>, r: Result<seq<Interval>, StreamError>)
    requires |outputs| == CallCount(n, sampleRate)
    ensures Stride(sampleRate) == 0 ==> calls == [] && r == Failure(ZeroStride)
    ensures Stride(sampleRate) > 0 ==> calls <= Chunks(n, Stride(sampleRate)) && calls != []
    ensures Stride(sampleRate) > 0 && r.Success? ==> calls == Chunks(n, Stride(sampleRate))
    ensures Stride(sampleRate) > 0 ==> r == Reduce([], outputs[..|calls|])
    ensures Stride(sampleRate) > 0 ==> (r.Success? <==> Reduce([], outputs).Success?)
    ensures r.Success? ==> r == Reduce([], outputs)
    ensures Stride(sampleRate) > 0 && r.Failure? ==> Reduce([], outputs[..|calls| - 1]).Success?
  {
    var stride := ChunkMs * sampleRate / 1000;
    if stride == 0 {
      return [], Failure(ZeroStride);
    }
    var total := n / stride + 1;
    var value: seq<Interval> := [];
    calls := [];
    var i := 0;
    while i < total
      invariant 0 <= i <= total
      invariant calls == Chunks(n, stride)[..i]
      invariant Reduce([], outputs[..i]) == Success(value)
    {
      StrideMul(n, stride, i);
      var chunk := Chunk(i * stride, Min((i + 1) * stride, n), i == total - 1);
      calls := calls + [chunk];
      var batch := outputs[i];
      ReduceSnoc([], outputs[..i], batch);
      assert outputs[..i + 1] == outputs[..i] + [batch];
      var step := AbsorbChunk(value, batch);
      if step.Failure? {
        ReduceFailsAfter(outputs, i + 1);
        return calls, step;
      }
      value := step.value;
      i := i + 1;
    }
    assert outputs[..i] == outputs;
    r := Success(value);
  }

  /** The reduction of one VAD answer into the accumulated list, as the
      loop body does it. */
  method AbsorbChunk(value: seq<Interval>, batch: seq<Interval>) returns (r: Result<seq<Interval>, StreamError>)
    ensures r == Absorb(value, batch)
  {
    if |batch| == 0 {
      return Success(value);
    }
    var acc := value;
    if batch[0].start == ContinuationMarker {
      if |acc| == 0 {
        return Failure(NothingToExtend);
      }
      acc := acc[..|acc| - 1] + [Interval(acc[|acc| - 1].start, batch[0].end)];
    } else {
      acc := acc + [batch[0]];
    }
    var base := acc;
    for j := 1 to |batch|
      invariant acc == base + batch[1..j]
    {
      acc := acc + [batch[j]];
    }
    assert batch == [batch[0]] + batch[1..];
    if batch[0].start == ContinuationMarker {
      assert acc == value[..|value| - 1] + [Interval(value[|value| - 1].start, batch[0].end)] + batch[1..];
    } else {
      assert acc == value + ([batch[0]] + batch[1..]);
    }
    return Success(acc);
  }

  /** Once the reduction of a prefix of the answers has failed, so has the
      reduction of all of them. */
  lemma ReduceFailsAfter(outputs: seq<seq<Interval>>, k: nat)
    requires k <= |outputs| && Reduce([], outputs[..k]).Failure?
    ensures Reduce([], outputs).Failure?
  {
    ReduceFails([], outputs[..k]);
    ReduceFails([], outputs);
    OpensPrefix(outputs, k);
  }

  lemma {:induction false} OpensPrefix(outputs: seq<seq<Interval>>, k: nat)
    requires k <= |outputs| && OpensWithContinuation(outputs[..k])
    ensures OpensWithContinuation(outputs)
  {
    assert outputs[..k][0] == outputs[0];
    if outputs[0] == [] {
      assert outputs[..k][1..] == outputs[1..][..k - 1];
      OpensPrefix(outputs[1..], k - 1);
    }
  }
}
