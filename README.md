# A verified model of the VAD segmentation worker

This project models the core of `SSL/local/vad.py` in Dafny. That script cuts long audio recordings into
bounded-length speech clips. A voice activity detector (VAD) finds the speech, and many worker processes
share one task manifest so that a stopped run can be resumed.

The model covers six pieces of the script:

- **Merger** (`merge_segment`): folds the detector's speech intervals into longer ones. It uses a forced
  length cut, a silence-gap cut and a minimum-duration filter.
- **Streaming** (the chunked branch of `routine`):
  - cuts a recording into 200 ms chunks;
  - reduces the detector's per-chunk answers into one interval list, where a leading start of `-1`
    extends the last interval instead of adding a new one.
- **Splitter**: cuts a merged interval, converted to sample indices, into `round(span / max_size)`
  pieces of `ceil(span / n)` samples.
- **Routine**: the per-file routine as a whole.
  - An unreadable file is skipped.
  - A short recording is dropped or copied whole (the fast path).
  - Otherwise the recording goes through detection, merging and splitting, and piece `j` of merged
    interval `i` becomes clip `i-j.wav`.
- **Tasks**: parsing of one manifest line. The first whitespace-separated token is the audio path. The
  optional second token is the output name, which defaults to the path's base name without its
  extension.
- **Ledger and Checkpoint**:
  - the remaining tasks are the manifest lines minus the done lines, as sets;
  - rank `r` of `W` claims `remaining[r::W]`;
  - each worker buffers the lines it has handled, and after task `i` appends the buffer to its own done
    file when `i > 0` and `i % interval == 0`, then once more at the end.

The script works step by step in several places, and the model keeps that form:
- `MergeSegment`, `StreamingVad` and `AbsorbChunk`, `CutRange`, `WriteClips` and `WritePieces`, and
  `RunClaimed` are methods with loops.
- `SplitRange`, `RunRoutine` and `RunShard` are methods without loops of their own. They call the
  methods above.
- The done file is a class (`DoneLog`) whose `Append` method grows its lines, one line at a time.

Each of these methods is proved equal to a specification function, and the properties are proved as
lemmas about those functions. The pure parts are functions: line parsing, the strided slice, the set
difference and the fast-path decision.

Units and arithmetic:
- All durations are integer milliseconds, and positions are integer sample indices.
- A recording of `n` samples at rate `sr` is "no longer than `ms` milliseconds" when
  `1000 * n <= ms * sr`.
- `int(...)` truncates toward zero.
- Python's `round` rounds half to even, exactly.
- A Python exception is a `Failure` value naming its cause. The causes are:
  - a zero stride, sample rate or maximum size;
  - a missing maximum duration;
  - a continuation with nothing to extend;
  - a blank manifest line;
  - `i % 0`.

Some consequences of the code that a reader might not expect:

- The merge of `[(0,1000),(1200,2000),(2100,9000)]` with thresholds of 10 s, 2 s and 0.5 s is
  the single interval `[(0,9000)]`, because both gaps are shorter than 0.5 s
  (`Merger.MergeExample`).
- A 65 s interval with a 30 s maximum at 16 kHz is cut into 2 pieces of 32.5 s, because `round(65/30)`
  is 2 (`Splitter.SplitExample`).
- Pieces are therefore not always within the maximum. The code guarantees
  `2 * step <= 3 * max_size`, that is, at most one and a half times the maximum
  (`Splitter.StepBound`).
- An unreadable recording makes `routine` return normally, so the worker logs the task as done and never
  retries it (`Routine.RoutineOutcomes`).
- A blank manifest line does not stop the run at startup. It raises inside the worker that claims it,
  which loses that worker's unflushed buffer (`Checkpoint.RunClaimed`).
- The first flush comes after `interval + 1` tasks (indices `0..interval`), and later flushes come every
  `interval` tasks (`Checkpoint.DefaultIntervalExample`).
- The `max_duration is None` branch of the splitter cannot be reached: with no maximum the fast-path
  comparison raises first. The model keeps the branch as written.

## Model

| member | source | states |
|---|---|---|
| Merger.Fold | SSL/local/vad.py:66-87 | definition: the running interval is flushed on a forced cut (longer than the merge time), flushed only above the minimum on a gap cut (silence longer than the blank time), and otherwise extended to the next interval's end; the last one is flushed only above the minimum |
| Merger.Merge | SSL/local/vad.py:58-89 | definition: with no merge time the intervals are returned unchanged; otherwise the first interval starts the fold of the rest |
| Merger.MergeSegment | SSL/local/vad.py:58-89 | the loop computes `Merge`; with no merge time the input is returned unchanged, and an empty input gives an empty output |
| Merger.MergeKeepsLong | SSL/local/vad.py:73-87 | every merged interval lasts longer than the minimum time or longer than the merge time, so only a forced length cut lets a short interval through |
| Merger.FoldKeepsLong | SSL/local/vad.py:73-87 | the same bound for the fold from any running interval |
| Merger.MergeProvenance | SSL/local/vad.py:66-87 | each merged interval runs from the start of some input interval to the end of the same or a later one; the runs behind consecutive outputs are disjoint and in input order; there are no more outputs than inputs |
| Merger.FoldRuns | SSL/local/vad.py:66-87 | the same provenance for the fold from a running interval that spans inputs `a..j` |
| Merger.RunsCons | SSL/local/vad.py:73-80 | a flushed running interval spanning inputs `a..j`, put in front of outputs whose runs start after `j`, keeps the runs disjoint and in input order |
| Merger.MergeOrdered | SSL/local/vad.py:66-87 | for sorted, non-overlapping input intervals of positive length, the merged intervals are sorted, non-overlapping, of positive length and no more than the inputs |
| Merger.OrderedSpan | SSL/local/vad.py:66-87 | in sorted, non-overlapping intervals an earlier one ends before any later one starts |
| Merger.MergeExample | SSL/local/vad.py:58-89 | the three-interval example merges into the single interval 0-9000 ms |
| Streaming.Stride | SSL/local/vad.py:29-30 | definition: a chunk holds `int(200 * sample_rate / 1000)` samples |
| Streaming.ChunkCount | SSL/local/vad.py:33 | definition: `n / stride + 1` calls, since the `- 1` applies to every sample and not to the length |
| Streaming.ChunkAt | SSL/local/vad.py:36-37 | definition: call `i` gets `speech[i * stride : (i + 1) * stride]`, cut at the end of the recording, and is final when it is the last call |
| Streaming.Chunks | SSL/local/vad.py:35-37 | definition: all calls, in the order they are made |
| Streaming.CallCount | SSL/local/vad.py:29-35 | definition: the number of chunk calls, `n / stride + 1`, and none when the stride is 0, where the division raises before any call |
| Streaming.ChunkAtBounds | SSL/local/vad.py:33-36 | chunk `i` starts at `i * stride`; every chunk but the last has `stride` samples, and the last one ends at the signal's end with `n mod stride` samples |
| Streaming.InnerChunk | SSL/local/vad.py:33-36 | a chunk before the last holds `stride` samples and ends where the next one starts |
| Streaming.LastChunk | SSL/local/vad.py:33-36 | the last chunk ends at the signal's end, holds fewer than `stride` samples, and is empty exactly when the stride divides the length |
| Streaming.ChunksTile | SSL/local/vad.py:30-37 | there are `n / stride + 1` chunks; they are contiguous, start at 0 and end at `n`; the last is empty exactly when the stride divides `n`; only the last is marked final |
| Streaming.JoinedContiguous | SSL/local/vad.py:35-36 | contiguous chunks put back together give the signal between the first start and the last end |
| Streaming.ChunksCoverSpeech | SSL/local/vad.py:35-36 | the chunks put back together give exactly the whole signal |
| Streaming.Absorb | SSL/local/vad.py:46-53 | one answer fails to reduce exactly when it opens with a continuation while nothing has been accumulated, and then fails with nothing-to-extend |
| Streaming.Reduce | SSL/local/vad.py:46-53 | the reduction of all answers can fail only with nothing-to-extend |
| Streaming.ReduceSnoc | SSL/local/vad.py:46-53 | reducing one more answer is reducing the earlier ones, then absorbing the new one |
| Streaming.ReduceWithoutContinuation | SSL/local/vad.py:46-53 | with no continuation markers, the reduction appends every answer in call order |
| Streaming.ReduceFails | SSL/local/vad.py:47-48 | the reduction fails exactly when nothing has been accumulated and the first non-empty answer opens with a continuation |
| Streaming.ReduceLength | SSL/local/vad.py:46-53 | the reduced list has as many intervals as were accumulated plus all answered ones, minus one per continuation marker |
| Streaming.ReduceKeepsEarlier | SSL/local/vad.py:46-53 | earlier accumulated intervals are never changed, except that the last one keeps its start and may get a new end |
| Streaming.ReduceDropsMarkers | SSL/local/vad.py:46-53 | if markers only ever come first in an answer, none is left in the reduced list |
| Streaming.OpensPrefix | SSL/local/vad.py:46-53 | if the first answers open with a continuation, so do all answers |
| Streaming.ReduceFailsAfter | SSL/local/vad.py:46-53 | a reduction that fails on the first answers fails on all of them |
| Streaming.StreamingVad | SSL/local/vad.py:28-53 | with a zero stride it makes no call and fails; otherwise its calls are a non-empty prefix of the chunks, all of them when it succeeds, and its result is the reduction of the answers it received, which succeeds exactly when the full reduction does; when it fails, it stops at the first failing answer, since the answers before the last call reduce successfully |
| Streaming.AbsorbChunk | SSL/local/vad.py:46-53 | the loop body computes `Absorb` |
| Splitter.MsToIndex | SSL/local/vad.py:98-99 | definition: `int(ms * sample_rate / 1000)`, truncating toward zero |
| Splitter.MaxSize | SSL/local/vad.py:95-96 | definition: the maximum duration in samples |
| Splitter.RoundHalfEven | SSL/local/vad.py:102 | definition: Python's `round` of the quotient, halves to the even neighbour |
| Splitter.CeilDiv | SSL/local/vad.py:103 | definition: `math.ceil` of the quotient |
| Splitter.Step | SSL/local/vad.py:102-103 | definition: `math.ceil(span / round(span / max_size))`, the length of every piece but the last |
| Splitter.Pieces | SSL/local/vad.py:104-108 | definition: `speech[l : min(l + step, end)]` for each `l` in `range(start, end, step)` |
| Splitter.Split | SSL/local/vad.py:100-110 | definition: one piece unless a maximum is set and exceeded; a zero maximum raises; otherwise the range is cut into pieces of `step` samples |
| Splitter.PieceCount | SSL/local/vad.py:102 | a span longer than the maximum is cut into at least one piece |
| Splitter.RoundPositive | SSL/local/vad.py:102 | `round(span / max_size)` is at least 1 when the span exceeds the maximum |
| Splitter.DivAtLeastOne | SSL/local/vad.py:102 | proof helper for `Splitter.RoundPositive`: a quotient of a number by a smaller or equal positive one is at least 1 |
| Splitter.SplitRange | SSL/local/vad.py:95-110 | the splitter computes `Split` |
| Splitter.CutRange | SSL/local/vad.py:104-108 | the piece loop computes `Pieces` |
| Splitter.PiecesTile | SSL/local/vad.py:104-108 | the pieces are non-empty and contiguous, start at the start index and end at the end index; all but the last have exactly `step` samples and the last has at most `step` |
| Splitter.PiecesCount | SSL/local/vad.py:103-104 | there are `ceil(span / step)` pieces |
| Splitter.CeilDivStep | SSL/local/vad.py:103 | adding one divisor to the dividend adds one to the ceiling quotient |
| Splitter.CeilDivOne | SSL/local/vad.py:103 | the ceiling quotient of a positive number by a larger or equal one is 1 |
| Splitter.CeilDivBounds | SSL/local/vad.py:103 | `ceil(a / b) * b` lies between `a` and `a + b - 1` |
| Splitter.CeilDivAtMost | SSL/local/vad.py:103 | `ceil(a / b)` is at most any `n` with `a <= b * n` |
| Splitter.RoundBound | SSL/local/vad.py:102 | `round(span / max_size)` is within half a step: `2 * span <= (2n + 1) * max_size` |
| Splitter.StepBound | SSL/local/vad.py:102-103 | `n` pieces of `step` samples cover the span, and `2 * step <= 3 * max_size`: a piece is at most one and a half times the maximum |
| Splitter.SplitTiles | SSL/local/vad.py:95-110 | without a maximum, or for a span within it, there is exactly one piece; a zero maximum fails exactly when the span is positive; otherwise there are between 1 and `n` pieces that tile the range |
| Splitter.LongSplit | SSL/local/vad.py:101-108 | the pieces of a range longer than a positive maximum: between 1 and `n` of them, tiling the range, each at most `step` and at most one and a half times the maximum (`2 * len <= 3 * max_size`) |
| Splitter.PiecesShort | SSL/local/vad.py:104-108 | pieces of at most `step` samples are at most one and a half times the maximum when `step` is |
| Splitter.SplitExample | SSL/local/vad.py:95-103 | 65 s at 16 kHz with a 30 s maximum gives two pieces of 520000 samples |
| Tasks.Tokens | SSL/local/vad.py:135 | definition: `str.split()`, the maximal runs of non-whitespace in order |
| Tasks.IsSpace | SSL/local/vad.py:135 | definition: the characters `str.split()` separates on, those of `str.isspace`: code points 9-13 and 28-32 (the ASCII separators 28-31 included), U+0085, U+00A0, U+1680, U+2000-U+200A, U+2028, U+2029, U+202F, U+205F and U+3000 |
| Tasks.Stem | SSL/local/vad.py:140 | definition: `os.path.splitext(...)[0]`, which keeps a name whose only dots lead it |
| Tasks.ParseTask | SSL/local/vad.py:135-140 | definition: the first token is the path, and the second, when present, the output name; otherwise the path's base name without extension; no token raises |
| Tasks.Word | SSL/local/vad.py:135 | the first word is the longest whitespace-free prefix |
| Tasks.TokensWellFormed | SSL/local/vad.py:135 | every token of `str.split()` is non-empty and holds no whitespace |
| Tasks.TokensKeepText | SSL/local/vad.py:135 | the tokens put back together are the line without its whitespace |
| Tasks.SqueezedAppend | SSL/local/vad.py:135 | removing whitespace distributes over concatenation |
| Tasks.SqueezedNoSpace | SSL/local/vad.py:135 | removing whitespace leaves a whitespace-free text unchanged |
| Tasks.NoTokensAllSpace | SSL/local/vad.py:135-136 | a line has no token exactly when it is all whitespace |
| Tasks.WordOfJoin | SSL/local/vad.py:135 | the first word of a word followed by whitespace is that word |
| Tasks.TokensOfJoin | SSL/local/vad.py:135 | splitting undoes joining well-formed tokens with spaces |
| Tasks.LastIndex | SSL/local/vad.py:140 | the index found holds the character and no later index does; no index means the character is absent |
| Tasks.LastIndexAtLeast | SSL/local/vad.py:140 | the last occurrence is at or after any occurrence |
| Tasks.LastIndexOf | SSL/local/vad.py:140 | an occurrence with no later one is the one found |
| Tasks.Basename | SSL/local/vad.py:140 | the base name is the longest `/`-free suffix of the path |
| Tasks.StemOfExtended | SSL/local/vad.py:140 | removing the extension undoes adding a dot-free extension to a name that is not all dots |
| Tasks.StemWithoutDot | SSL/local/vad.py:140 | a name without a dot has no extension |
| Tasks.ParseFailsOnBlank | SSL/local/vad.py:135-136 | parsing fails exactly on a blank line |
| Tasks.ParseTaskSpec | SSL/local/vad.py:135-136 | parsing fails exactly on a blank line, and a parsed path is a non-empty run of non-whitespace |
| Tasks.TokensSkipBlank | SSL/local/vad.py:135 | leading whitespace does not change the tokens |
| Tasks.TokensSplit | SSL/local/vad.py:135 | a maximal run of non-whitespace after any whitespace is the next token, kept whole |
| Tasks.ParseWithName | SSL/local/vad.py:135-138 | a line holding a path and a name, with any whitespace before, between and after them and any further tokens, gives that path and that name |
| Tasks.ParseWithoutName | SSL/local/vad.py:135-140 | a line holding only a path, with any whitespace around it, gives the path and its base name without extension |
| Ledger.Remaining | SSL/local/vad.py:186 | definition: the set of manifest lines minus the set of done lines |
| Ledger.Shard | SSL/local/vad.py:134 | definition: the slice `tasks[start::step]` |
| Ledger.RemainingSpec | SSL/local/vad.py:186 | a task remains exactly when it is a manifest line and no done line; duplicate lines count once, so there are never more remaining tasks than manifest lines |
| Ledger.SetOfSeqSize | SSL/local/vad.py:186 | a sequence has no more distinct elements than positions |
| Ledger.ShardAt | SSL/local/vad.py:134 | the `k`-th claimed task is the task at `rank + k * W` |
| Ledger.ShardMembers | SSL/local/vad.py:134 | the claimed tasks are exactly those at the rank's position and every `W` positions after it |
| Ledger.OffsetMod | SSL/local/vad.py:134 | for a rank below `W`, being at or after the rank and a multiple of `W` away from it means leaving the rank as remainder |
| Ledger.ShardOwner | SSL/local/vad.py:134 | with distinct tasks, the task at position `i` is claimed by rank `i mod W` and by no other |
| Ledger.ShardOwnerAt | SSL/local/vad.py:134 | a claimed task sits at a position that leaves the rank as remainder |
| Ledger.ShardHas | SSL/local/vad.py:134 | rank `i mod W` claims the task at position `i` |
| Ledger.ShardsDisjoint | SSL/local/vad.py:134 | with distinct tasks, no two ranks claim the same task |
| Ledger.Claimer | SSL/local/vad.py:134 | some rank claims each remaining task |
| Ledger.ShardsPartition | SSL/local/vad.py:134 | the claims of the `W` ranks are pairwise disjoint and their union is the remaining set |
| Ledger.ShardNoDuplicates | SSL/local/vad.py:134 | with distinct tasks, a rank claims each task at most once |
| Ledger.ClaimedIsRemaining | SSL/local/vad.py:134 | every claimed task is a remaining task |
| Ledger.RerunFindsNothing | SSL/local/vad.py:186 | once every rank has logged all it claimed, the next run has nothing left to do |
| Ledger.UnloggedTask | SSL/local/vad.py:143-153 | a task a rank claimed but did not log is in no done file |
| Ledger.ResumeAfterCrash | SSL/local/vad.py:143-153 | if ranks logged only prefixes of their claims, the next run has no new task and redoes every claimed but unlogged one |
| Seqs.InFlatten | SSL/local/vad.py:182-184 | a line of any done file is among the done lines |
| Seqs.FlattenMembers | SSL/local/vad.py:182-184 | every done line comes from some done file |
| Checkpoint.DoneLog.Append | SSL/local/vad.py:151-153 | the done file gains the buffered lines, in order, after what it held |
| Checkpoint.FirstCrash | SSL/local/vad.py:134-144 | the first exception, if any, is raised at a claimed task from the given index on |
| Checkpoint.FlushDue | SSL/local/vad.py:144 | definition: `i > 0 and i % interval == 0` for a non-zero interval, whatever its sign |
| Checkpoint.Logged | SSL/local/vad.py:143-153 | definition: the whole claim when the worker finishes, else the lines flushed before the crash |
| Checkpoint.FirstCrashSpec | SSL/local/vad.py:134-144 | the worker finishes exactly when no claimed line is blank, the routine raises on none of them, and the interval is non-zero or there is at most one claimed line |
| Checkpoint.FirstCrashIsFirst | SSL/local/vad.py:134-144 | a worker that stops stops at the first task that raises: every earlier task has a token, does not make the routine raise and does not hit `i % 0`; the task it stops at fails for the reason recorded, in the loop's order (blank line, then the routine, then the modulo) |
| Checkpoint.FlushedPrefix | SSL/local/vad.py:144-149 | no more lines are flushed than were handled |
| Checkpoint.FlushedStep | SSL/local/vad.py:144-149 | one more handled task moves the flushed prefix to the end exactly when a flush is due |
| Checkpoint.FlushedPrefixLag | SSL/local/vad.py:144-149 | after `n` handled tasks the buffer holds all `n` before the first flush, and then `(n - 1) mod interval` |
| Checkpoint.FlushLag | SSL/local/vad.py:144-149 | with a non-zero interval, the buffer never holds more than `abs(interval)` handled tasks after the check, so a crash loses at most that many |
| Checkpoint.DefaultIntervalExample | SSL/local/vad.py:144 | with an interval of 100, a worker that dies at index 250 has logged 201 lines, none after index 99 and all 101 after index 100 |
| Checkpoint.RunShard | SSL/local/vad.py:134-153 | a worker over `remaining[rank::W]` stops at the first exception, and its done file gains exactly its claimed lines up to the last flush before that exception, or all of them |
| Checkpoint.RunClaimed | SSL/local/vad.py:134-153 | the same for the loop over the claimed lines |
| Checkpoint.LoggedPrefix | SSL/local/vad.py:142-153 | the done file gains a prefix of the claim: all of it when the worker finishes, and otherwise, with a non-zero interval, all but at most `abs(interval)` of the tasks handled before the crash |
| Routine.AtMost | SSL/local/vad.py:20-21 | definition: `len / sample_rate <= duration`, compared exactly rather than after a rounded division |
| Routine.FastPath | SSL/local/vad.py:20-24 | definition: a recording within the maximum is dropped when also within the minimum and copied whole otherwise; a longer one is segmented; a missing maximum or a zero sample rate raises |
| Routine.FastPathMonotone | SSL/local/vad.py:20-24 | a recording is dropped, copied or segmented by its length alone, and a longer recording never takes an earlier one of these routes |
| Routine.ClipsOf | SSL/local/vad.py:111-112 | one clip per piece, with the piece's range and the merged interval's index, in strictly increasing name order, so no two clips of one interval share a file name |
| Routine.CutFrom | SSL/local/vad.py:97-112 | definition: the clips of every merged interval from `i` on, in order, or the first split error |
| Routine.WriteClips | SSL/local/vad.py:97-112 | the loop writes the clips `CutFrom` describes, or stops at the first failing split |
| Routine.WritePieces | SSL/local/vad.py:111-112 | the inner loop writes one clip per piece, numbered from 0 in order, with the piece's range |
| Routine.CutFromOrdered | SSL/local/vad.py:97-112 | clips come out in strictly increasing (interval, piece) order, belong to existing merged intervals, and the clips of each interval are numbered `0, 1, 2, …` without gaps |
| Routine.NumberedAppend | SSL/local/vad.py:111-112 | the clips of one merged interval, numbered by `enumerate`, keep the gapless numbering when put before the clips of later intervals |
| Routine.OrderedDistinct | SSL/local/vad.py:111-112 | clips in increasing name order never share a name |
| Routine.RoutineResult | SSL/local/vad.py:12-112 | definition: unreadable file, fast path, then detection (whole file or chunked), merging and cutting into clips |
| Routine.RunRoutine | SSL/local/vad.py:12-112 | the per-file routine computes `RoutineResult` |
| Routine.RoutineOutcomes | SSL/local/vad.py:12-112 | an unreadable file is not an error; a missing maximum always raises on a readable file (on the sample rate when it is 0, on the comparison otherwise); clips are written only for recordings longer than the maximum, never two under one name, and the clips of each merged interval are numbered `i-0`, `i-1`, … without gaps |
| Arith.DivUnique | SSL/local/vad.py:102-103 | proof helper for the ceiling and remainder lemmas: integer division is determined by its quotient and remainder |
| Arith.ModSucc | SSL/local/vad.py:144 | proof helper for `Checkpoint.FlushedPrefixLag`: counting up by one moves the remainder up by one or wraps it to 0 |

## Left out

- Audio reading and writing (`sf.read`, `sf.write`), the `cp` of a short recording and `os.makedirs`
  are left out. A read is given as a recording or as nothing, and a written clip is a value.
- The detector is left out. It is a foreign model with hidden state, so its answers (for the whole file,
  or one per chunk) are inputs. Whether chunked and whole-file detection agree depends on that model and
  is not stated.
- Reading the manifest and the done files is left out: they are given as sequences of lines. So is the
  crash of `done_lines.expand` at SSL/local/vad.py:184.
- Argument parsing, the torch device choice, `tqdm`, and spawning and joining the worker processes are
  left out. One worker's loop and the static partition are modelled; the workers' concurrency is not.
- Checkpoint.RunShard: which task makes the routine raise is an input (`raisesAt`). It is not derived
  from `Routine.RoutineResult`, because that would need every claimed file's recording and detector
  answers.
- Checkpoint.DoneLog.Append: lines are written and read back as whole lines. `str.splitlines` breaks
  lines at more characters than `print` writes, and that difference is not modelled.
- Floating point is left out. Thresholds are integer milliseconds, so the seconds-based comparisons, the
  `/1000` divisions, `int(max_duration * sample_rate)` and the true division before `round` and
  `math.ceil` are exact in the model.
- Streaming.ChunkCount: the chunk count is exactly `n / stride + 1`. A float quotient that rounds up
  near an integer is not modelled.
- A negative maximum duration is not modelled: the maximum (`maxMs` in `Routine.Config`) is a natural
  number of milliseconds.
- Tasks.ParseTask: the path and name are taken as text. `os.path.join` and the shell quoting of the
  `cp` command are not modelled.
- `list(set(...))` orders the remaining tasks in a way Python does not fix. The model takes the order as
  an input that lists the set without repetition (`Ledger.Lists`).
