/** The worker loop of `main` (SSL/local/vad.py) and its checkpoint file.

    Rank `r` claims its shard of the remaining task lines and handles them
    in order. After each task the raw line joins a buffer. After task `i`
    (counting from 0), when `i > 0` and `i` is a multiple of the update
    interval, the buffer is appended to the rank's done file and emptied.
    When the loop ends the rest of the buffer is appended. An exception ends
    the worker and loses the buffer. The exception can come from a blank
    line, from the per-file routine, or from the modulo when the interval
    is 0. What the routine itself does to each file is modelled in Routine;
    here only the task index at which it raises, if any, is an input. */
module Checkpoint {
  import opened Wrappers
  import opened Arith
  import Tasks
  import Ledger

  /** The rank's `done_<rank>` file, opened for appending. */
  class DoneLog {
    var lines: seq<string>

    constructor (existing: seq<string>)
      ensures lines == existing
    {
      lines := existing;
    }

    /** One `print(line, file=f_done)` per buffered line. */
    method Append(batch: seq<string>)
      modifies this
      ensures lines == old(lines) + batch
    {
      for k := 0 to |batch|
        invariant lines == old(lines) + batch[..k]
      {
        lines := lines + [batch[k]];
      }
      assert batch[..|batch|] == batch;
    }
  }

  /** Why a worker stopped early, with the index of the task it was on. */
  datatype WorkerError =
    | BadLine(at: nat)        // the line has no token: `task_split[0]`
    | RoutineRaised(at: nat)  // the per-file routine raised
    | ZeroInterval(at: nat)   // `i % 0` with `i > 0`

  function Abs(k: int): nat
  {
    if k < 0 then -k else k
  }

  /** Python's `i % k == 0` for `k != 0`: `k` divides `i`, whatever its sign. */
  predicate FlushDue(i: nat, interval: int)
    requires interval != 0
  {
    i > 0 && i % Abs(interval) == 0
  }

  /** The first exception the worker meets from task `i` on, if any. */
  function FirstCrash(claimed: seq<string>, interval: int, raisesAt: Option<nat>, i: nat): (c: Option<WorkerError>)
    requires i <= |claimed|
    ensures c.Some? ==> i <= c.value.at < |claimed|
    decreases |claimed| - i
  {
    if i == |claimed| then None
    else if Tasks.Blank(claimed[i]) then Some(BadLine(i))
    else if raisesAt == Some(i) then Some(RoutineRaised(i))
    else if interval == 0 && i > 0 then Some(ZeroInterval(i))
    else FirstCrash(claimed, interval, raisesAt, i + 1)
  }

  /** How many of the first `n` handled tasks have reached the done file:
      all of them up to the last flush. */
  function FlushedPrefix(n: nat, interval: int): (f: nat)
    ensures f <= n
  {
    if n < 2 || interval == 0 then 0
    else if FlushDue(n - 1, interval) then n
    else FlushedPrefix(n - 1, interval)
  }

  /** How many claimed lines end up in the done file, given how the worker
      stopped. */
  function Logged(count: nat, interval: int, crash: Option<WorkerError>): nat
  {
    match crash
    case None => count
    case Some(e) => FlushedPrefix(e.at, interval)
  }

  /** `main(rank, ...)`: handles `order[rank::worldSize]` and appends the
      handled lines to `log`. */
  method RunShard(log: DoneLog, order: seq<string>, rank: nat, worldSize: nat, interval: int, raisesAt: Option<nat>)
    returns (crash: Option<WorkerError>)
    requires rank < worldSize
    modifies log
    ensures crash == FirstCrash(Ledger.Shard(order, rank, worldSize), interval, raisesAt, 0)
    ensures log.lines == old(log.lines)
      + Ledger.Shard(order, rank, worldSize)[..Logged(|Ledger.Shard(order, rank, worldSize)|, interval, crash)]
  {
    crash := RunClaimed(log, Ledger.Shard(order, rank, worldSize), interval, raisesAt);
  }

  /** The loop of `main` over the claimed lines. The done file gains exactly
      the claimed lines up to the last flush before the first exception, or
      every claimed line if there is none. */
  method RunClaimed(log: DoneLog, claimed: seq<string>, interval: int, raisesAt: Option<nat>)
    returns (crash: Option<WorkerError>)
    modifies log
    ensures crash == FirstCrash(claimed, interval, raisesAt, 0)
    ensures log.lines == old(log.lines) + claimed[..Logged(|claimed|, interval, crash)]
  {
    ghost var start := log.lines;
    ghost var flushed := 0;
    var doneTasks: seq<string> := [];
    for i := 0 to |claimed|
      invariant FirstCrash(claimed, interval, raisesAt, 0) == FirstCrash(claimed, interval, raisesAt, i)
      invariant interval == 0 ==> i <= 1
      invariant flushed == FlushedPrefix(i, interval) && flushed <= i
      invariant log.lines == start + claimed[..flushed]
      invariant doneTasks == claimed[flushed..i]
    {
      var task := claimed[i];
      var parsed := Tasks.ParseTask(task);
      Tasks.ParseFailsOnBlank(task);
      if parsed.Failure? {
        return Some(BadLine(i));
      }
      if raisesAt == Some(i) {
        return Some(RoutineRaised(i));
      }
      BufferGrows(start, claimed, flushed, i);
      doneTasks := doneTasks + [task];
      if i > 0 && interval == 0 {
        return Some(ZeroInterval(i));
      }
      CrashContinues(claimed, interval, raisesAt, i);
      FlushedStep(i, interval);
      if i > 0 && i % Abs(interval) == 0 {
        log.Append(doneTasks);
        doneTasks := [];
        flushed := i + 1;
      }
    }
    log.Append(doneTasks);
    BufferGrows(start, claimed, flushed, |claimed|);
    crash := None;
  }

  /** The buffer is the claim from the last flush up to task `i`, and the
      done file followed by it holds the claim through `i`. */
  lemma BufferGrows(start: seq<string>, claimed: seq<string>, f: nat, i: nat)
    requires f <= i <= |claimed|
    ensures (start + claimed[..f]) + claimed[f..i] == start + claimed[..i]
    ensures i < |claimed| ==> claimed[f..i] + [claimed[i]] == claimed[f..i + 1]
  {
    assert claimed[..f] + claimed[f..i] == claimed[..i];
  }

  /** A task that neither raises nor trips the zero interval passes the
      first exception on to the next task. */
  lemma CrashContinues(claimed: seq<string>, interval: int, raisesAt: Option<nat>, i: nat)
    requires i < |claimed| && !Tasks.Blank(claimed[i])
    requires raisesAt != Some(i) && (interval == 0 ==> i == 0)
    ensures FirstCrash(claimed, interval, raisesAt, i) == FirstCrash(claimed, interval, raisesAt, i + 1)
  {
  }

  /** One more handled task moves the flushed prefix to the end exactly
      when a flush is due. */
  lemma FlushedStep(i: nat, interval: int)
    requires interval == 0 ==> i == 0
    ensures interval != 0 && FlushDue(i, interval) ==> FlushedPrefix(i + 1, interval) == i + 1
    ensures !(interval != 0 && FlushDue(i, interval)) ==> FlushedPrefix(i + 1, interval) == FlushedPrefix(i, interval)
  {
  }

  /** Lines still waiting in the buffer after `n` handled tasks. */
  function Pending(n: nat, k: nat): nat
    requires k > 0
  {
    if n <= k then n else (n - 1) % k
  }

  /** After `n` handled tasks with a non-zero interval `k`, the buffer
      holds the tasks since the last flush: all `n` before the first flush
      (at task index `|k|`), then `(n - 1) mod |k|`. */
  lemma {:induction false} FlushedPrefixLag(n: nat, interval: int)
    requires interval != 0
    ensures n - FlushedPrefix(n, interval) == Pending(n, Abs(interval))
  {
    var k := Abs(interval);
    if n >= 2 && !FlushDue(n - 1, interval) {
      FlushedPrefixLag(n - 1, interval);
      if n > k {
        DivUnique(k, k, 1, 0);
        ModSucc(n - 2, k);
      }
    } else if n >= 2 {
      if n <= k {
        MultipleAtLeast(n - 1, k);
      }
    }
  }

  /** A crash loses at most `|interval|` handled tasks: the buffer never
      holds more. */
  lemma FlushLag(n: nat, interval: int)
    requires interval != 0
    ensures n - Abs(interval) <= FlushedPrefix(n, interval) <= n
  {
    FlushedPrefixLag(n, interval);
  }

  /** With the default interval of 100, a worker that dies on its 251st
      task (index 250) has logged 201 lines: the flushes after indices 100
      and 200. */
  lemma DefaultIntervalExample()
    ensures FlushedPrefix(250, 100) == 201
    ensures FlushedPrefix(100, 100) == 0 && FlushedPrefix(101, 100) == 101
  {
    FlushedPrefixLag(250, 100);
    FlushedPrefixLag(100, 100);
    FlushedPrefixLag(101, 100);
    DivUnique(249, 100, 2, 49);
    DivUnique(100, 100, 1, 0);
  }

  /** The worker finishes exactly when every claimed line has a token, the
      routine raises on none of them, and the interval is non-zero or there
      is at most one claimed line. */
  lemma {:induction false} FirstCrashSpec(claimed: seq<string>, interval: int, raisesAt: Option<nat>, i: nat)
    requires i <= |claimed|
    ensures FirstCrash(claimed, interval, raisesAt, i).None? <==>
      (forall k :: i <= k < |claimed| ==> !Tasks.Blank(claimed[k]))
      && (raisesAt.None? || raisesAt.value < i || raisesAt.value >= |claimed|)
      && (interval != 0 || |claimed| <= 1 || i == |claimed|)
    decreases |claimed| - i
  {
    if i < |claimed| {
      FirstCrashSpec(claimed, interval, raisesAt, i + 1);
    }
  }

  /** When the worker stops, it stops at the first task that raises: every
      earlier task has a token, the routine does not raise on it and the
      modulo does not fail there; the task it stops at raises for the
      reason given, checked in the loop's order. */
  lemma {:induction false} FirstCrashIsFirst(claimed: seq<string>, interval: int, raisesAt: Option<nat>, i: nat)
    requires i <= |claimed|
    ensures var c := FirstCrash(claimed, interval, raisesAt, i);
      c.Some? ==>
        && (forall k :: i <= k < c.value.at ==>
              !Tasks.Blank(claimed[k]) && raisesAt != Some(k) && (interval == 0 ==> k == 0))
        && (c.value.BadLine? ==> Tasks.Blank(claimed[c.value.at]))
        && (c.value.RoutineRaised? ==>
              !Tasks.Blank(claimed[c.value.at]) && raisesAt == Some(c.value.at))
        && (c.value.ZeroInterval? ==>
              !Tasks.Blank(claimed[c.value.at]) && raisesAt != Some(c.value.at)
              && interval == 0 && c.value.at > 0)
    decreases |claimed| - i
  {
    if i < |claimed| {
      FirstCrashIsFirst(claimed, interval, raisesAt, i + 1);
    }
  }

  /** What a worker leaves in its done file is a prefix of its claim: all of
      it when it finishes, and when it crashes on task `c` with a non-zero
      interval, all but at most `|interval|` of the tasks before `c`. */
  lemma LoggedPrefix(claimed: seq<string>, interval: int, raisesAt: Option<nat>)
    ensures var crash := FirstCrash(claimed, interval, raisesAt, 0);
      && Logged(|claimed|, interval, crash) <= |claimed|
      && (crash.None? ==> Logged(|claimed|, interval, crash) == |claimed|)
      && (crash.Some? && interval != 0 ==>
            crash.value.at - Abs(interval) <= Logged(|claimed|, interval, crash) <= crash.value.at)
  {
    var crash := FirstCrash(claimed, interval, raisesAt, 0);
    FirstCrashSpec(claimed, interval, raisesAt, 0);
    if crash.Some? && interval != 0 {
      FlushLag(crash.value.at, interval);
    }
  }
}
