/** The task ledger and the static sharding (SSL/local/vad.py, the end of
    the `__main__` block and the head of the loop in `main`).

    The tasks still to do are the manifest lines minus the lines of every
    done file, as sets. `list(...)` of that set fixes some order, which this
    model takes as an input `order` that lists the set without repetition.
    Rank `r` of `W` workers claims `order[r::W]`. */
module Ledger {
  import opened Arith
  import opened Seqs

  /** `set(task_lines) - set(done_lines)`. */
  function Remaining(taskLines: seq<string>, doneLines: seq<string>): set<string>
  {
    (set t | t in taskLines) - (set t | t in doneLines)
  }

  ghost predicate NoDuplicates<T>(s: seq<T>)
  {
    forall i, j :: 0 <= i < j < |s| ==> s[i] != s[j]
  }

  /** `order` lists the set `s`, each element once: what `list(s)` yields. */
  ghost predicate Lists<T>(order: seq<T>, s: set<T>)
  {
    NoDuplicates(order) && (set x | x in order) == s
  }

  /** A remaining task is a manifest line that no done file holds;
      repeated manifest lines count once, so there are never more
      remaining tasks than manifest lines. */
  lemma RemainingSpec(taskLines: seq<string>, doneLines: seq<string>)
    ensures forall t :: t in Remaining(taskLines, doneLines) <==> t in taskLines && t !in doneLines
    ensures |Remaining(taskLines, doneLines)| <= |taskLines|
  {
    SetOfSeqSize(taskLines);
    assert Remaining(taskLines, doneLines) <= set t | t in taskLines;
    SubsetSize(Remaining(taskLines, doneLines), set t | t in taskLines);
  }

  lemma {:induction false} SetOfSeqSize<T>(s: seq<T>)
    ensures |set x | x in s| <= |s|
  {
    if s != [] {
      SetOfSeqSize(s[1..]);
      assert (set x | x in s) == (set x | x in s[1..]) + {s[0]};
    }
  }

  lemma SubsetSize<T>(a: set<T>, b: set<T>)
    requires a <= b
    ensures |a| <= |b|
  {
    assert b == a + (b - a);
  }

  /** `tasks[start::step]`. */
  function Shard<T>(tasks: seq<T>, start: nat, step: nat): seq<T>
    requires step > 0
    decreases |tasks| - start
  {
    if start >= |tasks| then [] else [tasks[start]] + Shard(tasks, start + step, step)
  }

  /** The k-th claimed task is `tasks[start + k * step]`. */
  lemma {:induction false} ShardAt<T>(tasks: seq<T>, start: nat, step: nat)
    requires step > 0
    ensures forall k :: 0 <= k < |Shard(tasks, start, step)| ==>
      start + k * step < |tasks| && Shard(tasks, start, step)[k] == tasks[start + k * step]
    decreases |tasks| - start
  {
    if start < |tasks| {
      ShardAt(tasks, start + step, step);
      var sh, rest := Shard(tasks, start, step), Shard(tasks, start + step, step);
      forall k | 1 <= k < |sh|
        ensures start + k * step < |tasks| && sh[k] == tasks[start + k * step]
      {
        assert sh[k] == rest[k - 1];
        assert start + step + (k - 1) * step == start + k * step;
      }
    }
  }

  /** The tasks claimed from `start` are those at `start` and every `step`
      positions after it. */
  lemma {:induction false} ShardMembers<T>(tasks: seq<T>, start: nat, step: nat)
    requires step > 0
    ensures forall i :: start <= i < |tasks| && (i - start) % step == 0 ==> tasks[i] in Shard(tasks, start, step)
    ensures forall x :: x in Shard(tasks, start, step) ==>
      exists i :: start <= i < |tasks| && (i - start) % step == 0 && tasks[i] == x
    decreases |tasks| - start
  {
    if start < |tasks| {
      ShardMembers(tasks, start + step, step);
      var rest := Shard(tasks, start + step, step);
      forall i | start < i < |tasks| && (i - start) % step == 0
        ensures tasks[i] in rest
      {
        MultipleAtLeast(i - start, step);
        ModShift(i - start - step, step);
      }
      forall x | x in rest
        ensures exists i :: start <= i < |tasks| && (i - start) % step == 0 && tasks[i] == x
      {
        var i :| start + step <= i < |tasks| && (i - start - step) % step == 0 && tasks[i] == x;
        ModShift(i - start - step, step);
      }
      assert tasks[start] == tasks[start];
      assert (start - start) % step == 0;
    }
  }

  /** For a rank below the number of workers, "at or after the rank and a
      multiple of the step away" means "the position leaves that rank as
      remainder". */
  lemma OffsetMod(i: nat, r: nat, w: nat)
    requires r < w
    ensures (i >= r && (i - r) % w == 0) <==> i % w == r
  {
    if i >= r {
      var q := (i - r) / w;
      assert i - r == q * w + (i - r) % w;
      if (i - r) % w == 0 {
        DivUnique(i, w, q, r);
      }
      if i % w == r {
        assert i == (i / w) * w + r;
        DivUnique(i - r, w, i / w, 0);
      }
    } else {
      DivUnique(i, w, 0, i);
    }
  }

  /** With distinct tasks, the task at position `i` is claimed by rank
      `i % W` and by no other rank. */
  lemma ShardOwner<T>(tasks: seq<T>, w: nat)
    requires w > 0 && NoDuplicates(tasks)
    ensures forall i, r :: 0 <= i < |tasks| && 0 <= r < w ==> (tasks[i] in Shard(tasks, r, w) <==> i % w == r)
  {
    forall i, r | 0 <= i < |tasks| && 0 <= r < w
      ensures tasks[i] in Shard(tasks, r, w) <==> i % w == r
    {
      ShardMembers(tasks, r, w);
      OffsetMod(i, r, w);
      if tasks[i] in Shard(tasks, r, w) {
        var j :| r <= j < |tasks| && (j - r) % w == 0 && tasks[j] == tasks[i];
        OffsetMod(j, r, w);
      }
    }
  }

  /** A claimed task sits at a position that leaves the rank as remainder. */
  lemma ShardOwnerAt<T>(tasks: seq<T>, w: nat, r: nat, x: T) returns (i: nat)
    requires r < w && x in Shard(tasks, r, w)
    ensures i < |tasks| && i % w == r && tasks[i] == x
  {
    ShardMembers(tasks, r, w);
    i :| r <= i < |tasks| && (i - r) % w == 0 && tasks[i] == x;
    OffsetMod(i, r, w);
  }

  /** The task at position `i` is claimed by rank `i % W`. */
  lemma ShardHas<T>(tasks: seq<T>, w: nat, i: nat)
    requires w > 0 && i < |tasks|
    ensures tasks[i] in Shard(tasks, i % w, w)
  {
    ShardMembers(tasks, i % w, w);
    OffsetMod(i, i % w, w);
  }

  /** With distinct tasks, no task is claimed by two ranks. */
  lemma ShardsDisjoint<T>(tasks: seq<T>, w: nat, r1: nat, r2: nat, x: T)
    requires NoDuplicates(tasks) && r1 < w && r2 < w
    requires x in Shard(tasks, r1, w) && x in Shard(tasks, r2, w)
    ensures r1 == r2
  {
    var i := ShardOwnerAt(tasks, w, r1, x);
    var j := ShardOwnerAt(tasks, w, r2, x);
    SamePosition(tasks, i, j);
  }

  lemma SamePosition<T>(tasks: seq<T>, i: nat, j: nat)
    requires NoDuplicates(tasks) && i < |tasks| && j < |tasks| && tasks[i] == tasks[j]
    ensures i == j
  {
  }

  /** Some rank below `w` claims `x`. */
  ghost predicate ClaimedBySome<T>(tasks: seq<T>, w: nat, x: T)
    requires w > 0
  {
    exists r: nat :: r < w && x in Shard(tasks, r, w)
  }

  /** The shards of `W` ranks partition the remaining tasks: every task is
      claimed by exactly one rank, and every claimed task is a remaining
      one. */
  lemma ShardsPartition(order: seq<string>, w: nat, remaining: set<string>)
    requires w > 0 && Lists(order, remaining)
    ensures forall x, r1, r2 :: 0 <= r1 < w && 0 <= r2 < w && x in Shard(order, r1, w) && x in Shard(order, r2, w) ==> r1 == r2
    ensures forall x :: x in remaining ==> ClaimedBySome(order, w, x)
    ensures forall x, r :: 0 <= r < w && x in Shard(order, r, w) ==> x in remaining
  {
    forall x, r | 0 <= r < w && x in Shard(order, r, w)
      ensures x in remaining
    {
      var i := ShardOwnerAt(order, w, r, x);
      assert order[i] in order;
    }
    forall x, r1, r2 | 0 <= r1 < w && 0 <= r2 < w && x in Shard(order, r1, w) && x in Shard(order, r2, w)
      ensures r1 == r2
    {
      ShardsDisjoint(order, w, r1, r2, x);
    }
    forall x | x in remaining
      ensures ClaimedBySome(order, w, x)
    {
      var r := Claimer(order, w, remaining, x);
      assert r < w && x in Shard(order, r, w);
    }
  }

  /** Some rank claims each remaining task. */
  lemma Claimer(order: seq<string>, w: nat, remaining: set<string>, x: string) returns (r: nat)
    requires w > 0 && Lists(order, remaining) && x in remaining
    ensures r < w && x in Shard(order, r, w)
  {
    assert x in set y | y in order;
    var i :| 0 <= i < |order| && order[i] == x;
    ShardHas(order, w, i);
    r := i % w;
  }

  /** With distinct tasks, a rank claims each task at most once. */
  lemma ShardNoDuplicates<T>(tasks: seq<T>, r: nat, w: nat)
    requires w > 0 && NoDuplicates(tasks)
    ensures NoDuplicates(Shard(tasks, r, w))
  {
    var sh := Shard(tasks, r, w);
    ShardAt(tasks, r, w);
    forall j, k | 0 <= j < k < |sh|
      ensures sh[j] != sh[k]
    {
      MulStrict(j, k, w);
      assert tasks[r + j * w] != tasks[r + k * w];
    }
  }

  /** Running again after every rank has logged all it claimed finds
      nothing to do: no task is processed twice. */
  lemma RerunFindsNothing(taskLines: seq<string>, doneLines: seq<string>, order: seq<string>, logs: seq<seq<string>>)
    requires |logs| > 0 && Lists(order, Remaining(taskLines, doneLines))
    requires forall r :: 0 <= r < |logs| ==> logs[r] == Shard(order, r, |logs|)
    ensures Remaining(taskLines, doneLines + Flatten(logs)) == {}
  {
    var w := |logs|;
    ShardsPartition(order, w, Remaining(taskLines, doneLines));
    forall t | t in taskLines && t !in doneLines
      ensures t in Flatten(logs)
    {
      assert t in Remaining(taskLines, doneLines);
      var r: nat :| r < w && t in Shard(order, r, w);
      InFlatten(logs, r, t);
    }
  }

  /** A task a rank claimed but did not log is in no done file. */
  lemma UnloggedTask(order: seq<string>, logs: seq<seq<string>>, r: nat, k: nat)
    requires |logs| > 0 && NoDuplicates(order) && r < |logs|
    requires forall r' :: 0 <= r' < |logs| ==> logs[r'] <= Shard(order, r', |logs|)
    requires |logs[r]| <= k < |Shard(order, r, |logs|)|
    ensures Shard(order, r, |logs|)[k] !in Flatten(logs)
  {
    var w := |logs|;
    var sh := Shard(order, r, w);
    var t := sh[k];
    if t in Flatten(logs) {
      FlattenMembers(logs, t);
      var r' :| 0 <= r' < w && t in logs[r'];
      var j :| 0 <= j < |logs[r']| && logs[r'][j] == t;
      var sh' := Shard(order, r', w);
      assert sh'[j] == t;
      ShardsDisjoint(order, w, r, r', t);
      ShardNoDuplicates(order, r, w);
      assert false;
    }
  }

  /** After ranks have logged only prefixes of their claims (a crash), the
      next run has no task the first run did not have, and every task a
      rank claimed but did not log is done again. */
  lemma ResumeAfterCrash(taskLines: seq<string>, doneLines: seq<string>, order: seq<string>, logs: seq<seq<string>>)
    requires |logs| > 0 && Lists(order, Remaining(taskLines, doneLines))
    requires forall r :: 0 <= r < |logs| ==> logs[r] <= Shard(order, r, |logs|)
    ensures forall r, k :: 0 <= r < |logs| && |logs[r]| <= k < |Shard(order, r, |logs|)| ==>
      Shard(order, r, |logs|)[k] in Remaining(taskLines, doneLines + Flatten(logs))
    ensures forall t :: t in Remaining(taskLines, doneLines + Flatten(logs)) ==> t in Remaining(taskLines, doneLines)
  {
    var w := |logs|;
    RemainingSpec(taskLines, doneLines);
    RemainingSpec(taskLines, doneLines + Flatten(logs));
    forall r, k | 0 <= r < w && |logs[r]| <= k < |Shard(order, r, w)|
      ensures Shard(order, r, w)[k] in Remaining(taskLines, doneLines + Flatten(logs))
    {
      ClaimedIsRemaining(order, w, r, k, Remaining(taskLines, doneLines));
      UnloggedTask(order, logs, r, k);
    }
  }

  /** What a rank claims is one of the listed remaining tasks. */
  lemma ClaimedIsRemaining(order: seq<string>, w: nat, r: nat, k: nat, remaining: set<string>)
    requires r < w && Lists(order, remaining) && k < |Shard(order, r, w)|
    ensures Shard(order, r, w)[k] in remaining
  {
    var t := Shard(order, r, w)[k];
    assert t in Shard(order, r, w);
    var i := ShardOwnerAt(order, w, r, t);
    assert order[i] in order;
  }


}
