/**
 * Shortest Remaining Time First and Priority, both preemptive: a simulation in
 * unit ticks. At every tick the arrived job with the least key (remaining time
 * or priority value; the first such in list order) runs; a segment is closed on
 * every switch and on every completion, and a final pass merges neighbouring
 * segments of the same pid.
 *
 * The proof follows the Gantt sequence the loop would emit if it stopped now,
 * `History`: the closed segments plus the open one. Every tick extends it by
 * `Tick`, and the jobs still in the working list are always `PendingAt` of it.
 */
module Preemptive {
  import opened Wrappers
  import opened Processes
  import opened Gantt
  import opened Selection
  import opened Merge

  /**
   * The working list as `h` leaves it at time `tau`: every process that still
   * has work, in list order, with `remaining` its burst minus its CPU time so far.
   */
  function PendingAt(ps: seq<Process>, h: seq<Entry>, tau: int): (r: seq<Job>)
    ensures |r| <= |ps|
    ensures forall j {:trigger j in r} :: j in r ==>
              j.proc in ps && j.remaining > 0 && j.remaining == j.proc.burst - BusyUntil(h, j.proc.pid, tau)
  {
    if |ps| == 0 then []
    else
      var left := ps[0].burst - BusyUntil(h, ps[0].pid, tau);
      assert forall p :: p in ps[1..] ==> p in ps;
      (if left > 0 then [Job(ps[0], left)] else []) + PendingAt(ps[1..], h, tau)
  }

  /** The working list after one tick of `pid`: its job loses one unit and leaves when none is left. */
  function Decrement(js: seq<Job>, pid: string): seq<Job>
  {
    if |js| == 0 then []
    else
      var j := js[0];
      (if j.proc.pid != pid then [j]
       else if j.remaining - 1 > 0 then [Job(j.proc, j.remaining - 1)]
       else []) + Decrement(js[1..], pid)
  }

  predicate HasPid(js: seq<Job>, pid: string)
  {
    exists i :: 0 <= i < |js| && js[i].proc.pid == pid
  }

  /** `h` after `pid` runs for the tick starting at `t`: its open segment grows, or a new one opens. */
  function Tick(h: seq<Entry>, pid: string, t: int): (r: seq<Entry>)
    ensures |r| > 0 && r[|r| - 1].pid == pid && r[|r| - 1].end == t + 1
  {
    if |h| > 0 && h[|h| - 1].pid == pid && h[|h| - 1].end == t
    then h[..|h| - 1] + [h[|h| - 1].(end := t + 1)]
    else h + [Entry(pid, t, t + 1)]
  }

  /** The closed segments `g` followed by the open one of `last`, if a process is running. */
  function History(g: seq<Entry>, last: Option<string>, lastStart: int, t: int): seq<Entry>
  {
    match last
    case None => g
    case Some(pid) => g + [Entry(pid, lastStart, t)]
  }

  /** At time `tau`, `pid` is the job the selection picks from the working list as `h` leaves it. */
  ghost predicate TickChosen(procs: seq<Process>, h: seq<Entry>, tau: int, pid: string, c: Criterion)
  {
    var ready := Ready(PendingAt(procs, h, tau), tau);
    exists i :: IsFirstMinimal(ready, i, c) && ready[i].proc.pid == pid
  }

  /** Every tick of entry `k` runs the job the selection picks at that tick. */
  ghost predicate RunsChosen(procs: seq<Process>, h: seq<Entry>, k: int, c: Criterion)
    requires 0 <= k < |h|
  {
    forall tau :: h[k].start <= tau < h[k].end ==> TickChosen(procs, h, tau, h[k].pid, c)
  }

  ghost predicate AllRunsChosen(procs: seq<Process>, h: seq<Entry>, c: Criterion)
  {
    forall k :: 0 <= k < |h| ==> RunsChosen(procs, h, k, c)
  }

  /** Some entry of `h` runs during the tick that starts at `tau`. */
  predicate Covered(h: seq<Entry>, tau: int)
  {
    exists k :: 0 <= k < |h| && h[k].start <= tau < h[k].end
  }

  /**
   * Before time `t` the CPU is idle only when nothing is ready: every tick at
   * which some job with work left has arrived is run by some entry of `h`.
   */
  predicate NoIdleWhileReady(procs: seq<Process>, h: seq<Entry>, t: int)
  {
    forall tau :: 0 <= tau < t && |Ready(PendingAt(procs, h, tau), tau)| > 0 ==> Covered(h, tau)
  }

  /** What holds of the history `h` and the working list `rem` at the top of every iteration. */
  ghost predicate HistoryInvariant(procs: seq<Process>, c: Criterion, rem: seq<Job>, h: seq<Entry>, t: int)
  {
    && rem == PendingAt(procs, h, t)
    && Ordered(h) && EndsBy(h, t)
    && KnownPids(procs, h) && AfterArrival(procs, h)
    && NoAdjacentRepeat(h)
    && (|h| > 0 && HasPid(rem, h[|h| - 1].pid) ==> h[|h| - 1].end == t)
    && (forall i :: 0 <= i < |procs| ==> BusyUntil(h, procs[i].pid, t) <= procs[i].burst)
  }

  /** How the source's `lastRunningPid` and the closed segments relate to the working list. */
  ghost predicate LinkInvariant(rem: seq<Job>, g: seq<Entry>, last: Option<string>)
  {
    && (last.Some? ==> HasPid(rem, last.value))
    && (last.None? && |g| > 0 ==> !HasPid(rem, g[|g| - 1].pid))
  }

  /**
   * `srtf` (criterion `RemainingTime`) and `priorityPreemptive` (criterion
   * `PriorityValue`): the result is a valid schedule, no two neighbouring
   * entries share a pid, and every tick of every entry runs the job the
   * selection picks at that tick.
   */
  method Preemptive(procs: seq<Process>, c: Criterion) returns (gantt: seq<Entry>)
    requires ValidProcesses(procs)
    requires c.RemainingTime? || c.PriorityValue?
    requires c.PriorityValue? ==> HasPriorities(procs)
    ensures ValidGantt(procs, gantt)
    ensures NoAdjacentRepeat(gantt)
    ensures AllRunsChosen(procs, gantt, c)
    ensures NoIdleWhileReady(procs, gantt, Before(gantt))
  {
    var rem := Initial(procs);
    var t := 0;
    var raw: seq<Entry> := [];
    var last: Option<string> := None;
    var lastStart := 0;
    PendingInitial(procs);
    while |rem| > 0
      invariant HistoryInvariant(procs, c, rem, History(raw, last, lastStart, t), t)
      invariant AllRunsChosen(procs, History(raw, last, lastStart, t), c)
      invariant LinkInvariant(rem, raw, last)
      invariant NoIdleWhileReady(procs, History(raw, last, lastStart, t), t)
      decreases Outstanding(rem), if |Ready(rem, t)| == 0 then 1 else 0
    {
      if |Ready(rem, t)| == 0 {
        PIdle(procs, c, rem, raw, last, lastStart, t);
        IdleKeepsNoIdle(procs, rem, raw, t, MinArrival(rem));
        t := MinArrival(rem);
        continue;
      }
      ghost var rem0, h0, t0 := rem, History(raw, last, lastStart, t), t;
      PendingUnique(procs, h0, t0);
      rem, raw, last, lastStart, t := RunChosen(c, rem, raw, last, lastStart, t);
      PRun(procs, c, rem0, h0, t0, Choice(rem0, t0, c));
      TickKeepsChosen(procs, c, rem0, h0, t0, Choice(rem0, t0, c));
      TickKeepsNoIdle(procs, h0, t0, Choice(rem0, t0, c).proc.pid);
      OutstandingPositive(rem);
    }
    PFinish(procs, c, raw, t);
    gantt := MergeAdjacent(raw);
    CoalesceIdentity(raw);
    NoIdleUpTo(procs, raw, t);
  }

  /**
   * The body of the loop once some job has arrived: pick the job, close the
   * open segment on a switch, run the job for one tick, and on completion
   * close its segment and splice it out of the working list.
   */
  method RunChosen(c: Criterion, rem: seq<Job>, raw: seq<Entry>, last: Option<string>, lastStart: int, t: int)
    returns (rem': seq<Job>, raw': seq<Entry>, last': Option<string>, lastStart': int, t': int)
    requires UniqueJobPids(rem) && (forall j :: j in rem ==> j.remaining > 0)
    requires LinkInvariant(rem, raw, last)
    requires |Ready(rem, t)| > 0
    ensures var pid := Choice(rem, t, c).proc.pid;
            && rem' == Decrement(rem, pid)
            && History(raw', last', lastStart', t') == Tick(History(raw, last, lastStart, t), pid, t)
            && t' == t + 1
    ensures LinkInvariant(rem', raw', last')
    ensures Outstanding(rem') < Outstanding(rem)
  {
    rem', raw', last', lastStart', t' := rem, raw, last, lastStart, t;
    var ready := Ready(rem, t);
    var sel := ready[SelectIndex(ready, c)];
    if last'.Some? && last'.value != sel.proc.pid {
      raw' := raw' + [Entry(last'.value, lastStart', t')];
      lastStart' := t';
    } else if last'.None? {
      lastStart' := t';
    }
    last' := Some(sel.proc.pid);
    var timeSlice := 1;
    var nextArrival := NextArrival(rem', t');
    var runTime := Min(timeSlice, Min(nextArrival - t', sel.remaining));
    var index := FindIndex(rem', sel.proc.pid);
    PPick(c, rem, t, sel, index, runTime);
    ghost var raw1, lastStart1 := raw', lastStart';
    rem' := rem'[index := Job(rem'[index].proc, rem'[index].remaining - runTime)];
    t' := t' + runTime;
    ghost var rem1 := rem';
    if rem'[index].remaining <= 0 {
      raw' := raw' + [Entry(last'.value, lastStart', t')];
      last' := None;
      rem' := rem'[..index] + rem'[index + 1..];
    }
    PAdvance(rem, raw, last, lastStart, t, sel, index, runTime, raw1, lastStart1, rem1,
             rem', raw', last', lastStart', t');
  }

  // ---------------------------------------------------------------------------
  // The loop's steps

  /** With nothing arrived no process is running, and the clock jumps to the earliest arrival. */
  lemma {:induction false} PIdle(procs: seq<Process>, c: Criterion, rem: seq<Job>, g: seq<Entry>,
                                 last: Option<string>, lastStart: int, t: int)
    requires HistoryInvariant(procs, c, rem, History(g, last, lastStart, t), t)
    requires LinkInvariant(rem, g, last)
    requires |rem| > 0 && |Ready(rem, t)| == 0
    ensures last.None?
    ensures HistoryInvariant(procs, c, rem, History(g, last, lastStart, MinArrival(rem)), MinArrival(rem))
    ensures |Ready(rem, MinArrival(rem))| > 0
  {
    var h := History(g, last, lastStart, t);
    if last.Some? {
      var i :| 0 <= i < |rem| && rem[i].proc.pid == last.value;
      OpenJobArrived(procs, rem, h, t, i);
      assert false;
    }
    var m := MinArrival(rem);
    var i :| 0 <= i < |rem| && m == rem[i].proc.arrival;
    assert rem[i] in Ready(rem, m);
    assert rem[i].proc.arrival > t;
    PendingSettled(procs, h, t, m);
    assert h == g;
    forall q | 0 <= q < |procs| ensures BusyUntil(h, procs[q].pid, m) <= procs[q].burst {
      BusyUntilSettled(h, procs[q].pid, t);
      BusyUntilSettled(h, procs[q].pid, m);
    }
  }

  /**
   * The job of the last entry of `h`, if it is still in the working list,
   * arrived no later than that entry started, and so before its end.
   */
  lemma {:induction false} OpenJobArrived(procs: seq<Process>, rem: seq<Job>, h: seq<Entry>, t: int, i: int)
    requires rem == PendingAt(procs, h, t) && Ordered(h) && AfterArrival(procs, h)
    requires |h| > 0 && 0 <= i < |rem| && rem[i].proc.pid == h[|h| - 1].pid
    ensures rem[i].proc.arrival < Before(h)
  {
    assert rem[i] in rem;
    var n :| 0 <= n < |procs| && procs[n] == rem[i].proc;
    assert StartsAfterArrival(procs, n, h, |h| - 1);
  }

  /**
   * The job the loop selects is in the working list at the index `findIndex`
   * returns, and the run time is one tick (the next arrival is always one tick away).
   */
  lemma {:induction false} PPick(c: Criterion, rem: seq<Job>, t: int, sel: Job, index: int, runTime: int)
    requires UniqueJobPids(rem) && (forall j :: j in rem ==> j.remaining > 0)
    requires |Ready(rem, t)| > 0 && sel == Choice(rem, t, c)
    requires index == FindIndex(rem, sel.proc.pid)
    requires runTime == Min(1, Min(NextArrival(rem, t) - t, sel.remaining))
    ensures 0 <= index < |rem| && rem[index] == sel && runTime == 1
  {
    FindIndexFinds(rem, sel);
  }

  /**
   * The source's updates in one iteration that runs a job: the working list
   * becomes `Decrement` of it, the closed segments and the open one become
   * `Tick` of the history, the link between them survives, and less work is owed.
   */
  lemma {:induction false} PAdvance(rem0: seq<Job>, raw0: seq<Entry>, last0: Option<string>, lastStart0: int, t0: int,
                                    sel: Job, index: int, runTime: int, raw1: seq<Entry>, lastStart1: int, rem1: seq<Job>,
                                    rem: seq<Job>, raw: seq<Entry>, last: Option<string>, lastStart: int, t: int)
    requires UniqueJobPids(rem0) && LinkInvariant(rem0, raw0, last0)
    requires forall j :: j in rem0 ==> j.remaining > 0
    requires 0 <= index < |rem0| && rem0[index] == sel
    requires raw1 == if last0.Some? && last0.value != sel.proc.pid then raw0 + [Entry(last0.value, lastStart0, t0)] else raw0
    requires lastStart1 == if last0 == Some(sel.proc.pid) then lastStart0 else t0
    requires runTime == 1 && rem1 == rem0[index := Job(rem0[index].proc, rem0[index].remaining - runTime)] && t == t0 + runTime
    requires rem1[index].remaining <= 0 ==>
               rem == rem1[..index] + rem1[index + 1..] && raw == raw1 + [Entry(sel.proc.pid, lastStart1, t)] && last == None
    requires rem1[index].remaining > 0 ==>
               rem == rem1 && raw == raw1 && last == Some(sel.proc.pid) && lastStart == lastStart1
    ensures rem == Decrement(rem0, sel.proc.pid) && Outstanding(rem) < Outstanding(rem0)
    ensures History(raw, last, lastStart, t) == Tick(History(raw0, last0, lastStart0, t0), sel.proc.pid, t0)
    ensures LinkInvariant(rem, raw, last)
  {
    var pid := sel.proc.pid;
    assert HasPid(rem0, pid) by {
      assert rem0[index].proc.pid == pid;
    }
    HistoryTick(raw0, last0, lastStart0, t0, pid, raw1, lastStart1);
    PDecrement(rem0, sel, index);
    if rem1[index].remaining > 0 {
      assert rem1[index].proc.pid == pid;
    } else {
      assert rem1[..index] == rem0[..index] && rem1[index + 1..] == rem0[index + 1..];
      SpliceDropsPid(rem0, index);
    }
  }

  /** Splicing out the only job with a pid leaves no job with that pid. */
  lemma {:induction false} SpliceDropsPid(js: seq<Job>, i: int)
    requires UniqueJobPids(js) && 0 <= i < |js|
    ensures !HasPid(js[..i] + js[i + 1..], js[i].proc.pid)
  {
    var r := js[..i] + js[i + 1..];
    forall k | 0 <= k < |r| ensures r[k].proc.pid != js[i].proc.pid {
      if k < i {
        assert r[k] == js[k];
      } else {
        assert r[k] == js[k + 1];
      }
    }
  }

  /**
   * One tick of the selected job: the working list afterwards is `Decrement`
   * of it (the update in place, followed by the splice on completion), and
   * less work is owed.
   */
  lemma {:induction false} PDecrement(rem: seq<Job>, sel: Job, index: int)
    requires UniqueJobPids(rem) && 0 <= index < |rem| && rem[index] == sel
    requires forall j :: j in rem ==> j.remaining > 0
    ensures var rem' := rem[index := Job(sel.proc, sel.remaining - 1)];
            Decrement(rem, sel.proc.pid) == if sel.remaining - 1 > 0 then rem' else rem'[..index] + rem'[index + 1..]
    ensures Outstanding(Decrement(rem, sel.proc.pid)) < Outstanding(rem)
  {
    assert OnlyAt(rem, index) by {
      forall k | 0 <= k < |rem| && k != index ensures rem[k].proc.pid != rem[index].proc.pid {
        if k < index {
          assert rem[k].proc.pid != rem[index].proc.pid;
        } else {
          assert rem[index].proc.pid != rem[k].proc.pid;
        }
      }
    }
    var rem' := rem[index := Job(sel.proc, sel.remaining - 1)];
    if sel.remaining > 1 {
      DecrementKeeps(rem, index);
    } else {
      DecrementRemoves(rem, index);
      assert rem'[..index] == rem[..index] && rem'[index + 1..] == rem[index + 1..];
    }
    DecrementOutstanding(rem, sel.proc.pid);
    CountPositive(rem, sel);
  }

  /** The invariant holds of the working list and the history after one tick of the selected job. */
  lemma {:induction false} PRun(procs: seq<Process>, c: Criterion, rem: seq<Job>, h: seq<Entry>, t: int, sel: Job)
    requires ValidProcesses(procs) && HistoryInvariant(procs, c, rem, h, t)
    requires |Ready(rem, t)| > 0 && sel == Choice(rem, t, c)
    ensures HistoryInvariant(procs, c, Decrement(rem, sel.proc.pid), Tick(h, sel.proc.pid, t), t + 1)
  {
    var pid := sel.proc.pid;
    var h' := Tick(h, pid, t);
    TickShape(procs, h, t, sel.proc);
    forall q ensures BusyUntil(h', q, t + 1) == BusyUntil(h, q, t) + (if q == pid then 1 else 0) {
      TickBusyUntil(h, pid, t, q, t + 1);
      BusyUntilLater(h, q, t, t + 1);
    }
    PendingTick(procs, h, h', t, t + 1, pid);
    forall i | 0 <= i < |procs| ensures BusyUntil(h', procs[i].pid, t + 1) <= procs[i].burst {
      if procs[i].pid == pid {
        SamePid(procs, sel.proc, procs[i]);
      }
    }
  }

  /** The source's bookkeeping of closed segments and the open one is one `Tick` of the history. */
  lemma {:induction false} HistoryTick(g: seq<Entry>, last: Option<string>, lastStart: int, t: int, pid: string,
                    g': seq<Entry>, lastStart': int)
    requires last.None? && |g| > 0 ==> g[|g| - 1].pid != pid
    requires g' == if last.Some? && last.value != pid then g + [Entry(last.value, lastStart, t)] else g
    requires lastStart' == if last == Some(pid) then lastStart else t
    ensures History(g', Some(pid), lastStart', t + 1) == Tick(History(g, last, lastStart, t), pid, t)
  {
  }

  /** When the working list is empty, every process has had exactly its burst. */
  lemma {:induction false} PFinish(procs: seq<Process>, c: Criterion, g: seq<Entry>, t: int)
    requires ValidProcesses(procs)
    requires HistoryInvariant(procs, c, [], g, t)
    ensures ValidGantt(procs, g) && NoAdjacentRepeat(g)
  {
    forall i | 0 <= i < |procs| ensures Busy(g, procs[i].pid) == procs[i].burst {
      BusyUntilSettled(g, procs[i].pid, t);
      if procs[i].burst - BusyUntil(g, procs[i].pid, t) > 0 {
        PendingHas(procs, g, t, i);
      }
    }
  }

  /** Jumping the clock over ticks at which nothing has arrived leaves no ready tick idle. */
  lemma {:induction false} IdleKeepsNoIdle(procs: seq<Process>, rem: seq<Job>, h: seq<Entry>, t: int, m: int)
    requires rem == PendingAt(procs, h, t) && EndsBy(h, t) && NoIdleWhileReady(procs, h, t)
    requires |rem| > 0 && m == MinArrival(rem) && |Ready(rem, t)| == 0
    ensures NoIdleWhileReady(procs, h, m)
  {
    forall tau | 0 <= tau < m && |Ready(PendingAt(procs, h, tau), tau)| > 0 ensures Covered(h, tau) {
      if tau >= t {
        PendingSettled(procs, h, t, tau);
        assert false;
      }
    }
  }

  /** A tick of the running job covers `t`, and covers every tick before it that was covered. */
  lemma {:induction false} TickKeepsNoIdle(procs: seq<Process>, h: seq<Entry>, t: int, pid: string)
    requires Ordered(h) && EndsBy(h, t) && NoIdleWhileReady(procs, h, t)
    ensures NoIdleWhileReady(procs, Tick(h, pid, t), t + 1)
  {
    var h' := Tick(h, pid, t);
    forall tau | 0 <= tau < t + 1 && |Ready(PendingAt(procs, h', tau), tau)| > 0 ensures Covered(h', tau) {
      if tau < t {
        TickKeepsPending(procs, h, pid, t, tau);
        assert |Ready(PendingAt(procs, h, tau), tau)| > 0;
      }
      TickCovers(h, pid, t, tau);
    }
  }

  /** Ticks up to `t` see the same working list after a tick at `t` as before it. */
  lemma {:induction false} TickKeepsPending(procs: seq<Process>, h: seq<Entry>, pid: string, t: int, tau: int)
    requires Ordered(h) && EndsBy(h, t) && tau <= t
    ensures PendingAt(procs, Tick(h, pid, t), tau) == PendingAt(procs, h, tau)
  {
    forall q ensures BusyUntil(Tick(h, pid, t), q, tau) == BusyUntil(h, q, tau) {
      TickBusyUntil(h, pid, t, q, tau);
    }
    PendingSame(procs, h, Tick(h, pid, t), tau, tau);
  }

  /** After a tick at `t`, the tick `t` is covered, and so is every earlier one that was. */
  lemma {:induction false} TickCovers(h: seq<Entry>, pid: string, t: int, tau: int)
    requires Ordered(h) && EndsBy(h, t) && tau <= t
    requires tau < t ==> Covered(h, tau)
    ensures Covered(Tick(h, pid, t), tau)
  {
    var h' := Tick(h, pid, t);
    var n := |h'| - 1;
    var extend := |h| > 0 && h[|h| - 1].pid == pid && h[|h| - 1].end == t;
    if tau == t {
      if extend {
        assert h[|h| - 1].start < h[|h| - 1].end;
      }
      assert h'[n].start <= tau < h'[n].end;
    } else {
      var k :| 0 <= k < |h| && h[k].start <= tau < h[k].end;
      if extend && k == |h| - 1 {
        assert h'[k].start == h[k].start && h'[k].end == t + 1;
      } else {
        assert h'[k] == h[k];
      }
    }
  }

  /** An ordered history is over by its last end, so a bound at the clock covers every tick of the chart. */
  lemma {:induction false} NoIdleUpTo(procs: seq<Process>, g: seq<Entry>, t: int)
    requires EndsBy(g, t) && NoIdleWhileReady(procs, g, t)
    ensures NoIdleWhileReady(procs, g, Before(g))
  {
    forall tau | 0 <= tau < Before(g) && |Ready(PendingAt(procs, g, tau), tau)| > 0 ensures Covered(g, tau) {
      assert g[|g| - 1].end <= t;
    }
  }

  // ---------------------------------------------------------------------------
  // The working list as a function of the history

  /** A process with work left has its job in the working list. */
  lemma {:induction false} PendingHas(ps: seq<Process>, h: seq<Entry>, tau: int, i: int)
    requires 0 <= i < |ps| && ps[i].burst - BusyUntil(h, ps[i].pid, tau) > 0
    ensures Job(ps[i], ps[i].burst - BusyUntil(h, ps[i].pid, tau)) in PendingAt(ps, h, tau)
  {
    if i > 0 {
      assert ps[1..][i - 1] == ps[i];
      PendingHas(ps[1..], h, tau, i - 1);
    }
  }

  /** Distinct processes give jobs of distinct pids. */
  lemma {:induction false} PendingUnique(ps: seq<Process>, h: seq<Entry>, tau: int)
    requires UniquePids(ps)
    ensures UniqueJobPids(PendingAt(ps, h, tau))
  {
    if |ps| > 0 {
      var rest := PendingAt(ps[1..], h, tau);
      PendingUnique(ps[1..], h, tau);
      var head := ps[0].burst - BusyUntil(h, ps[0].pid, tau);
      if head > 0 {
        var r := [Job(ps[0], head)] + rest;
        forall a, b | 0 <= a < b < |r| ensures r[a].proc.pid != r[b].proc.pid {
          if a == 0 {
            assert r[b] == rest[b - 1] && r[b] in rest;
          } else {
            assert r[a] == rest[a - 1] && r[b] == rest[b - 1];
          }
        }
      } else {
        assert PendingAt(ps, h, tau) == rest;
      }
    }
  }

  /** Two histories that give every pid the same CPU time leave the same working list. */
  lemma {:induction false} PendingSame(ps: seq<Process>, h: seq<Entry>, h': seq<Entry>, tau: int, tau': int)
    requires forall q :: BusyUntil(h', q, tau') == BusyUntil(h, q, tau)
    ensures PendingAt(ps, h', tau') == PendingAt(ps, h, tau)
  {
    if |ps| > 0 {
      PendingSame(ps[1..], h, h', tau, tau');
      assert BusyUntil(h', ps[0].pid, tau') == BusyUntil(h, ps[0].pid, tau);
    }
  }

  /** A history that gives `pid` one more unit of CPU time leaves `Decrement` of the working list. */
  lemma {:induction false} PendingTick(ps: seq<Process>, h: seq<Entry>, h': seq<Entry>, tau: int, tau': int, pid: string)
    requires forall q :: BusyUntil(h', q, tau') == BusyUntil(h, q, tau) + (if q == pid then 1 else 0)
    ensures PendingAt(ps, h', tau') == Decrement(PendingAt(ps, h, tau), pid)
  {
    if |ps| > 0 {
      PendingTick(ps[1..], h, h', tau, tau', pid);
      var p := ps[0];
      assert BusyUntil(h', p.pid, tau') == BusyUntil(h, p.pid, tau) + (if p.pid == pid then 1 else 0);
      var left := p.burst - BusyUntil(h, p.pid, tau);
      var a := if left > 0 then [Job(p, left)] else [];
      DecrementConcat(a, PendingAt(ps[1..], h, tau), pid);
      if left > 0 {
        assert [Job(p, left)][1..] == [];
      }
    }
  }

  /** Before any tick the working list is the fresh copy of every process. */
  lemma {:induction false} PendingInitial(ps: seq<Process>)
    requires forall i :: 0 <= i < |ps| ==> ps[i].burst > 0
    ensures PendingAt(ps, [], 0) == Initial(ps)
  {
    if |ps| > 0 {
      PendingInitial(ps[1..]);
      assert Initial(ps) == [Job(ps[0], ps[0].burst)] + Initial(ps[1..]);
    }
  }

  /** Once the history is over, moving the clock on does not change the working list. */
  lemma {:induction false} PendingSettled(ps: seq<Process>, h: seq<Entry>, t: int, t': int)
    requires EndsBy(h, t) && t <= t'
    ensures PendingAt(ps, h, t') == PendingAt(ps, h, t)
  {
    forall q ensures BusyUntil(h, q, t') == BusyUntil(h, q, t) {
      BusyUntilLater(h, q, t, t');
    }
    PendingSame(ps, h, h, t, t');
  }

  lemma {:induction false} BusyUntilLater(h: seq<Entry>, q: string, t: int, t': int)
    requires EndsBy(h, t) && t <= t'
    ensures BusyUntil(h, q, t') == BusyUntil(h, q, t)
  {
    BusyUntilSettled(h, q, t);
    BusyUntilSettled(h, q, t');
  }

  // ---------------------------------------------------------------------------
  // Decrement

  lemma {:induction false} DecrementConcat(a: seq<Job>, b: seq<Job>, pid: string)
    ensures Decrement(a + b, pid) == Decrement(a, pid) + Decrement(b, pid)
  {
    if |a| > 0 {
      assert (a + b)[1..] == a[1..] + b;
      DecrementConcat(a[1..], b, pid);
    } else {
      assert a + b == b;
    }
  }

  /** Job `i` is the only job of `js` with its pid. */
  predicate OnlyAt(js: seq<Job>, i: int)
  {
    0 <= i < |js| && forall k :: 0 <= k < |js| && k != i ==> js[k].proc.pid != js[i].proc.pid
  }

  /** A tick of a job with more than one unit left decrements it in place. */
  lemma {:induction false} DecrementKeeps(js: seq<Job>, i: int)
    requires OnlyAt(js, i) && js[i].remaining > 1
    ensures Decrement(js, js[i].proc.pid) == js[i := Job(js[i].proc, js[i].remaining - 1)]
  {
    var j := js[i];
    if i == 0 {
      DecrementAbsent(js[1..], j.proc.pid);
      assert js[i := Job(j.proc, j.remaining - 1)] == [Job(j.proc, j.remaining - 1)] + js[1..];
    } else {
      assert js[1..][i - 1] == j;
      DecrementKeeps(js[1..], i - 1);
      assert js[i := Job(j.proc, j.remaining - 1)] == [js[0]] + js[1..][i - 1 := Job(j.proc, j.remaining - 1)];
    }
  }

  /** A tick of a job with at most one unit left removes it from the list. */
  lemma {:induction false} DecrementRemoves(js: seq<Job>, i: int)
    requires OnlyAt(js, i) && js[i].remaining <= 1
    ensures Decrement(js, js[i].proc.pid) == js[..i] + js[i + 1..]
  {
    var j := js[i];
    if i == 0 {
      DecrementAbsent(js[1..], j.proc.pid);
      assert js[..0] + js[1..] == js[1..];
    } else {
      assert js[1..][i - 1] == j;
      DecrementRemoves(js[1..], i - 1);
      assert js[..i] + js[i + 1..] == [js[0]] + (js[1..][..i - 1] + js[1..][i..]);
    }
  }

  lemma {:induction false} DecrementAbsent(js: seq<Job>, pid: string)
    requires forall k :: 0 <= k < |js| ==> js[k].proc.pid != pid
    ensures Decrement(js, pid) == js
  {
    if |js| > 0 {
      DecrementAbsent(js[1..], pid);
      assert js == [js[0]] + js[1..];
    }
  }

  /** With every job owing work, `Decrement` takes one unit from each job of `pid`. */
  lemma {:induction false} DecrementOutstanding(js: seq<Job>, pid: string)
    requires forall j :: j in js ==> j.remaining > 0
    ensures Outstanding(Decrement(js, pid)) == Outstanding(js) - Count(js, pid)
  {
    if |js| > 0 {
      var j := js[0];
      DecrementOutstanding(js[1..], pid);
      var a := if j.proc.pid != pid then [j] else if j.remaining - 1 > 0 then [Job(j.proc, j.remaining - 1)] else [];
      SumsConcat(a, Decrement(js[1..], pid));
      if |a| > 0 {
        SumsSingle(a[0]);
        assert a == [a[0]];
      }
    }
  }

  // ---------------------------------------------------------------------------
  // Tick

  /** A tick adds one unit at `t` to `pid`, and nothing before `t`. */
  lemma {:induction false} TickBusyUntil(h: seq<Entry>, pid: string, t: int, q: string, tau: int)
    requires Ordered(h) && EndsBy(h, t) && tau <= t + 1
    ensures BusyUntil(Tick(h, pid, t), q, tau) == BusyUntil(h, q, tau) + (if q == pid && tau == t + 1 then 1 else 0)
  {
    var h' := Tick(h, pid, t);
    if |h| > 0 && h[|h| - 1].pid == pid && h[|h| - 1].end == t {
      var init := h[..|h| - 1];
      assert h'[..|h'| - 1] == init;
    } else {
      assert h'[..|h'| - 1] == h;
    }
  }

  /** A tick of an arrived, known process keeps the shape of the history. */
  lemma {:induction false} TickShape(procs: seq<Process>, h: seq<Entry>, t: int, p: Process)
    requires UniquePids(procs) && p in procs && 0 <= p.arrival <= t
    requires Ordered(h) && EndsBy(h, t) && KnownPids(procs, h) && AfterArrival(procs, h) && NoAdjacentRepeat(h)
    requires |h| > 0 && h[|h| - 1].pid == p.pid ==> h[|h| - 1].end == t
    ensures var h' := Tick(h, p.pid, t);
            Ordered(h') && EndsBy(h', t + 1) && KnownPids(procs, h') && AfterArrival(procs, h') && NoAdjacentRepeat(h')
  {
    var h' := Tick(h, p.pid, t);
    if |h| > 0 && h[|h| - 1].pid == p.pid && h[|h| - 1].end == t {
      var n := |h| - 1;
      assert forall k :: 0 <= k < n ==> h'[k] == h[k];
      assert h'[n] == h[n].(end := t + 1);
      forall i, j | 0 <= i < j < |h'| ensures Precedes(h', i, j) {
        assert Precedes(h, i, j);
      }
      forall k, i | 0 <= k < |h'| && 0 <= i < |procs| ensures StartsAfterArrival(procs, i, h', k) {
        assert StartsAfterArrival(procs, i, h, k);
      }
      forall k | 0 < k < |h'| ensures PidChanges(h', k) {
        assert PidChanges(h, k);
      }
    } else {
      var e := Entry(p.pid, t, t + 1);
      assert h' == h + [e];
      assert Before(h) <= t by {
        if |h| > 0 {
          assert h[|h| - 1].end <= t;
        }
      }
      AppendShaped(procs, h, e, p);
      assert forall k :: 0 <= k < |h| ==> h'[k] == h[k];
      forall k | 0 < k < |h'| ensures PidChanges(h', k) {
        if k < |h| {
          assert PidChanges(h, k);
        }
      }
    }
  }

  /** Ticks before `t` see the same working list after the tick as before it. */
  lemma {:induction false} TickKeepsChosen(procs: seq<Process>, c: Criterion, rem: seq<Job>, h: seq<Entry>, t: int, sel: Job)
    requires HistoryInvariant(procs, c, rem, h, t) && AllRunsChosen(procs, h, c)
    requires |Ready(rem, t)| > 0 && sel == Choice(rem, t, c)
    ensures AllRunsChosen(procs, Tick(h, sel.proc.pid, t), c)
  {
    var pid := sel.proc.pid;
    var h' := Tick(h, pid, t);
    assert TickChosen(procs, h', t, pid, c) by {
      forall q ensures BusyUntil(h', q, t) == BusyUntil(h, q, t) {
        TickBusyUntil(h, pid, t, q, t);
      }
      PendingSame(procs, h, h', t, t);
      var ready := Ready(rem, t);
      assert IsFirstMinimal(ready, SelectIndex(ready, c), c);
    }
    forall k | 0 <= k < |h'| ensures RunsChosen(procs, h', k, c) {
      forall tau | h'[k].start <= tau < h'[k].end ensures TickChosen(procs, h', tau, h'[k].pid, c) {
        TickChosenAt(procs, c, h, t, pid, k, tau);
      }
    }
  }

  /** One tick `tau` of entry `k` after the tick: either `t` itself, or a tick of `h` it already ran. */
  lemma {:induction false} TickChosenAt(procs: seq<Process>, c: Criterion, h: seq<Entry>, t: int, pid: string, k: int, tau: int)
    requires Ordered(h) && EndsBy(h, t) && AllRunsChosen(procs, h, c)
    requires TickChosen(procs, Tick(h, pid, t), t, pid, c)
    requires 0 <= k < |Tick(h, pid, t)|
    requires Tick(h, pid, t)[k].start <= tau < Tick(h, pid, t)[k].end
    ensures TickChosen(procs, Tick(h, pid, t), tau, Tick(h, pid, t)[k].pid, c)
  {
    var h' := Tick(h, pid, t);
    var extend := |h| > 0 && h[|h| - 1].pid == pid && h[|h| - 1].end == t;
    if k < |h| && (!extend || k < |h| - 1 || tau < t) {
      assert h'[k].pid == h[k].pid && h'[k].start == h[k].start;
      assert tau < h[k].end;
      assert RunsChosen(procs, h, k, c);
      assert TickChosen(procs, h, tau, h[k].pid, c);
      forall q ensures BusyUntil(h', q, tau) == BusyUntil(h, q, tau) {
        TickBusyUntil(h, pid, t, q, tau);
      }
      PendingSame(procs, h, h', tau, tau);
    } else {
      assert h'[k].pid == pid;
      assert tau == t;
    }
  }
}
