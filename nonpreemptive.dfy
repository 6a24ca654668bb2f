/**
 * Shortest Job First and Priority, both non-preemptive: whenever the CPU is
 * free, the arrived, unscheduled job with the least key (burst time or priority
 * value; the first such in list order) runs to completion.
 */
module NonPreemptive {
  import opened Processes
  import opened Gantt
  import opened Selection

  /** The jobs of `js` whose process has no entry in `g`, in list order. */
  function Unscheduled(js: seq<Job>, g: seq<Entry>): (r: seq<Job>)
    ensures |r| <= |js|
    ensures forall j {:trigger j in r} {:trigger j in js} :: j in r <==> j in js && !HasEntry(g, j.proc.pid)
  {
    if |js| == 0 then []
    else
      assert forall j :: j in js[1..] ==> j in js;
      (if HasEntry(g, js[0].proc.pid) then [] else [js[0]]) + Unscheduled(js[1..], g)
  }

  lemma {:induction false} UnscheduledAppend(js: seq<Job>, g: seq<Entry>, e: Entry)
    ensures Unscheduled(js, g + [e]) == WithoutJob(Unscheduled(js, g), e.pid)
  {
    if |js| > 0 {
      var h := js[0];
      UnscheduledAppend(js[1..], g, e);
      HasEntryAppend(g, e, h.proc.pid);
      var rest := Unscheduled(js[1..], g);
      if HasEntry(g, h.proc.pid) {
        assert Unscheduled(js, g) == rest;
      } else {
        assert Unscheduled(js, g) == [h] + rest;
        assert ([h] + rest)[1..] == rest;
      }
    }
  }

  /**
   * Entry `e`, following the entries `before`, is what the loop does with the
   * jobs `pending`: it starts when the CPU is free and the earliest of them has
   * arrived, and runs, for its whole burst, the first job of least key among
   * those arrived by then.
   */
  ghost predicate ChosenFrom(pending: seq<Job>, before: seq<Entry>, e: Entry, c: Criterion)
  {
    && |pending| > 0
    && e.start == Max(Before(before), MinArrival(pending))
    && var ready := Ready(pending, e.start);
       exists i :: IsFirstMinimal(ready, i, c) && ready[i].proc.pid == e.pid
                   && e.end == e.start + ready[i].proc.burst
  }

  /** ... where `pending` are the processes that have no entry in `before`. */
  ghost predicate Chosen(procs: seq<Process>, before: seq<Entry>, e: Entry, c: Criterion)
  {
    ChosenFrom(Unscheduled(Initial(procs), before), before, e, c)
  }

  /** Entry `k` of `g` is the choice `Chosen` describes. */
  ghost predicate ChosenAt(procs: seq<Process>, g: seq<Entry>, k: int, c: Criterion)
    requires 0 <= k < |g|
  {
    Chosen(procs, g[..k], g[k], c)
  }

  /** Appending an entry leaves the choices of the earlier entries as they were. */
  lemma {:induction false} ChosenAtAppend(procs: seq<Process>, g: seq<Entry>, e: Entry, k: int, c: Criterion)
    requires 0 <= k < |g| && ChosenAt(procs, g, k, c)
    ensures ChosenAt(procs, g + [e], k, c)
  {
    assert (g + [e])[..k] == g[..k];
  }

  lemma {:induction false} ChosenAtLast(procs: seq<Process>, g: seq<Entry>, e: Entry, c: Criterion)
    requires Chosen(procs, g, e, c)
    ensures ChosenAt(procs, g + [e], |g|, c)
  {
    assert (g + [e])[..|g|] == g;
  }

  ghost predicate NpInvariant(procs: seq<Process>, c: Criterion, rem: seq<Job>, g: seq<Entry>, t: int)
  {
    && rem == Unscheduled(Initial(procs), g)
    && UniqueJobPids(rem)
    && |g| + |rem| == |procs|
    && t >= Before(g)
    && (t == Before(g) || (|rem| > 0 && t == MinArrival(rem)))
    && Shaped(procs, g)
    && ServedOnce(procs, g)
    && forall k :: 0 <= k < |g| ==> ChosenAt(procs, g, k, c)
  }

  /**
   * `sjfNonPreemptive` (criterion `BurstTime`) and `priorityNonPreemptive`
   * (criterion `PriorityValue`): every process gets exactly one entry, of its
   * whole burst, and each entry is the choice described by `Chosen`.
   */
  method NonPreemptive(procs: seq<Process>, c: Criterion) returns (gantt: seq<Entry>)
    requires ValidProcesses(procs)
    requires c.BurstTime? || c.PriorityValue?
    requires c.PriorityValue? ==> HasPriorities(procs)
    ensures ValidGantt(procs, gantt)
    ensures |gantt| == |procs|
    ensures forall k :: 0 <= k < |gantt| ==> ChosenAt(procs, gantt, k, c)
  {
    var rem := Initial(procs);
    var t := 0;
    gantt := [];
    UnscheduledNone(rem);
    while |rem| > 0
      invariant NpInvariant(procs, c, rem, gantt, t)
      decreases |rem|, if |Ready(rem, t)| == 0 then 1 else 0
    {
      var ready := Ready(rem, t);
      if |ready| == 0 {
        NpIdle(procs, c, rem, gantt, t);
        t := MinArrival(rem);
        continue;
      }
      var sel := ready[SelectIndex(ready, c)];
      var e := Entry(sel.proc.pid, t, t + sel.proc.burst);
      var index := FindIndex(rem, sel.proc.pid);
      NpStep(procs, c, rem, gantt, t, sel, e, index);
      gantt := gantt + [e];
      t := e.end;
      rem := rem[..index] + rem[index + 1..];
    }
    NpDone(procs, c, gantt, t);
  }

  /** With nothing arrived, the clock jumps to the earliest arrival, where something has. */
  lemma {:induction false} NpIdle(procs: seq<Process>, c: Criterion, rem: seq<Job>, g: seq<Entry>, t: int)
    requires NpInvariant(procs, c, rem, g, t) && |rem| > 0 && |Ready(rem, t)| == 0
    ensures NpInvariant(procs, c, rem, g, MinArrival(rem)) && |Ready(rem, MinArrival(rem))| > 0
  {
    var m := MinArrival(rem);
    var i :| 0 <= i < |rem| && m == rem[i].proc.arrival;
    assert rem[i] in Ready(rem, m);
    assert rem[i].proc.arrival > t;
  }

  /** When the working list is empty every process has been scheduled. */
  lemma {:induction false} NpDone(procs: seq<Process>, c: Criterion, g: seq<Entry>, t: int)
    requires ValidProcesses(procs) && NpInvariant(procs, c, [], g, t)
    ensures ValidGantt(procs, g) && |g| == |procs|
    ensures forall k :: 0 <= k < |g| ==> ChosenAt(procs, g, k, c)
  {
    forall q | q in procs ensures HasEntry(g, q.pid) {
      var i :| 0 <= i < |procs| && procs[i] == q;
      assert Initial(procs)[i] in Initial(procs);
    }
  }

  lemma {:induction false} UnscheduledNone(js: seq<Job>)
    ensures Unscheduled(js, []) == js
  {
    if |js| > 0 {
      UnscheduledNone(js[1..]);
      assert js == [js[0]] + js[1..];
    }
  }

  /** The new entry is the choice `Chosen` describes. */
  lemma {:induction false} NpChosenNew(c: Criterion, rem: seq<Job>, g: seq<Entry>, t: int, sel: Job)
    requires t >= Before(g) && (t == Before(g) || (|rem| > 0 && t == MinArrival(rem)))
    requires |Ready(rem, t)| > 0 && sel == Choice(rem, t, c)
    ensures ChosenFrom(rem, g, Entry(sel.proc.pid, t, t + sel.proc.burst), c)
  {
    var ready := Ready(rem, t);
    var si := SelectIndex(ready, c);
    MinArrivalAtMost(rem, sel);
    assert IsFirstMinimal(ready, si, c);
  }

  /** The job the loop selects is an unscheduled process, found by `findIndex` at its own place. */
  lemma {:induction false} NpPicked(procs: seq<Process>, rem: seq<Job>, g: seq<Entry>, sel: Job, index: int)
    requires rem == Unscheduled(Initial(procs), g) && UniqueJobPids(rem)
    requires sel in rem && index == FindIndex(rem, sel.proc.pid)
    ensures 0 <= index < |rem| && rem[index] == sel
    ensures sel.proc in procs && sel.remaining == sel.proc.burst && !HasEntry(g, sel.proc.pid)
  {
    FindIndexFinds(rem, sel);
  }

  /** Splicing the scheduled job out of the working list keeps it equal to the unscheduled jobs. */
  lemma {:induction false} NpRemaining(procs: seq<Process>, rem: seq<Job>, g: seq<Entry>, e: Entry, index: int)
    requires rem == Unscheduled(Initial(procs), g) && UniqueJobPids(rem)
    requires 0 <= index < |rem| && rem[index].proc.pid == e.pid
    ensures rem[..index] + rem[index + 1..] == Unscheduled(Initial(procs), g + [e])
    ensures UniqueJobPids(rem[..index] + rem[index + 1..])
    ensures |rem[..index] + rem[index + 1..]| == |rem| - 1
  {
    SpliceRemovesPid(rem, index);
    SpliceKeepsUnique(rem, index);
    UnscheduledAppend(Initial(procs), g, e);
  }

  lemma {:induction false} NpStep(procs: seq<Process>, c: Criterion, rem: seq<Job>, g: seq<Entry>, t: int,
                                  sel: Job, e: Entry, index: int)
    requires ValidProcesses(procs) && NpInvariant(procs, c, rem, g, t)
    requires |Ready(rem, t)| > 0 && sel == Choice(rem, t, c)
    requires e == Entry(sel.proc.pid, t, t + sel.proc.burst)
    requires index == FindIndex(rem, sel.proc.pid)
    ensures 0 <= index < |rem|
    ensures NpInvariant(procs, c, rem[..index] + rem[index + 1..], g + [e], e.end)
  {
    NpPicked(procs, rem, g, sel, index);
    NpRemaining(procs, rem, g, e, index);
    NpChosenNew(c, rem, g, t, sel);
    ChosenAtLast(procs, g, e, c);
    forall k | 0 <= k < |g + [e]| ensures ChosenAt(procs, g + [e], k, c) {
      if k < |g| {
        ChosenAtAppend(procs, g, e, k, c);
      } else {
        assert k == |g|;
      }
    }
    AppendShaped(procs, g, e, sel.proc);
    ServeOnce(procs, g, sel.proc, e);
    BeforeAppend(g, e);
  }
}
