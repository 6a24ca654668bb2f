/** First Come First Served: one contiguous entry per process, in stable arrival order. */
module Fcfs {
  import opened Processes
  import opened Gantt
  import opened Sorting

  /** Entry `k` serves `sorted[k]` as soon as the CPU is free and the process has arrived. */
  predicate ServesInOrder(sorted: seq<Process>, g: seq<Entry>, k: int)
    requires 0 <= k < |g| && k < |sorted|
  {
    && g[k].pid == sorted[k].pid
    && g[k].start == Max(Before(g[..k]), sorted[k].arrival)
    && g[k].end == g[k].start + sorted[k].burst
  }

  /** Entry `k` serves the `k`-th process of `procs` in stable arrival order. */
  predicate InArrivalOrder(procs: seq<Process>, g: seq<Entry>, k: int)
    requires 0 <= k < |g| && k < |procs|
  {
    ServesInOrder(SortByArrival(procs), g, k)
  }

  /** Invariant of the `forEach` loop after the first `|g|` sorted processes. */
  predicate FcfsInvariant(procs: seq<Process>, sorted: seq<Process>, g: seq<Entry>)
  {
    && |g| <= |sorted|
    && (forall k :: 0 <= k < |g| ==> ServesInOrder(sorted, g, k))
    && Shaped(procs, g)
    && ServedOnce(procs, g)
  }

  /**
   * `fcfs`: the processes are served in the stable arrival order; each starts as
   * soon as both the CPU is free and it has arrived, and runs its whole burst.
   */
  method Fcfs(procs: seq<Process>) returns (gantt: seq<Entry>)
    requires ValidProcesses(procs)
    ensures ValidGantt(procs, gantt)
    ensures |gantt| == |procs|
    ensures forall k :: 0 <= k < |gantt| && k < |procs| ==> InArrivalOrder(procs, gantt, k)
  {
    var sorted := SortByArrival(procs);
    SortByArrivalPermutes(procs);
    var t := 0;
    gantt := [];
    for i := 0 to |sorted|
      invariant |gantt| == i
      invariant t == Before(gantt)
      invariant FcfsInvariant(procs, sorted, gantt)
    {
      var p := sorted[i];
      if t < p.arrival {
        t := p.arrival;
      }
      var e := Entry(p.pid, t, t + p.burst);
      FcfsStep(procs, sorted, gantt, e);
      gantt := gantt + [e];
      t := t + p.burst;
    }
    FcfsDone(procs, sorted, gantt);
  }

  /** After the loop every process has its entry, so each has had exactly its burst. */
  lemma {:induction false} FcfsDone(procs: seq<Process>, sorted: seq<Process>, g: seq<Entry>)
    requires ValidProcesses(procs) && multiset(sorted) == multiset(procs)
    requires FcfsInvariant(procs, sorted, g) && |g| == |sorted|
    ensures ValidGantt(procs, g)
  {
    forall q | q in procs ensures HasEntry(g, q.pid) {
      assert q in multiset(sorted);
      var k :| 0 <= k < |sorted| && sorted[k] == q;
      assert ServesInOrder(sorted, g, k);
    }
  }

  lemma {:induction false} FcfsStep(procs: seq<Process>, sorted: seq<Process>, g: seq<Entry>, e: Entry)
    requires ValidProcesses(procs)
    requires multiset(sorted) == multiset(procs) && UniquePids(sorted)
    requires FcfsInvariant(procs, sorted, g) && |g| < |sorted|
    requires e.pid == sorted[|g|].pid && e.start == Max(Before(g), sorted[|g|].arrival)
    requires e.end == e.start + sorted[|g|].burst
    ensures FcfsInvariant(procs, sorted, g + [e])
  {
    var p := sorted[|g|];
    var g' := g + [e];
    assert p in multiset(procs);
    AppendFacts(g, e);
    AppendShaped(procs, g, e, p);
    assert !HasEntry(g, p.pid) by {
      forall k | 0 <= k < |g| ensures g[k].pid != p.pid {
        assert ServesInOrder(sorted, g, k);
      }
    }
    ServeOnce(procs, g, p, e);
    forall k | 0 <= k < |g'| ensures ServesInOrder(sorted, g', k) {
      if k < |g| {
        assert g'[k] == g[k];
        assert ServesInOrder(sorted, g, k);
      }
    }
  }
}
