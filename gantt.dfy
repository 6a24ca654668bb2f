/**
 * Gantt sequences `[{pid, start, end}]` and the invariants every successful run
 * must satisfy: positive, ordered, non-overlapping entries, each for a known
 * process, none before its process arrives, and per process exactly its burst of
 * CPU time (work conservation).
 */
module Gantt {
  import opened Processes

  datatype Entry = Entry(pid: string, start: int, end: int)

  /** The clock value after the entries of `g`: the end of the last one (the clock starts at 0). */
  function Before(g: seq<Entry>): int
  {
    if |g| == 0 then 0 else g[|g| - 1].end
  }

  predicate HasEntry(g: seq<Entry>, pid: string)
  {
    exists k :: 0 <= k < |g| && g[k].pid == pid
  }

  /** The CPU time `g` gives to `pid`. */
  function Busy(g: seq<Entry>, pid: string): int
  {
    if |g| == 0 then 0
    else
      var e := g[|g| - 1];
      Busy(g[..|g| - 1], pid) + (if e.pid == pid then e.end - e.start else 0)
  }

  /** The part of entry `e` that lies before time `tau`. */
  function Overlap(e: Entry, tau: int): int
  {
    if e.end <= tau then e.end - e.start
    else if tau <= e.start then 0
    else tau - e.start
  }

  /** The CPU time `g` gives to `pid` before time `tau`. */
  function BusyUntil(g: seq<Entry>, pid: string, tau: int): int
  {
    if |g| == 0 then 0
    else
      var e := g[|g| - 1];
      BusyUntil(g[..|g| - 1], pid, tau) + (if e.pid == pid then Overlap(e, tau) else 0)
  }

  /** Every entry of `g` is over by time `tau`. */
  predicate EndsBy(g: seq<Entry>, tau: int)
  {
    forall k :: 0 <= k < |g| ==> g[k].end <= tau
  }

  /** `gantt.reduce((sum, segment) => sum + (segment.end - segment.start), 0)` */
  function TotalBusy(g: seq<Entry>): (r: int)
    ensures (forall k :: 0 <= k < |g| ==> g[k].start <= g[k].end) ==> r >= 0
  {
    if |g| == 0 then 0 else TotalBusy(g[..|g| - 1]) + (g[|g| - 1].end - g[|g| - 1].start)
  }

  /** Start of the first entry of `pid`. */
  function FirstStart(g: seq<Entry>, pid: string): (r: int)
    requires HasEntry(g, pid)
    ensures exists k :: 0 <= k < |g| && g[k].pid == pid && g[k].start == r
                        && forall j :: 0 <= j < k ==> g[j].pid != pid
  {
    var init := g[..|g| - 1];
    if HasEntry(init, pid) then
      var r := FirstStart(init, pid);
      assert forall k :: 0 <= k < |init| ==> init[k] == g[k];
      r
    else
      g[|g| - 1].start
  }

  /** End of the last entry of `pid`. */
  function LastEnd(g: seq<Entry>, pid: string): (r: int)
    requires HasEntry(g, pid)
    ensures exists k :: 0 <= k < |g| && g[k].pid == pid && g[k].end == r
                        && forall j :: k < j < |g| ==> g[j].pid != pid
  {
    var init := g[..|g| - 1];
    if g[|g| - 1].pid == pid then
      g[|g| - 1].end
    else
      assert HasEntry(init, pid) by {
        var k :| 0 <= k < |g| && g[k].pid == pid;
        assert init[k] == g[k];
      }
      var r := LastEnd(init, pid);
      assert forall k :: 0 <= k < |init| ==> init[k] == g[k];
      r
  }

  /** Every entry is non-empty and starts no earlier than every earlier entry ends. */
  predicate Ordered(g: seq<Entry>)
  {
    && (forall k :: 0 <= k < |g| ==> g[k].start < g[k].end)
    && (forall i, j :: 0 <= i < j < |g| ==> Precedes(g, i, j))
  }

  /** Entry `i` ends no later than entry `j` starts. */
  predicate Precedes(g: seq<Entry>, i: int, j: int)
  {
    0 <= i < |g| && 0 <= j < |g| && g[i].end <= g[j].start
  }

  predicate KnownPids(ps: seq<Process>, g: seq<Entry>)
  {
    forall k :: 0 <= k < |g| ==> g[k].pid in PidSet(ps)
  }

  /** No entry starts before its process arrives. */
  predicate AfterArrival(ps: seq<Process>, g: seq<Entry>)
  {
    forall k, i :: 0 <= k < |g| && 0 <= i < |ps| ==> StartsAfterArrival(ps, i, g, k)
  }

  /** If entry `k` belongs to process `i`, it starts no earlier than the process arrives. */
  predicate StartsAfterArrival(ps: seq<Process>, i: int, g: seq<Entry>, k: int)
  {
    0 <= i < |ps| && 0 <= k < |g| && (ps[i].pid == g[k].pid ==> ps[i].arrival <= g[k].start)
  }

  /** Work conservation: each process gets exactly its burst. */
  predicate Conserves(ps: seq<Process>, g: seq<Entry>)
  {
    forall i :: 0 <= i < |ps| ==> Busy(g, ps[i].pid) == ps[i].burst
  }

  predicate ValidGantt(ps: seq<Process>, g: seq<Entry>)
  {
    Ordered(g) && KnownPids(ps, g) && AfterArrival(ps, g) && Conserves(ps, g)
  }

  predicate NoAdjacentRepeat(g: seq<Entry>)
  {
    forall k :: 0 < k < |g| ==> PidChanges(g, k)
  }

  /** Entry `k` belongs to another process than entry `k - 1`. */
  predicate PidChanges(g: seq<Entry>, k: int)
  {
    0 < k < |g| && g[k - 1].pid != g[k].pid
  }

  lemma {:induction false} BeforeAppend(g: seq<Entry>, e: Entry)
    ensures Before(g + [e]) == e.end
  {
    assert (g + [e])[|g|] == e;
  }

  lemma {:induction false} HasEntryAppend(g: seq<Entry>, e: Entry, pid: string)
    ensures HasEntry(g + [e], pid) <==> HasEntry(g, pid) || e.pid == pid
  {
    if HasEntry(g, pid) {
      var k :| 0 <= k < |g| && g[k].pid == pid;
      assert (g + [e])[k] == g[k];
    }
    if e.pid == pid {
      assert (g + [e])[|g|] == e;
    }
    if HasEntry(g + [e], pid) {
      var k :| 0 <= k < |g| + 1 && (g + [e])[k].pid == pid;
      if k < |g| {
        assert g[k] == (g + [e])[k];
      }
    }
  }

  lemma {:induction false} AppendFacts(g: seq<Entry>, e: Entry)
    ensures (g + [e])[..|g|] == g
    ensures forall pid :: Busy(g + [e], pid) == Busy(g, pid) + (if e.pid == pid then e.end - e.start else 0)
    ensures TotalBusy(g + [e]) == TotalBusy(g) + (e.end - e.start)
    ensures forall pid :: HasEntry(g + [e], pid) <==> HasEntry(g, pid) || e.pid == pid
    ensures Before(g + [e]) == e.end
    ensures forall k :: 0 <= k <= |g| ==> (g + [e])[..k] == g[..k]
  {
    assert (g + [e])[..|g|] == g;
    forall pid ensures HasEntry(g + [e], pid) <==> HasEntry(g, pid) || e.pid == pid {
      HasEntryAppend(g, e, pid);
    }
  }

  /** Appending a non-empty entry that starts at or after `Before(g)` keeps `g` ordered. */
  lemma {:induction false} AppendOrdered(g: seq<Entry>, e: Entry)
    requires Ordered(g) && Before(g) <= e.start < e.end
    ensures Ordered(g + [e])
  {
    var g' := g + [e];
    forall i, j | 0 <= i < j < |g'| ensures Precedes(g', i, j) {
      if j < |g| {
        assert Precedes(g, i, j);
      } else if i < |g| - 1 {
        assert Precedes(g, i, |g| - 1);
      }
    }
  }

  /** The shape invariants of a Gantt sequence under construction. */
  predicate Shaped(ps: seq<Process>, g: seq<Entry>)
  {
    Ordered(g) && KnownPids(ps, g) && AfterArrival(ps, g)
  }

  /**
   * Appending a non-empty entry of a known process that starts no earlier than
   * the previous end and no earlier than the arrival keeps the shape.
   */
  lemma {:induction false} AppendShaped(ps: seq<Process>, g: seq<Entry>, e: Entry, p: Process)
    requires Shaped(ps, g) && UniquePids(ps) && p in ps && e.pid == p.pid
    requires Before(g) <= e.start < e.end && p.arrival <= e.start
    ensures Shaped(ps, g + [e])
  {
    AppendOrdered(g, e);
    var g' := g + [e];
    forall k, i | 0 <= k < |g'| && 0 <= i < |ps| ensures StartsAfterArrival(ps, i, g', k) {
      if k == |g| {
        if ps[i].pid == e.pid {
          SamePid(ps, p, ps[i]);
        }
      } else {
        assert g'[k] == g[k] && StartsAfterArrival(ps, i, g, k);
      }
    }
    forall k | 0 <= k < |g'| ensures g'[k].pid in PidSet(ps) {
      if k == |g| {
        var i :| 0 <= i < |ps| && ps[i] == p;
      } else {
        assert g'[k] == g[k];
      }
    }
  }

  /** Each process so far either has no entry or has had exactly its burst. */
  predicate ServedOnce(ps: seq<Process>, g: seq<Entry>)
  {
    forall q :: q in ps ==> Busy(g, q.pid) == if HasEntry(g, q.pid) then q.burst else 0
  }

  /** Running a process that had no entry yet for its whole burst keeps `ServedOnce`. */
  lemma {:induction false} ServeOnce(ps: seq<Process>, g: seq<Entry>, p: Process, e: Entry)
    requires UniquePids(ps) && p in ps && ServedOnce(ps, g) && !HasEntry(g, p.pid)
    requires e.pid == p.pid && e.end - e.start == p.burst
    ensures ServedOnce(ps, g + [e])
  {
    AppendFacts(g, e);
    forall q | q in ps ensures Busy(g + [e], q.pid) == if HasEntry(g + [e], q.pid) then q.burst else 0 {
      if q.pid == p.pid {
        SamePid(ps, p, q);
        BusyAbsent(g, p.pid);
      }
    }
  }

  /** A pid with no entry has no CPU time. */
  lemma {:induction false} BusyAbsent(g: seq<Entry>, pid: string)
    requires !HasEntry(g, pid)
    ensures Busy(g, pid) == 0
  {
    if |g| > 0 {
      assert forall k :: 0 <= k < |g| - 1 ==> g[..|g| - 1][k] == g[k];
      BusyAbsent(g[..|g| - 1], pid);
    }
  }

  /** The CPU time of all entries fits between the first start and the last end. */
  lemma {:induction false} TotalBusyWithinSpan(g: seq<Entry>)
    requires Ordered(g) && |g| > 0
    ensures TotalBusy(g) <= g[|g| - 1].end - g[0].start
  {
    var init := g[..|g| - 1];
    if |init| > 0 {
      OrderedPrefix(g, |g| - 1);
      TotalBusyWithinSpan(init);
      assert init[|init| - 1] == g[|g| - 2] && init[0] == g[0];
      assert Precedes(g, |g| - 2, |g| - 1);
    }
  }

  /** The CPU time of one pid fits between its first start and its last end. */
  lemma {:induction false} BusyWithinSpan(g: seq<Entry>, pid: string)
    requires Ordered(g) && HasEntry(g, pid)
    ensures Busy(g, pid) <= LastEnd(g, pid) - FirstStart(g, pid)
  {
    var init := g[..|g| - 1];
    var e := g[|g| - 1];
    assert forall k :: 0 <= k < |init| ==> init[k] == g[k];
    OrderedPrefix(g, |g| - 1);
    if HasEntry(init, pid) {
      BusyWithinSpan(init, pid);
      var k :| 0 <= k < |init| && init[k].pid == pid && init[k].end == LastEnd(init, pid);
      if e.pid == pid {
        assert Precedes(g, k, |g| - 1);
      }
    } else {
      BusyAbsent(init, pid);
    }
  }

  /** Once every entry is over, the CPU time before `tau` is all of it. */
  lemma {:induction false} BusyUntilSettled(g: seq<Entry>, pid: string, tau: int)
    requires EndsBy(g, tau)
    ensures BusyUntil(g, pid, tau) == Busy(g, pid)
  {
    if |g| > 0 {
      var init := g[..|g| - 1];
      assert EndsBy(init, tau) by {
        assert forall k :: 0 <= k < |init| ==> init[k] == g[k];
      }
      BusyUntilSettled(init, pid, tau);
    }
  }

  /** Every prefix of an ordered sequence is ordered. */
  lemma {:induction false} OrderedPrefix(g: seq<Entry>, n: int)
    requires Ordered(g) && 0 <= n <= |g|
    ensures Ordered(g[..n])
  {
    var p := g[..n];
    forall i, j | 0 <= i < j < |p| ensures Precedes(p, i, j) {
      assert Precedes(g, i, j);
    }
  }
}
