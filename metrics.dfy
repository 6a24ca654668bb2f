/**
 * `calculateMetrics`: per-process waiting, turnaround and response times read
 * off a Gantt sequence, their averages, CPU utilisation and throughput.
 * Times are integers; the averages and ratios, which the source computes in
 * floating point, are exact reals here.
 */
module Metrics {
  import opened Processes
  import opened Gantt

  /** `{waitingTime, turnaroundTime, responseTime}` of one process. */
  datatype Times = Times(waiting: int, turnaround: int, response: int)

  datatype Report = Report(
    averageWaiting: real,
    averageTurnaround: real,
    averageResponse: real,
    utilisation: real,
    throughput: real,
    perProcess: map<string, Times>)

  /** The times of a process that never ran: response `-1` means "not set yet". */
  const Unset := Times(0, 0, -1)

  /**
   * The times of process `p` in closed form: the response is measured to its
   * first entry (never below 0), the turnaround to the end of its last entry,
   * and the waiting time is the turnaround less the burst.
   */
  function TimesOf(g: seq<Entry>, p: Process): Times
  {
    if HasEntry(g, p.pid) then
      var turnaround := LastEnd(g, p.pid) - p.arrival;
      Times(turnaround - p.burst, turnaround, Max(0, FirstStart(g, p.pid) - p.arrival))
    else Unset
  }

  datatype Column = WaitingColumn | TurnaroundColumn | ResponseColumn

  function Field(t: Times, c: Column): int
  {
    match c
    case WaitingColumn => t.waiting
    case TurnaroundColumn => t.turnaround
    case ResponseColumn => t.response
  }

  /** Every pid of `ps` has an entry in `pm`. */
  predicate Covers(pm: map<string, Times>, ps: seq<Process>)
  {
    forall i :: 0 <= i < |ps| ==> ps[i].pid in pm
  }

  /** The sum of one column of `pm` over the pids of `ps`. */
  function Total(pm: map<string, Times>, ps: seq<Process>, c: Column): int
    requires forall i :: 0 <= i < |ps| ==> ps[i].pid in pm
  {
    if |ps| == 0 then 0
    else Total(pm, ps[..|ps| - 1], c) + Field(pm[ps[|ps| - 1].pid], c)
  }

  /** The whole simulated span: from the earliest arrival to the end of the last entry. */
  function Span(g: seq<Entry>, ps: seq<Process>): int
    requires |g| > 0 && |ps| > 0
  {
    g[|g| - 1].end - EarliestArrival(ps)
  }

  /** The mean of one column of `pm` over the processes of `ps`. */
  function Average(pm: map<string, Times>, ps: seq<Process>, c: Column): real
    requires |ps| > 0 && Covers(pm, ps)
  {
    Total(pm, ps, c) as real / |ps| as real
  }

  /** CPU utilisation: the busy time of `g` as a percentage of its span. */
  function Utilisation(g: seq<Entry>, ps: seq<Process>): real
    requires |g| > 0 && |ps| > 0 && Span(g, ps) != 0
  {
    (TotalBusy(g) as real / Span(g, ps) as real) * 100.0
  }

  /**
   * The report for schedule `g` of `procs`. Each process's times are those of
   * `TimesOf`; the averages divide the column totals by the number of
   * processes; utilisation and throughput are 0 for an empty schedule.
   */
  method CalculateMetrics(procs: seq<Process>, g: seq<Entry>) returns (m: Report)
    requires |procs| > 0 && UniquePids(procs) && KnownPids(procs, g)
    requires |g| > 0 ==> Span(g, procs) != 0
    ensures m.perProcess.Keys == PidSet(procs)
    ensures forall i :: 0 <= i < |procs| ==> procs[i].pid in m.perProcess && m.perProcess[procs[i].pid] == TimesOf(g, procs[i])
    ensures Covers(m.perProcess, procs) && m.averageWaiting == Average(m.perProcess, procs, WaitingColumn)
    ensures Covers(m.perProcess, procs) && m.averageTurnaround == Average(m.perProcess, procs, TurnaroundColumn)
    ensures Covers(m.perProcess, procs) && m.averageResponse == Average(m.perProcess, procs, ResponseColumn)
    ensures |g| > 0 ==> m.utilisation == Utilisation(g, procs)
    ensures |g| > 0 ==> m.throughput == |procs| as real / Span(g, procs) as real
    ensures |g| == 0 ==> m.utilisation == 0.0 && m.throughput == 0.0
  {
    var byPid, pm := InitialTimes(procs);
    pm := RecordRuns(procs, g, byPid, pm);
    var totalWaiting, totalTurnaround, totalResponse := ColumnTotals(pm, procs);
    var n := |procs| as real;
    var utilisation, throughput := 0.0, 0.0;
    if |g| > 0 {
      var totalSimulationTime := g[|g| - 1].end - EarliestArrival(procs);
      var totalBusyTime := TotalBusy(g);
      utilisation := (totalBusyTime as real / totalSimulationTime as real) * 100.0;
      throughput := n / totalSimulationTime as real;
    }
    var averageWaiting, averageTurnaround := totalWaiting as real / n, totalTurnaround as real / n;
    var averageResponse := totalResponse as real / n;
    m := Report(averageWaiting, averageTurnaround, averageResponse, utilisation, throughput, pm);
  }

  /** `processes.forEach`: the lookup table by pid, and every process's times unset. */
  method InitialTimes(procs: seq<Process>) returns (byPid: map<string, Process>, pm: map<string, Times>)
    requires UniquePids(procs)
    ensures pm.Keys == byPid.Keys == PidSet(procs)
    ensures forall i :: 0 <= i < |procs| ==> byPid[procs[i].pid] == procs[i] && pm[procs[i].pid] == Unset
  {
    byPid, pm := map[], map[];
    for i := 0 to |procs|
      invariant pm.Keys == byPid.Keys == PidSet(procs[..i])
      invariant forall k :: 0 <= k < i ==> byPid[procs[k].pid] == procs[k] && pm[procs[k].pid] == Unset
    {
      assert PidSet(procs[..i + 1]) == PidSet(procs[..i]) + {procs[i].pid} by {
        assert forall k :: 0 <= k < i ==> procs[..i + 1][k] == procs[..i][k];
      }
      byPid := byPid[procs[i].pid := procs[i]];
      pm := pm[procs[i].pid := Unset];
    }
    assert procs[..|procs|] == procs;
  }

  /**
   * `gantt.forEach`: the first entry of a process sets its response time, and
   * every entry sets its turnaround and waiting time.
   */
  method RecordRuns(procs: seq<Process>, g: seq<Entry>, byPid: map<string, Process>, pm0: map<string, Times>)
    returns (pm: map<string, Times>)
    requires KnownPids(procs, g) && pm0.Keys == byPid.Keys == PidSet(procs)
    requires forall i :: 0 <= i < |procs| ==> byPid[procs[i].pid] == procs[i] && pm0[procs[i].pid] == Unset
    ensures pm.Keys == PidSet(procs)
    ensures forall i :: 0 <= i < |procs| ==> pm[procs[i].pid] == TimesOf(g, procs[i])
  {
    pm := pm0;
    for k := 0 to |g|
      invariant pm.Keys == PidSet(procs)
      invariant forall i :: 0 <= i < |procs| ==> pm[procs[i].pid] == TimesOf(g[..k], procs[i])
    {
      var e := g[k];
      assert e.pid in PidSet(procs);
      var p := byPid[e.pid];
      var times := pm[e.pid];
      if times.response == -1 {
        times := times.(response := Max(0, e.start - p.arrival));
      }
      times := times.(turnaround := e.end - p.arrival);
      times := times.(waiting := times.turnaround - p.burst);
      ghost var n :| 0 <= n < |procs| && procs[n].pid == e.pid;
      TimesStep(procs, g, k, n, pm[e.pid], times);
      pm := pm[e.pid := times];
    }
    assert g[..|g|] == g;
  }

  /** `pids.forEach`: the totals of the three columns. */
  method ColumnTotals(pm: map<string, Times>, procs: seq<Process>) returns (waiting: int, turnaround: int, response: int)
    requires forall i :: 0 <= i < |procs| ==> procs[i].pid in pm
    ensures waiting == Total(pm, procs, WaitingColumn)
    ensures turnaround == Total(pm, procs, TurnaroundColumn)
    ensures response == Total(pm, procs, ResponseColumn)
  {
    waiting, turnaround, response := 0, 0, 0;
    for i := 0 to |procs|
      invariant waiting == Total(pm, procs[..i], WaitingColumn)
      invariant turnaround == Total(pm, procs[..i], TurnaroundColumn)
      invariant response == Total(pm, procs[..i], ResponseColumn)
    {
      assert procs[..i + 1][..i] == procs[..i];
      var times := pm[procs[i].pid];
      waiting := waiting + times.waiting;
      turnaround := turnaround + times.turnaround;
      response := response + times.response;
    }
    assert procs[..|procs|] == procs;
  }

  /**
   * One entry of the `gantt.forEach`: the times kept for its process become
   * `TimesOf` the longer prefix. `before` is what was kept, `after` what the
   * source's updates make of it.
   */
  lemma {:induction false} TimesStep(procs: seq<Process>, g: seq<Entry>, k: int, n: int, before: Times, after: Times)
    requires 0 <= k < |g| && 0 <= n < |procs| && procs[n].pid == g[k].pid
    requires before == TimesOf(g[..k], procs[n])
    requires after.turnaround == g[k].end - procs[n].arrival
    requires after.waiting == after.turnaround - procs[n].burst
    requires after.response == if before.response == -1 then Max(0, g[k].start - procs[n].arrival) else before.response
    ensures after == TimesOf(g[..k + 1], procs[n])
    ensures forall p: Process {:trigger TimesOf(g[..k + 1], p)} :: p.pid != g[k].pid ==> TimesOf(g[..k + 1], p) == TimesOf(g[..k], p)
  {
    var h := g[..k];
    var e := g[k];
    assert g[..k + 1] == h + [e];
    AppendFacts(h, e);
    var p := procs[n];
    if HasEntry(h, p.pid) {
      assert before.response >= 0;
    }
    forall q: Process | q.pid != e.pid ensures TimesOf(h + [e], q) == TimesOf(h, q) {
      if HasEntry(h, q.pid) {
        assert (h + [e])[..|h|] == h;
      }
    }
  }

  // ---------------------------------------------------------------------------
  // What the times mean

  /** A response time of `-1` means exactly that the process never ran. */
  lemma {:induction false} ResponseUnsetIffNoEntry(g: seq<Entry>, p: Process)
    ensures TimesOf(g, p).response == -1 <==> !HasEntry(g, p.pid)
    ensures TimesOf(g, p).response >= -1
  {
  }

  /**
   * In a valid schedule every process ran, and it waited at least as long as it
   * took to respond: `0 <= response <= waiting`, so the turnaround is at least
   * the burst.
   */
  lemma {:induction false} ValidTimes(procs: seq<Process>, g: seq<Entry>, i: int)
    requires ValidProcesses(procs) && ValidGantt(procs, g) && 0 <= i < |procs|
    ensures var t := TimesOf(g, procs[i]);
            && HasEntry(g, procs[i].pid)
            && t.response == FirstStart(g, procs[i].pid) - procs[i].arrival
            && 0 <= t.response <= t.waiting
            && t.turnaround >= procs[i].burst
  {
    var p := procs[i];
    assert Busy(g, p.pid) == p.burst && ValidProcess(p);
    if !HasEntry(g, p.pid) {
      BusyAbsent(g, p.pid);
    }
    var k :| 0 <= k < |g| && g[k].pid == p.pid && g[k].start == FirstStart(g, p.pid);
    assert StartsAfterArrival(procs, i, g, k);
    BusyWithinSpan(g, p.pid);
  }

  /** In a valid schedule the turnaround total exceeds the waiting total by the total burst. */
  lemma {:induction false} TotalsDiffer(procs: seq<Process>, g: seq<Entry>, pm: map<string, Times>, ps: seq<Process>)
    requires ValidProcesses(procs) && ValidGantt(procs, g)
    requires forall i :: 0 <= i < |procs| ==> procs[i].pid in pm && pm[procs[i].pid] == TimesOf(g, procs[i])
    requires forall i :: 0 <= i < |ps| ==> ps[i] in procs
    ensures forall i :: 0 <= i < |ps| ==> ps[i].pid in pm
    ensures Total(pm, ps, TurnaroundColumn) - Total(pm, ps, WaitingColumn) == TotalBurst(ps)
    ensures Total(pm, ps, ResponseColumn) <= Total(pm, ps, WaitingColumn)
    ensures Total(pm, ps, ResponseColumn) >= 0
  {
    assert forall i :: 0 <= i < |ps| ==> ps[i].pid in pm by {
      forall i | 0 <= i < |ps| ensures ps[i].pid in pm {
        var n :| 0 <= n < |procs| && procs[n] == ps[i];
      }
    }
    if |ps| > 0 {
      var init := ps[..|ps| - 1];
      TotalsDiffer(procs, g, pm, init);
      var n :| 0 <= n < |procs| && procs[n] == ps[|ps| - 1];
      ValidTimes(procs, g, n);
    }
  }

  function TotalBurst(ps: seq<Process>): int
  {
    if |ps| == 0 then 0 else TotalBurst(ps[..|ps| - 1]) + ps[|ps| - 1].burst
  }

  /** The CPU time `g` gives to the pids of `ps`, summed over `ps`. */
  function BusyOver(g: seq<Entry>, ps: seq<Process>): int
  {
    if |ps| == 0 then 0 else BusyOver(g, ps[..|ps| - 1]) + Busy(g, ps[|ps| - 1].pid)
  }

  /**
   * Work conservation for the whole chart: on a valid chart the CPU is busy for
   * exactly the total burst, so utilisation is the total burst over the span.
   */
  lemma {:induction false} BusyIsTotalBurst(procs: seq<Process>, g: seq<Entry>)
    requires ValidProcesses(procs) && ValidGantt(procs, g)
    ensures TotalBusy(g) == TotalBurst(procs)
  {
    BusyIsBusyOver(g, procs);
    BusyOverConserved(g, procs);
  }

  /** With distinct pids and only known pids in `g`, the chart's busy time is the sum over the processes. */
  lemma {:induction false} BusyIsBusyOver(g: seq<Entry>, ps: seq<Process>)
    requires UniquePids(ps) && KnownPids(ps, g)
    ensures TotalBusy(g) == BusyOver(g, ps)
  {
    if |g| == 0 {
      BusyOverEmpty(ps);
    } else {
      var init := g[..|g| - 1];
      var e := g[|g| - 1];
      assert g == init + [e];
      assert KnownPids(ps, init) by {
        forall k | 0 <= k < |init| ensures init[k].pid in PidSet(ps) {
          assert init[k] == g[k];
        }
      }
      BusyIsBusyOver(init, ps);
      assert e.pid in PidSet(ps);
      BusyOverAppend(init, e, ps);
      AppendFacts(init, e);
    }
  }

  lemma {:induction false} BusyOverEmpty(ps: seq<Process>)
    ensures BusyOver([], ps) == 0
  {
    if |ps| > 0 {
      BusyOverEmpty(ps[..|ps| - 1]);
    }
  }

  /** One more entry adds its length to the sum, once, when its pid is one of `ps`. */
  lemma {:induction false} BusyOverAppend(g: seq<Entry>, e: Entry, ps: seq<Process>)
    requires UniquePids(ps)
    ensures BusyOver(g + [e], ps) == BusyOver(g, ps) + (if e.pid in PidSet(ps) then e.end - e.start else 0)
  {
    if |ps| > 0 {
      var init := ps[..|ps| - 1];
      var last := ps[|ps| - 1];
      assert UniquePids(init) by {
        forall i, j | 0 <= i < j < |init| ensures init[i].pid != init[j].pid {
          assert init[i] == ps[i] && init[j] == ps[j];
        }
      }
      BusyOverAppend(g, e, init);
      AppendFacts(g, e);
      assert PidSet(ps) == PidSet(init) + {last.pid} by {
        forall x | x in PidSet(ps) ensures x in PidSet(init) + {last.pid} {
          var i :| 0 <= i < |ps| && ps[i].pid == x;
          if i < |init| {
            assert init[i] == ps[i];
          }
        }
        forall x | x in PidSet(init) ensures x in PidSet(ps) {
          var i :| 0 <= i < |init| && init[i].pid == x;
          assert ps[i] == init[i];
        }
      }
      assert last.pid !in PidSet(init) by {
        forall i | 0 <= i < |init| ensures init[i].pid != last.pid {
          assert init[i] == ps[i];
        }
      }
    }
  }

  /** When each process has had its burst, the sum over the processes is the total burst. */
  lemma {:induction false} BusyOverConserved(g: seq<Entry>, ps: seq<Process>)
    requires Conserves(ps, g)
    ensures BusyOver(g, ps) == TotalBurst(ps)
  {
    if |ps| > 0 {
      var init := ps[..|ps| - 1];
      assert Conserves(init, g) by {
        forall i | 0 <= i < |init| ensures Busy(g, init[i].pid) == init[i].burst {
          assert init[i] == ps[i];
        }
      }
      BusyOverConserved(g, init);
    }
  }

  /**
   * For a valid schedule the averages are ordered as their meanings demand:
   * `0 <= averageResponse <= averageWaiting`, and the average turnaround is
   * the average waiting time plus the average burst.
   */
  lemma {:induction false} ValidAverages(procs: seq<Process>, g: seq<Entry>, m: Report)
    requires ValidProcesses(procs) && ValidGantt(procs, g)
    requires forall i :: 0 <= i < |procs| ==> procs[i].pid in m.perProcess && m.perProcess[procs[i].pid] == TimesOf(g, procs[i])
    requires m.averageWaiting == Average(m.perProcess, procs, WaitingColumn)
    requires m.averageTurnaround == Average(m.perProcess, procs, TurnaroundColumn)
    requires m.averageResponse == Average(m.perProcess, procs, ResponseColumn)
    ensures 0.0 <= m.averageResponse <= m.averageWaiting
    ensures m.averageTurnaround == m.averageWaiting + TotalBurst(procs) as real / |procs| as real
  {
    TotalsDiffer(procs, g, m.perProcess, procs);
    var n := |procs| as real;
    var w := Total(m.perProcess, procs, WaitingColumn) as real;
    var r := Total(m.perProcess, procs, ResponseColumn) as real;
    var b := TotalBurst(procs) as real;
    assert Total(m.perProcess, procs, TurnaroundColumn) as real == w + b;
    DivideMonotone(r, w, n);
    DivideMonotone(0.0, r, n);
    DivideAdd(w, b, n);
  }

  /** A non-empty schedule whose entries start after their processes arrive spans a positive time. */
  lemma {:induction false} SpanCovers(procs: seq<Process>, g: seq<Entry>)
    requires |procs| > 0 && |g| > 0 && Shaped(procs, g)
    ensures 0 < TotalBusy(g) <= Span(g, procs)
  {
    TotalBusyWithinSpan(g);
    TotalBusyPositive(g);
    var i :| 0 <= i < |procs| && procs[i].pid == g[0].pid;
    assert StartsAfterArrival(procs, i, g, 0);
  }

  lemma {:induction false} TotalBusyPositive(g: seq<Entry>)
    requires |g| > 0 && forall k :: 0 <= k < |g| ==> g[k].start < g[k].end
    ensures TotalBusy(g) > 0
  {
    var init := g[..|g| - 1];
    if |init| > 0 {
      assert forall k :: 0 <= k < |init| ==> init[k] == g[k];
      TotalBusyPositive(init);
    }
  }

  /**
   * For a non-empty valid schedule the division by the span is defined, CPU
   * utilisation is a percentage above 0 and at most 100, and throughput is positive.
   */
  lemma {:induction false} UtilisationBounded(procs: seq<Process>, g: seq<Entry>)
    requires |procs| > 0 && |g| > 0 && Shaped(procs, g)
    ensures Span(g, procs) > 0
    ensures 0.0 < Utilisation(g, procs) <= 100.0
    ensures |procs| as real / Span(g, procs) as real > 0.0
  {
    SpanCovers(procs, g);
    RatioBounds(TotalBusy(g) as real, Span(g, procs) as real);
    DivPositive(|procs| as real, Span(g, procs) as real);
  }

  // ---------------------------------------------------------------------------
  // Real division

  lemma {:induction false} DivideMonotone(a: real, b: real, n: real)
    requires a <= b && n > 0.0
    ensures a / n <= b / n
  {
    var d := b / n - a / n;
    assert d * n == b - a;
  }

  lemma {:induction false} DivideAdd(a: real, b: real, n: real)
    requires n > 0.0
    ensures (a + b) / n == a / n + b / n
  {
    assert (a / n + b / n) * n == a + b;
  }

  lemma {:induction false} DivSelf(s: real)
    requires s > 0.0
    ensures s / s == 1.0
  {
  }

  lemma {:induction false} DivPositive(b: real, s: real)
    requires b > 0.0 && s > 0.0
    ensures b / s > 0.0
  {
  }

  /** A positive part of a whole, as a percentage, lies in (0, 100]. */
  lemma {:induction false} RatioBounds(b: real, s: real)
    requires 0.0 < b <= s
    ensures 0.0 < (b / s) * 100.0 <= 100.0
  {
    DivideMonotone(b, s, s);
    DivSelf(s);
    DivPositive(b, s);
  }
}
