/**
 * `runSimulation`: the dispatch from the requested algorithm name to a
 * scheduling strategy, and the report each strategy returns. The request,
 * the user, the database write and the HTTP response are not modelled: the
 * inputs arrive as parameters and the outcome is a `Result`.
 */
module Simulator {
  import opened Wrappers
  import opened Processes
  import opened Gantt
  import opened Selection
  import opened Metrics
  import opened Sorting
  import F = Fcfs
  import N = NonPreemptive
  import P = Preemptive
  import R = RoundRobin

  /** `{algoName, gantt, metrics}` */
  datatype Simulation = Simulation(algoName: string, gantt: seq<Entry>, metrics: Report)

  const Unsupported := "Algorithm not supported"

  /** The names the switch has a case for. */
  const Supported: set<string> := {"FCFS", "SJF", "SRTF", "Priority", "Priority (Preemptive)", "RR"}

  /**
   * The names the dispatch accepts, paired with the name each strategy reports:
   * exactly the six cases of the switch, each reporting a non-empty name.
   */
  function AlgoName(algorithm: string): (r: Option<string>)
    ensures r.Some? <==> algorithm in Supported
    ensures r.Some? ==> |r.value| > 0
  {
    if algorithm == "FCFS" then Some("First Come First Serve")
    else if algorithm == "SJF" then Some("Shortest Job First")
    else if algorithm == "SRTF" then Some("Shortest Remaining Time First")
    else if algorithm == "Priority" then Some("Priority")
    else if algorithm == "Priority (Preemptive)" then Some("Priority (Preemptive)")
    else if algorithm == "RR" then Some("Round Robin")
    else None
  }

  /**
   * `timeQuantum || 1`: a missing quantum (`undefined` or `null`) or a zero one
   * falls back to 1; any other number is used as it is.
   */
  function EffectiveQuantum(timeQuantum: Option<int>): (q: int)
    ensures q == 1 || timeQuantum == Some(q)
    ensures q != 0
  {
    match timeQuantum
    case None => 1
    case Some(v) => if v == 0 then 1 else v
  }

  /** The quantum Round Robin runs with is positive unless a negative one was sent. */
  lemma {:induction false} QuantumPositive(timeQuantum: Option<int>)
    requires timeQuantum.None? || timeQuantum.value >= 0
    ensures EffectiveQuantum(timeQuantum) > 0
    ensures EffectiveQuantum(timeQuantum) == 1 <==> timeQuantum.None? || timeQuantum.value <= 1
  {
  }

  /** No two strategies report the same name, so the report name tells which case ran. */
  lemma {:induction false} AlgoNameInjective(a: string, b: string)
    requires AlgoName(a).Some? && AlgoName(a) == AlgoName(b)
    ensures a == b
  {
  }

  /** What the caller of each strategy must supply. */
  predicate Acceptable(algorithm: string, procs: seq<Process>, timeQuantum: Option<int>)
  {
    && ValidProcesses(procs)
    && (algorithm == "Priority" || algorithm == "Priority (Preemptive)" ==> HasPriorities(procs))
    && (algorithm == "RR" ==> EffectiveQuantum(timeQuantum) > 0)
  }

  /**
   * `runSimulation`'s switch: an unknown name is rejected with
   * "Algorithm not supported" and nothing else; every known name yields a valid
   * schedule carrying the guarantee of its strategy, with metrics that are
   * consistent with it.
   */
  method RunSimulation(algorithm: string, procs: seq<Process>, timeQuantum: Option<int>)
    returns (r: Result<Simulation, string>)
    requires AlgoName(algorithm).Some? ==> Acceptable(algorithm, procs, timeQuantum)
    ensures r.Failure? <==> AlgoName(algorithm).None?
    ensures r.Failure? ==> r.error == Unsupported
    ensures r.Success? ==> Sound(procs, r.value) && Some(r.value.algoName) == AlgoName(algorithm)
    ensures r.Success? && algorithm == "FCFS" ==>
              |r.value.gantt| == |procs| &&
              forall k :: 0 <= k < |r.value.gantt| ==> F.InArrivalOrder(procs, r.value.gantt, k)
    ensures r.Success? && algorithm == "SJF" ==>
              forall k :: 0 <= k < |r.value.gantt| ==> N.ChosenAt(procs, r.value.gantt, k, BurstTime)
    ensures r.Success? && algorithm == "Priority" ==>
              forall k :: 0 <= k < |r.value.gantt| ==> N.ChosenAt(procs, r.value.gantt, k, PriorityValue)
    ensures r.Success? && algorithm == "SRTF" ==>
              && P.AllRunsChosen(procs, r.value.gantt, RemainingTime) && NoAdjacentRepeat(r.value.gantt)
              && P.NoIdleWhileReady(procs, r.value.gantt, Before(r.value.gantt))
    ensures r.Success? && algorithm == "Priority (Preemptive)" ==>
              && P.AllRunsChosen(procs, r.value.gantt, PriorityValue) && NoAdjacentRepeat(r.value.gantt)
              && P.NoIdleWhileReady(procs, r.value.gantt, Before(r.value.gantt))
    ensures r.Success? && algorithm == "RR" ==>
              var q := EffectiveQuantum(timeQuantum);
              && R.SlicesByQuantum(procs, q, r.value.gantt)
              && R.FollowsQueue(Initial(SortByArrival(procs)), q, r.value.gantt)
              && R.DrainedAfter(Initial(SortByArrival(procs)), q, |r.value.gantt|)
  {
    var gantt: seq<Entry>;
    match algorithm {
      case "FCFS" =>
        gantt := F.Fcfs(procs);
      case "SJF" =>
        gantt := N.NonPreemptive(procs, BurstTime);
      case "SRTF" =>
        gantt := P.Preemptive(procs, RemainingTime);
      case "Priority" =>
        gantt := N.NonPreemptive(procs, PriorityValue);
      case "Priority (Preemptive)" =>
        gantt := P.Preemptive(procs, PriorityValue);
      case "RR" =>
        gantt := R.RoundRobin(procs, EffectiveQuantum(timeQuantum));
      case _ =>
        return Failure(Unsupported);
    }
    var s := Finish(AlgoName(algorithm).value, procs, gantt);
    return Success(s);
  }

  /**
   * A successful run: a valid schedule whose report gives each process the
   * times `TimesOf` reads off the schedule, the column averages over all
   * processes, the utilisation and throughput over the (positive) span, and
   * with them `0 <= response <= waiting` and a utilisation within (0, 100].
   */
  ghost predicate Sound(procs: seq<Process>, s: Simulation)
    requires ValidProcesses(procs)
  {
    && ValidGantt(procs, s.gantt) && |s.gantt| > 0
    && s.metrics.perProcess.Keys == PidSet(procs)
    && (forall i :: 0 <= i < |procs| ==> s.metrics.perProcess[procs[i].pid] == TimesOf(s.gantt, procs[i]))
    && Covers(s.metrics.perProcess, procs)
    && s.metrics.averageWaiting == Average(s.metrics.perProcess, procs, WaitingColumn)
    && s.metrics.averageTurnaround == Average(s.metrics.perProcess, procs, TurnaroundColumn)
    && s.metrics.averageResponse == Average(s.metrics.perProcess, procs, ResponseColumn)
    && Span(s.gantt, procs) > 0
    && s.metrics.utilisation == Utilisation(s.gantt, procs)
    && s.metrics.throughput == |procs| as real / Span(s.gantt, procs) as real
    && 0.0 <= s.metrics.averageResponse <= s.metrics.averageWaiting
    && s.metrics.averageTurnaround == s.metrics.averageWaiting + TotalBurst(procs) as real / |procs| as real
    && 0.0 < s.metrics.utilisation <= 100.0
    && s.metrics.throughput > 0.0
  }

  /** `return { algoName, gantt, metrics: calculateMetrics(gantt, processes) }` */
  method Finish(algoName: string, procs: seq<Process>, gantt: seq<Entry>) returns (s: Simulation)
    requires ValidProcesses(procs) && ValidGantt(procs, gantt)
    ensures Sound(procs, s) && s.algoName == algoName && s.gantt == gantt
  {
    NonEmptySchedule(procs, gantt);
    UtilisationBounded(procs, gantt);
    var m := CalculateMetrics(procs, gantt);
    ValidAverages(procs, gantt, m);
    s := Simulation(algoName, gantt, m);
  }

  /** A valid schedule of at least one process has at least one entry. */
  lemma {:induction false} NonEmptySchedule(procs: seq<Process>, g: seq<Entry>)
    requires ValidProcesses(procs) && ValidGantt(procs, g)
    ensures |g| > 0
  {
    assert Busy(g, procs[0].pid) == procs[0].burst && ValidProcess(procs[0]);
  }
}
