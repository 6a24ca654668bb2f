/**
 * The input of the scheduling engine: processes with an arrival time, a CPU
 * burst and an optional priority (lower value = more urgent), and the working
 * copies ("jobs") every strategy makes of them.
 */
module Processes {
  import opened Wrappers

  /** `{pid, arrival_time, burst_time, priority}`; `priority` is `null` when the form hides it. */
  datatype Process = Process(pid: string, arrival: int, burst: int, priority: Option<int>)

  /** The working copy `{...p, remaining: p.burst_time}` of a process. */
  datatype Job = Job(proc: Process, remaining: int)

  /** `processes.map(p => ({ ...p, remaining: p.burst_time }))` */
  function Initial(ps: seq<Process>): (js: seq<Job>)
    ensures |js| == |ps|
    ensures forall i :: 0 <= i < |ps| ==> js[i] == Job(ps[i], ps[i].burst)
    ensures forall j {:trigger j in js} :: j in js ==> j.proc in ps && j.remaining == j.proc.burst
  {
    seq(|ps|, i requires 0 <= i < |ps| => Job(ps[i], ps[i].burst))
  }

  /** `Math.max` and `Math.min` on two integers. */
  function Max(a: int, b: int): int
  {
    if a >= b then a else b
  }

  function Min(a: int, b: int): int
  {
    if a <= b then a else b
  }

  predicate UniquePids(ps: seq<Process>)
  {
    forall i, j {:trigger ps[i].pid, ps[j].pid} :: 0 <= i < j < |ps| ==> ps[i].pid != ps[j].pid
  }

  predicate ValidProcess(p: Process)
  {
    p.arrival >= 0 && p.burst > 0
  }

  /** What every strategy assumes of its input (the engine itself never checks it). */
  predicate ValidProcesses(ps: seq<Process>)
  {
    && |ps| > 0
    && UniquePids(ps)
    && forall i :: 0 <= i < |ps| ==> ValidProcess(ps[i])
  }

  /** What the two priority strategies additionally assume. */
  predicate HasPriorities(ps: seq<Process>)
  {
    forall i :: 0 <= i < |ps| ==> ps[i].priority.Some?
  }

  function PidSet(ps: seq<Process>): set<string>
  {
    set i | 0 <= i < |ps| :: ps[i].pid
  }

  /** `Math.min(...processes.map(p => p.arrival_time))` */
  function EarliestArrival(ps: seq<Process>): (r: int)
    requires |ps| > 0
    ensures forall i :: 0 <= i < |ps| ==> r <= ps[i].arrival
    ensures exists i :: 0 <= i < |ps| && r == ps[i].arrival
  {
    if |ps| == 1 then ps[0].arrival
    else
      var rest := EarliestArrival(ps[1..]);
      assert forall i :: 1 <= i < |ps| ==> ps[i] == ps[1..][i - 1];
      if ps[0].arrival <= rest then ps[0].arrival else rest
  }

  /** Two processes of a list with unique pids that share a pid are the same process. */
  lemma {:induction false} SamePid(ps: seq<Process>, p: Process, q: Process)
    requires UniquePids(ps) && p in ps && q in ps && p.pid == q.pid
    ensures p == q
  {
  }

  /** The work still owed to `pid` by the jobs in `js`. */
  function Owed(js: seq<Job>, pid: string): int
  {
    if |js| == 0 then 0
    else (if js[0].proc.pid == pid then js[0].remaining else 0) + Owed(js[1..], pid)
  }

  /** The work still owed to all jobs in `js`. */
  function Outstanding(js: seq<Job>): int
  {
    if |js| == 0 then 0 else js[0].remaining + Outstanding(js[1..])
  }

  /** How many jobs in `js` carry `pid`. */
  function Count(js: seq<Job>, pid: string): nat
  {
    if |js| == 0 then 0
    else (if js[0].proc.pid == pid then 1 else 0) + Count(js[1..], pid)
  }

  lemma {:induction false} SumsConcat(a: seq<Job>, b: seq<Job>)
    ensures forall pid :: Owed(a + b, pid) == Owed(a, pid) + Owed(b, pid)
    ensures forall pid :: Count(a + b, pid) == Count(a, pid) + Count(b, pid)
    ensures Outstanding(a + b) == Outstanding(a) + Outstanding(b)
  {
    if |a| > 0 {
      assert (a + b)[1..] == a[1..] + b;
      SumsConcat(a[1..], b);
    } else {
      assert a + b == b;
    }
  }

  /** Owed and Count of a one-job list. */
  lemma {:induction false} SumsSingle(j: Job)
    ensures forall pid :: Owed([j], pid) == (if j.proc.pid == pid then j.remaining else 0)
    ensures forall pid :: Count([j], pid) == (if j.proc.pid == pid then 1 else 0)
    ensures Outstanding([j]) == j.remaining
  {
    assert [j][1..] == [];
  }

  /** A job that is the only one with its pid carries all the work owed to that pid. */
  lemma {:induction false} OwedSingle(js: seq<Job>, j: Job)
    requires j in js && Count(js, j.proc.pid) == 1
    ensures Owed(js, j.proc.pid) == j.remaining
  {
    if js[0] != j {
      CountPositive(js[1..], j);
      OwedSingle(js[1..], j);
    } else {
      OwedAbsent(js[1..], j.proc.pid);
    }
  }

  lemma {:induction false} CountPositive(js: seq<Job>, j: Job)
    requires j in js
    ensures Count(js, j.proc.pid) >= 1
  {
    if js[0] != j {
      CountPositive(js[1..], j);
    }
  }

  lemma {:induction false} OwedAbsent(js: seq<Job>, pid: string)
    requires Count(js, pid) == 0
    ensures Owed(js, pid) == 0
  {
    if |js| > 0 {
      OwedAbsent(js[1..], pid);
    }
  }

  /** Jobs with positive remaining work owe a positive total. */
  lemma {:induction false} OutstandingPositive(js: seq<Job>)
    requires forall j :: j in js ==> j.remaining > 0
    ensures Outstanding(js) >= 0
    ensures |js| > 0 ==> Outstanding(js) >= js[0].remaining
  {
    if |js| > 0 {
      OutstandingPositive(js[1..]);
    }
  }
}
