/**
 * Round Robin: a FIFO ready queue over the working list sorted by arrival.
 * The head of the queue runs for `min(quantum, remaining)`; then every job
 * that has arrived by the new clock joins the queue, and only after them the
 * job that just ran goes back to the tail if it still has work left.
 *
 * The working list is `pending` (the jobs that have not yet joined the queue,
 * sorted by arrival); `queue + pending` holds every job with work left.
 */
module RoundRobin {
  import opened Processes
  import opened Gantt
  import opened Sorting

  // ---------------------------------------------------------------------------
  // Arrivals

  /**
   * The jobs the arrivals loop moves from the working list to the queue: the
   * longest prefix of `pending` whose jobs have arrived by `t`.
   */
  function Arrived(pending: seq<Job>, t: int): (a: seq<Job>)
    ensures |a| <= |pending| && a == pending[..|a|]
    ensures forall j {:trigger j in a} :: j in a ==> j.proc.arrival <= t
    ensures |a| < |pending| ==> pending[|a|].proc.arrival > t
  {
    if |pending| == 0 || pending[0].proc.arrival > t then []
    else
      var rest := Arrived(pending[1..], t);
      assert pending[..|rest| + 1] == [pending[0]] + pending[1..][..|rest|];
      [pending[0]] + rest
  }

  /** Job `i` arrives no later than job `j`. */
  predicate InOrder(js: seq<Job>, i: int, j: int)
  {
    0 <= i < |js| && 0 <= j < |js| && js[i].proc.arrival <= js[j].proc.arrival
  }

  predicate JobsByArrival(js: seq<Job>)
  {
    forall i, j :: 0 <= i < j < |js| ==> InOrder(js, i, j)
  }

  /** No job that has yet to join the queue has arrived by `t`. */
  predicate Waiting(pending: seq<Job>, t: int)
  {
    forall j {:trigger j in pending} :: j in pending ==> j.proc.arrival > t
  }

  /**
   * In a list sorted by arrival, the arrived prefix is every job that has
   * arrived: the jobs after it arrive later, and they are still sorted.
   */
  lemma {:induction false} ArrivedSplits(pending: seq<Job>, t: int)
    requires JobsByArrival(pending)
    ensures var rest := pending[|Arrived(pending, t)|..];
            Waiting(rest, t) && JobsByArrival(rest) && pending == Arrived(pending, t) + rest
  {
    var n := |Arrived(pending, t)|;
    var rest := pending[n..];
    forall j | j in rest ensures j.proc.arrival > t {
      var k :| 0 <= k < |rest| && rest[k] == j;
      if k > 0 {
        assert InOrder(pending, n, n + k);
      }
    }
    forall i, j | 0 <= i < j < |rest| ensures InOrder(rest, i, j) {
      assert InOrder(pending, n + i, n + j);
    }
  }

  /**
   * The arrivals loop: jobs move from the front of `pending` to the back of
   * `queue`, one at a time and in order, until the next one has not arrived.
   */
  method EnqueueArrivals(queue: seq<Job>, pending: seq<Job>, t: int) returns (queue': seq<Job>, pending': seq<Job>)
    ensures queue' == queue + Arrived(pending, t)
    ensures pending' == pending[|Arrived(pending, t)|..]
  {
    queue', pending' := queue, pending;
    while |pending'| > 0 && pending'[0].proc.arrival <= t
      invariant queue' + Arrived(pending', t) == queue + Arrived(pending, t)
      invariant pending'[|Arrived(pending', t)|..] == pending[|Arrived(pending, t)|..]
      decreases |pending'|
    {
      var rest := Arrived(pending'[1..], t);
      assert Arrived(pending', t) == [pending'[0]] + rest;
      assert pending'[1 + |rest|..] == pending'[1..][|rest|..];
      assert queue' + ([pending'[0]] + rest) == (queue' + [pending'[0]]) + rest;
      queue' := queue' + [pending'[0]];
      pending' := pending'[1..];
    }
    assert queue' + [] == queue';
  }

  // ---------------------------------------------------------------------------
  // The source's rule, replayed

  /** The ready queue, the jobs not yet queued, and the clock between iterations. */
  datatype RrQueue = RrQueue(queue: seq<Job>, pending: seq<Job>, t: int)

  /**
   * The clock jumps to the arrival of the first pending job, and every job that
   * has arrived by then joins the queue, in order.
   */
  function Admit(pending: seq<Job>): (s: RrQueue)
    requires |pending| > 0
    ensures |s.queue| > 0 && s.t == pending[0].proc.arrival && s.queue + s.pending == pending
  {
    var t := pending[0].proc.arrival;
    var a := Arrived(pending, t);
    assert pending == a + pending[|a|..];
    RrQueue(a, pending[|a|..], t)
  }

  /** The state before the loop: the first arrivals queued, or nothing at all. */
  function RrInit(pending: seq<Job>): RrQueue
  {
    if |pending| == 0 then RrQueue([], [], 0) else Admit(pending)
  }

  /** An empty queue with jobs still to come waits for the next arrival. */
  function Settle(s: RrQueue): (r: RrQueue)
    ensures |s.queue| + |s.pending| > 0 ==> |r.queue| > 0
    ensures |s.queue| > 0 ==> r == s
  {
    if |s.queue| == 0 && |s.pending| > 0 then Admit(s.pending) else s
  }

  /**
   * One slice: the head runs `min(quantum, remaining)`; the jobs that have
   * arrived by the new clock join the queue before the head goes back to it.
   */
  function Slice(s: RrQueue, quantum: int): RrQueue
    requires |s.queue| > 0
  {
    var cur := s.queue[0];
    var run := Min(quantum, cur.remaining);
    var left := Job(cur.proc, cur.remaining - run);
    var a := Arrived(s.pending, s.t + run);
    RrQueue(s.queue[1..] + a + (if left.remaining > 0 then [left] else []), s.pending[|a|..], s.t + run)
  }

  /** The state after `k` slices from the working list `init`. */
  function StateAfter(init: seq<Job>, quantum: int, k: nat): RrQueue
  {
    if k == 0 then RrInit(init)
    else
      var s := Settle(StateAfter(init, quantum, k - 1));
      if |s.queue| > 0 then Slice(s, quantum) else s
  }

  /** The state in which slice `k` starts. */
  function SliceState(init: seq<Job>, quantum: int, k: nat): RrQueue
  {
    Settle(StateAfter(init, quantum, k))
  }

  /**
   * Entry `k` is the slice the source runs next: the head of the queue as the
   * earlier entries left it, from the clock (or the next arrival when the
   * queue is empty), for `min(quantum, remaining)`.
   */
  predicate ServesHead(init: seq<Job>, quantum: int, g: seq<Entry>, k: int)
    requires 0 <= k < |g|
  {
    var s := SliceState(init, quantum, k);
    |s.queue| > 0 && g[k] == Entry(s.queue[0].proc.pid, s.t, s.t + Min(quantum, s.queue[0].remaining))
  }

  /** Every entry of `g` is the slice the queue serves next, starting from the working list `init`. */
  predicate FollowsQueue(init: seq<Job>, quantum: int, g: seq<Entry>)
  {
    forall k :: 0 <= k < |g| ==> ServesHead(init, quantum, g, k)
  }

  /** After the `n` entries of the schedule, the queue and the pending list are empty. */
  predicate DrainedAfter(init: seq<Job>, quantum: int, n: nat)
  {
    var s := StateAfter(init, quantum, n);
    s.queue == [] && s.pending == []
  }

  // ---------------------------------------------------------------------------
  // The schedule

  /**
   * Entry `k`, if it belongs to process `i`, lasts the quantum or what the
   * process still needed before it, whichever is less.
   */
  predicate SliceOk(ps: seq<Process>, quantum: int, g: seq<Entry>, k: int, i: int)
  {
    && 0 <= k < |g| && 0 <= i < |ps|
    && (ps[i].pid == g[k].pid ==> g[k].end - g[k].start == Min(quantum, ps[i].burst - Busy(g[..k], ps[i].pid)))
  }

  /** Every entry is one slice of `min(quantum, remaining)`. */
  predicate SlicesByQuantum(ps: seq<Process>, quantum: int, g: seq<Entry>)
  {
    forall k, i :: 0 <= k < |g| && 0 <= i < |ps| ==> SliceOk(ps, quantum, g, k, i)
  }

  /** Every job in `queue` has arrived by `t`. */
  predicate ArrivedBy(queue: seq<Job>, t: int)
  {
    forall j {:trigger j in queue} :: j in queue ==> j.proc.arrival <= t
  }

  /** Every job is a copy of an input process that still has work left. */
  predicate Live(procs: seq<Process>, js: seq<Job>)
  {
    forall j {:trigger j in js} :: j in js ==> j.proc in procs && j.remaining > 0
  }

  /** No pid has two jobs. */
  ghost predicate AtMostOnce(js: seq<Job>)
  {
    forall pid :: Count(js, pid) <= 1
  }

  /** What the schedule has given each process plus what its job still owes is its burst. */
  predicate Conserved(procs: seq<Process>, g: seq<Entry>, js: seq<Job>)
  {
    forall i :: 0 <= i < |procs| ==> Busy(g, procs[i].pid) + Owed(js, procs[i].pid) == procs[i].burst
  }

  /**
   * What holds of the queue, the jobs not yet queued, the clock and the Gantt
   * sequence between iterations, apart from the pending jobs being in the future.
   */
  ghost predicate RrState(procs: seq<Process>, quantum: int, queue: seq<Job>, pending: seq<Job>, t: int, g: seq<Entry>)
  {
    && JobsByArrival(pending) && ArrivedBy(queue, t)
    && Live(procs, queue + pending) && AtMostOnce(queue + pending) && Conserved(procs, g, queue + pending)
    && Shaped(procs, g) && EndsBy(g, t) && SlicesByQuantum(procs, quantum, g)
  }

  /**
   * `roundRobin`: the result is a valid schedule in which every entry is a
   * slice of `min(quantum, remaining)`, every entry is the slice the FIFO
   * queue serves next, and nothing is left to run after the last one.
   */
  method RoundRobin(procs: seq<Process>, quantum: int) returns (gantt: seq<Entry>)
    requires ValidProcesses(procs) && quantum > 0
    ensures ValidGantt(procs, gantt)
    ensures SlicesByQuantum(procs, quantum, gantt)
    ensures FollowsQueue(Initial(SortByArrival(procs)), quantum, gantt)
    ensures DrainedAfter(Initial(SortByArrival(procs)), quantum, |gantt|)
  {
    var sorted := SortByArrival(procs);
    var pending := Initial(sorted);
    var t := 0;
    gantt := [];
    var queue: seq<Job> := [];
    ghost var init := pending;
    RrStart(procs, quantum, sorted);
    if |pending| > 0 {
      ghost var pending0 := pending;
      t := pending[0].proc.arrival;
      queue, pending := EnqueueArrivals(queue, pending, t);
      RrIdle(procs, quantum, pending0, 0, gantt, t, queue, pending);
    }
    assert RrQueue(queue, pending, t) == StateAfter(init, quantum, 0);
    while |queue| > 0 || |pending| > 0
      invariant RrState(procs, quantum, queue, pending, t, gantt) && Waiting(pending, t)
      invariant Settle(RrQueue(queue, pending, t)) == Settle(StateAfter(init, quantum, |gantt|))
      invariant FollowsQueue(init, quantum, gantt)
      decreases Outstanding(queue + pending), |pending|
    {
      if |queue| == 0 {
        ghost var pending0, t0 := pending, t;
        assert pending[0] in pending && queue + pending == pending;
        t := pending[0].proc.arrival;
        queue, pending := EnqueueArrivals(queue, pending, t);
        RrIdle(procs, quantum, pending0, t0, gantt, t, queue, pending);
        ReplayIdle(pending0, t0, queue, pending, t);
        continue;
      }
      ghost var queue0, pending0, t0, gantt0 := queue, pending, t, gantt;
      queue, pending, t, gantt := RunSlice(quantum, queue, pending, t, gantt);
      RrStep(procs, quantum, queue0, pending0, t0, gantt0, queue, pending, t, gantt);
      ReplayStep(quantum, init, |gantt0|, queue0, pending0, t0, queue, pending, t);
      ServesHeadAppend(init, quantum, gantt0, queue0, pending0, t0, gantt);
    }
    RrFinish(procs, quantum, t, gantt);
  }

  /**
   * One iteration with a non-empty queue: dequeue the head, run it for
   * `min(quantum, remaining)` from the current clock, enqueue the arrivals, and
   * re-enqueue the head behind them iff it still has work left.
   */
  method RunSlice(quantum: int, queue: seq<Job>, pending: seq<Job>, t: int, gantt: seq<Entry>)
    returns (queue': seq<Job>, pending': seq<Job>, t': int, gantt': seq<Entry>)
    requires |queue| > 0
    ensures var cur := queue[0];
            var run := Min(quantum, cur.remaining);
            var left := Job(cur.proc, cur.remaining - run);
            var arrived := Arrived(pending, t + run);
            && gantt' == gantt + [Entry(cur.proc.pid, t, t + run)]
            && t' == t + run
            && queue' == queue[1..] + arrived + (if left.remaining > 0 then [left] else [])
            && pending' == pending[|arrived|..]
  {
    var current := queue[0];
    queue' := queue[1..];
    var runTime := Min(quantum, current.remaining);
    gantt' := gantt + [Entry(current.proc.pid, t, t + runTime)];
    current := current.(remaining := current.remaining - runTime);
    t' := t + runTime;
    queue', pending' := EnqueueArrivals(queue', pending, t');
    if current.remaining > 0 {
      queue' := queue' + [current];
    }
  }

  // ---------------------------------------------------------------------------
  // The start

  /** Before the first arrivals are queued: every job is pending and untouched, sorted by arrival. */
  lemma {:induction false} RrStart(procs: seq<Process>, quantum: int, sorted: seq<Process>)
    requires ValidProcesses(procs) && sorted == SortByArrival(procs)
    ensures RrState(procs, quantum, [], Initial(sorted), 0, [])
    ensures Initial(sorted)[0].proc.arrival >= 0
  {
    var pending := Initial(sorted);
    SortByArrivalPermutes(procs);
    SortByArrivalIsStable(procs);
    assert [] + pending == pending;
    forall i, j | 0 <= i < j < |pending| ensures InOrder(pending, i, j) {
    }
    StartLive(procs, sorted);
    forall pid ensures Count(pending, pid) <= 1 {
      InitialCount(sorted, pid);
    }
    StartConserved(procs, sorted);
  }

  lemma {:induction false} StartLive(procs: seq<Process>, sorted: seq<Process>)
    requires ValidProcesses(procs) && multiset(sorted) == multiset(procs)
    ensures Live(procs, Initial(sorted)) && Initial(sorted)[0].proc.arrival >= 0
  {
    forall j | j in Initial(sorted) ensures j.proc in procs && j.remaining > 0 {
      assert j.proc in multiset(sorted);
      var n :| 0 <= n < |procs| && procs[n] == j.proc;
      assert ValidProcess(procs[n]);
    }
    assert Initial(sorted)[0] in Initial(sorted);
    var n :| 0 <= n < |procs| && procs[n] == sorted[0];
    assert ValidProcess(procs[n]);
  }

  lemma {:induction false} StartConserved(procs: seq<Process>, sorted: seq<Process>)
    requires UniquePids(sorted) && multiset(sorted) == multiset(procs)
    ensures Conserved(procs, [], Initial(sorted))
  {
    forall i | 0 <= i < |procs| ensures Busy([], procs[i].pid) + Owed(Initial(sorted), procs[i].pid) == procs[i].burst {
      assert procs[i] in multiset(sorted);
      InitialOwed(sorted, procs[i]);
    }
  }

  /** Distinct pids give at most one job per pid. */
  lemma {:induction false} InitialCount(ps: seq<Process>, pid: string)
    requires UniquePids(ps)
    ensures Count(Initial(ps), pid) <= 1
    ensures Count(Initial(ps), pid) == 0 <==> forall i :: 0 <= i < |ps| ==> ps[i].pid != pid
  {
    if |ps| > 0 {
      assert Initial(ps)[1..] == Initial(ps[1..]);
      assert UniquePids(ps[1..]);
      InitialCount(ps[1..], pid);
      if ps[0].pid == pid {
        forall i | 0 <= i < |ps[1..]| ensures ps[1..][i].pid != pid {
          assert ps[0].pid != ps[i + 1].pid;
        }
      }
    }
  }

  /** Each process is owed its whole burst by the untouched working list. */
  lemma {:induction false} InitialOwed(ps: seq<Process>, p: Process)
    requires UniquePids(ps) && p in ps
    ensures Owed(Initial(ps), p.pid) == p.burst
  {
    assert Initial(ps)[1..] == Initial(ps[1..]);
    assert UniquePids(ps[1..]);
    if ps[0] == p {
      InitialCount(ps[1..], p.pid);
      forall i | 0 <= i < |ps[1..]| ensures ps[1..][i].pid != p.pid {
        assert ps[0].pid != ps[i + 1].pid;
      }
      OwedAbsent(Initial(ps[1..]), p.pid);
    } else {
      InitialOwed(ps[1..], p);
      var i :| 0 <= i < |ps| && ps[i] == p;
      assert ps[0].pid != ps[i].pid;
    }
  }

  // ---------------------------------------------------------------------------
  // The loop's steps

  /**
   * The clock jumps to the next arrival (or to the first one at the start) and
   * every job that has arrived by then joins the empty queue.
   */
  lemma {:induction false} RrIdle(procs: seq<Process>, quantum: int, pending0: seq<Job>, t0: int, g: seq<Entry>,
               t: int, queue: seq<Job>, pending: seq<Job>)
    requires RrState(procs, quantum, [], pending0, t0, g)
    requires |pending0| > 0 && t == pending0[0].proc.arrival && t0 <= t
    requires queue == [] + Arrived(pending0, t) && pending == pending0[|Arrived(pending0, t)|..]
    ensures RrState(procs, quantum, queue, pending, t, g) && Waiting(pending, t)
    ensures queue + pending == pending0 && |queue| > 0 && |pending| < |pending0|
    ensures Outstanding(queue + pending) >= 0
  {
    ArrivedSplits(pending0, t);
    assert [] + pending0 == pending0;
    assert queue + pending == pending0;
    assert EndsBy(g, t) by {
      forall k | 0 <= k < |g| ensures g[k].end <= t {
      }
    }
    OutstandingPositive(pending0);
  }

  /** The idle jump of the loop is the one `Settle` takes. */
  lemma {:induction false} ReplayIdle(pending0: seq<Job>, t0: int, queue: seq<Job>, pending: seq<Job>, t: int)
    requires |pending0| > 0 && t == pending0[0].proc.arrival
    requires queue == [] + Arrived(pending0, t) && pending == pending0[|Arrived(pending0, t)|..]
    ensures Settle(RrQueue(queue, pending, t)) == Settle(RrQueue([], pending0, t0))
  {
    assert [] + Arrived(pending0, t) == Arrived(pending0, t);
  }

  /** One iteration of the loop that runs a slice keeps the loop's state equal to the replay's. */
  lemma {:induction false} ReplayStep(quantum: int, init: seq<Job>, k: nat,
                                      queue0: seq<Job>, pending0: seq<Job>, t0: int,
                                      queue: seq<Job>, pending: seq<Job>, t: int)
    requires |queue0| > 0
    requires Settle(RrQueue(queue0, pending0, t0)) == Settle(StateAfter(init, quantum, k))
    requires var cur := queue0[0];
             var run := Min(quantum, cur.remaining);
             var left := Job(cur.proc, cur.remaining - run);
             var arrived := Arrived(pending0, t0 + run);
             && t == t0 + run
             && queue == queue0[1..] + arrived + (if left.remaining > 0 then [left] else [])
             && pending == pending0[|arrived|..]
    ensures Settle(RrQueue(queue, pending, t)) == Settle(StateAfter(init, quantum, k + 1))
  {
    RunSliceIsSlice(quantum, queue0, pending0, t0, queue, pending, t);
    ReplaySlice(init, quantum, k, RrQueue(queue0, pending0, t0), RrQueue(queue, pending, t));
  }

  /** A slice of the loop from the state the replay has reached after `k` slices is the replay's next slice. */
  lemma {:induction false} ReplaySlice(init: seq<Job>, quantum: int, k: nat, s0: RrQueue, s: RrQueue)
    requires |s0.queue| > 0 && Settle(s0) == Settle(StateAfter(init, quantum, k)) && s == Slice(s0, quantum)
    ensures Settle(s) == Settle(StateAfter(init, quantum, k + 1))
  {
    assert Settle(s0) == s0;
  }

  /** `RunSlice`'s new state is `Slice` of the old one. */
  lemma {:induction false} RunSliceIsSlice(quantum: int, queue0: seq<Job>, pending0: seq<Job>, t0: int,
                                           queue: seq<Job>, pending: seq<Job>, t: int)
    requires |queue0| > 0
    requires var cur := queue0[0];
             var run := Min(quantum, cur.remaining);
             var left := Job(cur.proc, cur.remaining - run);
             var arrived := Arrived(pending0, t0 + run);
             && t == t0 + run
             && queue == queue0[1..] + arrived + (if left.remaining > 0 then [left] else [])
             && pending == pending0[|arrived|..]
    ensures RrQueue(queue, pending, t) == Slice(RrQueue(queue0, pending0, t0), quantum)
  {
  }

  /** Appending the slice that starts in the state the replay reached after `g0` keeps every entry the served head. */
  lemma {:induction false} ServesHeadAppend(init: seq<Job>, quantum: int, g0: seq<Entry>,
                                            queue0: seq<Job>, pending0: seq<Job>, t0: int, g: seq<Entry>)
    requires FollowsQueue(init, quantum, g0)
    requires |queue0| > 0 && Settle(RrQueue(queue0, pending0, t0)) == Settle(StateAfter(init, quantum, |g0|))
    requires var cur := queue0[0];
             g == g0 + [Entry(cur.proc.pid, t0, t0 + Min(quantum, cur.remaining))]
    ensures FollowsQueue(init, quantum, g)
  {
    var s0 := RrQueue(queue0, pending0, t0);
    assert Settle(s0) == s0 == SliceState(init, quantum, |g0|);
    forall k | 0 <= k < |g| ensures ServesHead(init, quantum, g, k) {
      if k < |g0| {
        assert g[k] == g0[k] && ServesHead(init, quantum, g0, k);
      }
    }
  }

  /** One slice keeps the state, keeps the pending jobs in the future, and less work is owed. */
  lemma {:induction false} RrStep(procs: seq<Process>, quantum: int, queue0: seq<Job>, pending0: seq<Job>, t0: int, g0: seq<Entry>,
               queue: seq<Job>, pending: seq<Job>, t: int, g: seq<Entry>)
    requires ValidProcesses(procs) && quantum > 0
    requires RrState(procs, quantum, queue0, pending0, t0, g0) && Waiting(pending0, t0) && |queue0| > 0
    requires var cur := queue0[0];
             var run := Min(quantum, cur.remaining);
             var left := Job(cur.proc, cur.remaining - run);
             var arrived := Arrived(pending0, t0 + run);
             && g == g0 + [Entry(cur.proc.pid, t0, t0 + run)]
             && t == t0 + run
             && queue == queue0[1..] + arrived + (if left.remaining > 0 then [left] else [])
             && pending == pending0[|arrived|..]
    ensures RrState(procs, quantum, queue, pending, t, g) && Waiting(pending, t)
    ensures 0 <= Outstanding(queue + pending) < Outstanding(queue0 + pending0)
  {
    var cur := queue0[0];
    var run := Min(quantum, cur.remaining);
    var left := Job(cur.proc, cur.remaining - run);
    var a := Arrived(pending0, t);
    var tail := if left.remaining > 0 then [left] else [];
    var rest := queue0[1..];
    ArrivedSplits(pending0, t);
    assert queue0 + pending0 == [cur] + rest + a + pending by {
      assert queue0 == [cur] + rest;
    }
    assert queue + pending == rest + a + tail + pending;
    assert cur in queue0 + pending0;
    SliceSums(rest, a, pending, cur, left, tail);
    StepMembers(procs, queue0, pending0, t0, rest, a, pending, cur, left, tail, t);
    StepConserved(procs, g0, queue0 + pending0, cur, t0, run, g, queue + pending);
    var n :| 0 <= n < |procs| && procs[n] == cur.proc;
    assert ValidProcess(procs[n]) && cur in queue0;
    SliceOwed(procs, queue0 + pending0, cur, g0, n);
    SliceShape(procs, quantum, g0, t0, cur.proc, run, n);
    OutstandingPositive(queue + pending);
  }

  /** Which jobs are where after a slice: everything queued has arrived, and everything is still live. */
  lemma {:induction false} StepMembers(procs: seq<Process>, queue0: seq<Job>, pending0: seq<Job>, t0: int,
                    rest: seq<Job>, a: seq<Job>, pending: seq<Job>, cur: Job, left: Job, tail: seq<Job>, t: int)
    requires ArrivedBy(queue0, t0) && Live(procs, queue0 + pending0) && t0 <= t
    requires queue0 == [cur] + rest && pending0 == a + pending && ArrivedBy(a, t)
    requires left.proc == cur.proc && tail == (if left.remaining > 0 then [left] else [])
    ensures ArrivedBy(rest + a + tail, t) && Live(procs, rest + a + tail + pending)
  {
    assert cur in queue0 && cur in queue0 + pending0;
    forall j | j in rest + a + tail ensures j.proc.arrival <= t {
      if j in rest {
        assert j in queue0;
      }
    }
    forall j | j in rest + a + tail + pending ensures j.proc in procs && j.remaining > 0 {
      if j !in tail {
        assert j in queue0 + pending0;
      }
    }
  }

  /** The slice moves `run` units of `cur`'s work from what its job owes to what the schedule gave it. */
  lemma {:induction false} StepConserved(procs: seq<Process>, g0: seq<Entry>, js0: seq<Job>, cur: Job, t0: int, run: int,
                      g: seq<Entry>, js: seq<Job>)
    requires Conserved(procs, g0, js0) && g == g0 + [Entry(cur.proc.pid, t0, t0 + run)]
    requires forall pid :: Owed(js, pid) == Owed(js0, pid) - (if pid == cur.proc.pid then run else 0)
    ensures Conserved(procs, g, js)
  {
    AppendFacts(g0, Entry(cur.proc.pid, t0, t0 + run));
  }

  /** The head of the queue is owed exactly what its process still needs. */
  lemma {:induction false} SliceOwed(procs: seq<Process>, js: seq<Job>, cur: Job, g: seq<Entry>, n: int)
    requires cur in js && 0 <= n < |procs| && procs[n] == cur.proc
    requires AtMostOnce(js) && Conserved(procs, g, js)
    ensures cur.remaining == procs[n].burst - Busy(g, procs[n].pid)
  {
    CountPositive(js, cur);
    OwedSingle(js, cur);
  }

  /**
   * The slice entry of process `p` keeps the shape of the schedule, and it is
   * the quantum or what `p` still needed, whichever is less.
   */
  lemma {:induction false} SliceShape(procs: seq<Process>, quantum: int, g: seq<Entry>, t: int, p: Process, run: int, n: int)
    requires UniquePids(procs) && 0 <= n < |procs| && procs[n] == p && 0 <= p.arrival <= t
    requires Shaped(procs, g) && EndsBy(g, t) && SlicesByQuantum(procs, quantum, g)
    requires quantum > 0 && p.burst - Busy(g, p.pid) > 0 && run == Min(quantum, p.burst - Busy(g, p.pid))
    ensures var g' := g + [Entry(p.pid, t, t + run)];
            Shaped(procs, g') && EndsBy(g', t + run) && SlicesByQuantum(procs, quantum, g')
  {
    var e := Entry(p.pid, t, t + run);
    var g' := g + [e];
    assert Before(g) <= t by {
      if |g| > 0 {
        assert g[|g| - 1].end <= t;
      }
    }
    AppendShaped(procs, g, e, p);
    AppendFacts(g, e);
    forall k, i | 0 <= k < |g'| && 0 <= i < |procs| ensures SliceOk(procs, quantum, g', k, i) {
      if k < |g| {
        assert g'[k] == g[k] && g'[..k] == g[..k];
        assert SliceOk(procs, quantum, g, k, i);
      } else if procs[i].pid == p.pid {
        assert g'[..k] == g;
        SamePid(procs, p, procs[i]);
      }
    }
  }

  /** Moving jobs between the queue and the pending list and replacing `cur` by `left` changes only `cur`'s sums. */
  lemma {:induction false} SliceSums(rest: seq<Job>, a: seq<Job>, pending: seq<Job>, cur: Job, left: Job, tail: seq<Job>)
    requires left.proc == cur.proc && tail == (if left.remaining > 0 then [left] else [])
    requires left.remaining >= 0
    ensures var before := [cur] + rest + a + pending;
            var after := rest + a + tail + pending;
            && (forall pid :: Count(after, pid) <= Count(before, pid))
            && (forall pid :: Owed(after, pid) == Owed(before, pid) - (if pid == cur.proc.pid then cur.remaining - left.remaining else 0))
            && Outstanding(after) == Outstanding(before) - (cur.remaining - left.remaining)
  {
    SumsConcat([cur] + rest, a);
    SumsConcat([cur], rest);
    SumsConcat([cur] + rest + a, pending);
    SumsConcat(rest, a);
    SumsConcat(rest + a, tail);
    SumsConcat(rest + a + tail, pending);
    SumsSingle(cur);
    if |tail| > 0 {
      SumsSingle(left);
    }
  }

  /** With nothing left to run or to queue, every process has had exactly its burst. */
  lemma {:induction false} RrFinish(procs: seq<Process>, quantum: int, t: int, g: seq<Entry>)
    requires RrState(procs, quantum, [], [], t, g)
    ensures ValidGantt(procs, g) && SlicesByQuantum(procs, quantum, g)
  {
    var none: seq<Job> := [];
    assert none + none == none;
  }

  /**
   * The CPU does not idle while the ready queue holds a job: when the queue is
   * non-empty after slice `k - 1`, slice `k` starts the moment slice `k - 1` ends.
   */
  lemma {:induction false} BackToBack(init: seq<Job>, quantum: int, g: seq<Entry>, k: int)
    requires FollowsQueue(init, quantum, g) && 0 < k < |g|
    requires |StateAfter(init, quantum, k).queue| > 0
    ensures g[k].start == g[k - 1].end
  {
    assert ServesHead(init, quantum, g, k - 1) && ServesHead(init, quantum, g, k);
    var s := SliceState(init, quantum, k - 1);
    assert StateAfter(init, quantum, k) == Slice(s, quantum);
  }

  /**
   * No slice of a Round Robin schedule is longer than the quantum, and a slice
   * shorter than the quantum is the one that completes its process.
   */
  lemma {:induction false} SliceAtMostQuantum(procs: seq<Process>, quantum: int, g: seq<Entry>, k: int, i: int)
    requires ValidGantt(procs, g) && SlicesByQuantum(procs, quantum, g)
    requires 0 <= k < |g| && 0 <= i < |procs| && procs[i].pid == g[k].pid
    ensures 0 < g[k].end - g[k].start <= quantum
    ensures g[k].end - g[k].start < quantum ==> Busy(g[..k + 1], g[k].pid) == procs[i].burst
  {
    assert SliceOk(procs, quantum, g, k, i);
    assert g[..k + 1][..k] == g[..k];
  }
}
