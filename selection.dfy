/**
 * The expression-level parts shared by the strategies: which jobs have arrived,
 * the `reduce` that picks the most urgent one, the next arrival, the earliest
 * arrival among the waiting jobs, and `findIndex` by pid.
 */
module Selection {
  import opened Wrappers
  import opened Processes

  /** The key a strategy minimises: burst (SJF), remaining time (SRTF) or priority. */
  datatype Criterion = BurstTime | RemainingTime | PriorityValue

  /**
   * The compared field. A `null` priority compares as 0 under JavaScript's `<`;
   * the priority strategies require every priority to be present anyway.
   */
  function Key(c: Criterion, j: Job): int
  {
    match c
    case BurstTime => j.proc.burst
    case RemainingTime => j.remaining
    case PriorityValue => match j.proc.priority { case Some(v) => v case None => 0 }
  }

  predicate UniqueJobPids(js: seq<Job>)
  {
    forall a, b {:trigger js[a].proc.pid, js[b].proc.pid} :: 0 <= a < b < |js| ==> js[a].proc.pid != js[b].proc.pid
  }

  /** The jobs of `js` with a pid other than `pid`, in list order. */
  function WithoutJob(js: seq<Job>, pid: string): seq<Job>
  {
    if |js| == 0 then []
    else (if js[0].proc.pid == pid then [] else [js[0]]) + WithoutJob(js[1..], pid)
  }

  /** `remaining.splice(index, 1)` at the only job with that pid removes exactly that pid. */
  lemma {:induction false} SpliceRemovesPid(js: seq<Job>, i: int)
    requires UniqueJobPids(js) && 0 <= i < |js|
    ensures js[..i] + js[i + 1..] == WithoutJob(js, js[i].proc.pid)
  {
    var pid := js[i].proc.pid;
    if i == 0 {
      NoneWithPid(js[1..], pid);
      assert js[..0] + js[1..] == js[1..];
    } else {
      assert UniqueJobPids(js[1..]);
      SpliceRemovesPid(js[1..], i - 1);
      assert js[1..][i - 1] == js[i];
      assert js[..i] + js[i + 1..] == [js[0]] + (js[1..][..i - 1] + js[1..][i..]);
    }
  }

  lemma {:induction false} NoneWithPid(js: seq<Job>, pid: string)
    requires forall j :: 0 <= j < |js| ==> js[j].proc.pid != pid
    ensures WithoutJob(js, pid) == js
  {
    if |js| > 0 {
      NoneWithPid(js[1..], pid);
      assert js == [js[0]] + js[1..];
    }
  }

  /** Splicing one job out keeps the pids unique. */
  lemma {:induction false} SpliceKeepsUnique(js: seq<Job>, i: int)
    requires UniqueJobPids(js) && 0 <= i < |js|
    ensures UniqueJobPids(js[..i] + js[i + 1..])
  {
    var r := js[..i] + js[i + 1..];
    forall a, b | 0 <= a < b < |r| ensures r[a].proc.pid != r[b].proc.pid {
      var a' := if a < i then a else a + 1;
      var b' := if b < i then b else b + 1;
      assert r[a] == js[a'] && r[b] == js[b'];
    }
  }

  /** `remaining.filter(p => p.arrival_time <= currentTime)`: the arrived jobs, in list order. */
  function Ready(rem: seq<Job>, t: int): (r: seq<Job>)
    ensures |r| <= |rem|
    ensures forall j {:trigger j in r} {:trigger j in rem} :: j in r <==> j in rem && j.proc.arrival <= t
    ensures |r| == 0 <==> forall i :: 0 <= i < |rem| ==> rem[i].proc.arrival > t
  {
    if |rem| == 0 then []
    else
      var rest := Ready(rem[1..], t);
      assert forall i :: 1 <= i < |rem| ==> rem[i] == rem[1..][i - 1];
      if rem[0].proc.arrival <= t then [rem[0]] + rest else rest
  }

  /**
   * Element `i` has the least key among the first `k` elements of `s`, and every
   * element before it has a strictly greater key.
   */
  predicate MinUpTo(s: seq<Job>, i: int, k: int, c: Criterion)
  {
    && 0 <= i < |s| && 0 <= k <= |s| && (i < k || i == 0)
    && (forall j :: 0 <= j < k ==> Key(c, s[i]) <= Key(c, s[j]))
    && (forall j :: 0 <= j < i ==> Key(c, s[j]) > Key(c, s[i]))
  }

  /** Element `i` has the least key of `s` and is the first element with that key. */
  predicate IsFirstMinimal(s: seq<Job>, i: int, c: Criterion)
  {
    MinUpTo(s, i, |s|, c)
  }

  /**
   * `ready.reduce((min, p) => key(p) < key(min) ? p : min, ready[0])`, returning
   * the position of the chosen job: a later job replaces the current minimum only
   * when its key is strictly smaller.
   */
  function SelectIndex(ready: seq<Job>, c: Criterion): (i: nat)
    requires |ready| > 0
    ensures IsFirstMinimal(ready, i, c)
  {
    ReduceFrom(ready, c, 0, 0)
  }

  function ReduceFrom(ready: seq<Job>, c: Criterion, acc: nat, k: nat): (i: nat)
    requires MinUpTo(ready, acc, k, c)
    ensures IsFirstMinimal(ready, i, c)
    decreases |ready| - k
  {
    if k == |ready| then acc
    else if Key(c, ready[k]) < Key(c, ready[acc]) then ReduceFrom(ready, c, k, k + 1)
    else ReduceFrom(ready, c, acc, k + 1)
  }

  /** `Math.min(...remaining.map(p => p.arrival_time))`: `EarliestArrival` of the jobs' processes. */
  function MinArrival(rem: seq<Job>): (r: int)
    requires |rem| > 0
    ensures forall i :: 0 <= i < |rem| ==> r <= rem[i].proc.arrival
    ensures exists i :: 0 <= i < |rem| && r == rem[i].proc.arrival
  {
    var ps := seq(|rem|, i requires 0 <= i < |rem| => rem[i].proc);
    assert forall i :: 0 <= i < |rem| ==> ps[i] == rem[i].proc;
    EarliestArrival(ps)
  }

  /** In a list with unique pids, `findIndex` by a job's pid finds that job. */
  lemma {:induction false} FindIndexFinds(rem: seq<Job>, j: Job)
    requires UniqueJobPids(rem) && j in rem
    ensures 0 <= FindIndex(rem, j.proc.pid) < |rem| && rem[FindIndex(rem, j.proc.pid)] == j
  {
    var i :| 0 <= i < |rem| && rem[i] == j;
    var k := FindIndex(rem, j.proc.pid);
    assert k == i;
  }

  lemma {:induction false} MinArrivalAtMost(rem: seq<Job>, j: Job)
    requires j in rem
    ensures MinArrival(rem) <= j.proc.arrival
  {
    var i :| 0 <= i < |rem| && rem[i] == j;
  }

  /**
   * `remaining.filter(p => p.arrival_time > t).reduce((min, p) => p.arrival_time < min ? p.arrival_time : min, t + 1)`:
   * the end of the current tick or the next arrival, whichever comes first.
   * Because times are integers, no arrival lies strictly inside the tick, so
   * the result is always the end of the tick.
   */
  function NextArrival(rem: seq<Job>, t: int): (r: int)
    ensures t < r <= t + 1
    ensures forall i :: 0 <= i < |rem| && rem[i].proc.arrival > t ==> r <= rem[i].proc.arrival
    ensures r == t + 1
  {
    MinArrivalFrom(ArrivalsAfter(rem, t), t, t + 1)
  }

  function ArrivalsAfter(rem: seq<Job>, t: int): (r: seq<Job>)
    ensures forall j {:trigger j in r} {:trigger j in rem} :: j in r <==> j in rem && j.proc.arrival > t
  {
    if |rem| == 0 then []
    else
      var rest := ArrivalsAfter(rem[1..], t);
      assert forall j :: j in rem[1..] ==> j in rem;
      if rem[0].proc.arrival > t then [rem[0]] + rest else rest
  }

  function MinArrivalFrom(s: seq<Job>, t: int, acc: int): (r: int)
    requires forall j :: j in s ==> j.proc.arrival > t
    requires t < acc
    ensures t < r <= acc
    ensures forall j {:trigger j in s} :: j in s ==> r <= j.proc.arrival
    ensures r == acc || exists j :: j in s && r == j.proc.arrival
  {
    if |s| == 0 then acc
    else
      assert forall j :: j in s[1..] ==> j in s;
      var r := MinArrivalFrom(s[1..], t, if s[0].proc.arrival < acc then s[0].proc.arrival else acc);
      assert forall j {:trigger j in s} :: j in s ==> j == s[0] || j in s[1..];
      r
  }

  /** `remaining.findIndex(p => p.pid === pid)` */
  function FindIndex(rem: seq<Job>, pid: string): (i: int)
    ensures -1 <= i < |rem|
    ensures i >= 0 ==> rem[i].proc.pid == pid && forall j :: 0 <= j < i ==> rem[j].proc.pid != pid
    ensures i == -1 <==> forall j :: 0 <= j < |rem| ==> rem[j].proc.pid != pid
  {
    if |rem| == 0 then -1
    else if rem[0].proc.pid == pid then 0
    else
      var i := FindIndex(rem[1..], pid);
      assert forall j :: 1 <= j < |rem| ==> rem[j] == rem[1..][j - 1];
      if i == -1 then -1 else i + 1
  }

  /** `ready.reduce(...)` over `remaining.filter(p => p.arrival_time <= t)`. */
  function Choice(rem: seq<Job>, t: int, c: Criterion): (sel: Job)
    requires |Ready(rem, t)| > 0
    ensures sel in rem && sel.proc.arrival <= t
  {
    var ready := Ready(rem, t);
    ready[SelectIndex(ready, c)]
  }
}
