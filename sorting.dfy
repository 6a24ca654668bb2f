/**
 * `[...processes].sort((a, b) => a.arrival_time - b.arrival_time)`. The
 * comparator only looks at arrival times and JavaScript's sort is stable, so
 * processes with equal arrival keep their input order. Modelled as an
 * insertion sort whose result is characterised independently of how it is built.
 */
module Sorting {
  import opened Processes

  predicate SortedByArrival(s: seq<Process>)
  {
    forall i, j :: 0 <= i < j < |s| ==> s[i].arrival <= s[j].arrival
  }

  /** The processes of `s` that arrive at `a`, in their order in `s`. */
  function ArrivingAt(s: seq<Process>, a: int): seq<Process>
  {
    if |s| == 0 then []
    else (if s[0].arrival == a then [s[0]] else []) + ArrivingAt(s[1..], a)
  }

  function Insert(x: Process, s: seq<Process>): (r: seq<Process>)
    ensures |r| == |s| + 1
  {
    if |s| == 0 || x.arrival <= s[0].arrival then [x] + s
    else [s[0]] + Insert(x, s[1..])
  }

  function SortByArrival(ps: seq<Process>): (r: seq<Process>)
    ensures |r| == |ps|
  {
    if |ps| == 0 then [] else Insert(ps[0], SortByArrival(ps[1..]))
  }

  lemma {:induction false} InsertPermutes(x: Process, s: seq<Process>)
    ensures multiset(Insert(x, s)) == multiset(s) + multiset{x}
    ensures |Insert(x, s)| == |s| + 1
  {
    if !(|s| == 0 || x.arrival <= s[0].arrival) {
      InsertPermutes(x, s[1..]);
      assert s == [s[0]] + s[1..];
    }
  }

  lemma {:induction false} InsertSorted(x: Process, s: seq<Process>)
    requires SortedByArrival(s)
    ensures SortedByArrival(Insert(x, s))
  {
    if !(|s| == 0 || x.arrival <= s[0].arrival) {
      var rest := Insert(x, s[1..]);
      InsertSorted(x, s[1..]);
      InsertPermutes(x, s[1..]);
      forall i | 0 <= i < |rest| ensures s[0].arrival <= rest[i].arrival {
        assert rest[i] in multiset(rest);
        assert rest[i] == x || rest[i] in multiset(s[1..]);
      }
    }
  }

  lemma {:induction false} InsertStable(x: Process, s: seq<Process>, a: int)
    ensures ArrivingAt(Insert(x, s), a) == (if x.arrival == a then [x] else []) + ArrivingAt(s, a)
  {
    if |s| == 0 || x.arrival <= s[0].arrival {
      assert ([x] + s)[1..] == s;
    } else {
      var rest := Insert(x, s[1..]);
      InsertStable(x, s[1..], a);
      assert ([s[0]] + rest)[1..] == rest;
    }
  }

  /** The result is a permutation of the input; unique pids stay unique. */
  lemma {:induction false} SortByArrivalPermutes(ps: seq<Process>)
    ensures multiset(SortByArrival(ps)) == multiset(ps)
    ensures UniquePids(ps) ==> UniquePids(SortByArrival(ps))
  {
    if |ps| > 0 {
      SortByArrivalPermutes(ps[1..]);
      InsertPermutes(ps[0], SortByArrival(ps[1..]));
      assert ps == [ps[0]] + ps[1..];
      if UniquePids(ps) {
        PermutationKeepsUnique(ps, SortByArrival(ps));
      }
    }
  }

  /**
   * The result is sorted by arrival, and for every arrival time it lists the
   * processes arriving then in input order (stability).
   */
  lemma {:induction false} SortByArrivalIsStable(ps: seq<Process>)
    ensures SortedByArrival(SortByArrival(ps))
    ensures forall a :: ArrivingAt(SortByArrival(ps), a) == ArrivingAt(ps, a)
  {
    if |ps| > 0 {
      var rest := SortByArrival(ps[1..]);
      SortByArrivalIsStable(ps[1..]);
      InsertSorted(ps[0], rest);
      forall a ensures ArrivingAt(SortByArrival(ps), a) == ArrivingAt(ps, a) {
        InsertStable(ps[0], rest, a);
      }
    }
  }

  lemma {:induction false} PermutationKeepsUnique(ps: seq<Process>, qs: seq<Process>)
    requires UniquePids(ps) && multiset(qs) == multiset(ps)
    ensures UniquePids(qs)
  {
    forall a, b | 0 <= a < b < |qs| ensures qs[a].pid != qs[b].pid {
      if qs[a].pid == qs[b].pid {
        assert qs[a] in multiset(ps) && qs[b] in multiset(ps);
        SamePid(ps, qs[a], qs[b]);
        TwiceInSeq(qs, a, b);
        OnceInUnique(ps, qs[a]);
      }
    }
  }

  lemma {:induction false} TwiceInSeq(qs: seq<Process>, a: int, b: int)
    requires 0 <= a < b < |qs| && qs[a] == qs[b]
    ensures multiset(qs)[qs[a]] >= 2
  {
    var x := qs[a];
    assert qs == qs[..a] + [x] + qs[a + 1..b] + [x] + qs[b + 1..];
  }

  lemma {:induction false} OnceInUnique(ps: seq<Process>, x: Process)
    requires UniquePids(ps)
    ensures multiset(ps)[x] <= 1
  {
    if |ps| > 0 {
      assert ps == [ps[0]] + ps[1..];
      assert UniquePids(ps[1..]);
      OnceInUnique(ps[1..], x);
      if ps[0] == x {
        assert x !in ps[1..];
      }
    }
  }
}
