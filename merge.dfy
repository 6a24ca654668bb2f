/**
 * The pass that ends both preemptive strategies: adjacent Gantt entries of the
 * same pid are merged into one entry that keeps the start of the first and
 * takes the end of the last.
 */
module Merge {
  import opened Gantt

  /** The merged sequence, built from the left one input entry at a time. */
  function Coalesce(g: seq<Entry>): (m: seq<Entry>)
    ensures |m| <= |g|
    ensures |m| == 0 <==> |g| == 0
    ensures |g| > 0 ==> m[|m| - 1].pid == g[|g| - 1].pid && m[|m| - 1].end == g[|g| - 1].end
  {
    if |g| == 0 then []
    else
      var m := Coalesce(g[..|g| - 1]);
      var e := g[|g| - 1];
      if |g| == 1 || e.pid != g[|g| - 2].pid then m + [e]
      else m[..|m| - 1] + [m[|m| - 1].(end := e.end)]
  }

  /**
   * The merge loop: an entry whose pid differs from its predecessor's is
   * copied, otherwise the last merged entry takes its end.
   */
  method MergeAdjacent(g: seq<Entry>) returns (merged: seq<Entry>)
    ensures merged == Coalesce(g)
    ensures exists b :: MaximalRuns(g, b) && SpansRuns(g, merged, b)
  {
    merged := [];
    for i := 0 to |g|
      invariant merged == Coalesce(g[..i])
    {
      assert g[..i + 1][..i] == g[..i];
      if i == 0 || g[i].pid != g[i - 1].pid {
        merged := merged + [g[i]];
      } else {
        merged := merged[..|merged| - 1] + [merged[|merged| - 1].(end := g[i].end)];
      }
    }
    assert g[..|g|] == g;
    CoalesceMergesRuns(g);
  }

  /** A block of entries `lo..hi` (both included) of a Gantt sequence. */
  datatype Run = Run(lo: int, hi: int)

  /** `r` lies within `g` and all its entries have the pid of its first one. */
  predicate OnePid(g: seq<Entry>, r: Run)
  {
    0 <= r.lo <= r.hi < |g| && forall k :: r.lo <= k <= r.hi ==> g[k].pid == g[r.lo].pid
  }

  /** Block `j` of `b` starts right after block `j - 1` ends, and the pid changes there. */
  predicate Cut(g: seq<Entry>, b: seq<Run>, j: int)
  {
    0 < j < |b| && OnePid(g, b[j - 1]) && OnePid(g, b[j])
    && b[j].lo == b[j - 1].hi + 1 && g[b[j - 1].hi].pid != g[b[j].lo].pid
  }

  /**
   * `b` cuts `g`, left to right and without gaps, into its maximal blocks of
   * neighbouring entries with one pid.
   */
  predicate MaximalRuns(g: seq<Entry>, b: seq<Run>)
  {
    && (|b| == 0 <==> |g| == 0)
    && (|b| > 0 ==> b[0].lo == 0 && b[|b| - 1].hi == |g| - 1)
    && (forall j :: 0 <= j < |b| ==> OnePid(g, b[j]))
    && (forall j :: 0 < j < |b| ==> Cut(g, b, j))
  }

  /** Entry `j` of `m` is block `j` of `b` as one entry: its pid, its first start, its last end. */
  predicate SpansRuns(g: seq<Entry>, m: seq<Entry>, b: seq<Run>)
  {
    |m| == |b| && forall j :: 0 <= j < |b| ==> OnePid(g, b[j]) && m[j] == Entry(g[b[j].lo].pid, g[b[j].lo].start, g[b[j].hi].end)
  }

  /**
   * Each merged entry stands for one maximal block of same-pid neighbours: it
   * has the block's pid, the start of its first entry and the end of its last,
   * and the blocks cover the input in order.
   */
  lemma {:induction false} CoalesceMergesRuns(g: seq<Entry>)
    ensures exists b :: MaximalRuns(g, b) && SpansRuns(g, Coalesce(g), b)
  {
    if |g| == 0 {
      assert MaximalRuns(g, []) && SpansRuns(g, Coalesce(g), []);
    } else {
      var init := g[..|g| - 1];
      CoalesceMergesRuns(init);
      var b0 :| MaximalRuns(init, b0) && SpansRuns(init, Coalesce(init), b0);
      var b := ExtendRuns(g, b0);
      assert MaximalRuns(g, b) && SpansRuns(g, Coalesce(g), b);
    }
  }

  /** The blocks of `g` from the blocks of all but its last entry: a new block, or the last one grown. */
  lemma {:induction false} ExtendRuns(g: seq<Entry>, b0: seq<Run>) returns (b: seq<Run>)
    requires |g| > 0
    requires MaximalRuns(g[..|g| - 1], b0) && SpansRuns(g[..|g| - 1], Coalesce(g[..|g| - 1]), b0)
    ensures MaximalRuns(g, b) && SpansRuns(g, Coalesce(g), b)
  {
    var n := |g| - 1;
    var m0 := Coalesce(g[..n]);
    if n == 0 || g[n].pid != g[n - 1].pid {
      b := b0 + [Run(n, n)];
      NewRunMaximal(g, b0);
      NewRunSpans(g, b0, m0, Coalesce(g));
    } else {
      GrowRunMaximal(g, b0);
      b := b0[..|b0| - 1] + [Run(b0[|b0| - 1].lo, n)];
      GrowRunSpans(g, b0, m0, Coalesce(g));
    }
  }

  /** A block of `g`'s prefix is a block of `g`. */
  lemma {:induction false} OnePidExtends(g: seq<Entry>, n: int, r: Run)
    requires 0 <= n <= |g| && OnePid(g[..n], r)
    ensures OnePid(g, r)
  {
    forall k | r.lo <= k <= r.hi ensures g[k].pid == g[r.lo].pid {
      assert g[..n][k] == g[k] && g[..n][r.lo] == g[r.lo];
    }
  }

  /** The blocks of the prefix and the last entry on its own cut `g` into its maximal blocks. */
  lemma {:induction false} NewRunMaximal(g: seq<Entry>, b0: seq<Run>)
    requires |g| > 0
    requires |g| == 1 || g[|g| - 1].pid != g[|g| - 2].pid
    requires MaximalRuns(g[..|g| - 1], b0)
    ensures MaximalRuns(g, b0 + [Run(|g| - 1, |g| - 1)])
  {
    var n := |g| - 1;
    var init := g[..n];
    var b := b0 + [Run(n, n)];
    forall j | 0 <= j < |b0| ensures OnePid(g, b[j]) {
      OnePidExtends(g, n, b0[j]);
    }
    forall j | 0 < j < |b| ensures Cut(g, b, j) {
      if j < |b0| {
        assert Cut(init, b0, j);
        assert init[b0[j - 1].hi] == g[b0[j - 1].hi] && init[b0[j].lo] == g[b0[j].lo];
      } else {
        assert init[n - 1] == g[n - 1];
      }
    }
  }

  /** Copying a last entry that opens a block of its own gives that block as the last merged entry. */
  lemma {:induction false} NewRunSpans(g: seq<Entry>, b0: seq<Run>, m0: seq<Entry>, m: seq<Entry>)
    requires |g| > 0
    requires |g| == 1 || g[|g| - 1].pid != g[|g| - 2].pid
    requires SpansRuns(g[..|g| - 1], m0, b0) && m0 == Coalesce(g[..|g| - 1]) && m == Coalesce(g)
    ensures SpansRuns(g, m, b0 + [Run(|g| - 1, |g| - 1)])
  {
    var n := |g| - 1;
    var init := g[..n];
    var b := b0 + [Run(n, n)];
    assert m == m0 + [g[n]];
    forall j | 0 <= j < |b0| ensures OnePid(g, b[j]) && m[j] == Entry(g[b[j].lo].pid, g[b[j].lo].start, g[b[j].hi].end) {
      OnePidExtends(g, n, b0[j]);
      assert init[b0[j].lo] == g[b0[j].lo] && init[b0[j].hi] == g[b0[j].hi];
    }
  }

  /** Growing the last block of the prefix by the last entry cuts `g` into its maximal blocks. */
  lemma {:induction false} GrowRunMaximal(g: seq<Entry>, b0: seq<Run>)
    requires |g| > 1 && g[|g| - 1].pid == g[|g| - 2].pid
    requires MaximalRuns(g[..|g| - 1], b0)
    ensures |b0| > 0 && b0[|b0| - 1].hi == |g| - 2
    ensures MaximalRuns(g, b0[..|b0| - 1] + [Run(b0[|b0| - 1].lo, |g| - 1)])
  {
    var n := |g| - 1;
    var init := g[..n];
    var last := b0[|b0| - 1];
    var b := b0[..|b0| - 1] + [Run(last.lo, n)];
    forall j | 0 <= j < |b0| ensures OnePid(g, b0[j]) {
      OnePidExtends(g, n, b0[j]);
    }
    assert OnePid(g, b[|b| - 1]) by {
      assert OnePid(g, last);
    }
    forall j | 0 < j < |b| ensures Cut(g, b, j) {
      assert Cut(init, b0, j);
      assert init[b0[j - 1].hi] == g[b0[j - 1].hi] && init[b0[j].lo] == g[b0[j].lo];
    }
  }

  /** Stretching the last merged entry to the last entry's end gives the grown block. */
  lemma {:induction false} GrowRunSpans(g: seq<Entry>, b0: seq<Run>, m0: seq<Entry>, m: seq<Entry>)
    requires |g| > 1 && g[|g| - 1].pid == g[|g| - 2].pid
    requires |b0| > 0 && b0[|b0| - 1].hi == |g| - 2
    requires SpansRuns(g[..|g| - 1], m0, b0) && m0 == Coalesce(g[..|g| - 1]) && m == Coalesce(g)
    requires OnePid(g, Run(b0[|b0| - 1].lo, |g| - 1))
    ensures SpansRuns(g, m, b0[..|b0| - 1] + [Run(b0[|b0| - 1].lo, |g| - 1)])
  {
    var n := |g| - 1;
    var init := g[..n];
    var b := b0[..|b0| - 1] + [Run(b0[|b0| - 1].lo, n)];
    assert m == m0[..|m0| - 1] + [m0[|m0| - 1].(end := g[n].end)];
    forall j | 0 <= j < |b| ensures OnePid(g, b[j]) && m[j] == Entry(g[b[j].lo].pid, g[b[j].lo].start, g[b[j].hi].end) {
      OnePidExtends(g, n, b0[j]);
      assert init[b0[j].lo] == g[b0[j].lo] && init[b0[j].hi] == g[b0[j].hi];
    }
  }

  /** No two neighbours of the merged sequence share a pid. */
  lemma {:induction false} CoalesceNoRepeat(g: seq<Entry>)
    ensures NoAdjacentRepeat(Coalesce(g))
  {
    if |g| > 0 {
      var init := g[..|g| - 1];
      CoalesceNoRepeat(init);
      var m := Coalesce(init);
      var e := g[|g| - 1];
      var r := Coalesce(g);
      if |g| == 1 || e.pid != g[|g| - 2].pid {
        forall k | 0 < k < |r| ensures PidChanges(r, k) {
          if k == |m| {
            assert init[|init| - 1] == g[|g| - 2];
          } else {
            assert r[k - 1] == m[k - 1] && r[k] == m[k] && PidChanges(m, k);
          }
        }
      } else {
        forall k | 0 < k < |r| ensures PidChanges(r, k) {
          assert r[k - 1] == m[k - 1] && PidChanges(m, k);
          if k < |m| - 1 {
            assert r[k] == m[k];
          }
        }
      }
    }
  }

  /** Merging changes nothing when no two neighbours share a pid. */
  lemma {:induction false} CoalesceIdentity(g: seq<Entry>)
    requires NoAdjacentRepeat(g)
    ensures Coalesce(g) == g
  {
    if |g| > 0 {
      var init := g[..|g| - 1];
      assert NoAdjacentRepeat(init) by {
        forall k | 0 < k < |init| ensures PidChanges(init, k) {
          assert init[k - 1] == g[k - 1] && init[k] == g[k] && PidChanges(g, k);
        }
      }
      CoalesceIdentity(init);
      if |g| > 1 {
        assert PidChanges(g, |g| - 1);
      }
      assert Coalesce(g) == Coalesce(init) + [g[|g| - 1]];
      assert init + [g[|g| - 1]] == g;
    }
  }

  /**
   * When neighbours of the same pid touch (one ends where the next starts),
   * merging keeps every pid's CPU time.
   */
  lemma {:induction false} CoalesceKeepsBusy(g: seq<Entry>, pid: string)
    requires Abutting(g)
    ensures Busy(Coalesce(g), pid) == Busy(g, pid)
  {
    if |g| > 0 {
      var init := g[..|g| - 1];
      var e := g[|g| - 1];
      assert Abutting(init) by {
        forall k | 0 < k < |init| ensures Abuts(init, k) {
          assert Abuts(g, k);
        }
      }
      CoalesceKeepsBusy(init, pid);
      if |g| == 1 || e.pid != g[|g| - 2].pid {
        assert Coalesce(g)[..|Coalesce(g)| - 1] == Coalesce(init);
      } else {
        assert Abuts(g, |g| - 1);
        ExtendLastBusy(Coalesce(init), e.end, pid);
      }
    }
  }

  /** Neighbouring entries of the same pid meet: the first ends where the second starts. */
  predicate Abutting(g: seq<Entry>)
  {
    forall k :: 0 < k < |g| ==> Abuts(g, k)
  }

  predicate Abuts(g: seq<Entry>, k: int)
  {
    0 < k < |g| && (g[k - 1].pid == g[k].pid ==> g[k - 1].end == g[k].start)
  }

  /** Moving the end of the last entry moves the CPU time of its pid by as much. */
  lemma {:induction false} ExtendLastBusy(m: seq<Entry>, end: int, pid: string)
    requires |m| > 0
    ensures var last := m[|m| - 1];
            Busy(m[..|m| - 1] + [last.(end := end)], pid)
            == Busy(m, pid) + (if last.pid == pid then end - last.end else 0)
  {
    var m' := m[..|m| - 1] + [m[|m| - 1].(end := end)];
    assert m'[..|m'| - 1] == m[..|m| - 1];
  }
}
