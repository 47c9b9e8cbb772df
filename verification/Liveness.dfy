/**
 The liveness verdict: a pass over each node's samples of the load window that finds every stall,
 recovered ones included.
 */
module Liveness {
  import opened Options

  /** One sample; `pending`: work was waiting. `Unusable` when a metric is missing or invalid. */
  datatype Sample = Unusable(ts: real) | Sample(ts: real, committed: nat, pending: bool)

  const MAX_SAMPLE_GAP_S := 5.0

  datatype Stall = Stall(start: real, end: real)

  datatype Verdict = PASS | UNKNOWN | FAIL

  // ------------------------------------------------------------------ the declarative reading

  predicate Adjacent(s: seq<Sample>, i: nat)
    requires i < |s|
  {
    i > 0 && s[i - 1].Sample? && s[i].Sample?
  }

  /** Samples `i - 1` and `i` cannot be compared: a gap, unordered time or a counter reset. */
  predicate Broken(s: seq<Sample>, i: nat)
    requires i < |s| && Adjacent(s, i)
  {
    var gap := s[i].ts - s[i - 1].ts;
    gap <= 0.0 || gap > MAX_SAMPLE_GAP_S || s[i].committed < s[i - 1].committed
  }

  /** No commit between samples `i - 1` and `i`, with work pending at both. */
  predicate Idle(s: seq<Sample>, i: nat)
    requires i < |s|
  {
    Adjacent(s, i) && !Broken(s, i) && s[i].committed == s[i - 1].committed && s[i - 1].pending && s[i].pending
  }

  /** Samples `a` to `b` form an unbroken stretch without commit, work pending throughout. */
  ghost predicate IdleRun(s: seq<Sample>, a: nat, b: nat)
    requires b < |s|
  {
    a < b && forall i: nat | a < i <= b :: Idle(s, i)
  }

  ghost predicate LongRun(s: seq<Sample>, stall: real, a: nat, b: nat)
    requires b < |s|
  {
    IdleRun(s, a, b) && s[b].ts - s[a].ts >= stall
  }

  /** A long stretch that neither neighbour extends. */
  ghost predicate MaximalRun(s: seq<Sample>, stall: real, a: nat, b: nat) {
    b < |s| && LongRun(s, stall, a, b) && !Idle(s, a) && (b + 1 < |s| ==> !Idle(s, b + 1))
  }

  // ------------------------------------------------------------------ the open stretch

  /** Where the stretch that ends at sample `k` begins; `k` itself when none does. */
  function Start(s: seq<Sample>, k: nat): (a: nat)
    requires k < |s|
    ensures a <= k
    decreases k
  {
    if Idle(s, k) then Start(s, k - 1) else k
  }

  lemma {:induction false} StartIsRun(s: seq<Sample>, k: nat)
    requires k < |s|
    ensures var a := Start(s, k);
      && (forall i: nat | a < i <= k :: Idle(s, i)) && !Idle(s, a)
      && s[a].ts <= s[k].ts
    decreases k
  {
    if Idle(s, k) { StartIsRun(s, k - 1); }
  }

  /** Any stretch ending at `k` begins no earlier than the open one. */
  lemma {:induction false} StartIsEarliest(s: seq<Sample>, a: nat, k: nat)
    requires k < |s| && IdleRun(s, a, k)
    ensures Start(s, k) <= a
    decreases k
  {
    assert Idle(s, k);
    if a < k - 1 {
      assert IdleRun(s, a, k - 1);
      StartIsEarliest(s, a, k - 1);
    }
  }

  /** Time goes forward along a stretch. */
  lemma {:induction false} RunIsOrdered(s: seq<Sample>, a: nat, b: nat)
    requires a <= b < |s| && forall i: nat | a < i <= b :: Idle(s, i)
    ensures s[a].ts <= s[b].ts
    decreases b
  {
    if a < b {
      assert Idle(s, b);
      RunIsOrdered(s, a, b - 1);
    }
  }

  /** Where the stretch that holds sample `k` ends. */
  function End(s: seq<Sample>, k: nat): (b: nat)
    requires k < |s|
    ensures k <= b < |s|
    decreases |s| - k
  {
    if k + 1 < |s| && Idle(s, k + 1) then End(s, k + 1) else k
  }

  lemma {:induction false} EndIsRun(s: seq<Sample>, k: nat)
    requires k < |s|
    ensures var b := End(s, k);
      (forall i: nat | k < i <= b :: Idle(s, i)) && (b + 1 < |s| ==> !Idle(s, b + 1))
    decreases |s| - k
  {
    if k + 1 < |s| && Idle(s, k + 1) { EndIsRun(s, k + 1); }
  }

  /** Every long stretch lies inside a maximal one. */
  lemma LongRunExtends(s: seq<Sample>, stall: real, a: nat, b: nat)
    requires b < |s| && LongRun(s, stall, a, b)
    ensures Start(s, b) <= a && b <= End(s, b) && MaximalRun(s, stall, Start(s, b), End(s, b))
    ensures s[Start(s, b)].ts <= s[a].ts && s[b].ts <= s[End(s, b)].ts
  {
    hide Idle;
    StartIsEarliest(s, a, b);
    StartIsRun(s, b);
    EndIsRun(s, b);
    RunIsOrdered(s, Start(s, b), a);
    RunIsOrdered(s, b, End(s, b));
  }

  // ------------------------------------------------------------------ the stalls, in order

  type Run = (nat, nat)

  /** The stretch open after sample `k`, if it lasted the threshold. */
  function OpenRun(s: seq<Sample>, stall: real, k: nat): (r: seq<Run>)
    requires k < |s|
    ensures |r| <= 1
  {
    if Idle(s, k) && s[k].ts - s[Start(s, k)].ts >= stall then [(Start(s, k), k)] else []
  }

  /** The long stretches closed by one of the first `n` samples, in order. */
  function ClosedRuns(s: seq<Sample>, stall: real, n: nat): seq<Run>
    requires n <= |s|
  {
    if n < 2 then []
    else if Idle(s, n - 1) then ClosedRuns(s, stall, n - 1)
    else ClosedRuns(s, stall, n - 1) + OpenRun(s, stall, n - 2)
  }

  /** All long stretches, in order: the closed ones and the one still open at the end. */
  function Runs(s: seq<Sample>, stall: real): seq<Run> {
    if s == [] then [] else ClosedRuns(s, stall, |s|) + OpenRun(s, stall, |s| - 1)
  }

  ghost predicate Ordered(runs: seq<Run>) {
    forall i, j | 0 <= i < j < |runs| :: runs[i].1 < runs[j].0
  }

  lemma OpenRunExact(s: seq<Sample>, stall: real, k: nat)
    requires k < |s|
    ensures forall r :: r in OpenRun(s, stall, k) <==> r.1 == k && LongRun(s, stall, r.0, k) && !Idle(s, r.0)
  {
    hide Idle;
    StartIsRun(s, k);
    forall a: nat | LongRun(s, stall, a, k) && !Idle(s, a) ensures a == Start(s, k) {
      StartIsEarliest(s, a, k);
    }
  }

  /** The closed stretches are the long ones that neither neighbour extends, each once and in order. */
  lemma {:induction false} ClosedRunsExact(s: seq<Sample>, stall: real, n: nat)
    requires n <= |s|
    ensures forall r :: r in ClosedRuns(s, stall, n) <==> r.1 + 1 < n && MaximalRun(s, stall, r.0, r.1)
    ensures Ordered(ClosedRuns(s, stall, n))
  {
    hide Idle, LongRun;
    if n >= 2 {
      var before, more := ClosedRuns(s, stall, n - 1), if Idle(s, n - 1) then [] else OpenRun(s, stall, n - 2);
      assert ClosedRuns(s, stall, n) == before + more;
      ClosedRunsExact(s, stall, n - 1);
      OpenRunExact(s, stall, n - 2);
      hide OpenRun, ClosedRuns;
      forall r | r in before && more != [] ensures r.1 < more[0].0 {
        assert more[0] in more;
        StartsLater(s, stall, r.0, r.1, more[0].0, n - 2);
      }
      OrderedJoin(before, more);
    }
  }

  lemma OrderedJoin(before: seq<Run>, more: seq<Run>)
    requires Ordered(before) && |more| <= 1
    requires more != [] ==> forall r | r in before :: r.1 < more[0].0
    ensures Ordered(before + more)
  {
  }

  /** A stretch that begins where an earlier maximal one has ended begins after it. */
  lemma StartsLater(s: seq<Sample>, stall: real, a: nat, b: nat, c: nat, d: nat)
    requires b < d < |s| && MaximalRun(s, stall, a, b) && LongRun(s, stall, c, d) && !Idle(s, c)
    ensures b < c
  {
    assert !Idle(s, b + 1);
  }

  /** The reported stretches are exactly the maximal ones, each once and in order. */
  lemma RunsExact(s: seq<Sample>, stall: real)
    ensures forall a: nat, b: nat :: (a, b) in Runs(s, stall) <==> MaximalRun(s, stall, a, b)
    ensures Ordered(Runs(s, stall))
  {
    hide Idle, LongRun;
    if s != [] {
      var before, more := ClosedRuns(s, stall, |s|), OpenRun(s, stall, |s| - 1);
      ClosedRunsExact(s, stall, |s|);
      OpenRunExact(s, stall, |s| - 1);
      hide OpenRun, ClosedRuns;
      forall r | r in before && more != [] ensures r.1 < more[0].0 {
        assert more[0] in more;
        StartsLater(s, stall, r.0, r.1, more[0].0, |s| - 1);
      }
      OrderedJoin(before, more);
    }
  }

  // ------------------------------------------------------------------ the pass

  /** Commits counted by sample `k`. */
  function Progress(s: seq<Sample>, n: nat): nat
    requires n <= |s|
  {
    if n == 0 then 0
    else
      var k := n - 1;
      Progress(s, k) + if Adjacent(s, k) && !Broken(s, k) then s[k].committed - s[k - 1].committed else 0
  }

  predicate Flawed(s: seq<Sample>, i: nat)
    requires i < |s|
  {
    s[i].Unusable? || (Adjacent(s, i) && Broken(s, i))
  }

  /** With no problem, the commits observed telescope to last minus first. */
  lemma {:induction false} ProgressTelescopes(s: seq<Sample>, n: nat)
    requires 0 < n <= |s| && forall i | 0 <= i < n :: !Flawed(s, i)
    ensures s[0].Sample? && s[n - 1].Sample? && Progress(s, n) == s[n - 1].committed - s[0].committed
  {
    assert !Flawed(s, 0) && !Flawed(s, n - 1);
    if n > 1 { ProgressTelescopes(s, n - 1); }
  }

  function StallOf(s: seq<Sample>, r: Run): Stall
    requires r.0 < |s| && r.1 < |s|
  {
    Stall(s[r.0].ts, s[r.1].ts)
  }

  /** The stalls of some stretches, in order. */
  ghost predicate Reports(s: seq<Sample>, runs: seq<Run>, stalls: seq<Stall>) {
    && |stalls| == |runs|
    && forall i | 0 <= i < |runs| :: runs[i].0 < |s| && runs[i].1 < |s| && stalls[i] == StallOf(s, runs[i])
  }

  /** The stretch that just ended is a stall if it lasted long enough. */
  function Finished(stalls: seq<Stall>, start: Option<real>, last: Option<real>, stall: real): seq<Stall>
    requires start.Some? <==> last.Some?
  {
    if start.Some? && last.value - start.value >= stall then stalls + [Stall(start.value, last.value)] else stalls
  }

  /** Closing the open stretch reports it exactly when it is long. */
  lemma FinishedReports(s: seq<Sample>, stall: real, runs: seq<Run>, stalls: seq<Stall>, k: nat)
    requires k < |s| && Reports(s, runs, stalls)
    ensures var start, last := if Idle(s, k) then Some(s[Start(s, k)].ts) else None,
        if Idle(s, k) then Some(s[k].ts) else None;
      Reports(s, runs + OpenRun(s, stall, k), Finished(stalls, start, last, stall))
  {
  }

  /**
   One node's pass. The stalls reported are the maximal stretches that last the threshold, each once
   and in order; problems are exactly the flawed samples.
   */
  method AssessNode(s: seq<Sample>, stall: real) returns (stalls: seq<Stall>, problems: bool, progress: nat)
    ensures Reports(s, Runs(s, stall), stalls)
    ensures problems <==> exists i :: 0 <= i < |s| && Flawed(s, i)
    ensures progress == Progress(s, |s|)
  {
    hide Reports, Finished;
    stalls, problems, progress := [], false, 0;
    assert Reports(s, [], []) by { ReportsNothing(s); }
    var previous: Option<Sample> := None;
    var start: Option<real>, last: Option<real> := None, None;
    for k := 0 to |s|
      invariant Reports(s, ClosedRuns(s, stall, k), stalls)
      invariant problems <==> exists i :: 0 <= i < k && Flawed(s, i)
      invariant progress == Progress(s, k)
      invariant previous == if k > 0 && s[k - 1].Sample? then Some(s[k - 1]) else None
      invariant start == (if k > 0 && Idle(s, k - 1) then Some(s[Start(s, k - 1)].ts) else None)
      invariant last == (if k > 0 && Idle(s, k - 1) then Some(s[k - 1].ts) else None)
    {
      var sample := s[k];
      assert Flawed(s, k) || !Flawed(s, k);
      FinishedNothing(stalls, stall);
      if k > 0 { FinishedReports(s, stall, ClosedRuns(s, stall, k), stalls, k - 1); }
      if sample.Unusable? {
        stalls := Finished(stalls, start, last, stall);
        problems := true;
        previous, start, last := None, None, None;
      } else {
        if previous.Some? {
          var gap, delta := sample.ts - previous.value.ts, sample.committed - previous.value.committed;
          if gap <= 0.0 || gap > MAX_SAMPLE_GAP_S || delta < 0 {
            stalls := Finished(stalls, start, last, stall);
            problems := true;
            start, last := None, None;
          } else if delta > 0 {
            progress := progress + delta;
            stalls := Finished(stalls, start, last, stall);
            start, last := None, None;
          } else if previous.value.pending && sample.pending {
            if start.None? { start := Some(previous.value.ts); }
            last := Some(sample.ts);
          } else {
            stalls := Finished(stalls, start, last, stall);
            start, last := None, None;
          }
        }
        previous := Some(sample);
      }
    }
    FinishedNothing(stalls, stall);
    if s != [] { FinishedReports(s, stall, ClosedRuns(s, stall, |s|), stalls, |s| - 1); }
    stalls := Finished(stalls, start, last, stall);
  }

  /** Every long stretch lies inside a reported stall, recovered or not. */
  lemma EveryStallIsReported(s: seq<Sample>, stall: real, stalls: seq<Stall>, a: nat, b: nat)
    requires Reports(s, Runs(s, stall), stalls) && b < |s| && LongRun(s, stall, a, b)
    ensures exists x :: x in stalls && x.start <= s[a].ts && s[b].ts <= x.end
  {
    hide Idle, LongRun, Runs;
    LongRunExtends(s, stall, a, b);
    RunsExact(s, stall);
    var runs, r := Runs(s, stall), (Start(s, b), End(s, b));
    assert r in runs;
    var i :| 0 <= i < |runs| && runs[i] == r;
    assert stalls[i] == StallOf(s, r) && stalls[i] in stalls;
  }

  lemma ReportsNothing(s: seq<Sample>)
    ensures Reports(s, [], [])
  {
  }

  lemma FinishedNothing(stalls: seq<Stall>, stall: real)
    ensures Finished(stalls, None, None, stall) == stalls
  {
  }

  // ------------------------------------------------------------------ the verdict

  /** The samples of the window, in order. */
  function InWindow(rows: seq<Sample>, lo: real, hi: real): seq<Sample> {
    if rows == [] then []
    else
      var last := rows[|rows| - 1];
      InWindow(rows[..|rows| - 1], lo, hi) + if lo <= last.ts <= hi then [last] else []
  }

  /** The window keeps the order: of two stretches, first what is left of the one, then of the other. */
  lemma {:induction false} WindowConcat(a: seq<Sample>, b: seq<Sample>, lo: real, hi: real)
    ensures InWindow(a + b, lo, hi) == InWindow(a, lo, hi) + InWindow(b, lo, hi)
    decreases |b|
  {
    if b == [] {
      assert a + b == a;
    } else {
      assert (a + b)[..|a + b| - 1] == a + b[..|b| - 1];
      WindowConcat(a, b[..|b| - 1], lo, hi);
    }
  }

  /** One sample is kept exactly when its time is in the window. */
  lemma WindowOfOne(x: Sample, lo: real, hi: real)
    ensures InWindow([x], lo, hi) == if lo <= x.ts <= hi then [x] else []
  {
    assert [x][..0] == [];
  }

  lemma {:induction false} WindowMembers(rows: seq<Sample>, lo: real, hi: real, x: Sample)
    ensures x in InWindow(rows, lo, hi) <==> x in rows && lo <= x.ts <= hi
  {
    if rows != [] { WindowMembers(rows[..|rows| - 1], lo, hi, x); }
  }

  ghost predicate TimeOrdered(rows: seq<Sample>) {
    forall i, j | 0 <= i < j < |rows| :: rows[i].ts <= rows[j].ts
  }

  /** The indices i..<j are those of the samples in the window. */
  ghost predicate Bounds(rows: seq<Sample>, lo: real, hi: real, i: nat, j: nat) {
    && i <= j <= |rows|
    && (forall k | 0 <= k < |rows| :: (i <= k < j <==> lo <= rows[k].ts <= hi))
  }

  lemma {:induction false} WindowAllOrNone(rows: seq<Sample>, lo: real, hi: real, all: bool)
    requires forall k | 0 <= k < |rows| :: (lo <= rows[k].ts <= hi) == all
    ensures InWindow(rows, lo, hi) == if all then rows else []
  {
    if rows != [] {
      var front, last := rows[..|rows| - 1], rows[|rows| - 1];
      WindowAllOrNone(front, lo, hi, all);
      assert (lo <= last.ts <= hi) == all;
      assert InWindow(rows, lo, hi) == InWindow(front, lo, hi) + if all then [last] else [];
      assert front + [last] == rows;
    }
  }

  /** The window whose samples stand at i..<j is that slice. */
  lemma WindowIsSlice(rows: seq<Sample>, lo: real, hi: real, i: nat, j: nat)
    requires Bounds(rows, lo, hi, i, j)
    ensures InWindow(rows, lo, hi) == rows[i..j]
  {
    hide InWindow;
    assert rows == rows[..i] + (rows[i..j] + rows[j..]);
    WindowConcat(rows[..i], rows[i..j] + rows[j..], lo, hi);
    WindowConcat(rows[i..j], rows[j..], lo, hi);
    WindowAllOrNone(rows[..i], lo, hi, false);
    WindowAllOrNone(rows[i..j], lo, hi, true);
    WindowAllOrNone(rows[j..], lo, hi, false);
  }

  /** Samples in order of time have such bounds. */
  lemma OrderedHasBounds(rows: seq<Sample>, lo: real, hi: real) returns (i: nat, j: nat)
    requires TimeOrdered(rows)
    ensures Bounds(rows, lo, hi, i, j)
  {
    i := 0;
    while i < |rows| && rows[i].ts < lo
      invariant i <= |rows| && forall k | 0 <= k < i :: rows[k].ts < lo
    {
      i := i + 1;
    }
    j := i;
    while j < |rows| && rows[j].ts <= hi
      invariant i <= j <= |rows| && forall k | i <= k < j :: lo <= rows[k].ts <= hi
    {
      j := j + 1;
    }
  }

  /** Too few samples, or a window edge without one. */
  predicate Uncovered(w: seq<Sample>, lo: real, hi: real) {
    |w| < 2 || w[0].ts - lo > MAX_SAMPLE_GAP_S || hi - w[|w| - 1].ts > MAX_SAMPLE_GAP_S
  }

  /** What may be concluded from the window: it is covered and every sample can be compared. */
  ghost predicate Readable(w: seq<Sample>, lo: real, hi: real) {
    !Uncovered(w, lo, hi) && forall i | 0 <= i < |w| :: !Flawed(w, i)
  }

  ghost predicate Stalled(w: seq<Sample>, stall: real) {
    exists a: nat, b: nat :: b < |w| && LongRun(w, stall, a, b)
  }

  /** The verdict said of the samples of the window alone. */
  ghost function VerdictOn(w: seq<Sample>, lo: real, hi: real, stall: real): Verdict {
    if Stalled(w, stall) then FAIL
    else if !Readable(w, lo, hi) then UNKNOWN
    else if !(w[0].Sample? && w[|w| - 1].Sample? && w[0].committed < w[|w| - 1].committed) then FAIL
    else PASS
  }

  ghost function VerdictOf(rows: seq<Sample>, lo: real, hi: real, stall: real): Verdict {
    VerdictOn(InWindow(rows, lo, hi), lo, hi, stall)
  }

  /** Samples in order of time are judged by the slice of them that lies in the window. */
  lemma OrderedVerdict(rows: seq<Sample>, lo: real, hi: real, stall: real) returns (i: nat, j: nat)
    requires TimeOrdered(rows)
    ensures Bounds(rows, lo, hi, i, j) && VerdictOf(rows, lo, hi, stall) == VerdictOn(rows[i..j], lo, hi, stall)
  {
    i, j := OrderedHasBounds(rows, lo, hi);
    WindowIsSlice(rows, lo, hi, i, j);
  }

  /** Two usable samples in a row at most five seconds apart, the second no earlier in commits. */
  ghost predicate Comparable(x: Sample, y: Sample) {
    x.Sample? && y.Sample? && 0.0 < y.ts - x.ts <= 5.0 && x.committed <= y.committed
  }

  /** The samples reach to five seconds of both edges and each compares with the next. */
  ghost predicate Sound(w: seq<Sample>, lo: real, hi: real) {
    && |w| >= 2 && w[0].Sample? && w[|w| - 1].Sample?
    && w[0].ts - lo <= 5.0 && hi - w[|w| - 1].ts <= 5.0
    && (forall i: nat | 0 < i < |w| :: Comparable(w[i - 1], w[i]))
  }

  /** From sample `a` to `b`, `stall` or more passes, samples compare, work is pending and nothing is committed. */
  ghost predicate StandsStill(w: seq<Sample>, stall: real, a: nat, b: nat) {
    && a < b < |w| && w[b].ts - w[a].ts >= stall
    && (forall i: nat | a < i <= b :: Comparable(w[i - 1], w[i]))
    && (forall i | a <= i <= b :: w[i].Sample? && w[i].pending)
    && w[a].committed == w[b].committed
  }

  lemma {:induction false} CommitsGrow(w: seq<Sample>, a: nat, b: nat)
    requires a <= b < |w| && w[a].Sample? && forall i: nat | a < i <= b :: Comparable(w[i - 1], w[i])
    ensures w[b].Sample? && w[a].committed <= w[b].committed
    decreases b
  {
    if a < b { CommitsGrow(w, a, b - 1); }
  }

  lemma LongRunIff(w: seq<Sample>, stall: real, a: nat, b: nat)
    requires b < |w|
    ensures LongRun(w, stall, a, b) <==> StandsStill(w, stall, a, b)
  {
    if LongRun(w, stall, a, b) {
      assert Idle(w, b);
      forall i: nat | a < i <= b ensures Comparable(w[i - 1], w[i]) { assert Idle(w, i); }
      forall i | a <= i <= b ensures w[i].Sample? && w[i].pending {
        assert if i == a then Idle(w, i + 1) else Idle(w, i);
      }
      SameCommits(w, a, b);
    } else if StandsStill(w, stall, a, b) {
      forall i: nat | a < i <= b ensures Idle(w, i) {
        assert Comparable(w[i - 1], w[i]);
        CommitsGrow(w, a, i - 1);
        CommitsGrow(w, i, b);
      }
    }
  }

  lemma {:induction false} SameCommits(w: seq<Sample>, a: nat, b: nat)
    requires a < b < |w| && forall i: nat | a < i <= b :: Idle(w, i)
    ensures w[a].Sample? && w[b].Sample? && w[a].committed == w[b].committed
    decreases b
  {
    assert Idle(w, b);
    if a < b - 1 { SameCommits(w, a, b - 1); }
  }

  /**
   The verdict on a window, told on times, commits and pending work alone: failed when some stretch
   stands still that long; else passed when the samples reach both edges, all compare and the last
   is ahead of the first; else failed if only the last is lacking, and unknown otherwise.
   */
  lemma VerdictIff(w: seq<Sample>, lo: real, hi: real, stall: real)
    ensures var v := VerdictOn(w, lo, hi, stall);
      var still := exists a: nat, b: nat :: StandsStill(w, stall, a, b);
      && (v.PASS? <==> !still && Sound(w, lo, hi) && w[0].committed < w[|w| - 1].committed)
      && (v.FAIL? <==> still || (Sound(w, lo, hi) && w[0].committed == w[|w| - 1].committed))
  {
    hide LongRun, StandsStill;
    forall a: nat, b: nat | b < |w| ensures LongRun(w, stall, a, b) <==> StandsStill(w, stall, a, b) {
      LongRunIff(w, stall, a, b);
    }
    StillInside(w, stall);
    ReadableIff(w, lo, hi);
  }

  lemma StillInside(w: seq<Sample>, stall: real)
    ensures forall a: nat, b: nat | StandsStill(w, stall, a, b) :: b < |w|
  {
  }

  lemma ReadableIff(w: seq<Sample>, lo: real, hi: real)
    ensures Readable(w, lo, hi) <==> Sound(w, lo, hi)
    ensures Sound(w, lo, hi) ==> w[0].committed <= w[|w| - 1].committed
  {
    if Readable(w, lo, hi) {
      forall i: nat | 0 < i < |w| ensures Comparable(w[i - 1], w[i]) { assert !Flawed(w, i) && !Flawed(w, i - 1); }
      assert !Flawed(w, 0) && !Flawed(w, |w| - 1);
      CommitsGrow(w, 0, |w| - 1);
    } else if |w| >= 2 && forall i: nat | 0 < i < |w| :: Comparable(w[i - 1], w[i]) {
      forall i | 0 <= i < |w| ensures !Flawed(w, i) {
        assert if i > 0 then Comparable(w[i - 1], w[i]) else Comparable(w[0], w[1]);
      }
    }
  }

  /** A stall is reported exactly when some stretch is long, maximal or not. */
  lemma ReportedIffStalled(s: seq<Sample>, stall: real)
    ensures Runs(s, stall) != [] <==> Stalled(s, stall)
  {
    hide LongRun, Runs, Idle;
    RunsExact(s, stall);
    if a: nat, b: nat :| b < |s| && LongRun(s, stall, a, b) { LongRunExtends(s, stall, a, b); }
    if Runs(s, stall) != [] {
      var r := Runs(s, stall)[0];
      assert (r.0, r.1) in Runs(s, stall);
    }
  }

  /** One node's verdict is the one its samples call for. */
  method JudgeNode(rows: seq<Sample>, lo: real, hi: real, stall: real) returns (verdict: Verdict)
    ensures verdict == VerdictOf(rows, lo, hi, stall)
    ensures forall i: nat, j: nat | Bounds(rows, lo, hi, i, j) :: verdict == VerdictOn(rows[i..j], lo, hi, stall)
  {
    forall i: nat, j: nat | Bounds(rows, lo, hi, i, j) ensures InWindow(rows, lo, hi) == rows[i..j] {
      WindowIsSlice(rows, lo, hi, i, j);
    }
    hide Runs, Stalled, Flawed, LongRun, Progress;
    var w := InWindow(rows, lo, hi);
    var stalls, problems, progress := AssessNode(w, stall);
    ReportedIffStalled(w, stall);
    if !problems && |w| >= 2 { ProgressTelescopes(w, |w|); }
    verdict := if stalls != [] then FAIL
      else if problems || Uncovered(w, lo, hi) then UNKNOWN
      else if progress == 0 then FAIL
      else PASS;
  }

  /** All nodes: a failure anywhere fails, a doubt anywhere is one, and only then is it a pass. */
  method AssessLiveness(nodes: seq<seq<Sample>>, lo: real, hi: real, stall: real) returns (verdict: Verdict)
    ensures verdict.FAIL? <==> exists n :: n in nodes && VerdictOf(n, lo, hi, stall).FAIL?
    ensures verdict.PASS? <==> forall n | n in nodes :: VerdictOf(n, lo, hi, stall).PASS?
  {
    hide VerdictOf;
    var verdicts := [];
    for k := 0 to |nodes|
      invariant |verdicts| == k && forall i | 0 <= i < k :: verdicts[i] == VerdictOf(nodes[i], lo, hi, stall)
    {
      var v := JudgeNode(nodes[k], lo, hi, stall);
      verdicts := verdicts + [v];
    }
    verdict := if FAIL in verdicts then FAIL else if UNKNOWN in verdicts then UNKNOWN else PASS;
    assert forall i | 0 <= i < |nodes| :: nodes[i] in nodes;
  }
}
