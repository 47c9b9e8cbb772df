/**
 Splitting a node's sample times at a kill: the last sample at or before it ends the first window
 and starts the second.
 */
module KillSplit {
  predicate Ascending(s: seq<real>) {
    forall i, j | 0 <= i < j < |s| :: s[i] < s[j]
  }

  /** The times in [lo, hi], in order. */
  function Within(s: seq<real>, lo: real, hi: real): seq<real> {
    if s == [] then [] else (if lo <= s[0] <= hi then [s[0]] else []) + Within(s[1..], lo, hi)
  }

  /** The times in (lo, hi], in order. */
  function After(s: seq<real>, lo: real, hi: real): seq<real> {
    if s == [] then [] else (if lo < s[0] <= hi then [s[0]] else []) + After(s[1..], lo, hi)
  }

  datatype Split = Split(before: seq<real>, after: seq<real>)

  function SplitAtKill(s: seq<real>, t0: real, t1: real, kill: real): Split {
    var pre, post := Within(s, t0, kill), After(s, kill, t1);
    Split(pre, if pre == [] then [] else [pre[|pre| - 1]] + post)
  }

  /** The first window holds the times in [t0, kill] and no other; the second those up to t1 after its last. */
  lemma SplitMembers(s: seq<real>, t0: real, t1: real, kill: real, x: real)
    ensures var split := SplitAtKill(s, t0, t1, kill);
      && (x in split.before <==> x in s && t0 <= x <= kill)
      && (split.before == [] ==> split.after == [])
      && (split.before != [] ==>
            && split.after != [] && split.after[0] == split.before[|split.before| - 1]
            && (x in split.after[1..] <==> x in s && kill < x <= t1))
  {
    WithinMembers(s, t0, kill, x);
    AfterMembers(s, kill, t1, x);
    var pre, post := Within(s, t0, kill), After(s, kill, t1);
    if pre != [] { assert ([pre[|pre| - 1]] + post)[1..] == post; }
  }

  lemma {:induction false} WithinMembers(s: seq<real>, lo: real, hi: real, x: real)
    ensures x in Within(s, lo, hi) <==> x in s && lo <= x <= hi
  {
    if s != [] {
      WithinMembers(s[1..], lo, hi, x);
      assert s == [s[0]] + s[1..];
    }
  }

  lemma {:induction false} AfterMembers(s: seq<real>, lo: real, hi: real, x: real)
    ensures x in After(s, lo, hi) <==> x in s && lo < x <= hi
  {
    if s != [] {
      AfterMembers(s[1..], lo, hi, x);
      assert s == [s[0]] + s[1..];
    }
  }

  /** What a counter moved from the first to the last of some times. */
  function Delta(counter: real -> int, times: seq<real>): int {
    if times == [] then 0 else counter(times[|times| - 1]) - counter(times[0])
  }

  /** The two windows' deltas add up to the delta over the load window [t0, t1]. */
  ghost predicate AddsUp(s: seq<real>, t0: real, t1: real, kill: real, counter: real -> int) {
    var split := SplitAtKill(s, t0, t1, kill);
    Delta(counter, split.before) + Delta(counter, split.after) == Delta(counter, Within(s, t0, t1))
  }

  lemma {:induction false} AllLate(s: seq<real>, t0: real, t1: real, mid: real)
    requires t0 <= mid && forall i | 0 <= i < |s| :: mid < s[i]
    ensures Within(s, t0, mid) == [] && After(s, mid, t1) == Within(s, t0, t1)
  {
    if s != [] { AllLate(s[1..], t0, t1, mid); }
  }

  lemma Tail(s: seq<real>)
    requires Ascending(s) && s != []
    ensures Ascending(s[1..]) && forall i | 0 <= i < |s| :: s[0] <= s[i]
  {
  }

  /** The times up to `mid` and those after it are the times of the whole window, if none is past its end. */
  lemma {:induction false} PartsJoin(s: seq<real>, t0: real, t1: real, mid: real)
    requires Ascending(s) && t0 <= mid && After(s, t1, mid) == []
    ensures Within(s, t0, mid) + After(s, mid, t1) == Within(s, t0, t1)
  {
    if s != [] {
      Tail(s);
      hide Ascending;
      if s[0] <= mid {
        PartsJoin(s[1..], t0, t1, mid);
        var head := if t0 <= s[0] then [s[0]] else [];
        var pre, post, whole := Within(s[1..], t0, mid), After(s[1..], mid, t1), Within(s[1..], t0, t1);
        assert Within(s, t0, mid) == head + pre && After(s, mid, t1) == post && Within(s, t0, t1) == head + whole;
        assert head + pre + post == head + (pre + post);
      } else {
        AllLate(s, t0, t1, mid);
      }
    }
  }

  lemma {:induction false} Bounds(s: seq<real>, lo: real, hi: real)
    ensures forall i | 0 <= i < |Within(s, lo, hi)| :: lo <= Within(s, lo, hi)[i] <= hi
    ensures forall i | 0 <= i < |After(s, lo, hi)| :: lo < After(s, lo, hi)[i] <= hi
  {
    if s != [] { Bounds(s[1..], lo, hi); }
  }

  lemma ConsAscends(x: real, rest: seq<real>)
    requires Ascending(rest) && forall y | y in rest :: x < y
    ensures Ascending([x] + rest)
  {
    var all := [x] + rest;
    forall i, j | 0 <= i < j < |all| ensures all[i] < all[j] {
      assert all[j] == rest[j - 1] && rest[j - 1] in rest;
      if i > 0 { assert all[i] == rest[i - 1]; }
    }
  }

  lemma {:induction false} WithinAscends(s: seq<real>, lo: real, hi: real)
    requires Ascending(s)
    ensures Ascending(Within(s, lo, hi)) && forall x | x in Within(s, lo, hi) :: x in s
  {
    if s != [] {
      Tail(s);
      var rest := Within(s[1..], lo, hi);
      WithinAscends(s[1..], lo, hi);
      assert forall x | x in s[1..] :: s[0] < x;
      hide Ascending;
      ConsAscends(s[0], rest);
      if lo <= s[0] <= hi {
        assert Within(s, lo, hi) == [s[0]] + rest;
      } else {
        assert Within(s, lo, hi) == rest;
      }
    }
  }

  /** Every counter stands still over some times exactly when there is at most one of them. */
  lemma StandsStillIff(times: seq<real>)
    requires Ascending(times)
    ensures (forall counter: real -> int :: Delta(counter, times) == 0) <==> |times| <= 1
  {
    if |times| > 1 {
      var top := times[|times| - 1];
      var counter := (t: real) => if t == top then 1 else 0;
      assert Delta(counter, times) == 1;
    }
  }

  /** When the split loses nothing, told from which samples the windows hold. */
  predicate Lossless(s: seq<real>, t0: real, t1: real, kill: real) {
    if Within(s, t0, kill) == [] then |Within(s, t0, t1)| <= 1
    else if Within(s, t0, t1) == [] then |Within(s, t0, kill)| == 1
    else After(s, t1, kill) == []
  }

  /**
   Splitting loses nothing exactly when no sample lies after the load window and up to the kill:
   then, and only then, the two deltas add up for every counter. With no sample up to the kill, or
   none in the load window, they add up exactly when the other window holds at most one.
   */
  lemma SplitAddsUpIff(s: seq<real>, t0: real, t1: real, kill: real)
    requires Ascending(s)
    ensures (forall counter: real -> int :: AddsUp(s, t0, t1, kill, counter)) <==> Lossless(s, t0, t1, kill)
  {
    hide Within, After, Ascending, AddsUp;
    var pre, whole := Within(s, t0, kill), Within(s, t0, t1);
    Bounds(s, t0, kill);
    Bounds(s, t0, t1);
    if pre == [] || whole == [] {
      EmptyWindow(s, t0, t1, kill);
    } else if After(s, t1, kill) == [] {
      assert t0 <= pre[0] <= kill;
      PartsJoin(s, t0, t1, kill);
      forall counter: real -> int ensures AddsUp(s, t0, t1, kill, counter) { JoinedAddsUp(s, t0, t1, kill, counter); }
    } else {
      assert t0 <= whole[0] <= t1;
      LateSampleCounts(s, t0, t1, kill);
    }
  }

  lemma JoinedAddsUp(s: seq<real>, t0: real, t1: real, kill: real, counter: real -> int)
    requires Within(s, t0, kill) != [] && Within(s, t0, kill) + After(s, kill, t1) == Within(s, t0, t1)
    ensures AddsUp(s, t0, t1, kill, counter)
  {
    hide Within, After;
  }

  /** With one of the windows empty, the split compares the other with nothing. */
  lemma EmptyWindow(s: seq<real>, t0: real, t1: real, kill: real)
    requires Ascending(s) && (Within(s, t0, kill) == [] || Within(s, t0, t1) == [])
    ensures (forall counter: real -> int :: AddsUp(s, t0, t1, kill, counter)) <==> Lossless(s, t0, t1, kill)
  {
    var pre, whole := Within(s, t0, kill), Within(s, t0, t1);
    WithinAscends(s, t0, kill);
    WithinAscends(s, t0, t1);
    StandsStillIff(pre);
    StandsStillIff(whole);
    if pre != [] {
      Bounds(s, t0, kill);
      assert t0 <= pre[0] <= kill;
      NoneAfter(s, t0, kill, t1);
    }
    hide Within, After, Ascending, AddsUp, Delta;
    var other := if pre == [] then whole else pre;
    forall counter: real -> int ensures AddsUp(s, t0, t1, kill, counter) <==> Delta(counter, other) == 0 {
      ComparesWithNothing(s, t0, t1, kill, counter);
    }
  }

  lemma ComparesWithNothing(s: seq<real>, t0: real, t1: real, kill: real, counter: real -> int)
    requires Within(s, t0, kill) == [] || (Within(s, t0, t1) == [] && After(s, kill, t1) == [])
    ensures var other := if Within(s, t0, kill) == [] then Within(s, t0, t1) else Within(s, t0, kill);
      AddsUp(s, t0, t1, kill, counter) <==> Delta(counter, other) == 0
  {
    hide Within, After;
  }

  lemma {:induction false} NoneAfter(s: seq<real>, t0: real, kill: real, t1: real)
    requires t0 <= kill && Within(s, t0, t1) == []
    ensures After(s, kill, t1) == []
  {
    if s != [] { NoneAfter(s[1..], t0, kill, t1); }
  }

  /** A sample after the window but before the kill moves only the first delta. */
  lemma LateSampleCounts(s: seq<real>, t0: real, t1: real, kill: real)
    requires Ascending(s) && t0 <= t1 && Within(s, t0, t1) != [] && After(s, t1, kill) != []
    ensures exists counter: real -> int :: !AddsUp(s, t0, t1, kill, counter)
  {
    var pre, whole, late := Within(s, t0, kill), Within(s, t0, t1), After(s, t1, kill);
    Bounds(s, t0, t1);
    Bounds(s, t1, kill);
    Bounds(s, kill, t1);
    assert After(s, kill, t1) == [] by { NothingBetween(s, t1, kill); }
    PartsJoin(s, t0, kill, t1);
    hide Within, After, Ascending;
    var top := late[|late| - 1];
    var counter := (t: real) => if t == top then 1 else 0;
    assert pre == whole + late && pre[0] == whole[0] && pre[|pre| - 1] == top;
    assert Delta(counter, pre) == 1 && Delta(counter, whole) == 0 && Delta(counter, [top] + []) == 0;
    assert !AddsUp(s, t0, t1, kill, counter);
  }

  /** Nothing lies after the kill and within a window that ended before it. */
  lemma NothingBetween(s: seq<real>, t1: real, kill: real)
    requires After(s, t1, kill) != []
    ensures After(s, kill, t1) == []
  {
    Bounds(s, t1, kill);
    assert t1 < After(s, t1, kill)[0] <= kill;
    EmptyRange(s, kill, t1);
  }

  lemma {:induction false} EmptyRange(s: seq<real>, lo: real, hi: real)
    requires hi <= lo
    ensures After(s, lo, hi) == []
  {
    if s != [] { EmptyRange(s[1..], lo, hi); }
  }
}
