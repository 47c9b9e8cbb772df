/**
 A pass of the feed under a latch that may fire between any two of its steps: which heights it
 calls, which the app keeps or refuses, which it counts, and where it leaves the frontier.
 */
module FeedLatch {
  import opened Options
  import opened BlockTree
  import opened CommittedFeed
  import opened FeedRuns
  import opened FeedPasses

  /** The heights the thread called and then found the app unlatched, over a run. */
  ghost function Confirmed(s: State, labels: seq<Label>): seq<nat>
    decreases |labels|
  {
    if labels == [] then []
    else
      var before, t := labels[..|labels| - 1], Exec(s, labels[..|labels| - 1]);
      if labels[|labels| - 1].Tick? && t.pc.Recheck? && !t.app.latched then Confirmed(s, before) + [t.pc.h]
      else Confirmed(s, before)
  }

  /** The run is one pass: steps and latches from the idle thread back to the idle thread. */
  ghost predicate OnePass(s: State, labels: seq<Label>) {
    && s.pc.Idle? && labels != [] && labels[0].Tick?
    && (forall l | l in labels :: l.Tick? || l.Latch?)
    && (forall k | 0 < k < |labels| :: !Exec(s, labels[..k]).pc.Idle?)
    && Exec(s, labels).pc.Idle?
  }

  // ------------------------------------------------------------------ inside a pass

  /** Of the `c` heights called from `x` on, the app refused the last `q` and holds the others. */
  ghost predicate Took(was: App, app: App, x: nat, c: nat, q: nat) {
    && q <= c
    && app.refused == was.refused + Range(x + c - q, x + c)
    && app.durable == Taken(was, x, x + c - q).durable
    && (q > 0 || was.latched ==> app.latched)
  }

  ghost predicate Called(s: State, t: State, c: nat, q: nat) {
    var x := PassStart(s.store);
    t.calls == s.calls + Range(x, x + c) && Took(s.app, t.app, x, c, q)
  }

  /** The loop's variables after `n` counted heights. */
  ghost predicate Looping(s: State, t: State, n: nat) {
    && PassDue(s.store) && WellIndexed(s.store) && t.store == s.store
    && t.loop == Loop(HighestHeight(s.store).value, s.store.fed.Some? || n > 0,
                      if n > 0 then Some(PassStart(s.store) + n - 1) else None, n)
    && PassStart(s.store) + n <= PassEnd(s.store)
  }

  /** Where the pass stands after `n` counted heights. */
  ghost predicate Standing(s: State, t: State, n: nat) {
    var x, e := PassStart(s.store), PassEnd(s.store);
    match t.pc
    case Down => false
    case Idle => false
    case Check(h) => Called(s, t, n, 0) && (h == x + n || (n == 0 && s.store.fed.None? && Lowest(s.store) <= h <= x))
    case Callback(h) => Called(s, t, n, 0) && h == x + n < e
    case Recheck(h) => (Called(s, t, n + 1, 0) || Called(s, t, n + 1, 1)) && h == x + n < e
    case Write => Ended(s, t, n)
  }

  /** A pass that stops short of the readable run was stopped by the latch, perhaps after one more call. */
  ghost predicate Ended(s: State, t: State, n: nat) {
    var x, e := PassStart(s.store), PassEnd(s.store);
    || (Called(s, t, n, 0) && (x + n == e || t.app.latched))
    || ((Called(s, t, n + 1, 0) || Called(s, t, n + 1, 1)) && x + n < e && t.app.latched)
  }

  lemma CheckTick(s: State, t: State, n: nat)
    requires Looping(s, t, n) && Standing(s, t, n) && t.pc.Check?
    ensures Looping(s, TickStep(t), n) && Standing(s, TickStep(t), n)
  {
    var h, u := t.pc.h, TickStep(t);
    assert Called(s, u, n, 0);
    if h <= t.loop.highest && !t.app.latched {
      if Readable(t.store, h) { assert h == PassStart(s.store) + n; }
    }
  }

  lemma CallbackTick(s: State, t: State, n: nat)
    requires Looping(s, t, n) && Standing(s, t, n) && t.pc.Callback?
    ensures Looping(s, TickStep(t), n) && Standing(s, TickStep(t), n)
  {
    var h, x, u := t.pc.h, PassStart(s.store), TickStep(t);
    assert Readable(s.store, h);
    assert s.calls + Range(x, h) + [h] == s.calls + Range(x, h + 1);
    if t.app.latched {
      assert s.app.refused + Range(h, h) + [h] == s.app.refused + Range(h, h + 1);
      assert Called(s, u, n + 1, 1);
    } else {
      assert t.app.refused == s.app.refused + Range(h + 1, h + 1);
      TakenOneMore(s.app, t.app, x, h);
      assert Called(s, u, n + 1, 0);
    }
  }

  /** An unlatched app that holds lo..<h takes `h` too, or holds it already. */
  lemma TakenOneMore(was: App, app: App, lo: nat, h: nat)
    requires lo <= h && !app.latched && app.durable == Taken(was, lo, h).durable
    ensures app.OnCommittedBlock(h).durable == Taken(was, lo, h + 1).durable
  {
    var from := if lo < was.ResumeHeight() then was.ResumeHeight() else lo;
    if from <= h {
      assert was.durable + Range(from, h) + [h] == was.durable + Range(from, h + 1);
    }
  }

  lemma RecheckTick(s: State, t: State, n: nat)
    requires Looping(s, t, n) && Standing(s, t, n) && t.pc.Recheck?
    ensures var m := if t.app.latched then n else n + 1;
      Looping(s, TickStep(t), m) && Standing(s, TickStep(t), m)
  {
    hide RunEnd, FirstReadable;
    var u := TickStep(t);
    if Called(s, t, n + 1, 0) { assert Called(s, u, n + 1, 0); } else { assert Called(s, u, n + 1, 1); }
  }

  lemma LatchKeepsStanding(s: State, t: State, n: nat)
    requires Looping(s, t, n) && Standing(s, t, n)
    ensures var u := t.(app := t.app.(latched := true)); Looping(s, u, n) && Standing(s, u, n)
  {
    hide RunEnd, FirstReadable;
    var u := t.(app := t.app.(latched := true));
    forall c: nat, q: nat | Called(s, t, c, q) ensures Called(s, u, c, q) {}
  }

  /** The pass is over: its calls, and the frontier at the last counted height or where it was. */
  ghost predicate Outcome(s: State, t: State, n: nat) {
    && t.pc.Idle? && t.loop.delivered == n && PassStart(s.store) + n <= PassEnd(s.store)
    && t.store == s.store.(fed := if n > 0 then Some(PassStart(s.store) + n - 1) else s.store.fed)
    && Ended(s, t, n)
  }

  lemma WriteTick(s: State, t: State, n: nat)
    requires Looping(s, t, n) && Standing(s, t, n) && t.pc.Write?
    ensures Outcome(s, TickStep(t), n)
  {
    hide RunEnd, FirstReadable;
    var u := TickStep(t);
    forall c: nat, q: nat | Called(s, t, c, q) ensures Called(s, u, c, q) {}
  }

  lemma FirstTick(s: State)
    requires s.pc.Idle? && PassDue(s.store) && WellIndexed(s.store)
    ensures Looping(s, TickStep(s), 0) && Standing(s, TickStep(s), 0)
  {
    var x := PassStart(s.store);
    assert s.calls + Range(x, x) == s.calls && s.app.refused + Range(x, x) == s.app.refused;
    assert Taken(s.app, x, x).durable == s.app.durable;
    assert Called(s, TickStep(s), 0, 0);
  }

  // ------------------------------------------------------------------ whole passes

  /**
   What a pass over `store` leaves behind when it counts `n` heights: the frontier at the last of
   them, and an app that took those and at most one more, unless the whole readable run was taken.
   */
  ghost predicate Fed(store: Store, was: App, after: Store, app: App, n: nat) {
    var x, e := PassStart(store), PassEnd(store);
    && after == store.(fed := if n > 0 then Some(x + n - 1) else store.fed)
    && x + n <= e
    && (|| (Took(was, app, x, n, 0) && (x + n == e || app.latched))
        || ((Took(was, app, x, n + 1, 0) || Took(was, app, x, n + 1, 1)) && x + n < e && app.latched))
  }

  lemma {:induction false} RunStands(s: State, labels: seq<Label>, k: nat)
    requires OnePass(s, labels) && PassDue(s.store) && WellIndexed(s.store) && 0 < k < |labels|
    ensures var t, n := Exec(s, labels[..k]), |Confirmed(s, labels[..k])|;
      && Looping(s, t, n) && Standing(s, t, n)
      && Confirmed(s, labels[..k]) == Range(PassStart(s.store), PassStart(s.store) + n)
    decreases k
  {
    hide Looping, Standing, PassStart, TickStep, Exec, Confirmed;
    var before, l := labels[..k - 1], labels[k - 1];
    assert labels[..k] == before + [l] && l in labels;
    OneMore(s, before, l);
    if k == 1 {
      FirstTick(s);
    } else {
      RunStands(s, labels, k - 1);
      var n, x := |Confirmed(s, before)|, PassStart(s.store);
      StandOn(s, Exec(s, before), n, l);
      assert Range(x, x + n) + [x + n] == Range(x, x + n + 1);
    }
  }

  lemma OneMore(s: State, before: seq<Label>, l: Label)
    ensures Exec(s, []) == s && Confirmed(s, []) == []
    ensures Exec(s, before + [l]) == Step(Exec(s, before), l)
    ensures var t := Exec(s, before);
      Confirmed(s, before + [l])
      == Confirmed(s, before) + if l.Tick? && t.pc.Recheck? && !t.app.latched then [t.pc.h] else []
  {
    hide Step;
    assert (before + [l])[..|before|] == before;
  }

  /** One step or latch inside a pass; the height just rechecked counts when the app is unlatched. */
  lemma StandOn(s: State, t: State, n: nat, l: Label)
    requires Looping(s, t, n) && Standing(s, t, n) && (l.Tick? || l.Latch?)
    requires !Step(t, l).pc.Idle?
    ensures var m := if l.Tick? && t.pc.Recheck? && !t.app.latched then n + 1 else n;
      Looping(s, Step(t, l), m) && Standing(s, Step(t, l), m)
    ensures l.Tick? && t.pc.Recheck? ==> t.pc.h == PassStart(s.store) + n
  {
    hide Looping, Called, PassStart, PassEnd;
    if l.Latch? {
      LatchKeepsStanding(s, t, n);
    } else {
      match t.pc
      case Check(_) => CheckTick(s, t, n);
      case Callback(_) => CallbackTick(s, t, n);
      case Recheck(_) => RecheckTick(s, t, n);
      case Write => assert false;
    }
  }

  /**
   Every pass, whenever the latch fires. The counted heights are those called and then found
   unlatched: a run from the start of the pass, all of the readable run unless the latch stopped
   it. The frontier ends at the last of them, or stays. At most one call comes after them.
   */
  lemma PassUnderLatch(s: State, labels: seq<Label>)
    requires OnePass(s, labels) && WellIndexed(s.store)
    ensures var t, counted := Exec(s, labels), Confirmed(s, labels);
      if !PassDue(s.store) then t == s && counted == []
      else
        && Outcome(s, t, |counted|)
        && counted == Range(PassStart(s.store), PassStart(s.store) + |counted|)
        && t.store == s.store.(fed := if counted == [] then s.store.fed else Some(Last(counted)))
  {
    hide Looping, Standing, Ended, Confirmed, PassStart, PassEnd, Exec, TickStep, PassDue;
    var k := |labels| - 1;
    assert labels == labels[..k] + [labels[k]] && labels[k] in labels;
    OneMore(s, labels[..k], labels[k]);
    FirstLabel(s, labels);
    if PassDue(s.store) {
      RunStands(s, labels, k);
      LastTick(s, Exec(s, labels[..k]), |Confirmed(s, labels[..k])|, labels[k]);
    }
  }

  /** A pass with nothing to look at is one step that changes nothing. */
  lemma FirstLabel(s: State, labels: seq<Label>)
    requires OnePass(s, labels)
    ensures if PassDue(s.store) then |labels| > 1 else |labels| == 1 && Exec(s, labels) == s && labels[..0] == []
  {
    assert labels[..1] == [Tick] && [Tick][..0] == [];
    assert Exec(s, [Tick]) == TickStep(Exec(s, []));
    if |labels| == 1 { assert labels == [Tick]; }
  }

  lemma LastTick(s: State, t: State, n: nat, l: Label)
    requires Looping(s, t, n) && Standing(s, t, n) && (l.Tick? || l.Latch?)
    requires Step(t, l).pc.Idle?
    ensures l.Tick? && t.pc.Write? && Outcome(s, Step(t, l), n)
  {
    hide Looping, Called, PassStart, PassEnd;
    WriteTick(s, t, n) by { assert t.pc.Write?; }
  }

  /** The same outcome for a pass whose latch is given by the positions it fires at. */
  lemma {:induction false} LatchedPass(s: State, t: State, n: nat, latch: Pc -> bool) returns (m: nat)
    requires Looping(s, t, n) && Standing(s, t, n)
    ensures Outcome(s, RunPass(t, latch), m)
    decreases Rank(t)
  {
    hide Looping, Called, PassStart, PassEnd;
    var u := Fired(t, latch);
    LatchKeepsStanding(s, t, n);
    assert Looping(s, u, n) && Standing(s, u, n);
    match u.pc
    case Check(_) =>
      CheckTick(s, u, n);
      m := LatchedPass(s, TickStep(u), n, latch);
    case Callback(_) =>
      CallbackTick(s, u, n);
      m := LatchedPass(s, TickStep(u), n, latch);
    case Recheck(_) =>
      RecheckTick(s, u, n);
      m := LatchedPass(s, TickStep(u), if u.app.latched then n else n + 1, latch);
    case Write =>
      WriteTick(s, u, n);
      m := n;
  }

  /** A pass that is not due changes nothing. */
  ghost predicate PassResult(store: Store, was: App, after: Store, app: App, n: nat) {
    if PassDue(store) then WellIndexed(store) ==> Fed(store, was, after, app, n)
    else n == 0 && after == store && app == was
  }

  lemma LatchedPassFeeds(s: State, latch: Pc -> bool)
    requires s.pc.Idle? && s.loop == NO_LOOP
    ensures var t := RunPass(TickStep(s), latch); PassResult(s.store, s.app, t.store, t.app, t.loop.delivered)
  {
    if PassDue(s.store) && WellIndexed(s.store) {
      FirstTick(s);
      var m := LatchedPass(s, TickStep(s), 0, latch);
    }
  }
}
