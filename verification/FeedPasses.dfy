/**
 Whole passes of the feed: what one pass delivers, the boot reconcile, recovery after a crash,
 independence of the schedule, and the loop itself on the mutable tree and app.
 */
module FeedPasses {
  import opened Options
  import opened BlockTree
  import opened CommittedFeed
  import opened FeedRuns

  // ------------------------------------------------------------------ one pass

  /** Steps left in a pass. */
  function Rank(s: State): nat {
    match s.pc
    case Down => 0
    case Idle => 0
    case Write => 1
    case Check(h) => if h <= s.loop.highest then 3 * (s.loop.highest + 1 - h) + 2 else 2
    case Callback(h) => if h <= s.loop.highest then 3 * (s.loop.highest + 1 - h) + 1 else 4
    case Recheck(h) => if h <= s.loop.highest then 3 * (s.loop.highest + 1 - h) else 3
  }

  /** The latch fires at the positions `latch` names; every position is visited at most once a pass. */
  function Fired(s: State, latch: Pc -> bool): State {
    if latch(s.pc) then s.(app := s.app.(latched := true)) else s
  }

  /** Run the pass to its end. */
  function RunPass(s: State, latch: Pc -> bool): State
    decreases Rank(s)
  {
    if s.pc.Idle? || s.pc.Down? then s else RunPass(TickStep(Fired(s, latch)), latch)
  }

  /** A pass is a run of the machine: ticks, with latches in between. */
  lemma PassIsARun(s: State, latch: Pc -> bool) returns (labels: seq<Label>)
    ensures Exec(s, labels) == RunPass(s, latch)
    ensures forall l | l in labels :: l.Tick? || l.Latch?
    decreases Rank(s)
  {
    if s.pc.Idle? || s.pc.Down? {
      return [];
    }
    var head := if latch(s.pc) then [Latch, Tick] else [Tick];
    var t := TickStep(Fired(s, latch));
    assert Exec(s, head) == t by {
      assert [Latch, Tick][..1] == [Latch] && [Tick][..0] == [] && [Latch][..0] == [];
      assert Exec(s, [Latch]) == Step(Exec(s, []), Latch);
    }
    var tail := PassIsARun(t, latch);
    ExecConcat(s, head, tail);
    labels := head + tail;
  }

  lemma ExecConcat(s: State, a: seq<Label>, b: seq<Label>)
    ensures Exec(s, a + b) == Exec(Exec(s, a), b)
    decreases |b|
  {
    if b == [] {
      assert a + b == a;
    } else {
      assert (a + b)[..|a + b| - 1] == a + b[..|b| - 1];
      ExecConcat(s, a, b[..|b| - 1]);
    }
  }

  const NEVER: Pc -> bool := (_: Pc) => false

  /** The end of the readable run that starts at `h`. */
  ghost function RunEnd(s: Store, h: nat, hi: nat): (e: nat)
    ensures h <= hi + 1 ==> h <= e <= hi + 1
    ensures forall x | h <= x < e :: Readable(s, x)
    ensures e <= hi ==> !Readable(s, e)
    ensures h > hi ==> e == h
    decreases hi + 1 - h
  {
    if h > hi || !Readable(s, h) then h else RunEnd(s, h + 1, hi)
  }

  ghost function FirstReadable(s: Store, h: nat, hi: nat): (x: nat)
    ensures h <= hi + 1 ==> h <= x <= hi + 1
    ensures forall y | h <= y < x :: !Readable(s, y)
    ensures x <= hi ==> Readable(s, x)
    ensures h > hi ==> x == h
    decreases hi + 1 - h
  {
    if h > hi || Readable(s, h) then h else FirstReadable(s, h + 1, hi)
  }

  lemma RangeConcat(a: nat, b: nat, c: nat)
    requires a <= b <= c
    ensures Range(a, b) + Range(b, c) == Range(a, c)
  {
  }

  /** The app after the heights lo..<hi arrive in order. */
  ghost function Taken(app: App, lo: nat, hi: nat): App {
    app.(durable := app.durable + Range(if lo < app.ResumeHeight() then app.ResumeHeight() else lo, hi))
  }

  lemma TakeOneMore(app: App, lo: nat, hi: nat)
    requires !app.latched && lo < hi
    ensures Taken(app.OnCommittedBlock(lo), lo + 1, hi) == Taken(app, lo, hi)
  {
    var next := app.OnCommittedBlock(lo);
    if !app.Holds(lo) {
      assert next.durable + Range(lo + 1, hi) == app.durable + Range(lo, hi);
    }
  }

  /** The state after one more height is delivered and counted. */
  function Delivered(s: State, h: nat): State {
    s.(app := s.app.OnCommittedBlock(h), calls := s.calls + [h], pc := Check(h + 1),
       loop := s.loop.(anchored := true, lastFed := Some(h), delivered := s.loop.delivered + 1))
  }

  /** The state after the loop ends and the frontier is written. */
  function Closed(s: State): State {
    s.(pc := Idle, store := s.store.(fed := if s.loop.lastFed.Some? then s.loop.lastFed else s.store.fed))
  }

  lemma DeliverOne(s: State, h: nat)
    requires s.pc == Check(h) && h <= s.loop.highest && Readable(s.store, h)
    requires !s.app.latched && WellIndexed(s.store)
    ensures RunPass(s, NEVER) == RunPass(Delivered(s, h), NEVER)
  {
    var a := s.(pc := Callback(h));
    assert RunPass(s, NEVER) == RunPass(a, NEVER);
    var b := a.(app := s.app.OnCommittedBlock(h), calls := s.calls + [h], pc := Recheck(h));
    assert RunPass(a, NEVER) == RunPass(b, NEVER);
  }

  lemma StopHere(s: State, h: nat)
    requires s.pc == Check(h) && !s.app.latched
    requires h > s.loop.highest || (s.loop.anchored && !Readable(s.store, h))
    ensures RunPass(s, NEVER) == Closed(s)
  {
    var a := s.(pc := Write);
    assert RunPass(s, NEVER) == RunPass(a, NEVER);
    assert RunPass(a, NEVER) == TickStep(a);
  }

  /** What a pass that stands at `h` leaves behind when it delivers h..<e. */
  ghost predicate Delivers(s: State, t: State, h: nat, e: nat) {
    && t.pc.Idle? && h <= e
    && t.calls == s.calls + Range(h, e)
    && t.app == Taken(s.app, h, e)
    && t.loop.delivered == s.loop.delivered + (e - h)
    && t.store == s.store.(fed := if h < e then Some(e - 1)
                                  else if s.loop.lastFed.Some? then s.loop.lastFed else s.store.fed)
  }

  lemma DeliversOneMore(s: State, t: State, h: nat, e: nat)
    requires !s.app.latched && Delivers(Delivered(s, h), t, h + 1, e)
    ensures Delivers(s, t, h, e)
  {
    TakeOneMore(s.app, h, e);
    assert s.calls + [h] + Range(h + 1, e) == s.calls + Range(h, e);
  }

  lemma DeliversNone(s: State, h: nat)
    ensures Delivers(s, Closed(s), h, h)
  {
    assert s.calls + Range(h, h) == s.calls;
    assert Taken(s.app, h, h).durable == s.app.durable;
  }

  /** From an anchored position, an unlatched pass delivers exactly the readable run ahead of it. */
  lemma {:induction false} AnchoredPass(s: State, h: nat)
    requires s.pc == Check(h) && s.loop.anchored && !s.app.latched && WellIndexed(s.store)
    ensures Delivers(s, RunPass(s, NEVER), h, RunEnd(s.store, h, s.loop.highest))
    decreases s.loop.highest + 1 - h
  {
    if h <= s.loop.highest && Readable(s.store, h) {
      DeliverOne(s, h);
      AnchoredPass(Delivered(s, h), h + 1);
      DeliversOneMore(s, RunPass(s, NEVER), h, RunEnd(s.store, h, s.loop.highest));
    } else {
      StopHere(s, h);
      DeliversNone(s, h);
    }
  }

  /** An unanchored pass first passes over the heights it cannot read. */
  lemma LeadingGap(s: State, h: nat)
    requires s.pc == Check(h) && !s.loop.anchored && s.loop.lastFed.None? && !s.app.latched
    ensures var x := FirstReadable(s.store, h, s.loop.highest); RunPass(s, NEVER) == RunPass(s.(pc := Check(x)), NEVER)
    decreases s.loop.highest + 1 - h
  {
    if h <= s.loop.highest && !Readable(s.store, h) {
      assert RunPass(s, NEVER) == RunPass(s.(pc := Check(h + 1)), NEVER);
      LeadingGap(s.(pc := Check(h + 1)), h + 1);
    }
  }

  /** Where a pass over this store starts delivering. */
  ghost function PassStart(s: Store): nat {
    if s.fed.Some? then s.fed.value + 1 else FirstReadable(s, Lowest(s), HighestHeight(s).UnwrapOr(0))
  }

  ghost function PassEnd(s: Store): nat {
    RunEnd(s, PassStart(s), HighestHeight(s).UnwrapOr(0))
  }

  /** One unlatched pass from the idle thread. */
  ghost function QuietPass(s: State): State {
    RunPass(TickStep(s), NEVER)
  }

  /**
   One pass to a live app delivers precisely the maximal readable run from its start, in order,
   each height once, and leaves the frontier at the end of that run.
   */
  lemma {:induction false} PassDeliversMaximalRun(s: State)
    requires s.pc.Idle? && !s.app.latched && StoreInv(s.store) && PassDue(s.store)
    ensures var t := QuietPass(s); var x, e := PassStart(s.store), PassEnd(s.store);
      && t.pc.Idle? && x <= e
      && t.calls == s.calls + Range(x, e)
      && t.app == Taken(s.app, x, e)
      && t.store == s.store.(fed := if x < e then Some(e - 1) else s.store.fed)
      && t.loop.delivered == e - x
  {
    hide RunPass;
    var a := TickStep(s);
    var x, e := PassStart(s.store), PassEnd(s.store);
    if s.store.fed.Some? {
      AnchoredPass(a, x);
    } else {
      LeadingGap(a, Start(s.store));
      var b := a.(pc := Check(x));
      if x <= a.loop.highest {
        DeliverOne(b, x);
        AnchoredPass(Delivered(b, x), x + 1);
        DeliversOneMore(b, RunPass(b, NEVER), x, e);
      } else {
        StopHere(b, x);
        DeliversNone(b, x);
      }
    }
  }

  /** What one unlatched pass calls and writes, told without the loop. */
  ghost predicate Summary(s: State, t: State) {
    if PassDue(s.store) then
      var x, e := PassStart(s.store), PassEnd(s.store);
      && t.pc.Idle? && t.app.latched == s.app.latched && x <= e
      && t.calls == s.calls + Range(x, e)
      && t.store == s.store.(fed := if x < e then Some(e - 1) else s.store.fed)
    else t == s
  }

  lemma Summarize(s: State)
    requires s.pc.Idle? && !s.app.latched && StoreInv(s.store)
    ensures Summary(s, QuietPass(s))
  {
    if PassDue(s.store) { PassDeliversMaximalRun(s); }
  }

  /** A second pass over an unchanged tree delivers nothing. */
  lemma SecondPassDeliversNothing(s: State)
    requires s.pc.Idle? && !s.app.latched && StoreInv(s.store)
    ensures var t := QuietPass(s); var u := QuietPass(t);
      t.pc.Idle? && u.pc.Idle? && u.calls == t.calls && u.app == t.app && u.store == t.store
  {
    if PassDue(s.store) {
      PassDeliversMaximalRun(s);
      var t := QuietPass(s);
      FedIsFree(s.store, t.store.fed);
      forall h: nat ensures Readable(t.store, h) <==> Readable(s.store, h) {}
      if PassDue(t.store) {
        PassDeliversMaximalRun(t);
        assert PassStart(t.store) == PassEnd(t.store);
        assert t.calls + [] == t.calls;
      }
    }
  }

  /**
   A pass keeps what the app holds contiguous if and only if it could not skip: the frontier is
   anchored, or the first readable height is one the app can take.
   */
  lemma PassContiguousIffNoSkip(s: State)
    requires s.pc.Idle? && !s.app.latched && StoreInv(s.store) && PassDue(s.store)
    requires Contiguous(s.app.durable)
    requires s.store.fed.Some? ==> s.app.Holds(s.store.fed.value)
    ensures Contiguous(QuietPass(s).app.durable) <==> NoSkip(s.store, s.app)
  {
    PassDeliversMaximalRun(s);
    var x, e := PassStart(s.store), PassEnd(s.store);
    var held, after := s.app.durable, QuietPass(s).app.durable;
    var from := if x < s.app.ResumeHeight() then s.app.ResumeHeight() else x;
    assert after == held + Range(from, e);
    if s.store.fed.None? && held != [] {
      if x <= HighestHeight(s.store).value {
        assert Readable(s.store, x);
        if x > s.app.ResumeHeight() {
          assert e > x;
          assert after[|held|] == x && after[0] == held[0];
          assert !NoSkip(s.store, s.app);
        }
      }
    }
  }

  // ------------------------------------------------------------------ boot reconcile and recovery

  /** When the boot reconcile moves the frontier: the app lacks counted heights and all can be read. */
  ghost predicate CanLower(s: Store, app: App) {
    s.fed.Some? && app.ResumeHeight() <= s.fed.value && AllReadable(s, app.ResumeHeight(), s.fed.value)
  }

  /**
   The boot reconcile changes nothing or lowers the frontier, and it lowers it exactly when the
   app lacks counted heights and the whole gap is readable.
   */
  lemma BootReconcileOnlyLowers(s: State)
    requires s.pc.Down?
    ensures var t := Step(s, Boot);
      && (t.store != s.store <==> CanLower(s.store, s.app))
      && t.store == s.store.(fed := t.store.fed)
      && (t.store != s.store ==> t.store.fed.None? || t.store.fed.value < s.store.fed.value)
  {
  }

  /** Where the pass after a lowered frontier starts and ends: the resume height, past the old frontier. */
  lemma LoweredPassCoversGap(s: Store, app: App)
    requires StoreInv(s) && CanLower(s, app)
    ensures var t := LowerFed(s, app);
      && StoreInv(t) && PassDue(t)
      && PassStart(t) == app.ResumeHeight() && s.fed.value < PassEnd(t)
  {
    var t := LowerFed(s, app);
    var resume := app.ResumeHeight();
    FedIsFree(s, t.fed);
    assert Readable(s, s.fed.value) && Readable(s, resume);
    assert forall h: nat :: Readable(t, h) <==> Readable(s, h);
    assert Readable(t, resume);
  }

  /**
   The boot reconcile is never a skip, on any store and any app: the pass after a lowered frontier
   re-delivers the whole gap from the app's resume height, in order and without a pause.
   */
  lemma BootReconcileNeverSkips(s: State)
    requires s.pc.Down? && StoreInv(s.store) && CanLower(s.store, s.app)
    ensures var t := Step(s, Boot); var u := QuietPass(t);
      && u.calls == Range(s.app.ResumeHeight(), PassEnd(t.store))
      && s.store.fed.value < PassEnd(t.store)
      && u.store.fed == Some(PassEnd(t.store) - 1)
      && u.app.durable == s.app.durable + u.calls
  {
    hide RunPass, PassEnd, PassStart;
    LoweredPassCoversGap(s.store, s.app);
    var t := Step(s, Boot);
    PassDeliversMaximalRun(t);
    assert [] + Range(s.app.ResumeHeight(), PassEnd(t.store)) == Range(s.app.ResumeHeight(), PassEnd(t.store));
  }

  /** After boot the app holds everything counted delivered, unless the gap could not be re-read. */
  lemma BootReconcileCloses(s: State)
    requires s.pc.Down? && StoreInv(s.store)
    ensures var t := Step(s, Boot);
      (t.store.fed.Some? ==> t.app.Holds(t.store.fed.value)) <==>
      (s.store.fed.None? || s.store.fed.value < s.app.ResumeHeight() || CanLower(s.store, s.app))
  {
  }

  lemma WholeChainPass(s: State)
    requires Inv(s) && DurableInv(s) && WholeInv(s) && HighestHeight(s.store).Some?
    ensures var top := HighestHeight(s.store).value;
      if PassDue(s.store) then PassEnd(s.store) == top + 1
          && Taken(s.app, PassStart(s.store), top + 1).durable == Range(0, top + 1)
      else s.app.durable == Range(0, top + 1) && s.store.fed == Some(top)
  {
    var top := HighestHeight(s.store).value;
    if PassDue(s.store) {
      assert Readable(s.store, 0);
      assert PassEnd(s.store) == top + 1;
      assert s.app.durable == Range(0, s.app.ResumeHeight());
      RangeConcat(0, s.app.ResumeHeight(), top + 1);
    } else {
      assert s.app.durable == Range(0, top + 1);
    }
  }

  lemma BootedIsWhole(labels: seq<Label>)
    requires forall l | l in labels :: CommitOnly(l)
    ensures var s := Exec(FRESH, labels); var up := Step(Step(s, Crash), Boot);
      && Inv(up) && DurableInv(up) && WholeInv(up) && up.pc.Idle? && !up.app.latched
      && up.store == s.store.(fed := up.store.fed)
  {
    CommitOnlyKeepsWhole(labels);
    var s := Exec(FRESH, labels);
    StepKeepsInv(s, Crash);
    StepKeepsWhole(s, Crash);
    StepKeepsInv(Step(s, Crash), Boot);
    StepKeepsWhole(Step(s, Crash), Boot);
  }

  /**
   Nothing is ever lost: after any run of commits, cut passes, latches and restarts, one crash,
   one boot and one undisturbed pass leave the app holding every committed height once, in order,
   with the frontiers equal.
   */
  lemma {:induction false} RestartRecoversEverything(labels: seq<Label>)
    requires forall l | l in labels :: CommitOnly(l)
    requires HighestHeight(Exec(FRESH, labels).store).Some?
    ensures var s := Exec(FRESH, labels);
      var t := QuietPass(Step(Step(s, Crash), Boot));
      && t.app.durable == Range(0, HighestHeight(s.store).value + 1)
      && t.store == s.store.(fed := HighestHeight(s.store))
  {
    BootedIsWhole(labels);
    RecoverFrom(Step(Step(Exec(FRESH, labels), Crash), Boot));
  }

  lemma RecoverFrom(s: State)
    requires Inv(s) && DurableInv(s) && WholeInv(s) && s.pc.Idle? && !s.app.latched
    requires HighestHeight(s.store).Some?
    ensures var t := QuietPass(s);
      && t.app.durable == Range(0, HighestHeight(s.store).value + 1)
      && t.store == s.store.(fed := HighestHeight(s.store))
  {
    WholeChainPass(s);
    if PassDue(s.store) { PassDeliversMaximalRun(s); }
  }

  // ------------------------------------------------------------------ independence of the schedule

  /** What may happen between passes above an anchored frontier: a pass, or a change above it. */
  datatype Event = Pass | Change(change: Label)

  ghost predicate AboveFed(s: Store, l: Label) {
    || l.Insert? || l.Commit? || l.HealIndex?
    || (l.LoseIndex? && s.fed.Some? && s.fed.value < l.height)
    || (l.LoseBlock? && s.fed.Some? && s.fed.value < l.height)
  }

  ghost function ExecEvents(s: State, events: seq<Event>): State {
    if events == [] then s
    else
      var p := ExecEvents(s, events[..|events| - 1]);
      match events[|events| - 1]
      case Pass => QuietPass(p)
      case Change(l) => Step(p, l)
  }

  ghost predicate ChangesAbove(s: State, events: seq<Event>) {
    forall k | 0 <= k < |events| && events[k].Change? ::
      AboveFed(ExecEvents(s, events[..k]).store, events[k].change)
  }

  /** Heights counted since the frontier was `f` stay readable, and the calls are exactly them. */
  ghost predicate ScheduleInv(s: State, f: nat) {
    && s.pc.Idle? && !s.app.latched
    && s.store.fed.Some? && f <= s.store.fed.value
    && (f < s.store.fed.value ==> HighestHeight(s.store).Some? && s.store.fed.value <= HighestHeight(s.store).value)
    && s.calls == Range(f + 1, s.store.fed.value + 1)
    && (forall h | f < h <= s.store.fed.value :: Readable(s.store, h))
  }

  lemma QuietPassKeepsInv(s: State)
    requires Inv(s)
    ensures Inv(QuietPass(s))
  {
    TickKeepsInv(s);
    var labels := PassIsARun(TickStep(s), NEVER);
    TicksKeepInv(TickStep(s), labels);
  }

  lemma PassKeepsSchedule(s: State, t: State, f: nat)
    requires ScheduleInv(s, f) && Summary(s, t)
    ensures ScheduleInv(t, f)
  {
    if PassDue(s.store) {
      forall h: nat ensures Readable(t.store, h) <==> Readable(s.store, h) {}
      RangeConcat(f + 1, s.store.fed.value + 1, t.store.fed.value + 1);
    }
  }

  lemma TicksKeepInv(s: State, labels: seq<Label>)
    requires Inv(s)
    ensures Inv(Exec(s, labels))
  {
    if labels != [] {
      TicksKeepInv(s, labels[..|labels| - 1]);
      StepKeepsInv(Exec(s, labels[..|labels| - 1]), labels[|labels| - 1]);
    }
  }

  lemma ChangeKeepsSchedule(s: State, l: Label, f: nat)
    requires Inv(s) && ScheduleInv(s, f) && AboveFed(s.store, l)
    ensures Inv(Step(s, l)) && ScheduleInv(Step(s, l), f)
  {
    StoreStepKeepsInv(s, l);
    var t := Step(s, l);
    if l.Commit? {
      CommitKeepsOneChain(s.store, l.target);
      CommitRaisesFrontier(s.store, l.target);
    }
    forall h | f < h <= s.store.fed.value ensures Readable(t.store, h) {
      assert Readable(s.store, h);
      if l.LoseBlock? && l.height in s.store.index && s.store.index[l.height] == s.store.index[h] {
        assert Readable(s.store, l.height);
      }
    }
  }

  lemma EventsKeepSchedule(s: State, events: seq<Event>, f: nat)
    requires Inv(s) && ScheduleInv(s, f) && ChangesAbove(s, events)
    ensures Inv(ExecEvents(s, events)) && ScheduleInv(ExecEvents(s, events), f)
  {
    if events != [] {
      var init := events[..|events| - 1];
      forall k | 0 <= k < |init| ensures init[..k] == events[..k] && init[k] == events[k] {}
      EventsKeepSchedule(s, init, f);
      var p := ExecEvents(s, init);
      if events[|events| - 1].Pass? {
        QuietPassKeepsInv(p);
        Summarize(p);
        PassKeepsSchedule(p, QuietPass(p), f);
      } else {
        assert AboveFed(ExecEvents(s, events[..|events| - 1]).store, events[|events| - 1].change);
        ChangeKeepsSchedule(p, events[|events| - 1].change, f);
      }
    }
  }

  /** Two runs over the same heights end at the same place. */
  lemma RunEndThrough(s: Store, h: nat, mid: nat, hi: nat)
    requires h <= mid && (forall x | h <= x < mid :: Readable(s, x)) && mid <= hi + 1
    ensures RunEnd(s, h, hi) == RunEnd(s, mid, hi)
    decreases mid - h
  {
    if h < mid {
      assert Readable(s, h);
      RunEndThrough(s, h + 1, mid, hi);
    }
  }

  /** Heights taken in two stretches are the heights taken in one. */
  lemma TakenTwice(app: App, lo: nat, mid: nat, hi: nat)
    requires lo <= mid <= hi
    ensures Taken(Taken(app, lo, mid), mid, hi) == Taken(app, lo, hi) && Taken(app, lo, lo) == app
  {
    var r := app.ResumeHeight();
    var once := Taken(app, lo, mid);
    if r < mid {
      var from := if lo < r then r else lo;
      RangeConcat(from, mid, hi);
      if from < mid { assert once.ResumeHeight() == mid; }
      assert app.durable + Range(from, mid) + Range(mid, hi) == app.durable + Range(from, hi);
    } else {
      assert once.durable == app.durable;
    }
    assert app.durable + [] == app.durable;
  }

  /** `app` is what `start` becomes by taking the heights from `f` up to the frontier of `s`. */
  ghost predicate TakenSince(start: App, s: State, f: nat) {
    s.store.fed.Some? && f <= s.store.fed.value && s.app == Taken(start, f + 1, s.store.fed.value + 1)
  }

  /** A schedule's passes together hand the app the heights counted since it began. */
  lemma {:induction false} EventsTake(s: State, events: seq<Event>, f: nat)
    requires Inv(s) && ScheduleInv(s, f) && f == s.store.fed.value && ChangesAbove(s, events)
    ensures TakenSince(s.app, ExecEvents(s, events), f)
  {
    if events == [] {
      TakenTwice(s.app, f + 1, f + 1, f + 1);
    } else {
      hide QuietPass, Inv, Step, Taken;
      var init, last := events[..|events| - 1], events[|events| - 1];
      forall k | 0 <= k < |init| ensures init[..k] == events[..k] && init[k] == events[k] {}
      EventsTake(s, init, f);
      EventsKeepSchedule(s, init, f);
      var p := ExecEvents(s, init);
      if last.Pass? {
        PassTakes(p, s.app, f);
      } else {
        assert AboveFed(ExecEvents(s, events[..|events| - 1]).store, last.change);
        StoreStepKeepsInv(p, last.change);
      }
    }
  }

  /** What an anchored, unlatched pass does to the app and the frontier. */
  lemma AnchoredSummary(p: State)
    requires p.pc.Idle? && !p.app.latched && StoreInv(p.store) && p.store.fed.Some?
    ensures var t := QuietPass(p);
      if PassDue(p.store) then
        p.store.fed.value < PassEnd(p.store) && t.store.fed == Some(PassEnd(p.store) - 1)
        && t.app == Taken(p.app, p.store.fed.value + 1, PassEnd(p.store))
      else t == p
  {
    hide RunPass;
    Summarize(p);
    if PassDue(p.store) { PassDeliversMaximalRun(p); }
  }

  lemma PassTakes(p: State, start: App, f: nat)
    requires Inv(p) && ScheduleInv(p, f) && TakenSince(start, p, f)
    ensures TakenSince(start, QuietPass(p), f)
  {
    assert p.pc.Idle? && !p.app.latched && StoreInv(p.store) && p.store.fed.Some?;
    hide QuietPass, PassEnd, Inv, Taken;
    AnchoredSummary(p);
    if PassDue(p.store) { TakenTwice(start, f + 1, p.store.fed.value + 1, PassEnd(p.store)); }
  }

  /**
   Schedule independence: from an anchored frontier, any interleaving of passes with inserts,
   commits, holes above the frontier and repairs, ended by a pass, hands a live app exactly the
   calls, and leaves exactly the app, the tree and the frontier, that the one final pass alone
   would have.
   */
  lemma {:induction false} ScheduleIndependence(s: State, events: seq<Event>)
    requires Inv(s) && s.pc.Idle? && !s.app.latched && s.calls == [] && s.store.fed.Some?
    requires ChangesAbove(s, events)
    ensures var t := ExecEvents(s, events + [Pass]);
      var final := ExecEvents(s, events).store.(fed := s.store.fed);
      var once := QuietPass(s.(store := final));
      && t.calls == once.calls
      && t.store == once.store
      && t.app == once.app
  {
    var f := s.store.fed.value;
    assert s.calls == Range(f + 1, f + 1);
    EventsKeepSchedule(s, events, f);
    var p := ExecEvents(s, events);
    assert (events + [Pass])[..|events|] == events;
    assert ExecEvents(s, events + [Pass]) == QuietPass(p);
    var alone := s.(store := p.store.(fed := s.store.fed));
    FedIsFree(p.store, s.store.fed);
    Summarize(p);
    Summarize(alone);
    OnePassReaches(alone, QuietPass(alone), p, QuietPass(p), f);
    SameApp(s, events, alone, p);
  }

  /** ... and both leave the app with the heights from the old frontier to the common end. */
  lemma SameApp(s: State, events: seq<Event>, alone: State, p: State)
    requires Inv(s) && ScheduleInv(s, s.store.fed.UnwrapOr(0)) && ChangesAbove(s, events)
    requires p == ExecEvents(s, events) && Inv(p) && ScheduleInv(p, s.store.fed.value)
    requires alone == s.(store := p.store.(fed := s.store.fed)) && StoreInv(alone.store)
    requires QuietPass(p).store == QuietPass(alone).store
    ensures QuietPass(p).app == QuietPass(alone).app
  {
    assert s.pc.Idle? && !s.app.latched;
    hide QuietPass, Inv, ExecEvents, ChangesAbove, StoreInv, ScheduleInv, TakenSince;
    EventsTake(s, events, s.store.fed.value);
    PassTakes(p, s.app, s.store.fed.value);
    OnePassTakes(alone, QuietPass(p));
  }

  /** The app is determined by where the frontier ends. */
  lemma OnePassTakes(alone: State, t: State)
    requires alone.pc.Idle? && !alone.app.latched && StoreInv(alone.store) && alone.store.fed.Some?
    requires TakenSince(alone.app, t, alone.store.fed.value) && t.store.fed == QuietPass(alone).store.fed
    ensures t.app == QuietPass(alone).app
  {
    hide QuietPass, PassEnd, Taken, StoreInv, PassDue;
    AnchoredSummary(alone);
    TakenTwice(alone.app, alone.store.fed.value + 1, alone.store.fed.value + 1, alone.store.fed.value + 1);
  }

  /** A pass from an older frontier ends where a pass from the newer one ends. */
  lemma OlderFrontierSameEnd(s: Store, f: nat)
    requires s.fed.Some? && f <= s.fed.value && HighestHeight(s).Some? && s.fed.value <= HighestHeight(s).value
    requires forall h | f < h <= s.fed.value :: Readable(s, h)
    ensures PassEnd(s.(fed := Some(f))) == PassEnd(s) && s.fed.value < PassEnd(s)
  {
    var hi, g, final := HighestHeight(s).value, s.fed.value, s.(fed := Some(f));
    assert HighestHeight(final) == HighestHeight(s);
    forall h: nat ensures Readable(final, h) <==> Readable(s, h) {}
    SameRunEnd(final, s, f + 1, hi);
    RunEndThrough(s, f + 1, g + 1, hi);
  }

  /** One pass from the old frontier over the final tree ends where the schedule's last pass ends. */
  lemma OnePassReaches(alone: State, once: State, p: State, t: State, f: nat)
    requires alone.calls == [] && alone.store == p.store.(fed := Some(f))
    requires ScheduleInv(p, f) && Summary(p, t) && Summary(alone, once)
    ensures t.calls == once.calls && t.store == once.store
  {
    assert HighestHeight(alone.store) == HighestHeight(p.store);
    if PassDue(alone.store) {
      OlderFrontierSameEnd(p.store, f);
      var e := PassEnd(p.store);
      CallsSoFar(p, t, f);
      assert once.calls == Range(f + 1, e) by {
        assert PassStart(alone.store) == f + 1;
        assert [] + Range(f + 1, e) == Range(f + 1, e);
      }
    }
  }

  /** After its last pass a schedule has called exactly the heights up to the end of that pass. */
  lemma CallsSoFar(p: State, t: State, f: nat)
    requires ScheduleInv(p, f) && Summary(p, t) && HighestHeight(p.store).Some?
    requires p.store.fed.value <= HighestHeight(p.store).value
    ensures t.calls == Range(f + 1, PassEnd(p.store)) && t.store == p.store.(fed := Some(PassEnd(p.store) - 1))
  {
    hide HighestHeight, Readable;
    var g := p.store.fed.value;
    if PassDue(p.store) {
      assert t.calls == Range(f + 1, g + 1) + Range(g + 1, PassEnd(p.store));
      RangeConcat(f + 1, g + 1, PassEnd(p.store));
    } else {
      assert PassEnd(p.store) == g + 1;
    }
  }

  /** The end of a run depends on what is readable alone. */
  lemma SameRunEnd(s: Store, t: Store, h: nat, hi: nat)
    requires forall x: nat :: Readable(s, x) <==> Readable(t, x)
    ensures RunEnd(s, h, hi) == RunEnd(t, h, hi)
    decreases hi + 1 - h
  {
    if h <= hi && Readable(s, h) { SameRunEnd(s, t, h + 1, hi); }
  }
}
