/**
 Runs in which the app also loses durable records while the process is down: the frontier is then
 above what the app holds, and it is the boot reconcile that brings the lost heights back.
 */
module FeedLoss {
  import opened Options
  import opened BlockTree
  import opened CommittedFeed
  import opened FeedRuns
  import opened FeedPasses

  /** A step of the feed's machine, or the loss of all but the first `keep` records the app made durable. */
  datatype Happening = Do(change: Label) | LoseRecords(keep: nat)

  ghost function Happen(s: State, e: Happening): State {
    match e
    case Do(l) => Step(s, l)
    case LoseRecords(k) =>
      if s.pc.Down? && k < |s.app.durable| then s.(app := s.app.(durable := s.app.durable[..k])) else s
  }

  ghost function Run(events: seq<Happening>): State {
    if events == [] then FRESH else Happen(Run(events[..|events| - 1]), events[|events| - 1])
  }

  /** The committed chain is whole, the app holds a beginning of it, and the frontier is not above it. */
  ghost predicate Prefixed(s: State) {
    && StoreInv(s.store) && OneChain(s.store) && s.store.pruned.None?
    && Contiguous(s.app.durable)
    && (s.app.durable != [] ==>
          && s.app.durable[0] == 0
          && HighestHeight(s.store).Some? && Last(s.app.durable) <= HighestHeight(s.store).value)
    && (s.store.fed.Some? ==> HighestHeight(s.store).Some? && s.store.fed.value <= HighestHeight(s.store).value)
  }

  ghost predicate Upright(s: State) {
    Inv(s) && DurableInv(s) && WholeInv(s)
  }

  /** While up, the frontier is held as ever; while down, the app may hold less. */
  ghost predicate LossInv(s: State) {
    Prefixed(s) && (!s.pc.Down? ==> Upright(s))
  }

  lemma UprightIsPrefixed(s: State)
    requires Upright(s)
    ensures Prefixed(s)
  {
  }

  /** Everything from the resume height to the frontier is readable, so boot lowers to what the app holds. */
  lemma BootRightsItself(s: State)
    requires Prefixed(s) && s.pc.Down?
    ensures Upright(Step(s, Boot))
  {
    var t := Step(s, Boot);
    FedIsFree(s.store, t.store.fed);
    FedChangeKeepsChain(s.store, t.store.fed);
    if s.store.fed.Some? && s.app.ResumeHeight() <= s.store.fed.value {
      forall h | s.app.ResumeHeight() <= h <= s.store.fed.value ensures Readable(s.store, h) {}
    }
  }

  lemma HappenKeeps(s: State, e: Happening)
    requires LossInv(s) && (e.Do? ==> CommitOnly(e.change))
    ensures LossInv(Happen(s, e))
  {
    if e.LoseRecords? {
      if s.pc.Down? && e.keep < |s.app.durable| {
        var t := Happen(s, e);
        assert forall i | 0 <= i < |t.app.durable| :: t.app.durable[i] == s.app.durable[i];
      }
    } else if s.pc.Down? {
      if e.change.Boot? {
        BootRightsItself(s);
        UprightIsPrefixed(Step(s, Boot));
      }
    } else {
      StepKeepsInv(s, e.change);
      StepKeepsWhole(s, e.change);
      UprightIsPrefixed(Step(s, e.change));
    }
  }

  lemma {:induction false} RunKeeps(events: seq<Happening>)
    requires forall e | e in events && e.Do? :: CommitOnly(e.change)
    ensures LossInv(Run(events))
  {
    if events != [] {
      RunKeeps(events[..|events| - 1]);
      HappenKeeps(Run(events[..|events| - 1]), events[|events| - 1]);
    }
  }

  /**
   Over every run of commits, cut passes, latches, restarts and lost app records: the app holds
   heights 0, 1, 2, ... once each and nothing above the committed frontier, and whenever the process
   is up the fed frontier is below what the app holds.
   */
  lemma NeverSkippedDespiteLostRecords(events: seq<Happening>)
    requires forall e | e in events && e.Do? :: CommitOnly(e.change)
    ensures var s := Run(events);
      && s.app.durable == Range(0, |s.app.durable|)
      && (!s.pc.Down? && s.store.fed.Some? ==> s.store.fed.value < |s.app.durable|)
      && (s.app.durable != [] ==> HighestHeight(s.store).Some? && |s.app.durable| <= HighestHeight(s.store).value + 1)
  {
    RunKeeps(events);
  }

  /** Records lost below the frontier always make the next boot lower it, all the way to what is left. */
  lemma LossIsReconciled(events: seq<Happening>, keep: nat)
    requires forall e | e in events && e.Do? :: CommitOnly(e.change)
    requires var s := Run(events); s.pc.Down? && keep < |s.app.durable| && s.store.fed.Some? && keep <= s.store.fed.value
    ensures var lost := Happen(Run(events), LoseRecords(keep));
      && CanLower(lost.store, lost.app)
      && Step(lost, Boot).store.fed == if keep == 0 then None else Some(keep - 1)
  {
    hide Inv, DurableInv, WholeInv;
    RunKeeps(events);
    var s := Run(events);
    var lost := Happen(s, LoseRecords(keep));
    HappenKeeps(s, LoseRecords(keep));
    assert lost.app.ResumeHeight() == keep;
    forall h | keep <= h <= s.store.fed.value ensures Readable(lost.store, h) {}
  }

  /** One crash, boot and pass bring every committed height back, whatever records were lost before. */
  lemma LostRecordsAreRedelivered(events: seq<Happening>)
    requires forall e | e in events && e.Do? :: CommitOnly(e.change)
    requires HighestHeight(Run(events).store).Some?
    ensures var s := Run(events);
      var t := QuietPass(Step(Step(s, Crash), Boot));
      && t.app.durable == Range(0, HighestHeight(s.store).value + 1)
      && t.store == s.store.(fed := HighestHeight(s.store))
  {
    hide Prefixed, Inv, DurableInv, WholeInv, QuietPass, OneChain;
    RunKeeps(events);
    var s := Run(events);
    HappenKeeps(s, Do(Crash));
    BootRightsItself(Step(s, Crash));
    Rebooted(s);
    RecoverFrom(Step(Step(s, Crash), Boot));
  }

  /** A crash and a boot change the fed frontier of the tree and nothing else. */
  lemma Rebooted(s: State)
    ensures var up := Step(Step(s, Crash), Boot);
      && up.pc.Idle? && !up.app.latched && up.store == s.store.(fed := up.store.fed)
      && HighestHeight(up.store) == HighestHeight(s.store)
  {
  }

  // ------------------------------------------------------------------ with prunes, holes and repairs

  /** The frontier names a height the app lacks. */
  predicate Behind(s: Store, app: App) {
    s.fed.Some? && app.ResumeHeight() <= s.fed.value
  }

  /** The next height after the frontier would be delivered. */
  predicate NextReadable(s: Store) {
    s.fed.Some? && HighestHeight(s).Some? && s.fed.value < HighestHeight(s).value && Readable(s, s.fed.value + 1)
  }

  /** Checkable before a pass: the first height it would deliver is one the app can take. */
  ghost predicate TakesNext(s: Store, app: App) {
    if s.fed.Some? then app.durable == [] || s.fed.value + 1 <= app.ResumeHeight() || !NextReadable(s)
    else NoSkip(s, app)
  }

  /** A pass keeps what the app holds contiguous if and only if the app can take its first height, held frontier or not. */
  lemma PassContiguousIffTakesNext(s: State)
    requires s.pc.Idle? && !s.app.latched && StoreInv(s.store) && PassDue(s.store) && Contiguous(s.app.durable)
    ensures Contiguous(QuietPass(s).app.durable) <==> TakesNext(s.store, s.app)
  {
    if s.store.fed.None? {
      PassContiguousIffNoSkip(s);
    } else {
      hide QuietPass;
      PassDeliversMaximalRun(s);
      var x, e := PassStart(s.store), PassEnd(s.store);
      var held, after := s.app.durable, QuietPass(s).app.durable;
      var from := if x < s.app.ResumeHeight() then s.app.ResumeHeight() else x;
      assert after == held + Range(from, e);
      if held != [] && x > s.app.ResumeHeight() && NextReadable(s.store) {
        assert e > x && after[|held|] == x && after[0] == held[0];
      }
    }
  }

  /** What the app can take at the position of a running pass. */
  ghost predicate PositionInv(s: State) {
    match s.pc
    case Check(h) =>
      HighestHeight(s.store) == Some(s.loop.highest) && (!s.app.latched ==>
        if s.loop.anchored
        then s.app.durable == [] || h <= s.app.ResumeHeight() || h > s.loop.highest || !Readable(s.store, h)
        else NoSkipFrom(s.store, s.loop.highest, h, s.app))
    case Callback(h) =>
      && HighestHeight(s.store) == Some(s.loop.highest) && Readable(s.store, h)
      && (s.app.latched || s.app.durable == [] || h <= s.app.ResumeHeight())
    case Recheck(h) => HighestHeight(s.store) == Some(s.loop.highest) && (s.app.latched || s.app.Holds(h))
    case _ => true
  }

  ghost predicate GapInv(s: State) {
    StoreInv(s.store) && Contiguous(s.app.durable) && PositionInv(s)
  }

  lemma TickKeepsGap(s: State)
    requires GapInv(s) && (s.pc.Idle? && PassDue(s.store) ==> TakesNext(s.store, s.app))
    ensures GapInv(TickStep(s))
  {
    var t := TickStep(s);
    match s.pc
    case Callback(h) =>
      if !s.app.latched && !s.app.Holds(h) { assert t.app.durable == s.app.durable + [h]; }
    case Check(h) =>
      if !s.app.latched && h <= s.loop.highest && !s.loop.anchored && !Readable(s.store, h)
         && exists y :: h <= y <= s.app.ResumeHeight() && Readable(s.store, y) {
        var y :| h <= y <= s.app.ResumeHeight() && Readable(s.store, y);
        assert y != h;
      }
    case Write => FedIsFree(s.store, s.loop.lastFed);
    case _ =>
  }

  /** Any happening at all keeps it: commits, prunes, holes, repairs, latches, restarts, lost records. */
  lemma HappenKeepsGap(s: State, e: Happening)
    requires GapInv(s) && (e == Do(Tick) && s.pc.Idle? && PassDue(s.store) ==> TakesNext(s.store, s.app))
    ensures GapInv(Happen(s, e))
  {
    match e
    case LoseRecords(k) =>
      if s.pc.Down? && k < |s.app.durable| {
        assert forall i | 0 <= i < k :: s.app.durable[..k][i] == s.app.durable[i];
      }
    case Do(l) =>
      if l.Tick? {
        TickKeepsGap(s);
      } else if l.Boot? {
        FedIsFree(s.store, LowerFed(s.store, s.app).fed);
      } else if l.Commit? && s.pc.Idle? {
        CommitKeepsOneChain(s.store, l.target);
      } else if l.Prune? && s.pc.Idle? {
        PruneKeepsOneChain(s.store, l.retention);
      } else if !l.Latch? && !l.Crash? && s.pc.Idle? {
        LossOrRepairKeepsStoreInv(s, l);
      }
  }

  /** Every pass of the run starts where the app can take the first height it would deliver. */
  ghost predicate EachPassTakesNext(events: seq<Happening>) {
    forall k | 0 <= k < |events| && events[k] == Do(Tick) ::
      var s := Run(events[..k]);
      s.pc.Idle? && PassDue(s.store) ==> TakesNext(s.store, s.app)
  }

  /**
   With prunes, holes, repairs, latches, restarts and lost records in any order: as long as every
   pass starts where the app can take the first height it would deliver, what the app durably holds
   stays one ascending run.
   */
  lemma {:induction false} GuardedLossIsContiguous(events: seq<Happening>)
    requires EachPassTakesNext(events)
    ensures GapInv(Run(events))
  {
    if events != [] {
      var before := events[..|events| - 1];
      forall k | 0 <= k < |before| ensures before[..k] == events[..k] && before[k] == events[k] {}
      assert events[..|before|] == before;
      GuardedLossIsContiguous(before);
      HappenKeepsGap(Run(before), events[|events| - 1]);
    }
  }

  /**
   Records lost below the frontier, over any store: the boot lowers the frontier if and only if the
   whole gap is readable, and the boot and the pass after it keep the app contiguous if and only if
   it did, or the app has nothing left, or the next height cannot be read either.
   */
  lemma LossContiguousIff(s: State)
    requires s.pc.Down? && StoreInv(s.store) && Contiguous(s.app.durable) && Behind(s.store, s.app)
    ensures var t, gap := Step(s, Boot), AllReadable(s.store, s.app.ResumeHeight(), s.store.fed.value);
      && (t.store != s.store <==> gap)
      && (PassDue(t.store) ==>
            (Contiguous(QuietPass(t).app.durable) <==> gap || s.app.durable == [] || !NextReadable(s.store)))
  {
    hide QuietPass;
    var t := Step(s, Boot);
    BootReconcileOnlyLowers(s);
    FedIsFree(s.store, t.store.fed);
    if PassDue(t.store) {
      PassContiguousIffTakesNext(t);
    }
  }
}
