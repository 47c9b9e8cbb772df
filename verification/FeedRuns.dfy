/** What every run of the feed keeps, whatever the schedule of commits, crashes, latches and losses. */
module FeedRuns {
  import opened Options
  import opened BlockTree
  import opened CommittedFeed

  function Last(s: seq<nat>): nat
    requires s != []
  {
    s[|s| - 1]
  }

  // ------------------------------------------------------------------ invariant of every run

  /** The position of a running pass: everything counted so far is held by the app. */
  ghost predicate PassInv(s: State) {
    && (s.loop.lastFed.Some? ==> s.app.Holds(s.loop.lastFed.value))
    && HighestHeight(s.store) == Some(s.loop.highest)
    && (s.store.fed.Some? ==> s.loop.anchored)
  }

  /** Height `h` is the next one the pass may count. */
  ghost predicate AtHeight(s: State, h: nat) {
    && (s.loop.lastFed.Some? ==> s.loop.anchored && h == s.loop.lastFed.value + 1)
    && (s.loop.lastFed.None? && s.loop.anchored ==> s.store.fed.Some? && h == s.store.fed.value + 1)
    && (s.store.fed.Some? ==> s.store.fed.value < h)
  }

  ghost predicate PcInv(s: State) {
    match s.pc
    case Down => true
    case Idle => s.calls != [] ==> s.app.latched || s.store.fed == Some(Last(s.calls))
    case Check(h) =>
      && PassInv(s) && AtHeight(s, h)
      && (s.calls != [] ==> s.app.latched || (s.loop.anchored && h == Last(s.calls) + 1))
    case Callback(h) =>
      && PassInv(s) && AtHeight(s, h) && Readable(s.store, h) && h <= s.loop.highest
      && (s.calls != [] ==> h == Last(s.calls) + 1)
    case Recheck(h) =>
      && PassInv(s) && AtHeight(s, h) && h <= s.loop.highest
      && (s.app.latched || s.app.Holds(h))
      && s.calls != [] && Last(s.calls) == h
    case Write =>
      && PassInv(s)
      && (s.calls != [] ==> s.app.latched || s.loop.lastFed == Some(Last(s.calls))
                            || (s.loop.lastFed.None? && s.store.fed == Some(Last(s.calls))))
  }

  /** A refused height is above everything counted or about to be counted. */
  ghost predicate RefusedInv(s: State) {
    forall x | x in s.app.refused && !s.pc.Down? ::
      && s.app.latched
      && (s.store.fed.Some? ==> s.store.fed.value < x)
      && (!s.pc.Idle? && s.loop.lastFed.Some? ==> s.loop.lastFed.value < x)
      && !s.pc.Callback?
  }

  ghost predicate Inv(s: State) {
    && StoreInv(s.store)
    && Contiguous(s.calls)
    && (s.store.fed.Some? ==> s.app.Holds(s.store.fed.value))
    && PcInv(s)
    && RefusedInv(s)
  }

  /** The fed frontier is no part of the store invariant. */
  lemma FedIsFree(s: Store, fed: Option<nat>)
    requires StoreInv(s)
    ensures StoreInv(s.(fed := fed)) && HighestHeight(s.(fed := fed)) == HighestHeight(s)
  {
    var t := s.(fed := fed);
    assert HighestHeight(t) == HighestHeight(s);
    forall h: nat | Readable(t, h) ensures t.blocks[t.index[h]].height == h { assert Readable(s, h); }
  }

  lemma CallbackKeepsInv(s: State)
    requires Inv(s) && s.pc.Callback?
    ensures Inv(TickStep(s))
  {
    var t := TickStep(s);
    assert t.calls == s.calls + [s.pc.h];
    assert t.app.refused == if s.app.latched then s.app.refused + [s.pc.h] else s.app.refused;
  }

  lemma WriteKeepsInv(s: State)
    requires Inv(s) && s.pc.Write?
    ensures Inv(TickStep(s))
  {
    FedIsFree(s.store, s.loop.lastFed);
  }

  lemma TickKeepsInv(s: State)
    requires Inv(s)
    ensures Inv(TickStep(s))
  {
    if s.pc.Callback? {
      CallbackKeepsInv(s);
    } else if s.pc.Write? {
      WriteKeepsInv(s);
    } else {
      var t := TickStep(s);
      assert t.store == s.store && t.app == s.app && t.calls == s.calls;
    }
  }

  /** A commit, a prune, a loss or a repair changes the store alone, and not the fed frontier. */
  lemma StoreStepKeepsInv(s: State, l: Label)
    requires Inv(s) && s.pc.Idle?
    requires l.Insert? || l.Commit? || l.Prune? || l.LoseIndex? || l.LoseBlock? || l.HealIndex?
    ensures Inv(Step(s, l))
    ensures Step(s, l) == s.(store := Step(s, l).store) && Step(s, l).store.fed == s.store.fed
  {
    if l.Commit? {
      CommitKeepsOneChain(s.store, l.target);
    } else if l.Prune? {
      PruneKeepsOneChain(s.store, l.retention);
    } else {
      LossOrRepairKeepsStoreInv(s, l);
    }
  }

  lemma LossOrRepairKeepsStoreInv(s: State, l: Label)
    requires StoreInv(s.store) && s.pc.Idle?
    requires l.Insert? || l.LoseIndex? || l.LoseBlock? || l.HealIndex?
    ensures StoreInv(Step(s, l).store) && Step(s, l).store.fed == s.store.fed
  {
    var t := Step(s, l);
    assert HighestHeight(t.store) == HighestHeight(s.store);
    forall h: nat | Readable(t.store, h) ensures t.store.blocks[t.store.index[h]].height == h {
      if h in s.store.index && s.store.index[h] in s.store.blocks { assert Readable(s.store, h); }
    }
  }

  lemma BootKeepsInv(s: State)
    requires Inv(s) && s.pc.Down?
    ensures Inv(Step(s, Boot))
  {
    var lowered := LowerFed(s.store, s.app);
    FedIsFree(s.store, lowered.fed);
    assert lowered == s.store.(fed := lowered.fed);
  }

  lemma StepKeepsInv(s: State, l: Label)
    requires Inv(s)
    ensures Inv(Step(s, l))
  {
    if l.Tick? {
      TickKeepsInv(s);
    } else if l.Boot? {
      if s.pc.Down? { BootKeepsInv(s); }
    } else if !l.Latch? && !l.Crash? && s.pc.Idle? {
      StoreStepKeepsInv(s, l);
    }
  }

  lemma ExecKeepsInv(labels: seq<Label>)
    ensures Inv(Exec(FRESH, labels))
  {
    if labels != [] {
      ExecKeepsInv(labels[..|labels| - 1]);
      StepKeepsInv(Exec(FRESH, labels[..|labels| - 1]), labels[|labels| - 1]);
    }
  }

  /**
   The delivery contract within one process life, in every run at all: the callbacks since the
   last boot are one ascending run of heights with no gap and no repetition, the durable frontier
   never names a height the app does not hold, and every refused height stays above it.
   */
  lemma {:induction false} DeliveryContract(labels: seq<Label>)
    ensures var s := Exec(FRESH, labels);
      && Contiguous(s.calls)
      && (s.store.fed.Some? ==> s.app.Holds(s.store.fed.value))
      && (!s.pc.Down? ==> forall x | x in s.app.refused :: s.store.fed.None? || s.store.fed.value < x)
  {
    ExecKeepsInv(labels);
  }

  // ------------------------------------------------------------------ never skipped

  /** From height `h` on, the first readable height is one the app can take without a gap. */
  ghost predicate NoSkipFrom(s: Store, hi: nat, h: nat, app: App) {
    || app.durable == []
    || (exists y | h <= y <= app.ResumeHeight() :: Readable(s, y))
    || (forall x | h <= x <= hi :: !Readable(s, x))
  }

  /** Checkable before a pass: an unanchored pass will not jump over a height the app still needs. */
  ghost predicate NoSkip(s: Store, app: App) {
    s.fed.Some? || HighestHeight(s).None? || NoSkipFrom(s, HighestHeight(s).value, Lowest(s), app)
  }

  ghost predicate DurableInv(s: State) {
    && Contiguous(s.app.durable)
    && (s.pc.Check? && !s.loop.anchored && !s.app.latched ==>
          NoSkipFrom(s.store, s.loop.highest, s.pc.h, s.app))
    && (s.pc.Callback? && s.app.durable != [] ==> s.pc.h <= s.app.ResumeHeight())
  }

  /** Every pass of the run starts where it cannot skip. */
  ghost predicate Guarded(labels: seq<Label>) {
    forall k | 0 <= k < |labels| && labels[k].Tick? && Exec(FRESH, labels[..k]).pc.Idle? ::
      NoSkip(Exec(FRESH, labels[..k]).store, Exec(FRESH, labels[..k]).app)
  }

  lemma StepKeepsDurable(s: State, l: Label)
    requires Inv(s) && DurableInv(s)
    requires l.Tick? && s.pc.Idle? ==> NoSkip(s.store, s.app)
    ensures DurableInv(Step(s, l))
  {
    var t := Step(s, l);
    if l.Tick? && s.pc.Callback? {
      CallbackKeepsInv(s);
      if !s.app.latched && !s.app.Holds(s.pc.h) {
        assert t.app.durable == s.app.durable + [s.pc.h];
      }
    } else if l.Tick? && s.pc.Check? && !s.loop.anchored && !s.app.latched && s.pc.h <= s.loop.highest {
      if !Readable(s.store, s.pc.h) && exists y :: s.pc.h <= y <= s.app.ResumeHeight() && Readable(s.store, y) {
        var y :| s.pc.h <= y <= s.app.ResumeHeight() && Readable(s.store, y);
        assert y != s.pc.h;
      }
    } else if !l.Tick? && s.pc.Idle? && !l.Latch? && !l.Crash? && !l.Boot? {
      StoreStepKeepsInv(s, l);
    }
  }

  /**
   With any losses, prunes and repairs: as long as no pass starts over a tree whose first readable
   height the app cannot take, what the app durably holds stays one ascending run.
   */
  lemma {:induction false} GuardedRunIsContiguous(labels: seq<Label>)
    requires Guarded(labels)
    ensures DurableInv(Exec(FRESH, labels))
  {
    if labels != [] {
      var init := labels[..|labels| - 1];
      forall k | 0 <= k < |init| ensures init[..k] == labels[..k] && init[k] == labels[k] {}
      GuardedRunIsContiguous(init);
      ExecKeepsInv(init);
      StepKeepsDurable(Exec(FRESH, init), labels[|labels| - 1]);
    }
  }

  /** A run of commits, passes, latches, crashes and restarts: no prune, nothing lost. */
  predicate CommitOnly(l: Label) {
    l.Tick? || l.Latch? || l.Crash? || l.Boot? || l.Insert? || l.Commit?
  }

  /** The committed chain is whole and what the app holds is a prefix of it, from height 0. */
  ghost predicate WholeInv(s: State) {
    && OneChain(s.store) && s.store.pruned.None?
    && (s.app.durable != [] ==>
          && s.app.durable[0] == 0
          && HighestHeight(s.store).Some? && Last(s.app.durable) <= HighestHeight(s.store).value)
    && (s.pc.Check? && !s.loop.anchored ==> s.pc.h == 0)
    && (s.pc.Callback? && s.app.durable == [] ==> s.pc.h == 0)
  }

  lemma WholeNeverSkips(s: State)
    requires Inv(s) && WholeInv(s)
    ensures NoSkip(s.store, s.app)
  {
    if HighestHeight(s.store).Some? {
      assert Readable(s.store, 0);
    }
  }

  lemma InsertKeepsOneChain(s: State, l: Label)
    requires Inv(s) && OneChain(s.store) && l.Insert?
    ensures OneChain(Step(s, l).store) && HighestHeight(Step(s, l).store) == HighestHeight(s.store)
  {
    var t := Step(s, l).store;
    if t != s.store && HighestHeight(s.store).Some? {
      forall h: nat | Readable(s.store, h) ensures Readable(t, h) {}
      forall h | 0 < h <= HighestHeight(s.store).value && Lowest(t) < h && Readable(t, h) && Readable(t, h - 1)
        ensures t.blocks[t.index[h]].justify == Some(t.index[h - 1])
      {
        assert Readable(s.store, h);
        assert Readable(s.store, h - 1);
      }
    }
  }

  lemma StepKeepsWhole(s: State, l: Label)
    requires Inv(s) && DurableInv(s) && WholeInv(s) && CommitOnly(l)
    ensures WholeInv(Step(s, l)) && DurableInv(Step(s, l))
  {
    WholeNeverSkips(s);
    StepKeepsDurable(s, l);
    if l.Insert? {
      InsertKeepsOneChain(s, l);
    } else if l.Commit? {
      if s.pc.Idle? {
        CommitKeepsOneChain(s.store, l.target);
        CommitRaisesFrontier(s.store, l.target);
      }
    } else if l.Tick? {
      TickKeepsWhole(s);
    } else if l.Boot? {
      FedChangeKeepsChain(s.store, LowerFed(s.store, s.app).fed);
    }
  }

  lemma FedChangeKeepsChain(s: Store, fed: Option<nat>)
    requires OneChain(s)
    ensures OneChain(s.(fed := fed)) && HighestHeight(s.(fed := fed)) == HighestHeight(s)
  {
    var t := s.(fed := fed);
    assert HighestHeight(t) == HighestHeight(s);
    forall h: nat ensures Readable(t, h) <==> Readable(s, h) {}
  }

  lemma CommitRaisesFrontier(s: Store, target: Hash)
    requires StoreInv(s)
    ensures HighestHeight(s).Some? ==>
      var t := CommitStore(s, target); HighestHeight(t).Some? && HighestHeight(s).value <= HighestHeight(t).value
  {
    CommitKeepsOneChain(s, target);
    var t := CommitStore(s, target);
    if t != s {
      var w := CommitDecision(s, target).hashes;
      WalkInTree(s, target, HighestHeight(s));
      if HighestHeight(s).Some? { assert w[0] in w; }
    }
  }

  lemma TickKeepsWhole(s: State)
    requires Inv(s) && DurableInv(s) && WholeInv(s)
    ensures WholeInv(TickStep(s))
  {
    if s.pc.Write? {
      FedChangeKeepsChain(s.store, s.loop.lastFed);
    } else if s.pc.Check? && !s.loop.anchored && s.pc.h <= s.loop.highest {
      assert Readable(s.store, 0);
    }
  }

  lemma CommitOnlyKeepsWhole(labels: seq<Label>)
    requires forall l | l in labels :: CommitOnly(l)
    ensures var s := Exec(FRESH, labels); Inv(s) && DurableInv(s) && WholeInv(s)
  {
    ExecKeepsInv(labels);
    if labels != [] {
      var init := labels[..|labels| - 1];
      forall l | l in init ensures CommitOnly(l) {}
      CommitOnlyKeepsWhole(init);
      ExecKeepsInv(init);
      StepKeepsWhole(Exec(FRESH, init), labels[|labels| - 1]);
    }
  }

  /**
   Over every run of commits, passes cut at any point, latches and restarts from a fresh store:
   the app durably holds heights 0, 1, 2, ... with no gap and no repetition, nothing above the
   committed frontier, the frontier never passes what it holds, and once the fed frontier has
   reached the committed one the app holds exactly the committed heights.
   */
  lemma {:induction false} NeverSkippedNeverRepeated(labels: seq<Label>)
    requires forall l | l in labels :: CommitOnly(l)
    ensures var s := Exec(FRESH, labels);
      && s.app.durable == Range(0, |s.app.durable|)
      && (s.store.fed.Some? ==> s.store.fed.value < |s.app.durable|)
      && (s.app.durable != [] ==> HighestHeight(s.store).Some? && |s.app.durable| <= HighestHeight(s.store).value + 1)
      && (s.store.fed.Some? && s.store.fed == HighestHeight(s.store) ==>
            s.app.durable == Range(0, HighestHeight(s.store).value + 1))
  {
    CommitOnlyKeepsWhole(labels);
  }
}
