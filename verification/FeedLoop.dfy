/** The feed's loops on the mutable block tree and app, proved equal to the passes of the machine. */
module FeedLoop {
  import opened Options
  import opened BlockTree
  import opened CommittedFeed
  import opened FeedPasses
  import opened FeedLatch

  class LatchingApp {
    var durable: seq<nat>
    var latched: bool
    var refused: seq<nat>

    function Value(): App reads this {
      App(durable, latched, refused)
    }

    method OnCommittedBlock(h: nat)
      modifies this
      ensures Value() == old(Value()).OnCommittedBlock(h)
    {
      if latched {
        refused := refused + [h];
        return;
      }
      if durable != [] && h <= durable[|durable| - 1] {
        return;
      }
      durable := durable + [h];
    }

    /** The fail-stop latch of the execution thread, where `now` says it fires. */
    method MaybeLatch(now: bool)
      modifies this`latched
      ensures latched == (old(latched) || now)
    {
      if now {
        latched := true;
      }
    }
  }

  /** The machine standing idle over a tree and an app. */
  function AtRest(store: Store, app: App): State {
    State(store, app, Idle, NO_LOOP, [])
  }

  /** The position after the latch may have fired and the thread has taken one step. */
  ghost function Advance(s: State, latch: Pc -> bool): State {
    TickStep(Fired(s, latch))
  }

  lemma IdleIsOver(s: State, latch: Pc -> bool)
    requires s.pc.Idle?
    ensures RunPass(s, latch) == s
  {
  }

  lemma AdvanceKeepsOutcome(s: State, latch: Pc -> bool)
    requires !s.pc.Idle? && !s.pc.Down?
    ensures RunPass(Advance(s, latch), latch) == RunPass(s, latch)
  {
  }

  function Latched(app: App, now: bool): App {
    app.(latched := app.latched || now)
  }

  /** The app after one callback at height `h`, with the latch free to fire before and after it. */
  function AfterCallback(app: App, height: nat, h: nat, latch: Pc -> bool): App {
    Latched(Latched(app, latch(Callback(h))).OnCommittedBlock(height), latch(Recheck(h)))
  }

  /** What the thread decides at height `h`. */
  function CheckOutcome(s: State, h: nat, latch: Pc -> bool): State {
    var t := s.(app := Latched(s.app, latch(Check(h))));
    if h > s.loop.highest || t.app.latched then t.(pc := Write)
    else if Readable(s.store, h) then t.(pc := Callback(h))
    else if s.loop.anchored then t.(pc := Write)
    else t.(pc := Check(h + 1))
  }

  /** Where the callback at a readable height leads: out of the loop, or on to the next height. */
  function CallbackOutcome(s: State, h: nat, height: nat, latch: Pc -> bool): State {
    var t := s.(app := AfterCallback(s.app, height, h, latch), calls := s.calls + [height]);
    if t.app.latched then t.(pc := Write)
    else t.(pc := Check(h + 1), loop := s.loop.(anchored := true, lastFed := Some(h), delivered := s.loop.delivered + 1))
  }

  function WriteOutcome(s: State, latch: Pc -> bool): State {
    s.(app := Latched(s.app, latch(Write)), pc := Idle,
       store := s.store.(fed := if s.loop.lastFed.Some? then s.loop.lastFed else s.store.fed))
  }

  lemma CheckKeepsOutcome(s: State, h: nat, latch: Pc -> bool)
    requires s.pc == Check(h)
    ensures RunPass(CheckOutcome(s, h, latch), latch) == RunPass(s, latch)
  {
    hide RunPass;
    AdvanceKeepsOutcome(s, latch);
    assert Advance(s, latch) == CheckOutcome(s, h, latch);
  }

  lemma CallbackKeepsOutcome(s: State, h: nat, latch: Pc -> bool)
    requires s.pc == Callback(h) && Readable(s.store, h)
    ensures RunPass(CallbackOutcome(s, h, s.store.blocks[s.store.index[h]].height, latch), latch) == RunPass(s, latch)
  {
    hide RunPass;
    var height := s.store.blocks[s.store.index[h]].height;
    var b := s.(app := Latched(s.app, latch(Callback(h))).OnCommittedBlock(height),
                calls := s.calls + [height], pc := Recheck(h));
    AdvanceKeepsOutcome(s, latch);
    assert Advance(s, latch) == b;
    RecheckKeepsOutcome(b, h, latch);
  }

  lemma RecheckKeepsOutcome(s: State, h: nat, latch: Pc -> bool)
    requires s.pc == Recheck(h)
    ensures var t := s.(app := Latched(s.app, latch(Recheck(h))));
      RunPass(s, latch) == RunPass(
        if t.app.latched then t.(pc := Write)
        else t.(pc := Check(h + 1), loop := s.loop.(anchored := true, lastFed := Some(h),
            delivered := s.loop.delivered + 1)),
        latch)
  {
    hide RunPass;
    AdvanceKeepsOutcome(s, latch);
  }

  lemma WriteEndsPass(s: State, latch: Pc -> bool)
    requires s.pc.Write?
    ensures RunPass(s, latch) == WriteOutcome(s, latch)
  {
    hide RunPass;
    AdvanceKeepsOutcome(s, latch);
    assert Advance(s, latch) == WriteOutcome(s, latch);
    IdleIsOver(Advance(s, latch), latch);
  }

  /** Deliver one block, reporting whether the app is halted afterwards. */
  method DeliverBlock(app: LatchingApp, height: nat, h: nat, latch: Pc -> bool) returns (halted: bool)
    modifies app
    ensures app.Value() == AfterCallback(old(app.Value()), height, h, latch)
    ensures halted == app.latched
  {
    app.MaybeLatch(latch(Callback(h)));
    app.OnCommittedBlock(height);
    app.MaybeLatch(latch(Recheck(h)));
    halted := app.latched;
  }

  /**
   One pass. `latch` says at which positions of the loop the execution thread latches the app.
   */
  method FeedCommittedBlocksToApp(tree: Tree, app: LatchingApp, latch: Pc -> bool) returns (delivered: nat)
    modifies tree`fed, app
    ensures var t := RunPass(TickStep(AtRest(old(tree.Durable()), old(app.Value()))), latch);
      && tree.Durable() == t.store
      && app.Value() == t.app
      && delivered == t.loop.delivered
    ensures PassResult(old(tree.Durable()), old(app.Value()), tree.Durable(), app.Value(), delivered)
  {
    hide RunPass, PassResult;
    LatchedPassFeeds(AtRest(tree.Durable(), app.Value()), latch);
    delivered := 0;
    if HighestHeight(tree.Durable()).None? {
      IdleIsOver(AtRest(tree.Durable(), app.Value()), latch);
      return;
    }
    var highest := HighestHeight(tree.Durable()).value;
    if tree.fed.Some? && tree.fed.value >= highest {
      IdleIsOver(AtRest(tree.Durable(), app.Value()), latch);
      return;
    }
    var h := if tree.fed.Some? then tree.fed.value + 1 else tree.pruned.UnwrapOr(0);
    var anchored := tree.fed.Some?;
    var lastFed: Option<nat> := None;
    ghost var start := TickStep(AtRest(tree.Durable(), app.Value()));
    ghost var store := tree.Durable();
    ghost var cur := start;
    while true
      invariant tree.Durable() == store
      invariant RunPass(cur, latch) == RunPass(start, latch)
      invariant cur == State(store, app.Value(), Check(h), Loop(highest, anchored, lastFed, delivered), cur.calls)
      decreases if h <= highest then highest + 1 - h else 0
    {
      CheckKeepsOutcome(cur, h, latch);
      cur := CheckOutcome(cur, h, latch);
      app.MaybeLatch(latch(Check(h)));
      if h > highest || app.latched {
        break;
      }
      if !Readable(tree.Durable(), h) {
        if anchored {
          break;
        }
        h := h + 1;
        continue;
      }
      var height := tree.blocks[tree.index[h]].height;
      CallbackKeepsOutcome(cur, h, latch);
      cur := CallbackOutcome(cur, h, height, latch);
      var halted := DeliverBlock(app, height, h, latch);
      if halted {
        break;
      }
      anchored := true;
      lastFed := Some(h);
      delivered := delivered + 1;
      h := h + 1;
    }
    assert cur == State(store, app.Value(), Write, Loop(highest, anchored, lastFed, delivered), cur.calls);
    WriteEndsPass(cur, latch);
    app.MaybeLatch(latch(Write));
    if lastFed.Some? {
      tree.fed := lastFed;
    }
  }

  /** Lower the fed frontier to the app's, when every height in between can be read. */
  method LowerFedFrontierToApp(tree: Tree, resume: Option<nat>) returns (lowered: bool)
    modifies tree`fed
    ensures tree.Durable() == LowerFedTo(old(tree.Durable()), resume)
    ensures lowered == (tree.fed != old(tree.fed))
    ensures lowered <==>
      && resume.Some? && old(tree.fed).Some? && resume.value <= old(tree.fed).value
      && AllReadable(old(tree.Durable()), resume.value, old(tree.fed).value)
    ensures lowered ==> tree.fed == if resume.value == 0 then None else Some(resume.value - 1)
    ensures resume.None? ==> tree.Durable() == old(tree.Durable())
  {
    if resume.None? || tree.fed.None? || tree.fed.value < resume.value {
      return false;
    }
    var h := resume.value;
    while h <= tree.fed.value
      invariant h <= tree.fed.value + 1
      invariant forall k | resume.value <= k < h :: Readable(tree.Durable(), k)
    {
      if !Readable(tree.Durable(), h) {
        return false;
      }
      h := h + 1;
    }
    tree.fed := if resume.value == 0 then None else Some(resume.value - 1);
    return true;
  }

  /** The boot pass: reconcile, then feed. */
  method BootFeedCommittedBlocksToApp(tree: Tree, app: LatchingApp, latch: Pc -> bool) returns (delivered: nat)
    modifies tree`fed, app
    ensures var s := AtRest(LowerFed(old(tree.Durable()), old(app.Value())), old(app.Value()));
      var t := RunPass(TickStep(s), latch);
      && tree.Durable() == t.store
      && app.Value() == t.app
      && delivered == t.loop.delivered
  {
    var resume := app.Value().ResumeHeight();
    var _ := LowerFedFrontierToApp(tree, Some(resume));
    delivered := FeedCommittedBlocksToApp(tree, app, latch);
  }
}
