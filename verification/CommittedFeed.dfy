/**
 The committed-block feed: the small-step machine of the algorithm thread, the app it
 feeds, crashes, restarts and the fail-stop latch. The process may die between any two
 steps and the latch may fire between any two steps.
 */
module CommittedFeed {
  import opened Options
  import opened BlockTree

  // ------------------------------------------------------------------ the app

  /** `durable` survives a restart; the latch and the refused heights do not. */
  datatype App = App(durable: seq<nat>, latched: bool, refused: seq<nat>) {
    predicate Holds(h: nat) {
      durable != [] && h <= durable[|durable| - 1]
    }

    /** A latched app refuses; a height at or below its top is a benign re-delivery. */
    function OnCommittedBlock(h: nat): App {
      if latched then this.(refused := refused + [h])
      else if Holds(h) then this
      else this.(durable := durable + [h])
    }

    /** The lowest height the app does not hold: just above its top. */
    function ResumeHeight(): nat {
      if durable == [] then 0 else durable[|durable| - 1] + 1
    }

    function Restarted(): App {
      App(durable, false, [])
    }
  }

  /** A run of heights without a gap, each once, ascending. */
  ghost predicate Contiguous(s: seq<nat>) {
    forall i | 0 <= i < |s| :: s[i] == s[0] + i
  }

  ghost function Range(lo: nat, hi: nat): (r: seq<nat>)
    ensures |r| == if lo < hi then hi - lo else 0
    ensures forall i | 0 <= i < |r| :: r[i] == lo + i
  {
    if lo < hi then seq(hi - lo, i requires 0 <= i => lo + i) else []
  }

  // ------------------------------------------------------------------ the feed, step by step

  /** `Down`: no process. `Check(h)`: about to look at height h, and so on through one loop pass. */
  datatype Pc = Down | Idle | Check(h: nat) | Callback(h: nat) | Recheck(h: nat) | Write

  /** The loop's volatile variables. */
  datatype Loop = Loop(highest: nat, anchored: bool, lastFed: Option<nat>, delivered: nat)

  /** `calls` logs every callback since the last boot. */
  datatype State = State(store: Store, app: App, pc: Pc, loop: Loop, calls: seq<nat>)

  const NO_LOOP := Loop(0, false, None, 0)
  const FRESH := State(EMPTY_STORE, App([], false, []), Down, NO_LOOP, [])

  /** `Tick` is one step of the algorithm thread inside the feed. */
  datatype Label =
    | Tick
    | Latch
    | Crash
    | Boot
    | Insert(hash: Hash, block: Block)
    | Commit(target: Hash)
    | Prune(retention: nat)
    | LoseIndex(height: nat)
    | LoseBlock(height: nat)
    | HealIndex(height: nat, hash: Hash)

  function Start(s: Store): nat {
    if s.fed.Some? then s.fed.value + 1 else Lowest(s)
  }

  /** Whether a pass has anything to look at. */
  predicate PassDue(s: Store) {
    HighestHeight(s).Some? && (s.fed.None? || s.fed.value < HighestHeight(s).value)
  }

  function TickStep(s: State): State {
    match s.pc
    case Down => s
    case Idle =>
      if PassDue(s.store)
      then s.(pc := Check(Start(s.store)),
              loop := Loop(HighestHeight(s.store).value, s.store.fed.Some?, None, 0))
      else s
    case Check(h) =>
      if h > s.loop.highest || s.app.latched then s.(pc := Write)
      else if Readable(s.store, h) then s.(pc := Callback(h))
      else if s.loop.anchored then s.(pc := Write)
      else s.(pc := Check(h + 1))
    case Callback(h) =>
      if Readable(s.store, h) then
        var height := s.store.blocks[s.store.index[h]].height;
        s.(app := s.app.OnCommittedBlock(height), calls := s.calls + [height], pc := Recheck(h))
      else s.(pc := Write)
    case Recheck(h) =>
      if s.app.latched then s.(pc := Write)
      else s.(pc := Check(h + 1),
              loop := s.loop.(anchored := true, lastFed := Some(h), delivered := s.loop.delivered + 1))
    case Write =>
      if s.loop.lastFed.Some?
      then s.(store := s.store.(fed := s.loop.lastFed), pc := Idle)
      else s.(pc := Idle)
  }

  /** Whether every height of lo..=hi can be read. */
  ghost predicate AllReadable(s: Store, lo: nat, hi: nat) {
    forall h | lo <= h <= hi :: Readable(s, h)
  }

  /** The boot reconcile: lower a frontier the app never reached, if the gap can be re-delivered. */
  ghost function LowerFedTo(s: Store, resume: Option<nat>): Store {
    if resume.None? || s.fed.None? || s.fed.value < resume.value || !AllReadable(s, resume.value, s.fed.value) then s
    else if resume.value == 0 then s.(fed := None)
    else s.(fed := Some(resume.value - 1))
  }

  ghost function LowerFed(s: Store, app: App): Store {
    LowerFedTo(s, Some(app.ResumeHeight()))
  }

  ghost function Step(s: State, l: Label): State {
    match l
    case Tick => TickStep(s)
    case Latch => if s.pc.Down? then s else s.(app := s.app.(latched := true))
    case Crash => s.(pc := Down, loop := NO_LOOP)
    case Boot =>
      if !s.pc.Down? then s
      else s.(app := s.app.Restarted(), store := LowerFed(s.store, s.app), pc := Idle, calls := [])
    case Insert(b, block) =>
      if s.pc.Idle? && b !in s.store.blocks && Linked(s.store.(blocks := s.store.blocks[b := block]))
         && (forall h | h in s.store.index && s.store.index[h] == b :: h == block.height)
      then s.(store := s.store.(blocks := s.store.blocks[b := block]))
      else s
    case Commit(b) =>
      if s.pc.Idle? && Linked(s.store) then s.(store := CommitStore(s.store, b)) else s
    case Prune(r) =>
      if s.pc.Idle? then s.(store := PruneStore(s.store, r)) else s
    case LoseIndex(h) =>
      if s.pc.Idle? then s.(store := s.store.(index := s.store.index - {h})) else s
    case LoseBlock(h) =>
      if s.pc.Idle? && h in s.store.index && s.store.highest != Some(s.store.index[h])
      then s.(store := s.store.(blocks := s.store.blocks - {s.store.index[h]})) else s
    case HealIndex(h, b) =>
      if s.pc.Idle? && h !in s.store.index && b in s.store.blocks && s.store.blocks[b].height == h
         && Lowest(s.store) <= h && HighestHeight(s.store).Some? && h <= HighestHeight(s.store).value
      then s.(store := s.store.(index := s.store.index[h := b])) else s
  }

  ghost function Exec(s: State, labels: seq<Label>): State
    decreases |labels|
  {
    if labels == [] then s
    else Step(Exec(s, labels[..|labels| - 1]), labels[|labels| - 1])
  }
}
