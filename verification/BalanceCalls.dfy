/**
 The balance cache over one whole execution call: loads, sets, merged workers and flushes, then at
 most one undo region, which is rolled back and replayed or committed. The executor makes a fresh
 cache per call and opens one region on it, so the marks a commit leaves are never met.
 */
module BalanceCalls {
  import opened Options
  import opened BalanceCache
  import opened BalanceUndo

  // ------------------------------------------------------------------ runs of the flag form

  datatype Machine = Machine(cache: Flagged, backend: Backend)

  datatype Action =
    | DoLoad(addr: Address, read: Option<Fault>)
    | DoSet(addr: Address, balance: Balance)
    | DoMerge(worker: Flagged)
    | DoFlush(fail: Option<nat>)

  /** No region is open, no entry is marked as logged and no fault is latched. */
  predicate Unmarked(c: Flagged) {
    c.undo.None? && c.latched == map[] && forall a | a in c.entries :: !c.entries[a].logged
  }

  /** What the cache and the backend hold together. */
  ghost function Abs(m: Machine): State {
    State(SetForm(m.cache), m.backend)
  }

  ghost predicate Sound(m: Machine) {
    FlagsMatch(m.cache) && Unmarked(m.cache) && Coherent(SetForm(m.cache), m.backend.rows)
  }

  /** A worker has its own senders and reads the same rows, and opens no region. */
  ghost predicate ActionOk(m: Machine, act: Action) {
    act.DoMerge? ==>
      && FlagsMatch(act.worker) && Unmarked(act.worker) && act.worker.entries.Keys !! m.cache.entries.Keys
      && Coherent(SetForm(act.worker), m.backend.rows)
  }

  ghost function Act(m: Machine, act: Action): Machine
    requires Sound(m)
  {
    match act
    case DoLoad(a, read) => m.(cache := FlagLoad(m.cache, m.backend.rows, a, read))
    case DoSet(a, b) => m.(cache := FlagSet(m.cache, a, b))
    case DoMerge(w) => m.(cache := FlagMerge(m.cache, w))
    case DoFlush(fail) =>
      var addrs := Sorted(m.cache.dirty);
      Machine(if FlushFails(addrs, fail) then m.cache.(dirty := addrs) else FlagFlushed(m.cache),
              FlushTo(m.backend, addrs, SetForm(m.cache).cached, fail))
  }

  /** The set form's operation an action stands for. */
  ghost function SetOp(m: Machine, act: Action): Op {
    match act
    case DoLoad(a, read) => Load(a, Raises(m.cache, a) || read.Some?)
    case DoSet(a, b) => Set(a, b)
    case DoMerge(w) => Merge(SetForm(w))
    case DoFlush(fail) => Flush(fail)
  }

  lemma ActRefines(m: Machine, act: Action)
    requires Sound(m) && ActionOk(m, act)
    ensures FlagsMatch(Act(m, act).cache) && Abs(Act(m, act)) == SetStep(Abs(m), SetOp(m, act))
  {
    if act.DoLoad? {
      FlagLoadRefines(m.cache, m.backend, act.addr, act.read);
    } else if act.DoSet? {
      FlagSetRefines(m.cache, m.backend, act.addr, act.balance);
    } else if act.DoMerge? {
      FlagMergeRefines(m.cache, m.backend, act.worker);
    } else {
      FlagOrder(m.cache);
      SortKeepsFlags(m.cache);
      FlagFlushedRefines(m.cache);
    }
  }

  lemma ActKeepsUnmarked(m: Machine, act: Action)
    requires Sound(m) && ActionOk(m, act)
    ensures Unmarked(Act(m, act).cache)
  {
  }

  lemma ActKeepsSound(m: Machine, act: Action)
    requires Sound(m) && ActionOk(m, act)
    ensures Sound(Act(m, act)) && Through(Abs(Act(m, act))) == Reference(Through(Abs(m)), SetOp(m, act))
  {
    hide Act, SetStep, Through, Unmarked;
    ActRefines(m, act);
    ActKeepsUnmarked(m, act);
    StepRefines(Abs(m), SetOp(m, act));
  }

  ghost predicate ActionsOk(m: Machine, acts: seq<Action>)
    requires Sound(m)
    decreases |acts|
  {
    acts != [] ==>
      && ActionOk(m, acts[0])
      && (ActKeepsSound(m, acts[0]); ActionsOk(Act(m, acts[0]), acts[1..]))
  }

  ghost function ActAll(m: Machine, acts: seq<Action>): (t: Machine)
    requires Sound(m) && ActionsOk(m, acts)
    ensures Sound(t)
    decreases |acts|
  {
    if acts == [] then m
    else
      ActKeepsSound(m, acts[0]);
      ActAll(Act(m, acts[0]), acts[1..])
  }

  /** What a write-through store makes of an action: only sets and merges write. */
  ghost function WriteThrough(rows: map<Address, Balance>, acts: seq<Action>): map<Address, Balance>
    requires forall act | act in acts && act.DoMerge? :: FlagsMatch(act.worker)
    decreases |acts|
  {
    if acts == [] then rows
    else
      var next := match acts[0]
        case DoSet(a, b) => rows[a := b]
        case DoMerge(w) => rows + DirtyRows(SetForm(w))
        case _ => rows;
      WriteThrough(next, acts[1..])
  }

  /**
   The flag-and-vector cache refines write-through over whole runs: every sequence of loads, sets,
   disjoint merges and flushes failing anywhere leaves cache and backend holding together what
   writing through would have stored, with the flags still matching and nothing marked.
   */
  lemma {:induction false} FlagFormRefinesWriteThrough(m: Machine, acts: seq<Action>)
    requires Sound(m) && ActionsOk(m, acts)
    ensures forall act | act in acts && act.DoMerge? :: FlagsMatch(act.worker)
    ensures Through(Abs(ActAll(m, acts))) == WriteThrough(Through(Abs(m)), acts)
    decreases |acts|
  {
    hide Act, Through;
    if acts != [] {
      ActKeepsSound(m, acts[0]);
      FlagFormRefinesWriteThrough(Act(m, acts[0]), acts[1..]);
      assert acts == [acts[0]] + acts[1..];
    }
  }

  // ------------------------------------------------------------------ the one region of a call

  /** The machine with a fresh cache over a backend. */
  function Fresh(b: Backend): Machine {
    Machine(EMPTY, b)
  }

  lemma FreshIsSound(b: Backend)
    ensures Sound(Fresh(b)) && Through(Abs(Fresh(b))) == b.rows
  {
  }

  /** A restored cache stands for the same store: the entries left over are clean copies of rows. */
  lemma RestoredMeansSame(c: Flagged, b: Backend, r: Flagged)
    requires FlagsMatch(c) && Coherent(SetForm(c), b.rows) && Restored(c, b.rows, r)
    ensures FlagsMatch(r) && Coherent(SetForm(r), b.rows)
    ensures Through(State(SetForm(r), b)) == Through(State(SetForm(c), b))
  {
    assert SetForm(r).dirty == SetForm(c).dirty;
    assert forall a | a in SetForm(c).dirty :: SetForm(r).cached[a] == SetForm(c).cached[a];
  }

  /**
   What the executor relies on: whatever a call did before its region, rolling the region back
   restores the cache, keeps flags and coherence, and changes nothing a write-through reader sees.
   */
  lemma OneRegionIsUndone(b: Backend, acts: seq<Action>, ops: seq<RegionOp>)
    requires Sound(Fresh(b)) && ActionsOk(Fresh(b), acts)
    ensures var m := ActAll(Fresh(b), acts);
      var r := Rollback(Region(Begin(m.cache), m.backend.rows, ops));
      && Restored(m.cache, m.backend.rows, r)
      && FlagsMatch(r) && Coherent(SetForm(r), m.backend.rows)
      && Through(State(SetForm(r), m.backend)) == Through(Abs(m))
  {
    hide ActAll, ActionsOk, Region, Rollback, Restored, Through, FlagsMatch, Coherent;
    var m := ActAll(Fresh(b), acts);
    RollbackRestoresIff(m.cache, m.backend.rows);
    RestoredMeansSame(m.cache, m.backend, Rollback(Region(Begin(m.cache), m.backend.rows, ops)));
  }

  // ------------------------------------------------------------------ the replay

  /** The replay after the rollback: the same loads and sets, with whatever the backend gives now. */
  function ReplayStep(c: Flagged, rows: map<Address, Balance>, op: RegionOp, read: Option<Fault>): Flagged {
    match op
    case RegionLoad(a, _) => FlagLoad(c, rows, a, read)
    case RegionSet(a, b) => FlagSet(c, a, b)
  }

  function Replay(c: Flagged, rows: map<Address, Balance>, ops: seq<RegionOp>, later: nat -> Option<Fault>): Flagged {
    if ops == [] then c
    else
      var n := |ops| - 1;
      ReplayStep(Replay(c, rows, ops[..n], later), rows, ops[n], later(n))
  }

  /** Present, and coming back from a rollback: not logged as absent. */
  ghost predicate Kept(x: Flagged, a: Address) {
    && a in x.entries && x.undo.Some?
    && forall p | p in x.undo.value.prior && p.addr == a :: p.entry.Some?
  }

  /** Inside a region entries and faults only grow, and a cached address gets no more faults. */
  ghost predicate Grown(x: Flagged, z: Flagged, a: Address) {
    && x.undo.Some? && z.undo.Some?
    && Faults(x.latched, a) <= Faults(z.latched, a)
    && (a in x.entries ==> a in z.entries && Faults(z.latched, a) == Faults(x.latched, a))
    && (Kept(x, a) ==> Kept(z, a))
  }

  lemma StepGrows(x: Flagged, rows: map<Address, Balance>, op: RegionOp, a: Address)
    requires x.undo.Some?
    ensures Grown(x, RegionStep(x, rows, op), a)
  {
  }

  lemma {:induction false} RegionGrows(c: Flagged, rows: map<Address, Balance>, ops: seq<RegionOp>, i: nat, a: Address)
    requires c.undo.Some? && i <= |ops|
    ensures Grown(Region(c, rows, ops[..i]), Region(c, rows, ops), a)
    decreases |ops|
  {
    if ops == [] {
      assert ops[..i] == [];
    } else {
      hide RegionStep, Kept;
      var init := ops[..|ops| - 1];
      if i == |ops| {
        assert ops[..i] == ops;
        RegionGrows(c, rows, init, |init|, a);
        assert init[..|init|] == init;
      } else {
        assert init[..i] == ops[..i];
        RegionGrows(c, rows, init, i, a);
      }
      StepGrows(Region(c, rows, init), rows, ops[|ops| - 1], a);
    }
  }

  lemma RollbackKeeps(c: Flagged, rows: map<Address, Balance>, z: Flagged, a: Address)
    requires InRegion(c, rows, z) && Kept(z, a)
    ensures a in Rollback(z).entries
  {
    var prior := z.undo.value.prior;
    RestoreAt(z.entries, prior, a);
    if InLog(prior, a) {
      var i :| 0 <= i < |prior| && prior[i].addr == a;
      assert prior[i] in prior;
    }
  }

  // ------------------------------------------------------------------ region and replay in step

  /** `x` inside the region and `y` in the replay, after the same operations; `all` are the region's final faults. */
  ghost predicate InStep(rows: map<Address, Balance>, all: map<Address, seq<Fault>>, back: Flagged, x: Flagged,
      y: Flagged) {
    && x.undo.Some? && y.undo.None?
    && (forall a | a in back.entries :: a in y.entries)
    && (forall a | a in x.entries :: a in y.entries && y.entries[a].balance == x.entries[a].balance)
    && (forall a | a in y.entries && a !in x.entries :: y.entries[a].balance == Lookup(rows, a))
    && (forall a :: Faults(all, a) == Faults(x.latched, a) + Faults(y.latched, a))
  }

  lemma SetInStep(rows: map<Address, Balance>, all: map<Address, seq<Fault>>, back: Flagged, x: Flagged, y: Flagged,
      a: Address, b: Balance)
    requires InStep(rows, all, back, x, y)
    ensures InStep(rows, all, back, FlagSet(x, a, b), FlagSet(y, a, b))
  {
  }

  /** A cached address has no fault left, so both loads return its balance. */
  lemma HitInStep(rows: map<Address, Balance>, z: Flagged, back: Flagged, x: Flagged, y: Flagged, a: Address,
      r: Option<Fault>)
    requires InStep(rows, z.latched, back, x, y) && a in x.entries && Grown(x, z, a)
    ensures LoadResult(y, rows, a, r) == Got(x.entries[a].balance) && FlagLoad(y, rows, a, r) == y
  {
    assert Faults(z.latched, a) == Faults(x.latched, a) + Faults(y.latched, a);
  }

  /** The region's first good read is still cached in the replay. */
  lemma MissInStep(rows: map<Address, Balance>, z: Flagged, back: Flagged, x: Flagged, w: Flagged, y: Flagged,
      a: Address, r: Option<Fault>)
    requires InStep(rows, z.latched, back, x, y) && a !in x.entries && a in back.entries
    requires w == x.(entries := x.entries[a := Entry(Lookup(rows, a), false, false)]) && Grown(w, z, a)
    ensures LoadResult(y, rows, a, r) == Got(Lookup(rows, a)) && FlagLoad(y, rows, a, r) == y
    ensures InStep(rows, z.latched, back, w, y)
  {
    assert Faults(z.latched, a) == Faults(x.latched, a) + Faults(y.latched, a);
  }

  /** The region's fault is the next one latched for the address. */
  lemma FaultInStep(rows: map<Address, Balance>, z: Flagged, back: Flagged, x: Flagged, w: Flagged, y: Flagged,
      a: Address, f: Fault, r: Option<Fault>)
    requires InStep(rows, z.latched, back, x, y) && w == FlagNote(x, a, f) && Grown(w, z, a)
    ensures LoadResult(y, rows, a, r) == Failed(f)
    ensures InStep(rows, z.latched, back, w, FlagLoad(y, rows, a, r))
  {
    var before, rest := Faults(x.latched, a), Faults(y.latched, a);
    assert Faults(z.latched, a) == before + rest;
    assert Faults(w.latched, a) == before + [f];
    assert Faults(z.latched, a)[|before|] == f;
    assert before + rest == before + [f] + rest[1..];
  }

  /** One operation: the load sees the same, and the two stay in step. */
  lemma StepInStep(rows: map<Address, Balance>, z: Flagged, back: Flagged, x: Flagged, y: Flagged, op: RegionOp,
      read: Option<Fault>)
    requires InStep(rows, z.latched, back, x, y)
    requires forall p | p in x.undo.value.prior :: p.addr in x.entries
    requires Grown(RegionStep(x, rows, op), z, op.addr)
    requires Kept(RegionStep(x, rows, op), op.addr) ==> op.addr in back.entries
    ensures op.RegionLoad? ==> LoadResult(y, rows, op.addr, read) == LoadResult(x, rows, op.addr, op.read)
    ensures InStep(rows, z.latched, back, RegionStep(x, rows, op), ReplayStep(y, rows, op, read))
  {
    var a, w := op.addr, RegionStep(x, rows, op);
    assert x.undo.Some?;
    hide InStep, Grown;
    if op.RegionSet? {
      SetInStep(rows, z.latched, back, x, y, a, op.balance);
    } else if a in x.entries {
      HitInStep(rows, z, back, x, y, a, read);
    } else if op.read.None? {
      assert Kept(w, a);
      MissInStep(rows, z, back, x, w, y, a, read);
    } else {
      FaultInStep(rows, z, back, x, w, y, a, op.read.value, read);
    }
  }

  /** The region before operation `i`, and the replay before it. */
  ghost predicate InStepAt(c: Flagged, rows: map<Address, Balance>, ops: seq<RegionOp>, later: nat -> Option<Fault>, i: nat)
    requires i <= |ops|
  {
    var z := Region(Begin(c), rows, ops);
    InStep(rows, z.latched, Rollback(z), Region(Begin(c), rows, ops[..i]), Replay(Rollback(z), rows, ops[..i], later))
  }

  lemma StartInStep(c: Flagged, rows: map<Address, Balance>, ops: seq<RegionOp>, later: nat -> Option<Fault>)
    requires Unmarked(c)
    ensures InStepAt(c, rows, ops, later, 0)
  {
    RegionKeeps(c, rows, ops);
    RollbackInRegion(c, rows, Region(Begin(c), rows, ops));
    assert ops[..0] == [];
  }

  lemma NextInStep(c: Flagged, rows: map<Address, Balance>, ops: seq<RegionOp>, later: nat -> Option<Fault>, i: nat)
    requires Unmarked(c) && i < |ops| && InStepAt(c, rows, ops, later, i)
    ensures InStepAt(c, rows, ops, later, i + 1)
    ensures var z := Region(Begin(c), rows, ops);
      ops[i].RegionLoad? ==>
        LoadResult(Replay(Rollback(z), rows, ops[..i], later), rows, ops[i].addr, later(i))
        == LoadResult(Region(Begin(c), rows, ops[..i]), rows, ops[i].addr, ops[i].read)
  {
    hide RegionStep, ReplayStep, LoadResult, InStep, Rollback, Kept;
    var z, op := Region(Begin(c), rows, ops), ops[i];
    var x, y := Region(Begin(c), rows, ops[..i]), Replay(Rollback(z), rows, ops[..i], later);
    assert ops[..i + 1][..i] == ops[..i];
    RegionKeeps(c, rows, ops[..i]);
    LogIsCached(c, rows, x);
    RegionKeeps(c, rows, ops);
    RegionGrows(Begin(c), rows, ops, i + 1, op.addr);
    if Kept(RegionStep(x, rows, op), op.addr) { RollbackKeeps(c, rows, z, op.addr); }
    StepInStep(rows, z, Rollback(z), x, y, op, later(i));
  }

  lemma LogIsCached(c: Flagged, rows: map<Address, Balance>, x: Flagged)
    requires InRegion(c, rows, x)
    ensures x.undo.Some? && forall p | p in x.undo.value.prior :: p.addr in x.entries
  {
  }

  lemma {:induction false} AlwaysInStep(c: Flagged, rows: map<Address, Balance>, ops: seq<RegionOp>,
      later: nat -> Option<Fault>, i: nat)
    requires Unmarked(c) && i <= |ops|
    ensures InStepAt(c, rows, ops, later, i)
  {
    hide InStepAt;
    if i == 0 {
      StartInStep(c, rows, ops, later);
    } else {
      AlwaysInStep(c, rows, ops, later, i - 1);
      NextInStep(c, rows, ops, later, i - 1);
    }
  }

  /**
   A replay sees, read for read, what the backend gave the region: after a rollback the same loads
   and sets return the same balances and raise the same faults at the same loads, whatever the
   backend would give now.
   */
  lemma ReplaySeesTheRegion(c: Flagged, rows: map<Address, Balance>, ops: seq<RegionOp>, later: nat -> Option<Fault>,
      i: nat)
    requires Unmarked(c) && i < |ops| && ops[i].RegionLoad?
    ensures var z := Region(Begin(c), rows, ops);
      LoadResult(Replay(Rollback(z), rows, ops[..i], later), rows, ops[i].addr, later(i))
      == LoadResult(Region(Begin(c), rows, ops[..i]), rows, ops[i].addr, ops[i].read)
  {
    AlwaysInStep(c, rows, ops, later, i);
    NextInStep(c, rows, ops, later, i);
  }

  /** In particular in every call: whatever it did before its region, the replay sees the region. */
  lemma CallReplaysItsRegion(b: Backend, acts: seq<Action>, ops: seq<RegionOp>, later: nat -> Option<Fault>, i: nat)
    requires Sound(Fresh(b)) && ActionsOk(Fresh(b), acts) && i < |ops| && ops[i].RegionLoad?
    ensures var m := ActAll(Fresh(b), acts);
      var z := Region(Begin(m.cache), m.backend.rows, ops);
      LoadResult(Replay(Rollback(z), m.backend.rows, ops[..i], later), m.backend.rows, ops[i].addr, later(i))
      == LoadResult(Region(Begin(m.cache), m.backend.rows, ops[..i]), m.backend.rows, ops[i].addr, ops[i].read)
  {
    var m := ActAll(Fresh(b), acts);
    ReplaySeesTheRegion(m.cache, m.backend.rows, ops, later, i);
  }

  /** After the replay no fault is left to raise. */
  lemma ReplayRaisesEveryFault(c: Flagged, rows: map<Address, Balance>, ops: seq<RegionOp>,
      later: nat -> Option<Fault>, a: Address)
    requires Unmarked(c)
    ensures Faults(Replay(Rollback(Region(Begin(c), rows, ops)), rows, ops, later).latched, a) == []
  {
    AlwaysInStep(c, rows, ops, later, |ops|);
    assert ops[..|ops|] == ops;
    var z := Region(Begin(c), rows, ops);
    assert Faults(z.latched, a) == Faults(z.latched, a) + Faults(Replay(Rollback(z), rows, ops, later).latched, a);
  }
}
