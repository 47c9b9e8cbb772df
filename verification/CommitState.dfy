/**
 The application state a commit writes: the pending updates of the blocks it commits, applied from
 the oldest to the newest, each block's once.
 */
module CommitState {
  import opened Options
  import opened BlockTree

  type Key = nat
  type Value = nat

  /** Keys to set, and keys to delete. */
  type Updates = map<Key, Option<Value>>

  type AppState = map<Key, Value>

  /** The durable tree with the application state and the updates of blocks not committed yet. */
  datatype Full = Full(tree: Store, app: AppState, pending: map<Hash, Updates>)

  const EMPTY := Full(EMPTY_STORE, map[], map[])

  function Apply(app: AppState, u: Updates): (r: AppState)
    ensures forall k :: k in r <==> if k in u then u[k].Some? else k in app
    ensures forall k | k in r :: r[k] == if k in u then u[k].value else app[k]
  {
    (map k | k in app && k !in u :: app[k]) + (map k | k in u && u[k].Some? :: u[k].value)
  }

  function ApplyOf(app: AppState, updates: map<Hash, Updates>, b: Hash): AppState {
    if b in updates then Apply(app, updates[b]) else app
  }

  /** The first `n` walked blocks counted from the oldest: their updates are applied and no longer pending. */
  ghost function Settled(f: Full, walk: seq<Hash>, n: nat): Full
    requires n <= |walk|
  {
    if n == 0 then f
    else
      var b, g := walk[|walk| - n], Settled(f, walk, n - 1);
      g.(app := ApplyOf(g.app, g.pending, b), pending := g.pending - {b})
  }

  ghost function Commit(f: Full, target: Hash): Full
    requires Linked(f.tree)
  {
    var d := CommitDecision(f.tree, target);
    if d.Committed? then Settled(f, d.hashes, |d.hashes|).(tree := CommitStore(f.tree, target)) else f
  }

  datatype Event = Insert(hash: Hash, block: Block, updates: Option<Updates>) | CommitTo(target: Hash)

  /** A block enters the tree once, above nothing it contradicts. */
  ghost predicate MayInsert(s: Store, b: Hash, block: Block) {
    && b !in s.blocks && Linked(s.(blocks := s.blocks[b := block]))
    && (forall h | h in s.index :: s.index[h] != b)
  }

  ghost function Step(f: Full, e: Event): Full {
    match e
    case Insert(b, block, u) =>
      if MayInsert(f.tree, b, block) then
        f.(tree := f.tree.(blocks := f.tree.blocks[b := block]),
           pending := if u.Some? then f.pending[b := u.value] else f.pending - {b})
      else f
    case CommitTo(b) => if Linked(f.tree) then Commit(f, b) else f
  }

  ghost function Run(events: seq<Event>): Full {
    if events == [] then EMPTY else Step(Run(events[..|events| - 1]), events[|events| - 1])
  }

  /** Every update a block ever brought into the tree. */
  ghost function Brought(events: seq<Event>): map<Hash, Updates> {
    if events == [] then map[]
    else
      var before, e := events[..|events| - 1], events[|events| - 1];
      var all := Brought(before);
      if e.Insert? && MayInsert(Run(before).tree, e.hash, e.block) && e.updates.Some?
      then all[e.hash := e.updates.value] else all
  }

  /** The state after the updates of the committed blocks at heights 0 to `n - 1`, in that order. */
  ghost function Replay(index: map<nat, Hash>, all: map<Hash, Updates>, n: nat): AppState
    requires forall h: nat | h < n :: h in index
  {
    if n == 0 then map[] else ApplyOf(Replay(index, all, n - 1), all, index[n - 1])
  }

  ghost predicate Committed(s: Store, b: Hash) {
    exists h :: h in s.index && s.index[h] == b
  }

  /** Every height below the frontier is indexed. */
  ghost predicate Whole(s: Store) {
    && StoreInv(s) && OneChain(s) && s.pruned.None?
    && forall h: nat | h < NextHeight(s) :: h in s.index
  }

  /** What is pending is exactly what the uncommitted blocks brought. */
  ghost predicate PendingIs(s: Store, pending: map<Hash, Updates>, all: map<Hash, Updates>) {
    && (forall b :: b in pending <==> b in all && !Committed(s, b))
    && (forall b | b in pending :: pending[b] == all[b])
  }

  ghost predicate Inv(f: Full, all: map<Hash, Updates>) {
    && Whole(f.tree)
    && (forall b | b in all :: b in f.tree.blocks)
    && PendingIs(f.tree, f.pending, all)
    && f.app == Replay(f.tree.index, all, NextHeight(f.tree))
  }

  // ------------------------------------------------------------------ what every event keeps

  lemma {:induction false} SameReplay(i: map<nat, Hash>, j: map<nat, Hash>, all: map<Hash, Updates>,
      more: map<Hash, Updates>, n: nat)
    requires forall h: nat | h < n :: h in i && h in j && i[h] == j[h]
    requires forall h: nat | h < n :: (i[h] in all <==> i[h] in more) && (i[h] in all ==> all[i[h]] == more[i[h]])
    ensures Replay(i, all, n) == Replay(j, more, n)
  {
    if n > 0 { SameReplay(i, j, all, more, n - 1); }
  }

  lemma WholeFromChain(s: Store)
    requires StoreInv(s) && OneChain(s) && s.pruned.None?
    ensures Whole(s)
  {
    if HighestHeight(s).Some? {
      forall h: nat | h < NextHeight(s) ensures h in s.index { assert Readable(s, h); }
    }
  }

  /** A block above the frontier is committed nowhere. */
  lemma AboveIsUncommitted(s: Store, b: Hash)
    requires StoreInv(s) && b in s.blocks && s.blocks[b].height >= NextHeight(s)
    ensures !Committed(s, b)
  {
    if h :| h in s.index && s.index[h] == b { assert Readable(s, h); }
  }

  lemma CommittedOneMore(s: Store, t: Store, n: nat, b: Hash)
    requires t.index == s.index[n := b] && n !in s.index
    ensures forall x :: Committed(t, x) <==> Committed(s, x) || x == b
  {
    assert t.index[n] == b;
    forall x ensures Committed(t, x) <==> Committed(s, x) || x == b {
      if h :| h in s.index && s.index[h] == x { assert h in t.index && t.index[h] == x; }
      if h :| h in t.index && t.index[h] == x { assert h != n ==> h in s.index && s.index[h] == x; }
    }
  }

  lemma NextIsNotIndexed(s: Store, b: Hash)
    requires StoreInv(s) && b in s.blocks && s.blocks[b].height == NextHeight(s)
    ensures NextHeight(s) !in s.index && !Committed(s, b)
    ensures NextHeight(s.(index := s.index[NextHeight(s) := b], highest := Some(b))) == NextHeight(s) + 1
  {
    AboveIsUncommitted(s, b);
  }

  lemma PendingOneLess(s: Store, t: Store, n: nat, b: Hash, pending: map<Hash, Updates>, all: map<Hash, Updates>)
    requires PendingIs(s, pending, all) && t.index == s.index[n := b] && n !in s.index
    ensures PendingIs(t, pending - {b}, all)
  {
    CommittedOneMore(s, t, n, b);
    hide Committed;
  }

  lemma ReplayOneMore(i: map<nat, Hash>, n: nat, b: Hash, all: map<Hash, Updates>)
    requires n !in i && forall h: nat | h < n :: h in i
    ensures Replay(i[n := b], all, n + 1) == ApplyOf(Replay(i, all, n), all, b)
  {
    SameReplay(i, i[n := b], all, all, n);
  }

  /** One more walked block: indexed at the next height, applied and no longer pending. */
  lemma SettleOne(f: Full, all: map<Hash, Updates>, t: Store, b: Hash)
    requires Inv(f, all) && b in f.tree.blocks && f.tree.blocks[b].height == NextHeight(f.tree)
    requires t == f.tree.(index := f.tree.index[f.tree.blocks[b].height := b], highest := Some(b)) && Whole(t)
    ensures Inv(Full(t, ApplyOf(f.app, f.pending, b), f.pending - {b}), all)
  {
    var n := NextHeight(f.tree);
    NextIsNotIndexed(f.tree, b);
    assert forall h: nat | h < n :: h in f.tree.index;
    assert b in f.pending <==> b in all;
    assert b in f.pending ==> f.pending[b] == all[b];
    hide Whole, Committed, Apply, NextHeight, PendingIs, Replay;
    PendingOneLess(f.tree, t, n, b, f.pending, all);
    ReplayOneMore(f.tree.index, n, b, all);
  }

  lemma IndexedNext(s: Store, w: seq<Hash>, n: nat)
    requires 0 < n <= |w| && forall x | x in w :: x in s.blocks
    ensures var b, p := w[|w| - n], Indexed(s, w, n - 1);
      Indexed(s, w, n) == p.(index := p.index[s.blocks[b].height := b], highest := Some(b))
  {
  }

  lemma SettledNext(f: Full, w: seq<Hash>, n: nat)
    requires 0 < n <= |w|
    ensures var b, g := w[|w| - n], Settled(f, w, n - 1);
      Settled(f, w, n) == g.(app := ApplyOf(g.app, g.pending, b), pending := g.pending - {b})
  {
  }

  lemma {:induction false} SettledKeeps(f: Full, all: map<Hash, Updates>, target: Hash, n: nat)
    requires Inv(f, all) && StoreInv(f.tree) && OneChain(f.tree) && f.tree.pruned.None? && Linked(f.tree)
    requires CommitDecision(f.tree, target).Committed? && n <= |CommitDecision(f.tree, target).hashes|
    ensures var w := CommitDecision(f.tree, target).hashes;
      (forall x | x in w :: x in f.tree.blocks) && Inv(Settled(f, w, n).(tree := Indexed(f.tree, w, n)), all)
  {
    hide Inv, Whole, OneChain, StoreInv, Linked, CommitDecision, Indexed, Settled, HighestHeight, ApplyOf, NextHeight;
    var w := CommitDecision(f.tree, target).hashes;
    IndexedKeepsChain(f.tree, target, n);
    if n == 0 {
      SettledNone(f, w);
    } else {
      SettledKeeps(f, all, target, n - 1);
      IndexedKeepsChain(f.tree, target, n - 1);
      NextInWalk(f.tree, target, n);
      IndexedNext(f.tree, w, n);
      SettledNext(f, w, n);
      var g, t := Settled(f, w, n - 1).(tree := Indexed(f.tree, w, n - 1)), Indexed(f.tree, w, n);
      WholeFromChain(t);
      SettleOne(g, all, t, w[|w| - n]);
    }
  }

  lemma SettledNone(f: Full, w: seq<Hash>)
    requires forall x | x in w :: x in f.tree.blocks
    ensures Settled(f, w, 0).(tree := Indexed(f.tree, w, 0)) == f
  {
  }

  lemma WholeOf(f: Full, all: map<Hash, Updates>)
    requires Inv(f, all)
    ensures StoreInv(f.tree) && OneChain(f.tree) && f.tree.pruned.None?
  {
  }

  /** The next walked block sits right above what has been indexed. */
  lemma NextInWalk(s: Store, target: Hash, n: nat)
    requires StoreInv(s) && CommitDecision(s, target).Committed? && 0 < n <= |CommitDecision(s, target).hashes|
    requires forall x | x in CommitDecision(s, target).hashes :: x in s.blocks
    requires var w := CommitDecision(s, target).hashes; var p := Indexed(s, w, n - 1);
      p.blocks == s.blocks && (n - 1 > 0 ==> p.highest == Some(w[|w| - (n - 1)])) && (n == 1 ==> p == s)
    ensures var w := CommitDecision(s, target).hashes;
      w[|w| - n] in s.blocks && s.blocks[w[|w| - n]].height == NextHeight(Indexed(s, w, n - 1))
  {
    var w := CommitDecision(s, target).hashes;
    WalkInTree(s, target, HighestHeight(s));
    WalkStartsAtFrontier(s, target);
    assert w[|w| - n] in w;
    WalkHeights(s, w, |w| - n);
    if n > 1 {
      assert w[|w| - n + 1] in w;
      WalkHeights(s, w, |w| - n + 1);
    }
  }

  lemma CommitKeeps(f: Full, all: map<Hash, Updates>, target: Hash)
    requires Inv(f, all) && Linked(f.tree)
    ensures Inv(Commit(f, target), all)
  {
    WholeOf(f, all);
    hide Inv;
    var d := CommitDecision(f.tree, target);
    if d.Committed? { SettledKeeps(f, all, target, |d.hashes|); }
  }

  lemma InsertKeepsWhole(s: Store, b: Hash, block: Block)
    requires Whole(s) && MayInsert(s, b, block)
    ensures Whole(s.(blocks := s.blocks[b := block])) && NextHeight(s.(blocks := s.blocks[b := block])) == NextHeight(s)
  {
    var t := s.(blocks := s.blocks[b := block]);
    assert HighestHeight(t) == HighestHeight(s);
    forall h: nat | Readable(t, h) ensures t.blocks[t.index[h]].height == h { assert Readable(s, h); }
    forall h | Readable(s, h) ensures Readable(t, h) && t.blocks[t.index[h]] == s.blocks[s.index[h]] {}
    WholeFromChain(t);
  }

  lemma InsertKeeps(f: Full, all: map<Hash, Updates>, e: Event)
    requires Inv(f, all) && e.Insert? && MayInsert(f.tree, e.hash, e.block)
    ensures Inv(Step(f, e), if e.updates.Some? then all[e.hash := e.updates.value] else all)
  {
    var t := Step(f, e).tree;
    var more := if e.updates.Some? then all[e.hash := e.updates.value] else all;
    InsertKeepsWhole(f.tree, e.hash, e.block);
    assert forall h: nat | h < NextHeight(f.tree) :: h in f.tree.index;
    hide Whole, NextHeight, Linked, Replay, PendingIs;
    SameReplay(f.tree.index, t.index, all, more, NextHeight(f.tree));
    PendingInserted(f.tree, t, f.pending, all, e.hash, e.updates);
  }

  lemma PendingInserted(s: Store, t: Store, pending: map<Hash, Updates>, all: map<Hash, Updates>, b: Hash,
      u: Option<Updates>)
    requires PendingIs(s, pending, all) && t.index == s.index && b !in all && !Committed(s, b)
    ensures if u.Some? then PendingIs(t, pending[b := u.value], all[b := u.value]) else PendingIs(t, pending - {b}, all)
  {
    forall x ensures Committed(t, x) <==> Committed(s, x) {}
    hide Committed;
  }

  lemma {:induction false} RunKeeps(events: seq<Event>)
    ensures Inv(Run(events), Brought(events))
  {
    if events != [] {
      var before, e := events[..|events| - 1], events[|events| - 1];
      RunKeeps(before);
      if e.CommitTo? {
        hide Inv;
        if Linked(Run(before).tree) { CommitKeeps(Run(before), Brought(before), e.target); }
      } else if MayInsert(Run(before).tree, e.hash, e.block) {
        hide Inv;
        InsertKeeps(Run(before), Brought(before), e);
      }
    }
  }

  /**
   Over every sequence of insertions and commits, however the commits are batched: the application
   state is the updates of the committed blocks applied in height order, each once, and what is
   pending is exactly what the uncommitted blocks brought.
   */
  lemma StateIsReplay(events: seq<Event>)
    ensures var f, all := Run(events), Brought(events);
      && (forall h: nat | h < NextHeight(f.tree) :: h in f.tree.index)
      && f.app == Replay(f.tree.index, all, NextHeight(f.tree))
      && PendingIs(f.tree, f.pending, all)
  {
    RunKeeps(events);
  }

  /** Runs that committed the same blocks, having brought the same updates, hold the same state. */
  lemma SameChainSameState(one: seq<Event>, other: seq<Event>)
    requires Run(one).tree.index == Run(other).tree.index && Brought(one) == Brought(other)
    requires NextHeight(Run(one).tree) == NextHeight(Run(other).tree)
    ensures Run(one).app == Run(other).app
  {
    StateIsReplay(one);
    StateIsReplay(other);
  }
}
