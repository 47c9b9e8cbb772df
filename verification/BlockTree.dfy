/**
 The durable part of a replica's block tree: block records, the height index of
 committed blocks, the committed frontier, the prune height and the app-feed
 frontier, with the gap-safe commit walk and the pruner that move them.
 */
module BlockTree {
  import opened Options

  type Hash = nat

  /** `justify` is the hash of the certified parent, `None` for the genesis certificate. */
  datatype Block = Block(height: nat, justify: Option<Hash>)

  datatype Store = Store(
    blocks: map<Hash, Block>,
    index: map<nat, Hash>,
    highest: Option<Hash>,
    pruned: Option<nat>,
    fed: Option<nat>)

  const EMPTY_STORE := Store(map[], map[], None, None, None)

  /** Heights the pruner may delete in one call. */
  const PRUNE_BATCH_MAX: nat := 64

  predicate Readable(s: Store, h: nat) {
    h in s.index && s.index[h] in s.blocks
  }

  /** The height of the highest committed block, if its record can be read. */
  function HighestHeight(s: Store): Option<nat> {
    if s.highest.Some? && s.highest.value in s.blocks
    then Some(s.blocks[s.highest.value].height)
    else None
  }

  /** The height the next committed block must have. */
  function NextHeight(s: Store): nat {
    if HighestHeight(s).Some? then HighestHeight(s).value + 1 else 0
  }

  /** Every indexed block sits at the height its record names. */
  ghost predicate WellIndexed(s: Store) {
    forall h | Readable(s, h) :: s.blocks[s.index[h]].height == h
  }

  /** A genesis child has height 0; every other block is one height above its parent. */
  ghost predicate Linked(s: Store) {
    && (forall b | b in s.blocks && s.blocks[b].justify.None? :: s.blocks[b].height == 0)
    && (forall b | b in s.blocks && s.blocks[b].justify.Some? && s.blocks[b].justify.value in s.blocks ::
          s.blocks[b].height == s.blocks[s.blocks[b].justify.value].height + 1)
  }

  /** Nothing below the prune height is indexed, and the height is not above the frontier. */
  ghost predicate PrunedBelow(s: Store) {
    s.pruned.Some? ==>
      && (forall h | h in s.index :: s.pruned.value <= h)
      && HighestHeight(s).Some? && s.pruned.value <= HighestHeight(s).value
  }

  /** No indexed height lies above the committed frontier. */
  ghost predicate IndexedBelow(s: Store) {
    forall h | h in s.index :: HighestHeight(s).Some? && h <= HighestHeight(s).value
  }

  ghost predicate StoreInv(s: Store) {
    && WellIndexed(s)
    && Linked(s)
    && PrunedBelow(s)
    && IndexedBelow(s)
    && (s.highest.Some? ==> s.highest.value in s.blocks)
  }

  function Lowest(s: Store): nat {
    s.pruned.UnwrapOr(0)
  }

  /** Every height from the prune height to the frontier is readable, and each block is justified by the one below. */
  ghost predicate OneChain(s: Store) {
    && (HighestHeight(s).None? ==> s.index == map[] && s.highest.None?)
    && (HighestHeight(s).Some? ==>
          && (forall h | Lowest(s) <= h <= HighestHeight(s).value :: Readable(s, h))
          && (forall h | Lowest(s) < h <= HighestHeight(s).value && Readable(s, h) && Readable(s, h - 1) ::
                s.blocks[s.index[h]].justify == Some(s.index[h - 1]))
          && Readable(s, HighestHeight(s).value)
          && s.index[HighestHeight(s).value] == s.highest.value)
  }

  // ------------------------------------------------------------------ the commit walk

  predicate AboveFrontier(s: Store, b: Hash, min: Option<nat>) {
    min.None? || (b in s.blocks && s.blocks[b].height > min.value)
  }

  /** The block after `b` in the ancestor walk, if `b` is in the tree and not a genesis child. */
  function ParentOf(s: Store, b: Hash): Option<Hash> {
    if b in s.blocks then s.blocks[b].justify else None
  }

  function WalkRank(s: Store, b: Hash): nat {
    if b in s.blocks then s.blocks[b].height + 1 else 0
  }

  /** The uncommitted blocks among `b` and its ancestors, newest first. */
  ghost function Uncommitted(s: Store, b: Hash, min: Option<nat>): seq<Hash>
    requires Linked(s)
    decreases WalkRank(s, b)
  {
    if !AboveFrontier(s, b, min) then []
    else if ParentOf(s, b).None? then [b]
    else [b] + Uncommitted(s, ParentOf(s, b).value, min)
  }

  /** Whether the oldest block about to be committed chains to the frontier (or to genesis). */
  predicate ChainsToFrontier(s: Store, lowest: Hash)
    requires lowest in s.blocks
  {
    s.blocks[lowest].justify.None? || s.blocks[lowest].justify == s.highest
  }

  /** `Failed`: a needed record is missing; `Deferred`: a hole below the walked segment. */
  datatype CommitOutcome = Failed | Deferred | Committed(hashes: seq<Hash>)

  ghost function CommitDecision(s: Store, target: Hash): CommitOutcome
    requires Linked(s)
  {
    var walk := Uncommitted(s, target, HighestHeight(s));
    if walk == [] then Committed([])
    else if walk[|walk| - 1] !in s.blocks then Failed
    else if !ChainsToFrontier(s, walk[|walk| - 1]) then Deferred
    else Committed(walk)
  }

  /** Index the first `n` walked blocks counted from the oldest, moving the frontier with them. */
  ghost function Indexed(s: Store, walk: seq<Hash>, n: nat): Store
    requires n <= |walk|
    requires forall b | b in walk :: b in s.blocks
  {
    if n == 0 then s
    else
      var b := walk[|walk| - n];
      var t := Indexed(s, walk, n - 1);
      t.(index := t.index[s.blocks[b].height := b], highest := Some(b))
  }

  ghost function CommitStore(s: Store, target: Hash): Store
    requires Linked(s)
  {
    var d := CommitDecision(s, target);
    if d.Committed? then
      WalkInTree(s, target, HighestHeight(s));
      Indexed(s, d.hashes, |d.hashes|)
    else s
  }

  /** Each walked block is justified by the next; only the last can be missing from the tree. */
  lemma WalkInTree(s: Store, b: Hash, min: Option<nat>)
    requires Linked(s)
    ensures var w := Uncommitted(s, b, min);
      && (forall i | 0 <= i < |w| - 1 :: w[i] in s.blocks && s.blocks[w[i]].justify == Some(w[i + 1]))
      && (w != [] ==> w[0] == b)
      && (w != [] && w[|w| - 1] in s.blocks ==> forall x | x in w :: x in s.blocks)
      && (min.Some? ==> forall x | x in w :: x in s.blocks && s.blocks[x].height > min.value)
    decreases WalkRank(s, b)
  {
    var w := Uncommitted(s, b, min);
    if AboveFrontier(s, b, min) && ParentOf(s, b).Some? {
      WalkInTree(s, ParentOf(s, b).value, min);
    }
  }

  /** A walked block is one above the next, so heights count down along the walk. */
  lemma WalkHeights(s: Store, w: seq<Hash>, i: nat)
    requires Linked(s) && i < |w|
    requires forall x | x in w :: x in s.blocks
    requires forall k | 0 <= k < |w| - 1 :: s.blocks[w[k]].justify == Some(w[k + 1])
    ensures s.blocks[w[i]].height == s.blocks[w[|w| - 1]].height + (|w| - 1 - i)
    decreases |w| - i
  {
    if i < |w| - 1 {
      WalkHeights(s, w, i + 1);
      assert w[i] in w && w[i + 1] in w;
    }
  }

  /** The lowest block of an accepted walk sits right on top of the frontier. */
  lemma WalkStartsAtFrontier(s: Store, target: Hash)
    requires StoreInv(s)
    requires CommitDecision(s, target).Committed? && CommitDecision(s, target).hashes != []
    ensures var w := CommitDecision(s, target).hashes;
      && w[|w| - 1] in s.blocks
      && s.blocks[w[|w| - 1]].height == NextHeight(s)
      && s.blocks[w[|w| - 1]].justify == s.highest
  {
    var w := CommitDecision(s, target).hashes;
    WalkInTree(s, target, HighestHeight(s));
    assert w[|w| - 1] in w;
  }

  /** Committing the first `n` walked blocks keeps the store invariant and the single chain. */
  lemma IndexedKeepsChain(s: Store, target: Hash, n: nat)
    requires StoreInv(s)
    requires CommitDecision(s, target).Committed?
    requires n <= |CommitDecision(s, target).hashes|
    ensures var w := CommitDecision(s, target).hashes;
      && (forall x | x in w :: x in s.blocks)
      && var t := Indexed(s, w, n);
      && t.blocks == s.blocks && t.pruned == s.pruned && t.fed == s.fed
      && StoreInv(t) && (OneChain(s) ==> OneChain(t))
      && (n > 0 ==> t.highest == Some(w[|w| - n]))
      && (n == 0 ==> t == s)
      && (forall h | h in s.index :: h in t.index && t.index[h] == s.index[h])
  {
    var w := CommitDecision(s, target).hashes;
    WalkInTree(s, target, HighestHeight(s));
    if n > 0 {
      IndexedKeepsChain(s, target, n - 1);
      WalkStartsAtFrontier(s, target);
      WalkHeights(s, w, |w| - n);
      assert w[|w| - n] in w;
      var b := w[|w| - n];
      var p := Indexed(s, w, n - 1);
      var t := Indexed(s, w, n);
      if n > 1 {
        WalkHeights(s, w, |w| - n + 1);
        assert w[|w| - n + 1] in w;
      }
      assert s.blocks[b].justify == p.highest;
      assert s.blocks[b].height == NextHeight(p);
      ExtendKeepsInv(p, b, t);
      if OneChain(s) { ExtendKeepsChain(p, b, t); }
    }
  }

  /** Indexing one block on top of the frontier keeps the store invariant. */
  lemma ExtendKeepsInv(p: Store, b: Hash, t: Store)
    requires StoreInv(p) && b in p.blocks
    requires p.blocks[b].height == NextHeight(p)
    requires t == p.(index := p.index[p.blocks[b].height := b], highest := Some(b))
    ensures StoreInv(t) && HighestHeight(t) == Some(p.blocks[b].height)
    ensures forall h | h in p.index :: h in t.index && t.index[h] == p.index[h]
  {
    forall h | Readable(t, h) ensures t.blocks[t.index[h]].height == h {
      if h != p.blocks[b].height { assert Readable(p, h); }
    }
  }

  /** ... and, when it is justified by the old frontier, the single chain. */
  lemma ExtendKeepsChain(p: Store, b: Hash, t: Store)
    requires StoreInv(p) && OneChain(p) && b in p.blocks
    requires p.blocks[b].justify == p.highest
    requires p.blocks[b].height == NextHeight(p)
    requires t == p.(index := p.index[p.blocks[b].height := b], highest := Some(b))
    ensures OneChain(t)
  {
    var top := p.blocks[b].height;
    assert HighestHeight(t) == Some(top);
    forall h | Lowest(t) <= h <= top ensures Readable(t, h) {
      if h != top { assert Readable(p, h); }
    }
    forall h | Lowest(t) < h <= top && Readable(t, h) && Readable(t, h - 1)
      ensures t.blocks[t.index[h]].justify == Some(t.index[h - 1])
    {
      if h != top { assert Readable(p, h) && Readable(p, h - 1); }
    }
  }

  /**
   The gap-safe commit: whatever target is asked for, either the store is untouched, or the
   target becomes the frontier and the index is still one hole-free chain that keeps every
   height it had.
   */
  lemma CommitKeepsOneChain(s: Store, target: Hash)
    requires StoreInv(s)
    ensures var t := CommitStore(s, target);
      && StoreInv(t) && (OneChain(s) ==> OneChain(t))
      && (forall h | h in s.index :: h in t.index && t.index[h] == s.index[h])
      && t.pruned == s.pruned && t.fed == s.fed && t.blocks == s.blocks
      && (t == s || t.highest == Some(target))
  {
    var d := CommitDecision(s, target);
    if d.Committed? {
      IndexedKeepsChain(s, target, |d.hashes|);
      WalkInTree(s, target, HighestHeight(s));
    }
  }

  /** `path` leads from `target` down to a child of the frontier, every block present. */
  ghost predicate PathToFrontier(s: Store, target: Hash, path: seq<Hash>) {
    && path != [] && path[0] == target
    && (forall x | x in path :: x in s.blocks)
    && (forall i | 0 <= i < |path| - 1 :: s.blocks[path[i]].justify == Some(path[i + 1]))
    && s.blocks[path[|path| - 1]].justify == s.highest
  }

  /** The walk collects exactly a path to the frontier when there is one. */
  lemma WalkIsPath(s: Store, target: Hash, path: seq<Hash>)
    requires StoreInv(s) && PathToFrontier(s, target, path)
    ensures Uncommitted(s, target, HighestHeight(s)) == path
    decreases |path|
  {
    WalkHeights(s, path, 0);
    assert path[|path| - 1] in path;
    if |path| == 1 {
      if s.highest.Some? {
        assert !AboveFrontier(s, s.highest.value, HighestHeight(s));
        assert Uncommitted(s, s.highest.value, HighestHeight(s)) == [];
      }
    } else {
      assert path[1..][|path| - 2] == path[|path| - 1];
      WalkIsPath(s, path[1], path[1..]);
      assert path[0] in path;
    }
  }

  /** The commit goes through exactly when the target's ancestry reaches the frontier in the tree. */
  lemma CommitAcceptsIffPath(s: Store, target: Hash)
    requires StoreInv(s)
    ensures CommitStore(s, target) != s <==> exists path :: PathToFrontier(s, target, path)
    ensures CommitStore(s, target) != s ==> CommitStore(s, target).highest == Some(target)
  {
    var d := CommitDecision(s, target);
    if path :| PathToFrontier(s, target, path) {
      WalkIsPath(s, target, path);
      assert path[|path| - 1] in path;
      IndexedKeepsChain(s, target, |path|);
      WalkHeights(s, path, 0);
      WalkStartsAtFrontier(s, target);
      assert s.highest != Some(target);
    }
    if CommitStore(s, target) != s {
      IndexedKeepsChain(s, target, |d.hashes|);
      WalkInTree(s, target, HighestHeight(s));
      WalkStartsAtFrontier(s, target);
      assert PathToFrontier(s, target, d.hashes);
    }
  }

  /** `path` leads from `target` from each block to the one it names; only the last may be missing. */
  ghost predicate Ancestry(s: Store, target: Hash, path: seq<Hash>) {
    && path != [] && path[0] == target
    && (forall i | 0 <= i < |path| - 1 :: path[i] in s.blocks && s.blocks[path[i]].justify == Some(path[i + 1]))
  }

  /** The ancestry of `target` reaches a block that is missing. */
  ghost predicate ReachesMissing(s: Store, target: Hash) {
    exists path :: Ancestry(s, target, path) && path[|path| - 1] !in s.blocks
  }

  /** `target` and its ancestors down to the last of `path` are above the frontier, and below it is a hole:
      the block it names is missing, or is at or below the frontier and not the frontier. */
  ghost predicate AboveHole(s: Store, target: Hash, path: seq<Hash>) {
    && Ancestry(s, target, path)
    && (forall b | b in path :: b in s.blocks && HighestHeight(s).Some? && s.blocks[b].height > HighestHeight(s).value)
    && var next := s.blocks[path[|path| - 1]].justify;
    && next.Some? && next != s.highest
    && (next.value in s.blocks ==> s.blocks[next.value].height <= HighestHeight(s).value)
  }

  /** The walk stops on an ancestry whose end tells why. */
  lemma WalkEnds(s: Store, b: Hash, min: Option<nat>)
    requires Linked(s) && AboveFrontier(s, b, min)
    ensures var w := Uncommitted(s, b, min);
      && Ancestry(s, b, w) && (forall x | x in w :: AboveFrontier(s, x, min))
      && var next := ParentOf(s, w[|w| - 1]); (next.Some? ==> !AboveFrontier(s, next.value, min))
    decreases WalkRank(s, b)
  {
    var next := ParentOf(s, b);
    if next.Some? {
      if AboveFrontier(s, next.value, min) {
        WalkEnds(s, next.value, min);
        var w, rest := Uncommitted(s, b, min), Uncommitted(s, next.value, min);
        assert w == [b] + rest && w[|w| - 1] == rest[|rest| - 1];
        assert Ancestry(s, b, w);
      } else {
        assert Uncommitted(s, next.value, min) == [];
        assert Uncommitted(s, b, min) == [b];
      }
    }
  }

  /** An ancestry above the frontier that stops where the walk stops is the walk. */
  lemma WalkFollows(s: Store, b: Hash, min: Option<nat>, path: seq<Hash>)
    requires Linked(s) && Ancestry(s, b, path) && (forall x | x in path :: AboveFrontier(s, x, min))
    requires ParentOf(s, path[|path| - 1]).Some? ==> !AboveFrontier(s, ParentOf(s, path[|path| - 1]).value, min)
    ensures Uncommitted(s, b, min) == path
    decreases |path|
  {
    assert path[0] in path;
    if |path| > 1 {
      var rest := path[1..];
      assert rest[|rest| - 1] == path[|path| - 1];
      assert forall x | x in rest :: x in path;
      WalkFollows(s, path[1], min, rest);
      assert path == [b] + rest;
    } else {
      assert path == [b];
      if ParentOf(s, b).Some? { assert Uncommitted(s, ParentOf(s, b).value, min) == []; }
    }
  }

  /** When a commit errs and when it is put off. */
  lemma CommitReports(s: Store, target: Hash)
    requires StoreInv(s)
    ensures CommitDecision(s, target).Failed? <==> HighestHeight(s).None? && ReachesMissing(s, target)
    ensures CommitDecision(s, target).Deferred? <==> exists path :: AboveHole(s, target, path)
  {
    var min, w := HighestHeight(s), Uncommitted(s, target, HighestHeight(s));
    if AboveFrontier(s, target, min) { WalkEnds(s, target, min); }
    if w != [] { assert w[|w| - 1] in w; }
    if CommitDecision(s, target).Failed? { assert Ancestry(s, target, w); }
    if CommitDecision(s, target).Deferred? { assert AboveHole(s, target, w); }
    if HighestHeight(s).None? && ReachesMissing(s, target) {
      var path :| Ancestry(s, target, path) && path[|path| - 1] !in s.blocks;
      WalkFollows(s, target, min, path);
    }
    if path :| AboveHole(s, target, path) { WalkFollows(s, target, min, path); }
  }

  /** Committing a child of the frontier indexes that one block. */
  lemma CommitChild(s: Store, b: Hash)
    requires StoreInv(s) && b in s.blocks && s.blocks[b].justify == s.highest
    ensures CommitStore(s, b) == s.(index := s.index[s.blocks[b].height := b], highest := Some(b))
  {
    assert PathToFrontier(s, b, [b]);
    WalkIsPath(s, b, [b]);
    assert CommitDecision(s, b) == Committed([b]);
    assert Indexed(s, [b], 0) == s;
    assert [b][1 - 1] == b;
  }

  // ------------------------------------------------------------------ the pruner

  /** The heights one prune call deletes: from the prune height up to the horizon, at most one batch. */
  function PruneEnd(s: Store, retention: nat): nat {
    if HighestHeight(s).None? || HighestHeight(s).value <= retention then Lowest(s)
    else
      var horizon := HighestHeight(s).value - retention;
      if Lowest(s) >= horizon then Lowest(s)
      else if horizon <= Lowest(s) + PRUNE_BATCH_MAX then horizon
      else Lowest(s) + PRUNE_BATCH_MAX
  }

  /** Delete the record and the index entry of one height. */
  function PruneHeight(s: Store, h: nat): Store {
    if h in s.index then s.(blocks := s.blocks - {s.index[h]}, index := s.index - {h}) else s
  }

  lemma PruneHeightCounts(s: Store, h: nat)
    requires h in s.index
    ensures |PruneHeight(s, h).index| == |s.index| - 1
  {
    assert s.index.Keys == PruneHeight(s, h).index.Keys + {h};
  }

  ghost function PruneRange(s: Store, lo: nat, end: nat): Store
    requires lo <= end
    decreases end
  {
    if lo == end then s else PruneHeight(PruneRange(s, lo, end - 1), end - 1)
  }

  ghost function PruneStore(s: Store, retention: nat): Store {
    var lo, end := Lowest(s), PruneEnd(s, retention);
    if end == lo then s else PruneRange(s, lo, end).(pruned := Some(end))
  }

  /** Pruning keeps the chain above the new prune height and never touches the retained window or the frontier. */
  lemma PruneKeepsOneChain(s: Store, retention: nat)
    requires StoreInv(s)
    ensures var t := PruneStore(s, retention);
      && StoreInv(t) && (OneChain(s) ==> OneChain(t))
      && t.highest == s.highest && HighestHeight(t) == HighestHeight(s) && t.fed == s.fed
      && Lowest(s) <= Lowest(t)
      && (forall h: nat | Readable(s, h) && HighestHeight(s).Some? && h + retention >= HighestHeight(s).value ::
            Readable(t, h) && t.index[h] == s.index[h])
  {
    var lo, end := Lowest(s), PruneEnd(s, retention);
    PruneRangeDeletes(s, lo, end);
    PruneRangeReadable(s, lo, end);
    var t := PruneStore(s, retention);
    if end != lo {
      var top := HighestHeight(s).value;
      if s.highest.value !in t.blocks {
        var h: nat :| lo <= h < end && h in s.index && s.index[h] == s.highest.value;
        assert Readable(s, h);
      }
      assert HighestHeight(t) == Some(top);
      forall h: nat | Readable(t, h) ensures t.blocks[t.index[h]].height == h {
        assert Readable(s, h);
      }
      if OneChain(s) { PrunedStaysOneChain(s, t, end); }
    }
  }

  lemma PrunedStaysOneChain(s: Store, t: Store, end: nat)
    requires OneChain(s) && HighestHeight(s).Some? && HighestHeight(t) == HighestHeight(s)
    requires t.highest == s.highest && t.pruned == Some(end) && Lowest(s) <= end <= HighestHeight(s).value
    requires forall h: nat :: Readable(t, h) <==> Readable(s, h) && !(Lowest(s) <= h < end)
    requires forall h | h in t.index :: h in s.index && t.index[h] == s.index[h]
    requires forall b | b in t.blocks :: b in s.blocks && t.blocks[b] == s.blocks[b]
    ensures OneChain(t)
  {
    forall h | end < h <= HighestHeight(s).value && Readable(t, h) && Readable(t, h - 1)
      ensures t.blocks[t.index[h]].justify == Some(t.index[h - 1])
    {
      assert Readable(s, h) && Readable(s, h - 1);
    }
  }

  /** What a prune deletes: the index of the range, and records that range pointed at. */
  lemma PruneRangeDeletes(s: Store, lo: nat, end: nat)
    requires lo <= end
    ensures var t := PruneRange(s, lo, end);
      && t.highest == s.highest && t.pruned == s.pruned && t.fed == s.fed
      && t.index == (map h | h in s.index && !(lo <= h < end) :: s.index[h])
      && (forall b | b in t.blocks :: b in s.blocks && t.blocks[b] == s.blocks[b])
      && (forall b | b in s.blocks && b !in t.blocks :: exists h: nat :: lo <= h < end && h in s.index && s.index[h] == b)
    decreases end
  {
    if lo < end {
      PruneRangeDeletes(s, lo, end - 1);
    }
  }

  /** A prune leaves exactly the readable heights outside the range, each at the block it had. */
  lemma PruneRangeReadable(s: Store, lo: nat, end: nat)
    requires WellIndexed(s) && lo <= end
    ensures var t := PruneRange(s, lo, end);
      forall h: nat :: Readable(t, h) <==> Readable(s, h) && !(lo <= h < end)
  {
    PruneRangeDeletes(s, lo, end);
    var t := PruneRange(s, lo, end);
    forall h: nat ensures Readable(t, h) <==> Readable(s, h) && !(lo <= h < end) {
      if Readable(s, h) && !(lo <= h < end) && s.index[h] !in t.blocks {
        var k: nat :| lo <= k < end && k in s.index && s.index[k] == s.index[h];
        assert Readable(s, k);
      }
    }
  }

  /** There are committed heights below the retention window that are not pruned yet. */
  predicate PruneDue(s: Store, retention: nat) {
    HighestHeight(s).Some? && Lowest(s) + retention < HighestHeight(s).value
  }

  function Min(a: nat, b: nat): nat {
    if a < b then a else b
  }

  /** A prune deletes 64 heights or all below the window, whichever is less, and is otherwise no change. */
  ghost predicate Pruned(s: Store, retention: nat, t: Store) {
    if !PruneDue(s, retention) then t == s
    else
      && t.pruned == Some(Min(HighestHeight(s).value - retention, Lowest(s) + 64))
      && t.highest == s.highest && t.fed == s.fed
      && (forall h: nat :: Readable(t, h) <==> Readable(s, h) && Lowest(t) <= h)
      && (forall h | Readable(t, h) :: t.index[h] == s.index[h] && t.blocks[t.index[h]] == s.blocks[s.index[h]])
  }

  lemma PruneIsOneBatch(s: Store, retention: nat)
    requires StoreInv(s)
    ensures Pruned(s, retention, PruneStore(s, retention))
  {
    var lo, end := Lowest(s), PruneEnd(s, retention);
    PruneRangeDeletes(s, lo, end);
    PruneRangeReadable(s, lo, end);
    var t, u := PruneStore(s, retention), PruneRange(s, lo, end);
    forall h: nat ensures Readable(t, h) <==> Readable(u, h) {}
  }

  ghost function PruneTimes(s: Store, retention: nat, n: nat): Store {
    if n == 0 then s else PruneStore(PruneTimes(s, retention, n - 1), retention)
  }

  /**
   Repeated prunes reach the retention window and stop there: after `n` calls the prune height is
   up by 64 heights a call, at most to the window, and exactly the heights below it are gone.
   */
  lemma {:induction false} PrunesDrain(s: Store, retention: nat, n: nat)
    requires StoreInv(s)
    ensures var t := PruneTimes(s, retention, n);
      && StoreInv(t) && t.highest == s.highest && HighestHeight(t) == HighestHeight(s) && t.fed == s.fed
      && Lowest(t) == (if PruneDue(s, retention)
                       then Min(HighestHeight(s).value - retention, Lowest(s) + 64 * n) else Lowest(s))
      && (forall h: nat :: Readable(t, h) <==> Readable(s, h) && Lowest(t) <= h)
  {
    if n == 0 {
      forall h: nat | Readable(s, h) ensures Lowest(s) <= h {}
    } else {
      var u := PruneTimes(s, retention, n - 1);
      PrunesDrain(s, retention, n - 1);
      PruneKeepsOneChain(u, retention);
      PruneIsOneBatch(u, retention);
    }
  }

  lemma {:induction false} PruneRangeCounts(s: Store, lo: nat, end: nat)
    requires lo <= end && forall h | lo <= h < end :: h in s.index
    ensures |PruneRange(s, lo, end).index| == |s.index| - (end - lo)
    decreases end
  {
    if lo < end {
      PruneRangeCounts(s, lo, end - 1);
      PruneRangeDeletes(s, lo, end - 1);
      PruneHeightCounts(PruneRange(s, lo, end - 1), end - 1);
    }
  }

  /** On a whole chain a prune deletes one block for every height it passes. */
  lemma PruneCounts(s: Store, retention: nat)
    ensures var t := PruneStore(s, retention); OneChain(s) ==> |s.index| - |t.index| == Lowest(t) - Lowest(s)
  {
    var lo, end := Lowest(s), PruneEnd(s, retention);
    if OneChain(s) {
      forall h | lo <= h < end ensures h in s.index { assert Readable(s, h); }
      PruneRangeCounts(s, lo, end);
    }
  }

  // ------------------------------------------------------------------ the mutable tree

  class Tree {
    var blocks: map<Hash, Block>
    var index: map<nat, Hash>
    var highest: Option<Hash>
    var pruned: Option<nat>
    var fed: Option<nat>

    function Durable(): Store reads this {
      Store(blocks, index, highest, pruned, fed)
    }

    /** Follow the justifies down from `target` while the blocks are above the frontier, newest first. */
    method WalkUncommitted(target: Hash) returns (walk: seq<Hash>)
      requires Linked(Durable())
      ensures walk == Uncommitted(Durable(), target, HighestHeight(Durable()))
    {
      ghost var s := Durable();
      var min := HighestHeight(Durable());
      walk := [];
      var next: Option<Hash> := Some(target);
      while next.Some? && AboveFrontier(Durable(), next.value, min)
        invariant Uncommitted(s, target, min) ==
          walk + (if next.Some? then Uncommitted(s, next.value, min) else [])
        decreases if next.Some? then WalkRank(s, next.value) + 1 else 0
      {
        walk := walk + [next.value];
        next := ParentOf(Durable(), next.value);
      }
    }

    /** Index the walked blocks oldest first, moving the committed frontier with each. */
    method IndexWalk(walk: seq<Hash>)
      requires forall b | b in walk :: b in blocks
      modifies this
      ensures Durable() == Indexed(old(Durable()), walk, |walk|)
    {
      ghost var s := Durable();
      var n := 0;
      while n < |walk|
        invariant n <= |walk|
        invariant Durable() == Indexed(s, walk, n)
        invariant blocks == s.blocks
      {
        n := n + 1;
        var b := walk[|walk| - n];
        assert b in walk;
        index := index[blocks[b].height := b];
        highest := Some(b);
      }
    }

    /** Commit `target` and its uncommitted ancestors, unless that would cross a hole. */
    method Commit(target: Hash) returns (outcome: CommitOutcome)
      requires Linked(Durable())
      modifies this
      ensures Durable() == CommitStore(old(Durable()), target)
      ensures outcome == CommitDecision(old(Durable()), target)
    {
      var walk := WalkUncommitted(target);
      if walk == [] {
        return Committed([]);
      }
      var lowest := walk[|walk| - 1];
      if lowest !in blocks {
        return Failed;
      }
      if !ChainsToFrontier(Durable(), lowest) {
        return Deferred;
      }
      WalkInTree(Durable(), target, HighestHeight(Durable()));
      IndexWalk(walk);
      return Committed(walk);
    }

    /** Delete the record and the index entry of every height of lo..<end. */
    method DeleteHeights(lo: nat, end: nat) returns (count: nat)
      requires lo <= end
      modifies this`blocks, this`index
      ensures Durable() == PruneRange(old(Durable()), lo, end)
      ensures count == |old(index)| - |index|
    {
      ghost var s := Durable();
      count := 0;
      var h := lo;
      while h < end
        invariant lo <= h <= end
        invariant Durable() == PruneRange(s, lo, h)
        invariant count == |s.index| - |index|
      {
        if h in index {
          PruneHeightCounts(Durable(), h);
          blocks, index := blocks - {index[h]}, index - {h};
          count := count + 1;
        }
        h := h + 1;
      }
    }

    /** Delete the committed blocks below the retention horizon, one batch at a time. */
    method PruneOldCommittedBlocks(retention: nat) returns (count: nat)
      requires StoreInv(Durable())
      modifies this
      ensures Durable() == PruneStore(old(Durable()), retention)
      ensures Pruned(old(Durable()), retention, Durable())
      ensures count == |old(index)| - |index|
      ensures OneChain(old(Durable())) ==> count == Lowest(Durable()) - Lowest(old(Durable()))
    {
      hide Pruned, OneChain, StoreInv;
      PruneIsOneBatch(Durable(), retention);
      PruneCounts(Durable(), retention);
      count := 0;
      var lo, end := Lowest(Durable()), PruneEnd(Durable(), retention);
      if lo < end {
        count := DeleteHeights(lo, end);
        pruned := Some(end);
      }
    }
  }
}
