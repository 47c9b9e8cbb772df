/**
 What a commit deletes: for every block it commits, the branches that start at the block's siblings.
 */
module SiblingDeletion {
  import opened Options
  import opened BlockTree

  /** Each block of `path` is in the tree and justified by the next. */
  ghost predicate Ancestry(s: Store, path: seq<Hash>) {
    && path != []
    && (forall x | x in path :: x in s.blocks)
    && (forall i | 0 <= i < |path| - 1 :: s.blocks[path[i]].justify == Some(path[i + 1]))
  }

  /** `path` leads from `b` through its ancestors to a sibling of `c`. */
  ghost predicate ToSibling(s: Store, c: Hash, b: Hash, path: seq<Hash>) {
    && c in s.blocks && Ancestry(s, path) && path[0] == b
    && path[|path| - 1] != c && s.blocks[path[|path| - 1]].justify == s.blocks[c].justify
  }

  /** The block lies in the branch of a sibling of a block being committed. */
  ghost predicate Dropped(s: Store, walk: seq<Hash>, b: Hash) {
    exists c, path :: c in walk && ToSibling(s, c, b, path)
  }

  /** The tree once the committed blocks' siblings are gone with their branches. */
  ghost function DropSiblings(s: Store, walk: seq<Hash>): Store {
    s.(blocks := map b | b in s.blocks && !Dropped(s, walk, b) :: s.blocks[b])
  }

  /** A commit with its deletions. */
  ghost function CommitAndDrop(s: Store, target: Hash): Store
    requires Linked(s)
  {
    var d := CommitDecision(s, target);
    if d.Committed? then DropSiblings(CommitStore(s, target), d.hashes) else s
  }

  /** Two lines of ancestors from one block are the same as far as both go. */
  lemma {:induction false} AncestorsAreUnique(s: Store, line: seq<Hash>, path: seq<Hash>, i: nat)
    requires Ancestry(s, line) && Ancestry(s, path) && line[0] == path[0] && i < |line| && i < |path|
    ensures line[i] == path[i]
  {
    if i > 0 { AncestorsAreUnique(s, line, path, i - 1); }
  }

  /** Siblings have one height when their parent is known. */
  lemma SiblingHeight(s: Store, c: Hash, sib: Hash)
    requires Linked(s) && c in s.blocks && sib in s.blocks && s.blocks[c].justify == s.blocks[sib].justify
    requires s.blocks[c].justify.Some? ==> s.blocks[c].justify.value in s.blocks
    ensures s.blocks[c].height == s.blocks[sib].height
  {
  }

  /** A block is in no sibling's branch if every committed block at or below its height is its ancestor. */
  lemma AncestorsKeep(s: Store, walk: seq<Hash>, line: seq<Hash>)
    requires Linked(s) && Ancestry(s, line)
    requires forall c | c in walk ::
      && c in s.blocks && (s.blocks[c].justify.Some? ==> s.blocks[c].justify.value in s.blocks)
      && (s.blocks[c].height <= s.blocks[line[0]].height ==> c in line)
    ensures !Dropped(s, walk, line[0])
  {
    forall c, path | c in walk && ToSibling(s, c, line[0], path) ensures false {
      var sib := path[|path| - 1];
      SiblingHeight(s, c, sib);
      WalkHeights(s, path, 0);
      assert c in line;
      var j :| 0 <= j < |line| && line[j] == c;
      WalkHeights(s, line, 0);
      WalkHeights(s, line, j);
      AncestorsAreUnique(s, line, path, j);
    }
  }

  /** The walked blocks have their parents in the tree and lie above everything indexed. */
  lemma WalkIsAbove(s: Store, target: Hash)
    requires StoreInv(s) && CommitDecision(s, target).Committed? && CommitDecision(s, target).hashes != []
    ensures var w := CommitDecision(s, target).hashes;
      && Ancestry(s, w)
      && forall i | 0 <= i < |w| ::
        && (s.blocks[w[i]].justify.Some? ==> s.blocks[w[i]].justify.value in s.blocks)
        && s.blocks[w[i]].height >= NextHeight(s)
  {
    var w := CommitDecision(s, target).hashes;
    WalkInTree(s, target, HighestHeight(s));
    WalkStartsAtFrontier(s, target);
    forall i | 0 <= i < |w|
      ensures w[i] in s.blocks && (s.blocks[w[i]].justify.Some? ==> s.blocks[w[i]].justify.value in s.blocks)
      ensures s.blocks[w[i]].height >= NextHeight(s)
    {
      assert w[i] in w;
      WalkHeights(s, w, i);
      if i < |w| - 1 { assert w[i + 1] in w; }
    }
  }

  /** What is indexed after a commit was indexed before it or has just been committed. */
  lemma {:induction false} IndexedContents(s: Store, w: seq<Hash>, n: nat, h: nat)
    requires n <= |w| && (forall b | b in w :: b in s.blocks) && h in Indexed(s, w, n).index
    ensures var t := Indexed(s, w, n);
      t.blocks == s.blocks && (t.index[h] in w || (h in s.index && t.index[h] == s.index[h]))
  {
    if n > 0 && h in Indexed(s, w, n - 1).index { IndexedContents(s, w, n - 1, h); }
    BlocksStay(s, w, n);
  }

  lemma {:induction false} BlocksStay(s: Store, w: seq<Hash>, n: nat)
    requires n <= |w| && forall b | b in w :: b in s.blocks
    ensures Indexed(s, w, n).blocks == s.blocks
  {
    if n > 0 { BlocksStay(s, w, n - 1); }
  }

  /** No indexed block lies in the branch of a sibling of a block being committed. */
  lemma IndexedIsKept(s: Store, target: Hash, h: nat)
    requires StoreInv(s) && CommitDecision(s, target).Committed? && Readable(CommitStore(s, target), h)
    ensures var t := CommitStore(s, target); !Dropped(t, CommitDecision(s, target).hashes, t.index[h])
  {
    var w, t := CommitDecision(s, target).hashes, CommitStore(s, target);
    CommitKeepsOneChain(s, target);
    if w != [] {
      WalkIsAbove(s, target);
      IndexedContents(s, w, |w|, h);
      if t.index[h] in w {
        var k :| 0 <= k < |w| && w[k] == t.index[h];
        KeptOnWalk(t, w, k);
      } else {
        assert Readable(s, h) && h < NextHeight(s);
        forall c | c in w ensures t.blocks[c].height > h {}
        AncestorsKeep(t, w, [t.index[h]]);
      }
    }
  }

  lemma KeptOnWalk(t: Store, w: seq<Hash>, k: nat)
    requires Linked(t) && Ancestry(t, w) && k < |w|
    requires forall c | c in w :: t.blocks[c].justify.Some? ==> t.blocks[c].justify.value in t.blocks
    ensures !Dropped(t, w, w[k])
  {
    forall c | c in w && t.blocks[c].height <= t.blocks[w[k]].height ensures c in w[k..] {
      var i :| 0 <= i < |w| && w[i] == c;
      WalkHeights(t, w, i);
      WalkHeights(t, w, k);
      assert w[k..][i - k] == c;
    }
    AncestorsKeep(t, w, w[k..]);
  }

  /**
   Deleting the siblings deletes no committed block: the frontier, the index and every readable
   height stay, and with them the store invariant and the single chain.
   */
  lemma DeletionKeepsOneChain(s: Store, target: Hash)
    requires StoreInv(s)
    ensures var t, u := CommitStore(s, target), CommitAndDrop(s, target);
      && StoreInv(u) && (OneChain(s) ==> OneChain(u))
      && u == t.(blocks := u.blocks) && HighestHeight(u) == HighestHeight(t)
      && forall h :: Readable(u, h) <==> Readable(t, h)
  {
    var d, t, u := CommitDecision(s, target), CommitStore(s, target), CommitAndDrop(s, target);
    CommitKeepsOneChain(s, target);
    if d.Committed? {
      forall h | Readable(t, h) ensures Readable(u, h) && u.blocks[u.index[h]] == t.blocks[t.index[h]] {
        IndexedIsKept(s, target, h);
      }
      FrontierIsKept(s, target);
      hide Dropped;
    }
  }

  /** The committed frontier is not deleted, even where the index has lost it. */
  lemma FrontierIsKept(s: Store, target: Hash)
    requires StoreInv(s) && CommitDecision(s, target).Committed?
    ensures var t := CommitStore(s, target);
      t.highest.Some? ==> !Dropped(t, CommitDecision(s, target).hashes, t.highest.value)
  {
    var w, t := CommitDecision(s, target).hashes, CommitStore(s, target);
    if w != [] {
      CommitKeepsOneChain(s, target);
      IndexedKeepsChain(s, target, |w|);
      WalkIsAbove(s, target);
      KeptOnWalk(t, w, 0);
    }
  }

  /** Every sibling of a committed block is deleted. */
  lemma SiblingsGo(s: Store, target: Hash, c: Hash, sib: Hash)
    requires StoreInv(s) && CommitDecision(s, target).Committed? && c in CommitDecision(s, target).hashes
    requires c in s.blocks && sib in s.blocks && sib != c && s.blocks[sib].justify == s.blocks[c].justify
    ensures sib !in CommitAndDrop(s, target).blocks
  {
    CommitKeepsOneChain(s, target);
    assert ToSibling(CommitStore(s, target), c, sib, [sib]);
  }
}
