/**
 The undo log of the balance cache, and the cache as the mutable object the executor holds.
 */
module BalanceUndo {
  import opened Options
  import opened BalanceCache

  // ------------------------------------------------------------------ the region

  function Begin(c: Flagged): Flagged {
    c.(undo := Some(Undo(|c.dirty|, [])))
  }

  function Commit(c: Flagged): Flagged {
    c.(undo := None, latched := map[])
  }

  function RestoreOne(entries: map<Address, Entry>, p: Prior): map<Address, Entry> {
    if p.entry.None? then entries - {p.addr}
    else if p.addr in entries then entries[p.addr := Entry(p.entry.value.0, p.entry.value.1, false)]
    else entries
  }

  /** Undo the log from its last entry to its first. */
  function Restore(entries: map<Address, Entry>, prior: seq<Prior>): map<Address, Entry> {
    if prior == [] then entries
    else Restore(RestoreOne(entries, prior[|prior| - 1]), prior[..|prior| - 1])
  }

  function Truncate(s: seq<Address>, n: nat): seq<Address> {
    if n < |s| then s[..n] else s
  }

  function Rollback(c: Flagged): Flagged {
    if c.undo.None? then c
    else c.(entries := Restore(c.entries, c.undo.value.prior), dirty := Truncate(c.dirty, c.undo.value.dirtyLen),
        undo := None)
  }

  /** Inside a region the backend is frozen: only loads and sets happen, and a load's fault is noted. */
  datatype RegionOp = RegionLoad(addr: Address, read: Option<Fault>) | RegionSet(addr: Address, balance: Balance)

  function RegionStep(c: Flagged, rows: map<Address, Balance>, op: RegionOp): Flagged {
    match op
    case RegionLoad(a, read) =>
      var r := LoadResult(c, rows, a, read);
      if r.Failed? then FlagNote(FlagLoad(c, rows, a, read), a, r.fault) else FlagLoad(c, rows, a, read)
    case RegionSet(a, b) => FlagSet(c, a, b)
  }

  function Region(c: Flagged, rows: map<Address, Balance>, ops: seq<RegionOp>): Flagged {
    if ops == [] then c else RegionStep(Region(c, rows, ops[..|ops| - 1]), rows, ops[|ops| - 1])
  }

  // ------------------------------------------------------------------ what a region keeps

  predicate InLog(prior: seq<Prior>, a: Address) {
    exists i :: 0 <= i < |prior| && prior[i].addr == a
  }

  ghost predicate DistinctLog(prior: seq<Prior>) {
    forall i, j | 0 <= i < j < |prior| :: prior[i].addr != prior[j].addr
  }

  /** What an address held before the region set it: its entry, the row it loaded, or nothing. */
  ghost predicate Original(c: Flagged, rows: map<Address, Balance>, a: Address, e: Option<(Balance, bool)>) {
    if a in c.entries then e == Some((c.entries[a].balance, c.entries[a].dirty))
    else e.None? || e == Some((Lookup(rows, a), false))
  }

  /** `x` is the cache inside a region that began at `c`. */
  ghost predicate InRegion(c: Flagged, rows: map<Address, Balance>, x: Flagged) {
    && x.undo.Some? && x.undo.value.dirtyLen == |c.dirty|
    && |c.dirty| <= |x.dirty| && x.dirty[..|c.dirty|] == c.dirty
    && var prior := x.undo.value.prior;
    && DistinctLog(prior)
    && (forall i | 0 <= i < |prior| :: Original(c, rows, prior[i].addr, prior[i].entry) && prior[i].addr in x.entries)
    && (forall a | a in x.entries :: x.entries[a].logged <==> InLog(prior, a))
    && (forall a | a in c.entries :: a in x.entries)
    && (forall a | a in x.entries && !InLog(prior, a) ::
          Original(c, rows, a, Some((x.entries[a].balance, x.entries[a].dirty))))
  }

  lemma InLogSnoc(p: seq<Prior>, x: Prior, z: Address)
    ensures InLog(p + [x], z) <==> InLog(p, z) || z == x.addr
  {
    var q := p + [x];
    assert q[|p|] == x;
    if InLog(p, z) {
      var i :| 0 <= i < |p| && p[i].addr == z;
      assert q[i].addr == z;
    }
  }

  lemma LoadInRegion(c: Flagged, rows: map<Address, Balance>, x: Flagged, a: Address, read: Option<Fault>)
    requires InRegion(c, rows, x)
    ensures InRegion(c, rows, RegionStep(x, rows, RegionLoad(a, read)))
  {
  }

  lemma SetInRegion(c: Flagged, rows: map<Address, Balance>, x: Flagged, a: Address, b: Balance)
    requires InRegion(c, rows, x)
    ensures InRegion(c, rows, FlagSet(x, a, b))
  {
    var y := FlagSet(x, a, b);
    var p, q := x.undo.value.prior, y.undo.value.prior;
    if a in x.entries && x.entries[a].logged {
      assert q == p;
    } else {
      assert !InLog(p, a);
      assert q == p + [q[|p|]] && q[|p|].addr == a;
      forall z ensures InLog(q, z) <==> InLog(p, z) || z == a { InLogSnoc(p, q[|p|], z); }
    }
  }

  lemma {:induction false} RegionKeeps(c: Flagged, rows: map<Address, Balance>, ops: seq<RegionOp>)
    requires forall a | a in c.entries :: !c.entries[a].logged
    ensures InRegion(c, rows, Region(Begin(c), rows, ops))
  {
    if ops != [] {
      hide InRegion;
      RegionKeeps(c, rows, ops[..|ops| - 1]);
      var x, op := Region(Begin(c), rows, ops[..|ops| - 1]), ops[|ops| - 1];
      if op.RegionLoad? {
        LoadInRegion(c, rows, x, op.addr, op.read);
      } else {
        SetInRegion(c, rows, x, op.addr, op.balance);
      }
    }
  }

  // ------------------------------------------------------------------ rolling back

  /** An address outside the log is untouched; one in it gets its prior value back. */
  lemma {:induction false} RestoreAt(entries: map<Address, Entry>, prior: seq<Prior>, a: Address)
    requires DistinctLog(prior) && forall i | 0 <= i < |prior| :: prior[i].addr in entries
    ensures var r := Restore(entries, prior);
      && (!InLog(prior, a) ==> (a in r <==> a in entries) && (a in r ==> r[a] == entries[a]))
      && (forall i | 0 <= i < |prior| && prior[i].addr == a ::
            (a in r <==> prior[i].entry.Some?)
                && (a in r ==> r[a] == Entry(prior[i].entry.value.0, prior[i].entry.value.1, false)))
    decreases |prior|
  {
    if prior != [] {
      var n := |prior| - 1;
      var p, init := prior[n], prior[..n];
      var mid := RestoreOne(entries, p);
      assert forall i | 0 <= i < n :: init[i].addr in mid;
      RestoreAt(mid, init, a);
      assert InLog(prior, a) <==> InLog(init, a) || p.addr == a;
    }
  }

  /** The cache is back at `c`, but for clean entries that hold what the backend holds. */
  ghost predicate Restored(c: Flagged, rows: map<Address, Balance>, r: Flagged) {
    && r.undo.None? && r.dirty == c.dirty
    && (forall a | a in c.entries ::
          a in r.entries && r.entries[a].balance == c.entries[a].balance && r.entries[a].dirty == c.entries[a].dirty)
    && (forall a | a in r.entries && a !in c.entries :: r.entries[a].balance == Lookup(rows, a) && !r.entries[a].dirty)
  }

  lemma RollbackInRegion(c: Flagged, rows: map<Address, Balance>, x: Flagged)
    requires InRegion(c, rows, x)
    ensures Restored(c, rows, Rollback(x))
  {
    var prior, r := x.undo.value.prior, Rollback(x);
    forall a | a in c.entries ensures a in r.entries && r.entries[a].balance == c.entries[a].balance
        && r.entries[a].dirty == c.entries[a].dirty {
      RestoreAt(x.entries, prior, a);
      if InLog(prior, a) { var i :| 0 <= i < |prior| && prior[i].addr == a; }
    }
    forall a | a in r.entries && a !in c.entries ensures r.entries[a].balance == Lookup(rows, a) && !r.entries[a].dirty {
      RestoreAt(x.entries, prior, a);
      if InLog(prior, a) { var i :| 0 <= i < |prior| && prior[i].addr == a; }
    }
  }

  /** Rolling back any region that began at `c` restores `c`. */
  ghost predicate AlwaysRestores(c: Flagged, rows: map<Address, Balance>) {
    forall ops: seq<RegionOp> :: Restored(c, rows, Rollback(Region(Begin(c), rows, ops)))
  }

  /**
   Exactly when the undo log undoes: a rollback restores the cache after every region of loads and
   sets if and only if no entry was marked as logged when the region began.
   */
  lemma RollbackRestoresIff(c: Flagged, rows: map<Address, Balance>)
    ensures AlwaysRestores(c, rows) <==> forall a | a in c.entries :: !c.entries[a].logged
  {
    if forall a | a in c.entries :: !c.entries[a].logged {
      forall ops: seq<RegionOp> ensures Restored(c, rows, Rollback(Region(Begin(c), rows, ops))) {
        RegionKeeps(c, rows, ops);
        RollbackInRegion(c, rows, Region(Begin(c), rows, ops));
      }
    } else {
      var a :| a in c.entries && c.entries[a].logged;
      LoggedEntryEscapes(c, rows, a);
    }
  }

  /** An entry already marked as logged is not logged again, so its change survives the rollback. */
  lemma LoggedEntryEscapes(c: Flagged, rows: map<Address, Balance>, a: Address)
    requires a in c.entries && c.entries[a].logged
    ensures !Restored(c, rows, Rollback(Region(Begin(c), rows, [RegionSet(a, c.entries[a].balance + 1)])))
  {
    var op := RegionSet(a, c.entries[a].balance + 1);
    assert [op][..0] == [];
    assert Region(Begin(c), rows, [op]) == RegionStep(Begin(c), rows, op);
    var x := FlagSet(Begin(c), a, c.entries[a].balance + 1);
    assert x.undo == Some(Undo(|c.dirty|, []));
    assert Rollback(x).entries == x.entries;
  }

  /** Committing a region leaves its entries marked, so a second region of the same cache cannot be rolled back. */
  lemma CommitLeavesMarks(c: Flagged, rows: map<Address, Balance>, a: Address, b: Balance)
    ensures !AlwaysRestores(Commit(FlagSet(Begin(c), a, b)), rows)
  {
    var d := Commit(FlagSet(Begin(c), a, b));
    assert a in d.entries && d.entries[a].logged;
    RollbackRestoresIff(d, rows);
  }

  lemma {:induction false} NoRegionNoLog(c: Flagged, rows: map<Address, Balance>, ops: seq<RegionOp>)
    requires c.undo.None?
    ensures Region(c, rows, ops).undo.None?
  {
    if ops != [] { NoRegionNoLog(c, rows, ops[..|ops| - 1]); }
  }

  /**
   A committed region stands: its entries and dirty list stay as they are, nothing done since can be
   rolled back, and a load gets the entry or what the backend gives, never a fault the region kept.
   */
  lemma CommittedRegionStands(c: Flagged, rows: map<Address, Balance>, later: seq<RegionOp>, a: Address,
                              read: Option<Fault>)
    ensures var d := Commit(c);
      && d.entries == c.entries && d.dirty == c.dirty
      && Rollback(Region(d, rows, later)) == Region(d, rows, later)
      && LoadResult(d, rows, a, read)
         == if a in c.entries then Got(c.entries[a].balance)
            else if read.Some? then Failed(read.value)
            else Got(Lookup(rows, a))
  {
    NoRegionNoLog(Commit(c), rows, later);
  }

  // ------------------------------------------------------------------ the object

  ghost function Balances(entries: map<Address, Entry>): map<Address, Balance> {
    map a | a in entries :: entries[a].balance
  }

  /** The write loop of a flush, stopping at the first failed write. */
  method PutAll(b: Backend, addrs: seq<Address>, entries: map<Address, Entry>, fail: Option<nat>)
      returns (after: Backend, ok: bool)
    requires forall a | a in addrs :: a in entries
    ensures after == FlushTo(b, addrs, Balances(entries), fail) && (ok <==> !FlushFails(addrs, fail))
  {
    ghost var values := Balances(entries);
    after := b;
    assert Written(b.rows, addrs[..0], values) == b.rows && Attempts(addrs[..0], values) == [];
    hide Written, Attempts;
    for i := 0 to |addrs|
      invariant fail.Some? ==> i <= fail.value
      invariant forall a | a in addrs[..i] :: a in addrs
      invariant after == Backend(Written(b.rows, addrs[..i], values), b.writes + Attempts(addrs[..i], values))
    {
      var a := addrs[i];
      assert addrs[..i + 1] == addrs[..i] + [a];
      AttemptsSnoc(addrs[..i], a, values);
      if fail == Some(i) {
        after := after.(writes := after.writes + [(a, entries[a].balance)]);
        return after, false;
      }
      WrittenSnoc(b.rows, addrs[..i], a, values);
      after := Backend(after.rows[a := entries[a].balance], after.writes + [(a, entries[a].balance)]);
    }
    assert addrs[..|addrs|] == addrs;
    ok := true;
  }

  /** The rows a worker's cache would write. */
  ghost function DirtyRows(w: SetCache): map<Address, Balance>
    requires w.dirty <= w.cached.Keys
  {
    map a | a in w.dirty :: w.cached[a]
  }

  lemma MergeMeans(c: Flagged, w: Flagged)
    requires FlagsMatch(c) && FlagsMatch(w) && c.entries.Keys !! w.entries.Keys
    ensures var m := FlagMerge(c, w);
      && FlagsMatch(m)
      && (forall b: Backend :: State(SetForm(m), b) == SetStep(State(SetForm(c), b), Op.Merge(SetForm(w))))
      && (forall b: Backend | Coherent(SetForm(c), b.rows) && Coherent(SetForm(w), b.rows) ::
            && Coherent(SetForm(m), b.rows)
            && Through(State(SetForm(m), b)) == Through(State(SetForm(c), b)) + DirtyRows(SetForm(w)))
  {
    var m := FlagMerge(c, w);
    FlagMergeRefines(c, Backend(map[], []), w);
    forall b: Backend ensures State(SetForm(m), b) == SetStep(State(SetForm(c), b), Op.Merge(SetForm(w))) {
      FlagMergeRefines(c, b, w);
    }
    hide FlagMerge, SetStep, Through;
    forall b: Backend | Coherent(SetForm(c), b.rows) && Coherent(SetForm(w), b.rows)
      ensures Coherent(SetForm(m), b.rows)
      ensures Through(State(SetForm(m), b)) == Through(State(SetForm(c), b)) + DirtyRows(SetForm(w))
    {
      MergeRefines(State(SetForm(c), b), Op.Merge(SetForm(w)));
    }
  }

  /** The cache after `n` loads of one address in a row. */
  function AfterLoads(c: Flagged, rows: map<Address, Balance>, a: Address, n: nat): Flagged {
    if n == 0 then c else FlagLoad(AfterLoads(c, rows, a, n - 1), rows, a, None)
  }

  /** Outside a region, loads of an address raise its faults one by one in the order they were kept. */
  lemma {:induction false} LoadsRaiseInOrder(c: Flagged, rows: map<Address, Balance>, a: Address, n: nat)
    requires c.undo.None? && n <= |Faults(c.latched, a)|
    ensures var after := AfterLoads(c, rows, a, n);
      after.undo.None? && Faults(after.latched, a) == Faults(c.latched, a)[n..]
    ensures n < |Faults(c.latched, a)| ==> forall read ::
      LoadResult(AfterLoads(c, rows, a, n), rows, a, read) == Failed(Faults(c.latched, a)[n])
  {
    if n > 0 { LoadsRaiseInOrder(c, rows, a, n - 1); }
  }

  lemma RollbackKeepsFaults(c: Flagged)
    ensures Rollback(c).undo.None? && Rollback(c).latched == c.latched
  {
  }

  /** A fault kept inside a region is raised after the rollback, once the address's earlier ones are. */
  lemma NotedIsRaised(c: Flagged, a: Address, f: Fault)
    ensures var n := |Faults(c.latched, a)|;
      c.undo.Some? ==> forall rows, read: Option<Fault> ::
        LoadResult(AfterLoads(Rollback(FlagNote(c, a, f)), rows, a, n), rows, a, read) == Failed(f)
  {
    var n, back := |Faults(c.latched, a)|, Rollback(FlagNote(c, a, f));
    RollbackKeepsFaults(FlagNote(c, a, f));
    if c.undo.Some? {
      forall rows, read: Option<Fault> ensures LoadResult(AfterLoads(back, rows, a, n), rows, a, read) == Failed(f) {
        LoadsRaiseInOrder(back, rows, a, n);
      }
    }
  }

  class Cache {
    var entries: map<Address, Entry>
    var dirty: seq<Address>
    var undo: Option<Undo>
    var latched: map<Address, seq<Fault>>

    ghost function Value(): Flagged
      reads this
    {
      Flagged(entries, dirty, undo, latched)
    }

    constructor ()
      ensures Value() == EMPTY
    {
      entries, dirty, undo, latched := map[], [], None, map[];
    }

    /** The balance of `a`, read through on a miss; a failed read caches nothing, and a latched fault is raised first. */
    method Load(b: Backend, a: Address, read: Option<Fault>) returns (r: Loaded)
      requires FlagsMatch(Value())
      modifies this
      ensures FlagsMatch(Value()) && Value() == FlagLoad(old(Value()), b.rows, a, read)
      ensures State(SetForm(Value()), b) == SetStep(State(SetForm(old(Value())), b), Op.Load(a, r.Failed?))
      ensures r == LoadResult(old(Value()), b.rows, a, read)
      ensures r.Got? && Coherent(SetForm(old(Value())), b.rows) ==>
        r.balance == Lookup(Through(State(SetForm(old(Value())), b)), a)
    {
      FlagLoadRefines(Value(), b, a, read);
      if Coherent(SetForm(Value()), b.rows) && LoadResult(Value(), b.rows, a, read).Got? {
        FlagLoadReadsThrough(Value(), b, a, read);
      }
      if undo.None? && a in latched && latched[a] != [] {
        r := Failed(latched[a][0]);
        latched := latched[a := latched[a][1..]];
        return;
      }
      if a in entries { return Got(entries[a].balance); }
      if read.Some? { return Failed(read.value); }
      entries := entries[a := Entry(Lookup(b.rows, a), false, false)];
      return Got(Lookup(b.rows, a));
    }

    /** Keep a fault the caller's read hit, inside a region. */
    method NoteReadFault(a: Address, f: Fault)
      modifies this`latched
      ensures Value() == FlagNote(old(Value()), a, f)
      ensures old(undo).Some? ==> forall rows, read: Option<Fault> ::
        LoadResult(AfterLoads(Rollback(Value()), rows, a, |Faults(old(latched), a)|), rows, a, read) == Failed(f)
      ensures forall other | other != a :: Faults(latched, other) == Faults(old(latched), other)
      ensures SetForm(Value()) == SetForm(old(Value())) && (old(undo).None? ==> Value() == old(Value()))
    {
      NotedIsRaised(Value(), a, f);
      if undo.Some? {
        latched := latched[a := (if a in latched then latched[a] else []) + [f]];
      }
    }

    /** Update the balance, logging its prior value first inside a region. */
    method Set(a: Address, v: Balance)
      requires FlagsMatch(Value())
      modifies this
      ensures FlagsMatch(Value()) && Value() == FlagSet(old(Value()), a, v)
      ensures forall b: Backend :: State(SetForm(Value()), b) == SetStep(State(SetForm(old(Value())), b), Op.Set(a, v))
    {
      forall b: Backend { FlagSetRefines(Value(), b, a, v); }
      if a in entries {
        var e := entries[a];
        if undo.Some? && !e.logged {
          e := e.(logged := true);
          undo := Some(undo.value.(prior := undo.value.prior + [Prior(a, Some((e.balance, e.dirty)))]));
        }
        if !e.dirty { dirty := dirty + [a]; }
        entries := entries[a := e.(balance := v, dirty := true)];
      } else {
        if undo.Some? {
          undo := Some(undo.value.(prior := undo.value.prior + [Prior(a, None)]));
        }
        entries := entries[a := Entry(v, true, undo.Some?)];
        dirty := dirty + [a];
      }
    }

    /**
     Absorb a worker's cache; the caller guarantees disjoint keys. Over any backend both caches agree
     with, the merge is the set form's, so write-through gains exactly the worker's dirty rows.
     */
    method MergeDisjoint(w: Cache)
      requires FlagsMatch(Value()) && FlagsMatch(w.Value()) && entries.Keys !! w.entries.Keys
      modifies this
      ensures FlagsMatch(Value()) && undo == old(undo) && latched == old(latched)
      ensures forall b: Backend ::
        State(SetForm(Value()), b) == SetStep(State(SetForm(old(Value())), b), Op.Merge(SetForm(old(w.Value()))))
      ensures forall b: Backend | Coherent(SetForm(old(Value())), b.rows) && Coherent(SetForm(old(w.Value())), b.rows) ::
        && Coherent(SetForm(Value()), b.rows)
        && Through(State(SetForm(Value()), b))
           == Through(State(SetForm(old(Value())), b)) + DirtyRows(SetForm(old(w.Value())))
    {
      MergeMeans(Value(), w.Value());
      entries := entries + w.entries;
      dirty := dirty + w.dirty;
    }

    /**
     Write every dirty balance once, in address order; write number `fail` errs. A failed flush
     keeps every entry dirty.
     */
    method FlushAll(b: Backend, fail: Option<nat>) returns (after: Backend, ok: bool)
      requires FlagsMatch(Value())
      modifies this
      ensures FlagsMatch(Value())
      ensures State(SetForm(Value()), after) == SetStep(State(SetForm(old(Value())), b), Flush(fail))
      ensures ok <==> !FlushFails(old(dirty), fail)
      ensures ok ==> dirty == []
      ensures !ok ==> entries == old(entries) && forall a :: a in dirty <==> a in old(dirty)
    {
      FlagOrder(Value());
      SortKeepsFlags(Value());
      dirty := Sorted(dirty);
      after, ok := PutAll(b, dirty, entries, fail);
      if ok {
        FlagFlushedRefines(Value());
        ClearFlags();
      }
    }

    method ClearFlags()
      modifies this
      ensures Value() == FlagFlushed(old(Value()))
    {
      var before := entries;
      var i := 0;
      while i < |dirty|
        invariant 0 <= i <= |dirty| && entries.Keys == before.Keys && dirty == old(dirty)
        invariant undo == old(undo) && latched == old(latched)
        invariant forall a | a in before :: entries[a] == if a in dirty[..i] then before[a].(dirty := false) else before[a]
      {
        if dirty[i] in entries { entries := entries[dirty[i] := entries[dirty[i]].(dirty := false)]; }
        i := i + 1;
      }
      assert dirty[..i] == dirty;
      dirty := [];
    }

    /** Start a region; none may be open. */
    method BeginUndo()
      requires undo.None?
      modifies this
      ensures Value() == Begin(old(Value()))
    {
      undo := Some(Undo(|dirty|, []));
    }

    method CommitUndo()
      modifies this
      ensures Value() == Commit(old(Value()))
    {
      undo := None;
      latched := map[];
    }

    /** Put the logged values back, last first, and cut the dirty list. */
    method RollbackUndo()
      modifies this
      ensures Value() == Rollback(old(Value()))
    {
      if undo.None? { return; }
      var log := undo.value;
      undo := None;
      var i := |log.prior|;
      assert log.prior[..i] == log.prior;
      while i > 0
        invariant 0 <= i <= |log.prior| && undo.None? && dirty == old(dirty) && latched == old(latched)
        invariant Restore(entries, log.prior[..i]) == Restore(old(entries), log.prior)
      {
        i := i - 1;
        assert log.prior[..i + 1][..i] == log.prior[..i];
        var p := log.prior[i];
        if p.entry.Some? {
          if p.addr in entries { entries := entries[p.addr := Entry(p.entry.value.0, p.entry.value.1, false)]; }
        } else {
          entries := entries - {p.addr};
        }
      }
      if log.dirtyLen < |dirty| { dirty := dirty[..log.dirtyLen]; }
    }
  }

  lemma AttemptsSnoc(addrs: seq<Address>, a: Address, values: map<Address, Balance>)
    requires a in values && forall x | x in addrs :: x in values
    ensures Attempts(addrs + [a], values) == Attempts(addrs, values) + [(a, values[a])]
  {
  }

  lemma WrittenSnoc(rows: map<Address, Balance>, addrs: seq<Address>, a: Address, values: map<Address, Balance>)
    requires a in values && forall x | x in addrs :: x in values
    ensures Written(rows, addrs + [a], values) == Written(rows, addrs, values)[a := values[a]]
  {
  }
}
