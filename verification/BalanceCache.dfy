/**
 The write-back balance cache of one execution call: the set form (a map and a dirty set) as a
 refinement of writing every balance through, and the flag-and-vector form with its undo log as a
 refinement of the set form. Addresses are numbered in their byte order.
 */
module BalanceCache {
  import opened Options

  type Address = nat
  type Balance = int

  /** The stored rows and every write attempted, in order. */
  datatype Backend = Backend(rows: map<Address, Balance>, writes: seq<(Address, Balance)>)

  /** A row that was never written reads as the zero balance. */
  function Lookup(rows: map<Address, Balance>, a: Address): Balance {
    if a in rows then rows[a] else 0
  }

  // ------------------------------------------------------------------ sorted addresses

  predicate Ascending(s: seq<Address>) {
    forall i, j | 0 <= i < j < |s| :: s[i] < s[j]
  }

  lemma {:induction false} AscendingIsUnique(a: seq<Address>, b: seq<Address>)
    requires Ascending(a) && Ascending(b) && forall x :: x in a <==> x in b
    ensures a == b
  {
    if a != [] && b != [] {
      var x, y := a[|a| - 1], b[|b| - 1];
      assert x in b && y in a;
      assert x == y;
      var p, q := a[..|a| - 1], b[..|b| - 1];
      forall z ensures z in p <==> z in q {
        assert z in a <==> z in p || z == x;
        assert z in b <==> z in q || z == y;
        if z in p { var i :| 0 <= i < |p| && p[i] == z; assert a[i] < x; }
        if z in q { var i :| 0 <= i < |q| && q[i] == z; assert b[i] < y; }
      }
      AscendingIsUnique(p, q);
      assert a == p + [x] && b == q + [y];
    } else {
      EmptyTogether(a, b);
    }
  }

  lemma EmptyTogether(a: seq<Address>, b: seq<Address>)
    requires forall x :: x in a <==> x in b
    ensures a == [] <==> b == []
  {
    if a != [] { assert a[0] in a; }
    if b != [] { assert b[0] in b; }
  }

  /** `x` put in its place in an ascending list. */
  function Insert(s: seq<Address>, x: Address): seq<Address> {
    if s == [] || s[|s| - 1] < x then s + [x]
    else Insert(s[..|s| - 1], x) + [s[|s| - 1]]
  }

  lemma {:induction false} InsertSorts(s: seq<Address>, x: Address)
    requires Ascending(s) && x !in s
    ensures var r := Insert(s, x); Ascending(r) && |r| == |s| + 1 && forall y :: y in r <==> y in s || y == x
  {
    if s != [] && x < s[|s| - 1] {
      var init, last := s[..|s| - 1], s[|s| - 1];
      InsertSorts(init, x);
      var r := Insert(init, x);
      forall i | 0 <= i < |r| ensures r[i] < last {
        assert r[i] in r;
        if r[i] != x { var k :| 0 <= k < |init| && init[k] == r[i]; }
      }
      assert s == init + [last];
    }
  }

  predicate Distinct(s: seq<Address>) {
    forall i, j | 0 <= i < j < |s| :: s[i] != s[j]
  }

  /** The sort before a flush. */
  function Sorted(s: seq<Address>): (r: seq<Address>)
    requires Distinct(s)
    ensures Ascending(r) && |r| == |s| && forall y :: y in r <==> y in s
  {
    if s == [] then []
    else
      var init, last := s[..|s| - 1], s[|s| - 1];
      assert s == init + [last];
      assert last !in init;
      InsertSorts(Sorted(init), last);
      Insert(Sorted(init), last)
  }

  // ------------------------------------------------------------------ the set form

  datatype SetCache = SetCache(cached: map<Address, Balance>, dirty: set<Address>)

  /** Dirty addresses are cached; a clean cached balance is the stored one. */
  ghost predicate Coherent(c: SetCache, rows: map<Address, Balance>) {
    && c.dirty <= c.cached.Keys
    && forall a | a in c.cached && a !in c.dirty :: c.cached[a] == Lookup(rows, a)
  }

  /** The sorted dirty addresses: the order of a flush. */
  ghost function Order(dirty: set<Address>): (r: seq<Address>)
    ensures Ascending(r) && forall a :: a in r <==> a in dirty
  {
    if dirty == {} then []
    else
      var x :| x in dirty;
      var rest := Order(dirty - {x});
      InsertSorts(rest, x);
      Insert(rest, x)
  }

  /** Rows after writing the given addresses from `values`. */
  function Written(rows: map<Address, Balance>, addrs: seq<Address>, values: map<Address, Balance>): map<Address, Balance>
    requires forall a | a in addrs :: a in values
  {
    map a | a in rows.Keys + (set x | x in addrs) :: if a in addrs then values[a] else rows[a]
  }

  function Attempts(addrs: seq<Address>, values: map<Address, Balance>): (r: seq<(Address, Balance)>)
    requires forall a | a in addrs :: a in values
    ensures |r| == |addrs| && forall i | 0 <= i < |r| :: r[i] == (addrs[i], values[addrs[i]])
  {
    seq(|addrs|, i requires 0 <= i < |addrs| => (addrs[i], values[addrs[i]]))
  }

  predicate FlushFails(addrs: seq<Address>, fail: Option<nat>) {
    fail.Some? && fail.value < |addrs|
  }

  /** The backend after a flush whose write number `fail` errs: the attempts up to it are logged, the rows before it
      stored. */
  function FlushTo(b: Backend, addrs: seq<Address>, values: map<Address, Balance>, fail: Option<nat>): Backend
    requires forall a | a in addrs :: a in values
  {
    if FlushFails(addrs, fail)
    then Backend(Written(b.rows, addrs[..fail.value], values), b.writes + Attempts(addrs[..fail.value + 1], values))
    else Backend(Written(b.rows, addrs, values), b.writes + Attempts(addrs, values))
  }

  /** A flush tries the rows in order up to and including the one that errs, each with its value. */
  lemma FlushLogs(b: Backend, addrs: seq<Address>, values: map<Address, Balance>, fail: Option<nat>)
    requires forall a | a in addrs :: a in values
    ensures var t := FlushTo(b, addrs, values, fail);
      var tried := if fail.Some? && fail.value < |addrs| then fail.value + 1 else |addrs|;
      && |t.writes| == |b.writes| + tried && b.writes <= t.writes
      && forall i | 0 <= i < tried :: t.writes[|b.writes| + i] == (addrs[i], values[addrs[i]])
  {
    hide Written;
    var tried := if fail.Some? && fail.value < |addrs| then fail.value + 1 else |addrs|;
    assert addrs[..|addrs|] == addrs;
    var log := Attempts(addrs[..tried], values);
    assert FlushTo(b, addrs, values, fail).writes == b.writes + log;
  }

  datatype Op =
    | Load(addr: Address, fails: bool)
    | Set(addr: Address, balance: Balance)
    | Merge(worker: SetCache)
    | Flush(fail: Option<nat>)

  datatype State = State(cache: SetCache, backend: Backend)

  /** Workers are sharded by sender, so their keys are disjoint from ours, and they read the same rows. */
  ghost predicate OpOk(s: State, op: Op) {
    op.Merge? ==> op.worker.cached.Keys !! s.cache.cached.Keys && Coherent(op.worker, s.backend.rows)
  }

  ghost function SetStep(s: State, op: Op): State
    requires s.cache.dirty <= s.cache.cached.Keys
  {
    match op
    case Load(a, fails) =>
      if a in s.cache.cached || fails then s
      else s.(cache := s.cache.(cached := s.cache.cached[a := Lookup(s.backend.rows, a)]))
    case Set(a, b) => s.(cache := SetCache(s.cache.cached[a := b], s.cache.dirty + {a}))
    case Merge(w) => s.(cache := SetCache(s.cache.cached + w.cached, s.cache.dirty + w.dirty))
    case Flush(fail) =>
      var addrs := Order(s.cache.dirty);
      State(if FlushFails(addrs, fail) then s.cache else s.cache.(dirty := {}),
          FlushTo(s.backend, addrs, s.cache.cached, fail))
  }

  // ------------------------------------------------------------------ refining write-through

  /** What writing every balance through at once would have stored. */
  ghost function Through(s: State): map<Address, Balance>
    requires s.cache.dirty <= s.cache.cached.Keys
  {
    map a | a in s.backend.rows.Keys + s.cache.dirty :: if a in s.cache.dirty then s.cache.cached[a] else s.backend.rows[a]
  }

  /** The write-through store: a set writes its row, a merge its worker's rows, nothing else writes. */
  ghost function Reference(rows: map<Address, Balance>, op: Op): map<Address, Balance>
    requires op.Merge? ==> op.worker.dirty <= op.worker.cached.Keys
  {
    match op
    case Set(a, b) => rows[a := b]
    case Merge(w) => rows + map a | a in w.dirty :: w.cached[a]
    case _ => rows
  }

  lemma LoadAndSetRefine(s: State, op: Op)
    requires Coherent(s.cache, s.backend.rows) && (op.Load? || op.Set?)
    ensures var t := SetStep(s, op); Coherent(t.cache, t.backend.rows) && Through(t) == Reference(Through(s), op)
  {
  }

  lemma MergeRefines(s: State, op: Op)
    requires Coherent(s.cache, s.backend.rows) && op.Merge? && OpOk(s, op)
    ensures var t := SetStep(s, op); Coherent(t.cache, t.backend.rows) && Through(t) == Reference(Through(s), op)
  {
    var t := SetStep(s, op);
    assert Through(t).Keys == Reference(Through(s), op).Keys;
  }

  /** Storing some dirty rows early changes neither coherence nor what write-through holds. */
  lemma PartialWrite(c: SetCache, b: Backend, done: seq<Address>, t: Backend)
    requires Coherent(c, b.rows) && forall a | a in done :: a in c.dirty
    requires t.rows == Written(b.rows, done, c.cached)
    ensures Coherent(c, t.rows) && Through(State(c, t)) == Through(State(c, b))
  {
    forall a | a !in done ensures (a in t.rows <==> a in b.rows) && (a in b.rows ==> t.rows[a] == b.rows[a]) {
    }
    assert Through(State(c, t)).Keys == Through(State(c, b)).Keys;
  }

  /** Storing all of them makes the rows what write-through holds. */
  lemma FullWrite(c: SetCache, b: Backend, addrs: seq<Address>, t: Backend)
    requires Coherent(c, b.rows) && forall a :: a in addrs <==> a in c.dirty
    requires t.rows == Written(b.rows, addrs, c.cached)
    ensures t.rows == Through(State(c, b))
    ensures Coherent(c.(dirty := {}), t.rows) && Through(State(c.(dirty := {}), t)) == t.rows
  {
  }

  /** A flush, failed or not, changes nothing a write-through reader could see; a failed one keeps the full retry set. */
  lemma FlushRefines(s: State, op: Op)
    requires Coherent(s.cache, s.backend.rows) && op.Flush?
    ensures var t := SetStep(s, op); var failed := FlushFails(Order(s.cache.dirty), op.fail);
      && Coherent(t.cache, t.backend.rows) && Through(t) == Through(s)
      && (failed ==> t.cache == s.cache)
      && (!failed ==> t.backend.rows == Through(s) && t.cache == s.cache.(dirty := {}))
  {
    hide Through, Written, Order;
    var t := SetStep(s, op);
    var addrs := Order(s.cache.dirty);
    if FlushFails(addrs, op.fail) {
      var done := addrs[..op.fail.value];
      assert forall a | a in done :: a in addrs;
      PartialWrite(s.cache, s.backend, done, t.backend);
    } else {
      FullWrite(s.cache, s.backend, addrs, t.backend);
    }
  }

  lemma StepRefines(s: State, op: Op)
    requires Coherent(s.cache, s.backend.rows) && OpOk(s, op)
    ensures var t := SetStep(s, op); Coherent(t.cache, t.backend.rows) && Through(t) == Reference(Through(s), op)
  {
    hide SetStep, Through, Coherent;
    if op.Flush? {
      FlushRefines(s, op);
    } else if op.Merge? {
      MergeRefines(s, op);
    } else {
      LoadAndSetRefine(s, op);
    }
  }

  ghost predicate RunOk(s: State, ops: seq<Op>)
    requires Coherent(s.cache, s.backend.rows)
    decreases |ops|
  {
    ops != [] ==>
      && OpOk(s, ops[0])
      && (StepRefines(s, ops[0]); RunOk(SetStep(s, ops[0]), ops[1..]))
  }

  ghost function Run(s: State, ops: seq<Op>): (t: State)
    requires Coherent(s.cache, s.backend.rows) && RunOk(s, ops)
    ensures Coherent(t.cache, t.backend.rows)
    decreases |ops|
  {
    if ops == [] then s
    else
      StepRefines(s, ops[0]);
      Run(SetStep(s, ops[0]), ops[1..])
  }

  ghost function ReferenceRun(rows: map<Address, Balance>, ops: seq<Op>): map<Address, Balance>
    requires forall op | op in ops && op.Merge? :: op.worker.dirty <= op.worker.cached.Keys
    decreases |ops|
  {
    if ops == [] then rows else ReferenceRun(Reference(rows, ops[0]), ops[1..])
  }

  /**
   The cache refines write-through: over every sequence of loads, sets, disjoint merges and
   flushes, each failing at any write or not at all, what the cache and the backend hold together
   is what writing through would have stored.
   */
  lemma {:induction false} WriteBackRefinesWriteThrough(s: State, ops: seq<Op>)
    requires Coherent(s.cache, s.backend.rows) && RunOk(s, ops)
    ensures forall op | op in ops && op.Merge? :: op.worker.dirty <= op.worker.cached.Keys
    ensures Through(Run(s, ops)) == ReferenceRun(Through(s), ops)
    decreases |ops|
  {
    hide SetStep, Through;
    if ops != [] {
      StepRefines(s, ops[0]);
      WriteBackRefinesWriteThrough(SetStep(s, ops[0]), ops[1..]);
      assert ops == [ops[0]] + ops[1..];
    }
  }

  /** A load returns what write-through holds. */
  lemma LoadReadsThrough(s: State, a: Address)
    requires Coherent(s.cache, s.backend.rows)
    ensures (if a in s.cache.cached then s.cache.cached[a] else Lookup(s.backend.rows, a)) == Lookup(Through(s), a)
  {
  }

  /** Two disjoint workers can be merged in either order. */
  lemma MergesCommute(s: State, v: SetCache, w: SetCache)
    requires Coherent(s.cache, s.backend.rows) && OpOk(s, Merge(v)) && OpOk(s, Merge(w)) && v.cached.Keys !! w.cached.Keys
    ensures var one, two := SetStep(s, Merge(v)), SetStep(s, Merge(w));
      && OpOk(one, Merge(w)) && OpOk(two, Merge(v)) && one.cache.dirty <= one.cache.cached.Keys
          && two.cache.dirty <= two.cache.cached.Keys
      && SetStep(one, Merge(w)) == SetStep(two, Merge(v))
  {
    assert s.cache.cached + v.cached + w.cached == s.cache.cached + w.cached + v.cached;
    assert s.cache.dirty + v.dirty + w.dirty == s.cache.dirty + w.dirty + v.dirty;
  }

  // ------------------------------------------------------------------ flags and a vector

  /** `logged`: the entry's prior value is in the undo log already. */
  datatype Entry = Entry(balance: Balance, dirty: bool, logged: bool)

  /** A prior value of an address; `None` when it was absent. */
  datatype Prior = Prior(addr: Address, entry: Option<(Balance, bool)>)

  datatype Undo = Undo(dirtyLen: nat, prior: seq<Prior>)

  /** A read error of the backend. */
  type Fault = nat

  /** `latched`: the read faults a region hit, per address in read order, to be raised again by a replay. */
  datatype Flagged = Flagged(entries: map<Address, Entry>, dirty: seq<Address>, undo: Option<Undo>,
      latched: map<Address, seq<Fault>>)

  const EMPTY := Flagged(map[], [], None, map[])

  /** What a load returns. */
  datatype Loaded = Got(balance: Balance) | Failed(fault: Fault)

  /** The vector holds exactly the flagged addresses, each once. */
  ghost predicate FlagsMatch(c: Flagged) {
    Distinct(c.dirty) && forall a :: a in c.dirty <==> a in c.entries && c.entries[a].dirty
  }

  /** The set form a flagged cache stands for. */
  ghost function SetForm(c: Flagged): SetCache {
    SetCache(map a | a in c.entries :: c.entries[a].balance, set a | a in c.entries && c.entries[a].dirty)
  }

  function Faults(latched: map<Address, seq<Fault>>, a: Address): seq<Fault> {
    if a in latched then latched[a] else []
  }

  /** Outside a region, a fault the rolled-back region hit is raised before anything else, cached or not. */
  predicate Raises(c: Flagged, a: Address) {
    c.undo.None? && Faults(c.latched, a) != []
  }

  /** The cache after a load; `read` is the fault the backend gives for this address now, if any. */
  function FlagLoad(c: Flagged, rows: map<Address, Balance>, a: Address, read: Option<Fault>): Flagged {
    if Raises(c, a) then c.(latched := c.latched[a := c.latched[a][1..]])
    else if a in c.entries || read.Some? then c
    else c.(entries := c.entries[a := Entry(Lookup(rows, a), false, false)])
  }

  function LoadResult(c: Flagged, rows: map<Address, Balance>, a: Address, read: Option<Fault>): Loaded {
    if Raises(c, a) then Failed(c.latched[a][0])
    else if a in c.entries then Got(c.entries[a].balance)
    else if read.Some? then Failed(read.value)
    else Got(Lookup(rows, a))
  }

  /** A fault is kept only inside a region. */
  function FlagNote(c: Flagged, a: Address, f: Fault): Flagged {
    if c.undo.None? then c else c.(latched := c.latched[a := Faults(c.latched, a) + [f]])
  }

  /** Log the prior value of `a` unless it is logged already, or no region is open. */
  function Log(c: Flagged, a: Address): Option<Undo> {
    if c.undo.None? || (a in c.entries && c.entries[a].logged) then c.undo
    else
      var before := if a in c.entries then Some((c.entries[a].balance, c.entries[a].dirty)) else None;
      Some(c.undo.value.(prior := c.undo.value.prior + [Prior(a, before)]))
  }

  function FlagSet(c: Flagged, a: Address, b: Balance): Flagged {
    var known := a in c.entries;
    c.(entries := c.entries[a := Entry(b, true, c.undo.Some? || (known && c.entries[a].logged))],
       dirty := if known && c.entries[a].dirty then c.dirty else c.dirty + [a],
       undo := Log(c, a))
  }

  function FlagMerge(c: Flagged, w: Flagged): Flagged {
    c.(entries := c.entries + w.entries, dirty := c.dirty + w.dirty)
  }

  /** After a flush that wrote everything. */
  function FlagFlushed(c: Flagged): Flagged {
    c.(entries := map a | a in c.entries :: if a in c.dirty then c.entries[a].(dirty := false) else c.entries[a],
        dirty := [])
  }

  /** A load in the flag form is one in the set form that fails when a latched fault is raised. */
  lemma FlagLoadRefines(c: Flagged, b: Backend, a: Address, read: Option<Fault>)
    requires FlagsMatch(c)
    ensures FlagsMatch(FlagLoad(c, b.rows, a, read))
    ensures State(SetForm(FlagLoad(c, b.rows, a, read)), b) ==
        SetStep(State(SetForm(c), b), Load(a, Raises(c, a) || read.Some?))
  {
    assert SetForm(FlagLoad(c, b.rows, a, read)).dirty == SetForm(c).dirty;
  }

  /** A load that succeeds returns what write-through holds. */
  lemma FlagLoadReadsThrough(c: Flagged, b: Backend, a: Address, read: Option<Fault>)
    requires Coherent(SetForm(c), b.rows) && LoadResult(c, b.rows, a, read).Got?
    ensures LoadResult(c, b.rows, a, read).balance == Lookup(Through(State(SetForm(c), b)), a)
  {
    LoadReadsThrough(State(SetForm(c), b), a);
  }

  lemma FlagSetRefines(c: Flagged, b: Backend, a: Address, v: Balance)
    requires FlagsMatch(c)
    ensures FlagsMatch(FlagSet(c, a, v))
    ensures State(SetForm(FlagSet(c, a, v)), b) == SetStep(State(SetForm(c), b), Set(a, v))
  {
    assert SetForm(FlagSet(c, a, v)).cached == SetForm(c).cached[a := v];
    assert SetForm(FlagSet(c, a, v)).dirty == SetForm(c).dirty + {a};
  }

  lemma FlagMergeRefines(c: Flagged, b: Backend, w: Flagged)
    requires FlagsMatch(c) && FlagsMatch(w) && c.entries.Keys !! w.entries.Keys
    ensures FlagsMatch(FlagMerge(c, w))
    ensures State(SetForm(FlagMerge(c, w)), b) == SetStep(State(SetForm(c), b), Merge(SetForm(w)))
  {
    var m := FlagMerge(c, w);
    forall i, j | 0 <= i < j < |m.dirty| ensures m.dirty[i] != m.dirty[j] {
      if i < |c.dirty| <= j { assert c.dirty[i] in c.dirty && w.dirty[j - |c.dirty|] in w.dirty; }
    }
    assert SetForm(m).cached == SetForm(c).cached + SetForm(w).cached;
    assert SetForm(m).dirty == SetForm(c).dirty + SetForm(w).dirty;
  }

  /** The sorted vector is the flush order of the set form. */
  lemma FlagOrder(c: Flagged)
    requires FlagsMatch(c)
    ensures Sorted(c.dirty) == Order(SetForm(c).dirty)
  {
    AscendingIsUnique(Sorted(c.dirty), Order(SetForm(c).dirty));
  }

  lemma FlagFlushedRefines(c: Flagged)
    requires FlagsMatch(c)
    ensures FlagsMatch(FlagFlushed(c)) && SetForm(FlagFlushed(c)) == SetForm(c).(dirty := {})
  {
    assert SetForm(FlagFlushed(c)).dirty == {};
  }

  /** Sorting the vector in place changes nothing the flags say. */
  lemma SortKeepsFlags(c: Flagged)
    requires FlagsMatch(c)
    ensures FlagsMatch(c.(dirty := Sorted(c.dirty))) && SetForm(c.(dirty := Sorted(c.dirty))) == SetForm(c)
  {
  }
}
