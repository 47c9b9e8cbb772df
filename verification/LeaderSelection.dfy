/**
 Which validator leads a view: interleaved weighted round robin over the voting powers, as an array
 walked slot by slot and in the closed form that replaced the walk.
 */
module LeaderSelection {
  import opened Voting

  // ------------------------------------------------------------------ the abstract array

  /** Row `t`: the validators of power at least `t` among the first `n`, in order. */
  function Row(powers: seq<nat>, t: nat, n: nat): seq<Validator>
    requires n <= |powers|
  {
    if n == 0 then [] else Row(powers, t, n - 1) + if powers[n - 1] >= t then [n - 1] else []
  }

  lemma {:induction false} RowHolds(powers: seq<nat>, t: nat, n: nat, v: Validator)
    requires v < n <= |powers| && powers[v] >= t
    ensures v in Row(powers, t, n)
  {
    if v < n - 1 { RowHolds(powers, t, n - 1, v); }
  }

  /** The rows 1 to `t`, one after the other. */
  function Rows(powers: seq<nat>, t: nat): seq<Validator> {
    if t == 0 then [] else Rows(powers, t - 1) + Row(powers, t, |powers|)
  }

  function MaxPower(powers: seq<nat>): (m: nat)
    ensures forall v | 0 <= v < |powers| :: powers[v] <= m
    ensures m > 0 ==> m in powers
  {
    if powers == [] then 0
    else
      var rest := MaxPower(powers[..|powers| - 1]);
      if powers[|powers| - 1] > rest then powers[|powers| - 1] else rest
  }

  function Slots(powers: seq<nat>): seq<Validator> {
    Rows(powers, MaxPower(powers))
  }

  function Min(a: nat, b: nat): nat {
    if a < b then a else b
  }

  /** The powers of the first `n` validators, each capped at `t`. */
  function Capped(powers: seq<nat>, t: nat, n: nat): nat
    requires n <= |powers|
  {
    if n == 0 then 0 else Capped(powers, t, n - 1) + Min(powers[n - 1], t)
  }

  lemma {:induction false} RowLength(powers: seq<nat>, t: nat, n: nat)
    requires n <= |powers|
    ensures |Row(powers, t + 1, n)| == Capped(powers, t + 1, n) - Capped(powers, t, n)
  {
    if n > 0 { RowLength(powers, t, n - 1); }
  }

  lemma {:induction false} CappedEnds(powers: seq<nat>, t: nat, n: nat)
    requires n <= |powers|
    ensures Capped(powers, 0, n) == 0
    ensures (forall v | 0 <= v < n :: powers[v] <= t) ==> Capped(powers, t, n) == TotalOf(powers, n)
  {
    if n > 0 { CappedEnds(powers, t, n - 1); }
  }

  lemma {:induction false} RowsLength(powers: seq<nat>, t: nat)
    ensures |Rows(powers, t)| == Capped(powers, t, |powers|)
  {
    if t == 0 {
      CappedEnds(powers, 0, |powers|);
    } else {
      RowsLength(powers, t - 1);
      RowLength(powers, t - 1, |powers|);
    }
  }

  /** The array has one slot per unit of power. */
  lemma SlotsLength(powers: seq<nat>)
    ensures |Slots(powers)| == Total(powers)
  {
    RowsLength(powers, MaxPower(powers));
    CappedEnds(powers, MaxPower(powers), |powers|);
  }

  /** The leader of a view: the array's slot at the view, modulo the total power. */
  function Leader(powers: seq<nat>, view: nat): Validator
    requires Total(powers) > 0
  {
    SlotsLength(powers);
    Slots(powers)[view % Total(powers)]
  }

  // ------------------------------------------------------------------ fairness

  /** How often `v` occurs. */
  function Count(s: seq<Validator>, v: Validator): nat {
    if s == [] then 0 else Count(s[..|s| - 1], v) + if s[|s| - 1] == v then 1 else 0
  }

  lemma {:induction false} CountBoth(a: seq<Validator>, b: seq<Validator>, v: Validator)
    ensures Count(a + b, v) == Count(a, v) + Count(b, v)
  {
    if b == [] {
      assert a + b == a;
    } else {
      CountBoth(a, b[..|b| - 1], v);
      assert (a + b)[..|a + b| - 1] == a + b[..|b| - 1];
    }
  }

  lemma {:induction false} RowCounts(powers: seq<nat>, t: nat, n: nat, v: Validator)
    requires n <= |powers|
    ensures Count(Row(powers, t, n), v) == if v < n && powers[v] >= t then 1 else 0
  {
    if n > 0 {
      RowCounts(powers, t, n - 1, v);
      var before := Row(powers, t, n - 1);
      assert (before + [n - 1])[..|before|] == before && before + [] == before;
    }
  }

  lemma RowsEnd(powers: seq<nat>, t: nat)
    ensures Rows(powers, 0) == []
    ensures t > 0 ==> Rows(powers, t) == Rows(powers, t - 1) + Row(powers, t, |powers|)
  {
  }

  lemma {:induction false} LeadsInRows(powers: seq<nat>, t: nat, v: Validator)
    requires v < |powers|
    ensures Count(Rows(powers, t), v) == Min(powers[v], t)
  {
    RowsEnd(powers, t);
    assert Count([], v) == 0;
    hide Row, Rows, Count;
    if t > 0 {
      LeadsInRows(powers, t - 1, v);
      RowCounts(powers, t, |powers|, v);
      CountBoth(Rows(powers, t - 1), Row(powers, t, |powers|), v);
    }
  }

  /** In each round of the array every validator leads exactly as often as it has power. */
  lemma LeadsByPower(powers: seq<nat>, v: Validator)
    requires v < |powers|
    ensures Count(Slots(powers), v) == powers[v]
  {
    LeadsInRows(powers, MaxPower(powers), v);
  }

  // ------------------------------------------------------------------ the closed form

  /** Strictly ascending. */
  ghost predicate Ascending(levels: seq<nat>) {
    forall i, j | 0 <= i < j < |levels| :: levels[i] < levels[j]
  }

  /** `p` put in its place, once. */
  function InsertLevel(levels: seq<nat>, p: nat): (r: seq<nat>)
    requires Ascending(levels)
    ensures Ascending(r) && forall x :: x in r <==> x in levels || x == p
  {
    if levels == [] then [p]
    else
      var last, rest := levels[|levels| - 1], levels[..|levels| - 1];
      assert forall x | x in rest :: x < last;
      assert levels == rest + [last];
      if p == last then levels
      else if p > last then levels + [p]
      else
        Append(InsertLevel(rest, p), last);
        InsertLevel(rest, p) + [last]
  }

  lemma Append(levels: seq<nat>, x: nat)
    requires Ascending(levels) && forall y | y in levels :: y < x
    ensures Ascending(levels + [x])
  {
    var all := levels + [x];
    forall i, j | 0 <= i < j < |all| ensures all[i] < all[j] {
      if j == |levels| { assert all[i] in levels; }
    }
  }

  /** The distinct positive powers, ascending. */
  method Levels(powers: seq<nat>) returns (levels: seq<nat>)
    ensures Ascending(levels) && forall x :: x in levels <==> x > 0 && x in powers
  {
    levels := [];
    for i := 0 to |powers|
      invariant Ascending(levels) && forall x :: x in levels <==> x > 0 && x in powers[..i]
    {
      if powers[i] > 0 { levels := InsertLevel(levels, powers[i]); }
      assert powers[..i + 1] == powers[..i] + [powers[i]];
    }
    assert powers[..|powers|] == powers;
  }

  /** Between two levels every row is the upper level's. */
  lemma {:induction false} SameRow(powers: seq<nat>, t: nat, level: nat, n: nat)
    requires n <= |powers| && t <= level && forall v | 0 <= v < |powers| :: powers[v] < t || powers[v] >= level
    ensures Row(powers, t, n) == Row(powers, level, n)
  {
    if n > 0 { SameRow(powers, t, level, n - 1); }
  }

  /** The `q` rows above `prev` repeat one row: how many slots they take. */
  lemma {:induction false} Segment(powers: seq<nat>, prev: nat, q: nat, level: nat)
    requires prev + q <= level && forall v | 0 <= v < |powers| :: powers[v] <= prev || powers[v] >= level
    ensures |Rows(powers, prev + q)| == |Rows(powers, prev)| + Times(q, |Row(powers, level, |powers|)|)
  {
    hide Times;
    AddRow(0, |Row(powers, level, |powers|)|);
    if q > 0 {
      Segment(powers, prev, q - 1, level);
      SameRow(powers, prev + q, level, |powers|);
      AddRow(q - 1, |Row(powers, level, |powers|)|);
    }
  }

  /** ... and what slot `j` of the next one holds. */
  lemma SlotOf(powers: seq<nat>, prev: nat, level: nat, q: nat, j: nat)
    requires prev + q < level && forall v | 0 <= v < |powers| :: powers[v] <= prev || powers[v] >= level
    requires j < |Row(powers, level, |powers|)|
    ensures var row, i := Row(powers, level, |powers|), |Rows(powers, prev + q)| + j;
      i < |Rows(powers, level)| && Rows(powers, level)[i] == row[j]
  {
    var below, row, upto := Rows(powers, prev + q), Row(powers, level, |powers|), Rows(powers, prev + q + 1);
    assert upto == below + row by { SameRow(powers, prev + q + 1, level, |powers|); }
    hide Rows, Row;
    RowsGrow(powers, prev + q + 1, level);
    assert upto[|below| + j] == row[j];
  }

  function Times(k: nat, m: nat): nat {
    k * m
  }

  lemma AddRow(k: nat, m: nat)
    ensures Times(k + 1, m) == Times(k, m) + m && Times(0, m) == 0
  {
  }

  /** A distance short of `k` rows of `m` ends at place `j` of row `q`. */
  lemma WhichRow(d: nat, k: nat, m: nat) returns (q: nat, j: nat)
    requires m > 0 && d < Times(k, m)
    ensures d == Times(q, m) + j && q < k && j < m && j == d % m
  {
    q, j := d / m, d % m;
    if q >= k { Multiples(k, q, m); }
  }

  lemma Multiples(k: nat, q: nat, m: nat)
    requires k <= q
    ensures k * m <= q * m
  {
  }

  lemma {:induction false} RowsGrow(powers: seq<nat>, t: nat, u: nat)
    requires t <= u
    ensures Rows(powers, t) <= Rows(powers, u)
  {
    if t < u { RowsGrow(powers, t, u - 1); }
  }

  /** The closed form finds the array's slot without walking it, whatever the powers and the view. */
  method SelectLeader(powers: seq<nat>, view: nat) returns (leader: Validator)
    requires Total(powers) > 0
    ensures leader == Leader(powers, view)
  {
    hide Row, MaxPower, Times;
    var levels := Levels(powers);
    var index := view % Total(powers);
    SlotsLength(powers);
    var cum, prev := 0, 0;
    leader := 0;
    for k := 0 to |levels|
      invariant prev == if k == 0 then 0 else levels[k - 1]
      invariant cum == |Rows(powers, prev)| && cum <= index
    {
      var level := levels[k];
      assert level in levels;
      NoneBetween(powers, levels, k, prev);
      Segment(powers, prev, level - prev, level);
      var row := Row(powers, level, |powers|);
      var members := |row|;
      var seg := Times(level - prev, members);
      if cum + seg > index {
        SlotFound(powers, prev, level, index);
        leader := row[(index - cum) % members];
        return;
      }
      cum, prev := cum + seg, level;
    }
    AllRows(powers, levels, prev);
    assert false;
  }

  lemma SlotAt(powers: seq<nat>, prev: nat, level: nat, index: nat, q: nat, j: nat)
    requires prev + q < level <= MaxPower(powers)
    requires forall v | 0 <= v < |powers| :: powers[v] <= prev || powers[v] >= level
    requires j < |Row(powers, level, |powers|)|
    requires index == |Rows(powers, prev)| + Times(q, |Row(powers, level, |powers|)|) + j
    ensures index < |Slots(powers)| && Slots(powers)[index] == Row(powers, level, |powers|)[j]
  {
    hide Row, Rows, Times;
    Segment(powers, prev, q, level);
    SlotOf(powers, prev, level, q, j);
    RowsGrow(powers, level, MaxPower(powers));
  }

  lemma SlotFound(powers: seq<nat>, prev: nat, level: nat, index: nat)
    requires prev <= level <= MaxPower(powers) && level in powers
    requires forall v | 0 <= v < |powers| :: powers[v] <= prev || powers[v] >= level
    requires |Rows(powers, prev)| <= index < |Rows(powers, prev)| + Times(level - prev, |Row(powers, level, |powers|)|)
    ensures var row := Row(powers, level, |powers|);
      && row != [] && index < |Slots(powers)|
      && Slots(powers)[index] == row[(index - |Rows(powers, prev)|) % |row|]
  {
    var m, d := |Row(powers, level, |powers|)|, index - |Rows(powers, prev)|;
    var w :| 0 <= w < |powers| && powers[w] == level;
    RowHolds(powers, level, |powers|, w);
    assert m > 0;
    hide Row, Rows, Slots, Times;
    var q, j := WhichRow(d, level - prev, m);
    SlotAt(powers, prev, level, index, q, j);
  }

  lemma NoneBetween(powers: seq<nat>, levels: seq<nat>, k: nat, prev: nat)
    requires Ascending(levels) && (forall x :: x in levels <==> x > 0 && x in powers) && k < |levels|
    requires prev == if k == 0 then 0 else levels[k - 1]
    ensures prev <= levels[k] <= MaxPower(powers) && levels[k] in powers
    ensures forall v | 0 <= v < |powers| :: powers[v] <= prev || powers[v] >= levels[k]
  {
    assert levels[k] in levels;
    var w :| 0 <= w < |powers| && powers[w] == levels[k];
    forall v | 0 <= v < |powers| && powers[v] > 0 ensures powers[v] <= prev || powers[v] >= levels[k] {
      assert powers[v] in powers && powers[v] in levels;
      var j :| 0 <= j < |levels| && levels[j] == powers[v];
    }
  }

  /** Past the last level the whole array has been counted. */
  lemma AllRows(powers: seq<nat>, levels: seq<nat>, prev: nat)
    requires Ascending(levels) && (forall x :: x in levels <==> x > 0 && x in powers)
    requires prev == if levels == [] then 0 else levels[|levels| - 1]
    ensures prev == MaxPower(powers)
  {
    if MaxPower(powers) > 0 {
      assert MaxPower(powers) in levels;
      var j :| 0 <= j < |levels| && levels[j] == MaxPower(powers);
    }
    if levels != [] {
      assert prev in levels;
      var w :| 0 <= w < |powers| && powers[w] == prev;
    }
  }
}
