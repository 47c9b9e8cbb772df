/**
 The dissemination verdict of a run that killed one node: which failure lines the kill excuses, and
 the accounting of every line and every counted failure without one.
 */
module Dissemination {
  import opened Options

  type PeerId = nat

  /** The four failure kinds a line can count under. */
  const KINDS: nat := 4

  type Counts = c: seq<nat> | |c| == KINDS witness [0, 0, 0, 0]

  datatype Record = Record(kinds: seq<nat>, peer: Option<PeerId>, ts: Option<real>)

  /** One node's log summary; `records` is `None` for a summary from before the per-line records. */
  datatype Entry = Entry(localPeer: Option<PeerId>, counts: Option<Counts>, records: Option<seq<Record>>)

  const NO_COUNTS: Counts := [0, 0, 0, 0]

  /** The node behind a peer id: the last that reports it as its own. */
  function NodeOf(entries: seq<Entry>, peer: PeerId): Option<nat> {
    if entries == [] then None
    else if entries[|entries| - 1].localPeer == Some(peer) then Some(|entries| - 1)
    else NodeOf(entries[..|entries| - 1], peer)
  }

  /** A line is excused only when it names the killed node as its peer, at or after the kill, and is not the killed
      node's own. */
  predicate Exempt(entries: seq<Entry>, killed: nat, killTs: Option<real>, n: nat, r: Record) {
    && n != killed && r.peer.Some? && NodeOf(entries, r.peer.value) == Some(killed)
    && r.ts.Some? && killTs.Some? && r.ts.value >= killTs.value
  }

  /** The node found is the last one that reports the peer id, and none is found only when none does. */
  lemma {:induction false} NodeOfIff(entries: seq<Entry>, peer: PeerId, n: nat)
    ensures NodeOf(entries, peer) == Some(n) <==>
      && n < |entries| && entries[n].localPeer == Some(peer)
      && forall j | n < j < |entries| :: entries[j].localPeer != Some(peer)
    ensures NodeOf(entries, peer).None? <==> forall j | 0 <= j < |entries| :: entries[j].localPeer != Some(peer)
  {
    if entries != [] && entries[|entries| - 1].localPeer != Some(peer) {
      NodeOfIff(entries[..|entries| - 1], peer, n);
    }
  }

  /** A line is excused for a peer id that the killed node was the last to report, from the kill on, on another node. */
  lemma ExemptIff(entries: seq<Entry>, killed: nat, killTs: Option<real>, n: nat, r: Record)
    ensures Exempt(entries, killed, killTs, n, r) <==>
      exists peer: PeerId, at, kill ::
        && r == Record(r.kinds, Some(peer), Some(at)) && killTs == Some(kill) && kill <= at && n != killed
        && killed < |entries| && entries[killed].localPeer == Some(peer)
        && forall j | killed < j < |entries| :: entries[j].localPeer != Some(peer)
  {
    if r.peer.Some? { NodeOfIff(entries, r.peer.value, killed); }
    if Exempt(entries, killed, killTs, n, r) {
      assert r == Record(r.kinds, Some(r.peer.value), Some(r.ts.value)) && killTs == Some(killTs.value);
    }
  }

  function Records(e: Entry): seq<Record> {
    e.records.UnwrapOr([])
  }

  /** The counts a node is judged on: its own, else the given ones. */
  function NodeCounts(e: Entry, given: Counts): Counts {
    e.counts.UnwrapOr(given)
  }

  function Occurrences(kinds: seq<nat>, k: nat): nat {
    if kinds == [] then 0 else Occurrences(kinds[..|kinds| - 1], k) + if kinds[|kinds| - 1] == k then 1 else 0
  }

  lemma {:induction false} OccurrencesCount(kinds: seq<nat>, k: nat)
    ensures Occurrences(kinds, k) == |set i | 0 <= i < |kinds| && kinds[i] == k|
  {
    if kinds != [] {
      var n, front := |kinds| - 1, kinds[..|kinds| - 1];
      OccurrencesCount(front, k);
      var a, b := set i | 0 <= i < n && front[i] == k, set i | 0 <= i < |kinds| && kinds[i] == k;
      assert b == if kinds[n] == k then a + {n} else a;
    }
  }

  /** How often kind `k` occurs on the first `n` lines. */
  function Tally(records: seq<Record>, k: nat, n: nat): nat
    requires n <= |records|
  {
    if n == 0 then 0 else Tally(records, k, n - 1) + Occurrences(records[n - 1].kinds, k)
  }

  function Excess(count: nat, tally: nat): nat {
    if tally < count then count - tally else 0
  }

  /** Counted failures that no line covers. */
  function Missing(counts: Counts, records: seq<Record>): nat {
    MissingFrom(counts, records, KINDS)
  }

  function MissingFrom(counts: Counts, records: seq<Record>, n: nat): nat
    requires n <= KINDS
  {
    if n == 0 then 0 else MissingFrom(counts, records, n - 1) + Excess(counts[n - 1], Tally(records, n - 1, |records|))
  }

  function ExemptLines(entries: seq<Entry>, killed: nat, killTs: Option<real>, n: nat, records: seq<Record>, m: nat): nat
    requires m <= |records|
  {
    if m == 0 then 0
    else
      var line := if Exempt(entries, killed, killTs, n, records[m - 1]) then 1 else 0;
      ExemptLines(entries, killed, killTs, n, records, m - 1) + line
  }

  // ------------------------------------------------------------------ the whole run

  function TotalExempt(entries: seq<Entry>, killed: nat, killTs: Option<real>, n: nat): nat
    requires n <= |entries|
  {
    if n == 0 then 0
    else
      var r := Records(entries[n - 1]);
      TotalExempt(entries, killed, killTs, n - 1) + ExemptLines(entries, killed, killTs, n - 1, r, |r|)
  }

  function TotalLines(entries: seq<Entry>, n: nat): nat
    requires n <= |entries|
  {
    if n == 0 then 0 else TotalLines(entries, n - 1) + |Records(entries[n - 1])|
  }

  function TotalMissing(entries: seq<Entry>, given: seq<Counts>, n: nat): nat
    requires n <= |entries| == |given|
  {
    if n == 0 then 0
    else TotalMissing(entries, given, n - 1) + Missing(NodeCounts(entries[n - 1], given[n - 1]), Records(entries[n - 1]))
  }

  lemma {:induction false} ExemptAtMost(entries: seq<Entry>, killed: nat, killTs: Option<real>, n: nat,
      records: seq<Record>, m: nat)
    requires m <= |records|
    ensures ExemptLines(entries, killed, killTs, n, records, m) <= m
    ensures ExemptLines(entries, killed, killTs, n, records, m) == m <==>
        forall i | 0 <= i < m :: Exempt(entries, killed, killTs, n, records[i])
  {
    if m > 0 { ExemptAtMost(entries, killed, killTs, n, records, m - 1); }
  }

  /** Every line names the killed node at or after the kill. */
  ghost predicate AllExempt(entries: seq<Entry>, killed: nat, killTs: Option<real>, n: nat)
    requires n <= |entries|
  {
    forall j, i | 0 <= j < n && 0 <= i < |Records(entries[j])| :: Exempt(entries, killed, killTs, j, Records(entries[j])[i])
  }

  lemma {:induction false} TotalExemptAtMost(entries: seq<Entry>, killed: nat, killTs: Option<real>, n: nat)
    requires n <= |entries|
    ensures TotalExempt(entries, killed, killTs, n) <= TotalLines(entries, n)
    ensures TotalExempt(entries, killed, killTs, n) == TotalLines(entries, n) <==> AllExempt(entries, killed, killTs, n)
  {
    if n > 0 {
      TotalExemptAtMost(entries, killed, killTs, n - 1);
      var r := Records(entries[n - 1]);
      ExemptAtMost(entries, killed, killTs, n - 1, r, |r|);
    }
  }

  lemma {:induction false} NothingMissing(counts: Counts, records: seq<Record>, n: nat)
    requires n <= KINDS
    ensures MissingFrom(counts, records, n) == 0 <==> forall k: nat | k < n :: counts[k] <= Tally(records, k, |records|)
  {
    if n > 0 { NothingMissing(counts, records, n - 1); }
  }

  /** Every counted failure of every node has a line. */
  ghost predicate AllCovered(entries: seq<Entry>, given: seq<Counts>, n: nat)
    requires n <= |entries| == |given|
  {
    forall j, k: nat | 0 <= j < n && k < KINDS ::
      NodeCounts(entries[j], given[j])[k] <= Tally(Records(entries[j]), k, |Records(entries[j])|)
  }

  lemma {:induction false} TotalMissingZero(entries: seq<Entry>, given: seq<Counts>, n: nat)
    requires n <= |entries| == |given|
    ensures TotalMissing(entries, given, n) == 0 <==> AllCovered(entries, given, n)
  {
    if n > 0 {
      TotalMissingZero(entries, given, n - 1);
      NothingMissing(NodeCounts(entries[n - 1], given[n - 1]), Records(entries[n - 1]), KINDS);
    }
  }

  /** What one kind's count lacks in lines. */
  lemma {:induction false} MissingIsShortfall(counts: Counts, records: seq<Record>, k: nat)
    requires k < KINDS
    ensures MissingFrom(counts, records, k + 1) - MissingFrom(counts, records, k)
      == if counts[k] > Tally(records, k, |records|) then counts[k] - Tally(records, k, |records|) else 0
  {
  }

  function Sum(counts: seq<nat>, n: nat): nat
    requires n <= |counts|
  {
    if n == 0 then 0 else Sum(counts, n - 1) + counts[n - 1]
  }

  function Tallies(records: seq<Record>): Counts {
    seq(KINDS, k requires 0 <= k < KINDS => Tally(records, k, |records|))
  }

  /** No kind has more lines than counted failures. */
  ghost predicate NoExtraLines(counts: Counts, records: seq<Record>) {
    forall k: nat | k < KINDS :: Tally(records, k, |records|) <= counts[k]
  }

  lemma {:induction false} MissingIsDifference(counts: Counts, records: seq<Record>, n: nat)
    requires n <= KINDS && NoExtraLines(counts, records)
    ensures MissingFrom(counts, records, n) == Sum(counts, n) - Sum(Tallies(records), n)
  {
    if n > 0 { MissingIsDifference(counts, records, n - 1); }
  }

  function TotalCounts(entries: seq<Entry>, given: seq<Counts>, n: nat): nat
    requires n <= |entries| == |given|
  {
    if n == 0 then 0 else TotalCounts(entries, given, n - 1) + Sum(NodeCounts(entries[n - 1], given[n - 1]), KINDS)
  }

  function TotalTallies(entries: seq<Entry>, n: nat): nat
    requires n <= |entries|
  {
    if n == 0 then 0 else TotalTallies(entries, n - 1) + Sum(Tallies(Records(entries[n - 1])), KINDS)
  }

  /** Over all nodes, what no line covers is the counted failures less the tallied ones. */
  lemma {:induction false} TotalMissingIsDifference(entries: seq<Entry>, given: seq<Counts>, n: nat)
    requires n <= |entries| == |given|
    requires forall j | 0 <= j < n :: NoExtraLines(NodeCounts(entries[j], given[j]), Records(entries[j]))
    ensures TotalMissing(entries, given, n) == TotalCounts(entries, given, n) - TotalTallies(entries, n)
  {
    if n > 0 {
      TotalMissingIsDifference(entries, given, n - 1);
      MissingIsDifference(NodeCounts(entries[n - 1], given[n - 1]), Records(entries[n - 1]), KINDS);
    }
  }

  // ------------------------------------------------------------------ the loops

  /** One node's lines: exempt ones, live ones, and the tally per kind. */
  method CountLines(entries: seq<Entry>, killed: nat, killTs: Option<real>, n: nat, records: seq<Record>)
    returns (exempt: nat, live: nat, tally: Counts)
    ensures exempt == ExemptLines(entries, killed, killTs, n, records, |records|) && exempt + live == |records|
    ensures forall k: nat | k < KINDS :: tally[k] == Tally(records, k, |records|)
  {
    exempt, live, tally := 0, 0, NO_COUNTS;
    for m := 0 to |records|
      invariant exempt == ExemptLines(entries, killed, killTs, n, records, m) && exempt + live == m
      invariant forall k: nat | k < KINDS :: tally[k] == Tally(records, k, m)
    {
      tally := CountKinds(tally, records[m].kinds);
      if Exempt(entries, killed, killTs, n, records[m]) { exempt := exempt + 1; } else { live := live + 1; }
    }
  }

  method CountKinds(before: Counts, kinds: seq<nat>) returns (tally: Counts)
    ensures forall k: nat | k < KINDS :: tally[k] == before[k] + Occurrences(kinds, k)
  {
    tally := before;
    assert kinds[..|kinds|] == kinds;
    for i := 0 to |kinds|
      invariant forall k: nat | k < KINDS :: tally[k] == before[k] + Occurrences(kinds[..i], k)
    {
      assert kinds[..i + 1][..i] == kinds[..i];
      if kinds[i] < KINDS { tally := tally[kinds[i] := tally[kinds[i]] + 1]; }
    }
    assert kinds[..|kinds|] == kinds;
  }

  method CountMissing(counts: Counts, records: seq<Record>, tally: Counts) returns (missing: nat)
    requires forall k: nat | k < KINDS :: tally[k] == Tally(records, k, |records|)
    ensures missing == Missing(counts, records)
  {
    missing := 0;
    for k := 0 to KINDS
      invariant missing == MissingFrom(counts, records, k)
    {
      missing := missing + Excess(counts[k], tally[k]);
    }
  }

  /**
   The verdict. Lines and uncovered counts are conserved: each line is exempt or live, and what is
   live is the lines that are not exempt plus the counted failures without a line. It is clean
   exactly when the counts match, every line is exempt and every counted failure has one.
   */
  method KillDissemination(entries: seq<Entry>, killed: nat, killTs: Option<real>, given: Option<seq<Counts>>)
    returns (clean: bool, exempt: nat, live: nat)
    requires given.Some? ==> |given.value| == |entries|
    ensures var g := given.UnwrapOr(seq(|entries|, _ => NO_COUNTS));
      var n := |entries|;
      var bad := given.Some? && exists j :: 0 <= j < n && entries[j].counts.Some? && entries[j].counts.value != g[j];
      && live == TotalLines(entries, n) - TotalExempt(entries, killed, killTs, n) + TotalMissing(entries, g, n)
      && exempt == (if bad then 0 else TotalExempt(entries, killed, killTs, n))
      && (!bad ==> exempt + live == TotalLines(entries, n) + TotalMissing(entries, g, n))
      && ((forall j | 0 <= j < n :: NoExtraLines(NodeCounts(entries[j], g[j]), Records(entries[j]))) ==>
            live == TotalLines(entries, n) - TotalExempt(entries, killed, killTs, n)
                    + TotalCounts(entries, g, n) - TotalTallies(entries, n))
      && (clean <==> !bad && AllExempt(entries, killed, killTs, n) && AllCovered(entries, g, n))
  {
    var g := given.UnwrapOr(seq(|entries|, _ => NO_COUNTS));
    exempt, live := 0, 0;
    var mismatch := false;
    for n := 0 to |entries|
      invariant exempt == TotalExempt(entries, killed, killTs, n)
      invariant exempt + live == TotalLines(entries, n) + TotalMissing(entries, g, n)
      invariant mismatch <==> given.Some? && exists j :: 0 <= j < n && NodeCounts(entries[j], g[j]) != g[j]
    {
      var counts := NodeCounts(entries[n], g[n]);
      if given.Some? && g[n] != counts { mismatch := true; }
      var e, l, tally := CountLines(entries, killed, killTs, n, Records(entries[n]));
      var missing := CountMissing(counts, Records(entries[n]), tally);
      exempt, live := exempt + e, live + l + missing;
    }
    TotalExemptAtMost(entries, killed, killTs, |entries|);
    TotalMissingZero(entries, g, |entries|);
    if forall j | 0 <= j < |entries| :: NoExtraLines(NodeCounts(entries[j], g[j]), Records(entries[j])) {
      TotalMissingIsDifference(entries, g, |entries|);
    }
    clean := !mismatch && live == 0;
    if mismatch { exempt := 0; }
  }
}
