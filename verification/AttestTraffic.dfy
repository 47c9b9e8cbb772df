/**
 Scanning a window of blocks for native actions other than attestations, over several nodes' RPCs
 that may or may not answer.
 */
module AttestTraffic {
  import opened Options

  /** An action's kind (`None`: unreadable) and its status on the answering node (`None`: not executed there yet). */
  datatype Status = Skipped | Counted

  datatype Action = Action(kind: Option<string>, status: Option<Status>)

  type Body = seq<Action>

  const ATTEST_KIND := "AttestStateHash"
  const MAX_BLOCKS: nat := 50000

  /** What node `n` returns for height `h`: on the first read (`again` false) or when all nodes are compared. */
  type Answers = (nat, nat, bool) -> Option<Body>

  predicate Expected(kind: Option<string>, allowed: set<string>) {
    kind.Some? && (kind.value == ATTEST_KIND || kind.value in allowed)
  }

  predicate SameKinds(a: Body, b: Body) {
    |a| == |b| && forall i | 0 <= i < |a| :: a[i].kind == b[i].kind
  }

  function Kinds(a: Body): seq<Option<string>> {
    seq(|a|, i requires 0 <= i < |a| => a[i].kind)
  }

  /** Two bodies are compared by the list of their actions' kinds. */
  lemma SameKindsIff(a: Body, b: Body)
    ensures SameKinds(a, b) <==> Kinds(a) == Kinds(b)
  {
    if Kinds(a) == Kinds(b) {
      assert |a| == |Kinds(a)| && |b| == |Kinds(b)|;
      forall i | 0 <= i < |a| ensures a[i].kind == b[i].kind { assert Kinds(a)[i] == Kinds(b)[i]; }
    }
  }

  // ------------------------------------------------------------------ the declarative reading

  /** The first node that answers for a height. */
  ghost predicate FirstToAnswer(answers: Answers, nodes: nat, h: nat, n: nat) {
    n < nodes && answers(n, h, false).Some? && forall m | 0 <= m < n :: answers(m, h, false).None?
  }

  ghost predicate Unread(answers: Answers, nodes: nat, h: nat) {
    forall n: nat | n < nodes :: answers(n, h, false).None?
  }

  /** Node `n`'s view of a height whose first answer came from `first`. */
  function ViewOf(answers: Answers, h: nat, first: nat, n: nat): Option<Body> {
    answers(n, h, n != first)
  }

  /** Skipped by every node, each returning the same body. */
  ghost predicate SkippedEverywhere(answers: Answers, nodes: nat, h: nat, first: nat, i: nat)
    requires answers(first, h, false).Some?
  {
    forall n: nat | n < nodes ::
      var v := ViewOf(answers, h, first, n);
      v.Some? && SameKinds(v.value, answers(first, h, false).value) && i < |v.value| && v.value[i].status == Some(Skipped)
  }

  /** An action that does not count against the window. */
  ghost predicate Excused(answers: Answers, nodes: nat, allowed: set<string>, h: nat, first: nat, i: nat)
    requires answers(first, h, false).Some? && i < |answers(first, h, false).value|
  {
    Expected(answers(first, h, false).value[i].kind, allowed) || SkippedEverywhere(answers, nodes, h, first, i)
  }

  /** Every action of the height is excused. */
  ghost predicate QuietHeight(answers: Answers, nodes: nat, allowed: set<string>, h: nat) {
    exists first: nat :: FirstToAnswer(answers, nodes, h, first) &&
      forall i: nat | i < |answers(first, h, false).value| :: Excused(answers, nodes, allowed, h, first, i)
  }

  // ------------------------------------------------------------------ reading

  function Heights(lo: nat, hi: nat): (r: set<nat>)
    requires lo <= hi
    ensures forall h :: h in r <==> lo <= h <= hi
    decreases hi - lo
  {
    if lo == hi then {lo} else {lo} + Heights(lo + 1, hi)
  }

  /** Read every height from the first node that answers it. */
  method ReadAll(answers: Answers, nodes: nat, lo: nat, hi: nat)
      returns (read: map<nat, Body>, source: map<nat, nat>, missing: set<nat>)
    requires lo <= hi
    ensures read.Keys == source.Keys
    ensures forall h | h in source ::
      lo <= h <= hi && FirstToAnswer(answers, nodes, h, source[h]) && answers(source[h], h, false) == Some(read[h])
    ensures forall h :: h in missing <==> lo <= h <= hi && h !in read
    ensures forall h | h in missing :: Unread(answers, nodes, h)
  {
    missing := Heights(lo, hi);
    read, source := map[], map[];
    for n := 0 to nodes
      invariant read.Keys == source.Keys
      invariant forall h | h in source ::
        lo <= h <= hi && FirstToAnswer(answers, nodes, h, source[h]) && answers(source[h], h, false) == Some(read[h])
      invariant forall h :: h in missing <==> lo <= h <= hi && h !in read
      invariant forall h, m: nat | h in missing && m < n :: answers(m, h, false).None?
    {
      var got := map h | h in missing && answers(n, h, false).Some? :: answers(n, h, false).value;
      read := read + got;
      source := source + (map h | h in got :: n);
      missing := missing - got.Keys;
    }
  }

  /** A non-expected action this node skipped: worth asking every node. */
  predicate Suspect(body: Body, allowed: set<string>) {
    exists i :: 0 <= i < |body| && body[i].status == Some(Skipped) && !Expected(body[i].kind, allowed)
  }

  /** Every node's view of one suspect height. */
  method PeerViews(answers: Answers, nodes: nat, h: nat, first: nat, body: Body) returns (views: seq<Option<Body>>)
    requires first < nodes && answers(first, h, false) == Some(body)
    ensures |views| == nodes && forall n: nat | n < nodes :: views[n] == ViewOf(answers, h, first, n)
  {
    views := [];
    for n := 0 to nodes
      invariant |views| == n && forall m: nat | m < n :: views[m] == ViewOf(answers, h, first, m)
    {
      views := views + [if n == first then Some(body) else answers(n, h, true)];
    }
  }

  // ------------------------------------------------------------------ counting

  /** Whether the action at `i` is skipped in every view of the same body. */
  predicate SkippedInAll(body: Body, views: seq<Option<Body>>, i: nat) {
    forall n | 0 <= n < |views| ::
      views[n].Some? && SameKinds(views[n].value, body) && i < |views[n].value| && views[n].value[i].status == Some(Skipped)
  }

  predicate Counts(body: Body, views: seq<Option<Body>>, allowed: set<string>, i: nat)
    requires i < |body|
  {
    !Expected(body[i].kind, allowed) && !(body[i].status == Some(Skipped) && SkippedInAll(body, views, i))
  }

  /** The other actions among the first `n` of a body. */
  function OtherIn(body: Body, views: seq<Option<Body>>, allowed: set<string>, n: nat): nat
    requires n <= |body|
  {
    if n == 0 then 0 else OtherIn(body, views, allowed, n - 1) + if Counts(body, views, allowed, n - 1) then 1 else 0
  }

  /** The expected actions of kind attestation (or of an allowed kind) among the first `n` that were executed. */
  function ExpectedIn(body: Body, allowed: set<string>, attest: bool, n: nat): nat
    requires n <= |body|
  {
    if n == 0 then 0
    else
      var a := body[n - 1];
      var hit := Expected(a.kind, allowed) && a.status != Some(Skipped) && (a.kind.value == ATTEST_KIND) == attest;
      ExpectedIn(body, allowed, attest, n - 1) + (if hit then 1 else 0)
  }

  /** The actions that were executed and are attestations. */
  function Attestations(body: Body, n: nat): set<nat>
    requires n <= |body|
  {
    set i | 0 <= i < n && body[i].kind == Some(ATTEST_KIND) && body[i].status != Some(Skipped)
  }

  /** The actions that were executed and are of an allowed kind other than attestation. */
  function AllowedActions(body: Body, allowed: set<string>, n: nat): set<nat>
    requires n <= |body|
  {
    set i | 0 <= i < n && body[i].kind.Some? && body[i].kind.value in allowed && body[i].kind != Some(ATTEST_KIND)
            && body[i].status != Some(Skipped)
  }

  lemma {:induction false} AttestationsCount(body: Body, allowed: set<string>, n: nat)
    requires n <= |body|
    ensures ExpectedIn(body, allowed, true, n) == |Attestations(body, n)|
  {
    if n > 0 {
      AttestationsCount(body, allowed, n - 1);
      var a := Attestations(body, n - 1);
      assert Attestations(body, n) == if n - 1 in Attestations(body, n) then a + {n - 1} else a;
    }
  }

  lemma {:induction false} AllowedCount(body: Body, allowed: set<string>, n: nat)
    requires n <= |body|
    ensures ExpectedIn(body, allowed, false, n) == |AllowedActions(body, allowed, n)|
  {
    if n > 0 {
      AllowedCount(body, allowed, n - 1);
      var a := AllowedActions(body, allowed, n - 1);
      assert AllowedActions(body, allowed, n) == if n - 1 in AllowedActions(body, allowed, n) then a + {n - 1} else a;
    }
  }

  lemma {:induction false} OtherInCounts(body: Body, views: seq<Option<Body>>, allowed: set<string>, n: nat)
    requires n <= |body|
    ensures OtherIn(body, views, allowed, n) == |set i: nat | i < n && Counts(body, views, allowed, i)|
  {
    if n > 0 {
      OtherInCounts(body, views, allowed, n - 1);
      var a := set i: nat | i < n - 1 && Counts(body, views, allowed, i);
      var b := set i: nat | i < n && Counts(body, views, allowed, i);
      assert b == if Counts(body, views, allowed, n - 1) then a + {n - 1} else a;
    }
  }

  method CountHeight(body: Body, views: seq<Option<Body>>, allowed: set<string>)
      returns (attest: nat, allow: nat, other: nat)
    ensures other == OtherIn(body, views, allowed, |body|)
    ensures attest == |Attestations(body, |body|)| && allow == |AllowedActions(body, allowed, |body|)|
    ensures other == |set i: nat | i < |body| && Counts(body, views, allowed, i)|
  {
    AttestationsCount(body, allowed, |body|);
    AllowedCount(body, allowed, |body|);
    OtherInCounts(body, views, allowed, |body|);
    attest, allow, other := 0, 0, 0;
    for i := 0 to |body|
      invariant other == OtherIn(body, views, allowed, i)
      invariant attest == ExpectedIn(body, allowed, true, i) && allow == ExpectedIn(body, allowed, false, i)
    {
      var a := body[i];
      if Expected(a.kind, allowed) {
        if a.status != Some(Skipped) {
          if a.kind.value == ATTEST_KIND { attest := attest + 1; } else { allow := allow + 1; }
        }
      } else if a.status != Some(Skipped) || !SkippedInAll(body, views, i) {
        other := other + 1;
      }
    }
  }

  lemma {:induction false} OtherInZero(body: Body, views: seq<Option<Body>>, allowed: set<string>, n: nat)
    requires n <= |body|
    ensures OtherIn(body, views, allowed, n) == 0 <==> forall i: nat | i < n :: !Counts(body, views, allowed, i)
  {
    if n > 0 { OtherInZero(body, views, allowed, n - 1); }
  }

  // ------------------------------------------------------------------ the scan

  datatype Scan = Scan(blocks: nat, other: nat, otherHeights: set<nat>, unreadHeights: set<nat>, clean: bool, error: bool)

  /** A height with nothing suspect is counted on its own answer alone; the others on every view. */
  method ScanHeight(answers: Answers, nodes: nat, allowed: set<string>, h: nat, first: nat, body: Body) returns (other: nat)
    requires FirstToAnswer(answers, nodes, h, first) && answers(first, h, false) == Some(body)
    ensures other == 0 <==> QuietHeight(answers, nodes, allowed, h)
  {
    var views := [Some(body)];
    if Suspect(body, allowed) {
      views := PeerViews(answers, nodes, h, first, body);
    }
    var attest, allow;
    attest, allow, other := CountHeight(body, views, allowed);
    CountsIffNotExcused(answers, nodes, allowed, h, first, body, views);
  }

  lemma CountsIffNotExcused(answers: Answers, nodes: nat, allowed: set<string>, h: nat, first: nat, body: Body,
      views: seq<Option<Body>>)
    requires FirstToAnswer(answers, nodes, h, first) && answers(first, h, false) == Some(body)
    requires Suspect(body, allowed) ==>
      |views| == nodes && forall n: nat | n < nodes :: views[n] == ViewOf(answers, h, first, n)
    ensures OtherIn(body, views, allowed, |body|) == 0 <==> QuietHeight(answers, nodes, allowed, h)
  {
    OtherInZero(body, views, allowed, |body|);
    forall i: nat | i < |body| ensures Counts(body, views, allowed, i) <==> !Excused(answers, nodes, allowed, h, first, i) {
      ActionCounts(answers, nodes, allowed, h, first, body, views, i);
    }
    if QuietHeight(answers, nodes, allowed, h) {
      var other: nat :| FirstToAnswer(answers, nodes, h, other) &&
        forall i: nat | i < |answers(other, h, false).value| :: Excused(answers, nodes, allowed, h, other, i);
      assert other == first;
    }
  }

  lemma ActionCounts(answers: Answers, nodes: nat, allowed: set<string>, h: nat, first: nat, body: Body,
      views: seq<Option<Body>>, i: nat)
    requires FirstToAnswer(answers, nodes, h, first) && answers(first, h, false) == Some(body) && i < |body|
    requires Suspect(body, allowed) ==>
      |views| == nodes && forall n: nat | n < nodes :: views[n] == ViewOf(answers, h, first, n)
    ensures Counts(body, views, allowed, i) <==> !Excused(answers, nodes, allowed, h, first, i)
  {
    if !Expected(body[i].kind, allowed) {
      if body[i].status == Some(Skipped) {
        assert Suspect(body, allowed);
      } else {
        assert ViewOf(answers, h, first, first) == Some(body);
      }
    }
  }

  /**
   The scan of blocks `lo..hi`. It is clean exactly when the range is usable and every action of
   every height is an attestation, of an allowed kind, or skipped by every node; it reports other
   actions exactly when some read height holds one.
   */
  method ScanWindow(answers: Answers, nodes: nat, lo: int, hi: int, allowed: set<string>) returns (r: Scan)
    ensures r.error <==> nodes == 0 || lo < 0 || hi < lo || hi - lo + 1 > MAX_BLOCKS
    ensures r.clean <==> !r.error && forall h: nat | lo <= h <= hi :: QuietHeight(answers, nodes, allowed, h)
    ensures r.error ==> r == Scan(0, 0, {}, {}, false, true)
    ensures !r.error ==>
      && (forall h :: h in r.unreadHeights <==> lo <= h <= hi && Unread(answers, nodes, h))
      && r.blocks + |r.unreadHeights| == hi - lo + 1
      && (forall h :: h in r.otherHeights <==>
            lo <= h <= hi && !Unread(answers, nodes, h) && !QuietHeight(answers, nodes, allowed, h))
      && (r.other > 0 <==> r.otherHeights != {})
  {
    if nodes == 0 || lo < 0 || hi < lo || hi - lo + 1 > MAX_BLOCKS {
      return Scan(0, 0, {}, {}, false, true);
    }
    var read, source, missing := ReadAll(answers, nodes, lo, hi);
    var other, heights, todo := 0, {}, read.Keys;
    while todo != {}
      invariant todo <= read.Keys
      invariant forall h :: h in heights <==> h in read && h !in todo && !QuietHeight(answers, nodes, allowed, h)
      invariant other > 0 <==> heights != {}
    {
      var h :| h in todo;
      var n := ScanHeight(answers, nodes, allowed, h, source[h], read[h]);
      if n > 0 { heights := heights + {h}; }
      other, todo := other + n, todo - {h};
    }
    r := Scan(|read|, other, heights, missing, other == 0 && missing == {}, false);
    HeightsPartition(read.Keys, missing, lo, hi);
    ScanVerdict(answers, nodes, allowed, lo, hi, read, source, missing, heights);
  }

  lemma ScanVerdict(answers: Answers, nodes: nat, allowed: set<string>, lo: nat, hi: nat, read: map<nat, Body>,
                    source: map<nat, nat>, missing: set<nat>, heights: set<nat>)
    requires read.Keys == source.Keys
    requires forall h | h in source :: lo <= h <= hi && FirstToAnswer(answers, nodes, h, source[h])
    requires forall h :: h in missing <==> lo <= h <= hi && h !in read
    requires forall h | h in missing :: Unread(answers, nodes, h)
    requires forall h :: h in heights <==> h in read && !QuietHeight(answers, nodes, allowed, h)
    ensures forall h: nat | lo <= h <= hi :: h in missing <==> Unread(answers, nodes, h)
    ensures forall h :: h in heights <==>
      lo <= h <= hi && !Unread(answers, nodes, h) && !QuietHeight(answers, nodes, allowed, h)
    ensures heights == {} && missing == {} <==> forall h: nat | lo <= h <= hi :: QuietHeight(answers, nodes, allowed, h)
  {
    forall h: nat | lo <= h <= hi && h !in missing ensures !Unread(answers, nodes, h) {
      assert FirstToAnswer(answers, nodes, h, source[h]);
    }
    forall h: nat | lo <= h <= hi && QuietHeight(answers, nodes, allowed, h) ensures h !in missing {
      assert !Unread(answers, nodes, h);
    }
  }

  lemma HeightsPartition(read: set<nat>, missing: set<nat>, lo: nat, hi: nat)
    requires lo <= hi && (forall h | h in read :: lo <= h <= hi)
    requires forall h :: h in missing <==> lo <= h <= hi && h !in read
    ensures |read| + |missing| == hi - lo + 1
  {
    assert read + missing == Heights(lo, hi) && read !! missing;
    HeightsCount(lo, hi);
  }

  lemma {:induction false} HeightsCount(lo: nat, hi: nat)
    requires lo <= hi
    ensures |Heights(lo, hi)| == hi - lo + 1
    decreases hi - lo
  {
    if lo < hi { HeightsCount(lo + 1, hi); }
  }
}
