/**
 The wait before a state digest: read every node's submit counter, then poll its write counter
 until it is one higher, or give up. A clock tick is one pass over the nodes.
 */
module CheckpointWait {
  import opened Options
  import Checkpoints

  type Name = nat

  /** One read of a node's two counters; an invalid sample voids both. */
  datatype Scrape = Scrape(submits: Option<nat>, writes: Option<nat>, invalid: bool) {
    predicate Active() {
      submits.UnwrapOr(0) > 0 || writes.UnwrapOr(0) > 0
    }

    predicate Missing() {
      submits.None? || writes.None?
    }
  }

  /** What node `n` answers on pass `p`; `None` when the read failed. */
  type Source = (Name, nat) -> Option<Scrape>

  datatype Outcome = Skipped | TimedOut | FallbackSleep | Durable

  // ------------------------------------------------------------------ the baseline

  /** `v` is the first answer of `n` on a pass from `start` to `last`. */
  ghost predicate FirstAnswer(source: Source, n: Name, v: Scrape, start: nat, last: nat) {
    exists p: nat :: start <= p <= last && source(n, p) == Some(v) && forall q: nat :: start <= q < p ==> source(n, q).None?
  }

  /** Every name in `base` holds a node's earlier or first answer, and every other name has not answered. */
  ghost predicate Answers(source: Source, nodes: seq<Name>, answered: map<Name, Scrape>, base: map<Name, Scrape>,
      start: nat, last: nat) {
    && (forall n | n in answered :: n in base && base[n] == answered[n])
    && (forall n | n in base && n !in answered :: n in nodes && FirstAnswer(source, n, base[n], start, last))
    && (forall n, q: nat | n in nodes && n !in base && start <= q <= last :: source(n, q).None?)
  }

  /** One pass asks exactly the nodes that have not answered. */
  ghost predicate PassAnswers(source: Source, nodes: seq<Name>, pass: nat, before: map<Name, Scrape>,
      base: map<Name, Scrape>) {
    && (forall n | n in before :: n in base && base[n] == before[n])
    && (forall n | n in base && n !in before :: n in nodes && source(n, pass) == Some(base[n]))
    && (forall n | n in nodes && n !in base :: source(n, pass).None?)
  }

  method AskOnce(nodes: seq<Name>, source: Source, pass: nat, before: map<Name, Scrape>) returns (base: map<Name, Scrape>)
    ensures PassAnswers(source, nodes, pass, before, base)
  {
    base := before;
    for i := 0 to |nodes|
      invariant forall n | n in before :: n in base && base[n] == before[n]
      invariant forall n | n in base && n !in before :: n in nodes && source(n, pass) == Some(base[n])
      invariant forall k | 0 <= k < i && nodes[k] !in base :: source(nodes[k], pass).None?
    {
      if nodes[i] !in base {
        var v := source(nodes[i], pass);
        if v.Some? { base := base[nodes[i] := v.value]; }
      }
    }
  }

  method Baseline(nodes: seq<Name>, source: Source, start: nat, deadline: nat, retry: bool, answered: map<Name, Scrape>)
    returns (base: map<Name, Scrape>, pass: nat)
    ensures start <= pass && Answers(source, nodes, answered, base, start, pass)
    ensures !retry ==> pass == start
    ensures retry ==> |base| == |nodes| || pass >= deadline
  {
    hide Answers, PassAnswers;
    pass := start;
    base := AskOnce(nodes, source, pass, answered);
    AnswersFirst(source, nodes, answered, base, start);
    while retry && |base| != |nodes| && pass < deadline
      invariant start <= pass && Answers(source, nodes, answered, base, start, pass)
      invariant !retry ==> pass == start
      decreases deadline - pass
    {
      var more := AskOnce(nodes, source, pass + 1, base);
      AnswersExtend(source, nodes, answered, base, more, start, pass);
      base, pass := more, pass + 1;
    }
  }

  lemma AnswersFirst(source: Source, nodes: seq<Name>, answered: map<Name, Scrape>, base: map<Name, Scrape>, start: nat)
    requires PassAnswers(source, nodes, start, answered, base)
    ensures Answers(source, nodes, answered, base, start, start)
  {
    forall n | n in base && n !in answered ensures FirstAnswer(source, n, base[n], start, start) {
      assert source(n, start) == Some(base[n]);
    }
  }

  lemma AnswersExtend(source: Source, nodes: seq<Name>, answered: map<Name, Scrape>, before: map<Name, Scrape>,
                      base: map<Name, Scrape>, start: nat, last: nat)
    requires start <= last && Answers(source, nodes, answered, before, start, last)
    requires PassAnswers(source, nodes, last + 1, before, base)
    ensures Answers(source, nodes, answered, base, start, last + 1)
  {
    forall n | n in base && n !in answered ensures FirstAnswer(source, n, base[n], start, last + 1) {
      if n in before {
        FirstAnswerLater(source, n, base[n], start, last, last + 1);
      } else {
        assert source(n, last + 1) == Some(base[n]);
      }
    }
  }

  lemma FirstAnswerLater(source: Source, n: Name, v: Scrape, start: nat, last: nat, later: nat)
    requires FirstAnswer(source, n, v, start, last) && last <= later
    ensures FirstAnswer(source, n, v, start, later)
  {
    var p: nat :| start <= p <= last && source(n, p) == Some(v) && forall q: nat :: start <= q < p ==> source(n, q).None?;
    assert start <= p <= later && source(n, p) == Some(v);
  }

  /** A second round that starts where the first stopped gives first answers of the two together. */
  lemma AnswersJoin(source: Source, nodes: seq<Name>, first: map<Name, Scrape>, base: map<Name, Scrape>, mid: nat,
      last: nat)
    requires mid < last && Answers(source, nodes, map[], first, 0, mid)
        && Answers(source, nodes, first, base, mid + 1, last)
    ensures Answers(source, nodes, map[], base, 0, last)
  {
    forall n | n in base ensures n in nodes && FirstAnswer(source, n, base[n], 0, last) {
      if n in first {
        FirstAnswerLater(source, n, base[n], 0, mid, last);
      } else {
        var p: nat :| mid + 1 <= p <= last && source(n, p) == Some(base[n])
            && forall q: nat :: mid + 1 <= q < p ==> source(n, q).None?;
        assert source(n, p) == Some(base[n]) && forall q: nat :: 0 <= q < p ==> source(n, q).None?;
      }
    }
  }

  // ------------------------------------------------------------------ the poll

  /** The write count node `n` reports on pass `p`: the baseline's on the first, a read's later. */
  function WritesAt(source: Source, base: map<Name, Scrape>, n: Name, start: nat, p: nat): nat
    requires n in base
  {
    if p == start then base[n].writes.UnwrapOr(0)
    else if source(n, p).Some? then source(n, p).value.writes.UnwrapOr(0)
    else 0
  }

  /** Some pass from `start` to `last` shows the node one write past its baseline submits. */
  ghost predicate Reached(source: Source, base: map<Name, Scrape>, n: Name, start: nat, last: nat)
    requires n in base && base[n].submits.Some?
  {
    exists p: nat :: start <= p <= last && WritesAt(source, base, n, start, p) >= base[n].submits.value + 1
  }

  /** Drop the nodes that reached their target. */
  method DropReached(pending0: seq<Name>, counts: map<Name, nat>, target: map<Name, nat>) returns (pending: seq<Name>)
    requires forall n | n in pending0 :: n in counts && n in target
    ensures forall n :: n in pending <==> n in pending0 && counts[n] < target[n]
  {
    pending := [];
    for i := 0 to |pending0|
      invariant forall n :: n in pending <==> n in pending0[..i] && counts[n] < target[n]
    {
      if counts[pending0[i]] < target[pending0[i]] { pending := pending + [pending0[i]]; }
    }
    assert pending0[..|pending0|] == pending0;
  }

  /** Read the pending nodes' write counters; a failed or void read keeps the last count. */
  method ReadWrites(pending: seq<Name>, source: Source, pass: nat, before: map<Name, nat>) returns (counts: map<Name, nat>)
    requires forall n | n in pending :: n in before
    ensures counts.Keys == before.Keys
    ensures forall n | n in before && n !in pending :: counts[n] == before[n]
    ensures forall n | n in pending ::
      var v := source(n, pass);
      counts[n] == if v.Some? && v.value.writes.Some? then v.value.writes.value else before[n]
  {
    counts := before;
    for i := 0 to |pending|
      invariant counts.Keys == before.Keys
      invariant forall n | n in before && n !in pending[..i] :: counts[n] == before[n]
      invariant forall n | n in pending[..i] ::
        var v := source(n, pass);
        counts[n] == if v.Some? && v.value.writes.Some? then v.value.writes.value else before[n]
    {
      var v := source(pending[i], pass);
      if v.Some? && v.value.writes.Some? { counts := counts[pending[i] := v.value.writes.value]; }
    }
    assert pending[..|pending|] == pending;
  }

  /** A pending node's count is what its last good read showed, below the target on every pass so far. */
  ghost predicate PollInv(source: Source, base: map<Name, Scrape>, nodes: seq<Name>, pending: seq<Name>,
                          counts: map<Name, nat>, start: nat, pass: nat)
    requires forall n | n in nodes :: n in base && base[n].submits.Some?
  {
    && (forall n | n in pending :: n in nodes)
    && (forall n | n in nodes :: n in counts)
    && (forall n | n in nodes && n !in pending :: Reached(source, base, n, start, pass))
    && (forall n, p: nat | n in pending
        && start <= p < pass :: WritesAt(source, base, n, start, p) < base[n].submits.value + 1)
    && (forall n | n in pending ::
          counts[n] >= base[n].submits.value + 1 <==> WritesAt(source, base, n, start, pass) >= base[n].submits.value + 1)
  }

  lemma PollStep(source: Source, base: map<Name, Scrape>, nodes: seq<Name>, before: seq<Name>, pending: seq<Name>,
                 was: map<Name, nat>, counts: map<Name, nat>, start: nat, pass: nat)
    requires forall n | n in nodes :: n in base && base[n].submits.Some?
    requires start <= pass && PollInv(source, base, nodes, before, was, start, pass)
    requires forall n :: n in pending <==> n in before && was[n] < base[n].submits.value + 1
    requires counts.Keys == was.Keys
    requires forall n | n in pending ::
      var v := source(n, pass + 1);
      counts[n] == if v.Some? && v.value.writes.Some? then v.value.writes.value else was[n]
    ensures PollInv(source, base, nodes, pending, counts, start, pass + 1)
  {
    forall n | n in nodes && n !in pending ensures Reached(source, base, n, start, pass + 1) {
      if n in before {
        assert WritesAt(source, base, n, start, pass) >= base[n].submits.value + 1;
      } else {
        var p: nat :| start <= p <= pass && WritesAt(source, base, n, start, p) >= base[n].submits.value + 1;
        assert start <= p <= pass + 1 && WritesAt(source, base, n, start, p) >= base[n].submits.value + 1;
      }
    }
  }

  /** Exactly the nodes that no pass showed past their target stay pending. */
  method PollDurable(nodes: seq<Name>, base: map<Name, Scrape>, source: Source, start: nat, deadline: nat)
    returns (pending: seq<Name>, pass: nat)
    requires forall n | n in nodes :: n in base && base[n].submits.Some?
    ensures start <= pass && (pending == [] || pass >= deadline)
    ensures forall n | n in nodes :: n !in pending <==> Reached(source, base, n, start, pass)
    ensures forall n | n in pending :: n in nodes
  {
    var target: map<Name, nat> := map n | n in base :: base[n].submits.UnwrapOr(0) + 1;
    var counts: map<Name, nat> := map n | n in base :: base[n].writes.UnwrapOr(0);
    var before := nodes;
    pass := start;
    pending := DropReached(nodes, counts, target);
    while pending != [] && pass < deadline
      invariant start <= pass && PollInv(source, base, nodes, before, counts, start, pass)
      invariant forall n :: n in pending <==> n in before && counts[n] < base[n].submits.value + 1
      decreases deadline - pass
    {
      var next := ReadWrites(pending, source, pass + 1, counts);
      PollStep(source, base, nodes, before, pending, counts, next, start, pass);
      before, counts, pass := pending, next, pass + 1;
      pending := DropReached(before, counts, target);
    }
  }

  // ------------------------------------------------------------------ the outcome

  predicate AnyActive(nodes: seq<Name>, base: map<Name, Scrape>) {
    exists n :: n in nodes && n in base && base[n].Active()
  }

  predicate AnyInvalid(nodes: seq<Name>, base: map<Name, Scrape>) {
    exists n :: n in nodes && n in base && base[n].invalid
  }

  predicate AnyMissing(nodes: seq<Name>, base: map<Name, Scrape>) {
    exists n :: n in nodes && n in base && base[n].Missing()
  }

  /** The nodes that report both counters. */
  function Capable(nodes: seq<Name>, base: map<Name, Scrape>): (r: seq<Name>)
    ensures forall n :: n in r <==> n in nodes && n in base && !base[n].Missing()
  {
    if nodes == [] then []
    else
      var rest := Capable(nodes[..|nodes| - 1], base);
      var n := nodes[|nodes| - 1];
      if n in base && !base[n].Missing() then rest + [n] else rest
  }

  /** A full count of answers is an answer from every node. */
  lemma {:induction false} FullCount(nodes: seq<Name>, keys: set<Name>)
    requires forall n | n in keys :: n in nodes
    ensures |keys| <= |nodes|
    ensures |keys| == |nodes| ==> forall n | n in nodes :: n in keys
  {
    if nodes != [] {
      var n, rest := nodes[0], nodes[1..];
      FullCount(rest, keys - {n});
      assert nodes == [n] + rest;
    } else {
      assert keys == {};
    }
  }

  /**
   The whole wait. `intervalOn`: the nodes' environment resolves to checkpoints on. The verdict is
   stated on the baseline and the passes: what each of the four outcomes says about every node.
   */
  method Wait(nodes: seq<Name>, intervalOn: bool, source: Source, deadline: nat)
    returns (outcome: Outcome, base: map<Name, Scrape>, start: nat, pass: nat)
    ensures Answers(source, nodes, map[], base, 0, start) && start <= pass
    ensures outcome.Skipped? <==>
      && !intervalOn
      && (forall n | n in nodes && n in base ::
            base[n].submits.UnwrapOr(0) == 0 && base[n].writes.UnwrapOr(0) == 0 && !base[n].invalid)
    ensures outcome.Skipped? ==> start == pass == 0
    ensures outcome.Durable? <==>
      && !outcome.Skipped?
      && (forall n | n in nodes :: n in base && !base[n].Missing() && Reached(source, base, n, start, pass))
    ensures outcome.FallbackSleep? <==>
      && !outcome.Skipped? && AnyMissing(nodes, base)
      && (forall n | n in nodes :: n in base && (!base[n].Missing() ==> Reached(source, base, n, start, pass)))
    ensures outcome.TimedOut? ==> pass >= deadline
    ensures outcome.Durable? ==> forall n | n in nodes :: Covered(source, n, pass)
  {
    base, start := Baseline(nodes, source, 0, deadline, intervalOn, map[]);
    FullCount(nodes, base.Keys);
    if !intervalOn && |base| < |nodes| && (AnyActive(nodes, base) || AnyInvalid(nodes, base)) {
      var first, mid := base, start;
      base, start := Baseline(nodes, source, mid + 1, deadline, true, first);
      AnswersJoin(source, nodes, first, base, mid, start);
      FullCount(nodes, base.Keys);
    }
    pass := start;
    if !intervalOn && !AnyActive(nodes, base) && !AnyInvalid(nodes, base) {
      outcome := Skipped;
      return;
    }
    if exists n :: n in nodes && n !in base {
      outcome := TimedOut;
      return;
    }
    var pending;
    pending, pass := PollDurable(Capable(nodes, base), base, source, start, deadline);
    if pending != [] {
      outcome := TimedOut;
      assert pending[0] in pending;
    } else if AnyMissing(nodes, base) {
      outcome := FallbackSleep;
    } else {
      outcome := Durable;
      DurableCovers(source, nodes, base, start, pass);
    }
  }

  // ------------------------------------------------------------------ what "durable" means

  /** The node's state at the moment of pass `p`. */
  function At(labels: seq<Checkpoints.Label>, moment: nat -> nat, p: nat): Checkpoints.Node
    requires moment(p) <= |labels|
  {
    Checkpoints.Run(Checkpoints.GENESIS, labels[..moment(p)])
  }

  /** Pass `p` reads node `n`'s counters off its run at `moment(p)`, and moments follow passes. */
  ghost predicate ReadsOff(source: Source, n: Name, labels: seq<Checkpoints.Label>, moment: nat -> nat) {
    && (forall p: nat :: moment(p) <= |labels|)
    && (forall p: nat, q: nat | p <= q :: moment(p) <= moment(q))
    && (forall p: nat | source(n, p).Some? ::
          && (source(n, p).value.submits.Some? ==> source(n, p).value.submits.value == At(labels, moment, p).submits)
          && (source(n, p).value.writes.Some? ==> source(n, p).value.writes.value == At(labels, moment, p).writes))
  }

  lemma Between(labels: seq<Checkpoints.Label>, i: nat, j: nat)
    requires i <= j <= |labels|
    ensures Checkpoints.Run(Checkpoints.GENESIS, labels[..j])
         == Checkpoints.Run(Checkpoints.Run(Checkpoints.GENESIS, labels[..i]), labels[i..j])
  {
    assert labels[..j] == labels[..i] + labels[i..j];
    Checkpoints.RunConcat(Checkpoints.GENESIS, labels[..i], labels[i..j]);
  }

  /** Nothing executed is lost and nothing durable is undone while the process lives. */
  lemma Later(labels: seq<Checkpoints.Label>, i: nat, j: nat)
    requires i <= j <= |labels| && Checkpoints.Restart !in labels[i..j]
    ensures var s, t := Checkpoints.Run(Checkpoints.GENESIS, labels[..i]),
        Checkpoints.Run(Checkpoints.GENESIS, labels[..j]);
      s.executed <= t.executed && s.durable <= t.durable
  {
    hide Checkpoints.Run;
    Between(labels, i, j);
    Checkpoints.ReachableInv(labels[..i]);
    Checkpoints.RunAfter(Checkpoints.Run(Checkpoints.GENESIS, labels[..i]), labels[i..j]);
    Checkpoints.DurableGrows(Checkpoints.Run(Checkpoints.GENESIS, labels[..i]), labels[i..j]);
  }

  /**
   A node that reached its target, with both counters read off its run and no restart during the
   wait, has on disk every block it had executed when the wait began.
   */
  lemma ReachedCoversExecuted(source: Source, base: map<Name, Scrape>, n: Name, start: nat, pass: nat,
                              labels: seq<Checkpoints.Label>, moment: nat -> nat)
    requires n in base && FirstAnswer(source, n, base[n], 0, start) && !base[n].Missing()
    requires Reached(source, base, n, start, pass)
    requires ReadsOff(source, n, labels, moment)
    requires Checkpoints.Restart !in labels[moment(0)..moment(pass)]
    ensures At(labels, moment, pass).durable >= At(labels, moment, 0).executed
  {
    hide Checkpoints.Run;
    var p0: nat :| p0 <= start && source(n, p0) == Some(base[n]);
    var p: nat :| start <= p <= pass && WritesAt(source, base, n, start, p) >= base[n].submits.value + 1;
    var q := if p == start then p0 else p;
    assert moment(0) <= moment(p0) <= moment(q) <= moment(pass) <= |labels|;
    assert At(labels, moment, q).writes >= At(labels, moment, p0).submits + 1;
    NoRestartWithin(labels, moment(0), moment(pass), moment(0), moment(p0));
    NoRestartWithin(labels, moment(0), moment(pass), moment(p0), moment(q));
    NoRestartWithin(labels, moment(0), moment(pass), moment(q), moment(pass));
    Later(labels, moment(0), moment(p0));
    Between(labels, moment(p0), moment(q));
    Checkpoints.WaitCoversExecuted(labels[..moment(p0)], labels[moment(p0)..moment(q)]);
    Later(labels, moment(q), moment(pass));
  }

  /**
   Whatever run of the node the reads come from, if it did not restart during the wait, then at the
   end of it every block it had executed at the start is on disk.
   */
  ghost predicate Covered(source: Source, n: Name, pass: nat) {
    forall labels: seq<Checkpoints.Label>, moment: nat -> nat |
      ReadsOff(source, n, labels, moment) && moment(0) <= moment(pass) <= |labels|
      && Checkpoints.Restart !in labels[moment(0)..moment(pass)] ::
      At(labels, moment, pass).durable >= At(labels, moment, 0).executed
  }

  /** Every node answered and reached its target, so every node's disk covers the start of the wait. */
  lemma DurableCovers(source: Source, nodes: seq<Name>, base: map<Name, Scrape>, start: nat, pass: nat)
    requires Answers(source, nodes, map[], base, 0, start) && start <= pass
    requires forall n | n in nodes :: n in base && !base[n].Missing() && Reached(source, base, n, start, pass)
    ensures forall n | n in nodes :: Covered(source, n, pass)
  {
    forall n, labels: seq<Checkpoints.Label>, moment: nat -> nat |
      n in nodes && ReadsOff(source, n, labels, moment) && moment(0) <= moment(pass) <= |labels|
      && Checkpoints.Restart !in labels[moment(0)..moment(pass)]
      ensures At(labels, moment, pass).durable >= At(labels, moment, 0).executed
    {
      ReachedCoversExecuted(source, base, n, start, pass, labels, moment);
    }
  }

  lemma NoRestartWithin(labels: seq<Checkpoints.Label>, i: nat, j: nat, k: nat, m: nat)
    requires i <= k <= m <= j <= |labels| && Checkpoints.Restart !in labels[i..j]
    ensures Checkpoints.Restart !in labels[k..m]
  {
    assert forall t | k <= t < m :: labels[t] == labels[i..j][t - i];
  }
}
