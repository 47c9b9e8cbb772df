/**
 The attestation verdict: one loop over the compared rows gathers what is wrong with each, and the
 problems are read off what was gathered.
 */
module StateVerdict {
  import opened Options
  import opened StateAttest

  datatype Problem =
    | NoCommonRow
    | ShortWindow
    | HashDiffers
    | VoteDiffers
    | QuorumDiffers
    | HoleBelowNewest
    | NoQuorumAtAll
    | TooFewVotes(validator: Address)
    | UnknownVoter

  /** What the judge is told besides the rows. */
  datatype Context = Context(newestCommon: Option<nat>, activation: Option<nat>, advanced: nat, known: set<Address>,
      excluded: set<Address>)

  /** The rows every node answered, in order. */
  function Common(rows: seq<Row>): (c: seq<Row>)
    ensures forall r :: r in c <==> r in rows && !AnyFailed(r.perNode)
  {
    if rows == [] then []
    else
      var rest := Common(rows[..|rows| - 1]);
      var last := rows[|rows| - 1];
      if AnyFailed(last.perNode) then rest else rest + [last]
  }

  predicate Voted(row: Row, v: Address) {
    exists i :: 0 <= i < |row.perNode| && row.perNode[i].Read? && v in row.perNode[i].votes
  }

  function Want(ctx: Context): int {
    if ctx.newestCommon.None? then 0 else MinWindow(ctx.newestCommon.value, ctx.activation, ctx.advanced)
  }

  /** Whether the nodes report one hash; a row no node was asked about reports none. */
  predicate Agrees(row: Row) {
    row.perNode != [] && !AnyFailed(row.perNode) && SameHash(row.perNode)
  }

  /** When each problem is due, said of the rows alone. */
  ghost predicate Due(rows: seq<Row>, ctx: Context, p: Problem) {
    var common := Common(rows);
    match p
    case NoCommonRow => ctx.newestCommon.Some? && common == []
    case ShortWindow => common != [] && |common| < Want(ctx)
    case HashDiffers => exists r :: r in common && !Agrees(r)
    case VoteDiffers => exists r :: r in common && !VotesMatch(r.perNode)
    case QuorumDiffers => exists r :: r in common && !QuorumsMatch(r.perNode)
    case HoleBelowNewest => exists r :: r in common && r.height != common[0].height && !AllQuorum(r.perNode)
    case NoQuorumAtAll => common != [] && forall r | r in common :: !AllQuorum(r.perNode)
    case TooFewVotes(v) =>
      v in ctx.known && v !in ctx.excluded && exists r :: r in common && AllQuorum(r.perNode) && !Voted(r, v)
    case UnknownVoter => exists r, v :: r in common && Voted(r, v) && v !in ctx.known
  }

  // ------------------------------------------------------------------ one row

  /** A row as it is tabulated. */
  datatype Entry = Entry(height: nat, agree: bool, hasQuorum: bool)

  /** An attestation that differs from what node `node` computed itself. */
  datatype VoteFault = VoteFault(voter: Address, height: nat, node: nat)

  /** A quorum hash that differs from what node `node` computed itself. */
  datatype QuorumFault = QuorumFault(height: nat, node: nat)

  datatype View = View(entry: Entry, voters: set<Address>, voteDiff: set<VoteFault>, quorumDiff: set<QuorumFault>)

  predicate VoteFaultIn(row: Row, f: VoteFault) {
    && f.height == row.height && f.node < |row.perNode| && row.perNode[f.node].Read?
    && var p := row.perNode[f.node];
    f.voter in p.votes && (p.votes[f.voter].hash != p.local || !p.votes[f.voter].matches)
  }

  predicate QuorumFaultIn(row: Row, f: QuorumFault) {
    && f.height == row.height && f.node < |row.perNode| && row.perNode[f.node].Read?
    && var p := row.perNode[f.node];
    p.quorum.Some? && p.quorum.value != p.local
  }

  /** A set has one member exactly when it has some and they are all equal. */
  lemma OneMember<T>(s: set<T>)
    ensures |s| == 1 <==> s != {} && forall x, y | x in s && y in s :: x == y
  {
    if s != {} {
      var x :| x in s;
      assert |s| == 1 + |s - {x}|;
      if |s| == 1 {
        assert s - {x} == {};
      } else {
        var y :| y in s - {x};
      }
    }
  }

  ghost predicate ViewOf(row: Row, view: View) {
    && view.entry == Entry(row.height, Agrees(row), AllQuorum(row.perNode))
    && (forall v :: v in view.voters <==> Voted(row, v))
    && (forall f :: f in view.voteDiff <==> VoteFaultIn(row, f))
    && (forall f :: f in view.quorumDiff <==> QuorumFaultIn(row, f))
  }

  /** The attestations node `i` saw that differ from its own hash. */
  function VoteFaultsAt(row: Row, i: nat): (r: set<VoteFault>)
    requires i < |row.perNode| && row.perNode[i].Read?
    ensures forall f :: f in r <==> f.node == i && VoteFaultIn(row, f)
  {
    var p := row.perNode[i];
    set v | v in p.votes && (p.votes[v].hash != p.local || !p.votes[v].matches) :: VoteFault(v, row.height, i)
  }

  method RowView(row: Row) returns (view: View)
    requires !AnyFailed(row.perNode)
    ensures ViewOf(row, view)
  {
    hide VoteFaultIn, QuorumFaultIn, VoteFaultsAt;
    var per := row.perNode;
    var locals: set<Hash>, quorums: set<Option<Hash>>, voters: set<Address> := {}, {}, {};
    var voteDiff: set<VoteFault>, quorumDiff: set<QuorumFault> := {}, {};
    for i := 0 to |per|
      invariant forall h :: h in locals <==> exists k :: 0 <= k < i && per[k].local == h
      invariant forall q :: q in quorums <==> exists k :: 0 <= k < i && per[k].quorum == q
      invariant forall v :: v in voters <==> exists k :: 0 <= k < i && v in per[k].votes
      invariant forall f :: f in voteDiff <==> f.node < i && VoteFaultIn(row, f)
      invariant forall f :: f in quorumDiff <==> f.node < i && QuorumFaultIn(row, f)
    {
      var p := per[i];
      QuorumFaultAt(row, i);
      locals, quorums, voters := locals + {p.local}, quorums + {p.quorum}, voters + p.votes.Keys;
      voteDiff := voteDiff + VoteFaultsAt(row, i);
      if p.quorum.Some? && p.quorum.value != p.local {
        quorumDiff := quorumDiff + {QuorumFault(row.height, i)};
      }
    }
    FaultsAreIn(row);
    LocalsDecide(row, locals);
    QuorumsDecide(row, quorums);
    view := View(Entry(row.height, |locals| == 1, None !in quorums), voters, voteDiff, quorumDiff);
  }

  lemma QuorumFaultAt(row: Row, i: nat)
    requires i < |row.perNode| && row.perNode[i].Read?
    ensures var p := row.perNode[i];
      forall f: QuorumFault | f.node == i ::
        (QuorumFaultIn(row, f) <==> f.height == row.height && p.quorum.Some? && p.quorum.value != p.local)
  {
  }

  lemma FaultsAreIn(row: Row)
    ensures forall f | VoteFaultIn(row, f) :: f.node < |row.perNode|
    ensures forall f | QuorumFaultIn(row, f) :: f.node < |row.perNode|
  {
  }

  /** Whether the nodes agree, told from the set of their hashes. */
  lemma LocalsDecide(row: Row, locals: set<Hash>)
    requires !AnyFailed(row.perNode)
    requires forall h :: h in locals <==> exists k :: 0 <= k < |row.perNode| && row.perNode[k].local == h
    ensures Agrees(row) <==> |locals| == 1
  {
    var per := row.perNode;
    OneMember(locals);
    forall k | 0 <= k < |per| ensures per[k].local in locals { }
    if per != [] && SameHash(per) {
      forall h | h in locals ensures h == per[0].local {
        var k :| 0 <= k < |per| && per[k].local == h;
      }
      assert per[0].local in locals;
    } else if per == [] {
      assert forall h :: h !in locals;
    }
  }

  /** Whether every node has a quorum, told from the set of their quorum hashes. */
  lemma QuorumsDecide(row: Row, quorums: set<Option<Hash>>)
    requires !AnyFailed(row.perNode)
    requires forall q :: q in quorums <==> exists k :: 0 <= k < |row.perNode| && row.perNode[k].quorum == q
    ensures AllQuorum(row.perNode) <==> None !in quorums
  {
  }

  // ------------------------------------------------------------------ the loop over the rows

  datatype Tally = Tally(table: seq<Entry>, voteDiff: set<VoteFault>, quorumDiff: set<QuorumFault>,
      unknown: set<Address>, votes: map<Address, nat>)

  function QuorumRows(rows: seq<Row>, n: nat): nat
    requires n <= |rows|
  {
    if n == 0 then 0 else QuorumRows(rows, n - 1) + if AllQuorum(rows[n - 1].perNode) then 1 else 0
  }

  function VotedRows(rows: seq<Row>, v: Address, n: nat): nat
    requires n <= |rows|
  {
    if n == 0 then 0
    else VotedRows(rows, v, n - 1) + if AllQuorum(rows[n - 1].perNode) && Voted(rows[n - 1], v) then 1 else 0
  }

  ghost predicate TallyOf(common: seq<Row>, known: set<Address>, n: nat, t: Tally)
    requires n <= |common|
  {
    && |t.table| == n
    && (forall k | 0 <= k < n :: t.table[k] == Entry(common[k].height, Agrees(common[k]), AllQuorum(common[k].perNode)))
    && (forall f :: f in t.voteDiff <==> exists k :: 0 <= k < n && VoteFaultIn(common[k], f))
    && (forall f :: f in t.quorumDiff <==> exists k :: 0 <= k < n && QuorumFaultIn(common[k], f))
    && (forall v :: v in t.unknown <==> v !in known && exists k :: 0 <= k < n && Voted(common[k], v))
    && t.votes.Keys == known && forall v | v in known :: t.votes[v] == VotedRows(common, v, n)
  }

  /** One row added to the tally. */
  function Add(t: Tally, known: set<Address>, view: View): Tally
    requires known == t.votes.Keys
  {
    var votes := map v | v in known :: t.votes[v] + if view.entry.hasQuorum && v in view.voters then 1 else 0;
    Tally(t.table + [view.entry], t.voteDiff + view.voteDiff, t.quorumDiff + view.quorumDiff,
          t.unknown + (view.voters - known), votes)
  }

  lemma AddKeeps(common: seq<Row>, known: set<Address>, n: nat, t: Tally, view: View)
    requires n < |common| && TallyOf(common, known, n, t) && ViewOf(common[n], view)
    ensures TallyOf(common, known, n + 1, Add(t, known, view))
  {
    hide Agrees, AllQuorum, Voted, VoteFaultIn, QuorumFaultIn;
  }

  method Tabulate(common: seq<Row>, known: set<Address>) returns (t: Tally)
    requires forall r | r in common :: !AnyFailed(r.perNode)
    ensures TallyOf(common, known, |common|, t)
  {
    t := Tally([], {}, {}, {}, map v | v in known :: 0);
    for k := 0 to |common|
      invariant TallyOf(common, known, k, t)
    {
      assert common[k] in common;
      var view := RowView(common[k]);
      AddKeeps(common, known, k, t, view);
      t := Add(t, known, view);
    }
  }

  // ------------------------------------------------------------------ the problems

  /** The heights tabulated without agreement. */
  function DifferAt(table: seq<Entry>): (hs: seq<nat>)
    ensures forall h :: h in hs <==> exists k :: 0 <= k < |table| && !table[k].agree && table[k].height == h
  {
    if table == [] then []
    else
      var last := table[|table| - 1];
      DifferAt(table[..|table| - 1]) + if last.agree then [] else [last.height]
  }

  /** The heights tabulated without a quorum on every node. */
  function NoQuorumAt(table: seq<Entry>): (hs: seq<nat>)
    ensures |hs| <= |table|
    ensures forall h :: h in hs <==> exists k :: 0 <= k < |table| && !table[k].hasQuorum && table[k].height == h
  {
    if table == [] then []
    else
      var last := table[|table| - 1];
      NoQuorumAt(table[..|table| - 1]) + if last.hasQuorum then [] else [last.height]
  }

  /** The table less the heights without a quorum counts the rows with one. */
  lemma {:induction false} ReachedCounts(common: seq<Row>, table: seq<Entry>, n: nat)
    requires n <= |common| && |table| == n
    requires forall k | 0 <= k < n :: table[k].hasQuorum == AllQuorum(common[k].perNode)
    ensures n - |NoQuorumAt(table)| == QuorumRows(common, n)
  {
    if n > 0 { ReachedCounts(common, table[..n - 1], n - 1); }
  }

  /** A validator that voted on fewer rows than reached a quorum missed one of them. */
  lemma {:induction false} FewerVotes(rows: seq<Row>, v: Address, n: nat)
    requires n <= |rows|
    ensures VotedRows(rows, v, n) <= QuorumRows(rows, n)
    ensures VotedRows(rows, v, n) < QuorumRows(rows, n) <==>
      exists k :: 0 <= k < n && AllQuorum(rows[k].perNode) && !Voted(rows[k], v)
  {
    if n > 0 { FewerVotes(rows, v, n - 1); }
  }

  lemma {:induction false} NoQuorumRows(rows: seq<Row>, n: nat)
    requires n <= |rows|
    ensures QuorumRows(rows, n) == 0 <==> forall k | 0 <= k < n :: !AllQuorum(rows[k].perNode)
  {
    if n > 0 { NoQuorumRows(rows, n - 1); }
  }

  /** A row's attestations match exactly when it holds no fault of either kind. */
  lemma RowFaults(row: Row)
    requires !AnyFailed(row.perNode)
    ensures VotesMatch(row.perNode) <==> forall f :: !VoteFaultIn(row, f)
    ensures QuorumsMatch(row.perNode) <==> forall f :: !QuorumFaultIn(row, f)
  {
    var per := row.perNode;
    if !VotesMatch(per) {
      var i, v :| 0 <= i < |per| && v in per[i].votes && per[i].votes[v] != Attestation(per[i].local, true);
      assert VoteFaultIn(row, VoteFault(v, row.height, i));
    }
    if !QuorumsMatch(per) {
      var i :| 0 <= i < |per| && per[i].quorum.Some? && per[i].quorum.value != per[i].local;
      assert QuorumFaultIn(row, QuorumFault(row.height, i));
    }
  }

  lemma VoteFaultsDecide(common: seq<Row>, diff: set<VoteFault>)
    requires forall r | r in common :: !AnyFailed(r.perNode)
    requires forall f :: f in diff <==> exists k :: 0 <= k < |common| && VoteFaultIn(common[k], f)
    ensures diff != {} <==> exists r :: r in common && !VotesMatch(r.perNode)
  {
    hide VotesMatch, VoteFaultIn, AnyFailed;
    if f :| f in diff {
      var k :| 0 <= k < |common| && VoteFaultIn(common[k], f);
      assert common[k] in common;
      RowFaults(common[k]);
    }
    if r :| r in common && !VotesMatch(r.perNode) {
      RowFaults(r);
      var f :| VoteFaultIn(r, f);
      var k :| 0 <= k < |common| && common[k] == r;
      assert f in diff;
    }
  }

  lemma QuorumFaultsDecide(common: seq<Row>, diff: set<QuorumFault>)
    requires forall r | r in common :: !AnyFailed(r.perNode)
    requires forall f :: f in diff <==> exists k :: 0 <= k < |common| && QuorumFaultIn(common[k], f)
    ensures diff != {} <==> exists r :: r in common && !QuorumsMatch(r.perNode)
  {
    hide QuorumsMatch, QuorumFaultIn, AnyFailed;
    if f :| f in diff {
      var k :| 0 <= k < |common| && QuorumFaultIn(common[k], f);
      assert common[k] in common;
      RowFaults(common[k]);
    }
    if r :| r in common && !QuorumsMatch(r.perNode) {
      RowFaults(r);
      var f :| QuorumFaultIn(r, f);
      var k :| 0 <= k < |common| && common[k] == r;
      assert f in diff;
    }
  }

  lemma UnknownDecide(common: seq<Row>, known: set<Address>, unknown: set<Address>)
    requires forall v :: v in unknown <==> v !in known && exists k :: 0 <= k < |common| && Voted(common[k], v)
    ensures unknown != {} <==> exists r, v :: r in common && Voted(r, v) && v !in known
  {
    hide Voted;
    if v :| v in unknown {
      var k :| 0 <= k < |common| && Voted(common[k], v);
      assert common[k] in common;
    }
    if r, v :| r in common && Voted(r, v) && v !in known {
      var k :| 0 <= k < |common| && common[k] == r;
    }
  }

  /** What the gathered faults decide. */
  lemma FaultsDecide(rows: seq<Row>, ctx: Context, t: Tally)
    requires TallyOf(Common(rows), ctx.known, |Common(rows)|, t)
    ensures t.voteDiff != {} <==> Due(rows, ctx, VoteDiffers)
    ensures t.quorumDiff != {} <==> Due(rows, ctx, QuorumDiffers)
    ensures t.unknown != {} <==> Due(rows, ctx, UnknownVoter)
  {
    hide Common, VotesMatch, QuorumsMatch, VoteFaultIn, QuorumFaultIn, Voted, Agrees, AllQuorum, AnyFailed, VotedRows, Want;
    VoteFaultsDecide(Common(rows), t.voteDiff);
    QuorumFaultsDecide(Common(rows), t.quorumDiff);
    UnknownDecide(Common(rows), ctx.known, t.unknown);
  }

  /** What the table decides. */
  lemma TableDecides(rows: seq<Row>, ctx: Context, t: Tally)
    requires TallyOf(Common(rows), ctx.known, |Common(rows)|, t)
    ensures DifferAt(t.table) != [] <==> Due(rows, ctx, HashDiffers)
    ensures (exists h :: h in NoQuorumAt(t.table) && h != t.table[0].height) <==> Due(rows, ctx, HoleBelowNewest)
  {
    hide Common, Agrees, AllQuorum, AnyFailed, Voted, VoteFaultIn, QuorumFaultIn, VotedRows, Want, DifferAt, NoQuorumAt;
    var common, d := Common(rows), DifferAt(t.table);
    assert d != [] <==> exists h :: h in d by { if d != [] { assert d[0] in d; } }
    if Due(rows, ctx, HashDiffers) {
      var r :| r in common && !Agrees(r);
      var k :| 0 <= k < |common| && common[k] == r;
      assert t.table[k].height in d;
    }
    if Due(rows, ctx, HoleBelowNewest) {
      var r :| r in common && r.height != common[0].height && !AllQuorum(r.perNode);
      var k :| 0 <= k < |common| && common[k] == r;
      assert t.table[k].height in NoQuorumAt(t.table);
    }
  }

  /** What the counts decide. */
  lemma CountsDecide(rows: seq<Row>, ctx: Context, t: Tally, reached: nat)
    requires TallyOf(Common(rows), ctx.known, |Common(rows)|, t) && reached == |t.table| - |NoQuorumAt(t.table)|
    ensures forall v :: v in ctx.known && v !in ctx.excluded && t.votes[v] < reached <==> Due(rows, ctx, TooFewVotes(v))
    ensures t.table != [] && reached == 0 <==> Due(rows, ctx, NoQuorumAtAll)
  {
    hide Common, Agrees, AllQuorum, AnyFailed, Voted, VoteFaultIn, QuorumFaultIn, VotedRows, QuorumRows, Want, NoQuorumAt;
    var common := Common(rows);
    ReachedCounts(common, t.table, |common|);
    forall v | v in ctx.known && v !in ctx.excluded ensures t.votes[v] < reached <==> Due(rows, ctx, TooFewVotes(v)) {
      FewerVotes(common, v, |common|);
      if Due(rows, ctx, TooFewVotes(v)) {
        var r :| r in common && AllQuorum(r.perNode) && !Voted(r, v);
        var k :| 0 <= k < |common| && common[k] == r;
      }
    }
    NoQuorumRows(common, |common|);
  }

  /** How each problem is told from the tally. */
  predicate Found(t: Tally, ctx: Context, p: Problem) {
    var noQuorum := NoQuorumAt(t.table);
    var reached := |t.table| - |noQuorum|;
    match p
    case NoCommonRow => ctx.newestCommon.Some? && t.table == []
    case ShortWindow => t.table != [] && |t.table| < Want(ctx)
    case HashDiffers => DifferAt(t.table) != []
    case VoteDiffers => t.voteDiff != {}
    case QuorumDiffers => t.quorumDiff != {}
    case HoleBelowNewest => exists h :: h in noQuorum && h != t.table[0].height
    case NoQuorumAtAll => t.table != [] && reached == 0
    case TooFewVotes(v) => v in t.votes && t.votes[v] < reached && v !in ctx.excluded
    case UnknownVoter => t.unknown != {}
  }

  lemma FoundIsDue(rows: seq<Row>, ctx: Context, t: Tally, p: Problem)
    requires TallyOf(Common(rows), ctx.known, |Common(rows)|, t)
    ensures Found(t, ctx, p) <==> Due(rows, ctx, p)
  {
    hide Common, Want, DifferAt, NoQuorumAt, Voted, AllQuorum, Agrees, VotesMatch, QuorumsMatch, VoteFaultIn, QuorumFaultIn;
    FaultsDecide(rows, ctx, t);
    TableDecides(rows, ctx, t);
    CountsDecide(rows, ctx, t, |t.table| - |NoQuorumAt(t.table)|);
    if p.NoCommonRow? || p.ShortWindow? {
    } else {
      hide Due;
    }
  }

  /** A mismatch is due exactly when some compared row is not clean. */
  lemma MismatchesAreReported(rows: seq<Row>, ctx: Context)
    ensures Due(rows, ctx, HashDiffers) || Due(rows, ctx, VoteDiffers) || Due(rows, ctx, QuorumDiffers) <==>
      exists r :: r in rows && !AnyFailed(r.perNode) && !Clean(r.perNode)
  {
    if r :| r in rows && !AnyFailed(r.perNode) && !Clean(r.perNode) { assert r in Common(rows); }
  }

  /** The problems with `p` added if it is found. */
  function Noting(problems: set<Problem>, found: bool, p: Problem): (r: set<Problem>)
    ensures forall q :: q in r <==> q in problems || (found && q == p)
  {
    if found then problems + {p} else problems
  }

  /** Report what the tally shows. */
  method Report(t: Tally, ctx: Context) returns (problems: set<Problem>)
    ensures forall p :: p in problems <==> Found(t, ctx, p)
  {
    hide Want, DifferAt, NoQuorumAt, Noting;
    var noQuorum := NoQuorumAt(t.table);
    var hard := set h | h in noQuorum && h != t.table[0].height;
    var reached := |t.table| - |noQuorum|;
    assert hard != {} <==> Found(t, ctx, HoleBelowNewest) by {
      if h :| h in noQuorum && h != t.table[0].height { assert h in hard; }
    }
    problems := set v | v in t.votes && t.votes[v] < reached && v !in ctx.excluded :: TooFewVotes(v);
    assert forall p :: p in problems <==> p.TooFewVotes? && Found(t, ctx, p);
    problems := Noting(problems, ctx.newestCommon.Some? && t.table == [], NoCommonRow);
    problems := Noting(problems, t.table != [] && |t.table| < Want(ctx), ShortWindow);
    problems := Noting(problems, DifferAt(t.table) != [], HashDiffers);
    problems := Noting(problems, t.voteDiff != {}, VoteDiffers);
    problems := Noting(problems, t.quorumDiff != {}, QuorumDiffers);
    problems := Noting(problems, hard != {}, HoleBelowNewest);
    problems := Noting(problems, t.table != [] && reached == 0, NoQuorumAtAll);
    problems := Noting(problems, t.unknown != {}, UnknownVoter);
  }

  /** The judge reports exactly the problems that are due, and no mismatch exactly when every compared row is clean. */
  method JudgeRows(rows: seq<Row>, ctx: Context) returns (problems: set<Problem>)
    ensures forall p :: p in problems <==> Due(rows, ctx, p)
    ensures problems !! {HashDiffers, VoteDiffers, QuorumDiffers} <==>
      forall r | r in rows && !AnyFailed(r.perNode) :: Clean(r.perNode)
  {
    hide Due, TallyOf, Clean, AnyFailed, Found;
    var t := Tabulate(Common(rows), ctx.known);
    problems := Report(t, ctx);
    forall p ensures p in problems <==> Due(rows, ctx, p) { FoundIsDue(rows, ctx, t, p); }
    MismatchesAreReported(rows, ctx);
  }

  /**
   Evidence reaches the verdict: whatever the nodes answer, a hole that showed a mismatch in the
   walk, or in any retry before it closed, makes the judge report one.
   */
  lemma EvidenceIsReported(rows: seq<Row>, t: nat, retries: Retries, n: nat, out: seq<Row>, ctx: Context, j: nat, k: nat)
    requires Answering(rows, retries) && HealedRows(rows, t, retries, n, out)
    requires j < |rows| && Hole(rows[j], t)
    requires var row := rows[j];
      || !Clean(row.perNode)
      || (k < n && Heal(row.perNode, row.height, retries, k).Open?
          && !Clean(Merged(retries(row.height, k).per, row.perNode)))
    ensures Due(out, ctx, HashDiffers) || Due(out, ctx, VoteDiffers) || Due(out, ctx, QuorumDiffers)
  {
    hide Due;
    var row := rows[j];
    HealingKeepsEvidence(row.perNode, row.height, retries, n);
    if !Clean(row.perNode) {
      ClosedStays(row.perNode, row.height, retries, 0, n);
    } else {
      MismatchIsFinal(row.perNode, row.height, retries, n, k);
    }
    assert out[j] in out && !Clean(out[j].perNode);
    MismatchesAreReported(out, ctx);
  }

  // ------------------------------------------------------------------ healthy nodes

  lemma {:induction false} CommonAtLeast(rows: seq<Row>, m: nat)
    requires m <= |rows| && forall j | 0 <= j < m :: !AnyFailed(rows[j].perNode)
    ensures |Common(rows)| >= m
  {
    hide AnyFailed;
    if m < |rows| {
      CommonAtLeast(rows[..|rows| - 1], m);
    } else if m > 0 {
      CommonAtLeast(rows[..m - 1], m - 1);
    }
  }

  /**
   Healthy nodes are never failed for a short window, whatever the chain did meanwhile and whatever
   the retries answered; and while it advanced by fewer than 64 checkpoints some row is compared.
   */
  lemma HealthyIsNeverShort(t: nat, activation: nat, after: seq<nat>, newest: (nat, nat) -> nat, walk: Walk,
      rows: seq<Row>, retries: Retries, n: nat, out: seq<Row>, ctx: Context)
    requires after != [] && Healthy(t, activation, after, newest, walk)
    requires WalkRows(t, walk, rows) && WalkEnded(t, walk, rows)
    requires Answering(rows, retries) && HealedRows(rows, t, retries, n, out)
    requires ctx.newestCommon == Some(t) && ctx.activation == Some(activation) && ctx.advanced == AdvanceOf(t, after)
    ensures !Due(out, ctx, ShortWindow)
    ensures activation < t && INTERVAL <= t && AdvanceOf(t, after) < RETAIN ==> !Due(out, ctx, NoCommonRow)
  {
    hide Healthy, WalkRows, WalkEnded, AdvanceOf, HealedRow, Serves;
    if activation < t && INTERVAL <= t && ctx.advanced < RETAIN {
      HealthyWindow(t, activation, after, newest, walk, rows);
      forall j | 0 <= j < Want(ctx) ensures !AnyFailed(out[j].perNode) {
        HealedKeepsAnswers(rows[j], t, retries, n);
      }
      CommonAtLeast(out, Want(ctx));
    }
  }

  lemma HealedKeepsAnswers(row: Row, t: nat, retries: Retries, n: nat)
    requires !AnyFailed(row.perNode) && forall k: nat :: |retries(row.height, k).per| == |row.perNode|
    ensures !AnyFailed(HealedRow(row, t, retries, n).perNode)
  {
    HealingKeepsEvidence(row.perNode, row.height, retries, n);
  }
}
