# Verified models of Torus-hyperBFT

A Dafny 4.11 model of the parts of Torus-hyperBFT whose correctness spans whole runs, and proofs
about them. `dafny verify dfyconfig.toml` checks everything.

**Agreement of the pipelined HotStuff** (`Voting`, `VotingRuns`, `VoteRule`, `Agreement`,
`LeaderSelection`, `ProposalRules`, `LeaderRules`, `RuleRuns`, `AgreementLimits`, `FailedUpdate`).
Replicas receive proposals, headers, bodies and certificates in any order; validators holding less
than a third of the power vote as they like. The model follows the vote rule (lock clause, reflexive
arm, certificate above the lock), lock-before-vote on the full and the header path, the 2-chain
commit rule and the gap-safe commit walk. When an honest replica votes is told exactly, on views,
blocks and its tree. Any two blocks that honest replicas commit, at any two moments of any run, lie
on one branch. Two run conditions are needed: no block is certified in view 0, the genesis
certificate's own view, and no vote is cast on a full proposal whose block-tree update failed (the
error is swallowed, the lock is not taken, and the vote still goes out). Each is tied to the branch
it guards and shown necessary by a run that also keeps every rule a proposal passes: the weighted
leader rotation, the leader's choice of certificate, timeout certificates with their winning tip or
certificate, and the voters' checks of them. The item documentation of `pc_to_lock` says that a
Generic certificate locks its block's own justify, and that of `block_to_commit` names a block one
generation deeper; the code locks the certificate itself and commits the parent of the block it
certifies. The model follows the code.

**The committed-block feed** (`BlockTree`, `SiblingDeletion`, `CommitState`, `CommittedFeed`,
`FeedRuns`, `FeedPasses`, `FeedLatch`, `FeedGap`, `FeedLoss`, `FeedLoop`). The durable tree and fed
frontier, the app's durable heights, the volatile latch and the loop position are one machine with
steps for every read, callback and write of the feed, and for commits, prunes, holes, repairs,
latches, crashes and boots. The loops on the mutable tree and app are proved equal to the passes of
that machine, and a pass is told exactly whenever the latch fires: what it calls, what it counts,
where the frontier ends. The documentation promises that no height is ever skipped. That holds of
every run with nothing lost; in general a pass keeps the app's heights contiguous exactly when the
first height it can read is one the app can take, and a run with the pruner at its smallest
retention shows a pass that skips. An app that loses durable records while it is down makes the next
boot lower the frontier, and gets every height again. A commit deletes the branches of its blocks'
siblings, and with them no committed block, and the application state it leaves is the committed
chain's updates in order, each once.

**Checkpoints** (`Checkpoints`, `CheckpointWait`). The submit/flush pipeline with its two counters
and restarts; a window closes after a block or, at a barrier, between blocks. `ckpt_wait.py`
describes the submit counter as going up at the hand-over; the node raises it after, so counted
writes can lead counted submits by one. The conclusion drawn from the counters is still right in
every run without a restart during the wait. The crash gate accepts every kill of a correct fence if
and only if at most three blocks are committed and not yet dispatched.

**Drain, liveness and attestation verdicts** (`Drain`, `AttestTraffic`, `StateAttest`,
`StateVerdict`, `Liveness`, `Dissemination`). Each loop over samples, bodies, rows or log lines is
proved equal to a property of the whole trace, for every trace and every pattern of unanswered
reads; the drain and liveness verdicts are also told on the samples' own numbers.

**Smaller cores.** `BalanceCache`, `BalanceUndo` and `BalanceCalls`: the write-back cache refines
write-through under failing flushes, in its set form and over whole runs of its flag-and-vector
form. The undo log undoes exactly when no entry was marked as logged when its region began;
committing a region leaves such marks, but the executor makes a cache per call and opens one region
on it, and then the region is always undone and its replay sees, read for read, what the region saw,
faults included. `Rlp`: the encoder of Appendix B of the Ethereum Yellow Paper is uniquely decodable
below payloads of 2^64 bytes and not above. `Quantile`: the two histogram quantiles agree exactly up
to q = 1, and where the value lies. `KillSplit`: splitting a counter series at a kill loses nothing,
and exactly when. `BootView`: no view is entered twice over any number of restarts.

Clocks, network answers, disk errors and the order of events are parameters: labels of a run, oracle
functions or options. Hashes and signatures are ideal: a block is its contents, a certificate is its
set of voters.

## Model

| member | source | states |
|---|---|---|
| Voting.QuorumsMeet | crates/hotstuff_rs/src/types/validator_set.rs:244-257 | any two vote sets reaching two thirds of the power plus one share a validator outside every set with less than a third |
| Agreement.LocksKeepInv | crates/hotstuff_rs/src/block_tree/accessors/internal.rs:560-600 | advancing the locks keeps lock and highest certificate certified and never moves the lock back in view |
| Agreement.UpdateKeepsInv | crates/hotstuff_rs/src/block_tree/accessors/internal.rs:385-420 | an update keeps every replica invariant; unless it fails, the lock is at least as high as the certificate, and a commit leaves two certificates in consecutive views behind it |
| Agreement.ExecOneVotePerView | crates/hotstuff_rs/src/hotstuff/implementation.rs:1741-1778 | in every run an honest validator votes at most once per view and never above what it recorded |
| Agreement.VotesFrozen | crates/hotstuff_rs/src/block_tree/accessors/internal.rs:759-781 | at any moment, every vote an honest validator will ever cast at or below its recorded view is already cast |
| Agreement.NewVoteIsSafe | crates/hotstuff_rs/src/hotstuff/implementation.rs:3441-3470 | every honest vote, on the full or the header path, satisfies the lock rule in the state it is cast in, with every certificate involved correct |
| Agreement.SafeVoteExtends | crates/hotstuff_rs/src/block_tree/invariants.rs:454-488 | a replica locked at or above a view whose certificates all descend from a block votes only for descendants of it, through each of the four arms |
| VoteRule.LockRuleIff | crates/hotstuff_rs/src/block_tree/invariants.rs:454-488 | the lock rule admits a block exactly when it is the locked block, a certificate on it or its justify is newer than the lock, or its parent is the locked block, a child or a grandchild of it |
| VoteRule.ProposalVoteIff | crates/hotstuff_rs/src/hotstuff/implementation.rs:1630-1755 | a proposal adds exactly the replica's vote if certificates are correct, the parent is at hand, the view is fresh and one of those reasons holds, and no vote otherwise |
| VoteRule.CommittedProposalOnlyVotes | crates/hotstuff_rs/src/block_tree/invariants.rs:493-501 | a proposal of a block at or below the committed height can add a vote and changes nothing else |
| VoteRule.HeaderWaitIff | crates/hotstuff_rs/src/hotstuff/implementation.rs:2725-2926 | a header is kept for a vote exactly when its certificates are correct and one of the reasons holds |
| VoteRule.HeaderVoteIff | crates/hotstuff_rs/src/hotstuff/implementation.rs:3441-3475 | the vote on an awaited header is cast exactly when the view is fresh and one of the reasons holds of the lock as it then is |
| Agreement.CommittedBlockIsLocked | crates/hotstuff_rs/src/block_tree/invariants.rs:493-501 | a block taken for committed by its height alone is never justified above the lock, so skipping its update loses no lock |
| Agreement.CertExtends | crates/hotstuff_rs/src/block_tree/invariants.rs:734-790 | with two certificates in consecutive views, every certificate from the first view on is on the first one's branch |
| Agreement.RunInv | crates/hotstuff_rs/src/hotstuff/implementation.rs:1535-1800 | at every point of a run the invariant holds and all certificates are on the branch of every commit pair the whole run will form |
| Agreement.Agreement | crates/hotstuff_rs/src/block_tree/invariants.rs:616-790 | any two blocks committed by honest replicas at any two moments of a run are on one branch |
| Agreement.OneBlockPerHeight | crates/hotstuff_rs/src/block_tree/invariants.rs:713-790 | no two honest replicas hold different committed blocks at one height, ancestors included |
| Agreement.CommitRuleExtendsFrontier | crates/hotstuff_rs/src/block_tree/accessors/internal.rs:830-872 | in every reachable state a block the commit rule picks descends from the frontier, so only a missing block can stop the commit walk |
| LeaderSelection.SlotsLength | crates/hotstuff_rs/src/pacemaker/implementation.rs:1191-1216 | the round-robin array has one slot per unit of power |
| LeaderSelection.LeadsByPower | crates/hotstuff_rs/src/pacemaker/implementation.rs:1534-1572 | in one round of the array every validator leads exactly as often as it has power |
| LeaderSelection.SelectLeader | crates/hotstuff_rs/src/pacemaker/implementation.rs:1217-1281 | the closed form finds the slot the walk over the array reaches, for all powers and views |
| ProposalRules.RulesRefine | crates/hotstuff_rs/src/hotstuff/implementation.rs:1535-1800 | a run under leader rotation, leader rules, timeout certificates and the voters' certificate checks is a run of the unrestricted voters |
| ProposalRules.RulesKeepAgreement | crates/hotstuff_rs/src/hotstuff/types.rs:605-692 | agreement for those runs, under the same two conditions |
| ProposalRules.HeadersUpdateBeforeVotes | crates/hotstuff_rs/src/hotstuff/implementation.rs:2876-2897 | a run without a proposal sent whole meets the update condition: headers lock before the vote |
| LeaderRules.HonestProposalsAreAccepted | crates/hotstuff_rs/src/hotstuff/types.rs:623-659 | in every run every proposal an honest leader has sent passes the voters' certificate checks then and later, so a header is turned away only by a replica in another view or without the parent |
| ProposalRules.OneTipPerView | crates/hotstuff_rs/src/pacemaker/types.rs:81-90 | in every run a view has at most one tip unless its leader is faulty |
| ProposalRules.VouchedTipWasVoted | crates/hotstuff_rs/src/pacemaker/types.rs:242-286 | in every run a high tip reported by more than the faulty power is a block some honest validator voted for |
| AgreementLimits.ConditionsAdmitCommits | crates/hotstuff_rs/src/block_tree/invariants.rs:734-790 | a run under all proposal rules that meets both run conditions of agreement and commits |
| AgreementLimits.ViewZeroNeverLocks | crates/hotstuff_rs/src/block_tree/invariants.rs:680-688 | a certificate of view 0 is never locked |
| AgreementLimits.ViewZeroBreaksAgreement | crates/hotstuff_rs/src/block_tree/invariants.rs:616-690 | a run under all proposal rules in which two faulty validators of a seventh of the power each lead views 0 and 1, every vote follows a successful update, a block is certified in view 0 and two honest replicas commit on different branches |
| FailedUpdate.VoteLocksUnlessUpdateFails | crates/hotstuff_rs/src/hotstuff/implementation.rs:1822-1858 | a vote on a full proposal leaves the voter locked at its justify's view if and only if the update did not fail or the lock was there already |
| FailedUpdate.VotesUnlocked | crates/hotstuff_rs/src/block_tree/accessors/internal.rs:840-846 | a run under all proposal rules that reaches such a failed update over a tree assembled out of order, and votes |
| FailedUpdate.BreaksAgreement | crates/hotstuff_rs/src/hotstuff/implementation.rs:1849-1857 | that run continued to two commits on different branches, with a quarter of the power faulty and no vote in view 0 |
| BlockTree.CommitKeepsOneChain | crates/hotstuff_rs/src/block_tree/accessors/internal.rs:796-946 | a commit to any target keeps the store invariant and the single committed chain, and drops no index entry |
| BlockTree.CommitAcceptsIffPath | crates/hotstuff_rs/src/block_tree/accessors/internal.rs:801-872 | a commit is accepted exactly when a path of present blocks leads from the target down to a child of the frontier |
| BlockTree.CommitReports | crates/hotstuff_rs/src/block_tree/accessors/internal.rs:801-872 | a commit errs exactly when nothing is committed and the ancestry reaches a missing block, and is put off exactly when the walked blocks sit above a hole below the frontier or on another branch |
| SiblingDeletion.AncestorsKeep | crates/hotstuff_rs/src/block_tree/accessors/internal.rs:961-1011 | a block is in no deleted branch if every block being committed at or below its height is its ancestor |
| SiblingDeletion.SiblingsGo | crates/hotstuff_rs/src/block_tree/accessors/internal.rs:961-977 | every sibling of a committed block is deleted |
| SiblingDeletion.DeletionKeepsOneChain | crates/hotstuff_rs/src/block_tree/accessors/internal.rs:884-1011 | deleting the branches of all siblings of the committed blocks changes no readable height, index entry or frontier, so the store invariant and the single chain stay |
| CommitState.StateIsReplay | crates/hotstuff_rs/src/block_tree/accessors/internal.rs:884-943 | over all insertions and commits, however batched, the application state is the committed blocks' updates applied in height order, each once, and exactly the uncommitted blocks' updates are pending |
| CommitState.SameChainSameState | crates/hotstuff_rs/src/block_tree/accessors/internal.rs:884-943 | runs that committed the same blocks hold the same application state |
| BlockTree.PruneKeepsOneChain | crates/hotstuff_rs/src/block_tree/accessors/internal.rs:2079-2118 | a prune keeps the store invariant and the single chain above the new prune height |
| BlockTree.PruneIsOneBatch | crates/hotstuff_rs/src/block_tree/accessors/internal.rs:2079-2118 | the new prune height, the heights that stay readable with their blocks, and when nothing changes |
| BlockTree.PrunesDrain | crates/hotstuff_rs/src/block_tree/accessors/internal.rs:2066-2119 | n prunes move the prune height up by 64 each until it reaches the retention window, and exactly the heights below it are gone |
| BlockTree.PruneRangeReadable | crates/hotstuff_rs/src/block_tree/accessors/internal.rs:2103-2115 | a prune leaves readable exactly the heights readable before and outside the pruned range |
| BlockTree.Tree.WalkUncommitted | crates/hotstuff_rs/src/block_tree/accessors/internal.rs:801-826 | the walk collects the uncommitted ancestors, newest first |
| BlockTree.Tree.Commit | crates/hotstuff_rs/src/block_tree/accessors/internal.rs:796-946 | the mutable commit computes the specified store and reports the specified outcome |
| BlockTree.Tree.PruneOldCommittedBlocks | crates/hotstuff_rs/src/block_tree/accessors/internal.rs:2079-2119 | when heights lie below the retention window the prune height moves up by 64 or to the window, exactly the heights below it become unreadable, and nothing else changes; otherwise no change; the count is the entries deleted, one for each height on a whole chain |
| FeedRuns.DeliveryContract | crates/hotstuff_rs/src/app.rs:283-313 | in every run, with any losses: callbacks since boot are one ascending gap-free run, the frontier names only a held height, every refused height stays above it |
| FeedRuns.GuardedRunIsContiguous | crates/hotstuff_rs/src/committed_feed.rs:106-185 | with losses and prunes, the app's durable heights stay contiguous as long as no pass starts where the first readable height is beyond what the app can take |
| FeedRuns.NeverSkippedNeverRepeated | crates/hotstuff_rs/src/app.rs:283-291 | over runs of commits, cut passes, latches and restarts the app holds exactly 0..n once each, the frontier below n, and everything committed once the frontier catches up |
| FeedPasses.PassIsARun | crates/hotstuff_rs/src/committed_feed.rs:106-185 | a whole pass, with the latch firing wherever it likes, is a run of the machine |
| FeedPasses.PassDeliversMaximalRun | crates/hotstuff_rs/src/committed_feed.rs:125-184 | an undisturbed pass delivers exactly the maximal readable run from its start and puts the frontier at its end |
| FeedPasses.SecondPassDeliversNothing | crates/hotstuff_rs/src/committed_feed.rs:100-106 | a second pass over an unchanged tree changes nothing |
| FeedLatch.PassUnderLatch | crates/hotstuff_rs/src/committed_feed.rs:106-185 | whenever the latch fires: the counted heights are those called and then found unlatched, a run from the pass's start; the frontier ends at the last of them or stays; every call is kept or refused, and at most one follows the counted ones |
| FeedPasses.PassContiguousIffNoSkip | crates/hotstuff_rs/src/committed_feed.rs:115-130 | a pass keeps the app's heights contiguous if and only if the first readable height from its start is one the app can take |
| FeedPasses.BootReconcileOnlyLowers | crates/hotstuff_rs/src/committed_feed.rs:207-253 | boot changes the store exactly when the app lacks counted heights and all of them are readable, and then only lowers the frontier |
| FeedPasses.BootReconcileNeverSkips | crates/hotstuff_rs/src/committed_feed.rs:190-253 | the pass after a lowered frontier re-delivers the whole gap from the app's resume height without a pause |
| FeedPasses.BootReconcileCloses | crates/hotstuff_rs/src/committed_feed.rs:199-253 | after boot the app holds everything counted, or the gap cannot be re-delivered |
| FeedPasses.RestartRecoversEverything | crates/hotstuff_rs/src/committed_feed.rs:190-197 | after any run with nothing lost, one restart and one pass leave the app holding every committed height |
| FeedPasses.ScheduleIndependence | crates/hotstuff_rs/src/committed_feed.rs:106-185 | from an anchored frontier, any interleaving of passes with commits, holes above the frontier and repairs delivers what one final pass would and leaves the app in the same state |
| FeedLoss.NeverSkippedDespiteLostRecords | crates/hotstuff_rs/src/committed_feed.rs:190-253 | over runs in which the app also loses any of its latest durable records while down, it holds exactly 0..n once each, and once up the frontier is below n |
| FeedLoss.LossIsReconciled | crates/hotstuff_rs/src/committed_feed.rs:207-253 | records lost below the frontier always make the next boot lower it, to just what the app has left |
| FeedLoss.LostRecordsAreRedelivered | crates/hotstuff_rs/src/committed_feed.rs:190-253 | after any such run one crash, boot and pass leave the app holding every committed height and the frontier at the top |
| FeedLoss.PassContiguousIffTakesNext | crates/hotstuff_rs/src/committed_feed.rs:115-185 | over any store, held frontier or not, a pass keeps the app's heights contiguous if and only if the app can take the first height it delivers |
| FeedLoss.GuardedLossIsContiguous | crates/hotstuff_rs/src/committed_feed.rs:106-253 | with prunes, holes, repairs, restarts and lost records in any order, the app's heights stay contiguous as long as every pass starts where that holds |
| FeedLoss.LossContiguousIff | crates/hotstuff_rs/src/committed_feed.rs:199-253 | records lost below the frontier, over any store: boot lowers it if and only if the whole gap is readable, and boot and the next pass keep the app contiguous if and only if it is, or the app has nothing left, or the next height cannot be read |
| FeedGap.UnanchoredPruneSkips | crates/hotstuff_rs/src/committed_feed.rs:115-130 | a run from a fresh store, nothing lost but what the pruner deletes at its smallest retention, after which one pass leaves a gap in the app |
| FeedLoop.LatchingApp.OnCommittedBlock | crates/hotstuff_rs/src/committed_feed.rs:628-641 | the app's callback refuses when latched, ignores a re-delivery and otherwise stores |
| FeedLoop.FeedCommittedBlocksToApp | crates/hotstuff_rs/src/committed_feed.rs:106-185 | the loop on the mutable tree and app ends where the machine's pass ends; the frontier is at the last counted height or unmoved, the app took the counted heights and at most one more, and a pass that stops short of the readable run was latched |
| FeedLoop.LowerFedFrontierToApp | crates/hotstuff_rs/src/committed_feed.rs:207-253 | the boot loop lowers the frontier exactly when the app resumes at or below it and every height in between is readable, to just below that height; an app without a resume height changes nothing |
| FeedLoop.BootFeedCommittedBlocksToApp | crates/hotstuff_rs/src/committed_feed.rs:190-197 | boot is the lowering followed by one pass |
| Checkpoints.CounterBounds | tools/matched-bench/ckpt_wait.py:13-22 | in every reachable state writes are at most submits plus one, equal to it exactly between hand-over and count, and submits at most writes plus two, equal to it exactly when a hand-over failed with a write under way |
| Checkpoints.SubmitsCanLeadByTwo | crates/torus-consensus/src/exec_pipeline.rs:841-884 | a reachable state with two more counted submits than counted writes |
| Checkpoints.WritesCanLead | crates/torus-consensus/src/exec_pipeline.rs:841-884 | a reachable state with one counted write and no counted submit |
| Checkpoints.WaitCoversExecuted | tools/matched-bench/ckpt_wait.py:232-243 | one write more than the submits counted at some moment, same process, means the durable state covers every block executed at that moment |
| Checkpoints.RestartVoidsWait | tools/matched-bench/ckpt_wait.py:232-243 | with a restart in between it does not |
| Checkpoints.DurableGrows | crates/torus-consensus/src/exec_pipeline.rs:1218-1290 | the durable height never goes back, restarts included |
| Checkpoints.ExecutedNotDurable | tools/matched-bench/summarize.py:1228-1240 | in every reachable state at most two checkpoint spans are executed and not durable |
| Checkpoints.KillRewind | tools/matched-bench/summarize.py:1366-1390 | a kill in any reachable state replays, beyond the queue, fewer than two spans plus the undispatched blocks |
| Checkpoints.KillRewindIsTight | tools/matched-bench/summarize.py:1255-1262 | for every number of undispatched blocks, a reachable state that meets that bound |
| Checkpoints.KillAcceptedIff | tools/matched-bench/summarize.py:1366-1390 | the gate accepts every kill with that many undispatched blocks if and only if they are at most three |
| CheckpointWait.AskOnce | tools/matched-bench/ckpt_wait.py:217-229 | one pass keeps earlier answers and records exactly the first answers of the others |
| CheckpointWait.Baseline | tools/matched-bench/ckpt_wait.py:217-229 | the baseline holds each node's first answer; with retry it is complete or the deadline passed |
| CheckpointWait.PollDurable | tools/matched-bench/ckpt_wait.py:232-256 | a node stays pending exactly when no pass showed its write count past the target |
| CheckpointWait.Wait | tools/matched-bench/ckpt_wait.py:299-384 | when each of the four outcomes is returned, in terms of every node's baseline and passes; durable means every node that did not restart meanwhile has on disk every block it had executed when the wait began |
| CheckpointWait.ReachedCoversExecuted | tools/matched-bench/ckpt_wait.py:13-22 | a node that reached its target has on disk every block it had executed when the wait began |
| Drain.BaseIsEarliest | tools/matched-bench/health.py:225-231 | the kept base starts a quiet window and no quiet window ending at the same sample starts earlier |
| Drain.QuietWindowIsStill | tools/matched-bench/health.py:200-231 | in a quiet window every flow counter of every node is constant, the processed one excepted while a feed or attestations are live |
| Drain.SameFlowIff | tools/matched-bench/health.py:202 | which counters must agree between two samples, and that the processed one is free exactly while something is live |
| Drain.DrainedIff | tools/matched-bench/health.py:204-242 | drained, told on times, counters, gauges and heights alone: from a usable sample on, for the required time, every gauge is within its limit, no counter falls, order flow stands still, every node commits and the last sample meets its own limits |
| Drain.EarliestBaseDecides | tools/matched-bench/health.py:225-242 | testing the kept base alone decides whether any window since the last restart is long enough with progress on every node |
| Drain.Tracker.Observe | tools/matched-bench/health.py:214-248 | drained exactly when some gap-free, reset-free window of the required length with constant quiet counters and commits on every node ends here and the sample is accepting |
| Drain.Tracker.Restart | tools/matched-bench/health.py:250-253 | the window starts anew at the last sample and nothing else changes |
| Drain.RangeCoversWindow | tools/matched-bench/health.py:351-358 | the scanned range covers every block any node executed inside the window |
| Drain.ScanBetween | tools/matched-bench/health.py:360-377 | accept exactly when heights are known and the range scans clean, restart exactly when a readable height holds a counted action |
| Drain.AttestWindowStep | tools/matched-bench/health.py:349-377 | accepted exactly when drained and the scan accepts, and then every action any node executed in the window is excused; the window restarts exactly when the scan finds a counted action |
| AttestTraffic.ReadAll | tools/matched-bench/attest_traffic.py:218-225 | every height is read from the first node that answers it, the rest are answered by nobody |
| AttestTraffic.PeerViews | tools/matched-bench/attest_traffic.py:226-234 | a suspect height is compared on every node |
| AttestTraffic.CountHeight | tools/matched-bench/attest_traffic.py:162-184 | attestations, allowed and other actions counted as the sizes of the sets of their positions |
| AttestTraffic.ScanHeight | tools/matched-bench/attest_traffic.py:153-184 | a height counts nothing exactly when each action is an attestation, allowed, or skipped by every node returning the same body |
| AttestTraffic.ScanWindow | tools/matched-bench/attest_traffic.py:187-252 | clean exactly when the range is usable and every height in it is read and quiet; which heights are reported as other or unread |
| StateAttest.ReadRows | tools/matched-bench/state_attest.py:311-327 | consecutive checkpoints down from the newest, complete but possibly the last, and why the walk ended |
| StateAttest.HealthyWindow | tools/matched-bench/state_attest.py:357-377 | healthy nodes advancing by fewer than 64 checkpoints give at least the required number of compared heights |
| StateAttest.WindowIsTight | tools/matched-bench/state_attest.py:357-377 | a row every node answers is within what the most advanced node retains above activation, so no longer window could be asked for |
| StateAttest.WindowIsReached | tools/matched-bench/state_attest.py:357-377 | some healthy walk compares exactly the required number of heights, one more only when the activation height is no checkpoint and the advance does not cut the walk |
| StateAttest.MismatchIsFinal | tools/matched-bench/state_attest.py:558-564 | a retry that is not clean after merging closes the hole with that evidence whatever follows |
| StateAttest.HealingKeepsEvidence | tools/matched-bench/state_attest.py:523-572 | for all replies: no failed answer enters a row, a row is clean exactly when no evidence closed it, and it is healed only by one in-time read with a quorum on every node |
| StateAttest.HealedIff | tools/matched-bench/state_attest.py:551-571 | a hole is healed within n retries if and only if one of them is a full read and neither the walk's read nor a retry up to it, merged with the walk's, shows evidence |
| StateAttest.FirstFullReadHeals | tools/matched-bench/state_attest.py:551-571 | the first such retry becomes the row and later ones change nothing |
| StateAttest.HealHoles | tools/matched-bench/state_attest.py:523-572 | the retry rounds leave every other row untouched, and a hole ends as the first in-time clean read with a quorum on every node before any evidence if the budget holds one, and still open or showing evidence otherwise |
| StateVerdict.RowView | tools/matched-bench/state_attest.py:330-354 | one row's accumulators: the nodes agree, every node has a quorum, who voted, and exactly the attestations and quorum hashes that differ from a node's own hash |
| StateVerdict.Tabulate | tools/matched-bench/state_attest.py:385-400 | the loop's accumulators hold every compared row's entry, exactly the faults of all rows, exactly the unknown voters, and each validator's votes on the quorum rows |
| StateVerdict.FewerVotes | tools/matched-bench/state_attest.py:442-444 | a validator's count falls short of the quorums reached exactly when it missed one of those rows |
| StateVerdict.JudgeRows | tools/matched-bench/state_attest.py:380-447 | the problems read off the accumulators are exactly those due on the rows, and no mismatch is among them exactly when every compared row is clean |
| StateVerdict.EvidenceIsReported | tools/matched-bench/state_attest.py:492-572 | a hole that showed a mismatch in the walk or in any retry before it closed makes the judge report one |
| StateVerdict.HealthyIsNeverShort | tools/matched-bench/state_attest.py:357-377 | healthy nodes are never reported for a short window, whatever the chain did meanwhile and the retries answered, nor for none while it advanced by fewer than 64 checkpoints |
| Liveness.StartIsEarliest | tools/matched-bench/health.py:144-149 | any idle stretch ending at a sample begins no earlier than the open one |
| Liveness.ProgressTelescopes | tools/matched-bench/health.py:141-143 | with no problem the commits observed are last minus first |
| Liveness.AssessNode | tools/matched-bench/health.py:116-156 | the stalls reported are the stretches listed by Runs, in order; problems are exactly the flawed samples |
| Liveness.RunsExact | tools/matched-bench/health.py:125-156 | those stretches are exactly the maximal ones without commit, work pending throughout, that last the threshold, each once and in order |
| Liveness.EveryStallIsReported | tools/matched-bench/health.py:108-111 | every stretch that lasts the threshold lies inside a reported stall, recovered or not |
| Liveness.JudgeNode | tools/matched-bench/health.py:119-167 | the verdict over the samples in the window, which for samples in order of time are one slice of them |
| Liveness.WindowConcat | tools/matched-bench/health.py:117 | the window keeps the order: the window of two stretches is the one's followed by the other's |
| Liveness.OrderedVerdict | tools/matched-bench/health.py:117-167 | samples in order of time are judged by the slice of them between the window's bounds |
| Liveness.VerdictIff | tools/matched-bench/health.py:119-167 | failed exactly when some stretch stands still for the threshold, or all compare, reach both edges and show no commit; passed exactly when none stands still, all compare, reach both edges and the last is ahead of the first |
| Liveness.AssessLiveness | tools/matched-bench/health.py:104-173 | all nodes: failed exactly when some node fails, passed exactly when every node passes |
| Dissemination.CountLines | tools/matched-bench/health.py:538-549 | each line is exempt or live, and kinds are tallied |
| Dissemination.ExemptIff | tools/matched-bench/health.py:520-545 | a line is excused exactly when its peer id is one the killed node was the last to report, its time is from the kill on and it is another node's |
| Dissemination.KillDissemination | tools/matched-bench/health.py:492-563 | exempt plus live equals lines plus uncovered counts, which are the counts less the tallied lines where no kind has extra lines; clean exactly when counts match, every line is exempt and every counted failure has a line |
| BalanceCache.WriteBackRefinesWriteThrough | crates/torus-bridge/src/balance_cache_tests.rs:56-114 | over every sequence of loads, sets, disjoint merges and flushes failing anywhere, cache and backend together hold what write-through would |
| BalanceCache.FlushLogs | crates/torus-bridge/src/balance_cache_tests.rs:29-37 | a flush tries the rows in order up to and including the one that errs, each with its cached value |
| BalanceCache.FlushRefines | crates/torus-bridge/src/balance_cache_tests.rs:96-113 | a failed flush keeps the full retry set and changes nothing a reader sees; a full one stores exactly the write-through rows |
| BalanceCache.LoadReadsThrough | crates/torus-bridge/src/balance_cache_tests.rs:70-81 | a load returns what write-through holds |
| BalanceCache.MergesCommute | crates/torus-bridge/src/balance_cache_tests.rs:88-94 | disjoint workers can be merged in either order |
| BalanceCache.FlagSetRefines | crates/torus-bridge/src/native_executor.rs:583-615 | setting in the flag form is setting in the set form, and flags and vector still match |
| BalanceCache.FlagMergeRefines | crates/torus-bridge/src/native_executor.rs:620-623 | merging likewise |
| BalanceCache.FlagOrder | crates/torus-bridge/src/native_executor.rs:628-633 | the sorted vector is the set form's flush order |
| BalanceUndo.RollbackRestoresIff | crates/torus-bridge/src/native_executor.rs:493-537 | a rollback restores the cache after every region if and only if no entry was marked as logged when it began |
| BalanceUndo.CommitLeavesMarks | crates/torus-bridge/src/native_executor.rs:505-508 | after a committed region that set something, a later region on the same cache is not always undone; the executor opens one region per cache |
| BalanceUndo.CommittedRegionStands | crates/torus-bridge/src/native_executor.rs:503-508 | a committed region keeps its entries, nothing done since can be rolled back, and no load raises a fault the region kept |
| BalanceCalls.FlagFormRefinesWriteThrough | crates/torus-bridge/src/native_executor.rs:550-648 | over every sequence of loads, sets, disjoint merges and flushes failing anywhere, the flag-and-vector cache and the backend together hold what write-through would |
| BalanceCalls.OneRegionIsUndone | crates/torus-bridge/src/native_executor.rs:518-537 | in every call, whatever came before its one region, rolling the region back restores the cache and changes nothing a write-through reader sees |
| BalanceCalls.ReplaySeesTheRegion | crates/torus-bridge/src/native_executor.rs:510-517 | a replay of a rolled-back region gets, load for load, the balances and faults the region got, whatever the backend would give now |
| BalanceCalls.CallReplaysItsRegion | crates/torus-bridge/src/native_executor.rs:11147-11164 | in every call the replay of its region sees what the region saw |
| BalanceCalls.ReplayRaisesEveryFault | crates/torus-bridge/src/native_executor.rs:556-561 | after the replay no latched fault is left |
| BalanceUndo.PutAll | crates/torus-bridge/src/native_executor.rs:632-637 | each address is attempted once in order, and the first failed write stops the flush |
| BalanceUndo.Cache.Load | crates/torus-bridge/src/native_executor.rs:550-575 | the mutable load: a latched fault is raised first, else the value write-through holds, else the backend's fault; nothing a reader sees changes |
| BalanceUndo.LoadsRaiseInOrder | crates/torus-bridge/src/native_executor.rs:556-561 | outside a region, loads of an address raise its kept faults one by one in order |
| BalanceUndo.Cache.NoteReadFault | crates/torus-bridge/src/native_executor.rs:539-545 | inside a region, the fault is what a load of its address raises after the rollback, once the earlier ones are raised; other addresses, readers and anything outside a region see no change |
| BalanceUndo.Cache.Set | crates/torus-bridge/src/native_executor.rs:583-615 | the mutable set is the set form's set, logging a prior value at most once |
| BalanceUndo.Cache.MergeDisjoint | crates/torus-bridge/src/native_executor.rs:620-623 | the mutable merge is the set form's merge, and readers gain exactly the worker's dirty balances |
| BalanceUndo.Cache.FlushAll | crates/torus-bridge/src/native_executor.rs:628-648 | the mutable flush is the set form's flush, failed or not |
| BalanceUndo.Cache.RollbackUndo | crates/torus-bridge/src/native_executor.rs:518-537 | the mutable rollback is the log undone from last to first |
| Rlp.RoundTrip | devnet/scripts/state-grow.py:51-65 | decoding an encoding followed by anything gives the item and what followed, for all payloads below 2^64 |
| Rlp.PrefixFree | devnet/scripts/state-grow.py:58-65 | no encoding is a proper beginning of another |
| Rlp.StringRoundTripIff | devnet/scripts/state-grow.py:51-65 | a string survives the round trip exactly when it is shorter than 2^64 |
| Rlp.LongStringStartsWithEmptyList | devnet/scripts/state-grow.py:51-55 | at 2^64 bytes a string's encoding starts with the whole empty list |
| Rlp.StringBytes | devnet/scripts/state-grow.py:51-65 | the bytes of a string in its single-byte, short and long form |
| Rlp.ListBytes | devnet/scripts/state-grow.py:51-65 | the bytes of a list in its short and long form |
| Rlp.SigningPayloadInjective | devnet/scripts/state-grow.py:75-88 | different transactions or chain ids have different signing payloads |
| Rlp.SignedFields | devnet/scripts/state-grow.py:75-103 | what each signed field decodes to, v = 2 * chain id + 35 + parity included |
| Rlp.SignedBytesInjective | devnet/scripts/state-grow.py:89-105 | different signed fields give different bytes, chain id and parity included |
| KillSplit.PartsJoin | tools/matched-bench/summarize.py:1698-1705 | the times up to the kill and after it are the load window's, if none lies past its end |
| KillSplit.SplitMembers | tools/matched-bench/summarize.py:1698-1705 | the first window holds exactly the times up to the kill, the second its last one followed by exactly the later ones |
| KillSplit.SplitAddsUpIff | tools/matched-bench/summarize.py:1698-1749 | the two windows' deltas add up to the load window's for every counter if and only if no sample lies after the load window and up to the kill; where the window up to the kill or the load window is empty, if and only if the other holds at most one sample |
| Quantile.HistQuantile | tools/matched-bench/summarize.py:325-347 | the report's loop computes the quantile of the bucket that reaches the rank, infinity when none does, none when nothing was observed |
| Quantile.BucketQuantile | devnet/scripts/ab-metrics-delta.py:84-99 | the A/B loop computes the quantile over the finite bounds, zero when nothing was observed |
| Quantile.QuantilesAgreeIff | tools/matched-bench/summarize.py:325-347 | the two agree if and only if q is at most 1; above, the report says infinity and the A/B script the top finite bound |
| Quantile.ReportGoesToInfinity | tools/matched-bench/summarize.py:338-347 | a histogram on which they differ |
| Quantile.InBucketIff | tools/matched-bench/summarize.py:338-346 | for every rank: the value is at or below its bucket's bound if and only if a non-empty first bucket does not end below 0, inside its bucket if and only if the first bound is not negative, and not above the top finite bound if and only if the first bucket is such or that bound is not negative |
| Quantile.MonotoneIffAnchored | tools/matched-bench/summarize.py:338-346 | the quantile is monotone in q exactly when a non-empty first bucket does not end below 0 |
| BootView.BootEntersIffNew | crates/hotstuff_rs/src/pacemaker/implementation.rs:1497-1514 | the boot view is never below the highest entered one, and HotStuff starts behind it exactly when it is above |
| BootView.BootAboveEveryCertificate | crates/hotstuff_rs/src/pacemaker/implementation.rs:1497-1514 | a replica boots above every certificate view any of its lives has seen and never below a view it entered |
| BootView.BootAboveCertificates | crates/hotstuff_rs/src/pacemaker/implementation.rs:1503-1513 | the boot view is above both certificate views and no higher than one above the recorded progress |
| BootView.EnteredViewsIncrease | crates/hotstuff_rs/src/hotstuff/implementation.rs:659-740 | over any run with any crashes the entered views strictly increase |
| BootView.BootPassEntersNewView | crates/hotstuff_rs/src/algorithm.rs:80-120 | the first pass after a boot enters the boot view exactly when no life of the replica entered it before |
| BootView.CrashForgetsViews | crates/hotstuff_rs/src/pacemaker/implementation.rs:1497-1514 | a crash keeps what is durable, and the next boot depends on nothing else |

## Left out

- HotStuff's phased mode, validator-set updates, nudges, no-endorsement certificates, leader exclusion and block sync's choice of peers; in the agreement proof votes are over-approximated by every vote the lock rule admits.
- ProposalRules.RulesKeepAgreement: the application's data checks, equivocation records and the times at which views expire are not modelled; a replica uses a header only in its own view and with the parent at hand.
- AgreementLimits.ViewZeroBreaksAgreement: one direction only; a run with a view-0 certificate need not disagree.
- FailedUpdate.BreaksAgreement: one direction only, likewise; the application accepts every block of the run.
- Agreement.Agreement: sibling deletion and pruning are one step that drops any set of blocks, not the source's exact sets; operator recovery that rewrites the lock is not a step.
- BlockTree.CommitKeepsOneChain: the application state is in CommitState and the deletion of siblings in SiblingDeletion, both on values; validator-set updates are not modelled.
- SiblingDeletion.DeletionKeepsOneChain: the stored children lists are the present blocks justified by a parent, and a branch is followed through present blocks.
- FeedRuns.DeliveryContract: commits, prunes and losses happen between passes, not inside one, as the feed runs on the thread that commits.
- BalanceCache.WriteBackRefinesWriteThrough: the set form is a value, not an object; the object is the flag form.
- Drain.Tracker.Observe: a height target chosen while waiting is a constant, and numbers are naturals.
- AttestTraffic.ScanWindow: JSON shapes and batch retries are folded into "answers or not"; the list of heights whose statuses differ between nodes is left out.
- StateVerdict.JudgeRows: report texts, metrics and log checks are left out.
- CheckpointWait.Wait: parsing of metrics and of the environment is left out; a tick of the clock is one pass.
- Checkpoints.KillAcceptedIff: only the rewind check of the gate, with checkpoints on.
- Quantile.HistQuantile: real arithmetic, no rounding.
- The committed feed's log throttling, the watchdog's interval, event publishing.
- The matching engine, the native executor's phases, EVM execution, RPC and load generators.
