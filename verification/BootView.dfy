/**
 Which view a replica boots into, and why no view is ever entered twice: the durable progress
 (highest view entered, highest certificate views) against the volatile views of the pacemaker and
 of HotStuff, over any number of restarts.
 */
module BootView {
  import opened Options

  /** `log`: the views whose entry was recorded, oldest first, over all lives of the replica. */
  datatype Replica = Replica(
    entered: nat,
    pcView: nat,
    tcView: Option<nat>,
    up: bool,
    pacemaker: nat,
    hotstuff: nat,
    log: seq<nat>)

  const FRESH := Replica(0, 0, None, false, 0, 0, [])

  datatype Label =
    | Boot
    | LoopPass
    | AdvanceView(view: nat)
    | SeePc(view: nat)
    | SeeTc(view: nat)
    | Crash

  predicate IsEpochChangeView(view: nat, epochLength: nat) {
    epochLength != 0 && view % epochLength == 0
  }

  function Max(a: nat, b: nat): nat {
    if a < b then b else a
  }

  /** The view after the highest progress, except an entered epoch-change view without a certificate. */
  function BootInto(entered: nat, pcView: nat, tcView: Option<nat>, epochLength: nat): nat {
    var tc := tcView.UnwrapOr(0);
    var progress := Max(Max(entered, pcView), tc);
    if progress == 0 then 0
    else if progress == entered && IsEpochChangeView(progress, epochLength) && pcView < progress
        && tc < progress then progress
    else progress + 1
  }

  /** Where HotStuff starts: in the boot view if it is 0 or was entered before, else one behind. */
  function HotStuffStart(init: nat, entered: nat): nat {
    if init == 0 || init == entered then init else init - 1
  }

  function Step(s: Replica, l: Label, epochLength: nat): Replica {
    match l
    case Boot =>
      if s.up then s
      else
        var init := BootInto(s.entered, s.pcView, s.tcView, epochLength);
        s.(up := true, pacemaker := init, hotstuff := HotStuffStart(init, s.entered))
    case LoopPass =>
      if s.up && s.hotstuff != s.pacemaker
      then s.(hotstuff := s.pacemaker, entered := s.pacemaker, log := s.log + [s.pacemaker])
      else s
    case AdvanceView(v) => if s.up && v > s.pacemaker then s.(pacemaker := v) else s
    case SeePc(v) => if s.up && v > s.pcView then s.(pcView := v) else s
    case SeeTc(v) => if s.up && v > s.tcView.UnwrapOr(0) then s.(tcView := Some(v)) else s
    case Crash => s.(up := false)
  }

  function Run(labels: seq<Label>, epochLength: nat): Replica {
    if labels == [] then FRESH else Step(Run(labels[..|labels| - 1], epochLength), labels[|labels| - 1], epochLength)
  }

  predicate Increasing(s: seq<nat>) {
    forall i, j | 0 <= i < j < |s| :: s[i] < s[j]
  }

  ghost predicate Inv(s: Replica) {
    && Increasing(s.log)
    && (s.log == [] ==> s.entered == 0)
    && (s.log != [] ==> s.log[|s.log| - 1] == s.entered)
    && (forall i | 0 <= i < |s.log| :: 0 < s.log[i])
    && (s.up && s.hotstuff == s.pacemaker ==> s.entered <= s.pacemaker)
    && (s.up && s.hotstuff != s.pacemaker ==> s.entered < s.pacemaker)
  }

  /** Booting is outdated exactly when the boot view is new, and it is never below what was entered. */
  lemma BootEntersIffNew(s: Replica, epochLength: nat)
    requires !s.up
    ensures var t := Step(s, Boot, epochLength);
      && s.entered <= t.pacemaker
      && (t.hotstuff != t.pacemaker <==> s.entered < t.pacemaker)
      && (s.entered == t.pacemaker <==>
            || (s.entered == 0 && s.pcView == 0 && s.tcView.UnwrapOr(0) == 0)
            || (epochLength != 0 && s.entered % epochLength == 0
                && s.pcView < s.entered && s.tcView.UnwrapOr(0) < s.entered))
  {
  }

  /**
   The boot view lies above both certificate views, at or above the highest view entered, and no
   higher than one above the three, unless there was no progress at all.
   */
  lemma BootAboveCertificates(s: Replica, epochLength: nat)
    requires !s.up
    ensures var v, tc := Step(s, Boot, epochLength).pacemaker, s.tcView.UnwrapOr(0);
      if s.entered == 0 && s.pcView == 0 && tc == 0 then v == 0
      else
        && s.pcView < v && tc < v && s.entered <= v
        && (v == s.entered || v == s.entered + 1 || v == s.pcView + 1 || v == tc + 1)
  {
  }

  lemma StepKeepsInv(s: Replica, l: Label, epochLength: nat)
    requires Inv(s)
    ensures Inv(Step(s, l, epochLength))
  {
    if l.Boot? && !s.up { BootEntersIffNew(s, epochLength); }
  }

  /** Over any run, with any crashes, the views entered strictly increase: none is entered twice. */
  lemma {:induction false} EnteredViewsIncrease(labels: seq<Label>, epochLength: nat)
    ensures Inv(Run(labels, epochLength))
    ensures Increasing(Run(labels, epochLength).log)
  {
    if labels != [] {
      EnteredViewsIncrease(labels[..|labels| - 1], epochLength);
      StepKeepsInv(Run(labels[..|labels| - 1], epochLength), labels[|labels| - 1], epochLength);
    }
  }

  /** The first pass after a boot enters the boot view exactly when no life of the replica entered it before. */
  lemma BootPassEntersNewView(labels: seq<Label>, epochLength: nat)
    requires !Run(labels, epochLength).up
    ensures var s := Run(labels, epochLength);
      var t := Step(s, Boot, epochLength);
      var u := Step(t, LoopPass, epochLength);
      && (t.pacemaker > 0 ==> (u.log == s.log + [t.pacemaker] <==> t.pacemaker !in s.log))
      && (t.pacemaker in s.log || t.pacemaker == 0 ==> u.log == s.log)
  {
    var s := Run(labels, epochLength);
    EnteredViewsIncrease(labels, epochLength);
    BootEntersIffNew(s, epochLength);
    var t := Step(s, Boot, epochLength);
    if t.pacemaker in s.log {
      var i :| 0 <= i < |s.log| && s.log[i] == t.pacemaker;
    }
  }

  /** The view of the certificate that label `k` brings to a running replica. */
  ghost predicate Sees(labels: seq<Label>, epochLength: nat, k: nat, view: nat) {
    k < |labels| && (labels[k] == SeePc(view) || labels[k] == SeeTc(view)) && Run(labels[..k], epochLength).up
  }

  /** The certificate views kept are the highest of all lives: none seen is above them, and each was seen. */
  lemma {:induction false} HighestCertificatesAreKept(labels: seq<Label>, epochLength: nat, k: nat, view: nat)
    ensures var s := Run(labels, epochLength);
      && (Sees(labels, epochLength, k, view) ==> view <= if labels[k].SeePc? then s.pcView else s.tcView.UnwrapOr(0))
      && (s.pcView > 0 ==> exists j: nat :: Sees(labels, epochLength, j, s.pcView) && labels[j].SeePc?)
      && (s.tcView.Some? ==> exists j: nat :: Sees(labels, epochLength, j, s.tcView.value) && labels[j].SeeTc?)
  {
    if labels != [] {
      var n, before := |labels| - 1, labels[..|labels| - 1];
      HighestCertificatesAreKept(before, epochLength, k, view);
      forall j: nat, v: nat | j < n ensures Sees(labels, epochLength, j, v) <==> Sees(before, epochLength, j, v) {
        assert labels[..j] == before[..j];
      }
      var s, t := Run(before, epochLength), Run(labels, epochLength);
      if t.pcView != s.pcView { assert Sees(labels, epochLength, n, t.pcView); }
      if t.tcView != s.tcView { assert Sees(labels, epochLength, n, t.tcView.value); }
    }
  }

  /** A replica boots above every certificate any of its lives has seen, and never below a view it entered. */
  lemma BootAboveEveryCertificate(labels: seq<Label>, epochLength: nat, k: nat, view: nat)
    requires !Run(labels, epochLength).up && Sees(labels, epochLength, k, view) && view > 0
    ensures var v := Step(Run(labels, epochLength), Boot, epochLength).pacemaker;
      view < v && Run(labels, epochLength).entered <= v
  {
    HighestCertificatesAreKept(labels, epochLength, k, view);
    BootAboveCertificates(Run(labels, epochLength), epochLength);
  }

  /** A running replica that moves to a higher view enters it in its next pass. */
  lemma AdvanceIsEntered(s: Replica, view: nat, epochLength: nat)
    requires s.up && view > s.pacemaker && s.hotstuff <= s.pacemaker
    ensures var t := Step(Step(s, AdvanceView(view), epochLength), LoopPass, epochLength);
      t.entered == view && t.pacemaker == view && t.log == s.log + [view]
  {
  }

  /** A crash keeps what is durable, and the next boot depends on nothing else. */
  lemma CrashForgetsViews(s: Replica, t: Replica, epochLength: nat)
    requires s.entered == t.entered && s.pcView == t.pcView && s.tcView == t.tcView && s.log == t.log
    ensures Step(Step(s, Crash, epochLength), Boot, epochLength) == Step(Step(t, Crash, epochLength), Boot, epochLength)
    ensures var c := Step(s, Crash, epochLength);
      c.entered == s.entered && c.pcView == s.pcView && c.tcView == s.tcView && c.log == s.log
  {
  }
}
