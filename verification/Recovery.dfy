/** The boot loader, the over-the-air update and the shell's image switch as
    one machine whose every step is a single persistent write, so that power can
    be lost between any two of them. */
module Recovery {
  import opened Common
  import opened ImageStatus
  import opened BootLoader

  /** Where the processor is. All of it is lost with power. */
  datatype Phase =
    | Off                     // no power, or a reset is under way
    | Halted                  // "No image to boot"
    | Chosen(i: SlotId)       // selected and mapped, not yet validated
    | Accepted(i: SlotId)     // validated, version counter raised
    | Rejected(i: SlotId)     // validation failed, not yet recorded
    | Marked(i: SlotId)       // VERIFY_OK recorded
    | App(i: SlotId)          // the image is executing

  datatype State = State(dev: Device, phase: Phase)

  /** The three flag writes after a download, and of the image switch. */
  datatype FlagWrite = RetireRunning | ClearOther | PromoteOther

  function Apply(d: Device, running: SlotId, w: FlagWrite): Device {
    match w
    case RetireRunning => d.Flagged(running, IA_MASK | NEWER_MASK, IA_OK | OLDER)
    case ClearOther => d.Flagged(1 - running, IA_MASK | VERIFY_MASK | NEWER_MASK, 0)
    case PromoteOther => d.Flagged(1 - running, NEWER_MASK, NEWER)
  }

  datatype Step =
    | PowerLoss
    | Select
    | Validate
    | MarkFail
    | MarkOk
    | SetRunning
    | Scribble(flash: seq<byte>)          // any erase or write, complete or torn
    | SetFlags(w: FlagWrite, ok: bool)    // a flag write that may fail
    | Reboot

  /** The application writes only inside the slot it is not running from. */
  ghost predicate OutsideUnchanged(before: seq<byte>, after: seq<byte>, target: SlotId) {
    && |before| == |after| == FLASH_SIZE
    && forall a :: 0 <= a < FLASH_SIZE && !(Base(target) <= a < Base(target) + SLOT_SIZE) ==> after[a] == before[a]
  }

  ghost predicate Next(env: Env, s: State, step: Step, s': State) {
    match step
    case PowerLoss => s' == s.(phase := Off)
    case Select =>
      && s.phase.Off?
      && s' == (match s.dev.Selected()
                case NoPick(_) => s.(phase := Halted)
                case Pick(i, _) => State(AfterSelection(s.dev), Chosen(i)))
    case Validate =>
      && s.phase.Chosen?
      && var (code, ver) := BootLoader.Validate(env, s.dev, s.phase.i);
         s' == if code < 0 then s.(phase := Rejected(s.phase.i))
               else State(s.dev.(counter := ver), Accepted(s.phase.i))
    case MarkFail =>
      && s.phase.Rejected?
      && s' == State(s.dev.Flagged(s.phase.i, VERIFY_MASK, VERIFY_FAIL), Off)
    case MarkOk =>
      && s.phase.Accepted?
      && s' == State(s.dev.Flagged(s.phase.i, VERIFY_MASK, VERIFY_OK), Marked(s.phase.i))
    case SetRunning =>
      && s.phase.Marked?
      && s' == State(s.dev.(running := Some(s.phase.i)), App(s.phase.i))
    case Scribble(flash) =>
      && s.phase.App? && s.dev.running == Some(s.phase.i)
      && OutsideUnchanged(s.dev.flash, flash, 1 - s.phase.i)
      && s' == s.(dev := s.dev.(flash := flash))
    case SetFlags(w, ok) =>
      && s.phase.App? && s.dev.running.Some?
      && s' == if ok then s.(dev := Apply(s.dev, s.dev.running.value, w)) else s
    case Reboot => s.phase.App? && s' == s.(phase := Off)
  }

  datatype Run = Run(states: seq<State>, steps: seq<Step>)

  ghost predicate IsRun(env: Env, r: Run) {
    && |r.states| == |r.steps| + 1
    && forall k :: 0 <= k < |r.steps| ==> Next(env, r.states[k], r.steps[k], r.states[k + 1])
  }

  function Prefix(r: Run, n: nat): Run
    requires n < |r.states| == |r.steps| + 1
  {
    Run(r.states[..n + 1], r.steps[..n])
  }

  /** A run followed by one more step. */
  lemma Extend(env: Env, r: Run, step: Step, s: State) returns (r': Run)
    requires IsRun(env, r) && Next(env, r.states[|r.steps|], step, s)
    ensures IsRun(env, r') && r'.states[0] == r.states[0]
    ensures |r'.steps| == |r.steps| + 1 && r'.states[|r'.steps|] == s
  {
    r' := Run(r.states + [s], r.steps + [step]);
  }

  // ---- The invariant --------------------------------------------------------

  /** Slot i can be booted now and fallen back to later: it is confirmed, and the
      counter is exactly its version. */
  predicate Anchor(env: Env, d: Device, i: SlotId)
    requires env.Verifying()
  {
    && d.St(i).Some? && d.st0.Some?
    && VerifiedOk(d.St(i).value) && !IaBad(d.St(i).value)
    && (IsNewer(d.St(i).value) || IaOk(d.St(i).value))
    && env.Check(Contents(d.flash, i)) == Some(d.counter)
  }

  /** From this persistent state the loader finds its way to a genuine image. */
  predicate Recoverable(env: Env, d: Device)
    requires env.Verifying()
  {
    && d.Selected().Pick?
    && var i := d.Selected().idx;
       || Authentic(env, d, i)
       || (d.st0.Some? && Eligible(Read(d.St(1 - i))) && Authentic(env, d, 1 - i))
  }

  predicate Inv(env: Env, s: State)
    requires env.Verifying()
  {
    match s.phase
    case Off => Recoverable(env, s.dev)
    case Halted => false
    case Chosen(i) => Recoverable(env, s.dev) && s.dev.Selected() == Pick(i, false)
    case Accepted(i) =>
      s.dev.Selected() == Pick(i, false) && env.Check(Contents(s.dev.flash, i)) == Some(s.dev.counter)
    case Rejected(i) =>
      && Recoverable(env, s.dev) && s.dev.Selected() == Pick(i, false)
      && !Authentic(env, s.dev, i)
    case Marked(i) => Anchor(env, s.dev, i) && s.dev.Selected() == Pick(i, false)
    case App(i) => Anchor(env, s.dev, i) && s.dev.running == Some(i)
  }

  lemma AnchorRecovers(env: Env, d: Device, i: SlotId)
    requires env.Verifying() && Anchor(env, d, i)
    ensures Recoverable(env, d)
  {
    assert Eligible(Read(d.St(i)));
  }

  /** No erase or write of the other slot, and no flag write in any order and
      with any of them failing, disturbs the anchor. */
  lemma AppStepKeepsAnchor(env: Env, s: State, step: Step, s': State)
    requires env.Verifying() && s.phase.App? && Inv(env, s) && Next(env, s, step, s')
    ensures Anchor(env, s'.dev, s.phase.i)
  {
    var i := s.phase.i;
    match step {
      case Scribble(flash) =>
        assert Contents(flash, i) == Contents(s.dev.flash, i);
      case SetFlags(w, ok) =>
        var b := s'.dev.St(i).value;
        assert VerifiedOk(b) && !IaBad(b) && (IsNewer(b) || IaOk(b));
      case _ =>
    }
  }

  lemma SelectKeepsInv(env: Env, s: State, s': State)
    requires env.Verifying() && Inv(env, s) && Next(env, s, Select, s')
    ensures Inv(env, s')
  {
    if s.dev.Selected().firstBoot {
      assert IsNewer(s'.dev.st0.value) && Fresh(Read(s'.dev.st0));
    }
  }

  lemma MarkFailKeepsInv(env: Env, s: State, s': State)
    requires env.Verifying() && Inv(env, s) && Next(env, s, MarkFail, s')
    ensures Inv(env, s')
  {
    MarkingFailMovesOn(s.dev.st0, s.dev.st1);
  }

  lemma MarkOkKeepsInv(env: Env, s: State, s': State)
    requires env.Verifying() && Inv(env, s) && Next(env, s, MarkOk, s')
    ensures Inv(env, s')
  {
    MarkingOkKeepsSelection(s.dev.st0, s.dev.st1);
    ConfirmKeepsRest(s.dev.St(s.phase.i));
  }

  lemma LoaderStepKeepsInv(env: Env, s: State, step: Step, s': State)
    requires env.Verifying() && !s.phase.App? && Inv(env, s) && Next(env, s, step, s') && !step.PowerLoss?
    ensures Inv(env, s')
  {
    match step
    case Select => SelectKeepsInv(env, s, s');
    case MarkFail => MarkFailKeepsInv(env, s, s');
    case MarkOk => MarkOkKeepsInv(env, s, s');
    case _ =>
  }

  lemma StepKeepsInv(env: Env, s: State, step: Step, s': State)
    requires env.Verifying() && Inv(env, s) && Next(env, s, step, s')
    ensures Inv(env, s')
  {
    if step.PowerLoss? {
      match s.phase {
        case Marked(i) => AnchorRecovers(env, s.dev, i);
        case App(i) => AnchorRecovers(env, s.dev, i);
        case _ =>
      }
    } else if s.phase.App? {
      AppStepKeepsAnchor(env, s, step, s');
      AnchorRecovers(env, s'.dev, s.phase.i);
    } else {
      LoaderStepKeepsInv(env, s, step, s');
    }
  }

  // ---- What the invariant is for --------------------------------------------

  /** A device executing a genuine image that the loader booted. */
  predicate Operational(env: Env, s: State)
    requires env.Verifying()
  {
    s.phase.App? && s.dev.running == Some(s.phase.i) && Anchor(env, s.dev, s.phase.i)
  }

  /** A device fresh from serial download: no status entries, image 0 genuine. */
  predicate Factory(env: Env, s: State)
    requires env.Verifying()
  {
    s.phase.Off? && s.dev.st0.None? && s.dev.st1.None? && Authentic(env, s.dev, 0)
  }

  /** The uninterrupted boot chain ends executing an image that validates. */
  predicate BootsGenuine(env: Env, d: Device)
    requires env.Verifying()
  {
    var (d', out) := BootChain(env, d);
    && out.Jump? && Anchor(env, d', out.idx) && d'.running == Some(out.idx)
    && d'.flash == d.flash && d'.counter >= d.counter
  }

  lemma AcceptedPassAnchors(env: Env, d: Device)
    requires env.Verifying() && d.Selected().Pick? && Authentic(env, d, d.Selected().idx)
    ensures BootsGenuine(env, d)
  {
    var d1 := AfterSelection(d);
    var i := d.Selected().idx;
    assert d1.Selected() == Pick(i, false) by {
      if d.Selected().firstBoot { assert Fresh(Read(d1.st0)); }
    }
    ConfirmKeepsRest(d1.St(i));
  }

  lemma RecoverableBoots(env: Env, d: Device)
    requires env.Verifying() && Recoverable(env, d)
    ensures BootsGenuine(env, d)
  {
    var i := d.Selected().idx;
    if Authentic(env, d, i) {
      AcceptedPassAnchors(env, d);
    } else {
      MarkingFailMovesOn(d.st0, d.st1);
      AcceptedPassAnchors(env, BootOnce(env, d).0);
    }
  }

  lemma InvBoots(env: Env, s: State)
    requires env.Verifying() && Inv(env, s)
    ensures BootsGenuine(env, s.dev)
  {
    StepKeepsInv(env, s, PowerLoss, s.(phase := Off));
    RecoverableBoots(env, s.dev);
  }

  /** THE RECOVERY GUARANTEE. Take any run of boots, downloads and image
      switches that starts from a working device, with power lost between any
      two persistent writes, page writes torn and flag writes failing. At every
      point of it the loader has not given up, an executing image is genuine and
      exactly as new as the version counter, and if power is lost there the next
      uninterrupted boot chain ends executing a genuine image. */
  lemma {:induction false} RecoveryGuarantee(env: Env, r: Run, k: nat)
    requires env.Verifying() && IsRun(env, r) && k < |r.states|
    requires Operational(env, r.states[0]) || Factory(env, r.states[0])
    ensures !r.states[k].phase.Halted?
    ensures r.states[k].phase.App? ==> Operational(env, r.states[k])
    ensures BootsGenuine(env, r.states[k].dev)
    ensures Inv(env, r.states[k])
  {
    if k > 0 {
      RecoveryGuarantee(env, r, k - 1);
      StepKeepsInv(env, r.states[k - 1], r.steps[k - 1], r.states[k]);
    }
    InvBoots(env, r.states[k]);
  }

  /** The version counter never decreases, in any run of any device at all. */
  lemma {:induction false} CounterNeverDecreases(env: Env, r: Run, j: nat, k: nat)
    requires IsRun(env, r) && j <= k < |r.states|
    ensures r.states[j].dev.counter <= r.states[k].dev.counter
    decreases k
  {
    if j < k {
      CounterNeverDecreases(env, r, j, k - 1);
      assert Next(env, r.states[k - 1], r.steps[k - 1], r.states[k]);
    }
  }

  /** Without verification it does not change at all. */
  lemma {:induction false} CounterStaysUnverified(env: Env, r: Run, j: nat, k: nat)
    requires !env.Verifying() && IsRun(env, r) && j <= k < |r.states|
    ensures r.states[j].dev.counter == r.states[k].dev.counter
    decreases k
  {
    if j < k {
      CounterStaysUnverified(env, r, j, k - 1);
      assert Next(env, r.states[k - 1], r.steps[k - 1], r.states[k]);
    }
  }

  // ---- Failed images --------------------------------------------------------

  /** What the loader relies on between its own steps, for any device. */
  predicate LoaderConsistent(s: State) {
    (s.phase.Chosen? || s.phase.Accepted? || s.phase.Rejected?) ==> s.dev.Selected() == Pick(s.phase.i, false)
  }

  lemma StepKeepsLoaderConsistent(env: Env, s: State, step: Step, s': State)
    requires LoaderConsistent(s) && Next(env, s, step, s')
    ensures LoaderConsistent(s')
  {
    if step.Select? && s.dev.Selected().Pick? && s.dev.Selected().firstBoot {
      assert Fresh(Read(s'.dev.st0));
    }
  }

  /** The step is the update or switch that clears slot i's flags. */
  predicate Clears(s: State, step: Step, i: SlotId) {
    step.SetFlags? && step.ok && step.w.ClearOther? && s.dev.running == Some(1 - i)
  }

  lemma MarkKept(env: Env, s: State, step: Step, s': State, i: SlotId)
    requires LoaderConsistent(s) && Next(env, s, step, s') && Bad(s.dev.St(i)) && !Clears(s, step, i)
    ensures Bad(s'.dev.St(i))
  {
    if step.SetFlags? && step.ok {
      assert VerifiedBad(s'.dev.St(i).value);
    } else if step.MarkOk? || step.MarkFail? {
      assert s.phase.i != i || step.MarkFail?;
      assert VerifiedBad(s'.dev.St(i).value);
    }
  }

  lemma {:induction false} RunKeepsMark(env: Env, r: Run, i: SlotId, j: nat, k: nat)
    requires IsRun(env, r) && j <= k < |r.states|
    requires LoaderConsistent(r.states[j]) && Bad(r.states[j].dev.St(i))
    requires forall n :: j <= n < k ==> !Clears(r.states[n], r.steps[n], i)
    ensures Bad(r.states[k].dev.St(i)) && LoaderConsistent(r.states[k])
    decreases k
  {
    if j < k {
      RunKeepsMark(env, r, i, j, k - 1);
      StepKeepsLoaderConsistent(env, r.states[k - 1], r.steps[k - 1], r.states[k]);
      MarkKept(env, r.states[k - 1], r.steps[k - 1], r.states[k], i);
    }
  }

  lemma BadIsNotChosen(s: State, i: SlotId)
    requires LoaderConsistent(s) && Bad(s.dev.St(i))
    ensures s.phase != Chosen(i) && s.phase != Accepted(i) && s.dev.Selected() != Pick(i, false)
  {
  }

  /** An image marked VERIFY_FAIL keeps the mark, and so is never chosen again,
      until an update clears its flags. */
  lemma FailedStaysOut(env: Env, r: Run, i: SlotId, j: nat, k: nat)
    requires IsRun(env, r) && j <= k < |r.states|
    requires r.states[j].phase.Off? && Bad(r.states[j].dev.St(i))
    requires forall n :: j <= n < k ==> !Clears(r.states[n], r.steps[n], i)
    ensures Bad(r.states[k].dev.St(i)) && r.states[k].dev.Selected() != Pick(i, false)
    ensures r.states[k].phase != Chosen(i) && r.states[k].phase != Accepted(i)
  {
    RunKeepsMark(env, r, i, j, k);
    BadIsNotChosen(r.states[k], i);
  }

  /** Failed validations recorded in a stretch of a run. */
  function Failures(steps: seq<Step>): nat {
    if steps == [] then 0 else Failures(steps[..|steps| - 1]) + if steps[|steps| - 1].MarkFail? then 1 else 0
  }

  predicate ClearsFlags(step: Step) { step.SetFlags? && step.ok && step.w.ClearOther? }

  /** Until some slot's flags are cleared at most two validations fail, whatever
      other flags are written and however often power is lost. */
  lemma {:induction false} AtMostTwoFailures(env: Env, r: Run)
    requires IsRun(env, r) && LoaderConsistent(r.states[0])
    requires forall n :: 0 <= n < |r.steps| ==> !ClearsFlags(r.steps[n])
    ensures Failures(r.steps) + Suspects(r.states[|r.steps|].dev) <= Suspects(r.states[0].dev) <= 2
    ensures LoaderConsistent(r.states[|r.steps|])
    decreases |r.steps|
  {
    var n := |r.steps|;
    if n > 0 {
      AtMostTwoFailures(env, Prefix(r, n - 1));
      var s, step, s' := r.states[n - 1], r.steps[n - 1], r.states[n];
      assert Next(env, s, step, s');
      StepKeepsLoaderConsistent(env, s, step, s');
      FailureAccounting(env, s, step, s');
    }
  }

  lemma FailureAccounting(env: Env, s: State, step: Step, s': State)
    requires LoaderConsistent(s) && Next(env, s, step, s') && !ClearsFlags(step)
    ensures (if step.MarkFail? then 1 else 0) + Suspects(s'.dev) <= Suspects(s.dev)
  {
    match step
    case Select =>
      if s.dev.Selected().Pick? && s.dev.Selected().firstBoot { assert !Bad(s.dev.st0); }
    case MarkFail =>
      assert VerifiedBad(s'.dev.St(s.phase.i).value);
    case MarkOk =>
      assert !Bad(s.dev.St(s.phase.i));
    case SetFlags(w, ok) =>
      if ok { FlagKeepsMark(s.dev, s.dev.running.value, w); }
    case _ =>
  }

  lemma FlagKeepsMark(d: Device, running: SlotId, w: FlagWrite)
    requires !w.ClearOther?
    ensures Bad(Apply(d, running, w).st0) == Bad(d.st0) && Bad(Apply(d, running, w).st1) == Bad(d.st1)
  {
  }

  // ---- The machine and the loader agree ------------------------------------

  /** One uninterrupted pass through the loader is a run of the machine. */
  lemma BootOnceIsARun(env: Env, d: Device) returns (r: Run)
    ensures IsRun(env, r) && r.states[0] == State(d, Off)
    ensures var (d', out) := BootOnce(env, d);
            r.states[|r.steps|] == State(d', match out
                                             case NoImage(_) => Halted
                                             case Reset(_) => Off
                                             case Jump(i) => App(i))
  {
    var s0 := State(d, Off);
    match d.Selected() {
      case NoPick(_) =>
        r := Run([s0, s0.(phase := Halted)], [Step.Select]);
      case Pick(i, _) =>
        var d1 := AfterSelection(d);
        var s1 := State(d1, Chosen(i));
        var (code, ver) := BootLoader.Validate(env, d1, i);
        if code < 0 {
          var s2 := State(d1, Rejected(i));
          var s3 := State(d1.Flagged(i, VERIFY_MASK, VERIFY_FAIL), Off);
          r := Run([s0, s1, s2, s3], [Step.Select, Step.Validate, MarkFail]);
        } else {
          var s2 := State(d1.(counter := ver), Accepted(i));
          var s3 := State(s2.dev.Flagged(i, VERIFY_MASK, VERIFY_OK), Marked(i));
          var s4 := State(s3.dev.(running := Some(i)), App(i));
          r := Run([s0, s1, s2, s3, s4], [Step.Select, Step.Validate, MarkOk, SetRunning]);
        }
    }
  }

  // ---- The three flag writes ------------------------------------------------

  /** All three are attempted, and each may fail; a loss of power between them is
      the failure of those that follow. */
  function AfterFlagWrites(d: Device, i: SlotId, ok: (bool, bool, bool)): Device {
    var d1 := if ok.0 then Apply(d, i, RetireRunning) else d;
    var d2 := if ok.1 then Apply(d1, i, ClearOther) else d1;
    if ok.2 then Apply(d2, i, PromoteOther) else d2
  }

  // ---- What an update achieves ----------------------------------------------

  /** The device after all three flag writes have succeeded. */
  function PromotedByUpdate(d: Device, i: SlotId): Device {
    Apply(Apply(Apply(d, i, RetireRunning), i, ClearOther), i, PromoteOther)
  }

  lemma UpdateIsSelected(d: Device, i: SlotId)
    requires d.st0.Some? || i == 0
    ensures PromotedByUpdate(d, i).Selected() == Pick(1 - i, false)
  {
    var d' := PromotedByUpdate(d, i);
    assert !IsNewer(d'.St(i).value) && Fresh(Read(d'.St(1 - i)));
  }

  /** After a complete update the next boot chain executes the new image if it
      is genuine and not older than the counter, and otherwise returns to the
      image that was running. */
  lemma UpdateTakesEffectIff(env: Env, d: Device, i: SlotId)
    requires env.Verifying() && Anchor(env, d, i)
    ensures BootChain(env, PromotedByUpdate(d, i)).1 == Jump(if Authentic(env, d, 1 - i) then 1 - i else i)
  {
    var d' := PromotedByUpdate(d, i);
    UpdateIsSelected(d, i);
    if !Authentic(env, d, 1 - i) {
      var b := d'.St(i).value;
      assert VerifiedOk(b) && IaOk(b);
      MarkingFailMovesOn(d'.st0, d'.st1);
      assert BootOnce(env, d').0.Selected() == Pick(i, false);
    }
  }

  // ---- Where the guarantee ends ---------------------------------------------

  /** Without verification the guarantee fails on every working device and for
      every content: after an update the loader executes whatever was written,
      genuine or not. The loader asks for no verification whenever it was not
      itself started by the boot ROM. */
  lemma UnverifiedBootRunsAnything(env: Env, d: Device, i: SlotId, flash: seq<byte>) returns (r: Run)
    requires !env.Verifying() && d.running == Some(i) && d.st0.Some?
    requires OutsideUnchanged(d.flash, flash, 1 - i)
    ensures IsRun(env, r) && r.states[0] == State(d, App(i))
    ensures var last := r.states[|r.steps|]; last.phase == App(1 - i) && last.dev.flash == flash
  {
    var s0 := State(d, App(i));
    var s1 := State(d.(flash := flash), App(i));
    r := Extend(env, Run([s0], []), Scribble(flash), s1);
    var s4 := State(PromotedByUpdate(s1.dev, i), App(i));
    r := Extend(env, r, SetFlags(RetireRunning, true), State(Apply(s1.dev, i, RetireRunning), App(i)));
    r := Extend(env, r, SetFlags(ClearOther, true), State(Apply(Apply(s1.dev, i, RetireRunning), i, ClearOther), App(i)));
    r := Extend(env, r, SetFlags(PromoteOther, true), s4);
    var s5 := s4.(phase := Off);
    r := Extend(env, r, Reboot, s5);
    UpdateIsSelected(s1.dev, i);
    r := Extend(env, r, Step.Select, s5.(phase := Chosen(1 - i)));
    var s7 := s5.(phase := Accepted(1 - i));
    r := Extend(env, r, Step.Validate, s7);
    var s8 := State(s7.dev.Flagged(1 - i, VERIFY_MASK, VERIFY_OK), Marked(1 - i));
    r := Extend(env, r, MarkOk, s8);
    r := Extend(env, r, SetRunning, State(s8.dev.(running := Some((1 - i) as SlotId)), App(1 - i)));
  }

  /** When slot 1's flags are cleared and not set again, only slot 0 is left. */
  lemma OnlySlotZero(env: Env, d: Device)
    requires env.Verifying() && d.st0.Some? && d.st1.Some? && !Eligible(Read(d.st1))
    ensures BootsGenuine(env, d) <==> Eligible(Read(d.st0)) && Authentic(env, d, 0)
  {
    assert d.Selected() == if Eligible(Read(d.st0)) then Pick(0, false) else NoPick(-5);
    if Eligible(Read(d.st0)) {
      if Authentic(env, d, 0) {
        RecoverableBoots(env, d);
      } else {
        MarkingFailMovesOn(d.st0, d.st1);
        var d' := BootOnce(env, d).0;
        assert d'.Selected() == NoPick(-5);
        assert BootChain(env, d') == (d', NoImage(-5));
        assert BootChain(env, d).1 == NoImage(-5);
      }
    } else {
      assert BootChain(env, d) == (d, NoImage(-5));
    }
  }

  /** The first write leaves slot 0 as a fallback exactly if it was confirmed. */
  lemma RetiredIsEligibleIff(st: Option<bv8>)
    requires st.Some?
    ensures Eligible(Read(SetFlag(st, IA_MASK | NEWER_MASK, IA_OK | OLDER))) <==> VerifiedOk(st.value)
  {
    var b := SetFlag(st, IA_MASK | NEWER_MASK, IA_OK | OLDER).value;
    assert IaOk(b) && !IsNewer(b) && VerifiedOk(b) == VerifiedOk(st.value);
  }

  /** Slot 1 after the second and the third write. */
  lemma SwitchedIsEligibleIff(st: Option<bv8>, clear: bool, promote: bool)
    requires st.Some? && VerifiedOk(st.value) && !IaBad(st.value) && (IsNewer(st.value) || IaOk(st.value))
    ensures var st1 := if clear then SetFlag(st, IA_MASK | VERIFY_MASK | NEWER_MASK, 0) else st;
            var st2 := if promote then SetFlag(st1, NEWER_MASK, NEWER) else st1;
            Eligible(Read(st2)) <==> !(clear && !promote)
  {
  }

  /** The shell's image switch ignores a failed read of the running index and
      then acts as if image 0 were running. When image 1 is the one running, its
      second write removes the flags the device stands on. Whichever writes
      succeed, the device survives exactly unless that write took effect without
      the third one and image 0 cannot be booted instead. */
  lemma MisreadSwitchSurvivesIff(env: Env, d: Device, ok: (bool, bool, bool))
    requires env.Verifying() && Anchor(env, d, 1)
    ensures BootsGenuine(env, AfterFlagWrites(d, 0, ok)) <==>
              (ok.1 && !ok.2 ==>
                 Authentic(env, d, 0) && if ok.0 then VerifiedOk(d.st0.value) else Eligible(Read(d.st0)))
  {
    var d' := AfterFlagWrites(d, 0, ok);
    RetiredIsEligibleIff(d.st0);
    SwitchedIsEligibleIff(d.st1, ok.1, ok.2);
    if ok.1 && !ok.2 {
      OnlySlotZero(env, d');
    } else {
      assert Eligible(Read(d'.st1)) && Authentic(env, d', 1);
      RecoverableBoots(env, d');
    }
  }

  /** The condition fails on an ordinary device: one that was updated from image 0
      to a newer image 1. A misread switch cut short after its second write
      leaves it with nothing to boot. */
  lemma MisreadSwitchStrands(env: Env, d: Device, version: nat)
    requires env.Verifying() && Anchor(env, d, 0)
    requires env.Check(Contents(d.flash, 1)) == Some(version) && version > d.counter
    ensures var updated := BootChain(env, PromotedByUpdate(d, 0)).0;
            && Anchor(env, updated, 1) && updated.running == Some(1)
            && !BootsGenuine(env, AfterFlagWrites(updated, 0, (true, true, false)))
  {
    var promoted := PromotedByUpdate(d, 0);
    var updated := BootChain(env, promoted).0;
    UpdateIsSelected(d, 0);
    UpdateTakesEffectIff(env, d, 0);
    assert Authentic(env, promoted, 1);
    RecoverableBoots(env, promoted);
    assert BootsGenuine(env, promoted);
    MisreadSwitchSurvivesIff(env, updated, (true, true, false));
  }
}
