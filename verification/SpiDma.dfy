/** The SPI slave's transfers: a task arms two DMA channels and waits on a
    semaphore that the two completion interrupts release together. */
module SpiDma {
  import opened Common

  datatype Stat = Idle | AtRecv | AtAck | DataRecv | DataAck | FileRecv | FileAck | FileDone

  datatype Dir = TxDir | RxDir

  /** A DMA channel: bytes left, and its full-transfer flag. */
  datatype Channel = Channel(left: nat, ftf: bool) {
    /** Completed and serviced: nothing more will come from it. */
    predicate Quiet() { left == 0 && !ftf }
  }

  /** What the task is doing: nothing, configuring a transfer, or waiting for it. */
  datatype Task = Free | Arming(send: bool) | Waiting(send: bool)

  /** `sending` says that the command in the receive buffer is CIPSEND or CIPSDFILE;
      `raised` counts the releases of the semaphore since the last transfer was begun. */
  datatype Spi = Spi(stat: Stat, dir: Dir, rxDone: bool, txDone: bool, rx: Channel, tx: Channel,
                     sema: nat, cmdReceived: bool, sending: bool, task: Task, raised: nat)

  const ATCMD_FIXED_LEN := 128

  function Configured(s: Spi, n: nat): Spi {
    s.(rx := Channel(n, false), tx := Channel(n, false))
  }

  /** `at_spi_rcv_atcmd_config`. */
  function ArmedForCommand(s: Spi): Spi {
    Configured(s.(cmdReceived := false, sending := false, dir := RxDir, stat := AtRecv), ATCMD_FIXED_LEN)
  }

  /** `at_spi_reconfig_from_isr`. */
  function Reconfigured(s: Spi): Spi {
    if s.dir.RxDir? then
      if !s.rxDone then s
      else
        var s1 := s.(rxDone := false, txDone := false);
        if (s.stat.DataRecv? || s.stat.FileRecv?) && s.rx.left == 0 then s1.(sema := s.sema + 1, raised := s.raised + 1)
        else if s.stat.AtRecv? then s1.(stat := AtAck, cmdReceived := true)
        else s1
    else if !s.rxDone || !s.txDone then s
    else
      var s1 := s.(rxDone := false, txDone := false, sema := s.sema + 1, raised := s.raised + 1);
      if s.stat.FileDone? then ArmedForCommand(s1)
      else if (s.stat.AtAck? && !s.sending) || s.stat.DataAck? then s1.(rx := s1.rx.(ftf := false))
      else s1
  }

  /** `at_spi_rx_dma_irq_hdl` and `at_spi_tx_dma_irq_hdl`. */
  function AfterIrq(s: Spi, isRx: bool): Spi {
    if isRx then
      Reconfigured(if s.rx.ftf then s.(rx := s.rx.(ftf := false), rxDone := s.rxDone || s.rx.left == 0) else s)
    else
      Reconfigured(if s.tx.ftf then s.(tx := s.tx.(ftf := false), txDone := s.txDone || s.tx.left == 0) else s)
  }

  /** The state a response is sent in. */
  function AckStat(stat: Stat): Stat {
    match stat
    case AtRecv => AtAck
    case DataRecv => DataAck
    case FileRecv => FileAck
    case Idle => AtAck
    case _ => stat
  }

  datatype Step =
    | BeginSend                            // flags cleared, direction set
    | BeginReceive(stat: Stat)             // direction set
    | Config(n: nat)                       // channels armed, master notified
    | Wake                                 // semaphore taken
    | ListenForCommand                     // back to receiving commands
    | Clock(isRx: bool, k: nat)            // the master clocks bytes
    | Fill(sending: bool)                  // the receive buffer changes
    | Spurious(isRx: bool)                 // flag set with bytes left
    | Irq(isRx: bool)                      // a handler runs, with or without its flag

  function Clocked(c: Channel, k: nat): Channel
    requires k <= c.left
  {
    Channel(c.left - k, c.ftf || c.left == k)
  }

  ghost predicate Next(s: Spi, step: Step, s': Spi) {
    match step
    case BeginSend =>
      && s.task.Free?
      && s' == s.(stat := AckStat(s.stat), rxDone := false, txDone := false, dir := TxDir, task := Arming(true), raised := 0)
    case BeginReceive(stat) =>
      && s.task.Free? && (stat.DataRecv? || stat.FileRecv?)
      && s' == s.(stat := stat, dir := RxDir, task := Arming(false), raised := 0)
    case Config(n) => s.task.Arming? && n > 0 && s' == Configured(s, n).(task := Waiting(s.task.send))
    case Wake => s.task.Waiting? && s.sema > 0 && s' == s.(sema := s.sema - 1, task := Free)
    case ListenForCommand => s.task.Free? && s' == ArmedForCommand(s.(rxDone := false, txDone := false))
    case Clock(isRx, k) =>
      var c := if isRx then s.rx else s.tx;
      && 0 < k <= c.left
      && s' == if isRx then s.(rx := Clocked(c, k)) else s.(tx := Clocked(c, k))
    case Fill(sending) => s' == s.(sending := sending)
    case Spurious(isRx) =>
      && (if isRx then s.rx else s.tx).left > 0
      && s' == if isRx then s.(rx := s.rx.(ftf := true)) else s.(tx := s.tx.(ftf := true))
    case Irq(isRx) => s' == AfterIrq(s, isRx)
  }

  predicate Begins(step: Step) { step.BeginSend? || step.BeginReceive? }

  /** No transfer is begun while a channel it joins on can still interrupt. */
  predicate QuietBegin(s: Spi, step: Step) {
    (Begins(step) ==> s.rx.Quiet()) && (step.BeginSend? ==> s.tx.Quiet())
  }

  // ---- The invariant ---------------------------------------------------------------

  predicate Inv(s: Spi) {
    && (s.dir.RxDir? ==> !s.rxDone)
    && match s.task
       case Free =>
         && s.sema == 0 && (s.dir.TxDir? ==> s.rx.Quiet() && s.tx.Quiet() && !s.rxDone && !s.txDone)
         && (s.dir.RxDir? && (s.stat.DataRecv? || s.stat.FileRecv?) ==> s.rx.Quiet())
       case Arming(send) =>
         && s.sema == 0 && s.raised == 0 && s.rx.Quiet() && !s.rxDone
         && (if send then s.dir.TxDir? && s.tx.Quiet() && !s.txDone else s.dir.RxDir? && (s.stat.DataRecv? || s.stat.FileRecv?))
       case Waiting(send) =>
         && s.sema == s.raised <= 1
         && (s.raised == 0 ==> if send then SendPending(s) else ReceivePending(s))
         && (s.raised == 1 && send && s.dir.TxDir? ==> s.rx.Quiet() && s.tx.Quiet() && !s.rxDone && !s.txDone)
         && (s.raised == 1 && s.dir.RxDir? && (s.stat.DataRecv? || s.stat.FileRecv?) ==> s.rx.Quiet())
         && (s.raised == 1 && !send ==> s.dir.RxDir? && (s.stat.DataRecv? || s.stat.FileRecv?))
  }

  /** A done flag stands for a channel that has completed and been serviced; the
      two never stand together, for then the semaphore has been released. */
  predicate SendPending(s: Spi) {
    && s.dir.TxDir? && s.rxDone == s.rx.Quiet() && s.txDone == s.tx.Quiet() && !(s.rxDone && s.txDone)
  }

  predicate ReceivePending(s: Spi) {
    s.dir.RxDir? && (s.stat.DataRecv? || s.stat.FileRecv?) && !s.rx.Quiet()
  }

  lemma RxIrqKeepsInv(s: Spi)
    requires Inv(s)
    ensures Inv(AfterIrq(s, true))
  {
  }

  lemma TxIrqKeepsInv(s: Spi)
    requires Inv(s)
    ensures Inv(AfterIrq(s, false))
  {
  }

  lemma StepKeepsInv(s: Spi, step: Step, s': Spi)
    requires Inv(s) && Next(s, step, s') && QuietBegin(s, step)
    ensures Inv(s')
  {
    if step.Irq? {
      RxIrqKeepsInv(s);
      TxIrqKeepsInv(s);
    }
  }

  /** A release in this state is right: the task waits, it is the first for the
      transfer, and the channels it joins on have moved all their bytes. */
  predicate Joined(s: Spi) {
    s.task.Waiting? && s.raised == 0 && s.rx.left == 0 && (s.task.send ==> s.tx.left == 0)
  }

  lemma ReleaseOnlyWhenComplete(s: Spi, step: Step, s': Spi)
    requires Inv(s) && Next(s, step, s') && s'.sema > s.sema
    ensures step.Irq? && s'.raised == 1 && Joined(s)
  {
  }

  /** A completed command is recorded, and nobody is woken for it. */
  lemma CommandIsReceived(s: Spi)
    requires s.dir.RxDir? && s.stat.AtRecv? && s.rx == Channel(0, true)
    ensures AfterIrq(s, true) == s.(rx := Channel(0, false), stat := AtAck, cmdReceived := true, rxDone := false, txDone := false)
  {
  }

  /** A completed receive wakes its task. */
  lemma ReceiveIsReleased(s: Spi)
    requires s.dir.RxDir? && (s.stat.DataRecv? || s.stat.FileRecv?) && s.rx == Channel(0, true)
    ensures AfterIrq(s, true)
         == s.(rx := Channel(0, false), rxDone := false, txDone := false, sema := s.sema + 1, raised := s.raised + 1)
  {
  }

  /** A send is released by whichever channel completes last; after the last block
      of a file both channels are armed for a command again. */
  lemma SendIsReleased(s: Spi, isRx: bool)
    requires s.dir.TxDir? && (if isRx then s.rx == Channel(0, true) && s.txDone else s.tx == Channel(0, true) && s.rxDone)
    ensures var s' := AfterIrq(s, isRx);
            && s'.sema == s.sema + 1 && s'.raised == s.raised + 1 && !s'.rxDone && !s'.txDone
            && if s.stat.FileDone?
               then s'.stat.AtRecv? && s'.dir.RxDir? && !s'.cmdReceived && !s'.sending
                    && s'.rx == s'.tx == Channel(128, false)
               else s'.stat == s.stat && s'.dir == s.dir && s'.cmdReceived == s.cmdReceived
                    && s'.rx.left == s.rx.left && s'.tx.left == s.tx.left
  {
  }

  /** An interrupt that completes nothing changes nothing but its own flag. */
  lemma OtherIrqsOnlyClear(s: Spi, isRx: bool)
    requires !s.rxDone && (isRx ==> !(s.rx.ftf && s.rx.left == 0)) && !(s.tx.ftf && s.tx.left == 0)
    ensures AfterIrq(s, isRx) == if isRx then s.(rx := s.rx.(ftf := false)) else s.(tx := s.tx.(ftf := false))
  {
  }

  /** Listening for a command: both channels armed for 128 bytes, nothing pending. */
  lemma ListensForCommand(s: Spi, s': Spi)
    requires Next(s, ListenForCommand, s')
    ensures s'.stat.AtRecv? && s'.dir.RxDir? && !s'.cmdReceived && !s'.rxDone && !s'.txDone
    ensures s'.rx == s'.tx == Channel(128, false) && s'.sema == s.sema
  {
  }

  /** A response is sent in the acknowledging state of what was received. */
  lemma SendsInAckState(s: Spi, s': Spi)
    requires Next(s, BeginSend, s')
    ensures s.stat.AtRecv? || s.stat.Idle? ==> s'.stat.AtAck?
    ensures s.stat.DataRecv? ==> s'.stat.DataAck?
    ensures s.stat.FileRecv? ==> s'.stat.FileAck?
    ensures !(s.stat.AtRecv? || s.stat.Idle? || s.stat.DataRecv? || s.stat.FileRecv?) ==> s'.stat == s.stat
  {
  }

  // ---- Runs --------------------------------------------------------------------------

  datatype Run = Run(states: seq<Spi>, steps: seq<Step>)

  ghost predicate IsRun(r: Run) {
    && |r.states| == |r.steps| + 1
    && forall k :: 0 <= k < |r.steps| ==> Next(r.states[k], r.steps[k], r.states[k + 1])
  }

  predicate Initial(s: Spi) {
    s.task.Free? && s.sema == 0 && !s.rxDone && !s.txDone && s.rx.Quiet() && s.tx.Quiet()
  }

  /** The k-th step releases the semaphore wrongly. */
  predicate WrongAt(r: Run, k: nat) {
    k < |r.steps| && k + 1 < |r.states| && r.states[k + 1].sema > r.states[k].sema && !Joined(r.states[k])
  }

  /** Every release of the semaphore in the run is right. */
  ghost predicate JoinsRight(r: Run) {
    forall k: nat :: !WrongAt(r, k)
  }

  lemma {:induction false} RunKeepsInv(r: Run, k: nat)
    requires IsRun(r) && k < |r.states| && Inv(r.states[0])
    requires forall n :: 0 <= n < |r.steps| ==> QuietBegin(r.states[n], r.steps[n])
    ensures Inv(r.states[k])
  {
    if k > 0 {
      RunKeepsInv(r, k - 1);
      StepKeepsInv(r.states[k - 1], r.steps[k - 1], r.states[k]);
    }
  }

  lemma InvJoinsRight(r: Run)
    requires IsRun(r) && Inv(r.states[0])
    requires forall n :: 0 <= n < |r.steps| ==> QuietBegin(r.states[n], r.steps[n])
    ensures JoinsRight(r)
  {
    forall k: nat
      ensures !WrongAt(r, k)
    {
      if k < |r.steps| && r.states[k + 1].sema > r.states[k].sema {
        RunKeepsInv(r, k);
        ReleaseOnlyWhenComplete(r.states[k], r.steps[k], r.states[k + 1]);
      }
    }
  }

  /** In every interleaving of the task and the two interrupts, the semaphore is
      released at most once for each transfer, and only when the bytes of both
      channels (send) or of the receive channel (receive) have all moved. */
  lemma JoinGuarantee(r: Run)
    requires IsRun(r) && Initial(r.states[0])
    requires forall n :: 0 <= n < |r.steps| ==> QuietBegin(r.states[n], r.steps[n])
    ensures JoinsRight(r)
    ensures forall k :: 0 <= k < |r.states| && r.states[k].task.Waiting? ==> r.states[k].raised <= 1
    // No wake-up is lost: when the last interrupt has been served it is there.
    ensures forall k :: 0 <= k < |r.states| && Served(r.states[k]) ==> r.states[k].sema == 1
  {
    InvJoinsRight(r);
    forall k | 0 <= k < |r.states| && r.states[k].task.Waiting?
      ensures r.states[k].raised <= 1 && (Served(r.states[k]) ==> r.states[k].sema == 1)
    {
      RunKeepsInv(r, k);
    }
  }

  /** The task waits, and the channels it waits for have completed and been served. */
  predicate Served(s: Spi) {
    s.task.Waiting? && s.rx.Quiet() && (s.task.send ==> s.tx.Quiet())
  }

  // ---- The quietness is needed ---------------------------------------------------------

  /** A run that starts by beginning a transfer, all later ones begun quietly. */
  ghost predicate Starts(r: Run, s: Spi, begin: Step) {
    && IsRun(r) && r.steps != [] && r.states[0] == s && r.steps[0] == begin
    && forall n :: 1 <= n < |r.steps| ==> QuietBegin(r.states[n], r.steps[n])
  }

  function Last(r: Run): Spi
    requires r.states != []
  {
    r.states[|r.states| - 1]
  }

  lemma Go(r: Run, s: Spi, begin: Step, step: Step, s': Spi) returns (r': Run)
    requires Starts(r, s, begin) && Next(Last(r), step, s') && !Begins(step)
    ensures Starts(r', s, begin) && Last(r') == s'
    ensures s'.sema > Last(r).sema && !Joined(Last(r)) ==> !JoinsRight(r')
  {
    r' := Run(r.states + [s'], r.steps + [step]);
    if s'.sema > Last(r).sema && !Joined(Last(r)) {
      assert WrongAt(r', |r.steps|);
    }
  }

  /** What is left of an earlier transfer on one channel moves, up to its interrupt. */
  lemma DrainOld(r: Run, s: Spi, begin: Step, isRx: bool) returns (r': Run)
    requires Starts(r, s, begin) && !(if isRx then Last(r).rx else Last(r).tx).Quiet()
    ensures Starts(r', s, begin)
    ensures var a := Last(r);
            Last(r') == if isRx then a.(rx := Channel(0, true)) else a.(tx := Channel(0, true))
  {
    var a := Last(r);
    var c := if isRx then a.rx else a.tx;
    r' := r;
    if c.left > 0 {
      r' := Go(r, s, begin, Clock(isRx, c.left), if isRx then a.(rx := Clocked(c, c.left)) else a.(tx := Clocked(c, c.left)));
    }
  }

  /** A stale completion of one channel is taken for the new one's: the send is
      released by the other channel alone. */
  lemma UnquietSend(s: Spi, isRx: bool) returns (r: Run)
    requires Inv(s) && s.task.Free? && !(if isRx then s.rx else s.tx).Quiet()
    ensures Starts(r, s, BeginSend) && !JoinsRight(r)
  {
    var begin := BeginSend;
    var a := s.(stat := AckStat(s.stat), rxDone := false, txDone := false, dir := TxDir, task := Arming(true), raised := 0);
    r := Run([s, a], [begin]);
    r := DrainOld(r, s, begin, isRx);
    r := Go(r, s, begin, Irq(isRx), AfterIrq(Last(r), isRx));
    r := Go(r, s, begin, Config(1), Configured(Last(r), 1).(task := Waiting(true)));
    var b := Last(r);
    r := Go(r, s, begin, Clock(!isRx, 1), if isRx then b.(tx := Clocked(b.tx, 1)) else b.(rx := Clocked(b.rx, 1)));
    r := Go(r, s, begin, Irq(!isRx), AfterIrq(Last(r), !isRx));
  }

  /** A stale completion of the receive channel releases a task that has not even
      configured its transfer. */
  lemma UnquietReceive(s: Spi, stat: Stat) returns (r: Run)
    requires Inv(s) && s.task.Free? && !s.rx.Quiet() && (stat.DataRecv? || stat.FileRecv?)
    ensures Starts(r, s, BeginReceive(stat)) && !JoinsRight(r)
  {
    var begin := BeginReceive(stat);
    r := Run([s, s.(stat := stat, dir := RxDir, task := Arming(false), raised := 0)], [begin]);
    r := DrainOld(r, s, begin, true);
    r := Go(r, s, begin, Irq(true), AfterIrq(Last(r), true));
  }

  /** The exact condition: a transfer is joined rightly in every continuation if and
      only if the channels it joins on are quiet when it is begun, both for a send
      and the receive channel for a receive. */
  lemma JoinsRightIff(s: Spi, begin: Step, s': Spi)
    requires Inv(s) && Begins(begin) && Next(s, begin, s')
    ensures (forall r :: Starts(r, s, begin) ==> JoinsRight(r)) <==> QuietBegin(s, begin)
  {
    if QuietBegin(s, begin) {
      forall r | Starts(r, s, begin)
        ensures JoinsRight(r)
      {
        InvJoinsRight(r);
      }
    } else if begin.BeginReceive? {
      var r := UnquietReceive(s, begin.stat);
    } else {
      var r := UnquietSend(s, !s.rx.Quiet());
    }
  }

  lemma PrependIsRun(s: Spi, step: Step, r: Run)
    requires IsRun(r) && Next(s, step, r.states[0])
    ensures IsRun(Run([s] + r.states, [step] + r.steps))
  {
    var r' := Run([s] + r.states, [step] + r.steps);
    forall k | 0 <= k < |r'.steps|
      ensures Next(r'.states[k], r'.steps[k], r'.states[k + 1])
    {
      if k > 0 { assert Next(r.states[k - 1], r.steps[k - 1], r.states[k]); }
    }
  }

  lemma Prepend(s: Spi, step: Step, r: Run)
    requires !JoinsRight(r)
    ensures !JoinsRight(Run([s] + r.states, [step] + r.steps))
  {
    var k: nat :| WrongAt(r, k);
    assert WrongAt(Run([s] + r.states, [step] + r.steps), k + 1);
  }

  /** The unquiet case arises as soon as a command is listened for. */
  lemma EarlyWakeIsReached(s: Spi) returns (r: Run)
    requires Initial(s)
    ensures IsRun(r) && r.states[0] == s && !JoinsRight(r)
  {
    var a := ArmedForCommand(s.(rxDone := false, txDone := false));
    var r' := UnquietSend(a, true);
    PrependIsRun(s, ListenForCommand, r');
    Prepend(s, ListenForCommand, r');
    r := Run([s] + r'.states, [ListenForCommand] + r'.steps);
  }

  // ---- The handlers as written ---------------------------------------------------------

  class SpiManager {
    var stat: Stat
    var direction: Dir
    var rxDmaDone: bool
    var txDmaDone: bool
    var rx: Channel
    var tx: Channel
    var sema: nat
    var cmdReceived: bool
    var sending: bool
    ghost var task: Task
    ghost var raised: nat

    ghost function State(): Spi
      reads this
    {
      Spi(stat, direction, rxDmaDone, txDmaDone, rx, tx, sema, cmdReceived, sending, task, raised)
    }

    constructor (s: Spi)
      ensures State() == s
    {
      stat, direction, rxDmaDone, txDmaDone := s.stat, s.dir, s.rxDone, s.txDone;
      rx, tx, sema, cmdReceived, sending, task, raised := s.rx, s.tx, s.sema, s.cmdReceived, s.sending, s.task, s.raised;
    }

    method RcvAtcmdConfig()
      modifies this
      ensures State() == ArmedForCommand(old(State()))
    {
      cmdReceived, sending := false, false;  // the receive buffer is cleared
      if direction != RxDir {
        direction := RxDir;
      }
      if stat != AtRecv {
        stat := AtRecv;
      }
      rx, tx := Channel(ATCMD_FIXED_LEN, false), Channel(ATCMD_FIXED_LEN, false);
    }

    method ReconfigFromIsr()
      modifies this
      ensures State() == Reconfigured(old(State()))
    {
      if direction == RxDir {
        if !rxDmaDone {
          return;
        }
      } else {
        if !rxDmaDone || !txDmaDone {
          return;
        }
      }
      if direction == TxDir && txDmaDone {
        rxDmaDone := false;
      }
      if direction == RxDir {
        txDmaDone := false;
        rxDmaDone := false;
        if stat == DataRecv || stat == FileRecv {
          if rx.left == 0 {
            sema, raised := sema + 1, raised + 1;
          }
          return;
        }
        if stat == AtRecv {
          stat := AtAck;
          cmdReceived := true;
          return;
        }
      } else {
        txDmaDone := false;
        sema, raised := sema + 1, raised + 1;
        if stat == FileAck || (stat == AtAck && sending) {
          return;
        }
        if stat == FileDone {
          rx := rx.(ftf := false);
          RcvAtcmdConfig();
        } else if stat == AtAck || stat == DataAck {
          rx := rx.(ftf := false);
        }
      }
    }

    method TxDmaIrq()
      modifies this
      ensures State() == AfterIrq(old(State()), false)
    {
      if tx.ftf {
        tx := tx.(ftf := false);
        if tx.left == 0 {
          txDmaDone := true;
        }
      }
      ReconfigFromIsr();
    }

    method RxDmaIrq()
      modifies this
      ensures State() == AfterIrq(old(State()), true)
    {
      if rx.ftf {
        rx := rx.(ftf := false);
        if rx.left == 0 {
          rxDmaDone := true;
        }
      }
      ReconfigFromIsr();
    }
  }
}
