/** What the receive queue's machine can do: the runs that show where its
    guarantees end, and the exact conditions under which they hold. */
module CipRuns {
  import opened Common
  import opened CipTable
  import opened CipMachine

  // ---- Building runs ----------------------------------------------------------------

  function Then(r: Run, step: Step, s: Sys): Run {
    Run(r.states + [s], r.steps + [step])
  }

  function Last(r: Run): Sys
    requires r.states != []
  {
    r.states[|r.states| - 1]
  }

  /** A run followed by one more step. */
  lemma Go(r: Run, step: Step, s: Sys) returns (r': Run)
    requires IsRun(r) && Inv(Last(r)) && Next(Last(r), step, s)
    ensures IsRun(r') && r'.states[0] == r.states[0] && Last(r') == s && Inv(s)
    ensures r' == Then(r, step, s)
  {
    r' := Then(r, step, s);
    StepKeepsInv(Last(r), step, s);
  }

  // ---- Pulses -----------------------------------------------------------------------

  /** A CIPRECVDATA command is taken. */
  predicate IsCommand(step: Step) { step.Pop? || step.Refuse? }

  /** The run starts with a command and takes no other. */
  ghost predicate OneCommand(r: Run) {
    IsRun(r) && r.steps != [] && IsCommand(r.steps[0]) && forall n :: 1 <= n < |r.steps| ==> !IsCommand(r.steps[n])
  }

  /** The master sends a command only when it has seen a pulse since its last one. */
  predicate Prompted(s: Sys, step: Step) { IsCommand(step) ==> s.pulses > 0 }

  /** A command taken with the trigger set: no pulse until the response is out. */
  predicate Calm(s: Sys) {
    if s.at.AtIdle? then s.pulses == s.trigger <= 1 else s.pulses == 0 && s.trigger == 1
  }

  lemma CalmStep(s: Sys, step: Step, s': Sys)
    requires Calm(s) && Next(s, step, s') && Prompted(s, step)
    ensures Calm(s')
    ensures s'.pulses > s.pulses ==> s.pulses == 0 && s.list != [] && s.spi == Spi(AtRecv, 0, false)
  {
  }

  /** As long as the master waits for its prompts, at most one pulse is raised
      between two commands, with data queued and the SPI manager idle in
      AT-receive. */
  lemma {:induction false} PulseGuarantee(r: Run, k: nat)
    requires IsRun(r) && Initial(r.states[0]) && k < |r.states|
    requires forall n :: 0 <= n < |r.steps| ==> Prompted(r.states[n], r.steps[n])
    ensures Calm(r.states[k]) && r.states[k].pulses <= 1
    ensures k < |r.steps| && r.states[k + 1].pulses > r.states[k].pulses ==>
              r.states[k].pulses == 0 && r.states[k].list != [] && r.states[k].spi == Spi(AtRecv, 0, false)
  {
    if k > 0 {
      PulseGuarantee(r, k - 1);
      CalmStep(r.states[k - 1], r.steps[k - 1], r.states[k]);
    }
    if k < |r.steps| { CalmStep(r.states[k], r.steps[k], r.states[k + 1]); }
  }

  /** A notifier raises a pulse, and sets the trigger, exactly when data is queued,
      the trigger is clear and the SPI manager listens with nothing received; it
      changes nothing else. */
  lemma PulseRaisedIff(s: Sys, s': Sys)
    requires Next(s, Notify, s')
    ensures s'.pulses == s.pulses + 1 <==> s.list != [] && s.trigger == 0 && s.spi == Spi(AtRecv, 0, false)
    ensures s' == s || s' == s.(trigger := 1, pulses := s.pulses + 1)
  {
  }

  /** No second pulse when the trigger was set as the command was taken. */
  lemma {:induction false} TriggeredStaysCalm(r: Run, k: nat)
    requires OneCommand(r) && r.states[0].at.AtIdle? && r.states[0].trigger == 1 && 1 <= k < |r.states|
    ensures Calm(r.states[k])
  {
    if k > 1 {
      TriggeredStaysCalm(r, k - 1);
      CalmStep(r.states[k - 1], r.steps[k - 1], r.states[k]);
    } else {
      assert Next(r.states[0], r.steps[0], r.states[1]);
    }
  }

  lemma GoOn(r: Run, step: Step, s: Sys) returns (r': Run)
    requires OneCommand(r) && Inv(Last(r)) && Next(Last(r), step, s) && !IsCommand(step)
    ensures OneCommand(r') && r'.states[0] == r.states[0] && r'.steps[0] == r.steps[0] && Last(r') == s && Inv(s)
  {
    r' := Go(r, step, s);
  }

  /** The receive task is back between two reads, or about to queue something. */
  lemma BackToScanning(r: Run) returns (r': Run)
    requires OneCommand(r) && Inv(Last(r)) && !Last(r).at.AtHand?
    ensures OneCommand(r') && r'.states[0] == r.states[0] && r'.steps[0] == r.steps[0] && Inv(Last(r'))
    ensures var s, s' := Last(r), Last(r');
            && (s'.recv.Scanning? || s'.recv.Pushing?)
            && s'.at == s.at && s'.trigger == s.trigger && s'.pulses == s.pulses
  {
    var s := Last(r);
    match s.recv {
      case Admitted => r' := GoOn(r, Leave, s.(recv := Scanning));
      case Closing(i) =>
        LiveOne(s.cli, i);
        r' := GoOn(r, Free(i), Freed(s, i));
      case _ => r' := r;
    }
  }

  lemma LiveOne(cli: seq<Client>, i: nat)
    requires i < |cli| && cli[i].fd >= 0
    ensures Live(cli) > 0
  {
    LiveUpdate(cli, i, VACANT);
  }

  /** Some connection is open. */
  lemma SomeoneOpen(r: Run) returns (r': Run, i: nat)
    requires OneCommand(r) && Inv(Last(r)) && Last(r).recv.Scanning?
    ensures OneCommand(r') && r'.states[0] == r.states[0] && r'.steps[0] == r.steps[0] && Inv(Last(r'))
    ensures var s, s' := Last(r), Last(r');
            && s'.recv.Scanning? && i < |s'.cli| && s'.cli[i].fd >= 0
            && s'.at == s.at && s'.list == s.list && s'.trigger == s.trigger && s'.pulses == s.pulses
  {
    var s := Last(r);
    if j :| 0 <= j < |s.cli| && s.cli[j].fd >= 0 {
      r', i := r, j;
    } else {
      r' := GoOn(r, Open(0, 3), Opened(s, 0, 3));
      i := 0;
    }
  }

  /** From wherever the receive task is, data can be queued. */
  lemma DataArrives(r: Run) returns (r': Run)
    requires OneCommand(r) && Inv(Last(r)) && !Last(r).at.AtHand?
    ensures OneCommand(r') && r'.states[0] == r.states[0] && r'.steps[0] == r.steps[0] && Inv(Last(r'))
    ensures var s, s' := Last(r), Last(r');
            s'.list != [] && s'.at == s.at && s'.trigger == s.trigger && s'.pulses == s.pulses
  {
    r' := BackToScanning(r);
    if Last(r').list == [] {
      if Last(r').recv.Scanning? {
        var i: nat;
        r', i := SomeoneOpen(r');
        var s := Last(r');
        r' := GoOn(r', Guard, s.(recv := Admitted));
        r' := GoOn(r', Receive(i, [0]), Received(Last(r'), s.cli[i].fd, [0]));
      }
      r' := GoOn(r', Push, Pushed(Last(r')));
    }
  }

  /** The response is out and the trigger not yet cleared: a notifier that finds it
      clear raises a pulse, the AT task clears it again, and the notifier raises
      another. */
  lemma TwoPulses(s: Sys, command: Step) returns (r: Run)
    requires Inv(s) && s.at.AtIdle? && s.trigger == 0
    requires IsCommand(command) && (command.Pop? ==> command.want <= AT_SPI_MAX_DATA_LEN)
    ensures OneCommand(r) && r.states[0] == s && r.steps[0] == command && Last(r).pulses == 2
  {
    var s1 := if command.Pop? then Popped(s, command.want) else s.(at := AtReply, pulses := 0);
    r := Go(Run([s], []), command, s1);
    if s1.at.AtHand? {
      r := GoOn(r, Finish, Answered(s1, Served(s1.cli, s1.at.node.fd)));
    }
    r := DataArrives(r);
    r := PulseClearPulse(r);
  }

  lemma PulseClearPulse(r: Run) returns (r': Run)
    requires OneCommand(r) && Inv(Last(r)) && Last(r).at.AtReply? && Last(r).list != []
    requires Last(r).trigger == 0 && Last(r).pulses == 0
    ensures OneCommand(r') && r'.states[0] == r.states[0] && r'.steps[0] == r.steps[0] && Last(r').pulses == 2
  {
    var s := Last(r).(spi := Spi(AtRecv, 0, false));
    r' := GoOn(r, SpiChange(s.spi), s);
    r' := GoOn(r', Notify, s.(trigger := 1, pulses := 1));
    r' := GoOn(r', Done, s.(at := AtIdle, trigger := 0, pulses := 1));
    r' := GoOn(r', Notify, s.(at := AtIdle, trigger := 1, pulses := 2));
  }

  /** Whatever the state, a command is followed by at most one pulse before the
      next exactly when it is taken with the trigger set. */
  lemma OnePulseIff(s: Sys, command: Step)
    requires Inv(s) && s.at.AtIdle?
    requires IsCommand(command) && (command.Pop? ==> command.want <= AT_SPI_MAX_DATA_LEN)
    ensures (forall r :: OneCommand(r) && r.states[0] == s && r.steps[0] == command ==> Last(r).pulses <= 1)
            <==> s.trigger == 1
  {
    if s.trigger == 0 {
      var r := TwoPulses(s, command);
      assert Last(r).pulses > 1;
    } else {
      forall r | OneCommand(r) && r.states[0] == s && r.steps[0] == command
        ensures Last(r).pulses <= 1
      {
        TriggeredStaysCalm(r, |r.states| - 1);
      }
    }
  }

  // ---- A descriptor stored again before it is freed -----------------------------------

  /** From the storing of a connection in entry i on, through clean storings only,
      with that connection still open and its predecessor freed at the end. */
  ghost predicate KeptOpen(r: Run, s: Sys, i: nat, fd: int) {
    && IsRun(r) && r.steps != [] && r.states[0] == s && r.steps[0] == Open(i, fd)
    && (forall n :: 1 <= n < |r.steps| ==> CleanOpen(r.states[n], r.steps[n]))
    && (forall n :: 1 <= n < |r.states| ==> Holding(r.states[n], i, fd))
    && !Reused(Last(r), fd)
  }

  predicate Holding(s: Sys, i: nat, fd: int) {
    i < |s.cli| && s.cli[i] == Client(fd, false)
  }

  lemma {:induction false} CleanRunKeepsBooks(r: Run, k: nat)
    requires IsRun(r) && k < |r.states| && Inv(r.states[0]) && Books(r.states[0])
    requires forall n :: 0 <= n < |r.steps| ==> CleanOpen(r.states[n], r.steps[n])
    ensures Inv(r.states[k]) && Books(r.states[k])
  {
    if k > 0 {
      CleanRunKeepsBooks(r, k - 1);
      StepKeepsInv(r.states[k - 1], r.steps[k - 1], r.states[k]);
      StepKeepsBooks(r.states[k - 1], r.steps[k - 1], r.states[k]);
    }
  }

  /** A run of the same table in which the AT task does all the work. */
  ghost predicate AtOnly(r: Run, s: Sys, i: nat, fd: int) {
    && IsRun(r) && r.steps != [] && r.states[0] == s && r.steps[0] == Open(i, fd)
    && (forall n :: 1 <= n < |r.steps| ==> !r.steps[n].Open?)
    && (forall n :: 1 <= n < |r.states| ==> Holding(r.states[n], i, fd))
    && Inv(Last(r))
  }

  lemma GoAt(r: Run, s: Sys, i: nat, fd: int, step: Step, s': Sys) returns (r': Run)
    requires AtOnly(r, s, i, fd) && Next(Last(r), step, s') && !step.Open? && Holding(s', i, fd)
    ensures AtOnly(r', s, i, fd) && Last(r') == s'
  {
    r' := Go(r, step, s');
  }

  /** One whole command for the front of the list. */
  lemma AnswerFront(r: Run, s: Sys, i: nat, fd: int) returns (r': Run)
    requires AtOnly(r, s, i, fd) && Last(r).at.AtIdle? && Last(r).list != []
    ensures AtOnly(r', s, i, fd)
    ensures var a, b, n := Last(r), Last(r'), Last(r).list[0];
            && b.at.AtIdle? && b.list == a.list[1..] && b.cli == a.cli && b.recv == a.recv && b.read == a.read
            && b.given == if Served(a.cli, n.fd) then a.given[n.fd := Get(a.given, n.fd) + n.data] else a.given
  {
    var a := Last(r);
    assert a.list[0] in a.list;
    var want := AT_SPI_MAX_DATA_LEN;
    r' := GoAt(r, s, i, fd, Pop(want), Popped(a, want));
    var b := Last(r');
    var c := Answered(b, Served(b.cli, b.at.node.fd));
    r' := GoAt(r', s, i, fd, Finish, c);
    r' := GoAt(r', s, i, fd, Done, c.(at := AtIdle, trigger := 0));
  }

  lemma {:induction false} HasNode(list: seq<Node>, fd: int)
    requires Bytes(list, fd) != []
    ensures list != [] && (list[0].fd == fd || Bytes(list[1..], fd) != [])
  {
    if list != [] {
      assert list == [list[0]] + list[1..];
      BytesCons(list[0], list[1..], fd);
    }
  }

  /** The AT task works off the list until it meets a byte of the descriptor. */
  lemma {:induction false} HandOut(r: Run, s: Sys, i: nat, fd: int) returns (r': Run)
    requires AtOnly(r, s, i, fd) && Last(r).at.AtIdle? && Served(Last(r).cli, fd)
    requires Bytes(Last(r).list, fd) != []
    ensures AtOnly(r', s, i, fd) && Last(r').at.AtIdle?
    ensures Last(r').cli == Last(r).cli && Last(r').recv == Last(r).recv && Last(r').read == Last(r).read
    ensures Get(Last(r').given, fd) != []
    decreases |Last(r).list|
  {
    var a := Last(r);
    HasNode(a.list, fd);
    var n := a.list[0];
    assert n in a.list;
    r' := AnswerFront(r, s, i, fd);
    if n.fd != fd {
      r' := HandOut(r', s, i, fd);
    }
  }

  /** An unclean storing ends with bytes of the old connection handed out as the
      new one's, and the new connection has read nothing. */
  lemma Misdelivery(s: Sys, i: nat, fd: int) returns (r: Run)
    requires Inv(s) && i < |s.cli| && Next(s, Open(i, fd), Opened(s, i, fd)) && Holds(s.cli, fd) && !CleanOpen(s, Open(i, fd))
    ensures KeptOpen(r, s, i, fd)
    ensures Get(Last(r).given, fd) != [] && Get(Last(r).read, fd) == [] && !Conserved(Last(r), fd)
  {
    var j :| 0 <= j < |s.cli| && s.cli[j].fd == fd;
    assert s.recv == Closing(j);
    var s1 := Opened(s, i, fd);
    r := Go(Run([s], []), Open(i, fd), s1);
    SplitTransit(s, fd);
    assert Bytes(Hand(s.at), fd) == [];
    r := HandOut(r, s, i, fd);
    var s2 := Last(r);
    LiveOne(s2.cli, j);
    r := GoAt(r, s, i, fd, Free(j), Freed(s2, j));
  }

  /** The exact condition, to be read off the table and the list when the
      connection is stored: in every continuation, once the old entry is freed,
      the new connection's bytes are conserved, if and only if none of the old
      ones is waiting to be handed out under its descriptor. */
  lemma ReuseIff(s: Sys, i: nat, fd: int)
    requires Inv(s) && Books(s) && i < |s.cli| && Next(s, Open(i, fd), Opened(s, i, fd)) && Holds(s.cli, fd)
    ensures (forall r :: KeptOpen(r, s, i, fd) ==> Conserved(Last(r), fd)) <==> CleanOpen(s, Open(i, fd))
  {
    if CleanOpen(s, Open(i, fd)) {
      forall r | KeptOpen(r, s, i, fd)
        ensures Conserved(Last(r), fd)
      {
        CleanRunKeepsBooks(r, |r.states| - 1);
        assert Holding(Last(r), i, fd);
        assert Settled(Last(r), Last(r).cli[i].fd);
      }
    } else {
      var r := Misdelivery(s, i, fd);
      assert !Conserved(Last(r), fd);
    }
  }

  // ---- Runs from the start ---------------------------------------------------------------

  /** One byte is read from entry 0 and queued. */
  lemma OneByte(r: Run) returns (r': Run)
    requires IsRun(r) && Inv(Last(r)) && Last(r).recv.Scanning? && !Last(r).at.AtHand?
    requires |Last(r).list| < 15 && Last(r).cli[0].fd >= 0
    ensures IsRun(r') && r'.states[0] == r.states[0] && Inv(Last(r')) && Last(r').recv.Scanning?
    ensures var s, s' := Last(r), Last(r');
            && s'.list == s.list + [Node(s.cli[0].fd, [0])] && s'.cli == s.cli && s'.at == s.at
            && s'.read == s.read[s.cli[0].fd := Get(s.read, s.cli[0].fd) + [0]] && s'.given == s.given
  {
    var s := Last(r);
    var s1 := s.(recv := Admitted);
    r' := Go(r, Guard, s1);
    var s2 := Received(s1, s.cli[0].fd, [0]);
    r' := Go(r', Receive(0, [0]), s2);
    assert s2.recv.rest[..1] == [0];
    r' := Go(r', Push, Pushed(s2));
  }

  /** A connection is opened and n bytes are queued for it, one by one. */
  lemma {:induction false} Fill(s: Sys, n: nat) returns (r: Run)
    requires Initial(s) && n <= 15
    ensures IsRun(r) && r.states[0] == s && Inv(Last(r))
    ensures var s' := Last(r);
            && |s'.list| == n && (forall x :: x in s'.list ==> x == Node(3, [0]))
            && s'.cli[0] == Client(3, false) && (forall j :: 1 <= j < |s'.cli| ==> s'.cli[j] == VACANT)
            && s'.at.AtIdle? && s'.recv.Scanning? && Get(s'.given, 3) == []
  {
    if n == 0 {
      InitialInv(s);
      r := Go(Run([s], []), Open(0, 3), Opened(s, 0, 3));
    } else {
      var r0 := Fill(s, n - 1);
      r := OneByte(r0);
    }
  }

  /** The bound of 17 is reached from the start: with 15 nodes queued the AT task
      takes one, the guard reads 14 and admits a read that needs two nodes, and
      the AT task pushes its node back. */
  lemma SeventeenIsReached(s: Sys, data: seq<byte>) returns (r: Run)
    requires Initial(s) && AT_SPI_MAX_DATA_LEN < |data| <= RX_LEN
    ensures IsRun(r) && r.states[0] == s && |Last(r).list| == 17
  {
    r := Fill(s, 15);
    var a := Last(r);
    assert a.list[0] in a.list && Served(a.cli, 3);
    var b := Popped(a, 0);
    r := Go(r, Pop(0), b);
    var c := b.(recv := Admitted);
    r := Go(r, Guard, c);
    var d := Received(c, 3, data);
    r := Go(r, Receive(0, data), d);
    var e := Answered(d, true);
    r := Go(r, Finish, e);
    r := Go(r, Push, Pushed(e));
    var f := Last(r);
    r := Go(r, Push, Pushed(f));
  }

  /** A socket is closed with a byte of it still queued, and its number is stored
      again by the AT task before the entry is freed. */
  lemma StoredAgain(s: Sys) returns (r: Run)
    requires Initial(s)
    ensures IsRun(r) && r.states[0] == s && Inv(Last(r))
    ensures var s' := Last(r);
            && s'.at.AtIdle? && s'.list == [Node(3, [0])] && Holding(s', 0, 3) && Holding(s', 1, 3)
            && Get(s'.given, 3) == [] && Get(s'.read, 3) == []
  {
    r := Fill(s, 1);
    var a := Last(r);
    assert a.list[0] in a.list && a.list == [a.list[0]];
    var b := a.(recv := Closing(0));
    r := Go(r, Close(0), b);
    r := Go(r, Open(1, 3), Opened(b, 1, 3));
  }

  /** The master is then given the old byte as the new connection's. */
  lemma MisdeliveryIsReached(s: Sys) returns (r: Run)
    requires Initial(s)
    ensures IsRun(r) && r.states[0] == s
    ensures Holding(Last(r), 1, 3) && Get(Last(r).given, 3) == [0] && Get(Last(r).read, 3) == []
  {
    r := StoredAgain(s);
    var a := Last(r);
    assert Served(a.cli, 3);
    var b := Popped(a, 1);
    r := Go(r, Pop(1), b);
    r := Go(r, Finish, Answered(b, true));
  }
}
