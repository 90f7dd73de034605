/** The receive task, the AT task, the two notifiers and the SPI hardware as
    interleaved atomic steps over the connection table and the receive list. */
module CipMachine {
  import opened Common
  import opened CipTable

  /** The AT task: idle, inside its critical section with a node popped, or
      sending the response. */
  datatype AtTask = AtIdle | AtHand(node: Node, want: nat) | AtReply

  /** The receive task: between reads, past the read guard, queueing what it has
      read, or with a socket closed whose table entry it has not freed yet. */
  datatype RecvTask = Scanning | Admitted | Pushing(fd: int, rest: seq<byte>) | Closing(i: nat)

  datatype SpiStat = Idle | AtRecv | AtAck | DataRecv | DataAck | FileRecv | FileAck | FileDone

  datatype Spi = Spi(stat: SpiStat, received: nat, cmdReceived: bool)

  /** `read` and `given` record, per descriptor, what came from the socket and
      what was handed to the SPI master since the connection was stored. `pulses`
      counts the data-ready pulses since the last CIPRECVDATA command was taken;
      the firmware's own counter is `trigger`, which it clears after the response. */
  datatype Sys = Sys(cli: seq<Client>, cliNum: nat, list: seq<Node>, count: nat,
                     at: AtTask, recv: RecvTask, spi: Spi, trigger: nat, pulses: nat,
                     read: map<int, seq<byte>>, given: map<int, seq<byte>>)

  datatype Step =
    | Guard                          // unlocked read of list_data_count
    | Leave                          // nothing to read after all
    | Receive(i: nat, data: seq<byte>)
    | Push                           // under the lock
    | Drop                           // the list stayed full for the whole wait
    | Pop(want: nat)                 // a command is taken: lock, take the front
    | Refuse                         // one with a length out of range
    | Finish                         // answer or push back, unlock
    | Done                           // response sent, trigger cleared
    | Notify                         // either notifier task
    | SpiChange(spi: Spi)            // master and interrupts
    | Open(i: nat, fd: int)          // either task stores a connection
    | Stop(i: nat)
    | Close(i: nat)                  // the receive task closes a socket
    | Free(i: nat)                   // and frees its entry, under the lock

  /** `at_spi_hw_is_idle`. */
  predicate HwIdle(spi: Spi) {
    spi.received == 0 && (spi.stat.Idle? || (spi.stat.AtRecv? && !spi.cmdReceived))
  }

  function Get(m: map<int, seq<byte>>, fd: int): seq<byte> {
    if fd in m then m[fd] else []
  }

  function First(rest: seq<byte>): nat { Min(|rest|, AT_SPI_MAX_DATA_LEN) }

  function AfterChunk(fd: int, rest: seq<byte>): RecvTask {
    if First(rest) == |rest| then Scanning else Pushing(fd, rest[First(rest)..])
  }

  /** The AT task has answered from the popped node and put back what is left. */
  function Answered(s: Sys, served: bool): Sys
    requires s.at.AtHand?
  {
    var n, want := s.at.node, s.at.want;
    if !served then s.(at := AtReply)
    else if |n.data| <= want then s.(at := AtReply, given := s.given[n.fd := Get(s.given, n.fd) + n.data])
    else s.(at := AtReply, given := s.given[n.fd := Get(s.given, n.fd) + n.data[..want]],
            list := [Node(n.fd, n.data[want..])] + s.list, count := s.count + 1)
  }

  ghost function Received(s: Sys, fd: int, data: seq<byte>): Sys {
    s.(recv := Pushing(fd, data), read := s.read[fd := Get(s.read, fd) + data])
  }

  ghost function Pushed(s: Sys): Sys
    requires s.recv.Pushing?
  {
    s.(list := s.list + [Node(s.recv.fd, s.recv.rest[..First(s.recv.rest)])], count := s.count + 1,
       recv := AfterChunk(s.recv.fd, s.recv.rest))
  }

  /** An empty list leaves the AT task with nothing to answer from. */
  ghost function Popped(s: Sys, want: nat): Sys {
    if s.list == [] then s.(at := AtReply, pulses := 0)
    else s.(at := AtHand(s.list[0], want), list := s.list[1..], count := if s.count > 0 then s.count - 1 else 255,
            pulses := 0)
  }

  ghost function Opened(s: Sys, i: nat, fd: int): Sys
    requires i < |s.cli|
  {
    s.(cli := s.cli[i := Client(fd, false)], cliNum := s.cliNum + 1, read := s.read[fd := []], given := s.given[fd := []])
  }

  ghost function Stopped(s: Sys, i: nat): Sys
    requires i < |s.cli|
  {
    s.(cli := s.cli[i := s.cli[i].(stop := true)])
  }

  ghost function Freed(s: Sys, i: nat): Sys
    requires i < |s.cli| && s.cliNum > 0 && s.count >= |s.list|
  {
    var kept := Without(s.list, s.cli[i].fd);
    s.(cli := s.cli[i := VACANT], cliNum := s.cliNum - 1, recv := Scanning,
       list := kept, count := s.count - (|s.list| - |kept|))
  }

  ghost predicate Next(s: Sys, step: Step, s': Sys) {
    match step
    case Guard =>
      s.recv.Scanning? && s' == if s.count >= MAX_RECV_DATA_NUM_IN_LIST - 5 then s else s.(recv := Admitted)
    case Leave => s.recv.Admitted? && s' == s.(recv := Scanning)
    case Receive(i, data) =>
      && s.recv.Admitted? && i < |s.cli| && s.cli[i].fd >= 0 && 1 <= |data| <= RX_LEN
      && s' == Received(s, s.cli[i].fd, data)
    case Push =>
      s.recv.Pushing? && !s.at.AtHand? && s.count < MAX_RECV_DATA_NUM_IN_LIST && s' == Pushed(s)
    case Drop =>
      s.recv.Pushing? && !s.at.AtHand? && s.count >= MAX_RECV_DATA_NUM_IN_LIST && s' == s.(recv := Scanning)
    case Pop(want) => s.at.AtIdle? && want <= AT_SPI_MAX_DATA_LEN && s' == Popped(s, want)
    case Refuse => s.at.AtIdle? && s' == s.(at := AtReply, pulses := 0)
    case Finish => s.at.AtHand? && s' == Answered(s, Served(s.cli, s.at.node.fd))
    case Done => s.at.AtReply? && s' == s.(at := AtIdle, trigger := 0)
    case Notify =>
      s' == if s.list != [] && HwIdle(s.spi) && s.trigger == 0 && s.spi.stat.AtRecv?
            then s.(trigger := s.trigger + 1, pulses := s.pulses + 1) else s
    case SpiChange(spi) => s' == s.(spi := spi)
    case Open(i, fd) =>
      && (s.at.AtIdle? || s.recv.Scanning?) && i < |s.cli| && s.cli[i].fd < 0 && fd >= 0 && Available(s, fd)
      && s' == Opened(s, i, fd)
    case Stop(i) => i < |s.cli| && s.cli[i].fd >= 0 && s' == Stopped(s, i)
    case Close(i) =>
      && (s.recv.Scanning? || s.recv.Admitted?) && i < |s.cli| && s.cli[i].fd >= 0
      && s' == s.(recv := Closing(i))
    case Free(i) =>
      && (s.recv.Scanning? || s.recv == Closing(i)) && !s.at.AtHand? && i < |s.cli| && s.cli[i].fd >= 0
      && s.cliNum > 0 && s.count >= |s.list| && s' == Freed(s, i)
  }

  /** The network stack hands out a descriptor again once it is closed, even
      though the table entry may still be there. */
  ghost predicate Available(s: Sys, fd: int) {
    forall j :: 0 <= j < |s.cli| && s.cli[j].fd == fd ==> s.recv == Closing(j)
  }

  // ---- The invariant ------------------------------------------------------------

  function Hand(at: AtTask): seq<Node> { if at.AtHand? then [at.node] else [] }

  function Pending(recv: RecvTask): nat {
    match recv
    case Scanning => 0
    case Admitted => 2
    case Pushing(_, rest) => if |rest| <= AT_SPI_MAX_DATA_LEN then 1 else 2
    case Closing(_) => 0
  }

  ghost predicate Counters(s: Sys) {
    && |s.cli| == MAX_CLIENT_NUM && s.cliNum == Live(s.cli)
    && s.count == |s.list|
    && |s.list| + |Hand(s.at)| + Pending(s.recv) <= 17
    && s.trigger <= 1 && s.pulses <= s.trigger + if s.at.AtIdle? then 1 else 0
  }

  ghost predicate GoodNode(cli: seq<Client>, n: Node) {
    n.fd >= 0 && 1 <= |n.data| <= AT_SPI_MAX_DATA_LEN && Holds(cli, n.fd)
  }

  ghost predicate Shape(s: Sys) {
    && (forall n :: n in s.list ==> GoodNode(s.cli, n))
    && (s.at.AtHand? ==> GoodNode(s.cli, s.at.node))
    && (s.recv.Pushing? ==> s.recv.fd >= 0 && 1 <= |s.recv.rest| <= RX_LEN && Holds(s.cli, s.recv.fd))
    && (s.recv.Closing? ==> s.recv.i < |s.cli| && s.cli[s.recv.i].fd >= 0)
    && forall i, j :: 0 <= i < j < |s.cli| && s.cli[i].fd >= 0 && s.cli[i].fd == s.cli[j].fd ==>
         s.recv == Closing(i) || s.recv == Closing(j)
  }

  function InTransit(s: Sys, fd: int): seq<byte> {
    Bytes(Hand(s.at) + s.list, fd) + if s.recv.Pushing? && s.recv.fd == fd then s.recv.rest else []
  }

  /** Delivered, then queued, then not yet queued: together what was read. */
  ghost predicate Conserved(s: Sys, fd: int) {
    Get(s.given, fd) + InTransit(s, fd) == Get(s.read, fd)
  }

  /** What holds in every run. */
  ghost predicate Inv(s: Sys) {
    Counters(s) && Shape(s)
  }

  /** A descriptor stored again while the entry that held it before is not freed. */
  ghost predicate Reused(s: Sys, fd: int) {
    && s.recv.Closing? && s.recv.i < |s.cli| && s.cli[s.recv.i].fd == fd
    && exists k :: 0 <= k < |s.cli| && k != s.recv.i && s.cli[k].fd == fd
  }

  /** The new connection of a reused descriptor has no bytes yet, and none of the
      old ones in transit can be handed out in its name. */
  ghost predicate Untouched(s: Sys, fd: int) {
    Get(s.given, fd) == [] && Get(s.read, fd) == [] && (InTransit(s, fd) == [] || !Served(s.cli, fd))
  }

  ghost predicate Settled(s: Sys, fd: int) {
    if Reused(s, fd) then Untouched(s, fd) else Conserved(s, fd)
  }

  /** Every connection that is open and not being stopped has correct books. */
  ghost predicate Books(s: Sys) {
    forall i :: 0 <= i < |s.cli| && s.cli[i].fd >= 0 && !s.cli[i].stop ==> Settled(s, s.cli[i].fd)
  }

  /** A connection is stored on a descriptor still in the table only if none of
      the old connection's bytes is waiting to be handed out under it. */
  ghost predicate CleanOpen(s: Sys, step: Step) {
    step.Open? && step.i < |s.cli| && Holds(s.cli, step.fd) ==>
      InTransit(s, step.fd) == [] || !Served(s.cli[step.i := Client(step.fd, false)], step.fd)
  }

  lemma QueueStepCounts(s: Sys, want: nat, served: bool)
    requires Counters(s) && Shape(s)
    ensures s.recv.Pushing? ==> Counters(Pushed(s))
    ensures s.at.AtIdle? ==> Counters(Popped(s, want))
    ensures s.at.AtHand? ==> Counters(Answered(s, served))
  {
  }

  lemma TableStepCounts(s: Sys, i: nat, fd: int)
    requires Counters(s) && i < |s.cli|
    ensures s.cli[i].fd < 0 && fd >= 0 ==> Counters(Opened(s, i, fd))
    ensures Counters(Stopped(s, i))
    ensures s.cli[i].fd >= 0 && s.cliNum > 0 && !s.at.AtHand? ==> Counters(Freed(s, i))
  {
    LiveUpdate(s.cli, i, Client(fd, false));
    LiveUpdate(s.cli, i, s.cli[i].(stop := true));
    LiveUpdate(s.cli, i, VACANT);
  }

  lemma CountersKept(s: Sys, step: Step, s': Sys)
    requires Counters(s) && Shape(s) && Next(s, step, s')
    ensures Counters(s')
  {
    match step
    case Open(i, fd) => TableStepCounts(s, i, fd);
    case Stop(i) => TableStepCounts(s, i, 0);
    case Free(i) => TableStepCounts(s, i, 0);
    case Pop(want) => QueueStepCounts(s, want, true);
    case Push => QueueStepCounts(s, 0, true);
    case Finish => QueueStepCounts(s, 0, Served(s.cli, s.at.node.fd));
    case _ =>
  }

  lemma HoldsKept(cli: seq<Client>, i: nat, c: Client, fd: int)
    requires i < |cli| && Holds(cli, fd) && (cli[i].fd != fd || c.fd == fd)
    ensures Holds(cli[i := c], fd)
  {
    var k :| 0 <= k < |cli| && cli[k].fd == fd;
    assert cli[i := c][k].fd == fd;
  }

  /** A table entry changed without losing any descriptor a node carries. */
  lemma TableChangeKeepsNodes(s: Sys, s': Sys, i: nat, c: Client)
    requires Shape(s) && i < |s.cli| && s'.cli == s.cli[i := c]
    requires forall n :: n in s'.list ==> n in s.list && (s.cli[i].fd != n.fd || c.fd == n.fd)
    requires s'.at.AtHand? ==> s'.at == s.at && (s.cli[i].fd != s.at.node.fd || c.fd == s.at.node.fd)
    requires s'.recv.Pushing? ==> s'.recv == s.recv && (s.cli[i].fd != s.recv.fd || c.fd == s.recv.fd)
    ensures forall n :: n in s'.list ==> GoodNode(s'.cli, n)
    ensures s'.at.AtHand? ==> GoodNode(s'.cli, s'.at.node)
    ensures s'.recv.Pushing? ==> Holds(s'.cli, s'.recv.fd)
  {
    forall n | n in s'.list
      ensures GoodNode(s'.cli, n)
    {
      HoldsKept(s.cli, i, c, n.fd);
    }
    if s'.at.AtHand? { HoldsKept(s.cli, i, c, s.at.node.fd); }
    if s'.recv.Pushing? { HoldsKept(s.cli, i, c, s.recv.fd); }
  }

  lemma OpenKeepsShape(s: Sys, i: nat, fd: int)
    requires Shape(s) && i < |s.cli| && s.cli[i].fd < 0 && fd >= 0 && Available(s, fd)
    ensures Shape(Opened(s, i, fd))
  {
    TableChangeKeepsNodes(s, Opened(s, i, fd), i, Client(fd, false));
  }

  lemma StopKeepsShape(s: Sys, i: nat)
    requires Shape(s) && i < |s.cli|
    ensures Shape(Stopped(s, i))
  {
    TableChangeKeepsNodes(s, Stopped(s, i), i, s.cli[i].(stop := true));
  }

  lemma FreeKeepsShape(s: Sys, i: nat)
    requires Shape(s) && !s.at.AtHand? && i < |s.cli| && s.cli[i].fd >= 0 && s.cliNum > 0 && s.count >= |s.list|
    requires s.recv.Scanning? || s.recv == Closing(i)
    ensures Shape(Freed(s, i))
  {
    WithoutMembers(s.list, s.cli[i].fd);
    TableChangeKeepsNodes(s, Freed(s, i), i, VACANT);
  }

  lemma PushKeepsShape(s: Sys)
    requires Shape(s) && s.recv.Pushing?
    ensures Shape(Pushed(s))
  {
  }

  lemma PopKeepsShape(s: Sys, want: nat)
    requires Shape(s)
    ensures Shape(Popped(s, want))
  {
    if s.list != [] { assert s.list[0] in s.list; }
  }

  lemma AnswerKeepsShape(s: Sys)
    requires Shape(s) && s.at.AtHand?
    ensures forall served :: Shape(Answered(s, served))
  {
  }

  lemma ShapeKept(s: Sys, step: Step, s': Sys)
    requires Shape(s) && Next(s, step, s')
    ensures Shape(s')
  {
    match step
    case Open(i, fd) => OpenKeepsShape(s, i, fd);
    case Stop(i) => StopKeepsShape(s, i);
    case Free(i) => FreeKeepsShape(s, i);
    case Push => PushKeepsShape(s);
    case Pop(want) => PopKeepsShape(s, want);
    case Finish => AnswerKeepsShape(s);
    case _ =>
  }

  lemma SplitTransit(s: Sys, fd: int)
    ensures InTransit(s, fd) == Bytes(Hand(s.at), fd) + Bytes(s.list, fd)
                                + if s.recv.Pushing? && s.recv.fd == fd then s.recv.rest else []
  {
    BytesAppend(Hand(s.at), s.list, fd);
  }

  lemma OneNode(n: Node, fd: int)
    ensures Bytes([n], fd) == if n.fd == fd then n.data else []
  {
    assert [n][..0] == [];
  }

  /** The three places of a descriptor's bytes, and their concatenation. */
  lemma Transit(s: Sys, fd: int, h: seq<byte>, l: seq<byte>, q: seq<byte>)
    requires h == Bytes(Hand(s.at), fd) && l == Bytes(s.list, fd)
    requires q == if s.recv.Pushing? && s.recv.fd == fd then s.recv.rest else []
    ensures InTransit(s, fd) == h + l + q
  {
    BytesAppend(Hand(s.at), s.list, fd);
  }

  lemma Regroup(h: seq<byte>, l: seq<byte>, d: seq<byte>, q: seq<byte>)
    ensures h + (l + d) + q == h + l + (d + q)
  {
  }

  lemma BytesSnoc(list: seq<Node>, n: Node, fd: int)
    ensures Bytes(list + [n], fd) == Bytes(list, fd) + if n.fd == fd then n.data else []
  {
    assert (list + [n])[..|list|] == list;
  }

  lemma PushConserves(s: Sys, s': Sys, fd: int)
    requires s.recv.Pushing? && s' == Pushed(s) && Conserved(s, fd)
    ensures Conserved(s', fd)
  {
    var rest := s.recv.rest;
    var d, q := rest[..First(rest)], rest[First(rest)..];
    assert rest == d + q;
    var h, l := Bytes(Hand(s.at), fd), Bytes(s.list, fd);
    BytesSnoc(s.list, Node(s.recv.fd, d), fd);
    if s.recv.fd == fd {
      Transit(s', fd, h, l + d, q);
      Transit(s, fd, h, l, d + q);
      Regroup(h, l, d, q);
    } else {
      Transit(s, fd, h, l, []);
      assert l + [] == l;
      Transit(s', fd, h, l, []);
    }
  }

  lemma PopConserves(s: Sys, s': Sys, want: nat, fd: int)
    requires !s.at.AtHand? && s' == Popped(s, want) && Conserved(s, fd)
    ensures Conserved(s', fd)
  {
    PoppedTransit(s, want);
    SameTransit(s, s', fd);
  }

  lemma FinishLeavesOthers(s: Sys, s': Sys, served: bool, fd: int)
    requires s.at.AtHand? && s' == Answered(s, served) && s.at.node.fd != fd
    ensures InTransit(s', fd) == InTransit(s, fd) && Get(s'.given, fd) == Get(s.given, fd)
  {
    var n, want := s.at.node, s.at.want;
    OneNode(n, fd);
    var l, q := Bytes(s.list, fd), if s.recv.Pushing? && s.recv.fd == fd then s.recv.rest else [];
    Transit(s, fd, [], l, q);
    assert Bytes(s'.list, fd) == l by {
      if served && |n.data| > want {
        BytesCons(Node(n.fd, n.data[want..]), s.list, fd);
        assert [] + l == l;
      }
    }
    Transit(s', fd, [], l, q);
  }

  lemma RegroupGiven(g: seq<byte>, a: seq<byte>, b: seq<byte>, l: seq<byte>, q: seq<byte>)
    ensures (g + a) + ([] + (b + l) + q) == g + ((a + b) + l + q)
  {
  }

  /** The popped node's data is split into what is given and what goes back. */
  lemma Split(s: Sys, s': Sys, a: seq<byte>, b: seq<byte>)
    requires s.at.AtHand? && s' == Answered(s, true)
    requires var cut := Min(|s.at.node.data|, s.at.want); a == s.at.node.data[..cut] && b == s.at.node.data[cut..]
    ensures s.at.node.data == a + b && Get(s'.given, s.at.node.fd) == Get(s.given, s.at.node.fd) + a
    ensures Bytes(s'.list, s.at.node.fd) == b + Bytes(s.list, s.at.node.fd)
  {
    BytesCons(Node(s.at.node.fd, b), s.list, s.at.node.fd);
  }

  lemma FinishConserves(s: Sys, s': Sys)
    requires s.at.AtHand? && s' == Answered(s, true) && Conserved(s, s.at.node.fd)
    ensures Conserved(s', s.at.node.fd)
  {
    var n, fd := s.at.node, s.at.node.fd;
    var cut := Min(|n.data|, s.at.want);
    var a, b := n.data[..cut], n.data[cut..];
    Split(s, s', a, b);
    var g, l := Get(s.given, fd), Bytes(s.list, fd);
    var q := if s.recv.Pushing? && s.recv.fd == fd then s.recv.rest else [];
    OneNode(n, fd);
    Transit(s', fd, [], b + l, q);
    Transit(s, fd, a + b, l, q);
    RegroupGiven(g, a, b, l, q);
  }

  lemma FreeConserves(s: Sys, s': Sys, i: nat, fd: int)
    requires i < |s.cli| && s.cliNum > 0 && s.count >= |s.list| && !s.recv.Pushing? && s' == Freed(s, i)
    requires Conserved(s, fd) && s.cli[i].fd != fd
    ensures Conserved(s', fd)
  {
    SplitTransit(s, fd);
    SplitTransit(s', fd);
    BytesWithout(s.list, s.cli[i].fd, fd);
  }

  lemma ConservedKept(s: Sys, step: Step, s': Sys, fd: int)
    requires Next(s, step, s') && Conserved(s, fd)
    requires !step.Open? && !step.Drop?
    requires step.Free? ==> s.cli[step.i].fd != fd
    requires step.Finish? && s.at.node.fd == fd ==> Served(s.cli, fd)
    ensures Conserved(s', fd)
  {
    match step
    case Push => PushConserves(s, s', fd);
    case Pop(want) => PopConserves(s, s', want, fd);
    case Finish =>
      if s.at.node.fd == fd { FinishConserves(s, s'); } else { FinishLeavesOthers(s, s', Served(s.cli, s.at.node.fd), fd); }
    case Free(i) => FreeConserves(s, s', i, fd);
    case _ =>
  }

  lemma ServedUnique(s: Sys, i: nat)
    requires Shape(s) && i < |s.cli| && s.cli[i].fd >= 0 && !s.cli[i].stop && !Reused(s, s.cli[i].fd)
    ensures Served(s.cli, s.cli[i].fd)
  {
    var fd := s.cli[i].fd;
    assert s.cli[i] == Client(fd, false);
  }

  /** Counters and shape are kept by every step, and nothing is ever dropped. */
  lemma StepKeepsInv(s: Sys, step: Step, s': Sys)
    requires Inv(s) && Next(s, step, s')
    ensures Inv(s') && !step.Drop?
  {
    CountersKept(s, step, s');
    ShapeKept(s, step, s');
  }

  lemma {:induction false} NoBytes(list: seq<Node>, fd: int)
    requires forall n :: n in list ==> n.fd != fd
    ensures Bytes(list, fd) == []
  {
    if list != [] { NoBytes(list[..|list| - 1], fd); }
  }

  lemma NothingInTransit(s: Sys, fd: int)
    requires Shape(s) && !Holds(s.cli, fd)
    ensures InTransit(s, fd) == []
  {
    SplitTransit(s, fd);
    NoBytes(s.list, fd);
    NoBytes(Hand(s.at), fd);
  }

  // ---- The books ------------------------------------------------------------------

  lemma SameTransit(s: Sys, s': Sys, fd: int)
    requires Hand(s'.at) + s'.list == Hand(s.at) + s.list && s'.recv == s.recv
    ensures InTransit(s', fd) == InTransit(s, fd)
  {
  }

  lemma OpenKeepsBooks(s: Sys, step: Step, s': Sys, i: nat)
    requires Inv(s) && Books(s) && step.Open? && Next(s, step, s') && CleanOpen(s, step)
    requires i < |s'.cli| && s'.cli[i].fd >= 0 && !s'.cli[i].stop
    ensures Settled(s', s'.cli[i].fd)
  {
    var fd := s'.cli[i].fd;
    SameTransit(s, s', fd);
    if fd != step.fd {
      assert s.cli[i] == s'.cli[i];
      assert Settled(s, fd);
      SameReuse(s, s', fd);
    } else if Holds(s.cli, fd) {
      var j :| 0 <= j < |s.cli| && s.cli[j].fd == fd;
      assert s'.cli[step.i].fd == fd && s.recv == Closing(j);
      assert Reused(s', fd);
    } else {
      NothingInTransit(s, fd);
      assert !Reused(s', fd) by {
        if s.recv.Closing? { assert s'.cli[s.recv.i] == s.cli[s.recv.i]; }
      }
    }
  }

  /** A change of the table that does not concern a descriptor. */
  lemma SameReuse(s: Sys, s': Sys, fd: int)
    requires s'.recv == s.recv && |s'.cli| == |s.cli|
    requires forall k :: 0 <= k < |s.cli| ==> (s.cli[k].fd == fd <==> s'.cli[k].fd == fd)
    requires forall k :: 0 <= k < |s.cli| && s.cli[k].fd == fd ==> (s'.cli[k].stop <==> s.cli[k].stop)
    ensures Reused(s', fd) == Reused(s, fd) && (Served(s'.cli, fd) ==> Served(s.cli, fd))
  {
    if Served(s'.cli, fd) {
      var i :| 0 <= i < |s'.cli| && s'.cli[i] == Client(fd, false) && forall j :: 0 <= j < i ==> s'.cli[j].fd != fd;
      assert s.cli[i] == Client(fd, false);
    }
  }

  lemma FreeKeepsBooks(s: Sys, step: Step, s': Sys, i: nat)
    requires Inv(s) && Books(s) && step.Free? && Next(s, step, s')
    requires i < |s'.cli| && s'.cli[i].fd >= 0 && !s'.cli[i].stop
    ensures Settled(s', s'.cli[i].fd)
  {
    var fd, j := s'.cli[i].fd, step.i;
    assert i != j && s.cli[i] == s'.cli[i] && Settled(s, fd);
    if s.cli[j].fd == fd {
      assert Reused(s, fd);
      SplitTransit(s', fd);
      BytesWithout(s.list, fd, fd);
    } else {
      assert !Reused(s, fd);
      FreeConserves(s, s', j, fd);
    }
  }

  lemma InHandIsInTransit(s: Sys)
    requires Shape(s) && s.at.AtHand?
    ensures InTransit(s, s.at.node.fd) != []
  {
    SplitTransit(s, s.at.node.fd);
    OneNode(s.at.node, s.at.node.fd);
  }

  lemma StopServesLess(cli: seq<Client>, i: nat, fd: int)
    requires i < |cli| && Served(cli[i := cli[i].(stop := true)], fd)
    ensures Served(cli, fd)
  {
    var cli' := cli[i := cli[i].(stop := true)];
    var k :| 0 <= k < |cli'| && cli'[k] == Client(fd, false) && forall j :: 0 <= j < k ==> cli'[j].fd != fd;
    assert cli[k] == Client(fd, false);
    assert forall j :: 0 <= j < k ==> cli[j].fd == cli'[j].fd;
  }

  lemma FinishKeepsUntouched(s: Sys, s': Sys, fd: int)
    requires Shape(s) && Untouched(s, fd) && s.at.AtHand? && s' == Answered(s, Served(s.cli, s.at.node.fd))
    ensures Untouched(s', fd)
  {
    if s.at.node.fd == fd {
      InHandIsInTransit(s);
    } else {
      FinishLeavesOthers(s, s', Served(s.cli, s.at.node.fd), fd);
    }
  }

  lemma PoppedTransit(s: Sys, want: nat)
    requires !s.at.AtHand?
    ensures var s' := Popped(s, want); Hand(s'.at) + s'.list == Hand(s.at) + s.list
  {
    if s.list != [] { assert [s.list[0]] + s.list[1..] == s.list; }
  }

  /** While the old entry waits to be freed nothing reaches the new connection. */
  lemma UntouchedKept(s: Sys, step: Step, s': Sys, fd: int)
    requires Shape(s) && Next(s, step, s') && s.recv.Closing? && Untouched(s, fd) && !step.Open? && !step.Free?
    ensures Untouched(s', fd)
  {
    if step.Finish? {
      FinishKeepsUntouched(s, s', fd);
    } else {
      if step.Pop? { PoppedTransit(s, step.want); }
      SameTransit(s, s', fd);
      if step.Stop? && Served(s'.cli, fd) { StopServesLess(s.cli, step.i, fd); }
    }
  }

  lemma SameHolders(s: Sys, step: Step, s': Sys, fd: int)
    requires Inv(s) && Next(s, step, s') && !step.Open? && !step.Free? && !step.Close?
    ensures Reused(s', fd) == Reused(s, fd)
  {
    assert |s'.cli| == |s.cli| && forall k :: 0 <= k < |s.cli| ==> s'.cli[k].fd == s.cli[k].fd;
    assert s.recv.Closing? || s'.recv.Closing? ==> s'.recv == s.recv;
  }

  /** Every step keeps the books of every open connection, as long as connections
      are stored cleanly. */
  lemma StepKeepsBooks(s: Sys, step: Step, s': Sys)
    requires Inv(s) && Books(s) && Next(s, step, s') && CleanOpen(s, step)
    ensures Books(s')
  {
    StepKeepsInv(s, step, s');
    forall i | 0 <= i < |s'.cli| && s'.cli[i].fd >= 0 && !s'.cli[i].stop
      ensures Settled(s', s'.cli[i].fd)
    {
      if step.Open? {
        OpenKeepsBooks(s, step, s', i);
      } else if step.Free? {
        FreeKeepsBooks(s, step, s', i);
      } else {
        OtherStepKeepsBooks(s, step, s', i);
      }
    }
  }

  lemma OtherStepKeepsBooks(s: Sys, step: Step, s': Sys, i: nat)
    requires Inv(s) && Books(s) && Next(s, step, s') && !step.Open? && !step.Free? && !step.Drop?
    requires i < |s'.cli| && s'.cli[i].fd >= 0 && !s'.cli[i].stop
    ensures Settled(s', s'.cli[i].fd)
  {
    var fd := s'.cli[i].fd;
    assert s.cli[i] == s'.cli[i] && Settled(s, fd);
    if Reused(s, fd) {
      SameHolders(s, step, s', fd);
      UntouchedKept(s, step, s', fd);
    } else {
      ServedUnique(s, i);
      ConservedKept(s, step, s', fd);
      if !step.Close? { SameHolders(s, step, s', fd); }
    }
  }

  // ---- The machine and the operations agree ---------------------------------------

  /** All the pushes of one read, with nothing in between. */
  ghost function PushedAll(s: Sys): Sys
    requires s.recv.Pushing? && s.recv.rest != []
    decreases |s.recv.rest|
  {
    var s' := Pushed(s);
    if s'.recv.Pushing? then PushedAll(s') else s'
  }

  /** They queue what `at_spi_recv_data_process` makes of the read. */
  lemma {:induction false} PushesAreChunks(s: Sys)
    requires s.recv.Pushing? && s.recv.rest != []
    ensures PushedAll(s).list == s.list + Chunks(s.recv.fd, s.recv.rest)
    decreases |s.recv.rest|
  {
    var fd, rest, s' := s.recv.fd, s.recv.rest, Pushed(s);
    var n := Node(fd, rest[..First(rest)]);
    assert Chunks(fd, rest) == [n] + Chunks(fd, rest[First(rest)..]);
    if s'.recv.Pushing? {
      PushesAreChunks(s');
      CutStep(s.list, n, Chunks(fd, rest[First(rest)..]));
    }
  }

  /** A CIPRECVDATA command executed by the table's own operation is the pop and
      the answer of the machine. */
  method CommandIsPopAndAnswer(c: CipInfo, ghost s: Sys, recvLen: nat) returns (r: Response)
    requires c.Valid() && !c.locked && recvLen <= AT_SPI_MAX_DATA_LEN
    requires s.at.AtIdle? && s.list != [] && s.cli == c.cli && s.list == c.list && s.count == c.count
    modifies c
    ensures var s' := Answered(Popped(s, recvLen), Served(s.cli, s.list[0].fd));
            && c.list == s'.list && c.count == s'.count
            && if r.Data? then s'.given == s.given[r.fd := Get(s.given, r.fd) + r.bytes] else s'.given == s.given
  {
    r := c.RecvData(recvLen, true);
  }

  /** Storing and freeing by the table's own operations are the machine's steps. */
  method StoreIsOpen(c: CipInfo, ghost s: Sys, conId: int, fd: int) returns (idx: int)
    requires c.Valid() && conId < MAX_CLIENT_NUM && s.cli == c.cli && s.cliNum == c.cliNum && s.list == c.list && s.count == c.count
    modifies c
    ensures c.list == s.list && c.count == s.count
    ensures if idx < 0 then c.cli == s.cli && c.cliNum == s.cliNum
            else idx < |s.cli| && s.cli[idx].fd < 0 && fd >= 0
                 && c.cli == Opened(s, idx, fd).cli && c.cliNum == Opened(s, idx, fd).cliNum
  {
    idx := c.CliStore(conId, fd);
    if idx >= 0 { LiveUpdate(s.cli, idx, Client(fd, false)); }
  }

  method FreeIsFree(c: CipInfo, ghost s: Sys, i: nat)
    requires c.Valid() && s.cli == c.cli && s.cliNum == c.cliNum && s.list == c.list && s.count == c.count
    requires i < |s.cli| && s.cli[i].fd >= 0 && s.cliNum > 0
    modifies c
    ensures var s' := Freed(s, i); c.cli == s'.cli && c.cliNum == s'.cliNum && c.list == s'.list && c.count == s'.count
  {
    c.CliFree(i);
    LiveUpdate(s.cli, i, VACANT);
  }

  // ---- Runs ----------------------------------------------------------------------

  datatype Run = Run(states: seq<Sys>, steps: seq<Step>)

  ghost predicate IsRun(r: Run) {
    && |r.states| == |r.steps| + 1
    && forall k :: 0 <= k < |r.steps| ==> Next(r.states[k], r.steps[k], r.states[k + 1])
  }

  ghost predicate Initial(s: Sys) {
    && |s.cli| == MAX_CLIENT_NUM && (forall i :: 0 <= i < |s.cli| ==> s.cli[i] == VACANT) && s.cliNum == 0
    && s.list == [] && s.count == 0 && s.at.AtIdle? && s.recv.Scanning? && s.trigger == 0 && s.pulses == 0
  }

  lemma InitialInv(s: Sys)
    requires Initial(s)
    ensures Inv(s) && Books(s)
  {
    NoneLive(s.cli);
  }

  lemma {:induction false} RunKeepsInv(r: Run, k: nat)
    requires IsRun(r) && Initial(r.states[0]) && k < |r.states|
    ensures Inv(r.states[k])
  {
    if k > 0 {
      RunKeepsInv(r, k - 1);
      StepKeepsInv(r.states[k - 1], r.steps[k - 1], r.states[k]);
    } else {
      InitialInv(r.states[0]);
    }
  }

  /** The cached counters are those of the structures, and tell whether an entry
      can be allocated; the list is three short of its limit; every node can be
      answered in one response. */
  ghost predicate Exact(s: Sys) {
    && s.cliNum == Live(s.cli) && s.count == |s.list| <= 17 && s.pulses <= 2
    && (s.cliNum < MAX_CLIENT_NUM <==> exists i :: 0 <= i < |s.cli| && s.cli[i].fd < 0)
    && forall n :: n in s.list ==> 1 <= |n.data| <= AT_SPI_MAX_DATA_LEN
  }

  lemma InvMeans(s: Sys)
    requires Inv(s)
    ensures Exact(s)
  {
    FullIff(s.cli);
  }

  /** In every run, whatever the order of the steps (storing and freeing a
      connection are one each): the cached counters are exact, the list never holds
      more than 17 of its 20 nodes and so nothing is ever dropped, an entry can be
      allocated exactly when `cli_num` is below the maximum, and no more than two
      data-ready pulses are raised between two commands. */
  lemma QueueGuarantee(r: Run, k: nat)
    requires IsRun(r) && Initial(r.states[0]) && k < |r.states|
    ensures Exact(r.states[k])
    ensures k < |r.steps| ==> !r.steps[k].Drop?
  {
    RunKeepsInv(r, k);
    InvMeans(r.states[k]);
    if k < |r.steps| { StepKeepsInv(r.states[k], r.steps[k], r.states[k + 1]); }
  }

  /** Every open connection's bytes are delivered or on their way in the order they
      were read, in every run in which connections are stored cleanly. */
  lemma {:induction false} DeliveryGuarantee(r: Run, k: nat)
    requires IsRun(r) && Initial(r.states[0]) && k < |r.states|
    requires forall n :: 0 <= n < |r.steps| ==> CleanOpen(r.states[n], r.steps[n])
    ensures Books(r.states[k])
  {
    if k > 0 {
      DeliveryGuarantee(r, k - 1);
      RunKeepsInv(r, k - 1);
      StepKeepsBooks(r.states[k - 1], r.steps[k - 1], r.states[k]);
    } else {
      InitialInv(r.states[0]);
    }
  }
}
