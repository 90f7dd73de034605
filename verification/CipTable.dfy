/** The connection table and the receive list of the SPI AT firmware: the
    operations of `cip_info`, and the sequence facts about them. */
module CipTable {
  import opened Common

  const MAX_CLIENT_NUM := 9          // MEMP_NUM_NETCONN - 1 - 2
  const MAX_RECV_DATA_NUM_IN_LIST := 20
  const AT_SPI_MAX_DATA_LEN := 2048
  const RX_LEN := 2920

  datatype Client = Client(fd: int, stop: bool)

  datatype Node = Node(fd: int, data: seq<byte>)

  const VACANT := Client(-1, false)

  // ---- The table ----------------------------------------------------------------

  function Live(cli: seq<Client>): (n: nat)
    ensures n <= |cli|
  {
    if cli == [] then 0 else Live(cli[..|cli| - 1]) + if cli[|cli| - 1].fd >= 0 then 1 else 0
  }

  lemma {:induction false} LiveUpdate(cli: seq<Client>, i: nat, c: Client)
    requires i < |cli|
    ensures Live(cli[i := c]) == Live(cli) - (if cli[i].fd >= 0 then 1 else 0) + (if c.fd >= 0 then 1 else 0)
  {
    var n := |cli| - 1;
    if i == n {
      assert cli[i := c][..n] == cli[..n];
    } else {
      assert cli[i := c][..n] == cli[..n][i := c];
      LiveUpdate(cli[..n], i, c);
    }
  }

  /** The table is full exactly when every entry is live. */
  lemma {:induction false} FullIff(cli: seq<Client>)
    ensures Live(cli) == |cli| <==> forall i :: 0 <= i < |cli| ==> cli[i].fd >= 0
  {
    if cli != [] {
      var init := cli[..|cli| - 1];
      FullIff(init);
      assert forall i :: 0 <= i < |init| ==> init[i] == cli[i];
    }
  }

  ghost predicate Holds(cli: seq<Client>, fd: int) {
    exists i :: 0 <= i < |cli| && cli[i].fd == fd
  }

  /** The connection that `cip_info_cli_find` finds is not being stopped. */
  ghost predicate Served(cli: seq<Client>, fd: int) {
    exists i :: 0 <= i < |cli| && cli[i] == Client(fd, false) && forall j :: 0 <= j < i ==> cli[j].fd != fd
  }

  // ---- The list -----------------------------------------------------------------

  /** The bytes queued for one descriptor, in order. */
  function Bytes(list: seq<Node>, fd: int): seq<byte> {
    if list == [] then []
    else Bytes(list[..|list| - 1], fd) + if list[|list| - 1].fd == fd then list[|list| - 1].data else []
  }

  /** The list without one descriptor's nodes. */
  function Without(list: seq<Node>, fd: int): (r: seq<Node>)
    ensures |r| <= |list|
  {
    if list == [] then []
    else Without(list[..|list| - 1], fd) + if list[|list| - 1].fd == fd then [] else [list[|list| - 1]]
  }

  lemma {:induction false} WithoutMembers(list: seq<Node>, fd: int)
    ensures forall n :: n in Without(list, fd) <==> n in list && n.fd != fd
  {
    if list != [] {
      WithoutMembers(list[..|list| - 1], fd);
      assert list == list[..|list| - 1] + [list[|list| - 1]];
    }
  }

  lemma WithoutOne(n: Node, fd: int)
    ensures Without([n], fd) == if n.fd == fd then [] else [n]
  {
    assert [n][..0] == [];
  }

  /** Node by node, in order: what is removed does not depend on the neighbours. */
  lemma {:induction false} WithoutAppend(a: seq<Node>, b: seq<Node>, fd: int)
    ensures Without(a + b, fd) == Without(a, fd) + Without(b, fd)
  {
    if b == [] {
      assert a + b == a;
    } else {
      assert (a + b)[..|a + b| - 1] == a + b[..|b| - 1];
      WithoutAppend(a, b[..|b| - 1], fd);
    }
  }

  lemma {:induction false} BytesAppend(a: seq<Node>, b: seq<Node>, fd: int)
    ensures Bytes(a + b, fd) == Bytes(a, fd) + Bytes(b, fd)
  {
    if b == [] {
      assert a + b == a;
    } else {
      assert (a + b)[..|a + b| - 1] == a + b[..|b| - 1];
      BytesAppend(a, b[..|b| - 1], fd);
    }
  }

  lemma BytesCons(n: Node, list: seq<Node>, fd: int)
    ensures Bytes([n] + list, fd) == (if n.fd == fd then n.data else []) + Bytes(list, fd)
  {
    BytesAppend([n], list, fd);
    assert [n][..0] == [];
  }

  /** Freeing a connection removes its own bytes and nothing else. */
  lemma {:induction false} BytesWithout(list: seq<Node>, gone: int, fd: int)
    ensures Bytes(Without(list, gone), fd) == if fd == gone then [] else Bytes(list, fd)
  {
    if list != [] {
      var init, last := list[..|list| - 1], list[|list| - 1];
      BytesWithout(init, gone, fd);
      BytesAppend(Without(init, gone), if last.fd == gone then [] else [last], fd);
      assert [last][..0] == [];
    }
  }

  /** The nodes that `at_spi_recv_data_process` makes of one read. */
  function Chunks(fd: int, data: seq<byte>): (r: seq<Node>)
    ensures data != [] ==> 1 <= |r|
    ensures |data| <= AT_SPI_MAX_DATA_LEN ==> |r| <= 1
    ensures |data| <= RX_LEN ==> |r| <= 2
    ensures forall n :: n in r ==> n.fd == fd && 1 <= |n.data| <= AT_SPI_MAX_DATA_LEN
  {
    if data == [] then []
    else
      var n := Min(|data|, AT_SPI_MAX_DATA_LEN);
      [Node(fd, data[..n])] + Chunks(fd, data[n..])
  }

  /** The list after one read's chunks, each with its turn at the list. `drained`
      says how many nodes the AT task takes from the front during each turn, and
      `memory` for how many chunks there is memory. A chunk that finds the list
      full to the end of its wait is dropped and counted twice, so that the next
      one is passed over too. */
  function Queued(list: seq<Node>, c: seq<Node>, drained: nat -> nat, memory: nat, turn: nat): seq<Node>
    decreases |c|
  {
    if c == [] || turn >= memory then list
    else
      var l := list[Min(drained(turn), |list|)..];
      if |l| < MAX_RECV_DATA_NUM_IN_LIST then Queued(l + [c[0]], c[1..], drained, memory, turn + 1)
      else Queued(l, if |c| > 1 then c[2..] else [], drained, memory, turn + 1)
  }

  /** With room for all of it, whatever the AT task takes meanwhile: the list and
      the read behind it, in order, less what was taken from the front. */
  lemma {:induction false} QueuedInOrder(list: seq<Node>, c: seq<Node>, drained: nat -> nat, memory: nat, turn: nat) returns (n: nat)
    requires |list| + |c| <= MAX_RECV_DATA_NUM_IN_LIST && turn + |c| <= memory
    ensures n <= |list| + |c| && Queued(list, c, drained, memory, turn) == (list + c)[n..]
    decreases |c|
  {
    if c == [] {
      n := 0;
    } else {
      var d := Min(drained(turn), |list|);
      var l := list[d..] + [c[0]];
      n := QueuedInOrder(l, c[1..], drained, memory, turn + 1);
      assert l + c[1..] == (list + c)[d..];
      n := n + d;
    }
  }

  predicate Subsequence(a: seq<Node>, c: seq<Node>) {
    if a == [] then true
    else c != [] && ((a[0] == c[0] && Subsequence(a[1..], c[1..])) || Subsequence(a, c[1..]))
  }

  /** And with too little room: still the old list and some of the read behind it, in
      order, less what was taken from the front. */
  lemma {:induction false} QueuedKeepsOrder(list: seq<Node>, c: seq<Node>, drained: nat -> nat, memory: nat, turn: nat)
    returns (n: nat, some: seq<Node>)
    ensures Subsequence(some, c) && n <= |list| + |some| && Queued(list, c, drained, memory, turn) == (list + some)[n..]
    decreases |c|
  {
    if c == [] || turn >= memory {
      n, some := 0, [];
    } else {
      var d := Min(drained(turn), |list|);
      if |list[d..]| < MAX_RECV_DATA_NUM_IN_LIST {
        n, some := QueuedKeepsOrder(list[d..] + [c[0]], c[1..], drained, memory, turn + 1);
        assert list[d..] + [c[0]] + some == (list + ([c[0]] + some))[d..];
        assert ([c[0]] + some)[1..] == some;
        n, some := n + d, [c[0]] + some;
      } else {
        n, some := QueuedKeepsOrder(list[d..], if |c| > 1 then c[2..] else [], drained, memory, turn + 1);
        assert list[d..] + some == (list + some)[d..];
        n := n + d;
        if |c| > 1 { assert c[1..][1..] == c[2..] && Subsequence(some, c[1..]); }
      }
    }
  }

  /** A chunk that finds the list full to the end of its wait is passed over
      together with the next one, and what was queued before it stays. */
  lemma QueuedWhenFull(list: seq<Node>, c: seq<Node>, drained: nat -> nat, memory: nat, turn: nat)
    requires |list| >= MAX_RECV_DATA_NUM_IN_LIST && drained(turn) == 0 && |c| >= 2 && turn < memory
    ensures Queued(list, c, drained, memory, turn) == Queued(list, c[2..], drained, memory, turn + 1)
  {
    assert list[0..] == list;
  }

  /** With nothing taken meanwhile: as many chunks as memory and the limit allow. */
  lemma {:induction false} QueuedUndisturbed(list: seq<Node>, c: seq<Node>, drained: nat -> nat, memory: nat, turn: nat)
    requires |list| <= MAX_RECV_DATA_NUM_IN_LIST && turn <= memory && forall k: nat :: drained(k) == 0
    ensures Queued(list, c, drained, memory, turn)
         == list + c[..Min(Min(|c|, memory - turn), MAX_RECV_DATA_NUM_IN_LIST - |list|)]
    decreases |c|
  {
    if c != [] && turn < memory {
      assert list[0..] == list;
      if |list| < MAX_RECV_DATA_NUM_IN_LIST {
        QueuedUndisturbed(list + [c[0]], c[1..], drained, memory, turn + 1);
      } else {
        QueuedUndisturbed(list, if |c| > 1 then c[2..] else [], drained, memory, turn + 1);
      }
    }
  }

  /** The double count: when the first chunk of a read is dropped, its second is
      lost too, however much room there is by then. */
  lemma DropLosesTheRead(list: seq<Node>, fd: int, data: seq<byte>, drained: nat -> nat, memory: nat)
    requires |list| == MAX_RECV_DATA_NUM_IN_LIST && |data| <= RX_LEN && drained(0) == 0
    ensures Queued(list, Chunks(fd, data), drained, memory, 0) == list
  {
    assert list[0..] == list;
  }

  lemma {:induction false} ChunksKeepBytes(fd: int, data: seq<byte>)
    ensures Bytes(Chunks(fd, data), fd) == data
  {
    if data != [] {
      var n := Min(|data|, AT_SPI_MAX_DATA_LEN);
      ChunksKeepBytes(fd, data[n..]);
      BytesCons(Node(fd, data[..n]), Chunks(fd, data[n..]), fd);
      assert data == data[..n] + data[n..];
    }
  }

  /** One node further along the list, and what is left if it is taken out. */
  lemma WithoutStep(list: seq<Node>, k: nat, fd: int)
    requires k < |list|
    ensures var kept := Without(list[..k], fd);
            var now := kept + list[k..];
            && |kept| < |now| && now[|kept|] == list[k]
            && now[..|kept|] + now[|kept| + 1..] == kept + list[k + 1..]
            && now == kept + [list[k]] + list[k + 1..]
            && Without(list[..k + 1], fd) == kept + if list[k].fd == fd then [] else [list[k]]
  {
    assert list[..k + 1][..k] == list[..k];
    assert list[k..] == [list[k]] + list[k + 1..];
  }

  // ---- The operations -------------------------------------------------------------

  datatype Response = Data(fd: int, bytes: seq<byte>) | NoData | Failed

  class CipInfo {
    var cli: seq<Client>
    var cliNum: nat
    var list: seq<Node>
    var count: nat
    var trigger: nat
    var locked: bool

    ghost predicate Valid()
      reads this
    {
      && |cli| == MAX_CLIENT_NUM && cliNum == Live(cli)
      && (forall i :: 0 <= i < |cli| && cli[i].fd < 0 ==> cli[i].fd == -1)
      && count == |list| <= MAX_RECV_DATA_NUM_IN_LIST
      && forall n :: n in list ==> 0 <= n.fd && 1 <= |n.data| <= AT_SPI_MAX_DATA_LEN
    }

    /** `cip_info_init`. */
    constructor ()
      ensures Valid() && !locked && trigger == 0 && list == [] && forall i :: 0 <= i < |cli| ==> cli[i] == VACANT
    {
      cli := seq(MAX_CLIENT_NUM, _ => VACANT);
      cliNum, list, count, trigger, locked := 0, [], 0, 0, false;
      new;
      NoneLive(cli);
    }

    /** `cip_info_cli_alloc`: an entry is found exactly when the cached number of
        clients is below the maximum, and it is the first vacant one. */
    method CliAlloc() returns (i: int)
      requires Valid()
      ensures i == -1 <==> cliNum >= MAX_CLIENT_NUM
      ensures i != -1 ==> 0 <= i < |cli| && cli[i].fd == -1 && forall j :: 0 <= j < i ==> cli[j].fd >= 0
    {
      FullIff(cli);
      if cliNum >= MAX_CLIENT_NUM {
        return -1;
      }
      i := 0;
      while i < MAX_CLIENT_NUM
        invariant 0 <= i <= MAX_CLIENT_NUM && forall j :: 0 <= j < i ==> cli[j].fd >= 0
      {
        if cli[i].fd < 0 {
          return;
        }
        i := i + 1;
      }
      i := -1;
    }

    /** `cip_info_cli_store`. */
    method CliStore(conId: int, fd: int) returns (idx: int)
      requires Valid() && conId < MAX_CLIENT_NUM
      modifies this`cli, this`cliNum
      ensures Valid()
      ensures idx >= 0 <==> fd >= 0 && (if conId < 0 then old(cliNum) < MAX_CLIENT_NUM else old(cli)[conId].fd < 0)
      ensures idx < 0 ==> idx == -1 && cli == old(cli)
      ensures idx >= 0 ==> 0 <= idx < |old(cli)| && old(cli)[idx].fd < 0 && cli == old(cli)[idx := Client(fd, false)]
      ensures idx >= 0 && conId >= 0 ==> idx == conId
      ensures idx >= 0 && conId < 0 ==> forall j :: 0 <= j < idx ==> old(cli)[j].fd >= 0
    {
      idx := -1;
      if conId < 0 {
        idx := CliAlloc();
      } else if cli[conId].fd < 0 {
        idx := conId;
      }
      if idx < 0 || fd < 0 {
        return -1;
      }
      LiveUpdate(cli, idx, Client(fd, false));
      cli := cli[idx := Client(fd, false)];
      cliNum := cliNum + 1;
    }

    /** The walk over the list in `cip_info_cli_free`, removing nodes in place. */
    method DropNodes(fd: int)
      requires count == |list|
      modifies this`list, this`count
      ensures list == Without(old(list), fd) && count == |list|
    {
      var i := 0;
      ghost var seen, kept := 0, [];
      while i < |list|
        invariant seen <= |old(list)| && kept == Without(old(list)[..seen], fd) && i == |kept|
        invariant list == kept + old(list)[seen..] && count == |list|
        decreases |list| - i
      {
        WithoutStep(old(list), seen, fd);
        if list[i].fd == fd {
          Remove(i);
        } else {
          kept := kept + [list[i]];
          i := i + 1;
        }
        seen := seen + 1;
      }
      assert old(list)[..seen] == old(list);
    }

    /** `list_remove`. */
    method Remove(i: nat)
      requires i < |list| == count
      modifies this`list, this`count
      ensures list == old(list)[..i] + old(list)[i + 1..] && count == |list|
    {
      list := list[..i] + list[i + 1..];
      count := count - 1;
    }

    /** `cip_info_cli_free`: exactly the nodes of the freed connection leave the
        list and the others keep their order. */
    method CliFree(index: int)
      requires Valid()
      modifies this`cli, this`cliNum, this`list, this`count
      ensures Valid()
      ensures if 0 <= index < MAX_CLIENT_NUM && old(cli)[index].fd != -1
              then list == Without(old(list), old(cli)[index].fd) && cli == old(cli)[index := VACANT]
              else list == old(list) && cli == old(cli)
    {
      if 0 <= index < MAX_CLIENT_NUM {
        if cli[index].fd != -1 {
          WithoutMembers(list, cli[index].fd);
          DropNodes(cli[index].fd);
          LiveUpdate(cli, index, VACANT);
          cli := cli[index := VACANT];
          cliNum := cliNum - 1;
        }
      }
    }

    /** `cip_info_cli_find`. */
    method CliFind(fd: int) returns (i: int)
      requires Valid()
      ensures i == -1 <==> !Holds(cli, fd)
      ensures i != -1 ==> 0 <= i < |cli| && cli[i].fd == fd && forall j :: 0 <= j < i ==> cli[j].fd != fd
    {
      i := 0;
      while i < MAX_CLIENT_NUM
        invariant 0 <= i <= MAX_CLIENT_NUM && forall j :: 0 <= j < i ==> cli[j].fd != fd
      {
        if cli[i].fd == fd {
          return;
        }
        i := i + 1;
      }
      i := -1;
    }

    /** `at_spi_recv_data_process`: the chunks of one read, each with its turn at
        the list, while the AT task takes nodes from the front. */
    method RecvDataProcess(fd: int, rx: seq<byte>, started: bool, drained: nat -> nat, memory: nat)
      requires Valid() && rx != []
      modifies this`list, this`count
      ensures Valid()
      ensures list == if fd < 0 || !started then old(list) else Queued(old(list), Chunks(fd, rx), drained, memory, 0)
    {
      if fd < 0 || !started {
        return;
      }
      var processed, turn := 0, 0;
      assert rx[0..] == rx;
      while processed < |rx|
        invariant Valid() && 0 <= processed
        invariant Queued(list, Chunks(fd, rx[Min(processed, |rx|)..]), drained, memory, turn)
               == Queued(old(list), Chunks(fd, rx), drained, memory, 0)
        decreases |rx| - processed
      {
        if turn >= memory {
          break;  // no memory for the node or its data
        }
        var size := Min(|rx| - processed, AT_SPI_MAX_DATA_LEN);
        var node := Node(fd, rx[processed..processed + size]);
        NextChunk(fd, rx, processed, size);
        Drain(drained(turn));
        if count < MAX_RECV_DATA_NUM_IN_LIST {
          PushBack(node);
        } else {
          SkipChunk(fd, rx, processed, size);
          processed := processed + size;  // waited in vain, dropped
        }
        processed := processed + size;
        turn := turn + 1;
      }
    }

    /** What the AT task does to the list meanwhile. */
    method Drain(n: nat)
      requires Valid()
      modifies this`list, this`count
      ensures Valid() && list == old(list)[Min(n, |old(list)|)..]
    {
      list := list[Min(n, |list|)..];
      count := |list|;
    }

    method PushBack(node: Node)
      requires Valid() && count < MAX_RECV_DATA_NUM_IN_LIST
      requires 0 <= node.fd && 1 <= |node.data| <= AT_SPI_MAX_DATA_LEN
      modifies this`list, this`count
      ensures Valid() && list == old(list) + [node]
    {
      list := list + [node];
      count := count + 1;
    }

    /** `at_cip_recvdata` with a numeric argument: the front of the list is handed
        out, at most recvLen bytes of it, and the remainder goes back to the front.
        When memory for the remainder is missing the remainder is lost and the
        list stays locked. */
    method RecvData(recvLen: int, allocOk: bool) returns (r: Response)
      requires Valid() && !locked
      modifies this`list, this`count, this`trigger, this`locked
      ensures Valid() && trigger == 0
      ensures old(list) == [] ==> r == NoData && list == []
      ensures old(list) != [] && !(0 <= recvLen <= AT_SPI_MAX_DATA_LEN) ==> r == Failed && list == old(list)
      ensures old(list) != [] && 0 <= recvLen <= AT_SPI_MAX_DATA_LEN ==>
        var n := old(list)[0];
        if !Served(cli, n.fd) then r == NoData && list == old(list)[1..]
        else if |n.data| <= recvLen then r == Data(n.fd, n.data) && list == old(list)[1..]
        else if allocOk then r == Data(n.fd, n.data[..recvLen]) && list == [Node(n.fd, n.data[recvLen..])] + old(list)[1..]
        else r == Failed && list == old(list)[1..]
      // The one path that returns without giving the lock back.
      ensures locked <==> old(list) != [] && 0 <= recvLen <= AT_SPI_MAX_DATA_LEN && !allocOk
                          && Served(cli, old(list)[0].fd) && |old(list)[0].data| > recvLen
    {
      trigger := 0;
      if count == 0 {
        return NoData;
      }
      if recvLen < 0 || recvLen > AT_SPI_MAX_DATA_LEN {
        return Failed;
      }
      locked := true;
      var item := list[0];
      list := list[1..];
      count := count - 1;
      var idx := CliFind(item.fd);
      if idx < 0 || cli[idx].stop {
        r := NoData;
      } else if |item.data| <= recvLen {
        r := Data(item.fd, item.data);
      } else {
        if !allocOk {
          return Failed;
        }
        r := Data(item.fd, item.data[..recvLen]);
        list := [Node(item.fd, item.data[recvLen..])] + list;
        count := count + 1;
      }
      locked := false;
    }
  }

  lemma CutStep(kept: seq<Node>, n: Node, rest: seq<Node>)
    ensures var list := kept + ([n] + rest);
            var i := |kept|;
            list[i] == n && list[..i] + list[i + 1..] == kept + rest && list == kept + [n] + rest
  {
  }

  lemma NextChunk(fd: int, rx: seq<byte>, at: nat, size: nat)
    requires at < |rx| && size == Min(|rx| - at, AT_SPI_MAX_DATA_LEN)
    ensures var c := Chunks(fd, rx[at..]);
            c != [] && c[0] == Node(fd, rx[at..at + size]) && c[1..] == Chunks(fd, rx[at + size..])
  {
    var rest := rx[at..];
    assert rest[..size] == rx[at..at + size] && rest[size..] == rx[at + size..];
  }

  /** Counting a chunk twice passes over the next one. */
  lemma SkipChunk(fd: int, rx: seq<byte>, at: nat, size: nat)
    requires at < |rx| && size == Min(|rx| - at, AT_SPI_MAX_DATA_LEN)
    ensures var c := Chunks(fd, rx[at..]);
            Chunks(fd, rx[Min(at + 2 * size, |rx|)..]) == if |c| > 1 then c[2..] else []
  {
    NextChunk(fd, rx, at, size);
    var c := Chunks(fd, rx[at..]);
    var next := at + size;
    if next < |rx| {
      NextChunk(fd, rx, next, Min(|rx| - next, AT_SPI_MAX_DATA_LEN));
      assert c[2..] == c[1..][1..];
    } else {
      assert rx[next..] == [] && Chunks(fd, rx[next..]) == [];
    }
  }

  lemma {:induction false} NoneLive(cli: seq<Client>)
    requires forall i :: 0 <= i < |cli| ==> cli[i] == VACANT
    ensures Live(cli) == 0
  {
    if cli != [] { NoneLive(cli[..|cli| - 1]); }
  }
}
