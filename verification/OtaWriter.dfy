/** The over-the-air writer: the erase/write loop of `http_rsp_image` and the
    flag writes of `ota_demo_task`. */
module OtaWriter {
  import opened Common
  import opened ImageStatus
  import opened BootLoader
  import opened Nor
  import opened Recovery

  const RECBUFFER_LEN := 1516

  datatype FlashOp = Erase(a: nat) | Write(a: nat, n: nat)

  /** How the network answers one read: bytes of the stream, nothing yet, or an error. */
  datatype RecvEvent = Deliver(n: nat) | WouldBlock | RecvError

  /** One read of at most `want` bytes; a negative `want` is a huge one once it
      is converted to `size_t`. A negative result means "try again". */
  function Recv(e: RecvEvent, want: int, available: nat): (got: Option<int>)
    ensures got.Some? ==> -1 <= got.value <= available && (0 <= want ==> got.value <= want)
    ensures got.None? <==> e.RecvError?
  {
    match e
    case Deliver(n) => Some(Min(if want < 0 then n else Min(n, want), available))
    case WouldBlock => Some(-1)
    case RecvError => None
  }

  /** How many reads bring something. */
  function Productive(net: seq<RecvEvent>): (n: nat)
    ensures n <= |net|
  {
    if net == [] then 0
    else Productive(net[..|net| - 1]) + if net[|net| - 1].Deliver? && net[|net| - 1].n > 0 then 1 else 0
  }

  /** Enough of the network for a body: it fits, it all comes, nothing breaks. */
  predicate Suffices(net: seq<RecvEvent>, stream: seq<byte>, first: int, bodyLen: int) {
    && 0 <= first <= bodyLen <= SLOT_SIZE && bodyLen <= |stream|
    && bodyLen <= Productive(net) && forall e :: e in net ==> !e.RecvError?
  }

  // ---- Discipline of the flash operations ------------------------------------

  /** The log erases pages 0 to pages-1 of the slot, one after another, writes
      bytes 0 to written-1 one after another, and never writes ahead of the erase. */
  ghost predicate Disciplined(base: nat, log: seq<FlashOp>, pages: nat, written: nat) {
    if log == [] then pages == 0 && written == 0
    else
      var init := log[..|log| - 1];
      match log[|log| - 1]
      case Erase(a) => pages > 0 && a == base + (pages - 1) * PAGE && Disciplined(base, init, pages - 1, written)
      case Write(a, n) =>
        && 0 < n <= written <= pages * PAGE && a == base + written - n
        && Disciplined(base, init, pages, written - n)
  }

  lemma {:induction false} ErasesAscend(base: nat, log: seq<FlashOp>, pages: nat, written: nat, j: nat)
    requires Disciplined(base, log, pages, written) && j < |log| && log[j].Erase?
    ensures base <= log[j].a < base + pages * PAGE && (log[j].a - base) % PAGE == 0
  {
    var init := log[..|log| - 1];
    match log[|log| - 1]
    case Erase(_) => if j < |log| - 1 { ErasesAscend(base, init, pages - 1, written, j); }
    case Write(_, n) => ErasesAscend(base, init, pages, written - n, j);
  }

  /** No page is erased twice. */
  lemma {:induction false} EachPageErasedOnce(base: nat, log: seq<FlashOp>, pages: nat, written: nat, i: nat, j: nat)
    requires Disciplined(base, log, pages, written) && i < j < |log| && log[i].Erase? && log[j].Erase?
    ensures log[i].a < log[j].a
  {
    var init := log[..|log| - 1];
    match log[|log| - 1]
    case Erase(_) =>
      if j == |log| - 1 { ErasesAscend(base, init, pages - 1, written, i); }
      else { EachPageErasedOnce(base, init, pages - 1, written, i, j); }
    case Write(_, n) => EachPageErasedOnce(base, init, pages, written - n, i, j);
  }

  lemma {:induction false} PageWasErased(base: nat, log: seq<FlashOp>, pages: nat, written: nat, page: nat) returns (i: nat)
    requires Disciplined(base, log, pages, written) && page < pages
    ensures i < |log| && log[i] == Erase(base + page * PAGE)
  {
    var init := log[..|log| - 1];
    match log[|log| - 1]
    case Erase(_) => if page == pages - 1 { i := |log| - 1; } else { i := PageWasErased(base, init, pages - 1, written, page); }
    case Write(_, n) => i := PageWasErased(base, init, pages, written - n, page);
  }

  /** Every byte written lies in a page erased earlier in the log. */
  lemma {:induction false} ErasedBeforeWritten(base: nat, log: seq<FlashOp>, pages: nat, written: nat, j: nat, x: nat)
    returns (i: nat)
    requires Disciplined(base, log, pages, written) && j < |log| && log[j].Write? && log[j].a <= x < log[j].a + log[j].n
    ensures i < j && log[i].Erase? && log[i].a <= x < log[i].a + PAGE
  {
    var init := log[..|log| - 1];
    match log[|log| - 1]
    case Erase(_) => i := ErasedBeforeWritten(base, init, pages - 1, written, j, x);
    case Write(_, n) =>
      if j == |log| - 1 {
        i := PageWasErased(base, init, pages, written - n, (x - base) / PAGE);
      } else {
        i := ErasedBeforeWritten(base, init, pages, written - n, j, x);
      }
  }

  // ---- The writer -------------------------------------------------------------

  /** A failed operation leaves anything at all in its range. */
  function Damaged(mem: seq<byte>, a: nat, n: nat, junk: nat -> byte): (r: seq<byte>)
    ensures |r| == |mem|
  {
    seq(|mem|, i requires 0 <= i < |mem| => if a <= i < a + n then junk(i) else mem[i])
  }

  function Size(op: FlashOp): nat { if op.Erase? then PAGE else op.n }

  /** Every operation issued, failed or not, stays inside the slot. */
  ghost predicate Within(log: seq<FlashOp>, target: SlotId) {
    forall op :: op in log ==> Base(target) <= op.a && op.a + Size(op) <= Base(target) + SLOT_SIZE
  }

  lemma EraseLogged(target: SlotId, log: seq<FlashOp>, pages: nat, written: nat)
    requires Disciplined(Base(target), log, pages, written) && Within(log, target) && (pages + 1) * PAGE <= SLOT_SIZE
    ensures var log' := log + [Erase(Base(target) + pages * PAGE)];
            Disciplined(Base(target), log', pages + 1, written) && Within(log', target)
  {
    var log' := log + [Erase(Base(target) + pages * PAGE)];
    assert log'[..|log'| - 1] == log;
  }

  lemma SamePrefix(was: seq<byte>, now: seq<byte>, base: nat, n: nat)
    requires |was| == |now| && base + n <= |now| && forall i :: base <= i < base + n ==> now[i] == was[i]
    ensures now[base..base + n] == was[base..base + n]
  {
  }

  lemma WriteLogged(target: SlotId, log: seq<FlashOp>, pages: nat, written: nat, n: nat)
    requires Disciplined(Base(target), log, pages, written) && Within(log, target)
    requires 0 < n && written + n <= pages * PAGE <= SLOT_SIZE
    ensures var log' := log + [Write(Base(target) + written, n)];
            Disciplined(Base(target), log', pages, written + n) && Within(log', target)
  {
    var log' := log + [Write(Base(target) + written, n)];
    assert log'[..|log'| - 1] == log;
  }

  /** So each of them, complete or torn, is a step of the recovery machine. */
  lemma FlashOpIsAStep(env: Env, s: State, log: seq<FlashOp>, op: FlashOp, flash: seq<byte>)
    requires s.phase.App? && s.dev.running == Some(s.phase.i) && Within(log, 1 - s.phase.i) && op in log
    requires |flash| == FLASH_SIZE
    requires forall a :: 0 <= a < FLASH_SIZE && !(op.a <= a < op.a + Size(op)) ==> flash[a] == s.dev.flash[a]
    ensures Next(env, s, Scribble(flash), s.(dev := s.dev.(flash := flash)))
  {
  }

  class Updater {
    const board: Board
    const fails: nat -> bool      // which flash operations fail
    const junk: nat -> byte       // what a failed operation leaves behind
    var log: seq<FlashOp>

    constructor (board: Board, fails: nat -> bool, junk: nat -> byte)
      ensures this.board == board && this.fails == fails && this.junk == junk && log == []
    {
      this.board, this.fails, this.junk, log := board, fails, junk, [];
    }

    ghost predicate Reliable() { forall n: nat :: !fails(n) }

    /** `raw_flash_erase` of one page. */
    method RawErase(a: nat) returns (ret: int)
      requires board.Valid() && a + PAGE <= FLASH_SIZE
      modifies this`log, board`flash
      ensures board.Valid() && log == old(log) + [Erase(a)]
      ensures ret == 0 ==> board.flash == Erased(old(board.flash), a, PAGE)
      ensures ret == 0 || (ret == -1 && !Reliable())
      ensures forall i :: 0 <= i < FLASH_SIZE && !(a <= i < a + PAGE) ==> board.flash[i] == old(board.flash[i])
    {
      var bad := fails(|log|);
      log := log + [Erase(a)];
      if bad {
        board.flash := Damaged(board.flash, a, PAGE, junk);
        return -1;
      }
      board.flash := Erased(board.flash, a, PAGE);
      return 0;
    }

    /** `raw_flash_write`. */
    method RawWrite(a: nat, data: seq<byte>) returns (ret: int)
      requires board.Valid() && a + |data| <= FLASH_SIZE
      modifies this`log, board`flash
      ensures board.Valid() && log == old(log) + [Write(a, |data|)]
      ensures ret == 0 ==> board.flash == Programmed(old(board.flash), a, data)
      ensures ret == 0 || (ret == -1 && !Reliable())
      ensures forall i :: 0 <= i < FLASH_SIZE && !(a <= i < a + |data|) ==> board.flash[i] == old(board.flash[i])
    {
      var bad := fails(|log|);
      log := log + [Write(a, |data|)];
      if bad {
        board.flash := Damaged(board.flash, a, |data|, junk);
        return -1;
      }
      board.flash := Programmed(board.flash, a, data);
      return 0;
    }

    /** What the loop knows: the first offset bytes of the body are in place,
        the rest of the erased pages is blank, nothing else was touched. */
    ghost predicate Progress(before: seq<byte>, target: SlotId, stream: seq<byte>, pages: nat, offset: nat)
      reads this, board
    {
      && board.Valid() && OutsideUnchanged(before, board.flash, target) && Within(log, target)
      && offset <= |stream| && offset <= pages * PAGE <= SLOT_SIZE
      && Disciplined(Base(target), log, pages, offset)
      && board.flash[Base(target)..Base(target) + offset] == stream[..offset]
      && forall i :: Base(target) + offset <= i < Base(target) + pages * PAGE ==> board.flash[i] == 255
    }

    /** And no page was erased before it was needed. */
    ghost predicate Tight(before: seq<byte>, target: SlotId, stream: seq<byte>, pages: nat, offset: nat)
      reads this, board
    {
      Progress(before, target, stream, pages, offset) && pages * PAGE < offset + PAGE
    }

    /** One more page. */
    method EraseNext(ghost before: seq<byte>, target: SlotId, ghost stream: seq<byte>, ghost pages: nat, ghost offset: nat, start: nat)
      returns (err: int)
      requires Progress(before, target, stream, pages, offset)
      requires start == Base(target) + pages * PAGE && (pages + 1) * PAGE <= SLOT_SIZE
      modifies this`log, board`flash
      ensures board.Valid() && OutsideUnchanged(before, board.flash, target) && Within(log, target)
      ensures err == 0 ==> Progress(before, target, stream, pages + 1, offset)
      ensures err == 0 || (err == -1 && !Reliable())
    {
      ghost var was := board.flash;
      EraseLogged(target, log, pages, offset);
      err := RawErase(start);
      if err == 0 {
        SamePrefix(was, board.flash, Base(target), offset);
      }
    }

    /** The inner loop: erase pages until the chunk fits. */
    method EraseAhead(ghost before: seq<byte>, target: SlotId, ghost stream: seq<byte>, ghost pages: nat,
                      offset: nat, recvLen: nat, eraseStart: nat)
      returns (err: int, eraseStart': nat, ghost pages': nat)
      requires Tight(before, target, stream, pages, offset)
      requires eraseStart == Base(target) + pages * PAGE && 0 < recvLen && offset + recvLen <= SLOT_SIZE
      modifies this`log, board`flash
      ensures board.Valid() && OutsideUnchanged(before, board.flash, target) && Within(log, target)
      ensures err == 0 ==>
        && Progress(before, target, stream, pages', offset) && eraseStart' == Base(target) + pages' * PAGE
        && offset + recvLen <= pages' * PAGE < offset + recvLen + PAGE
      ensures err == 0 || (err == -1 && !Reliable())
    {
      err, eraseStart', pages' := 0, eraseStart, pages;
      while offset + Base(target) + recvLen > eraseStart'
        invariant eraseStart' == Base(target) + pages' * PAGE
        invariant Progress(before, target, stream, pages', offset)
        invariant pages' * PAGE < offset + recvLen + PAGE
        decreases offset + recvLen + Base(target) - eraseStart'
      {
        err := EraseNext(before, target, stream, pages', offset, eraseStart');
        if err != 0 {
          return;
        }
        pages' := pages' + 1;
        eraseStart' := eraseStart' + PAGE;
      }
    }

    /** The write of a chunk whose pages are erased. */
    method WriteChunk(ghost before: seq<byte>, target: SlotId, ghost stream: seq<byte>, ghost pages: nat,
                      offset: nat, data: seq<byte>)
      returns (err: int)
      requires Progress(before, target, stream, pages, offset) && 0 < |data| && offset + |data| <= pages * PAGE
      requires offset + |data| <= |stream| && data == stream[offset..offset + |data|]
      modifies this`log, board`flash
      ensures board.Valid() && OutsideUnchanged(before, board.flash, target) && Within(log, target)
      ensures err == 0 ==> Progress(before, target, stream, pages, offset + |data|)
      ensures err == 0 || (err == -1 && !Reliable())
    {
      ghost var was := board.flash;
      WriteLogged(target, log, pages, offset, |data|);
      err := RawWrite(Base(target) + offset, data);
      StillOutside(before, was, board.flash, target, Base(target) + offset, |data|);
      if err == 0 {
        ghost var now := board.flash;
        assert now == Programmed(was, Base(target) + offset, data);
        ChunkInPlace(was, Base(target), stream, offset, data, pages * PAGE);
      }
    }

    /** The body of the download loop for a chunk that has arrived. */
    method StoreChunk(ghost before: seq<byte>, target: SlotId, ghost stream: seq<byte>, ghost pages: nat,
                      offset: nat, data: seq<byte>, eraseStart: nat)
      returns (err: int, eraseStart': nat, ghost pages': nat)
      requires Tight(before, target, stream, pages, offset)
      requires eraseStart == Base(target) + pages * PAGE
      requires 0 < |data| && offset + |data| <= SLOT_SIZE
      requires offset + |data| <= |stream| && data == stream[offset..offset + |data|]
      modifies this`log, board`flash
      ensures board.Valid() && OutsideUnchanged(before, board.flash, target) && Within(log, target)
      ensures err == 0 ==>
        && Tight(before, target, stream, pages', offset + |data|) && eraseStart' == Base(target) + pages' * PAGE
      ensures err == 0 || (err == -1 && !Reliable())
    {
      err, eraseStart', pages' := EraseAhead(before, target, stream, pages, offset, |data|, eraseStart);
      if err == 0 {
        err := WriteChunk(before, target, stream, pages', offset, data);
      }
    }

    /** The first half of a turn of the download loop: whatever has arrived is
        checked against the slot's size and stored. */
    method StoreArrived(ghost before: seq<byte>, target: SlotId, stream: seq<byte>, ghost pages: nat,
                        offset: nat, recvLen: int, eraseStart: nat)
      returns (err: int, offset': nat, eraseStart': nat, ghost pages': nat)
      requires Tight(before, target, stream, pages, offset)
      requires eraseStart == Base(target) + pages * PAGE && offset + recvLen <= |stream|
      modifies this`log, board`flash
      ensures board.Valid() && OutsideUnchanged(before, board.flash, target) && Within(log, target)
      ensures err == 0 || (err == -1 && !Reliable()) || err == -6
      ensures err != -1 ==> Tight(before, target, stream, pages', offset')
      ensures err == 0 ==>
        && offset' == offset + (if recvLen > 0 then recvLen else 0) && eraseStart' == Base(target) + pages' * PAGE
      ensures err == -6 <==> recvLen > 0 && offset + recvLen > SLOT_SIZE
      ensures err == -6 ==> offset' == offset && board.flash == old(board.flash)
    {
      err, offset', eraseStart', pages' := 0, offset, eraseStart, pages;
      if recvLen > 0 {
        if offset + recvLen > SLOT_SIZE {
          err := -6;
          return;
        }
        err, eraseStart', pages' := StoreChunk(before, target, stream, pages, offset,
                                               stream[offset..offset + recvLen], eraseStart);
        offset' := offset + recvLen;
      }
    }

    /** The download loop of `http_rsp_image`. */
    method DownloadLoop(target: SlotId, stream: seq<byte>, first: nat, bodyLen: nat, net: seq<RecvEvent>)
      returns (ret: Option<int>, ghost pages: nat, written: nat)
      requires board.Valid() && first <= |stream| && log == [] && bodyLen <= SLOT_SIZE
      modifies this`log, board`flash
      ensures board.Valid() && OutsideUnchanged(old(board.flash), board.flash, target) && Within(log, target)
      ensures ret != Some(-1) ==> Tight(old(board.flash), target, stream, pages, written)
      ensures ret == Some(0) ==> bodyLen <= written && (first <= bodyLen ==> written == bodyLen)
      ensures ret == Some(-6) ==> board.flash == old(board.flash)
      ensures ret.Some? ==> ret.value == 0 || (ret.value == -1 && !Reliable()) || ret.value == -6 || ret.value == -7
      ensures ret == Some(-6) <==> first > SLOT_SIZE
      ensures ret == Some(-7) ==> RecvError in net
      ensures ret == None ==> RecvError !in net && (first <= bodyLen <= |stream| ==> Productive(net) <= written < bodyLen)
      ensures Reliable() && Suffices(net, stream, first, bodyLen) ==> ret == Some(0)
    {
      pages, written, ret := 0, 0, Some(0);
      var recvLen := first as int;
      var eraseStart := Base(target);
      var k := 0;
      ghost var before := board.flash;
      while true
        invariant k <= |net| && ret == Some(0)
        invariant Tight(before, target, stream, pages, written) && eraseStart == Base(target) + pages * PAGE
        invariant written + recvLen <= |stream| && RecvError !in net[..k]
        invariant k == 0 ==> written == 0 && recvLen == first && board.flash == before
        invariant k > 0 ==> written < bodyLen && written + recvLen <= bodyLen && first <= SLOT_SIZE
        invariant bodyLen <= |stream| && first <= bodyLen ==> Productive(net[..k]) <= written + (if recvLen > 0 then recvLen else 0)
        decreases |net| - k
      {
        var err: int;
        err, written, eraseStart, pages := StoreArrived(before, target, stream, pages, written, recvLen, eraseStart);
        if err != 0 {
          ret := Some(err);
          break;
        }
        recvLen := bodyLen - written;
        if recvLen == 0 {
          break;
        }
        if k == |net| {
          assert net[..k] == net;
          ret := None;
          break;
        }
        var got := Recv(net[k], Min(recvLen, RECBUFFER_LEN), |stream| - written);
        if got.None? {
          ret := Some(-7);
          break;
        }
        recvLen := got.value;
        assert net[..k + 1][..k] == net[..k];
        k := k + 1;
        if written >= bodyLen {
          break;
        }
      }
    }

    /** `http_rsp_image` from the end of the response header on. The first
        packet carries `first` bytes of the body stream, later reads deliver
        whatever the network decides; the result is absent while the loop is
        still waiting when the network has nothing more to say. */
    method HttpRspImage(runningIdx: SlotId, stream: seq<byte>, first: int, bodyLen: int, net: seq<RecvEvent>)
      returns (ret: Option<int>, ghost pages: nat, written: nat)
      requires board.Valid() && first <= |stream| && log == []
      modifies this`log, board`flash
      // Only the inactive slot is touched, whatever happens.
      ensures board.Valid() && OutsideUnchanged(old(board.flash), board.flash, 1 - runningIdx)
      ensures Within(log, 1 - runningIdx)
      // Unless a flash operation failed, every page is erased once and before
      // its first write, and the slot begins with what was received so far.
      ensures ret != Some(-1) ==> Tight(old(board.flash), 1 - runningIdx, stream, pages, written)
      // Success means that the whole body is there.
      ensures ret == Some(0) ==> 0 <= bodyLen <= written && (first <= bodyLen ==> written == bodyLen)
      ensures ret.Some? ==> ret.value <= 0
      // Refusals leave the flash alone.
      ensures ret == Some(-4) <==> !(0 <= bodyLen <= SLOT_SIZE)
      ensures ret == Some(-5) <==> 0 <= bodyLen <= SLOT_SIZE && first < 0
      ensures ret == Some(-6) <==> 0 <= bodyLen <= SLOT_SIZE < first
      ensures ret.Some? && -6 <= ret.value <= -4 ==> board.flash == old(board.flash)
      // The other results: a flash operation or a read has failed, or the network
      // has said all it has to say and that was not enough.
      ensures ret.Some? && ret.value < -6 ==> ret.value == -7 && RecvError in net
      ensures ret.Some? && -4 < ret.value < 0 ==> ret.value == -1 && !Reliable()
      ensures ret == None ==> RecvError !in net && (first <= bodyLen <= |stream| ==> Productive(net) <= written < bodyLen)
      // However the network splits the body, it is stored once all of it has come.
      ensures Reliable() && Suffices(net, stream, first, bodyLen) ==> ret == Some(0)
    {
      pages, written := 0, 0;
      // body_len is converted to unsigned in this comparison
      if bodyLen < 0 || bodyLen > SLOT_SIZE {
        ret := Some(-4);
      } else if first < 0 {
        ret := Some(-5);
      } else {
        ret, pages, written := DownloadLoop(1 - runningIdx, stream, first, bodyLen, net);
      }
    }

    /** The three flag writes; all are attempted, each may fail. */
    method SetImageStatus(runningIdx: SlotId, ok: (bool, bool, bool)) returns (res: bool)
      requires board.Valid()
      modifies board`st0, board`st1
      ensures board.Valid() && res == (ok.0 && ok.1 && ok.2)
      ensures board.Persistent() == AfterFlagWrites(old(board.Persistent()), runningIdx, ok)
    {
      if ok.0 {
        board.SetImgFlag(runningIdx, IA_MASK | NEWER_MASK, IA_OK | OLDER);
      }
      if ok.1 {
        board.SetImgFlag(1 - runningIdx, IA_MASK | VERIFY_MASK | NEWER_MASK, 0);
      }
      if ok.2 {
        board.SetImgFlag(1 - runningIdx, NEWER_MASK, NEWER);
      }
      res := ok.0 && ok.1 && ok.2;
    }

    /** `ota_demo_task`: download, then promote the new image. Whatever fails,
        the running image stays the one to fall back to; when everything
        succeeds the next boot executes the downloaded body if it is genuine,
        and the running image otherwise. */
    method OtaDemoTask(stream: seq<byte>, first: int, bodyLen: int, net: seq<RecvEvent>, ok: (bool, bool, bool))
      returns (done: bool, written: nat, ret: Option<int>)
      requires board.Valid() && first <= |stream| && log == []
      modifies this`log, board`flash, board`st0, board`st1
      ensures board.Valid()
      // The flags are touched only after a complete download.
      ensures ret != Some(0) ==> !done && board.st0 == old(board.st0) && board.st1 == old(board.st1)
      ensures ret == Some(0) ==>
                && old(board.running).Some? && done == (ok.0 && ok.1 && ok.2)
                && board.Persistent() == AfterFlagWrites(old(board.Persistent()).(flash := board.flash), old(board.running).value, ok)
      ensures old(board.running).None? ==> !done && board.Persistent() == old(board.Persistent())
      ensures var env := board.env;
              old(board.running).Some? && env.Verifying() && Anchor(env, old(board.Persistent()), old(board.running).value) ==>
                var i := old(board.running).value;
                && Anchor(env, board.Persistent(), i)
                && BootsGenuine(env, board.Persistent())
                && (done ==> BootChain(env, board.Persistent()).1 ==
                               Jump(if Authentic(env, board.Persistent(), 1 - i) then 1 - i else i))
      ensures done ==>
                var base := Base(1 - old(board.running).value);
                && 0 <= bodyLen <= written <= |stream| && written <= SLOT_SIZE
                && board.flash[base..base + written] == stream[..written]
                && (first <= bodyLen ==> written == bodyLen)
      ensures old(board.running).Some? && Reliable() && Suffices(net, stream, first, bodyLen) && ok == (true, true, true) ==> done
    {
      done, written, ret := false, 0, None;
      if board.running.None? {
        return;
      }
      var i := board.running.value;
      ghost var d0 := board.Persistent();
      ghost var pages: nat;
      ret, pages, written := HttpRspImage(i, stream, first, bodyLen, net);
      ghost var d1 := board.Persistent();
      if ret.Some? && ret.value >= 0 {
        done := SetImageStatus(i, ok);
      }
      ghost var env := board.env;
      if env.Verifying() && Anchor(env, d0, i) {
        UpdateKeepsAnchor(env, d0, d1.flash, i, ok);
        if done {
          UpdateTakesEffectIff(env, d1, i);
        }
      }
    }

    /** `cmd_image_switch`: a failed read of the running index goes unnoticed and
        leaves it at 0. */
    method CmdImageSwitch(readOk: bool, ok: (bool, bool, bool)) returns (done: bool)
      requires board.Valid()
      modifies board`st0, board`st1
      ensures board.Valid()
      ensures done == (ok.0 && ok.1 && ok.2)
      ensures var idx := if readOk && old(board.running).Some? then old(board.running).value else 0;
              board.Persistent() == AfterFlagWrites(old(board.Persistent()), idx, ok)
      ensures board.env.Verifying() && readOk && old(board.running).Some?
              && Anchor(board.env, old(board.Persistent()), old(board.running).value) ==>
                BootsGenuine(board.env, board.Persistent())
    {
      var runningIdx: SlotId := 0;
      if readOk && board.running.Some? {
        runningIdx := board.running.value;
      }
      ghost var d := board.Persistent();
      done := SetImageStatus(runningIdx, ok);
      if board.env.Verifying() && readOk && board.running.Some? && Anchor(board.env, d, runningIdx) {
        UpdateKeepsAnchor(board.env, d, d.flash, runningIdx, ok);
      }
    }
  }

  lemma FlagWriteKeepsAnchor(env: Env, d: Device, i: SlotId, w: FlagWrite)
    requires env.Verifying() && Anchor(env, d, i)
    ensures Anchor(env, Apply(d, i, w), i)
  {
    var b := Apply(d, i, w).St(i).value;
    assert VerifiedOk(b) && !IaBad(b) && (IsNewer(b) || IaOk(b));
  }

  lemma UpdateKeepsAnchor(env: Env, d: Device, flash: seq<byte>, i: SlotId, ok: (bool, bool, bool))
    requires env.Verifying() && Anchor(env, d, i) && OutsideUnchanged(d.flash, flash, 1 - i)
    ensures var d1 := d.(flash := flash);
            && Anchor(env, d1, i) && BootsGenuine(env, d1)
            && Anchor(env, AfterFlagWrites(d1, i, ok), i) && BootsGenuine(env, AfterFlagWrites(d1, i, ok))
  {
    var d1 := d.(flash := flash);
    assert Contents(flash, i) == Contents(d.flash, i);
    AnchorRecovers(env, d1, i);
    RecoverableBoots(env, d1);
    FlagWriteKeepsAnchor(env, d1, i, RetireRunning);
    var d2 := if ok.0 then Apply(d1, i, RetireRunning) else d1;
    FlagWriteKeepsAnchor(env, d2, i, ClearOther);
    var d3 := if ok.1 then Apply(d2, i, ClearOther) else d2;
    FlagWriteKeepsAnchor(env, d3, i, PromoteOther);
    var d4 := AfterFlagWrites(d1, i, ok);
    AnchorRecovers(env, d4, i);
    RecoverableBoots(env, d4);
  }

  lemma StillOutside(before: seq<byte>, was: seq<byte>, now: seq<byte>, target: SlotId, a: nat, n: nat)
    requires OutsideUnchanged(before, was, target) && |now| == FLASH_SIZE
    requires Base(target) <= a && a + n <= Base(target) + SLOT_SIZE
    requires forall i :: 0 <= i < FLASH_SIZE && !(a <= i < a + n) ==> now[i] == was[i]
    ensures OutsideUnchanged(before, now, target)
  {
  }

  /** Writing the next bytes of the stream on erased pages extends what is stored
      and leaves the rest of the pages blank. */
  lemma ChunkInPlace(was: seq<byte>, base: nat, stream: seq<byte>, offset: nat, data: seq<byte>, end: nat)
    requires offset + |data| <= end && base + end <= |was| && offset + |data| <= |stream| && data == stream[offset..offset + |data|]
    requires was[base..base + offset] == stream[..offset] && forall i :: base + offset <= i < base + end ==> was[i] == 255
    ensures var now := Programmed(was, base + offset, data);
            && now[base..base + (offset + |data|)] == stream[..offset + |data|]
            && forall i :: base + (offset + |data|) <= i < base + end ==> now[i] == 255
  {
    ProgramErased(was, base + offset, data);
    WriteExtends(was, Programmed(was, base + offset, data), base, stream, offset, offset + |data|);
  }

  lemma WriteExtends(was: seq<byte>, now: seq<byte>, base: nat, stream: seq<byte>, lo: nat, hi: nat)
    requires |was| == |now| && base + hi <= |now| && lo <= hi <= |stream|
    requires was[base..base + lo] == stream[..lo] && now[base + lo..base + hi] == stream[lo..hi]
    requires forall i :: base <= i < base + lo ==> now[i] == was[i]
    ensures now[base..base + hi] == stream[..hi]
  {
    assert now[base..base + hi] == now[base..base + lo] + now[base + lo..base + hi];
    assert stream[..hi] == stream[..lo] + stream[lo..hi];
    assert now[base..base + lo] == was[base..base + lo];
  }
}
