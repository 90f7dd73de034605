/** Stage 2 of the serial flasher: stop-and-wait blocks over a lossy line to a
    loader that writes NOR flash, and the hash check at the end. */
module IspFlasher {
  import opened Common
  import opened Nor
  import opened IspFrames
  import BootLoader

  const ACK: byte := 0x06
  const CAN: byte := 0x18
  const EOT: byte := 0x04
  const CMD_BAUDSET: byte := 0x05
  const FLASH_SIZE := BootLoader.FLASH_SIZE
  const SPACE := 0x100_0000  // the loader sees 24-bit flash offsets

  /** What becomes of one exchange. Replies are lost, never delayed; the loader
      may also cancel instead of answering. */
  datatype Loss = Clear | FrameLost | ReplyLost | Cancelled

  /** A schedule of exchanges; one that has run out is clear from there on. */
  function Now(line: seq<Loss>): Loss { if line == [] then Clear else line[0] }

  function Later(line: seq<Loss>): seq<Loss> { if line == [] then [] else line[1..] }

  predicate AllClear(line: seq<Loss>) {
    forall j :: 0 <= j < |line| ==> line[j] == Clear
  }

  /** SHA-256, left uninterpreted but for its length. */
  type Digest = seq<byte> -> seq<byte>

  function Hash(sha: Digest, s: seq<byte>): (h: seq<byte>)
    ensures |h| == 32
  {
    if |sha(s)| == 32 then sha(s) else seq(32, _ => 0)
  }

  // ---- A faithful loader ------------------------------------------------------

  datatype Target = Target(mem: seq<byte>, want: byte, frameSize: nat, taken: seq<Block>)

  function Took(t: Target, b: Block): Target
    requires b.addr >= 0
  {
    t.(mem := Programmed(t.mem, b.addr % SPACE, b.payload), want := (t.want + 1) % 256, taken := t.taken + [b])
  }

  /** The loader's answer to a block: it takes the expected number, acknowledges
      the previous one again without writing, and cancels on any other. */
  function OnBlock(t: Target, b: Block): (Target, seq<byte>) {
    if b.addr < 0 then (t, [])
    else if b.no == t.want then (Took(t, b), [ACK])
    else if (b.no + 1) % 256 == t.want then (t, [ACK])
    else (t, [CAN])
  }

  function OnCommand(t: Target, c: Command, sha: Digest): (Target, seq<byte>) {
    match c
    case EraseRange(chip, o, n) =>
      if chip then (t.(mem := Erased(t.mem, 0, |t.mem|)), [ACK])
      else if o < 0 || n < 0 then (t, []) else (t.(mem := Erased(t.mem, o, n * SECTOR)), [ACK])
    case FrameSize(size) => if size < 0 then (t, []) else (t.(frameSize := size), [ACK])
    case HashRange(o, n) => (t, if 0 <= o <= o + n <= |t.mem| then Hash(sha, t.mem[o..o + n]) else [])
  }

  function OnFrame(t: Target, f: seq<byte>, sha: Digest): (Target, seq<byte>) {
    if f == [] then (t, [])
    else if f[0] == STX || f[0] == SOH then
      match DecodeBlock(f, t.frameSize)
      case None => (t, [])
      case Some(b) => OnBlock(t, b)
    else if f == [EOT] || (f[0] == CMD_BAUDSET && |f| == 5) then (t, [ACK])
    else match DecodeCommand(f)
      case None => (t, [])
      case Some(c) => OnCommand(t, c, sha)
  }

  // ---- What the flash should hold ---------------------------------------------

  /** Bytes m to n of the image in their place at offset o, the rest as it was. */
  function Stored(before: seq<byte>, o: nat, image: seq<byte>, m: nat, n: nat): (after: seq<byte>)
    requires n <= |image|
    ensures |after| == |before|
  {
    seq(|before|, i requires 0 <= i < |before| => if o + m <= i < o + n then image[i - o] else before[i])
  }

  /** Padding bytes clear no bits, so a padded block changes nothing beyond its
      data, even where it runs past the erased range or past the flash. */
  lemma PaddingIsHarmless(mem: seq<byte>, a: nat, data: seq<byte>, tx: nat)
    requires |data| <= tx && a + |data| <= |mem|
    ensures Programmed(mem, a, Padded(data, tx)) == Programmed(mem, a, data)
  {
    forall i | 0 <= i < |mem|
      ensures Programmed(mem, a, Padded(data, tx))[i] == Programmed(mem, a, data)[i]
    {
      AndByte(mem[i]);
      if a <= i < a + |data| { assert Padded(data, tx)[i - a] == data[i - a]; }
    }
  }

  /** Where the n-th block starts. */
  function Start(tx: nat, n: nat): nat {
    if n == 0 then 0 else Start(tx, n - 1) + tx
  }

  /** The n-th block of an image: numbered from `no` with wrap-around, addressed,
      padded. */
  function NthBlock(image: seq<byte>, addr: nat, tx: nat, no: byte, n: nat): Block {
    Block((no + n) % 256, addr + Start(tx, n), Padded(Chunk(image, Start(tx, n), tx), tx))
  }

  function Chunk(image: seq<byte>, off: nat, tx: nat): (c: seq<byte>)
    ensures |c| <= tx
  {
    image[Min(off, |image|)..Min(off + tx, |image|)]
  }

  /** Blocks lo to n of an image. */
  function BlockList(image: seq<byte>, addr: nat, tx: nat, no: byte, lo: nat, n: nat): (r: seq<Block>)
    requires lo <= n
    ensures |r| == n - lo
  {
    if n == lo then [] else BlockList(image, addr, tx, no, lo, n - 1) + [NthBlock(image, addr, tx, no, n - 1)]
  }

  /** The loader after it has taken exactly blocks lo to n, in order, of an image
      numbered from `no`; o is the flash offset of the image's address. */
  function AfterBlocks(t0: Target, image: seq<byte>, addr: nat, o: nat, tx: nat, no: byte, lo: nat, n: nat): Target
    requires lo <= n
  {
    Target(Stored(t0.mem, o, image, Start(tx, lo), Min(Start(tx, n), |image|)), (no + n) % 256, t0.frameSize,
           t0.taken + BlockList(image, addr, tx, no, lo, n))
  }

  lemma StoredStep(before: seq<byte>, o: nat, image: seq<byte>, m: nat, off: nat, tx: nat)
    requires m <= off <= |image| && o + |image| <= |before|
    requires forall i :: o <= i < o + |image| ==> before[i] == 255
    ensures Programmed(Stored(before, o, image, m, off), o + off, Padded(Chunk(image, off, tx), tx))
         == Stored(before, o, image, m, Min(off + tx, |image|))
  {
    var now := Stored(before, o, image, m, off);
    var data := Chunk(image, off, tx);
    PaddingIsHarmless(now, o + off, data, tx);
    forall k | 0 <= k < |data|
      ensures And(255, data[k]) == data[k]
    {
      AndByte(data[k]);
    }
  }

  /** One more block, taken on erased flash. */
  lemma BlockStep(t0: Target, image: seq<byte>, addr: nat, o: nat, tx: nat, no: byte, lo: nat, n: nat)
    requires lo <= n && Start(tx, n) < |image| && o == addr % SPACE && o + |image| <= |t0.mem| <= SPACE
    requires forall i :: o <= i < o + |image| ==> t0.mem[i] == 255
    ensures Took(AfterBlocks(t0, image, addr, o, tx, no, lo, n), NthBlock(image, addr, tx, no, n))
         == AfterBlocks(t0, image, addr, o, tx, no, lo, n + 1)
  {
    var t, t' := AfterBlocks(t0, image, addr, o, tx, no, lo, n), AfterBlocks(t0, image, addr, o, tx, no, lo, n + 1);
    var off := Start(tx, n);
    var b := NthBlock(image, addr, tx, no, n);
    assert Programmed(t.mem, b.addr % SPACE, b.payload) == t'.mem by {
      Offset(addr, off);
      StartMonotone(tx, lo, n);
      StoredStep(t0.mem, o, image, Start(tx, lo), off, tx);
    }
    assert (t.want + 1) % 256 == t'.want by { Wrap(no, n); }
    assert t.taken + [b] == t'.taken;
  }

  lemma Wrap(no: byte, n: nat)
    ensures ((no + n) % 256 + 1) % 256 == (no + n + 1) % 256
  {
  }

  lemma Offset(addr: nat, x: nat)
    requires addr % SPACE + x < SPACE
    ensures (addr + x) % SPACE == addr % SPACE + x
  {
  }

  function TxBlockFor(baud: nat): (tx: nat)
    ensures tx % 256 == 0 && 128 < tx < 65536
  {
    if baud == 921600 then 2048 else if baud == 2000000 then 2560 else if baud == 3000000 then 3072 else 1024
  }

  /** The block size follows the rate. */
  lemma TxBlockTable(baud: nat)
    ensures TxBlockFor(921600) == 2048 && TxBlockFor(2000000) == 2560 && TxBlockFor(3000000) == 3072
    ensures baud != 921600 && baud != 2000000 && baud != 3000000 ==> TxBlockFor(baud) == 1024
  {
  }

  /** A block's tries on this line: one of them is clear before a cancel. */
  predicate Through(line: seq<Loss>, tries: nat) {
    tries > 0 && (Now(line) == Clear || (Now(line) != Cancelled && Through(Later(line), tries - 1)))
  }

  /** Some try out of every six in a row gets through, and nothing is cancelled. */
  ghost predicate Tolerable(line: seq<Loss>) {
    && (forall i :: 0 <= i <= |line| - 6 ==> SomeClear(line, i))
    && forall j :: 0 <= j < |line| ==> line[j] != Cancelled
  }

  ghost predicate SomeClear(line: seq<Loss>, i: int) {
    exists j :: 0 <= i <= j < i + 6 && j < |line| && line[j] == Clear
  }

  lemma TolerableSuffix(line: seq<Loss>, k: nat)
    requires Tolerable(line) && k <= |line|
    ensures Tolerable(line[k..])
  {
    forall i | 0 <= i <= |line[k..]| - 6
      ensures SomeClear(line[k..], i)
    {
      assert SomeClear(line, k + i);
      var j :| k + i <= j < k + i + 6 && j < |line| && line[j] == Clear;
      assert line[k..][j - k] == Clear;
    }
  }

  lemma LaterIsTolerable(line: seq<Loss>)
    ensures Tolerable(line) ==> Tolerable(Later(line))
  {
    if Tolerable(line) && line != [] { TolerableSuffix(line, 1); }
  }

  lemma {:induction false} NotThrough(line: seq<Loss>, tries: nat)
    requires !Through(line, tries) && forall j :: 0 <= j < |line| ==> line[j] != Cancelled
    ensures tries <= |line| && forall j :: 0 <= j < tries ==> line[j] != Clear
  {
    if tries > 0 { NotThrough(line[1..], tries - 1); }
  }

  /** What becomes of the j-th exchange from now. */
  function At(line: seq<Loss>, j: nat): Loss { if j < |line| then line[j] else Clear }

  /** A block gets through exactly if one of its tries is clear and none before it
      was cancelled. */
  lemma {:induction false} ThroughIff(line: seq<Loss>, tries: nat)
    ensures Through(line, tries) <==>
              exists j :: 0 <= j < tries && At(line, j) == Clear && forall i :: 0 <= i < j ==> At(line, i) != Cancelled
  {
    if tries > 0 {
      ThroughIff(Later(line), tries - 1);
      assert forall j: nat :: At(Later(line), j) == At(line, j + 1);
      assert Now(line) == At(line, 0);
      if Now(line) != Clear && Through(Later(line), tries - 1) {
        var j :| 0 <= j < tries - 1 && At(Later(line), j) == Clear && forall i :: 0 <= i < j ==> At(Later(line), i) != Cancelled;
        assert At(line, j + 1) == Clear;
        if Now(line) != Cancelled {
          assert forall i :: 0 <= i < j + 1 ==> At(line, i) != Cancelled by { ShiftAt(line, j); }
        }
      }
      if j :| 0 < j < tries && At(line, j) == Clear && forall i :: 0 <= i < j ==> At(line, i) != Cancelled {
        assert At(Later(line), j - 1) == Clear;
        assert forall i :: 0 <= i < j - 1 ==> At(Later(line), i) == At(line, i + 1);
      }
    }
  }

  lemma ShiftAt(line: seq<Loss>, j: nat)
    requires At(line, 0) != Cancelled && forall i :: 0 <= i < j ==> At(Later(line), i) != Cancelled
    ensures forall i :: 0 <= i < j + 1 ==> At(line, i) != Cancelled
  {
    forall i | 0 <= i < j + 1
      ensures At(line, i) != Cancelled
    {
      if i > 0 { assert At(line, i) == At(Later(line), i - 1); }
    }
  }

  lemma TolerableGetsThrough(line: seq<Loss>)
    ensures Tolerable(line) ==> Through(line, 6)
  {
    if !Through(line, 6) && forall j :: 0 <= j < |line| ==> line[j] != Cancelled {
      NotThrough(line, 6);
      assert !SomeClear(line, 0);
    }
  }

  datatype Verdict = Done | NoAnswer | HashMismatch

  class SramLoader {
    var t: Target            // the far end of the line
    var line: seq<Loss>      // what happens to the block exchanges still to come
    var control: seq<Loss>   // and to the command exchanges, which are never retried
    var packetno: byte
    var txBlock: nat
    const sha: Digest

    constructor (t: Target, line: seq<Loss>, control: seq<Loss>, sha: Digest)
      ensures this.t == t && this.line == line && this.control == control && this.sha == sha
      ensures packetno == 1 && txBlock == 1024
    {
      this.t, this.line, this.control, this.sha, packetno, txBlock := t, line, control, sha, 1, 1024;
    }

    ghost predicate InSync()
      reads this
    {
      packetno == t.want && txBlock == t.frameSize
    }

    /** Write a frame, read a reply; a lost reply reads as nothing. */
    method Exchange(f: seq<byte>, loss: Loss) returns (reply: seq<byte>)
      modifies this`t
      ensures var (t', r) := OnFrame(old(t), f, sha);
              && t == (if loss.Clear? || loss.ReplyLost? then t' else old(t))
              && reply == match loss { case Clear => r case Cancelled => [CAN] case _ => [] }
    {
      if loss == FrameLost {
        return [];
      }
      if loss == Cancelled {
        return [CAN];
      }
      var (t', r) := OnFrame(t, f, sha);
      t := t';
      reply := if loss == ReplyLost then [] else r;
    }

    /** The first three bytes of a frame, and its length. */
    method FrameHead() returns (frame: seq<byte>, ghost head: seq<byte>)
      ensures head == [if txBlock > 128 then STX else SOH, packetno, 255 - packetno]
      ensures frame == head + Pads(txBlock + 5)
    {
      frame := Pads(txBlock + 8);
      var start := if txBlock > 128 then STX else SOH;
      frame := frame[0 := start];
      frame := frame[1 := packetno];
      frame := frame[2 := 255 - packetno];
      head := [start, packetno, 255 - packetno];
      HeadOf(start, packetno, 255 - packetno, txBlock + 5);
    }

    /** The frame of `send_block`, filled in the way the source does. */
    method BuildFrame(data: seq<byte>, addr: nat) returns (frame: seq<byte>)
      requires |data| <= txBlock
      ensures frame == EncodeBlock(packetno, addr, data, txBlock)
    {
      ghost var head;
      frame, head := FrameHead();
      var le := Le4(addr);
      Overwrite(head, le, txBlock + 1);
      frame := frame[..3] + le + frame[7..];
      assert frame == head + le + Pads(txBlock + 1);
      Overwrite(head + le, data, txBlock + 1 - |data|);
      frame := frame[..7] + data + frame[7 + |data|..];
      LastByte(head, le, data, txBlock);
      var sum := Checksum(frame[3..7 + txBlock], 0);
      frame := frame[7 + txBlock := sum];
    }

    /** One try of a block, before or after the loader has taken it. */
    method TryBlock(frame: seq<byte>, ghost t0: Target, ghost b: Block, ghost took: bool)
      returns (reply: seq<byte>, ghost took': bool)
      requires DecodeBlock(frame, t0.frameSize) == Some(b) && b.addr >= 0 && (took ==> b.no == t0.want)
      requires t == if took then Took(t0, b) else t0
      modifies this`t, this`line
      ensures line == Later(old(line))
      ensures t == (if took' then Took(t0, b) else t0) && (took' ==> b.no == t0.want)
      ensures if Now(old(line)) == Clear then (took' <==> b.no == t0.want) && reply == Reply(t0, b)
              else reply == if Now(old(line)) == Cancelled then [CAN] else []
    {
      BlockAnswer(t0, frame, b, took, sha);
      took' := took || ((Now(line) == Clear || Now(line) == ReplyLost) && b.no == t0.want);
      reply := Exchange(frame, Now(line));
      line := Later(line);
    }

    /** One turn of the retry loop: acknowledged, cancelled, or once more. */
    method Attempt(frame: seq<byte>, ghost t0: Target, ghost b: Block, ghost took: bool)
      returns (done: Option<bool>, ghost took': bool)
      requires DecodeBlock(frame, t0.frameSize) == Some(b) && b.addr >= 0 && (took ==> b.no == t0.want)
      requires t == (if took then Took(t0, b) else t0) && packetno == b.no && txBlock == t0.frameSize
      modifies this`t, this`line, this`packetno
      ensures line == Later(old(line))
      ensures t == (if took' then Took(t0, b) else t0) && (took' ==> b.no == t0.want)
      ensures match Now(old(line))
              case Clear => done == Some(Acknowledges(t0.want, b.no)) && (took' <==> b.no == t0.want)
              case Cancelled => done == Some(false)
              case _ => done == None
      ensures if done == Some(true) then InSync() && packetno == (b.no + 1) % 256 else packetno == b.no
    {
      var got: seq<byte>;
      got, took' := TryBlock(frame, t0, b, took);
      done := None;
      if got != [] && got[0] == ACK {
        packetno := (packetno + 1) % 256;
        done := Some(true);
      } else if got != [] && got[0] == CAN {
        done := Some(false);  // the acknowledgement of a cancel changes nothing at the far end
      }
    }

    /** `send_block`: up to six tries. It returns normally exactly when the loader
        acknowledges the block's number and the line lets a try through; then the
        two sides agree on the next number, and the loader has taken the block
        exactly once if it was the one expected, and not at all if it was taken
        for a repetition. When it gives up, at most once. */
    method SendBlock(data: seq<byte>, addr: nat, ghost b: Block) returns (ok: bool, ghost took: bool)
      requires txBlock == t.frameSize && |data| <= txBlock && addr < 0x1_0000_0000
      requires b == Block(packetno, addr, Padded(data, txBlock))
      modifies this`t, this`line, this`packetno
      ensures t == (if took then Took(old(t), b) else old(t)) && (took ==> b.no == old(t.want))
      ensures ok ==> (took <==> b.no == old(t.want)) && InSync() && packetno == (b.no + 1) % 256
      ensures ok <==> Acknowledges(old(t.want), b.no) && Through(old(line), 6)
      ensures Tolerable(old(line)) ==> Tolerable(line) && Through(old(line), 6)
    {
      ghost var t0, l0 := t, line;
      TolerableGetsThrough(l0);
      var frame := BuildFrame(data, addr);
      BlockRoundTrip(packetno, addr, data, txBlock);
      ok, took := false, false;
      for attempt := 0 to 6
        invariant packetno == b.no && txBlock == t0.frameSize
        invariant t == (if took then Took(t0, b) else t0) && (took ==> b.no == t0.want)
        invariant (Tolerable(l0) ==> Tolerable(line)) && Through(l0, 6) == Through(line, 6 - attempt)
      {
        LaterIsTolerable(line);
        var done: Option<bool>;
        done, took := Attempt(frame, t0, b, took);
        if done.Some? {
          ok := done.value;
          return;
        }
      }
    }

    /** A further turn of the block loop, the two sides in step. */
    method SendNth(image: seq<byte>, addr: nat, off: nat, ghost t0: Target, ghost o: nat, ghost no: byte, ghost lo: nat, ghost n: nat)
      returns (ok: bool, ghost n': nat)
      requires lo <= n && off == Start(txBlock, n) < |image| && addr + |image| <= 0x1_0000_0000
      requires o == addr % SPACE && o + |image| <= |t0.mem| <= SPACE
      requires forall i :: o <= i < o + |image| ==> t0.mem[i] == 255
      requires InSync() && t == AfterBlocks(t0, image, addr, o, txBlock, no, lo, n)
      modifies this`t, this`line, this`packetno
      ensures lo <= n' && t == AfterBlocks(t0, image, addr, o, txBlock, no, lo, n')
      ensures ok ==> n' == n + 1 && InSync()
      ensures Tolerable(old(line)) ==> ok && Tolerable(line)
    {
      BlockStep(t0, image, addr, o, txBlock, no, lo, n);
      ghost var took: bool;
      ok, took := SendBlock(Chunk(image, off, txBlock), addr + off, NthBlock(image, addr, txBlock, no, n));
      n' := if took then n + 1 else n;
    }

    /** The first turn, in which the loader's number may be any. */
    method SendFirst(image: seq<byte>, addr: nat, ghost o: nat) returns (ok: bool, ghost lo: nat, ghost n: nat)
      requires image != [] && addr + |image| <= 0x1_0000_0000 && txBlock == t.frameSize
      requires o == addr % SPACE && o + |image| <= |t.mem| <= SPACE
      requires forall i :: o <= i < o + |image| ==> t.mem[i] == 255
      modifies this`t, this`line, this`packetno
      ensures t == old(t) || (lo == 0 && n == 1 && t == AfterBlocks(old(t), image, addr, o, txBlock, old(packetno), 0, 1))
      ensures ok <==> Acknowledges(old(t.want), old(packetno)) && Through(old(line), 6)
      ensures ok ==> n == 1 && lo == (if old(t.want) == old(packetno) then 0 else 1) && InSync()
      ensures ok ==> t == AfterBlocks(old(t), image, addr, o, txBlock, old(packetno), lo, 1)
      ensures Tolerable(old(line)) ==> Tolerable(line) && Through(old(line), 6)
    {
      ghost var t0, no, tx := t, packetno, txBlock;
      StoredNothing(t0.mem, o, image, Start(tx, 1));
      StoredNothing(t0.mem, o, image, 0);
      if t0.want == no { BlockStep(t0, image, addr, o, tx, no, 0, 0); }
      ghost var took: bool;
      ok, took := SendBlock(Chunk(image, 0, txBlock), addr, NthBlock(image, addr, tx, no, 0));
      lo, n := if took then 0 else 1, 1;
    }

    /** The block loop of `flash_firmware`: every block is taken exactly once and in
        order, past the wrap of the packet number too; but if the loader expects
        the second number, the first block is acknowledged and never taken. */
    method Download(image: seq<byte>, addr: nat) returns (ok: bool, ghost lo: nat, ghost blocks: nat)
      requires txBlock == t.frameSize > 0 && addr + |image| <= 0x1_0000_0000
      requires addr % SPACE + |image| <= |t.mem| <= SPACE
      requires forall i :: addr % SPACE <= i < addr % SPACE + |image| ==> t.mem[i] == 255
      modifies this`t, this`line, this`packetno
      ensures t == old(t) || (lo <= blocks && t == AfterBlocks(old(t), image, addr, addr % SPACE, txBlock, old(packetno), lo, blocks))
      ensures ok ==> (forall n: nat :: Start(txBlock, n) < |image| <==> n < blocks)
      ensures ok && image != [] ==> lo == if old(t.want) == old(packetno) then 0 else 1
      ensures ok ==> t.mem == Stored(old(t.mem), addr % SPACE, image, Start(txBlock, lo), |image|)
      ensures ok ==> image == [] || Acknowledges(old(t.want), old(packetno))
      ensures Tolerable(old(line)) && Acknowledges(old(t.want), old(packetno)) ==> ok
    {
      ghost var t0, o, no := t, addr % SPACE, packetno;
      lo, blocks := 0, 0;
      if image == [] {
        StoredNothing(t0.mem, o, image, 0);
        ok := true;
        return;
      }
      ok, lo, blocks := SendFirst(image, addr, o);
      if ok {
        ok, blocks := SendRest(image, addr, t0, o, no, lo);
      }
    }

    /** The turns after the first. */
    method SendRest(image: seq<byte>, addr: nat, ghost t0: Target, ghost o: nat, ghost no: byte, ghost lo: nat)
      returns (ok: bool, ghost blocks: nat)
      requires lo <= 1 && image != [] && txBlock > 0 && addr + |image| <= 0x1_0000_0000
      requires o == addr % SPACE && o + |image| <= |t0.mem| <= SPACE
      requires forall i :: o <= i < o + |image| ==> t0.mem[i] == 255
      requires InSync() && t == AfterBlocks(t0, image, addr, o, txBlock, no, lo, 1)
      modifies this`t, this`line, this`packetno
      ensures lo <= blocks && t == AfterBlocks(t0, image, addr, o, txBlock, no, lo, blocks)
      ensures ok ==> Start(txBlock, blocks) >= |image| && (forall n: nat :: Start(txBlock, n) < |image| <==> n < blocks)
      ensures Tolerable(old(line)) ==> ok
    {
      var off := txBlock;
      blocks := 1;
      while off < |image|
        invariant 1 <= blocks && InSync() && off == Start(txBlock, blocks)
        invariant t == AfterBlocks(t0, image, addr, o, txBlock, no, lo, blocks)
        invariant Start(txBlock, blocks - 1) < |image|
        invariant Tolerable(old(line)) ==> Tolerable(line)
        decreases |image| - off
      {
        ok, blocks := SendNth(image, addr, off, t0, o, no, lo, blocks);
        if !ok {
          return;
        }
        off := off + txBlock;
      }
      CountBlocks(|image|, txBlock, blocks);
      ok := true;
    }

    /** A command that only expects an acknowledgement. */
    method Command(f: seq<byte>, ghost t': Target) returns (ok: bool)
      requires OnFrame(t, f, sha) == (t', [ACK])
      modifies this`t, this`control
      ensures t == t' || (!ok && t == old(t))
      ensures AllClear(old(control)) ==> ok && AllClear(control)
    {
      var reply := Exchange(f, Now(control));
      control := Later(control);
      ok := reply != [] && reply[0] == ACK;
    }

    /** Erase the range and agree on rate and frame size. */
    method Prepare(addr: nat, len: nat, baud: nat) returns (ok: bool)
      requires len < SPACE
      modifies this`t, this`control, this`txBlock
      ensures t.want == old(t.want)
      ensures t.mem == Erased(old(t.mem), addr % SPACE, Sectors(len) * SECTOR) || (!ok && t.mem == old(t.mem))
      ensures ok ==> txBlock == TxBlockFor(baud) == t.frameSize > 0
      ensures AllClear(old(control)) ==> ok && AllClear(control)
    {
      OnErase(t, addr, len, sha);
      ok := Command(EncodeErase(addr, len), t.(mem := Erased(t.mem, addr % SPACE, Sectors(len) * SECTOR)));
      if !ok {
        return;
      }
      ok := Command([CMD_BAUDSET] + Le4(baud), t);
      if !ok {
        return;
      }
      txBlock := TxBlockFor(baud);
      OnFrameSize(t, txBlock, sha);
      ok := Command(EncodeFrameSize(txBlock), t.(frameSize := txBlock));
    }

    /** `image_hash`: the loader's digest of the range, unless the line fails. */
    method ImageHash(addr: nat, size: nat, ghost o: nat, ghost n: nat) returns (got: seq<byte>)
      requires size <= 0xFF_FFFC && o == addr % SPACE && n == WordAligned(size) && o + n <= |t.mem|
      modifies this`t, this`control
      ensures t == old(t)
      ensures got == Hash(sha, t.mem[o..o + n]) || (|got| < 32 && !AllClear(old(control)))
    {
      OnHash(t, addr, size, sha);
      got := Exchange(EncodeHash(addr, size), Now(control));
      control := Later(control);
    }

    /** End the transfer and compare digests. */
    method Verify(image: seq<byte>, addr: nat, ghost o: nat) returns (v: Verdict)
      requires |image| <= 0xFF_FFFC && o == addr % SPACE && o + |WordPadded(image)| <= |t.mem|
      modifies this`t, this`control
      ensures t == old(t)
      ensures v == Done ==> SameDigest(sha, t.mem, o, image)
      ensures v == HashMismatch ==> !SameDigest(sha, t.mem, o, image)
      ensures AllClear(old(control)) ==> v != NoAnswer
    {
      v := NoAnswer;
      var ok := Finish();
      if !ok {
        return;
      }
      var padded := WordPadded(image);
      var got := ImageHash(addr, |image|, o, |padded|);
      v := Compare(got, Hash(sha, padded));
      CompareMeans(sha, t.mem, o, image, got);
    }

    /** `finish`. */
    method Finish() returns (ok: bool)
      modifies this`t, this`control
      ensures t == old(t)
      ensures AllClear(old(control)) ==> ok && AllClear(control)
    {
      ok := Command([EOT], t);
    }

    /** `flash_firmware` from the erase on: erase the range, agree on rate and
        frame size, send the blocks, and compare digests. A loader that was running
        before may expect any block number. */
    method FlashImage(image: seq<byte>, addr: nat, baud: nat) returns (v: Verdict)
      requires |t.mem| == FLASH_SIZE
      requires addr % SECTOR == 0 && addr % SPACE + |image| <= FLASH_SIZE && addr + |image| <= 0x1_0000_0000
      modifies this
      // Whatever goes wrong, only the sectors of the image are touched.
      ensures Confined(old(t.mem), t.mem, addr % SPACE, |image|)
      // For every loader number, success means that the image is there, unless two
      // different contents have the same digest.
      ensures v == Done ==> Holds(t.mem, addr % SPACE, image) || Collides(sha, t.mem, addr % SPACE, image)
      // Six tries a block are enough for an answer, which with the numbers in step
      // is success, and success means that the image is there.
      ensures old(packetno == t.want) && v != NoAnswer ==> v == Done && Holds(t.mem, addr % SPACE, image)
      ensures Acknowledges(old(t.want), old(packetno)) && AllClear(old(control)) && Tolerable(old(line)) ==> v != NoAnswer
      // A loader one number ahead never takes the first block, and only the hash
      // check can tell; any other loader cancels.
      ensures old(packetno != t.want) && image != [] && v != NoAnswer ==>
                && Acknowledges(old(t.want), old(packetno))
                && LacksFirst(t.mem, addr % SPACE, image, txBlock)
                && (v == Done <==> SameDigest(sha, t.mem, addr % SPACE, image))
    {
      ghost var before := t.mem;
      AddressAligned(addr);
      FlashedByDownload(t.mem, addr % SPACE, image);
      v := NoAnswer;
      var ok := Prepare(addr, |image|, baud);
      if !ok {
        return;
      }
      ghost var lo: nat;
      ghost var blocks: nat;
      ok, lo, blocks := Download(image, addr);
      if ok {
        HoldsSameDigest(sha, t.mem, addr % SPACE, image);
        FirstIsBlank(before, addr % SPACE, image, txBlock);
        v := Verify(image, addr, addr % SPACE);
      }
    }
  }

  // ---- Filling a frame --------------------------------------------------------

  function Pads(n: nat): (r: seq<byte>)
    ensures |r| == n
  {
    seq(n, _ => PAD)
  }

  lemma HeadOf(a: byte, b: byte, c: byte, n: nat)
    ensures Pads(n + 3)[0 := a][1 := b][2 := c] == [a, b, c] + Pads(n)
  {
  }

  lemma Overwrite(pre: seq<byte>, x: seq<byte>, n: nat)
    ensures var f := pre + Pads(|x| + n);
            f[..|pre|] + x + f[|pre| + |x|..] == pre + x + Pads(n)
  {
  }

  lemma LastByte(head: seq<byte>, le: seq<byte>, data: seq<byte>, tx: nat)
    requires |head| == 3 && |le| == 4 && |data| <= tx
    ensures var f := head + le + data + Pads(tx + 1 - |data|);
            && |f| == tx + 8 && f[3..7 + tx] == le + Padded(data, tx)
            && forall sum: byte :: f[7 + tx := sum] == head + (le + Padded(data, tx)) + [sum]
  {
    assert data + Pads(tx + 1 - |data|) == Padded(data, tx) + [PAD];
    assert head + le + data + Pads(tx + 1 - |data|) == head + (le + Padded(data, tx)) + [PAD];
  }

  lemma AddressAligned(addr: nat)
    requires addr % SECTOR == 0
    ensures (addr % SPACE) % SECTOR == 0
  {
    assert addr == SPACE * (addr / SPACE) + addr % SPACE;
    assert SPACE == 0x1000 * SECTOR;
  }

  // ---- The frames, as the loader understands them ---------------------------

  /** The loader answers for a block number it expects or has just had. */
  predicate Acknowledges(want: byte, no: byte) { no == want || (no + 1) % 256 == want }

  function Reply(t: Target, b: Block): seq<byte> {
    if Acknowledges(t.want, b.no) then [ACK] else [CAN]
  }

  /** The current block's frame is answered the same, taken or not, and leaves it
      taken once if it was the one expected. */
  lemma BlockAnswer(t0: Target, f: seq<byte>, b: Block, took: bool, sha: Digest)
    requires DecodeBlock(f, t0.frameSize) == Some(b) && b.addr >= 0 && (took ==> b.no == t0.want)
    ensures OnFrame(if took then Took(t0, b) else t0, f, sha) == (if b.no == t0.want then Took(t0, b) else t0, Reply(t0, b))
  {
    assert (b.no + 1) % 256 != b.no;
    assert f[0] == STX || f[0] == SOH;
  }

  lemma OnErase(t: Target, addr: nat, len: nat, sha: Digest)
    requires len < SPACE
    ensures OnFrame(t, EncodeErase(addr, len), sha)
         == (t.(mem := Erased(t.mem, addr % SPACE, Sectors(len) * SECTOR)), [ACK])
  {
    EraseRoundTrip(addr, len);
  }

  lemma OnFrameSize(t: Target, tx: nat, sha: Digest)
    requires tx % 256 == 0 && tx < 65536
    ensures OnFrame(t, EncodeFrameSize(tx), sha) == (t.(frameSize := tx), [ACK])
  {
    FrameSizeRoundTripIff(tx);
  }

  lemma OnHash(t: Target, addr: nat, len: nat, sha: Digest)
    requires len <= 0xFF_FFFC && addr % SPACE + WordAligned(len) <= |t.mem|
    ensures OnFrame(t, EncodeHash(addr, len), sha)
         == (t, Hash(sha, t.mem[addr % SPACE..addr % SPACE + WordAligned(len)]))
  {
    HashRoundTrip(addr, len);
    HashAnswer(t, EncodeHash(addr, len), addr % SPACE, WordAligned(len), sha);
  }

  lemma HashAnswer(t: Target, f: seq<byte>, o: nat, n: nat, sha: Digest)
    requires |f| == 8 && f[0] == CMD_IMGCHCK && DecodeCommand(f) == Some(HashRange(o, n)) && o + n <= |t.mem|
    ensures OnFrame(t, f, sha) == (t, Hash(sha, t.mem[o..o + n]))
  {
    assert f != [] && f != [EOT];
  }

  /** `_expected_hash` pads the image to a word boundary. */
  function WordPadded(image: seq<byte>): (r: seq<byte>)
    ensures |r| == WordAligned(|image|)
  {
    Aligned(|image|);
    Padded(image, WordAligned(|image|))
  }

  /** The image at offset o, followed by padding up to the word boundary. */
  ghost predicate Holds(mem: seq<byte>, o: nat, image: seq<byte>) {
    var padded := WordPadded(image);
    o + |padded| <= |mem| && mem[o..o + |padded|] == padded
  }

  /** Only the sectors that cover the image differ. */
  ghost predicate Confined(before: seq<byte>, after: seq<byte>, o: nat, len: nat) {
    && |after| == |before|
    && forall i :: 0 <= i < |before| && !(o <= i < o + Sectors(len) * SECTOR) ==> after[i] == before[i]
  }

  ghost predicate SameDigest(sha: Digest, mem: seq<byte>, o: nat, image: seq<byte>) {
    var padded := WordPadded(image);
    o + |padded| <= |mem| && Hash(sha, mem[o..o + |padded|]) == Hash(sha, padded)
  }

  /** Other contents than the padded image, with its digest. */
  ghost predicate Collides(sha: Digest, mem: seq<byte>, o: nat, image: seq<byte>) {
    SameDigest(sha, mem, o, image) && !Holds(mem, o, image)
  }

  /** A short reply is no answer. */
  function Compare(got: seq<byte>, want: seq<byte>): Verdict {
    if |got| != 32 then NoAnswer else if got == want then Done else HashMismatch
  }

  lemma CompareMeans(sha: Digest, mem: seq<byte>, o: nat, image: seq<byte>, got: seq<byte>)
    requires o + |WordPadded(image)| <= |mem|
    ensures got == Hash(sha, mem[o..o + |WordPadded(image)|]) ==>
              Compare(got, Hash(sha, WordPadded(image))) == if SameDigest(sha, mem, o, image) then Done else HashMismatch
  {
  }

  lemma HoldsSameDigest(sha: Digest, mem: seq<byte>, o: nat, image: seq<byte>)
    ensures Holds(mem, o, image) ==> SameDigest(sha, mem, o, image)
  {
  }

  /** The first block is blank, everything after it is there. */
  ghost predicate LacksFirst(mem: seq<byte>, o: nat, image: seq<byte>, tx: nat) {
    && o + |image| <= |mem|
    && forall i :: 0 <= i < |image| ==> mem[o + i] == if i < tx then 255 else image[i]
  }

  lemma FirstIsBlank(before: seq<byte>, o: nat, image: seq<byte>, tx: nat)
    requires o + |image| <= |before|
    ensures var blank := Erased(before, o, Sectors(|image|) * SECTOR);
            LacksFirst(Stored(blank, o, image, Start(tx, 1), |image|), o, image, tx)
  {
    SectorsCover(|image|);
    assert Start(tx, 1) == Start(tx, 0) + tx == tx;
  }

  /** On the erased sectors, any number of blocks stays inside them, and all of
      them leave the image. */
  lemma FlashedByDownload(before: seq<byte>, o: nat, image: seq<byte>)
    requires o % SECTOR == 0 && o + |image| <= |before| == FLASH_SIZE
    ensures var blank := Erased(before, o, Sectors(|image|) * SECTOR);
            && Confined(before, blank, o, |image|)
            && (forall i :: o <= i < o + |image| ==> blank[i] == 255)
            && (forall m, n :: 0 <= m && 0 <= n <= |image| ==> Confined(before, Stored(blank, o, image, m, n), o, |image|))
            && o + WordAligned(|image|) <= |before| && Holds(Stored(blank, o, image, 0, |image|), o, image)
  {
    AlignedFits(o, |image|);
  }

  lemma AlignedFits(o: nat, len: nat)
    requires o % SECTOR == 0 && o + len <= FLASH_SIZE
    ensures len <= WordAligned(len) <= Sectors(len) * SECTOR && o + Sectors(len) * SECTOR <= FLASH_SIZE
  {
    SectorsCover(len);
    Aligned(len);
    RoundUps(len, WordAligned(len) / 4, Sectors(len), o / SECTOR);
  }

  lemma RoundUps(len: nat, words: nat, sectors: nat, first: nat)
    requires 4 * words < len + 4 && len <= SECTOR * sectors < len + SECTOR && SECTOR * first + len <= FLASH_SIZE
    ensures 4 * words <= SECTOR * sectors && SECTOR * first + SECTOR * sectors <= FLASH_SIZE
  {
  }

  lemma StoredNothing(mem: seq<byte>, o: nat, image: seq<byte>, m: nat)
    ensures Stored(mem, o, image, m, Min(m, |image|)) == mem
  {
  }

  lemma CountBlocks(len: nat, tx: nat, n: nat)
    requires Start(tx, n) >= len && (n > 0 ==> Start(tx, n - 1) < len)
    ensures forall k: nat :: Start(tx, k) < len <==> k < n
  {
    forall k: nat
      ensures Start(tx, k) < len <==> k < n
    {
      if k < n { StartMonotone(tx, k, n - 1); } else { StartMonotone(tx, n, k); }
    }
  }

  lemma {:induction false} StartMonotone(tx: nat, a: nat, b: nat)
    requires a <= b
    ensures Start(tx, a) <= Start(tx, b)
    decreases b
  {
    if a < b { StartMonotone(tx, a, b - 1); }
  }
}
