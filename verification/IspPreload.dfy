/** Stage 1 of the serial flasher: the ROM bootloader's write-memory command,
    used page by page to place the loader in SRAM. */
module IspPreload {
  import opened Common
  import opened Nor
  import opened IspFrames

  const ISP_ACK: byte := 0x79
  const ISP_NAK: byte := 0x1F
  const SRAM_ADDR := 0x20002000
  const SRAM_PAGE := 240

  /** What the bootloader expects next (write-memory: command, address, data). */
  datatype Await = AwaitCommand | AwaitAddress | AwaitData(addr: int)

  datatype RomState = RomState(sram: seq<byte>, next: Await)

  function Put(mem: seq<byte>, a: int, data: seq<byte>): (r: seq<byte>)
    ensures |r| == |mem|
  {
    seq(|mem|, i requires 0 <= i < |mem| => if a <= i < a + |data| then data[i - a] else mem[i])
  }

  /** A faithful bootloader: it acknowledges a frame whose check byte fits. */
  function OnRomFrame(s: RomState, f: seq<byte>): (RomState, byte) {
    match s.next
    case AwaitCommand =>
      if f == [0x31, 0xCE] then (s.(next := AwaitAddress), ISP_ACK) else (s, ISP_NAK)
    case AwaitAddress =>
      if |f| == 5 && XorAll(f, 0) == 0 then
        (s.(next := AwaitData(FromLe4([f[3], f[2], f[1], f[0]]) - SRAM_ADDR)), ISP_ACK)
      else (s.(next := AwaitCommand), ISP_NAK)
    case AwaitData(a) =>
      match DecodeRomData(f)
      case Some(data) => (RomState(Put(s.sram, a, data), AwaitCommand), ISP_ACK)
      case None => (s.(next := AwaitCommand), ISP_NAK)
  }

  /** A four-byte address and its check byte have a zero running XOR. */
  lemma AddressFrame(x: nat)
    requires x < 0x1_0000_0000
    ensures var f := Be4(x) + [XorAll(Be4(x), 0)];
            |f| == 5 && XorAll(f, 0) == 0 && FromLe4([f[3], f[2], f[1], f[0]]) == x
  {
    var f := Be4(x) + [XorAll(Be4(x), 0)];
    assert f[..4] == Be4(x);
    XorByte(XorAll(Be4(x), 0), 0);
    IntRoundTrip(x);
  }

  lemma TakesAddress(sram: seq<byte>, x: nat)
    requires x < 0x1_0000_0000
    ensures OnRomFrame(RomState(sram, AwaitAddress), Be4(x) + [XorAll(Be4(x), 0)])
         == (RomState(sram, AwaitData(x - SRAM_ADDR)), ISP_ACK)
  {
    AddressFrame(x);
  }

  lemma TakesData(sram: seq<byte>, a: int, data: seq<byte>)
    requires 0 < |data| <= 256
    ensures OnRomFrame(RomState(sram, AwaitData(a)), EncodeRomData(data))
         == (RomState(Put(sram, a, Padded(data, WordAligned(|data|))), AwaitCommand), ISP_ACK)
  {
    RomDataRoundTrip(data);
  }

  /** SRAM holding the first n bytes of the blob, padded to a word boundary, and
      nothing else changed. */
  function Loaded(before: seq<byte>, blob: seq<byte>, n: nat): (now: seq<byte>)
    requires n <= |blob|
    ensures |now| == |before|
  {
    seq(|before|, i requires 0 <= i < |before| =>
      if i < n then blob[i] else if i < WordAligned(n) then PAD else before[i])
  }

  lemma PageExtends(before: seq<byte>, blob: seq<byte>, n: nat)
    requires n % SRAM_PAGE == 0 && n < |blob|
    ensures var m := Min(n + SRAM_PAGE, |blob|);
            Put(Loaded(before, blob, n), n, Padded(blob[n..m], WordAligned(m - n))) == Loaded(before, blob, m)
  {
    var m := Min(n + SRAM_PAGE, |blob|);
    Words(n, m);
  }

  lemma Words(n: nat, m: nat)
    requires n % SRAM_PAGE == 0 && n <= m
    ensures WordAligned(n) == n && WordAligned(m) == n + WordAligned(m - n)
    ensures (n + SRAM_PAGE) % SRAM_PAGE == 0
  {
    var k := n / SRAM_PAGE;
    assert n == 4 * (60 * k);
    WordShift(60 * k, m - n);
    WordShift(60 * k, 0);
  }

  lemma WordEnd(n: nat)
    ensures WordAligned(n) == n + (4 - n % 4) % 4
  {
  }

  lemma WordShift(a: nat, x: nat)
    ensures WordAligned(4 * a + x) == 4 * a + WordAligned(x)
  {
  }

  class RomIsp {
    var rom: RomState

    constructor (rom: RomState)
      ensures this.rom == rom
    {
      this.rom := rom;
    }

    /** Write a frame and expect an acknowledgement; `lost` drops the reply. */
    method Expect(f: seq<byte>, lost: bool, ghost next: RomState) returns (ok: bool)
      requires OnRomFrame(rom, f) == (next, ISP_ACK)
      modifies this
      ensures rom == next && ok == !lost
    {
      var (rom', reply) := OnRomFrame(rom, f);
      rom := rom';
      ok := !lost && reply == ISP_ACK;
    }

    /** The address frame of `write_memory`. */
    method SendAddress(addr: nat, lost: bool) returns (ok: bool)
      requires rom.next.AwaitAddress? && addr < 0x1_0000_0000
      modifies this
      ensures rom == RomState(old(rom.sram), AwaitData(addr - SRAM_ADDR)) && ok == !lost
    {
      var addrBe := Be4(addr);
      var check := XorBytes(addrBe, 0);
      TakesAddress(rom.sram, addr);
      ok := Expect(addrBe + [check], lost, RomState(rom.sram, AwaitData(addr - SRAM_ADDR)));
    }

    /** Its data frame. */
    method SendData(data: seq<byte>, lost: bool) returns (ok: bool)
      requires rom.next.AwaitData? && 0 < |data| <= 256
      modifies this
      ensures rom == RomState(Put(old(rom.sram), old(rom.next.addr), Padded(data, WordAligned(|data|))), AwaitCommand)
      ensures ok == !lost
    {
      var size := WordAligned(|data|);
      var payload := Padded(data, size);
      var check := XorBytes(payload, size - 1);
      TakesData(rom.sram, rom.next.addr, data);
      ok := Expect([(size - 1) as byte] + payload + [check], lost,
                   RomState(Put(rom.sram, rom.next.addr, payload), AwaitCommand));
    }

    /** `write_memory`. */
    method WriteMemory(addr: nat, data: seq<byte>, lost: (bool, bool, bool)) returns (ok: bool)
      requires rom.next.AwaitCommand? && 0 < |data| <= 256 && addr < 0x1_0000_0000
      modifies this
      ensures ok ==> rom == RomState(Put(old(rom.sram), addr - SRAM_ADDR, Padded(data, WordAligned(|data|))), AwaitCommand)
      ensures ok == (!lost.0 && !lost.1 && !lost.2)
    {
      ok := Expect([0x31, 0xCE], lost.0, RomState(rom.sram, AwaitAddress));
      if !ok {
        return;
      }
      ok := SendAddress(addr, lost.1);
      if !ok {
        return;
      }
      ok := SendData(data, lost.2);
    }

    /** The preload loop of `flash_firmware`: the pages rebuild the loader in
        SRAM without gap or overlap, and touch nothing beyond its last word. */
    method Preload(blob: seq<byte>, lost: nat -> (bool, bool, bool)) returns (ok: bool)
      requires rom.next.AwaitCommand? && |blob| <= 0x1000_0000
      modifies this
      ensures ok ==> rom == RomState(Loaded(old(rom.sram), blob, |blob|), AwaitCommand)
      ensures ok && |blob| <= |rom.sram| ==> rom.sram[..|blob|] == blob
      // Behind it at most three padding bytes up to a word, and then nothing new.
      ensures ok ==> |rom.sram| == |old(rom.sram)| && forall i :: |blob| <= i < |rom.sram| ==>
                rom.sram[i] == if i < |blob| + (4 - |blob| % 4) % 4 then 0xFF else old(rom.sram)[i]
      ensures (forall k: nat :: lost(k) == (false, false, false)) ==> ok
    {
      var off := 0;
      ghost var before := rom.sram;
      assert WordAligned(0) == 0;
      assert rom.sram == Loaded(before, blob, 0);
      while off < |blob|
        invariant off <= |blob| && (off < |blob| ==> off % SRAM_PAGE == 0)
        invariant rom == RomState(Loaded(before, blob, off), AwaitCommand)
      {
        PageExtends(before, blob, off);
        Words(off, off);
        ok := WriteMemory(SRAM_ADDR + off, blob[off..Min(off + SRAM_PAGE, |blob|)], lost(off));
        if !ok {
          return;
        }
        off := Min(off + SRAM_PAGE, |blob|);
      }
      WordEnd(|blob|);
      ok := true;
    }
  }
}
