/** The frames of the serial flasher: checksums, encoders, and the decoders a
    faithful receiver uses. */
module IspFrames {
  import opened Common
  import opened Nor

  const STX: byte := 0x02
  const SOH: byte := 0x01
  const PAD: byte := 0xFF
  const SECTOR := 0x1000

  // ---- Checksums --------------------------------------------------------------

  function Total(data: seq<byte>): nat {
    if data == [] then 0 else Total(data[..|data| - 1]) + data[|data| - 1]
  }

  function XorAll(data: seq<byte>, seed: byte): byte {
    if data == [] then seed else Xor(XorAll(data[..|data| - 1], seed), data[|data| - 1])
  }

  /** `_checksum`: the sum of the bytes, kept to eight bits. */
  method Checksum(data: seq<byte>, seed: byte) returns (total: byte)
    ensures total == (seed + Total(data)) % 256
  {
    total := seed;
    for i := 0 to |data|
      invariant total == (seed + Total(data[..i])) % 256
    {
      assert data[..i + 1][..i] == data[..i];
      total := (total + data[i]) % 256;
    }
    assert data[..|data|] == data;
  }

  /** `_xor`. */
  method XorBytes(data: seq<byte>, seed: byte) returns (value: byte)
    ensures value == XorAll(data, seed)
  {
    value := seed;
    for i := 0 to |data|
      invariant value == XorAll(data[..i], seed)
    {
      assert data[..i + 1][..i] == data[..i];
      value := Xor(value, data[i]);
    }
    assert data[..|data|] == data;
  }

  /** With `TotalAppend`, this fixes the sum. */
  lemma TotalOne(b: byte)
    ensures Total([b]) == b as int && Total([]) == 0
  {
    assert [b][..0] == [];
  }

  /** How many bytes have bit k set. */
  function Ones(data: seq<byte>, k: nat): nat {
    if data == [] then 0 else Bit(data[0], k) + Ones(data[1..], k)
  }

  lemma {:induction false} OnesSnoc(data: seq<byte>, k: nat)
    requires data != []
    ensures Ones(data, k) == Ones(data[..|data| - 1], k) + Bit(data[|data| - 1], k)
  {
    if |data| > 1 {
      var init := data[..|data| - 1];
      OnesSnoc(data[1..], k);
      assert init[1..] == data[1..][..|data| - 2];
    } else {
      assert data[1..] == [] && data[..0] == [];
    }
  }

  /** The running XOR is the parity of each bit over the seed and all the bytes. */
  lemma {:induction false} XorIsParity(data: seq<byte>, seed: byte, k: nat)
    requires k < 8
    ensures Bit(XorAll(data, seed), k) == (Bit(seed, k) + Ones(data, k)) % 2
  {
    if data != [] {
      var init, last := data[..|data| - 1], data[|data| - 1];
      XorIsParity(init, seed, k);
      OnesSnoc(data, k);
      BitwiseOctets(XorAll(init, seed), last, k);
    }
  }

  lemma {:induction false} TotalAppend(a: seq<byte>, b: seq<byte>)
    ensures Total(a + b) == Total(a) + Total(b)
  {
    if b == [] {
      assert a + b == a;
    } else {
      assert (a + b)[..|a + b| - 1] == a + b[..|b| - 1];
      TotalAppend(a, b[..|b| - 1]);
    }
  }

  lemma TotalUpdate(s: seq<byte>, p: nat, v: byte)
    requires p < |s|
    ensures Total(s[p := v]) == Total(s) - s[p] + v
  {
    assert s == s[..p] + [s[p]] + s[p + 1..] && s[p := v] == s[..p] + [v] + s[p + 1..];
    TotalAppend(s[..p] + [s[p]], s[p + 1..]);
    TotalAppend(s[..p] + [v], s[p + 1..]);
    TotalAppend(s[..p], [s[p]]);
    TotalAppend(s[..p], [v]);
  }

  // ---- Integers in frames -----------------------------------------------------

  function Byte(x: nat, k: nat): byte {
    if k == 0 then x % 256 else Byte(x / 256, k - 1)
  }

  function Le4(x: nat): (r: seq<byte>)
    ensures |r| == 4
  {
    [Byte(x, 0), Byte(x, 1), Byte(x, 2), Byte(x, 3)]
  }

  function Be4(x: nat): (r: seq<byte>)
    ensures |r| == 4
  {
    [Byte(x, 3), Byte(x, 2), Byte(x, 1), Byte(x, 0)]
  }

  function Low24(x: nat): (r: seq<byte>)
    ensures |r| == 3
  {
    [Byte(x, 0), Byte(x, 1), Byte(x, 2)]
  }

  function FromLow24(a: int, b: int, c: int): int { a + 256 * b + 65536 * c }

  function FromLe4(s: seq<byte>): int
    requires |s| == 4
  {
    FromLow24(s[0], s[1], s[2]) + 16777216 * (s[3] as int)
  }

  lemma Split(x: nat) returns (w: nat)
    ensures x == FromLow24(Byte(x, 0), Byte(x, 1), Byte(x, 2)) + 0x100_0000 * w
    ensures Byte(x, 3) == w % 256
  {
    var y := x / 256;
    var z := y / 256;
    w := z / 256;
    assert Byte(x, 1) == Byte(y, 0) && Byte(x, 2) == Byte(y, 1) == Byte(z, 0);
    assert Byte(x, 3) == Byte(y, 2) == Byte(z, 1) == Byte(w, 0);
  }

  lemma Quotient(x: nat, low: nat, w: nat)
    requires x == low + 0x100_0000 * w && low < 0x100_0000
    ensures x % 0x100_0000 == low && x / 0x100_0000 == w
  {
  }

  lemma Low24RoundTrip(x: nat)
    ensures FromLow24(Byte(x, 0), Byte(x, 1), Byte(x, 2)) == x % 0x100_0000
    ensures x < 0x1_0000_0000 ==> FromLow24(Byte(x, 0), Byte(x, 1), Byte(x, 2)) + 16777216 * Byte(x, 3) as int == x
    ensures x < 0x1_0000 ==> FromLow24(Byte(x, 0), Byte(x, 1), 0) == x
  {
    var w := Split(x);
    Quotient(x, FromLow24(Byte(x, 0), Byte(x, 1), Byte(x, 2)), w);
  }

  /** Any 32-bit integer survives the four bytes, in either order. */
  lemma IntRoundTrip(x: nat)
    requires x < 0x1_0000_0000
    ensures FromLe4(Le4(x)) == x
    ensures var b := Be4(x); FromLe4([b[3], b[2], b[1], b[0]]) == x
  {
    Low24RoundTrip(x);
  }

  // ---- Loader blocks ----------------------------------------------------------

  datatype Block = Block(no: byte, addr: int, payload: seq<byte>)

  function Padded(data: seq<byte>, n: nat): (r: seq<byte>)
    requires |data| <= n
    ensures |r| == n && r[..|data|] == data
  {
    data + seq(n - |data|, _ => PAD)
  }

  /** The frame `send_block` builds for a transmit block of tx bytes. */
  function EncodeBlock(no: byte, addr: nat, data: seq<byte>, tx: nat): (f: seq<byte>)
    requires |data| <= tx
    ensures |f| == tx + 8
  {
    var body := Le4(addr) + Padded(data, tx);
    [if tx > 128 then STX else SOH, no, 255 - no] + body + [Total(body) % 256]
  }

  /** What a receiver set to tx-byte blocks reads from a frame. */
  function DecodeBlock(f: seq<byte>, tx: nat): Option<Block> {
    if && |f| == tx + 8 && f[0] == (if tx > 128 then STX else SOH)
       && f[2] == 255 - f[1] && f[7 + tx] == Total(f[3..7 + tx]) % 256
    then Some(Block(f[1], FromLe4(f[3..7]), f[7..7 + tx]))
    else None
  }

  /** The frame byte by byte: start, number and its complement, the address low byte
      first, the data, padding, and the sum of all from the address on. */
  lemma BlockLayout(no: byte, addr: nat, data: seq<byte>, tx: nat)
    requires |data| <= tx && addr < 0x1_0000_0000
    ensures var f := EncodeBlock(no, addr, data, tx);
            && f[0] == (if tx > 128 then 0x02 else 0x01) && f[1] == no && f[1] as int + f[2] as int == 255
            && f[3] as int + 256 * f[4] as int + 65536 * f[5] as int + 16777216 * f[6] as int == addr
            && f[7..7 + |data|] == data && (forall k :: 7 + |data| <= k < 7 + tx ==> f[k] == 0xFF)
            && f[7 + tx] as int == Total(f[3..7 + tx]) % 256
  {
    var f := EncodeBlock(no, addr, data, tx);
    assert f[3..7 + tx] == Le4(addr) + Padded(data, tx);
    assert f[7..7 + tx] == Padded(data, tx);
    Low24RoundTrip(addr);
  }

  /** Every block frame decodes to what was sent, padding included. */
  lemma BlockRoundTrip(no: byte, addr: nat, data: seq<byte>, tx: nat)
    requires |data| <= tx && addr < 0x1_0000_0000
    ensures DecodeBlock(EncodeBlock(no, addr, data, tx), tx) == Some(Block(no, addr, Padded(data, tx)))
  {
    var f := EncodeBlock(no, addr, data, tx);
    assert f[3..7 + tx] == Le4(addr) + Padded(data, tx);
    assert f[3..7] == Le4(addr);
    assert f[7..7 + tx] == Padded(data, tx);
    IntRoundTrip(addr);
  }

  /** A frame damaged in any single byte is refused. */
  lemma DamagedBlockRefused(f: seq<byte>, tx: nat, p: nat, v: byte)
    requires DecodeBlock(f, tx).Some? && p < |f| && f[p] != v
    ensures DecodeBlock(f[p := v], tx) == None
  {
    var g := f[p := v];
    if 3 <= p < 7 + tx {
      assert g[3..7 + tx] == f[3..7 + tx][p - 3 := v];
      TotalUpdate(f[3..7 + tx], p - 3, v);
      var t, t' := Total(f[3..7 + tx]), Total(g[3..7 + tx]);
      assert t' == t - f[p] + v;
      assert t % 256 != t' % 256;
    } else if p == 7 + tx {
      assert g[3..7 + tx] == f[3..7 + tx];
    }
  }

  // ---- ROM write-memory frames ------------------------------------------------

  function WordAligned(n: nat): nat { (n + 3) / 4 * 4 }

  /** The data frame of `write_memory`. */
  function EncodeRomData(data: seq<byte>): seq<byte>
    requires 0 < |data| <= 256
  {
    var size := WordAligned(|data|);
    var payload := Padded(data, size);
    [(size - 1) as byte] + payload + [XorAll(payload, size - 1)]
  }

  /** The ROM takes length minus one, that many bytes, and a zero running XOR. */
  function DecodeRomData(f: seq<byte>): Option<seq<byte>> {
    if |f| > 2 && |f| - 3 == f[0] as int && XorAll(f, 0) == 0 then Some(f[1..|f| - 1]) else None
  }

  lemma {:induction false} XorAllCons(x: byte, s: seq<byte>)
    ensures XorAll([x] + s, 0) == XorAll(s, x)
  {
    if s == [] {
      assert ([x] + s)[..0] == [];
      XorByte(x, x);
    } else {
      assert ([x] + s)[..|s|] == [x] + s[..|s| - 1];
      XorAllCons(x, s[..|s| - 1]);
    }
  }

  /** Every data frame has a zero running XOR and decodes to the padded data. */
  lemma RomDataRoundTrip(data: seq<byte>)
    requires 0 < |data| <= 256
    ensures XorAll(EncodeRomData(data), 0) == 0
    ensures DecodeRomData(EncodeRomData(data)) == Some(Padded(data, WordAligned(|data|)))
  {
    var size := WordAligned(|data|);
    var payload := Padded(data, size);
    var f := EncodeRomData(data);
    assert f[..|f| - 1] == [(size - 1) as byte] + payload;
    XorAllCons(size - 1, payload);
    XorByte(XorAll(payload, size - 1), 0);
    assert f[1..|f| - 1] == payload;
  }

  /** The data frame byte by byte: length less one, the data, padding to a word, and
      the XOR of all before. */
  lemma RomDataLayout(data: seq<byte>)
    requires 0 < |data| <= 256
    ensures var f := EncodeRomData(data);
            && |f| == f[0] as int + 3 && f[1..1 + |data|] == data && |data| <= f[0] as int + 1 < |data| + 4
            && (f[0] as int + 1) % 4 == 0 && (forall k :: 1 + |data| <= k < |f| - 1 ==> f[k] == 0xFF)
            && f[|f| - 1] == XorAll(f[..|f| - 1], 0)
  {
    var size := WordAligned(|data|);
    var payload := Padded(data, size);
    var f := EncodeRomData(data);
    Aligned(|data|);
    assert f[..|f| - 1] == [(size - 1) as byte] + payload;
    XorAllCons(size - 1, payload);
  }

  lemma {:induction false} XorAllUpdate(s: seq<byte>, p: nat, v: byte)
    requires p < |s| && s[p] != v
    ensures XorAll(s[p := v], 0) != XorAll(s, 0)
  {
    var n := |s| - 1;
    var a, b := XorAll(s[..n], 0), XorAll(s[p := v][..n], 0);
    if p == n {
      assert s[p := v][..n] == s[..n];
      XorLeft(a, s[n], v);
    } else {
      assert s[p := v][..n] == s[..n][p := v];
      XorAllUpdate(s[..n], p, v);
      XorByte(a, s[n]);
      XorByte(b, s[n]);
    }
  }

  lemma XorLeft(a: byte, x: byte, y: byte)
    requires x != y
    ensures Xor(a, x) != Xor(a, y)
  {
    XorCommutes(a, x);
    XorCommutes(a, y);
    XorByte(x, a);
    XorByte(y, a);
  }

  lemma XorCommutes(x: byte, y: byte)
    ensures Xor(x, y) == Xor(y, x)
  {
    XorBitsCommute(x, y, 8);
  }

  lemma {:induction false} XorBitsCommute(x: nat, y: nat, n: nat)
    ensures XorBits(x, y, n) == XorBits(y, x, n)
  {
    if n > 0 { XorBitsCommute(x / 2, y / 2, n - 1); }
  }

  /** A data frame damaged in any single byte is refused. */
  lemma DamagedRomDataRefused(f: seq<byte>, p: nat, v: byte)
    requires DecodeRomData(f).Some? && p < |f| && f[p] != v
    ensures DecodeRomData(f[p := v]) == None
  {
    XorAllUpdate(f, p, v);
  }

  // ---- Erase, frame-size and hash commands ------------------------------------

  const CMD_FLERASE: byte := 0x17
  const CMD_FRMSIZE: byte := 0x07
  const CMD_IMGCHCK: byte := 0x21
  const HASH_KIND_SHA256: byte := 0x02

  function Sectors(len: nat): nat { (len + SECTOR - 1) / SECTOR }

  function EncodeErase(addr: nat, len: nat): seq<byte> {
    [CMD_FLERASE, 0] + Low24(addr) + [Byte(Sectors(len), 0), Byte(Sectors(len), 1)]
  }

  function EncodeHash(addr: nat, size: nat): seq<byte> {
    [CMD_IMGCHCK] + Low24(addr) + Low24(WordAligned(size)) + [HASH_KIND_SHA256]
  }

  function EncodeFrameSize(size: nat): seq<byte> { [CMD_FRMSIZE, Byte(size, 1)] }

  datatype Command =
    | EraseRange(chip: bool, offset: int, sectors: int)
    | HashRange(offset: int, len: int)
    | FrameSize(size: int)

  function DecodeCommand(f: seq<byte>): Option<Command> {
    if |f| == 7 && f[0] == CMD_FLERASE then
      Some(EraseRange(f[1] == 1, FromLow24(f[2], f[3], f[4]), FromLow24(f[5], f[6], 0)))
    else if |f| == 8 && f[0] == CMD_IMGCHCK && f[7] == HASH_KIND_SHA256 then
      Some(HashRange(FromLow24(f[1], f[2], f[3]), FromLow24(f[4], f[5], f[6])))
    else if |f| == 2 && f[0] == CMD_FRMSIZE then Some(FrameSize(FromLow24(0, f[1], 0)))
    else None
  }

  /** A range erase reaches the loader as the flash offset and the whole sectors
      that cover the length, for any image of less than 16 MB. */
  lemma EraseRoundTrip(addr: nat, len: nat)
    requires len < 0x100_0000
    ensures DecodeCommand(EncodeErase(addr, len)) == Some(EraseRange(false, addr % 0x100_0000, Sectors(len)))
    ensures len <= Sectors(len) * SECTOR < len + SECTOR
  {
    Low24RoundTrip(addr);
    SectorsCover(len);
    Low24RoundTrip(Sectors(len));
  }

  lemma SectorsCover(len: nat)
    ensures len <= Sectors(len) * SECTOR < len + SECTOR
    ensures len < 0x100_0000 ==> Sectors(len) <= 0x1000
  {
  }

  lemma HashRoundTrip(addr: nat, size: nat)
    requires size <= 0xFF_FFFC
    ensures DecodeCommand(EncodeHash(addr, size)) == Some(HashRange(addr % 0x100_0000, WordAligned(size)))
  {
    Aligned(size);
    var n := WordAligned(size);
    Low24RoundTrip(addr);
    Low24RoundTrip(n);
    var f := EncodeHash(addr, size);
    assert f == [CMD_IMGCHCK, Byte(addr, 0), Byte(addr, 1), Byte(addr, 2), Byte(n, 0), Byte(n, 1), Byte(n, 2), HASH_KIND_SHA256];
  }

  /** The commands byte by byte: code, offset and count low byte first, and for the
      hash its kind. */
  lemma CommandLayout(addr: nat, len: nat)
    requires len <= 0xFF_FFFC
    ensures var f := EncodeErase(addr, len);
            && |f| == 7 && f[0] == 0x17 && f[1] == 0
            && f[2] as int + 256 * f[3] as int + 65536 * f[4] as int == addr % 0x100_0000
            && (f[5] as int + 256 * f[6] as int) * 0x1000 - 0x1000 < len <= (f[5] as int + 256 * f[6] as int) * 0x1000
    ensures var f := EncodeHash(addr, len);
            && |f| == 8 && f[0] == 0x21 && f[7] == 0x02
            && f[1] as int + 256 * f[2] as int + 65536 * f[3] as int == addr % 0x100_0000
            && var n := f[4] as int + 256 * f[5] as int + 65536 * f[6] as int; n % 4 == 0 && len <= n < len + 4
  {
    Low24RoundTrip(addr);
    SectorsCover(len);
    Low24RoundTrip(Sectors(len));
    Aligned(len);
    Low24RoundTrip(WordAligned(len));
  }

  lemma Aligned(size: nat)
    ensures size <= WordAligned(size) < size + 4 && WordAligned(size) % 4 == 0
    ensures size <= 0xFF_FFFC ==> WordAligned(size) % 0x100_0000 == WordAligned(size)
  {
  }

  /** The frame size is recovered from its high byte exactly when it is a
      multiple of 256 below 65536. */
  lemma FrameSizeRoundTripIff(size: nat)
    ensures DecodeCommand(EncodeFrameSize(size)) == Some(FrameSize(size)) <==> size % 256 == 0 && size < 65536
  {
    var y := size / 256;
    assert size == 256 * y + size % 256 && Byte(size, 1) == Byte(y, 0) == y % 256;
    assert y % 256 == y <==> y < 256;
  }
}
