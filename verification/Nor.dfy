/** Bitwise arithmetic on octets and the NOR flash array. */
module Nor {
  import opened Common

  function Pow2(n: nat): (r: nat)
    ensures r > 0
  {
    if n == 0 then 1 else 2 * Pow2(n - 1)
  }

  function AndBits(x: nat, y: nat, n: nat): (r: nat)
    ensures r <= x
  {
    if n == 0 then 0 else 2 * AndBits(x / 2, y / 2, n - 1) + (if x % 2 == 1 && y % 2 == 1 then 1 else 0)
  }

  function XorBits(x: nat, y: nat, n: nat): (r: nat)
    ensures r < Pow2(n)
  {
    if n == 0 then 0 else 2 * XorBits(x / 2, y / 2, n - 1) + (if x % 2 != y % 2 then 1 else 0)
  }

  function And(x: byte, y: byte): byte { AndBits(x, y, 8) }

  function Xor(x: byte, y: byte): byte {
    assert Pow2(8) == 256 by { assert Pow2(4) == 16; }
    XorBits(x, y, 8)
  }

  lemma AndOnes(x: nat, n: nat)
    requires x < Pow2(n)
    ensures AndBits(Pow2(n) - 1, x, n) == x && AndBits(x, Pow2(n) - 1, n) == x
  {
    if n > 0 { AndOnes(x / 2, n - 1); }
  }

  lemma AndByte(x: byte)
    ensures And(255, x) == x && And(x, 255) == x
  {
    assert Pow2(8) == 256 by { assert Pow2(4) == 16; }
    AndOnes(x, 8);
  }

  lemma XorZeroBits(x: nat, n: nat)
    requires x < Pow2(n)
    ensures XorBits(x, 0, n) == x && XorBits(0, x, n) == x && XorBits(x, x, n) == 0
  {
    if n > 0 { XorZeroBits(x / 2, n - 1); }
  }

  lemma {:induction false} XorCancelBits(x: nat, y: nat, n: nat)
    requires x < Pow2(n) && y < Pow2(n)
    ensures XorBits(XorBits(x, y, n), y, n) == x
  {
    if n > 0 {
      XorCancelBits(x / 2, y / 2, n - 1);
      var low := if x % 2 != y % 2 then 1 else 0;
      assert XorBits(x, y, n) / 2 == XorBits(x / 2, y / 2, n - 1) && XorBits(x, y, n) % 2 == low;
    }
  }

  lemma XorByte(x: byte, y: byte)
    ensures Xor(x, x) == 0 && Xor(0, x) == x && Xor(Xor(x, y), y) == x
    ensures Xor(x, y) == 0 ==> x == y
  {
    assert Pow2(8) == 256 by { assert Pow2(4) == 16; }
    XorZeroBits(x, 8);
    XorZeroBits(y, 8);
    XorCancelBits(x, y, 8);
  }

  /** Bit k of a number. */
  function Bit(x: nat, k: nat): (b: nat)
    ensures b <= 1
  {
    if k == 0 then x % 2 else Bit(x / 2, k - 1)
  }

  lemma {:induction false} XorBitsAt(x: nat, y: nat, n: nat, k: nat)
    requires k < n
    ensures Bit(XorBits(x, y, n), k) == (Bit(x, k) + Bit(y, k)) % 2
  {
    var low := if x % 2 != y % 2 then 1 else 0;
    assert XorBits(x, y, n) / 2 == XorBits(x / 2, y / 2, n - 1) && XorBits(x, y, n) % 2 == low;
    if k > 0 { XorBitsAt(x / 2, y / 2, n - 1, k - 1); }
  }

  lemma {:induction false} AndBitsAt(x: nat, y: nat, n: nat, k: nat)
    requires k < n
    ensures Bit(AndBits(x, y, n), k) == Bit(x, k) * Bit(y, k)
  {
    var low := if x % 2 == 1 && y % 2 == 1 then 1 else 0;
    assert AndBits(x, y, n) / 2 == AndBits(x / 2, y / 2, n - 1) && AndBits(x, y, n) % 2 == low;
    if k > 0 { AndBitsAt(x / 2, y / 2, n - 1, k - 1); }
  }

  /** Bit by bit, the operations are what their names say. */
  lemma BitwiseOctets(x: byte, y: byte, k: nat)
    requires k < 8
    ensures Bit(Xor(x, y), k) == (Bit(x, k) + Bit(y, k)) % 2
    ensures Bit(And(x, y), k) == Bit(x, k) * Bit(y, k)
  {
    XorBitsAt(x, y, 8, k);
    AndBitsAt(x, y, 8, k);
  }

  // ---- Flash ----------------------------------------------------------------

  /** Erasing sets every bit of the range. */
  function Erased(mem: seq<byte>, a: nat, n: nat): (r: seq<byte>)
    ensures |r| == |mem|
  {
    seq(|mem|, i requires 0 <= i < |mem| => if a <= i < a + n then 255 else mem[i])
  }

  /** Programming can only clear bits; what falls past the array is ignored. */
  function Programmed(mem: seq<byte>, a: nat, data: seq<byte>): (r: seq<byte>)
    ensures |r| == |mem|
  {
    seq(|mem|, i requires 0 <= i < |mem| => if a <= i < a + |data| then And(mem[i], data[i - a]) else mem[i])
  }

  /** Programming erased cells stores the data. */
  lemma ProgramErased(mem: seq<byte>, a: nat, data: seq<byte>)
    requires a + |data| <= |mem| && forall i :: a <= i < a + |data| ==> mem[i] == 255
    ensures Programmed(mem, a, data)[a..a + |data|] == data
  {
    forall i | a <= i < a + |data|
      ensures Programmed(mem, a, data)[i] == data[i - a]
    {
      AndByte(data[i - a]);
    }
  }
}
