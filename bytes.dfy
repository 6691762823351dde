/** Fixed-width unsigned integers, the bitwise OR the editor applies to a
    16-bit word, and big-endian ("network byte order") access to 16-bit
    fields of a byte sequence. */
module Bytes {

  /** Rust's `u8`, `u16` and `u32`, as ranges of the unbounded integers: an
      assignment that would overflow one of them is a verification error. */
  newtype u8 = x: int | 0 <= x < 0x100
  newtype u16 = x: int | 0 <= x < 0x1_0000
  newtype u32 = x: int | 0 <= x < 0x1_0000_0000

  /** 2 to the power k. */
  function Pow2(k: nat): (r: nat)
    ensures r >= 1
  {
    if k == 0 then 1 else 2 * Pow2(k - 1)
  }

  /** The two powers the 16-bit code needs. */
  lemma Pow2Of15And16()
    ensures Pow2(15) == 0x8000 && Pow2(16) == 0x1_0000
  {
    assert Pow2(4) == 16;
    assert Pow2(8) == 256;
    assert Pow2(12) == 4096;
  }

  /** Bitwise OR of two naturals, bit by bit from the least significant end. */
  function BitOr(x: nat, y: nat): (r: nat)
    ensures x <= r && y <= r
    decreases x + y
  {
    if x == 0 then y
    else if y == 0 then x
    else 2 * BitOr(x / 2, y / 2) + (if x % 2 == 1 || y % 2 == 1 then 1 else 0)
  }

  /** OR-ing in the single bit k sets that bit and keeps every other bit: it
      adds 2^k when bit k was clear and changes nothing when it was set. */
  lemma {:induction false} BitOrPow2(w: nat, k: nat)
    requires w < 2 * Pow2(k)
    ensures BitOr(w, Pow2(k)) == if w < Pow2(k) then w + Pow2(k) else w
  {
    if k == 0 {
      assert w == 0 || w == 1;
      if w == 1 {
        assert BitOr(1, 1) == 2 * BitOr(0, 0) + 1;
      }
    } else if w == 0 {
    } else {
      BitOrPow2(w / 2, k - 1);
      assert Pow2(k) / 2 == Pow2(k - 1) && Pow2(k) % 2 == 0;
      assert BitOr(w, Pow2(k)) == 2 * BitOr(w / 2, Pow2(k - 1)) + w % 2;
    }
  }

  /** The case the editor uses: OR-ing bit 15 into a 16-bit value. */
  lemma BitOrBit15(w: nat)
    requires w < 0x1_0000
    ensures BitOr(w, 0x8000) == if w < 0x8000 then w + 0x8000 else w
  {
    Pow2Of15And16();
    BitOrPow2(w, 15);
  }

  /** OR never sets a bit above the width of its operands. */
  lemma {:induction false} BitOrBound(x: nat, y: nat, n: nat)
    requires x < Pow2(n) && y < Pow2(n)
    ensures BitOr(x, y) < Pow2(n)
    decreases n
  {
    if x != 0 && y != 0 {
      BitOrBound(x / 2, y / 2, n - 1);
    }
  }

  /** The `|` operator on `u16`. */
  function Or16(x: u16, y: u16): (r: u16)
    ensures x <= r && y <= r
  {
    Pow2Of15And16();
    BitOrBound(x as nat, y as nat, 16);
    BitOr(x as nat, y as nat) as u16
  }

  /** `u16::from_be` applied to the two bytes at `off`: the first byte is the
      most significant. */
  function ReadBE16(p: seq<u8>, off: nat): (w: u16)
    requires off + 2 <= |p|
    ensures w / 0x100 == p[off] as u16 && w % 0x100 == p[off + 1] as u16
  {
    (p[off] as int * 0x100 + p[off + 1] as int) as u16
  }

  /** `w.to_be()` stored at `off`: the high byte first, then the low byte;
      every other byte is kept. */
  function WriteBE16(p: seq<u8>, off: nat, w: u16): (q: seq<u8>)
    requires off + 2 <= |p|
    ensures |q| == |p|
    ensures ReadBE16(q, off) == w
    ensures forall i :: 0 <= i < |p| && i != off && i != off + 1 ==> q[i] == p[i]
  {
    p[off := (w / 0x100) as int as u8][off + 1 := (w % 0x100) as int as u8]
  }

  /** Writing back the word just read changes nothing. */
  lemma WriteReadBE16(p: seq<u8>, off: nat)
    requires off + 2 <= |p|
    ensures WriteBE16(p, off, ReadBE16(p, off)) == p
  {
    var q := WriteBE16(p, off, ReadBE16(p, off));
    assert forall i :: 0 <= i < |p| ==> q[i] == p[i];
  }
}
