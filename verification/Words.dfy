/** Machine integers of the 32-bit target, and the bitwise `or` the kernel builds table entries with. */
module Words {

  const TWO_32: nat := 0x1_0000_0000
  const TWO_64: nat := 0x1_0000_0000_0000_0000

  type Byte = x: nat | x < 0x100
  type Word = x: nat | x < 0x1_0000_0000
  type Quad = x: nat | x < 0x1_0000_0000_0000_0000

  const NUL: char := '\0'

  datatype Option<+T> = None | Some(value: T)

  /** An 8-bit counter after a sum of two bytes: the sum modulo 2^8, as Wrap8IsModulo shows. */
  function Wrap8(x: nat): Byte
    requires x < 0x200
  {
    if x < 0x100 then x else x - 0x100
  }

  lemma Wrap8IsModulo(x: nat)
    requires x < 0x200
    ensures Wrap8(x) == x % 0x100
  {
  }

  /** Unsigned 32-bit arithmetic: the result modulo 2^32. */
  function Wrap32(x: int): Word {
    x % TWO_32
  }

  /** Unsigned 64-bit arithmetic: the result modulo 2^64. */
  function Wrap64(x: int): Quad {
    x % TWO_64
  }

  /** Bitwise or, bit by bit from the lowest. */
  function BitOr(a: nat, b: nat): nat {
    if a == 0 then b
    else if b == 0 then a
    else 2 * BitOr(a / 2, b / 2) + (if a % 2 == 1 || b % 2 == 1 then 1 else 0)
  }

  function Power(base: nat, k: nat): nat {
    if k == 0 then 1 else base * Power(base, k - 1)
  }

  /** Or of a multiple of 2^k with a number below 2^k is their sum. */
  lemma {:induction false} BitOrDisjoint(q: nat, k: nat, b: nat)
    requires b < Power(2, k)
    ensures BitOr(q * Power(2, k), b) == q * Power(2, k) + b
  {
    if k > 0 && q > 0 && b > 0 {
      var p := Power(2, k - 1);
      assert q * Power(2, k) == 2 * (q * p);
      BitOrDisjoint(q, k - 1, b / 2);
    }
  }

  /** The or of two 32-bit words is a 32-bit word, and its bit 0 is the or of their bits 0. */
  lemma {:induction false} BitOrBelow(a: nat, b: nat, k: nat)
    requires a < Power(2, k) && b < Power(2, k)
    ensures BitOr(a, b) < Power(2, k)
    ensures BitOr(a, b) % 2 == 1 <==> a % 2 == 1 || b % 2 == 1
  {
    if a > 0 && b > 0 {
      BitOrBelow(a / 2, b / 2, k - 1);
    }
  }

  /** A page-aligned address or-ed with flag bits below 4096 keeps both. */
  lemma AlignedOr(address: nat, flags: nat)
    requires address % 4096 == 0 && flags < 4096
    ensures BitOr(address, flags) == address + flags
  {
    assert Power(2, 12) == 4096 by {
      assert Power(2, 4) == 16;
      assert Power(2, 8) == 256;
    }
    BitOrDisjoint(address / 4096, 12, flags);
  }

  /** The word stored for `a | b`. */
  function Or32(a: Word, b: Word): (r: Word)
    ensures r % 2 == 1 <==> a % 2 == 1 || b % 2 == 1
  {
    assert Power(2, 32) == TWO_32 by {
      assert Power(2, 8) == 256;
      assert Power(2, 16) == 65536;
      assert Power(2, 24) == 0x100_0000;
    }
    BitOrBelow(a, b, 32);
    BitOr(a, b)
  }
}
