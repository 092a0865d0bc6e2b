/** The packed page bitmap: one bit a page, eight pages a byte, read as a set of free page numbers. */
module Bitmap {

  const TOTAL_PAGES: nat := 0x10_0000
  const BITMAP_SIZE: nat := 0x2_0000

  type Bits = bits: seq<bv8> | |bits| == BITMAP_SIZE witness seq(BITMAP_SIZE, i => 0)

  /** The `uint8_t bit` of the source, `page % 8` as a shift amount. */
  function BitIndex(page: nat): (k: bv8)
    ensures k < 8
  {
    match page % 8 case 0 => 0 case 1 => 1 case 2 => 2 case 3 => 3 case 4 => 4 case 5 => 5 case 6 => 6 case _ => 7
  }

  function BitOf(byte: bv8, k: bv8): bool
    requires k < 8
  {
    (byte >> k) & 1 != 0
  }

  function WithBit(byte: bv8, k: bv8, status: bool): bv8
    requires k < 8
  {
    if status then byte | (1 << k) else byte & !(1 << k)
  }

  lemma BitUpdate(byte: bv8, k: bv8, j: bv8, status: bool)
    requires k < 8 && j < 8
    ensures BitOf(WithBit(byte, k, status), j) == if j == k then status else BitOf(byte, j)
  {
  }

  /** A byte is 0xFF exactly when all its eight bits are set. */
  lemma FullByte(byte: bv8)
    ensures byte == 0xFF <==> forall k: bv8 :: k < 8 ==> BitOf(byte, k)
  {
    if byte != 0xFF {
      assert !BitOf(byte, 0) || !BitOf(byte, 1) || !BitOf(byte, 2) || !BitOf(byte, 3)
          || !BitOf(byte, 4) || !BitOf(byte, 5) || !BitOf(byte, 6) || !BitOf(byte, 7);
    }
  }

  /** What `check_page_status` reads: true for a reserved page. */
  predicate Reserved(bits: Bits, page: nat)
    requires page < TOTAL_PAGES
  {
    BitOf(bits[page / 8], BitIndex(page))
  }

  /** What `set_page_status` leaves: one byte replaced. */
  function WithPage(bits: Bits, page: nat, status: bool): Bits
    requires page < TOTAL_PAGES
  {
    bits[page / 8 := WithBit(bits[page / 8], BitIndex(page), status)]
  }

  /** The abstraction: the set of pages whose bit is clear, collected byte by byte. */
  ghost function FreePages(bits: seq<bv8>): set<nat> {
    if bits == [] then {}
    else FreePages(bits[..|bits| - 1]) + FreeInByte(bits[|bits| - 1], |bits| - 1)
  }

  ghost function FreeInByte(byte: bv8, i: nat): set<nat> {
    set p: nat | 8 * i <= p < 8 * i + 8 && !BitOf(byte, BitIndex(p))
  }

  lemma {:induction false} FreePagesMember(bits: seq<bv8>, p: nat)
    ensures p in FreePages(bits) <==> p < 8 * |bits| && !BitOf(bits[p / 8], BitIndex(p))
  {
    if bits != [] {
      FreePagesMember(bits[..|bits| - 1], p);
    }
  }

  /** Page 8 * i + k is the bit of value 2^k in byte i, and a set bit reserves it. */
  lemma BitLayout(bits: Bits, i: nat)
    requires i < BITMAP_SIZE
    ensures WithPage(bits, 8 * i, true)[i] == bits[i] | 0x01 && WithPage(bits, 8 * i, false)[i] == bits[i] & 0xFE
    ensures WithPage(bits, 8 * i + 7, true)[i] == bits[i] | 0x80
    ensures WithPage(bits, 8 * i + 7, false)[i] == bits[i] & 0x7F
    ensures Reserved(bits, 8 * i) <==> bits[i] & 0x01 != 0
    ensures Reserved(bits, 8 * i + 7) <==> bits[i] & 0x80 != 0
  {
  }

  lemma SamePage(p: nat, q: nat)
    ensures p / 8 == q / 8 && BitIndex(p) == BitIndex(q) <==> p == q
  {
  }

  lemma ReservedAfterSet(bits: Bits, page: nat, status: bool, p: nat)
    requires page < TOTAL_PAGES && p < TOTAL_PAGES
    ensures Reserved(WithPage(bits, page, status), p) == if p == page then status else Reserved(bits, p)
  {
    SamePage(p, page);
    if p / 8 == page / 8 {
      BitUpdate(bits[page / 8], BitIndex(page), BitIndex(p), status);
    }
  }

  /** Setting one page's status changes that page and no other, in particular none of its byte. */
  lemma SetPageIsSetUpdate(bits: Bits, page: nat, status: bool)
    requires page < TOTAL_PAGES
    ensures FreePages(WithPage(bits, page, status))
         == if status then FreePages(bits) - {page} else FreePages(bits) + {page}
  {
    var after := WithPage(bits, page, status);
    forall p: nat
      ensures p in FreePages(after) <==> if p == page then !status else p in FreePages(bits)
    {
      FreePagesMember(bits, p);
      FreePagesMember(after, p);
      if p < TOTAL_PAGES {
        ReservedAfterSet(bits, page, status, p);
      }
    }
  }

  lemma PageOfBit(i: nat, k: bv8) returns (p: nat)
    requires k < 8
    ensures 8 * i <= p < 8 * i + 8 && p / 8 == i && BitIndex(p) == k
  {
    p := 8 * i
       + (match k case 0 => 0 case 1 => 1 case 2 => 2 case 3 => 3 case 4 => 4 case 5 => 5 case 6 => 6 case _ => 7);
  }

  /** A byte equal to 0xFF holds no free page; any other byte holds one. */
  lemma FullByteHoldsNoFreePage(bits: Bits, i: nat)
    requires i < BITMAP_SIZE
    ensures bits[i] == 0xFF <==> forall p :: p in FreePages(bits) ==> p < 8 * i || 8 * i + 8 <= p
  {
    FullByte(bits[i]);
    if bits[i] == 0xFF {
      forall p | p in FreePages(bits) ensures p < 8 * i || 8 * i + 8 <= p {
        FreePagesMember(bits, p);
      }
    } else {
      var k: bv8 :| k < 8 && !BitOf(bits[i], k);
      var p := PageOfBit(i, k);
      FreePagesMember(bits, p);
    }
  }

  /** The all-ones bitmap has no free page. */
  lemma AllOnes(bits: Bits)
    requires forall i :: 0 <= i < BITMAP_SIZE ==> bits[i] == 0xFF
    ensures FreePages(bits) == {}
  {
    forall p: nat ensures p !in FreePages(bits) {
      FreePagesMember(bits, p);
      if p < TOTAL_PAGES {
        FullByte(bits[p / 8]);
      }
    }
  }
}
