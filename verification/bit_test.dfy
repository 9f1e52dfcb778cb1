/**
 The `bit_test` crate: three ways of asking "is bit `idx` of this byte bitmap
 set?", with bits numbered least-significant first inside each byte.

 - `BitNaive` finds the byte with `idx / 8` and builds the mask `1 << (idx % 8)`;
 - `BitConstTable` finds the byte with `idx >> 3` and reads the mask
   `BitMask[idx & 7]` from a constant table;
 - `BitStaticTable` does the same with `BitMaskStatic`, a static copy of the table.

 Each is proved equal to the single reference reading `BitSpec`, and so to
 each other. Rust's slice bounds check, which panics when the byte offset is
 past the end, becomes the precondition `ValidIndex`.
 */
module BitTest {
  import opened Binary
  import opened Usize
  import opened U8

  /** A byte bitmap: byte `n` holds bits `8 * n` to `8 * n + 7`. */
  type Bitmap = seq<u8>

  /** `idx` addresses a bit of `bitmap`: the byte it falls in exists. */
  predicate ValidIndex(bitmap: Bitmap, idx: nat): (ok: bool)
    ensures ok <==> idx / 8 < |bitmap|
  {
    idx < 8 * |bitmap|
  }

  /** Reference reading: bit `idx` is binary digit `idx % 8` of byte `idx / 8`. */
  predicate BitSpec(bitmap: Bitmap, idx: nat)
    requires ValidIndex(bitmap, idx)
  {
    BitAt(bitmap[idx / 8] as nat, idx % 8)
  }

  /** `BIT_MASK`: the single-bit byte for each bit offset. */
  const BitMask: seq<u8> := [1, 2, 4, 8, 16, 32, 64, 128]

  /** `BIT_MASK_STATIC`: a static copy of `BIT_MASK`. */
  const BitMaskStatic: seq<u8> := BitMask

  /** The mask table holds exactly the eight powers of two, in order. */
  lemma MaskTableIsPowersOfTwo(k: nat)
    requires k < 8
    ensures k < |BitMask|
    ensures BitMask[k] == (1 as u8) << k
    ensures BitMask[k] as nat == Pow2(k)
  {
    Pow2Byte(k);
  }

  /** `bit_naive`: byte `idx / 8`, mask `1 << (idx % 8)`. */
  function BitNaive(bitmap: Bitmap, idx: usize): (r: bool)
    requires ValidIndex(bitmap, idx)
    ensures r == BitSpec(bitmap, idx)
  {
    MaskSelectsDigit(bitmap[idx / 8], idx % 8);
    bitmap[idx / 8] & ((1 as u8) << (idx % 8)) != 0
  }

  /** `bit_const_table`: byte `idx >> 3`, mask `BIT_MASK[idx & 7]`. */
  function BitConstTable(bitmap: Bitmap, idx: usize): (r: bool)
    requires ValidIndex(bitmap, idx)
    ensures r == BitSpec(bitmap, idx)
  {
    ShrThreeIsDivEight(idx);
    AndSevenIsModEight(idx);
    MaskTableIsPowersOfTwo(idx % 8);
    MaskSelectsDigit(bitmap[idx / 8], idx % 8);
    bitmap[Shr(idx, 3)] & BitMask[And(idx, 7)] != 0
  }

  /** `bit_static_table`: byte `idx >> 3`, mask `BIT_MASK_STATIC[idx & 7]`. */
  function BitStaticTable(bitmap: Bitmap, idx: usize): (r: bool)
    requires ValidIndex(bitmap, idx)
    ensures r == BitSpec(bitmap, idx)
  {
    ShrThreeIsDivEight(idx);
    AndSevenIsModEight(idx);
    MaskTableIsPowersOfTwo(idx % 8);
    MaskSelectsDigit(bitmap[idx / 8], idx % 8);
    bitmap[Shr(idx, 3)] & BitMaskStatic[And(idx, 7)] != 0
  }

  /** The table index `idx & 7` is always inside the 8-entry table. */
  lemma TableIndexInBounds(idx: usize)
    ensures And(idx, 7) < |BitMask| && And(idx, 7) < |BitMaskStatic|
  {
    AndSevenIsModEight(idx);
  }

  /**
   The byte offset, computed either way, is inside the bitmap exactly when
   the index is below `8 * |bitmap|`: the bounds check fails for the first
   index past the last bit and for no index before it.
   */
  lemma ByteIndexInBounds(bitmap: Bitmap, idx: usize)
    ensures (idx / 8 < |bitmap|) == ValidIndex(bitmap, idx)
    ensures (Shr(idx, 3) < |bitmap|) == ValidIndex(bitmap, idx)
  {
    ShrThreeIsDivEight(idx);
  }

  /** The naive mask and the table mask are the same byte. */
  lemma ShiftMaskIsTableMask(idx: usize)
    ensures And(idx, 7) < |BitMask|
    ensures (1 as u8) << (idx % 8) == BitMask[And(idx, 7)]
  {
    AndSevenIsModEight(idx);
    MaskTableIsPowersOfTwo(idx % 8);
  }

  /**
   Division and modulo against shift and mask: `bit_naive` and
   `bit_const_table` compute the same byte, the same mask and the same answer.
   */
  lemma NaiveAgreesWithConstTable(bitmap: Bitmap, idx: usize)
    requires ValidIndex(bitmap, idx)
    ensures Shr(idx, 3) == idx / 8
    ensures And(idx, 7) == idx % 8
    ensures BitNaive(bitmap, idx) == BitConstTable(bitmap, idx)
  {
    ShrThreeIsDivEight(idx);
    AndSevenIsModEight(idx);
    ShiftMaskIsTableMask(idx);
  }

  /** The static table is the constant table, so the two table lookups agree. */
  lemma StaticTableAgreesWithConstTable(bitmap: Bitmap, idx: usize)
    requires ValidIndex(bitmap, idx)
    ensures BitMaskStatic == BitMask
    ensures BitStaticTable(bitmap, idx) == BitConstTable(bitmap, idx)
  {}

  /** All three variants give the same answer, the least-significant-first reading. */
  lemma AllVariantsAgree(bitmap: Bitmap, idx: usize)
    requires ValidIndex(bitmap, idx)
    ensures BitNaive(bitmap, idx) == BitConstTable(bitmap, idx) == BitStaticTable(bitmap, idx)
    ensures BitNaive(bitmap, idx) == ((bitmap[idx / 8] as nat / Pow2(idx % 8)) % 2 == 1)
  {
    NaiveAgreesWithConstTable(bitmap, idx);
    StaticTableAgreesWithConstTable(bitmap, idx);
  }

  /**
   Each answer depends on byte `idx / 8` alone: any bitmap that holds the
   same byte there answers the same, whatever its other bytes or length.
   */
  lemma OnlyAddressedByteMatters(bitmap: Bitmap, other: Bitmap, idx: usize)
    requires ValidIndex(bitmap, idx) && ValidIndex(other, idx)
    requires bitmap[idx / 8] == other[idx / 8]
    ensures BitNaive(bitmap, idx) == BitNaive(other, idx)
    ensures BitConstTable(bitmap, idx) == BitConstTable(other, idx)
    ensures BitStaticTable(bitmap, idx) == BitStaticTable(other, idx)
  {}

  /** Overwriting any other byte leaves the answer for `idx` unchanged. */
  lemma OtherByteUpdateIsInvisible(bitmap: Bitmap, n: nat, v: u8, idx: usize)
    requires ValidIndex(bitmap, idx) && n < |bitmap| && n != idx / 8
    ensures BitNaive(bitmap[n := v], idx) == BitNaive(bitmap, idx)
    ensures BitConstTable(bitmap[n := v], idx) == BitConstTable(bitmap, idx)
    ensures BitStaticTable(bitmap[n := v], idx) == BitStaticTable(bitmap, idx)
  {
    OnlyAddressedByteMatters(bitmap, bitmap[n := v], idx);
  }

  /**
   The bit reading loses nothing: two bitmaps of the same length that agree
   on every bit index are equal, byte for byte.
   */
  lemma BitsDetermineBitmap(bitmap: Bitmap, other: Bitmap)
    requires |bitmap| == |other|
    requires forall idx: nat :: ValidIndex(bitmap, idx) ==> BitSpec(bitmap, idx) == BitSpec(other, idx)
    ensures bitmap == other
  {
    forall n | 0 <= n < |bitmap|
      ensures bitmap[n] == other[n]
    {
      var mine, theirs := bitmap[n] as nat, other[n] as nat;
      forall k: nat | k < 8
        ensures BitAt(mine, k) == BitAt(theirs, k)
      {
        var idx := 8 * n + k;
        assert ValidIndex(bitmap, idx);
        assert idx / 8 == n && idx % 8 == k;
        assert BitSpec(bitmap, idx) == BitSpec(other, idx);
      }
      Pow2Byte(7);
      assert Pow2(8) == 256;
      DigitsDetermine(mine, theirs, 8);
    }
  }
}
