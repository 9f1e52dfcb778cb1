/**
 The inputs of the `hidden_constant` benchmark and a few one-byte scenarios,
 with what each bit lookup returns on them.

 The bitmap is 32 KiB of the byte 42 (binary 00101010), probed at index 123,
 which falls in byte 15, bit 3.
 */
module Benchmark {
  import opened Binary
  import opened Usize
  import opened U8
  import opened BitTest

  /** The benchmark's bitmap: 32 * 1024 bytes, each equal to 42. */
  const HiddenBitmap: Bitmap := seq(32 * 1024, _ => 42)

  /** The benchmark's probed index. */
  const HiddenIndex: usize := 123

  /** The digits of 42, least significant first, are 0, 1, 0, 1, 0, 1, 0, 0. */
  lemma FortyTwoDigits(k: nat)
    requires k < 8
    ensures BitAt(42, k) == (k == 1 || k == 3 || k == 5)
  {
    Pow2Byte(k);
  }

  /** All three lookups report bit 123 of the benchmark bitmap as set. */
  lemma HiddenConstantProbe()
    ensures ValidIndex(HiddenBitmap, HiddenIndex)
    ensures HiddenIndex / 8 == 15 && HiddenIndex % 8 == 3
    ensures BitNaive(HiddenBitmap, HiddenIndex)
    ensures BitConstTable(HiddenBitmap, HiddenIndex)
    ensures BitStaticTable(HiddenBitmap, HiddenIndex)
  {
    assert HiddenBitmap[15] == 42;
    FortyTwoDigits(3);
  }

  /** In the benchmark bitmap exactly bits 1, 3 and 5 of every byte are set. */
  lemma HiddenBitmapPattern(idx: usize)
    requires ValidIndex(HiddenBitmap, idx)
    ensures BitNaive(HiddenBitmap, idx) == (idx % 8 == 1 || idx % 8 == 3 || idx % 8 == 5)
    ensures BitConstTable(HiddenBitmap, idx) == BitNaive(HiddenBitmap, idx)
    ensures BitStaticTable(HiddenBitmap, idx) == BitNaive(HiddenBitmap, idx)
  {
    assert HiddenBitmap[idx / 8] == 42;
    FortyTwoDigits(idx % 8);
  }

  /** A one-byte bitmap holding 8 has bit 3 set and no other. */
  lemma SingleBitByte(idx: usize)
    requires idx < 8
    ensures BitNaive([8], idx) == (idx == 3)
    ensures BitConstTable([8], idx) == (idx == 3)
    ensures BitStaticTable([8], idx) == (idx == 3)
  {
    Pow2Byte(idx);
  }

  /** A one-byte bitmap holding 254 has every bit set except bit 0. */
  lemma AllButLowestByte(idx: usize)
    requires idx < 8
    ensures BitNaive([254], idx) == (idx != 0)
    ensures BitConstTable([254], idx) == (idx != 0)
    ensures BitStaticTable([254], idx) == (idx != 0)
  {
    Pow2Byte(idx);
  }

  /**
   In a bitmap of `n` bytes the last addressable bit is `8 * n - 1`; index
   `8 * n` is past the end and fails the bounds check.
   */
  lemma LastBitBoundary(bitmap: Bitmap)
    requires 0 < |bitmap| && 8 * |bitmap| < 0x1_0000_0000_0000_0000
    ensures ValidIndex(bitmap, 8 * |bitmap| - 1)
    ensures (8 * |bitmap| - 1) / 8 == |bitmap| - 1
    ensures !ValidIndex(bitmap, 8 * |bitmap|)
    ensures Shr(8 * |bitmap|, 3) == |bitmap|
  {
    ShrThreeIsDivEight(8 * |bitmap|);
  }
}
