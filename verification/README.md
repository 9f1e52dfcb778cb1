# bit_test: three bit lookups in a byte bitmap

The `bit_test` crate answers one question three ways: is bit `idx` of a byte
bitmap set? Bits are numbered least-significant first inside each byte, so
bit `idx` is binary digit `idx % 8` of byte `idx / 8`.

- `bit_naive` finds the byte with `idx / 8` and builds the mask `1 << (idx % 8)`.
- `bit_const_table` finds the byte with `idx >> 3` and reads the mask
  `BIT_MASK[idx & 7]` from the constant table `[1, 2, 4, 8, 16, 32, 64, 128]`.
- `bit_static_table` does the same with `BIT_MASK_STATIC`, a static copy of
  `BIT_MASK`.

The model gives each variant its own Dafny function, built from the same
operations as the Rust code. Each function's contract says it computes one
reference reading, `BitTest.BitSpec`: `(bitmap[idx / 8] / 2^(idx % 8)) % 2 == 1`.
Lemmas then show that the three variants agree, that the table is the powers
of two, where the bounds check can fail, and that the answer depends on one byte only.

Files and modules:

- `binary.dfy`, module `Binary`: powers of two and the binary digits of a
  natural number. This is the reference for all bit reasoning.
- `machine.dfy`, module `Usize`: `usize` as an integer in `[0, 2^64)`.
  `>>` is `Shr` and `&` is `And`, both defined digit by digit on the binary
  representation. `>>` on `usize` is a logical shift. `idx >> 3 == idx / 8`
  and `idx & 7 == idx % 8` are proved as lemmas, not assumed.
- `machine.dfy`, module `U8`: `u8` as Dafny's `bv8`, with the native `&` and
  `<<`. A lemma shows that `b & (1 << k) != 0` reads digit `k` of `b`.
- `bit_test.dfy`, module `BitTest`: the crate itself.
- `benchmark.dfy`, module `Benchmark`: the `hidden_constant` benchmark's
  inputs, plus a few one-byte and boundary scenarios.

Rust's slice bounds check panics when the byte offset is past the end. Here
it becomes the precondition `ValidIndex(bitmap, idx)`, i.e. `idx < 8 * |bitmap|`.
`ByteIndexInBounds` proves that this is exactly the condition under which the
byte access is in bounds.

## Model

| member | source | states |
|---|---|---|
| `Usize.Shr` | src/lib.rs:8 | `x >> k` on `usize` is `x / 2^k`, for every `x` and every shift below the width |
| `Usize.And` | src/lib.rs:8 | `a & b` on `usize`, defined digit by digit; the result is at most either operand, so it stays a `usize` |
| `Usize.ShrMovesDigits` | src/lib.rs:8 | shifting right by `k` moves binary digit `j + k` of `x` to position `j` |
| `Usize.ShrThreeIsDivEight` | src/lib.rs:8 | the table variants' byte offset `idx >> 3` equals the naive byte offset `idx / 8` |
| `Usize.AndIsDigitwise` | src/lib.rs:8 | digit `j` of `a & b` is set exactly when digit `j` is set in both `a` and `b` |
| `Usize.AndSevenIsModEight` | src/lib.rs:8 | the table variants' bit offset `idx & 7` equals the naive bit offset `idx % 8`, so it is always below 8 |
| `U8.MaskSelectsDigit` | src/lib.rs:3 | for `k < 8`, `b & (1 << k) != 0` holds exactly when binary digit `k` of byte `b` is 1 (least significant first) |
| `BitTest.ValidIndex` | src/lib.rs:3 | the slice bounds check: `idx < 8 * len` holds exactly when the byte offset `idx / 8` is inside the bitmap |
| `BitTest.MaskTableIsPowersOfTwo` | src/lib.rs:11 | entry `k` of `BIT_MASK` (the constant `BitTest.BitMask`) is `1 << k`, i.e. `2^k`, for each of the 8 entries |
| `BitTest.BitNaive` | src/lib.rs:2-4 | for every valid index, `bit_naive` returns digit `idx % 8` of byte `idx / 8` |
| `BitTest.BitConstTable` | src/lib.rs:7-9 | for every valid index, `bit_const_table` returns digit `idx % 8` of byte `idx / 8` |
| `BitTest.BitStaticTable` | src/lib.rs:14-16 | for every valid index, `bit_static_table` returns digit `idx % 8` of byte `idx / 8` |
| `BitTest.TableIndexInBounds` | src/lib.rs:8 | the table index `idx & 7` is inside both 8-entry tables for every `usize`, so the table lookup never panics |
| `BitTest.ByteIndexInBounds` | src/lib.rs:3 | the byte offset, as `idx / 8` or as `idx >> 3`, is inside the bitmap if and only if `idx < 8 * len` |
| `BitTest.ShiftMaskIsTableMask` | src/lib.rs:3-11 | the naive mask `1 << (idx % 8)` is the same byte as the table mask `BIT_MASK[idx & 7]` |
| `BitTest.NaiveAgreesWithConstTable` | src/lib.rs:2-9 | `bit_naive` and `bit_const_table` use the same byte offset and bit offset, and give the same answer for every valid index |
| `BitTest.StaticTableAgreesWithConstTable` | src/lib.rs:7-18 | `BIT_MASK_STATIC` (the constant `BitTest.BitMaskStatic`) equals `BIT_MASK`, so the two table variants agree for every valid index |
| `BitTest.AllVariantsAgree` | src/lib.rs:2-16 | all three variants agree, and they equal `(bitmap[idx / 8] / 2^(idx % 8)) % 2 == 1` |
| `BitTest.OnlyAddressedByteMatters` | src/lib.rs:3-15 | every variant's answer depends only on byte `idx / 8`: bitmaps with the same byte there answer the same |
| `BitTest.OtherByteUpdateIsInvisible` | src/lib.rs:3-15 | overwriting any byte other than `idx / 8` leaves every variant's answer for `idx` unchanged |
| `BitTest.BitsDetermineBitmap` | src/lib.rs:3 | the bit reading loses nothing: two equal-length bitmaps that agree on every bit index are equal byte for byte |
| `Benchmark.HiddenConstantProbe` | benches/benchmark.rs:8-38 | on 32768 bytes of 42, index 123 (byte 15, bit 3) is set for all three variants |
| `Benchmark.HiddenBitmapPattern` | benches/benchmark.rs:8 | in the benchmark bitmap, exactly bits 1, 3 and 5 of every byte are set, and all variants agree |
| `Benchmark.SingleBitByte` | src/lib.rs:2-16 | in the one-byte bitmap `[8]`, bit 3 is set and no other bit is, for every variant |
| `Benchmark.AllButLowestByte` | src/lib.rs:2-16 | in the one-byte bitmap `[254]`, every bit except bit 0 is set, for every variant |
| `Benchmark.LastBitBoundary` | src/lib.rs:3-8 | in an `n`-byte bitmap, `8n - 1` is the last valid index, and `8n` puts the byte offset at `n`, past the end |

## Left out

- `bit_set` and `bit_clear` (set/clear with their idempotence, inverse and locality properties): the crate defines no such functions.
- Slice-index panics: modelled as the precondition `ValidIndex`, not as an abort. `ByteIndexInBounds` shows that the precondition is exactly the in-bounds condition.
- `Usize.Shr`: requires a shift amount below 64, which is where Rust's own overflow check on `>>` applies. The crate only shifts by 3.
- `usize` is a bounded integer, not a 64-bit bit-vector. `>>` and `&` are defined on its binary digits, and `ShrMovesDigits` and `AndIsDigitwise` show they are the bitwise operators.
- `usize` is modelled as 64 bits wide. On a 32-bit target the width differs, but none of the properties depends on it.
- `#[inline]`, and `const` versus `static` storage: neither affects results. Both tables are the same constant sequence.
- benches/benchmark.rs as a timing harness is left out: Criterion groups, throughput reporting, `pessimize::hide`/`consume`, and the `unsafe` `from_raw_parts` call. These are foreign calls and measurement, with no functional result to state. Only the `hidden_constant` inputs are modelled. The `linear` loop probes indices `0 .. bitmap.len()`, which are all valid bit indices; it is not modelled.
