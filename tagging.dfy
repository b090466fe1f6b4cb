// Small-integer (Smi) tagging and the byte-offset helpers of the code stub
// assembler (v8/src/compiler/code-stub-assembler.cc:151-278).
//
// Machine words are modelled as mathematical integers in the signed range of
// the word width; every operation that can overflow wraps explicitly
// (two's complement).  A right arithmetic shift is floor division by a power
// of two, which is what Dafny's `/` computes for a positive divisor, and an
// AND with the mask 2^k - 1 is the non-negative remainder modulo 2^k.

module Tagging {

  /** The two word widths the assembler is built for. */
  datatype Arch = Arch32 | Arch64

  function Pow2(n: nat): (r: nat)
    ensures r > 0
  {
    if n == 0 then 1 else 2 * Pow2(n - 1)
  }

  lemma {:induction false} Pow2Add(a: nat, b: nat)
    ensures Pow2(a + b) == Pow2(a) * Pow2(b)
  {
    if a > 0 {
      Pow2Add(a - 1, b);
    }
  }

  /** The powers of two the constants below need, as literals. */
  lemma Pow2Table()
    ensures Pow2(1) == 2 && Pow2(2) == 4 && Pow2(3) == 8
    ensures Pow2(29) == 0x2000_0000 && Pow2(30) == 0x4000_0000
    ensures Pow2(31) == 0x8000_0000 && Pow2(32) == 0x1_0000_0000
    ensures Pow2(63) == 0x8000_0000_0000_0000
    ensures Pow2(64) == 0x1_0000_0000_0000_0000
  {
    assert Pow2(5) == 32;
    assert Pow2(8) == 256;
    Pow2Add(8, 8);
    Pow2Add(16, 8);
    Pow2Add(24, 5);
    Pow2Add(16, 16);
    Pow2Add(32, 32);
  }

  // ---------------------------------------------------------------------
  // Constants (globals.h / objects.h of the V8 tree)

  function PointerSize(arch: Arch): nat {
    if arch.Arch32? then 4 else 8
  }

  function PointerSizeLog2(arch: Arch): nat {
    if arch.Arch32? then 2 else 3
  }

  const HeapObjectTag: int := 1
  const SmiTagSize: nat := 1
  const SmiTagMask: int := 1
  const DoubleSize: nat := 8
  const DoubleAlignmentMask: int := DoubleSize - 1

  /** Extra shift above the tag bit: a 31-bit payload on 32-bit words and a
    * 32-bit payload in the upper half of 64-bit words. */
  function SmiShiftSize(arch: Arch): nat {
    if arch.Arch32? then 0 else 31
  }

  /** kSmiShiftSize + kSmiTagSize, the constant SmiShiftBitsConstant emits. */
  function SmiShiftBits(arch: Arch): nat {
    SmiShiftSize(arch) + SmiTagSize
  }

  /** FixedArray::kHeaderSize: the map word and the length word. */
  function FixedArrayHeaderSize(arch: Arch): nat {
    2 * PointerSize(arch)
  }

  // ---------------------------------------------------------------------
  // Word arithmetic

  /** 2^31 or 2^63: the bound of the signed word range. */
  function HalfWord(arch: Arch): int {
    if arch.Arch32? then 0x8000_0000 else 0x8000_0000_0000_0000
  }

  /** 2^32 or 2^64. */
  function WordModulus(arch: Arch): int {
    2 * HalfWord(arch)
  }

  predicate IsWord(arch: Arch, x: int) {
    -HalfWord(arch) <= x < HalfWord(arch)
  }

  predicate IsInt32(x: int) {
    -0x8000_0000 <= x < 0x8000_0000
  }

  /** Two's-complement truncation to the word width. */
  function Wrap(arch: Arch, x: int): (r: int)
    ensures IsWord(arch, r)
    ensures (x - r) % WordModulus(arch) == 0
    ensures IsWord(arch, x) ==> r == x
  {
    var m := x % WordModulus(arch);
    if m >= HalfWord(arch) then m - WordModulus(arch) else m
  }

  /** TruncateInt64ToInt32: keeps the low 32 bits as a signed value. */
  function TruncateToInt32(x: int): (r: int)
    ensures IsInt32(r)
    ensures (x - r) % 0x1_0000_0000 == 0
    ensures IsInt32(x) ==> r == x
  {
    var m := x % 0x1_0000_0000;
    if m >= 0x8000_0000 then m - 0x1_0000_0000 else m
  }

  function IntPtrAdd(arch: Arch, x: int, y: int): (r: int)
    ensures IsWord(arch, r)
    ensures IsWord(arch, x + y) ==> r == x + y
  {
    Wrap(arch, x + y)
  }

  function IntPtrSub(arch: Arch, x: int, y: int): (r: int)
    ensures IsWord(arch, r)
    ensures IsWord(arch, x - y) ==> r == x - y
  {
    Wrap(arch, x - y)
  }

  /** Shift left, dropping the bits shifted out of the word. */
  function WordShl(arch: Arch, x: int, s: nat): (r: int)
    ensures IsWord(arch, r)
  {
    Wrap(arch, x * Pow2(s))
  }

  /** Arithmetic shift right: rounds toward minus infinity. */
  function WordSar(x: int, s: nat): int {
    x / Pow2(s)
  }

  /** WordAnd with the mask 2^k - 1 in two's complement. */
  function WordAndLowBits(x: int, k: nat): (r: int)
    ensures 0 <= r < Pow2(k)
  {
    x % Pow2(k)
  }

  // ---------------------------------------------------------------------
  // Smi tagging

  /** The integers a Smi can carry. */
  predicate IsSmiValue(arch: Arch, x: int) {
    if arch.Arch32? then -0x4000_0000 <= x < 0x4000_0000 else IsInt32(x)
  }

  function SmiTag(arch: Arch, value: int): (r: int)
    ensures IsWord(arch, r)
  {
    WordShl(arch, value, SmiShiftBits(arch))
  }

  function SmiUntag(arch: Arch, value: int): int {
    WordSar(value, SmiShiftBits(arch))
  }

  /** Masks the tag bit: a Smi has a zero tag (kSmiTag == 0). */
  predicate WordIsSmi(value: int) {
    WordAndLowBits(value, SmiTagSize) == 0
  }

  /** Untags, then truncates to 32 bits on a 64-bit machine. */
  function SmiToInt32(arch: Arch, value: int): (r: int)
    requires IsWord(arch, value)
    ensures IsInt32(r)
  {
    var result := WordSar(value, SmiShiftBits(arch));
    if arch.Arch64? then TruncateToInt32(result) else result
  }

  // ---------------------------------------------------------------------
  // Offsets

  /** The displacement LoadObjectField adds to a tagged object pointer to
    * reach the field at byte `offset` of the object. */
  function FieldDisplacement(offset: int): int {
    offset - HeapObjectTag
  }

  /** LoadFixedArrayElementConstantIndex: the displacement of element
    * `index`, which is the field after the header and `index` slots. */
  function ElementOffsetConstantIndex(arch: Arch, index: int): int {
    FixedArrayHeaderSize(arch) - HeapObjectTag + index * PointerSize(arch)
  }

  /** LoadFixedArrayElementSmiIndex: scales the still-tagged index by the
    * difference between the Smi shift and the pointer-size shift. */
  function ElementOffsetSmiIndex(arch: Arch, smiIndex: int, additionalOffset: int): int {
    var headerSize := additionalOffset + FixedArrayHeaderSize(arch) - HeapObjectTag;
    var scaledIndex :=
      if SmiShiftBits(arch) > PointerSizeLog2(arch)
      then WordSar(smiIndex, SmiShiftBits(arch) - PointerSizeLog2(arch))
      else WordShl(arch, smiIndex, PointerSizeLog2(arch) - SmiShiftBits(arch));
    IntPtrAdd(arch, scaledIndex, headerSize)
  }

  /** StoreFixedArrayElementNoWriteBarrier: the index is an untagged word. */
  function ElementOffsetWordIndex(arch: Arch, index: int): int {
    IntPtrAdd(arch, WordShl(arch, index, PointerSizeLog2(arch)),
              FixedArrayHeaderSize(arch) - HeapObjectTag)
  }

  /** The address a machine-level Load or Store through `base` with
    * displacement `displacement` touches, in word arithmetic. */
  function AccessAddress(arch: Arch, base: int, displacement: int): (r: int)
    ensures IsWord(arch, r)
  {
    IntPtrAdd(arch, base, displacement)
  }

  // ---------------------------------------------------------------------
  // Properties of tagging

  /** 1 << kSmiShiftBits as a literal. */
  lemma SmiScaleValue(arch: Arch)
    ensures Pow2(SmiShiftBits(arch)) == if arch.Arch32? then 2 else 0x1_0000_0000
  {
    Pow2Table();
  }

  /** On a Smi value the tagging shift drops no bits. */
  lemma SmiTagExact(arch: Arch, x: int)
    requires IsSmiValue(arch, x)
    ensures SmiTag(arch, x) == x * Pow2(SmiShiftBits(arch))
  {
    SmiScaleValue(arch);
    if arch.Arch32? {
      assert x * Pow2(1) == x * 2;
    } else {
      assert x * Pow2(32) == x * 0x1_0000_0000;
    }
  }

  /** Untagging undoes tagging: both shift by the same constant. */
  lemma SmiUntagTag(arch: Arch, x: int)
    requires IsSmiValue(arch, x)
    ensures SmiUntag(arch, SmiTag(arch, x)) == x
  {
    SmiTagExact(arch, x);
    SmiScaleValue(arch);
    if arch.Arch32? {
      assert (x * Pow2(1)) / Pow2(1) == (x * 2) / 2;
    } else {
      assert (x * Pow2(32)) / Pow2(32) == (x * 0x1_0000_0000) / 0x1_0000_0000;
    }
  }

  /** Every word the tagging shift produces passes the Smi check, even
    * when bits are shifted out: the wrap-around changes the word by a
    * multiple of the (even) word modulus. */
  lemma SmiTagIsSmi(arch: Arch, x: int)
    ensures WordIsSmi(SmiTag(arch, x))
  {
    var y := x * Pow2(SmiShiftBits(arch));
    SmiScaleValue(arch);
    if arch.Arch32? {
      assert y == 2 * x;
    } else {
      assert y == 2 * (x * 0x8000_0000);
    }
    WrapKeepsParity(arch, y);
  }

  /** The word modulus is even, so truncation keeps an even number even. */
  lemma WrapKeepsParity(arch: Arch, y: int)
    requires y % 2 == 0
    ensures Wrap(arch, y) % 2 == 0
  {
    var h := HalfWord(arch);
    var k := y % (2 * h);
    EvenRemainder(y, h);
    assert Wrap(arch, y) == if k >= h then k - 2 * h else k;
  }

  lemma EvenRemainder(y: int, h: int)
    requires h > 0 && y % 2 == 0
    ensures (y % (2 * h)) % 2 == 0
  {
    var q := y / (2 * h);
    var k := y % (2 * h);
    assert y == (2 * h) * q + k;
    assert (2 * h) * q == 2 * (h * q);
  }

  /** Untagging any word yields a value a Smi can carry. */
  lemma SmiUntagRange(arch: Arch, y: int)
    requires IsWord(arch, y)
    ensures IsSmiValue(arch, SmiUntag(arch, y))
  {
    SmiScaleValue(arch);
    if arch.Arch32? {
      assert y / Pow2(1) == y / 2;
    } else {
      assert y / Pow2(32) == y / 0x1_0000_0000;
    }
  }

  /** Re-tagging an untagged word gives the word back exactly when all the
    * bits the untagging shift drops are zero. */
  lemma SmiTagUntag(arch: Arch, y: int)
    requires IsWord(arch, y)
    ensures SmiTag(arch, SmiUntag(arch, y)) == y
        <==> WordAndLowBits(y, SmiShiftBits(arch)) == 0
  {
    var q := SmiUntag(arch, y);
    SmiUntagRange(arch, y);
    SmiTagExact(arch, q);
    SmiScaleValue(arch);
    if arch.Arch32? {
      assert q == y / 2 && q * Pow2(1) == q * 2;
      assert WordAndLowBits(y, 1) == y % 2;
    } else {
      assert q == y / 0x1_0000_0000 && q * Pow2(32) == q * 0x1_0000_0000;
      assert WordAndLowBits(y, 32) == y % 0x1_0000_0000;
    }
  }

  /** With 32-bit words the tag bit is the only bit untagging drops, so the
    * mask test recognises exactly the words that are tagged Smis. */
  lemma WordIsSmiExact32(y: int)
    requires IsWord(Arch32, y)
    ensures WordIsSmi(y) <==> SmiTag(Arch32, SmiUntag(Arch32, y)) == y
    ensures WordIsSmi(y) <==> exists x :: IsSmiValue(Arch32, x) && SmiTag(Arch32, x) == y
  {
    SmiTagUntag(Arch32, y);
    if WordIsSmi(y) {
      SmiUntagRange(Arch32, y);
    }
    if x :| IsSmiValue(Arch32, x) && SmiTag(Arch32, x) == y {
      SmiTagIsSmi(Arch32, x);
    }
  }

  /** With 64-bit words the mask test looks at the tag bit only: the word 2
    * passes it although it is not a tagged value. */
  lemma WordIsSmiTagOnly64()
    ensures WordIsSmi(2)
    ensures SmiTag(Arch64, SmiUntag(Arch64, 2)) != 2
  {
    SmiScaleValue(Arch64);
    assert SmiUntag(Arch64, 2) == 2 / 0x1_0000_0000 == 0;
    assert SmiTag(Arch64, 0) == Wrap(Arch64, 0 * Pow2(32)) == 0;
  }

  /** SmiToInt32 recovers every tagged Smi value on both word widths. */
  lemma SmiToInt32Tag(arch: Arch, x: int)
    requires IsSmiValue(arch, x)
    ensures SmiToInt32(arch, SmiTag(arch, x)) == x
  {
    SmiUntagTag(arch, x);
  }

  // ---------------------------------------------------------------------
  // Properties of the offsets

  /** LoadObjectField through the tagged pointer of an object that starts
    * at byte `start` reads the byte at `start + offset`: the displacement
    * cancels the heap-object tag. */
  lemma ObjectFieldAddress(arch: Arch, start: int, offset: int)
    ensures AccessAddress(arch, start + HeapObjectTag, FieldDisplacement(offset)) == Wrap(arch, start + offset)
  {
  }

  /** Element `index` of a fixed array that starts at byte `start` lies
    * after the map and length words, `index` pointer-sized slots in. */
  lemma ElementAddress(arch: Arch, start: int, index: int)
    ensures AccessAddress(arch, start + HeapObjectTag, ElementOffsetConstantIndex(arch, index))
         == Wrap(arch, start + FixedArrayHeaderSize(arch) + index * PointerSize(arch))
  {
  }

  /** Elements occupy disjoint pointer-sized slots in index order, and none
    * of them overlaps the header. */
  lemma ElementSlotsDisjoint(arch: Arch, i: int, j: int)
    requires 0 <= i < j
    ensures ElementOffsetConstantIndex(arch, i) + PointerSize(arch) <= ElementOffsetConstantIndex(arch, j)
    ensures ElementOffsetConstantIndex(arch, i) + HeapObjectTag >= FixedArrayHeaderSize(arch)
  {
    var p := PointerSize(arch);
    assert j * p - i * p == (j - i) * p;
    assert (j - i) * p >= p;
    assert i * p >= 0;
  }

  /** Truncating a summand first does not change the truncated sum. */
  lemma WrapAddLeft(arch: Arch, a: int, b: int)
    ensures Wrap(arch, Wrap(arch, a) + b) == Wrap(arch, a + b)
  {
    var r := Wrap(arch, a);
    if arch.Arch32? {
      var t := (a - r) / 0x1_0000_0000;
      assert a - r == 0x1_0000_0000 * t;
      ModShift32(a + b, t);
    } else {
      var t := (a - r) / 0x1_0000_0000_0000_0000;
      assert a - r == 0x1_0000_0000_0000_0000 * t;
      ModShift64(a + b, t);
    }
  }

  lemma ModShift32(x: int, t: int)
    ensures (x - 0x1_0000_0000 * t) % 0x1_0000_0000 == x % 0x1_0000_0000
  {
  }

  lemma ModShift64(x: int, t: int)
    ensures (x - 0x1_0000_0000_0000_0000 * t) % 0x1_0000_0000_0000_0000 == x % 0x1_0000_0000_0000_0000
  {
  }

  /** The Smi-indexed load addresses the same slot as the constant-index
    * load, shifted by the additional offset: the single shift by the
    * difference of the two shift amounts both untags and scales. */
  lemma SmiIndexOffset(arch: Arch, index: int, additionalOffset: int)
    requires IsSmiValue(arch, index)
    requires IsWord(arch, additionalOffset + ElementOffsetConstantIndex(arch, index))
    ensures ElementOffsetSmiIndex(arch, SmiTag(arch, index), additionalOffset)
         == additionalOffset + ElementOffsetConstantIndex(arch, index)
  {
    var headerSize := additionalOffset + FixedArrayHeaderSize(arch) - HeapObjectTag;
    if arch.Arch32? {
      SmiIndexScale32(index, headerSize);
    } else {
      SmiIndexScale64(index, headerSize);
    }
  }

  lemma SmiIndexScale32(index: int, headerSize: int)
    requires IsSmiValue(Arch32, index) && IsWord(Arch32, index * 4 + headerSize)
    ensures IntPtrAdd(Arch32, WordShl(Arch32, SmiTag(Arch32, index), 1), headerSize) == index * 4 + headerSize
  {
    SmiTagExact(Arch32, index);
    Pow2Table();
    assert SmiTag(Arch32, index) == index * 2;
    assert WordShl(Arch32, index * 2, 1) == Wrap(Arch32, index * 4);
    WrapAddLeft(Arch32, index * 4, headerSize);
  }

  lemma SmiIndexScale64(index: int, headerSize: int)
    requires IsSmiValue(Arch64, index) && IsWord(Arch64, index * 8 + headerSize)
    ensures IntPtrAdd(Arch64, WordSar(SmiTag(Arch64, index), 29), headerSize) == index * 8 + headerSize
  {
    SmiTagExact(Arch64, index);
    Pow2Table();
    assert SmiTag(Arch64, index) == index * 0x1_0000_0000;
    assert WordSar(index * 0x1_0000_0000, 29) == index * 8;
  }

  /** The untagged-index store addresses the constant-index slot. */
  lemma WordIndexOffset(arch: Arch, index: int)
    requires IsWord(arch, ElementOffsetConstantIndex(arch, index))
    ensures ElementOffsetWordIndex(arch, index) == ElementOffsetConstantIndex(arch, index)
  {
    var p := PointerSize(arch);
    Pow2Table();
    assert WordShl(arch, index, PointerSizeLog2(arch)) == Wrap(arch, index * p);
    WrapAddLeft(arch, index * p, FixedArrayHeaderSize(arch) - HeapObjectTag);
  }

  /** A store at untagged index i and a load at Smi index SmiTag(i) touch
    * the same element. */
  lemma StoreLoadSameElement(arch: Arch, index: int)
    requires IsSmiValue(arch, index)
    requires IsWord(arch, ElementOffsetConstantIndex(arch, index))
    ensures ElementOffsetSmiIndex(arch, SmiTag(arch, index), 0)
         == ElementOffsetWordIndex(arch, index)
  {
    SmiIndexOffset(arch, index, 0);
    WordIndexOffset(arch, index);
  }
}
