/**
 The signed and unsigned 32-bit integers of the C++ sources, and the range guards built on them:
 compare as unsigned after a subtraction, instead of adding.

 A guard sees the size of a container converted to the signed type, `Signed(n)` for `n` elements.
 */
module Int32 {

  const MAX := 0x7FFF_FFFF
  const WORD := 0x1_0000_0000

  predicate IsInt32(x: int) {
    -MAX - 1 <= x <= MAX
  }

  /** A conversion to the signed type, from any integer. */
  function Signed(x: int): (r: int)
    ensures IsInt32(r)
  {
    var m := x % WORD;
    if m > MAX then m - WORD else m
  }

  /** A conversion to the unsigned type. */
  function Unsigned(x: int): (r: nat)
    ensures r < WORD
  {
    x % WORD
  }

  /** A size that is not negative after the conversion is not too large, and exact if it is small. */
  lemma SignedSize(n: nat)
    ensures Signed(n) <= n
    ensures n <= MAX ==> Signed(n) == n
    ensures Signed(n) >= 0 <==> n % WORD <= MAX
  {
  }

  lemma UnsignedOf(x: int)
    requires IsInt32(x)
    ensures Unsigned(x) == if x < 0 then x + WORD else x
  {
  }

  /** What a guard makes of its arguments.  `Undefined` is a signed overflow in the guard itself. */
  datatype Guard = Accepted | BadFirst | BadSecond | Undefined

  /** `requireValidRange`, and the same test in the constructor of ArraySegment and its `Slice`. */
  function RequireValidRange(size: int, index: int, length: int): Guard {
    if Unsigned(index) > Unsigned(size) then BadFirst
    else if !IsInt32(size - index) then Undefined
    else if Unsigned(length) > Unsigned(size - index) then BadSecond
    else Accepted
  }

  /** The pairs that denote a range inside `n` elements. */
  predicate IsRange(n: int, index: int, length: int) {
    0 <= index && 0 <= length && index + length <= n
  }

  /** For a size that is not negative, the guard accepts exactly the ranges, for all signed 32-bit
      arguments, and blames the index exactly when it is not a position. */
  lemma RangeGuardIsExact(size: int, index: int, length: int)
    requires 0 <= size <= MAX && IsInt32(index) && IsInt32(length)
    ensures RequireValidRange(size, index, length) == Accepted <==> IsRange(size, index, length)
    ensures RequireValidRange(size, index, length) == BadFirst <==> !(0 <= index <= size)
    ensures RequireValidRange(size, index, length) != Undefined
  {
    UnsignedOf(size);
    UnsignedOf(index);
    UnsignedOf(length);
    if 0 <= index <= size {
      UnsignedOf(size - index);
    }
  }

  predicate PassesNegativeSize(size: int, index: int, length: int) {
    || (0 <= index <= size + MAX + 1 && !(size - index < length < 0))
    || (index <= size && 0 <= length <= size - index)
  }

  /** What the guard makes of a size that is negative: an index is compared as unsigned, so only the
      negative ones above the size are rejected; a large one overflows; and a length is compared with a
      difference that is negative for every index that is not. */
  lemma NegativeSizeGuard(size: int, index: int, length: int)
    requires IsInt32(size) && size < 0 && IsInt32(index) && IsInt32(length)
    ensures RequireValidRange(size, index, length) ==
            if size < index < 0 then BadFirst
            else if index > size + MAX + 1 then Undefined
            else if PassesNegativeSize(size, index, length) then Accepted
            else BadSecond
  {
    UnsignedOf(size);
    UnsignedOf(index);
    UnsignedOf(length);
    if IsInt32(size - index) {
      UnsignedOf(size - index);
    }
  }

  /** The guard accepts exactly the ranges of a container of `n` elements. */
  ghost predicate GuardFits(n: nat) {
    forall index, length :: IsInt32(index) && IsInt32(length) ==>
      (RequireValidRange(Signed(n), index, length) == Accepted <==> IsRange(n, index, length))
  }

  /** That is so precisely for containers whose size the signed type can hold. */
  lemma GuardFitsExactlySmallSizes(n: nat)
    ensures GuardFits(n) <==> n <= MAX
  {
    SignedSize(n);
    if n <= MAX {
      forall index, length | IsInt32(index) && IsInt32(length)
        ensures RequireValidRange(Signed(n), index, length) == Accepted <==> IsRange(n, index, length)
      {
        RangeGuardIsExact(n, index, length);
      }
    } else if Signed(n) < 0 {
      NegativeSizeGuard(Signed(n), -MAX - 1, 0);
      assert !IsRange(n, -MAX - 1, 0);
    } else {
      assert IsRange(n, MAX, MAX);
      RangeGuardIsExact(Signed(n), MAX, MAX);
    }
  }

  /** `requireValidBackwardRange`. */
  function RequireValidBackwardRange(size: int, startIndex: int, count: int): Guard {
    if size == 0 then
      if startIndex != -1 && startIndex != 0 then BadFirst else if count != 0 then BadSecond else Accepted
    else if Unsigned(startIndex) >= Unsigned(size) then BadFirst
    else if count < 0 then BadSecond
    else if !IsInt32(startIndex + 1) then Undefined
    else if count > startIndex + 1 then BadSecond
    else Accepted
  }

  /** The `count` elements that end at `startIndex` are elements of the first `n`. */
  predicate IsBackwardRange(n: int, startIndex: int, count: int) {
    0 <= startIndex < n && IsRange(startIndex + 1, startIndex + 1 - count, count)
  }

  /** The backward guard accepts a start and a count exactly when they are a window that ends at an
      element, or else the size is 0, the start is -1 or 0 and the count is 0.  A negative size passes for
      the signed maximum. */
  lemma BackwardGuardIsExact(size: int, startIndex: int, count: int)
    requires IsInt32(size) && IsInt32(startIndex) && IsInt32(count)
    ensures RequireValidBackwardRange(size, startIndex, count) == Accepted <==>
            if size == 0 then count == 0 && -1 <= startIndex <= 0
            else IsBackwardRange(if size > 0 then size else MAX, startIndex, count)
  {
    UnsignedOf(size);
    UnsignedOf(startIndex);
  }

  /** The backward guard accepts exactly the windows of a container of `n` elements that end at one of
      them, and for the empty container the empty window that starts at -1 or 0. */
  ghost predicate BackwardGuardFits(n: nat) {
    forall startIndex, count :: IsInt32(startIndex) && IsInt32(count) ==>
      (RequireValidBackwardRange(Signed(n), startIndex, count) == Accepted <==>
       if n == 0 then count == 0 && -1 <= startIndex <= 0 else IsBackwardRange(n, startIndex, count))
  }

  lemma BackwardGuardFitsExactlySmallSizes(n: nat)
    ensures BackwardGuardFits(n) <==> n <= MAX
  {
    SignedSize(n);
    if n <= MAX {
      forall startIndex, count | IsInt32(startIndex) && IsInt32(count)
        ensures RequireValidBackwardRange(n, startIndex, count) == Accepted <==>
                if n == 0 then count == 0 && -1 <= startIndex <= 0 else IsBackwardRange(n, startIndex, count)
      {
        BackwardGuardIsExact(n, startIndex, count);
      }
    } else {
      BackwardGuardIsExact(Signed(n), MAX, 1);
      assert IsBackwardRange(n, MAX, 1);
    }
  }

  /** The count that the overloads of `LastIndexOf` and `FindLastIndex` without one pass to the guard. */
  function ImpliedCount(size: int, startIndex: int): int {
    if size == 0 then 0 else startIndex + 1
  }

  /** Their loop then visits `startIndex` and everything in front of it.  After the guard has accepted
      the start, those are elements in every case but one: a start of 0 in an empty container. */
  lemma AcceptedStartIsElement(n: nat, startIndex: int)
    requires IsInt32(startIndex)
    requires RequireValidBackwardRange(Signed(n), startIndex, ImpliedCount(Signed(n), startIndex)) == Accepted
    ensures IsRange(n, 0, startIndex + 1) <==> !(n == 0 && startIndex == 0)
  {
    SignedSize(n);
    UnsignedOf(Signed(n));
    UnsignedOf(startIndex);
  }

  /** `requireValidBlockCopyRange` for one side: negative arguments are rejected first, then the sum
      is taken in unsigned arithmetic. */
  predicate AcceptsBlock(byteLength: int, offset: int, count: int) {
    0 <= offset && 0 <= count && Unsigned(byteLength) >= Unsigned(Unsigned(offset) + Unsigned(count))
  }

  /** `requireValidByteIndex`. */
  predicate AcceptsByteIndex(byteLength: int, index: int) {
    Unsigned(index) < Unsigned(byteLength)
  }

  /** `validateDecodeRange`. */
  predicate AcceptsDecode(size: int, i: int, width: int) {
    0 <= i < size && i <= size - width
  }

  /** The block guard accepts exactly the ranges of the low 32 bits of the byte length. */
  lemma BlockGuardSeesLowBits(n: nat, offset: int, count: int)
    requires IsInt32(offset) && IsInt32(count)
    ensures AcceptsBlock(Signed(n), offset, count) <==> IsRange(n % WORD, offset, count)
  {
    UnsignedOf(Signed(n));
    if 0 <= offset && 0 <= count {
      UnsignedOf(offset);
      UnsignedOf(count);
      assert Unsigned(offset + count) == offset + count;
    }
  }

  /** The two guards agree on every offset. */
  ghost predicate DecodeGuardAgrees(n: nat, width: nat) {
    forall i :: IsInt32(i) ==> (AcceptsDecode(Signed(n), i, width) <==> AcceptsBlock(Signed(n), i, width))
  }

  /** The decoder's guard accepts exactly the offsets of `width` bytes. */
  ghost predicate DecodeGuardFits(n: nat, width: nat) {
    forall i :: IsInt32(i) ==> (AcceptsDecode(Signed(n), i, width) <==> IsRange(n, i, width))
  }

  /** The decoder's guard accepts exactly the offsets at which a block copy of its width is accepted,
      precisely for the byte lengths that stay positive under the conversion; and exactly the valid
      offsets precisely for those that the signed type can hold. */
  lemma DecodeGuardIsBlockGuard(n: nat, width: nat)
    requires 1 <= width <= 16
    ensures DecodeGuardAgrees(n, width) <==> n % WORD <= MAX
    ensures DecodeGuardFits(n, width) <==> n <= MAX
  {
    SignedSize(n);
    forall i | IsInt32(i)
      ensures AcceptsBlock(Signed(n), i, width) <==> IsRange(n % WORD, i, width)
    {
      BlockGuardSeesLowBits(n, i, width);
    }
    if n % WORD > MAX {
      assert !AcceptsDecode(Signed(n), 0, width) && IsRange(n % WORD, 0, width) && IsRange(n, 0, width);
    } else if n > MAX {
      assert !AcceptsDecode(Signed(n), MAX, width) && IsRange(n, MAX, width);
    }
  }

  /** The block guard accepts exactly the ranges of `n` bytes. */
  ghost predicate BlockGuardFits(n: nat) {
    forall offset, count :: IsInt32(offset) && IsInt32(count) ==> (AcceptsBlock(Signed(n), offset, count) <==> IsRange(n, offset, count))
  }

  /** That is so up to twice the signed maximum, and beyond only for sizes that leave a remainder no
      sum of two arguments exceeds. */
  lemma BlockGuardFitsExactly(n: nat)
    ensures BlockGuardFits(n) <==> n < WORD || n % WORD >= 2 * MAX
  {
    forall offset, count | IsInt32(offset) && IsInt32(count)
      ensures AcceptsBlock(Signed(n), offset, count) <==> IsRange(n % WORD, offset, count)
    {
      BlockGuardSeesLowBits(n, offset, count);
    }
    assert n % WORD <= n;
    if n >= WORD && n % WORD < 2 * MAX {
      assert IsRange(n, MAX, MAX) && !AcceptsBlock(Signed(n), MAX, MAX);
    }
  }

  /** The byte index guard accepts exactly the positions of `n` bytes. */
  ghost predicate ByteIndexGuardFits(n: nat) {
    forall index :: IsInt32(index) ==> (AcceptsByteIndex(Signed(n), index) <==> 0 <= index < n)
  }

  /** The byte index guard compares with the low 32 bits of the byte length. */
  lemma ByteIndexGuardSeesLowBits(n: nat, index: int)
    requires IsInt32(index)
    ensures AcceptsByteIndex(Signed(n), index) <==> (if index < 0 then index + WORD else index) < n % WORD
  {
    UnsignedOf(index);
    UnsignedOf(Signed(n));
  }

  lemma ByteIndexGuardFitsExactly(n: nat)
    ensures ByteIndexGuardFits(n) <==> n <= MAX + 1 || n % WORD == MAX + 1
  {
    forall index | IsInt32(index)
      ensures AcceptsByteIndex(Signed(n), index) <==> (if index < 0 then index + WORD else index) < n % WORD
    {
      ByteIndexGuardSeesLowBits(n, index);
    }
    if n % WORD > MAX + 1 {
      assert AcceptsByteIndex(Signed(n), -MAX - 1);
    } else if n > MAX + 1 && n % WORD <= MAX {
      assert !AcceptsByteIndex(Signed(n), n % WORD);
    }
  }
}
