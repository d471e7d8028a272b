/**
 Buffer.hpp and BitConverter.hpp: arrays of fixed-width elements seen as bytes, and integers encoded
 in bytes.  The byte order is little-endian, as the sources document it.
 */
module ByteMemory {
  import opened Common
  import opened Int32
  import Arrays

  // ---------------------------------------------------------------------------------------------
  // Bytes and numbers
  // ---------------------------------------------------------------------------------------------

  function Pow(w: nat): (r: nat)
    ensures r > 0
  {
    if w == 0 then 1 else 256 * Pow(w - 1)
  }

  /** The number that bytes stand for, lowest first. */
  function Value(bytes: seq<Byte>): nat {
    if bytes == [] then 0 else bytes[0] + 256 * Value(bytes[1..])
  }

  /** The `w` lowest base-256 digits of a number. */
  function Digits(v: nat, w: nat): (r: seq<Byte>)
    ensures |r| == w
  {
    if w == 0 then [] else [v % 256] + Digits(v / 256, w - 1)
  }

  lemma {:induction false} ValueOfDigits(v: nat, w: nat)
    requires v < Pow(w)
    ensures Value(Digits(v, w)) == v
  {
    if w > 0 {
      ValueOfDigits(v / 256, w - 1);
      assert Digits(v, w)[1..] == Digits(v / 256, w - 1);
    }
  }

  lemma {:induction false} DigitsOfValue(bytes: seq<Byte>)
    ensures Value(bytes) < Pow(|bytes|) && Digits(Value(bytes), |bytes|) == bytes
  {
    if bytes != [] {
      DigitsOfValue(bytes[1..]);
      assert Value(bytes) / 256 == Value(bytes[1..]) && Value(bytes) % 256 == bytes[0];
      assert bytes == [bytes[0]] + bytes[1..];
    }
  }

  /** What a number changes by when its digit `k` changes. */
  function Change(before: Byte, after: Byte, k: nat): int {
    (after - before) * Pow(k)
  }

  /** Replacing byte `k` adds the difference at that digit. */
  lemma {:induction false} ReplaceByte(bytes: seq<Byte>, k: nat, b: Byte)
    requires k < |bytes|
    ensures Value(bytes[k := b]) == Value(bytes) + Change(bytes[k], b, k)
  {
    if k == 0 {
      assert bytes[0 := b][1..] == bytes[1..];
    } else {
      ReplaceByte(bytes[1..], k - 1, b);
      assert bytes[k := b][1..] == bytes[1..][k - 1 := b];
      var d: int := b - bytes[k];
      assert 256 * (d * Pow(k - 1)) == d * (256 * Pow(k - 1));
    }
  }

  // ---------------------------------------------------------------------------------------------
  // BitConverter
  // ---------------------------------------------------------------------------------------------

  /** The integers a signed type of `w` bytes holds. */
  predicate IsSigned(v: int, w: nat) {
    w > 0 && -(Pow(w) / 2) <= v < Pow(w) / 2
  }

  /** `GetBytes` of a signed type of `w` bytes: its two's complement representation. */
  function GetBytes(v: int, w: nat): (r: seq<Byte>)
    requires IsSigned(v, w)
    ensures |r| == w
  {
    Digits(if v < 0 then v + Pow(w) else v, w)
  }

  /** The raw-pointer decoders, on bytes that are there. */
  function Decode(data: seq<Byte>, i: nat, w: nat): int
    requires i + w <= |data|
  {
    var v := Value(data[i..i + w]);
    if v < Pow(w) / 2 then v else v - Pow(w)
  }

  lemma HalfOfPow(w: nat)
    requires w > 0
    ensures Pow(w) / 2 * 2 == Pow(w)
  {
    assert Pow(w) == 2 * (128 * Pow(w - 1));
  }

  /** The bytes that an integer is decoded from are its encoding. */
  lemma DecodedIsEncoded(data: seq<Byte>, i: nat, w: nat)
    requires w > 0 && i + w <= |data|
    ensures var v := Decode(data, i, w); IsSigned(v, w) && GetBytes(v, w) == data[i..i + w]
  {
    HalfOfPow(w);
    DigitsOfValue(data[i..i + w]);
  }

  datatype DecodeResult = Decoded(value: int) | BadStart | TooFewBytes

  /** `ToInt16`, `ToInt32`, `ToInt64` on a vector, for `w` of 2, 4, 8.  The result is the integer whose
      encoding is at the start given; it is rejected as a start exactly where there is no byte, and as
      too short exactly where bytes are missing behind it. */
  function ToSigned(data: seq<Byte>, i: int, w: nat): (r: DecodeResult)
    requires IsInt32(i) && 1 <= w <= 8
    ensures r.Decoded? <==> IsRange(Signed(|data|), i, w)
    ensures r.Decoded? ==> i + w <= |data| && IsSigned(r.value, w) && GetBytes(r.value, w) == data[i..i + w]
    ensures r.BadStart? <==> !(0 <= i < Signed(|data|))
  {
    var size := Signed(|data|);
    SignedSize(|data|);
    if i < 0 || i >= size then BadStart
    else if i > size - w then TooFewBytes
    else
      DecodedIsEncoded(data, i, w);
      Decoded(Decode(data, i, w))
  }

  /** An integer whose bytes are put anywhere into a byte array is decoded from there. */
  lemma EncodedIsDecoded(data: seq<Byte>, i: nat, v: int, w: nat)
    requires 1 <= w <= 8 && IsSigned(v, w) && IsRange(Signed(|data|), i, w) && i + w <= |data|
    ensures ToSigned(Arrays.Pasted(data, i, GetBytes(v, w)), i, w) == Decoded(v)
  {
    HalfOfPow(w);
    ValueOfDigits(if v < 0 then v + Pow(w) else v, w);
  }

  // ---------------------------------------------------------------------------------------------
  // Buffer
  // ---------------------------------------------------------------------------------------------

  /** Element `e` of storage that holds elements of `w` bytes. */
  function Element(storage: seq<Byte>, w: nat, e: nat): nat
    requires (e + 1) * w <= |storage|
  {
    assert e * w + w == (e + 1) * w;
    Value(storage[e * w..e * w + w])
  }

  /** `std::memmove`: as if through a temporary. */
  method MemMove(destination: array<Byte>, to: nat, source: array<Byte>, from: nat, count: nat)
    requires from + count <= source.Length && to + count <= destination.Length
    modifies destination
    ensures destination[..] == Arrays.Pasted(old(destination[..]), to, old(source[from..from + count]))
  {
    var temporary := source[from..from + count];
    ghost var was := destination[..];
    for i := 0 to count
      invariant forall k :: 0 <= k < destination.Length ==>
                  destination[k] == if to <= k < to + i then temporary[k - to] else was[k]
    {
      destination[to + i] := temporary[i];
    }
  }

  datatype BlockOutcome = Copied | NegativeArgument | OutOfBounds

  /** `BlockCopy` on the storage of two vectors of elements of any width.  The guard sees the low 32
      bits of a byte length. */
  method BlockCopy(source: array<Byte>, sourceOffset: int, destination: array<Byte>, destinationOffset: int, count: int)
    returns (r: BlockOutcome)
    requires IsInt32(sourceOffset) && IsInt32(destinationOffset) && IsInt32(count)
    modifies destination
    ensures r == if sourceOffset < 0 || destinationOffset < 0 || count < 0 then NegativeArgument
                 else if IsRange(source.Length % WORD, sourceOffset, count) && IsRange(destination.Length % WORD, destinationOffset, count)
                 then Copied
                 else OutOfBounds
    ensures r == Copied ==> IsRange(source.Length, sourceOffset, count) && IsRange(destination.Length, destinationOffset, count)
    ensures destination[..] ==
            if r == Copied
            then Arrays.Pasted(old(destination[..]), destinationOffset, old(source[sourceOffset..sourceOffset + count]))
            else old(destination[..])
  {
    if sourceOffset < 0 || destinationOffset < 0 || count < 0 {
      return NegativeArgument;
    }
    BlockGuardSeesLowBits(source.Length, sourceOffset, count);
    BlockGuardSeesLowBits(destination.Length, destinationOffset, count);
    if !AcceptsBlock(Signed(source.Length), sourceOffset, count) || !AcceptsBlock(Signed(destination.Length), destinationOffset, count) {
      return OutOfBounds;
    }
    RemainderIsSmaller(source.Length, WORD);
    RemainderIsSmaller(destination.Length, WORD);
    MemMove(destination, destinationOffset, source, sourceOffset, count);
    return Copied;
  }

  lemma RemainderIsSmaller(n: nat, d: nat)
    requires d > 0
    ensures n % d <= n
  {
    assert n == n / d * d + n % d;
  }

  /** `Unspecified` is an access that the guard lets through and that has no byte. */
  datatype ByteOutcome = Done(value: Byte) | OutOfRange | Unspecified

  /** What a guard that sees the low 32 bits of a byte length makes of an index. */
  predicate IsRejected(byteLength: nat, index: int) {
    (if index < 0 then index + WORD else index) >= byteLength % WORD
  }

  /** `GetByte`. */
  method GetByte(storage: array<Byte>, index: int) returns (r: ByteOutcome)
    requires IsInt32(index)
    ensures r == OutOfRange <==> IsRejected(storage.Length, index)
    ensures r.Done? <==> 0 <= index < storage.Length % WORD
    ensures r.Done? ==> index < storage.Length && r.value == storage[index]
    ensures storage.Length <= MAX + 1 ==> r != Unspecified
  {
    ByteIndexGuardSeesLowBits(storage.Length, index);
    RemainderIsSmaller(storage.Length, WORD);
    if !AcceptsByteIndex(Signed(storage.Length), index) {
      return OutOfRange;
    }
    if index < 0 {
      return Unspecified;
    }
    return Done(storage[index]);
  }

  /** `SetByte`. */
  method SetByte(storage: array<Byte>, index: int, value: Byte) returns (r: ByteOutcome)
    requires IsInt32(index)
    modifies storage
    ensures r == OutOfRange <==> IsRejected(storage.Length, index)
    ensures r.Done? <==> 0 <= index < storage.Length % WORD
    ensures storage.Length <= MAX + 1 ==> r != Unspecified
    ensures r.Done? ==> index < storage.Length
    ensures storage[..] == if r.Done? then old(storage[..])[index := value] else old(storage[..])
  {
    ByteIndexGuardSeesLowBits(storage.Length, index);
    RemainderIsSmaller(storage.Length, WORD);
    if !AcceptsByteIndex(Signed(storage.Length), index) {
      return OutOfRange;
    }
    if index < 0 {
      return Unspecified;
    }
    storage[index] := value;
    return Done(value);
  }

  /** Digit `k` of element `e`. */
  function DigitAt(storage: seq<Byte>, w: nat, e: nat, k: nat): Byte
    requires k < w && (e + 1) * w <= |storage|
  {
    Digits(Element(storage, w, e), w)[k]
  }

  /** The digits of the elements are the bytes of the storage. */
  lemma DigitIsByte(storage: seq<Byte>, w: nat, e: nat, k: nat)
    requires k < w && (e + 1) * w <= |storage|
    ensures e * w + k < |storage| && DigitAt(storage, w, e, k) == storage[e * w + k]
  {
    assert e * w + w == (e + 1) * w;
    DigitsOfValue(storage[e * w..e * w + w]);
  }

  lemma BlockEnd(e: nat, w: nat)
    ensures e * w + w == (e + 1) * w
  {
  }

  /** Element `e` starts at `start`. */
  predicate StartsAt(storage: seq<Byte>, w: nat, e: nat, start: nat) {
    start == e * w && start + w <= |storage|
  }

  lemma ElementAt(storage: seq<Byte>, w: nat, e: nat, start: nat)
    requires StartsAt(storage, w, e, start)
    ensures (e + 1) * w <= |storage| && Element(storage, w, e) == Value(storage[start..start + w])
  {
    BlockEnd(e, w);
  }

  /** Setting a byte changes the element it lies in, by the difference at the digit it covers. */
  lemma SetByteOnElement(storage: seq<Byte>, w: nat, e: nat, start: nat, k: nat, value: Byte)
    requires StartsAt(storage, w, e, start) && k < w
    ensures (e + 1) * w <= |storage|
    ensures Element(storage[start + k := value], w, e) == Element(storage, w, e) + Change(storage[start + k], value, k)
  {
    ElementAt(storage, w, e, start);
    ElementAt(storage[start + k := value], w, e, start);
    SetByteInBlock(storage, start, w, k, value);
  }

  /** And no other element. */
  lemma SetByteElsewhere(storage: seq<Byte>, w: nat, e: nat, start: nat, k: nat, value: Byte, other: nat, otherStart: nat)
    requires StartsAt(storage, w, e, start) && StartsAt(storage, w, other, otherStart) && other != e && k < w
    ensures (other + 1) * w <= |storage|
    ensures Element(storage[start + k := value], w, other) == Element(storage, w, other)
  {
    ElementAt(storage, w, other, otherStart);
    ElementAt(storage[start + k := value], w, other, otherStart);
    StartsApart(e, start, other, otherStart, w);
    UntouchedBlock(storage, otherStart, w, start + k, value);
  }

  /** Different elements do not overlap. */
  lemma StartsApart(e: nat, start: nat, other: nat, otherStart: nat, w: nat)
    requires start == e * w && otherStart == other * w && e != other
    ensures start + w <= otherStart || otherStart + w <= start
  {
    BlockEnd(e, w);
    BlockEnd(other, w);
    if other < e {
      Ordered(other + 1, e, w);
    } else {
      Ordered(e + 1, other, w);
    }
  }

  lemma SetByteInBlock(storage: seq<Byte>, start: nat, w: nat, k: nat, value: Byte)
    requires k < w && start + w <= |storage|
    ensures Value(storage[start + k := value][start..start + w])
            == Value(storage[start..start + w]) + Change(storage[start + k], value, k)
  {
    var bytes := storage[start..start + w];
    assert storage[start + k := value][start..start + w] == bytes[k := value];
    ReplaceByte(bytes, k, value);
  }

  lemma UntouchedBlock(storage: seq<Byte>, start: nat, w: nat, at: nat, value: Byte)
    requires start + w <= |storage| && at < |storage| && (at < start || start + w <= at)
    ensures storage[at := value][start..start + w] == storage[start..start + w]
  {
  }

  lemma {:induction false} Ordered(a: nat, b: nat, w: nat)
    requires a <= b
    ensures a * w <= b * w
  {
    assert b * w == a * w + (b - a) * w;
  }

  /** A block copy replaces exactly the covered digits of the elements. */
  lemma BlockCopyOnElements(storage: seq<Byte>, w: nat, offset: nat, bytes: seq<Byte>, e: nat, k: nat)
    requires offset + |bytes| <= |storage| && k < w && (e + 1) * w <= |storage|
    ensures DigitAt(Arrays.Pasted(storage, offset, bytes), w, e, k) ==
            if offset <= e * w + k < offset + |bytes| then bytes[e * w + k - offset] else DigitAt(storage, w, e, k)
  {
    DigitIsByte(storage, w, e, k);
    DigitIsByte(Arrays.Pasted(storage, offset, bytes), w, e, k);
    Arrays.PastedAt(storage, offset, bytes, e * w + k);
  }
}
