/**
 `Copy` and `BinarySearch` of Array.hpp, and the overlap-aware copy of OverlapCopy.hpp.
 */
module Arrays {
  import opened Common
  import opened Int32

  /** `values` put over the elements of `a` from position `at` on. */
  function Pasted<T>(a: seq<T>, at: nat, values: seq<T>): (r: seq<T>)
    requires at + |values| <= |a|
    ensures |r| == |a|
    ensures r[at..at + |values|] == values && r[..at] == a[..at] && r[at + |values|..] == a[at + |values|..]
  {
    a[..at] + values + a[at + |values|..]
  }

  lemma PastedAt<T>(a: seq<T>, at: nat, values: seq<T>, k: nat)
    requires at + |values| <= |a| && k < |a|
    ensures Pasted(a, at, values)[k] == if at <= k < at + |values| then values[k - at] else a[k]
  {
  }

  /** A sequence is the result of pasting if each of its elements is what it has to be. */
  lemma PastedPointwise<T>(r: seq<T>, a: seq<T>, at: nat, values: seq<T>)
    requires at + |values| <= |a| == |r|
    requires forall k :: 0 <= k < |r| ==> r[k] == if at <= k < at + |values| then values[k - at] else a[k]
    ensures r == Pasted(a, at, values)
  {
    forall k | 0 <= k < |r|
      ensures r[k] == Pasted(a, at, values)[k]
    {
      PastedAt(a, at, values, k);
    }
  }

  lemma PasteNothing<T>(a: seq<T>, at: nat)
    requires at <= |a|
    ensures Pasted(a, at, []) == a
  {
  }

  lemma PasteInPlace<T>(a: seq<T>, at: nat, count: nat)
    requires at + count <= |a|
    ensures Pasted(a, at, a[at..at + count]) == a
  {
  }

  // ---------------------------------------------------------------------------------------------
  // Copy
  // ---------------------------------------------------------------------------------------------

  /** `std::copy`: element by element from the front. */
  method CopyForward<T>(source: array<T>, from: nat, count: nat, destination: array<T>, to: nat)
    requires from + count <= source.Length && to + count <= destination.Length
    requires source == destination ==> to <= from || from + count <= to
    modifies destination
    ensures destination[..] == Pasted(old(destination[..]), to, old(source[from..from + count]))
  {
    ghost var was, values := destination[..], source[from..from + count];
    for i := 0 to count
      invariant forall k :: 0 <= k < destination.Length ==>
                  destination[k] == if to <= k < to + i then values[k - to] else was[k]
      invariant forall k :: from + i <= k < from + count ==> source[k] == values[k - from]
    {
      destination[to + i] := source[from + i];
    }
    PastedPointwise(destination[..], was, to, values);
  }

  /** `std::copy_backward`: element by element from the back. */
  method CopyBackward<T>(source: array<T>, from: nat, count: nat, destination: array<T>, to: nat)
    requires from + count <= source.Length && to + count <= destination.Length
    requires source == destination ==> from <= to || to + count <= from
    modifies destination
    ensures destination[..] == Pasted(old(destination[..]), to, old(source[from..from + count]))
  {
    ghost var was, values := destination[..], source[from..from + count];
    for i := count downto 0
      invariant forall k :: 0 <= k < destination.Length ==>
                  destination[k] == if to + i <= k < to + count then values[k - to] else was[k]
      invariant forall k :: from <= k < from + i ==> source[k] == values[k - from]
    {
      destination[to + i] := source[from + i];
    }
    PastedPointwise(destination[..], was, to, values);
  }

  /** `copyOverlapAware`.  How `std::less` orders pointers into different arrays is not specified:
      `unrelated` is what the overlap test yields for them. */
  method CopyOverlapAware<T>(source: array<T>, from: nat, count: nat, destination: array<T>, to: nat, unrelated: bool)
    requires from + count <= source.Length && to + count <= destination.Length
    modifies destination
    ensures destination[..] == Pasted(old(destination[..]), to, old(source[from..from + count]))
  {
    if count == 0 || (source == destination && from == to) {
      assert old(source[from..from + count]) == if count == 0 then [] else old(destination[to..to + count]);
      PasteNothing(destination[..], to);
      PasteInPlace(destination[..], to, count);
      return;
    }
    var startsInside := if source == destination then from < to < from + count else unrelated;
    if startsInside {
      CopyBackward(source, from, count, destination, to);
    } else {
      CopyForward(source, from, count, destination, to);
    }
  }

  /** `Copy` with both indices; the result tells which argument the exception names, or `Undefined` if
      the guards let ranges through that the arrays do not have. */
  method Copy<T>(source: array<T>, sourceIndex: int, destination: array<T>, destinationIndex: int, length: int, unrelated: bool)
    returns (r: Guard)
    requires IsInt32(sourceIndex) && IsInt32(destinationIndex) && IsInt32(length)
    modifies destination
    ensures Signed(source.Length) >= 0 && Signed(destination.Length) >= 0 ==>
              && r != Undefined
              && (r == Accepted <==>
                    IsRange(Signed(source.Length), sourceIndex, length) && IsRange(Signed(destination.Length), destinationIndex, length))
    ensures var first := RequireValidRange(Signed(source.Length), sourceIndex, length);
            var second := RequireValidRange(Signed(destination.Length), destinationIndex, length);
            if first != Accepted then r == first
            else if second != Accepted then r == second
            else if IsRange(source.Length, sourceIndex, length) && IsRange(destination.Length, destinationIndex, length) then r == Accepted
            else r == Undefined
    ensures r == Accepted ==> IsRange(source.Length, sourceIndex, length) && IsRange(destination.Length, destinationIndex, length)
    ensures destination[..] ==
              if r == Accepted
              then Pasted(old(destination[..]), destinationIndex, old(source[sourceIndex..sourceIndex + length]))
              else old(destination[..])
  {
    var sourceSize, destinationSize := Signed(source.Length), Signed(destination.Length);
    SignedSize(source.Length);
    SignedSize(destination.Length);
    if sourceSize >= 0 && destinationSize >= 0 {
      RangeGuardIsExact(sourceSize, sourceIndex, length);
      RangeGuardIsExact(destinationSize, destinationIndex, length);
    }
    r := RequireValidRange(sourceSize, sourceIndex, length);
    if r != Accepted {
      return;
    }
    r := RequireValidRange(destinationSize, destinationIndex, length);
    if r != Accepted {
      return;
    }
    if !IsRange(source.Length, sourceIndex, length) || !IsRange(destination.Length, destinationIndex, length) {
      return Undefined;
    }
    CopyOverlapAware(source, sourceIndex, length, destination, destinationIndex, unrelated);
  }

  // ---------------------------------------------------------------------------------------------
  // Binary search
  // ---------------------------------------------------------------------------------------------

  newtype int32 = x: int | -0x8000_0000 <= x < 0x8000_0000

  /** A three-way comparison: negative, zero or positive. */
  type Comparison<!T> = (T, T) -> int

  ghost predicate IsTotalPreorder<T(!new)>(compare: Comparison<T>) {
    && (forall x, y :: compare(x, y) < 0 <==> compare(y, x) > 0)
    && (forall x, y, z :: compare(x, y) <= 0 && compare(y, z) <= 0 ==> compare(x, z) <= 0)
  }

  ghost predicate IsSorted<T>(a: seq<T>, compare: Comparison<T>) {
    forall i, j :: 0 <= i < j < |a| ==> compare(a[i], a[j]) <= 0
  }

  /** The elements of a sorted range are those less than a value, then the equal, then the greater. */
  ghost predicate IsPartitioned<T>(a: seq<T>, value: T, compare: Comparison<T>) {
    forall i, j :: 0 <= i < j < |a| ==>
      && (compare(a[j], value) < 0 ==> compare(a[i], value) < 0)
      && (compare(a[i], value) > 0 ==> compare(a[j], value) > 0)
  }

  /** Everything in front of `p` is less than the value and everything from `p` on is greater. */
  ghost predicate IsInsertionPoint<T>(a: seq<T>, p: int, value: T, compare: Comparison<T>) {
    && 0 <= p <= |a|
    && (forall i :: 0 <= i < p ==> compare(a[i], value) < 0)
    && (forall i :: p <= i < |a| ==> compare(a[i], value) > 0)
  }

  /** The loop all overloads share, on `elements[index..index + length]`.  All its arithmetic is signed
      and 32 bits wide; that no operation overflows is part of the proof. */
  method Search<T>(elements: seq<T>, index: int32, length: int32, value: T, compare: Comparison<T>) returns (r: int32)
    requires IsRange(|elements|, index as int, length as int) && index as int + length as int <= MAX
    ensures r >= 0 ==> index <= r && r as int < index as int + length as int && compare(elements[r], value) == 0
    ensures r < 0 ==> index as int <= -(r as int) - 1 <= index as int + length as int
    ensures r < 0 && IsPartitioned(elements[index..index as int + length as int], value, compare) ==>
              IsInsertionPoint(elements[index..index as int + length as int], -(r as int) - 1 - index as int, value, compare)
  {
    ghost var range := elements[index..index as int + length as int];
    ghost var sorted := IsPartitioned(range, value, compare);
    var lo, hi := index, index + length - 1;
    while lo <= hi
      invariant index as int <= lo as int <= hi as int + 1 <= index as int + length as int
      invariant sorted ==> forall i :: 0 <= i < lo as int - index as int ==> compare(range[i], value) < 0
      invariant sorted ==> forall i :: hi as int - index as int < i < |range| ==> compare(range[i], value) > 0
      decreases hi as int - lo as int
    {
      var mid := lo + (hi - lo) / 2;
      var cmp := compare(elements[mid], value);
      assert elements[mid] == range[mid as int - index as int];
      if cmp == 0 {
        return mid;
      }
      if cmp < 0 {
        lo := mid + 1;
      } else {
        hi := mid - 1;
      }
    }
    return -lo - 1;
  }

  datatype SearchResult =
    | Found(at: int)
    | InsertAt(at: int)
    | OutOfRange(guard: Guard)
    | NullComparison
    | Unspecified

  function FromComplement(r: int): SearchResult {
    if r >= 0 then Found(r) else InsertAt(-r - 1)
  }

  /** `BinarySearch` on a range with a comparison; the range is checked before the comparison.  The
      result is `Unspecified` if the guard overflows or lets a range through that is not there. */
  method BinarySearch<T>(elements: seq<T>, index: int32, length: int32, value: T, comparison: Option<Comparison<T>>)
    returns (r: SearchResult)
    ensures Signed(|elements|) >= 0 ==>
              && !r.Unspecified?
              && (r.OutOfRange? <==> !IsRange(Signed(|elements|), index as int, length as int))
              && (r.NullComparison? <==> IsRange(Signed(|elements|), index as int, length as int) && comparison.None?)
    ensures match RequireValidRange(Signed(|elements|), index as int, length as int)
            case BadFirst => r == OutOfRange(BadFirst)
            case BadSecond => r == OutOfRange(BadSecond)
            case Undefined => r == Unspecified
            case Accepted =>
              && !r.OutOfRange?
              && (r == NullComparison <==> comparison.None?)
              && (r == Unspecified <==>
                    comparison.Some? && !(IsRange(|elements|, index as int, length as int) && index as int + length as int <= MAX))
    ensures r.Found? || r.InsertAt? ==> IsRange(|elements|, index as int, length as int) && comparison.Some?
    ensures r.Found? ==> index as int <= r.at < index as int + length as int && comparison.value(elements[r.at], value) == 0
    ensures r.InsertAt? ==>
              var range := elements[index..index as int + length as int];
              IsPartitioned(range, value, comparison.value) ==> IsInsertionPoint(range, r.at - index as int, value, comparison.value)
  {
    var size := Signed(|elements|);
    SignedSize(|elements|);
    if size >= 0 {
      RangeGuardIsExact(size, index as int, length as int);
    }
    var guard := RequireValidRange(size, index as int, length as int);
    if guard == Undefined {
      return Unspecified;
    }
    if guard != Accepted {
      return OutOfRange(guard);
    }
    if comparison.None? {
      return NullComparison;
    }
    if !IsRange(|elements|, index as int, length as int) || index as int + length as int > MAX {
      return Unspecified;
    }
    var found := Search(elements, index, length, value, comparison.value);
    return FromComplement(found as int);
  }

  /** A sorted range is partitioned by every value. */
  lemma SortedIsPartitioned<T(!new)>(a: seq<T>, value: T, compare: Comparison<T>)
    requires IsTotalPreorder(compare) && IsSorted(a, compare)
    ensures IsPartitioned(a, value, compare)
  {
    forall i, j | 0 <= i < j < |a|
      ensures compare(a[j], value) < 0 ==> compare(a[i], value) < 0
      ensures compare(a[i], value) > 0 ==> compare(a[j], value) > 0
    {
      assert compare(a[i], a[j]) <= 0;
      assert compare(value, a[i]) <= 0 ==> compare(value, a[j]) <= 0;
      assert compare(a[j], value) <= 0 ==> compare(a[i], value) <= 0;
    }
  }

  /** Two sorted stretches, every element of the first before every element of the second. */
  lemma SortedConcat<T>(a: seq<T>, b: seq<T>, compare: Comparison<T>)
    requires IsSorted(a, compare) && IsSorted(b, compare)
    requires forall i, j :: 0 <= i < |a| && 0 <= j < |b| ==> compare(a[i], b[j]) <= 0
    ensures IsSorted(a + b, compare)
  {
    forall i, j | 0 <= i < j < |a + b|
      ensures compare((a + b)[i], (a + b)[j]) <= 0
    {
      if i < |a| <= j {
        assert compare(a[i], b[j - |a|]) <= 0;
      }
    }
  }

  /** Inserting a value at its insertion point keeps a sorted range sorted. */
  lemma InsertionKeepsSorted<T(!new)>(a: seq<T>, p: nat, value: T, compare: Comparison<T>)
    requires IsTotalPreorder(compare) && IsSorted(a, compare) && IsInsertionPoint(a, p, value, compare)
    ensures IsSorted(a[..p] + [value] + a[p..], compare)
  {
    forall j | 0 <= j < |a| - p
      ensures compare(value, a[p..][j]) <= 0
    {
      assert compare(a[p + j], value) > 0;
    }
    SortedConcat(a[..p], [value], compare);
    forall i, j | 0 <= i < p + 1 && 0 <= j < |a| - p
      ensures compare((a[..p] + [value])[i], a[p..][j]) <= 0
    {
      if i < p {
        assert compare(a[i], a[p + j]) <= 0;
      }
    }
    SortedConcat(a[..p] + [value], a[p..], compare);
  }
}
