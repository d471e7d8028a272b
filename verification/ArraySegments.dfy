/**
 ArraySegment.hpp: windows over a backing array, their slices, and copies through them.
 */
module ArraySegments {
  import opened Int32
  import Arrays

  /** A segment holds a pointer to the backing array, or a null pointer. */
  datatype Segment<T> = Default | Segment(backing: array<T>, offset: int, count: int)

  datatype Result<T> =
    | Success(segment: Segment<T>)
    | InvalidOperation
    | ArgumentOutOfRange
    | Unspecified

  /** A window inside its backing array, as far as the signed type can count its elements. */
  predicate IsWindow<T>(s: Segment<T>) {
    s.Segment? && IsRange(Signed(s.backing.Length), s.offset, s.count)
  }

  lemma WindowIsInside<T>(s: Segment<T>)
    requires IsWindow(s)
    ensures IsRange(s.backing.Length, s.offset, s.count) && s.offset + s.count <= MAX
  {
    SignedSize(s.backing.Length);
  }

  function Elements<T>(s: Segment<T>): (r: seq<T>)
    requires IsWindow(s)
    reads s.backing
    ensures |r| == s.count
  {
    WindowIsInside(s);
    s.backing[s.offset..s.offset + s.count]
  }

  /** The range constructor. */
  function Create<T>(backing: array<T>, offset: int, count: int): (r: Result<T>)
    requires IsInt32(offset) && IsInt32(count)
    ensures Signed(backing.Length) >= 0 ==>
              r == if IsRange(Signed(backing.Length), offset, count) then Success(Segment(backing, offset, count)) else ArgumentOutOfRange
    ensures Signed(backing.Length) < 0 ==>
              var size := Signed(backing.Length);
              && r != InvalidOperation
              && (r == Unspecified <==> offset > size + MAX + 1)
              && (r.Success? <==> PassesNegativeSize(size, offset, count))
              && (r.Success? ==> r.segment == Segment(backing, offset, count))
  {
    var size := Signed(backing.Length);
    var guard := RequireValidRange(size, offset, count);
    assert size >= 0 ==> guard != Undefined && (guard == Accepted <==> IsRange(size, offset, count)) by {
      if size >= 0 {
        RangeGuardIsExact(size, offset, count);
      }
    }
    assert size < 0 ==>
        && (guard == Undefined <==> offset > size + MAX + 1)
        && (guard == Accepted <==> PassesNegativeSize(size, offset, count)) by {
      if size < 0 {
        NegativeSizeGuard(size, offset, count);
      }
    }
    match guard
    case Accepted => Success(Segment(backing, offset, count))
    case Undefined => Unspecified
    case _ => ArgumentOutOfRange
  }

  /** `Slice(index)`. */
  function SliceFrom<T>(s: Segment<T>, index: int): (r: Result<T>)
    requires (s.Default? || IsWindow(s)) && IsInt32(index)
    ensures r.Success? ==> IsWindow(r.segment)
  {
    if s.Default? then InvalidOperation
    else if index < 0 || index > s.count then ArgumentOutOfRange
    else Create(s.backing, s.offset + index, s.count - index)
  }

  /** `Slice(index, count)`. */
  function Slice<T>(s: Segment<T>, index: int, count: int): (r: Result<T>)
    requires (s.Default? || IsWindow(s)) && IsInt32(index) && IsInt32(count)
    ensures r.Success? ==> IsWindow(r.segment)
  {
    if s.Default? then InvalidOperation
    else if RequireValidRange(s.count, index, count) != Accepted then ArgumentOutOfRange
    else
      RangeGuardIsExact(s.count, index, count);
      Create(s.backing, s.offset + index, count)
  }

  /** A slice of a window succeeds exactly for the ranges inside it, for all signed arguments, and
      is the window that many places further on. */
  lemma SliceIsExact<T>(s: Segment<T>, index: int, count: int)
    requires IsWindow(s) && IsInt32(index) && IsInt32(count)
    ensures Slice(s, index, count) ==
            if IsRange(s.count, index, count) then Success(Segment(s.backing, s.offset + index, count)) else ArgumentOutOfRange
    ensures SliceFrom(s, index) == if 0 <= index <= s.count then Slice(s, index, s.count - index) else ArgumentOutOfRange
  {
    RangeGuardIsExact(s.count, index, count);
    if 0 <= index <= s.count {
      RangeGuardIsExact(s.count, index, s.count - index);
    }
  }

  // ---------------------------------------------------------------------------------------------
  // Chains of slices
  // ---------------------------------------------------------------------------------------------

  datatype Step = From(index: int) | Within(index: int, count: int)

  predicate IsStep(step: Step) {
    IsInt32(step.index) && (step.Within? ==> IsInt32(step.count))
  }

  function Take<T>(s: Segment<T>, step: Step): (r: Result<T>)
    requires (s.Default? || IsWindow(s)) && IsStep(step)
    ensures r.Success? ==> IsWindow(r.segment)
  {
    match step
    case From(index) => SliceFrom(s, index)
    case Within(index, count) => Slice(s, index, count)
  }

  /** Slice calls one after the other, on the result of the one before. */
  function TakeAll<T>(s: Segment<T>, steps: seq<Step>): (r: Result<T>)
    requires (s.Default? || IsWindow(s)) && forall step :: step in steps ==> IsStep(step)
    ensures r.Success? && IsWindow(s) ==> IsWindow(r.segment)
    decreases |steps|
  {
    if steps == [] then Success(s)
    else
      var first := Take(s, steps[0]);
      if first.Success? then TakeAll(first.segment, steps[1..]) else first
  }

  function TotalOffset(steps: seq<Step>): int {
    if steps == [] then 0 else steps[0].index + TotalOffset(steps[1..])
  }

  /** One step moves the window on by the index of the step, inside the window it started from. */
  lemma OneStep<T>(s: Segment<T>, step: Step)
    requires IsWindow(s) && IsStep(step)
    ensures Take(s, step) != InvalidOperation
    ensures Take(s, step).Success? ==>
              var r := Take(s, step).segment;
              r == Segment(s.backing, s.offset + step.index, r.count) && IsRange(s.count, step.index, r.count)
  {
    match step
    case From(index) => SliceIsExact(s, index, if 0 <= index <= s.count then s.count - index else 0);
    case Within(index, count) => SliceIsExact(s, index, count);
  }

  lemma {:induction false} ChainMovesOn<T>(s: Segment<T>, steps: seq<Step>)
    requires IsWindow(s) && forall step :: step in steps ==> IsStep(step)
    ensures TakeAll(s, steps) != InvalidOperation
    ensures TakeAll(s, steps).Success? ==>
              var r := TakeAll(s, steps).segment;
              r == Segment(s.backing, s.offset + TotalOffset(steps), r.count) && IsRange(s.count, TotalOffset(steps), r.count)
    decreases |steps|
  {
    if steps != [] {
      OneStep(s, steps[0]);
      if Take(s, steps[0]).Success? {
        ChainMovesOn(Take(s, steps[0]).segment, steps[1..]);
      }
    }
  }

  /** A chain of slices that succeeds is one slice at the summed offset, and stays inside the
      original window. */
  lemma ChainIsOneSlice<T>(s: Segment<T>, steps: seq<Step>)
    requires IsWindow(s) && forall step :: step in steps ==> IsStep(step)
    requires TakeAll(s, steps).Success?
    ensures var r := TakeAll(s, steps).segment;
            && IsRange(s.count, TotalOffset(steps), r.count)
            && Slice(s, TotalOffset(steps), r.count) == Success(r)
  {
    ChainMovesOn(s, steps);
    SliceIsExact(s, TotalOffset(steps), TakeAll(s, steps).segment.count);
  }

  // ---------------------------------------------------------------------------------------------
  // Copies
  // ---------------------------------------------------------------------------------------------

  datatype CopyOutcome = Copied | DefaultSegment | NegativeIndex | TooShort

  /** `CopyTo(vector, index)`; the sum is taken in 64 bits. */
  method CopyToArray<T>(s: Segment<T>, destination: array<T>, destinationIndex: int, unrelated: bool) returns (r: CopyOutcome)
    requires (s.Default? || IsWindow(s)) && IsInt32(destinationIndex)
    modifies destination
    ensures r == if s.Default? then DefaultSegment
                 else if destinationIndex < 0 then NegativeIndex
                 else if destination.Length < destinationIndex + s.count then TooShort
                 else Copied
    ensures destination[..] ==
            if r == Copied then Arrays.Pasted(old(destination[..]), destinationIndex, old(Elements(s))) else old(destination[..])
  {
    if s.Default? {
      return DefaultSegment;
    }
    if destinationIndex < 0 {
      return NegativeIndex;
    }
    var needed := destinationIndex + s.count;
    if destination.Length < needed {
      return TooShort;
    }
    CopyElements(s, destination, destinationIndex, unrelated);
    return Copied;
  }

  /** The copy both overloads make. */
  method CopyElements<T>(s: Segment<T>, destination: array<T>, at: nat, unrelated: bool)
    requires IsWindow(s) && at + s.count <= destination.Length
    modifies destination
    ensures destination[..] == Arrays.Pasted(old(destination[..]), at, old(Elements(s)))
  {
    WindowIsInside(s);
    Arrays.CopyOverlapAware(s.backing, s.offset, s.count, destination, at, unrelated);
  }

  /** Pasting at the start of a window replaces its first elements and keeps the others. */
  lemma PasteInWindow<T>(a: seq<T>, offset: nat, count: nat, values: seq<T>)
    requires |values| <= count && offset + count <= |a|
    ensures var window := Arrays.Pasted(a, offset, values)[offset..offset + count];
            window[..|values|] == values && window[|values|..] == a[offset..offset + count][|values|..]
  {
    var window := Arrays.Pasted(a, offset, values)[offset..offset + count];
    forall k | 0 <= k < count
      ensures window[k] == if k < |values| then values[k] else a[offset + k]
    {
      Arrays.PastedAt(a, offset, values, offset + k);
    }
  }

  lemma WindowAfter<T>(destination: Segment<T>, was: seq<T>, values: seq<T>)
    requires IsWindow(destination) && |values| <= destination.count && |was| == destination.backing.Length
    requires destination.offset + destination.count <= |was|
    requires destination.backing[..] == Arrays.Pasted(was, destination.offset, values)
    ensures Elements(destination)[..|values|] == values
    ensures Elements(destination)[|values|..] == was[destination.offset..destination.offset + destination.count][|values|..]
  {
    PasteInWindow(was, destination.offset, destination.count, values);
    assert Elements(destination) == destination.backing[..][destination.offset..destination.offset + destination.count];
  }

  /** `CopyTo(segment)`: the destination's first elements become the source's old ones, whether or
      not the two lie over one array, and nothing outside them changes. */
  method CopyTo<T>(s: Segment<T>, destination: Segment<T>, unrelated: bool) returns (r: CopyOutcome)
    requires (s.Default? || IsWindow(s)) && (destination.Default? || IsWindow(destination))
    modifies if destination.Default? then {} else {destination.backing}
    ensures r == if s.Default? || destination.Default? then DefaultSegment
                 else if s.count > destination.count then TooShort
                 else Copied
    ensures !destination.Default? ==>
              destination.backing[..] == if r == Copied
                                         then Arrays.Pasted(old(destination.backing[..]), destination.offset, old(Elements(s)))
                                         else old(destination.backing[..])
    ensures r == Copied ==>
              && Elements(destination)[..s.count] == old(Elements(s))
              && Elements(destination)[s.count..] == old(Elements(destination))[s.count..]
  {
    if s.Default? || destination.Default? {
      return DefaultSegment;
    }
    if s.count > destination.count {
      return TooShort;
    }
    WindowIsInside(destination);
    ghost var was, values := destination.backing[..], Elements(s);
    CopyElements(s, destination.backing, destination.offset, unrelated);
    WindowAfter(destination, was, values);
    return Copied;
  }
}
