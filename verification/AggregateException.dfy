/**
 The exception trees of AggregateException.hpp and the members that walk them.

 An `AggregateException` fixes its raw message and its inner exceptions at construction, so it is a
 value here; the composed message is a function of the two.  `derived` records whether the dynamic
 type is a class derived from `AggregateException`.
 */
module AggregateExceptions {
  import opened Common

  datatype Thrown =
    | Standard(id: nat, message: string)
    | Foreign(id: nat)
    | Aggregate(derived: bool, raw: string, inners: seq<Thrown>)

  datatype Constructed =
    | Built(exception: Thrown, cause: Option<Thrown>)
    | NullElement
    | NullArgument

  datatype HandleOutcome =
    | Returned
    | NullPredicate
    | PredicateThrew(at: nat)
    | Rethrown(exception: Thrown)

  /** What a predicate does with an exception. */
  datatype Answer = Handled | Unhandled | Throws

  // ---------------------------------------------------------------------------------------------
  // Messages
  // ---------------------------------------------------------------------------------------------

  /** What `catch` and `what()` make of an exception while a message is composed. */
  function What(t: Thrown): string
    decreases t, 1
  {
    match t
    case Standard(_, message) => CText(message)
    case Foreign(_) => "unknown error"
    case Aggregate(_, raw, inners) => CText(Compose(raw, inners))
  }

  /** The composed message: every inner exception contributes its text as " (text)". */
  function Compose(raw: string, inners: seq<Thrown>): string
    decreases inners, 0
  {
    if inners == [] then raw
    else
      var front := inners[..|inners| - 1];
      Compose(raw, front) + " (" + What(inners[|inners| - 1]) + ")"
  }

  function Message(a: Thrown): string
    requires a.Aggregate?
  {
    Compose(a.raw, a.inners)
  }

  function AddedLength(inners: seq<Thrown>): nat {
    if inners == [] then 0
    else AddedLength(inners[..|inners| - 1]) + |What(inners[|inners| - 1])| + 3
  }

  lemma {:induction false} ComposedLength(raw: string, inners: seq<Thrown>)
    ensures |Compose(raw, inners)| == |raw| + AddedLength(inners)
  {
    if inners != [] {
      ComposedLength(raw, inners[..|inners| - 1]);
    }
  }

  /** A composed message extends the raw one, and with inner exceptions it is longer by at least
      three characters for each of them. */
  lemma {:induction false} ComposedExtendsRaw(raw: string, inners: seq<Thrown>)
    ensures raw <= Compose(raw, inners)
    ensures |Compose(raw, inners)| >= |raw| + 3 * |inners|
  {
    if inners != [] {
      ComposedExtendsRaw(raw, inners[..|inners| - 1]);
    }
  }

  function Present(entries: seq<Option<Thrown>>): (r: seq<Thrown>)
    requires None !in entries
    ensures |r| == |entries|
    ensures forall i :: 0 <= i < |r| ==> entries[i] == Some(r[i])
  {
    if entries == [] then [] else assert entries[0] in entries; [entries[0].value] + Present(entries[1..])
  }

  /** `requireNoNullElements`: true means it throws. */
  method HasNullElement(entries: seq<Option<Thrown>>) returns (throws: bool)
    ensures throws <==> None in entries
  {
    for i := 0 to |entries|
      invariant None !in entries[..i]
    {
      if entries[i] == None {
        return true;
      }
    }
    return false;
  }

  /** `composeMessage`: appends "(text) " for every entry and drops the last character. */
  method ComposeMessage(raw: string, entries: seq<Option<Thrown>>) returns (message: Option<string>)
    ensures message.None? <==> None in entries
    ensures message.Some? ==> message.value == Compose(raw, Present(entries))
  {
    var throws := HasNullElement(entries);
    if throws {
      return None;
    }
    ghost var inners := Present(entries);
    if entries == [] {
      return Some(raw);
    }
    var m := raw + " ";
    for i := 0 to |entries|
      invariant m == Compose(raw, inners[..i]) + " "
    {
      assert inners[..i + 1][..i] == inners[..i];
      m := m + "(" + What(entries[i].value) + ") ";
      assert m == Compose(raw, inners[..i]) + " (" + What(inners[i]) + ")" + " ";
    }
    assert inners[..|entries|] == inners;
    return Some(m[..|m| - 1]);
  }

  /** What the base class names as the cause: the first inner exception, if there is one. */
  function CauseOf(inners: seq<Thrown>): Option<Thrown> {
    if inners == [] then None else Some(inners[0])
  }

  /** `firstValidatedInnerOf`. */
  method FirstValidatedInnerOf(entries: seq<Option<Thrown>>) returns (throws: bool, first: Option<Thrown>)
    ensures throws <==> None in entries
    ensures !throws ==> first == CauseOf(Present(entries))
  {
    throws := HasNullElement(entries);
    first := if throws || entries == [] then None else entries[0];
  }

  /** The constructor that takes a message and a collection. */
  method Construct(message: string, entries: seq<Option<Thrown>>) returns (r: Constructed)
    ensures r == if None in entries then NullElement
                 else Built(Aggregate(false, message, Present(entries)), CauseOf(Present(entries)))
  {
    var composed := ComposeMessage(message, entries);
    if composed.None? {
      return NullElement;
    }
    var throws, first := FirstValidatedInnerOf(entries);
    if throws {
      return NullElement;
    }
    return Built(Aggregate(false, message, Present(entries)), first);
  }

  /** The constructor that takes a message and one inner exception: the null argument is rejected
      before the collection check can see it. */
  method ConstructSingle(message: string, inner: Option<Thrown>) returns (r: Constructed)
    ensures r == if inner.None? then NullArgument else Built(Aggregate(false, message, [inner.value]), inner)
  {
    if inner.None? {
      return NullArgument;
    }
    r := Construct(message, [inner]);
    assert None !in [inner];
    assert Present([inner]) == [inner.value];
  }

  // ---------------------------------------------------------------------------------------------
  // Level order
  // ---------------------------------------------------------------------------------------------

  function Size(t: Thrown): nat
    decreases t, 1
  {
    match t
    case Aggregate(_, _, inners) => 1 + SizeAll(inners)
    case _ => 1
  }

  function SizeAll(row: seq<Thrown>): nat
    decreases row, 0
  {
    if row == [] then 0 else Size(row[0]) + SizeAll(row[1..])
  }

  /** The entries of a row that are not aggregates. */
  function Direct(row: seq<Thrown>): seq<Thrown> {
    if row == [] then []
    else if row[0].Aggregate? then Direct(row[1..])
    else [row[0]] + Direct(row[1..])
  }

  /** The row below: the inner exceptions of the aggregates of a row, left to right. */
  function Below(row: seq<Thrown>): seq<Thrown> {
    if row == [] then []
    else if row[0].Aggregate? then row[0].inners + Below(row[1..])
    else Below(row[1..])
  }

  lemma {:induction false} BelowShrinks(row: seq<Thrown>)
    requires row != []
    ensures SizeAll(Below(row)) < SizeAll(row)
  {
    var rest := row[1..];
    if rest != [] {
      BelowShrinks(rest);
    }
    if row[0].Aggregate? {
      SizeOfConcat(row[0].inners, Below(rest));
    } else {
      assert Below(row) == Below(rest);
    }
  }

  lemma {:induction false} SizeOfConcat(a: seq<Thrown>, b: seq<Thrown>)
    ensures SizeAll(a + b) == SizeAll(a) + SizeAll(b)
  {
    if a == [] {
      assert a + b == b;
    } else {
      assert (a + b)[1..] == a[1..] + b;
      SizeOfConcat(a[1..], b);
    }
  }

  /** Row by row, each row's own leaves first. */
  function LevelOrder(row: seq<Thrown>): seq<Thrown>
    decreases SizeAll(row)
  {
    if row == [] then [] else BelowShrinks(row); Direct(row) + LevelOrder(Below(row))
  }

  /** The leaves at nesting depth `depth`, left to right: a depth-first definition. */
  function LeavesAt(row: seq<Thrown>, depth: nat): seq<Thrown>
    decreases depth, |row|
  {
    if row == [] then []
    else if row[0].Aggregate? && depth > 0 then LeavesAt(row[0].inners, depth - 1) + LeavesAt(row[1..], depth)
    else if !row[0].Aggregate? && depth == 0 then [row[0]] + LeavesAt(row[1..], depth)
    else LeavesAt(row[1..], depth)
  }

  /** The leaves at depths from, from + 1, ..., from + count - 1, one depth after the other. */
  function LeavesAtDepths(row: seq<Thrown>, from: nat, count: nat): seq<Thrown>
    decreases count
  {
    if count == 0 then [] else LeavesAt(row, from) + LeavesAtDepths(row, from + 1, count - 1)
  }

  lemma {:induction false} DirectOfConcat(a: seq<Thrown>, b: seq<Thrown>)
    ensures Direct(a + b) == Direct(a) + Direct(b)
  {
    if a == [] {
      assert a + b == b;
    } else {
      assert (a + b)[1..] == a[1..] + b;
      DirectOfConcat(a[1..], b);
    }
  }

  lemma {:induction false} BelowOfConcat(a: seq<Thrown>, b: seq<Thrown>)
    ensures Below(a + b) == Below(a) + Below(b)
  {
    if a == [] {
      assert a + b == b;
    } else {
      assert (a + b)[1..] == a[1..] + b;
      BelowOfConcat(a[1..], b);
    }
  }

  lemma {:induction false} LeavesAtOfConcat(a: seq<Thrown>, b: seq<Thrown>, depth: nat)
    ensures LeavesAt(a + b, depth) == LeavesAt(a, depth) + LeavesAt(b, depth)
  {
    if a == [] {
      assert a + b == b;
    } else {
      assert (a + b)[1..] == a[1..] + b;
      LeavesAtOfConcat(a[1..], b, depth);
    }
  }

  lemma {:induction false} LeavesAtZero(row: seq<Thrown>)
    ensures LeavesAt(row, 0) == Direct(row)
  {
    if row != [] {
      LeavesAtZero(row[1..]);
    }
  }

  lemma {:induction false} LeavesOneDeeper(row: seq<Thrown>, depth: nat)
    ensures LeavesAt(row, depth + 1) == LeavesAt(Below(row), depth)
  {
    if row != [] {
      LeavesOneDeeper(row[1..], depth);
      if row[0].Aggregate? {
        LeavesAtOfConcat(row[0].inners, Below(row[1..]), depth);
      }
    }
  }

  lemma {:induction false} DepthsOneDeeper(row: seq<Thrown>, from: nat, count: nat)
    ensures LeavesAtDepths(row, from + 1, count) == LeavesAtDepths(Below(row), from, count)
    decreases count
  {
    if count > 0 {
      LeavesOneDeeper(row, from);
      DepthsOneDeeper(row, from + 1, count - 1);
    }
  }

  lemma {:induction false} NoLeavesInEmptyRow(from: nat, count: nat)
    ensures LeavesAtDepths([], from, count) == []
    decreases count
  {
    if count > 0 {
      NoLeavesInEmptyRow(from + 1, count - 1);
    }
  }

  /** Level order is: all leaves of depth 0, then all of depth 1, and so on, whatever bound on the
      depth is taken, as long as it is large enough. */
  lemma {:induction false} LevelOrderIsByDepth(row: seq<Thrown>, depths: nat)
    requires depths >= SizeAll(row)
    ensures LevelOrder(row) == LeavesAtDepths(row, 0, depths)
    decreases SizeAll(row)
  {
    if row == [] {
      NoLeavesInEmptyRow(0, depths);
    } else {
      BelowShrinks(row);
      LeavesAtZero(row);
      DepthsOneDeeper(row, 0, depths - 1);
      LevelOrderIsByDepth(Below(row), depths - 1);
    }
  }

  /** All leaves of a row, at every depth, as a multiset: a structural definition. */
  function LeafBag(row: seq<Thrown>): multiset<Thrown> {
    if row == [] then multiset{}
    else if row[0].Aggregate? then LeafBag(row[0].inners) + LeafBag(row[1..])
    else multiset{row[0]} + LeafBag(row[1..])
  }

  lemma {:induction false} LeafBagOfConcat(a: seq<Thrown>, b: seq<Thrown>)
    ensures LeafBag(a + b) == LeafBag(a) + LeafBag(b)
  {
    if a == [] {
      assert a + b == b;
    } else {
      assert (a + b)[1..] == a[1..] + b;
      LeafBagOfConcat(a[1..], b);
    }
  }

  lemma {:induction false} LeafBagByRow(row: seq<Thrown>)
    ensures LeafBag(row) == multiset(Direct(row)) + LeafBag(Below(row))
  {
    if row != [] {
      LeafBagByRow(row[1..]);
      if row[0].Aggregate? {
        LeafBagOfConcat(row[0].inners, Below(row[1..]));
      }
    }
  }

  /** Flattening keeps every leaf exactly as often as the tree holds it. */
  lemma {:induction false} LevelOrderConservesLeaves(row: seq<Thrown>)
    ensures multiset(LevelOrder(row)) == LeafBag(row)
    decreases SizeAll(row)
  {
    if row != [] {
      BelowShrinks(row);
      LeafBagByRow(row);
      LevelOrderConservesLeaves(Below(row));
    }
  }

  ghost predicate AllLeaves(row: seq<Thrown>) {
    forall t :: t in row ==> !t.Aggregate?
  }

  lemma {:induction false} DirectAreLeaves(row: seq<Thrown>)
    ensures AllLeaves(Direct(row))
  {
    if row != [] {
      DirectAreLeaves(row[1..]);
    }
  }

  lemma {:induction false} LevelOrderIsFlat(row: seq<Thrown>)
    ensures AllLeaves(LevelOrder(row))
    decreases SizeAll(row)
  {
    if row != [] {
      BelowShrinks(row);
      DirectAreLeaves(row);
      LevelOrderIsFlat(Below(row));
    }
  }

  lemma {:induction false} NothingBelowLeaves(row: seq<Thrown>)
    requires AllLeaves(row)
    ensures Direct(row) == row && Below(row) == []
  {
    if row != [] {
      NothingBelowLeaves(row[1..]);
    }
  }

  lemma FlatRow(row: seq<Thrown>)
    requires AllLeaves(row)
    ensures LevelOrder(row) == row
  {
    NothingBelowLeaves(row);
    assert LevelOrder([]) == [];
  }

  // ---------------------------------------------------------------------------------------------
  // Flatten
  // ---------------------------------------------------------------------------------------------

  function Concat(lists: seq<seq<Thrown>>): seq<Thrown> {
    if lists == [] then [] else lists[0] + Concat(lists[1..])
  }

  lemma {:induction false} ConcatOfConcat(a: seq<seq<Thrown>>, b: seq<seq<Thrown>>)
    ensures Concat(a + b) == Concat(a) + Concat(b)
  {
    if a == [] {
      assert a + b == b;
    } else {
      assert (a + b)[1..] == a[1..] + b;
      ConcatOfConcat(a[1..], b);
    }
  }

  /** One unit for every list still to be walked and its entries. */
  function Work(lists: seq<seq<Thrown>>): nat {
    if lists == [] then 0 else 1 + SizeAll(lists[0]) + Work(lists[1..])
  }

  lemma {:induction false} WorkOfConcat(a: seq<seq<Thrown>>, b: seq<seq<Thrown>>)
    ensures Work(a + b) == Work(a) + Work(b)
  {
    if a == [] {
      assert a + b == b;
    } else {
      assert (a + b)[1..] == a[1..] + b;
      WorkOfConcat(a[1..], b);
    }
  }

  /** The lists one walk over a row enqueues. */
  function Enqueued(row: seq<Thrown>): seq<seq<Thrown>> {
    if row == [] then []
    else if row[0].Aggregate? then [row[0].inners] + Enqueued(row[1..])
    else Enqueued(row[1..])
  }

  lemma {:induction false} EnqueuedHoldsRowBelow(row: seq<Thrown>)
    ensures Concat(Enqueued(row)) == Below(row)
    ensures Work(Enqueued(row)) <= SizeAll(row)
  {
    if row != [] {
      EnqueuedHoldsRowBelow(row[1..]);
      if row[0].Aggregate? {
        ConcatOfConcat([row[0].inners], Enqueued(row[1..]));
        assert Concat([row[0].inners]) == row[0].inners;
        WorkOfConcat([row[0].inners], Enqueued(row[1..]));
        assert Work([row[0].inners]) == 1 + SizeAll(row[0].inners);
      }
    }
  }

  /** What `Flatten` still has to emit: the rest of the current row, then, level by level, the
      lists queued behind it and everything below the rest of the row. */
  function Remaining(rest: seq<Thrown>, queued: seq<Thrown>): seq<Thrown> {
    Direct(rest) + LevelOrder(queued + Below(rest))
  }

  lemma RemainingStep(current: seq<Thrown>, rest: seq<Thrown>, queued: seq<Thrown>)
    ensures Remaining(current + rest, queued) == Direct(current) + Remaining(rest, queued + Below(current))
  {
    calc {
      Remaining(current + rest, queued);
      Direct(current + rest) + LevelOrder(queued + Below(current + rest));
      { DirectOfConcat(current, rest); BelowOfConcat(current, rest); }
      Direct(current) + Direct(rest) + LevelOrder(queued + (Below(current) + Below(rest)));
      { Associate(queued, Below(current), Below(rest)); }
      Direct(current) + Direct(rest) + LevelOrder(queued + Below(current) + Below(rest));
      { Associate(Direct(current), Direct(rest), LevelOrder(queued + Below(current) + Below(rest))); }
      Direct(current) + Remaining(rest, queued + Below(current));
    }
  }

  lemma Associate<T>(a: seq<T>, b: seq<T>, c: seq<T>)
    ensures (a + b) + c == a + (b + c)
  {
  }

  /** What the queue still yields when `pending[head..rowEnd]` are the lists of the current row. */
  function Outstanding(pending: seq<seq<Thrown>>, head: nat, rowEnd: nat): seq<Thrown>
    requires head <= rowEnd <= |pending|
  {
    Remaining(Concat(pending[head..rowEnd]), Concat(pending[rowEnd..]))
  }

  /** A row that is exhausted makes the lists queued behind it the next row. */
  lemma NextRow(pending: seq<seq<Thrown>>, head: nat)
    requires head <= |pending|
    ensures Outstanding(pending, head, head) == Outstanding(pending, head, |pending|)
  {
    var queued := Concat(pending[head..]);
    assert pending[head..head] == [] && pending[|pending|..] == [] && pending[head..|pending|] == pending[head..];
    assert queued + Below([]) == queued;
    assert [] + Below(queued) == Below(queued);
    assert LevelOrder(queued) == Direct(queued) + LevelOrder(Below(queued));
  }

  lemma QueueStart(inners: seq<Thrown>)
    ensures Outstanding([inners], 0, 0) == LevelOrder(inners)
  {
    var pending := [inners];
    assert pending[0..0] == [] && pending[0..] == pending && pending[1..] == [];
    assert Concat(pending) == inners + [] == inners;
    assert inners + Below([]) == inners;
  }

  lemma HeadOfRow(pending: seq<seq<Thrown>>, head: nat, rowEnd: nat, more: seq<seq<Thrown>>)
    requires head < rowEnd <= |pending|
    ensures Concat(pending[head..rowEnd]) == pending[head] + Concat((pending + more)[head + 1..rowEnd])
  {
    assert pending[head..rowEnd][1..] == (pending + more)[head + 1..rowEnd];
  }

  lemma QueuedBehind(pending: seq<seq<Thrown>>, rowEnd: nat, current: seq<Thrown>)
    requires rowEnd <= |pending|
    ensures Concat((pending + Enqueued(current))[rowEnd..]) == Concat(pending[rowEnd..]) + Below(current)
  {
    assert (pending + Enqueued(current))[rowEnd..] == pending[rowEnd..] + Enqueued(current);
    ConcatOfConcat(pending[rowEnd..], Enqueued(current));
    EnqueuedHoldsRowBelow(current);
  }

  lemma WorkShrinks(pending: seq<seq<Thrown>>, head: nat)
    requires head < |pending|
    ensures Work((pending + Enqueued(pending[head]))[head + 1..]) < Work(pending[head..])
  {
    var current := pending[head];
    assert pending[head..][1..] == pending[head + 1..];
    assert (pending + Enqueued(current))[head + 1..] == pending[head + 1..] + Enqueued(current);
    WorkOfConcat(pending[head + 1..], Enqueued(current));
    EnqueuedHoldsRowBelow(current);
  }

  /** Walking the list at the head of the queue emits its leaves and moves its nested lists to the
      back; what will have been emitted in the end stays the same, and the work shrinks. */
  lemma WalkedList(pending: seq<seq<Thrown>>, head: nat, rowEnd: nat)
    requires head < rowEnd <= |pending|
    ensures var after := pending + Enqueued(pending[head]);
            && Outstanding(pending, head, rowEnd) == Direct(pending[head]) + Outstanding(after, head + 1, rowEnd)
            && Work(after[head + 1..]) < Work(pending[head..])
  {
    var current := pending[head];
    HeadOfRow(pending, head, rowEnd, Enqueued(current));
    QueuedBehind(pending, rowEnd, current);
    RemainingStep(current, Concat((pending + Enqueued(current))[head + 1..rowEnd]), Concat(pending[rowEnd..]));
    WorkShrinks(pending, head);
  }

  /** A plain aggregate over the leaves in level order; a derived aggregate hands on its composed
      message, a plain one its raw message. */
  function Flattened(a: Thrown): Thrown
    requires a.Aggregate?
  {
    Aggregate(false, if a.derived then Message(a) else a.raw, LevelOrder(a.inners))
  }

  /** What has been emitted and what is outstanding make up the result, when the queue stands at `head`. */
  ghost predicate IsProgress(pending: seq<seq<Thrown>>, head: nat, rowEnd: nat, flat: seq<Thrown>, all: seq<Thrown>) {
    head <= rowEnd <= |pending| && flat + Outstanding(pending, head, rowEnd) == all
  }

  /** One step of the queue, which starts the next row if the current one is exhausted. */
  lemma QueueStep(pending: seq<seq<Thrown>>, head: nat, rowEnd: nat, flat: seq<Thrown>, all: seq<Thrown>)
    requires head < |pending| && IsProgress(pending, head, rowEnd, flat, all)
    ensures var after := pending + Enqueued(pending[head]);
            && IsProgress(after, head + 1, if head == rowEnd then |pending| else rowEnd, flat + Direct(pending[head]), all)
            && Work(after[head + 1..]) < Work(pending[head..])
  {
    if head == rowEnd {
      NextRow(pending, head);
    }
    var end := if head == rowEnd then |pending| else rowEnd;
    WalkedList(pending, head, end);
    Associate(flat, Direct(pending[head]), Outstanding(pending + Enqueued(pending[head]), head + 1, end));
  }

  lemma QueueEnd(pending: seq<seq<Thrown>>, rowEnd: nat, flat: seq<Thrown>, all: seq<Thrown>)
    requires IsProgress(pending, |pending|, rowEnd, flat, all)
    ensures flat == all
  {
    assert pending[|pending|..|pending|] == pending[|pending|..] == [];
  }

  /** The inner loop: one queued list. */
  method Walk(current: seq<Thrown>, flat0: seq<Thrown>, pending0: seq<seq<Thrown>>)
    returns (flat: seq<Thrown>, pending: seq<seq<Thrown>>)
    ensures flat == flat0 + Direct(current)
    ensures pending == pending0 + Enqueued(current)
  {
    flat, pending := flat0, pending0;
    for i := 0 to |current|
      invariant flat + Direct(current[i..]) == flat0 + Direct(current)
      invariant pending + Enqueued(current[i..]) == pending0 + Enqueued(current)
    {
      var ep := current[i];
      assert current[i..][1..] == current[i + 1..];
      if ep.Aggregate? {
        Associate(pending, [ep.inners], Enqueued(current[i + 1..]));
        pending := pending + [ep.inners];
      } else {
        Associate(flat, [ep], Direct(current[i + 1..]));
        flat := flat + [ep];
      }
    }
    assert current[|current|..] == [];
  }

  method Flatten(a: Thrown) returns (r: Thrown)
    requires a.Aggregate?
    ensures r == Flattened(a)
  {
    var flat: seq<Thrown> := [];
    var pending: seq<seq<Thrown>> := [a.inners];
    var head := 0;
    ghost var rowEnd: nat := 0;
    QueueStart(a.inners);
    while head < |pending|
      invariant head <= |pending| && IsProgress(pending, head, rowEnd, flat, LevelOrder(a.inners))
      decreases Work(pending[head..])
    {
      QueueStep(pending, head, rowEnd, flat, LevelOrder(a.inners));
      rowEnd := if head == rowEnd then |pending| else rowEnd;
      var current := pending[head];
      flat, pending := Walk(current, flat, pending);
      head := head + 1;
    }
    QueueEnd(pending, rowEnd, flat, LevelOrder(a.inners));
    r := Aggregate(false, if a.derived then Message(a) else a.raw, flat);
  }

  /** Flattening twice is flattening once: same leaves, raw message and composed message. */
  lemma FlattenIsIdempotent(a: Thrown)
    requires a.Aggregate?
    ensures Flattened(Flattened(a)) == Flattened(a)
    ensures Message(Flattened(Flattened(a))) == Message(Flattened(a))
  {
    LevelOrderIsFlat(a.inners);
    FlatRow(LevelOrder(a.inners));
  }

  function FlattenTimes(a: Thrown, n: nat): (r: Thrown)
    requires a.Aggregate?
    ensures r.Aggregate?
  {
    if n == 0 then a else Flattened(FlattenTimes(a, n - 1))
  }

  /** However often it is repeated, flattening adds to the message at most once. */
  lemma {:induction false} MessageNeverAccretes(a: Thrown, n: nat)
    requires a.Aggregate? && n > 0
    ensures FlattenTimes(a, n) == Flattened(a)
    ensures |Message(FlattenTimes(a, n))| ==
            (if a.derived then |Message(a)| else |a.raw|) + AddedLength(LevelOrder(a.inners))
  {
    if n > 1 {
      MessageNeverAccretes(a, n - 1);
      FlattenIsIdempotent(a);
    } else {
      assert FlattenTimes(a, 0) == a;
    }
    ComposedLength(Flattened(a).raw, Flattened(a).inners);
  }

  // ---------------------------------------------------------------------------------------------
  // Handle
  // ---------------------------------------------------------------------------------------------

  /** A predicate may have a state: what it does at its call number `i`, with the exception passed. */
  type Predicate = (nat, Thrown) -> Answer

  function Rejected(inners: seq<Thrown>, answer: Predicate): seq<Thrown> {
    if inners == [] then []
    else
      var i := |inners| - 1;
      Rejected(inners[..i], answer) + if answer(i, inners[i]) == Unhandled then [inners[i]] else []
  }

  predicate AnswersAt(inners: seq<Thrown>, answer: Predicate, i: nat, a: Answer) {
    i < |inners| && answer(i, inners[i]) == a
  }

  /** `Handle`: an exception of the predicate itself leaves at once; otherwise what the predicate did not
      handle is rethrown, in order and under the composed message. */
  method Handle(a: Thrown, predicate?: Option<Predicate>) returns (r: HandleOutcome)
    requires a.Aggregate?
    ensures r == NullPredicate <==> predicate?.None?
    ensures r.PredicateThrew? ==>
              && AnswersAt(a.inners, predicate?.value, r.at, Throws)
              && forall k :: 0 <= k < r.at ==> !AnswersAt(a.inners, predicate?.value, k, Throws)
    ensures r == Returned ==> forall k :: 0 <= k < |a.inners| ==> AnswersAt(a.inners, predicate?.value, k, Handled)
    ensures r.Rethrown? ==>
              && (forall k: nat :: !AnswersAt(a.inners, predicate?.value, k, Throws))
              && (exists k: nat :: AnswersAt(a.inners, predicate?.value, k, Unhandled))
              && r == Rethrown(Aggregate(false, Message(a), Rejected(a.inners, predicate?.value)))
  {
    if predicate?.None? {
      return NullPredicate;
    }
    var answer := predicate?.value;
    var unhandled: seq<Thrown> := [];
    for i := 0 to |a.inners|
      invariant unhandled == Rejected(a.inners[..i], answer)
      invariant forall k :: 0 <= k < i ==> !AnswersAt(a.inners, answer, k, Throws)
      invariant unhandled == [] ==> forall k :: 0 <= k < i ==> AnswersAt(a.inners, answer, k, Handled)
      invariant unhandled != [] ==> exists k: nat :: AnswersAt(a.inners, answer, k, Unhandled)
    {
      assert a.inners[..i + 1][..i] == a.inners[..i];
      match answer(i, a.inners[i])
      case Throws =>
        assert AnswersAt(a.inners, answer, i, Throws);
        return PredicateThrew(i);
      case Unhandled =>
        assert AnswersAt(a.inners, answer, i, Unhandled);
        unhandled := unhandled + [a.inners[i]];
      case Handled =>
        assert AnswersAt(a.inners, answer, i, Handled);
    }
    assert a.inners[..|a.inners|] == a.inners;
    if unhandled != [] {
      return Rethrown(Aggregate(false, Message(a), unhandled));
    }
    return Returned;
  }

  lemma LastInBag(inners: seq<Thrown>)
    requires inners != []
    ensures multiset(inners) == multiset(inners[..|inners| - 1]) + multiset{inners[|inners| - 1]}
  {
    assert inners == inners[..|inners| - 1] + [inners[|inners| - 1]];
  }

  lemma RejectedBag(inners: seq<Thrown>, answer: Predicate)
    requires inners != []
    ensures var i := |inners| - 1;
            multiset(Rejected(inners, answer))
            == multiset(Rejected(inners[..i], answer)) + if answer(i, inners[i]) == Unhandled then multiset{inners[i]} else multiset{}
  {
  }

  /** `Handle` keeps exactly the exceptions its predicate rejects: together with those a predicate
      of the opposite answers keeps, they are all the inner exceptions. */
  lemma {:induction false} HandlePartitions(inners: seq<Thrown>, answer: Predicate, opposite: Predicate)
    requires forall i, t :: opposite(i, t) == Unhandled <==> answer(i, t) != Unhandled
    ensures multiset(Rejected(inners, answer)) + multiset(Rejected(inners, opposite)) == multiset(inners)
  {
    if inners != [] {
      HandlePartitions(inners[..|inners| - 1], answer, opposite);
      LastInBag(inners);
      RejectedBag(inners, answer);
      RejectedBag(inners, opposite);
    }
  }

  /** What it rethrows are exceptions that the predicate left unhandled. */
  lemma {:induction false} RejectedAreUnhandled(inners: seq<Thrown>, answer: Predicate, t: Thrown)
    ensures t in Rejected(inners, answer) <==> exists i: nat :: AnswersAt(inners, answer, i, Unhandled) && inners[i] == t
  {
    if inners != [] {
      var last := |inners| - 1;
      var front := inners[..last];
      RejectedAreUnhandled(front, answer, t);
      assert forall i: nat :: i < last ==> AnswersAt(front, answer, i, Unhandled) == AnswersAt(inners, answer, i, Unhandled);
      assert AnswersAt(inners, answer, last, Unhandled) <==> answer(last, inners[last]) == Unhandled;
    }
  }

  lemma {:induction false} RejectAll(inners: seq<Thrown>, answer: Predicate)
    requires forall i :: 0 <= i < |inners| ==> answer(i, inners[i]) == Unhandled
    ensures Rejected(inners, answer) == inners
  {
    if inners != [] {
      var i := |inners| - 1;
      RejectAll(inners[..i], answer);
      assert inners == inners[..i] + [inners[i]];
    }
  }

  /** Unlike `Flatten`, a `Handle` that rejects everything repeats the leaves' text: its message
      grows by the composed length of every inner exception, each time. */
  lemma HandleAccretes(a: Thrown, answer: Predicate)
    requires a.Aggregate? && a.inners != []
    requires forall i :: 0 <= i < |a.inners| ==> answer(i, a.inners[i]) == Unhandled
    ensures var again := Aggregate(false, Message(a), Rejected(a.inners, answer));
            |Message(again)| == |Message(a)| + AddedLength(a.inners) > |Message(a)|
  {
    RejectAll(a.inners, answer);
    ComposedLength(Message(a), a.inners);
    ComposedExtendsRaw(Message(a), a.inners);
  }

  // ---------------------------------------------------------------------------------------------
  // GetBaseException
  // ---------------------------------------------------------------------------------------------

  /** `make_exception_ptr(*this)` copies the static type: the copy is a plain aggregate. */
  function GetBaseException(a: Thrown): Thrown
    requires a.Aggregate?
    decreases a
  {
    if |a.inners| == 1 then
      if a.inners[0].Aggregate? then GetBaseException(a.inners[0]) else a.inners[0]
    else Aggregate(false, a.raw, a.inners)
  }

  /** The base exception is either the one leaf of the tree or a plain aggregate with the same
      flattened leaves; that never has exactly one inner exception, so asking again changes nothing. */
  lemma {:induction false} BaseExceptionKeepsLeaves(a: Thrown)
    requires a.Aggregate?
    ensures var b := GetBaseException(a);
            if b.Aggregate?
            then !b.derived && |b.inners| != 1 && LevelOrder(b.inners) == LevelOrder(a.inners) && GetBaseException(b) == b
            else LevelOrder(a.inners) == [b]
    decreases a
  {
    if |a.inners| == 1 {
      var only := a.inners[0];
      assert a.inners == [only] && [only][1..] == [];
      assert LevelOrder([only]) == Direct([only]) + LevelOrder(Below([only]));
      if only.Aggregate? {
        assert Below([only]) == only.inners + [] == only.inners;
        BaseExceptionKeepsLeaves(only);
      }
    }
  }
}
