/**
 `_validate_trie` of gen_unicode_tables.py, and the 11:5:4 lookup of UnicodeCategoryLookup.hpp (the
 one of UnicodeNumericLookup.hpp is the same) that it is to make safe.
 */
module UnicodeTrie {
  import opened Bitwise
  import opened Common

  const CODE_POINTS := 0x110000
  const LEVEL1_SIZE := 2176

  /** The tables of one trie and the number of values its leaves select from. */
  datatype Trie = Trie(level1: seq<Byte>, level2: seq<Byte>, level3: seq<Byte>, valueCount: nat)

  // ---------------------------------------------------------------------------------------------
  // The lookup
  // ---------------------------------------------------------------------------------------------

  /** An unchecked access to a table; None if it is out of bounds. */
  function At(table: seq<Byte>, i: nat): Option<Byte> {
    if i < |table| then Some(table[i]) else None
  }

  /** The little-endian word at an offset, assembled from its bytes. */
  function WordAt(table: seq<Byte>, offset: nat): Option<nat> {
    match (At(table, offset), At(table, offset + 1))
    case (Some(low), Some(high)) => Some(Or(low, ShiftLeft(high, 8)))
    case _ => None
  }

  /** `CategoryCasingTableOffset`; None if one of its accesses is out of bounds. */
  function TableOffset(t: Trie, codePoint: nat): Option<Byte> {
    match At(t.level1, ShiftRight(codePoint, 9))
    case None => None
    case Some(first) =>
      OffsetIn(t, WordAt(t.level2, ShiftLeft(first, 6) + And(ShiftRight(codePoint, 3), 0x3E)), And(codePoint, 0x0F))
  }

  /** The last access, with the word read from level 2. */
  function OffsetIn(t: Trie, second: Option<nat>, cell: nat): Option<Byte> {
    match second
    case None => None
    case Some(index) => At(t.level3, ShiftLeft(index, 4) + cell)
  }

  predicate SelectsValue(t: Trie, offset: Option<Byte>) {
    offset.Some? && offset.value < t.valueCount
  }

  /** All accesses of the lookup of a code point are in bounds, and so is the value it selects. */
  predicate IsSafe(t: Trie, codePoint: nat) {
    SelectsValue(t, TableOffset(t, codePoint))
  }

  // ---------------------------------------------------------------------------------------------
  // The lookup in numbers
  // ---------------------------------------------------------------------------------------------

  /** The byte of level 2 at which a level 1 value finds its entry number `k`. */
  function EntryOffset(first: nat, k: nat): nat {
    first * 64 + 2 * k
  }

  predicate HasEntry(level2: seq<Byte>, first: nat, k: nat) {
    EntryOffset(first, k) + 1 < |level2|
  }

  function Word(low: Byte, high: Byte): (r: nat)
    ensures r < 0x1_0000
  {
    low + high * 256
  }

  function Entry(level2: seq<Byte>, first: nat, k: nat): (r: nat)
    requires HasEntry(level2, first, k)
    ensures r < 0x1_0000
  {
    Word(level2[EntryOffset(first, k)], level2[EntryOffset(first, k) + 1])
  }

  /** The byte of level 3 at which an entry finds its cell number `j`. */
  function CellOffset(entry: nat, j: nat): nat {
    entry * 16 + j
  }

  /** Entry `k` of the block that the code point's level 1 value selects exists, and so does its cell
      `j`, which holds the number of a value. */
  predicate IsInside(t: Trie, first: nat, k: nat, j: nat) {
    && HasEntry(t.level2, first, k)
    && var cell := CellOffset(Entry(t.level2, first, k), j);
    && cell < |t.level3|
    && t.level3[cell] < t.valueCount
  }

  lemma ShiftedByte(b: Byte)
    ensures ShiftLeft(b, 6) == b * 64 && ShiftLeft(b, 8) == b * 256
  {
    Scales(b);
  }

  lemma ShiftedEntry(entry: nat)
    requires entry < 0x1_0000
    ensures ShiftLeft(entry, 4) == entry * 16
  {
    Scales(entry);
  }

  lemma WordOnBytes(low: Byte, high: Byte)
    ensures Or(low, ShiftLeft(high, 8)) == Word(low, high)
  {
    ShiftedByte(high);
    Scales(high);
    SmallShifts(low);
    ShiftTwice(low, 6, 2);
    SmallShifts(low / 64);
    OrScaled(high, low, 8);
    OrCommutes(low, high * 256);
  }

  /** The mask 0x3E on a word shifted by three is twice the entry number. */
  lemma SuffixOnWords(codePoint: nat)
    ensures And(ShiftRight(codePoint, 3), 0x3E) == 2 * (codePoint / 16 % 32)
  {
    var x := ShiftRight(codePoint, 3);
    ShiftTwice(codePoint, 3, 1);
    SmallShifts(codePoint);
    AndScaled(x, 0x1F, 1);
    Masks(codePoint / 16);
  }

  /** A word of the table, in numbers. */
  function NumberAt(table: seq<Byte>, offset: nat): Option<nat> {
    if offset + 1 < |table| then Some(Word(table[offset], table[offset + 1])) else None
  }

  lemma WordIsNumber(table: seq<Byte>, offset: nat)
    ensures WordAt(table, offset) == NumberAt(table, offset)
  {
    if offset + 1 < |table| {
      WordOnBytes(table[offset], table[offset + 1]);
    }
  }

  lemma EntryIsNumber(level2: seq<Byte>, first: Byte, k: nat)
    ensures WordAt(level2, ShiftLeft(first, 6) + 2 * k) == NumberAt(level2, EntryOffset(first, k))
  {
    ShiftedByte(first);
    WordIsNumber(level2, EntryOffset(first, k));
  }

  lemma CellIsInside(t: Trie, first: Byte, k: nat, j: nat)
    ensures SelectsValue(t, OffsetIn(t, NumberAt(t.level2, EntryOffset(first, k)), j)) <==> IsInside(t, first, k, j)
  {
    if HasEntry(t.level2, first, k) {
      CellIsNumber(t, Entry(t.level2, first, k), j);
    }
  }

  lemma CellIsNumber(t: Trie, entry: nat, j: nat)
    requires entry < 0x1_0000
    ensures OffsetIn(t, Some(entry), j) == At(t.level3, CellOffset(entry, j))
  {
    ShiftedEntry(entry);
  }

  lemma LookupOnParts(t: Trie, codePoint: nat, i: nat, k: nat, j: nat)
    requires ShiftRight(codePoint, 9) == i && And(ShiftRight(codePoint, 3), 0x3E) == 2 * k && And(codePoint, 0x0F) == j
    ensures IsSafe(t, codePoint) <==> i < |t.level1| && IsInside(t, t.level1[i], k, j)
  {
    if i < |t.level1| {
      EntryIsNumber(t.level2, t.level1[i], k);
      CellIsInside(t, t.level1[i], k, j);
    }
  }

  /** What the lookup's shifts, masks and ors compute: three accesses at the code point's 11, 5 and 4
      bits, safe exactly when all of them are inside. */
  lemma LookupOnWords(t: Trie, codePoint: nat)
    ensures IsSafe(t, codePoint) <==>
            codePoint / 512 < |t.level1| && IsInside(t, t.level1[codePoint / 512], codePoint / 16 % 32, codePoint % 16)
  {
    ShiftByNine(codePoint);
    Masks(codePoint);
    SuffixOnWords(codePoint);
    LookupOnParts(t, codePoint, codePoint / 512, codePoint / 16 % 32, codePoint % 16);
  }

  // ---------------------------------------------------------------------------------------------
  // What is to be checked
  // ---------------------------------------------------------------------------------------------

  predicate CellsInside(t: Trie, entry: nat) {
    CellOffset(entry, 15) < |t.level3|
  }

  predicate ValuesInside(t: Trie, entry: nat)
    requires CellsInside(t, entry)
  {
    forall j :: 0 <= j < 16 ==> t.level3[CellOffset(entry, j)] < t.valueCount
  }

  /** Every entry that a level 1 value selects is there, and so is all that it selects in turn. */
  ghost predicate BlockInside(t: Trie, first: nat) {
    forall k :: 0 <= k < 32 ==>
      HasEntry(t.level2, first, k) && CellsInside(t, Entry(t.level2, first, k)) && ValuesInside(t, Entry(t.level2, first, k))
  }

  function CodePoint(i: nat, k: nat, j: nat): nat {
    i * 512 + k * 16 + j
  }

  lemma HighBits(i: nat, k: nat, j: nat)
    requires k < 32 && j < 16
    ensures CodePoint(i, k, j) / 512 == i
  {
    assert k * 16 + j < 512;
  }

  lemma MiddleBits(i: nat, k: nat, j: nat)
    requires k < 32 && j < 16
    ensures CodePoint(i, k, j) / 16 % 32 == k
  {
    var q := i * 32 + k;
    assert CodePoint(i, k, j) == q * 16 + j;
    assert CodePoint(i, k, j) / 16 == q;
  }

  lemma LowBits(i: nat, k: nat, j: nat)
    requires j < 16
    ensures CodePoint(i, k, j) % 16 == j
  {
    assert CodePoint(i, k, j) == (i * 32 + k) * 16 + j;
  }

  /** Which code point selects entry `k` and cell `j` of the level 1 value at `i`. */
  lemma SafeCodePoint(t: Trie, i: nat, k: nat, j: nat)
    requires i < |t.level1| && k < 32 && j < 16
    ensures IsSafe(t, CodePoint(i, k, j)) <==> IsInside(t, t.level1[i], k, j)
  {
    HighBits(i, k, j);
    MiddleBits(i, k, j);
    LowBits(i, k, j);
    LookupOnWords(t, CodePoint(i, k, j));
  }

  lemma InsideBlock(t: Trie, first: nat, k: nat, j: nat)
    requires BlockInside(t, first) && k < 32 && j < 16
    ensures IsInside(t, first, k, j)
  {
    var entry := Entry(t.level2, first, k);
    assert ValuesInside(t, entry);
  }

  /** The level 1 table, with its size, covers exactly the code points. */
  lemma SafeMeansBlocksInside(t: Trie)
    requires |t.level1| == LEVEL1_SIZE
    ensures (forall first :: first in t.level1 ==> BlockInside(t, first)) <==>
            (forall c :: 0 <= c < CODE_POINTS ==> IsSafe(t, c))
  {
    if forall c :: 0 <= c < CODE_POINTS ==> IsSafe(t, c) {
      forall i | 0 <= i < |t.level1|
        ensures BlockInside(t, t.level1[i])
      {
        SafeBlock(t, i);
      }
    }
    if forall first :: first in t.level1 ==> BlockInside(t, first) {
      forall c | 0 <= c < CODE_POINTS
        ensures IsSafe(t, c)
      {
        LookupOnWords(t, c);
        InsideBlock(t, t.level1[c / 512], c / 16 % 32, c % 16);
      }
    }
  }

  lemma SafeBlock(t: Trie, i: nat)
    requires |t.level1| == LEVEL1_SIZE && i < LEVEL1_SIZE
    requires forall c :: 0 <= c < CODE_POINTS ==> IsSafe(t, c)
    ensures BlockInside(t, t.level1[i])
  {
    forall k, j | 0 <= k < 32 && 0 <= j < 16
      ensures IsInside(t, t.level1[i], k, j)
    {
      assert IsSafe(t, CodePoint(i, k, j));
      SafeCodePoint(t, i, k, j);
    }
    forall k | 0 <= k < 32
      ensures HasEntry(t.level2, t.level1[i], k)
      ensures CellsInside(t, Entry(t.level2, t.level1[i], k)) && ValuesInside(t, Entry(t.level2, t.level1[i], k))
    {
      InsideEntry(t, t.level1[i], k);
    }
  }

  lemma InsideEntry(t: Trie, first: nat, k: nat)
    requires forall j :: 0 <= j < 16 ==> IsInside(t, first, k, j)
    ensures HasEntry(t.level2, first, k)
    ensures CellsInside(t, Entry(t.level2, first, k)) && ValuesInside(t, Entry(t.level2, first, k))
  {
    assert IsInside(t, first, k, 15);
    var entry := Entry(t.level2, first, k);
    forall j | 0 <= j < 16
      ensures t.level3[CellOffset(entry, j)] < t.valueCount
    {
      assert IsInside(t, first, k, j);
    }
  }

  // ---------------------------------------------------------------------------------------------
  // The validator
  // ---------------------------------------------------------------------------------------------

  datatype Problem =
    | Level1Size
    | Level2Outside(byte: nat)
    | Level3Outside(byte: nat)
    | ValueOutside(offset: nat, value: nat)

  /** `entry` is selected by one of the level 1 values with some suffix. */
  ghost predicate IsSelected(level2: seq<Byte>, firsts: set<Byte>, entry: nat) {
    exists first, k :: first in firsts && 0 <= k < 32 && HasEntry(level2, first, k) && entry == Entry(level2, first, k)
  }

  /** The problem names an access outside a table, or a value out of range, that some code point
      meets in its lookup. */
  ghost predicate IsReal(t: Trie, p: Problem) {
    match p
    case Level1Size => |t.level1| != LEVEL1_SIZE
    case Level2Outside(byte) =>
      byte >= |t.level2| && exists first, k :: first in t.level1 && 0 <= k < 32 && byte == EntryOffset(first, k) + 1
    case Level3Outside(byte) =>
      byte >= |t.level3| && exists entry :: IsSelected(t.level2, SetOf(t.level1), entry) && byte == CellOffset(entry, 15)
    case ValueOutside(offset, value) =>
      && offset < |t.level3| && value == t.level3[offset] >= t.valueCount
      && exists entry, j :: IsSelected(t.level2, SetOf(t.level1), entry) && 0 <= j < 16 && offset == CellOffset(entry, j)
  }

  /** The entries of one level 1 value with numbers below `k` exist, and `r` holds them besides `indexes`. */
  ghost predicate AreCollected(level2: seq<Byte>, first: Byte, k: nat, indexes: set<nat>, r: set<nat>) {
    && (forall i :: 0 <= i < k ==> HasEntry(level2, first, i) && Entry(level2, first, i) in r)
    && indexes <= r
    && forall x :: x in r ==> x in indexes || exists i :: 0 <= i < k && HasEntry(level2, first, i) && x == Entry(level2, first, i)
  }

  lemma CollectNext(level2: seq<Byte>, first: Byte, k: nat, indexes: set<nat>, r: set<nat>)
    requires AreCollected(level2, first, k, indexes, r) && HasEntry(level2, first, k)
    ensures AreCollected(level2, first, k + 1, indexes, r + {Entry(level2, first, k)})
  {
    forall x | x in r + {Entry(level2, first, k)}
      ensures x in indexes || exists i :: 0 <= i < k + 1 && HasEntry(level2, first, i) && x == Entry(level2, first, i)
    {
      if x in r && x !in indexes {
        var i :| 0 <= i < k && HasEntry(level2, first, i) && x == Entry(level2, first, i);
      }
    }
  }

  lemma AllCollected(level2: seq<Byte>, first: Byte, indexes: set<nat>, r: set<nat>)
    requires AreCollected(level2, first, 32, indexes, r)
    ensures forall k :: 0 <= k < 32 ==> HasEntry(level2, first, k)
    ensures forall x :: x in r <==> x in indexes || IsSelected(level2, {first}, x)
  {
  }

  /** The loop over the suffixes of one level 1 value; if `ok` is false, `byte` lies outside. */
  method SelectBlock(level2: seq<Byte>, first: Byte, indexes: set<nat>) returns (ok: bool, byte: nat, r: set<nat>)
    ensures ok ==> forall k :: 0 <= k < 32 ==> HasEntry(level2, first, k)
    ensures ok ==> forall x :: x in r <==> x in indexes || IsSelected(level2, {first}, x)
    ensures !ok ==> byte >= |level2| && exists k :: 0 <= k < 32 && byte == EntryOffset(first, k) + 1
  {
    r, byte := indexes, 0;
    ghost var k := 0;
    ShiftedByte(first);
    var suffix := 0;
    while suffix < 64
      invariant suffix == 2 * k && k <= 32 && AreCollected(level2, first, k, indexes, r)
    {
      var offset := ShiftLeft(first, 6) + suffix;
      assert offset == EntryOffset(first, k);
      if offset + 1 >= |level2| {
        return false, offset + 1, r;
      }
      CollectNext(level2, first, k, indexes, r);
      var second := ReadWord(level2, offset);
      r := r + {second};
      suffix, k := suffix + 2, k + 1;
    }
    AllCollected(level2, first, indexes, r);
    ok := true;
  }

  method ReadWord(level2: seq<Byte>, offset: nat) returns (word: nat)
    requires offset + 1 < |level2|
    ensures word == Word(level2[offset], level2[offset + 1])
  {
    WordOnBytes(level2[offset], level2[offset + 1]);
    word := Or(level2[offset], ShiftLeft(level2[offset + 1], 8));
  }

  method ValidateTrie(t: Trie) returns (problems: seq<Problem>)
    ensures |problems| <= 1
    ensures problems == [] <==> |t.level1| == LEVEL1_SIZE && forall c :: 0 <= c < CODE_POINTS ==> IsSafe(t, c)
    ensures forall p :: p in problems ==> IsReal(t, p)
  {
    if |t.level1| != LEVEL1_SIZE {
      return [Level1Size];
    }
    SafeMeansBlocksInside(t);
    var indexes: set<nat> := {};
    var firsts := SetOf(t.level1);
    ghost var done: set<Byte> := {};
    while firsts != {}
      invariant done + firsts == SetOf(t.level1)
      invariant forall first, k :: first in done && 0 <= k < 32 ==> HasEntry(t.level2, first, k)
      invariant forall x :: x in indexes <==> IsSelected(t.level2, done, x)
      decreases firsts
    {
      var first :| first in firsts;
      var ok, byte, more := SelectBlock(t.level2, first, indexes);
      assert first in SetOf(t.level1);
      if !ok {
        ghost var k :| 0 <= k < 32 && byte == EntryOffset(first, k) + 1;
        assert !HasEntry(t.level2, first, k);
        return [Level2Outside(byte)];
      }
      SelectedByMore(t.level2, done, first);
      indexes, firsts, done := more, firsts - {first}, done + {first};
    }
    assert done == SetOf(t.level1);
    problems := CheckCells(t, indexes);
  }

  lemma SelectedByMore(level2: seq<Byte>, done: set<Byte>, first: Byte)
    ensures forall x :: IsSelected(level2, done + {first}, x) <==> IsSelected(level2, done, x) || IsSelected(level2, {first}, x)
  {
  }

  predicate IsCellOf(entry: nat, offset: nat) {
    CellOffset(entry, 0) <= offset <= CellOffset(entry, 15)
  }

  /** The cells of an entry as a range of bytes. */
  function Cells(entry: nat): (r: set<nat>)
    ensures forall o :: o in r <==> IsCellOf(entry, o)
  {
    assert forall o: nat :: IsCellOf(entry, o) ==> o == CellOffset(entry, o - entry * 16);
    set j | 0 <= j < 16 :: CellOffset(entry, j)
  }

  /** The other two loops: the cells of the selected entries, then the values in those cells. */
  method CheckCells(t: Trie, indexes: set<nat>) returns (problems: seq<Problem>)
    requires forall first, k :: first in t.level1 && 0 <= k < 32 ==> HasEntry(t.level2, first, k)
    requires forall x :: x in indexes <==> IsSelected(t.level2, SetOf(t.level1), x)
    ensures |problems| <= 1
    ensures problems == [] <==> forall first :: first in t.level1 ==> BlockInside(t, first)
    ensures forall p :: p in problems ==> IsReal(t, p)
  {
    var rest := indexes;
    var used: set<nat> := {};
    ghost var done: set<nat> := {};
    while rest != {}
      invariant done + rest == indexes
      invariant forall x :: x in done ==> CellsInside(t, x)
      invariant forall o :: o in used <==> exists x :: x in done && IsCellOf(x, o)
      decreases rest
    {
      var second :| second in rest;
      assert IsSelected(t.level2, SetOf(t.level1), second);
      ShiftedEntry(second);
      var last := ShiftLeft(second, 4) + 15;
      if last >= |t.level3| {
        SelectedInsideBlocks(t, second);
        return [Level3Outside(last)];
      }
      used := used + Cells(second);
      rest, done := rest - {second}, done + {second};
    }
    assert done == indexes;
    problems := CheckValues(t, indexes, used);
  }

  method CheckValues(t: Trie, indexes: set<nat>, used: set<nat>) returns (problems: seq<Problem>)
    requires forall first, k :: first in t.level1 && 0 <= k < 32 ==> HasEntry(t.level2, first, k)
    requires forall x :: x in indexes <==> IsSelected(t.level2, SetOf(t.level1), x)
    requires forall x :: x in indexes ==> CellsInside(t, x)
    requires forall o :: o in used <==> exists x :: x in indexes && IsCellOf(x, o)
    ensures |problems| <= 1
    ensures problems == [] <==> forall first :: first in t.level1 ==> BlockInside(t, first)
    ensures forall p :: p in problems ==> IsReal(t, p)
  {
    var rest := used;
    ghost var done: set<nat> := {};
    while rest != {}
      invariant done + rest == used
      invariant forall o :: o in done ==> o < |t.level3| && t.level3[o] < t.valueCount
      decreases rest
    {
      var offset :| offset in rest;
      assert offset in used;
      ghost var x :| x in indexes && IsCellOf(x, offset);
      assert offset == CellOffset(x, offset - x * 16);
      assert CellsInside(t, x);
      if t.level3[offset] >= t.valueCount {
        SelectedInsideBlocks(t, x);
        return [ValueOutside(offset, t.level3[offset])];
      }
      rest, done := rest - {offset}, done + {offset};
    }
    assert done == used;
    forall first, k | first in t.level1 && 0 <= k < 32
      ensures CellsInside(t, Entry(t.level2, first, k)) && ValuesInside(t, Entry(t.level2, first, k))
    {
      assert HasEntry(t.level2, first, k);
      var x := Entry(t.level2, first, k);
      assert first in SetOf(t.level1) && IsSelected(t.level2, SetOf(t.level1), x);
      assert x in indexes;
      assert forall j :: 0 <= j < 16 ==> IsCellOf(x, CellOffset(x, j)) && CellOffset(x, j) in used;
    }
    problems := [];
  }

  /** A selected entry whose cells or values are not all inside spoils some block. */
  lemma SelectedInsideBlocks(t: Trie, entry: nat)
    requires IsSelected(t.level2, SetOf(t.level1), entry)
    ensures (forall first :: first in t.level1 ==> BlockInside(t, first)) ==> CellsInside(t, entry) && ValuesInside(t, entry)
  {
    var first, k :| first in SetOf(t.level1) && 0 <= k < 32 && HasEntry(t.level2, first, k) && entry == Entry(t.level2, first, k);
    assert first in t.level1;
  }
}
