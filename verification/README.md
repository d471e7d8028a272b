# Verification of sharp-runtime's self-contained algorithms

Dafny models of the algorithms in sharp-runtime whose correctness no finite set of examples settles,
with proofs of what their comments and documentation promise. The module of a file follows the source
file it models:

- `AggregateException.dfy`: exception trees; `Flatten`, `Handle`, `GetBaseException`, message composition.
- `ComponentGraphs.dfy`, `ModuleBoundaries.dfy`, `ConsumerFixtures.dfy`: the component graph; cycle
  search, public closure, memoised include-directory resolution, and when the last two agree.
- `PortableFromChars.dfy`: `std::from_chars` for floating point emulated with `strtod`.
- `Nesting.dfy`, `SeamScanner.dfy`, `SourceText.dfy`, `SiteRegions.dfy`: nesting of brackets and of
  conditional directives, bracket matching in both directions, removal of comments and literals.
- `PrefixCodes.dfy`, `CharUtf8.dfy`: UTF-8 and UTF-16 conversion.
- `UnicodeTrie.dfy`: the 11:5:4 lookup and the validator that makes it safe.
- `Common.dfy`, `Bitwise.dfy`: shared notions; shifts, masks and ors of 32-bit words as arithmetic.
- `Int32.dfy`, `Arrays.dfy`, `ArraySegments.dfy`, `ByteMemory.dfy`: unsigned range guards, overlapping
  copies, binary search, array windows, byte views of element storage.
- `IndexInstall.dfy`: building an index beside its path and installing it, as a state machine with
  failures and a concurrent process.

`dafny verify dfyconfig.toml` checks everything.

Exceptions are values of a result datatype. Names are wrapped strings; the order in which a checker
visits a set (`sorted`, `list(set)`) is a sequence parameter, and the results hold for every order.
Iteration over a Python set in the trie validator is an arbitrary choice. Lines and tokens come
classified: the regular expressions are not modelled. What a numeral is worth, what a C library does
where ISO C11 leaves it a choice, the outcome of an allocation, and the order of pointers into different
arrays are parameters. The encoder, the decoder and the trie lookup compute with the shifts, masks and
ors of the sources, defined on binary digits in `Bitwise.dfy`; their contracts say what these amount to.
`Undefined` and `Unspecified` stand for a signed overflow, or an access outside a container, that a guard
lets through.

Results that qualify what the sources say:

- The two readings of public dependencies, "public if explicit, else legacy" and "public or legacy",
  agree on a module exactly when its explicit declaration covers the legacy one
  (`ModuleBoundaries.Module.ReadingsAgree`); rejecting mixed declarations guarantees it.
- The two checkers name the same components for a component exactly if, behind every name of its public
  closure that is not a module, the second one finds only names of the closure
  (`ModuleBoundaries.ClosureAgreesWithResolve`), and the same directories exactly if it finds only those
  (`ConsumerFixtures.ResolveMatchesPublicClosure`). They differ when a module depends on the umbrella
  "All", which the second checker always has and the validator takes for an unknown dependency
  (`ModuleBoundaries.UmbrellaIsNotFollowed`, `ConsumerFixtures.UmbrellaAddsDirectories`).
- The unsigned range guard and the backward guard are exact precisely for containers whose size a signed
  32-bit integer holds (`Int32.GuardFitsExactlySmallSizes`, `Int32.BackwardGuardFitsExactlySmallSizes`);
  the byte guards have their own exact limits.
- The decoder's guard and the block copy's guard accept the same offsets exactly for byte lengths whose
  low 32 bits the signed type holds (`Int32.DecodeGuardIsBlockGuard`).
- The overloads of `LastIndexOf` and `FindLastIndex` without a count start at an element exactly unless the
  array is empty and the start is 0, which their guard accepts (`Int32.AcceptedStartIsElement`).
- `PortableFromCharsFloat` reports an underflow to zero as `std::from_chars` does exactly if the C library
  sets errno for it and returns a zero. ISO C11 leaves the first to the library, and about the value says
  only that it is no larger than the smallest normalized number (section 7.22.1.3); the header relies on
  ERANGE. With a library that stays silent, "1e-400" is a zero (`PortableFromChars.SilentUnderflowIsMissed`).
- `build_index` can raise although the index is installed, exactly without `--replace`: when removing the
  temporary file after the link fails (`IndexInstall.RaisesInstalledWithoutReplace`). It can leave the
  temporary file behind, when closing the descriptor or a step of the cleanup fails
  (`IndexInstall.DescriptorCanFail`, `IndexInstall.CleanupCanFail`); `IndexInstall.EveryRunEndsWell` states
  when, exactly.
- `Handle` repeats the leaves' text each time, where `Flatten` does not (`AggregateExceptions.HandleAccretes`).
- Array.hpp documents ArgumentException for a range that is out of bounds, while its guard throws
  ArgumentOutOfRangeException for both arguments; ArraySegment.hpp documents that `CopyTo(vector)`
  resizes a short destination, while the code rejects it. The models follow the code.

## Model

| member | source | states |
|---|---|---|
| `AggregateExceptions.ComposedLength` | modules/core/include/System/AggregateException.hpp:148-168 | a composed message is as long as the raw one plus, for every inner exception, its text and three characters |
| `AggregateExceptions.ComposedExtendsRaw` | modules/core/include/System/AggregateException.hpp:148-168 | the composed message starts with the raw one and grows with every inner exception |
| `AggregateExceptions.HasNullElement` | modules/core/include/System/AggregateException.hpp:74-79 | throws exactly when an element is null |
| `AggregateExceptions.ComposeMessage` | modules/core/include/System/AggregateException.hpp:148-168 | appending and dropping the last character yields the raw message followed by " (text)" per inner exception; rejects null elements |
| `AggregateExceptions.Construct` | modules/core/include/System/AggregateException.hpp:199-203 | keeps the raw message and the elements in order and names the first as the cause, or rejects a null element |
| `AggregateExceptions.ConstructSingle` | modules/core/include/System/AggregateException.hpp:215-222 | a null single inner exception is a null argument, not a null element |
| `AggregateExceptions.Flatten` | modules/core/include/System/AggregateException.hpp:293-339 | the queue loop terminates and returns a plain aggregate over the leaves in level order, with the raw message of a plain and the composed message of a derived aggregate |
| `AggregateExceptions.Walk` | modules/core/include/System/AggregateException.hpp:313-323 | one queued list: its leaves are appended to the result and its nested lists to the queue, in order |
| `AggregateExceptions.WalkedList` | modules/core/include/System/AggregateException.hpp:313-323 | walking one queued list changes nothing about what is emitted in all, and shrinks the work left |
| `AggregateExceptions.LevelOrderIsByDepth` | modules/core/include/System/AggregateException.hpp:270-287 | level order is all leaves of depth 0 left to right, then all of depth 1, and so on |
| `AggregateExceptions.LevelOrderConservesLeaves` | modules/core/include/System/AggregateException.hpp:284-285 | the multiset of leaves is the multiset of non-aggregates in the tree |
| `AggregateExceptions.LevelOrderIsFlat` | modules/core/include/System/AggregateException.hpp:293-339 | no aggregate is left among the leaves |
| `AggregateExceptions.FlattenIsIdempotent` | modules/core/include/System/AggregateException.hpp:325-338 | flattening a flattened aggregate, plain or derived, changes nothing |
| `AggregateExceptions.MessageNeverAccretes` | modules/core/include/System/AggregateException.hpp:25-47 | any number of flattenings equals one, with the exact length of its message |
| `AggregateExceptions.Handle` | modules/core/include/System/AggregateException.hpp:358-370 | for a predicate with a state: its first exception leaves at once; otherwise returns when every exception is handled, else rethrows the rejected ones in order under the composed message; an empty predicate is rejected first |
| `AggregateExceptions.HandlePartitions` | modules/core/include/System/AggregateException.hpp:358-370 | the exceptions a predicate rejects and those it does not are together all inner exceptions, each as often |
| `AggregateExceptions.RejectedAreUnhandled` | modules/core/include/System/AggregateException.hpp:358-370 | an exception is rethrown exactly if the predicate left it unhandled |
| `AggregateExceptions.HandleAccretes` | modules/core/include/System/AggregateException.hpp:364-369 | a `Handle` that rejects everything grows the message by the composed text each time |
| `AggregateExceptions.BaseExceptionKeepsLeaves` | modules/core/include/System/AggregateException.hpp:247-257 | the base exception is the only leaf, or a plain aggregate with the same flattened leaves and not exactly one inner exception |
| `ModuleBoundaries.CycleSearch.Visit` | scripts/validate_module_boundaries.py:331-346 | the recursive visit reports a genuine simple cycle, or finishes the module, restores the stack and keeps what was finished |
| `ModuleBoundaries.CycleSearch.Follow` | scripts/validate_module_boundaries.py:334-343 | one dependency: skipped if undeclared, visited if new, reported as a cycle if on the stack; otherwise finished afterwards |
| `ModuleBoundaries.Push` | scripts/validate_module_boundaries.py:332-333 | entering a module keeps the colour and stack invariant |
| `ModuleBoundaries.Pop` | scripts/validate_module_boundaries.py:344-345 | leaving a module all of whose dependencies are finished keeps the invariant and the finishing order |
| `ModuleBoundaries.BackEdge` | scripts/validate_module_boundaries.py:341-343 | a dependency on the stack closes a cycle without repetitions |
| `ModuleBoundaries.FindCycle` | scripts/validate_module_boundaries.py:327-353 | None exactly when the graph over declared modules is acyclic, else a closed chain of edges whose modules are distinct |
| `ModuleBoundaries.FinishedGraphIsAcyclic` | scripts/validate_module_boundaries.py:348-353 | a graph all of whose modules are finished has no cycle |
| `ModuleBoundaries.PublicClosure` | scripts/validate_module_boundaries.py:594-603 | the worklist terminates and returns exactly what is reached in one or more steps |
| `ModuleBoundaries.ClosureIsLeast` | scripts/validate_module_boundaries.py:594-603 | the result is the least closed set that holds the direct dependencies |
| `ModuleBoundaries.Module.ReadingsAgree` | scripts/validate_module_boundaries.py:221-228 | the two readings of public dependencies agree exactly when an explicit declaration covers the legacy one, hence on every module that does not mix them |
| `ModuleBoundaries.ClosureAgreesWithResolve` | scripts/validate_module_boundaries.py:585-603 | over modules that the parser accepts, a component and its closure are exactly the components the other checker reaches from it, if and only if names of the closure that are not modules add nothing there |
| `ModuleBoundaries.ClosureIsReached` | scripts/validate_module_boundaries.py:585-603 | the other checker reaches all of the closure, in every case |
| `ModuleBoundaries.AgreeWithoutOtherKinds` | scripts/validate_module_boundaries.py:585-603 | the two agree wherever the closure names no alias or umbrella; names that neither knows do no harm |
| `ModuleBoundaries.UmbrellaIsNotFollowed` | scripts/validate_module_boundaries.py:585-603 | a dependency on the umbrella "All", accepted by the parser, makes the two differ |
| `ConsumerFixtures.Resolver.Resolve` | scripts/check_negative_consumer_fixtures.py:544-560 | terminates on every graph; a nested call returns reachable directories only and all that are reachable off the current path, a top-level call exactly the reachable ones, and the memo stays complete |
| `ConsumerFixtures.Merge` | scripts/check_negative_consumer_fixtures.py:554-556 | appends the missing items and no duplicate |
| `ConsumerFixtures.LeaveForGood` | scripts/check_negative_consumer_fixtures.py:547-548 | what is reachable without the path is reachable from a dependency without the path and the component itself, so returning nothing on a cycle loses nothing |
| `ConsumerFixtures.ComponentIncludeDirectories` | scripts/check_negative_consumer_fixtures.py:542-564 | for every order of the calls, every component is mapped to exactly the directories it reaches, without duplicates |
| `ConsumerFixtures.ResolveMatchesPublicClosure` | scripts/check_negative_consumer_fixtures.py:526-564 | the directories include those of the component and of its public closure in the other checker, and are no others if and only if names that are not modules add none |
| `ConsumerFixtures.UmbrellaAddsDirectories` | scripts/check_negative_consumer_fixtures.py:526-564 | a module's directory that is resolved through "All" and is not one of the public closure |
| `PortableFromChars.PortableFromCharsFloat` | modules/core/include/SharpRuntime/PortableFromChars.hpp:103-198 | never leaves the range; reports a failed allocation exactly for a long visible part that is not rejected up front; otherwise consumes exactly what `std::from_chars` with the general format does, and reports and writes the same exactly if the C library is faithful on underflow |
| `PortableFromChars.SamePrefixes` | modules/core/include/SharpRuntime/PortableFromChars.hpp:80-94 | on a range not rejected up front, the C parser on the visible part accepts exactly the prefixes the standard grammar accepts on the whole |
| `PortableFromChars.NothingToParse` | modules/core/include/SharpRuntime/PortableFromChars.hpp:105-108 | a range that is empty or starts with a space or plus has no prefix of the grammar |
| `PortableFromChars.ParsedAsReference` | modules/core/include/SharpRuntime/PortableFromChars.hpp:184-198 | the consumed length is that of the reference, and value and error class are exactly if the library is faithful |
| `PortableFromChars.JudgedAsClassified` | modules/core/include/SharpRuntime/PortableFromChars.hpp:184-198 | range errors are judged as the reference judges them, subnormal results included, exactly if the library returns subnormals and, for what is too small, a zero with errno set |
| `PortableFromChars.SilentUnderflowIsMissed` | modules/core/include/SharpRuntime/PortableFromChars.hpp:184-198 | a library that sets no errno makes "1e-400" a zero, where the reference reports it out of range |
| `PortableFromChars.HexadecimalStopsAtX` | modules/core/include/SharpRuntime/PortableFromChars.hpp:116-129 | on a hexadecimal literal the reference stops behind the zero, where the copy is cut |
| `Nesting.BalancedMeansNested` | scripts/check_version_seam_odr.py:165-189 | counting depth characterises properly nested marks |
| `Nesting.PairIsUnique` | scripts/check_version_seam_odr.py:165-189 | a bracket has at most one partner |
| `SeamScanner.Matching` | scripts/check_version_seam_odr.py:165-175 | returns the first token that brings the count back to zero, or -1 if none does |
| `SeamScanner.ReverseMatching` | scripts/check_version_seam_odr.py:178-189 | returns the last token that does so backwards, or -1 |
| `SeamScanner.MatchingsAreInverse` | scripts/check_version_seam_odr.py:165-189 | from an opener the forward search finds e exactly when the backward search from the closer at e finds it, exactly when the two enclose balanced tokens; -1 exactly when there is no partner |
| `SeamScanner.IsClassTemplateHead` | scripts/check_version_seam_odr.py:192-199 | true exactly when the keyword follows a ">" whose partner follows "template" |
| `SourceText.CutIsUnique` | scripts/check_version_seam_odr.py:115-147 | every text has exactly one legal cut into code characters, comments and literals, unterminated ones included, and the tool makes it |
| `SourceText.SkipLiteral` | scripts/check_version_seam_odr.py:133-142 | the inner loop stops behind the closing quote, or at the end of the text |
| `SourceText.NextPiece` | scripts/check_version_seam_odr.py:120-146 | the body of the loop stops behind the piece at its position and yields the character that stands for it |
| `SourceText.StripCommentsAndLiterals` | scripts/check_version_seam_odr.py:115-147 | terminates on every text and writes the image of its cut, one character per piece |
| `SourceText.StripIsImage` | scripts/check_version_seam_odr.py:127-147 | the result is the image of any legal cut: code as it is, a space for a comment, a zero for a literal |
| `SourceText.BodiesDoNotMatter` | scripts/check_version_seam_odr.py:115-117 | in any text, one comment or literal can be replaced by another in the same place without changing the result, so neither can perturb a comparison |
| `SourceText.StripBehind` | scripts/check_version_seam_odr.py:115-147 | from a position between pieces on, the result does not depend on what stands in front |
| `SourceText.StripIsClean` | scripts/check_version_seam_odr.py:115-147 | the result holds no quote and no start of a comment |
| `SourceText.StripIsIdempotent` | scripts/check_version_seam_odr.py:115-147 | stripping twice is stripping once |
| `SiteRegions.FindTerminator` | scripts/check_negative_consumer_fixtures.py:304-317 | finds the first #else, #elif or #endif of the guard's own conditional, or -1 when there is none |
| `SiteRegions.FindSiteRegions` | scripts/check_negative_consumer_fixtures.py:295-331 | a region for exactly the numbers with a closed guard, of the first such guard; exactly the unclosed and the repeated guards are reported, each once and in the order of the lines |
| `SiteRegions.FirstClosed` | scripts/check_negative_consumer_fixtures.py:318-330 | the first guard with a number that has a terminator: every earlier one has none |
| `SiteRegions.InnerEndsFirst` | scripts/check_negative_consumer_fixtures.py:304-317 | a guard inside a region is terminated before it |
| `SiteRegions.RegionsNestOrAreDisjoint` | scripts/check_negative_consumer_fixtures.py:330-331 | any two regions are nested or disjoint |
| `CharUtf8.BitwiseIsArithmetic` | modules/core/include/System/Char.hpp:388-397 | every shift, mask and or of encoder and decoder, in numbers: quotients, remainders and sums of disjoint parts |
| `CharUtf8.ToString` | modules/core/include/System/Char.hpp:385-399 | the shifted and masked bytes of a code unit are its base-64 digits behind the markers |
| `CharUtf8.ConvertFromUtf32` | modules/core/include/System/Char.hpp:461-474 | accepts exactly the Unicode scalar values, and writes the base-64 digits behind the markers |
| `CharUtf8.DecodeUtf8` | modules/core/include/System/detail/Utf8Text.hpp:62-88 | the loop computes the shifted sum of lead and continuation bits and rejects malformed, overlong, surrogate and too large sequences |
| `CharUtf8.DecodeEncoded` | modules/core/include/System/detail/Utf8Text.hpp:62-88 | an encoded scalar value is recovered whatever follows it |
| `CharUtf8.EncodeDecoded` | modules/core/include/System/detail/Utf8Text.hpp:43-61 | whatever is accepted is the shortest encoding of the reported scalar value |
| `CharUtf8.Utf8RoundTrip` | modules/core/include/System/Char.hpp:461-474 | texts and well-formed byte strings correspond one to one: encoding and decoding are inverse, both ways |
| `CharUtf8.Utf8IsInjective` | modules/core/include/System/Char.hpp:461-474 | a byte string encodes at most one text |
| `CharUtf8.EncodeDiverges` | modules/core/include/System/Char.hpp:461-474 | encodings of different scalar values differ, in their order, before either ends |
| `CharUtf8.Utf8KeepsOrder` | modules/core/include/System/Char.hpp:461-474 | byte-wise order of encoded texts is scalar order of the texts |
| `CharUtf8.ParseInvertsToString` | modules/core/include/System/Char.hpp:347-399 | `Parse` returns c exactly for the `ToString` of a c that is not a surrogate |
| `CharUtf8.SurrogateIsNotParsed` | modules/core/include/System/Char.hpp:347-399 | the three bytes written for a surrogate are rejected as malformed |
| `CharUtf8.SurrogatePairsAreSupplementary` | modules/core/include/System/Char.hpp:482-492 | surrogate pairs and supplementary code points correspond one to one |
| `PrefixCodes.DecodesBack` | modules/core/include/System/Char.hpp:461-474 | a decoder that recovers each symbol recovers every text |
| `PrefixCodes.EncodesBack` | modules/core/include/System/Char.hpp:461-474 | a decoder that accepts only encodings accepts only encoded texts |
| `PrefixCodes.KeepsOrder` | modules/core/include/System/Char.hpp:461-474 | order is carried from symbols to texts when encodings diverge in order |
| `UnicodeTrie.LookupOnWords` | modules/core/include/System/Globalization/detail/UnicodeCategoryLookup.hpp:30-41 | the lookup with its shifts, masks and ors stays inside and selects a value exactly if the entry and the cell at the 11, 5 and 4 bits of the code point are inside |
| `UnicodeTrie.WordOnBytes` | modules/core/include/System/Globalization/detail/UnicodeCategoryLookup.hpp:36-38 | the or of a byte and a shifted byte is their little-endian sum |
| `UnicodeTrie.SuffixOnWords` | modules/core/include/System/Globalization/detail/UnicodeCategoryLookup.hpp:33 | the masked shift is twice the entry number |
| `UnicodeTrie.SafeMeansBlocksInside` | scripts/gen_unicode_tables.py:213-248 | all code points are safe exactly when every selected block is inside |
| `UnicodeTrie.SelectBlock` | scripts/gen_unicode_tables.py:221-229 | collects exactly the entries of one level 1 value, or stops at one outside level 2 |
| `UnicodeTrie.ValidateTrie` | scripts/gen_unicode_tables.py:213-248 | reports nothing exactly when level 1 has 2176 entries and the source's lookup of every code point stays inside and selects a value; a reported problem is real |
| `UnicodeTrie.CheckCells` | scripts/gen_unicode_tables.py:231-240 | passes exactly when all cells of selected entries and their values are inside |
| `Int32.RangeGuardIsExact` | modules/core/include/System/Array.hpp:686-691 | the unsigned guard accepts exactly the ranges, for all signed arguments |
| `Int32.NegativeSizeGuard` | modules/core/include/System/Array.hpp:686-691 | what the guard makes of every pair of arguments when the converted size is negative |
| `Int32.GuardFitsExactlySmallSizes` | modules/core/include/System/Array.hpp:686-691 | with the size converted first, it is exact precisely for sizes up to the signed maximum |
| `Int32.BackwardGuardIsExact` | modules/core/include/System/Array.hpp:706-718 | for every signed size: accepts exactly the windows that end at an element, and for size 0 a start of -1 or 0 with no elements; a negative size passes for the signed maximum |
| `Int32.BackwardGuardFitsExactlySmallSizes` | modules/core/include/System/Array.hpp:706-718 | with the size converted first, it is exact precisely for sizes up to the signed maximum |
| `Int32.AcceptedStartIsElement` | modules/core/include/System/Array.hpp:624-632 | for arrays of every size: after the guard has accepted it, a start without a count is followed backwards over elements only, exactly unless the array is empty and the start is 0 |
| `Int32.DecodeGuardIsBlockGuard` | modules/core/include/System/BitConverter.hpp:293-301 | the decoder's guard accepts exactly the offsets at which a block copy of its width is accepted precisely for byte lengths that stay positive when converted, and exactly the valid ones precisely for those the signed type holds |
| `Int32.BlockGuardFitsExactly` | modules/core/include/System/Buffer.hpp:289-297 | for which byte lengths the guard with the unsigned sum is exact |
| `Int32.ByteIndexGuardFitsExactly` | modules/core/include/System/Buffer.hpp:300-303 | for which byte lengths the index guard is exact |
| `Arrays.CopyOverlapAware` | modules/core/include/System/detail/OverlapCopy.hpp:44-63 | the destination range becomes the old source range and nothing else changes, however the ranges overlap |
| `Arrays.CopyForward` | modules/core/include/System/detail/OverlapCopy.hpp:57-61 | from the front, unless the destination starts inside the source |
| `Arrays.CopyBackward` | modules/core/include/System/detail/OverlapCopy.hpp:53-56 | from the back, unless the source starts inside the destination |
| `Arrays.Copy` | modules/core/include/System/Array.hpp:145-154 | for arrays of every size: which argument is blamed and which pairs are accepted, exactly; between sizes that are not negative, two ranges; then copies as if through a temporary, otherwise changes nothing |
| `Arrays.Search` | modules/core/include/System/Array.hpp:373-387 | terminates without overflow at an equal element or at the complement of the insertion point |
| `Arrays.BinarySearch` | modules/core/include/System/Array.hpp:373-387 | for arrays of every size: what is rejected, exactly, and the range before the comparison; then an equal element, or the insertion point of a partitioned range |
| `Arrays.SortedIsPartitioned` | modules/core/include/System/Array.hpp:340-387 | under a total preorder, sorted means partitioned by every value |
| `Arrays.InsertionKeepsSorted` | modules/core/include/System/Array.hpp:340-387 | inserting at the complement keeps the range sorted |
| `ArraySegments.Create` | modules/core/include/System/ArraySegment.hpp:99-111 | for arrays of every size: accepts exactly the windows of the size the guard sees, and which pairs when that is negative |
| `ArraySegments.SliceIsExact` | modules/core/include/System/ArraySegment.hpp:236-263 | a slice succeeds exactly inside the window and is that window further on |
| `ArraySegments.ChainIsOneSlice` | modules/core/include/System/ArraySegment.hpp:236-263 | a chain of slices is one slice at the summed offset, inside the original window |
| `ArraySegments.CopyToArray` | modules/core/include/System/ArraySegment.hpp:320-339 | rejects a default segment, a negative index and a short destination in this order, else pastes the window |
| `ArraySegments.CopyTo` | modules/core/include/System/ArraySegment.hpp:350-359 | also over one array, the destination's first elements become the source's old ones and nothing else changes |
| `ByteMemory.EncodedIsDecoded` | modules/core/include/System/BitConverter.hpp:65-84 | an integer whose bytes are copied to any offset is decoded from there |
| `ByteMemory.DecodedIsEncoded` | modules/core/include/System/BitConverter.hpp:129-140 | the bytes an integer is decoded from are its encoding |
| `ByteMemory.ToSigned` | modules/core/include/System/BitConverter.hpp:174-185 | for a vector of every size: yields a value exactly where all its bytes are there, namely the integer whose encoding they are; which error names the start, which the missing bytes |
| `ByteMemory.BlockCopy` | modules/core/include/System/Buffer.hpp:98-136 | for storage of every size: rejects negative arguments, then ranges outside the low 32 bits of a length, else moves the bytes as if through a temporary |
| `ByteMemory.BlockCopyOnElements` | modules/core/include/System/Buffer.hpp:127-136 | replaces exactly the covered base-256 digits of the elements |
| `ByteMemory.GetByte` | modules/core/include/System/Buffer.hpp:178-183 | for storage of every size: reads the byte at an index below the low 32 bits of the length, and rejects the others; for lengths up to 2^31 there is no third outcome |
| `ByteMemory.DigitIsByte` | modules/core/include/System/Buffer.hpp:178-183 | a byte of the storage is a base-256 digit of its element |
| `ByteMemory.SetByte` | modules/core/include/System/Buffer.hpp:198-203 | likewise writes that byte and no other, and nothing at an index it rejects |
| `ByteMemory.SetByteOnElement` | modules/core/include/System/Buffer.hpp:198-203 | changes its element by the difference at the covered digit |
| `ByteMemory.SetByteElsewhere` | modules/core/include/System/Buffer.hpp:198-203 | leaves every other element alone |
| `IndexInstall.ToolKeepsInv` | scripts/index_dotnet_types.py:84-142 | every step of the tool, failing or not, keeps the invariant of the protocol |
| `IndexInstall.RunKeepsInv` | scripts/index_dotnet_types.py:84-142 | so does every run, with another process acting on the output path at any time |
| `IndexInstall.EveryRunEndsWell` | scripts/index_dotnet_types.py:84-142 | at most one install, of the complete index, and never over anything without `--replace`; what a return and a failure leave behind, exactly |
| `IndexInstall.OutputChangesOnlyByInstall` | scripts/index_dotnet_types.py:124-136 | the tool's only effect on the output path is that install |
| `IndexInstall.FailureLeavesOutputAlone` | scripts/index_dotnet_types.py:137-141 | a failure before the install leaves the path to others |
| `IndexInstall.SomeRunReturns` | scripts/index_dotnet_types.py:84-142 | from every output path that passes the checks some run returns, with the complete index there |
| `IndexInstall.RaisesInstalledWithoutReplace` | scripts/index_dotnet_types.py:124-141 | some run raises although the index is installed, exactly without `--replace` |
| `IndexInstall.DescriptorCanFail` | scripts/index_dotnet_types.py:84-90 | with every configuration some run leaves the temporary file behind, when closing its descriptor fails |
| `IndexInstall.CleanupCanFail` | scripts/index_dotnet_types.py:137-141 | and some run does so when removing it fails after another failure |

## Left out

- AggregateExceptions.Construct: fields of Exception other than the message and the inner exception are not modelled.
- AggregateExceptions.Message: a derived class that overrides its message is not modelled; `derived` stands for the dynamic type only.
- ModuleBoundaries.FindCycle: which of several cycles is reported depends on the sorted order and is not stated.
- ConsumerFixtures.ComponentIncludeDirectories: the order of the directories in a result is not stated.
- PortableFromChars.PortableFromCharsFloat: values, rounding and locale handling are not modelled, and an overflow is taken to give an infinity with ERANGE, as section 7.22.1.3 of ISO C11 has it for default rounding.
- SiteRegions.FindSiteRegions: the wording of the reported problems is not stated.
- ArraySegments.CopyTo: the backing array has a fixed size; a vector that is resized behind a segment's back is not modelled.
- ArraySegments.SliceIsExact: for segments that are windows; what the constructor makes of a size that turns negative is not followed further.
- ByteMemory.GetBytes: hosts that are not little-endian, and floating-point and 128-bit conversions.
- ByteMemory.BlockCopy: the overloads on raw pointers and `MemoryCopy`, which cannot check an upper bound.
- IndexInstall.EveryRunEndsWell: interrupts that are not an Exception, and other processes acting on the temporary file or the sources.
- The other search members of Array.hpp, its fill and reverse members, the other members of Char.hpp, markers and directives of the fixtures, discovery of seams, allow-lists and include checks: single loops or text handling.
- The content digests and the generation of the Unicode tables; the number of value tables of equal length is one parameter.
- Regular expressions, `shlex`, SQLite, the compiler runs and all reports.
