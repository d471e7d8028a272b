/**
 PortableFromChars.hpp: parsing a floating-point prefix the way `std::from_chars` does, by means of
 the C library's `strtod`, which has a wider grammar and no end pointer.

 Values are abstract: what a numeral is worth, and whether it overflows, is a parameter.  So is what
 ISO C11 leaves open about a result that underflows: the value returned, and whether errno is set.
 */
module PortableFromChars {
  import opened Common

  // ---------------------------------------------------------------------------------------------
  // Grammars
  // ---------------------------------------------------------------------------------------------

  predicate IsSpace(c: char) {
    c == ' ' || c == '\t' || c == '\n' || c == '\r' || c == 11 as char || c == 12 as char
  }

  predicate IsDigit(c: char) {
    '0' <= c <= '9'
  }

  predicate IsHexDigit(c: char) {
    IsDigit(c) || 'a' <= c <= 'f' || 'A' <= c <= 'F'
  }

  predicate IsX(c: char) {
    c == 'x' || c == 'X'
  }

  predicate IsDigitOf(c: char, hex: bool) {
    if hex then IsHexDigit(c) else IsDigit(c)
  }

  /** A nonempty digit sequence that may hold one point. */
  predicate IsMantissa(s: string, hex: bool) {
    && |s| > 0
    && (|s| == 1 ==> s[0] != '.')
    && (forall i :: 0 <= i < |s| ==> IsDigitOf(s[i], hex) || s[i] == '.')
    && (forall i, j :: 0 <= i < j < |s| ==> s[i] != '.' || s[j] != '.')
  }

  predicate AreDigitsFrom(s: string, start: nat) {
    start < |s| && forall i :: start <= i < |s| ==> IsDigit(s[i])
  }

  /** `e` (decimal) or `p` (hexadecimal), an optional sign, a nonempty decimal digit sequence. */
  predicate IsExponent(s: string, hex: bool) {
    && |s| > 1
    && (if hex then s[0] == 'p' || s[0] == 'P' else s[0] == 'e' || s[0] == 'E')
    && (AreDigitsFrom(s, 1) || ((s[1] == '+' || s[1] == '-') && AreDigitsFrom(s, 2)))
  }

  predicate IsNumeral(s: string, hex: bool) {
    exists k :: 0 < k <= |s| && IsMantissa(s[..k], hex) && (k == |s| || IsExponent(s[k..], hex))
  }

  predicate IsHexadecimal(s: string) {
    |s| > 2 && s[0] == '0' && IsX(s[1]) && IsNumeral(s[2..], true)
  }

  function Lower(c: char): char {
    if 'A' <= c <= 'Z' then c - 'A' + 'a' else c
  }

  predicate IsWord(s: string, word: string) {
    |s| == |word| && forall i :: 0 <= i < |s| ==> Lower(s[i]) == word[i]
  }

  predicate IsNameChar(c: char) {
    IsDigit(c) || c == '_' || 'a' <= Lower(c) <= 'z'
  }

  predicate IsInfinity(s: string) {
    IsWord(s, "inf") || IsWord(s, "infinity")
  }

  predicate IsNan(s: string) {
    && |s| >= 3 && IsWord(s[..3], "nan")
    && (|s| == 3 || (|s| >= 5 && s[3] == '(' && s[|s| - 1] == ')' && forall i :: 4 <= i < |s| - 1 ==> IsNameChar(s[i])))
  }

  /** Subject sequence of `strtod`, section 7.22.1.3 of ISO C11. */
  predicate IsStrtodSubject(s: string) {
    |s| > 0 &&
    var t := if s[0] == '+' || s[0] == '-' then s[1..] else s;
    IsNumeral(t, false) || IsHexadecimal(t) || IsInfinity(t) || IsNan(t)
  }

  /** The pattern of `std::from_chars` with the general format, section [charconv.from.chars] of the
      C++ standard: no plus sign in front and no hexadecimal form. */
  predicate IsFromCharsSubject(s: string) {
    |s| > 0 &&
    var t := if s[0] == '-' then s[1..] else s;
    IsNumeral(t, false) || IsInfinity(t) || IsNan(t)
  }

  /** Length of the longest prefix among the first `n` characters that has the form; 0 if none. */
  function LongestPrefix(s: string, n: nat, form: string -> bool): (r: nat)
    requires n <= |s|
    ensures r <= n
    ensures r > 0 ==> form(s[..r])
    ensures forall k :: r < k <= n ==> !form(s[..k])
  {
    if n == 0 then 0
    else if form(s[..n]) then n
    else LongestPrefix(s, n - 1, form)
  }

  // ---------------------------------------------------------------------------------------------
  // Values and results
  // ---------------------------------------------------------------------------------------------

  /** A floating-point value, as far as the code looks at it. */
  datatype Float = Zero(negative: bool) | NonZero(bits: nat) | Infinite(negative: bool) | NotANumber(bits: nat)

  predicate IsFinite(v: Float) {
    v.Zero? || v.NonZero?
  }

  type FiniteFloat = v: Float | IsFinite(v) witness Zero(false)

  /** What a subject sequence converts to: a value to be represented exactly enough, a subnormal value,
      or one whose magnitude is too large, or too small to be told from zero. */
  datatype Conversion =
    | Exact(value: Float)
    | Subnormal(bits: nat)
    | Overflow(negative: bool)
    | Underflow(negative: bool)

  datatype ErrorCode = Fine | InvalidArgument | ResultOutOfRange | NotEnoughMemory

  /** `{ptr, ec}` and what was written to `value`, if anything was. */
  datatype Result = Result(end: nat, ec: ErrorCode, written: Option<Float>)

  /** `std::from_chars` over a character range: the reference. */
  function FromChars(range: string, convert: string -> Conversion): (r: Result)
    ensures r.end <= |range|
  {
    var n := LongestPrefix(range, |range|, IsFromCharsSubject);
    if n == 0 then Result(0, InvalidArgument, None) else Classified(convert(range[..n]), n)
  }

  /** Only what cannot be represented is out of range; a subnormal can. */
  function Classified(c: Conversion, end: nat): (r: Result)
    ensures r.end == end
  {
    match c
    case Exact(value) => Result(end, Fine, Some(value))
    case Subnormal(bits) => Result(end, Fine, Some(NonZero(bits)))
    case _ => Result(end, ResultOutOfRange, None)
  }

  function SkipSpace(s: string): (n: nat)
    ensures n <= |s|
  {
    if s == [] || !IsSpace(s[0]) then 0 else 1 + SkipSpace(s[1..])
  }

  /** What section 7.22.1.3 of ISO C11 leaves to a library when a result underflows, subnormal results
      included: some finite value, and whether errno becomes ERANGE. */
  datatype Library = Library(tiny: Conversion -> FiniteFloat, reports: Conversion -> bool)

  datatype Parsed = Parsed(value: Float, end: nat, erange: bool)

  /** `strtod` on a NUL-terminated buffer. */
  function Strtod(library: Library, buffer: string, convert: string -> Conversion): Parsed {
    var text := CText(buffer);
    ParseAt(library, text[SkipSpace(text)..], SkipSpace(text), convert)
  }

  /** What it does behind the leading space. */
  function ParseAt(library: Library, text: string, start: nat, convert: string -> Conversion): Parsed {
    var n := LongestPrefix(text, |text|, IsStrtodSubject);
    if n == 0 then Parsed(Zero(false), 0, false) else FromConversion(library, convert(text[..n]), start + n)
  }

  /** An overflow gives an infinity and sets errno; an underflow is up to the library. */
  function FromConversion(library: Library, c: Conversion, end: nat): Parsed {
    match c
    case Exact(value) => Parsed(value, end, false)
    case Overflow(negative) => Parsed(Infinite(negative), end, true)
    case _ => Parsed(library.tiny(c), end, library.reports(c))
  }

  /** The library returns a subnormal result as it is, and for what is too small to be told from zero
      it returns a zero and sets errno. */
  predicate IsFaithful(library: Library, c: Conversion) {
    match c
    case Subnormal(bits) => library.tiny(c) == NonZero(bits)
    case Underflow(_) => library.tiny(c).Zero? && library.reports(c)
    case _ => true
  }

  /** The library is faithful on the numeral at the start of the range, if there is one. */
  predicate IsFaithfulOn(library: Library, range: string, convert: string -> Conversion) {
    var n := LongestPrefix(range, |range|, IsFromCharsSubject);
    n == 0 || IsFaithful(library, convert(range[..n]))
  }

  // ---------------------------------------------------------------------------------------------
  // The portable function
  // ---------------------------------------------------------------------------------------------

  const STACK_CAPACITY := 512

  /** Where the first digit is if there is no sign but a minus. */
  function DigitStart(s: string): nat {
    if |s| > 0 && s[0] == '-' then 1 else 0
  }

  /** The number of characters the C parser gets to see: all, or up to the zero of a hexadecimal
      prefix. */
  function VisibleLength(s: string): (n: nat)
    ensures n <= |s|
  {
    var d := DigitStart(s);
    if |s| > d + 1 && s[d] == '0' && IsX(s[d + 1]) then d + 1 else |s|
  }

  method CountVisible(memory: array<char>, first: nat, last: nat) returns (length: nat)
    requires first <= last <= memory.Length
    ensures length == VisibleLength(memory[first..last])
  {
    ghost var range := memory[first..last];
    assert forall k :: 0 <= k < |range| ==> range[k] == memory[first + k];
    length := last - first;
    var digitStart := if length > 0 && memory[first] == '-' then 1 else 0;
    assert digitStart == DigitStart(range);
    if length > digitStart + 1 && memory[first + digitStart] == '0' && IsX(memory[first + digitStart + 1]) {
      length := digitStart + 1;
    }
  }

  /** The copy that the C parser reads: on the stack if it fits there. */
  method CopyTerminated(memory: array<char>, first: nat, length: nat) returns (buffer: array<char>)
    requires first + length <= memory.Length
    ensures memory[first..first + length] + "\0" <= buffer[..]
  {
    buffer := new char[if length >= STACK_CAPACITY then length + 1 else STACK_CAPACITY];
    for i := 0 to length
      invariant forall k :: 0 <= k < i ==> buffer[k] == memory[first + k]
    {
      buffer[i] := memory[first + i];
    }
    buffer[length] := '\0';
  }

  /** `PortableFromCharsFloat` on `memory[first..last]`; `heapAvailable` is the outcome of the
      nothrow allocation, made only for a long copy.  Unless that fails, it consumes what
      `std::from_chars` consumes, and its whole result is that of `std::from_chars` exactly when the
      library is faithful. */
  method PortableFromCharsFloat(memory: array<char>, first: nat, last: nat, convert: string -> Conversion, library: Library, heapAvailable: bool)
    returns (ptr: nat, ec: ErrorCode, written: Option<Float>)
    requires first <= last <= memory.Length
    ensures first <= ptr <= last
    ensures ec == NotEnoughMemory <==>
              && !heapAvailable && VisibleLength(memory[first..last]) >= STACK_CAPACITY
              && memory[first] != '+' && !IsSpace(memory[first])
    ensures ec == NotEnoughMemory ==> ptr == first && written == None
    ensures ec != NotEnoughMemory ==> ptr - first == FromChars(memory[first..last], convert).end
    ensures ec != NotEnoughMemory ==>
              (Result(ptr - first, ec, written) == FromChars(memory[first..last], convert) <==>
               IsFaithfulOn(library, memory[first..last], convert))
  {
    ghost var range := memory[first..last];
    if first == last || memory[first] == '+' || IsSpace(memory[first]) {
      NothingToParse(range);
      return first, InvalidArgument, None;
    }
    var length := CountVisible(memory, first, last);
    if length >= STACK_CAPACITY && !heapAvailable {
      return first, NotEnoughMemory, None;
    }
    var buffer := CopyTerminated(memory, first, length);
    assert range[..length] == memory[first..first + length];
    ParsedAsReference(library, range, buffer[..], convert);
    var parsed := Strtod(library, buffer[..], convert);
    if parsed.end == 0 {
      return first, InvalidArgument, None;
    }
    if parsed.erange && (parsed.value.Zero? || !IsFinite(parsed.value)) {
      return first + parsed.end, ResultOutOfRange, None;
    }
    return first + parsed.end, Fine, Some(parsed.value);
  }

  /** What the portable function makes of the outcome of the C parser. */
  function Judged(parsed: Parsed): Result {
    if parsed.end == 0 then Result(0, InvalidArgument, None)
    else if parsed.erange && (parsed.value.Zero? || !IsFinite(parsed.value)) then Result(parsed.end, ResultOutOfRange, None)
    else Result(parsed.end, Fine, Some(parsed.value))
  }

  /** The rebased end is that of the reference, and the whole result is exactly if the library is
      faithful. */
  lemma ParsedAsReference(library: Library, range: string, buffer: string, convert: string -> Conversion)
    requires range != [] && range[0] != '+' && !IsSpace(range[0])
    requires range[..VisibleLength(range)] + "\0" <= buffer
    ensures var judged := Judged(Strtod(library, buffer, convert));
            && judged.end == FromChars(range, convert).end
            && (judged == FromChars(range, convert) <==> IsFaithfulOn(library, range, convert))
  {
    TextOfBuffer(buffer, range[..VisibleLength(range)]);
    SameConsumption(range);
    var text := CText(buffer);
    var n := LongestPrefix(range, |range|, IsFromCharsSubject);
    assert text[0..] == text;
    assert LongestPrefix(text, |text|, IsStrtodSubject) == n && text[..n] == range[..n];
    assert Strtod(library, buffer, convert) == ParseAt(library, text, 0, convert);
    if n > 0 {
      JudgedAsClassified(library, convert(range[..n]), n);
    }
  }

  /** Out of range are, for the portable function as for the reference, an overflow and an underflow to
      zero, but not a subnormal: exactly if the library is faithful on the conversion. */
  lemma JudgedAsClassified(library: Library, c: Conversion, end: nat)
    requires end > 0
    ensures Judged(FromConversion(library, c, end)) == Classified(c, end) <==> IsFaithful(library, c)
    ensures Judged(FromConversion(library, c, end)).end == end
  {
  }

  /** What follows the terminator in the buffer plays no role. */
  lemma {:induction false} TextOfBuffer(buffer: string, copy: string)
    requires copy + "\0" <= buffer
    ensures CText(buffer) == CText(copy)
  {
    if copy != [] && copy[0] != '\0' {
      TextOfBuffer(buffer[1..], copy[1..]);
    }
  }

  /** A range that is rejected up front has no prefix of the form. */
  lemma NothingToParse(range: string)
    requires range == [] || range[0] == '+' || IsSpace(range[0])
    ensures LongestPrefix(range, |range|, IsFromCharsSubject) == 0
  {
    var n := LongestPrefix(range, |range|, IsFromCharsSubject);
    if n > 0 {
      FirstCharacter(range[..n]);
    }
  }

  lemma FirstCharacter(s: string)
    requires IsFromCharsSubject(s)
    ensures s[0] != '+' && !IsSpace(s[0])
  {
    var t := if s[0] == '-' then s[1..] else s;
    if IsNumeral(t, false) {
      NumeralStart(t, false);
    }
  }

  /** A numeral starts with a digit or the point. */
  lemma NumeralStart(s: string, hex: bool)
    requires IsNumeral(s, hex)
    ensures |s| > 0 && (s[0] == '.' || IsDigitOf(s[0], hex))
  {
    var k :| 0 < k <= |s| && IsMantissa(s[..k], hex) && (k == |s| || IsExponent(s[k..], hex));
    assert s[..k][0] == s[0];
  }

  /** Characters a decimal numeral can hold. */
  predicate IsDecimalChar(c: char) {
    IsDigit(c) || c == '.' || c == 'e' || c == 'E' || c == '+' || c == '-'
  }

  lemma DecimalChar(s: string, i: nat)
    requires IsNumeral(s, false) && i < |s|
    ensures IsDecimalChar(s[i])
  {
    var k :| 0 < k <= |s| && IsMantissa(s[..k], false) && (k == |s| || IsExponent(s[k..], false));
    if i < k {
      assert s[..k][i] == s[i];
    } else {
      assert s[k..][i - k] == s[i];
    }
  }

  /** No NUL, and no hexadecimal prefix. */
  predicate IsPlain(t: string) {
    && (forall i :: 0 <= i < |t| ==> t[i] != '\0')
    && !(|t| > 1 && t[0] == '0' && IsX(t[1]))
  }

  lemma NumeralIsPlain(t: string)
    requires IsNumeral(t, false)
    ensures IsPlain(t)
  {
    forall i | 0 <= i < |t|
      ensures IsDecimalChar(t[i])
    {
      DecimalChar(t, i);
    }
  }

  lemma NanIsPlain(t: string)
    requires IsNan(t)
    ensures IsPlain(t)
  {
    assert forall i :: 0 <= i < 3 ==> t[i] == t[..3][i];
  }

  lemma InfinityIsPlain(t: string)
    requires IsInfinity(t)
    ensures IsPlain(t)
  {
  }

  /** A subject of the reference holds no NUL, and no hexadecimal prefix. */
  lemma SubjectCharacters(s: string)
    requires IsFromCharsSubject(s)
    ensures forall i :: 0 <= i < |s| ==> s[i] != '\0'
    ensures var d := DigitStart(s); |s| > d + 1 ==> !(s[d] == '0' && IsX(s[d + 1]))
  {
    var t := if s[0] == '-' then s[1..] else s;
    if IsNumeral(t, false) {
      NumeralIsPlain(t);
    } else if IsNan(t) {
      NanIsPlain(t);
    } else {
      InfinityIsPlain(t);
    }
    assert forall i :: DigitStart(s) <= i < |s| ==> s[i] == t[i - DigitStart(s)];
  }

  predicate HasHexPrefix(s: string) {
    var d := DigitStart(s);
    |s| > d + 1 && s[d] == '0' && IsX(s[d + 1])
  }

  /** Without a plus sign and without a hexadecimal prefix, the two grammars agree. */
  lemma SameForms(s: string)
    requires s != [] && s[0] != '+' && !HasHexPrefix(s)
    ensures IsFromCharsSubject(s) <==> IsStrtodSubject(s)
  {
    var t := if s[0] == '-' then s[1..] else s;
    assert !IsHexadecimal(t);
  }

  /** A prefix that the reference accepts lies in the visible part, in front of any NUL. */
  lemma AcceptedIsVisible(range: string, k: nat)
    requires 0 < k <= |range| && IsFromCharsSubject(range[..k])
    ensures k <= |CText(range[..VisibleLength(range)])|
  {
    var s, text := range[..k], CText(range[..VisibleLength(range)]);
    SubjectCharacters(s);
    var d := DigitStart(range);
    assert DigitStart(s) == d;
    assert k > d + 1 ==> s[d] == range[d] && s[d + 1] == range[d + 1];
    assert k <= VisibleLength(range);
    assert |text| < VisibleLength(range) ==> range[|text|] == '\0';
  }

  /** On a range that is not rejected up front, the C parser on the visible part accepts exactly the
      prefixes that the reference accepts on the whole range. */
  lemma SamePrefixes(range: string, k: nat)
    requires range != [] && range[0] != '+' && 0 < k <= |range|
    ensures var text := CText(range[..VisibleLength(range)]);
            IsFromCharsSubject(range[..k]) <==> k <= |text| && IsStrtodSubject(text[..k])
  {
    var text := CText(range[..VisibleLength(range)]);
    if k <= |text| {
      var s := range[..k];
      assert text[..k] == s;
      assert !HasHexPrefix(s);
      SameForms(s);
    } else if IsFromCharsSubject(range[..k]) {
      AcceptedIsVisible(range, k);
    }
  }

  lemma LongestIs(s: string, n: nat, form: string -> bool, r: nat)
    requires r <= n <= |s| && (r > 0 ==> form(s[..r]))
    requires forall k :: r < k <= n ==> !form(s[..k])
    ensures LongestPrefix(s, n, form) == r
  {
  }

  /** Hence the C parser consumes what the reference consumes, and no leading space. */
  lemma SameConsumption(range: string)
    requires range != [] && range[0] != '+' && !IsSpace(range[0])
    ensures var text := CText(range[..VisibleLength(range)]);
            var n := LongestPrefix(range, |range|, IsFromCharsSubject);
            && SkipSpace(text) == 0
            && LongestPrefix(text, |text|, IsStrtodSubject) == n <= |text|
            && text[..n] == range[..n]
  {
    var text := CText(range[..VisibleLength(range)]);
    var n := LongestPrefix(range, |range|, IsFromCharsSubject);
    if n > 0 {
      SamePrefixes(range, n);
    }
    forall k | n < k <= |text|
      ensures !IsStrtodSubject(text[..k])
    {
      SamePrefixes(range, k);
    }
    LongestIs(text, |text|, IsStrtodSubject, n);
  }

  /** On a hexadecimal literal the reference consumes the leading zero and stops at the 'x'; this is
      what cutting the copy behind that zero reproduces. */
  lemma HexadecimalStopsAtX(range: string, convert: string -> Conversion)
    requires VisibleLength(range) < |range|
    ensures FromChars(range, convert).end == VisibleLength(range) == DigitStart(range) + 1
  {
    var n, d := LongestPrefix(range, |range|, IsFromCharsSubject), DigitStart(range);
    if n > d + 1 {
      SubjectCharacters(range[..n]);
    }
    var zero := range[..d + 1];
    var t := if d == 1 then zero[1..] else zero;
    assert t == ['0'] && t[..1] == t;
    assert IsMantissa(t[..1], false);
    assert IsNumeral(t, false);
  }

  /** A whole range that has the form is consumed whole. */
  lemma WholeRange(range: string)
    requires IsFromCharsSubject(range)
    ensures LongestPrefix(range, |range|, IsFromCharsSubject) == |range|
  {
    assert range[..|range|] == range;
  }

  lemma TinyNumeral()
    ensures IsFromCharsSubject("1e-400")
  {
    var text := "1e-400";
    assert text[..1] == "1" && text[1..] == "e-400";
    assert IsMantissa("1", false) && IsExponent("e-400", false);
    assert IsMantissa(text[..1], false) && IsExponent(text[1..], false);
    assert IsNumeral(text, false);
  }

  /** With a library that returns a zero for an underflow and leaves errno alone, as ISO C11 permits,
      the portable function takes "1e-400" for a zero, which `std::from_chars` reports as out of range. */
  lemma SilentUnderflowIsMissed(library: Library, convert: string -> Conversion)
    requires convert("1e-400") == Underflow(false)
    requires library.tiny(Underflow(false)) == Zero(false) && !library.reports(Underflow(false))
    ensures Judged(Strtod(library, "1e-400" + "\0", convert)) == Result(6, Fine, Some(Zero(false)))
    ensures FromChars("1e-400", convert) == Result(6, ResultOutOfRange, None)
  {
    TinyNumeral();
    WholeRange("1e-400");
    ConvertedWhole(library, "1e-400", convert);
  }

  /** A range that is one numeral is converted as a whole. */
  lemma ConvertedWhole(library: Library, range: string, convert: string -> Conversion)
    requires range != [] && range[0] != '+' && !IsSpace(range[0]) && VisibleLength(range) == |range|
    requires LongestPrefix(range, |range|, IsFromCharsSubject) == |range|
    ensures Strtod(library, range + "\0", convert) == FromConversion(library, convert(range), |range|)
    ensures FromChars(range, convert) == Classified(convert(range), |range|)
  {
    assert range[..|range|] == range;
    TextOfBuffer(range + "\0", range);
    SameConsumption(range);
    var text := CText(range);
    assert text == range && text[0..] == text;
    assert Strtod(library, range + "\0", convert) == ParseAt(library, text, 0, convert);
  }
}
