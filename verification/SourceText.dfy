/**
 `strip_comments_and_literals` of check_version_seam_odr.py: source text is cut into code
 characters, comments and literals; a comment becomes one space and a literal one zero.
 */
module SourceText {

  /** The kinds of piece; the open ones run to the end of the text without being closed. */
  datatype Kind = Code | LineComment | BlockComment | Literal | OpenBlockComment | OpenLiteral

  /** A piece of a text: its kind and the position behind it.  It starts where its predecessor ends. */
  datatype Piece = Piece(kind: Kind, end: nat)

  predicate IsQuote(c: char) {
    c == '"' || c == '\''
  }

  predicate IsPairAt(text: string, i: nat, first: char, second: char) {
    i + 1 < |text| && text[i] == first && text[i + 1] == second
  }

  // ---------------------------------------------------------------------------------------------
  // Legal cuts
  // ---------------------------------------------------------------------------------------------

  ghost predicate NoPairIn(text: string, lo: nat, hi: nat, first: char, second: char) {
    forall k :: lo <= k < hi ==> !IsPairAt(text, k, first, second)
  }

  /** `text[i..j]` is made of escaped characters and characters that are neither a backslash nor
      the quote. */
  ghost predicate AreUnits(text: string, i: nat, j: nat, quote: char)
    requires j <= |text|
    decreases j - i
  {
    if i >= j then i == j
    else if text[i] == '\\' then AreUnits(text, i + 2, j, quote)
    else text[i] != quote && AreUnits(text, i + 1, j, quote)
  }

  /** As above up to the end of the text, which may cut an escape short. */
  ghost predicate AreOpenUnits(text: string, i: nat, quote: char)
    decreases |text| - i
  {
    if i >= |text| then true
    else if text[i] == '\\' then AreOpenUnits(text, i + 2, quote)
    else text[i] != quote && AreOpenUnits(text, i + 1, quote)
  }

  ghost predicate IsPieceAt(text: string, start: nat, p: Piece) {
    && start < p.end <= |text|
    && match p.kind
       case Code =>
         && p.end == start + 1
         && !IsQuote(text[start])
         && !IsPairAt(text, start, '/', '/') && !IsPairAt(text, start, '/', '*')
       case LineComment =>
         && IsPairAt(text, start, '/', '/') && start + 2 <= p.end
         && (forall k :: start + 2 <= k < p.end ==> text[k] != '\n')
         && (p.end == |text| || text[p.end] == '\n')
       case BlockComment =>
         && IsPairAt(text, start, '/', '*') && start + 4 <= p.end
         && NoPairIn(text, start + 2, p.end - 2, '*', '/') && IsPairAt(text, p.end - 2, '*', '/')
       case OpenBlockComment =>
         && IsPairAt(text, start, '/', '*') && p.end == |text|
         && NoPairIn(text, start + 2, |text|, '*', '/')
       case Literal =>
         && IsQuote(text[start]) && start + 2 <= p.end
         && AreUnits(text, start + 1, p.end - 1, text[start]) && text[p.end - 1] == text[start]
       case OpenLiteral =>
         && IsQuote(text[start]) && p.end == |text|
         && AreOpenUnits(text, start + 1, text[start])
  }

  /** The pieces cover the text from `start` to its end. */
  ghost predicate IsCut(text: string, start: nat, pieces: seq<Piece>)
    decreases |pieces|
  {
    if pieces == [] then start == |text|
    else IsPieceAt(text, start, pieces[0]) && IsCut(text, pieces[0].end, pieces[1..])
  }

  function Placeholder(text: string, start: nat, kind: Kind): char
    requires start < |text|
  {
    match kind
    case Code => text[start]
    case Literal => '0'
    case OpenLiteral => '0'
    case _ => ' '
  }

  /** One character for every piece. */
  ghost function Image(text: string, start: nat, pieces: seq<Piece>): string
    requires IsCut(text, start, pieces)
    decreases |pieces|
  {
    if pieces == [] then []
    else [Placeholder(text, start, pieces[0].kind)] + Image(text, pieces[0].end, pieces[1..])
  }

  // ---------------------------------------------------------------------------------------------
  // The cut the tool makes
  // ---------------------------------------------------------------------------------------------

  /** The position of the next newline, or the end of the text. */
  function LineEnd(text: string, i: nat): (n: nat)
    requires i <= |text|
    ensures i <= n <= |text| && (n == |text| || text[n] == '\n')
    ensures forall k :: i <= k < n ==> text[k] != '\n'
    decreases |text| - i
  {
    if i == |text| || text[i] == '\n' then i else LineEnd(text, i + 1)
  }

  /** The position of the next end of a block comment, or -1. */
  function BlockEnd(text: string, i: nat): (n: int)
    ensures n == -1 ==> NoPairIn(text, i, |text|, '*', '/')
    ensures n != -1 ==> i <= n && NoPairIn(text, i, n, '*', '/') && IsPairAt(text, n, '*', '/')
    decreases |text| - i
  {
    if i + 1 >= |text| then -1
    else if IsPairAt(text, i, '*', '/') then i
    else BlockEnd(text, i + 1)
  }

  /** The position of the quote that ends a literal, or -1. */
  function LiteralEnd(text: string, i: nat, quote: char): (n: int)
    ensures n == -1 ==> AreOpenUnits(text, i, quote)
    ensures n != -1 ==> i <= n < |text| && AreUnits(text, i, n, quote) && text[n] == quote
    decreases |text| - i
  {
    if i >= |text| then -1
    else if text[i] == '\\' then LiteralEnd(text, i + 2, quote)
    else if text[i] == quote then i
    else LiteralEnd(text, i + 1, quote)
  }

  function PieceAt(text: string, start: nat): (p: Piece)
    requires start < |text|
    ensures IsPieceAt(text, start, p)
  {
    if IsPairAt(text, start, '/', '/') then Piece(LineComment, LineEnd(text, start + 2))
    else if IsPairAt(text, start, '/', '*') then
      var n := BlockEnd(text, start + 2);
      if n == -1 then Piece(OpenBlockComment, |text|) else Piece(BlockComment, n + 2)
    else if IsQuote(text[start]) then
      var n := LiteralEnd(text, start + 1, text[start]);
      if n == -1 then Piece(OpenLiteral, |text|) else Piece(Literal, n + 1)
    else Piece(Code, start + 1)
  }

  function Pieces(text: string, start: nat): (pieces: seq<Piece>)
    requires start <= |text|
    ensures IsCut(text, start, pieces)
    decreases |text| - start
  {
    if start == |text| then []
    else
      var p := PieceAt(text, start);
      [p] + Pieces(text, p.end)
  }

  lemma {:induction false} UnitsEndThere(text: string, i: nat, n: nat, quote: char)
    requires n < |text| && AreUnits(text, i, n, quote) && text[n] == quote && quote != '\\'
    ensures LiteralEnd(text, i, quote) == n
    decreases n - i
  {
    if i < n {
      UnitsEndThere(text, if text[i] == '\\' then i + 2 else i + 1, n, quote);
    }
  }

  lemma {:induction false} OpenUnitsDoNotEnd(text: string, i: nat, quote: char)
    requires AreOpenUnits(text, i, quote)
    ensures LiteralEnd(text, i, quote) == -1
    decreases |text| - i
  {
    if i < |text| {
      OpenUnitsDoNotEnd(text, if text[i] == '\\' then i + 2 else i + 1, quote);
    }
  }

  lemma PieceIsUnique(text: string, start: nat, p: Piece)
    requires start < |text| && IsPieceAt(text, start, p)
    ensures p == PieceAt(text, start)
  {
    match p.kind
    case Literal => UnitsEndThere(text, start + 1, p.end - 1, text[start]);
    case OpenLiteral => OpenUnitsDoNotEnd(text, start + 1, text[start]);
    case _ =>
  }

  /** A text has exactly one legal cut, the one the tool makes. */
  lemma {:induction false} CutIsUnique(text: string, start: nat, pieces: seq<Piece>)
    requires start <= |text|
    ensures IsCut(text, start, pieces) <==> pieces == Pieces(text, start)
    decreases |text| - start
  {
    if start < |text| && IsCut(text, start, pieces) {
      PieceIsUnique(text, start, pieces[0]);
      CutIsUnique(text, pieces[0].end, pieces[1..]);
    }
  }

  // ---------------------------------------------------------------------------------------------
  // The scanner
  // ---------------------------------------------------------------------------------------------

  /** The image of the cut the tool makes. */
  ghost function StripFrom(text: string, start: nat): string
    requires start <= |text|
  {
    Image(text, start, Pieces(text, start))
  }

  lemma StripUnfolds(text: string, start: nat)
    requires start < |text|
    ensures var p := PieceAt(text, start);
            StripFrom(text, start) == [Placeholder(text, start, p.kind)] + StripFrom(text, p.end)
  {
    var p := PieceAt(text, start);
    assert Pieces(text, start) == [p] + Pieces(text, p.end);
    assert Pieces(text, start)[1..] == Pieces(text, p.end);
  }

  /** The inner loop of the scanner, from behind the quote at `start`: the position behind the
      literal.  A backslash that ends the text leaves it one past the end. */
  method SkipLiteral(text: string, start: nat) returns (index: nat)
    requires start < |text|
    ensures var n := LiteralEnd(text, start + 1, text[start]);
            if n == -1 then index >= |text| else index == n + 1
  {
    var quote := text[start];
    index := start + 1;
    while index < |text|
      invariant LiteralEnd(text, index, quote) == LiteralEnd(text, start + 1, quote)
      decreases |text| - index
    {
      if text[index] == '\\' {
        index := index + 2;
      } else if text[index] == quote {
        return index + 1;
      } else {
        index := index + 1;
      }
    }
  }

  /** What is still to be written; past the end there is nothing left. */
  ghost function Unread(text: string, index: nat): string {
    if index < |text| then StripFrom(text, index) else []
  }

  /** What has been written and what is still to be written are the whole result. */
  ghost predicate IsProgress(text: string, index: nat, out: string) {
    out + Unread(text, index) == StripFrom(text, 0)
  }

  lemma EndOfStrip(text: string, index: nat)
    requires index <= |text|
    ensures StripFrom(text, index) == Unread(text, index)
  {
  }

  lemma StripStep(text: string, start: nat, out: string)
    requires start < |text| && IsProgress(text, start, out)
    ensures var p := PieceAt(text, start); IsProgress(text, p.end, out + [Placeholder(text, start, p.kind)])
  {
    var p := PieceAt(text, start);
    var c := Placeholder(text, start, p.kind);
    StripUnfolds(text, start);
    EndOfStrip(text, p.end);
    assert StripFrom(text, start) == [c] + Unread(text, p.end);
    assert out + ([c] + Unread(text, p.end)) == out + [c] + Unread(text, p.end);
  }

  lemma SkipToEnd(text: string, end: nat, index: nat, out: string)
    requires IsProgress(text, end, out) && (index == end || (end == |text| && index >= end))
    ensures IsProgress(text, index, out)
  {
  }

  /** The body of the loop: the character that stands for the piece at `index`, and a position behind
      the piece. */
  method NextPiece(text: string, index: nat) returns (c: char, next: nat)
    requires index < |text|
    ensures var p := PieceAt(text, index);
            && c == Placeholder(text, index, p.kind)
            && (next == p.end || (p.end == |text| && next >= p.end))
  {
    if IsPairAt(text, index, '/', '/') {
      next := LineEnd(text, index + 2);
      return ' ', next;
    }
    if IsPairAt(text, index, '/', '*') {
      var end := BlockEnd(text, index + 2);
      return ' ', if end == -1 then |text| else end + 2;
    }
    if IsQuote(text[index]) {
      next := SkipLiteral(text, index);
      return '0', next;
    }
    return text[index], index + 1;
  }

  method StripCommentsAndLiterals(text: string) returns (out: string)
    ensures out == StripFrom(text, 0)
  {
    out := [];
    var index := 0;
    EndOfStrip(text, 0);
    while index < |text|
      invariant IsProgress(text, index, out)
      decreases |text| - index
    {
      StripStep(text, index, out);
      ghost var p := PieceAt(text, index);
      var c, next := NextPiece(text, index);
      out := out + [c];
      SkipToEnd(text, p.end, next, out);
      index := next;
    }
  }

  /** The result is the image of any legal cut. */
  lemma StripIsImage(text: string, start: nat, pieces: seq<Piece>)
    requires start <= |text| && IsCut(text, start, pieces)
    ensures StripFrom(text, start) == Image(text, start, pieces)
  {
    CutIsUnique(text, start, pieces);
  }

  // ---------------------------------------------------------------------------------------------
  // What stands in front, and what a comment or a literal holds
  // ---------------------------------------------------------------------------------------------

  lemma PairBehind(a: string, t: string, i: nat, first: char, second: char)
    ensures IsPairAt(a + t, |a| + i, first, second) <==> IsPairAt(t, i, first, second)
  {
  }

  lemma {:induction false} LineEndBehind(a: string, t: string, i: nat)
    requires i <= |t|
    ensures LineEnd(a + t, |a| + i) == |a| + LineEnd(t, i)
    decreases |t| - i
  {
    if i < |t| && t[i] != '\n' {
      LineEndBehind(a, t, i + 1);
    }
  }

  /** A position behind `a`, or -1. */
  function Behind(a: string, n: int): int {
    if n == -1 then -1 else |a| + n
  }

  lemma {:induction false} BlockEndBehind(a: string, t: string, i: nat)
    ensures BlockEnd(a + t, |a| + i) == Behind(a, BlockEnd(t, i))
    decreases |t| - i
  {
    PairBehind(a, t, i, '*', '/');
    if i + 1 < |t| {
      BlockEndBehind(a, t, i + 1);
    }
  }

  lemma {:induction false} LiteralEndBehind(a: string, t: string, i: nat, quote: char)
    ensures LiteralEnd(a + t, |a| + i, quote) == Behind(a, LiteralEnd(t, i, quote))
    decreases |t| - i
  {
    if i < |t| {
      LiteralEndBehind(a, t, if t[i] == '\\' then i + 2 else i + 1, quote);
    }
  }

  lemma PieceBehind(a: string, t: string, i: nat)
    requires i < |t|
    ensures var p := PieceAt(t, i); PieceAt(a + t, |a| + i) == Piece(p.kind, |a| + p.end)
    ensures var kind := PieceAt(t, i).kind; Placeholder(a + t, |a| + i, kind) == Placeholder(t, i, kind)
  {
    PairBehind(a, t, i, '/', '/');
    PairBehind(a, t, i, '/', '*');
    if IsPairAt(t, i, '/', '/') {
      LineEndBehind(a, t, i + 2);
    } else if IsPairAt(t, i, '/', '*') {
      BlockEndBehind(a, t, i + 2);
    } else if IsQuote(t[i]) {
      LiteralEndBehind(a, t, i + 1, t[i]);
    }
  }

  lemma StripStepBehind(text: string, i: nat, t: string, j: nat)
    requires i < |text| && j < |t|
    requires PieceAt(text, i).kind == PieceAt(t, j).kind
    requires Placeholder(text, i, PieceAt(text, i).kind) == Placeholder(t, j, PieceAt(t, j).kind)
    requires StripFrom(text, PieceAt(text, i).end) == StripFrom(t, PieceAt(t, j).end)
    ensures StripFrom(text, i) == StripFrom(t, j)
  {
    StripUnfolds(text, i);
    StripUnfolds(t, j);
  }

  lemma StripNothing(text: string)
    ensures StripFrom(text, |text|) == []
  {
  }

  /** How a text is cut and stripped from some position on does not depend on what stands in front. */
  lemma {:induction false} StripBehind(a: string, t: string, i: nat)
    requires i <= |t|
    ensures StripFrom(a + t, |a| + i) == StripFrom(t, i)
    decreases |t| - i
  {
    if i == |t| {
      StripNothing(t);
      StripNothing(a + t);
    } else {
      PieceBehind(a, t, i);
      StripBehind(a, t, PieceAt(t, i).end);
      StripStepBehind(a + t, |a| + i, t, i);
    }
  }

  /** The pieces cover the text from `start` exactly up to `end`. */
  ghost predicate IsCutTo(text: string, start: nat, end: nat, pieces: seq<Piece>)
    decreases |pieces|
  {
    if pieces == [] then start == end
    else IsPieceAt(text, start, pieces[0]) && pieces[0].end <= end && IsCutTo(text, pieces[0].end, end, pieces[1..])
  }

  /** `body` is one comment or literal in front of `rest`, and all of it. */
  ghost predicate IsBody(body: string, rest: string) {
    body != [] &&
    var p := PieceAt(body + rest, 0);
    p.kind != Code && p.end == |body|
  }

  predicate IsLiteralKind(kind: Kind) {
    kind == Literal || kind == OpenLiteral
  }

  /** Two texts that are equal up to `end` and go on there with a comment or literal of one sort. */
  ghost predicate BranchAt(text: string, text': string, end: nat) {
    && end < |text| && end < |text'| && text[..end] == text'[..end]
    && (|| (IsQuote(text[end]) && IsQuote(text'[end]))
        || text[end] == text'[end] == '/')
  }

  lemma {:induction false} SameUnits(text: string, text': string, i: nat, j: nat, quote: char)
    requires j <= |text| && j <= |text'| && text[..j] == text'[..j] && AreUnits(text, i, j, quote)
    ensures AreUnits(text', i, j, quote)
    decreases j - i
  {
    if i < j {
      assert text[..j][i] == text'[..j][i];
      SameUnits(text, text', if text[i] == '\\' then i + 2 else i + 1, j, quote);
    }
  }

  lemma SamePair(text: string, text': string, end: nat, k: nat, first: char, second: char)
    requires end <= |text| && end <= |text'| && text[..end] == text'[..end] && k + 1 < end
    ensures IsPairAt(text, k, first, second) <==> IsPairAt(text', k, first, second)
  {
    assert text[..end][k] == text'[..end][k] && text[..end][k + 1] == text'[..end][k + 1];
  }

  /** A piece in front of the branch is a piece of the other text as well. */
  lemma SamePiece(text: string, text': string, start: nat, p: Piece, end: nat)
    requires BranchAt(text, text', end) && IsPieceAt(text, start, p) && p.end <= end
    ensures IsPieceAt(text', start, p)
  {
    assert forall k :: 0 <= k < end ==> text[k] == text[..end][k] == text'[..end][k] == text'[k];
    match p.kind
    case Literal =>
      assert text[..p.end - 1] == text[..end][..p.end - 1] == text'[..end][..p.end - 1] == text'[..p.end - 1];
      SameUnits(text, text', start + 1, p.end - 1, text[start]);
    case BlockComment =>
      forall k | start + 2 <= k < p.end - 2
        ensures !IsPairAt(text', k, '*', '/')
      {
        SamePair(text, text', end, k, '*', '/');
      }
    case _ =>
  }

  lemma {:induction false} SameFront(text: string, text': string, start: nat, pieces: seq<Piece>, end: nat)
    requires BranchAt(text, text', end) && start <= end && IsCutTo(text, start, end, pieces)
    requires StripFrom(text, end) == StripFrom(text', end)
    ensures StripFrom(text, start) == StripFrom(text', start)
    decreases |pieces|
  {
    if pieces != [] {
      var p := pieces[0];
      SamePiece(text, text', start, p, end);
      PieceIsUnique(text, start, p);
      PieceIsUnique(text', start, p);
      StripUnfolds(text, start);
      StripUnfolds(text', start);
      assert text[..end][start] == text'[..end][start];
      SameFront(text, text', p.end, pieces[1..], end);
    }
  }

  /** Behind the front, a body strips to its placeholder. */
  lemma StripBody(front: string, body: string, rest: string)
    requires IsBody(body, rest)
    ensures var kind := PieceAt(body + rest, 0).kind;
            StripFrom(front + body + rest, |front|) == [if IsLiteralKind(kind) then '0' else ' '] + StripFrom(rest, 0)
  {
    assert front + body + rest == front + (body + rest);
    StripBehind(front, body + rest, 0);
    StripUnfolds(body + rest, 0);
    StripBehind(body, rest, 0);
  }

  lemma BodyStart(body: string, rest: string)
    requires IsBody(body, rest)
    ensures if IsLiteralKind(PieceAt(body + rest, 0).kind) then IsQuote(body[0]) else body[0] == '/'
  {
  }

  /** What a comment or a literal holds cannot perturb the result: where a text has one, between pieces
      that make up `front` and any `rest`, another one can stand in its place. */
  lemma BodiesDoNotMatter(front: string, body: string, body': string, rest: string, pieces: seq<Piece>)
    requires IsBody(body, rest) && IsBody(body', rest)
    requires IsLiteralKind(PieceAt(body + rest, 0).kind) <==> IsLiteralKind(PieceAt(body' + rest, 0).kind)
    requires IsCutTo(front + body + rest, 0, |front|, pieces)
    ensures StripFrom(front + body + rest, 0) == StripFrom(front + body' + rest, 0)
  {
    var text, text' := front + body + rest, front + body' + rest;
    BodyStart(body, rest);
    BodyStart(body', rest);
    assert text[|front|] == body[0] && text'[|front|] == body'[0];
    assert text[..|front|] == front == text'[..|front|];
    StripBody(front, body, rest);
    StripBody(front, body', rest);
    SameFront(text, text', 0, pieces, |front|);
  }

  // ---------------------------------------------------------------------------------------------
  // The result holds no comment and no literal
  // ---------------------------------------------------------------------------------------------

  /** No quote and no start of a comment from position `i` on. */
  ghost predicate IsCleanFrom(s: string, i: nat) {
    forall k :: i <= k < |s| ==> !IsQuote(s[k]) && !IsPairAt(s, k, '/', '/') && !IsPairAt(s, k, '/', '*')
  }

  lemma {:induction false} StripIsClean(text: string, start: nat)
    requires start <= |text|
    ensures IsCleanFrom(StripFrom(text, start), 0)
    decreases |text| - start
  {
    if start < |text| {
      var p := PieceAt(text, start);
      var s, rest := StripFrom(text, start), StripFrom(text, p.end);
      StripUnfolds(text, start);
      StripIsClean(text, p.end);
      assert s[1..] == rest;
      forall k | 0 <= k < |s|
        ensures !IsQuote(s[k]) && !IsPairAt(s, k, '/', '/') && !IsPairAt(s, k, '/', '*')
      {
        if k > 0 {
          assert s[k] == rest[k - 1];
          assert k + 1 < |s| ==> s[k + 1] == rest[k];
          assert !IsPairAt(rest, k - 1, '/', '/') && !IsPairAt(rest, k - 1, '/', '*');
        } else if p.kind == Code && p.end < |text| {
          StripUnfolds(text, p.end);
          assert rest[0] == Placeholder(text, p.end, PieceAt(text, p.end).kind);
        }
      }
    }
  }

  lemma CleanPiece(s: string, i: nat)
    requires i < |s| && IsCleanFrom(s, i)
    ensures StripFrom(s, i + 1) == s[i + 1..] ==> StripFrom(s, i) == s[i..]
  {
    assert PieceAt(s, i) == Piece(Code, i + 1);
    StripUnfolds(s, i);
    assert s[i..] == [s[i]] + s[i + 1..];
  }

  lemma {:induction false} CleanTextIsKept(s: string, i: nat)
    requires i <= |s| && IsCleanFrom(s, i)
    ensures StripFrom(s, i) == s[i..]
    decreases |s| - i
  {
    if i < |s| {
      CleanPiece(s, i);
      CleanTextIsKept(s, i + 1);
    }
  }

  lemma StripIsIdempotent(text: string)
    ensures StripFrom(StripFrom(text, 0), 0) == StripFrom(text, 0)
  {
    var s := StripFrom(text, 0);
    StripIsClean(text, 0);
    CleanTextIsKept(s, 0);
    assert s[0..] == s;
  }
}
