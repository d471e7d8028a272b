/**
 Bracket matching over the token list of check_version_seam_odr.py, in both directions.
 */
module SeamScanner {
  import opened Nesting

  type Token = string

  function Marks(tokens: seq<Token>, opener: Token, closer: Token): (marks: seq<Mark>)
    ensures |marks| == |tokens|
  {
    seq(|tokens|, i requires 0 <= i < |tokens| =>
      if tokens[i] == opener then Opens else if tokens[i] == closer then Closes else Neutral)
  }

  /** The mark at `e` closes what was opened since `s`. */
  ghost predicate ClosesFrom(marks: seq<Mark>, s: nat, e: nat) {
    s <= e < |marks| && marks[e] == Closes && Height(marks, e + 1) == Height(marks, s)
  }

  /** The mark at `s` opens what is closed up to `e`. */
  ghost predicate OpensTo(marks: seq<Mark>, s: nat, e: nat) {
    s <= e < |marks| && marks[s] == Opens && Height(marks, e + 1) == Height(marks, s)
  }

  /** `r` is the first mark that closes from `start`, or -1 if none does. */
  ghost predicate IsFirstClose(marks: seq<Mark>, start: nat, r: int) {
    && (r == -1 || (0 <= r && ClosesFrom(marks, start, r)))
    && forall e :: start <= e < (if r == -1 then |marks| else r) ==> !ClosesFrom(marks, start, e)
  }

  /** `r` is the last mark that opens up to `start`, or -1 if none does. */
  ghost predicate IsLastOpen(marks: seq<Mark>, start: nat, r: int) {
    && (r == -1 || (0 <= r && OpensTo(marks, r, start)))
    && forall s: nat :: r < s <= start ==> !OpensTo(marks, s, start)
  }

  /** `_matching`: from any start, the first token that closes from there. */
  method Matching(tokens: seq<Token>, start: nat, opener: Token, closer: Token) returns (r: int)
    ensures IsFirstClose(Marks(tokens, opener, closer), start, r)
  {
    var depth := 0;
    ghost var marks := Marks(tokens, opener, closer);
    if start >= |tokens| {
      return -1;
    }
    for index := start to |tokens|
      invariant depth == Height(marks, index) - Height(marks, start)
      invariant forall e :: start <= e < index ==> !ClosesFrom(marks, start, e)
    {
      HeightStep(marks, index);
      if tokens[index] == opener {
        depth := depth + 1;
      } else if tokens[index] == closer {
        depth := depth - 1;
        if depth == 0 {
          return index;
        }
      }
    }
    return -1;
  }

  /** `_reverse_matching`: from any position, the last token that opens up to there.  The roles of
      the two brackets are tested in the opposite order, which matters only if they are equal. */
  method ReverseMatching(tokens: seq<Token>, start: nat, opener: Token, closer: Token) returns (r: int)
    requires start < |tokens|
    ensures opener == closer ==> r == -1
    ensures opener != closer ==> IsLastOpen(Marks(tokens, opener, closer), start, r)
  {
    var depth := 0;
    ghost var marks := Marks(tokens, opener, closer);
    for index := start + 1 downto 0
      invariant opener != closer ==> depth == Height(marks, index) - Height(marks, start + 1)
      invariant opener != closer ==> forall s: nat :: index <= s <= start ==> !OpensTo(marks, s, start)
    {
      HeightStep(marks, index);
      if tokens[index] == closer {
        depth := depth + 1;
      } else if tokens[index] == opener {
        depth := depth - 1;
        if depth == 0 {
          return index;
        }
      }
    }
    return -1;
  }

  /** From an opening mark, the first mark that closes from there is its partner. */
  lemma FirstCloseIsPartner(marks: seq<Mark>, s: nat, e: nat)
    requires s < |marks| && marks[s] == Opens
    ensures IsPair(marks, s, e) <==>
            ClosesFrom(marks, s, e) && forall k :: s <= k < e ==> !ClosesFrom(marks, s, k)
  {
    HeightStep(marks, s);
    if ClosesFrom(marks, s, e) && forall k :: s <= k < e ==> !ClosesFrom(marks, s, k) {
      StaysAbove(marks, s, e);
      HeightStep(marks, e);
    }
    if IsPair(marks, s, e) {
      HeightStep(marks, e);
      forall k | s <= k < e
        ensures !ClosesFrom(marks, s, k)
      {
        assert Height(marks, k + 1) >= Height(marks, s + 1);
      }
    }
  }

  lemma {:induction false} StaysAbove(marks: seq<Mark>, s: nat, e: nat)
    requires s < e < |marks| && marks[s] == Opens
    requires forall k :: s <= k < e ==> !ClosesFrom(marks, s, k)
    ensures forall k :: s < k <= e ==> Height(marks, k) > Height(marks, s)
  {
    HeightStep(marks, s);
    var k := s + 1;
    while k < e
      invariant s < k <= e
      invariant forall j :: s < j <= k ==> Height(marks, j) > Height(marks, s)
    {
      HeightStep(marks, k);
      assert !ClosesFrom(marks, s, k);
      k := k + 1;
    }
  }

  /** Up to a closing mark, the last mark that opens to there is its partner. */
  lemma LastOpenIsPartner(marks: seq<Mark>, s: nat, e: nat)
    requires e < |marks| && marks[e] == Closes
    ensures IsPair(marks, s, e) <==>
            OpensTo(marks, s, e) && forall k :: s < k <= e ==> !OpensTo(marks, k, e)
  {
    HeightStep(marks, e);
    if OpensTo(marks, s, e) && forall k :: s < k <= e ==> !OpensTo(marks, k, e) {
      StaysAboveBackwards(marks, s, e);
      HeightStep(marks, s);
    }
    if IsPair(marks, s, e) {
      HeightStep(marks, s);
      forall k | s < k <= e
        ensures !OpensTo(marks, k, e)
      {
        assert Height(marks, k) >= Height(marks, s + 1);
      }
    }
  }

  lemma {:induction false} StaysAboveBackwards(marks: seq<Mark>, s: nat, e: nat)
    requires s < e < |marks| && marks[e] == Closes
    requires forall k :: s < k <= e ==> !OpensTo(marks, k, e)
    ensures forall k :: s < k <= e ==> Height(marks, k) > Height(marks, e + 1)
  {
    HeightStep(marks, e);
    var k := e;
    while k > s + 1
      invariant s < k <= e
      invariant forall j :: k <= j <= e ==> Height(marks, j) > Height(marks, e + 1)
    {
      HeightStep(marks, k - 1);
      assert !OpensTo(marks, k - 1, e);
      k := k - 1;
    }
  }

  /** The two searches undo each other and find exactly the pairs: from an opening mark the forward
      search returns `e` if and only if the backward search from the closing mark at `e` returns to
      it, and it gives up exactly when the opening mark has no partner. */
  lemma MatchingsAreInverse(marks: seq<Mark>, s: nat, e: nat)
    requires s < |marks| && marks[s] == Opens
    requires e < |marks| && marks[e] == Closes
    ensures IsFirstClose(marks, s, e) <==> IsPair(marks, s, e)
    ensures IsLastOpen(marks, e, s) <==> IsPair(marks, s, e)
    ensures IsFirstClose(marks, s, -1) <==> forall k :: !IsPair(marks, s, k)
    ensures IsLastOpen(marks, e, -1) <==> forall k :: !IsPair(marks, k, e)
  {
    FirstCloseIsPartner(marks, s, e);
    LastOpenIsPartner(marks, s, e);
    NoPartnerForward(marks, s);
    NoPartnerBackward(marks, e);
  }

  lemma NoPartnerForward(marks: seq<Mark>, s: nat)
    requires s < |marks| && marks[s] == Opens
    ensures IsFirstClose(marks, s, -1) <==> forall k :: !IsPair(marks, s, k)
  {
    if e: nat :| ClosesFrom(marks, s, e) {
      var first := e;
      while exists k :: s <= k < first && ClosesFrom(marks, s, k)
        invariant ClosesFrom(marks, s, first)
        decreases first
      {
        var k :| s <= k < first && ClosesFrom(marks, s, k);
        first := k;
      }
      FirstCloseIsPartner(marks, s, first);
      assert IsPair(marks, s, first);
    } else {
      forall k
        ensures !IsPair(marks, s, k)
      {
        FirstCloseIsPartner(marks, s, k);
      }
    }
  }

  lemma NoPartnerBackward(marks: seq<Mark>, e: nat)
    requires e < |marks| && marks[e] == Closes
    ensures IsLastOpen(marks, e, -1) <==> forall k :: !IsPair(marks, k, e)
  {
    if s: nat :| OpensTo(marks, s, e) {
      var last := s;
      while exists k :: last < k <= e && OpensTo(marks, k, e)
        invariant last <= e && OpensTo(marks, last, e)
        decreases e - last
      {
        var k :| last < k <= e && OpensTo(marks, k, e);
        last := k;
      }
      LastOpenIsPartner(marks, last, e);
      assert IsPair(marks, last, e);
    } else {
      forall k: nat
        ensures !IsPair(marks, k, e)
      {
        LastOpenIsPartner(marks, k, e);
      }
    }
  }

  /** The bracket that the ">" at `close` closes stands right behind the word "template". */
  ghost predicate ClosesTemplateHead(tokens: seq<Token>, close: nat) {
    exists open: nat :: IsPair(Marks(tokens, "<", ">"), open, close) && 0 < open && tokens[open - 1] == "template"
  }

  /** `_is_class_template_head`. */
  method IsClassTemplateHead(tokens: seq<Token>, structIndex: nat) returns (r: bool)
    requires structIndex <= |tokens|
    ensures r <==> structIndex >= 1 && tokens[structIndex - 1] == ">" && ClosesTemplateHead(tokens, structIndex - 1)
  {
    if structIndex < 1 || tokens[structIndex - 1] != ">" {
      return false;
    }
    var close := structIndex - 1;
    ghost var marks := Marks(tokens, "<", ">");
    var opener := ReverseMatching(tokens, close, "<", ">");
    if opener >= 0 {
      LastOpenIsPartner(marks, opener, close);
      forall open: nat | IsPair(marks, open, close)
        ensures open == opener
      {
        PairIsUnique(marks, open, close, opener, close);
      }
    } else {
      NoPartnerBackward(marks, close);
    }
    return opener > 0 && tokens[opener - 1] == "template";
  }
}
