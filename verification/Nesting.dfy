/**
 Nesting of opening and closing marks in a sequence, the notion behind bracket matching and behind
 conditional-compilation regions.
 */
module Nesting {

  datatype Mark = Opens | Closes | Neutral

  function Weight(m: Mark): int {
    match m
    case Opens => 1
    case Closes => -1
    case Neutral => 0
  }

  /** Opening minus closing marks in front of position `i`. */
  function Height(marks: seq<Mark>, i: nat): int
    requires i <= |marks|
  {
    if i == 0 then 0 else Height(marks, i - 1) + Weight(marks[i - 1])
  }

  /** As many opening as closing marks in `marks[lo..hi]`, and never more closing ones on the way. */
  ghost predicate IsBalanced(marks: seq<Mark>, lo: nat, hi: nat)
    requires lo <= hi <= |marks|
  {
    && Height(marks, hi) == Height(marks, lo)
    && forall k :: lo <= k <= hi ==> Height(marks, k) >= Height(marks, lo)
  }

  /** The opening mark at `s` and the closing mark at `e` enclose a balanced stretch. */
  ghost predicate IsPair(marks: seq<Mark>, s: nat, e: nat) {
    && s < e < |marks|
    && marks[s] == Opens && marks[e] == Closes
    && IsBalanced(marks, s + 1, e)
  }

  /** The grammar of nested marks: nothing, a neutral mark and more, or a pair around nested marks
      and more. */
  ghost predicate IsNested(marks: seq<Mark>, lo: nat, hi: nat)
    requires lo <= hi <= |marks|
    decreases hi - lo
  {
    || lo == hi
    || (marks[lo] == Neutral && IsNested(marks, lo + 1, hi))
    || (marks[lo] == Opens &&
        exists m {:trigger IsNested(marks, m + 1, hi)} :: lo < m < hi && marks[m] == Closes && IsNested(marks, lo + 1, m) && IsNested(marks, m + 1, hi))
  }

  lemma {:induction false} HeightStep(marks: seq<Mark>, i: nat)
    requires i < |marks|
    ensures Height(marks, i + 1) == Height(marks, i) + Weight(marks[i])
  {
  }

  lemma {:induction false} NestedIsBalanced(marks: seq<Mark>, lo: nat, hi: nat)
    requires lo <= hi <= |marks| && IsNested(marks, lo, hi)
    ensures IsBalanced(marks, lo, hi)
    decreases hi - lo
  {
    if lo < hi {
      HeightStep(marks, lo);
      if marks[lo] == Neutral {
        NestedIsBalanced(marks, lo + 1, hi);
      } else {
        var m :| lo < m < hi && marks[m] == Closes && IsNested(marks, lo + 1, m) && IsNested(marks, m + 1, hi);
        NestedIsBalanced(marks, lo + 1, m);
        HeightStep(marks, m);
        NestedIsBalanced(marks, m + 1, hi);
      }
    }
  }

  /** The first position behind `lo` at which the height is back to what it was at `lo`. */
  lemma {:induction false} FirstReturn(marks: seq<Mark>, lo: nat, hi: nat) returns (m: nat)
    requires lo < hi <= |marks| && marks[lo] == Opens && Height(marks, hi) <= Height(marks, lo)
    ensures lo < m < hi && IsPair(marks, lo, m)
  {
    m := lo + 1;
    HeightStep(marks, lo);
    while Height(marks, m + 1) > Height(marks, lo)
      invariant lo < m < hi
      invariant forall k :: lo < k <= m ==> Height(marks, k) > Height(marks, lo)
      decreases hi - m
    {
      m := m + 1;
    }
    HeightStep(marks, m);
  }

  lemma {:induction false} BalancedIsNested(marks: seq<Mark>, lo: nat, hi: nat)
    requires lo <= hi <= |marks| && IsBalanced(marks, lo, hi)
    ensures IsNested(marks, lo, hi)
    decreases hi - lo
  {
    if lo < hi {
      HeightStep(marks, lo);
      assert Height(marks, lo + 1) >= Height(marks, lo);
      if marks[lo] == Neutral {
        BalancedIsNested(marks, lo + 1, hi);
      } else {
        var m := FirstReturn(marks, lo, hi);
        HeightStep(marks, m);
        BalancedIsNested(marks, lo + 1, m);
        BalancedIsNested(marks, m + 1, hi);
        assert IsNested(marks, m + 1, hi);
      }
    }
  }

  /** Balanced stretches are exactly the properly nested ones. */
  lemma BalancedMeansNested(marks: seq<Mark>, lo: nat, hi: nat)
    requires lo <= hi <= |marks|
    ensures IsBalanced(marks, lo, hi) <==> IsNested(marks, lo, hi)
  {
    if IsBalanced(marks, lo, hi) {
      BalancedIsNested(marks, lo, hi);
    }
    if IsNested(marks, lo, hi) {
      NestedIsBalanced(marks, lo, hi);
    }
  }

  /** Partners are unique, from either side. */
  lemma PairIsUnique(marks: seq<Mark>, s: nat, e: nat, s': nat, e': nat)
    requires IsPair(marks, s, e) && IsPair(marks, s', e')
    ensures s == s' <==> e == e'
  {
    HeightStep(marks, e);
    HeightStep(marks, e');
    HeightStep(marks, s);
    HeightStep(marks, s');
  }
}
