/**
 `_site_regions` of check_negative_consumer_fixtures.py: the conditional-compilation region that
 each site guard of a fixture opens.
 */
module SiteRegions {
  import opened Common
  import opened Nesting

  /** A source line as the regular expressions of the checker classify it.  A site guard is an
      opening line too. */
  datatype Line = Guard(number: nat) | Open | Middle | Close | Other

  /** The 1-based lines of a guard, of the first and of the last line of its region. */
  datatype Region = Region(guard: nat, first: nat, last: nat)

  datatype Problem =
    | NeverClosed(line: nat, number: nat)
    | GuardedTwice(line: nat, number: nat, firstGuard: nat)

  function Mark(line: Line): Mark {
    match line
    case Guard(_) => Opens
    case Open => Opens
    case Close => Closes
    case _ => Neutral
  }

  function Marks(lines: seq<Line>): (marks: seq<Mark>)
    ensures |marks| == |lines|
    ensures forall i :: 0 <= i < |lines| ==> marks[i] == Mark(lines[i])
  {
    seq(|lines|, i requires 0 <= i < |lines| => Mark(lines[i]))
  }

  /** The conditional opened at `g` is interrupted or ended at `t`: what lies between is balanced. */
  ghost predicate Ends(lines: seq<Line>, g: nat, t: nat) {
    && g < t < |lines|
    && (lines[t].Middle? || lines[t].Close?)
    && IsBalanced(Marks(lines), g + 1, t)
  }

  /** The first #else, #elif or #endif of the conditional opened at `g`. */
  ghost predicate IsTerminator(lines: seq<Line>, g: nat, t: nat) {
    && Ends(lines, g, t)
    && forall k :: g < k < t ==> !Ends(lines, g, k)
  }

  /** The height, counted from a guard, never falls below one in front of its terminator. */
  ghost predicate IsInside(lines: seq<Line>, g: nat, probe: nat)
    requires g < probe <= |lines|
  {
    && (forall k :: g < k <= probe ==> Height(Marks(lines), k) >= Height(Marks(lines), g + 1))
    && forall k :: g < k < probe ==> !Ends(lines, g, k)
  }

  /** The inner loop: the terminator of the guard at `index`, or -1. */
  method FindTerminator(lines: seq<Line>, index: nat) returns (terminator: int)
    requires index < |lines|
    ensures terminator >= 0 ==> IsTerminator(lines, index, terminator)
    ensures terminator < 0 ==> terminator == -1 && forall t :: !Ends(lines, index, t)
  {
    ghost var marks := Marks(lines);
    var depth := 1;
    for probe := index + 1 to |lines|
      invariant depth == 1 + Height(marks, probe) - Height(marks, index + 1)
      invariant IsInside(lines, index, probe)
    {
      HeightStep(marks, probe);
      var text := lines[probe];
      if text.Guard? || text.Open? {
        depth := depth + 1;
      } else if text.Close? {
        depth := depth - 1;
        if depth == 0 {
          return probe;
        }
      } else if text.Middle? && depth == 1 {
        return probe;
      }
    }
    return -1;
  }

  // ---------------------------------------------------------------------------------------------
  // Regions and problems
  // ---------------------------------------------------------------------------------------------

  ghost predicate IsClosed(lines: seq<Line>, g: nat) {
    exists t :: IsTerminator(lines, g, t)
  }

  /** The first closed guard with the number `n` in front of `bound`. */
  ghost function FirstClosed(lines: seq<Line>, n: nat, bound: nat): (r: Option<nat>)
    requires bound <= |lines|
    ensures r.Some? ==> r.value < bound && lines[r.value] == Guard(n) && IsClosed(lines, r.value)
    ensures forall k :: 0 <= k < (if r.Some? then r.value else bound) && lines[k] == Guard(n) ==> !IsClosed(lines, k)
  {
    if bound == 0 then None
    else
      var before := FirstClosed(lines, n, bound - 1);
      if before.None? && lines[bound - 1] == Guard(n) && IsClosed(lines, bound - 1) then Some(bound - 1) else before
  }

  /** The region of a guard. */
  ghost predicate IsRegionOf(lines: seq<Line>, g: nat, r: Region) {
    && r.guard == g + 1 && r.first == g + 2 && r.last >= 1
    && IsTerminator(lines, g, r.last - 1)
  }

  /** Exactly the numbers with a closed guard in front of `bound` have a region, that of the first. */
  ghost predicate AreRegions(lines: seq<Line>, bound: nat, regions: map<nat, Region>)
    requires bound <= |lines|
  {
    forall n: nat ::
      var first := FirstClosed(lines, n, bound);
      && (n in regions <==> first.Some?)
      && (n in regions ==> IsRegionOf(lines, first.value, regions[n]))
  }

  /** What is to be reported about the line at `g`. */
  ghost function ProblemAt(lines: seq<Line>, g: nat): Option<Problem>
    requires g < |lines|
  {
    if !lines[g].Guard? then None
    else if !IsClosed(lines, g) then Some(NeverClosed(g + 1, lines[g].number))
    else
      var first := FirstClosed(lines, lines[g].number, g);
      if first.Some? then Some(GuardedTwice(g + 1, lines[g].number, first.value + 1)) else None
  }

  /** The problems of the lines in front of `bound`, in the order of the lines. */
  ghost function Reported(lines: seq<Line>, bound: nat): seq<Problem>
    requires bound <= |lines|
  {
    if bound == 0 then []
    else
      var p := ProblemAt(lines, bound - 1);
      Reported(lines, bound - 1) + if p.Some? then [p.value] else []
  }

  /** What the loop has found in the lines in front of `bound`. */
  ghost predicate IsScanned(lines: seq<Line>, bound: nat, regions: map<nat, Region>, problems: seq<Problem>)
    requires bound <= |lines|
  {
    AreRegions(lines, bound, regions) && problems == Reported(lines, bound)
  }

  lemma KeepRegions(lines: seq<Line>, g: nat, regions: map<nat, Region>)
    requires g < |lines| && AreRegions(lines, g, regions)
    requires lines[g].Guard? && IsClosed(lines, g) ==> lines[g].number in regions
    ensures AreRegions(lines, g + 1, regions)
  {
    forall n: nat
      ensures FirstClosed(lines, n, g + 1) == FirstClosed(lines, n, g)
    {
      assert n in regions <==> FirstClosed(lines, n, g).Some?;
    }
  }

  lemma AddRegion(lines: seq<Line>, g: nat, r: Region, regions: map<nat, Region>)
    requires g < |lines| && lines[g].Guard? && IsClosed(lines, g) && IsRegionOf(lines, g, r)
    requires AreRegions(lines, g, regions) && lines[g].number !in regions
    ensures AreRegions(lines, g + 1, regions[lines[g].number := r])
  {
    var number := lines[g].number;
    assert FirstClosed(lines, number, g).None?;
    forall n: nat
      ensures FirstClosed(lines, n, g + 1) == if n == number then Some(g) else FirstClosed(lines, n, g)
    {
    }
  }

  lemma ScanOther(lines: seq<Line>, g: nat, regions: map<nat, Region>, problems: seq<Problem>)
    requires g < |lines| && !lines[g].Guard? && IsScanned(lines, g, regions, problems)
    ensures IsScanned(lines, g + 1, regions, problems)
  {
    KeepRegions(lines, g, regions);
  }

  lemma ScanUnclosed(lines: seq<Line>, g: nat, regions: map<nat, Region>, problems: seq<Problem>)
    requires g < |lines| && lines[g].Guard? && IsScanned(lines, g, regions, problems)
    requires forall t :: !Ends(lines, g, t)
    ensures IsScanned(lines, g + 1, regions, problems + [NeverClosed(g + 1, lines[g].number)])
  {
    assert !IsClosed(lines, g);
    KeepRegions(lines, g, regions);
  }

  lemma ScanTwice(lines: seq<Line>, g: nat, t: nat, regions: map<nat, Region>, problems: seq<Problem>)
    requires g < |lines| && lines[g].Guard? && IsScanned(lines, g, regions, problems)
    requires IsTerminator(lines, g, t) && lines[g].number in regions
    ensures IsScanned(lines, g + 1, regions, problems + [GuardedTwice(g + 1, lines[g].number, regions[lines[g].number].guard)])
  {
    assert IsClosed(lines, g);
    KeepRegions(lines, g, regions);
  }

  lemma ScanSite(lines: seq<Line>, g: nat, t: nat, regions: map<nat, Region>, problems: seq<Problem>)
    requires g < |lines| && lines[g].Guard? && IsScanned(lines, g, regions, problems)
    requires IsTerminator(lines, g, t) && lines[g].number !in regions
    ensures IsScanned(lines, g + 1, regions[lines[g].number := Region(g + 1, g + 2, t + 1)], problems)
  {
    assert IsClosed(lines, g);
    AddRegion(lines, g, Region(g + 1, g + 2, t + 1), regions);
  }

  /** `_site_regions`. */
  method FindSiteRegions(lines: seq<Line>) returns (regions: map<nat, Region>, problems: seq<Problem>)
    ensures AreRegions(lines, |lines|, regions)
    ensures problems == Reported(lines, |lines|)
  {
    regions, problems := map[], [];
    for index := 0 to |lines|
      invariant IsScanned(lines, index, regions, problems)
    {
      if !lines[index].Guard? {
        ScanOther(lines, index, regions, problems);
        continue;
      }
      var number := lines[index].number;
      var terminator := FindTerminator(lines, index);
      if terminator == -1 {
        ScanUnclosed(lines, index, regions, problems);
        problems := problems + [NeverClosed(index + 1, number)];
        continue;
      }
      if number in regions {
        ScanTwice(lines, index, terminator, regions, problems);
        problems := problems + [GuardedTwice(index + 1, number, regions[number].guard)];
        continue;
      }
      ScanSite(lines, index, terminator, regions, problems);
      regions := regions[number := Region(index + 1, index + 2, terminator + 1)];
    }
  }

  /** The terminator of a guard that lies inside another guard's region comes first. */
  lemma InnerEndsFirst(lines: seq<Line>, g: nat, t: nat, g': nat, t': nat)
    requires IsTerminator(lines, g, t) && IsTerminator(lines, g', t')
    requires g < g' < t && Mark(lines[g']) == Opens
    ensures t' < t
  {
    var marks := Marks(lines);
    HeightStep(marks, g');
    assert Height(marks, g') >= Height(marks, g + 1);
  }

  /** Any two regions are nested or disjoint. */
  lemma RegionsNestOrAreDisjoint(lines: seq<Line>, g: nat, r: Region, g': nat, r': Region)
    requires g < g' < |lines| && lines[g].Guard? && lines[g'].Guard?
    requires IsRegionOf(lines, g, r) && IsRegionOf(lines, g', r')
    ensures r.last < r'.guard || (r.first <= r'.guard && r'.last < r.last)
  {
    if g' < r.last - 1 {
      InnerEndsFirst(lines, g, r.last - 1, g', r'.last - 1);
    }
  }
}
