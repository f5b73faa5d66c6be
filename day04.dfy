/** Day 4: camp cleanup.  Each line assigns two elves an inclusive range of
    section numbers. */
module Day4 {

  /** `RangeInclusive<usize>`: `start..=end`, empty when start > end. */
  datatype Range = Range(start: nat, end: nat)

  predicate Contains(r: Range, x: int) { r.start <= x <= r.end }

  predicate NonEmpty(r: Range) { r.start <= r.end }

  datatype PairRanges = PairRanges(first: Range, second: Range)

  function Get(p: PairRanges, i: nat): Range
    requires i < 2
  {
    if i == 0 then p.first else p.second
  }

  /** Both ends of range `i` lie in range `j`. */
  predicate IsIContainedInJ(p: PairRanges, i: nat, j: nat)
    requires i < 2 && j < 2
  {
    Contains(Get(p, j), Get(p, i).start) && Contains(Get(p, j), Get(p, i).end)
  }

  predicate IsOneContainedInTheOther(p: PairRanges) {
    IsIContainedInJ(p, 0, 1) || IsIContainedInJ(p, 1, 0)
  }

  predicate IsOverlapping(p: PairRanges) {
    var a, b := p.first, p.second;
    Contains(a, b.start) || Contains(a, b.end) || Contains(b, a.start) || Contains(b, a.end)
  }

  function Swap(p: PairRanges): PairRanges { PairRanges(p.second, p.first) }

  /** For a non-empty range, containment by endpoints is containment of
      every section. */
  lemma ContainmentMeansSubset(p: PairRanges, i: nat, j: nat)
    requires i < 2 && j < 2 && NonEmpty(Get(p, i))
    ensures IsIContainedInJ(p, i, j) <==> forall x :: Contains(Get(p, i), x) ==> Contains(Get(p, j), x)
  {
    if forall x :: Contains(Get(p, i), x) ==> Contains(Get(p, j), x) {
      assert Contains(Get(p, i), Get(p, i).start);
      assert Contains(Get(p, i), Get(p, i).end);
    }
  }

  /** Neither question depends on which elf is listed first. */
  lemma Symmetric(p: PairRanges)
    ensures IsOneContainedInTheOther(p) == IsOneContainedInTheOther(Swap(p))
    ensures IsOverlapping(p) == IsOverlapping(Swap(p))
  {
  }

  function MaxOf(a: int, b: int): int { if a < b then b else a }
  function MinOf(a: int, b: int): int { if a < b then a else b }

  /** Two non-empty ranges overlap exactly when they share a section, that
      is, when the larger start is not past the smaller end. */
  lemma OverlapIffSharedSection(p: PairRanges)
    requires NonEmpty(p.first) && NonEmpty(p.second)
    ensures IsOverlapping(p) <==> MaxOf(p.first.start, p.second.start) <= MinOf(p.first.end, p.second.end)
    ensures IsOverlapping(p) <==> exists x :: Contains(p.first, x) && Contains(p.second, x)
  {
    if IsOverlapping(p) {
      var x := MaxOf(p.first.start, p.second.start);
      assert Contains(p.first, x) && Contains(p.second, x);
    }
  }

  /** For non-empty ranges, containment implies overlap. */
  lemma ContainedImpliesOverlapping(p: PairRanges)
    requires NonEmpty(p.first) && NonEmpty(p.second)
    ensures IsOneContainedInTheOther(p) ==> IsOverlapping(p)
  {
  }

  /** The number of pairs where one range contains the other. */
  function Part1(input: seq<PairRanges>): (r: nat)
    ensures r <= |input|
    ensures r == 0 <==> forall i :: 0 <= i < |input| ==> !IsOneContainedInTheOther(input[i])
    ensures r == |input| <==> forall i :: 0 <= i < |input| ==> IsOneContainedInTheOther(input[i])
  {
    if input == [] then 0
    else (if IsOneContainedInTheOther(input[0]) then 1 else 0) + Part1(input[1..])
  }

  /** The number of pairs whose ranges overlap. */
  function Part2(input: seq<PairRanges>): (r: nat)
    ensures r <= |input|
    ensures r == 0 <==> forall i :: 0 <= i < |input| ==> !IsOverlapping(input[i])
    ensures r == |input| <==> forall i :: 0 <= i < |input| ==> IsOverlapping(input[i])
  {
    if input == [] then 0
    else (if IsOverlapping(input[0]) then 1 else 0) + Part2(input[1..])
  }

  /** So, over non-empty assignments, the part 1 count never exceeds the
      part 2 count, and neither exceeds the number of pairs. */
  lemma {:induction false} Part1AtMostPart2(input: seq<PairRanges>)
    requires forall i :: 0 <= i < |input| ==> NonEmpty(input[i].first) && NonEmpty(input[i].second)
    ensures Part1(input) <= Part2(input) <= |input|
  {
    if input != [] {
      ContainedImpliesOverlapping(input[0]);
      Part1AtMostPart2(input[1..]);
    }
  }
}
