/** Day 15: beacon exclusion zone.  Each sensor knows its closest beacon
    by Manhattan distance, so no other beacon lies within that distance;
    the rows of the covered area are merged into disjoint ranges. */
module Day15 {
  import opened Common

  datatype Coord = Coord(x: int, y: int)

  datatype SensorInput = SensorInput(sensor: Coord, beacon: Coord)

  /** An inclusive range of columns. */
  datatype Range = Range(start: int, end: int)

  function Abs(n: int): nat { if n < 0 then -n else n }

  function Dist(a: Coord, b: Coord): nat { Abs(a.x - b.x) + Abs(a.y - b.y) }

  function MaxOf(a: int, b: int): int { if a < b then b else a }

  predicate InRange(r: Range, x: int) { r.start <= x <= r.end }

  /** Some range of `rs` holds `x`. */
  predicate Covered(rs: seq<Range>, x: int) {
    exists i :: 0 <= i < |rs| && InRange(rs[i], x)
  }

  // ---------------------------------------------------------------------------
  // One sensor

  /** `detection_distance`: how far the sensor sees, the distance to its
      beacon. */
  function DetectionDistance(si: SensorInput): nat {
    Abs(si.sensor.x - si.beacon.x) + Abs(si.sensor.y - si.beacon.y)
  }

  /** The sensor sees exactly the cells no farther than its beacon. */
  predicate Sees(si: SensorInput, c: Coord) { Dist(si.sensor, c) <= DetectionDistance(si) }

  /** `coverage_for_row`: the columns of row `row` the sensor sees, or
      `None` when the row is beyond its reach. */
  function CoverageForRow(si: SensorInput, row: int): (r: Option<Range>)
    ensures r.None? <==> DetectionDistance(si) < Abs(si.sensor.y - row)
    ensures r.None? ==> forall x :: !Sees(si, Coord(x, row))
    ensures r.Some? ==> r.value.start <= r.value.end
    ensures r.Some? ==> forall x :: InRange(r.value, x) <==> Sees(si, Coord(x, row))
  {
    var verticalDistance := Abs(si.sensor.y - row);
    var detectionDistance := DetectionDistance(si);
    if detectionDistance < verticalDistance then None
    else
      var maxHorizontal := detectionDistance - verticalDistance;
      var col := si.sensor.x;
      Some(Range(col - maxHorizontal, col + maxHorizontal))
  }

  /** A sensor sees its own beacon, so the beacon's row is covered there. */
  lemma SeesOwnBeacon(si: SensorInput)
    ensures Sees(si, si.beacon)
    ensures CoverageForRow(si, si.beacon.y).Some? && InRange(CoverageForRow(si, si.beacon.y).value, si.beacon.x)
  {
  }

  /** Some sensor of `input` sees `c`. */
  predicate SeenBy(input: seq<SensorInput>, c: Coord) {
    exists i :: 0 <= i < |input| && Sees(input[i], c)
  }

  /** What the sensors see of row `row`, in input order. */
  function Coverages(input: seq<SensorInput>, row: int): (r: seq<Range>)
    ensures forall i :: 0 <= i < |r| ==> r[i].start <= r[i].end
    ensures forall x :: Covered(r, x) <==> SeenBy(input, Coord(x, row))
  {
    if input == [] then []
    else
      var init, last := input[..|input| - 1], input[|input| - 1];
      var rest := Coverages(init, row);
      assert forall x :: SeenBy(input, Coord(x, row)) <==> SeenBy(init, Coord(x, row)) || Sees(last, Coord(x, row)) by {
        forall x {
          SeesSnoc(input, Coord(x, row));
        }
      }
      match CoverageForRow(last, row)
      case None => rest
      case Some(r) =>
        CoveredSnoc(rest, r);
        rest + [r]
  }

  lemma CoveredSnoc(rs: seq<Range>, r: Range)
    ensures forall x :: Covered(rs + [r], x) <==> Covered(rs, x) || InRange(r, x)
  {
    forall x | Covered(rs + [r], x) && !InRange(r, x)
      ensures Covered(rs, x)
    {
      var i :| 0 <= i < |rs + [r]| && InRange((rs + [r])[i], x);
      assert (rs + [r])[i] == rs[i];
    }
    forall x | Covered(rs, x)
      ensures Covered(rs + [r], x)
    {
      var i :| 0 <= i < |rs| && InRange(rs[i], x);
      assert (rs + [r])[i] == rs[i];
    }
    forall x | InRange(r, x)
      ensures Covered(rs + [r], x)
    {
      assert (rs + [r])[|rs|] == r;
    }
  }

  lemma SeesSnoc(input: seq<SensorInput>, c: Coord)
    requires input != []
    ensures SeenBy(input, c) <==> SeenBy(input[..|input| - 1], c) || Sees(input[|input| - 1], c)
  {
    var init := input[..|input| - 1];
    assert forall i :: 0 <= i < |init| ==> input[i] == init[i];
  }

  // ---------------------------------------------------------------------------
  // Merging ranges

  function Start(r: Range): int { r.start }

  /** Every range of `rest` starts no earlier than `c` and they are sorted. */
  predicate SortedAfter(c: Range, rest: seq<Range>) {
    SortedBy(rest, Start) && forall i :: 0 <= i < |rest| ==> c.start <= rest[i].start
  }

  /** What `normalize_ranges` yields once `combined` has been taken and
      `rest` is still to be read: ranges starting within one past the end
      join `combined`, the first one beyond starts the next output. */
  function MergeFrom(combined: Range, rest: seq<Range>): (r: seq<Range>)
    ensures |r| >= 1 && r[0].start == combined.start
    ensures |r| <= |rest| + 1
    decreases |rest|
  {
    if rest == [] then [combined]
    else if rest[0].start <= combined.end + 1 then
      MergeFrom(Joined(combined, rest[0]), rest[1..])
    else [combined] + MergeFrom(rest[0], rest[1..])
  }

  function Merge(sorted: seq<Range>): (r: seq<Range>)
    ensures |r| <= |sorted|
  {
    if sorted == [] then [] else MergeFrom(sorted[0], sorted[1..])
  }

  /** `normalize_ranges`: sort by start, then merge. */
  function Normalize(ranges: seq<Range>): seq<Range> {
    Merge(SortBy(ranges, Start))
  }

  /** Sorted by start, and each range starts at least two past where the
      one before it ends: disjoint and not adjacent. */
  predicate Separated(rs: seq<Range>) {
    forall i :: 0 <= i < |rs| - 1 ==> rs[i].start <= rs[i + 1].start && rs[i + 1].start >= rs[i].end + 2
  }

  predicate NonEmpty(rs: seq<Range>) {
    forall i :: 0 <= i < |rs| ==> rs[i].start <= rs[i].end
  }

  /** Merging keeps exactly the cells of `combined` and `rest`, yields
      separated ranges, and non-empty ones from non-empty input. */
  lemma {:induction false} MergeFromMeaning(combined: Range, rest: seq<Range>)
    requires SortedAfter(combined, rest)
    ensures forall x :: Covered(MergeFrom(combined, rest), x) <==> InRange(combined, x) || Covered(rest, x)
    ensures Separated(MergeFrom(combined, rest))
    ensures combined.start <= combined.end && NonEmpty(rest) ==> NonEmpty(MergeFrom(combined, rest))
    decreases |rest|
  {
    if rest != [] {
      var next, tail := rest[0], rest[1..];
      assert SortedAfter(next, tail);
      if next.start <= combined.end + 1 {
        var joined := Joined(combined, next);
        assert SortedAfter(joined, tail);
        MergeFromMeaning(joined, tail);
        MergeStepCovers(combined, next, joined, rest);
      } else {
        MergeFromMeaning(next, tail);
        var r := MergeFrom(next, tail);
        SplitStepCovers(combined, r, rest);
      }
    }
  }

  /** Joining the next range to `combined` covers the same cells. */
  lemma MergeStepCovers(combined: Range, next: Range, joined: Range, rest: seq<Range>)
    requires rest != [] && rest[0] == next
    requires combined.start <= next.start <= combined.end + 1
    requires joined == Joined(combined, next)
    ensures forall x :: InRange(joined, x) || Covered(rest[1..], x) <==> InRange(combined, x) || Covered(rest, x)
  {
    forall x | Covered(rest, x)
      ensures InRange(next, x) || Covered(rest[1..], x)
    {
      var i :| 0 <= i < |rest| && InRange(rest[i], x);
      if i > 0 {
        assert rest[1..][i - 1] == rest[i];
      }
    }
    forall x | Covered(rest[1..], x)
      ensures Covered(rest, x)
    {
      var i :| 0 <= i < |rest| - 1 && InRange(rest[1..][i], x);
      assert rest[i + 1] == rest[1..][i];
    }
  }

  /** Starting a new output range after `combined`. */
  lemma SplitStepCovers(combined: Range, r: seq<Range>, rest: seq<Range>)
    requires rest != [] && combined.end + 1 < rest[0].start
    requires forall x :: Covered(r, x) <==> InRange(rest[0], x) || Covered(rest[1..], x)
    requires Separated(r) && r != [] && r[0].start == rest[0].start && combined.start <= rest[0].start
    ensures forall x :: Covered([combined] + r, x) <==> InRange(combined, x) || Covered(rest, x)
    ensures Separated([combined] + r)
  {
    var s := [combined] + r;
    assert s[0] == combined;
    forall x | Covered(s, x)
      ensures InRange(combined, x) || Covered(rest, x)
    {
      var i :| 0 <= i < |s| && InRange(s[i], x);
      if i > 0 {
        assert s[i] == r[i - 1];
        assert Covered(r, x);
        if !InRange(rest[0], x) {
          var j :| 0 <= j < |rest| - 1 && InRange(rest[1..][j], x);
          assert rest[j + 1] == rest[1..][j];
        }
      }
    }
    forall x | Covered(rest, x)
      ensures Covered(s, x)
    {
      var i :| 0 <= i < |rest| && InRange(rest[i], x);
      if i > 0 {
        assert rest[1..][i - 1] == rest[i];
      }
      assert Covered(r, x);
      var j :| 0 <= j < |r| && InRange(r[j], x);
      assert s[j + 1] == r[j];
    }
    forall i | 0 <= i < |s| - 1
      ensures s[i].start <= s[i + 1].start && s[i + 1].start >= s[i].end + 2
    {
      if i > 0 {
        assert s[i] == r[i - 1] && s[i + 1] == r[i];
      }
    }
  }

  /** `normalize_ranges` covers exactly the cells of its input with
      separated ranges, no more of them than it was given, non-empty when
      the input ranges are. */
  lemma NormalizeMeaning(ranges: seq<Range>)
    ensures forall x :: Covered(Normalize(ranges), x) <==> Covered(ranges, x)
    ensures Separated(Normalize(ranges))
    ensures |Normalize(ranges)| <= |ranges|
    ensures NonEmpty(ranges) ==> NonEmpty(Normalize(ranges))
  {
    var sorted := SortBy(ranges, Start);
    SortedCovers(ranges, sorted);
    if sorted != [] {
      assert SortedAfter(sorted[0], sorted[1..]);
      MergeFromMeaning(sorted[0], sorted[1..]);
      CoveredCons(sorted);
    }
  }

  lemma CoveredCons(rs: seq<Range>)
    requires rs != []
    ensures forall x :: Covered(rs, x) <==> InRange(rs[0], x) || Covered(rs[1..], x)
  {
    forall x | Covered(rs, x)
      ensures InRange(rs[0], x) || Covered(rs[1..], x)
    {
      var i :| 0 <= i < |rs| && InRange(rs[i], x);
      if i > 0 {
        assert rs[1..][i - 1] == rs[i];
      }
    }
    forall x | Covered(rs[1..], x)
      ensures Covered(rs, x)
    {
      var i :| 0 <= i < |rs| - 1 && InRange(rs[1..][i], x);
      assert rs[i + 1] == rs[1..][i];
    }
  }

  /** A permutation covers the same cells, and keeps ranges non-empty. */
  lemma SortedCovers(ranges: seq<Range>, sorted: seq<Range>)
    requires multiset(sorted) == multiset(ranges)
    ensures forall x :: Covered(sorted, x) <==> Covered(ranges, x)
    ensures NonEmpty(ranges) ==> NonEmpty(sorted)
  {
    forall x | Covered(sorted, x)
      ensures Covered(ranges, x)
    {
      var i :| 0 <= i < |sorted| && InRange(sorted[i], x);
      assert sorted[i] in multiset(ranges);
      var j :| 0 <= j < |ranges| && ranges[j] == sorted[i];
    }
    forall x | Covered(ranges, x)
      ensures Covered(sorted, x)
    {
      var i :| 0 <= i < |ranges| && InRange(ranges[i], x);
      assert ranges[i] in multiset(sorted);
      var j :| 0 <= j < |sorted| && sorted[j] == ranges[i];
    }
    if NonEmpty(ranges) {
      forall i | 0 <= i < |sorted|
        ensures sorted[i].start <= sorted[i].end
      {
        assert sorted[i] in multiset(ranges);
      }
    }
  }

  /** The range `combined` becomes once `next` joins it. */
  function Joined(combined: Range, next: Range): Range {
    if combined.end < next.end then Range(combined.start, next.end) else combined
  }

  lemma MergeBegin(sorted: seq<Range>, i: nat)
    requires i < |sorted|
    ensures Merge(sorted[i..]) == MergeFrom(sorted[i], sorted[i + 1..])
  {
    assert sorted[i..][1..] == sorted[i + 1..];
  }

  lemma JoinStep(combined: Range, sorted: seq<Range>, i: nat)
    requires i < |sorted| && sorted[i].start <= combined.end + 1
    ensures MergeFrom(combined, sorted[i..]) == MergeFrom(Joined(combined, sorted[i]), sorted[i + 1..])
  {
    assert sorted[i..][1..] == sorted[i + 1..];
  }

  lemma SplitStep(combined: Range, sorted: seq<Range>, i: nat)
    requires i <= |sorted| && (i < |sorted| ==> sorted[i].start > combined.end + 1)
    ensures MergeFrom(combined, sorted[i..]) == [combined] + Merge(sorted[i..])
  {
    if i < |sorted| {
      assert sorted[i..][1..] == sorted[i + 1..];
    }
  }

  /** `normalize_ranges` as the program runs it: after sorting, each output
      range takes the next range and absorbs the following ones while they
      start within one past its end. */
  method NormalizeRanges(ranges: seq<Range>) returns (out: seq<Range>)
    ensures out == Normalize(ranges)
  {
    var sorted := SortBy(ranges, Start);
    out := MergeSorted(sorted);
  }

  /** The merging half of `normalize_ranges`. */
  method MergeSorted(sorted: seq<Range>) returns (out: seq<Range>)
    ensures out == Merge(sorted)
  {
    out := [];
    var i := 0;
    assert sorted[0..] == sorted;
    while i < |sorted|
      invariant i <= |sorted|
      invariant out + Merge(sorted[i..]) == Merge(sorted)
      decreases |sorted| - i
    {
      var combinedRange := sorted[i];
      MergeBegin(sorted, i);
      i := i + 1;
      while i < |sorted| && sorted[i].start <= combinedRange.end + 1
        invariant i <= |sorted|
        invariant out + MergeFrom(combinedRange, sorted[i..]) == Merge(sorted)
        decreases |sorted| - i
      {
        var nextRange := sorted[i];
        JoinStep(combinedRange, sorted, i);
        if combinedRange.end < nextRange.end {
          combinedRange := Range(combinedRange.start, nextRange.end);
        }
        i := i + 1;
      }
      SplitStep(combinedRange, sorted, i);
      assert out + MergeFrom(combinedRange, sorted[i..]) == (out + [combinedRange]) + Merge(sorted[i..]);
      out := out + [combinedRange];
    }
    assert out + Merge([]) == out;
  }

  // ---------------------------------------------------------------------------
  // Part 1: counting covered cells

  /** The cells of a range. */
  function Cells(r: Range): (c: set<int>)
    ensures forall x :: x in c <==> InRange(r, x)
    ensures r.start <= r.end ==> |c| == r.end - r.start + 1
    decreases r.end - r.start
  {
    if r.end < r.start then {}
    else
      var shorter := Cells(Range(r.start, r.end - 1));
      assert r.end !in shorter;
      shorter + {r.end}
  }

  /** The cells of all the ranges. */
  function Union(rs: seq<Range>): set<int> {
    if rs == [] then {} else Union(rs[..|rs| - 1]) + Cells(rs[|rs| - 1])
  }

  lemma {:induction false} UnionMeaning(rs: seq<Range>)
    ensures forall x :: x in Union(rs) <==> Covered(rs, x)
  {
    if rs != [] {
      UnionMeaning(rs[..|rs| - 1]);
      CoveredSnoc(rs[..|rs| - 1], rs[|rs| - 1]);
      assert rs[..|rs| - 1] + [rs[|rs| - 1]] == rs;
    }
  }

  /** The sum of the range lengths `part_1` computes. */
  function NumCovered(rs: seq<Range>): int {
    if rs == [] then 0 else NumCovered(rs[..|rs| - 1]) + (rs[|rs| - 1].end - rs[|rs| - 1].start + 1)
  }

  /** Every covered cell of separated non-empty ranges lies between the
      first start and the last end. */
  lemma {:induction false} SeparatedBounds(rs: seq<Range>, x: int)
    requires rs != [] && Separated(rs) && NonEmpty(rs) && Covered(rs, x)
    ensures rs[0].start <= x <= rs[|rs| - 1].end
  {
    var i :| 0 <= i < |rs| && InRange(rs[i], x);
    SeparatedOrder(rs, 0, i);
    SeparatedOrder(rs, i, |rs| - 1);
  }

  /** In separated non-empty ranges, later ranges start after earlier ones
      end, with a gap of at least one cell. */
  lemma {:induction false} SeparatedOrder(rs: seq<Range>, i: nat, j: nat)
    requires i <= j < |rs| && Separated(rs) && NonEmpty(rs)
    ensures rs[i].start <= rs[j].start && rs[i].end <= rs[j].end
    ensures i < j ==> rs[i].end + 2 <= rs[j].start
    decreases j - i
  {
    if i < j {
      SeparatedOrder(rs, i + 1, j);
    }
  }

  /** Separated ranges share no cell, so the sum of their lengths counts
      their cells. */
  lemma {:induction false} NumCoveredCounts(rs: seq<Range>)
    requires Separated(rs) && NonEmpty(rs)
    ensures NumCovered(rs) == |Union(rs)|
  {
    if rs != [] {
      var init, last := rs[..|rs| - 1], rs[|rs| - 1];
      assert Separated(init) && NonEmpty(init);
      NumCoveredCounts(init);
      var u, c := Union(init), Cells(last);
      assert Union(rs) == u + c;
      assert u * c == {} by {
        InitBeforeLast(rs, init);
        forall x | x in c
          ensures x !in u
        {
          assert InRange(last, x);
        }
      }
      DisjointCard(u, c);
    }
  }

  /** The cells of all but the last of separated ranges lie before the
      last one. */
  lemma InitBeforeLast(rs: seq<Range>, init: seq<Range>)
    requires rs != [] && Separated(rs) && NonEmpty(rs) && init == rs[..|rs| - 1]
    ensures forall x :: x in Union(init) ==> x < rs[|rs| - 1].start
  {
    UnionMeaning(init);
    if init != [] {
      assert Separated(init) && NonEmpty(init);
      forall x | x in Union(init)
        ensures x < rs[|rs| - 1].start
      {
        SeparatedBounds(init, x);
        assert init[|init| - 1] == rs[|rs| - 2];
      }
    }
  }

  lemma DisjointCard(a: set<int>, b: set<int>)
    requires a * b == {}
    ensures |a + b| == |a| + |b|
  {
  }

  /** The columns of the beacons on row `row`. */
  function BeaconXs(input: seq<SensorInput>, row: int): set<int> {
    set i | 0 <= i < |input| && input[i].beacon.y == row :: input[i].beacon.x
  }

  /** The cells of row `row` where no beacon can be: seen by a sensor, and
      not a known beacon. */
  function Excluded(input: seq<SensorInput>, row: int): (e: set<int>)
    ensures forall x :: x in e <==> SeenBy(input, Coord(x, row)) && x !in BeaconXs(input, row)
  {
    UnionMeaning(Coverages(input, row));
    set x | x in Union(Coverages(input, row)) && x !in BeaconXs(input, row)
  }

  /** The count `part_1` computes for row `row`: covered cells minus the
      distinct beacon columns on that row. */
  function NoBeaconCount(input: seq<SensorInput>, row: int): int {
    NumCovered(Normalize(Coverages(input, row))) - |BeaconXs(input, row)|
  }

  /** The number of cells of row 2,000,000 where no beacon can be. */
  function Part1(input: seq<SensorInput>): (r: int)
    ensures r == |Excluded(input, 2000000)|
  {
    NoBeaconCountMeaning(input, 2000000);
    NoBeaconCount(input, 2000000)
  }

  /** The count is the number of cells of the row where no beacon can be;
      in particular the `usize` subtraction never goes below zero. */
  lemma NoBeaconCountMeaning(input: seq<SensorInput>, row: int)
    ensures NoBeaconCount(input, row) == |Excluded(input, row)|
  {
    var cov := Coverages(input, row);
    var n := Normalize(cov);
    NormalizeMeaning(cov);
    NumCoveredCounts(n);
    SameUnion(n, cov);
    BeaconsCovered(input, row);
    var beacons := BeaconXs(input, row);
    assert Excluded(input, row) == Union(cov) - beacons;
    assert Union(cov) == Excluded(input, row) + beacons;
  }

  lemma SameUnion(a: seq<Range>, b: seq<Range>)
    requires forall x :: Covered(a, x) <==> Covered(b, x)
    ensures Union(a) == Union(b)
  {
    var ua, ub := Union(a), Union(b);
    UnionMeaning(a);
    UnionMeaning(b);
    forall x | x in ua
      ensures x in ub
    {
      assert Covered(a, x);
    }
    forall x | x in ub
      ensures x in ua
    {
      assert Covered(b, x);
    }
  }

  /** Every beacon on the row is seen by its own sensor. */
  lemma BeaconsCovered(input: seq<SensorInput>, row: int)
    ensures BeaconXs(input, row) <= Union(Coverages(input, row))
  {
    UnionMeaning(Coverages(input, row));
    forall x | x in BeaconXs(input, row)
      ensures SeenBy(input, Coord(x, row))
    {
      var i :| 0 <= i < |input| && input[i].beacon.y == row && input[i].beacon.x == x;
      SeesOwnBeacon(input[i]);
      assert input[i].beacon == Coord(x, row);
    }
  }

  // ---------------------------------------------------------------------------
  // Part 2: the one open cell

  /** What `find_opening` finds from the window after range `i` on. */
  function GapFrom(allowed: Range, rs: seq<Range>, i: nat): Option<int>
    requires i < |rs|
    decreases |rs| - i
  {
    if i == |rs| - 1 then
      if rs[i].end + 1 == allowed.end then Some(allowed.end) else None
    else if rs[i].end + 2 == rs[i + 1].start then Some(rs[i].end + 1)
    else GapFrom(allowed, rs, i + 1)
  }

  /** What `find_opening` finds: the allowed start when the first range
      begins just after it, a one-cell gap between two ranges, or the
      allowed end when the last range stops just before it. */
  function Opening(allowed: Range, rs: seq<Range>): Option<int>
    requires rs != []
  {
    if rs[0].start == allowed.start + 1 then Some(allowed.start) else GapFrom(allowed, rs, 0)
  }

  /** `find_opening`: walks the windows of the ranges with nothing before
      the first and nothing after the last (an empty list of ranges makes
      `find_opening` panic). */
  method FindOpening(allowed: Range, ranges: seq<Range>) returns (r: Option<int>)
    requires ranges != []
    ensures r == Opening(allowed, ranges)
  {
    for j := 0 to |ranges| + 1
      invariant j > 0 ==> Opening(allowed, ranges) == if j <= |ranges| then GapFrom(allowed, ranges, j - 1) else None
    {
      var prevRange: Option<Range> := if j == 0 then None else Some(ranges[j - 1]);
      var nextRange: Option<Range> := if j == |ranges| then None else Some(ranges[j]);
      match (prevRange, nextRange) {
        case (None, None) =>
          assert false;
        case (None, Some(next)) =>
          if next.start == allowed.start + 1 {
            return Some(allowed.start);
          }
        case (Some(prev), None) =>
          if prev.end + 1 == allowed.end {
            return Some(allowed.end);
          }
        case (Some(prev), Some(next)) =>
          if prev.end + 2 == next.start {
            return Some(prev.end + 1);
          }
      }
    }
    return None;
  }

  /** For separated non-empty ranges, what `find_opening` returns is a
      single uncovered cell: each neighbour is covered or is the allowed
      bound it was found at. */
  lemma OpeningIsSingleCell(allowed: Range, rs: seq<Range>)
    requires rs != [] && Separated(rs) && NonEmpty(rs)
    ensures var r := Opening(allowed, rs);
      r.Some? ==> (!Covered(rs, r.value)
        && (r.value == allowed.start || Covered(rs, r.value - 1))
        && (r.value == allowed.end || Covered(rs, r.value + 1)))
  {
    if rs[0].start == allowed.start + 1 {
      var c := allowed.start;
      assert InRange(rs[0], c + 1);
      if Covered(rs, c) {
        SeparatedBounds(rs, c);
      }
    } else {
      GapFromIsSingleCell(allowed, rs, 0);
    }
  }

  lemma {:induction false} GapFromIsSingleCell(allowed: Range, rs: seq<Range>, i: nat)
    requires i < |rs| && Separated(rs) && NonEmpty(rs)
    ensures var r := GapFrom(allowed, rs, i);
      r.Some? ==> (!Covered(rs, r.value)
        && (r.value == allowed.start || Covered(rs, r.value - 1))
        && (r.value == allowed.end || Covered(rs, r.value + 1)))
    decreases |rs| - i
  {
    if i == |rs| - 1 {
      var c := rs[i].end + 1;
      assert InRange(rs[i], c - 1);
      if Covered(rs, c) {
        SeparatedBounds(rs, c);
      }
    } else if rs[i].end + 2 == rs[i + 1].start {
      var c := rs[i].end + 1;
      assert InRange(rs[i], c - 1) && InRange(rs[i + 1], c + 1);
      if Covered(rs, c) {
        var k :| 0 <= k < |rs| && InRange(rs[k], c);
        if k <= i {
          SeparatedOrder(rs, k, i);
        } else {
          SeparatedOrder(rs, i + 1, k);
        }
      }
    } else {
      GapFromIsSingleCell(allowed, rs, i + 1);
    }
  }

  /** The multiplier of the tuning frequency, also the last allowed row
      and column. */
  const XMultiplier := 4000000

  /** Some sensor reaches every allowed row (otherwise `find_opening`
      panics on a row without ranges). */
  predicate RowsReached(input: seq<SensorInput>) {
    forall row :: 0 <= row <= XMultiplier ==> Reached(input, row)
  }

  predicate Reached(input: seq<SensorInput>, row: int) {
    exists i :: 0 <= i < |input| && Abs(input[i].sensor.y - row) <= DetectionDistance(input[i])
  }

  lemma RowHasRanges(input: seq<SensorInput>, row: int)
    requires RowsReached(input) && 0 <= row <= XMultiplier
    ensures Normalize(Coverages(input, row)) != []
  {
    assert Reached(input, row);
    var i :| 0 <= i < |input| && Abs(input[i].sensor.y - row) <= DetectionDistance(input[i]);
    assert Sees(input[i], Coord(input[i].sensor.x, row));
    NormalizeMeaning(Coverages(input, row));
    assert Covered(Normalize(Coverages(input, row)), input[i].sensor.x);
  }

  /** The opening `find_opening` reports for one row. */
  function RowOpening(input: seq<SensorInput>, row: int): Option<int>
    requires RowsReached(input) && 0 <= row <= XMultiplier
  {
    RowHasRanges(input, row);
    Opening(Range(0, XMultiplier), Normalize(Coverages(input, row)))
  }

  /** The openings of all the allowed rows, row by row. */
  ghost function Openings(input: seq<SensorInput>): (s: seq<Option<int>>)
    requires RowsReached(input)
    ensures |s| == XMultiplier + 1
  {
    seq(XMultiplier + 1, k requires 0 <= k <= XMultiplier => RowOpening(input, k))
  }

  /** The first entry from `i` on that holds a column, with its index. */
  function FirstSome(s: seq<Option<int>>, i: nat): Option<(int, int)>
    decreases |s| - i
  {
    if i >= |s| then None
    else
      match s[i]
      case Some(col) => Some((col, i))
      case None => FirstSome(s, i + 1)
  }

  /** The entry found is the first one from `i` on that holds a column. */
  lemma {:induction false} FirstSomeMeaning(s: seq<Option<int>>, i: nat)
    ensures match FirstSome(s, i)
      case Some((col, k)) => i <= k < |s| && s[k] == Some(col) && forall j :: i <= j < k ==> s[j].None?
      case None => forall j :: i <= j < |s| ==> s[j].None?
    decreases |s| - i
  {
    if i < |s| && s[i].None? {
      FirstSomeMeaning(s, i + 1);
    }
  }

  /** The tuning frequency of an opening, 0 for none. */
  function Frequency(r: Option<(int, int)>): int {
    match r
    case Some((col, row)) => col * XMultiplier + row
    case None => 0
  }

  /** `part_2`: scans the allowed rows for the first opening and returns
      its tuning frequency, or 0 when there is none. */
  method Part2(input: seq<SensorInput>) returns (frequency: int)
    requires RowsReached(input)
    ensures frequency == Frequency(FirstSome(Openings(input), 0))
  {
    var allowedIn := Range(0, XMultiplier);
    ghost var openings := Openings(input);
    for row := 0 to XMultiplier + 1
      invariant FirstSome(openings, 0) == FirstSome(openings, row)
    {
      RowHasRanges(input, row);
      var ranges := NormalizeRanges(Coverages(input, row));
      var col := FindOpening(allowedIn, ranges);
      assert col == openings[row];
      if col.Some? {
        return col.value * XMultiplier + row;
      }
    }
    return 0;
  }

  /** The opening found is a cell of the row that no sensor sees, with
      each neighbour seen or at the edge of the allowed area. */
  lemma RowOpeningMeaning(input: seq<SensorInput>, row: int)
    requires RowsReached(input) && 0 <= row <= XMultiplier
    ensures var r := RowOpening(input, row);
      r.Some? ==> (!SeenBy(input, Coord(r.value, row))
        && (r.value == 0 || SeenBy(input, Coord(r.value - 1, row)))
        && (r.value == XMultiplier || SeenBy(input, Coord(r.value + 1, row))))
  {
    var cov := Coverages(input, row);
    RowHasRanges(input, row);
    NormalizeMeaning(cov);
    OpeningIsSingleCell(Range(0, XMultiplier), Normalize(cov));
  }
}
