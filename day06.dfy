/** Day 6: tuning trouble.  The end of the first window of `length`
    pairwise distinct letters marks the start of a packet or message. */
module Day6 {

  predicate IsLower(c: char) { 'a' <= c <= 'z' }

  predicate AllLower(s: string) { forall i :: 0 <= i < |s| ==> IsLower(s[i]) }

  predicate Distinct(s: string) { forall i, j :: 0 <= i < j < |s| ==> s[i] != s[j] }

  /** The window of `length` letters starting at `i` is pairwise distinct. */
  predicate DistinctAt(signal: string, i: nat, length: nat)
    requires i + length <= |signal|
  {
    Distinct(signal[i..i + length])
  }

  function LetterIndex(c: char): (idx: nat)
    requires IsLower(c)
    ensures idx < 26
  {
    (c as int) - ('a' as int)
  }

  /** `marker_end_position`: the end of the earliest window of `length`
      distinct letters, or 0.  Only windows starting before
      `|signal| - length` are examined, so a window that ends exactly at
      the end of the signal is never reported. */
  method MarkerEndPosition(signal: string, length: nat) returns (end: nat)
    requires length <= |signal| && AllLower(signal)
    ensures end == 0 || (length <= end < |signal| && Distinct(signal[end - length..end]))
    ensures end != 0 ==> forall i :: 0 <= i < end - length ==> !DistinctAt(signal, i, length)
    ensures end == 0 && length > 0 ==> forall i :: 0 <= i < |signal| - length ==> !DistinctAt(signal, i, length)
  {
    for i := 0 to |signal| - length
      invariant forall j :: 0 <= j < i ==> !DistinctAt(signal, j, length)
    {
      var window := signal[i..i + length];
      var seen := new bool[26](_ => false);
      var k := 0;
      var repeated := false;
      while k < |window| && !repeated
        invariant 0 <= k <= |window|
        invariant !repeated ==> Distinct(window[..k])
        invariant !repeated ==> forall x :: 0 <= x < 26 ==>
          (seen[x] <==> exists j :: 0 <= j < k && LetterIndex(window[j]) == x)
        invariant repeated ==> !Distinct(window)
        decreases |window| - k, if repeated then 0 else 1
      {
        var idx := LetterIndex(window[k]);
        if seen[idx] {
          var j :| 0 <= j < k && LetterIndex(window[j]) == idx;
          assert window[j] == window[k];
          repeated := true;
        } else {
          seen[idx] := true;
          assert forall j :: 0 <= j < k ==> window[..k + 1][j] == window[..k][j];
          k := k + 1;
        }
      }
      if !repeated {
        assert window[..k] == window;
        return i + length;
      }
    }
    return 0;
  }

  method Part1(signal: string) returns (end: nat)
    requires 4 <= |signal| && AllLower(signal)
    ensures end == 0 || (4 <= end < |signal| && Distinct(signal[end - 4..end]))
    ensures end != 0 ==> forall i :: 0 <= i < end - 4 ==> !DistinctAt(signal, i, 4)
    ensures end == 0 ==> forall i :: 0 <= i < |signal| - 4 ==> !DistinctAt(signal, i, 4)
  {
    end := MarkerEndPosition(signal, 4);
  }

  method Part2(signal: string) returns (end: nat)
    requires 14 <= |signal| && AllLower(signal)
    ensures end == 0 || (14 <= end < |signal| && Distinct(signal[end - 14..end]))
    ensures end != 0 ==> forall i :: 0 <= i < end - 14 ==> !DistinctAt(signal, i, 14)
    ensures end == 0 ==> forall i :: 0 <= i < |signal| - 14 ==> !DistinctAt(signal, i, 14)
  {
    end := MarkerEndPosition(signal, 14);
  }
}
