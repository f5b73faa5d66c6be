/** Day 20: mixing a circular list of numbers. The list itself never moves;
    a vector of indices into it is rearranged by removing an index and
    inserting it again further along, and the answer is read off the
    rearranged indices, counting from the number zero. */
module Day20 {
  import opened Common

  /** The decryption key `part_2` multiplies every number by. */
  const DecryptionKey: int := 811589153

  /** `0, 1, ..., n - 1`: the order before any mixing. */
  function Iota(n: nat): (r: seq<nat>)
    ensures |r| == n && forall i :: 0 <= i < n ==> r[i] == i
  {
    seq(n, i => i)
  }

  /** `Vec::remove`: the element at `p` is taken out. */
  function RemoveAt(s: seq<nat>, p: nat): (r: seq<nat>)
    requires p < |s|
    ensures |r| == |s| - 1
    ensures forall i :: 0 <= i < p ==> r[i] == s[i]
    ensures forall i :: p <= i < |r| ==> r[i] == s[i + 1]
  {
    s[..p] + s[p + 1..]
  }

  /** `Vec::insert`: `x` is put at `p`, shifting what follows. */
  function InsertAt(s: seq<nat>, p: nat, x: nat): (r: seq<nat>)
    requires p <= |s|
    ensures |r| == |s| + 1 && r[p] == x
    ensures forall i :: 0 <= i < p ==> r[i] == s[i]
    ensures forall i :: p < i < |r| ==> r[i] == s[i - 1]
  {
    s[..p] + [x] + s[p..]
  }

  lemma RemoveInsert(s: seq<nat>, p: nat, x: nat)
    requires p <= |s|
    ensures RemoveAt(InsertAt(s, p, x), p) == s
  {
  }

  /** Taking an element out and putting it back anywhere keeps the
      multiset of elements. */
  lemma MoveKeepsElements(s: seq<nat>, p: nat, q: nat)
    requires p < |s| && q < |s|
    ensures multiset(InsertAt(RemoveAt(s, p), q, s[p])) == multiset(s)
  {
    var t := RemoveAt(s, p);
    assert s == s[..p] + [s[p]] + s[p + 1..];
    assert multiset(s) == multiset(t) + multiset{s[p]};
    assert InsertAt(t, q, s[p]) == t[..q] + [s[p]] + t[q..];
    assert t == t[..q] + t[q..];
  }

  /** `iter().position(|i| *i == x)`: the first place holding `x`. */
  function FirstIndex(s: seq<nat>, x: nat): (p: nat)
    requires x in s
    ensures p < |s| && s[p] == x
    ensures forall i :: 0 <= i < p ==> s[i] != x
  {
    if s[0] == x then 0 else 1 + FirstIndex(s[1..], x)
  }

  lemma ModSum(a: nat, b: nat, d: nat)
    requires d > 0
    ensures (a % d + b) % d == (a + b) % d
  {
    var q, r := a / d, a % d;
    assert a == d * q + r;
    ModAddMultiple(d, q, r + b);
  }

  /** The place the moved index ends up at: `pos + num` taken
      `rem_euclid` the length less one, so always one of `0 ..= n - 2`
      and congruent to `pos + num`; a list of one number would make the
      remainder divide by zero, so `n >= 2`. */
  function NewPosition(pos: nat, num: int, n: nat): (r: nat)
    requires n >= 2
    ensures r <= n - 2
  {
    (pos + num) % (n - 1)
  }

  /** Taking the new position `rem_euclid` once more changes nothing. */
  lemma NewPositionReduced(pos: nat, num: int, n: nat)
    requires n >= 2
    ensures NewPosition(pos, num, n) % (n - 1) == NewPosition(pos, num, n)
  {
    DivUnique(NewPosition(pos, num, n), n - 1, 0, NewPosition(pos, num, n));
  }

  /** One round of the loop in `mix_indices`: the index `idx` is found,
      and unless it already sits where it should go, it is removed and
      inserted at its new position. In the forward case the source takes
      the new position `rem_euclid` once more, which changes nothing. */
  function Moved(s: seq<nat>, idx: nat, num: int, n: nat): (r: seq<nat>)
    requires n >= 2 && n <= |s| && idx in s
    ensures multiset(r) == multiset(s)
  {
    var pos := FirstIndex(s, idx);
    var newPos := NewPosition(pos, num, n);
    if pos == newPos then s
    else
      MoveKeepsElements(s, pos, newPos);
      NewPositionReduced(pos, num, n);
      if pos > newPos then InsertAt(RemoveAt(s, pos), newPos, idx)
      else InsertAt(RemoveAt(s, pos), newPos % (n - 1), idx)
  }

  /** After the move `idx` is at the new position, and removing it from
      before and after leaves the same sequence: the other indices keep
      their relative order. When the position does not change, nothing
      does. */
  lemma MovedMeaning(s: seq<nat>, idx: nat, num: int, n: nat)
    requires n >= 2 && n <= |s| && idx in s
    ensures var pos := FirstIndex(s, idx);
            var newPos := NewPosition(pos, num, n);
            var r := Moved(s, idx, num, n);
            |r| == |s| && r[newPos] == idx && RemoveAt(r, newPos) == RemoveAt(s, pos)
            && (pos == newPos ==> r == s)
  {
    var pos := FirstIndex(s, idx);
    var newPos := NewPosition(pos, num, n);
    if pos != newPos {
      NewPositionReduced(pos, num, n);
      RemoveInsert(RemoveAt(s, pos), newPos, idx);
    }
  }

  /** Every number below `n` has its index somewhere in `s`, and `s` is
      long enough to take every new position: what `mix_indices` needs
      so that its `position(..).unwrap()` and `insert` do not panic. */
  predicate Mixable(s: seq<nat>, n: nat) {
    n != 1 && n <= |s| && forall idx :: 0 <= idx < n ==> idx in s
  }

  /** `mix_indices` after its loop has moved the indices of the first
      `k` numbers. */
  function Mixed(s: seq<nat>, numbers: seq<int>, k: nat): (r: seq<nat>)
    requires k <= |numbers| && Mixable(s, |numbers|)
    ensures multiset(r) == multiset(s)
  {
    if k == 0 then s
    else
      var prev := Mixed(s, numbers, k - 1);
      assert k - 1 in s;
      assert k - 1 in multiset(s);
      Moved(prev, k - 1, numbers[k - 1], |numbers|)
  }

  /** Mixing keeps every index and the length, so the indices stay
      mixable. */
  lemma MixedIsMixable(s: seq<nat>, numbers: seq<int>, k: nat)
    requires k <= |numbers| && Mixable(s, |numbers|)
    ensures |Mixed(s, numbers, k)| == |s| && Mixable(Mixed(s, numbers, k), |numbers|)
  {
    var r := Mixed(s, numbers, k);
    assert |multiset(r)| == |multiset(s)|;
    forall idx | 0 <= idx < |numbers|
      ensures idx in r
    {
      assert idx in s;
      assert idx in multiset(s);
      assert idx in multiset(r);
    }
  }

  /** `mix_indices` applied `rounds` times, as `part_2` does ten times. */
  function Mixes(s: seq<nat>, numbers: seq<int>, rounds: nat): (r: seq<nat>)
    requires Mixable(s, |numbers|)
    ensures multiset(r) == multiset(s) && Mixable(r, |numbers|)
  {
    if rounds == 0 then s
    else
      var prev := Mixes(s, numbers, rounds - 1);
      MixedIsMixable(prev, numbers, |numbers|);
      Mixed(prev, numbers, |numbers|)
  }

  /** `mix_indices`: the index of every number in turn is removed and
      inserted again at its new position. */
  method MixIndices(indices: seq<nat>, numbers: seq<int>) returns (r: seq<nat>)
    requires Mixable(indices, |numbers|)
    ensures r == Mixed(indices, numbers, |numbers|)
  {
    r := indices;
    for idx := 0 to |numbers|
      invariant r == Mixed(indices, numbers, idx)
    {
      MixedIsMixable(indices, numbers, idx);
      r := MoveIndex(r, idx, numbers[idx], |numbers|);
    }
  }

  /** The body of the loop in `mix_indices` for the number at `idx`. */
  method MoveIndex(s: seq<nat>, idx: nat, num: int, n: nat) returns (r: seq<nat>)
    requires n >= 2 && n <= |s| && idx in s
    ensures r == Moved(s, idx, num, n)
  {
    r := s;
    var pos := FirstIndex(r, idx);
    var newPos := (pos + num) % (n - 1);
    assert newPos == NewPosition(pos, num, n);
    NewPositionReduced(pos, num, n);
    if pos > newPos {
      r := RemoveAt(r, pos);
      r := InsertAt(r, newPos, idx);
    } else if pos < newPos {
      r := RemoveAt(r, pos);
      r := InsertAt(r, newPos % (n - 1), idx);
    }
  }

  /** Every index points into `numbers`. */
  predicate IndexesInto(indices: seq<nat>, numbers: seq<int>) {
    forall i :: 0 <= i < |indices| ==> indices[i] < |numbers|
  }

  /** Some index points at a zero. */
  predicate HasZero(indices: seq<nat>, numbers: seq<int>)
    requires IndexesInto(indices, numbers)
  {
    exists i :: 0 <= i < |indices| && numbers[indices[i]] == 0
  }

  /** The first place whose index points at a zero. */
  function ZeroPosition(indices: seq<nat>, numbers: seq<int>): (p: nat)
    requires IndexesInto(indices, numbers) && HasZero(indices, numbers)
    ensures p < |indices| && numbers[indices[p]] == 0
    ensures forall i :: 0 <= i < p ==> numbers[indices[i]] != 0
  {
    if numbers[indices[0]] == 0 then 0
    else
      var i :| 0 <= i < |indices| && numbers[indices[i]] == 0;
      assert numbers[indices[1..][i - 1]] == 0;
      1 + ZeroPosition(indices[1..], numbers)
  }

  /** The number `offset` places after the zero, going round the circle. */
  function After(indices: seq<nat>, numbers: seq<int>, zero: nat, offset: nat): int
    requires IndexesInto(indices, numbers) && |indices| > 0
  {
    numbers[indices[(zero + offset) % |indices|]]
  }

  /** `extract_answer`: the numbers 1000, 2000 and 3000 places after the
      zero added up; without a zero, `position(..).unwrap()` panics. */
  function ExtractAnswer(indices: seq<nat>, numbers: seq<int>): int
    requires IndexesInto(indices, numbers) && HasZero(indices, numbers)
  {
    var zero := ZeroPosition(indices, numbers);
    After(indices, numbers, zero, 1000) + After(indices, numbers, zero, 2000)
      + After(indices, numbers, zero, 3000)
  }

  /** The same circle read from another starting place. */
  function Rotated(s: seq<nat>, k: nat): (r: seq<nat>)
    requires k < |s|
    ensures |r| == |s|
  {
    s[k..] + s[..k]
  }

  lemma RotatedAt(s: seq<nat>, k: nat, j: nat)
    requires k < |s| && j < |s|
    ensures Rotated(s, k)[j] == s[(j + k) % |s|]
  {
    if j + k < |s| {
      DivUnique(j + k, |s|, 0, j + k);
    } else {
      DivUnique(j + k, |s|, 1, j + k - |s|);
    }
  }

  /** Only one number is zero, as in the puzzle's lists. */
  predicate OneZero(indices: seq<nat>, numbers: seq<int>)
    requires IndexesInto(indices, numbers)
  {
    forall i, j ::
      0 <= i < |indices| && 0 <= j < |indices| && numbers[indices[i]] == 0 && numbers[indices[j]] == 0
      ==> i == j
  }

  /** The answer depends only on the circle, not on where the vector of
      indices happens to start: with a single zero, rotating the indices
      leaves `extract_answer` unchanged. */
  lemma ExtractAnswerRotation(indices: seq<nat>, numbers: seq<int>, k: nat)
    requires IndexesInto(indices, numbers) && HasZero(indices, numbers)
    requires OneZero(indices, numbers) && k < |indices|
    ensures IndexesInto(Rotated(indices, k), numbers) && HasZero(Rotated(indices, k), numbers)
    ensures ExtractAnswer(Rotated(indices, k), numbers) == ExtractAnswer(indices, numbers)
  {
    var s, L := Rotated(indices, k), |indices|;
    RotatedAll(indices, k);
    var zero := ZeroPosition(indices, numbers);
    var z := (zero + L - k) % L;
    ShiftBack(zero, k, L);
    assert numbers[s[z]] == 0;
    var z' := ZeroPosition(s, numbers);
    assert (z' + k) % L == zero by {
      assert indices[(z' + k) % L] == s[z'];
    }
    AfterRotated(indices, numbers, k, z', 1000);
    AfterRotated(indices, numbers, k, z', 2000);
    AfterRotated(indices, numbers, k, z', 3000);
  }

  lemma RotatedAll(s: seq<nat>, k: nat)
    requires k < |s|
    ensures forall j :: 0 <= j < |s| ==> Rotated(s, k)[j] == s[(j + k) % |s|]
  {
    forall j | 0 <= j < |s|
      ensures Rotated(s, k)[j] == s[(j + k) % |s|]
    {
      RotatedAt(s, k, j);
    }
  }

  lemma ModSwap(a: nat, b: nat, c: nat, d: nat)
    requires d > 0
    ensures ((a + b) % d + c) % d == ((a + c) % d + b) % d
  {
    var x, y := (a + b) % d, (a + c) % d;
    var s := a + b + c;
    DivUnique(a + b, d, (a + b) / d, x);
    DivUnique(a + c, d, (a + c) / d, y);
    DivUnique(s, d, (a + b) / d + (x + c) / d, (x + c) % d);
    DivUnique(s, d, (a + c) / d + (y + b) / d, (y + b) % d);
  }

  /** Stepping `k` back round the circle and then `k` forward again. */
  lemma ShiftBack(zero: nat, k: nat, L: nat)
    requires zero < L && k < L
    ensures ((zero + L - k) % L + k) % L == zero
  {
    ModSum(zero + L - k, k, L);
    AddMod(zero, L);
    DivUnique(zero, L, 0, zero);
  }

  /** Counting `offset` on from place `z` of the rotated indices is counting
      it on from place `z + k` of the original ones. */
  lemma AfterRotated(indices: seq<nat>, numbers: seq<int>, k: nat, z: nat, offset: nat)
    requires IndexesInto(indices, numbers) && k < |indices| && z < |indices|
    requires IndexesInto(Rotated(indices, k), numbers)
    ensures After(Rotated(indices, k), numbers, z, offset)
            == After(indices, numbers, (z + k) % |indices|, offset)
  {
    var L := |indices|;
    var j := (z + offset) % L;
    RotatedAt(indices, k, j);
    ModSwap(z, offset, k, L);
  }

  /** Mixing the starting order of a list with a zero leaves an arrangement
      that `extract_answer` accepts. */
  lemma MixedAnswerable(s: seq<nat>, numbers: seq<int>)
    requires multiset(s) == multiset(Iota(|numbers|)) && 0 in numbers
    ensures IndexesInto(s, numbers) && HasZero(s, numbers)
  {
    forall i | 0 <= i < |s|
      ensures s[i] < |numbers|
    {
      assert s[i] in multiset(Iota(|numbers|));
    }
    var z :| 0 <= z < |numbers| && numbers[z] == 0;
    assert Iota(|numbers|)[z] == z;
    assert z in multiset(s);
    var i :| 0 <= i < |s| && s[i] == z;
  }

  lemma IotaMixable(n: nat)
    requires n != 1
    ensures Mixable(Iota(n), n)
  {
    forall idx | 0 <= idx < n
      ensures idx in Iota(n)
    {
      assert Iota(n)[idx] == idx;
    }
  }

  /** `part_1`: mix the starting order once and read off the answer. */
  method Part1(input: seq<int>) returns (answer: int)
    requires |input| != 1 && 0 in input
    ensures Mixable(Iota(|input|), |input|)
    ensures IndexesInto(Mixed(Iota(|input|), input, |input|), input)
            && HasZero(Mixed(Iota(|input|), input, |input|), input)
    ensures answer == ExtractAnswer(Mixed(Iota(|input|), input, |input|), input)
  {
    var indices := Iota(|input|);
    IotaMixable(|input|);
    indices := MixIndices(indices, input);
    MixedAnswerable(indices, input);
    answer := ExtractAnswer(indices, input);
  }

  /** The numbers times the decryption key. */
  function Scaled(input: seq<int>): (r: seq<int>)
    ensures |r| == |input|
  {
    seq(|input|, i requires 0 <= i < |input| => input[i] * DecryptionKey)
  }

  /** The key is not zero, so scaling keeps exactly the zeros where they
      were, and everything else grows by the key. */
  lemma ScaledMeaning(input: seq<int>)
    ensures forall i :: 0 <= i < |input| ==> Scaled(input)[i] == input[i] * DecryptionKey
    ensures forall i :: 0 <= i < |input| ==> (Scaled(input)[i] == 0 <==> input[i] == 0)
    ensures 0 in input <==> 0 in Scaled(input)
  {
    forall i | 0 <= i < |input|
      ensures Scaled(input)[i] == 0 <==> input[i] == 0
    {
      ScaledZero(input[i]);
    }
    if 0 in input {
      var i :| 0 <= i < |input| && input[i] == 0;
      assert Scaled(input)[i] == 0;
    }
    if 0 in Scaled(input) {
      var i :| 0 <= i < |input| && Scaled(input)[i] == 0;
      assert input[i] == 0;
    }
  }

  lemma ScaledZero(x: int)
    ensures x * DecryptionKey == 0 <==> x == 0
  {
    if x > 0 {
      MulAtLeast(x, DecryptionKey);
    } else if x < 0 {
      MulAtLeast(-x, DecryptionKey);
      assert (-x) * DecryptionKey == -(x * DecryptionKey);
    }
  }

  /** `part_2`: scale by the decryption key, mix ten times, read off the
      answer. */
  method Part2(input: seq<int>) returns (answer: int)
    requires |input| != 1 && 0 in input
    ensures Mixable(Iota(|input|), |Scaled(input)|)
    ensures IndexesInto(Mixes(Iota(|input|), Scaled(input), 10), Scaled(input))
            && HasZero(Mixes(Iota(|input|), Scaled(input), 10), Scaled(input))
    ensures answer == ExtractAnswer(Mixes(Iota(|input|), Scaled(input), 10), Scaled(input))
  {
    var numbers := seq(|input|, i requires 0 <= i < |input| => input[i] * DecryptionKey);
    assert numbers == Scaled(input);
    ScaledMeaning(input);
    var indices := Iota(|input|);
    IotaMixable(|input|);
    for round := 0 to 10
      invariant indices == Mixes(Iota(|input|), numbers, round)
    {
      indices := MixIndices(indices, numbers);
    }
    MixedAnswerable(indices, numbers);
    answer := ExtractAnswer(indices, numbers);
  }
}
