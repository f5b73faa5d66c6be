/** Small shared vocabulary: an Option type, sums and maxima of sequences,
    a stable sort (standing for the standard library sorts the puzzles call),
    and decimal numbers as Rust's `usize` parser and `Display` see them. */
module Common {

  datatype Option<T> = None | Some(value: T)

  /** Sum of a sequence, peeled from the back so that a loop summing a
      prefix extends it one element at a time. */
  function Sum(s: seq<int>): int {
    if s == [] then 0 else Sum(s[..|s| - 1]) + s[|s| - 1]
  }

  lemma {:induction false} SumAppend(a: seq<int>, b: seq<int>)
    ensures Sum(a + b) == Sum(a) + Sum(b)
  {
    if b == [] {
      assert a + b == a;
    } else {
      assert (a + b)[..|a + b| - 1] == a + b[..|b| - 1];
      SumAppend(a, b[..|b| - 1]);
    }
  }

  lemma {:induction false} SumNonNegative(s: seq<int>)
    requires forall i :: 0 <= i < |s| ==> s[i] >= 0
    ensures Sum(s) >= 0
  {
    if s != [] {
      SumNonNegative(s[..|s| - 1]);
    }
  }

  /** A sum of `|s|` terms, each within [lo, hi], lies within [|s|·lo, |s|·hi]. */
  lemma {:induction false} SumBounds(s: seq<int>, lo: int, hi: int)
    requires forall i :: 0 <= i < |s| ==> lo <= s[i] <= hi
    ensures |s| * lo <= Sum(s) <= |s| * hi
  {
    if s != [] {
      var init := s[..|s| - 1];
      SumBounds(init, lo, hi);
      assert |s| * lo == |init| * lo + lo && |s| * hi == |init| * hi + hi;
    }
  }

  /** The sum of `f` over a finite set, in no particular order (standing
      for sums over hash-map values). */
  ghost function SetSum<T>(s: set<T>, f: T -> int): int {
    if s == {} then 0 else var x :| x in s; f(x) + SetSum(s - {x}, f)
  }

  /** The order the set sum takes its elements in does not matter. */
  lemma {:induction false} SetSumRemove<T>(s: set<T>, f: T -> int, y: T)
    requires y in s
    ensures SetSum(s, f) == f(y) + SetSum(s - {y}, f)
    decreases |s|
  {
    var x :| x in s && SetSum(s, f) == f(x) + SetSum(s - {x}, f);
    if x != y {
      SetSumRemove(s - {x}, f, y);
      SetSumRemove(s - {y}, f, x);
      assert s - {x} - {y} == s - {y} - {x};
    }
  }

  /** The largest element of a non-empty sequence. */
  function Max(s: seq<int>): (m: int)
    requires |s| > 0
    ensures m in s
    ensures forall i :: 0 <= i < |s| ==> s[i] <= m
  {
    if |s| == 1 then s[0]
    else
      var rest := Max(s[..|s| - 1]);
      assert forall i :: 0 <= i < |s| - 1 ==> s[i] == s[..|s| - 1][i];
      if rest < s[|s| - 1] then s[|s| - 1] else rest
  }

  predicate SortedBy<T>(s: seq<T>, key: T -> int) {
    forall i, j :: 0 <= i < j < |s| ==> key(s[i]) <= key(s[j])
  }

  /** Inserting `x` before the first element with a strictly larger key
      keeps a sorted sequence sorted and keeps equal keys in arrival order. */
  function InsertBy<T>(x: T, s: seq<T>, key: T -> int): (r: seq<T>)
    requires SortedBy(s, key)
    ensures SortedBy(r, key)
    ensures multiset(r) == multiset(s) + multiset{x}
    ensures |r| == |s| + 1
  {
    if s == [] then [x]
    else if key(x) < key(s[0]) then [x] + s
    else
      var tail := InsertBy(x, s[1..], key);
      assert s == [s[0]] + s[1..];
      KeyLowerBound(tail, s[1..], x, key, key(s[0]));
      [s[0]] + tail
  }

  /** A bound on the keys of `s` and of `x` bounds every permutation of
      `s` with `x` added. */
  lemma KeyLowerBound<T>(r: seq<T>, s: seq<T>, x: T, key: T -> int, lo: int)
    requires multiset(r) == multiset(s) + multiset{x}
    requires lo <= key(x) && forall k :: 0 <= k < |s| ==> lo <= key(s[k])
    ensures forall k :: 0 <= k < |r| ==> lo <= key(r[k])
  {
    forall k | 0 <= k < |r|
      ensures lo <= key(r[k])
    {
      assert r[k] in multiset(s) + multiset{x};
      if r[k] != x {
        assert r[k] in s;
      }
    }
  }

  /** A stable insertion sort by an integer key. */
  function SortBy<T>(s: seq<T>, key: T -> int): (r: seq<T>)
    ensures SortedBy(r, key)
    ensures multiset(r) == multiset(s)
    ensures |r| == |s|
  {
    if s == [] then []
    else
      assert s == [s[0]] + s[1..];
      InsertBy(s[0], SortBy(s[1..], key), key)
  }

  function Negate(x: int): int { -x }

  /** Sorted from the largest down, as `sort_by_key(|n| Reverse(n))` does. */
  function SortDescending(s: seq<int>): (r: seq<int>)
    ensures forall i, j :: 0 <= i < j < |r| ==> r[i] >= r[j]
    ensures multiset(r) == multiset(s)
    ensures |r| == |s|
  {
    var r := SortBy(s, Negate);
    assert forall i, j :: 0 <= i < j < |r| ==> Negate(r[i]) <= Negate(r[j]);
    r
  }

  /** The largest element of a sequence comes first once it is sorted
      from the largest down. */
  lemma SortDescendingHead(s: seq<int>)
    requires |s| > 0
    ensures SortDescending(s)[0] == Max(s)
  {
    var r := SortDescending(s);
    assert r[0] in multiset(s);
    assert Max(s) in multiset(r);
    var k :| 0 <= k < |r| && r[k] == Max(s);
  }

  lemma SortDescendingBounded(s: seq<int>, i: nat)
    requires i < |s|
    ensures SortDescending(s)[i] <= Max(s)
  {
    var r := SortDescending(s);
    assert r[i] in multiset(s);
  }

  /** A sequence read back to front. */
  function Reverse<T>(s: seq<T>): (r: seq<T>)
    ensures |r| == |s|
    ensures forall i :: 0 <= i < |s| ==> r[i] == s[|s| - 1 - i]
  {
    if s == [] then [] else Reverse(s[1..]) + [s[0]]
  }

  lemma ReversePreservesMultiset<T>(s: seq<T>)
    ensures multiset(Reverse(s)) == multiset(s)
  {
    if s != [] {
      assert s == [s[0]] + s[1..];
      ReversePreservesMultiset(s[1..]);
    }
  }

  /** Reversing `a + [x]` puts `x` first. */
  lemma ReverseSnoc<T>(a: seq<T>, x: T)
    ensures Reverse(a + [x]) == [x] + Reverse(a)
  {
    assert Reverse(a + [x]) == [x] + Reverse(a) by {
      var l, r := Reverse(a + [x]), [x] + Reverse(a);
      assert |l| == |r|;
      forall i | 0 <= i < |l| ensures l[i] == r[i] {
        if i > 0 { assert r[i] == Reverse(a)[i - 1]; }
      }
    }
  }

  // ---------------------------------------------------------------------------
  // Decimal numbers

  predicate IsDigit(c: char) { '0' <= c <= '9' }

  predicate AllDigits(s: string) {
    forall i :: 0 <= i < |s| ==> IsDigit(s[i])
  }

  /** The value of a string of decimal digits, most significant first. */
  function DigitsValue(s: string): nat
    requires AllDigits(s)
  {
    if s == [] then 0
    else DigitsValue(s[..|s| - 1]) * 10 + (s[|s| - 1] as int - '0' as int)
  }

  /** The digits Rust's `usize::from_str` accepts after its optional `+`. */
  function UnsignedDigits(s: string): string {
    if |s| > 0 && s[0] == '+' then s[1..] else s
  }

  /** Rust's `str::parse::<usize>()`: an optional `+` and at least one
      decimal digit; anything else is an error (overflow is not modelled). */
  function ParseNat(s: string): (r: Option<nat>)
    ensures r.Some? <==> |UnsignedDigits(s)| > 0 && AllDigits(UnsignedDigits(s))
  {
    var d := UnsignedDigits(s);
    if |d| > 0 && AllDigits(d) then Some(DigitsValue(d)) else None
  }

  function DigitChar(d: nat): (c: char)
    requires d < 10
    ensures IsDigit(c)
  {
    ('0' as int + d) as char
  }

  /** `{}`-formatting of an unsigned number: shortest decimal, no sign. */
  function NatToString(n: nat): (s: string)
    ensures |s| > 0 && AllDigits(s)
    ensures |s| > 1 ==> s[0] != '0'
  {
    if n < 10 then [DigitChar(n)] else NatToString(n / 10) + [DigitChar(n % 10)]
  }

  lemma {:induction false} DigitsOfNatToString(n: nat)
    ensures DigitsValue(NatToString(n)) == n
  {
    if n >= 10 {
      var s := NatToString(n);
      assert s[..|s| - 1] == NatToString(n / 10);
      DigitsOfNatToString(n / 10);
    }
  }

  /** Parsing what formatting prints gives the number back. */
  lemma ParseNatToString(n: nat)
    ensures ParseNat(NatToString(n)) == Some(n)
  {
    var s := NatToString(n);
    assert IsDigit(s[0]);
    assert UnsignedDigits(s) == s;
    DigitsOfNatToString(n);
  }

  // ---------------------------------------------------------------------------
  // Division and remainders of natural numbers

  lemma MulNonNegative(a: nat, b: nat)
    ensures a * b >= 0
  {
  }

  lemma MulAtLeast(d: nat, k: int)
    requires d > 0 && k >= 1
    ensures d * k >= d
  {
  }

  lemma MulAtMost(d: int, k: int)
    requires d > 0 && k <= -1
    ensures d * k <= -d
  {
  }

  /** Quotient and remainder are determined by `a == d * q + r`. */
  lemma DivUnique(a: int, d: nat, q: int, r: int)
    requires d > 0 && a == d * q + r && 0 <= r < d
    ensures a % d == r && a / d == q
  {
    var q2, r2 := a / d, a % d;
    assert a == d * q2 + r2;
    assert d * (q - q2) == r2 - r;
    if q - q2 >= 1 {
      MulAtLeast(d, q - q2);
    } else if q - q2 <= -1 {
      MulAtMost(d, q - q2);
    }
  }

  lemma AddMod(x: nat, d: nat)
    requires d > 0
    ensures (x + d) % d == x % d
  {
    DivUnique(x + d, d, x / d + 1, x % d);
  }

  lemma {:induction false} ModAddMultiple(d: nat, m: nat, r: nat)
    requires d > 0
    ensures (d * m + r) % d == r % d
  {
    if m > 0 {
      ModAddMultiple(d, m - 1, r);
      assert d * m + r == (d * (m - 1) + r) + d;
      AddMod(d * (m - 1) + r, d);
    }
  }

  /** A multiple of a multiple of `d` is a multiple of `d`. */
  lemma DividesTransitive(x: nat, l: nat, d: nat)
    requires d > 0 && l > 0 && x % l == 0 && l % d == 0
    ensures x % d == 0
  {
    var k1, k2 := x / l, l / d;
    assert x == l * k1;
    assert l == d * k2;
    assert x == d * (k2 * k1);
    DivUnique(x, d, k2 * k1, 0);
  }

  lemma MulMonotone(a: nat, b: nat, c: nat)
    requires a <= b
    ensures a * c <= b * c
  {
    assert b * c == a * c + (b - a) * c;
  }

  lemma MulAddRight(a: int, b: int, c: int)
    ensures (a + b) * c == a * c + b * c
  {
  }

  lemma MulSubRight(a: int, b: int, c: int)
    ensures (a - b) * c == a * c - b * c
  {
  }

  lemma MulRegroup(a: int, b: int, c: int)
    ensures (a * b) * c == a * (b * c)
  {
  }

  /** Reducing modulo a multiple `l` of `d` keeps the remainder modulo `d`. */
  lemma ModMod(w: nat, l: nat, d: nat)
    requires d > 0 && l > 0 && l % d == 0
    ensures (w % l) % d == w % d
  {
    var q, k, r := w / l, l / d, w % l;
    assert l == d * k;
    assert w == l * q + r;
    MulRegroup(d, k, q);
    ModAddMultiple(d, k * q, r);
  }

  // ---------------------------------------------------------------------------
  // Greatest common divisor and least common multiple

  /** Euclid's algorithm. */
  function Gcd(a: nat, b: nat): (g: nat)
    ensures a > 0 || b > 0 ==> g > 0
    decreases b
  {
    if b == 0 then a else Gcd(b, a % b)
  }

  /** The least common multiple as `num::integer::lcm` computes it: zero
      when both arguments are, otherwise `a * (b / gcd(a, b))`. */
  function Lcm(a: nat, b: nat): nat {
    if a == 0 && b == 0 then 0
    else
      var q := b / Gcd(a, b);
      MulNonNegative(a, q);
      a * q
  }

  lemma {:induction false} GcdDividesBoth(a: nat, b: nat)
    requires a > 0 || b > 0
    ensures a % Gcd(a, b) == 0 && b % Gcd(a, b) == 0
    decreases b
  {
    if b == 0 {
      DivUnique(a, a, 1, 0);
      DivUnique(0, a, 0, 0);
    } else {
      GcdDividesBoth(b, a % b);
      DividesFromRemainder(a, b, Gcd(a, b));
    }
  }

  /** A common divisor of `b` and `a % b` divides `a`. */
  lemma DividesFromRemainder(a: nat, b: nat, g: nat)
    requires b > 0 && g > 0 && b % g == 0 && (a % b) % g == 0
    ensures a % g == 0
  {
    var kb, kr, q := b / g, (a % b) / g, a / b;
    assert b == g * kb;
    assert a % b == g * kr;
    assert a == b * q + a % b;
    MulRegroup(g, kb, q);
    assert b * q == g * (kb * q);
    assert a == g * (kb * q + kr);
    DivUnique(a, g, kb * q + kr, 0);
  }

  /** The lcm of two positive numbers is a positive common multiple. */
  lemma LcmIsCommonMultiple(a: nat, b: nat)
    requires a > 0 && b > 0
    ensures Lcm(a, b) > 0 && Lcm(a, b) % a == 0 && Lcm(a, b) % b == 0
  {
    var g := Gcd(a, b);
    GcdDividesBoth(a, b);
    var ka, kb := a / g, b / g;
    assert a == g * ka && b == g * kb;
    assert kb >= 1;
    MulAtLeast(a, kb);
    DivUnique(a * kb, a, kb, 0);
    MulRegroup(g, ka, kb);
    MulRegroup(ka, g, kb);
    assert a * kb == b * ka;
    DivUnique(a * kb, b, ka, 0);
  }

  /** The remainder of a sum depends only on the remainder of a summand. */
  lemma ModSum(a: int, b: int, m: nat)
    requires m > 0
    ensures (a % m + b) % m == (a + b) % m
  {
    var z := a % m + b;
    var q, q2 := a / m, z / m;
    assert a + b == m * q + z;
    assert z == m * q2 + z % m;
    assert a + b == m * (q + q2) + z % m;
    DivUnique(a + b, m, q + q2, z % m);
  }

  // ---------------------------------------------------------------------------
  // Sets

  /** The image of a set under a function. */
  ghost function Image<T, U>(xs: set<T>, f: T -> U): set<U> {
    set a | a in xs :: f(a)
  }

  /** An injective function keeps the size of a set. */
  lemma {:induction false} ImageCard<T, U>(xs: set<T>, f: T -> U)
    requires forall a, b :: a in xs && b in xs && f(a) == f(b) ==> a == b
    ensures |Image(xs, f)| == |xs|
  {
    if xs != {} {
      var a :| a in xs;
      var rest := xs - {a};
      ImageCard(rest, f);
      assert Image(xs, f) == Image(rest, f) + {f(a)};
      assert f(a) !in Image(rest, f);
    }
  }
}
