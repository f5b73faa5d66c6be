/** Day 25: full of hot air.  SNAFU numbers are written in balanced base
    five: the characters `2`, `1`, `0`, `-` and `=` stand for the digits
    2, 1, 0, -1 and -2, most significant first. */
module Day25 {
  import opened Common

  /** The digit a SNAFU character stands for; `None` where parsing panics. */
  function Digit(c: char): (d: Option<int>)
    ensures d.Some? <==> c in "012-="
    ensures d.Some? ==> -2 <= d.value <= 2
  {
    match c
    case '0' => Some(0)
    case '1' => Some(1)
    case '2' => Some(2)
    case '-' => Some(-1)
    case '=' => Some(-2)
    case _ => None
  }

  /** The character written for a digit. */
  function DigitChar(d: int): (c: char)
    requires -2 <= d <= 2
    ensures Digit(c) == Some(d)
  {
    if d == 0 then '0' else if d == 1 then '1' else if d == 2 then '2' else if d == -1 then '-' else '='
  }

  /** Each SNAFU character is the one written for its digit. */
  lemma DigitCharOf(c: char)
    requires Digit(c).Some?
    ensures DigitChar(Digit(c).value) == c
  {
    if c == '0' {
    } else if c == '1' {
    } else if c == '2' {
    } else if c == '-' {
    } else {
      assert c == '=';
    }
  }

  predicate IsSnafu(s: string) {
    forall i :: 0 <= i < |s| ==> Digit(s[i]).Some?
  }

  /** The value of a SNAFU string, read digit by digit from the front as
      Horner's rule does. */
  function Value(s: string): int
    requires IsSnafu(s)
  {
    if s == [] then 0 else 5 * Value(s[..|s| - 1]) + Digit(s[|s| - 1]).value
  }

  function Pow5(k: nat): (p: nat)
    ensures p >= 1
  {
    if k == 0 then 1 else 5 * Pow5(k - 1)
  }

  /** The positional reading: each digit weighted by the power of five of
      its place. */
  function Positional(s: string): int
    requires IsSnafu(s)
  {
    if s == [] then 0 else Digit(s[0]).value * Pow5(|s| - 1) + Positional(s[1..])
  }

  lemma {:induction false} PositionalSnoc(s: string, c: char)
    requires IsSnafu(s) && Digit(c).Some?
    ensures IsSnafu(s + [c]) && Positional(s + [c]) == 5 * Positional(s) + Digit(c).value
    decreases |s|
  {
    if s != [] {
      PositionalSnoc(s[1..], c);
      assert (s + [c])[1..] == s[1..] + [c];
      var d0 := Digit(s[0]).value;
      calc {
        Positional(s + [c]);
        d0 * Pow5(|s|) + Positional(s[1..] + [c]);
        d0 * (5 * Pow5(|s| - 1)) + 5 * Positional(s[1..]) + Digit(c).value;
        { MulRegroup(d0, 5, Pow5(|s| - 1)); MulRegroup(5, d0, Pow5(|s| - 1)); }
        5 * (d0 * Pow5(|s| - 1) + Positional(s[1..])) + Digit(c).value;
      }
    }
  }

  /** Horner's rule computes the positional value. */
  lemma {:induction false} HornerIsPositional(s: string)
    requires IsSnafu(s)
    ensures Value(s) == Positional(s)
    decreases |s|
  {
    if s != [] {
      var init := s[..|s| - 1];
      HornerIsPositional(init);
      PositionalSnoc(init, s[|s| - 1]);
      assert init + [s[|s| - 1]] == s;
    }
  }

  /** `parse_snafu`: the value of the string, or `None` for the panic on a
      character outside the five. */
  method ParseSnafu(snafu: string) returns (r: Option<int>)
    ensures r.Some? <==> IsSnafu(snafu)
    ensures r.Some? ==> r.value == Value(snafu)
  {
    var result := 0;
    for i := 0 to |snafu|
      invariant IsSnafu(snafu[..i]) && result == Value(snafu[..i])
    {
      assert snafu[..i + 1][..i] == snafu[..i];
      result := result * 5;
      var d := Digit(snafu[i]);
      if d.None? {
        return None;
      }
      result := result + d.value;
    }
    assert snafu[..|snafu|] == snafu;
    return Some(result);
  }

  /** The least significant balanced digit of `n`. */
  function LowDigit(n: nat): (d: int)
    ensures -2 <= d <= 2 && (n - d) % 5 == 0 && n - d >= 0
  {
    if n % 5 <= 2 then n % 5 else n % 5 - 5
  }

  /** The SNAFU string of a non-negative number, least significant digit
      last. */
  function Snafu(n: nat): (s: string)
    ensures s == [] <==> n == 0
    decreases n
  {
    if n == 0 then [] else Snafu((n - LowDigit(n)) / 5) + [DigitChar(LowDigit(n))]
  }

  /** Decoding an encoded number gives the number back. */
  lemma {:induction false} SnafuRoundTrip(n: nat)
    ensures IsSnafu(Snafu(n)) && Value(Snafu(n)) == n
    decreases n
  {
    if n > 0 {
      var d := LowDigit(n);
      var q := (n - d) / 5;
      SnafuRoundTrip(q);
      var s := Snafu(n);
      assert s[..|s| - 1] == Snafu(q);
      assert n == 5 * q + d;
    }
  }

  /** A positive number's SNAFU string starts with `1` or `2`: there is no
      leading zero and no leading negative digit. */
  lemma {:induction false} SnafuLeads(n: nat)
    requires n > 0
    ensures Snafu(n)[0] in "12"
    decreases n
  {
    var d := LowDigit(n);
    var q := (n - d) / 5;
    if q == 0 {
      assert n == d;
    } else {
      SnafuLeads(q);
    }
  }

  /** The magnitude of a SNAFU string of `k` digits is at most
      (5^k - 1) / 2. */
  lemma {:induction false} ValueBounds(s: string)
    requires IsSnafu(s)
    ensures 2 * Value(s) <= Pow5(|s|) - 1 && -(Pow5(|s|) - 1) <= 2 * Value(s)
    decreases |s|
  {
    if s != [] {
      ValueBounds(s[..|s| - 1]);
    }
  }

  /** A string that is written with `1` or `2` first has a positive value:
      its first digit outweighs all the rest. */
  lemma ValuePositive(s: string)
    requires IsSnafu(s) && s != [] && s[0] in "12"
    ensures Value(s) > 0
  {
    HornerIsPositional(s);
    HornerIsPositional(s[1..]);
    ValueBounds(s[1..]);
    var d0 := Digit(s[0]).value;
    assert d0 >= 1;
    MulAtLeast(Pow5(|s| - 1), d0);
  }

  /** Every string without a leading `0`, `-` or `=` is the encoding of its
      value, so the encoding is the only such string for a number. */
  lemma {:induction false} SnafuCanonical(s: string)
    requires IsSnafu(s) && (s == [] || s[0] in "12")
    ensures Value(s) >= 0 && Snafu(Value(s)) == s
    decreases |s|
  {
    if s != [] {
      ValuePositive(s);
      var init, c := s[..|s| - 1], s[|s| - 1];
      if init != [] {
        assert init[0] == s[0];
      }
      SnafuCanonical(init);
      var d := Digit(c).value;
      SnafuStep(Value(s), Value(init), d);
      DigitCharOf(c);
      assert s == init + [c];
    }
  }

  lemma SnafuStep(v: nat, q: nat, d: int)
    requires -2 <= d <= 2 && v == 5 * q + d && v > 0
    ensures Snafu(v) == Snafu(q) + [DigitChar(d)]
  {
    LowDigitOf(v, q, d);
  }

  /** The balanced digits of `5 * q + d` are those of `q` followed by `d`. */
  lemma LowDigitOf(v: nat, q: int, d: int)
    requires -2 <= d <= 2 && v == 5 * q + d
    ensures LowDigit(v) == d && (v - d) / 5 == q
  {
    DivUnique(v + 2, 5, q, d + 2);
    DivUnique(v, 5, if d >= 0 then q else q - 1, if d >= 0 then d else d + 5);
    DivUnique(v - d, 5, q, 0);
  }

  /** `format_snafu`: the digits come out least significant first, carrying
      one into the next place for the digits -1 and -2, and are reversed at
      the end. */
  method FormatSnafu(n: nat) returns (s: string)
    ensures s == Snafu(n)
  {
    var number := n;
    var result: seq<char> := [];
    while 0 != number
      invariant Snafu(n) == Snafu(number) + Reverse(result)
      decreases number
    {
      ghost var before := number;
      var c: char;
      var m := number % 5;
      if m == 0 {
        c := '0';
      } else if m == 1 {
        c := '1';
      } else if m == 2 {
        c := '2';
      } else if m == 3 {
        number := number + 5;
        c := '=';
      } else {
        number := number + 5;
        c := '-';
      }
      ReverseSnoc(result, c);
      result := result + [c];
      number := number / 5;
      assert number == (before - LowDigit(before)) / 5 && c == DigitChar(LowDigit(before));
    }
    s := Reverse(result);
  }

  /** The sum of the values of the lines. */
  function Total(lines: seq<string>): int
    requires forall i :: 0 <= i < |lines| ==> IsSnafu(lines[i])
  {
    if lines == [] then 0 else Total(lines[..|lines| - 1]) + Value(lines[|lines| - 1])
  }

  /** `part_1`: the sum of the numbers, written in SNAFU.  A negative sum
      would make `format_snafu` panic. */
  method Part1(input: seq<string>) returns (r: string)
    requires forall i :: 0 <= i < |input| ==> IsSnafu(input[i])
    requires Total(input) >= 0
    ensures r == Snafu(Total(input)) && IsSnafu(r) && Value(r) == Total(input)
  {
    var total := 0;
    for i := 0 to |input|
      invariant total == Total(input[..i])
    {
      assert input[..i + 1][..i] == input[..i];
      var v := ParseSnafu(input[i]);
      total := total + v.value;
    }
    assert input[..|input|] == input;
    r := FormatSnafu(total);
    SnafuRoundTrip(total);
  }
}
