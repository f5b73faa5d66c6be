/** Day 13: distress signal.  Packets are nested lists of numbers, read
    from lines such as `[1,[2,3],[]]` and compared by a recursive order in
    which a number facing a list is promoted to a one-element list. */
module Day13 {
  import opened Common

  datatype Token = Number(n: nat) | Open | Close

  datatype Packet = Num(n: nat) | List(items: seq<Packet>)

  // ---------------------------------------------------------------------------
  // Sizes, for termination measures

  function Size(p: Packet): (s: nat)
    ensures s >= 1
  {
    match p
    case Num(_) => 1
    case List(items) => 1 + SizeOf(items)
  }

  function SizeOf(items: seq<Packet>): nat {
    if items == [] then 0 else Size(items[0]) + SizeOf(items[1..])
  }

  lemma SizeOfSingle(p: Packet)
    ensures SizeOf([p]) == Size(p)
  {
    assert [p][1..] == [];
  }

  // ---------------------------------------------------------------------------
  // Reading a packet

  /** Ends the pending run of digits, if any, with a `Number` token;
      `None` where the run does not parse as a `usize`. */
  function Flush(number: string, tokens: seq<Token>): Option<seq<Token>> {
    if number == "" then Some(tokens)
    else
      match ParseNat(number)
      case None => None
      case Some(n) => Some(tokens + [Number(n)])
  }

  /** The tokenizer of `Packet::from` over the characters `s` not read yet,
      with the pending digits `number` and the tokens so far; `None` where
      it panics (a `[` after pending digits, a run that is not a number,
      digits left at the end). */
  function Tokenize(s: string, number: string, tokens: seq<Token>): Option<seq<Token>>
    decreases |s|
  {
    if s == [] then
      if number == "" then Some(tokens) else None
    else if s[0] == '[' then
      if number == "" then Tokenize(s[1..], "", tokens + [Open]) else None
    else if s[0] == ']' || s[0] == ',' then
      match Flush(number, tokens)
      case None => None
      case Some(flushed) => Tokenize(s[1..], "", if s[0] == ']' then flushed + [Close] else flushed)
    else
      Tokenize(s[1..], number + [s[0]], tokens)
  }

  /** Appends `p` to the list on top of the stack. */
  function PushItem(stack: seq<seq<Packet>>, p: Packet): (r: seq<seq<Packet>>)
    requires stack != []
    ensures |r| == |stack|
  {
    stack[..|stack| - 1] + [stack[|stack| - 1] + [p]]
  }

  /** The stack parser of `Packet::from` over the tokens not read yet;
      `None` where it panics (a `]` with no enclosing list, or anything but
      exactly one packet at the end). */
  function Build(tokens: seq<Token>, stack: seq<seq<Packet>>): Option<Packet>
    decreases |tokens|
  {
    if tokens == [] then
      if |stack| == 1 && |stack[0]| == 1 then Some(stack[0][0]) else None
    else
      match tokens[0]
      case Number(n) =>
        if stack == [] then None else Build(tokens[1..], PushItem(stack, Num(n)))
      case Open =>
        Build(tokens[1..], stack + [[]])
      case Close =>
        if |stack| < 2 then None
        else Build(tokens[1..], PushItem(stack[..|stack| - 1], List(stack[|stack| - 1])))
  }

  /** `Packet::from`, with `None` for a panic. */
  function Parse(line: string): Option<Packet> {
    match Tokenize(line, "", [])
    case None => None
    case Some(tokens) => Build(tokens, [[]])
  }

  /** `Packet::from`: tokenizes the line with a digit buffer, then builds
      the packet on a stack of open lists. */
  method PacketFrom(line: string) returns (packet: Option<Packet>)
    ensures packet == Parse(line)
  {
    var tokens: seq<Token> := [];
    var number: string := "";
    for i := 0 to |line|
      invariant Tokenize(line[i..], number, tokens) == Tokenize(line, "", [])
    {
      var c := line[i];
      assert line[i..][1..] == line[i + 1..];
      if c == '[' {
        if number != "" {
          return None;
        }
        tokens := tokens + [Open];
      } else if c == ']' || c == ',' {
        if number != "" {
          var n := ParseNat(number);
          if n.None? {
            return None;
          }
          tokens := tokens + [Number(n.value)];
          number := "";
        }
        if c == ']' {
          tokens := tokens + [Close];
        }
      } else {
        number := number + [c];
      }
    }
    if number != "" {
      return None;
    }
    var stack: seq<seq<Packet>> := [[]];
    for i := 0 to |tokens|
      invariant |stack| >= 1
      invariant Build(tokens[i..], stack) == Parse(line)
    {
      var token := tokens[i];
      assert tokens[i..][1..] == tokens[i + 1..];
      if token.Number? {
        stack := stack[..|stack| - 1] + [stack[|stack| - 1] + [Num(token.n)]];
      } else if token.Open? {
        stack := stack + [[]];
      } else {
        var top := stack[|stack| - 1];
        stack := stack[..|stack| - 1];
        if stack == [] {
          return None;
        }
        stack := stack[..|stack| - 1] + [stack[|stack| - 1] + [List(top)]];
      }
    }
    if |stack| != 1 || |stack[0]| != 1 {
      return None;
    }
    return Some(stack[0][0]);
  }

  // ---------------------------------------------------------------------------
  // Writing a packet, and reading it back

  predicate Separator(c: char) { c == '[' || c == ']' || c == ',' }

  /** A packet in the input's notation. */
  function Show(p: Packet): string {
    match p
    case Num(n) => NatToString(n)
    case List(items) => "[" + ShowItems(items) + "]"
  }

  function ShowItems(items: seq<Packet>): string {
    if items == [] then ""
    else if |items| == 1 then Show(items[0])
    else Show(items[0]) + "," + ShowItems(items[1..])
  }

  /** The tokens of a packet. */
  function TokensOf(p: Packet): seq<Token> {
    match p
    case Num(n) => [Number(n)]
    case List(items) => [Open] + ItemsTokens(items) + [Close]
  }

  function ItemsTokens(items: seq<Packet>): seq<Token> {
    if items == [] then [] else TokensOf(items[0]) + ItemsTokens(items[1..])
  }

  /** Characters that are not separators go to the digit buffer. */
  lemma {:induction false} TokenizeRun(d: string, rest: string, number: string, tokens: seq<Token>)
    requires forall i :: 0 <= i < |d| ==> !Separator(d[i])
    ensures Tokenize(d + rest, number, tokens) == Tokenize(rest, number + d, tokens)
  {
    if d == [] {
      assert d + rest == rest && number + d == number;
    } else {
      assert (d + rest)[1..] == d[1..] + rest;
      assert number + [d[0]] + d[1..] == number + d;
      TokenizeRun(d[1..], rest, number + [d[0]], tokens);
    }
  }

  /** A packet followed by `,` or `]` tokenizes to its tokens (and a
      `Close` for the `]`). */
  lemma {:induction false} TokenizeShow(p: Packet, c: char, rest: string, tokens: seq<Token>)
    requires c == ',' || c == ']'
    ensures Tokenize(Show(p) + [c] + rest, "", tokens)
      == Tokenize(rest, "", tokens + TokensOf(p) + (if c == ']' then [Close] else []))
    decreases p, 2
  {
    match p
    case Num(n) =>
      var digits := NatToString(n);
      TokenizeRun(digits, [c] + rest, "", tokens);
      assert digits + [c] + rest == digits + ([c] + rest);
      assert "" + digits == digits;
      ParseNatToString(n);
      assert Flush(digits, tokens) == Some(tokens + [Number(n)]);
      assert ([c] + rest)[0] == c && ([c] + rest)[1..] == rest;
      if c == ',' {
        assert tokens + TokensOf(p) + [] == tokens + [Number(n)];
      }
    case List(items) =>
      var s := Show(p) + [c] + rest;
      assert s == "[" + (ShowItems(items) + "]" + ([c] + rest));
      assert s[1..] == ShowItems(items) + "]" + ([c] + rest);
      TokenizeShowItems(items, [c] + rest, tokens + [Open]);
      var t := tokens + [Open] + ItemsTokens(items) + [Close];
      assert t == tokens + TokensOf(p);
      assert Flush("", t) == Some(t);
      assert ([c] + rest)[0] == c && ([c] + rest)[1..] == rest;
      if c == ',' {
        assert t + [] == t;
      }
  }

  /** The items of a list followed by its `]` tokenize to their tokens and
      a `Close`. */
  lemma {:induction false} TokenizeShowItems(items: seq<Packet>, more: string, tokens: seq<Token>)
    ensures Tokenize(ShowItems(items) + "]" + more, "", tokens)
      == Tokenize(more, "", tokens + ItemsTokens(items) + [Close])
    decreases items, 1
  {
    if items == [] {
      assert ShowItems(items) + "]" + more == "]" + more;
      assert ("]" + more)[1..] == more;
      assert tokens + ItemsTokens(items) == tokens;
    } else if |items| == 1 {
      var x := items[0];
      assert ShowItems(items) + "]" + more == Show(x) + [']'] + more;
      TokenizeShow(x, ']', more, tokens);
      assert ItemsTokens(items) == TokensOf(x) by {
        assert ItemsTokens(items[1..]) == [];
      }
    } else {
      TokenizeShowMoreItems(items, more, tokens);
    }
  }

  /** A list of two or more items: the first one, its comma, then the
      rest. */
  lemma {:induction false} TokenizeShowMoreItems(items: seq<Packet>, more: string, tokens: seq<Token>)
    requires |items| >= 2
    ensures Tokenize(ShowItems(items) + "]" + more, "", tokens)
      == Tokenize(more, "", tokens + ItemsTokens(items) + [Close])
    decreases items, 0
  {
    var x, rest := items[0], items[1..];
    var t0 := tokens + TokensOf(x);
    var tail := ShowItems(rest) + "]" + more;
    assert ShowItems(items) + "]" + more == Show(x) + [','] + tail by {
      assert ShowItems(items) == Show(x) + "," + ShowItems(rest);
    }
    TokenizeItemThenComma(x, tail, tokens);
    TokenizeShowItems(rest, more, t0);
    assert t0 + ItemsTokens(rest) == tokens + ItemsTokens(items);
  }

  /** A packet followed by `,` tokenizes to its tokens. */
  lemma {:induction false} TokenizeItemThenComma(x: Packet, tail: string, tokens: seq<Token>)
    ensures Tokenize(Show(x) + [','] + tail, "", tokens) == Tokenize(tail, "", tokens + TokensOf(x))
    decreases x, 3
  {
    TokenizeShow(x, ',', tail, tokens);
    assert tokens + TokensOf(x) + [] == tokens + TokensOf(x);
  }

  /** The tokens of a packet leave it appended to the list on top of the
      stack. */
  lemma {:induction false} BuildTokens(p: Packet, rest: seq<Token>, stack: seq<seq<Packet>>)
    requires stack != []
    ensures Build(TokensOf(p) + rest, stack) == Build(rest, PushItem(stack, p))
    decreases p
  {
    match p
    case Num(n) =>
      assert (TokensOf(p) + rest)[1..] == rest;
    case List(items) =>
      var ts := TokensOf(p) + rest;
      assert ts[1..] == ItemsTokens(items) + ([Close] + rest);
      BuildItemsTokens(items, [Close] + rest, stack + [[]]);
      var inner := stack + [[]];
      assert inner[..|inner| - 1] == stack;
      assert inner[|inner| - 1] + items == items;
      assert ([Close] + rest)[1..] == rest;
      var popped := (stack + [items])[..|stack|];
      assert popped == stack;
  }

  lemma {:induction false} BuildItemsTokens(items: seq<Packet>, rest: seq<Token>, stack: seq<seq<Packet>>)
    requires stack != []
    ensures Build(ItemsTokens(items) + rest, stack)
      == Build(rest, stack[..|stack| - 1] + [stack[|stack| - 1] + items])
    decreases items
  {
    var n := |stack| - 1;
    if items == [] {
      assert ItemsTokens(items) + rest == rest;
      assert stack[n] + items == stack[n];
      assert stack[..n] + [stack[n]] == stack;
    } else {
      assert ItemsTokens(items) + rest == TokensOf(items[0]) + (ItemsTokens(items[1..]) + rest);
      BuildTokens(items[0], ItemsTokens(items[1..]) + rest, stack);
      var pushed := PushItem(stack, items[0]);
      BuildItemsTokens(items[1..], rest, pushed);
      assert pushed[..n] == stack[..n];
      assert pushed[n] + items[1..] == stack[n] + items;
    }
  }

  /** Reading back a written list packet gives the packet. */
  lemma ParseShow(items: seq<Packet>)
    ensures Parse(Show(List(items))) == Some(List(items))
  {
    var line := Show(List(items));
    assert line == "[" + (ShowItems(items) + "]" + "");
    assert line[1..] == ShowItems(items) + "]" + "";
    assert line[0] == '[' && [] + [Open] == [Open];
    TokenizeShowItems(items, "", [Open]);
    assert Tokenize(line, "", []) == Some([Open] + ItemsTokens(items) + [Close]);
    BuildTokens(List(items), [], [[]]);
    assert TokensOf(List(items)) + [] == TokensOf(List(items));
  }

  /** Digits left at the end of the line make `Packet::from` panic. */
  lemma {:induction false} TrailingDigitsRejected(d: string, number: string, tokens: seq<Token>)
    requires forall i :: 0 <= i < |d| ==> !Separator(d[i])
    requires number + d != ""
    ensures Tokenize(d, number, tokens) == None
  {
    TokenizeRun(d, "", number, tokens);
    assert d + "" == d;
  }

  /** A bare number is not a packet line: it panics. */
  lemma ParseShowNumber(n: nat)
    ensures Parse(Show(Num(n))) == None
  {
    TrailingDigitsRejected(NatToString(n), "", []);
  }

  // ---------------------------------------------------------------------------
  // Comparing packets

  datatype Ordering = Less | Equal | Greater

  function Flip(o: Ordering): Ordering {
    match o
    case Less => Greater
    case Equal => Equal
    case Greater => Less
  }

  /** `usize::cmp`. */
  function CmpNat(m: nat, n: nat): Ordering {
    if m < n then Less else if m == n then Equal else Greater
  }

  /** `Packet::num_to_list`: a number as a one-element list; it panics on
      a list. */
  function NumToList(p: Packet): (r: Packet)
    requires p.Num?
    ensures r.List? && r.items == [p]
  {
    List([p])
  }

  /** `Ord for Packet`.  A number facing a list is compared as the list of
      itself alone, so that case goes straight to the list comparison of
      `[p]` (see `CmpPromotes`). */
  function Cmp(a: Packet, b: Packet): Ordering
    decreases Size(a) + Size(b), 0
  {
    match (a, b)
    case (Num(m), Num(n)) => CmpNat(m, n)
    case (Num(_), List(ys)) => SizeOfSingle(a); CmpLists([a], ys)
    case (List(xs), Num(_)) => SizeOfSingle(b); CmpLists(xs, [b])
    case (List(xs), List(ys)) => CmpLists(xs, ys)
  }

  /** The list case of `Ord for Packet`: the first pair of elements that
      differ decides; otherwise the shorter list is smaller. */
  function CmpLists(xs: seq<Packet>, ys: seq<Packet>): Ordering
    decreases SizeOf(xs) + SizeOf(ys), 1
  {
    if xs == [] && ys == [] then Equal
    else if xs == [] then Less
    else if ys == [] then Greater
    else
      var first := Cmp(xs[0], ys[0]);
      if first != Equal then first else CmpLists(xs[1..], ys[1..])
  }

  /** `PartialOrd for Packet`. */
  function PartialCmp(a: Packet, b: Packet): Option<Ordering> {
    Some(Cmp(a, b))
  }

  /** The `<=` that `part_1` uses, derived from `partial_cmp`. */
  predicate LessOrEqual(a: Packet, b: Packet) {
    PartialCmp(a, b) == Some(Less) || PartialCmp(a, b) == Some(Equal)
  }

  /** `partial_cmp` never fails, so `<=` is "not greater". */
  lemma LessOrEqualMeaning(a: Packet, b: Packet)
    ensures PartialCmp(a, b).Some?
    ensures LessOrEqual(a, b) <==> Cmp(a, b) != Greater
  {
  }

  /** A number facing a list compares as `num_to_list` of it, on either
      side; two numbers compare by value. */
  lemma CmpPromotes(a: Packet, b: Packet)
    ensures a.Num? && b.List? ==> Cmp(a, b) == Cmp(NumToList(a), b)
    ensures a.List? && b.Num? ==> Cmp(a, b) == Cmp(a, NumToList(b))
    ensures a.Num? && b.Num? ==> Cmp(a, b) == CmpNat(a.n, b.n)
  {
  }

  /** The items a packet is compared by when it faces a list. */
  function AsList(p: Packet): seq<Packet> {
    match p
    case Num(_) => [p]
    case List(items) => items
  }

  /** Every comparison is a comparison of lists, numbers standing for
      themselves alone. */
  lemma CmpAsLists(a: Packet, b: Packet)
    ensures Cmp(a, b) == CmpLists(AsList(a), AsList(b))
  {
    if a.Num? && b.Num? {
      assert CmpLists([a], [b]) == (if Cmp(a, b) != Equal then Cmp(a, b) else CmpLists([], []));
    }
  }

  /** The first unequal pair decides a list comparison. */
  lemma {:induction false} CmpListsFirstDifference(xs: seq<Packet>, ys: seq<Packet>, k: nat)
    requires k < |xs| && k < |ys|
    requires forall i :: 0 <= i < k ==> Cmp(xs[i], ys[i]) == Equal
    requires Cmp(xs[k], ys[k]) != Equal
    ensures CmpLists(xs, ys) == Cmp(xs[k], ys[k])
  {
    if k > 0 {
      assert Cmp(xs[0], ys[0]) == Equal;
      CmpListsFirstDifference(xs[1..], ys[1..], k - 1);
    }
  }

  /** Without an unequal pair, the lengths decide: a strict prefix (up to
      equal elements) is smaller, and equal lengths give `Equal`. */
  lemma {:induction false} CmpListsSameElements(xs: seq<Packet>, ys: seq<Packet>)
    requires forall i :: 0 <= i < |xs| && i < |ys| ==> Cmp(xs[i], ys[i]) == Equal
    ensures CmpLists(xs, ys) == CmpNat(|xs|, |ys|)
  {
    if xs != [] && ys != [] {
      assert Cmp(xs[0], ys[0]) == Equal;
      CmpListsSameElements(xs[1..], ys[1..]);
    }
  }

  /** Every packet equals itself. */
  lemma {:induction false} CmpReflexive(p: Packet)
    ensures Cmp(p, p) == Equal
    decreases p
  {
    if p.List? {
      CmpListsReflexive(p.items);
    }
  }

  lemma {:induction false} CmpListsReflexive(xs: seq<Packet>)
    ensures CmpLists(xs, xs) == Equal
    decreases xs
  {
    if xs != [] {
      CmpReflexive(xs[0]);
      CmpListsReflexive(xs[1..]);
    }
  }

  /** Swapping the packets reverses the verdict. */
  lemma {:induction false} CmpFlip(a: Packet, b: Packet)
    ensures Cmp(b, a) == Flip(Cmp(a, b))
    decreases Size(a) + Size(b), 0
  {
    match (a, b)
    case (Num(m), Num(n)) =>
    case (Num(_), List(ys)) => SizeOfSingle(a); CmpListsFlip([a], ys);
    case (List(xs), Num(_)) => SizeOfSingle(b); CmpListsFlip(xs, [b]);
    case (List(xs), List(ys)) => CmpListsFlip(xs, ys);
  }

  lemma {:induction false} CmpListsFlip(xs: seq<Packet>, ys: seq<Packet>)
    ensures CmpLists(ys, xs) == Flip(CmpLists(xs, ys))
    decreases SizeOf(xs) + SizeOf(ys), 1
  {
    if xs != [] && ys != [] {
      CmpFlip(xs[0], ys[0]);
      CmpListsFlip(xs[1..], ys[1..]);
    }
  }

  /** "Not greater" is transitive, and strictly so when either step is
      strict. */
  lemma {:induction false} CmpTransitive(a: Packet, b: Packet, c: Packet)
    requires Cmp(a, b) != Greater && Cmp(b, c) != Greater
    ensures Cmp(a, c) != Greater
    ensures Cmp(a, b) == Less || Cmp(b, c) == Less ==> Cmp(a, c) == Less
    decreases Size(a) + Size(b) + Size(c), 0
  {
    if !(a.Num? && b.Num? && c.Num?) {
      CmpAsLists(a, b);
      CmpAsLists(b, c);
      CmpAsLists(a, c);
      AsListSmaller(a);
      AsListSmaller(b);
      AsListSmaller(c);
      CmpListsTransitive(AsList(a), AsList(b), AsList(c));
    }
  }

  lemma AsListSmaller(p: Packet)
    ensures SizeOf(AsList(p)) <= Size(p)
    ensures p.List? ==> SizeOf(AsList(p)) < Size(p)
  {
    if p.Num? {
      SizeOfSingle(p);
    }
  }

  lemma {:induction false} CmpListsTransitive(xs: seq<Packet>, ys: seq<Packet>, zs: seq<Packet>)
    requires CmpLists(xs, ys) != Greater && CmpLists(ys, zs) != Greater
    ensures CmpLists(xs, zs) != Greater
    ensures CmpLists(xs, ys) == Less || CmpLists(ys, zs) == Less ==> CmpLists(xs, zs) == Less
    decreases SizeOf(xs) + SizeOf(ys) + SizeOf(zs), 1
  {
    if xs != [] && ys != [] && zs != [] {
      CmpTransitive(xs[0], ys[0], zs[0]);
      if Cmp(xs[0], ys[0]) == Equal && Cmp(ys[0], zs[0]) == Equal {
        CmpListsTransitive(xs[1..], ys[1..], zs[1..]);
      }
    }
  }

  // ---------------------------------------------------------------------------
  // Part 1

  /** The 1-based index of pair `i` if its packets are in the right order,
      else 0. */
  function OrderedIndex(pairs: seq<(Packet, Packet)>, i: nat): nat
    requires i < |pairs|
  {
    if LessOrEqual(pairs[i].0, pairs[i].1) then i + 1 else 0
  }

  /** `part_1`, folded from the back. */
  function Part1(pairs: seq<(Packet, Packet)>): nat {
    if pairs == [] then 0 else Part1(pairs[..|pairs| - 1]) + OrderedIndex(pairs, |pairs| - 1)
  }

  /** `part_1` is the sum, over all pairs, of the 1-based index of each
      pair in the right order. */
  lemma {:induction false} Part1IsSumOfIndices(pairs: seq<(Packet, Packet)>)
    ensures Part1(pairs) == Sum(seq(|pairs|, i requires 0 <= i < |pairs| => OrderedIndex(pairs, i)))
  {
    var all := seq(|pairs|, i requires 0 <= i < |pairs| => OrderedIndex(pairs, i));
    if pairs != [] {
      var init := pairs[..|pairs| - 1];
      Part1IsSumOfIndices(init);
      assert all[..|all| - 1] == seq(|init|, i requires 0 <= i < |init| => OrderedIndex(init, i));
    }
  }

  /** A pair of equal packets is always in the right order. */
  lemma EqualPairOrdered(p: Packet)
    ensures LessOrEqual(p, p)
  {
    CmpReflexive(p);
  }

  // ---------------------------------------------------------------------------
  // Part 2

  /** An entry of `part_2`'s list: a packet, and whether it is a divider. */
  type Entry = (Packet, bool)

  /** `bool::cmp`: `false` before `true`. */
  function CmpBool(a: bool, b: bool): Ordering {
    if a == b then Equal else if !a then Less else Greater
  }

  /** The tuple order `sort` uses on entries: by packet, then by mark. */
  function CmpEntry(a: Entry, b: Entry): Ordering {
    var c := Cmp(a.0, b.0);
    if c != Equal then c else CmpBool(a.1, b.1)
  }

  predicate EntryLe(a: Entry, b: Entry) { CmpEntry(a, b) != Greater }

  lemma EntryLeTotal(a: Entry, b: Entry)
    ensures EntryLe(a, b) || EntryLe(b, a)
  {
    CmpFlip(a.0, b.0);
  }

  lemma EntryLeTransitive(a: Entry, b: Entry, c: Entry)
    requires EntryLe(a, b) && EntryLe(b, c)
    ensures EntryLe(a, c)
  {
    CmpTransitive(a.0, b.0, c.0);
  }

  predicate SortedEntries(s: seq<Entry>) {
    forall i, j :: 0 <= i < j < |s| ==> EntryLe(s[i], s[j])
  }

  /** A lower bound of `s` and `x` bounds every permutation of `s` with `x`
      added. */
  lemma EntryLowerBound(r: seq<Entry>, s: seq<Entry>, x: Entry, lo: Entry)
    requires multiset(r) == multiset(s) + multiset{x}
    requires EntryLe(lo, x) && forall k :: 0 <= k < |s| ==> EntryLe(lo, s[k])
    ensures forall k :: 0 <= k < |r| ==> EntryLe(lo, r[k])
  {
    forall k | 0 <= k < |r|
      ensures EntryLe(lo, r[k])
    {
      assert r[k] in multiset(s) + multiset{x};
      if r[k] != x {
        assert r[k] in s;
      }
    }
  }

  /** Inserts `x` before the first entry it is not greater than, so that
      equal entries keep their order. */
  function InsertEntry(x: Entry, s: seq<Entry>): (r: seq<Entry>)
    requires SortedEntries(s)
    ensures SortedEntries(r)
    ensures multiset(r) == multiset(s) + multiset{x}
    ensures |r| == |s| + 1
  {
    if s == [] then [x]
    else if EntryLe(x, s[0]) then
      assert forall j :: 0 <= j < |s| ==> EntryLe(x, s[j]) by {
        forall j | 0 <= j < |s|
          ensures EntryLe(x, s[j])
        {
          if j > 0 {
            EntryLeTransitive(x, s[0], s[j]);
          }
        }
      }
      [x] + s
    else
      var tail := InsertEntry(x, s[1..]);
      assert s == [s[0]] + s[1..];
      EntryLeTotal(x, s[0]);
      EntryLowerBound(tail, s[1..], x, s[0]);
      [s[0]] + tail
  }

  /** The stable `sort` of `part_2`, as an insertion sort. */
  function SortEntries(s: seq<Entry>): (r: seq<Entry>)
    ensures SortedEntries(r)
    ensures multiset(r) == multiset(s)
    ensures |r| == |s|
  {
    if s == [] then []
    else
      assert s == [s[0]] + s[1..];
      InsertEntry(s[0], SortEntries(s[1..]))
  }

  /** The divider packet `[[k]]`. */
  function Divider(k: nat): Packet {
    List([List([Num(k)])])
  }

  /** The dividers are what `"[[2]]".into()` and `"[[6]]".into()` read. */
  lemma DividersParse()
    ensures Parse("[[2]]") == Some(Divider(2))
    ensures Parse("[[6]]") == Some(Divider(6))
  {
    assert Show(Divider(2)) == "[[2]]" by {
      assert NatToString(2) == "2";
      assert ShowItems([Num(2)]) == "2";
      assert ShowItems([List([Num(2)])]) == "[2]";
    }
    assert Show(Divider(6)) == "[[6]]" by {
      assert NatToString(6) == "6";
      assert ShowItems([Num(6)]) == "6";
      assert ShowItems([List([Num(6)])]) == "[6]";
    }
    ParseShow([List([Num(2)])]);
    ParseShow([List([Num(6)])]);
  }

  /** Both packets of every pair, unmarked, in order. */
  function Entries(pairs: seq<(Packet, Packet)>): (r: seq<Entry>)
    ensures |r| == 2 * |pairs|
    ensures forall i :: 0 <= i < |r| ==> !r[i].1
  {
    if pairs == [] then []
    else
      var last := pairs[|pairs| - 1];
      Entries(pairs[..|pairs| - 1]) + [(last.0, false), (last.1, false)]
  }

  /** The list `part_2` sorts: the packets, then the two marked dividers. */
  function AllEntries(pairs: seq<(Packet, Packet)>): seq<Entry> {
    Entries(pairs) + [(Divider(2), true), (Divider(6), true)]
  }

  /** Product of the 1-based positions of the marked entries. */
  function MarkedProduct(s: seq<Entry>): nat {
    if s == [] then 1
    else
      var before := MarkedProduct(s[..|s| - 1]);
      var factor: nat := if s[|s| - 1].1 then |s| else 1;
      MulNonNegative(before, factor);
      before * factor
  }

  /** `part_2`. */
  function Part2(pairs: seq<(Packet, Packet)>): nat {
    MarkedProduct(SortEntries(AllEntries(pairs)))
  }

  /** An element at two positions occurs at least twice. */
  lemma TwoPositions(s: seq<Entry>, x: Entry, i: nat, j: nat)
    requires i < j < |s| && s[i] == x && s[j] == x
    ensures multiset(s)[x] >= 2
  {
    assert s == s[..j] + s[j..];
    assert s[..j][i] == x && s[j..][0] == x;
    assert multiset(s) == multiset(s[..j]) + multiset(s[j..]);
  }

  /** An element that occurs once sits at one position. */
  lemma OccursOnce(s: seq<Entry>, x: Entry, i: nat, j: nat)
    requires multiset(s)[x] == 1
    requires i < |s| && j < |s| && s[i] == x && s[j] == x
    ensures i == j
  {
    if i < j {
      TwoPositions(s, x, i, j);
    } else if j < i {
      TwoPositions(s, x, j, i);
    }
  }

  /** With exactly two marked entries, at `p` and `q`, the product over a
      prefix multiplies the positions of those it contains. */
  lemma {:induction false} MarkedProductPrefix(s: seq<Entry>, p: nat, q: nat, k: nat)
    requires p < q < |s| && k <= |s|
    requires forall i :: 0 <= i < |s| && s[i].1 ==> i == p || i == q
    requires s[p].1 && s[q].1
    ensures MarkedProduct(s[..k]) == (if p < k then p + 1 else 1) * (if q < k then q + 1 else 1)
  {
    if k > 0 {
      MarkedProductPrefix(s, p, q, k - 1);
      assert s[..k][..k - 1] == s[..k - 1];
    }
  }

  /** The product over marked positions `p < q` is `(p + 1) * (q + 1)`. */
  lemma MarkedProductAt(s: seq<Entry>, p: nat, q: nat)
    requires p < q && DividersAt(s, p, q)
    ensures MarkedProduct(s) == (p + 1) * (q + 1)
  {
    MarkedProductPrefix(s, p, q, |s|);
    assert s[..|s|] == s;
  }

  /** Among the entries `part_2` sorts, the marked ones are the two
      dividers, each once. */
  lemma MarkedAreDividers(pairs: seq<(Packet, Packet)>)
    ensures multiset(AllEntries(pairs))[(Divider(2), true)] == 1
    ensures multiset(AllEntries(pairs))[(Divider(6), true)] == 1
    ensures forall e :: e in multiset(AllEntries(pairs)) && e.1 ==> e == (Divider(2), true) || e == (Divider(6), true)
  {
    var entries := Entries(pairs);
    var d2, d6 := (Divider(2), true), (Divider(6), true);
    assert d2 != d6;
    assert d2 !in multiset(entries) && d6 !in multiset(entries);
    assert multiset(AllEntries(pairs)) == multiset(entries) + multiset{d2} + multiset{d6};
  }

  lemma DividersInOrder()
    ensures CmpEntry((Divider(6), true), (Divider(2), true)) == Greater
  {
    assert Cmp(Num(6), Num(2)) == Greater;
    assert CmpLists([Num(6)], [Num(2)]) == Greater;
    assert Cmp(List([Num(6)]), List([Num(2)])) == Greater;
    assert CmpLists([List([Num(6)])], [List([Num(2)])]) == Greater;
  }

  /** In a sorted list `[[2]]` comes before `[[6]]`. */
  lemma DividersOrdered(s: seq<Entry>, p: nat, q: nat)
    requires SortedEntries(s)
    requires p < |s| && q < |s| && s[p] == (Divider(2), true) && s[q] == (Divider(6), true)
    ensures p < q
  {
    DividersInOrder();
    assert !EntryLe(s[q], s[p]);
  }

  /** The dividers sit at `p` and `q` of `s`, and nothing else is marked. */
  predicate DividersAt(s: seq<Entry>, p: nat, q: nat) {
    && p < |s| && q < |s|
    && s[p] == (Divider(2), true) && s[q] == (Divider(6), true)
    && forall i :: 0 <= i < |s| && s[i].1 ==> i == p || i == q
  }

  /** Where the dividers are the only marked entries, each once, nothing
      but their positions is marked. */
  lemma MarkedPositions(s: seq<Entry>, p: nat, q: nat)
    requires p < |s| && q < |s| && s[p] == (Divider(2), true) && s[q] == (Divider(6), true)
    requires multiset(s)[(Divider(2), true)] == 1 && multiset(s)[(Divider(6), true)] == 1
    requires forall e :: e in multiset(s) && e.1 ==> e == (Divider(2), true) || e == (Divider(6), true)
    ensures DividersAt(s, p, q)
  {
    forall i | 0 <= i < |s| && s[i].1
      ensures i == p || i == q
    {
      assert s[i] in multiset(s);
      if s[i] == (Divider(2), true) {
        OccursOnce(s, s[i], i, p);
      } else {
        OccursOnce(s, s[i], i, q);
      }
    }
  }

  /** In the sorted list the divider `[[2]]` comes before `[[6]]`, they are
      the only marked entries, and `part_2` is the product of their 1-based
      positions. */
  lemma Part2Meaning(pairs: seq<(Packet, Packet)>)
    ensures exists p: nat, q: nat :: p < q && DividersAt(SortEntries(AllEntries(pairs)), p, q) && Part2(pairs) == (p + 1) * (q + 1)
  {
    var sorted := SortEntries(AllEntries(pairs));
    var d2, d6 := (Divider(2), true), (Divider(6), true);
    MarkedAreDividers(pairs);
    assert d2 in multiset(sorted) && d6 in multiset(sorted);
    var p :| 0 <= p < |sorted| && sorted[p] == d2;
    var q :| 0 <= q < |sorted| && sorted[q] == d6;
    MarkedPositions(sorted, p, q);
    DividersOrdered(sorted, p, q);
    MarkedProductAt(sorted, p, q);
    assert p < q && DividersAt(sorted, p, q) && Part2(pairs) == (p + 1) * (q + 1);
  }
}
