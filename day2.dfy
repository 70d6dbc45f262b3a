/**
 * Day 2 (src/day2.rs): inclusive ranges of IDs; an ID is invalid when its
 * decimal digits are one block repeated (twice for part one, two to twenty
 * times for part two), and each part sums the invalid IDs in the ranges.
 */
module Day2 {
  import opened Parsers
  import opened Repetition
  import opened DecimalDigits
  import opened ParserUtils

  // ----- Input grammar -----

  /** `lo-hi`. */
  function RangeParser(): (p: Parser<char, (nat, nat)>)
    ensures Obeys(p)
  {
    Pair(Seql(Nat(), Chr('-')), Nat())
  }

  /** Comma-separated ranges, then optional whitespace. */
  function Grammar(): (p: Parser<char, seq<(nat, nat)>>)
    ensures Obeys(p)
  {
    Seql(SepBy1(RangeParser(), Chr(',')), Whitespace())
  }

  function RangeText(r: (nat, nat)): string {
    Decimal(r.0) + "-" + Decimal(r.1)
  }

  function RangeTexts(rs: seq<(nat, nat)>): (ts: seq<string>)
    ensures |ts| == |rs| && forall k :: 0 <= k < |rs| ==> ts[k] == RangeText(rs[k])
  {
    seq(|rs|, k requires 0 <= k < |rs| => RangeText(rs[k]))
  }

  /** The input as the puzzle writes it: comma-separated ranges and a final newline. */
  function InputText(rs: seq<(nat, nat)>): string
    requires |rs| > 0
  {
    Joined(RangeTexts(rs), ',') + "\n"
  }

  /** A written range reads back as itself when what follows does not start with a digit. */
  lemma RangeRoundTrip(r: (nat, nat), t: string)
    requires t == [] || !IsDigit(t[0])
    ensures RangeParser()(RangeText(r) + t) == Success(r, t)
  {
    var lo, hi := Decimal(r.0), Decimal(r.1);
    var mid := hi + t;
    var afterLo := "-" + mid;
    var s := RangeText(r) + t;
    Regroup(lo, "-", hi, t);
    NatRoundTrip(r.0, afterLo);
    ChrSpec('-', afterLo);
    assert afterLo[1..] == mid;
    SequenceSuccess(Nat(), Chr('-'), s, r.0, afterLo, '-', mid);
    NatRoundTrip(r.1, t);
    SequenceSuccess(Seql(Nat(), Chr('-')), Nat(), s, r.0, mid, r.1, t);
  }

  /** The grammar reads the written input back completely: `parse_all` succeeds with the ranges. */
  lemma InputRoundTrip(rs: seq<(nat, nat)>)
    requires |rs| > 0
    ensures Grammar()(InputText(rs)) == Success(rs, [])
    ensures ParseAll(Grammar(), InputText(rs)) == Some(rs)
  {
    var ts := RangeTexts(rs);
    forall k | 0 <= k < |ts|
      ensures RangeParser()(ts[k] + (SepPrefixed(ts[k + 1..], ',') + "\n"))
        == Success(rs[k], SepPrefixed(ts[k + 1..], ',') + "\n")
    {
      RangeRoundTrip(rs[k], SepPrefixed(ts[k + 1..], ',') + "\n");
    }
    ChrSpec(',', "\n");
    SepBy1RoundTrip(RangeParser(), ',', ts, rs, "\n");
    NewlineIsWhitespace();
    var s := InputText(rs);
    SequenceSuccess(SepBy1(RangeParser(), Chr(',')), Whitespace(), s, rs, "\n", (), []);
    ParseAllSpec(Grammar(), s, rs);
  }

  /** The worked example: "3-4,7-9\n" is the two ranges (3, 4) and (7, 9). */
  lemma WorkedExample()
    ensures Grammar()("3-4,7-9\n") == Success([(3, 4), (7, 9)], [])
  {
    var rs: seq<(nat, nat)> := [(3, 4), (7, 9)];
    ExampleText(rs);
    InputRoundTrip(rs);
  }

  lemma ExampleText(rs: seq<(nat, nat)>)
    requires rs == [(3, 4), (7, 9)]
    ensures InputText(rs) == "3-4,7-9\n"
  {
    var ts := RangeTexts(rs);
    assert ts[0] == "3-4" by {
      assert Decimal(3) == "3" && Decimal(4) == "4";
    }
    assert ts[1] == "7-9" by {
      assert Decimal(7) == "7" && Decimal(9) == "9";
    }
    var tail := ts[1..];
    assert SepPrefixed(tail, ',') == ",7-9" by {
      assert tail[0] == "7-9" && tail[1..] == [];
    }
    assert InputText(rs) == "3-4" + ",7-9" + "\n";
  }

  // ----- Invalid IDs -----

  /** Part one: an even number of digits, the upper half equal to the lower half. */
  predicate Doubled(n: nat) {
    var d := NumDigits(n);
    d % 2 == 0 && n / Pow10(d / 2) == n % Pow10(d / 2)
  }

  /** Block j of width w, counting from the least significant: n / 10^(w*j) % 10^w. */
  function Block(n: nat, w: nat, j: nat): nat {
    n / Pow10(w * j) % Pow10(w)
  }

  /** The digits of n are k equal blocks: k divides the digit count and every block equals the lowest. */
  predicate RepeatedWith(n: nat, k: nat)
    requires k >= 1
  {
    var d := NumDigits(n);
    d % k == 0 && forall j :: 0 <= j < k ==> Block(n, d / k, j) == n % Pow10(d / k)
  }

  /** Part two: the digits are some block repeated k times, for a k in 2..=20. */
  predicate Repeated(n: nat) {
    exists k :: 2 <= k <= 20 && RepeatedWith(n, k)
  }

  /** The sum of the numbers in lo..=hi for which f holds. */
  function SumWhere(lo: nat, hi: int, f: nat -> bool): nat
    decreases hi - lo
  {
    if hi < lo then 0 else SumWhere(lo, hi - 1, f) + (if f(hi) then hi else 0)
  }

  /** The sum over all ranges, a number in two ranges counted twice. */
  function RangesTotal(rs: seq<(nat, nat)>, f: nat -> bool): nat {
    if rs == [] then 0 else RangesTotal(rs[..|rs| - 1], f) + SumWhere(rs[|rs| - 1].0, rs[|rs| - 1].1, f)
  }

  // ----- Arithmetic of blocks -----

  /** Part one's test is the two-block case of part two's. */
  lemma DoubledIffTwoBlocks(n: nat)
    requires n >= 1
    ensures Doubled(n) <==> RepeatedWith(n, 2)
  {
    var d := NumDigits(n);
    if d % 2 == 0 {
      var h := d / 2;
      assert h + h == d;
      NumDigitsBounds(n);
      TwoBlocks(n, h);
    }
  }

  /** Below 10^(2h), the lower block of width h is n % 10^h and the upper one is n / 10^h. */
  lemma TwoBlocks(n: nat, h: nat)
    requires n < Pow10(h + h)
    ensures Block(n, h, 0) == n % Pow10(h)
    ensures Block(n, h, 1) == n / Pow10(h)
  {
    FirstBlocks(n, h);
    Pow10Add(h, h);
    QuotientFits(n, Pow10(h));
  }

  lemma FirstBlocks(n: nat, h: nat)
    ensures Block(n, h, 0) == n % Pow10(h)
    ensures Block(n, h, 1) == n / Pow10(h) % Pow10(h)
  {
    assert Pow10(h * 0) == 1 by {
      assert h * 0 == 0;
    }
    assert Pow10(h * 1) == Pow10(h) by {
      assert h * 1 == h;
    }
  }

  /** Below p * p, the quotient by p is its own remainder modulo p. */
  lemma QuotientFits(n: nat, p: nat)
    requires p > 0 && n < p * p
    ensures n / p % p == n / p
  {
    DivBelow(n, p, p);
    ModBelow(n / p, p);
  }

  lemma ModBelow(q: nat, p: nat)
    requires q < p
    ensures q % p == q
  {
  }

  /** Block j is the remainder of the j-th view, and dividing that view by 10^w gives the next. */
  lemma BlockView(num: nat, w: nat, j: nat, m: nat)
    requires m == num / Pow10(w * j)
    ensures Block(num, w, j) == m % Pow10(w)
    ensures m / Pow10(w) == num / Pow10(w * (j + 1))
  {
    NextBlock(num, w, j);
  }

  /** Dividing the view of block j by 10^w gives the view of block j + 1. */
  lemma NextBlock(num: nat, w: nat, j: nat)
    ensures num / Pow10(w * j) / Pow10(w) == num / Pow10(w * (j + 1))
  {
    DivDiv(num, Pow10(w * j), Pow10(w));
    assert w * (j + 1) == w * j + w;
    Pow10Add(w * j, w);
  }

  /** Every ID part one adds, part two adds. */
  lemma DoubledIsRepeated(n: nat)
    requires n >= 1
    ensures Doubled(n) ==> Repeated(n)
  {
    DoubledIffTwoBlocks(n);
  }

  lemma {:induction false} SumWhereMonotone(lo: nat, hi: int)
    requires lo >= 1
    ensures SumWhere(lo, hi, Doubled) <= SumWhere(lo, hi, Repeated)
    decreases hi - lo
  {
    if hi >= lo {
      SumWhereMonotone(lo, hi - 1);
      DoubledIsRepeated(hi);
    }
  }

  /** Part one's answer never exceeds part two's. */
  lemma {:induction false} EasyAtMostHard(rs: seq<(nat, nat)>)
    requires forall i :: 0 <= i < |rs| ==> rs[i].0 >= 1
    ensures RangesTotal(rs, Doubled) <= RangesTotal(rs, Repeated)
  {
    if rs != [] {
      EasyAtMostHard(rs[..|rs| - 1]);
      SumWhereMonotone(rs[|rs| - 1].0, rs[|rs| - 1].1);
    }
  }

  // ----- The solvers -----

  lemma RangesTotalStep(rs: seq<(nat, nat)>, i: nat, f: nat -> bool)
    requires i < |rs|
    ensures RangesTotal(rs[..i + 1], f) == RangesTotal(rs[..i], f) + SumWhere(rs[i].0, rs[i].1, f)
  {
    assert rs[..i + 1][..i] == rs[..i];
  }

  /** The body of `solve_easy`'s inner loop: an odd digit count is skipped, otherwise the halves are compared. */
  method IsDoubled(num: nat) returns (doubled: bool)
    ensures doubled == Doubled(num)
  {
    var digits := NumDigits(num);
    if digits % 2 == 1 {
      return false;
    }
    var power := Pow10(digits / 2);
    doubled := num / power == num % power;
  }

  /** `solve_easy`: the sum of the part one invalid IDs over all ranges. */
  method SolveEasy(input: seq<(nat, nat)>) returns (total: nat)
    requires forall i :: 0 <= i < |input| ==> input[i].0 >= 1
    ensures total == RangesTotal(input, Doubled)
  {
    total := 0;
    for i := 0 to |input|
      invariant total == RangesTotal(input[..i], Doubled)
    {
      var (start, end) := input[i];
      RangesTotalStep(input, i, Doubled);
      ghost var before := total;
      var num := start;
      while num <= end
        invariant start <= num && (num <= end + 1 || num == start)
        invariant total == before + SumWhere(start, num - 1, Doubled)
        decreases end as int + 1 - num
      {
        var doubled := IsDoubled(num);
        if doubled {
          total := total + num;
        }
        num := num + 1;
      }
    }
    assert input[..|input|] == input;
  }

  /**
   * The inner block loop of `solve_hard`: the k blocks of width w, read by
   * repeated division, all equal the lowest one.
   */
  method AllBlocksMatch(num: nat, k: nat, w: nat) returns (allMatch: bool)
    ensures allMatch <==> forall j :: 0 <= j < k ==> Block(num, w, j) == num % Pow10(w)
  {
    var power := Pow10(w);
    var pat := num % power;
    allMatch := true;
    var m := num;
    assert w * 0 == 0;
    for j := 0 to k
      invariant m == num / Pow10(w * j)
      invariant forall j' :: 0 <= j' < j ==> Block(num, w, j') == pat
    {
      BlockView(num, w, j, m);
      if m % power != pat {
        return false;
      }
      m := m / power;
    }
  }

  /** The `num_groups` loop of `solve_hard`: some k in 20 down to 2 splits the ID into equal blocks. */
  method IsRepeated(num: nat) returns (repeated: bool)
    ensures repeated <==> Repeated(num)
  {
    var digits := NumDigits(num);
    var valid := true;
    var k := 20;
    while k >= 2
      invariant 1 <= k <= 20
      invariant !valid <==> exists k' :: k < k' <= 20 && RepeatedWith(num, k')
      decreases k
    {
      if !valid {
        break;
      }
      if digits % k == 0 {
        var allMatch := AllBlocksMatch(num, k, digits / k);
        if allMatch {
          valid := false;
          assert RepeatedWith(num, k);
        }
      }
      k := k - 1;
    }
    repeated := !valid;
  }

  /** `solve_hard`: the sum of the part two invalid IDs over all ranges. */
  method SolveHard(input: seq<(nat, nat)>) returns (total: nat)
    requires forall i :: 0 <= i < |input| ==> input[i].0 >= 1
    ensures total == RangesTotal(input, Repeated)
  {
    total := 0;
    for i := 0 to |input|
      invariant total == RangesTotal(input[..i], Repeated)
    {
      var (start, end) := input[i];
      RangesTotalStep(input, i, Repeated);
      ghost var before := total;
      var num := start;
      while num <= end
        invariant start <= num && (num <= end + 1 || num == start)
        invariant total == before + SumWhere(start, num - 1, Repeated)
        decreases end as int + 1 - num
      {
        var repeated := IsRepeated(num);
        if repeated {
          total := total + num;
        }
        num := num + 1;
      }
    }
    assert input[..|input|] == input;
  }
}
