/**
 * Day 3 (src/day3.rs): lines of battery joltages, one digit each; part one
 * switches on two batteries per line, part two twelve, keeping their order,
 * and the answer is the sum over lines of the number the chosen digits form.
 */
module Day3 {
  import opened Parsers
  import opened Repetition
  import opened DecimalDigits
  import opened ParserUtils

  /** A joltage: the value of one digit. */
  type Jolt = d: nat | d < 10

  /** The two-digit number with tens digit a and units digit b. */
  function PairValue(a: Jolt, b: Jolt): nat { 10 * (a as nat) + (b as nat) }

  // ----- Input grammar -----

  function JoltOf(c: char): Jolt {
    DigitValue(c)
  }

  /** One or more digits, each read as its value. */
  function LineParser(): (p: Parser<char, seq<Jolt>>)
    ensures Obeys(p)
  {
    Many1(Map(Digit(), JoltOf))
  }

  /** Lines separated by newlines, with an optional final newline. */
  function Grammar(): (p: Parser<char, seq<seq<Jolt>>>)
    ensures Obeys(p)
  {
    SepEndBy1(LineParser(), Chr('\n'))
  }

  function LineText(line: seq<Jolt>): (s: string)
    ensures |s| == |line| && AllDigits(s)
  {
    seq(|line|, k requires 0 <= k < |line| => DigitChar(line[k]))
  }

  function LineTexts(lines: seq<seq<Jolt>>): (ts: seq<string>)
    ensures |ts| == |lines| && forall k :: 0 <= k < |lines| ==> ts[k] == LineText(lines[k])
  {
    seq(|lines|, k requires 0 <= k < |lines| => LineText(lines[k]))
  }

  /** The input as the puzzle writes it: one line of digits per bank, each ending in a newline. */
  function InputText(lines: seq<seq<Jolt>>): string
    requires |lines| > 0
  {
    Joined(LineTexts(lines), '\n') + "\n"
  }

  /** A written line reads back as itself when what follows does not start with a digit. */
  lemma LineRoundTrip(line: seq<Jolt>, t: string)
    requires |line| > 0
    requires t == [] || !IsDigit(t[0])
    ensures LineParser()(LineText(line) + t) == Success(line, t)
  {
    var q := Map(Digit(), JoltOf);
    var text := LineText(line);
    ManyMappedCharsIsRun(IsDigit, JoltOf, text, t);
    assert MapChars(text, JoltOf) == line;
    Many1IsMany(q, text + t);
  }

  /** The grammar reads the written input back completely. */
  lemma InputRoundTrip(lines: seq<seq<Jolt>>)
    requires |lines| > 0 && forall k :: 0 <= k < |lines| ==> |lines[k]| > 0
    ensures Grammar()(InputText(lines)) == Success(lines, [])
    ensures ParseAll(Grammar(), InputText(lines)) == Some(lines)
  {
    var ts := LineTexts(lines);
    forall k | 0 <= k < |ts|
      ensures LineParser()(ts[k] + (SepPrefixed(ts[k + 1..], '\n') + "\n"))
        == Success(lines[k], SepPrefixed(ts[k + 1..], '\n') + "\n")
    {
      LineRoundTrip(lines[k], SepPrefixed(ts[k + 1..], '\n') + "\n");
    }
    var none: string := [];
    ChrSpec('\n', "\n");
    assert "\n"[1..] == none;
    DigitSpec(none);
    assert Seqr(Chr('\n'), LineParser())("\n").Failure?;
    SepBy1RoundTrip(LineParser(), '\n', ts, lines, "\n");
    ParseAllSpec(Grammar(), InputText(lines), lines);
  }

  // ----- Part one: the best two batteries -----

  /** The largest joltage of a bank, 0 for an empty one. */
  function MaxOf(s: seq<Jolt>): (m: Jolt)
    ensures forall k :: 0 <= k < |s| ==> s[k] <= m
    ensures s != [] ==> m in s
  {
    if s == [] then 0 else
      var m' := MaxOf(s[..|s| - 1]);
      assert forall x :: x in s[..|s| - 1] ==> x in s;
      if m' >= s[|s| - 1] then m' else s[|s| - 1]
  }

  /**
   * The reference for part one: the largest 10 * s[i] + s[j] with i < j,
   * built up by the last position: a pair either ends before it or ends at
   * it with the largest earlier digit in front.
   */
  function BestPair(s: seq<Jolt>): nat {
    if |s| < 2 then 0
    else Max(BestPair(s[..|s| - 1]), PairValue(MaxOf(s[..|s| - 1]), s[|s| - 1]))
  }

  /** `BestPair` is the maximum over all pairs i < j, and some pair attains it. */
  lemma BestPairIsMaximum(s: seq<Jolt>) returns (i: nat, j: nat)
    requires |s| >= 2
    ensures forall a, b :: 0 <= a < b < |s| ==> PairValue(s[a], s[b]) <= BestPair(s)
    ensures i < j < |s| && PairValue(s[i], s[j]) == BestPair(s)
  {
    BestPairBounds(s);
    i, j := BestPairAttained(s);
  }

  lemma {:induction false} BestPairBounds(s: seq<Jolt>)
    ensures forall a, b :: 0 <= a < b < |s| ==> PairValue(s[a], s[b]) <= BestPair(s)
  {
    var n := |s|;
    if n >= 2 {
      var front := s[..n - 1];
      BestPairBounds(front);
      forall a, b | 0 <= a < b < n
        ensures PairValue(s[a], s[b]) <= BestPair(s)
      {
        assert s[a] == front[a];
        if b < n - 1 {
          assert s[b] == front[b];
        }
      }
    }
  }

  lemma {:induction false} BestPairAttained(s: seq<Jolt>) returns (i: nat, j: nat)
    requires |s| >= 2
    ensures i < j < |s| && PairValue(s[i], s[j]) == BestPair(s)
  {
    var n := |s|;
    var front := s[..n - 1];
    var m := MaxOf(front);
    var k :| 0 <= k < |front| && front[k] == m;
    if n == 2 {
      i, j := 0, 1;
    } else if BestPair(front) >= PairValue(m, s[n - 1]) {
      i, j := BestPairAttained(front);
    } else {
      i, j := k, n - 1;
    }
  }

  /** A bank's best pair never beats its largest digit followed by a 9. */
  lemma {:induction false} BestPairBelow(s: seq<Jolt>)
    ensures BestPair(s) <= PairValue(MaxOf(s), 9)
  {
    if |s| >= 2 {
      BestPairBelow(s[..|s| - 1]);
    }
  }

  /** What `solve_easy` adds for one bank: the best pair, or the single digit of a one-digit bank. */
  function EasyLineValue(line: seq<Jolt>): nat {
    if |line| >= 2 then BestPair(line) else if |line| == 1 then line[0] else 0
  }

  lemma PrefixStep(s: seq<Jolt>, i: nat)
    requires i < |s|
    ensures MaxOf(s[..i + 1]) == Max(MaxOf(s[..i]), s[i])
    ensures i >= 1 ==> BestPair(s[..i + 1]) == Max(BestPair(s[..i]), PairValue(MaxOf(s[..i]), s[i]))
  {
    assert s[..i + 1][..i] == s[..i];
  }

  /**
   * The body of `solve_easy`'s line loop: `most` is the largest digit before
   * the last position, `second_most` the largest after the first `most`, and
   * raising `most` resets `second_most`.
   */
  method EasyLine(line: seq<Jolt>) returns (value: nat)
    ensures value == EasyLineValue(line)
  {
    var most: Jolt := 0;
    var second: Jolt := 0;
    var len := |line|;
    for i := 0 to len
      invariant i < len ==> most == MaxOf(line[..i]) && PairValue(most, second) == Max(BestPair(line[..i]), PairValue(most, 0))
      invariant i == len ==> PairValue(most, second) == EasyLineValue(line)
    {
      var jolt := line[i];
      PrefixStep(line, i);
      BestPairBelow(line[..i]);
      if jolt > most && i != len - 1 {
        most := jolt;
        second := 0;
      } else if jolt > second {
        second := jolt;
      }
      if i == len - 1 {
        assert line[..i + 1] == line;
      }
    }
    value := most as nat * 10 + second as nat;
  }

  /** The sum of `f` over the banks. */
  function Total(lines: seq<seq<Jolt>>, f: seq<Jolt> -> nat): nat {
    if lines == [] then 0 else Total(lines[..|lines| - 1], f) + f(lines[|lines| - 1])
  }

  lemma TotalStep(lines: seq<seq<Jolt>>, i: nat, f: seq<Jolt> -> nat)
    requires i < |lines|
    ensures Total(lines[..i + 1], f) == Total(lines[..i], f) + f(lines[i])
  {
    assert lines[..i + 1][..i] == lines[..i];
  }

  /** `solve_easy`: the sum of the best pairs. */
  method SolveEasy(input: seq<seq<Jolt>>) returns (total: nat)
    ensures total == Total(input, EasyLineValue)
  {
    total := 0;
    for i := 0 to |input|
      invariant total == Total(input[..i], EasyLineValue)
    {
      var value := EasyLine(input[i]);
      TotalStep(input, i, EasyLineValue);
      total := total + value;
    }
    assert input[..|input|] == input;
  }

  // ----- Part two: the best twelve batteries -----

  function Zeros(n: nat): (z: seq<Jolt>)
    ensures |z| == n && forall k :: 0 <= k < n ==> z[k] == 0
  {
    seq(n, _ => 0)
  }

  /**
   * Slot j may take the digit at position i of a bank of length len when the
   * digit is larger than the slot and enough positions remain after i to
   * fill the slots after j (`i <= len - 12 + j`).
   */
  predicate Eligible(m: seq<Jolt>, jolt: Jolt, i: nat, len: nat, j: nat)
    requires j < |m|
  {
    jolt > m[j] && i + 12 <= len + j
  }

  /** The first eligible slot at or after j, or 12 when there is none. */
  function FirstEligible(m: seq<Jolt>, jolt: Jolt, i: nat, len: nat, j: nat): (f: nat)
    requires |m| == 12 && j <= 12
    ensures j <= f <= 12
    ensures forall j' :: j <= j' < f ==> !Eligible(m, jolt, i, len, j')
    ensures f < 12 ==> Eligible(m, jolt, i, len, f)
    decreases 12 - j
  {
    if j == 12 then 12
    else if Eligible(m, jolt, i, len, j) then j
    else FirstEligible(m, jolt, i, len, j + 1)
  }

  /**
   * One digit offered to the slots: the first eligible slot takes it and
   * every later slot is cleared; with no eligible slot nothing changes.
   */
  function Offer(m: seq<Jolt>, jolt: Jolt, i: nat, len: nat): (r: seq<Jolt>)
    requires |m| == 12
    ensures |r| == 12
  {
    var f := FirstEligible(m, jolt, i, len, 0);
    seq(12, x requires 0 <= x < 12 => if x < f then m[x] else if x == f then jolt else 0)
  }

  /** The slots after the first n digits of a bank. */
  function PickAfter(line: seq<Jolt>, n: nat): (m: seq<Jolt>)
    requires n <= |line|
    ensures |m| == 12
  {
    if n == 0 then Zeros(12) else Offer(PickAfter(line, n - 1), line[n - 1], n - 1, |line|)
  }

  /** The number whose decimal digits, most significant first, are `ds`. */
  function Horner(ds: seq<Jolt>): (v: nat)
    ensures v < Pow10(|ds|)
  {
    if ds == [] then 0 else 10 * Horner(ds[..|ds| - 1]) + ds[|ds| - 1]
  }

  /** What `solve_hard` adds for one bank: the number the twelve slots form. */
  function HardLineValue(line: seq<Jolt>): nat {
    Horner(PickAfter(line, |line|))
  }

  /**
   * Slot k of the number is digit 11 - k counting from the least
   * significant: the slots are exactly the decimal digits of the value.
   */
  lemma {:induction false} HornerDigits(ds: seq<Jolt>, k: nat)
    requires k < |ds|
    ensures DigitAt(Horner(ds), |ds| - 1 - k) == ds[k]
  {
    var n := |ds|;
    var front := ds[..n - 1];
    if k < n - 1 {
      DigitAtShift(Horner(ds), Horner(front), ds[n - 1], n - 2 - k);
      HornerDigits(front, k);
      assert front[k] == ds[k];
    } else {
      DigitAtShift(Horner(ds), Horner(front), ds[n - 1], 0);
    }
  }

  /** Appending digit d to q: the lowest digit is d and the others are q's, one place up. */
  lemma DigitAtShift(v: nat, q: nat, d: nat, e: nat)
    requires v == 10 * q + d && d < 10
    ensures DigitAt(v, 0) == d
    ensures DigitAt(v, e + 1) == DigitAt(q, e)
  {
    DivUnique(v, 10, q, d);
    DivDiv(v, 10, Pow10(e));
    assert Pow10(e + 1) == 10 * Pow10(e);
  }

  /** The positions the slots were filled from. */
  ghost predicate Realizes(line: seq<Jolt>, n: nat, m: seq<Jolt>, pos: seq<int>)
    requires n <= |line| && |m| == 12
  {
    |pos| == 12
    && (forall j :: 0 <= j < 12 && m[j] != 0 ==>
          0 <= pos[j] < n && line[pos[j]] == m[j] && pos[j] + 12 <= |line| + j)
    && (forall j1, j2 :: 0 <= j1 < j2 < 12 && m[j1] != 0 && m[j2] != 0 ==> pos[j1] < pos[j2])
  }

  /**
   * Every nonzero slot holds the digit of an earlier position that leaves
   * room for the slots after it, and the nonzero slots come from increasing
   * positions: they are a subsequence of the bank.
   */
  lemma {:induction false} PickIsSubsequence(line: seq<Jolt>, n: nat) returns (pos: seq<int>)
    requires n <= |line|
    ensures Realizes(line, n, PickAfter(line, n), pos)
  {
    if n == 0 {
      pos := seq(12, _ => 0);
      var m := PickAfter(line, 0);
      assert m == Zeros(12);
      assert forall j :: 0 <= j < 12 ==> m[j] == 0;
    } else {
      var pos' := PickIsSubsequence(line, n - 1);
      pos := OfferRealizes(line, n, PickAfter(line, n - 1), pos');
    }
  }

  /** Offering digit i keeps the slots realized, the taken slot now coming from position i. */
  lemma OfferRealizes(line: seq<Jolt>, n: nat, prev: seq<Jolt>, pos': seq<int>) returns (pos: seq<int>)
    requires 0 < n <= |line| && |prev| == 12 && Realizes(line, n - 1, prev, pos')
    ensures Realizes(line, n, Offer(prev, line[n - 1], n - 1, |line|), pos)
  {
    var i := n - 1;
    var jolt := line[i];
    var f := FirstEligible(prev, jolt, i, |line|, 0);
    var m := Offer(prev, jolt, i, |line|);
    if f == 12 {
      pos := pos';
      assert m == prev;
    } else {
      pos := pos'[f := i];
      assert Eligible(prev, jolt, i, |line|, f);
      forall j | 0 <= j < 12 && m[j] != 0
        ensures 0 <= pos[j] < n && line[pos[j]] == m[j] && pos[j] + 12 <= |line| + j
      {
        if j < f {
          assert m[j] == prev[j] && pos[j] == pos'[j];
        } else {
          assert j == f;
        }
      }
      forall j1, j2 | 0 <= j1 < j2 < 12 && m[j1] != 0 && m[j2] != 0
        ensures pos[j1] < pos[j2]
      {
        assert j1 < f && m[j1] == prev[j1] && pos[j1] == pos'[j1];
        if j2 < f {
          assert m[j2] == prev[j2] && pos[j2] == pos'[j2];
        }
      }
    }
  }

  /**
   * The inner loops of `solve_hard` for one digit: the first eligible slot
   * takes it, the slots after it are cleared, and the search stops.
   */
  method OfferDigit(mosts: array<Jolt>, jolt: Jolt, i: nat, len: nat)
    requires mosts.Length == 12 && len >= 12
    modifies mosts
    ensures mosts[..] == Offer(old(mosts[..]), jolt, i, len)
  {
    ghost var before := mosts[..];
    ghost var f := FirstEligible(before, jolt, i, len, 0);
    for j := 0 to 12
      invariant mosts[..] == before
      invariant forall j' :: 0 <= j' < j ==> !Eligible(before, jolt, i, len, j')
    {
      if jolt > mosts[j] && i <= len - 12 + j {
        assert f == j;
        mosts[j] := jolt;
        for k := j + 1 to 12
          invariant forall x :: 0 <= x < 12 ==>
            mosts[x] == (if x < j then before[x] else if x == j then jolt else if x < k then 0 else before[x])
        {
          mosts[k] := 0;
        }
        return;
      }
    }
  }

  /** The body of `solve_hard`'s line loop, on the twelve-slot array `mosts`. */
  method HardLine(line: seq<Jolt>) returns (val: nat)
    requires |line| >= 12
    ensures val == HardLineValue(line)
    ensures val < Pow10(12)
  {
    var mosts := new Jolt[12](_ => 0);
    var len := |line|;
    assert mosts[..] == Zeros(12);
    for i := 0 to len
      invariant mosts[..] == PickAfter(line, i)
    {
      OfferDigit(mosts, line[i], i, len);
    }
    val := 0;
    for d := 0 to 12
      invariant val == Horner(mosts[..d])
    {
      assert mosts[..d + 1][..d] == mosts[..d];
      val := val * 10 + mosts[d];
    }
    assert mosts[..12] == mosts[..];
  }

  /** `solve_hard`: the sum over the banks of the twelve-digit numbers picked. */
  method SolveHard(input: seq<seq<Jolt>>) returns (total: nat)
    requires forall k :: 0 <= k < |input| ==> |input[k]| >= 12
    ensures total == Total(input, HardLineValue)
  {
    total := 0;
    for i := 0 to |input|
      invariant total == Total(input[..i], HardLineValue)
    {
      var value := HardLine(input[i]);
      TotalStep(input, i, HardLineValue);
      total := total + value;
    }
    assert input[..|input|] == input;
  }
}
