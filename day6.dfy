/**
 * Day 6 (src/day6.rs): four rows of numbers and a row of operators; column
 * `c` is a problem that adds or multiplies the four numbers of that column.
 * Part two reads the digits of a column vertically instead, one number per
 * digit position, on an input whose blanks inside a number column were
 * turned into 0s beforehand.
 */
module Day6 {
  import opened Parsers
  import opened Repetition
  import opened DecimalDigits
  import opened ParserUtils

  datatype Op = Add | Mult

  /** Exactly four rows of numbers, the `[Vec<u64>; 4]` of the input. */
  type Rows = rows: seq<seq<nat>> | |rows| == 4 witness [[], [], [], []]

  // ----- Input grammar -----

  /** A number after optional whitespace. */
  function NumberParser(): (p: Parser<char, nat>)
    ensures Obeys(p)
  {
    Seqr(Whitespace(), Nat())
  }

  /** One or more spaces. */
  function Spaces(): (p: Parser<char, seq<char>>)
    ensures Obeys(p)
  {
    Many1(Chr(' '))
  }

  /** Numbers separated by runs of spaces. */
  function RowParser(): (p: Parser<char, seq<nat>>)
    ensures Obeys(p)
  {
    SepBy1(NumberParser(), Spaces())
  }

  /** `+` is `Add`, `*` is `Mult`. */
  function OpParser(): (p: Parser<char, Op>)
    ensures Obeys(p)
  {
    Disj(MapConst(Chr('+'), Add), MapConst(Chr('*'), Mult))
  }

  /**
   * `try_into().unwrap()` on the parsed rows: `None` stands for the panic
   * when there are not exactly four.
   */
  function TryInto(v: seq<seq<nat>>): (r: Option<Rows>)
    ensures r.Some? <==> |v| == 4
    ensures r.Some? ==> r.value == v
  {
    if |v| == 4 then var rows: Rows := v; Some(rows) else None
  }

  /** Newline-terminated rows of numbers, then the operators, then optional whitespace. */
  function Grammar(): (p: Parser<char, (Option<Rows>, seq<Op>)>)
    ensures Obeys(p)
  {
    Seql(Pair(Map(SepEndBy1(RowParser(), Chr('\n')), TryInto), SepBy1(OpParser(), Spaces())), Whitespace())
  }

  /** A row as written: its numbers separated by single spaces. */
  function RowText(row: seq<nat>): string
    requires |row| > 0
  {
    Joined(DecimalTexts(row), ' ')
  }

  function RowTexts(rows: seq<seq<nat>>): (ts: seq<string>)
    requires forall k :: 0 <= k < |rows| ==> |rows[k]| > 0
    ensures |ts| == |rows| && forall k :: 0 <= k < |rows| ==> ts[k] == RowText(rows[k])
  {
    seq(|rows|, k requires 0 <= k < |rows| => RowText(rows[k]))
  }

  function OpText(op: Op): string {
    if op == Add then "+" else "*"
  }

  function OpTexts(ops: seq<Op>): (ts: seq<string>)
    ensures |ts| == |ops| && forall k :: 0 <= k < |ops| ==> ts[k] == OpText(ops[k])
  {
    seq(|ops|, k requires 0 <= k < |ops| => OpText(ops[k]))
  }

  /** The input as written: each row on its own line, then the operators separated by spaces, then a newline. */
  function InputText(rows: seq<seq<nat>>, ops: seq<Op>): string
    requires |rows| > 0 && (forall k :: 0 <= k < |rows| ==> |rows[k]| > 0) && |ops| > 0
  {
    Joined(RowTexts(rows), '\n') + "\n" + Joined(OpTexts(ops), ' ') + "\n"
  }

  /** Whitespace skips nothing before a character that is not whitespace. */
  lemma SkipsNothing(s: string)
    requires |s| > 0 && !IsWhitespace(s[0])
    ensures Whitespace()(s) == Success((), s)
  {
    WhitespaceSkipsRun(s);
    assert RunLength(s, IsWhitespace) == 0;
  }

  /** A written number reads back when what follows does not start with a digit. */
  lemma NumberRoundTrip(n: nat, t: string)
    requires t == [] || !IsDigit(t[0])
    ensures NumberParser()(Decimal(n) + t) == Success(n, t)
  {
    var s := Decimal(n) + t;
    assert s[0] == Decimal(n)[0];
    SkipsNothing(s);
    NatRoundTrip(n, t);
    SequenceSuccess(Whitespace(), Nat(), s, (), s, n, t);
  }

  /** A number cannot start at an operator. */
  lemma NumberRejectsOp(s: string)
    requires |s| > 0 && (s[0] == '+' || s[0] == '*')
    ensures NumberParser()(s).Failure?
  {
    SkipsNothing(s);
    NatSpec(s);
  }

  /** Before a character other than a space, the run of spaces is the one space. */
  lemma SpacesSkipOne(x: string)
    requires x == [] || x[0] != ' '
    ensures Spaces()([' '] + x) == Success([' '], x)
  {
    var s := [' '] + x;
    ChrSpec(' ', s);
    assert s[1..] == x;
    ChrSpec(' ', x);
    ManyLoopStop(Chr(' '), x);
    assert Spaces()(s) == ThenLoop(Chr(' ')(s), Chr(' '));
    assert Chr(' ')(s) == Success(' ', x);
    var none: seq<char> := [];
    assert [' '] + none == [' '];
  }

  /** A written row reads back, stopping at the newline after it. */
  lemma RowRoundTrip(row: seq<nat>, t: string)
    requires |row| > 0 && |t| > 0 && t[0] == '\n'
    ensures RowParser()(RowText(row) + t) == Success(row, t)
  {
    var ts := DecimalTexts(row);
    forall k | 0 <= k < |ts|
      ensures NumberParser()(ts[k] + (SepPrefixed(ts[k + 1..], ' ') + t))
        == Success(row[k], SepPrefixed(ts[k + 1..], ' ') + t)
    {
      NumberRoundTrip(row[k], SepPrefixed(ts[k + 1..], ' ') + t);
    }
    var tail := ts[1..];
    forall k | 0 <= k < |tail|
      ensures Spaces()([' '] + (tail[k] + (SepPrefixed(tail[k + 1..], ' ') + t)))
        == Success([' '], tail[k] + (SepPrefixed(tail[k + 1..], ' ') + t))
    {
      assert tail[k] == Decimal(row[k + 1]);
      SpacesSkipOne(tail[k] + (SepPrefixed(tail[k + 1..], ' ') + t));
    }
    ChrSpec(' ', t);
    assert Seqr(Spaces(), NumberParser())(t).Failure?;
    SepBy1RoundTripBy(NumberParser(), Spaces(), ' ', ts, row, t);
  }

  /**
   * The written rows read back, whatever their number; the final-separator
   * step eats the newline before the operator line.
   */
  lemma RowsRoundTrip(rows: seq<seq<nat>>, t: string)
    requires |rows| > 0 && forall k :: 0 <= k < |rows| ==> |rows[k]| > 0
    requires |t| >= 2 && t[0] == '\n' && (t[1] == '+' || t[1] == '*')
    ensures SepEndBy1(RowParser(), Chr('\n'))(Joined(RowTexts(rows), '\n') + t) == Success(rows, t[1..])
  {
    var ts := RowTexts(rows);
    forall k | 0 <= k < |ts|
      ensures RowParser()(ts[k] + (SepPrefixed(ts[k + 1..], '\n') + t))
        == Success(rows[k], SepPrefixed(ts[k + 1..], '\n') + t)
    {
      RowRoundTrip(rows[k], SepPrefixed(ts[k + 1..], '\n') + t);
    }
    ChrSpec('\n', t);
    NumberRejectsOp(t[1..]);
    assert Seqr(Chr('\n'), RowParser())(t).Failure?;
    SepBy1RoundTrip(RowParser(), '\n', ts, rows, t);
  }

  lemma OpRoundTrip(op: Op, x: string)
    ensures OpParser()(OpText(op) + x) == Success(op, x)
  {
    var s := OpText(op) + x;
    ChrSpec('+', s);
    ChrSpec('*', s);
    assert s[1..] == x;
  }

  /** The written operators read back, stopping at the final newline. */
  lemma OpsRoundTrip(ops: seq<Op>)
    requires |ops| > 0
    ensures SepBy1(OpParser(), Spaces())(Joined(OpTexts(ops), ' ') + "\n") == Success(ops, "\n")
  {
    var ts := OpTexts(ops);
    forall k | 0 <= k < |ts|
      ensures OpParser()(ts[k] + (SepPrefixed(ts[k + 1..], ' ') + "\n"))
        == Success(ops[k], SepPrefixed(ts[k + 1..], ' ') + "\n")
    {
      OpRoundTrip(ops[k], SepPrefixed(ts[k + 1..], ' ') + "\n");
    }
    var tail := ts[1..];
    forall k | 0 <= k < |tail|
      ensures Spaces()([' '] + (tail[k] + (SepPrefixed(tail[k + 1..], ' ') + "\n")))
        == Success([' '], tail[k] + (SepPrefixed(tail[k + 1..], ' ') + "\n"))
    {
      assert tail[k] == OpText(ops[k + 1]);
      SpacesSkipOne(tail[k] + (SepPrefixed(tail[k + 1..], ' ') + "\n"));
    }
    ChrSpec(' ', "\n");
    assert Seqr(Spaces(), OpParser())("\n").Failure?;
    SepBy1RoundTripBy(OpParser(), Spaces(), ' ', ts, ops, "\n");
  }

  /** The rows of the written input read back, up to the operator line. */
  lemma RowsPart(rows: seq<seq<nat>>, ops: seq<Op>)
    requires |rows| > 0 && (forall k :: 0 <= k < |rows| ==> |rows[k]| > 0) && |ops| > 0
    ensures Map(SepEndBy1(RowParser(), Chr('\n')), TryInto)(InputText(rows, ops))
      == Success(TryInto(rows), Joined(OpTexts(ops), ' ') + "\n")
  {
    var opsText := Joined(OpTexts(ops), ' ') + "\n";
    var t := "\n" + opsText;
    Regroup(Joined(RowTexts(rows), '\n'), "\n", Joined(OpTexts(ops), ' '), "\n");
    assert t[1..] == opsText;
    assert opsText[0] == OpText(ops[0])[0];
    RowsRoundTrip(rows, t);
  }

  /**
   * The grammar reads the written input back completely; the rows become
   * `Some` exactly when there are four of them, and otherwise `unwrap`
   * panics.
   */
  lemma InputRoundTrip(rows: seq<seq<nat>>, ops: seq<Op>)
    requires |rows| > 0 && (forall k :: 0 <= k < |rows| ==> |rows[k]| > 0) && |ops| > 0
    ensures Grammar()(InputText(rows, ops)) == Success((TryInto(rows), ops), [])
    ensures ParseAll(Grammar(), InputText(rows, ops)) == Some((TryInto(rows), ops))
  {
    var opsText := Joined(OpTexts(ops), ' ') + "\n";
    var s := InputText(rows, ops);
    var none: string := [];
    var rowsParser := Map(SepEndBy1(RowParser(), Chr('\n')), TryInto);
    RowsPart(rows, ops);
    OpsRoundTrip(ops);
    SequenceSuccess(rowsParser, SepBy1(OpParser(), Spaces()), s, TryInto(rows), opsText, ops, "\n");
    NewlineIsWhitespace();
    SequenceSuccess(Pair(rowsParser, SepBy1(OpParser(), Spaces())), Whitespace(), s, (TryInto(rows), ops), "\n", (), none);
    ParseAllSpec(Grammar(), s, (TryInto(rows), ops));
  }

  // ----- Columns -----

  /** The problems both parts solve: as many as the shortest row or the operator list has (the `zip`). */
  function Columns(rows: Rows, ops: seq<Op>): (n: nat)
    ensures n <= |ops| && forall r :: 0 <= r < 4 ==> n <= |rows[r]|
    ensures n == |ops| || exists r :: 0 <= r < 4 && n == |rows[r]|
  {
    Min(Min(Min(Min(|rows[0]|, |rows[1]|), |rows[2]|), |rows[3]|), |ops|)
  }

  /** The four numbers of column `c`. */
  function Column(rows: Rows, c: nat): seq<nat>
    requires forall r :: 0 <= r < 4 ==> c < |rows[r]|
  {
    [rows[0][c], rows[1][c], rows[2][c], rows[3][c]]
  }

  /** The operator's starting value: 0 for `Add`, 1 for `Mult`. */
  function Unit(op: Op): nat {
    if op == Add then 0 else 1
  }

  function Apply(op: Op, a: nat, b: nat): nat {
    if op == Add then a + b else a * b
  }

  /** The numbers combined with the operator, from its starting value, left to right. */
  function Fold(op: Op, xs: seq<nat>): nat {
    if xs == [] then Unit(op) else Apply(op, Fold(op, xs[..|xs| - 1]), xs[|xs| - 1])
  }

  /** The fold of four numbers is the expression `solve_easy` writes. */
  lemma FoldFour(op: Op, a: nat, b: nat, c: nat, d: nat)
    ensures Fold(op, [a, b, c, d]) == if op == Add then a + b + c + d else a * b * c * d
  {
    var none: seq<nat> := [];
    assert [a][..0] == none && [a, b][..1] == [a] && [a, b, c][..2] == [a, b] && [a, b, c, d][..3] == [a, b, c];
    assert Fold(op, [a]) == Apply(op, Unit(op), a) == a;
    assert Fold(op, [a, b]) == Apply(op, a, b);
    assert Fold(op, [a, b, c]) == Apply(op, Apply(op, a, b), c);
  }

  // ----- Stripping trailing zeros -----

  /** `n` without its trailing decimal zeros; the source's loop never ends on 0. */
  function Stripped(n: nat): (m: nat)
    requires n > 0
    ensures 0 < m <= n && m % 10 != 0
    decreases n
  {
    if n % 10 == 0 then Stripped(n / 10) else n
  }

  /** `n` is its stripped value followed by `z` zeros. */
  lemma {:induction false} StrippedFactor(n: nat) returns (z: nat)
    requires n > 0
    ensures n == Stripped(n) * Pow10(z)
    decreases n
  {
    if n % 10 == 0 {
      var z' := StrippedFactor(n / 10);
      z := z' + 1;
      assert n == (n / 10) * 10;
      assert Pow10(z) == 10 * Pow10(z');
    } else {
      z := 0;
    }
  }

  /**
   * Zeros appended to a number with no trailing zero are stripped off
   * again: this is why part one reads the padded input like the original.
   */
  lemma {:induction false} PaddingIgnored(m: nat, z: nat)
    requires m > 0 && m % 10 != 0
    ensures Stripped(m * Pow10(z)) == m
  {
    if z > 0 {
      PaddingIgnored(m, z - 1);
      var q := m * Pow10(z - 1);
      var n := m * Pow10(z);
      ShiftOnce(m, z);
      DivUnique(n, 10, q, 0);
      assert n > 0;
    }
  }

  lemma ShiftOnce(m: nat, z: nat)
    requires z > 0
    ensures m * Pow10(z) == (m * Pow10(z - 1)) * 10
  {
    var p := Pow10(z - 1);
    assert Pow10(z) == 10 * p;
    assert m * (10 * p) == (m * p) * 10;
  }

  /** `while n % 10 == 0 { n /= 10 }`. */
  method StripZeros(n: nat) returns (m: nat)
    requires n > 0
    ensures m == Stripped(n)
  {
    m := n;
    while m % 10 == 0
      invariant m > 0 && Stripped(m) == Stripped(n)
      decreases m
    {
      m := m / 10;
    }
  }

  // ----- Part one -----

  /** Every number part one strips is positive (the input has no 0s). */
  predicate EasyReady(rows: Rows, ops: seq<Op>) {
    forall r, c :: 0 <= r < 4 && 0 <= c < Columns(rows, ops) ==> rows[r][c] > 0
  }

  /** Column `c` of part one: its four stripped numbers folded with its operator. */
  function EasyColumn(rows: Rows, ops: seq<Op>, c: nat): nat
    requires EasyReady(rows, ops) && c < Columns(rows, ops)
  {
    var col := Column(rows, c);
    Fold(ops[c], [Stripped(col[0]), Stripped(col[1]), Stripped(col[2]), Stripped(col[3])])
  }

  /** The reference for part one: the sum of the first `n` columns. */
  function EasyTotal(rows: Rows, ops: seq<Op>, n: nat): nat
    requires EasyReady(rows, ops) && n <= Columns(rows, ops)
  {
    if n == 0 then 0 else EasyTotal(rows, ops, n - 1) + EasyColumn(rows, ops, n - 1)
  }

  /** `solve_easy`. */
  method SolveEasy(input: (Rows, seq<Op>)) returns (total: nat)
    requires EasyReady(input.0, input.1)
    ensures total == EasyTotal(input.0, input.1, Columns(input.0, input.1))
  {
    var rows, ops := input.0, input.1;
    total := 0;
    for c := 0 to Columns(rows, ops)
      invariant total == EasyTotal(rows, ops, c)
    {
      var n0 := StripZeros(rows[0][c]);
      var n1 := StripZeros(rows[1][c]);
      var n2 := StripZeros(rows[2][c]);
      var n3 := StripZeros(rows[3][c]);
      FoldFour(ops[c], n0, n1, n2, n3);
      total := total + match ops[c] {
        case Add => n0 + n1 + n2 + n3
        case Mult => n0 * n1 * n2 * n3
      };
    }
  }

  // ----- Part two -----

  /** The largest number of a column. */
  function ColumnMax(col: seq<nat>): (m: nat)
    requires |col| == 4
    ensures forall j :: 0 <= j < 4 ==> col[j] <= m
    ensures m in col
  {
    Max(Max(Max(col[0], col[1]), col[2]), col[3])
  }

  /**
   * The vertical number at digit position `i`: digit `i` of each of the
   * four numbers, the top row the most significant.
   */
  function ColumnNumber(col: seq<nat>, i: nat): (num: nat)
    requires |col| == 4
    ensures num < 10000
  {
    DigitAt(col[0], i) * 1000 + DigitAt(col[1], i) * 100 + DigitAt(col[2], i) * 10 + DigitAt(col[3], i)
  }

  /** Reading the vertical number's digits back gives the column's digits, top to bottom. */
  lemma ColumnNumberDigits(col: seq<nat>, i: nat)
    requires |col| == 4
    ensures forall j :: 0 <= j < 4 ==> DigitAt(ColumnNumber(col, i), 3 - j) == DigitAt(col[j], i)
  {
    var d0, d1, d2, d3 := DigitAt(col[0], i), DigitAt(col[1], i), DigitAt(col[2], i), DigitAt(col[3], i);
    var num := ColumnNumber(col, i);
    assert Pow10(0) == 1 && Pow10(1) == 10 && Pow10(2) == 100 && Pow10(3) == 1000;
    DivUnique(num, 1, num, 0);
    DivUnique(num, 10, d0 * 100 + d1 * 10 + d2, d3);
    DivUnique(num, 100, d0 * 10 + d1, d2 * 10 + d3);
    DivUnique(num, 1000, d0, d1 * 100 + d2 * 10 + d3);
    DivUnique(d0 * 100 + d1 * 10 + d2, 10, d0 * 10 + d1, d2);
    DivUnique(d0 * 10 + d1, 10, d0, d1);
    DivUnique(d0, 10, 0, d0);
  }

  /**
   * Past the digit count of the column's largest number every vertical
   * number is 0, so `solve_hard` stopping there loses nothing.
   */
  lemma BeyondDigitsZero(col: seq<nat>, i: nat)
    requires |col| == 4 && ColumnMax(col) > 0 && i >= NumDigits(ColumnMax(col))
    ensures ColumnNumber(col, i) == 0
  {
    var m := ColumnMax(col);
    NumDigitsBounds(m);
    Pow10Monotone(NumDigits(m), i);
    forall j | 0 <= j < 4
      ensures DigitAt(col[j], i) == 0
    {
      DivUnique(col[j], Pow10(i), 0, col[j]);
    }
  }

  /**
   * What part two needs of a column: a largest number that is not 0
   * (`ilog10` panics on 0) and no vertical number that is 0 (stripping it
   * would never end).
   */
  predicate HardReady(col: seq<nat>)
    requires |col| == 4
  {
    ColumnMax(col) > 0 && forall i :: 0 <= i < NumDigits(ColumnMax(col)) ==> ColumnNumber(col, i) > 0
  }

  /** The stripped vertical numbers of a column, least significant position first. */
  function HardNumbers(col: seq<nat>): (nums: seq<nat>)
    requires |col| == 4 && HardReady(col)
    ensures |nums| == NumDigits(ColumnMax(col))
    ensures forall i :: 0 <= i < |nums| ==> nums[i] % 10 != 0 && nums[i] < 10000
  {
    seq(NumDigits(ColumnMax(col)), i requires 0 <= i < NumDigits(ColumnMax(col)) => Stripped(ColumnNumber(col, i)))
  }

  predicate AllHardReady(rows: Rows, ops: seq<Op>) {
    forall c :: 0 <= c < Columns(rows, ops) ==> HardReady(Column(rows, c))
  }

  /** The reference for part two: the sum over the first `n` columns of their numbers folded with their operator. */
  function HardTotal(rows: Rows, ops: seq<Op>, n: nat): nat
    requires AllHardReady(rows, ops) && n <= Columns(rows, ops)
  {
    if n == 0 then 0 else HardTotal(rows, ops, n - 1) + Fold(ops[n - 1], HardNumbers(Column(rows, n - 1)))
  }

  lemma FoldStep(op: Op, xs: seq<nat>, i: nat)
    requires i < |xs|
    ensures Fold(op, xs[..i + 1]) == Apply(op, Fold(op, xs[..i]), xs[i])
  {
    assert xs[..i + 1][..i] == xs[..i];
  }

  /** One column of `solve_hard`: the vertical numbers, stripped and folded from the operator's starting value. */
  method SolveColumn(n0: nat, n1: nat, n2: nat, n3: nat, op: Op) returns (solution: nat)
    requires HardReady([n0, n1, n2, n3])
    ensures solution == Fold(op, HardNumbers([n0, n1, n2, n3]))
  {
    ghost var col := [n0, n1, n2, n3];
    ghost var nums := HardNumbers(col);
    solution := match op {
      case Add => 0
      case Mult => 1
    };
    var digits := NumDigits(Max(Max(Max(n0, n1), n2), n3));
    assert digits == |nums|;
    for i := 0 to digits
      invariant solution == Fold(op, nums[..i])
    {
      var d0 := n0 / Pow10(i) % 10;
      var d1 := n1 / Pow10(i) % 10;
      var d2 := n2 / Pow10(i) % 10;
      var d3 := n3 / Pow10(i) % 10;
      var num := d0 * 1000 + d1 * 100 + d2 * 10 + d3;
      assert num == ColumnNumber(col, i);
      num := StripZeros(num);
      FoldStep(op, nums, i);
      match op {
        case Add => solution := solution + num;
        case Mult => solution := solution * num;
      }
    }
    assert nums[..digits] == nums;
  }

  /** `solve_hard`. */
  method SolveHard(input: (Rows, seq<Op>)) returns (total: nat)
    requires AllHardReady(input.0, input.1)
    ensures total == HardTotal(input.0, input.1, Columns(input.0, input.1))
  {
    var rows, ops := input.0, input.1;
    total := 0;
    for c := 0 to Columns(rows, ops)
      invariant total == HardTotal(rows, ops, c)
    {
      assert Column(rows, c) == [rows[0][c], rows[1][c], rows[2][c], rows[3][c]];
      var solution := SolveColumn(rows[0][c], rows[1][c], rows[2][c], rows[3][c], ops[c]);
      total := total + solution;
    }
  }
}
