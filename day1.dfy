/**
 * Day 1 (src/day1.rs): a dial numbered 0..99 starts at 50 and is turned by
 * a list of rotations; the passwords count how often it points at 0.
 */
module Day1 {
  import opened Parsers
  import opened Repetition
  import opened DecimalDigits
  import opened ParserUtils

  datatype Direction = Left | Right

  datatype Rotation = Rotation(dir: Direction, amount: nat)

  // ----- Input grammar -----

  /** The direction letter: 'L' or 'R'. */
  function DirectionParser(): (p: Parser<char, Direction>)
    ensures Obeys(p)
  {
    Disj(MapConst(Chr('L'), Left), MapConst(Chr('R'), Right))
  }

  /** A direction letter followed by a number. */
  function RotationParser(): (p: Parser<char, Rotation>)
    ensures Obeys(p)
  {
    Map(Pair(DirectionParser(), Nat()), (dn: (Direction, nat)) => Rotation(dn.0, dn.1))
  }

  /** Rotations separated by optional whitespace, with optional whitespace at the end. */
  function Grammar(): (p: Parser<char, seq<Rotation>>)
    ensures Obeys(p)
  {
    SepEndBy1(RotationParser(), Whitespace())
  }

  /** How a rotation is written: its letter, then its amount in decimal. */
  function RotationText(r: Rotation): string {
    [Letter(r.dir)] + Decimal(r.amount)
  }

  function Letter(d: Direction): char {
    if d == Left then 'L' else 'R'
  }

  /** The letter reads back as its direction; 'R' goes through the `disj` alternative after 'L' rejected one token. */
  lemma DirectionRoundTrip(d: Direction, rest: string)
    ensures DirectionParser()([Letter(d)] + rest) == Success(d, rest)
  {
    var s := [Letter(d)] + rest;
    assert s[1..] == rest;
    ChrSpec('L', s);
    ChrSpec('R', s);
  }

  /** A written rotation reads back as itself, leaving what follows. */
  lemma RotationRoundTrip(r: Rotation, t: string)
    requires t == [] || !IsDigit(t[0])
    ensures RotationParser()(RotationText(r) + t) == Success(r, t)
  {
    var rest := Decimal(r.amount) + t;
    var s := [Letter(r.dir)] + rest;
    assert RotationText(r) + t == s;
    DirectionRoundTrip(r.dir, rest);
    NatRoundTrip(r.amount, t);
    SequenceSuccess(DirectionParser(), Nat(), s, r.dir, rest, r.amount, t);
  }

  function RotationTexts(rs: seq<Rotation>): (ts: seq<string>)
    ensures |ts| == |rs| && forall k :: 0 <= k < |rs| ==> ts[k] == RotationText(rs[k])
  {
    seq(|rs|, k requires 0 <= k < |rs| => RotationText(rs[k]))
  }

  /** The input as the puzzle writes it: one rotation per line, each ending in a newline. */
  function InputText(rs: seq<Rotation>): string
    requires |rs| > 0
  {
    Joined(RotationTexts(rs), '\n') + "\n"
  }

  /** Before a rotation, `whitespace` skips exactly the one newline. */
  lemma NewlineBeforeRotation(x: string)
    requires |x| > 0 && (x[0] == 'L' || x[0] == 'R')
    ensures Whitespace()(['\n'] + x) == Success((), x)
  {
    var s := ['\n'] + x;
    assert s[1..] == x;
    WhitespaceSkipsRun(s);
    assert RunLength(s, IsWhitespace) == 1;
  }

  /** The grammar reads the written input back completely; the final newline is the optional trailing separator. */
  lemma InputRoundTrip(rs: seq<Rotation>)
    requires |rs| > 0
    ensures Grammar()(InputText(rs)) == Success(rs, [])
    ensures ParseAll(Grammar(), InputText(rs)) == Some(rs)
  {
    var ts := RotationTexts(rs);
    var t := "\n";
    forall k | 0 <= k < |ts|
      ensures RotationParser()(ts[k] + (SepPrefixed(ts[k + 1..], '\n') + t))
        == Success(rs[k], SepPrefixed(ts[k + 1..], '\n') + t)
    {
      var after := SepPrefixed(ts[k + 1..], '\n') + t;
      assert after[0] == '\n';
      RotationRoundTrip(rs[k], after);
    }
    var tail := ts[1..];
    forall k | 0 <= k < |tail|
      ensures Whitespace()(['\n'] + (tail[k] + (SepPrefixed(tail[k + 1..], '\n') + t)))
        == Success((), tail[k] + (SepPrefixed(tail[k + 1..], '\n') + t))
    {
      var x := tail[k] + (SepPrefixed(tail[k + 1..], '\n') + t);
      assert tail[k] == RotationText(rs[k + 1]);
      assert x[0] == Letter(rs[k + 1].dir);
      NewlineBeforeRotation(x);
    }
    var none: string := [];
    NewlineIsWhitespace();
    ChrSpec('L', none);
    ChrSpec('R', none);
    assert Seqr(Whitespace(), RotationParser())(t).Failure?;
    SepBy1RoundTripBy(RotationParser(), Whitespace(), '\n', ts, rs, t);
    ParseAllSpec(Grammar(), InputText(rs), rs);
  }

  // ----- The part one password -----

  /** Rust's `a % 100`: the remainder has the sign of the dividend. */
  function TruncRem100(a: int): (r: int)
    ensures -100 < r < 100
    ensures a >= 0 ==> r >= 0
    ensures a <= 0 ==> r <= 0
    ensures Congruent(r, a)
  {
    if a >= 0 then a % 100 else -((-a) % 100)
  }

  /** Equal modulo 100. */
  predicate Congruent(x: int, y: int) {
    (x - y) % 100 == 0
  }

  /** Moving two congruent readings by the same amount keeps them congruent. */
  lemma CongruentMove(d: int, pos: int, m: int, d2: int)
    requires Congruent(d, pos) && Congruent(d2, d + m)
    ensures Congruent(d2, pos + m)
  {
    var a := (d - pos) / 100;
    var b := (d2 - d - m) / 100;
    assert d2 - (pos + m) == 100 * (a + b);
  }

  /** A value in (-100, 100) congruent to a reading is 0 exactly when the reading is a multiple of 100. */
  lemma CongruentZero(d: int, pos: int)
    requires -100 < d < 100 && Congruent(d, pos)
    ensures d == 0 <==> pos % 100 == 0
  {
    var a := (d - pos) / 100;
    assert pos == d - 100 * a;
  }

  /** The signed movement of a rotation: left is negative. */
  function Move(r: Rotation): int {
    if r.dir == Left then -(r.amount as int) else r.amount
  }

  /** The dial's reading on an unwound scale after the rotations: 50 plus all movements. */
  function Position(rs: seq<Rotation>): int {
    if rs == [] then 50 else Position(rs[..|rs| - 1]) + Move(rs[|rs| - 1])
  }

  /** The reference for part one: the rotations after which the dial, read modulo 100, shows 0. */
  function ZeroStops(rs: seq<Rotation>): nat {
    if rs == [] then 0
    else ZeroStops(rs[..|rs| - 1]) + (if Position(rs) % 100 == 0 then 1 else 0)
  }

  /** Reducing the moved dial with Rust's `%` keeps it congruent to the moved reading, and 0 exactly on a multiple of 100. */
  lemma ReducedReading(d: int, pos: int, m: int)
    requires Congruent(d, pos)
    ensures Congruent(TruncRem100(d + m), pos + m)
    ensures TruncRem100(d + m) == 0 <==> (pos + m) % 100 == 0
  {
    var d2 := TruncRem100(d + m);
    CongruentMove(d, pos, m, d2);
    CongruentZero(d2, pos + m);
  }

  /** Extending the prefix by one rotation moves the reading and adds a stop when it lands on a multiple of 100. */
  lemma StopsStep(rs: seq<Rotation>, i: nat)
    requires i < |rs|
    ensures Position(rs[..i + 1]) == Position(rs[..i]) + Move(rs[i])
    ensures ZeroStops(rs[..i + 1]) == ZeroStops(rs[..i]) + (if Position(rs[..i + 1]) % 100 == 0 then 1 else 0)
  {
    assert rs[..i + 1][..i] == rs[..i];
  }

  /** Extending the prefix by one rotation adds that rotation's zero clicks. */
  lemma ClicksStep(rs: seq<Rotation>, i: nat)
    requires i < |rs|
    ensures Position(rs[..i + 1]) == Position(rs[..i]) + Move(rs[i])
    ensures ZeroClicksAll(rs[..i + 1]) == ZeroClicksAll(rs[..i]) + ZeroClicks(Position(rs[..i]), rs[i])
  {
    assert rs[..i + 1][..i] == rs[..i];
  }

  /**
   * `solve_easy`: the dial is reduced with Rust's `%` after every rotation,
   * which keeps it in (-100, 100) and congruent to the true reading, so it is
   * 0 exactly when the reading is a multiple of 100.
   */
  method SolveEasy(input: seq<Rotation>) returns (password: nat)
    ensures password == ZeroStops(input)
  {
    var dial := 50;
    password := 0;
    for i := 0 to |input|
      invariant -100 < dial < 100
      invariant Congruent(dial, Position(input[..i]))
      invariant password == ZeroStops(input[..i])
    {
      var r := input[i];
      StopsStep(input, i);
      ghost var before, pos := dial, Position(input[..i]);
      match r.dir {
        case Left => dial := dial - r.amount;
        case Right => dial := dial + r.amount;
      }
      assert dial == before + Move(r);
      dial := TruncRem100(dial);
      ReducedReading(before, pos, Move(r));
      if dial == 0 {
        password := password + 1;
      }
    }
    assert input[..|input|] == input;
  }

  // ----- The part two password -----

  /**
   * The reference for part two: the clicks of a rotation from reading `pos`
   * that land on a multiple of 100, counted one click at a time.
   */
  function ZeroClicks(pos: int, r: Rotation): nat
    decreases r.amount
  {
    if r.amount == 0 then 0
    else
      var land := if r.dir == Left then pos - r.amount else pos + r.amount;
      ZeroClicks(pos, Rotation(r.dir, r.amount - 1)) + (if land % 100 == 0 then 1 else 0)
  }

  /** The multiples of 100 a rotation passes: in (pos, pos + a] going right, in [pos - a, pos) going left. */
  function Crossings(pos: int, r: Rotation): int {
    if r.dir == Right then (pos + r.amount) / 100 - pos / 100
    else (pos - 1) / 100 - (pos - r.amount - 1) / 100
  }

  /** Counting the clicks one by one agrees with the multiples of 100 passed. */
  lemma {:induction false} ClicksAreCrossings(pos: int, r: Rotation)
    ensures ZeroClicks(pos, r) == Crossings(pos, r)
    decreases r.amount
  {
    if r.amount > 0 {
      ClicksAreCrossings(pos, Rotation(r.dir, r.amount - 1));
    }
  }

  /** Euclidean division by 100 of a value written as 100 * q + r with r in [0, 100). */
  lemma Div100(x: int, q: int, r: int)
    requires x == 100 * q + r && 0 <= r < 100
    ensures x / 100 == q
  {
  }

  /** Adding k hundreds adds k to the quotient by 100. */
  lemma ShiftDiv(x: int, k: int)
    ensures (x + 100 * k) / 100 == x / 100 + k
  {
    Div100(x + 100 * k, x / 100 + k, x % 100);
  }

  /** Only the reading modulo 100 matters to the number of crossings. */
  lemma CrossingsShift(pos: int, k: int, r: Rotation)
    ensures Crossings(pos + 100 * k, r) == Crossings(pos, r)
  {
    ShiftDiv(pos + r.amount, k);
    ShiftDiv(pos, k);
    ShiftDiv(pos - 1, k);
    ShiftDiv(pos - r.amount - 1, k);
  }

  /** The reference for part two: all zero clicks of all rotations. */
  function ZeroClicksAll(rs: seq<Rotation>): nat {
    if rs == [] then 0
    else ZeroClicksAll(rs[..|rs| - 1]) + ZeroClicks(Position(rs[..|rs| - 1]), rs[|rs| - 1])
  }

  /**
   * One rotation of `solve_hard`: a zero amount changes nothing; otherwise
   * one click for going from positive to <= 0 or from negative to >= 0, and
   * one per 100 taken off while the new value is out of (-100, 100).
   */
  method Turn(dial: int, r: Rotation) returns (newDial: int, clicks: nat)
    requires -100 < dial < 100
    ensures -100 < newDial < 100
    ensures Congruent(newDial, dial + Move(r))
    ensures clicks == Crossings(dial, r)
    ensures r.amount == 0 ==> newDial == dial && clicks == 0
  {
    if r.amount == 0 {
      return dial, 0;
    }
    newDial := match r.dir
      case Left => dial - r.amount
      case Right => dial + r.amount;
    var start := newDial;
    clicks := 0;
    if (dial > 0 && newDial <= 0) || (dial < 0 && newDial >= 0) {
      clicks := clicks + 1;
    }
    var first := clicks;
    while newDial >= 100
      invariant newDial == start - 100 * (clicks - first) && clicks >= first
      invariant start >= 100 ==> newDial >= 0
      invariant start < 100 ==> clicks == first
      decreases newDial
    {
      newDial := newDial - 100;
      clicks := clicks + 1;
    }
    var middle := newDial;
    var second := clicks;
    while newDial <= -100
      invariant newDial == middle + 100 * (clicks - second) && clicks >= second
      invariant middle <= -100 ==> newDial <= 0
      invariant middle > -100 ==> clicks == second
      decreases -newDial
    {
      newDial := newDial + 100;
      clicks := clicks + 1;
    }
    TurnCount(dial, r, start, first, middle, second - first, newDial, clicks - second);
  }

  /**
   * The clicks `solve_hard` counts for one nonzero rotation, `first` for
   * reaching or passing 0 and one per 100 taken off in each direction,
   * are the multiples of 100 the rotation passes.
   */
  lemma TurnCount(dial: int, r: Rotation, start: int, first: nat, middle: int, up: nat, final: int, down: nat)
    requires -100 < dial < 100 && r.amount > 0 && start == dial + Move(r)
    requires first == if (dial > 0 && start <= 0) || (dial < 0 && start >= 0) then 1 else 0
    requires start == middle + 100 * up && middle < 100
    requires start >= 100 ==> middle >= 0
    requires start < 100 ==> up == 0
    requires final == middle + 100 * down && final > -100
    requires middle <= -100 ==> final <= 0
    requires middle > -100 ==> down == 0
    ensures -100 < final < 100 && Congruent(final, start)
    ensures first + up + down == Crossings(dial, r)
  {
    assert final - start == 100 * (down - up);
    SmallDiv(dial);
    SmallDiv(dial - 1);
    if r.dir == Right {
      if start >= 100 {
        Div100(start, up, middle);
      } else {
        SmallDiv(start);
      }
    } else if start <= -100 {
      Div100(start - 1, -(down as int) - 1, final + 99);
    } else {
      SmallDiv(start - 1);
    }
  }

  /** The quotient by 100 of a value in [-100, 100) is -1 for negatives and 0 otherwise. */
  lemma SmallDiv(x: int)
    requires -100 <= x < 100
    ensures x / 100 == if x < 0 then -1 else 0
  {
    if x < 0 {
      Div100(x, -1, x + 100);
    } else {
      Div100(x, 0, x);
    }
  }

  /** One rotation of `solve_hard` seen from the true reading: the reduced dial stands for it. */
  lemma HardStep(dial: int, pos: int, r: Rotation, newDial: int, clicks: nat)
    requires -100 < dial < 100 && Congruent(dial, pos)
    requires Congruent(newDial, dial + Move(r)) && clicks == Crossings(dial, r)
    ensures Congruent(newDial, pos + Move(r))
    ensures clicks == ZeroClicks(pos, r)
  {
    ClicksAreCrossings(pos, r);
    var x := dial - pos;
    assert x == 100 * (x / 100) + x % 100;
    var k := -(x / 100);
    assert pos == dial + 100 * k;
    CrossingsShift(dial, k, r);
    CongruentMove(dial, pos, Move(r), newDial);
  }

  /** `solve_hard`: the total number of clicks that land on 0. */
  method SolveHard(input: seq<Rotation>) returns (password: nat)
    ensures password == ZeroClicksAll(input)
  {
    var dial := 50;
    password := 0;
    for i := 0 to |input|
      invariant -100 < dial < 100
      invariant Congruent(dial, Position(input[..i]))
      invariant password == ZeroClicksAll(input[..i])
    {
      var r := input[i];
      ClicksStep(input, i);
      var newDial, clicks := Turn(dial, r);
      HardStep(dial, Position(input[..i]), r, newDial, clicks);
      dial := newDial;
      password := password + clicks;
    }
    assert input[..|input|] == input;
  }

  /**
   * When every amount is positive, part two counts every zero stop of part
   * one (the last click of a rotation is where it stops), and more when a
   * rotation passes 0 on the way.
   */
  lemma {:induction false} StopsAreClicks(rs: seq<Rotation>)
    requires forall i :: 0 <= i < |rs| ==> rs[i].amount > 0
    ensures ZeroStops(rs) <= ZeroClicksAll(rs)
  {
    if rs != [] {
      var front := rs[..|rs| - 1];
      var r := rs[|rs| - 1];
      StopsAreClicks(front);
      if Position(rs) % 100 == 0 {
        assert ZeroClicks(Position(front), r) >= 1;
      }
    }
  }
}
