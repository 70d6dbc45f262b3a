/**
 * Day 4 (src/day4.rs): a grid of paper rolls ('@') and empty floor ('.').
 * A roll is accessible when fewer than four of its eight neighbours are
 * rolls; part one counts the accessible rolls, part two removes accessible
 * rolls round after round until none is left and counts the removals.
 */
module Day4 {
  import opened Parsers
  import opened Repetition
  import opened ParserUtils
  import opened Grids

  // ----- Input grammar -----

  /** '.' is an empty cell and '@' a roll. */
  function CellParser(): (p: Parser<char, bool>)
    ensures Obeys(p)
  {
    Disj(MapConst(Chr('.'), false), MapConst(Chr('@'), true))
  }

  function RowParser(): (p: Parser<char, seq<bool>>)
    ensures Obeys(p)
  {
    Many1(CellParser())
  }

  /** Rows separated by newlines, with an optional final newline; `Grid::new` is then applied to the rows. */
  function Grammar(): (p: Parser<char, seq<seq<bool>>>)
    ensures Obeys(p)
  {
    SepEndBy1(RowParser(), Chr('\n'))
  }

  function CellChar(b: bool): char {
    if b then '@' else '.'
  }

  function RowText(row: seq<bool>): (s: string)
    ensures |s| == |row| && forall k :: 0 <= k < |row| ==> s[k] == CellChar(row[k])
  {
    seq(|row|, k requires 0 <= k < |row| => CellChar(row[k]))
  }

  function RowTexts(rows: seq<seq<bool>>): (ts: seq<string>)
    ensures |ts| == |rows| && forall k :: 0 <= k < |rows| ==> ts[k] == RowText(rows[k])
  {
    seq(|rows|, k requires 0 <= k < |rows| => RowText(rows[k]))
  }

  /** The input as the puzzle writes it: one line per row, each ending in a newline. */
  function InputText(rows: seq<seq<bool>>): string
    requires |rows| > 0
  {
    Joined(RowTexts(rows), '\n') + "\n"
  }

  predicate IsCellChar(c: char) {
    c == '.' || c == '@'
  }

  /** A cell character is read as its cell; anything else (or nothing) fails. */
  lemma CellSpec(s: string)
    ensures s != [] && IsCellChar(s[0]) ==> CellParser()(s) == Success(s[0] == '@', s[1..])
    ensures s == [] || !IsCellChar(s[0]) ==> CellParser()(s).Failure?
  {
    ChrSpec('.', s);
    ChrSpec('@', s);
    if s != [] && s[0] == '@' {
      ChrMismatchTriesAlternative('.', false, MapConst(Chr('@'), true), s);
    }
  }

  /** A written nonempty row is its first cell's character followed by the rest written out. */
  lemma RowTextHead(row: seq<bool>, t: string)
    requires |row| > 0
    ensures RowText(row) + t == [CellChar(row[0])] + (RowText(row[1..]) + t)
  {
    assert RowText(row) == [CellChar(row[0])] + RowText(row[1..]);
  }

  /** A cell character reads back as its cell. */
  lemma CellRoundTrip(b: bool, x: string)
    ensures CellParser()([CellChar(b)] + x) == Success(b, x)
  {
    var s := [CellChar(b)] + x;
    assert s[1..] == x;
    CellSpec(s);
  }

  /** One more cell in front of a row the cell loop reads adds that cell in front of its output. */
  lemma CellLoopStep(b: bool, x: string, vs: seq<bool>, t: string)
    requires ManyLoop(CellParser(), x) == Success(vs, t)
    ensures ManyLoop(CellParser(), [CellChar(b)] + x) == Success([b] + vs, t)
  {
    CellRoundTrip(b, x);
    ManyLoopStep(CellParser(), [CellChar(b)] + x, b, x);
  }

  /** The cell loop reads a written row back and stops where the cells end. */
  lemma {:induction false} RowLoop(row: seq<bool>, t: string)
    requires t == [] || !IsCellChar(t[0])
    ensures ManyLoop(CellParser(), RowText(row) + t) == Success(row, t)
  {
    if row == [] {
      assert RowText(row) + t == t;
      CellSpec(t);
      ManyLoopStop(CellParser(), t);
    } else {
      RowTextHead(row, t);
      RowLoop(row[1..], t);
      CellLoopStep(row[0], RowText(row[1..]) + t, row[1..], t);
      assert [row[0]] + row[1..] == row;
    }
  }

  /** A written nonempty row reads back as itself. */
  lemma RowRoundTrip(row: seq<bool>, t: string)
    requires |row| > 0
    requires t == [] || !IsCellChar(t[0])
    ensures RowParser()(RowText(row) + t) == Success(row, t)
  {
    var s := RowText(row) + t;
    CellSpec(s);
    Many1IsMany(CellParser(), s);
    RowLoop(row, t);
  }

  /** The grammar reads the written input back completely. */
  lemma InputRoundTrip(rows: seq<seq<bool>>)
    requires |rows| > 0 && forall k :: 0 <= k < |rows| ==> |rows[k]| > 0
    ensures Grammar()(InputText(rows)) == Success(rows, [])
    ensures ParseAll(Grammar(), InputText(rows)) == Some(rows)
  {
    var ts := RowTexts(rows);
    forall k | 0 <= k < |ts|
      ensures RowParser()(ts[k] + (SepPrefixed(ts[k + 1..], '\n') + "\n"))
        == Success(rows[k], SepPrefixed(ts[k + 1..], '\n') + "\n")
    {
      RowRoundTrip(rows[k], SepPrefixed(ts[k + 1..], '\n') + "\n");
    }
    var none: string := [];
    ChrSpec('\n', "\n");
    assert "\n"[1..] == none;
    CellSpec(none);
    assert Seqr(Chr('\n'), RowParser())("\n").Failure?;
    SepBy1RoundTrip(RowParser(), '\n', ts, rows, "\n");
    ParseAllSpec(Grammar(), InputText(rows), rows);
  }

  // ----- Accessible rolls -----

  /** The number of true cells. */
  function CountTrue(bs: seq<bool>): (n: nat)
    ensures n <= |bs|
  {
    if bs == [] then 0 else CountTrue(bs[..|bs| - 1]) + (if bs[|bs| - 1] then 1 else 0)
  }

  /** Clearing a roll removes exactly one from the count. */
  lemma {:induction false} CountTrueClear(bs: seq<bool>, k: nat)
    requires k < |bs| && bs[k]
    ensures CountTrue(bs[k := false]) == CountTrue(bs) - 1
  {
    var n := |bs|;
    var bs' := bs[k := false];
    assert bs'[..n - 1] == if k < n - 1 then bs[..n - 1][k := false] else bs[..n - 1];
    if k < n - 1 {
      CountTrueClear(bs[..n - 1], k);
    }
  }

  /**
   * The point at position p of a grid is a roll with fewer than four rolls
   * among its in-bounds 8-neighbours, in the cell sequence `cells`.
   */
  predicate Accessible(g: Grid<bool>, cells: seq<bool>, p: Point)
    requires |cells| == g.width * g.height
  {
    g.InBounds(p)
    && (g.OffsetInRange(p, p);
        g.NeighborsInRange(p);
        cells[g.Offset(p)] && CountTrue(g.CellsAt(cells, g.Neighbors(p))) < 4)
  }

  /**
   * `index_iter().filter(accessible)` over the first n positions: the
   * accessible points, in increasing position, and all of them.
   */
  function AccessibleAmong(g: Grid<bool>, cells: seq<bool>, n: nat): (ps: seq<Point>)
    requires |cells| == g.width * g.height && n <= |cells|
    ensures forall i :: 0 <= i < |ps| ==> Accessible(g, cells, ps[i]) && 0 <= g.Offset(ps[i]) < n
    ensures forall i, j :: 0 <= i < j < |ps| ==> g.Offset(ps[i]) < g.Offset(ps[j])
    ensures forall p :: Accessible(g, cells, p) && g.Offset(p) < n ==> p in ps
  {
    if n == 0 then []
    else
      var ps' := AccessibleAmong(g, cells, n - 1);
      var p := g.IndexIter()[n - 1];
      AccessibleAmongStep(g, cells, n, ps', p);
      if Accessible(g, cells, p) then ps' + [p] else ps'
  }

  /** Position n - 1 extends the list for the first n - 1 positions by its point when that is accessible. */
  lemma AccessibleAmongStep(g: Grid<bool>, cells: seq<bool>, n: nat, ps': seq<Point>, p: Point)
    requires |cells| == g.width * g.height && 0 < n <= |cells|
    requires p == g.IndexIter()[n - 1]
    requires forall i :: 0 <= i < |ps'| ==> Accessible(g, cells, ps'[i]) && 0 <= g.Offset(ps'[i]) < n - 1
    requires forall i, j :: 0 <= i < j < |ps'| ==> g.Offset(ps'[i]) < g.Offset(ps'[j])
    requires forall q :: Accessible(g, cells, q) && g.Offset(q) < n - 1 ==> q in ps'
    ensures var ps := if Accessible(g, cells, p) then ps' + [p] else ps';
      && (forall i :: 0 <= i < |ps| ==> Accessible(g, cells, ps[i]) && 0 <= g.Offset(ps[i]) < n)
      && (forall i, j :: 0 <= i < j < |ps| ==> g.Offset(ps[i]) < g.Offset(ps[j]))
      && (forall q :: Accessible(g, cells, q) && g.Offset(q) < n ==> q in ps)
  {
    g.IndexIterPositions();
    AccessibleAt(g, cells, n - 1);
  }

  /** A point whose position is k is the k-th point `index_iter` yields. */
  lemma AccessibleAt(g: Grid<bool>, cells: seq<bool>, k: nat)
    requires |cells| == g.width * g.height && k < |cells|
    ensures forall p :: Accessible(g, cells, p) && g.Offset(p) == k ==> p == g.IndexIter()[k]
  {
    assert g.width * g.height == g.height * g.width;
    forall p | Accessible(g, cells, p) && g.Offset(p) == k
      ensures p == g.IndexIter()[k]
    {
      var q := g.IndexIter()[k];
      g.IndexIterPositions();
      g.OffsetInRange(p, q);
    }
  }

  /** An accessible point is a roll of the grid. */
  lemma AccessibleIsRoll(g: Grid<bool>, cells: seq<bool>, p: Point)
    requires |cells| == g.width * g.height && Accessible(g, cells, p)
    ensures 0 <= g.Offset(p) < |cells| && cells[g.Offset(p)]
  {
    g.OffsetInRange(p, p);
  }

  /** All accessible points of a cell sequence, in `index_iter` order. */
  function AccessiblePoints(g: Grid<bool>, cells: seq<bool>): seq<Point>
    requires |cells| == g.width * g.height
  {
    AccessibleAmong(g, cells, |cells|)
  }

  /** Every accessible point is a roll, so there are at most as many as rolls. */
  lemma {:induction false} AccessibleAtMostRolls(g: Grid<bool>, cells: seq<bool>, n: nat)
    requires |cells| == g.width * g.height && n <= |cells|
    ensures |AccessibleAmong(g, cells, n)| <= CountTrue(cells[..n])
  {
    if n > 0 {
      AccessibleAtMostRolls(g, cells, n - 1);
      var p := g.IndexIter()[n - 1];
      g.IndexIterPositions();
      assert cells[..n][..n - 1] == cells[..n - 1];
    }
  }

  /** `solve_easy`: the number of accessible rolls, never more than the number of rolls. */
  function SolveEasy(g: Grid<bool>): (count: nat)
    reads g
    requires g.Valid()
    ensures count <= CountTrue(g.items)
  {
    AccessibleAtMostRolls(g, g.items, |g.items|);
    assert g.items[..|g.items|] == g.items;
    |AccessiblePoints(g, g.items)|
  }

  /**
   * `cells` with the positions of the points `ps` set to false, one point
   * after the other: exactly the cells that were rolls and whose position
   * no point of `ps` names stay rolls.
   */
  function Cleared(g: Grid<bool>, cells: seq<bool>, ps: seq<Point>): (r: seq<bool>)
    requires forall i :: 0 <= i < |ps| ==> 0 <= g.Offset(ps[i]) < |cells|
    ensures |r| == |cells|
    ensures forall k :: 0 <= k < |cells| ==>
      r[k] == (cells[k] && forall i :: 0 <= i < |ps| ==> g.Offset(ps[i]) != k)
  {
    if ps == [] then cells
    else
      var front := ps[..|ps| - 1];
      assert forall i :: 0 <= i < |front| ==> front[i] == ps[i];
      Cleared(g, cells, front)[g.Offset(ps[|ps| - 1]) := false]
  }

  /** Clearing rolls at distinct positions lowers the number of rolls by the number of points. */
  lemma {:induction false} ClearedCount(g: Grid<bool>, cells: seq<bool>, ps: seq<Point>)
    requires forall i :: 0 <= i < |ps| ==> 0 <= g.Offset(ps[i]) < |cells| && cells[g.Offset(ps[i])]
    requires forall i, j :: 0 <= i < j < |ps| ==> g.Offset(ps[i]) < g.Offset(ps[j])
    ensures CountTrue(Cleared(g, cells, ps)) + |ps| == CountTrue(cells)
  {
    if ps != [] {
      var n := |ps|;
      var front := ps[..n - 1];
      assert forall i :: 0 <= i < |front| ==> front[i] == ps[i];
      ClearedCount(g, cells, front);
      var o := g.Offset(ps[n - 1]);
      var c := Cleared(g, cells, front);
      assert c[o] by {
        forall i | 0 <= i < |front|
          ensures g.Offset(front[i]) != o
        {
          assert g.Offset(ps[i]) < g.Offset(ps[n - 1]);
        }
      }
      CountTrueClear(c, o);
    }
  }

  /**
   * One round of `solve_hard`: every point of `accessible` is set to false,
   * one at a time, counting each. Exactly the listed rolls are cleared,
   * every other cell keeps its value, and the rolls drop by exactly the
   * number removed.
   */
  method RemoveAll(g: Grid<bool>, accessible: seq<Point>, total0: nat) returns (total: nat)
    requires g.Valid()
    requires forall i :: 0 <= i < |accessible| ==>
      0 <= g.Offset(accessible[i]) < |g.items| && g.items[g.Offset(accessible[i])]
    requires forall i, j :: 0 <= i < j < |accessible| ==> g.Offset(accessible[i]) < g.Offset(accessible[j])
    modifies g
    ensures g.Valid()
    ensures g.items == Cleared(g, old(g.items), accessible)
    ensures total == total0 + |accessible|
    ensures CountTrue(g.items) + |accessible| == CountTrue(old(g.items))
    ensures forall k :: 0 <= k < |g.items| && g.items[k] ==> old(g.items)[k]
  {
    total := total0;
    for i := 0 to |accessible|
      invariant g.Valid() && total == total0 + i
      invariant g.items == Cleared(g, old(g.items), accessible[..i])
      invariant CountTrue(g.items) + i == CountTrue(old(g.items))
      invariant forall k :: 0 <= k < |g.items| && g.items[k] ==> old(g.items)[k]
      invariant forall j :: i <= j < |accessible| ==> g.items[g.Offset(accessible[j])]
    {
      var p := accessible[i];
      total := total + 1;
      CountTrueClear(g.items, g.Offset(p));
      assert accessible[..i + 1][..i] == accessible[..i];
      g.Put(p, false);
    }
    assert accessible[..|accessible|] == accessible;
  }

  /** The grid after one round: every roll accessible in `cells` is cleared. */
  function NextRound(g: Grid<bool>, cells: seq<bool>): (r: seq<bool>)
    requires |cells| == g.width * g.height
    ensures |r| == |cells|
    ensures CountTrue(r) + |AccessiblePoints(g, cells)| == CountTrue(cells)
    ensures forall k :: 0 <= k < |cells| && r[k] ==> cells[k]
  {
    var ps := AccessiblePoints(g, cells);
    RollsAt(g, cells, ps);
    ClearedCount(g, cells, ps);
    Cleared(g, cells, ps)
  }

  /** The cells `solve_hard` leaves: rounds of `NextRound` until no roll is accessible. */
  function Rounds(g: Grid<bool>, cells: seq<bool>): (r: seq<bool>)
    requires |cells| == g.width * g.height
    ensures |r| == |cells|
    decreases CountTrue(cells)
  {
    if AccessiblePoints(g, cells) == [] then cells else Rounds(g, NextRound(g, cells))
  }

  /** The number of rolls `solve_hard` removes: the accessible rolls of every round, added up. */
  function Removed(g: Grid<bool>, cells: seq<bool>): nat
    requires |cells| == g.width * g.height
    decreases CountTrue(cells)
  {
    var n := |AccessiblePoints(g, cells)|;
    if n == 0 then 0 else n + Removed(g, NextRound(g, cells))
  }

  /**
   * The rounds stop at cells where no roll is accessible; they only remove
   * rolls, and the rolls removed are exactly those `Removed` counts.
   */
  lemma {:induction false} RoundsSpec(g: Grid<bool>, cells: seq<bool>)
    requires |cells| == g.width * g.height
    ensures Removed(g, cells) + CountTrue(Rounds(g, cells)) == CountTrue(cells)
    ensures forall k :: 0 <= k < |cells| && Rounds(g, cells)[k] ==> cells[k]
    ensures forall p :: !Accessible(g, Rounds(g, cells), p)
    decreases CountTrue(cells)
  {
    if AccessiblePoints(g, cells) == [] {
      NoneAccessible(g, cells);
    } else {
      RoundsSpec(g, NextRound(g, cells));
    }
  }

  /**
   * The first round removes exactly the rolls `solve_easy` counts, and the
   * later rounds start from the grid it leaves.
   */
  lemma FirstRoundIsEasy(g: Grid<bool>)
    requires g.Valid()
    ensures Removed(g, g.items) == SolveEasy(g) + Removed(g, NextRound(g, g.items))
    ensures Removed(g, g.items) >= SolveEasy(g)
  {
    if AccessiblePoints(g, g.items) == [] {
      assert NextRound(g, g.items) == g.items;
    }
  }

  /**
   * `solve_hard`: rounds of removal until no roll is accessible. Each round
   * computes the accessible rolls on the grid as it was before the round.
   * The grid ends as `Rounds` and the total is `Removed` of the grid it
   * started as; the first round removes exactly `solve_easy`'s rolls.
   */
  method SolveHard(g: Grid<bool>) returns (total: nat)
    requires g.Valid()
    modifies g
    ensures g.Valid()
    ensures g.items == Rounds(g, old(g.items))
    ensures total == Removed(g, old(g.items))
    ensures total + CountTrue(g.items) == CountTrue(old(g.items))
    ensures forall k :: 0 <= k < |g.items| && g.items[k] ==> old(g.items)[k]
    ensures forall p :: !Accessible(g, g.items, p)
    ensures total >= old(SolveEasy(g))
  {
    ghost var start := g.items;
    FirstRoundIsEasy(g);
    RoundsSpec(g, start);
    total := 0;
    while true
      invariant g.Valid()
      invariant Rounds(g, g.items) == Rounds(g, start)
      invariant total + Removed(g, g.items) == Removed(g, start)
      decreases CountTrue(g.items)
    {
      var accessible := AccessiblePoints(g, g.items);
      if |accessible| == 0 {
        return;
      }
      RollsAt(g, g.items, accessible);
      total := RemoveAll(g, accessible, total);
    }
  }

  /** When the filter finds nothing, no point is accessible. */
  lemma NoneAccessible(g: Grid<bool>, cells: seq<bool>)
    requires |cells| == g.width * g.height && AccessiblePoints(g, cells) == []
    ensures forall p :: !Accessible(g, cells, p)
  {
    forall p | Accessible(g, cells, p)
      ensures false
    {
      AccessibleIsRoll(g, cells, p);
    }
  }

  /** The accessible points are rolls at distinct, increasing positions. */
  lemma RollsAt(g: Grid<bool>, cells: seq<bool>, ps: seq<Point>)
    requires |cells| == g.width * g.height && ps == AccessiblePoints(g, cells)
    ensures forall i :: 0 <= i < |ps| ==> 0 <= g.Offset(ps[i]) < |cells| && cells[g.Offset(ps[i])]
    ensures forall i, j :: 0 <= i < j < |ps| ==> g.Offset(ps[i]) < g.Offset(ps[j])
  {
    forall i | 0 <= i < |ps|
      ensures 0 <= g.Offset(ps[i]) < |cells| && cells[g.Offset(ps[i])]
    {
      AccessibleIsRoll(g, cells, ps[i]);
    }
  }
}
