/**
 * Day 5 (src/day5.rs): a list of inclusive ranges of fresh ingredient IDs,
 * a blank line, then a list of ingredient IDs; part one counts the listed
 * IDs that are fresh, part two counts every ID any range covers.
 */
module Day5 {
  import opened Parsers
  import opened Repetition
  import opened DecimalDigits
  import opened ParserUtils
  import Day2

  /** An inclusive range `(lo, hi)`. */
  type Range = (nat, nat)

  // ----- Input grammar -----

  /**
   * Newline-terminated `lo-hi` lines (the same `lo-hi` term as day 2), then
   * a newline, then newline-terminated IDs.
   */
  function Grammar(): (p: Parser<char, (seq<Range>, seq<nat>)>)
    ensures Obeys(p)
  {
    Pair(SepEndBy1(Day2.RangeParser(), Chr('\n')), Seqr(Chr('\n'), SepEndBy1(Nat(), Chr('\n'))))
  }

  /** The input as the puzzle writes it: the range lines, a blank line, the ID lines. */
  function InputText(ranges: seq<Range>, ids: seq<nat>): string
    requires |ranges| > 0 && |ids| > 0
  {
    Joined(Day2.RangeTexts(ranges), '\n') + "\n" + "\n" + Joined(DecimalTexts(ids), '\n') + "\n"
  }

  /** A number cannot start at a newline. */
  lemma NatRejectsNewline(s: string)
    requires |s| > 0 && s[0] == '\n'
    ensures Nat()(s).Failure?
  {
    NatSpec(s);
  }

  /**
   * The range lines read back when a blank line follows: the final-separator
   * step of `sep_end_by1` eats the first of its two newlines.
   */
  lemma RangesRoundTrip(ranges: seq<Range>, tail: string)
    requires |ranges| > 0 && |tail| > 0 && tail[0] == '\n'
    ensures SepEndBy1(Day2.RangeParser(), Chr('\n'))(Joined(Day2.RangeTexts(ranges), '\n') + "\n" + tail)
      == Success(ranges, tail)
  {
    var rts := Day2.RangeTexts(ranges);
    var t1 := "\n" + tail;
    forall k | 0 <= k < |rts|
      ensures Day2.RangeParser()(rts[k] + (SepPrefixed(rts[k + 1..], '\n') + t1))
        == Success(ranges[k], SepPrefixed(rts[k + 1..], '\n') + t1)
    {
      Day2.RangeRoundTrip(ranges[k], SepPrefixed(rts[k + 1..], '\n') + t1);
    }
    BlankLine(tail);
    SepBy1RoundTrip(Day2.RangeParser(), '\n', rts, ranges, t1);
    assert TrailingSep(Chr('\n'), Success(ranges, t1)) == Success(ranges, tail);
    assert Joined(rts, '\n') + "\n" + tail == Joined(rts, '\n') + t1;
  }

  /** At a blank line, a newline is read but no further range follows it. */
  lemma BlankLine(tail: string)
    requires |tail| > 0 && tail[0] == '\n'
    ensures Chr('\n')("\n" + tail) == Success('\n', tail)
    ensures Seqr(Chr('\n'), Day2.RangeParser())("\n" + tail).Failure?
  {
    var t1 := "\n" + tail;
    ChrSpec('\n', t1);
    assert t1[1..] == tail;
    NatRejectsNewline(tail);
  }

  /** The ID lines read back completely, the last newline eaten by the final-separator step. */
  lemma IdsRoundTrip(ids: seq<nat>)
    requires |ids| > 0
    ensures SepEndBy1(Nat(), Chr('\n'))(Joined(DecimalTexts(ids), '\n') + "\n") == Success(ids, [])
  {
    var its := DecimalTexts(ids);
    var none: string := [];
    forall k | 0 <= k < |its|
      ensures Nat()(its[k] + (SepPrefixed(its[k + 1..], '\n') + "\n"))
        == Success(ids[k], SepPrefixed(its[k + 1..], '\n') + "\n")
    {
      NatRoundTrip(ids[k], SepPrefixed(its[k + 1..], '\n') + "\n");
    }
    ChrSpec('\n', "\n");
    assert "\n"[1..] == none;
    NatSpec(none);
    assert Seqr(Chr('\n'), Nat())("\n").Failure?;
    SepBy1RoundTrip(Nat(), '\n', its, ids, "\n");
  }

  /**
   * The grammar reads the written input back completely: the range list
   * leaves the second newline of the blank line, which `chr('\n')` eats.
   */
  lemma InputRoundTrip(ranges: seq<Range>, ids: seq<nat>)
    requires |ranges| > 0 && |ids| > 0
    ensures Grammar()(InputText(ranges, ids)) == Success((ranges, ids), [])
    ensures ParseAll(Grammar(), InputText(ranges, ids)) == Some((ranges, ids))
  {
    var rest := Joined(DecimalTexts(ids), '\n') + "\n";
    var tail: string := "\n" + rest;
    var none: string := [];
    var s := InputText(ranges, ids);
    Regroup(Joined(Day2.RangeTexts(ranges), '\n') + "\n", "\n", Joined(DecimalTexts(ids), '\n'), "\n");
    RangesRoundTrip(ranges, tail);
    IdsAfterBlankLine(ids);
    SequenceSuccess(SepEndBy1(Day2.RangeParser(), Chr('\n')), Seqr(Chr('\n'), SepEndBy1(Nat(), Chr('\n'))),
      s, ranges, tail, ids, none);
    ParseAllSpec(Grammar(), s, (ranges, ids));
  }

  /** After the blank line, the ID lines read back to the end of the input. */
  lemma IdsAfterBlankLine(ids: seq<nat>)
    requires |ids| > 0
    ensures Seqr(Chr('\n'), SepEndBy1(Nat(), Chr('\n')))("\n" + (Joined(DecimalTexts(ids), '\n') + "\n")) == Success(ids, [])
  {
    var rest := Joined(DecimalTexts(ids), '\n') + "\n";
    var tail: string := "\n" + rest;
    var none: string := [];
    IdsRoundTrip(ids);
    ChrSpec('\n', tail);
    assert tail[1..] == rest;
    SequenceSuccess(Chr('\n'), SepEndBy1(Nat(), Chr('\n')), tail, '\n', rest, ids, none);
  }

  // ----- Part one: fresh IDs -----

  predicate InRange(id: nat, r: Range) {
    r.0 <= id <= r.1
  }

  /** Some range contains the ID. */
  predicate Fresh(ranges: seq<Range>, id: nat) {
    exists r :: r in ranges && InRange(id, r)
  }

  /** The reference for part one: the listed IDs that are fresh, each occurrence counted. */
  function FreshCount(ranges: seq<Range>, ids: seq<nat>): (n: nat)
    ensures n <= |ids|
    ensures n == |ids| <==> forall k :: 0 <= k < |ids| ==> Fresh(ranges, ids[k])
    ensures n == 0 <==> forall k :: 0 <= k < |ids| ==> !Fresh(ranges, ids[k])
  {
    if ids == [] then 0
    else FreshCount(ranges, ids[..|ids| - 1]) + (if Fresh(ranges, ids[|ids| - 1]) then 1 else 0)
  }

  /**
   * `solve_easy`: for each ID, scan the ranges and count it at the first one
   * that contains it, so an ID is counted once however many ranges contain it.
   */
  method SolveEasy(input: (seq<Range>, seq<nat>)) returns (count: nat)
    ensures count == FreshCount(input.0, input.1)
  {
    var ranges, ids := input.0, input.1;
    count := 0;
    for i := 0 to |ids|
      invariant count == FreshCount(ranges, ids[..i])
    {
      var id := ids[i];
      assert ids[..i + 1][..i] == ids[..i];
      var j := 0;
      ghost var found := false;
      while j < |ranges|
        invariant j <= |ranges| && !found
        invariant forall k :: 0 <= k < j ==> !InRange(id, ranges[k])
        invariant count == FreshCount(ranges, ids[..i])
      {
        var (lo, hi) := ranges[j];
        if id >= lo && id <= hi {
          count := count + 1;
          found := true;
          assert ranges[j] in ranges;
          break;
        }
        j := j + 1;
      }
      if !found {
        assert forall r :: r in ranges ==> !InRange(id, r);
      }
    }
    assert ids[..|ids|] == ids;
  }

  // ----- Part two: merging the ranges -----

  /** The test `solve_hard` applies: the two ranges share at least one ID. */
  predicate Overlaps(a: Range, b: Range) {
    a.1 >= b.0 && b.1 >= a.0
  }

  predicate Valid(ranges: seq<Range>) {
    forall r :: r in ranges ==> r.0 <= r.1
  }

  /** The IDs of one range. */
  function Interval(r: Range): set<nat> {
    set x: nat | x <= r.1 && InRange(x, r)
  }

  /** The IDs some range covers. */
  function Covered(ranges: seq<Range>): set<nat> {
    if ranges == [] then {} else Covered(ranges[..|ranges| - 1]) + Interval(ranges[|ranges| - 1])
  }

  /** Covering one more range adds its IDs. */
  lemma CoveredStep(ranges: seq<Range>, i: nat)
    requires i < |ranges|
    ensures Covered(ranges[..i + 1]) == Covered(ranges[..i]) + Interval(ranges[i])
  {
    assert ranges[..i + 1][..i] == ranges[..i];
  }

  /** The covered IDs are exactly the fresh ones. */
  lemma {:induction false} CoveredIsFresh(ranges: seq<Range>, x: nat)
    ensures x in Covered(ranges) <==> Fresh(ranges, x)
  {
    if ranges != [] {
      var front := ranges[..|ranges| - 1];
      CoveredIsFresh(front, x);
      assert forall r :: r in ranges <==> r in front || r == ranges[|ranges| - 1];
    }
  }

  /** The ranges of `ranges` that overlap `r`, in order (the `overlapping` filter). */
  function Overlapping(ranges: seq<Range>, r: Range): (os: seq<Range>)
    ensures forall q {:trigger q in os} :: q in os <==> q in ranges && Overlaps(q, r)
  {
    if ranges == [] then []
    else (if Overlaps(ranges[0], r) then [ranges[0]] else []) + Overlapping(ranges[1..], r)
  }

  /** The ranges of `ranges` that do not overlap `r`, in order (the `not_overlapping` filter). */
  function Apart(ranges: seq<Range>, r: Range): (kept: seq<Range>)
    ensures forall q {:trigger q in kept} :: q in kept <==> q in ranges && !Overlaps(q, r)
    ensures |kept| + |Overlapping(ranges, r)| == |ranges|
  {
    if ranges == [] then []
    else (if Overlaps(ranges[0], r) then [] else [ranges[0]]) + Apart(ranges[1..], r)
  }

  /** `a` is `b` with some elements left out, the rest in their order. */
  predicate Subsequence(a: seq<Range>, b: seq<Range>) {
    a == [] ||
    (b != [] && if a[0] == b[0] then Subsequence(a[1..], b[1..]) else Subsequence(a, b[1..]))
  }

  /** The filters keep the relative order of the ranges. */
  lemma {:induction false} FiltersKeepOrder(ranges: seq<Range>, r: Range)
    ensures Subsequence(Apart(ranges, r), ranges)
    ensures Subsequence(Overlapping(ranges, r), ranges)
  {
    if ranges != [] {
      FiltersKeepOrder(ranges[1..], r);
      var kept, os := Apart(ranges[1..], r), Overlapping(ranges[1..], r);
      if Overlaps(ranges[0], r) {
        assert Apart(ranges, r) == kept;
        assert kept == [] || kept[0] != ranges[0] by { assert kept == [] || kept[0] in kept; }
        assert ([ranges[0]] + os)[1..] == os;
      } else {
        assert Overlapping(ranges, r) == os;
        assert os == [] || os[0] != ranges[0] by { assert os == [] || os[0] in os; }
        assert ([ranges[0]] + kept)[1..] == kept;
      }
    }
  }

  /**
   * The fold of the overlapping ranges into the new one, keeping the
   * smaller `lo` and the larger `hi`: the hull of the new range and all of
   * them, each end attained by the new range or by one of them.
   */
  function Widen(r: Range, os: seq<Range>): (w: Range)
    ensures w.0 <= r.0 && r.1 <= w.1
    ensures forall o :: o in os ==> w.0 <= o.0 && o.1 <= w.1
    ensures w.0 == r.0 || exists o :: o in os && o.0 == w.0
    ensures w.1 == r.1 || exists o :: o in os && o.1 == w.1
  {
    if os == [] then r
    else
      var acc := Widen(r, os[..|os| - 1]);
      var o := os[|os| - 1];
      assert forall q :: q in os[..|os| - 1] ==> q in os;
      (if acc.0 <= o.0 then acc.0 else o.0, if acc.1 >= o.1 then acc.1 else o.1)
  }

  /** When every range folded in overlaps the new one, the hull covers exactly their union. */
  lemma WidenCovers(r: Range, os: seq<Range>)
    requires forall o :: o in os ==> Overlaps(o, r)
    ensures Interval(Widen(r, os)) == Interval(r) + Covered(os)
  {
    var w := Widen(r, os);
    forall x: nat | x in Interval(w)
      ensures x in Interval(r) + Covered(os)
    {
      CoveredIsFresh(os, x);
      if x < r.0 {
        var o :| o in os && o.0 == w.0;
        assert InRange(x, o);
      } else if x > r.1 {
        var o :| o in os && o.1 == w.1;
        assert InRange(x, o);
      }
    }
    forall x: nat | x in Covered(os)
      ensures x in Interval(w)
    {
      CoveredIsFresh(os, x);
    }
  }

  /** A list of ranges no two of which overlap, built up from the front. */
  predicate Separate(ranges: seq<Range>) {
    ranges == [] ||
    (Separate(ranges[..|ranges| - 1]) && NoneOverlap(ranges[..|ranges| - 1], ranges[|ranges| - 1]))
  }

  /** No range of `ranges` overlaps `r`. */
  predicate NoneOverlap(ranges: seq<Range>, r: Range) {
    forall q :: q in ranges ==> !Overlaps(q, r)
  }

  /** In a separate list of valid ranges, two ranges that overlap are the same range. */
  lemma {:induction false} SeparateOverlap(ranges: seq<Range>, a: Range, b: Range)
    requires Separate(ranges) && Valid(ranges)
    requires a in ranges && b in ranges && Overlaps(a, b)
    ensures a == b
  {
    var front, last := ranges[..|ranges| - 1], ranges[|ranges| - 1];
    assert forall q :: q in ranges ==> q in front || q == last;
    if a in front && b in front {
      assert Valid(front) by { assert forall q :: q in front ==> q in ranges; }
      SeparateOverlap(front, a, b);
    }
  }

  /** Appending a range that overlaps nothing keeps the list separate. */
  lemma SeparateAppend(ranges: seq<Range>, r: Range)
    requires Separate(ranges) && NoneOverlap(ranges, r)
    ensures Separate(ranges + [r])
  {
    assert (ranges + [r])[..|ranges|] == ranges;
  }

  /** Dropping the ranges that overlap `r` keeps a separate list separate. */
  lemma {:induction false} ApartSeparate(ranges: seq<Range>, r: Range)
    requires Separate(ranges)
    ensures Separate(Apart(ranges, r))
  {
    if ranges != [] {
      var front, last := ranges[..|ranges| - 1], ranges[|ranges| - 1];
      assert ranges == front + [last];
      assert Separate(front) && NoneOverlap(front, last);
      ApartSeparate(front, r);
      ApartSnoc(front, last, r);
      if !Overlaps(last, r) {
        var kept := Apart(front, r);
        assert NoneOverlap(kept, last) by {
          forall q | q in kept
            ensures !Overlaps(q, last)
          {
            assert q in front;
          }
        }
        SeparateAppend(kept, last);
      }
    }
  }

  /** The filter, taken from the back. */
  lemma {:induction false} ApartSnoc(ranges: seq<Range>, q: Range, r: Range)
    ensures Overlaps(q, r) ==> Apart(ranges + [q], r) == Apart(ranges, r)
    ensures !Overlaps(q, r) ==> Apart(ranges + [q], r) == Apart(ranges, r) + [q]
  {
    if ranges == [] {
      assert ([] + [q])[1..] == [];
    } else {
      var rest := ranges[1..];
      var head: seq<Range> := if Overlaps(ranges[0], r) then [] else [ranges[0]];
      assert (ranges + [q])[0] == ranges[0];
      assert (ranges + [q])[1..] == rest + [q];
      assert Apart(ranges + [q], r) == head + Apart(rest + [q], r);
      assert Apart(ranges, r) == head + Apart(rest, r);
      ApartSnoc(rest, q, r);
      if !Overlaps(q, r) {
        assert head + (Apart(rest, r) + [q]) == (head + Apart(rest, r)) + [q];
      }
    }
  }

  /** The IDs covered by the two filters together are those covered before. */
  lemma FiltersCover(ranges: seq<Range>, r: Range)
    ensures Covered(Apart(ranges, r)) + Covered(Overlapping(ranges, r)) == Covered(ranges)
  {
    forall x: nat
      ensures x in Covered(Apart(ranges, r)) + Covered(Overlapping(ranges, r)) <==> x in Covered(ranges)
    {
      CoveredIsFresh(Apart(ranges, r), x);
      CoveredIsFresh(Overlapping(ranges, r), x);
      CoveredIsFresh(ranges, x);
    }
  }

  /**
   * One iteration of `solve_hard`: the ranges apart from the new one keep
   * their order and the widened new range goes last.
   */
  function Step(merged: seq<Range>, r: Range): seq<Range> {
    Apart(merged, r) + [Widen(r, Overlapping(merged, r))]
  }

  /**
   * A merged range apart from the new one does not overlap the widened
   * range either: otherwise it would overlap the range that gives the
   * widened range the end on its side.
   */
  lemma ApartFromWidened(merged: seq<Range>, r: Range, a: Range)
    requires Separate(merged) && Valid(merged)
    requires a in Apart(merged, r)
    ensures !Overlaps(a, Widen(r, Overlapping(merged, r)))
  {
    var os := Overlapping(merged, r);
    var w := Widen(r, os);
    if Overlaps(a, w) {
      if a.1 < r.0 {
        var o :| o in os && o.0 == w.0;
        SeparateOverlap(merged, a, o);
      } else {
        var o :| o in os && o.1 == w.1;
        SeparateOverlap(merged, a, o);
      }
    }
  }

  /** A step keeps the merged list separate and valid. */
  lemma StepSeparate(merged: seq<Range>, r: Range)
    requires Separate(merged) && Valid(merged) && r.0 <= r.1
    ensures Separate(Step(merged, r)) && Valid(Step(merged, r))
  {
    var apart := Apart(merged, r);
    var w := Widen(r, Overlapping(merged, r));
    ApartSeparate(merged, r);
    forall a | a in apart
      ensures !Overlaps(a, w)
    {
      ApartFromWidened(merged, r, a);
    }
    SeparateAppend(apart, w);
    assert Valid(apart + [w]) by {
      forall q | q in apart + [w]
        ensures q.0 <= q.1
      {
        if q != w {
          assert q in merged;
        }
      }
    }
  }

  /** A step adds to the covered IDs exactly those of the new range. */
  lemma StepCovers(merged: seq<Range>, r: Range)
    ensures Covered(Step(merged, r)) == Covered(merged) + Interval(r)
  {
    var apart, os := Apart(merged, r), Overlapping(merged, r);
    var w := Widen(r, os);
    var m := Step(merged, r);
    WidenCovers(r, os);
    FiltersCover(merged, r);
    assert m[..|m| - 1] == apart && m[|m| - 1] == w;
  }

  /** The number of IDs of a valid range. */
  lemma {:induction false} IntervalSize(r: Range)
    requires r.0 <= r.1
    ensures |Interval(r)| == r.1 - r.0 + 1
    decreases r.1 - r.0
  {
    if r.0 < r.1 {
      var r' := (r.0, r.1 - 1);
      IntervalSize(r');
      assert Interval(r) == Interval(r') + {r.1};
    } else {
      assert Interval(r) == {r.0};
    }
  }

  /** The sum `solve_hard` returns: `hi - lo + 1` over the merged ranges. */
  function TotalSize(ranges: seq<Range>): int {
    if ranges == [] then 0
    else TotalSize(ranges[..|ranges| - 1]) + (ranges[|ranges| - 1].1 as int - ranges[|ranges| - 1].0 as int + 1)
  }

  /** Over a separate list of valid ranges, the sum of the sizes counts the covered IDs. */
  lemma {:induction false} SeparateSize(ranges: seq<Range>)
    requires Separate(ranges) && Valid(ranges)
    ensures TotalSize(ranges) == |Covered(ranges)|
  {
    if ranges != [] {
      var front, last := ranges[..|ranges| - 1], ranges[|ranges| - 1];
      assert Valid(front) by { assert forall q :: q in front ==> q in ranges; }
      SeparateSize(front);
      IntervalSize(last);
      forall x: nat | x in Covered(front)
        ensures x !in Interval(last)
      {
        CoveredIsFresh(front, x);
        var q :| q in front && InRange(x, q);
        assert !Overlaps(q, last);
      }
      assert Covered(front) * Interval(last) == {};
    }
  }

  /**
   * `solve_hard`: each range in turn is merged with every merged range it
   * overlaps; the merged ranges stay separate and cover the same IDs as the
   * ranges so far, so the sum of their sizes is the number of distinct IDs
   * the input covers.
   */
  method SolveHard(input: (seq<Range>, seq<nat>)) returns (size: nat)
    requires Valid(input.0)
    ensures size == |Covered(input.0)|
  {
    var ranges := input.0;
    var merged: seq<Range> := [];
    for i := 0 to |ranges|
      invariant Separate(merged) && Valid(merged)
      invariant Covered(merged) == Covered(ranges[..i])
    {
      var r := ranges[i];
      assert r in ranges;
      var overlapping := Overlapping(merged, r);
      var notOverlapping := Apart(merged, r);
      var widened := Widen(r, overlapping);
      StepSeparate(merged, r);
      StepCovers(merged, r);
      CoveredStep(ranges, i);
      assert notOverlapping + [widened] == Step(merged, r);
      merged := notOverlapping + [widened];
    }
    assert ranges[..|ranges|] == ranges;
    SeparateSize(merged);
    size := TotalSize(merged);
  }
}
