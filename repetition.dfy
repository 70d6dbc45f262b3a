/**
 * The repeating combinators of parser-combinators/src/lib.rs: optional
 * repetition (`many`, `many1`) and the six separator-aware variants.
 *
 * Every one of them is a `while let` loop over a mutable view. `ManyLoop` is
 * that loop as a function; the combinators are defined from it, and the
 * `Run*` methods are the loops as the library writes them, each proved to
 * compute its combinator.
 */
module Repetition {
  import opened Parsers

  /** Puts `v` in front of the outputs of a successful outcome. */
  function Prepend<T, O>(v: O, r: Outcome<T, seq<O>>): (r': Outcome<T, seq<O>>)
    ensures r'.Success? <==> r.Success?
    ensures r.Failure? ==> r' == r
  {
    match r
    case Success(vs, rest) => Success([v] + vs, rest)
    case Failure(e) => Failure(e)
    case Diverges => Diverges
  }

  /** Puts `vs` in front of the outputs of a successful outcome. */
  function PrependAll<T, O>(vs: seq<O>, r: Outcome<T, seq<O>>): Outcome<T, seq<O>> {
    match r
    case Success(ws, rest) => Success(vs + ws, rest)
    case Failure(e) => Failure(e)
    case Diverges => Diverges
  }

  lemma PrependAllNil<T, O>(r: Outcome<T, seq<O>>)
    ensures PrependAll([], r) == r
  {
    if r.Success? {
      assert [] + r.out == r.out;
    }
  }

  lemma PrependAllStep<T, O>(vs: seq<O>, v: O, r: Outcome<T, seq<O>>)
    ensures PrependAll(vs + [v], r) == PrependAll(vs, Prepend(v, r))
  {
    if r.Success? {
      assert (vs + [v]) + r.out == vs + ([v] + r.out);
    }
  }

  /**
   * The loop `while let Ok((one, rest1)) = p.parse(rest) { rest = rest1;
   * res.push(one) }`: the outputs of the successive successes of `p` and the
   * view after the last one. A success that does not shorten the view makes
   * the library loop forever (for a parser that keeps the contract it leaves
   * the view as it was), which is `Diverges` here.
   */
  function ManyLoop<T(!new), O>(p: Parser<T, O>, rest: seq<T>): (r: Outcome<T, seq<O>>)
    ensures !r.Failure?
    ensures Obeys(p) ==> WithinInput(r, rest)
    decreases |rest|
  {
    match p(rest)
    case Failure(_) => Success([], rest)
    case Diverges => Diverges
    case Success(one, rest1) =>
      if |rest1| < |rest| then Prepend(one, ManyLoop(p, rest1)) else Diverges
  }

  /**
   * The reference for what the loop does: `p` succeeds |vs| times in a row
   * from `s`, each time consuming something, yielding `vs` and ending at `rest`.
   */
  ghost predicate Iterates<T(!new), O>(p: Parser<T, O>, s: seq<T>, vs: seq<O>, rest: seq<T>)
    decreases |vs|
  {
    if vs == [] then rest == s
    else p(s).Success? && p(s).out == vs[0] && |p(s).rest| < |s| && Iterates(p, p(s).rest, vs[1..], rest)
  }

  /**
   * The outcome of a first step followed by the loop of `step`: a failure of
   * the first step propagates, a success starts the loop after it.
   */
  function ThenLoop<T(!new), O>(first: Outcome<T, O>, step: Parser<T, O>): (r: Outcome<T, seq<O>>)
    ensures first.Failure? <==> r.Failure?
    ensures first.Failure? ==> r == Failure(first.err)
    ensures forall s :: Obeys(step) && WithinInput(first, s) ==> WithinInput(r, s)
  {
    match first
    case Failure(e) => Failure(e)
    case Diverges => Diverges
    case Success(v, rest) => Prepend(v, ManyLoop(step, rest))
  }

  /**
   * After a successful repetition, one more attempt at the separator: its
   * success view, or the view recorded in its ERROR when it fails.
   */
  function TrailingSep<T(!new), O, S>(sep: Parser<T, S>, r: Outcome<T, seq<O>>): (r': Outcome<T, seq<O>>)
    ensures r'.Failure? <==> r.Failure?
    ensures forall s :: Obeys(sep) && WithinInput(r, s) ==> WithinInput(r', s)
  {
    match r
    case Success(vs, rest) =>
      (match sep(rest)
       case Success(_, rest1) => Success(vs, rest1)
       case Failure(e) => Success(vs, e.rest)
       case Diverges => Diverges)
    case Failure(e) => Failure(e)
    case Diverges => Diverges
  }

  /** One turn of the loop: a success that shortens the view adds its output in front. */
  lemma ManyLoopStep<T(!new), O>(p: Parser<T, O>, s: seq<T>, v: O, s1: seq<T>)
    requires p(s) == Success(v, s1) && |s1| < |s|
    ensures ManyLoop(p, s) == Prepend(v, ManyLoop(p, s1))
  {
  }

  /** The loop ends at the first failure, with the view it failed on. */
  lemma ManyLoopStop<T(!new), O>(p: Parser<T, O>, s: seq<T>)
    requires p(s).Failure?
    ensures ManyLoop(p, s) == Success([], s)
  {
  }

  // ----- The combinators -----

  /** Zero or more `p`. */
  function Many<T(!new), O>(p: Parser<T, O>): (q: Parser<T, seq<O>>)
    ensures Obeys(p) ==> Obeys(q)
  {
    s => ManyLoop(p, s)
  }

  /** One or more `p`; a failure of the first `p` propagates. */
  function Many1<T(!new), O>(p: Parser<T, O>): (q: Parser<T, seq<O>>)
    ensures Obeys(p) ==> Obeys(q)
  {
    s => ThenLoop(p(s), p)
  }

  /** One or more `p` separated by `sep`; the loop step is `sep` then `p`. */
  function SepBy1<T(!new), O, S>(p: Parser<T, O>, sep: Parser<T, S>): (q: Parser<T, seq<O>>)
    ensures Obeys(p) && Obeys(sep) ==> Obeys(q)
  {
    s => ThenLoop(p(s), Seqr(sep, p))
  }

  /** Zero or more `p` separated by `sep`: no element is ([], view). */
  function SepBy<T(!new), O, S>(p: Parser<T, O>, sep: Parser<T, S>): (q: Parser<T, seq<O>>)
    ensures Obeys(p) && Obeys(sep) ==> Obeys(q)
  {
    s => if p(s).Failure? then Success([], s) else SepBy1(p, sep)(s)
  }

  /** Zero or more `p`, each followed by `sep`; the loop step is `p` then `sep`. */
  function EndBy<T(!new), O, S>(p: Parser<T, O>, sep: Parser<T, S>): (q: Parser<T, seq<O>>)
    ensures Obeys(p) && Obeys(sep) ==> Obeys(q)
  {
    Many(Seql(p, sep))
  }

  /** One or more `p`, each followed by `sep`; the first pair's failure propagates. */
  function EndBy1<T(!new), O, S>(p: Parser<T, O>, sep: Parser<T, S>): (q: Parser<T, seq<O>>)
    ensures Obeys(p) && Obeys(sep) ==> Obeys(q)
  {
    Many1(Seql(p, sep))
  }

  /** `sep_by1` followed by one more attempt at the separator. */
  function SepEndBy1<T(!new), O, S>(p: Parser<T, O>, sep: Parser<T, S>): (q: Parser<T, seq<O>>)
    ensures Obeys(p) && Obeys(sep) ==> Obeys(q)
  {
    s => TrailingSep(sep, ThenLoop(p(s), Seqr(sep, p)))
  }

  /** Like `sep_end_by1`, but no first element is ([], view) with no separator attempt. */
  function SepEndBy<T(!new), O, S>(p: Parser<T, O>, sep: Parser<T, S>): (q: Parser<T, seq<O>>)
    ensures Obeys(p) && Obeys(sep) ==> Obeys(q)
  {
    s => if p(s).Failure? then Success([], s) else SepEndBy1(p, sep)(s)
  }

  /** When the first `p` succeeds and consumes, `many1` is `many`. */
  lemma Many1IsMany<T(!new), O>(p: Parser<T, O>, s: seq<T>)
    requires p(s).Success? && |p(s).rest| < |s|
    ensures Many1(p)(s) == Many(p)(s)
  {
    ManyLoopStep(p, s, p(s).out, p(s).rest);
  }

  /** A first element followed by a finished separator loop: what `sep_by1` and `sep_end_by1` return. */
  lemma SepBy1Success<T(!new), O, S>(p: Parser<T, O>, sep: Parser<T, S>, s: seq<T>, v: O, s1: seq<T>, vs: seq<O>, rest: seq<T>)
    requires p(s) == Success(v, s1) && ManyLoop(Seqr(sep, p), s1) == Success(vs, rest)
    ensures SepBy1(p, sep)(s) == Success([v] + vs, rest)
    ensures SepEndBy1(p, sep)(s) == TrailingSep(sep, Success([v] + vs, rest))
  {
  }

  // ----- The loops as the library writes them -----

  /** The loop of `many` and `many1`, continuing the outputs `res0` from the view `rest0`. */
  method RunManyLoop<T(!new), O>(p: Parser<T, O>, rest0: seq<T>, res0: seq<O>) returns (r: Outcome<T, seq<O>>)
    ensures r == PrependAll(res0, ManyLoop(p, rest0))
  {
    var rest, res := rest0, res0;
    while true
      invariant PrependAll(res0, ManyLoop(p, rest0)) == PrependAll(res, ManyLoop(p, rest))
      decreases |rest|
    {
      var step := p(rest);
      if step.Diverges? {
        return Diverges;
      }
      if step.Failure? {
        break;
      }
      if |step.rest| >= |rest| {
        // the library would parse the same view again, for ever
        return Diverges;
      }
      PrependAllStep(res, step.out, ManyLoop(p, step.rest));
      rest := step.rest;
      res := res + [step.out];
    }
    assert res + [] == res;
    return Success(res, rest);
  }

  /**
   * The loop of the `sep_by` family: a separator, then an element; when
   * either fails the loop stops before the separator.
   */
  method RunSepLoop<T(!new), O, S>(p: Parser<T, O>, sep: Parser<T, S>, rest0: seq<T>, res0: seq<O>)
    returns (r: Outcome<T, seq<O>>)
    ensures r == PrependAll(res0, ManyLoop(Seqr(sep, p), rest0))
  {
    var rest, res := rest0, res0;
    while true
      invariant PrependAll(res0, ManyLoop(Seqr(sep, p), rest0)) == PrependAll(res, ManyLoop(Seqr(sep, p), rest))
      decreases |rest|
    {
      var afterSep := sep(rest);
      if afterSep.Diverges? {
        return Diverges;
      }
      if afterSep.Failure? {
        break;
      }
      var one := p(afterSep.rest);
      if one.Diverges? {
        return Diverges;
      }
      if one.Failure? {
        break;
      }
      if |one.rest| >= |rest| {
        // the library would parse the same view again, for ever
        return Diverges;
      }
      PrependAllStep(res, one.out, ManyLoop(Seqr(sep, p), one.rest));
      rest := one.rest;
      res := res + [one.out];
    }
    assert res + [] == res;
    return Success(res, rest);
  }

  /**
   * The loop of the `end_by` family: an element, then its separator; when
   * either fails the loop stops before the element.
   */
  method RunEndLoop<T(!new), O, S>(p: Parser<T, O>, sep: Parser<T, S>, rest0: seq<T>, res0: seq<O>)
    returns (r: Outcome<T, seq<O>>)
    ensures r == PrependAll(res0, ManyLoop(Seql(p, sep), rest0))
  {
    var rest, res := rest0, res0;
    while true
      invariant PrependAll(res0, ManyLoop(Seql(p, sep), rest0)) == PrependAll(res, ManyLoop(Seql(p, sep), rest))
      decreases |rest|
    {
      var one := p(rest);
      if one.Diverges? {
        return Diverges;
      }
      if one.Failure? {
        break;
      }
      var afterSep := sep(one.rest);
      if afterSep.Diverges? {
        return Diverges;
      }
      if afterSep.Failure? {
        break;
      }
      if |afterSep.rest| >= |rest| {
        // the library would parse the same view again, for ever
        return Diverges;
      }
      PrependAllStep(res, one.out, ManyLoop(Seql(p, sep), afterSep.rest));
      rest := afterSep.rest;
      res := res + [one.out];
    }
    assert res + [] == res;
    return Success(res, rest);
  }

  method RunMany<T(!new), O>(p: Parser<T, O>, tokens: seq<T>) returns (r: Outcome<T, seq<O>>)
    ensures r == Many(p)(tokens)
  {
    r := RunManyLoop(p, tokens, []);
    PrependAllNil(ManyLoop(p, tokens));
  }

  method RunMany1<T(!new), O>(p: Parser<T, O>, tokens: seq<T>) returns (r: Outcome<T, seq<O>>)
    ensures r == Many1(p)(tokens)
  {
    var first := p(tokens);
    if !first.Success? {
      return if first.Failure? then Failure(first.err) else Diverges;
    }
    r := RunManyLoop(p, first.rest, [first.out]);
  }

  method RunSepBy<T(!new), O, S>(p: Parser<T, O>, sep: Parser<T, S>, tokens: seq<T>) returns (r: Outcome<T, seq<O>>)
    ensures r == SepBy(p, sep)(tokens)
  {
    var first := p(tokens);
    if first.Failure? {
      return Success([], tokens);
    }
    if first.Diverges? {
      return Diverges;
    }
    r := RunSepLoop(p, sep, first.rest, [first.out]);
  }

  method RunSepBy1<T(!new), O, S>(p: Parser<T, O>, sep: Parser<T, S>, tokens: seq<T>) returns (r: Outcome<T, seq<O>>)
    ensures r == SepBy1(p, sep)(tokens)
  {
    var first := p(tokens);
    if !first.Success? {
      return if first.Failure? then Failure(first.err) else Diverges;
    }
    r := RunSepLoop(p, sep, first.rest, [first.out]);
  }

  method RunEndBy<T(!new), O, S>(p: Parser<T, O>, sep: Parser<T, S>, tokens: seq<T>) returns (r: Outcome<T, seq<O>>)
    ensures r == EndBy(p, sep)(tokens)
  {
    r := RunEndLoop(p, sep, tokens, []);
    PrependAllNil(ManyLoop(Seql(p, sep), tokens));
  }

  method RunEndBy1<T(!new), O, S>(p: Parser<T, O>, sep: Parser<T, S>, tokens: seq<T>) returns (r: Outcome<T, seq<O>>)
    ensures r == EndBy1(p, sep)(tokens)
  {
    var first := p(tokens);
    if !first.Success? {
      return if first.Failure? then Failure(first.err) else Diverges;
    }
    var afterSep := sep(first.rest);
    if !afterSep.Success? {
      return if afterSep.Failure? then Failure(afterSep.err) else Diverges;
    }
    r := RunEndLoop(p, sep, afterSep.rest, [first.out]);
  }

  method RunSepEndBy<T(!new), O, S>(p: Parser<T, O>, sep: Parser<T, S>, tokens: seq<T>) returns (r: Outcome<T, seq<O>>)
    ensures r == SepEndBy(p, sep)(tokens)
  {
    var first := p(tokens);
    if first.Failure? {
      return Success([], tokens);
    }
    if first.Diverges? {
      return Diverges;
    }
    var looped := RunSepLoop(p, sep, first.rest, [first.out]);
    if !looped.Success? {
      return looped;
    }
    var last := sep(looped.rest);
    r := match last
      case Success(_, rest) => Success(looped.out, rest)
      case Failure(e) => Success(looped.out, e.rest)
      case Diverges => Diverges;
  }

  method RunSepEndBy1<T(!new), O, S>(p: Parser<T, O>, sep: Parser<T, S>, tokens: seq<T>) returns (r: Outcome<T, seq<O>>)
    ensures r == SepEndBy1(p, sep)(tokens)
  {
    var first := p(tokens);
    if !first.Success? {
      return if first.Failure? then Failure(first.err) else Diverges;
    }
    var looped := RunSepLoop(p, sep, first.rest, [first.out]);
    if !looped.Success? {
      return looped;
    }
    var last := sep(looped.rest);
    r := match last
      case Success(_, rest) => Success(looped.out, rest)
      case Failure(e) => Success(looped.out, e.rest)
      case Diverges => Diverges;
  }

  // ----- Laws of repetition -----

  /** `p` does not move: it diverges, or succeeds leaving the view as it was. */
  ghost predicate Stalls<T(!new), O>(p: Parser<T, O>, s: seq<T>) {
    p(s).Diverges? || (p(s).Success? && p(s).rest == s)
  }

  /**
   * The loop yields exactly a chain of consuming successes of `p` and stops
   * at the first view where `p` fails.
   */
  lemma {:induction false} ManyLoopChain<T(!new), O>(p: Parser<T, O>, s: seq<T>, vs: seq<O>, rest: seq<T>)
    ensures ManyLoop(p, s) == Success(vs, rest) <==> Iterates(p, s, vs, rest) && p(rest).Failure?
    decreases |s|
  {
    match p(s)
    case Failure(_) =>
    case Diverges =>
    case Success(one, rest1) =>
      if |rest1| < |s| && vs != [] {
        ManyLoopChain(p, rest1, vs[1..], rest);
        var tail := ManyLoop(p, rest1);
        if tail.Success? {
          assert [one] + tail.out == vs <==> one == vs[0] && tail.out == vs[1..] by {
            if one == vs[0] && tail.out == vs[1..] {
              assert vs == [vs[0]] + vs[1..];
            }
          }
        }
      }
  }

  /** A chain of consuming successes that reaches a view where `p` stalls makes the loop diverge. */
  lemma {:induction false} ManyLoopStalls<T(!new), O>(p: Parser<T, O>, s: seq<T>, vs: seq<O>, rest: seq<T>)
    requires Iterates(p, s, vs, rest) && Stalls(p, rest)
    ensures ManyLoop(p, s) == Diverges
    decreases |vs|
  {
    if vs != [] {
      ManyLoopStalls(p, p(s).rest, vs[1..], rest);
    }
  }

  /**
   * For a parser that keeps the contract, stalling after a chain of consuming
   * successes is the only way the loop diverges: the library's infinite loop.
   */
  lemma {:induction false} ManyLoopDivergesOnlyByStalling<T(!new), O>(p: Parser<T, O>, s: seq<T>)
    returns (vs: seq<O>, rest: seq<T>)
    requires Obeys(p) && ManyLoop(p, s).Diverges?
    ensures Iterates(p, s, vs, rest) && Stalls(p, rest)
    decreases |s|
  {
    assert WithinInput(p(s), s);
    match p(s)
    case Diverges =>
      vs, rest := [], s;
    case Success(one, rest1) =>
      if |rest1| < |s| {
        var tail, last := ManyLoopDivergesOnlyByStalling(p, rest1);
        assert ([one] + tail)[1..] == tail;
        vs, rest := [one] + tail, last;
      } else {
        assert rest1 == s;
        vs, rest := [], s;
      }
  }

  /**
   * `many` never fails; when `p` fails at once it is ([], view); when `p`
   * succeeds without consuming it never returns.
   */
  lemma ManyNeverFails<T(!new), O>(p: Parser<T, O>, s: seq<T>)
    ensures !Many(p)(s).Failure?
    ensures p(s).Failure? ==> Many(p)(s) == Success([], s)
    ensures p(s).Success? && p(s).rest == s ==> Many(p)(s) == Diverges
  {
  }

  /**
   * `many1` fails exactly when the first `p` fails, with that error;
   * otherwise it is that first output followed by `many p` after it.
   */
  lemma Many1Semantics<T(!new), O>(p: Parser<T, O>, s: seq<T>)
    ensures Many1(p)(s).Failure? <==> p(s).Failure?
    ensures p(s).Failure? ==> Many1(p)(s) == Failure(p(s).err)
    ensures p(s).Success? ==> Many1(p)(s) == Prepend(p(s).out, Many(p)(p(s).rest))
    ensures Many1(p)(s).Success? ==> |Many1(p)(s).out| >= 1 && Many1(p)(s).out[0] == p(s).out
  {
  }

  /**
   * `sep_by` is ([], view) when the first element fails and `sep_by1`
   * otherwise; `sep_by1` fails exactly when the first element fails.
   */
  lemma SepBySemantics<T(!new), O, S>(p: Parser<T, O>, sep: Parser<T, S>, s: seq<T>)
    ensures p(s).Failure? ==> SepBy(p, sep)(s) == Success([], s)
    ensures !p(s).Failure? ==> SepBy(p, sep)(s) == SepBy1(p, sep)(s)
    ensures SepBy1(p, sep)(s).Failure? <==> p(s).Failure?
    ensures p(s).Failure? ==> SepBy1(p, sep)(s) == Failure(p(s).err)
  {
  }

  /**
   * A successful `sep_by1` is a first element and a chain of
   * separator-then-element steps, and it stops BEFORE the next separator:
   * there the separator fails, or it succeeds and the element after it fails
   * (a separator followed by a failing element is left unconsumed).
   */
  lemma SepByStopsBeforeSeparator<T(!new), O, S>(p: Parser<T, O>, sep: Parser<T, S>, s: seq<T>, vs: seq<O>, rest: seq<T>)
    requires SepBy1(p, sep)(s) == Success(vs, rest)
    ensures p(s).Success? && |vs| >= 1 && vs[0] == p(s).out
    ensures Iterates(Seqr(sep, p), p(s).rest, vs[1..], rest)
    ensures sep(rest).Failure? || (sep(rest).Success? && p(sep(rest).rest).Failure?)
  {
    assert SepBy1(p, sep)(s) == ThenLoop(p(s), Seqr(sep, p));
    assert p(s).Success?;
    var tail := ManyLoop(Seqr(sep, p), p(s).rest);
    assert tail == Success(vs[1..], rest);
    ManyLoopChain(Seqr(sep, p), p(s).rest, vs[1..], rest);
  }

  /**
   * `end_by` keeps exactly the elements whose separator followed and was
   * consumed, and stops where an element or its separator fails.
   */
  lemma EndByChain<T(!new), O, S>(p: Parser<T, O>, sep: Parser<T, S>, s: seq<T>, vs: seq<O>, rest: seq<T>)
    ensures EndBy(p, sep)(s) == Success(vs, rest) <==>
      Iterates(Seql(p, sep), s, vs, rest) && Seql(p, sep)(rest).Failure?
  {
    ManyLoopChain(Seql(p, sep), s, vs, rest);
  }

  /**
   * `end_by` never fails; `end_by1` fails exactly when the first element or
   * its separator fails, and is otherwise that element then `end_by`.
   */
  lemma EndBySemantics<T(!new), O, S>(p: Parser<T, O>, sep: Parser<T, S>, s: seq<T>)
    ensures !EndBy(p, sep)(s).Failure?
    ensures EndBy1(p, sep)(s).Failure? <==> p(s).Failure? || (p(s).Success? && sep(p(s).rest).Failure?)
    ensures p(s).Success? && sep(p(s).rest).Success? ==>
      EndBy1(p, sep)(s) == Prepend(p(s).out, EndBy(p, sep)(sep(p(s).rest).rest))
  {
  }

  /**
   * After the elements, `sep_end_by1` makes one more attempt at the
   * separator: the view becomes its success view, or the view recorded in
   * its error when it fails; the elements are unchanged.
   */
  lemma SepEndByFinalSeparator<T(!new), O, S>(p: Parser<T, O>, sep: Parser<T, S>, s: seq<T>)
    requires SepBy1(p, sep)(s).Success?
    ensures sep(SepBy1(p, sep)(s).rest).Success? ==>
      SepEndBy1(p, sep)(s) == Success(SepBy1(p, sep)(s).out, sep(SepBy1(p, sep)(s).rest).rest)
    ensures sep(SepBy1(p, sep)(s).rest).Failure? ==>
      SepEndBy1(p, sep)(s) == Success(SepBy1(p, sep)(s).out, sep(SepBy1(p, sep)(s).rest).err.rest)
  {
  }

  /**
   * `sep_end_by` never fails, and is ([], view) with no separator attempt
   * when the first element fails; `sep_end_by1` fails only when its first
   * element does.
   */
  lemma SepEndByNeverFailsAfterFirst<T(!new), O, S>(p: Parser<T, O>, sep: Parser<T, S>, s: seq<T>)
    ensures !SepEndBy(p, sep)(s).Failure?
    ensures p(s).Failure? ==> SepEndBy(p, sep)(s) == Success([], s)
    ensures SepEndBy1(p, sep)(s).Failure? <==> p(s).Failure?
  {
  }
}
