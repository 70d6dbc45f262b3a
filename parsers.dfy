/**
 * The parsing contract, the error model, the primitive parsers and the
 * combinators that do not repeat (parser-combinators/src/lib.rs).
 *
 * A parser is any total function from a view of the token sequence to an
 * outcome, just as any Rust closure with the right signature is a parser.
 * Views are modelled as the remaining token sequences themselves; "rest is a
 * suffix of the input" is the contract every parser is expected to keep.
 */
module Parsers {

  /** Why a parse failed. */
  datatype ErrorType = ErrMsg(text: string) | ErrRead | ErrSatisfy | ErrChoice

  /** A failure: its reason and the view of the input at the point of failure. */
  datatype ParseError<T> = ParseError(typ: ErrorType, rest: seq<T>)

  /**
   * The outcome of running a parser on a view. `Diverges` stands for a run
   * that never returns: a repetition whose element succeeds without
   * consuming anything loops forever in the library.
   */
  datatype Outcome<T, O> = Success(out: O, rest: seq<T>) | Failure(err: ParseError<T>) | Diverges

  type Parser<!T, O> = seq<T> -> Outcome<T, O>

  function Min(a: int, b: int): int { if a <= b then a else b }

  /**
   * Merges the errors of two failed alternatives: the one that got further
   * (shorter remaining view) wins, and on a tie the SECOND one wins.
   */
  function Combine<T>(e1: ParseError<T>, e2: ParseError<T>): (e: ParseError<T>)
    ensures e == e1 || e == e2
    ensures |e.rest| == Min(|e1.rest|, |e2.rest|)
    ensures |e1.rest| == |e2.rest| ==> e == e2
  {
    if |e1.rest| < |e2.rest| then e1 else e2
  }

  /** `r` is what is left of `s` after dropping some prefix. */
  ghost predicate IsSuffix<T>(r: seq<T>, s: seq<T>) {
    |r| <= |s| && s[|s| - |r|..] == r
  }

  /** The view an outcome reports (success or error) is a suffix of the input. */
  ghost predicate WithinInput<T, O>(r: Outcome<T, O>, s: seq<T>) {
    match r
    case Success(_, rest) => IsSuffix(rest, s)
    case Failure(e) => IsSuffix(e.rest, s)
    case Diverges => true
  }

  /** The parsing contract: on every input, the reported view is a suffix of it. */
  ghost predicate Obeys<T(!new), O>(p: Parser<T, O>) {
    forall s :: WithinInput(p(s), s)
  }

  // ----- Primitive parsers -----

  /** Consumes one token and returns it; fails with `ErrRead` on the empty view. */
  function Read<T(!new)>(): (p: Parser<T, T>)
    ensures Obeys(p)
  {
    s => if |s| == 0 then Failure(ParseError(ErrRead, s)) else Success(s[0], s[1..])
  }

  /** Succeeds without consuming, with a freshly computed value. */
  function PureWith<T(!new), O>(f: () -> O): (p: Parser<T, O>)
    ensures Obeys(p)
  {
    s => Success(f(), s)
  }

  /** Succeeds without consuming, with a fixed value. */
  function Pure<T(!new), O>(x: O): (p: Parser<T, O>)
    ensures Obeys(p)
  {
    s => Success(x, s)
  }

  /** Fails at once with the given error type. */
  function Fail<T(!new), O>(typ: ErrorType): (p: Parser<T, O>)
    ensures Obeys(p)
  {
    s => Failure(ParseError(typ, s))
  }

  /** Fails at once with a message. */
  function FailWithMessage<T(!new), O>(msg: string): (p: Parser<T, O>)
    ensures Obeys(p)
  {
    s => Failure(ParseError(ErrMsg(msg), s))
  }

  // ----- Transformation and sequencing -----

  /** Runs `p` and applies `f` to its output; failures pass through. */
  function Map<T(!new), O, O2>(p: Parser<T, O>, f: O -> O2): (q: Parser<T, O2>)
    ensures Obeys(p) ==> Obeys(q)
  {
    s =>
      match p(s)
      case Success(v, rest) => Success(f(v), rest)
      case Failure(e) => Failure(e)
      case Diverges => Diverges
  }

  /** Runs `p` and replaces its output by `x`. */
  function MapConst<T(!new), O, O2>(p: Parser<T, O>, x: O2): (q: Parser<T, O2>)
    ensures Obeys(p) ==> Obeys(q)
  {
    s =>
      match p(s)
      case Success(_, rest) => Success(x, rest)
      case Failure(e) => Failure(e)
      case Diverges => Diverges
  }

  /**
   * Runs `p` and keeps its success only when `f` accepts the output; a
   * rejection is reported at `p`'s remaining view, after what `p` consumed.
   */
  function Satisfy<T(!new), O>(p: Parser<T, O>, f: O -> bool): (q: Parser<T, O>)
    ensures Obeys(p) ==> Obeys(q)
  {
    s =>
      match p(s)
      case Success(v, rest) => if f(v) then Success(v, rest) else Failure(ParseError(ErrSatisfy, rest))
      case Failure(e) => Failure(e)
      case Diverges => Diverges
  }

  /** The pair impl: `p1` then `p2` on what is left, both outputs kept. */
  function Pair<T(!new), O1, O2>(p1: Parser<T, O1>, p2: Parser<T, O2>): (q: Parser<T, (O1, O2)>)
    ensures Obeys(p1) && Obeys(p2) ==> Obeys(q)
  {
    s =>
      match p1(s)
      case Failure(e) => Failure(e)
      case Diverges => Diverges
      case Success(v1, rest1) =>
        match p2(rest1)
        case Failure(e) => Failure(e)
        case Diverges => Diverges
        case Success(v2, rest2) => Success((v1, v2), rest2)
  }

  /** `p1` then `p2`, keeping the left output. */
  function Seql<T(!new), O1, O2>(p1: Parser<T, O1>, p2: Parser<T, O2>): (q: Parser<T, O1>)
    ensures Obeys(p1) && Obeys(p2) ==> Obeys(q)
  {
    s =>
      match p1(s)
      case Failure(e) => Failure(e)
      case Diverges => Diverges
      case Success(v1, rest1) =>
        match p2(rest1)
        case Failure(e) => Failure(e)
        case Diverges => Diverges
        case Success(_, rest2) => Success(v1, rest2)
  }

  /** `p1` then `p2`, keeping the right output. */
  function Seqr<T(!new), O1, O2>(p1: Parser<T, O1>, p2: Parser<T, O2>): (q: Parser<T, O2>)
    ensures Obeys(p1) && Obeys(p2) ==> Obeys(q)
  {
    s =>
      match p1(s)
      case Failure(e) => Failure(e)
      case Diverges => Diverges
      case Success(_, rest1) =>
        match p2(rest1)
        case Failure(e) => Failure(e)
        case Diverges => Diverges
        case Success(v2, rest2) => Success(v2, rest2)
  }

  // ----- Choice -----

  /**
   * Bounded backtracking: `p2` is tried from the original view only when
   * `p1` failed after consuming at most one token; when both fail their
   * errors are combined.
   */
  function Disj<T(!new), O>(p1: Parser<T, O>, p2: Parser<T, O>): (q: Parser<T, O>)
    ensures Obeys(p1) && Obeys(p2) ==> Obeys(q)
  {
    s =>
      match p1(s)
      case Success(v, rest) => Success(v, rest)
      case Diverges => Diverges
      case Failure(e1) =>
        if |s| - |e1.rest| > 1 then Failure(e1)
        else
          match p2(s)
          case Success(v, rest) => Success(v, rest)
          case Diverges => Diverges
          case Failure(e2) => Failure(Combine(e1, e2))
  }

  /** Any failure of `p` is reported at the original view, with its error type. */
  function Backtrack<T(!new), O>(p: Parser<T, O>): (q: Parser<T, O>)
    ensures Obeys(p) ==> Obeys(q)
  {
    s =>
      match p(s)
      case Success(v, rest) => Success(v, rest)
      case Failure(e) => Failure(ParseError(e.typ, s))
      case Diverges => Diverges
  }

  ghost predicate AllObey<T(!new), O>(ps: seq<Parser<T, O>>) {
    forall i | 0 <= i < |ps| :: Obeys(ps[i])
  }

  /**
   * The alternatives of `ps`, each tried in order from the same view; the
   * first success wins, and when all fail the error is `ErrChoice` at the view.
   */
  function ChoiceFrom<T(!new), O>(ps: seq<Parser<T, O>>, s: seq<T>): (r: Outcome<T, O>)
    ensures AllObey(ps) ==> WithinInput(r, s)
  {
    if ps == [] then Failure(ParseError(ErrChoice, s))
    else
      match ps[0](s)
      case Success(v, rest) => Success(v, rest)
      case Diverges => Diverges
      case Failure(_) =>
        assert AllObey(ps) ==> AllObey(ps[1..]) by {
          forall i | 0 <= i < |ps| - 1 ensures ps[1..][i] == ps[i + 1] { }
        }
        ChoiceFrom(ps[1..], s)
  }

  /** The n-ary, unbounded choice over a list of parsers. */
  function Choice<T(!new), O>(ps: seq<Parser<T, O>>): (q: Parser<T, O>)
    ensures AllObey(ps) ==> Obeys(q)
  {
    s => ChoiceFrom(ps, s)
  }

  /** The `for` loop with early return of the choice combinator. */
  method RunChoice<T(!new), O>(ps: seq<Parser<T, O>>, tokens: seq<T>) returns (r: Outcome<T, O>)
    ensures r == Choice(ps)(tokens)
  {
    for i := 0 to |ps|
      invariant ChoiceFrom(ps, tokens) == ChoiceFrom(ps[i..], tokens)
    {
      assert ps[i..][1..] == ps[i + 1..];
      match ps[i](tokens) {
        case Success(res, rest) => return Success(res, rest);
        case Diverges => return Diverges;
        case Failure(_) =>
      }
    }
    return Failure(ParseError(ErrChoice, tokens));
  }

  // ----- Optional -----

  /** `Some` of `p`'s output, or `None` at the original view when `p` fails. */
  function Optional<T(!new), O>(p: Parser<T, O>): (q: Parser<T, Option<O>>)
    ensures Obeys(p) ==> Obeys(q)
  {
    s =>
      match p(s)
      case Success(v, rest) => Success(Some(v), rest)
      case Failure(_) => Success(None, s)
      case Diverges => Diverges
  }

  datatype Option<T> = None | Some(value: T)

  // ----- Laws of the primitives and combinators -----

  /** `read` consumes exactly one token, or fails with `ErrRead` at the empty view. */
  lemma ReadConsumesOne<T(!new)>(s: seq<T>)
    ensures Read()(s).Success? <==> |s| > 0
    ensures Read()(s).Success? ==> [Read()(s).out] + Read()(s).rest == s
    ensures Read()(s).Failure? ==> Read()(s).err == ParseError(ErrRead, s)
  {
  }

  /** The primitives that do not read hand back exactly the view they were given. */
  lemma ZeroWidthPrimitives<T(!new), O>(s: seq<T>, x: O, f: () -> O, typ: ErrorType, msg: string)
    ensures Pure(x)(s).Success? && Pure(x)(s).rest == s
    ensures PureWith(f)(s).Success? && PureWith(f)(s).rest == s
    ensures Fail<T, O>(typ)(s).Failure? && Fail<T, O>(typ)(s).err.rest == s
    ensures FailWithMessage<T, O>(msg)(s).Failure? && FailWithMessage<T, O>(msg)(s).err.rest == s
  {
  }

  /** `map` changes only the output: success, failure and views are those of `p`. */
  lemma MapKeepsView<T(!new), O, O2>(p: Parser<T, O>, f: O -> O2, s: seq<T>)
    ensures Map(p, f)(s).Success? <==> p(s).Success?
    ensures Map(p, f)(s).Success? ==> Map(p, f)(s).out == f(p(s).out) && Map(p, f)(s).rest == p(s).rest
    ensures p(s).Failure? ==> Map(p, f)(s) == Failure(p(s).err)
    ensures MapConst(p, f)(s) == Map(p, (_: O) => f)(s)
  {
  }

  /** `seql` and `seqr` are the pair combinator followed by a projection. */
  lemma SeqlSeqrProject<T(!new), O1, O2>(p1: Parser<T, O1>, p2: Parser<T, O2>, s: seq<T>)
    ensures Seql(p1, p2)(s) == Map(Pair(p1, p2), (pr: (O1, O2)) => pr.0)(s)
    ensures Seqr(p1, p2)(s) == Map(Pair(p1, p2), (pr: (O1, O2)) => pr.1)(s)
  {
  }

  /** Two successes in a row: the sequencing combinators succeed with the outputs they keep and the second view. */
  lemma SequenceSuccess<T(!new), O1, O2>(p1: Parser<T, O1>, p2: Parser<T, O2>, s: seq<T>, v1: O1, s1: seq<T>, v2: O2, s2: seq<T>)
    requires p1(s) == Success(v1, s1) && p2(s1) == Success(v2, s2)
    ensures Pair(p1, p2)(s) == Success((v1, v2), s2)
    ensures Seql(p1, p2)(s) == Success(v1, s2)
    ensures Seqr(p1, p2)(s) == Success(v2, s2)
  {
  }

  /**
   * `satisfy` passes failures through, keeps accepted successes, and reports
   * a rejection at the view `p` left, not at the input.
   */
  lemma SatisfySemantics<T(!new), O>(p: Parser<T, O>, f: O -> bool, s: seq<T>)
    ensures p(s).Failure? ==> Satisfy(p, f)(s) == p(s)
    ensures p(s).Success? && f(p(s).out) ==> Satisfy(p, f)(s) == p(s)
    ensures p(s).Success? && !f(p(s).out) ==> Satisfy(p, f)(s) == Failure(ParseError(ErrSatisfy, p(s).rest))
  {
  }

  /**
   * `disj` returns a success of `p1`; commits to a failure of `p1` that
   * consumed more than one token (whatever `p2` would do); otherwise runs
   * `p2` from the original view and combines the two errors.
   */
  lemma DisjSemantics<T(!new), O>(p1: Parser<T, O>, p2: Parser<T, O>, alt: Parser<T, O>, s: seq<T>)
    ensures p1(s).Success? ==> Disj(p1, p2)(s) == p1(s)
    ensures p1(s).Failure? && |s| - |p1(s).err.rest| > 1 ==>
      Disj(p1, p2)(s) == p1(s) && Disj(p1, alt)(s) == p1(s)
    ensures p1(s).Failure? && |s| - |p1(s).err.rest| <= 1 ==>
      Disj(p1, p2)(s) == if p2(s).Failure? then Failure(Combine(p1(s).err, p2(s).err)) else p2(s)
  {
  }

  /** A rejection by `satisfy` after more than one token stops `disj` from trying its alternative. */
  lemma SatisfyRejectionCommitsDisj<T(!new), O>(p: Parser<T, O>, f: O -> bool, alt: Parser<T, O>, s: seq<T>)
    requires p(s).Success? && !f(p(s).out) && |s| - |p(s).rest| > 1
    ensures Disj(Satisfy(p, f), alt)(s) == Failure(ParseError(ErrSatisfy, p(s).rest))
  {
  }

  /** `backtrack` keeps successes and moves every failure back to the original view. */
  lemma BacktrackResetsView<T(!new), O>(p: Parser<T, O>, s: seq<T>)
    ensures p(s).Failure? ==> Backtrack(p)(s) == Failure(ParseError(p(s).err.typ, s))
    ensures !p(s).Failure? ==> Backtrack(p)(s) == p(s)
  {
  }

  /**
   * The idiom for unlimited backtracking: with `p1` wrapped in `backtrack`,
   * `disj` falls through to `p2` on every failure of `p1`, and (as the
   * combined error of a tie is the second one) reports `p2`'s own outcome.
   */
  lemma BacktrackThenDisj<T(!new), O>(p1: Parser<T, O>, p2: Parser<T, O>, s: seq<T>)
    requires Obeys(p2)
    ensures p1(s).Failure? ==> Disj(Backtrack(p1), p2)(s) == p2(s)
    ensures !p1(s).Failure? ==> Disj(Backtrack(p1), p2)(s) == p1(s)
  {
    assert WithinInput(p2(s), s);
  }

  /**
   * `choice` returns the outcome of the first alternative that does not fail,
   * every alternative being run on the original view.
   */
  lemma {:induction false} ChoiceFirstDecisive<T(!new), O>(ps: seq<Parser<T, O>>, s: seq<T>, i: nat)
    requires i < |ps| && !ps[i](s).Failure?
    requires forall j | 0 <= j < i :: ps[j](s).Failure?
    ensures Choice(ps)(s) == ps[i](s)
  {
    if i > 0 {
      assert ps[1..][i - 1] == ps[i];
      ChoiceFirstDecisive(ps[1..], s, i - 1);
    }
  }

  /** When every alternative fails, `choice` fails with `ErrChoice` at the original view. */
  lemma {:induction false} ChoiceAllFail<T(!new), O>(ps: seq<Parser<T, O>>, s: seq<T>)
    requires forall j | 0 <= j < |ps| :: ps[j](s).Failure?
    ensures Choice(ps)(s) == Failure(ParseError(ErrChoice, s))
  {
    if ps != [] {
      ChoiceAllFail(ps[1..], s);
    }
  }

  /** `optional` never fails; a failure of `p` becomes `None` at the original view. */
  lemma OptionalNeverFails<T(!new), O>(p: Parser<T, O>, s: seq<T>)
    ensures !Optional(p)(s).Failure?
    ensures p(s).Failure? ==> Optional(p)(s) == Success(None, s)
    ensures p(s).Success? ==> Optional(p)(s) == Success(Some(p(s).out), p(s).rest)
  {
  }
}
