/**
 * The element parsers on characters and the full-consumption driver
 * (src/parser_utils.rs), built from the engine's combinators.
 */
module ParserUtils {
  import opened Parsers
  import opened Repetition
  import opened DecimalDigits

  /**
   * Rust's `char::is_whitespace`: the characters with the Unicode
   * White_Space property.
   */
  predicate IsWhitespace(c: char) {
    ('\U{0009}' <= c <= '\U{000D}') || c == '\U{0020}' || c == '\U{0085}' || c == '\U{00A0}'
    || c == '\U{1680}' || ('\U{2000}' <= c <= '\U{200A}') || c == '\U{2028}' || c == '\U{2029}'
    || c == '\U{202F}' || c == '\U{205F}' || c == '\U{3000}'
  }

  /**
   * The reference for "maximal run": the length of the longest prefix of `s`
   * whose characters all satisfy `f`.
   */
  function RunLength(s: seq<char>, f: char -> bool): (n: nat)
    ensures n <= |s|
    ensures forall i :: 0 <= i < n ==> f(s[i])
    ensures n < |s| ==> !f(s[n])
  {
    if s == [] || !f(s[0]) then 0 else 1 + RunLength(s[1..], f)
  }

  /** A run of `f`-characters followed by a character outside `f` (or nothing) has exactly that length. */
  lemma {:induction false} RunLengthOfPrefix(a: seq<char>, b: seq<char>, f: char -> bool)
    requires forall i :: 0 <= i < |a| ==> f(a[i])
    requires b == [] || !f(b[0])
    ensures RunLength(a + b, f) == |a|
  {
    if a != [] {
      assert (a + b)[1..] == a[1..] + b;
      RunLengthOfPrefix(a[1..], b, f);
    }
  }

  /** The single character `c`. */
  function Chr(c: char): (p: Parser<char, char>)
    ensures Obeys(p)
  {
    Satisfy(Read(), (t: char) => t == c)
  }

  /** The literal string `kw`; a mismatch fails without consuming. */
  function Keyword(kw: string): (p: Parser<char, ()>)
    ensures Obeys(p)
  {
    s => if |kw| <= |s| && s[..|kw|] == kw then Success((), s[|kw|..])
         else Failure(ParseError(ErrMsg("keyword"), s))
  }

  /** Skips the maximal run of whitespace; never fails. */
  function Whitespace(): (p: Parser<char, ()>)
    ensures Obeys(p)
  {
    MapConst(Many(Satisfy(Read(), IsWhitespace)), ())
  }

  /** One ASCII decimal digit. */
  function Digit(): (p: Parser<char, char>)
    ensures Obeys(p)
  {
    Satisfy(Read(), IsDigit)
  }

  /** One or more digits, read as a decimal number. */
  function Nat(): (p: Parser<char, nat>)
    ensures Obeys(p)
  {
    Map(Many1(Digit()), DecimalValue)
  }

  /**
   * The driver's full-consumption check: the output when the parser succeeds
   * with nothing left over, `None` where the library panics (a failure or
   * leftover input) or never returns.
   */
  function ParseAll<O>(p: Parser<char, O>, input: seq<char>): (r: Option<O>)
    ensures r.Some? <==> p(input).Success? && p(input).rest == []
    ensures r.Some? ==> r.value == p(input).out
  {
    match p(input)
    case Success(v, rest) => if rest == [] then Some(v) else None
    case _ => None
  }

  // ----- Properties of the element parsers -----

  /**
   * `chr(c)` consumes exactly one token whether it accepts or rejects: it
   * accepts exactly a leading `c`, a mismatch is `ErrSatisfy` after that
   * token, and the empty view is `ErrRead`.
   */
  lemma ChrSpec(c: char, s: seq<char>)
    ensures Chr(c)(s).Success? <==> |s| > 0 && s[0] == c
    ensures |s| > 0 && s[0] == c ==> Chr(c)(s) == Success(c, s[1..])
    ensures |s| > 0 && s[0] != c ==> Chr(c)(s) == Failure(ParseError(ErrSatisfy, s[1..]))
    ensures s == [] ==> Chr(c)(s) == Failure(ParseError(ErrRead, s))
  {
  }

  /**
   * A mismatching `chr` has consumed one token only, so an alternative after
   * it is still tried: `chr(a).disj(q)` on a token other than `a` is `q`,
   * unless `q` also fails and got no further.
   */
  lemma ChrMismatchTriesAlternative<O>(c: char, x: O, q: Parser<char, O>, s: seq<char>)
    requires |s| > 0 && s[0] != c
    ensures q(s).Success? ==> Disj(MapConst(Chr(c), x), q)(s) == q(s)
  {
  }

  /** `keyword(kw)` accepts exactly the inputs that start with `kw` and leaves what follows it. */
  lemma KeywordSpec(kw: string, s: seq<char>, t: seq<char>)
    ensures Keyword(kw)(kw + t) == Success((), t)
    ensures Keyword(kw)(s).Success? ==> s == kw + Keyword(kw)(s).rest
    ensures Keyword(kw)(s).Failure? ==> Keyword(kw)(s).err == ParseError(ErrMsg("keyword"), s)
  {
    assert (kw + t)[..|kw|] == kw;
    assert (kw + t)[|kw|..] == t;
    if Keyword(kw)(s).Success? {
      assert s == s[..|kw|] + s[|kw|..];
    }
  }

  /** `many` over a one-character test collects exactly the maximal run of accepted characters. */
  lemma {:induction false} ManyCharsIsRun(f: char -> bool, s: seq<char>)
    ensures ManyLoop(Satisfy(Read(), f), s) == Success(s[..RunLength(s, f)], s[RunLength(s, f)..])
    decreases |s|
  {
    var q := Satisfy(Read(), f);
    var n := RunLength(s, f);
    if s == [] || !f(s[0]) {
      assert q(s).Failure? && n == 0;
      ManyLoopStop(q, s);
      assert s[..0] == [] && s[0..] == s;
    } else {
      var tail := s[1..];
      assert q(s) == Success(s[0], tail);
      assert RunLength(tail, f) == n - 1;
      ManyCharsIsRun(f, tail);
      ManyLoopStep(q, s, s[0], tail);
      SplitAfterHead(s, n);
    }
  }

  /** Splitting the tail at n - 1 is splitting the whole at n, the head put back in front. */
  lemma SplitAfterHead<T>(s: seq<T>, n: nat)
    requires 0 < n <= |s|
    ensures [s[0]] + s[1..][..n - 1] == s[..n] && s[1..][n - 1..] == s[n..]
  {
  }

  /** `whitespace` never fails and skips exactly the maximal run of whitespace. */
  lemma WhitespaceSkipsRun(s: seq<char>)
    ensures Whitespace()(s) == Success((), s[RunLength(s, IsWhitespace)..])
  {
    ManyCharsIsRun(IsWhitespace, s);
  }

  /** A single newline is all whitespace. */
  lemma NewlineIsWhitespace()
    ensures Whitespace()("\n") == Success((), [])
  {
    WhitespaceSkipsRun("\n");
    assert RunLength("\n", IsWhitespace) == 1;
  }

  /** `digit` consumes one character when it is in '0'..'9' and fails otherwise. */
  lemma DigitSpec(s: seq<char>)
    ensures Digit()(s).Success? <==> |s| > 0 && IsDigit(s[0])
    ensures Digit()(s).Success? ==> Digit()(s) == Success(s[0], s[1..])
  {
  }

  /** `many1` over a one-character test fails on an empty run and otherwise collects the maximal run. */
  lemma Many1CharsIsRun(f: char -> bool, s: seq<char>)
    ensures Many1(Satisfy(Read(), f))(s).Failure? <==> RunLength(s, f) == 0
    ensures RunLength(s, f) > 0 ==>
      Many1(Satisfy(Read(), f))(s) == Success(s[..RunLength(s, f)], s[RunLength(s, f)..])
  {
    var q := Satisfy(Read(), f);
    var n := RunLength(s, f);
    if s == [] || !f(s[0]) {
      assert q(s).Failure?;
      assert Many1(q)(s) == ThenLoop(q(s), q);
    } else {
      var rest := s[1..];
      assert q(s) == Success(s[0], rest);
      assert RunLength(rest, f) == n - 1;
      ManyCharsIsRun(f, rest);
      assert Many1(q)(s) == Prepend(s[0], ManyLoop(q, rest));
      SplitAfterHead(s, n);
    }
  }

  /**
   * `nat` fails exactly when the input does not start with a digit;
   * otherwise it consumes the maximal run of digits and yields its decimal
   * value.
   */
  lemma NatSpec(s: seq<char>)
    ensures Nat()(s).Failure? <==> RunLength(s, IsDigit) == 0
    ensures RunLength(s, IsDigit) > 0 ==>
      Nat()(s) == Success(DecimalValue(s[..RunLength(s, IsDigit)]), s[RunLength(s, IsDigit)..])
  {
    Many1CharsIsRun(IsDigit, s);
    assert Nat()(s) == Map(Many1(Satisfy(Read(), IsDigit)), DecimalValue)(s);
  }

  /** The decimal renderings of a list of numbers. */
  function DecimalTexts(ns: seq<nat>): (ts: seq<string>)
    ensures |ts| == |ns| && forall k :: 0 <= k < |ns| ==> ts[k] == Decimal(ns[k])
  {
    seq(|ns|, k requires 0 <= k < |ns| => Decimal(ns[k]))
  }

  /** Rendering a number in decimal and reading it back with `nat` gives the number and leaves what follows. */
  lemma NatRoundTrip(k: nat, t: seq<char>)
    requires t == [] || !IsDigit(t[0])
    ensures Nat()(Decimal(k) + t) == Success(k, t)
  {
    var ds := Decimal(k);
    RunLengthOfPrefix(ds, t, IsDigit);
    NatSpec(ds + t);
    assert (ds + t)[..|ds|] == ds;
    assert (ds + t)[|ds|..] == t;
  }

  /** `parse_all` yields a value exactly on a success that consumed everything. */
  lemma ParseAllSpec<O>(p: Parser<char, O>, input: seq<char>, v: O)
    ensures ParseAll(p, input) == Some(v) <==> p(input) == Success(v, [])
  {
  }

  // ----- Reading back written lists -----

  /** Each text preceded by the separator character. */
  function SepPrefixed(texts: seq<string>, sep: char): (s: string)
    ensures texts != [] ==> |s| > 0 && s[0] == sep
  {
    if texts == [] then [] else [sep] + texts[0] + SepPrefixed(texts[1..], sep)
  }

  /** Concatenation regrouped to the right, as the parsers consume it. */
  lemma Regroup(a: string, b: string, c: string, d: string)
    ensures a + b + c + d == a + (b + (c + d))
  {
  }

  /** The texts joined by the separator character. */
  function Joined(texts: seq<string>, sep: char): string
    requires |texts| > 0
  {
    texts[0] + SepPrefixed(texts[1..], sep)
  }

  /**
   * Element `k` of a written list reads back as `vs[k]`, leaving the rest of
   * the list and then `t`.
   */
  ghost predicate ReadsBack<O>(p: Parser<char, O>, sep: char, texts: seq<string>, vs: seq<O>, t: string) {
    |texts| == |vs|
    && forall k :: 0 <= k < |texts| ==>
      p(texts[k] + (SepPrefixed(texts[k + 1..], sep) + t)) == Success(vs[k], SepPrefixed(texts[k + 1..], sep) + t)
  }

  lemma ReadsBackTail<O>(p: Parser<char, O>, sep: char, texts: seq<string>, vs: seq<O>, t: string)
    requires |texts| > 0 && ReadsBack(p, sep, texts, vs, t)
    ensures ReadsBack(p, sep, texts[1..], vs[1..], t)
  {
    forall k | 0 <= k < |texts| - 1
      ensures p(texts[1..][k] + (SepPrefixed(texts[1..][k + 1..], sep) + t))
        == Success(vs[1..][k], SepPrefixed(texts[1..][k + 1..], sep) + t)
    {
      assert texts[1..][k + 1..] == texts[k + 2..];
    }
  }

  lemma ReadsBackHead<O>(p: Parser<char, O>, sep: char, texts: seq<string>, vs: seq<O>, t: string)
    requires |texts| > 0 && ReadsBack(p, sep, texts, vs, t)
    ensures p(texts[0] + (SepPrefixed(texts[1..], sep) + t)) == Success(vs[0], SepPrefixed(texts[1..], sep) + t)
  {
    assert texts[1..] == texts[0 + 1..];
  }

  /**
   * Before element `k` of a written list, the separator parser `sp` reads
   * exactly the one separator character.
   */
  ghost predicate SkipsSeparator<S>(sp: Parser<char, S>, sep: char, texts: seq<string>, t: string) {
    forall k :: 0 <= k < |texts| ==>
      sp([sep] + (texts[k] + (SepPrefixed(texts[k + 1..], sep) + t))).Success? &&
      sp([sep] + (texts[k] + (SepPrefixed(texts[k + 1..], sep) + t))).rest
        == texts[k] + (SepPrefixed(texts[k + 1..], sep) + t)
  }

  lemma SkipsSeparatorTail<S>(sp: Parser<char, S>, sep: char, texts: seq<string>, t: string)
    requires |texts| > 0 && SkipsSeparator(sp, sep, texts, t)
    ensures SkipsSeparator(sp, sep, texts[1..], t)
  {
    forall k | 0 <= k < |texts| - 1
      ensures sp([sep] + (texts[1..][k] + (SepPrefixed(texts[1..][k + 1..], sep) + t))).rest
        == texts[1..][k] + (SepPrefixed(texts[1..][k + 1..], sep) + t)
    {
      assert texts[1..][k + 1..] == texts[k + 2..];
    }
  }

  /** `chr(sep)` reads exactly one separator character wherever it stands. */
  lemma ChrSkipsSeparator(sep: char, texts: seq<string>, t: string)
    ensures SkipsSeparator(Chr(sep), sep, texts, t)
  {
    forall k | 0 <= k < |texts|
      ensures Chr(sep)([sep] + (texts[k] + (SepPrefixed(texts[k + 1..], sep) + t)))
        == Success(sep, texts[k] + (SepPrefixed(texts[k + 1..], sep) + t))
    {
      var x := texts[k] + (SepPrefixed(texts[k + 1..], sep) + t);
      ChrSpec(sep, [sep] + x);
      assert ([sep] + x)[1..] == x;
    }
  }

  /**
   * The separator loop of `sep_by1` reads back a list written with a
   * separator before each element, and stops at `t`, for any separator
   * parser that reads exactly the separator character there.
   */
  lemma {:induction false} SepLoopRoundTripBy<O, S>(p: Parser<char, O>, sp: Parser<char, S>, sep: char,
                                                      texts: seq<string>, vs: seq<O>, t: string)
    requires ReadsBack(p, sep, texts, vs, t) && SkipsSeparator(sp, sep, texts, t)
    requires Seqr(sp, p)(t).Failure?
    ensures ManyLoop(Seqr(sp, p), SepPrefixed(texts, sep) + t) == Success(vs, t)
  {
    var step := Seqr(sp, p);
    if texts == [] {
      assert vs == [] && SepPrefixed(texts, sep) + t == t;
      ManyLoopStop(step, t);
    } else {
      assert [vs[0]] + vs[1..] == vs;
      var rest := SepPrefixed(texts[1..], sep) + t;
      var body := texts[0] + rest;
      var s := SepPrefixed(texts, sep) + t;
      Regroup([sep], texts[0], SepPrefixed(texts[1..], sep), t);
      assert texts[1..] == texts[0 + 1..];
      assert sp(s).Success? && sp(s).rest == body;
      ReadsBackHead(p, sep, texts, vs, t);
      SequenceSuccess(sp, p, s, sp(s).out, body, vs[0], rest);
      assert |rest| < |s|;
      ManyLoopStep(step, s, vs[0], rest);
      ReadsBackTail(p, sep, texts, vs, t);
      SkipsSeparatorTail(sp, sep, texts, t);
      SepLoopRoundTripBy(p, sp, sep, texts[1..], vs[1..], t);
    }
  }

  /** `sep_by1` reads back a nonempty list written with separators, and stops at `t`. */
  lemma SepBy1RoundTripBy<O, S>(p: Parser<char, O>, sp: Parser<char, S>, sep: char,
                                texts: seq<string>, vs: seq<O>, t: string)
    requires |texts| > 0 && ReadsBack(p, sep, texts, vs, t) && SkipsSeparator(sp, sep, texts[1..], t)
    requires Seqr(sp, p)(t).Failure?
    ensures SepBy1(p, sp)(Joined(texts, sep) + t) == Success(vs, t)
    ensures SepEndBy1(p, sp)(Joined(texts, sep) + t) == TrailingSep(sp, Success(vs, t))
  {
    assert [vs[0]] + vs[1..] == vs;
    var rest := SepPrefixed(texts[1..], sep) + t;
    var s := Joined(texts, sep) + t;
    assert s == texts[0] + rest;
    ReadsBackHead(p, sep, texts, vs, t);
    ReadsBackTail(p, sep, texts, vs, t);
    SepLoopRoundTripBy(p, sp, sep, texts[1..], vs[1..], t);
    SepBy1Success(p, sp, s, vs[0], rest, vs[1..], t);
  }

  /** With `chr(sep)` as the separator parser. */
  lemma SepBy1RoundTrip<O>(p: Parser<char, O>, sep: char, texts: seq<string>, vs: seq<O>, t: string)
    requires |texts| > 0 && ReadsBack(p, sep, texts, vs, t)
    requires Seqr(Chr(sep), p)(t).Failure?
    ensures SepBy1(p, Chr(sep))(Joined(texts, sep) + t) == Success(vs, t)
    ensures SepEndBy1(p, Chr(sep))(Joined(texts, sep) + t) == TrailingSep(Chr(sep), Success(vs, t))
  {
    ChrSkipsSeparator(sep, texts[1..], t);
    SepBy1RoundTripBy(p, Chr(sep), sep, texts, vs, t);
  }

  /** `g` applied to every character. */
  function MapChars<O>(s: seq<char>, g: char -> O): (r: seq<O>)
    ensures |r| == |s| && forall k :: 0 <= k < |s| ==> r[k] == g(s[k])
  {
    seq(|s|, k requires 0 <= k < |s| => g(s[k]))
  }

  /** `many` over a mapped one-character test reads a run of accepted characters, mapped one by one. */
  lemma {:induction false} ManyMappedCharsIsRun<O>(f: char -> bool, g: char -> O, s: seq<char>, t: seq<char>)
    requires forall k :: 0 <= k < |s| ==> f(s[k])
    requires t == [] || !f(t[0])
    ensures ManyLoop(Map(Satisfy(Read(), f), g), s + t) == Success(MapChars(s, g), t)
  {
    var q := Map(Satisfy(Read(), f), g);
    if s == [] {
      assert s + t == t;
      ManyLoopStop(q, t);
    } else {
      assert (s + t)[1..] == s[1..] + t;
      assert q(s + t) == Success(g(s[0]), s[1..] + t);
      ManyLoopStep(q, s + t, g(s[0]), s[1..] + t);
      ManyMappedCharsIsRun(f, g, s[1..], t);
      assert [g(s[0])] + MapChars(s[1..], g) == MapChars(s, g);
    }
  }

  // ----- Worked examples of the separator family -----

  /** On "a,a," `sep_by1` stops before the trailing separator and leaves ",". */
  lemma SepBy1LeavesTrailingSeparator()
    ensures SepBy1(Chr('a'), Chr(','))("a,a,") == Success(['a', 'a'], ",")
  {
    var step := Seqr(Chr(','), Chr('a'));
    ChrSpec('a', "a,a,");
    assert "a,a,"[1..] == ",a,";
    ChrSpec(',', ",a,");
    assert ",a,"[1..] == "a,";
    ChrSpec('a', "a,");
    assert "a,"[1..] == ",";
    ChrSpec(',', ",");
    ChrSpec('a', []);
    assert step(",") == Failure(ParseError(ErrRead, []));
    assert ManyLoop(step, ",") == Success([], ",");
    assert step(",a,") == Success('a', ",");
    var none: seq<char> := [];
    assert ManyLoop(step, ",") == Success(none, ",");
    assert ManyLoop(step, ",a,") == Success(['a'] + none, ",");
    assert ['a'] + (['a'] + none) == ['a', 'a'];
  }

  /** On "a,a," `end_by1` consumes the trailing separator. */
  lemma EndBy1ConsumesTrailingSeparator()
    ensures EndBy1(Chr('a'), Chr(','))("a,a,") == Success(['a', 'a'], [])
  {
    var step := Seql(Chr('a'), Chr(','));
    ChrSpec('a', "a,a,");
    assert "a,a,"[1..] == ",a,";
    ChrSpec(',', ",a,");
    assert ",a,"[1..] == "a,";
    ChrSpec('a', "a,");
    assert "a,"[1..] == ",";
    ChrSpec(',', ",");
    ChrSpec('a', []);
    assert step("a,a,") == Success('a', "a,");
    var none: seq<char> := [];
    assert step("a,") == Success('a', none);
    assert ManyLoop(step, none) == Success(none, none);
    assert ManyLoop(step, "a,") == Success(['a'] + none, none);
    assert ['a'] + (['a'] + none) == ['a', 'a'];
  }

  /** On "a,a" `end_by1` drops the last element, which has no separator after it. */
  lemma EndBy1DropsUnterminated()
    ensures EndBy1(Chr('a'), Chr(','))("a,a") == Success(['a'], "a")
  {
    var step := Seql(Chr('a'), Chr(','));
    ChrSpec('a', "a,a");
    assert "a,a"[1..] == ",a";
    ChrSpec(',', ",a");
    assert ",a"[1..] == "a";
    ChrSpec('a', "a");
    assert "a"[1..] == [];
    ChrSpec(',', []);
    assert step("a,a") == Success('a', "a");
    var none: seq<char> := [];
    assert step("a") == Failure(ParseError(ErrRead, none));
    assert ManyLoop(step, "a") == Success(none, "a");
    assert ['a'] + none == ['a'];
  }

  /**
   * The final separator attempt of `sep_end_by` takes the view of the
   * separator's error: on "a;" with separator ',' the rejected ';' is
   * consumed and the rest is empty, not ";".
   */
  lemma SepEndByTakesErrorView()
    ensures SepEndBy(Chr('a'), Chr(','))("a;") == Success(['a'], [])
  {
    var step := Seqr(Chr(','), Chr('a'));
    ChrSpec('a', "a;");
    assert "a;"[1..] == ";";
    ChrSpec(',', ";");
    assert ";"[1..] == [];
    var none: seq<char> := [];
    assert step(";") == Failure(ParseError(ErrSatisfy, none));
    assert ManyLoop(step, ";") == Success(none, ";");
    assert ThenLoop(Chr('a')("a;"), step) == Success(['a'] + none, ";");
    assert ['a'] + none == ['a'];
  }
}
