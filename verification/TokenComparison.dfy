/** Token comparison: exact, case-insensitive and with floating-point tolerance. */
module TokenComparison {
  import opened Options
  import opened Utf8
  import opened Streams
  import opened Texts
  import opened CharStreams
  import opened Floats
  import opened Exact

  datatype TokenMode = Exactly | CaseInsensitive | Float(absTol: F64, relTol: F64)

  /** Library functions that the comparison only calls: `str::to_lowercase` and
      `str::parse::<f64>`. */
  datatype Library = Library(toLowercase: Text -> Text, parseF64: Text -> Option<F64>)

  predicate TokensMatch(lib: Library, expected: Text, actual: Text, mode: TokenMode) {
    match mode
    case Exactly => expected == actual
    case CaseInsensitive => lib.toLowercase(expected) == lib.toLowercase(actual)
    case Float(absTol, relTol) =>
      match (lib.parseF64(expected), lib.parseF64(actual))
      case (Some(e), Some(a)) =>
        if !e.IsFinite() || !a.IsFinite() then
          (e.NaN? && a.NaN?) || e.IeeeEq(a)
        else
          var diff := Finite(e.value - a.value).Abs();
          var tolerance := absTol.Max(relTol.Mul(e.Abs().Max(a.Abs())));
          diff.Le(tolerance)
      case _ => expected == actual
  }

  function Distance(x: real, y: real): real { if x < y then y - x else x - y }

  /** Two numbers match within the absolute tolerance, or within the relative tolerance
      of either one, whatever the tolerances are: negative, infinite or not-a-number. */
  lemma FloatMatchMeans(lib: Library, e: Text, a: Text, x: real, y: real, absTol: F64, relTol: F64)
    requires lib.parseF64(e) == Some(Finite(x)) && lib.parseF64(a) == Some(Finite(y))
    ensures var distance := Finite(Distance(x, y));
            TokensMatch(lib, e, a, Float(absTol, relTol)) <==>
              || distance.Le(absTol)
              || distance.Le(relTol.Mul(Finite(Distance(x, 0.0))))
              || distance.Le(relTol.Mul(Finite(Distance(y, 0.0))))
  {
    hide TokensMatch, Distance, F64.Le, F64.Max, F64.Mul;
    var ax, ay := Distance(x, 0.0), Distance(y, 0.0);
    var larger := if ax <= ay then ay else ax;
    ToleranceUnfolds(lib, e, a, x, y, absTol, relTol, larger);
    WithinLarger(Finite(Distance(x, y)), absTol, relTol.Mul(Finite(larger)));
    WithinEither(relTol, x, y, larger);
  }

  lemma ToleranceUnfolds(lib: Library, e: Text, a: Text, x: real, y: real, absTol: F64, relTol: F64, larger: real)
    requires lib.parseF64(e) == Some(Finite(x)) && lib.parseF64(a) == Some(Finite(y))
    requires larger == if Distance(x, 0.0) <= Distance(y, 0.0) then Distance(y, 0.0) else Distance(x, 0.0)
    ensures TokensMatch(lib, e, a, Float(absTol, relTol))
       <==> Finite(Distance(x, y)).Le(absTol.Max(relTol.Mul(Finite(larger))))
  {
    hide F64.Mul;
    assert Finite(x - y).Abs() == Finite(Distance(x, y));
    assert Finite(x).Abs().Max(Finite(y).Abs()) == Finite(larger);
  }

  lemma WithinLarger(d: F64, a: F64, b: F64)
    ensures d.Le(a.Max(b)) <==> d.Le(a) || d.Le(b)
  {
  }

  function Scaled(k: real, a: real): real { k * a }

  lemma Products(k: real, a: real, b: real)
    requires a >= 0.0 && b >= 0.0
    ensures k >= 0.0 && a <= b ==> Scaled(k, a) <= Scaled(k, b)
    ensures k >= 0.0 && b <= a ==> Scaled(k, b) <= Scaled(k, a)
    ensures k < 0.0 ==> (a == 0.0 || Scaled(k, a) < 0.0) && (b == 0.0 || Scaled(k, b) < 0.0)
    ensures (a == 0.0 ==> Scaled(k, a) == 0.0) && (b == 0.0 ==> Scaled(k, b) == 0.0)
  {
  }

  /** The larger of two numbers is the only one whose relative tolerance matters. */
  lemma WithinEither(relTol: F64, x: real, y: real, larger: real)
    requires larger == if Distance(x, 0.0) <= Distance(y, 0.0) then Distance(y, 0.0) else Distance(x, 0.0)
    ensures Finite(Distance(x, y)).Le(relTol.Mul(Finite(larger)))
       <==> || Finite(Distance(x, y)).Le(relTol.Mul(Finite(Distance(x, 0.0))))
            || Finite(Distance(x, y)).Le(relTol.Mul(Finite(Distance(y, 0.0))))
  {
    if relTol.Finite? {
      var k, ax, ay := relTol.value, Distance(x, 0.0), Distance(y, 0.0);
      var kx, ky := Scaled(k, ax), Scaled(k, ay);
      Products(k, ax, ay);
      assert relTol.Mul(Finite(ax)) == Finite(kx) && relTol.Mul(Finite(ay)) == Finite(ky);
      hide Scaled, F64.Mul;
      assert Distance(x, y) == 0.0 <==> x == y;
    }
  }

  /** For ordinary tolerances that is the usual arithmetic. */
  lemma FloatMatchInReals(lib: Library, e: Text, a: Text, x: real, y: real, absTol: real, relTol: real)
    requires lib.parseF64(e) == Some(Finite(x)) && lib.parseF64(a) == Some(Finite(y))
    ensures TokensMatch(lib, e, a, Float(Finite(absTol), Finite(relTol))) <==>
              || Distance(x, y) <= absTol
              || Distance(x, y) <= Scaled(relTol, Distance(x, 0.0))
              || Distance(x, y) <= Scaled(relTol, Distance(y, 0.0))
  {
    FloatMatchMeans(lib, e, a, x, y, Finite(absTol), Finite(relTol));
    hide TokensMatch, Distance, Scaled;
    MulScales(relTol, Distance(x, 0.0));
    MulScales(relTol, Distance(y, 0.0));
  }

  lemma MulScales(k: real, a: real)
    ensures Finite(k).Mul(Finite(a)) == Finite(Scaled(k, a))
  {
  }

  /** Which token is the expected one makes no difference in any mode. */
  lemma MatchingIsSymmetric(lib: Library, e: Text, a: Text, mode: TokenMode)
    ensures TokensMatch(lib, e, a, mode) <==> TokensMatch(lib, a, e, mode)
  {
    match (lib.parseF64(e), lib.parseF64(a))
    case (Some(x), Some(y)) =>
      if x.Finite? && y.Finite? {
        assert Finite(x.value - y.value).Abs() == Finite(y.value - x.value).Abs();
        assert x.Abs().Max(y.Abs()) == y.Abs().Max(x.Abs());
      }
    case _ =>
  }

  /** Each answer token matches the output token at its place; a `whole` answer has as
      many tokens as the output, one that broke off may have fewer. */
  ghost predicate Agree(lib: Library, mode: TokenMode, outs: seq<Text>, anss: seq<Text>, whole: bool) {
    && |anss| <= |outs| && (whole ==> |anss| == |outs|)
    && forall i :: 0 <= i < |anss| ==> TokensMatch(lib, anss[i], outs[i], mode)
  }

  lemma AgreeStep(lib: Library, mode: TokenMode, outs: seq<Text>, anss: seq<Text>, whole: bool)
    ensures outs != [] && anss != [] ==>
              (Agree(lib, mode, outs, anss, whole)
               <==> TokensMatch(lib, anss[0], outs[0], mode) && Agree(lib, mode, outs[1..], anss[1..], whole))
    ensures outs == [] || anss == [] ==>
              (Agree(lib, mode, outs, anss, whole) <==> anss == [] && (whole ==> outs == []))
  {
    hide TokensMatch;
    if outs != [] && anss != [] && TokensMatch(lib, anss[0], outs[0], mode) && Agree(lib, mode, outs[1..], anss[1..], whole) {
      forall i | 0 <= i < |anss| ensures TokensMatch(lib, anss[i], outs[i], mode) {
        assert i > 0 ==> outs[i] == outs[1..][i - 1] && anss[i] == anss[1..][i - 1];
      }
    }
  }

  // ------------------------------------------------------ what a mode accepts

  /** The tokens as a case-insensitive comparison sees them. */
  function Lowered(lib: Library, tokens: seq<Text>): (r: seq<Text>)
    ensures |r| == |tokens|
  {
    seq(|tokens|, i requires 0 <= i < |tokens| => lib.toLowercase(tokens[i]))
  }

  /** Finite numbers lie within the absolute tolerance or the relative one of either, and
      others are the same: both not-a-number, or the same infinity. */
  predicate Close(x: F64, y: F64, absTol: F64, relTol: F64) {
    if x.Finite? && y.Finite? then
      var distance := Finite(Distance(x.value, y.value));
      || distance.Le(absTol)
      || distance.Le(relTol.Mul(Finite(Distance(x.value, 0.0))))
      || distance.Le(relTol.Mul(Finite(Distance(y.value, 0.0))))
    else x == y
  }

  /** Two numbers are close; if either is none they are the same token. */
  predicate SameOrClose(lib: Library, x: Text, y: Text, absTol: F64, relTol: F64) {
    match (lib.parseF64(x), lib.parseF64(y))
    case (Some(a), Some(b)) => Close(a, b, absTol, relTol)
    case _ => x == y
  }

  /** What each mode asks of two lists of tokens: that they be equal, equal in lower case,
      or equal up to numbers that are close. */
  ghost predicate SameTokens(lib: Library, mode: TokenMode, outs: seq<Text>, anss: seq<Text>) {
    match mode
    case Exactly => outs == anss
    case CaseInsensitive => Lowered(lib, outs) == Lowered(lib, anss)
    case Float(absTol, relTol) =>
      |outs| == |anss| && forall i :: 0 <= i < |anss| ==> SameOrClose(lib, outs[i], anss[i], absTol, relTol)
  }

  /** If of any two tokens at one place at most one is a number, float mode is exact. */
  lemma FloatOnWords(lib: Library, outs: seq<Text>, anss: seq<Text>, absTol: F64, relTol: F64)
    requires forall i :: 0 <= i < |outs| && i < |anss| ==> lib.parseF64(outs[i]).None? || lib.parseF64(anss[i]).None?
    ensures Agree(lib, Float(absTol, relTol), outs, anss, true) <==> outs == anss
  {
  }

  /** Where one of two numbers is not finite, both are not-a-number or the same infinity. */
  lemma FloatNotFinite(lib: Library, e: Text, a: Text, absTol: F64, relTol: F64)
    requires lib.parseF64(e).Some? && lib.parseF64(a).Some?
    requires !lib.parseF64(e).value.Finite? || !lib.parseF64(a).value.Finite?
    ensures TokensMatch(lib, e, a, Float(absTol, relTol)) <==>
              || (lib.parseF64(e).value.NaN? && lib.parseF64(a).value.NaN?)
              || (lib.parseF64(e).value.Infinity? && lib.parseF64(e) == lib.parseF64(a))
  {
  }

  lemma FloatTokensMatch(lib: Library, e: Text, a: Text, absTol: F64, relTol: F64)
    ensures TokensMatch(lib, e, a, Float(absTol, relTol)) <==> SameOrClose(lib, a, e, absTol, relTol)
  {
    if lib.parseF64(e).Some? && lib.parseF64(a).Some? {
      var x, y := lib.parseF64(e).value, lib.parseF64(a).value;
      if x.Finite? && y.Finite? {
        FloatMatchMeans(lib, e, a, x.value, y.value, absTol, relTol);
        assert Distance(x.value, y.value) == Distance(y.value, x.value);
      } else {
        FloatNotFinite(lib, e, a, absTol, relTol);
      }
    }
  }

  /** Comparing token by token decides that for as many tokens as the answer has. */
  lemma AgreeMeans(lib: Library, mode: TokenMode, outs: seq<Text>, anss: seq<Text>, whole: bool)
    ensures Agree(lib, mode, outs, anss, whole)
       <==> |anss| <= |outs| && (whole ==> |anss| == |outs|) && SameTokens(lib, mode, outs[..|anss|], anss)
  {
    hide TokensMatch, SameOrClose;
    if |anss| <= |outs| {
      var some := outs[..|anss|];
      match mode
      case Exactly =>
        forall i | 0 <= i < |anss| ensures TokensMatch(lib, anss[i], outs[i], mode) <==> anss[i] == some[i] {
          EqualTokensMatch(lib, anss[i], outs[i]);
        }
      case CaseInsensitive =>
        forall i | 0 <= i < |anss|
          ensures TokensMatch(lib, anss[i], outs[i], mode) <==> Lowered(lib, anss)[i] == Lowered(lib, some)[i]
        {
          LoweredTokensMatch(lib, anss[i], outs[i]);
        }
      case Float(absTol, relTol) =>
        forall i | 0 <= i < |anss|
          ensures TokensMatch(lib, anss[i], outs[i], mode) <==> SameOrClose(lib, some[i], anss[i], absTol, relTol)
        {
          FloatTokensMatch(lib, anss[i], outs[i], absTol, relTol);
        }
    }
  }

  lemma EqualTokensMatch(lib: Library, e: Text, a: Text)
    ensures TokensMatch(lib, e, a, Exactly) <==> e == a
  {
  }

  lemma LoweredTokensMatch(lib: Library, e: Text, a: Text)
    ensures TokensMatch(lib, e, a, CaseInsensitive) <==> lib.toLowercase(e) == lib.toLowercase(a)
  {
  }

  function TokensOf(o: Outlook): seq<Text> { EmittedTokens(o.chars, o.end.Clean?) }

  class TokenStream {
    const chars: CharStream
    var partial: Text

    ghost predicate Valid()
      reads this, chars, chars.reader
    {
      chars.Valid() && forall i :: 0 <= i < |partial| ==> !IsWhitespace(partial[i])
    }

    /** The tokens still to come; a stream that breaks fails after these. */
    ghost function Ahead(): seq<Text>
      requires chars.reader.Valid()
      reads this, chars, chars.reader
    {
      EmittedTokens(partial + chars.Ahead().chars, chars.Ahead().end.Clean?)
    }

    /** How the stream ends. */
    ghost function Ending(): End
      requires chars.reader.Valid()
      reads chars, chars.reader
    {
      chars.Ahead().end
    }

    constructor (reader: TeeReader)
      requires reader.Valid()
      ensures Valid() && chars.reader == reader && fresh(chars)
      ensures Ending() == OutlookOf(reader.inner).end
      ensures Ahead() == TokensOf(OutlookOf(reader.inner))
    {
      hide TeeReader.Previews, OutlookOf, CharStream.Ahead, CharStream.Valid, EmittedTokens, IsWhitespace;
      chars := new CharStream(reader);
      partial := [];
      new;
      assert partial + chars.Ahead().chars == chars.Ahead().chars;
    }

    /** Yields the tokens of the text one by one. A stream that is not UTF-8 yields those
        that are finished before it shows no more, and then fails. */
    method NextToken() returns (r: Result<Option<Text>>)
      requires Valid()
      modifies this, chars, chars.reader
      ensures chars.reader.Advances() && (old(chars.reader.Healthy()) ==> r != Err(Other))
      ensures r.Ok? ==> Valid() && Ending() == old(Ending())
      ensures r.Ok? && r.value.Some? ==> old(Ahead()) == [r.value.value] + Ahead()
      ensures r == Ok(None) ==> old(Ahead()) == [] == Ahead() && Ending().Clean?
      ensures r.Err? ==> r.kind in {InvalidData, Other}
      ensures r == Err(InvalidData) ==> old(Ahead()) == [] && !old(Ending()).Clean?
    {
      hide TeeReader.Previews, TeeReader.Remaining, OutlookOf, CharStream.Ahead, Decode, EmittedTokens, IsWhitespace;
      while true
        invariant Valid() && chars.reader.Advances()
        invariant Ending() == old(Ending()) && Ahead() == old(Ahead())
        decreases |chars.Ahead().chars|
      {
        ghost var clean := Ending().Clean?;
        BrokenAtEnd(partial);
        var ch :- chars.NextChar();
        if ch.None? {
          break;
        }
        var c := ch.value;
        PartialAndNext(partial, c, chars.Ahead().chars, clean);
        if IsWhitespace(c) {
          if partial != [] {
            r := Ok(Some(partial));
            partial := [];
            return;
          }
        } else {
          partial := partial + [c];
        }
      }
      PartialAtEnd(partial);
      if partial == [] {
        r := Ok(None);
      } else {
        r := Ok(Some(partial));
        partial := [];
      }
    }
  }

  lemma PartialAndNext(partial: Text, c: Scalar, rest: Text, clean: bool)
    requires forall i :: 0 <= i < |partial| ==> !IsWhitespace(partial[i])
    ensures partial + ([c] + rest) == (partial + [c]) + rest
    ensures IsWhitespace(c) && partial == [] ==>
              EmittedTokens(partial + ([c] + rest), clean) == EmittedTokens(partial + rest, clean)
    ensures IsWhitespace(c) && partial != [] ==>
              EmittedTokens(partial + ([c] + rest), clean) == [partial] + EmittedTokens([] + rest, clean)
  {
    assert [] + rest == rest && [] + ([c] + rest) == [c] + rest;
    if IsWhitespace(c) {
      if partial == [] {
        SpaceAndRest(c, rest, clean);
      } else {
        WordAndRest(partial, c, rest, clean);
      }
    }
  }

  lemma SpaceAndRest(c: Scalar, rest: Text, clean: bool)
    requires IsWhitespace(c)
    ensures EmittedTokens([c] + rest, clean) == EmittedTokens(rest, clean)
  {
    var t := [c] + rest;
    assert t[1..] == rest && t[|t| - 1] == if rest == [] then c else rest[|rest| - 1];
  }

  lemma WordAndRest(word: Text, c: Scalar, rest: Text, clean: bool)
    requires IsWord(word) && IsWhitespace(c)
    ensures EmittedTokens(word + ([c] + rest), clean) == [word] + EmittedTokens(rest, clean)
  {
    hide IsWhitespace, Tokens;
    var t := word + ([c] + rest);
    assert Tokens(t) == [word] + Tokens(rest) by {
      WordFirst(word, [c] + rest);
      SpaceAndRest(c, rest, true);
    }
    assert t[|t| - 1] == if rest == [] then c else rest[|rest| - 1];
    if rest != [] && !IsWhitespace(rest[|rest| - 1]) {
      WordsMakeTokens(rest);
      AllButLast(word, Tokens(rest));
    }
  }

  lemma PartialAtEnd(partial: Text)
    requires forall i :: 0 <= i < |partial| ==> !IsWhitespace(partial[i])
    ensures EmittedTokens(partial + [], true) == if partial == [] then [] else [partial] + EmittedTokens([] + [], true)
  {
    if partial != [] {
      WordFirst(partial, []);
    }
  }

  lemma BrokenAtEnd(partial: Text)
    requires forall i :: 0 <= i < |partial| ==> !IsWhitespace(partial[i])
    ensures EmittedTokens(partial + [], false) == []
  {
    assert partial + [] == partial;
    if partial != [] {
      WordFirst(partial, []);
    }
  }

  /** The result of comparing two streams that show `o` and `a`. A UTF-8 answer is a matter
      of accepting or not. Any other is reported if the comparison gets to its break:
      if the tokens before it match and the output does not break there too or before. */
  ghost function TokensResult(lib: Library, mode: TokenMode, o: Outlook, a: Outlook): Result<Verdict> {
    var outs, anss := TokensOf(o), TokensOf(a);
    if a.end.Clean? then Ok(if o.end.Clean? && Agree(lib, mode, outs, anss, true) then Accepted else WrongAnswer)
    else if Agree(lib, mode, outs, anss, false) && (o.end.Clean? || |outs| > |anss|) then Err(InvalidData)
    else Ok(WrongAnswer)
  }

  /** Unless a read fails, the result is that of looking at all that the streams show. */
  method CompareTokens(lib: Library, output: TeeReader, answer: TeeReader, mode: TokenMode)
    returns (r: Result<Verdict>)
    requires output.Valid() && answer.Valid() && output != answer
    modifies output, answer
    ensures output.Advances() && answer.Advances()
    ensures r != Err(Other) ==> r == TokensResult(lib, mode, OutlookOf(old(output.inner)), OutlookOf(old(answer.inner)))
    ensures old(output.Healthy() && answer.Healthy()) ==> r != Err(Other)
  {
    hide TeeReader.Previews, TeeReader.Remaining, OutlookOf, TokensOf, Agree, TokensMatch,
         TeeReader.Healthy, TeeReader.Showing,
         CharStream.Ahead, CharStream.Valid, TokenStream.Ahead, TokenStream.Ending;
    ghost var o, a := OutlookOf(output.inner), OutlookOf(answer.inner);
    ghost var outs, anss := TokensOf(o), TokensOf(a);
    ghost var agree := Agree(lib, mode, outs, anss, a.end.Clean?);
    var out := new TokenStream(output);
    var ans := new TokenStream(answer);
    while true
      invariant output.Advances() && answer.Advances()
      invariant out.Valid() && ans.Valid() && out.Ending() == o.end && ans.Ending() == a.end
      invariant agree <==> Agree(lib, mode, out.Ahead(), ans.Ahead(), a.end.Clean?)
      invariant |out.Ahead()| + |anss| == |ans.Ahead()| + |outs|
      decreases |out.Ahead()|
    {
      AgreeStep(lib, mode, out.Ahead(), ans.Ahead(), a.end.Clean?);
      var next := out.NextToken();
      if next == Err(InvalidData) {
        return Ok(WrongAnswer);
      }
      var x :- next;
      var y :- ans.NextToken();
      match (x, y) {
        case (Some(xt), Some(yt)) =>
          if !TokensMatch(lib, yt, xt, mode) {
            return Ok(WrongAnswer);
          }
        case (None, None) =>
          return Ok(Accepted);
        case _ =>
          return Ok(WrongAnswer);
      }
    }
  }
}
