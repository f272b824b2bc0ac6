/** The comparator as a whole: mode dispatch, the run over standard input, and how
    the modes relate. */
module Comparator {
  import opened Options
  import opened Utf8
  import opened Streams
  import opened Texts
  import opened CharStreams
  import opened Floats
  import opened Exact
  import opened TokenComparison
  import opened LineComparison

  const DEFAULT_ABS_TOL := Finite(0.000_000_001)
  const DEFAULT_REL_TOL := Finite(0.000_001)

  datatype Args = Args(mode: string, epsilon: Option<F64>, relEpsilon: Option<F64>)

  function GetOr<T>(o: Option<T>, default: T): T { if o.Some? then o.value else default }

  const MODES := {"exact", "tokens", "tokens-case-insensitive", "tokens-float", "lines"}

  function ModeOf(args: Args): TokenMode {
    if args.mode == "tokens" then Exactly
    else if args.mode == "tokens-case-insensitive" then CaseInsensitive
    else Float(GetOr(args.epsilon, DEFAULT_ABS_TOL), GetOr(args.relEpsilon, DEFAULT_REL_TOL))
  }

  function Chars(v: seq<Byte>): Text { Decode(v).chars }

  /** What each mode accepts, read off the two complete byte sequences: equal bytes, equal
      lines but for whitespace at their ends, equal tokens, tokens equal in lower case, or
      tokens equal up to numbers within the tolerances. */
  ghost predicate Accepts(lib: Library, args: Args, output: seq<Byte>, answer: seq<Byte>) {
    if args.mode == "exact" then output == answer
    else IsUtf8(output) && IsUtf8(answer) && AcceptsTexts(lib, args, Chars(output), Chars(answer))
  }

  ghost predicate AcceptsTexts(lib: Library, args: Args, o: Text, a: Text) {
    match args.mode
    case "lines" => SameLines(o, a)
    case "tokens" => Tokens(o) == Tokens(a)
    case "tokens-case-insensitive" => Lowered(lib, Tokens(o)) == Lowered(lib, Tokens(a))
    case "tokens-float" =>
      var absTol := if args.epsilon.Some? then args.epsilon.value else DEFAULT_ABS_TOL;
      var relTol := if args.relEpsilon.Some? then args.relEpsilon.value else DEFAULT_REL_TOL;
      && |Tokens(o)| == |Tokens(a)|
      && forall i :: 0 <= i < |Tokens(a)| ==> SameOrClose(lib, Tokens(o)[i], Tokens(a)[i], absTol, relTol)
    case _ => false
  }

  /** What a result may say about two byte sequences: a verdict is the right one,
      `InvalidData` blames the answer, `InvalidInput` the mode, and anything else is a
      failed read. */
  ghost predicate Sound(lib: Library, args: Args, output: seq<Byte>, answer: seq<Byte>, r: Result<Verdict>) {
    && (r == Ok(Accepted) ==> Accepts(lib, args, output, answer))
    && (r == Ok(WrongAnswer) ==> !Accepts(lib, args, output, answer))
    && (r == Err(InvalidData) ==> args.mode != "exact" && !IsUtf8(answer))
    && (r == Err(InvalidInput) <==> args.mode !in MODES)
    && r != Err(Interrupted)
  }

  /** A stream of UTF-8 shows its whole text, and no other ends cleanly. */
  lemma WholeText(source: Source)
    requires source.Valid()
    ensures OutlookOf(source).end.Clean? <==> IsUtf8(source.Remaining())
    ensures IsUtf8(source.Remaining()) ==> OutlookOf(source).chars == Chars(source.Remaining())
  {
    hide Decode, IsUtf8, OutlookOf;
    OutlookMeans(source);
    CleanIffUtf8(source.Remaining());
  }

  /** The result unless a read fails: it depends on how the bytes come only in so far as
      that decides what malformed bytes show. */
  ghost function Outcome(lib: Library, args: Args, output: Source, answer: Source): Result<Verdict>
    requires output.Valid() && answer.Valid()
  {
    if args.mode !in MODES then Err(InvalidInput)
    else if args.mode == "exact" then Ok(if output.Remaining() == answer.Remaining() then Accepted else WrongAnswer)
    else if args.mode == "lines" then LinesResult(OutlookOf(output), OutlookOf(answer))
    else TokensResult(lib, ModeOf(args), OutlookOf(output), OutlookOf(answer))
  }

  /** For two texts the comparison decides what the mode accepts. */
  lemma ModeAccepts(lib: Library, args: Args, o: Outlook, a: Outlook)
    requires o.end.Clean? && a.end.Clean? && args.mode in MODES && args.mode != "exact"
    ensures var r := if args.mode == "lines" then LinesResult(o, a) else TokensResult(lib, ModeOf(args), o, a);
            r == Ok(if AcceptsTexts(lib, args, o.chars, a.chars) then Accepted else WrongAnswer)
  {
    hide Tokens, Lowered, SameOrClose, NormalLines, SameLines;
    if args.mode == "lines" {
      NormalLinesIgnore(o.chars, a.chars);
      assert LinesOf(o) == NormalLines(o.chars) && LinesOf(a) == NormalLines(a.chars) by { LinesOfClean(o); LinesOfClean(a); }
    } else {
      var outs, anss := Tokens(o.chars), Tokens(a.chars);
      assert TokensOf(o) == outs && TokensOf(a) == anss;
      hide Agree;
      AgreeMeans(lib, ModeOf(args), outs, anss, true);
      assert |outs| == |anss| ==> outs[..|anss|] == outs;
      LoweredLength(lib, outs, anss);
    }
  }

  lemma LinesOfClean(o: Outlook)
    requires o.end.Clean?
    ensures LinesOf(o) == NormalLines(o.chars)
  {
  }

  lemma LoweredLength(lib: Library, outs: seq<Text>, anss: seq<Text>)
    ensures Lowered(lib, outs) == Lowered(lib, anss) ==> |outs| == |anss|
  {
    assert |Lowered(lib, outs)| == |outs| && |Lowered(lib, anss)| == |anss|;
  }

  lemma OutcomeIsSound(lib: Library, args: Args, output: Source, answer: Source)
    requires output.Valid() && answer.Valid()
    ensures Sound(lib, args, output.Remaining(), answer.Remaining(), Outcome(lib, args, output, answer))
  {
    hide Decode, IsUtf8, OutlookOf, AcceptsTexts, TokensOf, LinesOf, Agree, LinesAgree, ModeOf;
    WholeText(output);
    WholeText(answer);
    var o, a := OutlookOf(output), OutlookOf(answer);
    if o.end.Clean? && a.end.Clean? && args.mode in MODES && args.mode != "exact" {
      ModeAccepts(lib, args, o, a);
    }
  }

  /** How the bytes come makes no difference to the result, unless a mode that decodes
      meets a malformed answer, or a malformed output and an answer that breaks off. */
  lemma ChunksMakeNoDifference(lib: Library, args: Args, output: Source, answer: Source, output': Source, answer': Source)
    requires output.Valid() && answer.Valid() && output'.Valid() && answer'.Valid()
    requires output.Remaining() == output'.Remaining() && answer.Remaining() == answer'.Remaining()
    requires var o, a := Decode(output.Remaining()).end, Decode(answer.Remaining()).end;
             args.mode == "exact" || a.Clean? || (a.Truncated? && !o.Malformed?)
    ensures Outcome(lib, args, output, answer) == Outcome(lib, args, output', answer')
  {
    hide Decode, OutlookOf, TokensOf, LinesOf, Agree, LinesAgree, ModeOf;
    OutlookMeans(output);
    OutlookMeans(answer);
    OutlookMeans(output');
    OutlookMeans(answer');
  }

  method Compare(lib: Library, args: Args, output: TeeReader, answer: TeeReader) returns (r: Result<Verdict>)
    requires output.Valid() && answer.Valid() && output != answer
    modifies output, answer
    ensures output.Advances() && answer.Advances()
    ensures r != Err(Other) ==> r == Outcome(lib, args, old(output.inner), old(answer.inner))
    ensures Sound(lib, args, old(output.Remaining()), old(answer.Remaining()), r)
    ensures old(output.Healthy() && answer.Healthy()) ==> r != Err(Other)
  {
    hide TeeReader.Previews, Decode, IsUtf8, Accepts, ModeOf, OutlookOf, TokensResult, LinesResult;
    OutcomeIsSound(lib, args, output.inner, answer.inner);
    match args.mode
    case "exact" => r := CompareExact(output, answer);
    case "tokens" => r := CompareTokens(lib, output, answer, ModeOf(args));
    case "tokens-case-insensitive" => r := CompareTokens(lib, output, answer, ModeOf(args));
    case "tokens-float" => r := CompareTokens(lib, output, answer, ModeOf(args));
    case "lines" => r := CompareLines(output, answer);
    case _ => r := Err(InvalidInput);
  }

  /** The program: compare standard input with the answer, then drain it. Whenever no
      read fails and the answer is UTF-8 there is a verdict and it is the right one;
      standard input is read to its end and its first 64 KiB are shown, however early
      the verdict fell. A drain error does not change the verdict. */
  method Run(lib: Library, args: Args, stdin: Source, sink: Sink, answerFile: Source)
    returns (r: Result<Verdict>, output: TeeReader)
    requires stdin.Valid() && answerFile.Valid() && stdin.pos == answerFile.pos == 0
    requires sink.written == []
    ensures Sound(lib, args, stdin.data, answerFile.data, r)
    ensures r != Err(Other) ==> r == Outcome(lib, args, stdin, answerFile)
    ensures Fail !in stdin.plan && Fail !in answerFile.plan ==> r != Err(Other)
    ensures output.inner.data == stdin.data
    ensures Fail !in stdin.plan ==> output.inner.pos == |stdin.data|
    ensures Fail !in stdin.plan && sink.room.None? ==>
              && output.preview.Open?
              && output.preview.sink.written == stdin.data[..Min(INLINE_OUTPUT_PREVIEW_BYTES, |stdin.data|)]
  {
    hide Sound, Outcome;
    output := new TeeReader(stdin, Open(sink));
    var answer := new TeeReader(answerFile, Absent);
    assert output.Remaining() == stdin.data && answer.Remaining() == answerFile.data;
    r := Compare(lib, args, output, answer);
    var drained := output.DrainToEof();
  }

  // ---------------------------------------------------- a broken answer file

  /** The tokens a stream shows before it ends or breaks off. */
  function TokensBefore(source: Source): seq<Text>
    requires source.Valid()
  {
    TokensOf(OutlookOf(source))
  }

  /** The comparison gets to the break of the answer: the tokens it shows before the break
      are the output's first ones, as the mode sees them, and the output does not break
      there too or before. */
  ghost predicate ReachesBreak(lib: Library, mode: TokenMode, output: Source, answer: Source)
    requires output.Valid() && answer.Valid()
  {
    var outs, anss := TokensBefore(output), TokensBefore(answer);
    && |anss| <= |outs| && SameTokens(lib, mode, outs[..|anss|], anss)
    && (IsUtf8(output.data) || |anss| < |outs|)
  }

  /** An answer that is not UTF-8 is meant to be reported, but a token that differs before
      the break ends the comparison first. For all bytes, and however they come, it is
      reported exactly when the comparison reaches the break. */
  method BrokenAnswer(lib: Library, mode: TokenMode, output: Source, answer: Source) returns (r: Result<Verdict>)
    requires output.Valid() && answer.Valid() && output.pos == answer.pos == 0
    requires Fail !in output.plan && Fail !in answer.plan
    requires !IsUtf8(answer.data)
    ensures r == if ReachesBreak(lib, mode, output, answer) then Err(InvalidData) else Ok(WrongAnswer)
  {
    WholeText(output);
    WholeText(answer);
    var out := new TeeReader(output, Absent);
    var ans := new TeeReader(answer, Absent);
    hide TeeReader.Previews, Decode, IsUtf8, Tokens, Agree, SameTokens, OutlookOf, TokensOf;
    AgreeMeans(lib, mode, TokensBefore(output), TokensBefore(answer), false);
    r := CompareTokens(lib, out, ans, mode);
  }

  /** The lines a stream shows before it ends or breaks off, normalized. */
  function LinesBefore(source: Source): seq<Text>
    requires source.Valid()
  {
    LinesOf(OutlookOf(source))
  }

  /** In lines mode it is reported exactly when the lines it shows before its break are the
      output's first ones and the output does not break there too or before. */
  method BrokenAnswerInLines(output: Source, answer: Source) returns (r: Result<Verdict>)
    requires output.Valid() && answer.Valid() && output.pos == answer.pos == 0
    requires Fail !in output.plan && Fail !in answer.plan
    requires !IsUtf8(answer.data)
    ensures var outs, anss := LinesBefore(output), LinesBefore(answer);
            r == if anss <= outs && (IsUtf8(output.data) || |anss| < |outs|) then Err(InvalidData) else Ok(WrongAnswer)
  {
    WholeText(output);
    WholeText(answer);
    var out := new TeeReader(output, Absent);
    var ans := new TeeReader(answer, Absent);
    hide TeeReader.Previews, Decode, IsUtf8, OutlookOf, LinesOf;
    r := CompareLines(out, ans);
  }

  /** Bytes that merely break off, and any that come one by one, show all tokens that are
      finished before their break. */
  lemma AllTokensBefore(source: Source)
    requires source.Valid() && source.pos == 0
    requires !Decode(source.data).end.Malformed? || (source.plan == [] && source.chunk == 1)
    ensures TokensBefore(source) == EmittedTokens(Chars(source.data), IsUtf8(source.data))
  {
    hide Decode, OutlookAfter, EmittedTokens;
    assert source.Remaining() == source.data && [] + source.data == source.data;
    OutlookMeans(source);
    CleanIffUtf8(source.data);
    if source.plan == [] && source.chunk == 1 {
      ByteByByte(source, []);
    }
  }

  /** Malformed bytes that come in one read show no token, so such an answer is reported
      against every UTF-8 output, and every other that shows a token. */
  lemma ReadAtOnceIsReported(lib: Library, mode: TokenMode, output: Source, answer: Source)
    requires output.Valid() && answer.Valid() && answer.pos == 0
    requires answer.Gives() && answer.Chunk(CHUNK) == |answer.data| && Decode(answer.data).end.Malformed?
    ensures ReachesBreak(lib, mode, output, answer) <==> IsUtf8(output.data) || TokensBefore(output) != []
  {
    hide Decode, IsUtf8;
    ChunkInStream(answer, []);
    assert [] + answer.Remaining()[..|answer.data|] == answer.data;
    assert TokensBefore(answer) == [];
  }

  /** Such an answer: "a", a line feed and the first byte of a character, against the output
      "b". However the bytes arrive it is called wrong and never reported. */
  method BrokenAnswerUnreported(lib: Library, output: Source, answer: Source) returns (r: Result<Verdict>)
    requires output.Valid() && answer.Valid() && output.pos == answer.pos == 0
    requires Fail !in output.plan && Fail !in answer.plan
    requires output.data == [0x62] && answer.data == [0x61, LF, 0xC3]
    ensures !IsUtf8(answer.data) && r == Ok(WrongAnswer)
  {
    var o, a := output.data, answer.data;
    assert Decode(a[2..]) == Decoded([], Truncated, a[2..]);
    assert Decode(a[1..]).chars == [LF] && a[1..][1..] == a[2..];
    assert Decode(a) == Decoded([0x61, LF], Truncated, a[2..]);
    assert Decode(o) == Decoded([0x62], Clean, []);
    CleanIffUtf8(a);
    WordFirst([0x61], [LF]);
    WordFirst([0x62], []);
    assert [0x61] + [LF] == [0x61, LF] && [0x62] + [] == [0x62];
    AllTokensBefore(output);
    AllTokensBefore(answer);
    assert TokensBefore(answer)[0] == [0x61] && TokensBefore(output)[0] == [0x62];
    assert [0x61][0] != [0x62][0];
    r := BrokenAnswer(lib, Exactly, output, answer);
  }

  // ---------------------------------------------------------- mode hierarchy

  /** Tolerances under which every token matches itself: a caller can check that the
      absolute one is a number and not negative, or the relative one finite and not
      negative. */
  predicate Tolerant(absTol: F64, relTol: F64) {
    || (!absTol.NaN? && !absTol.Negative())
    || (relTol.Finite? && !relTol.Negative())
  }

  lemma SelfTolerance(absTol: F64, relTol: F64, x: real)
    requires Tolerant(absTol, relTol)
    ensures Finite(0.0).Le(absTol.Max(relTol.Mul(Finite(x).Abs())))
  {
    if relTol.Finite? && !relTol.Negative() {
      assert relTol.value * Finite(x).Abs().value >= 0.0;
    }
  }

  lemma MatchesItself(lib: Library, mode: TokenMode, t: Text)
    requires mode.Float? ==> Tolerant(mode.absTol, mode.relTol)
    ensures TokensMatch(lib, t, t, mode)
  {
    if mode.Float? && lib.parseF64(t).Some? && lib.parseF64(t).value.Finite? {
      SelfTolerance(mode.absTol, mode.relTol, lib.parseF64(t).value.value);
    }
  }

  /** Identical token sequences are accepted in float mode, whatever the tokens, exactly
      under tolerant tolerances. */
  lemma FloatAcceptsIdentical(absTol: F64, relTol: F64)
    ensures Tolerant(absTol, relTol)
       <==> forall lib: Library, tokens: seq<Text> :: Agree(lib, Float(absTol, relTol), tokens, tokens, true)
  {
    if Tolerant(absTol, relTol) {
      forall lib: Library, tokens: seq<Text>
        ensures Agree(lib, Float(absTol, relTol), tokens, tokens, true)
      {
        forall i | 0 <= i < |tokens| ensures TokensMatch(lib, tokens[i], tokens[i], Float(absTol, relTol)) {
          MatchesItself(lib, Float(absTol, relTol), tokens[i]);
        }
      }
    } else {
      // An infinite relative tolerance fails at zero, any other at one.
      var x := if relTol.Infinity? && !relTol.negative then 0.0 else 1.0;
      var lib := Library(t => t, t => Some(Finite(x)));
      var token: Text := [0x31];
      assert !TokensMatch(lib, token, token, Float(absTol, relTol));
      var tokens := [token];
      assert tokens[0] == token;
      assert !Agree(lib, Float(absTol, relTol), tokens, tokens, true);
    }
  }

  /** On UTF-8 inputs each mode accepts whatever a stricter one does: exact, lines,
      tokens, then case-insensitive tokens and tolerant float tokens. */
  lemma ModeHierarchy(lib: Library, args: Args, output: seq<Byte>, answer: seq<Byte>)
    requires IsUtf8(output) && IsUtf8(answer)
    ensures Accepts(lib, args.(mode := "exact"), output, answer) ==> Accepts(lib, args.(mode := "lines"), output, answer)
    ensures Accepts(lib, args.(mode := "lines"), output, answer) ==> Accepts(lib, args.(mode := "tokens"), output, answer)
    ensures Accepts(lib, args.(mode := "tokens"), output, answer) ==>
              Accepts(lib, args.(mode := "tokens-case-insensitive"), output, answer)
    ensures var absTol := if args.epsilon.Some? then args.epsilon.value else DEFAULT_ABS_TOL;
            var relTol := if args.relEpsilon.Some? then args.relEpsilon.value else DEFAULT_REL_TOL;
            Accepts(lib, args.(mode := "tokens"), output, answer) && Tolerant(absTol, relTol) ==>
              Accepts(lib, args.(mode := "tokens-float"), output, answer)
  {
    hide Decode, IsUtf8, Tokens, NormalLines, SameLines, SameOrClose, Tolerant;
    var o, a := Chars(output), Chars(answer);
    NormalLinesIgnore(o, a);
    TokensOfNormalLines(o);
    TokensOfNormalLines(a);
    var absTol := if args.epsilon.Some? then args.epsilon.value else DEFAULT_ABS_TOL;
    var relTol := if args.relEpsilon.Some? then args.relEpsilon.value else DEFAULT_REL_TOL;
    if Tolerant(absTol, relTol) && Tokens(o) == Tokens(a) {
      forall i | 0 <= i < |Tokens(a)| ensures SameOrClose(lib, Tokens(o)[i], Tokens(a)[i], absTol, relTol) {
        MatchesItself(lib, Float(absTol, relTol), Tokens(a)[i]);
        FloatTokensMatch(lib, Tokens(a)[i], Tokens(o)[i], absTol, relTol);
      }
    }
  }
}
