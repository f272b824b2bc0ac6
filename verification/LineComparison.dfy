/** Line comparison: trailing whitespace, CRLF and trailing blank lines ignored. */
module LineComparison {
  import opened Options
  import opened Utf8
  import opened Streams
  import opened Texts
  import opened CharStreams
  import opened Exact

  /** The lines a `LineStream` still owes: confirmed blanks, the queued line, and the
      normalized rest, in which blanks counted but not yet confirmed come first. */
  function Owed(flush: nat, queued: seq<Text>, pending: nat, raw: seq<Text>): seq<Text> {
    Blanks(flush) + queued + DropTrailingEmpty(Blanks(pending) + TrimAll(raw))
  }

  lemma OwedFlush(flush: nat, queued: seq<Text>, pending: nat, raw: seq<Text>)
    requires flush > 0
    ensures Owed(flush, queued, pending, raw) == [[]] + Owed(flush - 1, queued, pending, raw)
  {
    hide DropTrailingEmpty;
    assert Blanks(flush) == [[]] + Blanks(flush - 1);
  }

  lemma OwedQueued(line: Text, pending: nat, raw: seq<Text>)
    ensures Owed(0, [line], pending, raw) == [line] + Owed(0, [], pending, raw)
  {
    hide DropTrailingEmpty;
  }

  /** A blank line is only counted. */
  lemma OwedBlank(line: Text, pending: nat, raw: seq<Text>)
    requires TrimEnd(line) == []
    ensures Owed(0, [], pending, [line] + raw) == Owed(0, [], pending + 1, raw)
  {
    TrimAllFirst(line, raw);
    hide DropTrailingEmpty, TrimAll, TrimEnd;
    assert Blanks(pending) + ([[]] + TrimAll(raw)) == Blanks(pending + 1) + TrimAll(raw);
  }

  /** A line with text confirms the blank lines counted before it. */
  lemma OwedText(line: Text, pending: nat, raw: seq<Text>)
    requires TrimEnd(line) != []
    ensures Owed(0, [], pending, [line] + raw) == Owed(pending, [TrimEnd(line)], 0, raw)
  {
    var text, rest := TrimEnd(line), TrimAll(raw);
    TrimAllFirst(line, raw);
    DropAfter(Blanks(pending), text, rest);
    hide DropTrailingEmpty, TrimAll, TrimEnd;
    Regrouped(Blanks(pending), [text], rest);
    NoBlanks(rest);
    NoBlanks(DropTrailingEmpty(Blanks(pending) + ([text] + rest)));
  }

  lemma NoBlanks(lines: seq<Text>)
    ensures Blanks(0) + lines == Blanks(0) + [] + lines == lines
  {
  }

  /** At the end the blank lines still counted are dropped. */
  lemma OwedAtEnd(pending: nat)
    ensures Owed(0, [], pending, []) == []
  {
    DropAllEmpty(pending);
    assert Blanks(pending) + TrimAll([]) == Blanks(pending);
  }

  class LineStream {
    const chars: CharStream
    var current: Text
    var pendingEmpty: nat
    var flushEmpty: nat
    var queued: seq<Text>

    /** At most one line is queued, confirmed blanks wait only for a queued line, and
        no blank is counted while one is. */
    ghost predicate Valid()
      reads this, chars, chars.reader
    {
      && chars.Valid()
      && LF !in current
      && |queued| <= 1
      && (flushEmpty > 0 ==> queued != [])
      && (queued != [] ==> pendingEmpty == 0)
    }

    ghost function RawAhead(): seq<Text>
      requires chars.reader.Valid()
      reads this, chars, chars.reader
    {
      EmittedLines(current + chars.Ahead().chars, chars.Ahead().end.Clean?)
    }

    /** The lines still to come; a stream that breaks fails after these. */
    ghost function Ahead(): seq<Text>
      requires chars.reader.Valid()
      reads this, chars, chars.reader
    {
      Owed(flushEmpty, queued, pendingEmpty, RawAhead())
    }

    /** How the stream ends. */
    ghost function Ending(): End
      requires chars.reader.Valid()
      reads chars, chars.reader
    {
      chars.Ahead().end
    }

    constructor (reader: TeeReader)
      requires reader.Valid()
      ensures Valid() && chars.reader == reader && fresh(chars)
      ensures Ending() == OutlookOf(reader.inner).end
      ensures Ahead() == LinesOf(OutlookOf(reader.inner))
    {
      hide TeeReader.Previews, OutlookOf, CharStream.Ahead, CharStream.Valid, EmittedLines, TrimAll, DropTrailingEmpty;
      chars := new CharStream(reader);
      current, pendingEmpty, flushEmpty, queued := [], 0, 0, [];
      new;
      assert current + chars.Ahead().chars == chars.Ahead().chars;
      var lines := TrimAll(RawAhead());
      assert Blanks(0) + lines == lines && Blanks(0) + [] + DropTrailingEmpty(lines) == DropTrailingEmpty(lines);
    }

    method NextRawLine() returns (r: Result<Option<Text>>)
      requires Valid()
      modifies this`current, chars, chars.reader
      ensures chars.reader.Advances() && (old(chars.reader.Healthy()) ==> r != Err(Other))
      ensures r.Ok? ==> Valid() && Ending() == old(Ending())
      ensures r.Ok? && r.value.Some? ==> old(RawAhead()) == [r.value.value] + RawAhead()
      ensures r == Ok(None) ==> old(RawAhead()) == [] == RawAhead() && Ending().Clean?
      ensures r.Err? ==> r.kind in {InvalidData, Other}
      ensures r == Err(InvalidData) ==> old(RawAhead()) == [] && !old(Ending()).Clean?
    {
      hide TeeReader.Previews, TeeReader.Remaining, OutlookOf, CharStream.Ahead, Decode, EmittedLines;
      while true
        invariant Valid() && chars.reader.Advances()
        invariant Ending() == old(Ending()) && RawAhead() == old(RawAhead())
        decreases |chars.Ahead().chars|
      {
        ghost var clean := Ending().Clean?;
        BrokenLine(current);
        var ch :- chars.NextChar();
        if ch.None? {
          break;
        }
        CurrentAndNext(current, ch.value, chars.Ahead().chars, clean);
        if ch.value == LF {
          if current != [] && current[|current| - 1] == CR {
            current := current[..|current| - 1];
          }
          r := Ok(Some(current));
          current := [];
          return;
        }
        current := current + [ch.value];
      }
      CurrentAtEnd(current);
      if current == [] {
        r := Ok(None);
      } else {
        r := Ok(Some(current));
        current := [];
      }
    }

    /** Yields the normalized lines of the text one by one; a run of blank lines costs
        a counter, not a list. */
    method NextLine() returns (r: Result<Option<Text>>)
      requires Valid()
      modifies this, chars, chars.reader
      ensures chars.reader.Advances() && (old(chars.reader.Healthy()) ==> r != Err(Other))
      ensures r.Ok? ==> Valid() && Ending() == old(Ending())
      ensures r.Ok? && r.value.Some? ==> old(Ahead()) == [r.value.value] + Ahead()
      ensures r == Ok(None) ==> old(Ahead()) == [] == Ahead() && Ending().Clean?
      ensures r.Err? ==> r.kind in {InvalidData, Other}
      ensures r == Err(InvalidData) ==> old(Ahead()) == [] && !old(Ending()).Clean?
    {
      hide TeeReader.Previews, TeeReader.Remaining, CharStream.Ahead, Decode, EmittedLines, Owed, TrimEnd;
      while true
        invariant Valid() && chars.reader.Advances()
        invariant Ending() == old(Ending()) && Ahead() == old(Ahead())
        decreases |RawAhead()|
      {
        if flushEmpty > 0 {
          OwedFlush(flushEmpty, queued, pendingEmpty, RawAhead());
          flushEmpty := flushEmpty - 1;
          return Ok(Some([]));
        }
        if queued != [] {
          assert queued == [queued[0]];
          OwedQueued(queued[0], pendingEmpty, RawAhead());
          r := Ok(Some(queued[0]));
          queued := queued[1..];
          return;
        }
        OwedAtEnd(pendingEmpty);
        var raw :- NextRawLine();
        match raw {
          case Some(whole) =>
            var line := TrimEnd(whole);
            if line == [] {
              OwedBlank(whole, pendingEmpty, RawAhead());
              pendingEmpty := pendingEmpty + 1;
            } else {
              OwedText(whole, pendingEmpty, RawAhead());
              flushEmpty := pendingEmpty;
              pendingEmpty := 0;
              queued := queued + [line];
              assert queued == [line];
            }
          case None =>
            OwedAtEnd(0);
            pendingEmpty := 0;
            return Ok(None);
        }
      }
    }
  }

  lemma CurrentAndNext(current: Text, c: Scalar, rest: Text, clean: bool)
    requires LF !in current
    ensures current + ([c] + rest) == (current + [c]) + rest
    ensures c == LF ==>
              EmittedLines(current + ([c] + rest), clean) == [StripCr(current)] + EmittedLines([] + rest, clean)
  {
    hide RawLines, StripCr;
    var t := current + ([c] + rest);
    assert [] + rest == rest;
    assert t == current + [c] + rest;
    assert t[|t| - 1] == if rest == [] then c else rest[|rest| - 1];
    if c == LF {
      assert RawLines(t) == [StripCr(current)] + RawLines(rest) by { FirstLine(current, rest); }
      LinesOfSome(rest);
      if rest != [] {
        AllButLast(StripCr(current), RawLines(rest));
      }
    }
  }

  lemma LinesOfSome(t: Text)
    ensures RawLines(t) == [] <==> t == []
  {
  }

  lemma CurrentAtEnd(current: Text)
    requires LF !in current
    ensures EmittedLines(current + [], true) == if current == [] then [] else [current] + EmittedLines([] + [], true)
  {
    FirstLine(current, []);
    assert current + [] == current;
  }

  lemma BrokenLine(current: Text)
    requires LF !in current
    ensures EmittedLines(current + [], false) == []
  {
    FirstLine(current, []);
    assert current + [] == current;
    assert current != [] ==> current[|current| - 1] in current;
  }

  function LinesOf(o: Outlook): seq<Text> { DropTrailingEmpty(TrimAll(EmittedLines(o.chars, o.end.Clean?))) }

  /** A `whole` answer has the lines of the output, one that broke off its first lines. */
  predicate LinesAgree(outs: seq<Text>, anss: seq<Text>, whole: bool) {
    if whole then outs == anss else anss <= outs
  }

  lemma LinesAgreeStep(outs: seq<Text>, anss: seq<Text>, whole: bool)
    ensures outs != [] && anss != [] ==>
              (LinesAgree(outs, anss, whole) <==> outs[0] == anss[0] && LinesAgree(outs[1..], anss[1..], whole))
    ensures outs == [] || anss == [] ==>
              (LinesAgree(outs, anss, whole) <==> anss == [] && (whole ==> outs == []))
  {
    if outs != [] && anss != [] {
      assert outs == [outs[0]] + outs[1..] && anss == [anss[0]] + anss[1..];
    }
  }

  /** The result of comparing two streams that show `o` and `a`; an answer that is not
      UTF-8 is reported if the comparison gets to its break. */
  function LinesResult(o: Outlook, a: Outlook): Result<Verdict> {
    var outs, anss := LinesOf(o), LinesOf(a);
    if a.end.Clean? then Ok(if o.end.Clean? && LinesAgree(outs, anss, true) then Accepted else WrongAnswer)
    else if LinesAgree(outs, anss, false) && (o.end.Clean? || |outs| > |anss|) then Err(InvalidData)
    else Ok(WrongAnswer)
  }

  /** Unless a read fails, the result is that of looking at all that the streams show. */
  method CompareLines(output: TeeReader, answer: TeeReader) returns (r: Result<Verdict>)
    requires output.Valid() && answer.Valid() && output != answer
    modifies output, answer
    ensures output.Advances() && answer.Advances()
    ensures r != Err(Other) ==> r == LinesResult(OutlookOf(old(output.inner)), OutlookOf(old(answer.inner)))
    ensures old(output.Healthy() && answer.Healthy()) ==> r != Err(Other)
  {
    hide TeeReader.Previews, TeeReader.Remaining, OutlookOf, LinesOf, LinesAgree,
         TeeReader.Healthy, TeeReader.Showing,
         CharStream.Ahead, CharStream.Valid, LineStream.Ahead, LineStream.Ending;
    ghost var o, a := OutlookOf(output.inner), OutlookOf(answer.inner);
    ghost var outs, anss := LinesOf(o), LinesOf(a);
    ghost var agree := LinesAgree(outs, anss, a.end.Clean?);
    var out := new LineStream(output);
    var ans := new LineStream(answer);
    while true
      invariant output.Advances() && answer.Advances()
      invariant out.Valid() && ans.Valid() && out.Ending() == o.end && ans.Ending() == a.end
      invariant agree <==> LinesAgree(out.Ahead(), ans.Ahead(), a.end.Clean?)
      invariant |out.Ahead()| + |anss| == |ans.Ahead()| + |outs|
      decreases |out.Ahead()|
    {
      LinesAgreeStep(out.Ahead(), ans.Ahead(), a.end.Clean?);
      var next := out.NextLine();
      if next == Err(InvalidData) {
        return Ok(WrongAnswer);
      }
      var x :- next;
      var y :- ans.NextLine();
      match (x, y) {
        case (Some(xl), Some(yl)) =>
          if xl != yl {
            return Ok(WrongAnswer);
          }
        case (None, None) =>
          return Ok(Accepted);
        case _ =>
          return Ok(WrongAnswer);
      }
    }
  }
}
