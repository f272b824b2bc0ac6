/** The verdicts, and byte-for-byte comparison of two chunked streams. */
module Exact {
  import opened Options
  import opened Utf8
  import opened Streams

  datatype Verdict = Accepted | WrongAnswer

  /** One side's buffer, the window `[lo, hi)` of bytes not yet matched, and whether
      its reader has ended. */
  class Side {
    const reader: TeeReader
    const buf: array<Byte>
    var lo: nat
    var hi: nat
    var done: bool

    ghost predicate Valid()
      reads this, reader
    {
      && reader.Valid()
      && lo <= hi <= buf.Length == CHUNK
      && (done ==> reader.Remaining() == [])
    }

    function Window(): seq<Byte>
      requires lo <= hi <= buf.Length
      reads this, buf
    {
      buf[lo..hi]
    }

    /** The bytes that have yet to be matched, in the window or unread. */
    ghost function Ahead(): seq<Byte>
      requires Valid()
      reads this, reader, buf
    {
      Window() + reader.Remaining()
    }

    predicate Empty()
      reads this
    {
      lo == hi && done
    }

    constructor (reader: TeeReader)
      requires reader.Valid()
      ensures Valid() && this.reader == reader && fresh(buf)
      ensures Ahead() == reader.Remaining()
    {
      this.reader := reader;
      buf := new Byte[CHUNK];
      lo, hi, done := 0, 0, false;
    }

    /** Refill an exhausted window; reading nothing means that the reader has ended. */
    method Refill() returns (r: Result<()>)
      requires Valid()
      modifies this, reader, buf
      ensures reader.Advances() && (old(reader.Healthy()) ==> r.Ok?)
      ensures r.Ok? ==> Valid() && Ahead() == old(Ahead()) && (lo == hi ==> done)
      ensures r.Err? ==> r.kind == Other
    {
      hide TeeReader.Previews, TeeReader.Remaining, Source.Chunk, Source.Settled, Source.Gives, Source.Skip;
      if lo == hi && !done {
        ghost var before := reader.Remaining();
        assert Window() == [] && [] + before == before;
        lo, hi := 0, 0;
        hi :- ReadSome(reader, buf);
        assert Window() == before[..hi] && before[..hi] + before[hi..] == before;
        if hi == 0 {
          done := true;
        }
      }
      r := Ok(());
    }

    method Advance(n: nat)
      requires Valid() && lo + n <= hi
      modifies this`lo
      ensures Valid() && lo == old(lo) + n
      ensures Window() == old(Window())[n..]
    {
      lo := lo + n;
    }
  }

  /** Comparing the common part of two windows decides, or leaves the question to
      what follows it. */
  lemma CommonPart(ow: seq<Byte>, oRest: seq<Byte>, aw: seq<Byte>, aRest: seq<Byte>, n: nat)
    requires n <= |ow| && n <= |aw|
    ensures ow + oRest == aw + aRest <==> ow[..n] == aw[..n] && ow[n..] + oRest == aw[n..] + aRest
  {
    assert (ow + oRest)[..n] == ow[..n] && (aw + aRest)[..n] == aw[..n];
    assert (ow + oRest)[n..] == ow[n..] + oRest && (aw + aRest)[n..] == aw[n..] + aRest;
    assert ow + oRest == ow[..n] + (ow[n..] + oRest) && aw + aRest == aw[..n] + (aw[n..] + aRest);
  }

  /** One round over two refilled sides: compare the windows over the length of the
      shorter one and move past it. Without a verdict, a byte of each was matched. */
  method MatchWindows(out: Side, ans: Side) returns (verdict: Option<Verdict>)
    requires out.Valid() && ans.Valid() && out != ans && out.reader != ans.reader
    requires (out.lo == out.hi ==> out.done) && (ans.lo == ans.hi ==> ans.done)
    modifies out`lo, ans`lo
    ensures out.Valid() && ans.Valid()
    ensures verdict.Some? ==> (verdict.value.Accepted? <==> old(out.Ahead() == ans.Ahead()))
    ensures verdict.None? ==> (out.Ahead() == ans.Ahead() <==> old(out.Ahead() == ans.Ahead()))
    ensures verdict.None? ==> |out.Ahead()| < |old(out.Ahead())|
  {
    var n := Min(out.hi - out.lo, ans.hi - ans.lo);
    var ow, aw := out.Window(), ans.Window();
    CommonPart(ow, out.reader.Remaining(), aw, ans.reader.Remaining(), n);
    if ow[..n] != aw[..n] {
      return Some(WrongAnswer);
    }
    out.Advance(n);
    ans.Advance(n);
    if out.Empty() && ans.Empty() {
      return Some(Accepted);
    }
    if (out.Empty() && ans.lo < ans.hi) || (ans.Empty() && out.lo < out.hi) {
      return Some(WrongAnswer);
    }
    return None;
  }

  /** Accepts exactly the identical byte sequences, however each side is cut into
      chunks; without read errors it always gives a verdict. */
  method CompareExact(output: TeeReader, answer: TeeReader) returns (r: Result<Verdict>)
    requires output.Valid() && answer.Valid() && output != answer
    modifies output, answer
    ensures output.Advances() && answer.Advances()
    ensures old(output.Healthy() && answer.Healthy()) ==> r.Ok?
    ensures r.Ok? ==> (r.value.Accepted? <==> old(output.Remaining()) == old(answer.Remaining()))
    ensures r.Err? ==> r.kind == Other
  {
    hide TeeReader.Previews, TeeReader.Remaining, Side.Ahead;
    var out := new Side(output);
    var ans := new Side(answer);
    while true
      invariant output.Advances() && answer.Advances()
      invariant out.Valid() && ans.Valid()
      invariant out.Ahead() == ans.Ahead() <==> old(output.Remaining() == answer.Remaining())
      decreases |out.Ahead()|
    {
      var _ :- out.Refill();
      var _ :- ans.Refill();
      var verdict := MatchWindows(out, ans);
      if verdict.Some? {
        return Ok(verdict.value);
      }
    }
  }
}
