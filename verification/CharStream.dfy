/** Incremental UTF-8 decoding of a chunked byte stream. */
module CharStreams {
  import opened Options
  import opened Utf8
  import opened Streams

  // ------------------------------------------------------ what a stream shows

  /** The bytes that get decoded after those `held` back: whole chunks, up to the first
      with which the bytes are malformed. */
  function Shown(source: Source, held: seq<Byte>): seq<Byte>
    requires source.Valid()
    decreases |source.data| - source.pos, |source.plan|
  {
    if source.pos == |source.data| then []
    else if !source.Gives() then Shown(source.Skip(0), held)
    else
      var chunk := source.Remaining()[..source.Chunk(CHUNK)];
      var d := Decode(held + chunk);
      if d.end.Malformed? then [] else chunk + Shown(source.Skip(|chunk|), d.rest)
  }

  /** The characters a stream still has to give, and how it then ends: cleanly, in the
      middle of a character, or in bytes that are no UTF-8. */
  datatype Outlook = Outlook(chars: Text, end: End)

  function OutlookAfter(source: Source, held: seq<Byte>): Outlook
    requires source.Valid()
  {
    Outlook(Decode(held + Shown(source, held)).chars, Decode(held + source.Remaining()).end)
  }

  function OutlookOf(source: Source): Outlook
    requires source.Valid()
  {
    OutlookAfter(source, [])
  }

  /** Nothing, or the unfinished start of one character. */
  predicate Unfinished(held: seq<Byte>) { held == [] || Decode(held) == Decoded([], Truncated, held) }

  /** A rest that is not malformed is unfinished. */
  lemma RestIsUnfinished(v: seq<Byte>)
    requires !Decode(v).end.Malformed?
    ensures Unfinished(Decode(v).rest) && |Decode(v).rest| <= 3
  {
    hide Encode, First;
    DecodeSplits(v);
    if Decode(v).end.Truncated? {
      TruncatedMeansUnfinished(v);
      assert Decode(Decode(v).rest) == Decoded([], Truncated, Decode(v).rest) by {
        DecodeMore(v, []);
        assert v + [] == v && Decode(v).rest + [] == Decode(v).rest;
        DecodeSplits(Decode(v).rest);
        assert First(Decode(v).rest).Short?;
      }
    }
  }

  lemma SettledShows(source: Source, held: seq<Byte>)
    requires source.Valid()
    ensures source.Settled().Valid()
    ensures source.Settled().data == source.data && source.Settled().pos == source.pos
    ensures OutlookAfter(source.Settled(), held) == OutlookAfter(source, held)
    decreases |source.plan|
  {
    hide Decode;
    if source.plan != [] && source.plan[0].Interrupt? {
      SettledShows(source.Skip(0), held);
    }
  }

  /** The next chunk: malformed with what is held back, it hides everything; otherwise
      its characters come first, and its undecoded rest is held back. */
  lemma ChunkInStream(source: Source, held: seq<Byte>)
    requires source.Valid() && source.Gives() && Unfinished(held)
    ensures var n := source.Chunk(CHUNK);
            var d := Decode(held + source.Remaining()[..n]);
            var rest := OutlookAfter(source.Skip(n), d.rest);
            OutlookAfter(source, held) == if d.end.Malformed? then Outlook([], Malformed)
                                          else Outlook(d.chars + rest.chars, rest.end)
  {
    hide Decode, Shown;
    var n := source.Chunk(CHUNK);
    var chunk, next := source.Remaining()[..n], source.Skip(n);
    var d := Decode(held + chunk);
    ShownChunk(source, held);
    UnfinishedDecodes(held);
    assert held + [] == held;
    assert held + source.Remaining() == held + chunk + next.Remaining();
    DecodeMore(held + chunk, next.Remaining());
    if !d.end.Malformed? {
      assert held + (chunk + Shown(next, d.rest)) == held + chunk + Shown(next, d.rest);
      DecodeMore(held + chunk, Shown(next, d.rest));
    }
  }

  lemma ShownChunk(source: Source, held: seq<Byte>)
    requires source.Valid() && source.Gives() && Unfinished(held)
    ensures var n := source.Chunk(CHUNK);
            var chunk := source.Remaining()[..n];
            var d := Decode(held + chunk);
            Shown(source, held) == if d.end.Malformed? then [] else chunk + Shown(source.Skip(n), d.rest)
  {
    UnfinishedDecodes(held);
    hide Decode;
    if source.pos == |source.data| {
      assert held + source.Remaining()[..source.Chunk(CHUNK)] == held;
    }
  }

  lemma NothingDecodes()
    ensures Decode([]) == Decoded([], Clean, [])
  {
  }

  lemma UnfinishedDecodes(held: seq<Byte>)
    requires Unfinished(held)
    ensures Decode(held).chars == [] && Decode(held).rest == held && !Decode(held).end.Malformed?
    ensures Decode(held).end == if held == [] then Clean else Truncated
  {
  }

  // --------------------------------------------------- which bytes are decoded

  /** After `k` more bytes a chunk ends. */
  predicate ChunkEnds(source: Source, k: nat)
    requires source.Valid()
    decreases |source.data| - source.pos, |source.plan|
  {
    if k == 0 || source.pos == |source.data| then k == 0
    else if !source.Gives() then ChunkEnds(source.Skip(0), k)
    else
      var n := source.Chunk(CHUNK);
      n <= k && ChunkEnds(source.Skip(n), k - n)
  }

  /** The first `n` bytes are the longest part that ends with a chunk and is not malformed. */
  ghost predicate IsLongest(source: Source, held: seq<Byte>, n: nat)
    requires source.Valid()
  {
    var all := source.Remaining();
    && n <= |all| && ChunkEnds(source, n) && !Decode(held + all[..n]).end.Malformed?
    && forall k :: n < k <= |all| && ChunkEnds(source, k) ==> Decode(held + all[..k]).end.Malformed?
  }

  lemma NothingIsLongest(source: Source, held: seq<Byte>)
    requires source.Valid() && Unfinished(held)
    requires source.pos < |source.data| ==>
               source.Gives() && Decode(held + source.Remaining()[..source.Chunk(CHUNK)]).end.Malformed?
    ensures IsLongest(source, held, 0)
  {
    UnfinishedDecodes(held);
    hide Decode;
    var all := source.Remaining();
    assert held + all[..0] == held;
    forall k | 0 < k <= |all| && ChunkEnds(source, k) ensures Decode(held + all[..k]).end.Malformed? {
      CutThere(held, all, source.Chunk(CHUNK), k);
    }
  }

  lemma LongestAfterChunk(source: Source, held: seq<Byte>, m: nat)
    requires source.Valid() && source.pos < |source.data| && source.Gives()
    requires var n := source.Chunk(CHUNK);
             var d := Decode(held + source.Remaining()[..n]);
             !d.end.Malformed? && IsLongest(source.Skip(n), d.rest, m)
    ensures IsLongest(source, held, source.Chunk(CHUNK) + m)
  {
    hide Decode;
    var all, n := source.Remaining(), source.Chunk(CHUNK);
    var next := source.Skip(n);
    assert next.Remaining() == all[n..];
    CutThere(held, all, n, n + m);
    forall k | n + m < k <= |all| && ChunkEnds(source, k) ensures Decode(held + all[..k]).end.Malformed? {
      CutThere(held, all, n, k);
      assert ChunkEnds(next, k - n);
    }
  }

  /** That is what a stream shows. */
  lemma {:induction false} ShownIsLongest(source: Source, held: seq<Byte>)
    requires source.Valid() && Unfinished(held)
    ensures Shown(source, held) <= source.Remaining() && IsLongest(source, held, |Shown(source, held)|)
    decreases |source.data| - source.pos, |source.plan|
  {
    hide Decode, Unfinished, IsLongest, Source.Chunk;
    if source.pos == |source.data| {
      NothingIsLongest(source, held);
    } else if !source.Gives() {
      ShownIsLongest(source.Skip(0), held);
      SkippedLongest(source, held, |Shown(source, held)|);
    } else {
      var n := source.Chunk(CHUNK);
      var all := source.Remaining();
      var d := Decode(held + all[..n]);
      ShownChunk(source, held);
      hide Shown;
      if d.end.Malformed? {
        NothingIsLongest(source, held);
      } else {
        RestIsUnfinished(held + all[..n]);
        var next := Shown(source.Skip(n), d.rest);
        ShownIsLongest(source.Skip(n), d.rest);
        LongestAfterChunk(source, held, |next|);
        assert source.Skip(n).Remaining() == all[n..];
        PrefixAfter(all, n, next);
      }
    }
  }

  lemma PrefixAfter(all: seq<Byte>, n: nat, next: seq<Byte>)
    requires n <= |all| && next <= all[n..]
    ensures all[..n] + next <= all
  {
    assert all == all[..n] + all[n..];
  }

  lemma SkippedLongest(source: Source, held: seq<Byte>, n: nat)
    requires source.Valid() && source.pos < |source.data| && !source.Gives()
    requires IsLongest(source.Skip(0), held, n)
    ensures IsLongest(source, held, n)
  {
    hide Decode;
  }

  /** Cutting after `k` bytes is cutting after `n` and then after `k - n`. */
  lemma CutThere(held: seq<Byte>, all: seq<Byte>, n: nat, k: nat)
    requires n <= k <= |all|
    ensures var d := Decode(held + all[..n]);
            Decode(held + all[..k]).end == if d.end.Malformed? then Malformed else Decode(d.rest + all[n..][..k - n]).end
  {
    hide Decode;
    assert held + all[..k] == held + all[..n] + all[n..][..k - n];
    DecodeMore(held + all[..n], all[n..][..k - n]);
  }

  /** A stream shows a prefix of its valid part, and the whole of it unless its bytes are
      malformed; these may hide what came before them in the same chunk. */
  lemma OutlookMeans(source: Source)
    requires source.Valid()
    ensures var d := Decode(source.Remaining());
            && OutlookOf(source).end == d.end
            && OutlookOf(source).chars <= d.chars
            && (!d.end.Malformed? ==> OutlookOf(source).chars == d.chars)
  {
    hide Decode, Shown;
    var all, shown := source.Remaining(), Shown(source, []);
    assert [] + all == all && [] + shown == shown;
    ShownPart(source);
    PrefixDecodes(shown, all);
  }

  lemma ShownPart(source: Source)
    requires source.Valid()
    ensures Shown(source, []) <= source.Remaining()
    ensures !Decode(source.Remaining()).end.Malformed? ==> Shown(source, []) == source.Remaining()
  {
    hide Decode, Shown, ChunkEnds;
    var all := source.Remaining();
    ShownIsLongest(source, []);
    LastChunkEnds(source);
    assert [] + all[..|all|] == all;
  }

  lemma PrefixDecodes(v: seq<Byte>, all: seq<Byte>)
    requires v <= all
    ensures Decode(v).chars <= Decode(all).chars
  {
    hide Decode;
    DecodeMore(v, all[|v|..]);
    assert all == v + all[|v|..];
  }

  lemma {:induction false} LastChunkEnds(source: Source)
    requires source.Valid()
    ensures ChunkEnds(source, |source.Remaining()|)
    decreases |source.data| - source.pos, |source.plan|
  {
    if source.pos < |source.data| {
      if source.Gives() {
        LastChunkEnds(source.Skip(source.Chunk(CHUNK)));
      } else {
        LastChunkEnds(source.Skip(0));
      }
    }
  }

  /** Byte by byte a stream shows its whole valid part. */
  lemma {:induction false} ByteByByte(source: Source, held: seq<Byte>)
    requires source.Valid() && source.plan == [] && source.chunk == 1 && Unfinished(held)
    ensures OutlookAfter(source, held).chars == Decode(held + source.Remaining()).chars
    decreases |source.data| - source.pos
  {
    hide Decode, Unfinished;
    var all := source.Remaining();
    ChunkInStream(source, held);
    if source.pos == |source.data| {
    } else {
      var d := Decode(held + all[..1]);
      assert held + all == held + all[..1] + all[1..];
      DecodeMore(held + all[..1], all[1..]);
      if d.end.Malformed? {
        BrokenByOneByte(held, all[..1]);
      } else {
        RestIsUnfinished(held + all[..1]);
        ByteByByte(source.Skip(1), d.rest);
        assert source.Skip(1).Remaining() == all[1..];
      }
    }
  }

  /** A byte that breaks an unfinished character breaks the text right there. */
  lemma BrokenByOneByte(held: seq<Byte>, b: seq<Byte>)
    requires Unfinished(held) && |b| == 1
    ensures Decode(held + b).end.Malformed? ==> Decode(held + b).chars == []
  {
    DecodeSplits(held);
    UnfinishedPlusOne(held, b);
  }

  lemma UnfinishedPlusOne(s: seq<Byte>, b: seq<Byte>)
    requires s == [] || First(s).Short?
    requires |b| == 1
    ensures First(s + b).One? ==> First(s + b).width == |s + b|
    ensures Decode(s + b).end.Clean? || Decode(s + b).chars == []
  {
    var v := s + b;
    if First(v).One? {
      assert v[First(v).width..] == [];
    }
  }

  // ------------------------------------------------------------------ decoding

  class CharStream {
    const reader: TeeReader
    var pending: seq<Byte>
    var chars: Text
    var eof: bool

    /** Between fills `pending` is empty or the unfinished start of one character. */
    ghost predicate Valid()
      reads this, reader
    {
      reader.Valid() && Unfinished(pending) && (eof ==> reader.Remaining() == [])
    }

    /** What the stream has yet to yield. Unless the bytes are malformed it does not
        depend on how they will be cut into chunks. */
    ghost function Ahead(): Outlook
      requires reader.Valid()
      reads this, reader
    {
      var o := OutlookAfter(reader.inner, pending);
      Outlook(chars + o.chars, o.end)
    }

    constructor (reader: TeeReader)
      requires reader.Valid()
      ensures Valid() && this.reader == reader
      ensures Ahead() == OutlookOf(reader.inner)
    {
      this.reader := reader;
      pending, chars, eof := [], [], false;
      new;
      assert Ahead().chars == OutlookOf(reader.inner).chars;
    }

    /** Move the whole characters of `pending` to `chars`, unless it is malformed. */
    method DecodePending() returns (r: Result<()>)
      modifies this`pending, this`chars
      ensures var d := Decode(old(pending));
              if d.end.Malformed? then r == Err(InvalidData)
              else r.Ok? && chars == old(chars) + d.chars && pending == d.rest && |pending| <= 3 && Unfinished(pending)
    {
      hide Decode, Unfinished, Encode;
      ghost var d := Decode(pending);
      DecodeSplits(pending);
      match FromUtf8(pending) {
        case Utf8Ok(valid) =>
          RestIsUnfinished(pending);
          chars := chars + valid;
          pending := [];
        case Utf8Error(validUpTo, hasErrorLen) =>
          if hasErrorLen {
            return Err(InvalidData);
          }
          // The trailing bytes begin a character: keep them until more arrive.
          ValidPrefix(pending);
          RestIsUnfinished(pending);
          if validUpTo == 0 {
            assert pending[..0] == [] && pending[0..] == pending;
            NothingDecodes();
            return Ok(());
          }
          match FromUtf8(pending[..validUpTo]) {
            case Utf8Error(_, _) => assert false;
            case Utf8Ok(valid) =>
              chars := chars + valid;
              pending := pending[validUpTo..];
          }
      }
      r := Ok(());
    }

    /** `Err(InvalidData)` says that the bytes are malformed and nothing more is shown;
        `Ok` leaves what lies ahead as it was and makes progress. */
    method Fill() returns (r: Result<()>)
      requires Valid() && !eof
      modifies this, reader
      ensures reader.Advances() && (old(reader.Healthy()) ==> r != Err(Other))
      ensures r.Ok? ==> Valid() && Ahead() == old(Ahead()) && |pending| <= 3
      ensures r.Ok? ==> eof || |reader.Remaining()| < |old(reader.Remaining())|
      ensures r.Err? ==> r.kind in {InvalidData, Other}
      ensures r == Err(InvalidData) ==> old(Ahead()) == Outlook(old(chars), Malformed)
    {
      hide Decode, FromUtf8, OutlookAfter, Unfinished, TeeReader.Previews, TeeReader.Showing, Source.Chunk, Source.Settled;
      ghost var held, before := pending, reader.inner;
      SettledShows(before, held);
      var buf := new Byte[CHUNK];
      var n :- ReadSome(reader, buf);
      ChunkInStream(before.Settled(), held);
      assert buf[..n] == before.Settled().Remaining()[..n];
      if n == 0 {
        eof := true;
        assert held + buf[..n] == held;
      } else {
        pending := pending + buf[..n];
      }
      r := DecodePending();
      assert r.Err? ==> old(chars) + [] == old(chars);
    }

    lemma AheadAtEof()
      requires Valid() && eof
      ensures Ahead() == Outlook(chars, if pending == [] then Clean else Truncated)
    {
      assert pending + reader.Remaining() == pending;
      UnfinishedDecodes(pending);
    }

    /** Yields the characters ahead one at a time and then ends, with an error unless the
        bytes are UTF-8: it never ends cleanly otherwise. */
    method NextChar() returns (r: Result<Option<Scalar>>)
      requires Valid()
      modifies this, reader
      ensures reader.Advances() && (old(reader.Healthy()) ==> r != Err(Other))
      ensures r.Ok? ==> Valid()
      ensures r.Ok? && r.value.Some? ==>
                && old(Ahead()).chars == [r.value.value] + Ahead().chars
                && Ahead().end == old(Ahead()).end
      ensures r == Ok(None) ==> old(Ahead()) == Outlook([], Clean) == Ahead()
      ensures r.Err? ==> r.kind in {InvalidData, Other}
      ensures r == Err(InvalidData) ==> old(Ahead()).chars == [] && !old(Ahead()).end.Clean?
    {
      hide Decode, OutlookAfter, FromUtf8, Unfinished, TeeReader.Previews;
      while true
        invariant reader.Advances()
        invariant Valid() && Ahead() == old(Ahead())
        decreases !eof, |reader.Remaining()|
      {
        if chars != [] {
          r := Ok(Some(chars[0]));
          chars := chars[1..];
          return;
        }
        if eof {
          AheadAtEof();
          return if pending == [] then Ok(None) else Err(InvalidData);
        }
        var _ :- Fill();
      }
    }
  }

  /** Reading characters until the stream ends or fails: unless a read fails first, it
      yields exactly what the stream shows, and the end says whether it is UTF-8. For
      every cutting into chunks UTF-8 bytes give exactly their text, bytes that merely
      break off the whole of their valid part, and malformed ones a prefix of it. */
  method ReadChars(source: Source) returns (text: Text, r: Result<()>)
    requires source.Valid() && source.pos == 0
    ensures r.Ok? ==> EncodeAll(text) == source.data
    ensures text <= Decode(source.data).chars
    ensures Fail !in source.plan ==> if IsUtf8(source.data) then r.Ok? else r == Err(InvalidData)
    ensures Fail !in source.plan ==> text == OutlookOf(source).chars
    ensures Fail !in source.plan && !Decode(source.data).end.Malformed? ==> text == Decode(source.data).chars
  {
    hide TeeReader.Previews, Decode, IsUtf8, Encode, EncodeAll, CharStream.Ahead;
    DecodeSplits(source.data);
    CleanIffUtf8(source.data);
    OutlookMeans(source);
    assert source.Remaining() == source.data;
    ghost var whole := OutlookOf(source);
    assert EncodeAll(Decode(source.data).chars) + [] == EncodeAll(Decode(source.data).chars);
    var reader := new TeeReader(source, Absent);
    var stream := new CharStream(reader);
    hide TeeReader.Remaining, OutlookOf, CharStream.Valid;
    text := [];
    while true
      invariant stream.Valid() && reader.Valid() && stream.reader == reader
      invariant Fail !in source.plan ==> reader.Healthy()
      invariant text + stream.Ahead().chars == whole.chars
      invariant stream.Ahead().end == whole.end
      decreases |stream.Ahead().chars|
    {
      var next := stream.NextChar();
      match next
      case Err(e) =>
        assert text + [] == text;
        return text, Err(e);
      case Ok(None) =>
        assert text + [] == text;
        return text, Ok(());
      case Ok(Some(c)) => text := text + [c];
    }
  }
}
