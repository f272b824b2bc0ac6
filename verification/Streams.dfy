/** Byte readers: the bytes a `Read` still holds, how it chooses to hand them out,
    and the tee that copies the first bytes of standard input into a preview. */
module Streams {
  import opened Options
  import opened Utf8

  datatype ErrorKind = InvalidData | InvalidInput | Interrupted | Other
  datatype Result<+T> = Ok(value: T) | Err(kind: ErrorKind) {
    predicate IsFailure() { Err? }

    function PropagateFailure<U>(): Result<U>
      requires Err?
    {
      Err(kind)
    }

    function Extract(): T
      requires Ok?
    {
      value
    }
  }

  function Min(a: nat, b: nat): nat { if a <= b then a else b }

  // ------------------------------------------------------------------ sources

  /** What one `read` call does: hand out at most `n` bytes (but at least one
      while there are any), be interrupted, or fail. */
  datatype Event = Give(n: nat) | Interrupt | Fail

  /** A byte stream with a reading position. `plan` fixes how the coming calls behave;
      once it is used up every call hands out at most `chunk` bytes. A theorem over all
      sources is a theorem over all ways of cutting the bytes into chunks. */
  datatype Source = Source(data: seq<Byte>, pos: nat, plan: seq<Event>, chunk: nat) {
    ghost predicate Valid() { pos <= |data| && chunk >= 1 }

    function Remaining(): seq<Byte>
      requires Valid()
    {
      data[pos..]
    }

    function Chunk(room: nat): (n: nat)
      requires Valid()
      ensures n <= room && n <= |data| - pos
      ensures room > 0 && pos < |data| ==> n > 0
    {
      var wanted := if plan == [] || !plan[0].Give? then chunk else if plan[0].n == 0 then 1 else plan[0].n;
      Min(Min(room, |data| - pos), wanted)
    }

    function Skip(n: nat): Source {
      Source(data, pos + n, if plan == [] then [] else plan[1..], chunk)
    }

    /** The next call hands out bytes. */
    predicate Gives() { plan == [] || plan[0].Give? }

    /** After the interruptions that come first. */
    function Settled(): Source
      decreases |plan|
    {
      if plan != [] && plan[0].Interrupt? then Skip(0).Settled() else this
    }
  }

  // ---------------------------------------------------------------- the tee

  const INLINE_OUTPUT_PREVIEW_BYTES: nat := 64 * 1024
  const CHUNK: nat := 64 * 1024

  /** A preview file that accepts `room` bytes and then fails. */
  datatype Sink = Sink(written: seq<Byte>, room: Option<nat>) {
    predicate Fits(chunk: seq<Byte>) {
      room.None? || |written| + |chunk| <= room.value
    }

    /** `write_all`: a failing write may still leave a prefix behind. */
    function WriteAll(chunk: seq<Byte>): Sink {
      if Fits(chunk) then this.(written := written + chunk)
      else if |written| <= room.value then this.(written := written + chunk[..room.value - |written|])
      else this
    }
  }

  /** `preview: Option<W>`: absent from the start, open, or dropped after a write
      error (what was written stays written). */
  datatype Preview = Absent | Open(sink: Sink) | Dropped(sink: Sink)

  class TeeReader {
    var inner: Source
    var preview: Preview
    var captured: nat

    /** The preview shows what has flowed by up to `pos`, capped; a dropped preview
        shows a prefix of that. */
    ghost predicate Previews(pos: nat)
      requires pos <= |inner.data|
      reads this
    {
      var shown := inner.data[..Min(INLINE_OUTPUT_PREVIEW_BYTES, pos)];
      match preview
      case Absent => true
      case Open(sink) => sink.written == shown && captured == |shown|
      case Dropped(sink) => sink.written <= shown
    }

    ghost predicate Valid()
      reads this
    {
      inner.Valid() && Previews(inner.pos)
    }

    ghost function Remaining(): seq<Byte>
      requires Valid()
      reads this
    {
      inner.Remaining()
    }

    /** No read will fail. */
    ghost predicate Healthy()
      reads this
    {
      Fail !in inner.plan
    }

    /** The preview is open and will never fail. */
    ghost predicate Showing()
      reads this
    {
      preview.Open? && preview.sink.room.None?
    }

    /** What any amount of reading leaves as it was. */
    twostate predicate Advances()
      reads this
    {
      && Valid()
      && inner.data == old(inner.data)
      && (old(Healthy()) ==> Healthy())
      && (old(Showing()) ==> Showing())
    }

    constructor (inner: Source, preview: Preview)
      requires inner.Valid() && inner.pos == 0
      requires preview.Absent? || (preview.Open? && preview.sink.written == [])
      ensures Valid() && this.inner == inner && this.preview == preview
    {
      this.inner := inner;
      this.preview := preview;
      captured := 0;
    }

    /** Copy the chunk that has just been read into the preview, up to the cap. */
    method Tee(chunk: seq<Byte>)
      requires inner.Valid() && |chunk| <= inner.pos
      requires chunk == inner.data[inner.pos - |chunk|..inner.pos]
      requires Previews(inner.pos - |chunk|)
      modifies this`preview, this`captured
      ensures Valid()
      ensures old(Showing()) ==> Showing()
    {
      if preview.Open? && captured < INLINE_OUTPUT_PREVIEW_BYTES {
        var remaining := INLINE_OUTPUT_PREVIEW_BYTES - captured;
        var take := Min(remaining, |chunk|);
        ghost var shown := preview.sink.written;
        assert shown + chunk[..take] == inner.data[..captured + take];
        if preview.sink.Fits(chunk[..take]) {
          preview := Open(preview.sink.WriteAll(chunk[..take]));
          captured := captured + take;
        } else {
          preview := Dropped(preview.sink.WriteAll(chunk[..take]));
        }
      }
    }

    /** Every byte reaches the caller unchanged and in order, whatever happens to
        the preview; `Ok(0)` only at the end of the stream. */
    method Read(buf: array<Byte>) returns (r: Result<nat>)
      requires Valid() && buf.Length > 0
      modifies this, buf
      ensures Advances() && (old(Healthy()) ==> r != Err(Other))
      ensures r.Err? ==> r.kind in {Interrupted, Other} && Remaining() == old(Remaining())
      ensures old(inner.Gives()) <==> r.Ok?
      ensures r == Err(Interrupted) <==> old(inner.plan != [] && inner.plan[0].Interrupt?)
      ensures inner == old(inner).Skip(if r.Ok? then r.value else 0)
      ensures r.Ok? ==> r.value == old(inner).Chunk(buf.Length)
      ensures r.Ok? ==>
                && r.value <= buf.Length
                && r.value <= |old(Remaining())|
                && (r.value == 0 <==> old(Remaining()) == [])
                && buf[..r.value] == old(Remaining())[..r.value]
                && Remaining() == old(Remaining())[r.value..]
    {
      hide Source.Chunk, Source.Settled;
      if inner.plan != [] && !inner.plan[0].Give? {
        r := Err(if inner.plan[0].Interrupt? then Interrupted else Other);
        inner := inner.Skip(0);
        return;
      }
      ghost var before := inner;
      var n := inner.Chunk(buf.Length);
      var chunk := inner.Remaining()[..n];
      forall i | 0 <= i < n {
        buf[i] := chunk[i];
      }
      assert buf[..n] == chunk;
      inner := inner.Skip(n);
      assert chunk == inner.data[before.pos..inner.pos] && inner.Remaining() == before.Remaining()[n..];
      if n > 0 {
        Tee(buf[..n]);
      }
      r := Ok(n);
    }

    /** Read the rest and throw it away. Without a read error the whole stream has
        gone by, and an open preview shows exactly its first 64 KiB. */
    method DrainToEof() returns (r: Result<()>)
      requires Valid()
      modifies this
      ensures Advances() && (old(Healthy()) ==> r.Ok?)
      ensures r.Ok? ==> Remaining() == []
      ensures r.Ok? && preview.Open? ==>
                preview.sink.written == inner.data[..Min(INLINE_OUTPUT_PREVIEW_BYTES, |inner.data|)]
    {
      var scratch := new Byte[CHUNK];
      while true
        invariant Advances()
        decreases |Remaining()|, |inner.plan|
      {
        var n := Read(scratch);
        match n
        case Ok(k) =>
          if k == 0 {
            return Ok(());
          }
        case Err(e) =>
          if e != Interrupted {
            return Err(e);
          }
      }
    }
  }

  /** Read once, retrying after interruptions; `Ok(0)` means the end of the stream. */
  method ReadSome(reader: TeeReader, buf: array<Byte>) returns (r: Result<nat>)
    requires reader.Valid() && buf.Length > 0
    modifies reader, buf
    ensures reader.Advances() && (old(reader.Healthy()) ==> r.Ok?)
    ensures r.Err? ==> r.kind == Other && reader.Remaining() == old(reader.Remaining())
    ensures var settled := old(reader.inner).Settled();
            settled.Valid() && (r.Ok? ==> settled.Gives() && reader.inner == settled.Skip(settled.Chunk(buf.Length)))
    ensures r.Ok? ==>
              && r.value == old(reader.inner).Settled().Chunk(buf.Length)
              && r.value <= buf.Length
              && r.value <= |old(reader.Remaining())|
              && (r.value == 0 <==> old(reader.Remaining()) == [])
              && buf[..r.value] == old(reader.Remaining())[..r.value]
              && reader.Remaining() == old(reader.Remaining())[r.value..]
  {
    while true
      invariant reader.Advances()
      invariant reader.Remaining() == old(reader.Remaining())
      invariant reader.inner.Settled() == old(reader.inner).Settled()
      decreases |reader.inner.plan|
    {
      r := reader.Read(buf);
      if r != Err(Interrupted) {
        return;
      }
    }
  }
}
