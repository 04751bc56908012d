/** The incremental reader Mono.HttpListener/ChunkStream.cs and the printer
    Mono.HttpListener/ResponseStream.cs, against the byte-at-a-time reading of ChunkFormat. */
module ChunkStream {
  import opened Bytes
  import opened ChunkFormat

  const INT_MAX: nat := 0x7fff_ffff

  datatype State = NoState | InBody | BodyDone | InTrailer

  class Chunk {
    const bytes: seq<Byte>
    var offset: nat

    constructor (bytes: seq<Byte>)
      ensures this.bytes == bytes && offset == 0
    {
      this.bytes := bytes;
      offset := 0;
    }

    ghost predicate Valid()
      reads this
    {
      offset <= |bytes|
    }

    ghost function Left(): seq<Byte>
      reads this
      requires Valid()
    {
      bytes[offset..]
    }

    method Read(buffer: array<Byte>, at: nat, size: nat) returns (nread: nat)
      requires Valid() && at + size <= buffer.Length
      modifies this, buffer
      ensures Valid()
      ensures nread == if size > |old(Left())| then |old(Left())| else size
      ensures Left() == old(Left())[nread..]
      ensures buffer[..] == old(buffer[..at]) + old(Left())[..nread] + old(buffer[at + nread..])
    {
      nread := if size > |bytes| - offset then |bytes| - offset else size;
      for i := 0 to nread
        invariant offset == old(offset)
        invariant forall k :: 0 <= k < buffer.Length ==>
                    buffer[k] == if at <= k < at + i then bytes[offset + k - at] else old(buffer[k])
      {
        buffer[at + i] := bytes[offset + i];
      }
      offset := offset + nread;
    }
  }

  /** The objects in a list of chunks. */
  ghost function Chunks(cs: seq<object?>): set<object> {
    set c: object | c in cs
  }

  /** Chunks that own their offsets: no two entries of the list are the same chunk. */
  ghost predicate Apart(cs: seq<Chunk?>)
    reads Chunks(cs)
  {
    && (forall i, j :: 0 <= i < j < |cs| && cs[i] != null ==> cs[i] != cs[j])
    && (forall i :: 0 <= i < |cs| && cs[i] != null ==> cs[i].Valid())
  }

  /** The bytes that wait in a list of chunks; a spent chunk may be null. */
  ghost function Waiting(cs: seq<Chunk?>): seq<Byte>
    reads Chunks(cs)
    requires Apart(cs)
  {
    if cs == [] then []
    else
      Tail(cs);
      (if cs[0] == null then [] else cs[0].Left()) + Waiting(cs[1..])
  }

  lemma Tail(cs: seq<Chunk?>)
    requires cs != []
    ensures Chunks(cs[1..]) <= Chunks(cs)
    ensures Apart(cs) ==> Apart(cs[1..])
  {}

  /** One more byte fed from a window of the buffer. */
  lemma FeedNext(d: Decoder, buffer: seq<Byte>, offset: nat, size: nat)
    requires offset < size <= |buffer|
    ensures Feed(d, buffer[offset..size])
         == match Step(d, buffer[offset]) case None => None case Some(e) => Feed(e, buffer[offset + 1..size])
  {
    hide Step;
    var s := buffer[offset..size];
    assert s[0] == buffer[offset] && s[1..] == buffer[offset + 1..size];
  }

  lemma FeedNothing(d: Decoder, buffer: seq<Byte>, size: nat)
    requires size <= |buffer|
    ensures Feed(d, buffer[size..size]) == Some(d)
  {}

  class ChunkStream {
    var headers: seq<seq<Byte>>
    var chunkSize: int
    var chunkRead: nat
    var state: State
    var saved: seq<Byte>
    var sawCR: bool
    var gotit: bool
    var trailerState: nat
    var chunks: seq<Chunk?>
    ghost var handedOut: seq<Byte>

    ghost predicate Valid()
      reads this, Chunks(chunks)
    {
      && Apart(chunks) && this !in Chunks(chunks)
      && (state == NoState ==> |saved| <= 20)
      && (state != NoState ==> !gotit)
      && (state == InBody || state == InTrailer ==> !sawCR)
      && (state == InBody || state == BodyDone ==> saved == [])
      && (state == InBody ==>
            chunkSize != 0 && (chunkSize < 0 ==> chunkRead == 0) && (chunkSize > 0 ==> chunkRead < chunkSize))
      && (state == InTrailer ==> trailerState < 4 && (saved != [] ==> saved[0] == CR))
    }

    ghost function CurrentMode(): Mode
      reads this
    {
      match state
      case NoState => Size(saved, sawCR, gotit)
      case InBody => Body
      case BodyDone => BodyFinished(sawCR)
      case InTrailer => Trailer(trailerState, saved)
    }

    /** The whole payload so far, handed out or waiting. */
    ghost function Received(): seq<Byte>
      reads this`handedOut, this`chunks, Chunks(chunks)
      requires Apart(chunks)
    {
      handedOut + Waiting(chunks)
    }

    ghost function Now(): Decoder
      reads this, Chunks(chunks)
      requires Apart(chunks)
    {
      Decoder(CurrentMode(), chunkSize, chunkRead, Received())
    }

    constructor (headers: seq<seq<Byte>>)
      ensures Valid() && Now() == START && this.headers == headers && handedOut == [] && Chunks(chunks) == {}
    {
      this.headers := headers;
      chunkSize := -1;
      chunkRead := 0;
      state := NoState;
      saved := [];
      sawCR := false;
      gotit := false;
      trailerState := 0;
      chunks := [];
      handedOut := [];
    }

    /** The size line, as far as it goes; `ok` is false where the C# code throws. */
    method GetChunkSize(buffer: seq<Byte>, offset: nat, size: nat) returns (ok: bool, st: State, off: nat)
      requires Valid() && state == NoState && offset < size <= |buffer|
      modifies this`chunkSize, this`chunkRead, this`saved, this`sawCR, this`gotit, this`trailerState
      ensures chunkRead == 0
      ensures var goal := Feed(old(Now()), buffer[offset..size]);
              if !ok then goal == None || Settle(goal.value) == None
              else if st == NoState then
                && off == size && |saved| <= 20 && goal.Some?
                && Settle(goal.value) == Some(Decoder(Size(saved, sawCR, gotit), chunkSize, 0, Received()))
              else
                && offset < off <= size
                && (if chunkSize == 0 then st == InTrailer && trailerState == 2 else st == InBody)
                && goal == Feed(Decoder(if st == InBody then Body else Trailer(2, []), chunkSize, 0, Received()),
                                buffer[off..size])
    {
      hide SizeOf, Settle, Feed, Waiting, Apart;
      ghost var rec, d := Received(), Now();
      ghost var goal := Feed(d, buffer[offset..size]);
      chunkRead := 0;
      chunkSize := 0;
      var c: Byte := 0;
      off := offset;
      while off < size
        invariant offset <= off <= size
        invariant chunkRead == 0 && chunkSize == 0 && |saved| <= 20 && Received() == rec
        invariant d.mode == Size(saved, sawCR, gotit) && d.received == rec
        invariant off > offset ==> d.chunkSize == 0 && d.chunkRead == 0
        invariant goal == Feed(d, buffer[off..size])
        invariant !(sawCR && c == LF)
      {
        FeedNext(d, buffer, off, size);
        c := buffer[off];
        off := off + 1;
        if c == CR {
          if sawCR {
            return false, NoState, off;
          }
          sawCR := true;
          d := Decoder(Size(saved, true, gotit), 0, 0, rec);
          continue;
        }
        if sawCR && c == LF {
          break;
        }
        if c == SPACE {
          gotit := true;
        }
        if !gotit {
          saved := saved + [c];
        }
        if |saved| > 20 {
          return false, NoState, off;
        }
        d := Decoder(Size(saved, sawCR, gotit), 0, 0, rec);
      }
      if !sawCR || c != LF {
        if off < size {
          return false, NoState, off;
        }
        assert d == Decoder(Size(saved, sawCR, gotit), 0, 0, rec);
        FeedNothing(d, buffer, size);
        SettleSize(d);
        if |saved| > 0 {
          match SizeOf(saved) {
            case None => return false, NoState, off;
            case Some(v) => chunkSize := v;
          }
        }
        return true, NoState, off;
      }
      chunkRead := 0;
      match SizeOf(saved) {
        case None => return false, NoState, off;
        case Some(v) => chunkSize := v;
      }
      assert Step(d, LF) == Some(Decoder(if chunkSize == 0 then Trailer(2, []) else Body, chunkSize, 0, rec));
      if chunkSize == 0 {
        trailerState := 2;
        return true, InTrailer, off;
      }
      return true, InBody, off;
    }

    /** The bytes of the chunk that are there. (`chunkSize` is not 0 here.) */
    method ReadBody(buffer: seq<Byte>, offset: nat, size: nat) returns (ok: bool, st: State, off: nat)
      requires Valid() && state == InBody && offset < size <= |buffer|
      requires chunkRead + size - offset <= INT_MAX
      modifies this`chunks, this`chunkRead
      ensures Apart(chunks) && this !in Chunks(chunks) && fresh(Chunks(chunks) - old(Chunks(chunks)))
      ensures ok <==> chunkSize > 0
      ensures ok ==> offset < off <= size
      ensures ok ==> if chunkRead == chunkSize then st == BodyDone
                     else st == InBody && chunkRead < chunkSize && off == size
      ensures var goal := Feed(old(Now()), buffer[offset..size]);
              if !ok then goal == None
              else goal == Feed(Decoder(if st == BodyDone then BodyFinished(false) else Body, chunkSize, chunkRead,
                                        Received()), buffer[off..size])
    {
      hide Feed, Step, Waiting, Apart;
      var diff: int := size - offset;
      if diff + chunkRead > chunkSize {
        diff := chunkSize - chunkRead;
      }
      if diff < 0 {
        NegativeSize(Now(), buffer[offset..size]);
        return false, InBody, offset;
      }
      var data := buffer[offset..offset + diff];
      ReadData(Now(), data);
      hide Now, Received;
      FeedTwice(Now(), data, buffer[offset + diff..size]);
      assert buffer[offset..size] == data + buffer[offset + diff..size];
      var chunk := new Chunk(data);
      AddChunk(chunks, chunk);
      Cat3(handedOut, Waiting(chunks), data);
      chunks := chunks + [chunk];
      off := offset + diff;
      chunkRead := chunkRead + diff;
      return true, if chunkRead == chunkSize then BodyDone else InBody, off;
    }

    method ReadCRLF(buffer: seq<Byte>, offset: nat, size: nat) returns (ok: bool, st: State, off: nat)
      requires Valid() && state == BodyDone && offset < size <= |buffer|
      modifies this`sawCR
      ensures ok ==> offset < off <= size
      ensures ok && st == BodyDone ==> off == size && sawCR
      ensures var goal := Feed(old(Now()), buffer[offset..size]);
              if !ok then goal == None
              else
                && (st == BodyDone || st == NoState)
                && goal == Feed(Decoder(if st == BodyDone then BodyFinished(true) else BETWEEN, chunkSize, chunkRead,
                                        Received()), buffer[off..size])
    {
      hide Feed;
      ghost var d, seen := Now(), Decoder(BodyFinished(true), chunkSize, chunkRead, Received());
      off := offset;
      FeedNext(d, buffer, off, size);
      if !sawCR {
        off := off + 1;
        if buffer[off - 1] != CR {
          assert Step(d, buffer[offset]) == None;
          return false, BodyDone, off;
        }
        sawCR := true;
        assert Step(d, buffer[offset]) == Some(seen);
        if off == size {
          return true, BodyDone, off;
        }
        FeedNext(seen, buffer, off, size);
      }
      assert Step(seen, LF) == Some(Decoder(BETWEEN, chunkSize, chunkRead, Received()));
      off := off + 1;
      if sawCR && buffer[off - 1] != LF {
        return false, BodyDone, off;
      }
      return true, NoState, off;
    }

    /** The trailer. Its field lines are skipped: none of them reaches `headers`. */
    method ReadTrailer(buffer: seq<Byte>, offset: nat, size: nat) returns (ok: bool, st: State, off: nat)
      requires Valid() && state == InTrailer && offset < size <= |buffer|
      modifies this`saved, this`trailerState, this`headers
      ensures headers == old(headers)
      ensures ok ==> offset < off <= size
      ensures ok && st == InTrailer ==> off == size && trailerState < 4 && (saved != [] ==> saved[0] == CR)
      ensures var goal := Feed(old(Now()), buffer[offset..size]);
              if !ok then goal == None
              else
                && (st == InTrailer || st == NoState)
                && goal == Feed(Decoder(if st == InTrailer then Trailer(trailerState, saved) else BETWEEN, chunkSize,
                                        chunkRead, Received()), buffer[off..size])
    {
      hide Feed, BrokenLineEnd, Waiting, Apart, HeaderLines;
      ghost var rec, d := Received(), Now();
      ghost var goal := Feed(d, buffer[offset..size]);
      off := offset;
      if trailerState == 2 && buffer[off] == CR && saved == [] {
        off := off + 1;
        if off < size && buffer[off] == LF {
          FeedNext(d, buffer, offset, size);
          FeedNext(Decoder(Trailer(3, []), chunkSize, chunkRead, rec), buffer, off, size);
          off := off + 1;
          return true, NoState, off;
        }
        off := off - 1;
      }
      var s := trailerState;
      while off < size && s < 4
        invariant offset <= off <= size && s <= 4 && (s == 4 ==> off > offset)
        invariant Received() == rec && headers == old(headers)
        invariant saved != [] ==> saved[0] == CR
        invariant d == Decoder(if s < 4 then Trailer(s, saved) else BETWEEN, chunkSize, chunkRead, rec)
        invariant goal == Feed(d, buffer[off..size])
      {
        FeedNext(d, buffer, off, size);
        var c := buffer[off];
        off := off + 1;
        if (s == 0 || s == 2) && c == CR {
          s := s + 1;
          d := Decoder(Trailer(s, saved), chunkSize, chunkRead, rec);
          continue;
        }
        if (s == 1 || s == 3) && c == LF {
          s := s + 1;
          d := Decoder(if s < 4 then Trailer(s, saved) else BETWEEN, chunkSize, chunkRead, rec);
          continue;
        }
        if s > 0 {
          LineEndStartsWithCR(s, saved == []);
          match BrokenLineEnd(s, saved == []) {
            case None => return false, InTrailer, off;
            case Some(tail) => saved := saved + tail;
          }
          s := 0;
          if |saved| > 4196 {
            return false, InTrailer, off;
          }
        }
        d := Decoder(Trailer(0, saved), chunkSize, chunkRead, rec);
      }
      if s < 4 {
        trailerState := s;
        if off < size {
          return false, InTrailer, off;
        }
        return true, InTrailer, off;
      }
      NoHeaderLines(saved);
      headers := headers + HeaderLines(saved);
      return true, NoState, off;
    }

    /** The stages of InternalWrite up to the end of the body; `done` where the C# code returns. */
    method ReadSizeAndBody(buffer: seq<Byte>, offset: nat, size: nat) returns (ok: bool, done: bool, off: nat)
      requires Valid() && offset < size <= |buffer| && size <= INT_MAX
      requires state == InBody ==> chunkRead + size - offset <= INT_MAX
      modifies this`state, this`chunkSize, this`chunkRead, this`saved, this`sawCR, this`gotit, this`trailerState,
               this`chunks
      ensures fresh(Chunks(chunks) - old(Chunks(chunks)))
      ensures var goal := Feed(old(Now()), buffer[offset..size]);
              if !ok then goal == None || Settle(goal.value) == None
              else
                && Valid()
                && if done then goal.Some? && Settle(goal.value) == Some(Now())
                   else offset <= off <= size && Feed(Now(), buffer[off..size]) == goal
                        && state != NoState && (state == InBody ==> off == size)
                        && (off == offset ==> old(state) == state)
    {
      hide Feed, Step, Waiting, Apart, SizeOf;
      done := false;
      off := offset;
      var st := state;
      if state == NoState {
        ok, st, off := GetChunkSize(buffer, off, size);
        if !ok {
          return;
        }
        state := st;
        if state == NoState {
          done := true;
          return;
        }
        saved := [];
        sawCR := false;
        gotit := false;
      }
      ok := true;
      if state == InBody && off < size {
        ok, st, off := ReadBody(buffer, off, size);
        if !ok {
          return;
        }
        state := st;
        if state == InBody {
          FeedNothing(Now(), buffer, size);
          done := true;
        }
      }
    }

    /** The stages of InternalWrite after the body. */
    method ReadLineEndAndTrailer(buffer: seq<Byte>, offset: nat, size: nat) returns (ok: bool, done: bool, off: nat)
      requires Valid() && offset <= size <= |buffer| && state != NoState && (state == InBody ==> offset == size)
      modifies this`state, this`saved, this`sawCR, this`gotit, this`trailerState, this`headers
      ensures headers == old(headers)
      ensures var goal := Feed(old(Now()), buffer[offset..size]);
              if !ok then goal == None
              else
                && Valid()
                && if done then goal.Some? && Settle(goal.value) == Some(Now())
                   else offset <= off <= size && Feed(Now(), buffer[off..size]) == goal
                        && (state == NoState || off == size) && (state == NoState ==> saved == [] && off > offset)
    {
      hide Feed, Step, Waiting, Apart, SizeOf;
      ok := true;
      done := false;
      off := offset;
      var st := state;
      if state == BodyDone && off < size {
        ok, st, off := ReadCRLF(buffer, off, size);
        if !ok {
          return;
        }
        state := st;
        if state == BodyDone {
          FeedNothing(Now(), buffer, size);
          done := true;
          return;
        }
        sawCR := false;
      }
      if state == InTrailer && off < size {
        ok, st, off := ReadTrailer(buffer, off, size);
        if !ok {
          return;
        }
        state := st;
        if state == InTrailer {
          FeedNothing(Now(), buffer, size);
          done := true;
          return;
        }
        saved := [];
        sawCR := false;
        gotit := false;
      }
    }

    /** All bytes from `offset` on. The recursion ends because every turn reads at least one byte. */
    method InternalWrite(buffer: seq<Byte>, offset: nat, size: nat) returns (ok: bool)
      requires Valid() && offset < size <= |buffer| && size <= INT_MAX
      requires state == InBody ==> chunkRead + size - offset <= INT_MAX
      modifies this
      ensures handedOut == old(handedOut) && headers == old(headers)
      ensures fresh(Chunks(chunks) - old(Chunks(chunks)))
      ensures var goal := Feed(old(Now()), buffer[offset..size]);
              && (ok <==> goal.Some? && Settle(goal.value).Some?)
              && (ok ==> Valid() && Some(Now()) == Settle(goal.value))
      decreases size - offset
    {
      hide Feed, Step, Waiting, Apart, SizeOf;
      var done, off;
      ok, done, off := ReadSizeAndBody(buffer, offset, size);
      if !ok || done {
        return;
      }
      ok, done, off := ReadLineEndAndTrailer(buffer, off, size);
      if !ok || done {
        return;
      }
      if off < size {
        ok := InternalWrite(buffer, off, size);
      } else {
        FeedNothing(Now(), buffer, size);
      }
    }

    /** Write, whose third argument is the end of the bytes and not their number. */
    method Write(buffer: seq<Byte>, offset: nat, size: nat) returns (ok: bool)
      requires Valid() && offset <= |buffer| && size <= |buffer| && size <= INT_MAX
      requires state == InBody ==> chunkRead + size - offset <= INT_MAX
      modifies this
      ensures handedOut == old(handedOut) && headers == old(headers)
      ensures fresh(Chunks(chunks) - old(Chunks(chunks)))
      ensures var result := ChunkFormat.Write(old(Now()), if offset < size then buffer[offset..size] else []);
              && (ok <==> result.Some?)
              && (ok ==> Valid() && Now() == result.value)
    {
      ok := true;
      if offset < size {
        ok := InternalWrite(buffer, offset, size);
      }
    }

    /** The oldest waiting bytes, as many as there is room for. Spent chunks are dropped when a later
        read comes across them. */
    method ReadFromChunks(buffer: array<Byte>, offset: nat, size: nat) returns (nread: nat)
      requires Valid() && offset + size <= buffer.Length
      modifies this`chunks, Chunks(chunks), buffer
      ensures Apart(chunks) && Chunks(chunks) <= old(Chunks(chunks))
      ensures var waiting := old(Waiting(chunks));
              && nread == (if size < |waiting| then size else |waiting|)
              && Waiting(chunks) == waiting[nread..]
              && buffer[..] == old(buffer[..])[..offset] + waiting[..nread] + old(buffer[..])[offset + nread..]
    {
      hide Waiting, Apart, ReadUpTo, Filled;
      ghost var w, was := Waiting(chunks), buffer[..];
      nread := 0;
      var count := |chunks|;
      ghost var at := 0;
      NothingRead(chunks);
      NothingFilled(was, offset, w);
      for i := 0 to count
        invariant nread <= size && nread <= |w| && at == i
        invariant |chunks| == count && Chunks(chunks) <= old(Chunks(chunks)) && Apart(chunks)
        invariant ReadUpTo(chunks, i, w[nread..])
        invariant Filled(buffer[..], was, offset, w, nread)
      {
        at := i + 1;
        if chunks[i] == null {
          SkipEntry(chunks, i, w[nread..]);
          continue;
        }
        if Spent(chunks, i) {
          SkipEntry(chunks, i, w[nread..]);
          chunks := chunks[i := null];
          continue;
        }
        ghost var before := buffer[..];
        var n := ReadEntry(chunks, i, buffer, offset + nread, size - nread, w[nread..]);
        FilledMore(before, was, offset, w, nread, n);
        nread := nread + n;
        if nread == size {
          at := i;
          break;
        }
      }
      ReadSoFar(chunks, at, w[nread..]);
      FilledIs(buffer[..], was, offset, w, nread);
    }

    method Read(buffer: array<Byte>, offset: nat, size: nat) returns (nread: nat)
      requires Valid() && offset + size <= buffer.Length
      modifies this`chunks, this`handedOut, Chunks(chunks), buffer
      ensures Valid() && Now() == old(Now()) && Chunks(chunks) <= old(Chunks(chunks))
      ensures var waiting := old(Waiting(chunks));
              && nread == (if size < |waiting| then size else |waiting|)
              && Waiting(chunks) == waiting[nread..] && handedOut == old(handedOut) + waiting[..nread]
              && buffer[..] == old(buffer[..])[..offset] + waiting[..nread] + old(buffer[..])[offset + nread..]
    {
      hide Waiting, Apart;
      ghost var w := Waiting(chunks);
      nread := ReadFromChunks(buffer, offset, size);
      assert w == w[..nread] + w[nread..];
      Cat3(handedOut, w[..nread], w[nread..]);
      handedOut := handedOut + w[..nread];
    }

    method DataAvailable() returns (available: bool)
      requires Valid()
      ensures available <==> Waiting(chunks) != [] && state != InBody
    {
      hide Waiting, Apart, ReadUpTo;
      NothingRead(chunks);
      for i := 0 to |chunks|
        invariant ReadUpTo(chunks, i, Waiting(chunks))
      {
        if chunks[i] == null || Spent(chunks, i) {
          SkipEntry(chunks, i, Waiting(chunks));
          SpentIsNull(chunks, i, Waiting(chunks));
        } else {
          LeftWaits(chunks, i);
          return state != InBody;
        }
      }
      ReadSoFar(chunks, |chunks|, Waiting(chunks));
      return false;
    }

    method WantMore() returns (more: bool)
      requires Valid()
      ensures more == Now().WantMore()
    {
      more := chunkRead != chunkSize || chunkSize != 0 || state != NoState;
    }
  }

  ghost function Printed(chunked: bool, writes: seq<seq<Byte>>): seq<Byte> {
    if chunked then PrintChunks(writes) else Payload(writes)
  }

  /** Mono.HttpListener/ResponseStream.cs: headers once, then one chunk a write, then the last chunk.
      What SendHeaders makes of the headers is given; so is whether it settles for chunks. */
  class ResponseStream {
    const header: seq<Byte>
    const chunked: bool
    var headersSent: bool
    var disposed: bool
    var trailerSent: bool
    var stream: seq<Byte>
    ghost var writes: seq<seq<Byte>>

    ghost predicate Valid()
      reads this
    {
      && (!headersSent ==> writes == [] && stream == [])
      && (headersSent && !disposed ==> stream == header + Printed(chunked, writes))
      && (disposed ==> stream == header + if chunked then PrintAll(writes) else Payload(writes))
      && (disposed ==> headersSent) && (trailerSent ==> disposed)
    }

    constructor (header: seq<Byte>, chunked: bool)
      ensures Valid() && !headersSent && !disposed && this.header == header && this.chunked == chunked
    {
      this.header := header;
      this.chunked := chunked;
      headersSent := false;
      disposed := false;
      trailerSent := false;
      stream := [];
      writes := [];
    }

    /** The headers and as much of the first write as fits go out in one piece of 16384 bytes; headers longer
        than that make the C# code throw. */
    method Send(data: seq<Byte>, size: seq<Byte>) returns (ok: bool)
      requires !chunked ==> size == []
      modifies this`headersSent, this`stream
      ensures ok <==> old(headersSent) || |header| + |size| <= 16384
      ensures headersSent && (!ok ==> stream == old(stream))
      ensures ok ==> stream == (if old(headersSent) then old(stream) else old(stream) + header)
                            + (size + data + if chunked then CRLF else [])
    {
      ghost var head := if headersSent then stream else stream + header;
      var done := 0;
      if !headersSent {
        headersSent := true;
        var ms := header;
        if chunked {
          ms := ms + size;
        }
        var newCount: int := if |data| < 16384 - |ms| then |data| else 16384 - |ms|;
        if newCount < 0 {
          return false;
        }
        done := newCount;
        InOnePiece(stream, header, size, data[..done]);
        stream := stream + (ms + data[..done]);
      } else if chunked {
        stream := stream + size;
      }
      assert stream == head + (size + data[..done]);
      Assembled(head, size, data, done, if chunked then CRLF else []);
      if |data| - done > 0 {
        stream := stream + data[done..];
      }
      if chunked {
        stream := stream + CRLF;
      }
      ok := true;
    }

    method Write(buffer: seq<Byte>, offset: nat, count: nat) returns (ok: bool)
      requires Valid() && offset + count <= |buffer| && count <= INT_MAX
      modifies this
      ensures ok <==>
                && !old(disposed)
                && (old(headersSent) || |header| + (if chunked then |ChunkSizeBytes(count, false)| else 0) <= 16384)
      ensures !ok ==> stream == old(stream)
      ensures ok ==> Valid() && headersSent && !disposed && writes == old(writes) + [buffer[offset..offset + count]]
    {
      hide Printed, PrintAll, Payload, ChunkSizeBytes;
      if disposed {
        return false;
      }
      var data := buffer[offset..offset + count];
      ok := Send(data, if chunked then ChunkSizeBytes(count, false) else []);
      if ok {
        PrintedMore(header, chunked, writes, data);
        writes := writes + [data];
      }
    }

    /** The headers if nothing else has sent them, then the last chunk. */
    method Close()
      requires Valid()
      modifies this
      ensures Valid() && disposed && headersSent && writes == old(writes)
      ensures stream == if old(disposed) then old(stream)
                        else header + if chunked then PrintAll(writes) else Payload(writes)
    {
      hide PrintChunks, ChunkSizeBytes, Payload;
      if !disposed {
        disposed := true;
        NothingPrinted();
        if !headersSent {
          headersSent := true;
          var ms := header;
          if chunked && !trailerSent {
            ms := ms + ChunkSizeBytes(0, true);
          }
          stream := stream + ms;
          trailerSent := true;
        } else if chunked && !trailerSent {
          Cat3(header, PrintChunks(writes), ChunkSizeBytes(0, true));
          stream := stream + ChunkSizeBytes(0, true);
          trailerSent := true;
        }
      }
    }
  }

  lemma InOnePiece(stream: seq<Byte>, header: seq<Byte>, size: seq<Byte>, data: seq<Byte>)
    ensures stream + ((header + size) + data) == stream + header + (size + data)
    ensures size == [] ==> header + size == header
  {}

  lemma Assembled(head: seq<Byte>, size: seq<Byte>, data: seq<Byte>, n: nat, tail: seq<Byte>)
    requires n <= |data|
    ensures head + (size + data[..n]) + data[n..] + tail == head + (size + data + tail)
    ensures data[n..] == [] ==> head + (size + data[..n]) + data[n..] == head + (size + data[..n])
    ensures head + (size + data[..n]) + data[n..] + [] == head + (size + data[..n]) + data[n..]
  {}

  lemma PrintedMore(header: seq<Byte>, chunked: bool, writes: seq<seq<Byte>>, data: seq<Byte>)
    ensures var size := if chunked then ChunkSizeBytes(|data|, false) else [];
            header + Printed(chunked, writes) + (size + data + if chunked then CRLF else [])
            == header + Printed(chunked, writes + [data])
    ensures header + Printed(chunked, []) == header && [] + header == header
  {
    hide ChunkSizeBytes, PrintChunks, Payload;
    NothingPrinted();
    PrintOneMore(writes, data);
    var size := if chunked then ChunkSizeBytes(|data|, false) else [];
    var piece := size + data + if chunked then CRLF else [];
    assert chunked ==> piece == PrintChunk(data);
    assert !chunked ==> piece == data;
    Cat3(header, Printed(chunked, writes), piece);
  }

  lemma NothingPrinted()
    ensures PrintChunks([]) == [] && Payload([]) == []
  {}

  lemma {:induction false} PrintOneMore(writes: seq<seq<Byte>>, data: seq<Byte>)
    ensures PrintChunks(writes + [data]) == PrintChunks(writes) + PrintChunk(data)
    ensures Payload(writes + [data]) == Payload(writes) + data
  {
    hide PrintChunk;
    if writes == [] {
      assert [data][1..] == [];
      assert [] + [data] == [data];
      assert PrintChunk(data) + [] == PrintChunk(data) && data + [] == data;
    } else {
      PrintOneMore(writes[1..], data);
      assert (writes + [data])[1..] == writes[1..] + [data];
      Cat3(PrintChunk(writes[0]), PrintChunks(writes[1..]), PrintChunk(data));
      Cat3(writes[0], Payload(writes[1..]), data);
    }
  }

  /** Nothing waits before entry i, and `w` from it on. */
  ghost predicate ReadUpTo(cs: seq<Chunk?>, i: nat, w: seq<Byte>)
    reads Chunks(cs)
    requires i <= |cs| && Apart(cs)
  {
    WaitingParts(cs, i);
    Waiting(cs[..i]) == [] && Waiting(cs[i..]) == w
  }

  ghost predicate Filled(buffer: seq<Byte>, was: seq<Byte>, offset: nat, w: seq<Byte>, nread: nat) {
    offset + nread <= |was| && nread <= |w| && buffer == was[..offset] + w[..nread] + was[offset + nread..]
  }

  lemma NothingFilled(was: seq<Byte>, offset: nat, w: seq<Byte>)
    requires offset <= |was|
    ensures Filled(was, was, offset, w, 0)
  {}

  lemma FilledIs(buffer: seq<Byte>, was: seq<Byte>, offset: nat, w: seq<Byte>, nread: nat)
    requires Filled(buffer, was, offset, w, nread)
    ensures offset + nread <= |was| && nread <= |w| && buffer == was[..offset] + w[..nread] + was[offset + nread..]
  {}

  lemma FilledMore(buffer: seq<Byte>, was: seq<Byte>, offset: nat, w: seq<Byte>, nread: nat, n: nat)
    requires Filled(buffer, was, offset, w, nread) && nread + n <= |w| && offset + nread + n <= |was|
    ensures |buffer| == |was| && w[nread..][n..] == w[nread + n..]
    ensures Filled(buffer[..offset + nread] + w[nread..][..n] + buffer[offset + nread + n..], was, offset, w, nread + n)
  {}

  predicate Spent(cs: seq<Chunk?>, i: nat)
    requires i < |cs| && cs[i] != null
    reads cs[i]
  {
    cs[i].offset == |cs[i].bytes|
  }

  lemma NothingRead(cs: seq<Chunk?>)
    requires Apart(cs)
    ensures ReadUpTo(cs, 0, Waiting(cs))
  {
    WaitingParts(cs, 0);
    assert cs[..0] == [] && cs[0..] == cs;
  }

  lemma SkipEntry(cs: seq<Chunk?>, i: nat, w: seq<Byte>)
    requires Apart(cs) && i < |cs| && ReadUpTo(cs, i, w) && (cs[i] == null || Spent(cs, i))
    ensures var ds := cs[i := null]; Apart(ds) && Chunks(ds) <= Chunks(cs) && ReadUpTo(ds, i + 1, w)
    ensures cs[i] == null ==> ReadUpTo(cs, i + 1, w)
  {
    var ds := cs[i := null];
    OneEntry(cs, i);
    OneEntry(ds, i);
    assert ds[i + 1..] == cs[i + 1..] && ds[..i] == cs[..i];
    if cs[i] == null {
      assert ds == cs;
    }
  }

  lemma ReadSoFar(cs: seq<Chunk?>, i: nat, w: seq<Byte>)
    requires Apart(cs) && i <= |cs| && ReadUpTo(cs, i, w)
    ensures Waiting(cs) == w
    ensures i == |cs| ==> w == []
  {
    WaitingParts(cs, i);
    assert i == |cs| ==> cs[i..] == [];
  }

  lemma SpentIsNull(cs: seq<Chunk?>, i: nat, w: seq<Byte>)
    requires Apart(cs) && i < |cs| && ReadUpTo(cs, i, w) && (cs[i] == null || Spent(cs, i))
    ensures ReadUpTo(cs, i + 1, w)
  {
    OneEntry(cs, i);
  }

  lemma LeftWaits(cs: seq<Chunk?>, i: nat)
    requires Apart(cs) && i < |cs| && cs[i] != null && !Spent(cs, i)
    ensures Waiting(cs) != []
  {
    WaitingParts(cs, i);
    OneEntry(cs, i);
  }

  method ReadEntry(cs: seq<Chunk?>, i: nat, buffer: array<Byte>, at: nat, size: nat, ghost w: seq<Byte>)
    returns (nread: nat)
    requires Apart(cs) && i < |cs| && cs[i] != null && at + size <= buffer.Length
    requires ReadUpTo(cs, i, w)
    modifies cs[i], buffer
    ensures Apart(cs)
    ensures nread <= size && nread <= |w|
    ensures ReadUpTo(cs, if nread < size then i + 1 else i, w[nread..])
    ensures buffer[..] == old(buffer[..])[..at] + w[..nread] + old(buffer[..])[at + nread..]
  {
    hide Waiting;
    OneEntry(cs, i);
    ghost var left, rest := cs[i].Left(), Waiting(cs[i + 1..]);
    assert cs[i] !in Chunks(cs[i + 1..]) && cs[i] !in Chunks(cs[..i]);
    nread := cs[i].Read(buffer, at, size);
    OneEntry(cs, i);
    assert (left + rest)[nread..] == left[nread..] + rest && (left + rest)[..nread] == left[..nread];
  }

  lemma OneEntry(cs: seq<Chunk?>, i: nat)
    requires Apart(cs) && i < |cs|
    ensures Apart(cs[..i]) && Apart(cs[..i + 1]) && Apart(cs[i..]) && Apart(cs[i + 1..])
    ensures var left := if cs[i] == null then [] else cs[i].Left();
            Waiting(cs[..i + 1]) == Waiting(cs[..i]) + left && Waiting(cs[i..]) == left + Waiting(cs[i + 1..])
  {
    WaitingParts(cs[..i + 1], i);
    assert cs[..i + 1][..i] == cs[..i] && cs[..i + 1][i..] == [cs[i]];
    assert [cs[i]][1..] == [];
    Tail(cs[i..]);
    assert cs[i..][1..] == cs[i + 1..];
  }

  /** The bytes that wait in a list are those that wait before and after any place in it. */
  lemma {:induction false} WaitingParts(cs: seq<Chunk?>, i: nat)
    requires Apart(cs) && i <= |cs|
    ensures Apart(cs[..i]) && Apart(cs[i..]) && Waiting(cs) == Waiting(cs[..i]) + Waiting(cs[i..])
    decreases i
  {
    if i == 0 {
      assert cs[..0] == [] && cs[0..] == cs;
    } else {
      Tail(cs);
      WaitingParts(cs[1..], i - 1);
      assert cs[1..][..i - 1] == cs[..i][1..] && cs[1..][i - 1..] == cs[i..];
      Cat3(if cs[0] == null then [] else cs[0].Left(), Waiting(cs[..i][1..]), Waiting(cs[i..]));
    }
  }

  lemma LineEndStartsWithCR(st: nat, empty: bool)
    requires st < 4
    ensures BrokenLineEnd(st, empty).Some? && BrokenLineEnd(st, empty).value != [] ==>
            BrokenLineEnd(st, empty).value[0] == CR
  {}

  function LineLength(s: seq<Byte>): (n: nat)
    ensures n <= |s|
  {
    if s == [] || s[0] == CR || s[0] == LF then 0 else 1 + LineLength(s[1..])
  }

  /** What the StringReader loop adds: the lines before the first empty one. */
  function HeaderLines(s: seq<Byte>): seq<seq<Byte>>
    decreases |s|
  {
    var n := LineLength(s);
    if n == 0 then []
    else if n == |s| then [s]
    else [s[..n]] + HeaderLines(if s[n] == CR && n + 1 < |s| && s[n + 1] == LF then s[n + 2..] else s[n + 1..])
  }

  lemma NoHeaderLines(saved: seq<Byte>)
    requires saved != [] ==> saved[0] == CR
    ensures HeaderLines(saved) == []
  {}

  lemma SettleSize(d: Decoder)
    requires d.mode.Size?
    ensures Settle(d) == if d.mode.saved == [] then Some(d) else
              match SizeOf(d.mode.saved) case None => None case Some(v) => Some(d.(chunkSize := v))
  {
    hide SizeOf;
  }

  /** A size of 0x80000000 and more is negative: the first byte of the body makes the C# code throw. */
  lemma NegativeSize(d: Decoder, s: seq<Byte>)
    requires d.mode == Body && d.chunkSize < 0 && s != []
    ensures Feed(d, s) == None
  {}

  lemma {:induction false} AddChunk(cs: seq<Chunk?>, chunk: Chunk)
    requires Apart(cs) && chunk !in cs && chunk.Valid()
    ensures Apart(cs + [chunk]) && Waiting(cs + [chunk]) == Waiting(cs) + chunk.Left()
    ensures Chunks(cs + [chunk]) == Chunks(cs) + {chunk}
  {
    if cs != [] {
      Tail(cs);
      AddChunk(cs[1..], chunk);
      assert (cs + [chunk])[1..] == cs[1..] + [chunk];
      Cat3(if cs[0] == null then [] else cs[0].Left(), Waiting(cs[1..]), chunk.Left());
    } else {
      assert [chunk][1..] == [];
    }
  }
}
