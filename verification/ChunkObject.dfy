/** The chunk context as the source keeps it, updated in place by encoding and
    reading chunks, and the senders that cut a message. */
module ChunkObject {
  import opened Bytes
  import opened Codec
  import opened ChunkModel
  import opened ChunkTransfer

  class ChunkContext {
    var status: ChunkStatus
    var seqNum: nat
    var messageSize: nat
    const data: array<byte>
    var transferred: nat

    constructor (capacity: nat)
      ensures fresh(data) && data.Length == capacity
      ensures status == Idle && seqNum == messageSize == transferred == 0
    {
      status := Idle;
      seqNum := 0;
      messageSize := 0;
      data := new byte[capacity](_ => 0);
      transferred := 0;
    }

    function Value(): Context
      reads this, data
    {
      Context(status, seqNum, messageSize, data[..], transferred)
    }

    /** Appends the fields, then as many octets of the message as the chunk says. The
        caller's buffer has room for the whole frame if it has room for its fields;
        otherwise as much of the fields is written as fits. */
    method EncodeChunk(c: Chunk, large: bool, w: Writer) returns (ok: bool)
      requires w.Valid() && w.buf != data && transferred + c.size <= data.Length
      requires var room := w.buf.Length - w.base - w.offs;
               room < 10 + |SizeField(c.messageSize)| || room >= 10 + |SizeField(c.messageSize)| + c.size
      modifies this, w, w.buf
      ensures w.Valid()
      ensures ok <==> old(w.base + w.offs) + 10 + |SizeField(c.messageSize)| <= w.buf.Length
      ensures
        w.Written() == old(w.Written()) +
                       if ok then Wire(c, large, old(data[transferred..transferred + c.size]))
                       else (Head(c, large) + SizeField(c.messageSize))[..FieldRoom(large, w.buf.Length - old(w.base + w.offs))]
      ensures Value() == old(Value()).(transferred := old(transferred) + if ok then c.size else 0)
    {
      hide LE, Splice, Head, FieldRoom;
      ok := EncodeFields(c, large, w);
      if !ok {
        return;
      }
      var piece := data[transferred..transferred + c.size];
      var _ := w.ExtendFromSlice(piece);
      transferred := transferred + c.size;
    }

    /** How much of the fields gets written where there is room for less: single octets
        as far as they go, and each 16-bit field whole. */
    static function FieldRoom(large: bool, room: nat): (n: nat)
      ensures n <= room
    {
      if !large && 2 <= room < 6 then room / 2 * 2 else room
    }

    static method EncodeFields(c: Chunk, large: bool, w: Writer) returns (ok: bool)
      requires w.Valid()
      modifies w, w.buf
      ensures w.Valid()
      ensures ok <==> old(w.base + w.offs) + 10 + |SizeField(c.messageSize)| <= w.buf.Length
      ensures
        var room, fields := w.buf.Length - old(w.base + w.offs), Head(c, large) + SizeField(c.messageSize);
        w.Written() == old(w.Written()) + if ok then fields else fields[..FieldRoom(large, room)]
    {
      hide LE, Splice, Head, SizeField, Start, FieldRoom;
      ghost var room := w.buf.Length - (w.base + w.offs);
      HeadParts(c, large);
      ok := EncodeStart(c, large, w);
      if !ok {
        StartPrefix(c, large, room);
        return;
      }
      ghost var start, rest := Start(c, large), LE(c.size, 4) + SizeField(c.messageSize);
      ok := w.PushAll(LE(c.size, 4) + SizeField(c.messageSize));
      RestPrefix(start, rest, room);
      WholeRoom(large, room);
    }

    static lemma WholeRoom(large: bool, room: nat)
      requires room >= 6
      ensures FieldRoom(large, room) == room
    {
    }

    /** The fields before the chunk size. */
    static function Start(c: Chunk, large: bool): (s: bytes)
      ensures |s| == 6
    {
      [if c.last then 1 else 0, c.handle] + SeqField(large, c.seqNum)
    }

    static lemma HeadParts(c: Chunk, large: bool)
      ensures Head(c, large) + SizeField(c.messageSize) == Start(c, large) + (LE(c.size, 4) + SizeField(c.messageSize))
      ensures |SizeField(c.messageSize)| <= 4
    {
      hide LE;
    }

    static lemma StartPrefix(c: Chunk, large: bool, room: nat)
      requires room < 6
      ensures (Head(c, large) + SizeField(c.messageSize))[..FieldRoom(large, room)] == Start(c, large)[..FieldRoom(large, room)]
    {
      hide LE, Head, SizeField, Start;
      HeadParts(c, large);
    }

    static lemma RestPrefix(start: bytes, rest: bytes, room: nat)
      requires |start| == 6 <= room
      ensures start + rest[..Min(|rest|, room - 6)]
              == if room >= 6 + |rest| then start + rest else (start + rest)[..room]
    {
    }

    static method EncodeStart(c: Chunk, large: bool, w: Writer) returns (ok: bool)
      requires w.Valid()
      modifies w, w.buf
      ensures w.Valid()
      ensures ok <==> old(w.base + w.offs) + 6 <= w.buf.Length
      ensures ok ==> w.offs == old(w.offs) + 6
      ensures
        var room := w.buf.Length - old(w.base + w.offs);
        w.Written() == old(w.Written()) + if ok then Start(c, large) else Start(c, large)[..FieldRoom(large, room)]
    {
      hide LE, Splice, SeqField, Start, FieldRoom;
      ghost var room := w.buf.Length - (w.base + w.offs);
      StartParts(c, large, room);
      var first: bytes := [if c.last then 1 else 0, c.handle];
      assert first[..2] == first;
      ok := w.PushAll(first);
      if !ok {
        return;
      }
      ok := EncodeSeqNum(c.seqNum, large, w);
    }

    static lemma StartParts(c: Chunk, large: bool, room: nat)
      ensures
        var first: bytes, counter := [if c.last then 1 else 0, c.handle], SeqField(large, c.seqNum);
        && Start(c, large) == first + counter[..4]
        && (room < 2 ==> first[..room] == Start(c, large)[..FieldRoom(large, room)])
        && (2 <= room < 6 ==>
              first + counter[..if large then room - 2 else (room - 2) / 2 * 2] == Start(c, large)[..FieldRoom(large, room)])
    {
      hide LE, SeqField;
      assert SeqField(large, c.seqNum)[..4] == SeqField(large, c.seqNum);
    }

    static method EncodeSeqNum(n: nat, large: bool, w: Writer) returns (ok: bool)
      requires w.Valid()
      modifies w, w.buf
      ensures w.Valid()
      ensures ok <==> old(w.base + w.offs) + 4 <= w.buf.Length
      ensures ok ==> w.offs == old(w.offs) + 4
      ensures
        var room := w.buf.Length - old(w.base + w.offs);
        w.Written() == old(w.Written()) + SeqField(large, n)[..if ok then 4 else if large then room else room / 2 * 2]
    {
      hide LE, Splice;
      ghost var written := w.Written();
      assert SeqField(large, n)[..4] == SeqField(large, n);
      if large {
        ok := w.PushAll(LE(n, 4));
      } else {
        ok := w.ExtendFromSlice(LE(n, 2));
        if ok {
          assert SeqField(large, n)[..2] == LE(n, 2);
          ok := w.ExtendFromSlice(LE(0, 2));
        } else {
          assert SeqField(large, n)[..0] == [];
        }
      }
    }

    static method ReadFields(r: Reader, large: bool) returns (c: Option<Chunk>)
      requires r.Valid()
      modifies r
      ensures r.Valid()
      ensures match Parse(large, old(r.buf[r.offs..]))
              case None => c == None
              case Some((chunk, at)) => c == Some(chunk) && r.offs == old(r.offs) + at
    {
      ghost var b, start := r.buf[r.offs..], r.offs;
      var attributes := r.Take(1);
      if attributes.None? { return None; }
      var handle := r.Take(1);
      if handle.None? { return None; }
      var counter := r.Take(if large then 4 else 2);
      if counter.None? { return None; }
      if !large {
        var reserved := r.Take(2);
        if reserved.None? { return None; }
      }
      var size := r.Take(4);
      if size.None? { return None; }
      assert counter.value == if large then b[2..6] else b[2..4];
      assert size.value == b[6..10];
      var total: Option<nat> := None;
      if FromLE(counter.value) == 0 {
        var field := r.Take(4);
        if field.Some? {
          assert field.value == b[10..14];
          total := Some(FromLE(field.value));
        }
      }
      c := Some(Chunk(attributes.value[0] % 2 == 1, handle.value[0], FromLE(counter.value), FromLE(size.value), total));
    }

    method CopyIn(piece: bytes)
      requires transferred + |piece| <= data.Length
      modifies this, data
      ensures Value() == Store(old(Value()), piece)
    {
      var w := new Writer(data, transferred);
      var _ := w.ExtendFromSlice(piece);
      transferred := transferred + |piece|;
    }

    method TakeInto(r: Reader, n: nat)
      requires r.Valid() && r.offs + n <= |r.buf| && transferred + n <= data.Length
      modifies this, data, r
      ensures Value() == Store(old(Value()), r.buf[old(r.offs)..old(r.offs) + n])
    {
      hide Splice;
      var piece := r.Take(n);
      CopyIn(piece.value);
    }

    /** `Panicked` stands for the end of the program. */
    method ReadSendRequest(r: Reader, large: bool, checked: bool) returns (c: Outcome<Chunk>)
      requires r.Valid()
      modifies this, data, r
      ensures (c, Value()) == ReadSend(old(Value()), checked, large, old(r.buf[r.offs..]))
    {
      hide Parse, Store, Minus;
      ghost var start := r.offs;
      var fields := ReadFields(r, large);
      if fields.None? {
        return Refused;
      }
      var chunk := fields.value;
      if chunk.seqNum == 0 {
        if status != Idle || chunk.size > data.Length {
          return Refused;
        }
        transferred := 0;
      } else {
        var left := Minus(messageSize, transferred, checked);
        if left.None? {
          return Panicked;
        }
        if chunk.size > left.value {
          return Refused;
        }
      }
      if r.offs + chunk.size > |r.buf| {
        return Refused;
      }
      if transferred + chunk.size > data.Length {
        return Panicked;
      }
      SliceOfSuffix(r.buf, start, r.offs - start, chunk.size);
      TakeInto(r, chunk.size);
      c := Done(chunk);
    }

    method ReadChunkResponse(r: Reader, large: bool) returns (c: Option<Chunk>)
      requires r.Valid()
      modifies this, data, r
      ensures (c, Value()) == ReadResponse(old(Value()), large, old(r.buf[r.offs..]))
    {
      hide Parse, Splice;
      ghost var b, start := r.buf[r.offs..], r.offs;
      c := ReadFields(r, large);
      if c.None? {
        return;
      }
      if c.value.seqNum == 0 && c.value.messageSize.None? {
        return None;
      }
      ghost var at := r.offs - start;
      var piece := r.Take(c.value.size);
      if piece.None? {
        return None;
      }
      SliceOfSuffix(r.buf, start, at, c.value.size);
      if c.value.size + transferred > data.Length
         || (c.value.seqNum != 0 && c.value.size + transferred > messageSize) {
        return None;
      }
      CopyIn(piece.value);
    }

    /** What is left of the message. */
    ghost function Rest(): bytes
      requires transferred <= messageSize <= data.Length
      reads this, data
    {
      data[transferred..messageSize]
    }

    /** The next chunk of a message in transfer. */
    method NextChunk(handle: byte, ours: nat) returns (c: Chunk)
      requires transferred <= messageSize <= data.Length && ours >= MIN_DATA_TRANSFER_SIZE
      ensures
        var pieces := Split(Rest(), ours, seqNum);
        && c == ChunkOf(handle, messageSize, seqNum, pieces) && c.size == |pieces[0]|
        && transferred + c.size <= messageSize && data[transferred..transferred + c.size] == pieces[0]
        && 10 + |SizeField(c.messageSize)| + c.size <= ours
    {
      hide LE, Split;
      SplitUnfolds(Rest(), ours, seqNum);
      var most := if seqNum == 0 then ours - FIRST_CHUNK_OFFSET else ours - CHUNK_OFFSET;
      var remaining := messageSize - transferred;
      var last, size := true, remaining;
      if remaining > most {
        last, size := false, most;
      }
      PieceIs(size);
      c := Chunk(last, handle, seqNum, size, if seqNum == 0 then Some(messageSize) else None);
    }

    /** Its frame, in a buffer of its own. */
    method NextFrame(handle: byte, large: bool, ours: nat) returns (frame: bytes)
      requires transferred <= messageSize <= data.Length && ours >= MIN_DATA_TRANSFER_SIZE
      modifies this
      ensures
        var pieces := Split(old(Rest()), ours, seqNum);
        && frame == Wire(ChunkOf(handle, messageSize, seqNum, pieces), large, pieces[0])
        && Value() == old(Value()).(transferred := old(transferred) + |pieces[0]|)
    {
      hide LE, Wire, Splice, Split, Head, FieldRoom, ChunkOf, SizeField;
      var c := NextChunk(handle, ours);
      var buf := new byte[ours](_ => 0);
      var w := new Writer(buf, 0);
      assert w.Written() == [];
      var ok := EncodeChunk(c, large, w);
      frame := w.Written();
    }

    lemma RestIs(m: bytes)
      requires transferred <= messageSize == |m| <= data.Length && m == data[..messageSize]
      ensures Rest() == m[transferred..]
    {
    }

    lemma PieceIs(size: nat)
      requires transferred + size <= messageSize <= data.Length
      ensures data[transferred..transferred + size] == Rest()[..size]
      ensures size == messageSize - transferred ==> Rest()[..size] == Rest()
    {
    }

    /** The requester's loop, every chunk being acknowledged: the frames of the whole
        message, unless it needs more chunks than there are numbers. */
    method SendLargeRequest(handle: byte, large: bool, ours: nat) returns (frames: Option<seq<bytes>>)
      requires transferred == seqNum == 0 < messageSize <= data.Length && ours >= MIN_DATA_TRANSFER_SIZE
      modifies this
      ensures frames.Some? <==> messageSize <= MaxLarge(ours, FIRST_CHUNK_OFFSET)
      ensures frames.Some? ==> frames.value == Frames(large, handle, messageSize, 0, Split(old(Rest()), ours, 0))
      ensures frames.Some? ==> transferred == messageSize
      ensures messageSize == old(messageSize) && data[..] == old(data[..])
    {
      hide Wire, Split, Frames, MaxLarge, ToCome, ChunkOf, Most;
      if messageSize > MaxLarge(ours, FIRST_CHUNK_OFFSET) {
        return None;
      }
      ghost var m := Rest();
      ghost var all := ToCome(large, handle, messageSize, 0, m, ours);
      ToComeEnds(large, handle, messageSize, 0, m, ours);
      assert m[0..] == m;
      var sent: seq<bytes> := [];
      while transferred < messageSize
        invariant transferred <= messageSize == old(messageSize) == |m| <= data.Length
        invariant data[..] == old(data[..]) && m == data[..messageSize]
        invariant all == sent + ToCome(large, handle, messageSize, seqNum, m[transferred..], ours)
      {
        ghost var k, t := seqNum, transferred;
        RestIs(m);
        OneMoreSent(large, handle, messageSize, k, m[t..], ours, sent, all);
        var frame := NextFrame(handle, large, ours);
        assert m[transferred..] == m[t..][transferred - t..];
        seqNum := seqNum + 1;
        sent := sent + [frame];
      }
      ToComeEnds(large, handle, messageSize, seqNum, m[transferred..], ours);
      frames := Some(sent);
    }
  }

  lemma SliceOfSuffix(buf: bytes, start: nat, at: nat, n: nat)
    requires start + at + n <= |buf|
    ensures buf[start..][at..at + n] == buf[start + at..start + at + n]
  {
  }

  /** The frames that are still to come for the octets m, from chunk k on. */
  ghost function ToCome(large: bool, handle: byte, total: nat, k: nat, m: bytes, ours: nat): seq<bytes>
    requires ours >= MIN_DATA_TRANSFER_SIZE
  {
    if m == [] then [] else Frames(large, handle, total, k, Split(m, ours, k))
  }

  lemma ToComeEnds(large: bool, handle: byte, total: nat, k: nat, m: bytes, ours: nat)
    requires ours >= MIN_DATA_TRANSFER_SIZE
    ensures ToCome(large, handle, total, k, m, ours) == if m == [] then [] else Frames(large, handle, total, k, Split(m, ours, k))
  {
  }

  lemma ToComeUnfold(large: bool, handle: byte, total: nat, k: nat, m: bytes, ours: nat)
    requires ours >= MIN_DATA_TRANSFER_SIZE && m != []
    ensures
      var pieces := Split(m, ours, k);
      var frame := Wire(ChunkOf(handle, total, k, pieces), large, pieces[0]);
      && 0 < |pieces[0]| <= |m|
      && ToCome(large, handle, total, k, m, ours)
         == [frame] + ToCome(large, handle, total, k + 1, m[|pieces[0]|..], ours)
  {
    hide Wire, Split, Frames;
    SplitUnfolds(m, ours, k);
    FramesStep(large, handle, total, k, Split(m, ours, k));
  }

  lemma OneMoreSent(large: bool, handle: byte, total: nat, k: nat, m: bytes, ours: nat, sent: seq<bytes>, all: seq<bytes>)
    requires ours >= MIN_DATA_TRANSFER_SIZE && m != [] && all == sent + ToCome(large, handle, total, k, m, ours)
    ensures
      var pieces := Split(m, ours, k);
      var frame := Wire(ChunkOf(handle, total, k, pieces), large, pieces[0]);
      && 0 < |pieces[0]| <= |m|
      && all == (sent + [frame]) + ToCome(large, handle, total, k + 1, m[|pieces[0]|..], ours)
  {
    hide Wire, Split, Frames, ToCome, ChunkOf;
    ToComeUnfold(large, handle, total, k, m, ours);
  }
}
