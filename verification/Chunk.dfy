/** Large messages in chunks: the frames of CHUNK_SEND and CHUNK_RESPONSE, the
    chunk context they move data through, and what the two receiving handlers
    record. */
module ChunkModel {
  import opened Bytes
  import opened Codec

  const MIN_DATA_TRANSFER_SIZE := 42
  const FIRST_CHUNK_OFFSET := 16
  const CHUNK_OFFSET := 12

  datatype ChunkStatus = Idle | ChunkSendAndAck | ChunkGetAndResponse

  /** Both messages have these fields; the message size comes with the first chunk. */
  datatype Chunk = Chunk(last: bool, handle: byte, seqNum: nat, size: nat, messageSize: Option<nat>)

  datatype Context = Context(status: ChunkStatus, seqNum: nat, messageSize: nat, data: bytes, transferred: nat)

  /** `large` says that the version is 1.4 or later. */
  function MaxSeqNum(large: bool): nat {
    if large then 0xFFFF_FFFF else 0xFFFF
  }

  function SeqField(large: bool, n: nat): (s: bytes)
    ensures |s| == 4
  {
    if large then LE(n, 4) else LE(n, 2) + LE(0, 2)
  }

  function SizeField(size: Option<nat>): bytes {
    match size
    case None => []
    case Some(n) => LE(n, 4)
  }

  function Head(c: Chunk, large: bool): (s: bytes)
    ensures |s| == 10
  {
    [if c.last then 1 else 0, c.handle] + SeqField(large, c.seqNum) + LE(c.size, 4)
  }

  function Wire(c: Chunk, large: bool, piece: bytes): bytes {
    Head(c, large) + (SizeField(c.messageSize) + piece)
  }

  /** The fields of a frame and the offset of its data. Only the lowest attribute bit
      has a meaning; a first chunk too short for a message size goes without. */
  function Parse(large: bool, b: bytes): (r: Option<(Chunk, nat)>)
    ensures r.Some? ==> r.value.1 <= |b|
  {
    if |b| < 10 then None else
    var seqNum := FromLE(if large then b[2..6] else b[2..4]);
    var sized := seqNum == 0 && |b| >= 14;
    var c := Chunk(b[0] % 2 == 1, b[1], seqNum, FromLE(b[6..10]), if sized then Some(FromLE(b[10..14])) else None);
    Some((c, if sized then 14 else 10))
  }

  function Store(ctx: Context, piece: bytes): Context
    requires ctx.transferred + |piece| <= |ctx.data|
  {
    ctx.(data := Splice(ctx.data, ctx.transferred, piece), transferred := ctx.transferred + |piece|)
  }

  /** How a call ends: with a value, with a refusal, or in a panic. */
  datatype Outcome<+T> = Done(value: T) | Refused | Panicked

  /** Subtraction of machine words: below zero it panics in a build with overflow checks
      and wraps in one without. */
  function Minus(a: nat, b: nat, checked: bool): Option<nat> {
    if a >= b then Some(a - b) else if checked then None else Some((a - b) % 0x1_0000_0000_0000_0000)
  }

  /** Reading a CHUNK_SEND: a first chunk starts over, any other must fit in what the
      announced size leaves. */
  function ReadSend(ctx: Context, checked: bool, large: bool, b: bytes): (Outcome<Chunk>, Context) {
    match Parse(large, b)
    case None => (Refused, ctx)
    case Some((c, at)) =>
      if c.seqNum == 0 then
        if ctx.status != Idle || c.size > |ctx.data| then (Refused, ctx)
        else TakeData(ctx.(transferred := 0), c, at, b)
      else
        match Minus(ctx.messageSize, ctx.transferred, checked)
        case None => (Panicked, ctx)
        case Some(left) => if c.size > left then (Refused, ctx) else TakeData(ctx, c, at, b)
  }

  function TakeData(ctx: Context, c: Chunk, at: nat, b: bytes): (Outcome<Chunk>, Context) {
    if at + c.size > |b| then (Refused, ctx)
    else if ctx.transferred + c.size > |ctx.data| then (Panicked, ctx)
    else (Done(c), Store(ctx, b[at..at + c.size]))
  }

  /** Reading a CHUNK_RESPONSE: every chunk is appended. */
  function ReadResponse(ctx: Context, large: bool, b: bytes): (Option<Chunk>, Context) {
    match Parse(large, b)
    case None => (None, ctx)
    case Some((c, at)) =>
      if (c.seqNum == 0 && c.messageSize.None?) || at + c.size > |b| then (None, ctx)
      else if ctx.transferred + c.size > |ctx.data| then (None, ctx)
      else if c.seqNum != 0 && ctx.transferred + c.size > ctx.messageSize then (None, ctx)
      else (Some(c), Store(ctx, b[at..at + c.size]))
  }

  /** The endpoint that receives, with the handle of the transfer it is in. */
  datatype Receiver = Receiver(ctx: Context, handle: byte)

  /** The largest message that fits in as many chunks as the counter has numbers. */
  function MaxLarge(transfer: nat, offset: nat): int {
    (transfer - CHUNK_OFFSET) * 65534 + transfer - offset
  }

  /** What the responder checks of a CHUNK_SEND it has read, and records. */
  function RecordSend(rx: Receiver, large: bool, transfer: nat, c: Chunk): Option<Receiver>
    requires rx.ctx.status == Idle ==> c.messageSize.Some?
  {
    var ctx := rx.ctx;
    var complete := c.last ==> ctx.transferred == ctx.messageSize;
    match ctx.status
    case Idle =>
      var total := c.messageSize.value;
      if c.seqNum != 0 || !(MIN_DATA_TRANSFER_SIZE <= total <= |ctx.data|) || total > MaxLarge(transfer, FIRST_CHUNK_OFFSET)
         || c.last || c.size > transfer - FIRST_CHUNK_OFFSET then None
      else Some(Receiver(ctx.(seqNum := 0, messageSize := total, status := ChunkSendAndAck), c.handle))
    case ChunkSendAndAck =>
      if ctx.seqNum >= MaxSeqNum(large) || c.seqNum != ctx.seqNum + 1 || c.handle != rx.handle
         || (!c.last && c.size > transfer - CHUNK_OFFSET) || ctx.transferred > ctx.messageSize || !complete then None
      else Some(Receiver(ctx.(seqNum := c.seqNum), rx.handle))
    case ChunkGetAndResponse => None
  }

  /** Where the embedded response starts in the last acknowledgement. */
  function AckOffset(large: bool): nat {
    if large then 8 else 6
  }

  /** What the requester checks of a CHUNK_RESPONSE it has read, and records. */
  function RecordResponse(rx: Receiver, large: bool, transfer: nat, c: Chunk): Option<Receiver>
    requires c.seqNum == 0 ==> c.messageSize.Some?
  {
    var ctx := rx.ctx;
    if c.handle != rx.handle || c.seqNum != ctx.seqNum then None
    else if c.seqNum == 0 then
      var total := c.messageSize.value;
      if c.size < MIN_DATA_TRANSFER_SIZE - FIRST_CHUNK_OFFSET
         || !(MIN_DATA_TRANSFER_SIZE - AckOffset(large) <= total <= |ctx.data|)
         || total > MaxLarge(transfer, AckOffset(large)) then None
      else Finish(rx, c, ctx.(messageSize := total, seqNum := 1))
    else if (c.size < MIN_DATA_TRANSFER_SIZE - CHUNK_OFFSET && !c.last) || ctx.seqNum >= MaxSeqNum(large) then None
    else Finish(rx, c, ctx.(seqNum := ctx.seqNum + 1))
  }

  /** The last chunk, and no other, completes the message. */
  function Finish(rx: Receiver, c: Chunk, ctx: Context): Option<Receiver> {
    if c.last then
      if ctx.transferred != ctx.messageSize then None else Some(Receiver(ctx, rx.handle))
    else
      if ctx.transferred >= ctx.messageSize then None else Some(Receiver(ctx, rx.handle))
  }

  /** A receiver whose count does not exceed the announced size. */
  predicate InRange(rx: Receiver) {
    rx.ctx.transferred <= rx.ctx.messageSize <= |rx.ctx.data| < 0x1_0000_0000
  }
}

/** Whole transfers: any split of a message, framed and read in order, is put
    together again. */
module ChunkTransfer {
  import opened Bytes
  import opened Codec
  import opened ChunkModel

  function ChunkOf(handle: byte, total: nat, k: nat, rest: seq<bytes>): Chunk
    requires rest != []
  {
    Chunk(|rest| == 1, handle, k, |rest[0]|, if k == 0 then Some(total) else None)
  }

  /** The frames from chunk k on. */
  function Frames(large: bool, handle: byte, total: nat, k: nat, rest: seq<bytes>): seq<bytes>
    decreases |rest|
  {
    if rest == [] then []
    else [Wire(ChunkOf(handle, total, k, rest), large, rest[0])] + Frames(large, handle, total, k + 1, rest[1..])
  }

  /** The responder's step on one CHUNK_SEND frame. After a refusal it starts over from
      an empty context. An idle responder takes the message size for granted in a chunk
      it has read. */
  function HandleSend(rx: Receiver, checked: bool, large: bool, transfer: nat, b: bytes): Outcome<Receiver> {
    var (r, ctx) := ReadSend(rx.ctx, checked, large, b);
    match r
    case Refused => Refused
    case Panicked => Panicked
    case Done(c) =>
      if ctx.status == Idle && c.messageSize.None? then Panicked else
      match RecordSend(rx.(ctx := ctx), large, transfer, c)
      case None => Refused
      case Some(rx') => Done(rx')
  }

  /** The requester's step on one CHUNK_RESPONSE frame. */
  function HandleResponse(rx: Receiver, large: bool, transfer: nat, b: bytes): Option<Receiver> {
    var (c, ctx) := ReadResponse(rx.ctx, large, b);
    if c.None? then None else RecordResponse(rx.(ctx := ctx), large, transfer, c.value)
  }

  ghost predicate Fits(c: Chunk, large: bool) {
    && c.seqNum <= MaxSeqNum(large) && c.size < 0x1_0000_0000
    && (c.seqNum == 0 <==> c.messageSize.Some?)
    && (c.messageSize.Some? ==> c.messageSize.value < 0x1_0000_0000)
  }

  lemma SeqFieldParses(large: bool, n: nat)
    requires n <= MaxSeqNum(large)
    ensures FromLE(if large then SeqField(large, n) else SeqField(large, n)[..2]) == n
  {
    Pow256Values();
    DecodeEncode(n, if large then 4 else 2);
    assert !large ==> SeqField(large, n)[..2] == LE(n, 2);
  }

  lemma HeadFields(c: Chunk, large: bool, tail: bytes)
    ensures
      var b := Head(c, large) + tail;
      && b[0] == (if c.last then 1 else 0) && b[1] == c.handle
      && b[2..6] == SeqField(large, c.seqNum) && b[2..4] == SeqField(large, c.seqNum)[..2]
      && b[6..10] == LE(c.size, 4) && b[10..] == tail
  {
    hide LE, SeqField;
    var b := Head(c, large) + tail;
    assert b[2..4] == b[2..6][..2];
  }

  /** A frame, octet by octet: the last-chunk bit, the handle, the chunk number in four
      octets from version 1.4 on and in two octets and two zeros before, the size of the
      chunk in four octets, the size of the message in four if it is the first, and the
      data. Numbers are lowest octet first. */
  lemma FrameOctets(c: Chunk, large: bool, piece: bytes)
    requires Fits(c, large)
    ensures
      var b := Wire(c, large, piece);
      && b[..2] == [if c.last then 1 else 0, c.handle]
      && b[2..6] == [c.seqNum % 256, c.seqNum / 256 % 256, c.seqNum / 0x1_0000 % 256, c.seqNum / 0x100_0000 % 256]
      && (!large ==> b[4..6] == [0, 0])
      && b[6..10] == [c.size % 256, c.size / 256 % 256, c.size / 0x1_0000 % 256, c.size / 0x100_0000 % 256]
      && b[10..]
         == (if c.seqNum != 0 then piece else
             var n := c.messageSize.value;
             [n % 256, n / 256 % 256, n / 0x1_0000 % 256, n / 0x100_0000 % 256] + piece)
  {
    var tail := SizeField(c.messageSize) + piece;
    LEOctets(c.seqNum);
    LEOctets(0);
    LEOctets(c.size);
    if c.seqNum == 0 {
      LEOctets(c.messageSize.value);
    }
    SeqOctets(c.seqNum, large);
    hide LE, SeqField;
    HeadFields(c, large, tail);
    var b := Wire(c, large, piece);
    assert b[..2] == [b[0], b[1]];
    assert b[4..6] == b[2..6][2..];
  }

  lemma SeqOctets(n: nat, large: bool)
    requires n <= MaxSeqNum(large)
    ensures SeqField(large, n) == [n % 256, n / 256 % 256, n / 0x1_0000 % 256, n / 0x100_0000 % 256]
    ensures !large ==> SeqField(large, n)[2..] == [0, 0]
  {
    LEOctets(n);
    LEOctets(0);
  }

  /** Parsing a frame gives its fields and its data back. */
  lemma ParseWire(c: Chunk, large: bool, piece: bytes)
    requires Fits(c, large)
    ensures
      var b := Wire(c, large, piece);
      var at := if c.seqNum == 0 then 14 else 10;
      Parse(large, b) == Some((c, at)) && b[at..] == piece
  {
    hide LE, Head, SeqField;
    var tail := SizeField(c.messageSize) + piece;
    var b := Wire(c, large, piece);
    HeadFields(c, large, tail);
    SeqFieldParses(large, c.seqNum);
    Pow256Values();
    DecodeEncode(c.size, 4);
    if c.seqNum == 0 {
      DecodeEncode(c.messageSize.value, 4);
      assert b[10..14] == b[10..][..4] == LE(c.messageSize.value, 4);
      assert b[14..] == b[10..][4..] == piece;
    } else {
      assert tail == piece;
    }
  }

  /** Four octets as a number, lowest first. */
  function Quad(b: bytes, i: nat): nat
    requires i + 4 <= |b|
  {
    Word(b[i], Word(b[i + 1], Word(b[i + 2], b[i + 3])))
  }

  lemma QuadIs(b: bytes, i: nat)
    requires i + 4 <= |b|
    ensures FromLE(b[i..i + 4]) == Quad(b, i) && FromLE(b[i..i + 2]) == Word(b[i], b[i + 1])
  {
    var s := b[i..i + 4];
    assert s[1..][1..] == s[2..] && s[2..][1..] == s[3..] && s[3..][1..] == [];
    assert FromLE(s[3..]) == s[3] && FromLE(s[2..]) == Word(s[2], s[3]);
    assert FromLE(s[1..]) == Word(s[1], Word(s[2], s[3]));
    TwoOctets(b[i..i + 2]);
  }

  /** What any octets are parsed as: only the lowest attribute bit counts, before version
      1.4 the third and fourth octet of the chunk number do not, and a message size is
      read of chunk 0 if there are octets for it. */
  lemma ParseIs(large: bool, b: bytes)
    ensures
      if |b| < 10 then Parse(large, b) == None
      else
        var n := if large then Quad(b, 2) else Word(b[2], b[3]);
        Parse(large, b)
        == if n == 0 && |b| >= 14 then Some((Chunk(b[0] % 2 == 1, b[1], n, Quad(b, 6), Some(Quad(b, 10))), 14))
           else Some((Chunk(b[0] % 2 == 1, b[1], n, Quad(b, 6), None), 10))
  {
    if |b| >= 10 {
      QuadIs(b, 2);
      QuadIs(b, 6);
      if |b| >= 14 {
        QuadIs(b, 10);
      }
      hide FromLE, Quad, Word;
    }
  }

  /** Reading a CHUNK_SEND into a context in range, exactly: the data must be there, chunk 0
      needs an idle responder and room in the buffer, any other room in the announced
      size. What is read is stored, chunk 0 at the start; what is refused leaves the
      context as it is, but for the count that a chunk 0 without its data sets back. */
  lemma SendReads(ctx: Context, checked: bool, large: bool, b: bytes)
    requires ctx.transferred <= ctx.messageSize <= |ctx.data| && Parse(large, b).Some?
    ensures
      var ((c, at), (r, ctx')) := (Parse(large, b).value, ReadSend(ctx, checked, large, b));
      var from := if c.seqNum == 0 then 0 else ctx.transferred;
      && r != Panicked && (r.Done? ==> r.value == c)
      && (r.Done? <==>
            && at + c.size <= |b|
            && if c.seqNum == 0 then ctx.status == Idle && c.size <= |ctx.data|
               else ctx.transferred + c.size <= ctx.messageSize)
      && (r.Done? ==> ctx' == ctx.(data := Splice(ctx.data, from, b[at..at + c.size]), transferred := from + c.size))
      && (r.Refused? ==>
            ctx' == if c.seqNum == 0 && ctx.status == Idle && c.size <= |ctx.data| then ctx.(transferred := 0) else ctx)
  {
    hide Parse, Splice;
  }

  /** And a CHUNK_RESPONSE into any context. */
  lemma ResponseReads(ctx: Context, large: bool, b: bytes)
    requires Parse(large, b).Some?
    ensures
      var ((c, at), (r, ctx')) := (Parse(large, b).value, ReadResponse(ctx, large, b));
      && (r.Some? ==> r.value == c)
      && (r.Some? <==>
            && at + c.size <= |b| && ctx.transferred + c.size <= |ctx.data|
            && if c.seqNum == 0 then c.messageSize.Some? else ctx.transferred + c.size <= ctx.messageSize)
      && (r.Some? ==>
            && ctx.transferred + c.size <= |ctx.data|
            && ctx' == ctx.(data := Splice(ctx.data, ctx.transferred, b[at..at + c.size]),
                            transferred := ctx.transferred + c.size))
      && (r.None? ==> ctx' == ctx)
  {
    hide Parse, Splice;
  }

  /** The receiver has the octets `got` of a message of `total`. */
  predicate Holds(rx: Receiver, status: ChunkStatus, handle: byte, total: nat, got: bytes) {
    && rx.ctx.status == status && rx.handle == handle && rx.ctx.messageSize == total
    && rx.ctx.transferred == |got| <= |rx.ctx.data| && rx.ctx.data[..|got|] == got
  }

  lemma StoreAppends(ctx: Context, got: bytes, piece: bytes)
    requires ctx.transferred == |got| && |got| + |piece| <= |ctx.data| && ctx.data[..|got|] == got
    ensures
      var s := Store(ctx, piece);
      s.transferred == |got + piece| && s.data[..|got + piece|] == got + piece
      && |s.data| == |ctx.data| && s.data[|got + piece|..] == ctx.data[|got + piece|..]
  {
  }

  /** An idle responder takes a first CHUNK_SEND exactly under these conditions, which
      do not compare its size with the announced one. */
  lemma FirstSend(rx: Receiver, checked: bool, large: bool, transfer: nat, c: Chunk, piece: bytes)
    requires InRange(rx) && rx.ctx.status == Idle
    requires Fits(c, large) && c.seqNum == 0 && c.size == |piece|
    ensures
      var total := c.messageSize.value;
      var r := HandleSend(rx, checked, large, transfer, Wire(c, large, piece));
      && r != Panicked
      && (r.Done? <==>
            && MIN_DATA_TRANSFER_SIZE <= total <= |rx.ctx.data| && total <= MaxLarge(transfer, FIRST_CHUNK_OFFSET)
            && !c.last && |piece| <= transfer - FIRST_CHUNK_OFFSET && |piece| <= |rx.ctx.data|)
      && (r.Done? ==>
            && Holds(r.value, ChunkSendAndAck, c.handle, total, piece)
            && |r.value.ctx.data| == |rx.ctx.data| && r.value.ctx.seqNum == 0
            && (InRange(r.value) <==> |piece| <= total))
  {
    hide Wire, Parse, Splice, MaxLarge;
    var b := Wire(c, large, piece);
    ParseWire(c, large, piece);
    if |piece| <= |rx.ctx.data| {
      assert b[14..14 + c.size] == piece;
      StoreAppends(rx.ctx.(transferred := 0), [], piece);
      assert [] + piece == piece;
    }
  }

  /** In a transfer a CHUNK_SEND is taken exactly under these. */
  lemma NextSend(rx: Receiver, checked: bool, large: bool, transfer: nat, c: Chunk, got: bytes, piece: bytes)
    requires InRange(rx) && Holds(rx, ChunkSendAndAck, rx.handle, rx.ctx.messageSize, got)
    requires Fits(c, large) && c.size == |piece|
    ensures
      var total := rx.ctx.messageSize;
      var r := HandleSend(rx, checked, large, transfer, Wire(c, large, piece));
      && r != Panicked
      && (r.Done? <==>
            && rx.ctx.seqNum < MaxSeqNum(large) && c.seqNum == rx.ctx.seqNum + 1 && c.handle == rx.handle
            && |got| + |piece| <= total
            && if c.last then |got| + |piece| == total else |piece| <= transfer - CHUNK_OFFSET)
      && (r.Done? ==>
            && InRange(r.value) && Holds(r.value, ChunkSendAndAck, c.handle, total, got + piece)
            && |r.value.ctx.data| == |rx.ctx.data| && r.value.ctx.seqNum == c.seqNum)
  {
    hide Wire, Parse, Splice;
    var b := Wire(c, large, piece);
    ParseWire(c, large, piece);
    var at := if c.seqNum == 0 then 14 else 10;
    assert b[at..at + c.size] == piece;
    if |got| + |piece| <= rx.ctx.messageSize {
      StoreAppends(rx.ctx, got, piece);
    }
  }

  /** A responder that is sending a large response takes no CHUNK_SEND at all. */
  lemma SendRefusedWhileResponding(rx: Receiver, checked: bool, large: bool, transfer: nat, b: bytes)
    requires InRange(rx) && rx.ctx.status == ChunkGetAndResponse
    ensures HandleSend(rx, checked, large, transfer, b) == Refused
  {
    hide Parse, Splice;
    if Parse(large, b).Some? {
      SendReads(rx.ctx, checked, large, b);
    }
  }

  /** The size of the message a CHUNK_RESPONSE belongs to. */
  function TotalOf(rx: Receiver, c: Chunk): nat
    requires c.seqNum == 0 ==> c.messageSize.Some?
  {
    if c.seqNum == 0 then c.messageSize.value else rx.ctx.messageSize
  }

  /** A CHUNK_RESPONSE, first or later, is taken exactly under these. */
  lemma NextResponse(rx: Receiver, large: bool, transfer: nat, c: Chunk, got: bytes, piece: bytes)
    requires InRange(rx) && Holds(rx, rx.ctx.status, rx.handle, rx.ctx.messageSize, got)
    requires Fits(c, large) && c.size == |piece|
    ensures
      var total := TotalOf(rx, c);
      var r := HandleResponse(rx, large, transfer, Wire(c, large, piece));
      && (r.Some? <==>
            && c.handle == rx.handle && c.seqNum == rx.ctx.seqNum && |got| + |piece| <= total
            && (if c.seqNum == 0 then FirstResponseFits(|rx.ctx.data|, large, transfer, total, |piece|)
                else c.seqNum < MaxSeqNum(large) && (c.last || |piece| >= MIN_DATA_TRANSFER_SIZE - CHUNK_OFFSET))
            && (c.last <==> |got| + |piece| == total))
      && (r.Some? ==>
            && InRange(r.value) && Holds(r.value, rx.ctx.status, c.handle, total, got + piece)
            && |r.value.ctx.data| == |rx.ctx.data| && r.value.ctx.seqNum == c.seqNum + 1)
  {
    hide Wire, Parse, Splice, MaxLarge;
    var b := Wire(c, large, piece);
    ParseWire(c, large, piece);
    var at := if c.seqNum == 0 then 14 else 10;
    assert b[at..at + c.size] == piece;
    if |got| + |piece| <= |rx.ctx.data| {
      StoreAppends(rx.ctx, got, piece);
    }
  }

  predicate FirstResponseFits(capacity: nat, large: bool, transfer: nat, total: nat, first: nat) {
    && first >= MIN_DATA_TRANSFER_SIZE - FIRST_CHUNK_OFFSET
    && MIN_DATA_TRANSFER_SIZE - AckOffset(large) <= total <= capacity
    && total <= MaxLarge(transfer, AckOffset(large))
  }

  /** All frames, one after another, as long as they are taken. */
  function RunSend(rx: Receiver, checked: bool, large: bool, transfer: nat, frames: seq<bytes>): Outcome<Receiver>
    decreases |frames|
  {
    if frames == [] then Done(rx) else
    match HandleSend(rx, checked, large, transfer, frames[0])
    case Done(rx') => RunSend(rx', checked, large, transfer, frames[1..])
    case stop => stop
  }

  function RunResponse(rx: Receiver, large: bool, transfer: nat, frames: seq<bytes>): Option<Receiver>
    decreases |frames|
  {
    if frames == [] then Some(rx) else
    var r := HandleResponse(rx, large, transfer, frames[0]);
    if r.None? then None else RunResponse(r.value, large, transfer, frames[1..])
  }

  lemma RunSendStep(rx: Receiver, checked: bool, large: bool, transfer: nat, frame: bytes, more: seq<bytes>)
    ensures
      var r := HandleSend(rx, checked, large, transfer, frame);
      RunSend(rx, checked, large, transfer, [frame] + more)
      == if r.Done? then RunSend(r.value, checked, large, transfer, more) else r
  {
    assert ([frame] + more)[1..] == more;
  }

  lemma RunResponseStep(rx: Receiver, large: bool, transfer: nat, frame: bytes, more: seq<bytes>)
    ensures
      var r := HandleResponse(rx, large, transfer, frame);
      RunResponse(rx, large, transfer, [frame] + more)
      == if r.None? then None else RunResponse(r.value, large, transfer, more)
  {
    assert ([frame] + more)[1..] == more;
  }

  lemma FramesStep(large: bool, handle: byte, total: nat, k: nat, rest: seq<bytes>)
    requires rest != []
    ensures
      var frame := Wire(ChunkOf(handle, total, k, rest), large, rest[0]);
      Frames(large, handle, total, k, rest) == [frame] + Frames(large, handle, total, k + 1, rest[1..])
    ensures Concat(rest) == rest[0] + Concat(rest[1..])
    ensures |rest| == 1 ==> Frames(large, handle, total, k + 1, rest[1..]) == [] && Concat(rest) == rest[0]
  {
  }

  /** No piece but the last is longer than `most`. */
  predicate AtMost(pieces: seq<bytes>, most: int) {
    forall i :: 0 <= i < |pieces| - 1 ==> |pieces[i]| <= most
  }

  /** No piece but the last is shorter than `least`. */
  predicate AtLeast(pieces: seq<bytes>, least: int) {
    forall i :: 0 <= i < |pieces| - 1 ==> |pieces[i]| >= least
  }

  lemma {:induction false} SendRest(rx: Receiver, checked: bool, large: bool, transfer: nat, total: nat, got: bytes, rest: seq<bytes>)
    requires InRange(rx) && Holds(rx, ChunkSendAndAck, rx.handle, total, got) && rest != []
    requires |got| + |Concat(rest)| == total && rx.ctx.seqNum + |rest| <= MaxSeqNum(large)
    ensures
      var r := RunSend(rx, checked, large, transfer, Frames(large, rx.handle, total, rx.ctx.seqNum + 1, rest));
      && r != Panicked && (r.Done? <==> AtMost(rest, transfer - CHUNK_OFFSET))
      && (r.Done? ==> Holds(r.value, ChunkSendAndAck, rx.handle, total, got + Concat(rest)))
    decreases |rest|
  {
    hide Wire, HandleSend, Holds, AtMost, Frames, Concat;
    var k := rx.ctx.seqNum + 1;
    var c := ChunkOf(rx.handle, total, k, rest);
    var frame, more := Wire(c, large, rest[0]), Frames(large, rx.handle, total, k + 1, rest[1..]);
    FramesStep(large, rx.handle, total, k, rest);
    HoldsFields(rx, ChunkSendAndAck, rx.handle, total, got);
    NextSend(rx, checked, large, transfer, c, got, rest[0]);
    AtMostCons(rest, transfer - CHUNK_OFFSET);
    RunSendStep(rx, checked, large, transfer, frame, more);
    var r := HandleSend(rx, checked, large, transfer, frame);
    assert got + rest[0] + Concat(rest[1..]) == got + Concat(rest);
    if r.Done? {
      HoldsFields(r.value, ChunkSendAndAck, rx.handle, total, got + rest[0]);
      if |rest| > 1 {
        SendRest(r.value, checked, large, transfer, total, got + rest[0], rest[1..]);
      }
    }
  }

  lemma HoldsFields(rx: Receiver, status: ChunkStatus, handle: byte, total: nat, got: bytes)
    requires Holds(rx, status, handle, total, got)
    ensures rx.ctx.status == status && rx.ctx.messageSize == total && rx.handle == handle
    ensures rx.ctx.transferred == |got| <= |rx.ctx.data| && rx.ctx.data[..|got|] == got
  {
  }

  lemma AtMostCons(pieces: seq<bytes>, most: int)
    requires pieces != []
    ensures AtMost(pieces, most) <==> |pieces| == 1 || (|pieces[0]| <= most && AtMost(pieces[1..], most))
  {
    if |pieces| > 1 && |pieces[0]| <= most && AtMost(pieces[1..], most) {
      forall i | 0 <= i < |pieces| - 1 ensures |pieces[i]| <= most {
        assert i > 0 ==> pieces[i] == pieces[1..][i - 1];
      }
    }
  }

  lemma AtLeastCons(pieces: seq<bytes>, least: int)
    requires pieces != []
    ensures AtLeast(pieces, least) <==> |pieces| == 1 || (|pieces[0]| >= least && AtLeast(pieces[1..], least))
  {
    if |pieces| > 1 && |pieces[0]| >= least && AtLeast(pieces[1..], least) {
      forall i | 0 <= i < |pieces| - 1 ensures |pieces[i]| >= least {
        assert i > 0 ==> pieces[i] == pieces[1..][i - 1];
      }
    }
  }

  /** The responder takes a whole split message exactly if the split respects its
      limits, and then holds the message. */
  lemma SendReassembles(rx: Receiver, checked: bool, large: bool, transfer: nat, handle: byte, pieces: seq<bytes>)
    requires InRange(rx) && rx.ctx.status == Idle && pieces != []
    requires |Concat(pieces)| < 0x1_0000_0000 && |pieces| <= MaxSeqNum(large) + 1
    ensures
      var m := Concat(pieces);
      var r := RunSend(rx, checked, large, transfer, Frames(large, handle, |m|, 0, pieces));
      && r != Panicked
      && (r.Done? <==>
            && |pieces| >= 2 && |pieces[0]| <= transfer - FIRST_CHUNK_OFFSET
            && AtMost(pieces[1..], transfer - CHUNK_OFFSET)
            && MIN_DATA_TRANSFER_SIZE <= |m| <= |rx.ctx.data| && |m| <= MaxLarge(transfer, FIRST_CHUNK_OFFSET))
      && (r.Done? ==> Holds(r.value, ChunkSendAndAck, handle, |m|, m))
  {
    hide Wire, HandleSend, Holds, MaxLarge, Frames, Concat, AtMost;
    var m := Concat(pieces);
    var c := ChunkOf(handle, |m|, 0, pieces);
    var frame, more := Wire(c, large, pieces[0]), Frames(large, handle, |m|, 1, pieces[1..]);
    FramesStep(large, handle, |m|, 0, pieces);
    FirstSend(rx, checked, large, transfer, c, pieces[0]);
    RunSendStep(rx, checked, large, transfer, frame, more);
    var r := HandleSend(rx, checked, large, transfer, frame);
    if r.Done? {
      HoldsFields(r.value, ChunkSendAndAck, handle, |m|, pieces[0]);
      SendRest(r.value, checked, large, transfer, |m|, pieces[0], pieces[1..]);
    }
  }

  /** Every proper prefix of the pieces is shorter than the message: only the last
      piece completes it. */
  predicate LastCompletes(pieces: seq<bytes>) {
    pieces != [] && (|pieces| == 1 || (Concat(pieces[1..]) != [] && LastCompletes(pieces[1..])))
  }

  lemma {:induction false} ResponseRest(rx: Receiver, large: bool, transfer: nat, total: nat, got: bytes, rest: seq<bytes>)
    requires InRange(rx) && Holds(rx, rx.ctx.status, rx.handle, total, got) && rest != []
    requires |got| + |Concat(rest)| == total && 1 <= rx.ctx.seqNum && rx.ctx.seqNum + |rest| <= MaxSeqNum(large) + 1
    ensures
      var r := RunResponse(rx, large, transfer, Frames(large, rx.handle, total, rx.ctx.seqNum, rest));
      && (r.Some? <==>
            && AtLeast(rest, MIN_DATA_TRANSFER_SIZE - CHUNK_OFFSET) && LastCompletes(rest)
            && rx.ctx.seqNum + |rest| <= MaxSeqNum(large))
      && (r.Some? ==> Holds(r.value, rx.ctx.status, rx.handle, total, got + Concat(rest)))
    decreases |rest|
  {
    hide Wire, HandleResponse, Holds, AtLeast, Frames, Concat;
    var k := rx.ctx.seqNum;
    var c := ChunkOf(rx.handle, total, k, rest);
    var frame, more := Wire(c, large, rest[0]), Frames(large, rx.handle, total, k + 1, rest[1..]);
    FramesStep(large, rx.handle, total, k, rest);
    HoldsFields(rx, rx.ctx.status, rx.handle, total, got);
    NextResponse(rx, large, transfer, c, got, rest[0]);
    AtLeastCons(rest, MIN_DATA_TRANSFER_SIZE - CHUNK_OFFSET);
    RunResponseStep(rx, large, transfer, frame, more);
    var r := HandleResponse(rx, large, transfer, frame);
    assert got + rest[0] + Concat(rest[1..]) == got + Concat(rest);
    if r.Some? {
      HoldsFields(r.value, rx.ctx.status, rx.handle, total, got + rest[0]);
      if |rest| > 1 {
        ResponseRest(r.value, large, transfer, total, got + rest[0], rest[1..]);
      }
    }
  }

  /** The requester takes a whole split message exactly if the split respects its
      limits, and then holds the message. */
  lemma ResponseReassembles(rx: Receiver, large: bool, transfer: nat, pieces: seq<bytes>)
    requires InRange(rx) && rx.ctx.seqNum == rx.ctx.transferred == 0 && pieces != []
    requires |Concat(pieces)| < 0x1_0000_0000 && |pieces| <= MaxSeqNum(large) + 1
    ensures
      var m := Concat(pieces);
      var r := RunResponse(rx, large, transfer, Frames(large, rx.handle, |m|, 0, pieces));
      && (r.Some? <==>
            && FirstResponseFits(|rx.ctx.data|, large, transfer, |m|, |pieces[0]|)
            && AtLeast(pieces[1..], MIN_DATA_TRANSFER_SIZE - CHUNK_OFFSET)
            && LastCompletes(pieces) && |pieces| <= MaxSeqNum(large))
      && (r.Some? ==> Holds(r.value, rx.ctx.status, rx.handle, |m|, m))
  {
    hide Wire, HandleResponse, FirstResponseFits, Frames, Concat, AtLeast;
    var m := Concat(pieces);
    var c := ChunkOf(rx.handle, |m|, 0, pieces);
    var frame, more := Wire(c, large, pieces[0]), Frames(large, rx.handle, |m|, 1, pieces[1..]);
    FramesStep(large, rx.handle, |m|, 0, pieces);
    assert [] + pieces[0] == pieces[0];
    NextResponse(rx, large, transfer, c, [], pieces[0]);
    RunResponseStep(rx, large, transfer, frame, more);
    var r := HandleResponse(rx, large, transfer, frame);
    if |pieces| == 1 {
      NoPieces(pieces[1..], MIN_DATA_TRANSFER_SIZE - CHUNK_OFFSET);
    } else if r.Some? {
      ResponseRest(r.value, large, transfer, |m|, pieces[0], pieces[1..]);
    }
  }

  /** How both senders cut a message: as much as a frame can carry, as long as more
      remains. */
  function Split(m: bytes, transfer: nat, k: nat): (pieces: seq<bytes>)
    requires transfer >= MIN_DATA_TRANSFER_SIZE
    ensures pieces != []
  {
    var most := Most(transfer, k);
    if |m| <= most then [m] else [m[..most]] + Split(m[most..], transfer, k + 1)
  }

  function Most(transfer: nat, k: nat): (most: nat)
    requires transfer >= MIN_DATA_TRANSFER_SIZE
    ensures most > 0
  {
    if k == 0 then transfer - FIRST_CHUNK_OFFSET else transfer - CHUNK_OFFSET
  }

  /** The cut loses nothing, only its last piece may be short, and only it completes
      the message. */
  lemma {:induction false} SplitPieces(m: bytes, transfer: nat, k: nat)
    requires transfer >= MIN_DATA_TRANSFER_SIZE
    ensures
      var pieces := Split(m, transfer, k);
      && Concat(pieces) == m && LastCompletes(pieces)
      && (if |m| <= Most(transfer, k) then pieces == [m] else |pieces| >= 2 && |pieces[0]| == Most(transfer, k))
      && (var tail := if k == 0 then pieces[1..] else pieces;
          AtMost(tail, transfer - CHUNK_OFFSET) && AtLeast(tail, transfer - CHUNK_OFFSET))
    decreases |m|
  {
    hide Split, AtMost, AtLeast, Concat, LastCompletes;
    var most := Most(transfer, k);
    var pieces := Split(m, transfer, k);
    SplitUnfolds(m, transfer, k);
    PiecesUnfold(pieces);
    AtMostCons(pieces, transfer - CHUNK_OFFSET);
    AtLeastCons(pieces, transfer - CHUNK_OFFSET);
    if |m| > most {
      SplitPieces(m[most..], transfer, k + 1);
      assert m == m[..most] + m[most..];
    } else {
      NoPieces(pieces[1..], transfer - CHUNK_OFFSET);
    }
  }

  lemma SplitUnfolds(m: bytes, transfer: nat, k: nat)
    requires transfer >= MIN_DATA_TRANSFER_SIZE
    ensures
      var pieces, most := Split(m, transfer, k), Most(transfer, k);
      && (|m| <= most ==> pieces == [m])
      && (|m| > most ==> pieces == [m[..most]] + Split(m[most..], transfer, k + 1)
                         && pieces[1..] == Split(m[most..], transfer, k + 1) && |pieces| >= 2)
  {
  }

  lemma PiecesUnfold(pieces: seq<bytes>)
    requires pieces != []
    ensures Concat(pieces) == pieces[0] + Concat(pieces[1..])
    ensures LastCompletes(pieces) <==> |pieces| == 1 || (Concat(pieces[1..]) != [] && LastCompletes(pieces[1..]))
    ensures |pieces| == 1 ==> Concat(pieces) == pieces[0]
  {
  }

  lemma NoPieces(pieces: seq<bytes>, size: int)
    requires pieces == []
    ensures AtMost(pieces, size) && AtLeast(pieces, size)
  {
  }

  /** n more pieces carry exactly up to n times what one carries. */
  lemma {:induction false} SplitCount(m: bytes, transfer: nat, k: nat, n: nat)
    requires transfer >= MIN_DATA_TRANSFER_SIZE && k > 0 && n > 0
    ensures |Split(m, transfer, k)| <= n <==> |m| <= (transfer - CHUNK_OFFSET) * n
    decreases |m|
  {
    hide Split;
    SplitUnfolds(m, transfer, k);
    var most := transfer - CHUNK_OFFSET;
    if |m| <= most {
      assert most <= most * n;
    } else if n > 1 {
      assert most * (n - 1) == most * n - most;
      SplitCount(m[most..], transfer, k + 1, n - 1);
    }
  }

  /** The size limit is exactly what the chunk numbers allow. */
  lemma SplitFitsCounter(m: bytes, transfer: nat)
    requires transfer >= MIN_DATA_TRANSFER_SIZE
    ensures |Split(m, transfer, 0)| <= 65535 <==> |m| <= MaxLarge(transfer, FIRST_CHUNK_OFFSET)
  {
    hide Split;
    SplitUnfolds(m, transfer, 0);
    var most := Most(transfer, 0);
    if |m| > most {
      SplitCount(m[most..], transfer, 1, 65534);
    }
  }

  /** The limits of a first CHUNK_RESPONSE in numbers. */
  lemma FirstResponseLimits(capacity: nat, large: bool, transfer: nat, total: nat, first: nat)
    ensures FirstResponseFits(capacity, large, transfer, total, first)
            <==> && first >= 26 && total <= capacity && total >= (if large then 34 else 36)
                 && total <= (transfer - 12) * 65534 + transfer - if large then 8 else 6
  {
  }

  /** A request longer than a frame, cut by the requester within its own limits,
      arrives whole at a responder whose frames are no smaller. */
  lemma LargeRequestArrives(rx: Receiver, checked: bool, large: bool, ours: nat, theirs: nat, handle: byte, m: bytes)
    requires InRange(rx) && rx.ctx.status == Idle
    requires MIN_DATA_TRANSFER_SIZE <= ours <= theirs
    requires ours < |m| <= |rx.ctx.data| && |m| <= MaxLarge(ours, FIRST_CHUNK_OFFSET)
    ensures
      var r := RunSend(rx, checked, large, theirs, Frames(large, handle, |m|, 0, Split(m, ours, 0)));
      r.Done? && Holds(r.value, ChunkSendAndAck, handle, |m|, m)
  {
    hide Holds, RunSend, Frames, Split;
    var pieces := Split(m, ours, 0);
    SplitPieces(m, ours, 0);
    SplitFitsCounter(m, ours);
    SendReassembles(rx, checked, large, theirs, handle, pieces);
  }

  /** And a large response at the requester. */
  lemma LargeResponseArrives(rx: Receiver, large: bool, ours: nat, theirs: nat, m: bytes)
    requires InRange(rx) && rx.ctx.seqNum == rx.ctx.transferred == 0
    requires MIN_DATA_TRANSFER_SIZE <= ours <= theirs
    requires MIN_DATA_TRANSFER_SIZE - AckOffset(large) <= |m| <= |rx.ctx.data|
    requires |m| <= MaxLarge(ours, FIRST_CHUNK_OFFSET)
    ensures
      var r := RunResponse(rx, large, theirs, Frames(large, rx.handle, |m|, 0, Split(m, ours, 0)));
      r.Some? && Holds(r.value, rx.ctx.status, rx.handle, |m|, m)
  {
    hide Holds, RunResponse, Frames, Split;
    var pieces := Split(m, ours, 0);
    SplitPieces(m, ours, 0);
    SplitFitsCounter(m, ours);
    ResponseReassembles(rx, large, theirs, pieces);
  }

  /** Whatever is read, a chunk after the first writes nothing past the announced size;
      in a CHUNK_SEND exactly if the count was within it before. */
  lemma ReadsStayWithin(ctx: Context, checked: bool, large: bool, b: bytes)
    requires ctx.messageSize <= |ctx.data|
    ensures
      var (c, ctx') := ReadResponse(ctx, large, b);
      c.Some? && c.value.seqNum != 0 ==> ctx'.transferred <= ctx.messageSize && SameBeyond(ctx, ctx')
    ensures
      var (c, ctx') := ReadSend(ctx, checked, large, b);
      c.Done? && c.value.seqNum != 0 ==>
        (ctx'.transferred <= ctx.messageSize && SameBeyond(ctx, ctx') <==> ctx.transferred <= ctx.messageSize)
  {
    hide Parse;
  }

  ghost predicate SameBeyond(ctx: Context, ctx': Context)
    requires ctx.messageSize <= |ctx.data|
  {
    |ctx'.data| == |ctx.data| && ctx'.data[ctx.messageSize..] == ctx.data[ctx.messageSize..]
  }

  /** A requester stays in range whatever it takes. */
  lemma ResponseKeepsRange(rx: Receiver, large: bool, transfer: nat, b: bytes)
    requires InRange(rx)
    ensures var r := HandleResponse(rx, large, transfer, b);
            r.Some? ==> InRange(r.value)
  {
  }

  /** A responder does exactly unless a first chunk is longer than the message it
      announces; nothing in the two functions compares those. */
  lemma SendKeepsRangeIff(rx: Receiver, checked: bool, large: bool, transfer: nat, b: bytes)
    requires InRange(rx) && HandleSend(rx, checked, large, transfer, b).Done?
    ensures
      var c := Parse(large, b).value.0;
      InRange(HandleSend(rx, checked, large, transfer, b).value)
      <==> (rx.ctx.status == Idle ==> c.size <= c.messageSize.value)
  {
    hide Parse;
  }

  lemma FirstChunkLongerThanMessage(rx: Receiver, checked: bool, piece: bytes)
    requires InRange(rx) && rx.ctx.status == Idle && |rx.ctx.data| == 4096 && |piece| == 43
    ensures
      var r := HandleSend(rx, checked, false, 1024, Wire(Chunk(false, 1, 0, 43, Some(42)), false, piece));
      r.Done? && !InRange(r.value)
  {
    FirstSend(rx, checked, false, 1024, Chunk(false, 1, 0, 43, Some(42)), piece);
  }

  /** A responder in range panics exactly if it is idle and has read a chunk without a
      message size: one with a number other than 0 that asks for no more than is left,
      or one numbered 0 too short to carry the size. */
  lemma SendPanicsIff(rx: Receiver, checked: bool, large: bool, transfer: nat, b: bytes)
    requires InRange(rx)
    ensures HandleSend(rx, checked, large, transfer, b) == Panicked
            <==> rx.ctx.status == Idle && match Parse(large, b) {
                   case None => false
                   case Some((c, at)) =>
                     && c.messageSize.None? && at + c.size <= |b|
                     && c.size <= if c.seqNum == 0 then |rx.ctx.data| else rx.ctx.messageSize - rx.ctx.transferred
                 }
  {
    hide Parse;
  }

  /** Out of range, every chunk but a first one panics in a build with overflow checks,
      and without them exactly those whose data is there and leaves the buffer. */
  lemma SendPanicsOutOfRange(rx: Receiver, checked: bool, large: bool, transfer: nat, b: bytes)
    requires rx.ctx.messageSize < rx.ctx.transferred <= |rx.ctx.data| < 0x1_0000_0000 && rx.ctx.status == ChunkSendAndAck
    ensures HandleSend(rx, checked, large, transfer, b) == Panicked
            <==> match Parse(large, b) {
                   case None => false
                   case Some((c, at)) =>
                     c.seqNum != 0 && (checked || (at + c.size <= |b| && rx.ctx.transferred + c.size > |rx.ctx.data|))
                 }
  {
    ParsedSize(large, b);
    hide Parse;
  }

  lemma ParsedSize(large: bool, b: bytes)
    ensures Parse(large, b).Some? ==> Parse(large, b).value.0.size < 0x1_0000_0000
  {
    if |b| >= 10 {
      Pow256Values();
      FromLEBound(b[6..10]);
    }
  }

  /** An idle responder with nothing in transfer panics on chunk 1 of no octets, and
      refuses chunk 1 of one octet. */
  lemma EmptyLaterChunkPanics(rx: Receiver, checked: bool, transfer: nat, o: byte)
    requires InRange(rx) && rx.ctx.status == Idle && rx.ctx.messageSize == rx.ctx.transferred == 0
    ensures HandleSend(rx, checked, false, transfer, Wire(Chunk(false, 1, 1, 0, None), false, [])) == Panicked
    ensures HandleSend(rx, checked, false, transfer, Wire(Chunk(false, 1, 1, 1, None), false, [o])) == Refused
  {
    hide Parse, Wire;
    ParseWire(Chunk(false, 1, 1, 0, None), false, []);
    ParseWire(Chunk(false, 1, 1, 1, None), false, [o]);
  }
}
