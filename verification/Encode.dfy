/** The sending side: messages batched into length-prefixed frames, and the body built from them. */
module Encode {
  import opened Wire
  import opened Text
  import opened Headers
  import opened Status
  import opened Compression

  /** Bytes appended to a buffer, and the text of the error if the writer gave up. */
  datatype Written = Written(out: bytes, failure: Option<string>)

  /** Message codec, compression, size limit (none: the whole range of usize) and batching threshold. */
  datatype EncodeConfig<!M> = EncodeConfig(
    encode: M -> Written,
    compress: (Encoding, bytes) -> Written,
    compression: Option<Encoding>,
    limit: Option<nat>,
    threshold: nat)

  /** One result of polling the stream of messages; a stream that is exhausted has ended. */
  datatype SourceEvent<M> = Waiting | Item(message: M) | Failed(status: Status)

  datatype Polled = NotReady | Chunk(data: bytes) | Error(status: Status) | Exhausted

  // ---- One message -------------------------------------------------------------------------

  /** The bytes between the header and the next frame. */
  function PayloadOf<M>(cfg: EncodeConfig<M>, item: M): Result<bytes, Status> {
    var w := cfg.encode(item);
    if w.failure.Some? then Failure(NewStatus(Internal, "Error encoding: " + w.failure.value))
    else if cfg.compression.None? then Success(w.out)
    else
      var c := cfg.compress(cfg.compression.value, w.out);
      if c.failure.Some? then Failure(NewStatus(Internal, "Error compressing: " + c.failure.value))
      else Success(c.out)
  }

  function SendLimit<M>(cfg: EncodeConfig<M>): nat {
    if cfg.limit.Some? then cfg.limit.value else USIZE_LIMIT - 1
  }

  function TooLong<M>(cfg: EncodeConfig<M>, len: nat): Option<Status> {
    if len > SendLimit(cfg) then
      Some(NewStatus(OutOfRange, "Error, encoded message length too large: found " + Decimal(len)
                                 + " bytes, the limit is: " + Decimal(SendLimit(cfg)) + " bytes"))
    else if len >= U32_LIMIT then
      Some(NewStatus(ResourceExhausted,
                     "Cannot return body with more than 4GB of data but got " + Decimal(len) + " bytes"))
    else None
  }

  function FrameHeader(compressed: bool, len: nat): (h: bytes)
    ensures |h| == HEADER_SIZE
  {
    [if compressed then 1 else 0] + PutU32(len)
  }

  /** The length-prefixed frame of a message, or why it cannot be sent. */
  function Frame<M>(cfg: EncodeConfig<M>, item: M): (r: Result<bytes, Status>)
    ensures r.Success? ==> |r.value| >= HEADER_SIZE
  {
    match PayloadOf(cfg, item)
    case Failure(s) => Failure(s)
    case Success(payload) =>
      match TooLong(cfg, |payload|)
      case Some(s) => Failure(s)
      case None => Success(FrameHeader(cfg.compression.Some?, |payload|) + payload)
  }

  // ---- The batching stream ------------------------------------------------------------------

  /** How a message becomes a frame and a status headers, and how many bytes make a chunk worth emitting. */
  datatype Batching<!M> = Batching(
    frame: M -> Result<bytes, Status>,
    headers: Status -> Result<Headers, Status>,
    threshold: nat)

  function BatchingOf<M>(cfg: EncodeConfig<M>): Batching<M> {
    Batching(m => Frame(cfg, m), s => ToHeaderMap(s), cfg.threshold)
  }

  datatype Enc<M> = Enc(source: seq<SourceEvent<M>>, buf: bytes, error: Option<Status>)

  /** A poll that leads to another one has used up source events or emptied the buffer. */
  predicate Progress<M>(e: Enc<M>, after: Enc<M>, p: Polled) {
    && |after.source| <= |e.source|
    && (p.NotReady? || p.Chunk? ==> |after.source| < |e.source| || |after.buf| < |e.buf|)
  }

  /** Takes messages into the buffer until it is worth emitting or the source has no more for now. */
  function Fill<M>(b: Batching<M>, e: Enc<M>): (r: (Enc<M>, Polled))
    ensures Progress(e, r.0, r.1)
    decreases |e.source|
  {
    if e.source == [] then
      if e.buf == [] then (e, Exhausted) else (e.(buf := []), Chunk(e.buf))
    else
      var rest := e.(source := e.source[1..]);
      match e.source[0]
      case Waiting => if e.buf == [] then (rest, NotReady) else (rest.(buf := []), Chunk(e.buf))
      case Failed(s) =>
        if e.buf == [] then (rest, Error(s)) else (rest.(buf := [], error := Some(s)), Chunk(e.buf))
      case Item(m) =>
        match b.frame(m)
        case Failure(s) => (rest, Error(s))
        case Success(f) =>
          if |e.buf + f| >= b.threshold then (rest.(buf := []), Chunk(e.buf + f))
          else Fill(b, rest.(buf := e.buf + f))
  }

  function PollNext<M>(b: Batching<M>, e: Enc<M>): (r: (Enc<M>, Polled))
    ensures Progress(e, r.0, r.1)
  {
    if e.error.Some? then (e.(error := None), Error(e.error.value)) else Fill(b, e)
  }

  class EncodedBytes<M> {
    const cfg: EncodeConfig<M>
    var source: seq<SourceEvent<M>>
    var buf: bytes
    var uncompressionBuf: bytes
    var error: Option<Status>

    function State(): Enc<M>
      reads this
    {
      Enc(source, buf, error)
    }

    constructor (cfg: EncodeConfig<M>, source: seq<SourceEvent<M>>)
      ensures this.cfg == cfg && State() == Enc(source, [], None)
    {
      this.cfg := cfg;
      this.source := source;
      buf, uncompressionBuf, error := [], [], None;
    }

    /** Writes flag and length into the five bytes set aside at `offset`. */
    method FinishEncoding(offset: nat) returns (failure: Option<Status>)
      requires offset + HEADER_SIZE <= |buf|
      modifies this`buf
      ensures failure == TooLong(cfg, |old(buf)| - offset - HEADER_SIZE)
      ensures buf == if failure.Some? then old(buf)
                     else old(buf)[..offset] + FrameHeader(cfg.compression.Some?, |old(buf)| - offset - HEADER_SIZE)
                          + old(buf)[offset + HEADER_SIZE..]
    {
      var len := |buf| - offset - HEADER_SIZE;
      failure := TooLong(cfg, len);
      if failure.None? {
        buf := buf[..offset] + FrameHeader(cfg.compression.Some?, len) + buf[offset + HEADER_SIZE..];
      }
    }

    /** Appends the encoded, possibly compressed message; on failure some of it may stay behind. */
    method WritePayload(item: M) returns (failure: Option<Status>)
      modifies this`buf, this`uncompressionBuf
      ensures old(buf) <= buf
      ensures match PayloadOf(cfg, item)
              case Success(payload) => failure == None && buf == old(buf) + payload
              case Failure(s) => failure == Some(s)
    {
      failure := None;
      var w := cfg.encode(item);
      if cfg.compression.Some? {
        uncompressionBuf := [];
        uncompressionBuf := uncompressionBuf + w.out;
        assert uncompressionBuf == w.out;
        if w.failure.Some? {
          failure := Some(NewStatus(Internal, "Error encoding: " + w.failure.value));
        } else {
          var c := cfg.compress(cfg.compression.value, uncompressionBuf);
          buf := buf + c.out;
          if c.failure.Some? {
            failure := Some(NewStatus(Internal, "Error compressing: " + c.failure.value));
          }
        }
      } else {
        buf := buf + w.out;
        if w.failure.Some? {
          failure := Some(NewStatus(Internal, "Error encoding: " + w.failure.value));
        }
      }
    }

    /** Appends the frame of `item`, or leaves the buffer byte for byte as it was. */
    method EncodeItem(item: M) returns (failure: Option<Status>)
      modifies this`buf, this`uncompressionBuf
      ensures match Frame(cfg, item)
              case Success(f) => failure == None && buf == old(buf) + f
              case Failure(s) => failure == Some(s) && buf == old(buf)
    {
      var offset := |buf|;
      assert |[0, 0, 0, 0, 0]| == HEADER_SIZE;
      var unwritten: bytes :| |unwritten| == HEADER_SIZE;
      buf := buf + unwritten;
      ghost var reserved := buf;
      failure := WritePayload(item);
      assert buf[..offset] == reserved[..offset] == old(buf);
      if failure.Some? {
        buf := buf[..offset];
        return;
      }
      ghost var payload := buf[offset + HEADER_SIZE..];
      assert PayloadOf(cfg, item) == Success(payload);
      failure := FinishEncoding(offset);
      if failure.Some? {
        buf := buf[..offset];
      } else {
        assert buf == old(buf) + (FrameHeader(cfg.compression.Some?, |payload|) + payload);
      }
    }

    method Poll() returns (r: Polled)
      modifies this
      ensures (State(), r) == PollNext(BatchingOf(cfg), old(State()))
    {
      if error.Some? {
        r := Error(error.value);
        error := None;
        return;
      }
      while true
        invariant error == None && PollNext(BatchingOf(cfg), old(State())) == Fill(BatchingOf(cfg), State())
        decreases |source|
      {
        if source == [] {
          if buf == [] {
            return Exhausted;
          }
          r := Chunk(buf);
          buf := [];
          return;
        }
        var event := source[0];
        source := source[1..];
        match event
        case Waiting =>
          if buf == [] {
            return NotReady;
          }
          r := Chunk(buf);
          buf := [];
          return;
        case Item(m) =>
          var failure := EncodeItem(m);
          if failure.Some? {
            return Error(failure.value);
          }
          if |buf| >= cfg.threshold {
            r := Chunk(buf);
            buf := [];
            return;
          }
        case Failed(s) =>
          if buf == [] {
            return Error(s);
          }
          error := Some(s);
          r := Chunk(buf);
          buf := [];
          return;
      }
    }
  }
}
