/** The receiving side: a resumable parser of frames that arrive in arbitrary pieces. */
module Decode {
  import opened Wire
  import opened Text
  import opened Headers
  import opened Status
  import opened Compression
  import opened Body

  datatype Direction = Request | Response(http: nat) | EmptyResponse

  /** Message codec, decompression, announced encoding, size limit (none: four MiB) and direction. */
  datatype DecodeConfig<!M> = DecodeConfig(
    decode: bytes -> Result<M, Status>,
    decompress: (Encoding, bytes) -> Result<bytes, string>,
    encoding: Option<Encoding>,
    limit: Option<nat>,
    direction: Direction)

  const DEFAULT_LIMIT: nat := 4 * 1024 * 1024

  datatype State =
    | ReadHeader
    | ReadBody(compression: Option<Encoding>, len: nat)
    | Error(status: Option<Status>)

  datatype Outcome<M> = Message(message: M) | Failed(status: Status) | Finished

  datatype Polled<M> = NotReady | Ready(outcome: Outcome<M>)

  // ---- One frame -------------------------------------------------------------------------------

  /** A refused header has its flag byte read, or all of it. */
  datatype Header =
    | BadFlag(status: Status)
    | BadLength(status: Status)
    | Valid(compression: Option<Encoding>, len: nat)

  function Limit<M>(cfg: DecodeConfig<M>): nat {
    if cfg.limit.Some? then cfg.limit.value else DEFAULT_LIMIT
  }

  function ParseHeader<M>(cfg: DecodeConfig<M>, flag: byte, len: nat): Header {
    if flag == 1 && cfg.encoding.None? then
      BadFlag(NewStatus(Internal, "compressed message received but no grpc-encoding was specified"))
    else if flag > 1 then
      BadFlag(NewStatus(Internal, "invalid compression flag: " + Decimal(flag) + " (valid: 0 or 1)"))
    else if len > Limit(cfg) then
      BadLength(NewStatus(OutOfRange, "Error, decoded message length too large: found " + Decimal(len)
                                      + " bytes, the limit is: " + Decimal(Limit(cfg)) + " bytes"))
    else Valid(if flag == 1 then cfg.encoding else None, len)
  }

  /** The bytes the message decoder is given. */
  function Inflate<M>(cfg: DecodeConfig<M>, compression: Option<Encoding>, b: bytes): Result<bytes, Status> {
    if compression.None? then Success(b)
    else match cfg.decompress(compression.value, b)
      case Success(out) => Success(out)
      case Failure(text) => Failure(NewStatus(Internal, "decompression error: " + text))
  }

  /** The failure a response stands for once its body is over. */
  function EndStatus<M>(cfg: DecodeConfig<M>, trailers: Option<Headers>): Option<Status> {
    if cfg.direction.Response? then InferStatus(trailers, cfg.direction.http) else None
  }

  const UNEXPECTED_EOF := NewStatus(Internal, "Unexpected EOF decoding stream.")

  /** How headers, payloads and endings are read, whatever the pieces the bytes arrive in. */
  datatype Reading<!M> = Reading(
    header: (byte, nat) -> Header,
    inflate: (Option<Encoding>, bytes) -> Result<bytes, Status>,
    decode: bytes -> Result<M, Status>,
    endStatus: Option<Headers> -> Option<Status>,
    truncated: Status,
    isRequest: bool)

  function ReadingOf<M>(cfg: DecodeConfig<M>): Reading<M> {
    Reading((flag: byte, len: nat) => ParseHeader(cfg, flag, len), (c, b) => Inflate(cfg, c, b), cfg.decode,
            t => EndStatus(cfg, t), UNEXPECTED_EOF, cfg.direction == Request)
  }

  // ---- One poll --------------------------------------------------------------------------------

  datatype Dec = Dec(body: seq<BodyEvent>, state: State, buf: bytes, trailers: Option<Headers>)

  datatype Step<M> = NeedMore | Parsed(message: M) | Bad(status: Status)

  function TakeBody<M>(r: Reading<M>, d: Dec): (Dec, Step<M>)
    requires d.state.ReadBody?
  {
    var len := d.state.len;
    if |d.buf| < len then (d, NeedMore)
    else match r.inflate(d.state.compression, d.buf[..len])
      case Failure(s) => (d, Bad(s))
      case Success(payload) =>
        var rest := d.(buf := d.buf[len..]);
        match r.decode(payload)
        case Failure(s) => (rest, Bad(s))
        case Success(m) => (rest.(state := ReadHeader), Parsed(m))
  }

  function DecodeChunk<M>(r: Reading<M>, d: Dec): (Dec, Step<M>) {
    match d.state
    case Error(_) => (d, NeedMore)
    case ReadBody(_, _) => TakeBody(r, d)
    case ReadHeader =>
      if |d.buf| < HEADER_SIZE then (d, NeedMore)
      else match r.header(d.buf[0], GetU32(d.buf[1..HEADER_SIZE]))
        case BadFlag(s) => (d.(buf := d.buf[1..]), Bad(s))
        case BadLength(s) => (d.(buf := d.buf[HEADER_SIZE..]), Bad(s))
        case Valid(c, len) => TakeBody(r, d.(buf := d.buf[HEADER_SIZE..], state := ReadBody(c, len)))
  }

  datatype FrameResult = Stalled | More | Over | Failing(status: Status)

  function AtEnd<M>(r: Reading<M>, d: Dec): FrameResult {
    if d.buf != [] then Failing(r.truncated) else Over
  }

  function AddTrailers(kept: Option<Headers>, h: Headers): Option<Headers> {
    Some(if kept.Some? then Merge(kept.value, h) else h)
  }

  function PollFrame<M>(r: Reading<M>, d: Dec): (Dec, FrameResult) {
    if d.body == [] then (d, AtEnd(r, d))
    else
      var rest := d.(body := d.body[1..]);
      match d.body[0]
      case Pending => (rest, Stalled)
      case Data(data) => (rest.(buf := d.buf + data), More)
      case Trailers(h) => (rest.(trailers := AddTrailers(d.trailers, h)), Over)
      case End => (rest, AtEnd(r, d))
      case Broken(s) =>
        if r.isRequest && s.code == Cancelled then (rest, Over)
        else (rest.(state := Error(Some(s))), Failing(s))
  }

  function Report<M>(status: Option<Status>): Outcome<M> {
    if status.Some? then Failed(status.value) else Finished
  }

  /** The end of a body: a failure drops the trailers and is left to be reported. */
  function Respond<M>(r: Reading<M>, d: Dec): (Dec, Option<Polled<M>>) {
    match r.endStatus(d.trailers)
    case None => (d, Some(Ready(Finished)))
    case Some(s) => (d.(trailers := None, state := Error(Some(s))), None)
  }

  /** One turn of the polling loop; none means that it goes round again. */
  function Turn<M>(r: Reading<M>, d: Dec): (Dec, Option<Polled<M>>) {
    if d.state.Error? then (d.(state := Error(None)), Some(Ready(Report(d.state.status))))
    else
      var (chunk, step) := DecodeChunk(r, d);
      match step
      case Bad(s) => (chunk, Some(Ready(Failed(s))))
      case Parsed(m) => (chunk, Some(Ready(Message(m))))
      case NeedMore =>
        var (next, frame) := PollFrame(r, chunk);
        match frame
        case Stalled => (next, Some(NotReady))
        case More => (next, None)
        case Failing(s) => (next, Some(Ready(Failed(s))))
        case Over => Respond(r, next)
  }

  /** Bytes at hand or still to come; a header that has been read counts until its message is out. */
  function Weight(d: Dec): nat {
    |d.buf| + DataBytes(d.body) + if d.state.ReadBody? then HEADER_SIZE else 0
  }

  predicate Advances<M>(d: Dec, after: Dec, p: Polled<M>) {
    && |after.body| <= |d.body|
    && (p.NotReady? ==> |after.body| < |d.body| && Weight(after) <= Weight(d))
    && (p.Ready? && p.outcome.Message? ==> Weight(after) + HEADER_SIZE <= Weight(d))
  }

  lemma ChunkAdvances<M>(r: Reading<M>, d: Dec)
    ensures var (chunk, step) := DecodeChunk(r, d);
            && chunk.body == d.body && chunk.trailers == d.trailers
            && (step.Parsed? ==> Weight(chunk) + HEADER_SIZE <= Weight(d))
            && (step.NeedMore? ==> Weight(chunk) == Weight(d) && (chunk.state.Error? <==> d.state.Error?))
  {
  }

  lemma FrameAdvances<M>(r: Reading<M>, d: Dec)
    ensures var (next, frame) := PollFrame(r, d);
            && |next.body| <= |d.body| && Weight(next) <= Weight(d)
            && (frame.Stalled? || frame.More? ==> |next.body| < |d.body|)
            && (!frame.Failing? ==> next.state == d.state)
  {
  }

  lemma TurnAdvances<M>(r: Reading<M>, d: Dec)
    ensures var (next, p) := Turn(r, d);
            if p.Some? then Advances(d, next, p.value)
            else |next.body| <= |d.body| && Weight(next) <= Weight(d)
                 && (|next.body| < |d.body| || (next.state.Error? && !d.state.Error?))
  {
    ChunkAdvances(r, d);
    FrameAdvances(r, DecodeChunk(r, d).0);
  }

  function PollNext<M>(r: Reading<M>, d: Dec): (p: (Dec, Polled<M>))
    ensures Advances(d, p.0, p.1)
    decreases |d.body|, if d.state.Error? then 0 else 1
  {
    TurnAdvances(r, d);
    var (next, p) := Turn(r, d);
    if p.Some? then (next, p.value) else PollNext(r, next)
  }

  // ---- Polls until something is ready, and until something is final ------------------------------

  function Await<M>(r: Reading<M>, d: Dec): (a: (Dec, Outcome<M>))
    ensures |a.0.body| <= |d.body|
    ensures a.1.Message? ==> Weight(a.0) + HEADER_SIZE <= Weight(d)
    decreases |d.body|
  {
    var (next, p) := PollNext(r, d);
    if p.NotReady? then Await(r, next) else (next, p.outcome)
  }

  /** The outcomes up to and including the first that is not a message, and the state they leave. */
  function Observe<M>(r: Reading<M>, d: Dec): (o: (Dec, seq<Outcome<M>>))
    decreases Weight(d)
  {
    var (next, outcome) := Await(r, d);
    if outcome.Message? then
      var (last, rest) := Observe(r, next);
      (last, [outcome] + rest)
    else (next, [outcome])
  }

  /** Trailers that have arrived, or those that arrive once all messages have been drained. */
  function DrainTrailers<M>(r: Reading<M>, d: Dec): (Dec, Result<Option<Headers>, Status>)
    decreases Weight(d)
  {
    if d.trailers.Some? then (d.(trailers := None), Success(d.trailers))
    else Drain(r, d)
  }

  function Drain<M>(r: Reading<M>, d: Dec): (Dec, Result<Option<Headers>, Status>)
    decreases Weight(d)
  {
    var (next, outcome) := Await(r, d);
    match outcome
    case Message(_) => Drain(r, next)
    case Failed(s) => (next, Failure(s))
    case Finished => (next.(trailers := None), Success(next.trailers))
  }

  // ---- The stream object -----------------------------------------------------------------------

  class Streaming<M> {
    const r: Reading<M>
    var body: seq<BodyEvent>
    var state: State
    var buf: bytes
    var trailers: Option<Headers>
    var decompressBuf: bytes

    function View(): Dec
      reads this
    {
      Dec(body, state, buf, trailers)
    }

    constructor (cfg: DecodeConfig<M>, body: seq<BodyEvent>)
      ensures r == ReadingOf(cfg) && View() == Dec(body, ReadHeader, [], None)
    {
      r := ReadingOf(cfg);
      this.body := body;
      state, buf, trailers, decompressBuf := ReadHeader, [], None, [];
    }

    /** Parses one message out of the buffer, if it is all there. */
    method TryDecode() returns (step: Step<M>)
      modifies this
      ensures (View(), step) == DecodeChunk(r, old(View()))
    {
      if state.ReadHeader? {
        if |buf| < HEADER_SIZE {
          return NeedMore;
        }
        var header := r.header(buf[0], GetU32(buf[1..HEADER_SIZE]));
        match header
        case BadFlag(s) =>
          buf := buf[1..];
          return Bad(s);
        case BadLength(s) =>
          buf := buf[HEADER_SIZE..];
          return Bad(s);
        case Valid(compression, len) =>
          buf := buf[HEADER_SIZE..];
          state := ReadBody(compression, len);
      }
      if state.ReadBody? {
        var len := state.len;
        if |buf| < len {
          return NeedMore;
        }
        var payload := buf[..len];
        decompressBuf := [];
        var inflated := r.inflate(state.compression, payload);
        if inflated.Failure? {
          return Bad(inflated.error);
        }
        if state.compression.Some? {
          decompressBuf := inflated.value;
        }
        buf := buf[len..];
        var decoded := r.decode(inflated.value);
        if decoded.Failure? {
          return Bad(decoded.error);
        }
        state := ReadHeader;
        return Parsed(decoded.value);
      }
      return NeedMore;
    }

    method NextFrame() returns (frame: FrameResult)
      modifies this
      ensures (View(), frame) == PollFrame(r, old(View()))
    {
      var event := End;
      if body != [] {
        event := body[0];
        body := body[1..];
      }
      match event
      case Pending => frame := Stalled;
      case Data(data) =>
        buf := buf + data;
        frame := More;
      case Trailers(h) =>
        if trailers.Some? {
          trailers := Some(Merge(trailers.value, h));
        } else {
          trailers := Some(h);
        }
        frame := Over;
      case Broken(s) =>
        if r.isRequest && s.code == Cancelled {
          return Over;
        }
        state := Error(Some(s));
        frame := Failing(s);
      case End => frame := if buf != [] then Failing(r.truncated) else Over;
    }

    method TakeTurn() returns (p: Option<Polled<M>>)
      modifies this
      ensures (View(), p) == Turn(r, old(View()))
    {
      if state.Error? {
        p := Some(Ready(Report(state.status)));
        state := Error(None);
        return;
      }
      var step := TryDecode();
      match step
      case Parsed(m) => p := Some(Ready(Outcome.Message(m)));
      case Bad(s) => p := Some(Ready(Failed(s)));
      case NeedMore =>
        var frame := NextFrame();
        match frame
        case Stalled => p := Some(NotReady);
        case Failing(s) => p := Some(Ready(Failed(s)));
        case More => p := None;
        case Over =>
          var failure := r.endStatus(trailers);
          if failure.None? {
            return Some(Ready(Finished));
          }
          trailers := None;
          state := Error(failure);
          p := None;
    }

    method Poll() returns (p: Polled<M>)
      modifies this
      ensures (View(), p) == PollNext(r, old(View()))
    {
      while true
        invariant PollNext(r, old(View())) == PollNext(r, View())
        decreases |body|, if state.Error? then 0 else 1
      {
        TurnAdvances(r, View());
        var turn := TakeTurn();
        if turn.Some? {
          return turn.value;
        }
      }
    }

    method NextMessage() returns (outcome: Outcome<M>)
      modifies this
      ensures (View(), outcome) == Await(r, old(View()))
    {
      while true
        invariant Await(r, old(View())) == Await(r, View())
        decreases |body|
      {
        var p := Poll();
        if p.Ready? {
          return p.outcome;
        }
      }
    }

    method TakeTrailers() returns (taken: Result<Option<Headers>, Status>)
      modifies this
      ensures (View(), taken) == DrainTrailers(r, old(View()))
    {
      if trailers.Some? {
        taken := Success(trailers);
        trailers := None;
        return;
      }
      while true
        invariant DrainTrailers(r, old(View())) == Drain(r, View())
        decreases Weight(View())
      {
        var outcome := NextMessage();
        match outcome
        case Message(_) =>
        case Failed(s) => return Failure(s);
        case Finished => break;
      }
      taken := Success(trailers);
      trailers := None;
    }
  }
}
