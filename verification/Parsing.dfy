/** The resumable parser computes a function of the bytes and the ending alone, however they arrive. */
module Parsing {
  import opened Wire
  import opened Headers
  import opened Status
  import opened Body
  import opened Decode

  /** The outcome once the bytes left over do not make up a message and the body ends. */
  function AfterBody<M>(r: Reading<M>, leftover: bool, ending: BodyEvent, trailers: Option<Headers>): Outcome<M>
    requires Stops(ending)
  {
    match ending
    case End => if leftover then Failed(r.truncated) else Report(r.endStatus(trailers))
    case Trailers(h) => Report(r.endStatus(AddTrailers(trailers, h)))
    case Broken(s) => if r.isRequest && s.code == Cancelled then Report(r.endStatus(trailers)) else Failed(s)
  }

  /** One-shot parser of everything that follows a frame header. */
  function ParseBody<M>(
    r: Reading<M>, state: State, b: bytes, ending: BodyEvent, trailers: Option<Headers>): seq<Outcome<M>>
    requires state.ReadBody? && Stops(ending)
    decreases |b|, 1
  {
    if |b| < state.len then [AfterBody(r, b != [], ending, trailers)]
    else match r.inflate(state.compression, b[..state.len])
      case Failure(s) => [Failed(s)]
      case Success(payload) =>
        match r.decode(payload)
        case Failure(s) => [Failed(s)]
        case Success(m) => [Message(m)] + Parse(r, b[state.len..], ending, trailers)
  }

  /** One-shot parser of a whole body: its messages, and what comes after them. */
  function Parse<M>(r: Reading<M>, b: bytes, ending: BodyEvent, trailers: Option<Headers>): seq<Outcome<M>>
    requires Stops(ending)
    decreases |b|, 0
  {
    if |b| < HEADER_SIZE then [AfterBody(r, b != [], ending, trailers)]
    else match r.header(b[0], GetU32(b[1..HEADER_SIZE]))
      case BadFlag(s) => [Failed(s)]
      case BadLength(s) => [Failed(s)]
      case Valid(c, len) => ParseBody(r, ReadBody(c, len), b[HEADER_SIZE..], ending, trailers)
  }

  lemma ParseOne<M>(r: Reading<M>, b: bytes, ending: BodyEvent, trailers: Option<Headers>, len: nat)
    requires Stops(ending) && |b| >= HEADER_SIZE + len
    requires var header := r.header(b[0], GetU32(b[1..HEADER_SIZE]));
             header.Valid? && header.len == len
             && r.inflate(header.compression, b[HEADER_SIZE..HEADER_SIZE + len]).Success?
    ensures var header := r.header(b[0], GetU32(b[1..HEADER_SIZE]));
            match r.decode(r.inflate(header.compression, b[HEADER_SIZE..HEADER_SIZE + len]).value)
            case Success(m) =>
              Parse(r, b, ending, trailers) == [Message(m)] + Parse(r, b[HEADER_SIZE + len..], ending, trailers)
            case Failure(s) => Parse(r, b, ending, trailers) == [Failed(s)]
  {
    assert b[HEADER_SIZE..][..len] == b[HEADER_SIZE..HEADER_SIZE + len];
    assert b[HEADER_SIZE..][len..] == b[HEADER_SIZE + len..];
  }

  lemma ParseIncomplete<M>(r: Reading<M>, b: bytes, ending: BodyEvent, trailers: Option<Headers>)
    requires Stops(ending)
    requires |b| < HEADER_SIZE ||
             (var header := r.header(b[0], GetU32(b[1..HEADER_SIZE])); header.Valid? && |b| < HEADER_SIZE + header.len)
    ensures Parse(r, b, ending, trailers) == [AfterBody(r, b != [] && |b| != HEADER_SIZE, ending, trailers)]
  {
  }

  /** What a receiver in state `d` will report, from the bytes it has and will get. */
  function Expected<M>(r: Reading<M>, d: Dec): seq<Outcome<M>> {
    var b, ending := d.buf + Payload(d.body), Terminal(d.body);
    match d.state
    case Error(status) => [Report(status)]
    case ReadHeader => Parse(r, b, ending, d.trailers)
    case ReadBody(_, _) => ParseBody(r, d.state, b, ending, d.trailers)
  }

  ghost predicate Meets<M>(r: Reading<M>, d: Dec, next: Dec, p: Option<Polled<M>>) {
    match p
    case None => Expected(r, next) == Expected(r, d)
    case Some(NotReady) => Expected(r, next) == Expected(r, d)
    case Some(Ready(Message(m))) => Expected(r, d) == [Message(m)] + Expected(r, next)
    case Some(Ready(outcome)) => Expected(r, d) == [outcome]
  }

  lemma TakeBodyMeets<M>(r: Reading<M>, d: Dec)
    requires d.state.ReadBody?
    ensures var (next, step) := TakeBody(r, d);
            match step
            case NeedMore => next == d && |d.buf| < d.state.len
            case Parsed(m) => Expected(r, d) == [Message(m)] + Expected(r, next)
            case Bad(s) => Expected(r, d) == [Failed(s)]
  {
    var len, rest := d.state.len, Payload(d.body);
    if |d.buf| >= len {
      assert (d.buf + rest)[..len] == d.buf[..len];
      assert (d.buf + rest)[len..] == d.buf[len..] + rest;
    }
  }

  /** With everything in the buffer parsed, only what arrives next matters. */
  ghost predicate Drained(d: Dec) {
    match d.state
    case Error(_) => false
    case ReadHeader => |d.buf| < HEADER_SIZE
    case ReadBody(_, len) => |d.buf| < len
  }

  lemma ChunkMeets<M>(r: Reading<M>, d: Dec)
    requires !d.state.Error?
    ensures var (next, step) := DecodeChunk(r, d);
            match step
            case NeedMore => Drained(next) && Expected(r, next) == Expected(r, d)
            case Parsed(m) => Expected(r, d) == [Message(m)] + Expected(r, next)
            case Bad(s) => Expected(r, d) == [Failed(s)]
  {
    if d.state.ReadBody? {
      TakeBodyMeets(r, d);
    } else if |d.buf| >= HEADER_SIZE {
      var all := d.buf + Payload(d.body);
      assert all[0] == d.buf[0] && all[1..HEADER_SIZE] == d.buf[1..HEADER_SIZE];
      assert all[HEADER_SIZE..] == d.buf[HEADER_SIZE..] + Payload(d.body);
      var header := r.header(d.buf[0], GetU32(d.buf[1..HEADER_SIZE]));
      if header.Valid? {
        TakeBodyMeets(r, d.(buf := d.buf[HEADER_SIZE..], state := ReadBody(header.compression, header.len)));
      }
    }
  }

  /** A drained receiver whose body ends here expects exactly what follows the messages. */
  lemma DrainedExpects<M>(r: Reading<M>, d: Dec)
    requires Drained(d) && Payload(d.body) == []
    ensures Expected(r, d) == [AfterBody(r, d.buf != [], Terminal(d.body), d.trailers)]
  {
    assert d.buf + [] == d.buf;
  }

  lemma FrameMeets<M>(r: Reading<M>, d: Dec)
    requires Drained(d)
    ensures var (next, frame) := PollFrame(r, d);
            match frame
            case Stalled => Expected(r, next) == Expected(r, d)
            case More => Expected(r, next) == Expected(r, d)
            case Failing(s) => Expected(r, d) == [Failed(s)]
            case Over => Expected(r, d) == [Report(r.endStatus(next.trailers))]
  {
    if d.body != [] && d.body[0].Data? {
      var data, rest := d.body[0].data, Payload(d.body[1..]);
      assert d.buf + data + rest == d.buf + (data + rest);
    } else if d.body == [] || Stops(d.body[0]) {
      DrainedExpects(r, d);
    }
  }

  lemma TurnMeets<M>(r: Reading<M>, d: Dec)
    ensures Meets(r, d, Turn(r, d).0, Turn(r, d).1)
  {
    if !d.state.Error? {
      ChunkMeets(r, d);
      var (chunk, step) := DecodeChunk(r, d);
      if step.NeedMore? {
        FrameMeets(r, chunk);
      }
    }
  }

  lemma {:induction false} PollMeets<M>(r: Reading<M>, d: Dec)
    ensures var (next, p) := PollNext(r, d); Meets(r, d, next, Some(p))
    decreases |d.body|, if d.state.Error? then 0 else 1
  {
    TurnMeets(r, d);
    TurnAdvances(r, d);
    var (next, p) := Turn(r, d);
    if p.None? {
      PollMeets(r, next);
    }
  }

  lemma {:induction false} AwaitMeets<M>(r: Reading<M>, d: Dec)
    ensures var (next, outcome) := Await(r, d); Meets(r, d, next, Some(Ready(outcome)))
    decreases |d.body|
  {
    PollMeets(r, d);
    var (next, p) := PollNext(r, d);
    if p.NotReady? {
      AwaitMeets(r, next);
    }
  }

  /** Repeated polling reports exactly what the one-shot parser finds. */
  lemma {:induction false} ObserveMeets<M>(r: Reading<M>, d: Dec)
    ensures Observe(r, d).1 == Expected(r, d)
    decreases Weight(d)
  {
    AwaitMeets(r, d);
    var (next, outcome) := Await(r, d);
    if outcome.Message? {
      ObserveMeets(r, next);
    }
  }

  function NewReceiver(body: seq<BodyEvent>): Dec {
    Dec(body, ReadHeader, [], None)
  }

  /** The parser sees bytes and ending only: no split into data frames, empty ones and waits included, matters. */
  lemma ChunkingIsInvisible<M>(r: Reading<M>, body: seq<BodyEvent>, other: seq<BodyEvent>)
    requires Carries(body, other)
    ensures Observe(r, NewReceiver(body)).1 == Parse(r, Payload(body), Terminal(body), None)
    ensures Observe(r, NewReceiver(other)).1 == Observe(r, NewReceiver(body)).1
  {
    ObserveMeets(r, NewReceiver(body));
    ObserveMeets(r, NewReceiver(other));
    assert [] + Payload(body) == Payload(body);
  }
}
