/** Every way in which a unary call can end, read off what its bodies yield. */
module CallEndings {
  import opened Wire
  import opened Headers
  import opened Status
  import opened Compression
  import opened Body
  import opened Encode
  import opened SendBody
  import opened Decode
  import opened Parsing
  import opened Receiving
  import opened Transparency
  import opened Rpc
  import opened UnaryCall
  import opened Refusals
  import opened Batches

  // ---- One message out of a stream --------------------------------------------------------------------

  /** Draining gives the trailers that arrive, or the failure that the outcomes end with. */
  lemma {:induction false} DrainIsLast<T>(r: Reading<T>, d: Dec)
    requires !d.state.Error? && d.trailers.None?
    ensures var outcomes := Observe(r, d).1;
            && outcomes != [] && !Last(outcomes).Message?
            && Drain(r, d).1 == if Last(outcomes).Failed? then Failure(Last(outcomes).status)
                                else Success(ArrivedTrailers(d))
    decreases Weight(d)
  {
    AwaitKeeps(r, d);
    ObserveStep(r, d);
    var (next, outcome) := Await(r, d);
    if outcome.Message? {
      DrainIsLast(r, next);
    }
  }

  function LastTrailers(body: seq<BodyEvent>): Headers {
    if Terminal(body).Trailers? then Terminal(body).trailers else map[]
  }

  /**
   * A failure in place of the message is the result, nothing in its place is the missing message, and a
   * failure behind the message, further messages or not, is the result all the same. Only a clean end
   * gives the first message, with the trailers on top of the headers.
   */
  ghost predicate IsReadOne<T>(
    outcomes: seq<Outcome<T>>, headers: Headers, body: seq<BodyEvent>, missing: string,
    result: Result<Message<T>, Status>)
    requires outcomes != []
  {
    match outcomes[0]
    case Failed(s) => result == Failure(s)
    case Finished => result == Failure(Status(Internal, missing, [], map[]))
    case Message(m) =>
      match Last(outcomes)
      case Failed(s) => result == Failure(s)
      case _ => result == Success(Message.Message(headers + LastTrailers(body), m))
  }

  lemma OneIsRead<T>(r: Reading<T>, headers: Headers, body: seq<BodyEvent>, missing: string)
    ensures var outcomes := Observe(r, NewReceiver(body)).1;
            outcomes != [] &&
            IsReadOne(outcomes, headers, body, missing, ReadOne(r, headers, body, NewStatus(Internal, missing)))
  {
    var start := NewReceiver(body);
    var (next, outcome) := Await(r, start);
    AwaitKeeps(r, start);
    ObserveStep(r, start);
    if outcome.Message? {
      DrainIsLast(r, next);
      assert headers + map[] == headers;
    }
  }

  // ---- Responses and requests -------------------------------------------------------------------------

  /** How the body of a response with these headers is read, every setting by its name. */
  function ExpectedReading<Q, A>(c: Client<Q, A>, encoding: Option<Encoding>, status: Option<Status>, http: nat)
    : DecodeConfig<A>
  {
    if status.None? then
      DecodeConfig(c.codec.decode, c.codec.decompress, encoding, c.codec.receiveLimit, Response(http))
    else DecodeConfig(c.codec.decode, c.codec.decompress, None, None, EmptyResponse)
  }

  /** A failing status in the headers is the result; otherwise the outcomes of the body decide. */
  lemma ResponseIsRead<Q, A>(c: Client<Q, A>, h: Headers, body: seq<BodyEvent>, http: nat)
    ensures var result := ReadResponse(c, HttpMessage(h, body), http);
            match FromEncodingHeader(h, c.accept)
            case Failure(s) => result == Failure(s)
            case Success(encoding) =>
              var status := FromHeaderMap(h);
              if status.Some? && status.value.code != Ok then result == Failure(status.value)
              else
                var outcomes := Observe(ReadingOf(ExpectedReading(c, encoding, status, http)), NewReceiver(body)).1;
                && outcomes != []
                && if outcomes[0].Failed? then
                     result == Failure(outcomes[0].status.(metadata := outcomes[0].status.metadata + h))
                   else IsReadOne(outcomes, h, body, "Missing response message.", result)
  {
    var reading := ResponseReading(c, h, http);
    if reading.Success? {
      OneIsRead(ReadingOf(reading.value), h, body, "Missing response message.");
      ObserveStep(ReadingOf(reading.value), NewReceiver(body));
    }
  }

  lemma RequestIsRead<Q, A>(s: Server<Q, A>, h: Headers, body: seq<BodyEvent>)
    ensures var result := ReadRequest(s, HttpMessage(h, body));
            match FromEncodingHeader(h, s.accept)
            case Failure(status) => result == Failure(status)
            case Success(encoding) =>
              var cfg := DecodeConfig(s.codec.decode, s.codec.decompress, encoding, s.codec.receiveLimit, Request);
              var outcomes := Observe(ReadingOf(cfg), NewReceiver(body)).1;
              outcomes != [] && IsReadOne(outcomes, h, body, "Missing request message.", result)
  {
    var reading := RequestReading(s, h);
    if reading.Success? {
      OneIsRead(ReadingOf(reading.value), h, body, "Missing request message.");
    }
  }

  // ---- Answers that are streams -----------------------------------------------------------------------

  /**
   * A unary call answered by a stream: the first message, if the stream ends well; the status of the
   * stream if it fails, behind messages too; the missing message if it ends well without one.
   */
  ghost predicate IsAnswer<A>(source: seq<SourceEvent<A>>, h: Headers, result: Result<Message<A>, Status>) {
    var failure := FirstFailure(source);
    var failed := failure.Some? && failure.value.code != Ok;
    if failed && Items(source) == [] then
      result == Failure(Received(failure.value).(metadata := Received(failure.value).metadata + h))
    else if failed then result == Failure(Received(failure.value))
    else if Items(source) == [] then result == Failure(Status(Internal, "Missing response message.", [], map[]))
    else result == Success(Message.Message(h + WithStatus(Ending(source), map[]), Items(source)[0]))
  }

  lemma StreamAnswers<Q, A(!new)>(
    c: Client<Q, A>, e: EncodeConfig<A>, h: Headers, source: seq<SourceEvent<A>>, body: seq<BodyEvent>)
    requires FromEncodingHeader(h, c.accept) == Success(e.compression) && FromHeaderMap(h).None?
    requires Agree(e, ExpectedReading(c, e.compression, None, 200), Items(source))
    requires forall i :: 0 <= i < |Items(source)| ==> Frame(e, Items(source)[i]).Success?
    requires Carries(Run(BatchingOf(e), NewSender(Role.Server, source)), body)
    ensures IsAnswer(source, h, ReadResponse(c, HttpMessage(h, body), 200))
  {
    var d := ExpectedReading(c, e.compression, None, 200);
    var items, verdict := Items(source), Report<A>(Verdict(Ending(source)));
    EncodableIsDelivered(e, d, source, body);
    ResponseIsRead(c, h, body, 200);
    var outcomes := Messages(items) + [verdict];
    assert Last(outcomes) == verdict;
    assert outcomes[0] == if items == [] then verdict else Outcome.Message(items[0]);
  }

  lemma MessageThenFailure<M>(m: M, failure: Status)
    ensures var source := [Item(m), SourceEvent.Failed(failure)];
            Items(source) == [m] && FirstFailure(source) == Some(failure)
  {
    var source := [Item(m), SourceEvent.Failed(failure)];
    assert source[1..] == [SourceEvent.Failed(failure)];
    assert FirstFailure(source) == FirstFailure(source[1..]);
  }

  lemma LateFailureAnswers<Q, A(!new)>(
    c: Client<Q, A>, e: EncodeConfig<A>, h: Headers, m: A, failure: Status, body: seq<BodyEvent>)
    requires FromEncodingHeader(h, c.accept) == Success(e.compression) && FromHeaderMap(h).None?
    requires Frame(e, m).Success? && Agree(e, ExpectedReading(c, e.compression, None, 200), [m]) && failure.code != Ok
    requires Carries(Run(BatchingOf(e), NewSender(Role.Server, [Item(m), SourceEvent.Failed(failure)])), body)
    ensures ReadResponse(c, HttpMessage(h, body), 200) == Failure(Received(failure))
  {
    MessageThenFailure(m, failure);
    StreamAnswers(c, e, h, [Item(m), SourceEvent.Failed(failure)], body);
  }

  /** A message and then a failure: the call fails, although its message arrived. */
  lemma LateFailureFails<Q, A(!new)>(
    c: Client<Q, A>, s: Server<Q, A>, metadata: Headers, picked: Option<Encoding>, m: A, failure: Status,
    body: seq<BodyEvent>)
    requires (picked.Some? ==> c.accept.Has(picked.value)) && ResponseFits(c, s, picked, m) && failure.code != Ok
    requires Carries(
               Run(BatchingOf(Sending(s.codec, picked)),
                   NewSender(Role.Server, [Item(m), SourceEvent.Failed(failure)])),
               body)
    ensures ReadResponse(c, HttpMessage(ResponseHeaders(metadata, picked), body), 200) == Failure(Received(failure))
  {
    var h := ResponseHeaders(metadata, picked);
    AnnouncedEncoding(h, picked, c.accept);
    assert Get(h, GrpcStatus) == None;
    LateFailureAnswers(c, Sending(s.codec, picked), h, m, failure, body);
  }

  // ---- Requests that are refused ------------------------------------------------------------------------

  /** A request the server cannot read fails the call with the reason, without the service being asked. */
  lemma UnreadableRequestFails<Q, A>(
    c: Client<Q, A>, s: Server<Q, A>, service: Message<Q> -> Result<Message<A>, Status>, request: HttpMessage,
    back: seq<BodyEvent>)
    requires ReadRequest(s, request).Failure? && Carries(Handle(s, service, request).body, back)
    ensures var reason := ReadRequest(s, request).error;
            var result := ReadResponse(c, HttpMessage(Handle(s, service, request).headers, back), 200);
            && result.Failure?
            && (reason.code != Ok ==> result.error.code == reason.code && result.error.message == reason.message
                                      && result.error.details == reason.details)
  {
    FailureArrives(c, ReadRequest(s, request).error, back);
  }

  /** A client that compresses with what the server does not accept is told that it is not implemented. */
  lemma UnsupportedEncodingFails<Q, A>(
    c: Client<Q, A>, s: Server<Q, A>, service: Message<Q> -> Result<Message<A>, Status>, metadata: Headers,
    sent: seq<BodyEvent>, back: seq<BodyEvent>)
    requires c.send.Some? && !s.accept.Has(c.send.value)
    requires Carries(Handle(s, service, HttpMessage(RequestHeaders(c, metadata), sent)).body, back)
    ensures var response := Handle(s, service, HttpMessage(RequestHeaders(c, metadata), sent));
            var result := ReadResponse(c, HttpMessage(response.headers, back), 200);
            result.Failure? && result.error.code == Unimplemented
  {
    var h := RequestHeaders(c, metadata);
    RequestHeadersAnnounce(c, metadata);
    NameRoundTrip(c.send.value);
    assert FromEncodingHeader(h, s.accept).Failure? && FromEncodingHeader(h, s.accept).error.code == Unimplemented;
    RequestIsRead(s, h, sent);
    UnreadableRequestFails(c, s, service, HttpMessage(h, sent), back);
  }

  // ---- Messages that are too long -----------------------------------------------------------------------

  /** An answer above the send limit of the server fails at the client as out of range. */
  lemma LongAnswerFails<Q, A(!new)>(
    c: Client<Q, A>, s: Server<Q, A>, answer: Message<A>, picked: Option<Encoding>, payload: bytes,
    body: seq<BodyEvent>)
    requires picked.Some? ==> c.accept.Has(picked.value)
    requires IsPayload(Sending(s.codec, picked), answer.content, payload)
    requires s.codec.sendLimit.Some? && |payload| > s.codec.sendLimit.value
    requires Carries(SingleBody(s.codec, picked, Role.Server, answer.content), body)
    ensures var result := ReadResponse(c, HttpMessage(ResponseHeaders(answer.metadata, picked), body), 200);
            result.Failure? && result.error.code == OutOfRange
  {
    FrameIsChecked(Sending(s.codec, picked), answer.content);
    UnencodableArrives(c, s, answer, picked, body);
  }

  /** A response that announces more than the receive limit of the client fails as out of range. */
  lemma LongResponseFails<Q, A>(
    c: Client<Q, A>, metadata: Headers, picked: Option<Encoding>, len: nat, b: bytes, body: seq<BodyEvent>)
    requires picked.Some? ==> c.accept.Has(picked.value)
    requires c.codec.receiveLimit.Some? && c.codec.receiveLimit.value < len < U32_LIMIT
    requires Payload(body) == [0] + PutU32(len) + b
    ensures var result := ReadResponse(c, HttpMessage(ResponseHeaders(metadata, picked), body), 200);
            result.Failure? && result.error.code == OutOfRange
  {
    var h := ResponseHeaders(metadata, picked);
    AnnouncedEncoding(h, picked, c.accept);
    assert FromHeaderMap(h) == None;
    TooLongIsRefused(ExpectedReading(c, picked, None, 200), 0, len, b, body);
    ResponseIsRead(c, h, body, 200);
  }

  /** A request that announces more than the receive limit of the server is refused as out of range. */
  lemma LongRequestFails<Q, A>(
    c: Client<Q, A>, s: Server<Q, A>, metadata: Headers, len: nat, b: bytes, body: seq<BodyEvent>)
    requires c.send.Some? ==> s.accept.Has(c.send.value)
    requires s.codec.receiveLimit.Some? && s.codec.receiveLimit.value < len < U32_LIMIT
    requires Payload(body) == [0] + PutU32(len) + b
    ensures var result := ReadRequest(s, HttpMessage(RequestHeaders(c, metadata), body));
            result.Failure? && result.error.code == OutOfRange
  {
    var h := RequestHeaders(c, metadata);
    RequestHeadersAnnounce(c, metadata);
    AnnouncedEncoding(h, c.send, s.accept);
    var cfg := DecodeConfig(s.codec.decode, s.codec.decompress, c.send, s.codec.receiveLimit, Request);
    TooLongIsRefused(cfg, 0, len, b, body);
    RequestIsRead(s, h, body);
  }

  // ---- Trailers and metadata -----------------------------------------------------------------------------

  /** Whoever has read a stream to its clean end can take the trailers that came. */
  lemma TrailersCanBeTaken<T>(r: Reading<T>, body: seq<BodyEvent>)
    requires Terminal(body).Trailers? && Last(Observe(r, NewReceiver(body)).1).Finished?
    ensures var (next, taken) := DrainTrailers(r, Observe(r, NewReceiver(body)).0);
            taken == Success(Some(Terminal(body).trailers)) && next.trailers.None?
  {
    ObserveKeeps(r, NewReceiver(body));
  }

  /** Trailers that come in two frames add up, the later ones replacing names of the earlier. */
  lemma TrailersAddUp<T>(r: Reading<T>, first: Headers, second: Headers)
    requires r.endStatus(Some(first)).None? && r.endStatus(Some(first + second)).None?
    ensures var (once, p) := Decode.PollNext(r, NewReceiver([Trailers(first), Trailers(second)]));
            var (twice, q) := Decode.PollNext(r, once);
            && p == Ready(Finished) == q
            && DrainTrailers(r, once).1 == Success(Some(first))
            && DrainTrailers(r, twice).1 == Success(Some(first + second))
  {
    var body := [Trailers(first), Trailers(second)];
    assert body[1..] == [Trailers(second)];
  }

  /** The metadata of an answer: custom entries as the service gave them, and the status Ok. */
  lemma AnswerMetadataIsExact(metadata: Headers, picked: Option<Encoding>)
    ensures var h := AnswerMetadata(metadata, picked);
            && HasCustom(h, metadata)
            && Get(h, GrpcStatus) == Some("0") && GrpcMessage !in h && Get(h, ContentType) == Some("application/grpc")
  {
    CodesAreWritten(Ok);
    ResponseHeadersAreExact(metadata, picked);
  }
}
