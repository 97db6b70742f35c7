/** The client and the server half of a unary call, as they drive the codec. */
module Rpc {
  import opened Wire
  import opened Headers
  import opened Status
  import opened Compression
  import opened Body
  import opened Encode
  import opened SendBody
  import opened Decode
  import opened Parsing

  datatype Message<T> = Message(metadata: Headers, content: T)

  datatype HttpMessage = HttpMessage(headers: Headers, body: seq<BodyEvent>)

  datatype Codec<!S, !R> = Codec(
    encode: S -> Written,
    decode: bytes -> Result<R, Status>,
    compress: (Encoding, bytes) -> Written,
    decompress: (Encoding, bytes) -> Result<bytes, string>,
    sendLimit: Option<nat>,
    receiveLimit: Option<nat>,
    threshold: nat)

  function Sending<S, R>(codec: Codec<S, R>, compression: Option<Encoding>): EncodeConfig<S> {
    EncodeConfig(codec.encode, codec.compress, compression, codec.sendLimit, codec.threshold)
  }

  function Receiver<S, R>(codec: Codec<S, R>, encoding: Option<Encoding>, direction: Direction): DecodeConfig<R> {
    DecodeConfig(codec.decode, codec.decompress, encoding, codec.receiveLimit, direction)
  }

  /** What a body of this one message yields when it is polled to its end. */
  function SingleBody<S, R>(codec: Codec<S, R>, compression: Option<Encoding>, role: Role, content: S): seq<BodyEvent> {
    Run(BatchingOf(Sending(codec, compression)), NewSender(role, [Item(content)]))
  }

  // ---- Client ---------------------------------------------------------------------------------------

  datatype Client<!Q, !A> = Client(codec: Codec<Q, A>, send: Option<Encoding>, accept: Enabled)

  function WithEncoding(h: Headers, encoding: Option<Encoding>): Headers {
    if encoding.Some? then Insert(h, GrpcEncoding, EncodingName(encoding.value)) else h
  }

  function RequestHeaders<Q, A>(c: Client<Q, A>, metadata: Headers): Headers {
    var h := Insert(Insert(Sanitized(metadata), Te, "trailers"), ContentType, "application/grpc");
    var h := WithEncoding(h, c.send);
    var accepted := AcceptEncodingValue(c.accept);
    if accepted.Some? then Insert(h, GrpcAcceptEncoding, accepted.value) else h
  }

  method PrepareRequest<Q, A>(c: Client<Q, A>, metadata: Headers) returns (h: Headers)
    ensures h == RequestHeaders(c, metadata)
  {
    h := IntoSanitizedHeaders(metadata);
    h := Insert(h, Te, "trailers");
    h := Insert(h, ContentType, "application/grpc");
    if c.send.Some? {
      h := Insert(h, GrpcEncoding, EncodingName(c.send.value));
    }
    var accepted := PrintAcceptEncoding(c.accept);
    if accepted.Some? {
      h := Insert(h, GrpcAcceptEncoding, accepted.value);
    }
  }

  /** How the body of a response is to be read; a status other than Ok in the headers is final. */
  function ResponseReading<Q, A>(c: Client<Q, A>, headers: Headers, http: nat): Result<DecodeConfig<A>, Status> {
    match FromEncodingHeader(headers, c.accept)
    case Failure(s) => Failure(s)
    case Success(encoding) =>
      match FromHeaderMap(headers)
      case None => Success(Receiver(c.codec, encoding, Response(http)))
      case Some(s) =>
        if s.code != Ok then Failure(s)
        else Success(Receiver(c.codec, None, EmptyResponse).(limit := None))
  }

  const MISSING_RESPONSE := NewStatus(Internal, "Missing response message.")

  const MISSING_REQUEST := NewStatus(Internal, "Missing request message.")

  /** The first message and the trailers behind it, on top of the headers. */
  function ReadOne<T>(
    r: Reading<T>, headers: Headers, body: seq<BodyEvent>, missing: Status): Result<Message<T>, Status>
  {
    var (next, outcome) := Await(r, NewReceiver(body));
    match outcome
    case Failed(s) => Failure(s)
    case Finished => Failure(missing)
    case Message(content) =>
      match DrainTrailers(r, next).1
      case Failure(s) => Failure(s)
      case Success(trailers) =>
        Success(Message.Message(if trailers.Some? then Merge(headers, trailers.value) else headers, content))
  }

  /** A failure in place of the first message carries the response headers as metadata too. */
  function ReadResponse<Q, A>(c: Client<Q, A>, response: HttpMessage, http: nat): Result<Message<A>, Status> {
    match ResponseReading(c, response.headers, http)
    case Failure(s) => Failure(s)
    case Success(cfg) =>
      var outcome := Await(ReadingOf(cfg), NewReceiver(response.body)).1;
      if outcome.Failed? then
        Failure(outcome.status.(metadata := Merge(outcome.status.metadata, response.headers)))
      else ReadOne(ReadingOf(cfg), response.headers, response.body, MISSING_RESPONSE)
  }

  method ClientStreaming<Q, A>(c: Client<Q, A>, response: HttpMessage, http: nat)
    returns (result: Result<Message<A>, Status>)
    ensures result == ReadResponse(c, response, http)
  {
    var reading := ResponseReading(c, response.headers, http);
    if reading.Failure? {
      return Failure(reading.error);
    }
    var body := new Streaming(reading.value, response.body);
    var parts := response.headers;
    var outcome := body.NextMessage();
    match outcome
    case Failed(s) => return Failure(s.(metadata := Merge(s.metadata, parts)));
    case Finished => return Failure(MISSING_RESPONSE);
    case Message(content) =>
      var trailers := body.TakeTrailers();
      if trailers.Failure? {
        return Failure(trailers.error);
      }
      if trailers.value.Some? {
        parts := Merge(parts, trailers.value.value);
      }
      return Success(Message.Message(parts, content));
  }

  // ---- Server ---------------------------------------------------------------------------------------

  datatype Server<!Q, !A> = Server(codec: Codec<A, Q>, send: Enabled, accept: Enabled)

  function RequestReading<Q, A>(s: Server<Q, A>, headers: Headers): Result<DecodeConfig<Q>, Status> {
    match FromEncodingHeader(headers, s.accept)
    case Failure(status) => Failure(status)
    case Success(encoding) => Success(Receiver(s.codec, encoding, Request))
  }

  function ReadRequest<Q, A>(s: Server<Q, A>, request: HttpMessage): Result<Message<Q>, Status> {
    match RequestReading(s, request.headers)
    case Failure(status) => Failure(status)
    case Success(cfg) => ReadOne(ReadingOf(cfg), request.headers, request.body, MISSING_REQUEST)
  }

  method MapRequestUnary<Q, A>(s: Server<Q, A>, request: HttpMessage) returns (result: Result<Message<Q>, Status>)
    ensures result == ReadRequest(s, request)
  {
    var reading := RequestReading(s, request.headers);
    if reading.Failure? {
      return Failure(reading.error);
    }
    var stream := new Streaming(reading.value, request.body);
    var metadata := request.headers;
    var outcome := stream.NextMessage();
    match outcome
    case Failed(status) => return Failure(status);
    case Finished => return Failure(MISSING_REQUEST);
    case Message(content) =>
      var trailers := stream.TakeTrailers();
      if trailers.Failure? {
        return Failure(trailers.error);
      }
      if trailers.value.Some? {
        metadata := Merge(metadata, trailers.value.value);
      }
      return Success(Message.Message(metadata, content));
  }

  function TrailersOnly(status: Status): HttpMessage {
    HttpMessage(IntoHttp(status), [])
  }

  function ResponseHeaders(metadata: Headers, picked: Option<Encoding>): Headers {
    WithEncoding(Insert(Sanitized(metadata), ContentType, "application/grpc"), picked)
  }

  function MapResponse<Q, A>(
    s: Server<Q, A>, answer: Result<Message<A>, Status>, picked: Option<Encoding>): HttpMessage
  {
    match answer
    case Failure(status) => TrailersOnly(status)
    case Success(response) =>
      HttpMessage(
        ResponseHeaders(response.metadata, picked), SingleBody(s.codec, picked, Role.Server, response.content))
  }

  /** The whole handling of a request by a service. */
  function Handle<Q, A>(
    s: Server<Q, A>, service: Message<Q> -> Result<Message<A>, Status>, request: HttpMessage): HttpMessage
  {
    var picked := FromAcceptEncoding(request.headers, s.send);
    match ReadRequest(s, request)
    case Failure(status) => TrailersOnly(status)
    case Success(message) => MapResponse(s, service(message), picked)
  }

  method Unary<Q, A>(s: Server<Q, A>, service: Message<Q> -> Result<Message<A>, Status>, request: HttpMessage)
    returns (response: HttpMessage)
    ensures response == Handle(s, service, request)
  {
    var picked := PickEncoding(request.headers, s.send);
    var message := MapRequestUnary(s, request);
    if message.Failure? {
      return TrailersOnly(message.error);
    }
    var answer := service(message.value);
    if answer.Failure? {
      return TrailersOnly(answer.error);
    }
    var headers := IntoSanitizedHeaders(answer.value.metadata);
    headers := Insert(headers, ContentType, "application/grpc");
    if picked.Some? {
      headers := Insert(headers, GrpcEncoding, EncodingName(picked.value));
    }
    response := HttpMessage(headers, SingleBody(s.codec, picked, Role.Server, answer.value.content));
  }

  // ---- Headers, name by name ----------------------------------------------------------------------------

  function EncodingText(encoding: Option<Encoding>): Option<string> {
    if encoding.Some? then Some(EncodingName(encoding.value)) else None
  }

  /** A header map has exactly the custom entries of the metadata, with all their values. */
  ghost predicate HasCustom(h: Headers, metadata: Headers) {
    forall n: Name :: n.Custom? ==> (n in h <==> n in metadata) && (n in h ==> h[n] == metadata[n])
  }

  lemma RequestHasCustom<Q, A>(c: Client<Q, A>, metadata: Headers)
    ensures HasCustom(RequestHeaders(c, metadata), metadata)
  {
    var own := Insert(Insert(Sanitized(metadata), Te, "trailers"), ContentType, "application/grpc");
    assert HasCustom(own, metadata);
    assert HasCustom(WithEncoding(own, c.send), metadata);
  }

  /** A request has the custom metadata of the caller, and apart from it only the protocol's own headers. */
  lemma RequestHeadersAreExact<Q, A>(c: Client<Q, A>, metadata: Headers)
    ensures var h := RequestHeaders(c, metadata);
            && HasCustom(h, metadata)
            && Get(h, Te) == Some("trailers") && Get(h, ContentType) == Some("application/grpc")
            && Get(h, GrpcEncoding) == EncodingText(c.send)
            && Get(h, GrpcAcceptEncoding) == AcceptEncodingValue(c.accept)
            && GrpcStatus !in h && GrpcMessage !in h && GrpcStatusDetails !in h && GrpcMessageType !in h
  {
    RequestHasCustom(c, metadata);
  }

  /** So has a response, with the encoding that was picked. */
  lemma ResponseHeadersAreExact(metadata: Headers, picked: Option<Encoding>)
    ensures var h := ResponseHeaders(metadata, picked);
            && HasCustom(h, metadata)
            && Get(h, ContentType) == Some("application/grpc") && Get(h, GrpcEncoding) == EncodingText(picked)
            && GrpcStatus !in h && GrpcMessage !in h && GrpcStatusDetails !in h && GrpcMessageType !in h
            && Te !in h && GrpcAcceptEncoding !in h
  {
  }

  /** A trailers-only response has the last values of custom metadata next to the status. */
  lemma TrailersOnlyIsExact(s: Status)
    ensures var h := TrailersOnly(s).headers;
            && TrailersOnly(s).body == []
            && (forall n: Name :: n.Custom? ==>
                  (n in h <==> n in s.metadata) && (n in h ==> h[n] == Single(s.metadata[n].last)))
            && Get(h, ContentType) == Some("application/grpc") && GrpcEncoding !in h && Te !in h
  {
    IntoHttpSucceeds(s);
    WithStatusIsExact(s, GRPC_CONTENT);
    assert Get(GRPC_CONTENT, ContentType) == Some("application/grpc");
  }

  /** Writing a status touches only its custom metadata and the three status headers. */
  lemma WithStatusIsExact(s: Status, target: Headers)
    ensures var h := WithStatus(s, target);
            && (forall n: Name :: n.Custom? && n in s.metadata ==> n in h && h[n] == Single(s.metadata[n].last))
            && (forall n: Name :: !(n.Custom? && n in s.metadata) && !IsStatusHeader(n) ==>
                  (n in h <==> n in target) && (n in h ==> h[n] == target[n]))
  {
  }
}
