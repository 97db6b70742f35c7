/** A unary call across both halves behaves like a call of the service. */
module UnaryCall {
  import opened Wire
  import opened Headers
  import opened Status
  import opened Compression
  import opened Body
  import opened Encode
  import opened SendBody
  import opened Decode
  import opened Parsing
  import opened Receiving
  import opened Transparency
  import opened Rpc

  lemma SingleItem<M>(b: Batching<M>, m: M)
    ensures var source := [Item(m)];
            if b.frame(m).Success? then Accepted(b, source) == [m] && StopOf(b, source) == Complete
            else Accepted(b, source) == [] && StopOf(b, source) == EncodeFailed(b.frame(m).error)
  {
    assert [Item(m)][1..] == [];
  }

  /** What the first message of a stream and its trailers are, when one message is all there is. */
  lemma FirstOfOne<M>(r: Reading<M>, body: seq<BodyEvent>, m: M, last: Outcome<M>)
    requires Observe(r, NewReceiver(body)).1 == [Outcome.Message(m), last] && !last.Message?
    ensures var (next, outcome) := Await(r, NewReceiver(body));
            && outcome == Outcome.Message(m)
            && DrainTrailers(r, next).1 == if last.Finished? then Success(ArrivedTrailers(NewReceiver(body)))
                                           else Failure(last.status)
  {
    var start := NewReceiver(body);
    var (next, outcome) := Await(r, start);
    AwaitKeeps(r, start);
    ObserveStep(r, start);
    assert [Outcome.Message(m), last][1..] == [last];
    ObserveStep(r, next);
    AwaitKeeps(r, next);
    assert next.trailers == None;
  }

  lemma ObserveStep<M>(r: Reading<M>, d: Dec)
    ensures var (next, outcome) := Await(r, d);
            var outcomes := Observe(r, d).1;
            && outcomes != [] && outcomes[0] == outcome
            && if outcome.Message? then outcomes[1..] == Observe(r, next).1 && outcomes[1..] != []
               else outcomes == [outcome]
  {
    var (next, outcome) := Await(r, d);
    assert ([outcome] + Observe(r, next).1)[1..] == Observe(r, next).1;
    assert Observe(r, next).1 != [];
  }

  lemma OneSent<M(!new)>(b: Batching<M>, r: Reading<M>, role: Role, m: M, body: seq<BodyEvent>)
    requires FramesNonEmpty(b) && HeadersNeverFail(b) && b.frame(m).Success? && ReadsBack(b, r, m)
    requires Carries(Run(b, NewSender(role, [Item(m)])), body)
    ensures Observe(r, NewReceiver(body)).1
         == [Outcome.Message(m), AfterBody(r, false, SendBody.EndingOf(b, role, Complete), None)]
    ensures Terminal(body) == SendBody.EndingOf(b, role, Complete)
  {
    SingleItem(b, m);
    LostAreLast(b, [Item(m)]);
    Delivered(b, r, role, [Item(m)], body);
    assert Sent(b, [Item(m)]) == [m] && Messages([m]) == [Outcome.Message(m)];
  }

  lemma OneMessage<M(!new)>(e: EncodeConfig<M>, d: DecodeConfig<M>, role: Role, m: M, body: seq<BodyEvent>)
    requires Frame(e, m).Success? && Agree(e, d, [m])
    requires Carries(Run(BatchingOf(e), NewSender(role, [Item(m)])), body)
    ensures Observe(ReadingOf(d), NewReceiver(body)).1
         == [Outcome.Message(m), AfterBody(ReadingOf(d), false, SendBody.EndingOf(BatchingOf(e), role, Complete), None)]
    ensures Terminal(body) == SendBody.EndingOf(BatchingOf(e), role, Complete)
  {
    SenderIsSound(e);
    assert [m][0] == m;
    ConfigReadsBack(e, d, m);
    OneSent(BatchingOf(e), ReadingOf(d), role, m, body);
  }

  // ---- Requests ----------------------------------------------------------------------------------------

  /** The server reads requests of this client: it knows the encoding, and the codec undoes the client's. */
  ghost predicate RequestFits<Q, A>(c: Client<Q, A>, s: Server<Q, A>, content: Q) {
    && (c.send.Some? ==> s.accept.Has(c.send.value))
    && Frame(Sending(c.codec, c.send), content).Success?
    && Agree(Sending(c.codec, c.send), Receiver(s.codec, c.send, Request), [content])
  }

  lemma AnnouncedEncoding(h: Headers, encoding: Option<Encoding>, accepted: Enabled)
    requires Get(h, GrpcEncoding) == (if encoding.Some? then Some(EncodingName(encoding.value)) else None)
    requires encoding.Some? ==> accepted.Has(encoding.value)
    ensures FromEncodingHeader(h, accepted) == Success(encoding)
  {
    if encoding.Some? {
      NameRoundTrip(encoding.value);
    }
  }

  lemma RequestHeadersAnnounce<Q, A>(c: Client<Q, A>, metadata: Headers)
    ensures var h := RequestHeaders(c, metadata);
            && Get(h, GrpcEncoding) == (if c.send.Some? then Some(EncodingName(c.send.value)) else None)
            && Get(h, GrpcAcceptEncoding) == AcceptEncodingValue(c.accept)
  {
  }

  /** The server decodes the very request that was sent, with the headers the client put on it. */
  lemma RequestArrives<Q(!new), A>(
    c: Client<Q, A>, s: Server<Q, A>, metadata: Headers, content: Q, body: seq<BodyEvent>)
    requires RequestFits(c, s, content)
    requires Carries(SingleBody(c.codec, c.send, Role.Client, content), body)
    ensures var h := RequestHeaders(c, metadata);
            ReadRequest(s, HttpMessage(h, body)) == Success(Message.Message(h, content))
  {
    var h := RequestHeaders(c, metadata);
    var d := Receiver(s.codec, c.send, Request);
    RequestHeadersAnnounce(c, metadata);
    AnnouncedEncoding(h, c.send, s.accept);
    assert RequestReading(s, h) == Success(d);
    OneMessage(Sending(c.codec, c.send), d, Role.Client, content, body);
    assert ReadingOf(d).endStatus(None) == None;
    FirstOfOne(ReadingOf(d), body, content, Finished);
    assert ArrivedTrailers(NewReceiver(body)) == None;
  }

  // ---- Responses ---------------------------------------------------------------------------------------

  /** What the server picks for this client. */
  function Picked<Q, A>(c: Client<Q, A>, s: Server<Q, A>, metadata: Headers): Option<Encoding> {
    FromAcceptEncoding(RequestHeaders(c, metadata), s.send)
  }

  lemma PickedIsAccepted<Q, A>(c: Client<Q, A>, s: Server<Q, A>, metadata: Headers)
    ensures var picked := Picked(c, s, metadata); picked.Some? ==> c.accept.Has(picked.value)
  {
    RequestHeadersAnnounce(c, metadata);
    NegotiationAgrees(RequestHeaders(c, metadata), c.accept, s.send);
  }

  ghost predicate ResponseFits<Q, A>(c: Client<Q, A>, s: Server<Q, A>, picked: Option<Encoding>, content: A) {
    && Frame(Sending(s.codec, picked), content).Success?
    && Agree(Sending(s.codec, picked), Receiver(c.codec, picked, Response(200)), [content])
  }

  lemma ResponseIsStreamed<Q, A>(c: Client<Q, A>, metadata: Headers, picked: Option<Encoding>)
    requires picked.Some? ==> c.accept.Has(picked.value)
    ensures ResponseReading(c, ResponseHeaders(metadata, picked), 200)
         == Success(Receiver(c.codec, picked, Response(200)))
  {
    var h := ResponseHeaders(metadata, picked);
    AnnouncedEncoding(h, picked, c.accept);
    assert Get(h, GrpcStatus) == None;
  }

  /** The metadata of an answer: its headers, and the trailers behind the message. */
  function AnswerMetadata(metadata: Headers, picked: Option<Encoding>): Headers {
    Merge(ResponseHeaders(metadata, picked), WithStatus(NewStatus(Ok, ""), map[]))
  }

  lemma OkTrailers<M>(e: EncodeConfig<M>, d: DecodeConfig<M>)
    requires d.direction.Response?
    ensures var h := WithStatus(NewStatus(Ok, ""), map[]);
            SendBody.EndingOf(BatchingOf(e), Role.Server, Complete) == Trailers(h)
            && ReadingOf(d).endStatus(Some(h)) == None
  {
    TrailersAreUnderstood(e, d, NewStatus(Ok, ""));
    HeaderMapRoundTrip(NewStatus(Ok, ""));
  }

  /** The client gets the message of an answer, whatever metadata came with it. */
  lemma AnswerArrives<Q, A(!new)>(
    c: Client<Q, A>, s: Server<Q, A>, answer: Message<A>, picked: Option<Encoding>, body: seq<BodyEvent>)
    requires (picked.Some? ==> c.accept.Has(picked.value)) && ResponseFits(c, s, picked, answer.content)
    requires Carries(SingleBody(s.codec, picked, Role.Server, answer.content), body)
    ensures ReadResponse(c, HttpMessage(ResponseHeaders(answer.metadata, picked), body), 200)
         == Success(Message.Message(AnswerMetadata(answer.metadata, picked), answer.content))
  {
    var e, d := Sending(s.codec, picked), Receiver(c.codec, picked, Response(200));
    ResponseIsStreamed(c, answer.metadata, picked);
    OneMessage(e, d, Role.Server, answer.content, body);
    OkTrailers(e, d);
    FirstOfOne(ReadingOf(d), body, answer.content, Finished);
  }

  lemma NoneSent<M(!new)>(b: Batching<M>, r: Reading<M>, m: M, s: Status, body: seq<BodyEvent>)
    requires FramesNonEmpty(b) && HeadersNeverFail(b) && b.frame(m) == Failure(s)
    requires Carries(Run(b, NewSender(Role.Server, [Item(m)])), body)
    ensures Observe(r, NewReceiver(body)).1 == [AfterBody(r, false, FailureTrailers(b, s), None)]
  {
    SingleItem(b, m);
    Delivered(b, r, Role.Server, [Item(m)], body);
    assert Sent(b, [Item(m)]) == [] && Messages<M>([]) == [];
  }

  /** A body whose one message cannot be encoded is trailers that say why. */
  lemma NoMessage<M(!new)>(e: EncodeConfig<M>, d: DecodeConfig<M>, m: M, body: seq<BodyEvent>)
    requires Frame(e, m).Failure? && d.direction.Response?
    requires Carries(Run(BatchingOf(e), NewSender(Role.Server, [Item(m)])), body)
    ensures Observe(ReadingOf(d), NewReceiver(body)).1 == [Outcome.Failed(Received(Frame(e, m).error))]
  {
    var s := Frame(e, m).error;
    SenderIsSound(e);
    assert BatchingOf(e).frame(m) == Failure(s);
    NoneSent(BatchingOf(e), ReadingOf(d), m, s, body);
    TrailersAreUnderstood(e, d, s);
    EncodeFailureIsPlain(e, m);
  }

  /** A call whose answer cannot be encoded fails at the client with the reason, behind the response headers. */
  lemma UnencodableAnswerFails<Q(!new), A(!new)>(
    c: Client<Q, A>, s: Server<Q, A>, service: Message<Q> -> Result<Message<A>, Status>,
    metadata: Headers, content: Q, sent: seq<BodyEvent>, back: seq<BodyEvent>)
    requires RequestFits(c, s, content) && Carries(SingleBody(c.codec, c.send, Role.Client, content), sent)
    requires var h := RequestHeaders(c, metadata);
             var answer := service(Message.Message(h, content));
             && answer.Success? && Frame(Sending(s.codec, Picked(c, s, metadata)), answer.value.content).Failure?
             && Carries(Handle(s, service, HttpMessage(h, sent)).body, back)
    ensures var h := RequestHeaders(c, metadata);
            var response := Handle(s, service, HttpMessage(h, sent));
            var answer := service(Message.Message(h, content)).value;
            var failure := Frame(Sending(s.codec, Picked(c, s, metadata)), answer.content).error;
            ReadResponse(c, HttpMessage(response.headers, back), 200)
              == Failure(failure.(metadata := ResponseHeaders(answer.metadata, Picked(c, s, metadata))))
  {
    var h, picked := RequestHeaders(c, metadata), Picked(c, s, metadata);
    var answer := service(Message.Message(h, content)).value;
    RequestArrives(c, s, metadata, content, sent);
    PickedIsAccepted(c, s, metadata);
    UnencodableArrives(c, s, answer, picked, back);
  }

  /** The reason why a message cannot be encoded carries no metadata, so the peer reads it as it is. */
  lemma EncodeFailureIsPlain<M>(e: EncodeConfig<M>, m: M)
    requires Frame(e, m).Failure?
    ensures var s := Frame(e, m).error; s.code != Ok && s.metadata == map[] && Received(s) == s
  {
    assert SanitizedLast(map[]) == map[];
  }

  /** A failure in place of the message is joined with the headers of the response. */
  lemma FailureInstead<Q, A>(c: Client<Q, A>, h: Headers, cfg: DecodeConfig<A>, body: seq<BodyEvent>, s: Status)
    requires ResponseReading(c, h, 200) == Success(cfg)
    requires Observe(ReadingOf(cfg), NewReceiver(body)).1 == [Outcome.Failed(s)] && s.metadata == map[]
    ensures ReadResponse(c, HttpMessage(h, body), 200) == Failure(s.(metadata := h))
  {
    ObserveStep(ReadingOf(cfg), NewReceiver(body));
    var none: Headers := map[];
    assert none + h == h;
  }

  lemma UnencodableArrives<Q, A(!new)>(
    c: Client<Q, A>, s: Server<Q, A>, answer: Message<A>, picked: Option<Encoding>, body: seq<BodyEvent>)
    requires (picked.Some? ==> c.accept.Has(picked.value)) && Frame(Sending(s.codec, picked), answer.content).Failure?
    requires Carries(SingleBody(s.codec, picked, Role.Server, answer.content), body)
    ensures ReadResponse(c, HttpMessage(ResponseHeaders(answer.metadata, picked), body), 200)
         == Failure(Frame(Sending(s.codec, picked), answer.content).error.(
                      metadata := ResponseHeaders(answer.metadata, picked)))
  {
    var e, d := Sending(s.codec, picked), Receiver(c.codec, picked, Response(200));
    ResponseIsStreamed(c, answer.metadata, picked);
    NoMessage(e, d, answer.content, body);
    EncodeFailureIsPlain(e, answer.content);
    FailureInstead(c, ResponseHeaders(answer.metadata, picked), d, body, Frame(e, answer.content).error);
  }

  /** A call whose service answers returns that answer. */
  lemma CallReturnsAnswer<Q(!new), A(!new)>(
    c: Client<Q, A>, s: Server<Q, A>, service: Message<Q> -> Result<Message<A>, Status>,
    metadata: Headers, content: Q, sent: seq<BodyEvent>, back: seq<BodyEvent>)
    requires RequestFits(c, s, content) && Carries(SingleBody(c.codec, c.send, Role.Client, content), sent)
    requires var h := RequestHeaders(c, metadata);
             var answer := service(Message.Message(h, content));
             && answer.Success? && ResponseFits(c, s, Picked(c, s, metadata), answer.value.content)
             && Carries(Handle(s, service, HttpMessage(h, sent)).body, back)
    ensures var h := RequestHeaders(c, metadata);
            var response := Handle(s, service, HttpMessage(h, sent));
            var answer := service(Message.Message(h, content)).value;
            ReadResponse(c, HttpMessage(response.headers, back), 200)
              == Success(Message.Message(AnswerMetadata(answer.metadata, Picked(c, s, metadata)), answer.content))
  {
    var h := RequestHeaders(c, metadata);
    RequestArrives(c, s, metadata, content, sent);
    PickedIsAccepted(c, s, metadata);
    AnswerArrives(c, s, service(Message.Message(h, content)).value, Picked(c, s, metadata), back);
  }

  // ---- Failures -----------------------------------------------------------------------------------------

  lemma TrailersOnlyHeaders(s: Status)
    ensures FromHeaderMap(IntoHttp(s)) == Some(s.(metadata := GRPC_CONTENT + SanitizedLast(s.metadata)))
    ensures Get(IntoHttp(s), GrpcEncoding) == None
  {
    IntoHttpSucceeds(s);
    StatusRoundTrip(s, GRPC_CONTENT);
    ContentTypeIsKept();
    NoEncoding(s, GRPC_CONTENT);
  }

  lemma ContentTypeIsKept()
    ensures OtherHeaders(GRPC_CONTENT) == GRPC_CONTENT
  {
    assert GRPC_CONTENT[ContentType] == Single(GRPC_CONTENT[ContentType].last);
  }

  lemma NoEncoding(s: Status, target: Headers)
    requires GrpcEncoding !in target
    ensures GrpcEncoding !in WithStatus(s, target)
  {
    assert GrpcEncoding !in SanitizedLast(s.metadata);
  }

  /** Headers alone tell the client about a failure; a failure with code Ok leaves it without a message. */
  lemma FailureArrives<Q, A>(c: Client<Q, A>, s: Status, back: seq<BodyEvent>)
    requires Carries(TrailersOnly(s).body, back)
    ensures var result := ReadResponse(c, HttpMessage(TrailersOnly(s).headers, back), 200);
            result == if s.code != Ok
                      then Failure(s.(metadata := GRPC_CONTENT + SanitizedLast(s.metadata)))
                      else Failure(MISSING_RESPONSE)
  {
    var h := IntoHttp(s);
    TrailersOnlyHeaders(s);
    AnnouncedEncoding(h, None, c.accept);
    if s.code == Ok {
      var d := Receiver(c.codec, None, EmptyResponse).(limit := None);
      var r := ReadingOf(d);
      assert ResponseReading(c, h, 200) == Success(d);
      EmptyBodyEnds(r, back);
    }
  }

  lemma EmptyBodyEnds<M>(r: Reading<M>, back: seq<BodyEvent>)
    requires Payload(back) == [] && Terminal(back) == End && r.endStatus(None) == None
    ensures Await(r, NewReceiver(back)).1 == Finished
  {
    ChunkingIsInvisible(r, back, back);
    assert Parse(r, [], End, None) == [Finished];
    assert Observe(r, NewReceiver(back)).1[0] == Await(r, NewReceiver(back)).1;
  }

  /**
   * A call whose service fails returns that failure: code, message and details as they were, metadata
   * filtered; it does so exactly when the code of the failure is not Ok.
   */
  lemma CallReturnsFailure<Q(!new), A>(
    c: Client<Q, A>, s: Server<Q, A>, service: Message<Q> -> Result<Message<A>, Status>,
    metadata: Headers, content: Q, sent: seq<BodyEvent>, back: seq<BodyEvent>)
    requires RequestFits(c, s, content) && Carries(SingleBody(c.codec, c.send, Role.Client, content), sent)
    requires var h := RequestHeaders(c, metadata);
             && service(Message.Message(h, content)).Failure?
             && Carries(Handle(s, service, HttpMessage(h, sent)).body, back)
    ensures var h := RequestHeaders(c, metadata);
            var response := Handle(s, service, HttpMessage(h, sent));
            var failure := service(Message.Message(h, content)).error;
            var result := ReadResponse(c, HttpMessage(response.headers, back), 200);
            && result.Failure?
            && (failure.code != Ok ==> result.error.code == failure.code && result.error.message == failure.message
                                       && result.error.details == failure.details)
            && (failure.code == Ok ==> result.error == MISSING_RESPONSE)
  {
    RequestArrives(c, s, metadata, content, sent);
    FailureArrives(c, service(Message.Message(RequestHeaders(c, metadata), content)).error, back);
  }

  // ---- An echo -------------------------------------------------------------------------------------------

  /** Messages that are bytes already, and compression that leaves them as they are. */
  function RawCodec(threshold: nat): Codec<bytes, bytes> {
    Codec(m => Written(m, None), b => Success(b), (e: Encoding, b: bytes) => Written(b, None),
          (e: Encoding, b: bytes) => Success(b), None, None, threshold)
  }

  lemma RawMessageFits(threshold: nat, encoding: Option<Encoding>, direction: Direction, content: bytes)
    requires |content| <= DEFAULT_LIMIT
    ensures var (e, d) := (Sending(RawCodec(threshold), encoding), Receiver(RawCodec(threshold), encoding, direction));
            Frame(e, content) == Success(FrameHeader(encoding.Some?, |content|) + content) && Agree(e, d, [content])
  {
    var e := Sending(RawCodec(threshold), encoding);
    assert PayloadOf(e, content) == Success(content);
    assert TooLong(e, |content|) == None;
  }

  /** An echo service gives the caller back what it sent, whatever both sides compress and accept. */
  lemma EchoReturns(
    c: Client<bytes, bytes>, s: Server<bytes, bytes>, threshold: nat, metadata: Headers, content: bytes,
    sent: seq<BodyEvent>, back: seq<BodyEvent>)
    requires c.codec == s.codec == RawCodec(threshold) && |content| <= DEFAULT_LIMIT
    requires c.send.Some? ==> s.accept.Has(c.send.value)
    requires Carries(SingleBody(c.codec, c.send, Role.Client, content), sent)
    requires Carries(SingleBody(s.codec, Picked(c, s, metadata), Role.Server, content), back)
    ensures var echo := (m: Message<bytes>) => Success(Message.Message(map[], m.content));
            var response := Handle(s, echo, HttpMessage(RequestHeaders(c, metadata), sent));
            var result := ReadResponse(c, HttpMessage(response.headers, back), 200);
            result.Success? && result.value.content == content
  {
    var echo := (m: Message<bytes>) => Success(Message.Message(map[], m.content));
    RawMessageFits(threshold, c.send, Request, content);
    RawMessageFits(threshold, Picked(c, s, metadata), Response(200), content);
    RequestArrives(c, s, metadata, content, sent);
    CallReturnsAnswer(c, s, echo, metadata, content, sent, back);
  }
}
