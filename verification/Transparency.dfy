/** Sender, transport and receiver together: what goes in comes out, in order, with its status. */
module Transparency {
  import opened Wire
  import opened Headers
  import opened Status
  import opened Body
  import opened Encode
  import opened SendBody
  import opened Decode
  import opened Parsing
  import opened Receiving

  /** The receiver gets `m` back out of the frame the sender makes of it. */
  ghost predicate ReadsBack<M>(b: Batching<M>, r: Reading<M>, m: M) {
    && b.frame(m).Success? && |b.frame(m).value| >= HEADER_SIZE
    && var f := b.frame(m).value;
       var len := |f| - HEADER_SIZE;
       var header := r.header(f[0], GetU32(f[1..HEADER_SIZE]));
       && header.Valid? && header.len == len
       && r.inflate(header.compression, f[HEADER_SIZE..]).Success?
       && r.decode(r.inflate(header.compression, f[HEADER_SIZE..]).value) == Success(m)
  }

  ghost predicate AllReadBack<M>(b: Batching<M>, r: Reading<M>, messages: seq<M>) {
    forall i :: 0 <= i < |messages| ==> ReadsBack(b, r, messages[i])
  }

  function Messages<M>(messages: seq<M>): (outcomes: seq<Outcome<M>>)
    ensures |outcomes| == |messages|
  {
    seq(|messages|, i requires 0 <= i < |messages| => Outcome.Message(messages[i]))
  }

  lemma FirstFrame<M>(b: Batching<M>, r: Reading<M>, messages: seq<M>, ending: BodyEvent)
    requires Stops(ending) && messages != [] && ReadsBack(b, r, messages[0])
    ensures var rest := Frames(b, messages[1..]);
            && Parse(r, Frames(b, messages), ending, None)
                 == [Outcome.Message(messages[0])] + Parse(r, rest, ending, None)
            && Residue(r, ReadHeader, Frames(b, messages)) == Residue(r, ReadHeader, rest)
  {
    var f, rest := b.frame(messages[0]).value, Frames(b, messages[1..]);
    var len := |f| - HEADER_SIZE;
    var all := f + rest;
    assert all[1..HEADER_SIZE] == f[1..HEADER_SIZE] && all[HEADER_SIZE..HEADER_SIZE + len] == f[HEADER_SIZE..];
    assert all[HEADER_SIZE..][..len] == f[HEADER_SIZE..] && all[HEADER_SIZE..][len..] == rest;
    assert all[HEADER_SIZE + len..] == rest;
    ParseOne(r, all, ending, None, len);
    var header := r.header(f[0], GetU32(f[1..HEADER_SIZE]));
    assert Residue(r, ReadHeader, all) == Residue(r, ReadBody(header.compression, len), all[HEADER_SIZE..]);
    assert Residue(r, ReadBody(header.compression, len), all[HEADER_SIZE..]) == Residue(r, ReadHeader, rest);
  }

  lemma {:induction false} ParseFrames<M>(b: Batching<M>, r: Reading<M>, messages: seq<M>, ending: BodyEvent)
    requires Stops(ending) && AllReadBack(b, r, messages)
    ensures Parse(r, Frames(b, messages), ending, None) == Messages(messages) + [AfterBody(r, false, ending, None)]
    ensures Residue(r, ReadHeader, Frames(b, messages)) == Some([])
  {
    if messages != [] {
      FirstFrame(b, r, messages, ending);
      ParseFrames(b, r, messages[1..], ending);
      assert Messages(messages) == [Outcome.Message(messages[0])] + Messages(messages[1..]);
    }
  }

  /** Everything the receiver reports, for either role and direction, when each message can be read back. */
  lemma Delivered<M(!new)>(
    b: Batching<M>, r: Reading<M>, role: Role, source: seq<SourceEvent<M>>, body: seq<BodyEvent>)
    requires FramesNonEmpty(b) && HeadersNeverFail(b)
    requires AllReadBack(b, r, Accepted(b, source))
    requires Carries(Run(b, NewSender(role, source)), body)
    ensures Observe(r, NewReceiver(body)).1
         == Messages(Sent(b, source)) + [AfterBody(r, false, EndingOf(b, role, StopOf(b, source)), None)]
    ensures Leaves(r, NewReceiver(body)).buf == Some([])
    ensures Terminal(body) == EndingOf(b, role, StopOf(b, source))
  {
    RunDelivers(b, role, source);
    assert forall i :: 0 <= i < |Sent(b, source)| ==> Sent(b, source)[i] == Accepted(b, source)[i];
    ParseFrames(b, r, Sent(b, source), Terminal(body));
    ChunkingIsInvisible(r, body, body);
    assert [] + Payload(body) == Payload(body);
  }

  // ---- What two configurations must agree on ------------------------------------------------------

  /** The receiver's codec and decompression undo the sender's on `m`. */
  ghost predicate Undone<M>(e: EncodeConfig<M>, d: DecodeConfig<M>, m: M) {
    var w := e.encode(m);
    && (w.failure.None? ==> d.decode(w.out) == Success(m))
    && (w.failure.None? && e.compression.Some? ==>
          var c := e.compress(e.compression.value, w.out);
          c.failure.None? ==> d.decompress(e.compression.value, c.out) == Success(w.out))
  }

  /** What is sent for `m` is not above the limit of the receiver. */
  predicate Fits<M>(e: EncodeConfig<M>, d: DecodeConfig<M>, m: M) {
    PayloadOf(e, m).Success? ==> |PayloadOf(e, m).value| <= Limit(d)
  }

  ghost predicate Agree<M>(e: EncodeConfig<M>, d: DecodeConfig<M>, messages: seq<M>) {
    && (e.compression.Some? ==> d.encoding == e.compression)
    && forall i :: 0 <= i < |messages| ==> Undone(e, d, messages[i]) && Fits(e, d, messages[i])
  }

  lemma SenderIsSound<M(!new)>(e: EncodeConfig<M>)
    ensures FramesNonEmpty(BatchingOf(e)) && HeadersNeverFail(BatchingOf(e))
  {
    forall s
      ensures ToHeaderMap(s).Success?
    {
      HeaderMapRoundTrip(s);
    }
  }

  lemma HeaderReadsBack<M>(d: DecodeConfig<M>, compressed: bool, payload: bytes)
    requires |payload| < U32_LIMIT && |payload| <= Limit(d) && (compressed ==> d.encoding.Some?)
    ensures var f := FrameHeader(compressed, |payload|) + payload;
            f[HEADER_SIZE..] == payload
            && ParseHeader(d, f[0], GetU32(f[1..HEADER_SIZE]))
                 == Valid(if compressed then d.encoding else None, |payload|)
  {
    var f := FrameHeader(compressed, |payload|) + payload;
    U32Exact(|payload|);
    assert f[1..HEADER_SIZE] == PutU32(|payload|);
  }

  lemma InflateUndoes<M>(e: EncodeConfig<M>, d: DecodeConfig<M>, m: M)
    requires PayloadOf(e, m).Success? && Undone(e, d, m)
    ensures var p := Inflate(d, e.compression, PayloadOf(e, m).value);
            p.Success? && d.decode(p.value) == Success(m)
  {
  }

  lemma ConfigReadsBack<M>(e: EncodeConfig<M>, d: DecodeConfig<M>, m: M)
    requires Frame(e, m).Success? && Undone(e, d, m) && Fits(e, d, m)
    requires e.compression.Some? ==> d.encoding == e.compression
    ensures ReadsBack(BatchingOf(e), ReadingOf(d), m)
  {
    HeaderReadsBack(d, e.compression.Some?, PayloadOf(e, m).value);
    InflateUndoes(e, d, m);
  }

  lemma AcceptedReadBack<M>(e: EncodeConfig<M>, d: DecodeConfig<M>, source: seq<SourceEvent<M>>)
    requires Agree(e, d, Accepted(BatchingOf(e), source))
    ensures AllReadBack(BatchingOf(e), ReadingOf(d), Accepted(BatchingOf(e), source))
  {
    var accepted := Accepted(BatchingOf(e), source);
    AcceptedAreFramed(BatchingOf(e), source);
    forall i | 0 <= i < |accepted|
      ensures ReadsBack(BatchingOf(e), ReadingOf(d), accepted[i])
    {
      assert Frame(e, accepted[i]) == BatchingOf(e).frame(accepted[i]);
      ConfigReadsBack(e, d, accepted[i]);
    }
  }

  // ---- Responses ------------------------------------------------------------------------------------

  /** What a receiver of a response makes of the status that ended it. */
  function Verdict(s: Status): Option<Status> {
    if s.code == Ok then None else Some(Received(s))
  }

  lemma TrailersAreUnderstood<M>(e: EncodeConfig<M>, d: DecodeConfig<M>, s: Status)
    requires d.direction.Response?
    ensures var event := FailureTrailers(BatchingOf(e), s);
            event.Trailers? && ReadingOf(d).endStatus(Some(event.trailers)) == Verdict(s)
  {
    HeaderMapRoundTrip(s);
    assert BatchingOf(e).headers(s) == Success(WithStatus(s, map[]));
    assert InferStatus(Some(WithStatus(s, map[])), d.direction.http) == Verdict(s);
    assert ReadingOf(d).endStatus(Some(WithStatus(s, map[]))) == Verdict(s);
  }

  /** A receiver whose bytes were all parsed and whose body ends with trailers says no more. */
  lemma QuietAfterTrailers<M>(r: Reading<M>, body: seq<BodyEvent>)
    requires Leaves(r, NewReceiver(body)).buf == Some([])
    requires Terminal(body).Trailers? && AfterTerminal(body) == []
    ensures Quiet(r, Observe(r, NewReceiver(body)).0)
  {
    assert [] + Payload(body) == Payload(body);
    AfterTheEnd(r, body);
  }

  /**
   * For every source, schedule of waits, threshold and re-chunking, a client that reads the body of a
   * server sees exactly the messages sent and then the status, once, and nothing after it. Every message
   * before the end or the failure of the source is among them; only one that cannot be encoded costs
   * others, and then just those that did not yet fill a chunk.
   */
  lemma StreamIsTransparent<M(!new)>(
    e: EncodeConfig<M>, d: DecodeConfig<M>, source: seq<SourceEvent<M>>, body: seq<BodyEvent>)
    requires d.direction.Response? && Agree(e, d, Accepted(BatchingOf(e), source))
    requires Carries(Run(BatchingOf(e), NewSender(Server, source)), body) && AfterTerminal(body) == []
    ensures var b, r := BatchingOf(e), ReadingOf(d);
            var (last, outcomes) := Observe(r, NewReceiver(body));
            && outcomes == Messages(Sent(b, source)) + [Report(Verdict(FinalStatus(StopOf(b, source))))]
            && Quiet(r, last)
            && Accepted(b, source) == Sent(b, source) + Lost(b, source)
            && (!StopOf(b, source).EncodeFailed? ==> Lost(b, source) == [])
            && (Frames(b, Lost(b, source)) == [] || |Frames(b, Lost(b, source))| < e.threshold)
  {
    SenderIsSound(e);
    AcceptedReadBack(e, d, source);
    LostAreLast(BatchingOf(e), source);
    Delivered(BatchingOf(e), ReadingOf(d), Server, source, body);
    TrailersAreUnderstood(e, d, FinalStatus(StopOf(BatchingOf(e), source)));
    QuietAfterTrailers(ReadingOf(d), body);
  }

  // ---- The shape of a body ----------------------------------------------------------------------------

  lemma {:induction false} TerminalIsLast(run: seq<BodyEvent>)
    requires run != [] && Stops(run[|run| - 1]) && forall i :: 0 <= i < |run| - 1 ==> !Stops(run[i])
    ensures Terminal(run) == run[|run| - 1]
  {
    if |run| > 1 {
      TerminalIsLast(run[1..]);
    }
  }

  lemma LastIsEnding<M(!new)>(b: Batching<M>, role: Role, source: seq<SourceEvent<M>>)
    requires FramesNonEmpty(b) && HeadersNeverFail(b)
    ensures var run := Run(b, NewSender(role, source));
            run[|run| - 1] == SendBody.EndingOf(b, role, StopOf(b, source))
  {
    RunDelivers(b, role, source);
    TerminalIsLast(Run(b, NewSender(role, source)));
  }

  /** Data and waits, then trailers from which the status can be read; they say Ok just for a source that does. */
  ghost predicate IsServerBody(run: seq<BodyEvent>, stop: Stop) {
    && run != []
    && (forall i :: 0 <= i < |run| - 1 ==> run[i].Data? || run[i].Pending?)
    && run[|run| - 1].Trailers?
    && var status := FromHeaderMap(run[|run| - 1].trailers);
       && status == Some(Received(FinalStatus(stop)))
       && (status.value.code == Ok <==> stop.Complete? || stop.status.code == Ok)
  }

  lemma ServerShape<M(!new)>(b: Batching<M>, source: seq<SourceEvent<M>>, h: Headers)
    requires FramesNonEmpty(b) && HeadersNeverFail(b)
    requires var s := FinalStatus(StopOf(b, source));
             b.headers(s) == Success(h) && FromHeaderMap(h) == Some(Received(s))
    ensures IsServerBody(Run(b, NewSender(Server, source)), StopOf(b, source))
  {
    LastIsEnding(b, Server, source);
    var run := Run(b, NewSender(Server, source));
    assert forall i :: 0 <= i < |run| - 1 ==> !Stops(run[i]);
  }

  /**
   * A server's body is data and then one set of trailers, which report success exactly if the source
   * ended or failed with the code Ok.
   */
  lemma ServerBodyShape<M(!new)>(e: EncodeConfig<M>, source: seq<SourceEvent<M>>)
    ensures IsServerBody(Run(BatchingOf(e), NewSender(Server, source)), StopOf(BatchingOf(e), source))
  {
    var s := FinalStatus(StopOf(BatchingOf(e), source));
    SenderIsSound(e);
    HeaderMapRoundTrip(s);
    ServerShape(BatchingOf(e), source, WithStatus(s, map[]));
  }

  /** A client's body is data and then its end, or the error that broke it; it carries no trailers. */
  lemma ClientBodyShape<M(!new)>(e: EncodeConfig<M>, source: seq<SourceEvent<M>>)
    ensures IsClientBody(Run(BatchingOf(e), NewSender(Client, source)), StopOf(BatchingOf(e), source))
  {
    SenderIsSound(e);
    ClientShape(BatchingOf(e), source);
  }

  ghost predicate IsClientBody(run: seq<BodyEvent>, stop: Stop) {
    && run != []
    && (forall i :: 0 <= i < |run| ==> !run[i].Trailers?)
    && run[|run| - 1] == if stop.Complete? then End else Broken(stop.status)
  }

  lemma ClientShape<M(!new)>(b: Batching<M>, source: seq<SourceEvent<M>>)
    requires FramesNonEmpty(b) && HeadersNeverFail(b)
    ensures IsClientBody(Run(b, NewSender(Client, source)), StopOf(b, source))
  {
    LastIsEnding(b, Client, source);
    var run := Run(b, NewSender(Client, source));
    forall i | 0 <= i < |run|
      ensures !run[i].Trailers?
    {
      assert i < |run| - 1 ==> !Stops(run[i]);
    }
  }

  /** The end-of-stream flag of a server's body goes up with its trailers, so stopping at either is the same. */
  lemma FlagMeansTrailers<M>(b: Batching<M>, s: Sender<M>)
    requires HeadersNeverFail(b) && s.role == Server && !s.ended
    ensures var (next, event) := SendBody.PollFrame(b, s); next.ended <==> event.Trailers?
    ensures var (next, event) := SendBody.PollFrame(b, s); event.Trailers? <==> Stops(event)
  {
    var p := Encode.PollNext(b, s.inner).1;
    if p.Error? {
      assert b.headers(p.status).Success?;
    }
  }

  /** The messages of a source before its first failure. */
  function Items<M>(source: seq<SourceEvent<M>>): seq<M> {
    if source == [] then []
    else match source[0]
      case Failed(_) => []
      case Waiting => Items(source[1..])
      case Item(m) => [m] + Items(source[1..])
  }

  function FirstFailure<M>(source: seq<SourceEvent<M>>): Option<Status> {
    if source == [] then None
    else if source[0].Failed? then Some(source[0].status)
    else FirstFailure(source[1..])
  }

  lemma {:induction false} EverythingAccepted<M>(b: Batching<M>, source: seq<SourceEvent<M>>)
    requires forall i :: 0 <= i < |Items(source)| ==> b.frame(Items(source)[i]).Success?
    ensures Accepted(b, source) == Items(source)
    ensures StopOf(b, source)
         == if FirstFailure(source).Some? then SourceFailed(FirstFailure(source).value) else Complete
  {
    if source != [] && !source[0].Failed? {
      var all, rest := Items(source), Items(source[1..]);
      assert all == if source[0].Item? then [source[0].message] + rest else rest;
      assert source[0].Item? ==> all[0] == source[0].message;
      forall i | 0 <= i < |rest|
        ensures b.frame(rest[i]).Success?
      {
        assert rest[i] == all[if source[0].Item? then i + 1 else i];
      }
      EverythingAccepted(b, source[1..]);
    }
  }

  /** The status that ends a source. */
  function Ending<M>(source: seq<SourceEvent<M>>): Status {
    if FirstFailure(source).Some? then FirstFailure(source).value else NewStatus(Ok, "")
  }

  lemma EverythingIsAccepted<M>(e: EncodeConfig<M>, source: seq<SourceEvent<M>>)
    requires forall i :: 0 <= i < |Items(source)| ==> Frame(e, Items(source)[i]).Success?
    ensures Accepted(BatchingOf(e), source) == Items(source)
    ensures FinalStatus(StopOf(BatchingOf(e), source)) == Ending(source)
    ensures !StopOf(BatchingOf(e), source).EncodeFailed?
  {
    var b := BatchingOf(e);
    forall i | 0 <= i < |Items(source)|
      ensures b.frame(Items(source)[i]).Success?
    {
      assert b.frame(Items(source)[i]) == Frame(e, Items(source)[i]);
    }
    EverythingAccepted(b, source);
  }

  /** When every message can be encoded, the client sees all of them and the very ending of the source. */
  lemma EncodableIsDelivered<M(!new)>(
    e: EncodeConfig<M>, d: DecodeConfig<M>, source: seq<SourceEvent<M>>, body: seq<BodyEvent>)
    requires d.direction.Response? && Agree(e, d, Items(source))
    requires forall i :: 0 <= i < |Items(source)| ==> Frame(e, Items(source)[i]).Success?
    requires Carries(Run(BatchingOf(e), NewSender(Server, source)), body)
    ensures Observe(ReadingOf(d), NewReceiver(body)).1 == Messages(Items(source)) + [Report(Verdict(Ending(source)))]
    ensures Terminal(body) == Trailers(WithStatus(Ending(source), map[]))
    ensures Lost(BatchingOf(e), source) == []
  {
    var b := BatchingOf(e);
    EverythingIsAccepted(e, source);
    LostAreLast(b, source);
    assert Sent(b, source) == Items(source);
    SenderIsSound(e);
    AcceptedReadBack(e, d, source);
    Delivered(b, ReadingOf(d), Server, source, body);
    TrailersAreUnderstood(e, d, Ending(source));
    HeaderMapRoundTrip(Ending(source));
  }

  lemma EncodableStreamIsTransparent<M(!new)>(
    e: EncodeConfig<M>, d: DecodeConfig<M>, source: seq<SourceEvent<M>>, body: seq<BodyEvent>)
    requires d.direction.Response? && Agree(e, d, Items(source))
    requires forall i :: 0 <= i < |Items(source)| ==> Frame(e, Items(source)[i]).Success?
    requires Carries(Run(BatchingOf(e), NewSender(Server, source)), body) && AfterTerminal(body) == []
    ensures var failure := FirstFailure(source);
            var (last, outcomes) := Observe(ReadingOf(d), NewReceiver(body));
            && outcomes == Messages(Items(source)) + [Report(if failure.Some? then Verdict(failure.value) else None)]
            && Quiet(ReadingOf(d), last)
  {
    EncodableIsDelivered(e, d, source, body);
    EverythingIsAccepted(e, source);
    StreamIsTransparent(e, d, source, body);
  }
}
