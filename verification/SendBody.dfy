/** The HTTP body around the batching stream; a server's body ends with the status of the call. */
module SendBody {
  import opened Wire
  import opened Status
  import opened Body
  import opened Encode

  datatype Role = Client | Server

  datatype Sender<M> = Sender(inner: Enc<M>, role: Role, ended: bool, error: Option<Status>)

  function NewSender<M>(role: Role, source: seq<SourceEvent<M>>): Sender<M> {
    Sender(Enc(source, [], None), role, false, None)
  }

  /** Trailers that report `s`; if they cannot be built they are left empty. */
  function FailureTrailers<M>(b: Batching<M>, s: Status): BodyEvent {
    match b.headers(s)
    case Success(h) => Trailers(h)
    case Failure(_) => Trailers(map[])
  }

  function FinalTrailers<M>(b: Batching<M>, s: Status): BodyEvent {
    match b.headers(s)
    case Success(h) => Trailers(h)
    case Failure(failure) => Broken(failure)
  }

  /** The ending of a source that is exhausted. */
  function Finish<M>(b: Batching<M>, s: Sender<M>): (Sender<M>, BodyEvent) {
    if s.role == Client || s.ended then (s, End)
    else (s.(ended := true, error := None),
          FinalTrailers(b, if s.error.Some? then s.error.value else NewStatus(Ok, "")))
  }

  function PollFrame<M>(b: Batching<M>, s: Sender<M>): (r: (Sender<M>, BodyEvent))
    ensures Stops(r.1) || |r.0.inner.source| < |s.inner.source|
            || (|r.0.inner.source| == |s.inner.source| && |r.0.inner.buf| < |s.inner.buf|)
  {
    var (inner, p) := PollNext(b, s.inner);
    var next := s.(inner := inner);
    match p
    case NotReady => (next, Pending)
    case Chunk(data) => (next, Data(data))
    case Error(status) =>
      if s.role == Client then (next, Broken(status)) else (next.(ended := true), FailureTrailers(b, status))
    case Exhausted => Finish(b, next)
  }

  class EncodeBody<M> {
    const inner: EncodedBytes<M>
    const role: Role
    var error: Option<Status>
    var isEndStream: bool

    function State(): Sender<M>
      reads this, inner
    {
      Sender(inner.State(), role, isEndStream, error)
    }

    constructor (cfg: EncodeConfig<M>, role: Role, source: seq<SourceEvent<M>>)
      ensures fresh(inner) && inner.cfg == cfg && State() == NewSender(role, source)
    {
      this.inner := new EncodedBytes(cfg, source);
      this.role := role;
      error, isEndStream := None, false;
    }

    method EndingTrailers() returns (event: BodyEvent)
      modifies this
      ensures (State(), event) == Finish(BatchingOf(inner.cfg), old(State()))
      ensures inner.State() == old(inner.State())
    {
      if role == Client || isEndStream {
        return End;
      }
      isEndStream := true;
      event := FinalTrailers(BatchingOf(inner.cfg), if error.Some? then error.value else NewStatus(Ok, ""));
      error := None;
    }

    method Poll() returns (event: BodyEvent)
      modifies this, inner
      ensures (State(), event) == PollFrame(BatchingOf(inner.cfg), old(State()))
    {
      var p := inner.Poll();
      match p
      case NotReady => event := Pending;
      case Chunk(data) => event := Data(data);
      case Error(status) =>
        if role == Client {
          event := Broken(status);
        } else {
          isEndStream := true;
          event := FailureTrailers(BatchingOf(inner.cfg), status);
        }
      case Exhausted => event := EndingTrailers();
    }
  }

  // ---- Whole runs ----------------------------------------------------------------------------

  /** Everything a consumer sees that stops at the first trailers, error or end. */
  function Run<M>(b: Batching<M>, s: Sender<M>): (run: seq<BodyEvent>)
    ensures run != [] && Stops(run[|run| - 1]) && forall i :: 0 <= i < |run| - 1 ==> !Stops(run[i])
    decreases |s.inner.source|, |s.inner.buf|
  {
    var (next, event) := PollFrame(b, s);
    if Stops(event) then [event] else [event] + Run(b, next)
  }

  /** Why a source stops giving messages that can be sent. */
  datatype Stop = Complete | SourceFailed(status: Status) | EncodeFailed(status: Status)

  /** The messages before the source ends, fails or yields one that cannot be encoded. */
  function Accepted<M>(b: Batching<M>, source: seq<SourceEvent<M>>): seq<M> {
    if source == [] then []
    else match source[0]
      case Waiting => Accepted(b, source[1..])
      case Failed(_) => []
      case Item(m) => if b.frame(m).Failure? then [] else [m] + Accepted(b, source[1..])
  }

  function StopOf<M>(b: Batching<M>, source: seq<SourceEvent<M>>): Stop {
    if source == [] then Complete
    else match source[0]
      case Waiting => StopOf(b, source[1..])
      case Failed(s) => SourceFailed(s)
      case Item(m) => if b.frame(m).Failure? then EncodeFailed(b.frame(m).error) else StopOf(b, source[1..])
  }

  function FinalStatus(stop: Stop): Status {
    if stop.Complete? then NewStatus(Ok, "") else stop.status
  }

  /** The frames of messages that can all be encoded. */
  function Frames<M>(b: Batching<M>, messages: seq<M>): bytes {
    if messages == [] then []
    else (if b.frame(messages[0]).Success? then b.frame(messages[0]).value else []) + Frames(b, messages[1..])
  }

  lemma {:induction false} FramesConcat<M>(b: Batching<M>, left: seq<M>, right: seq<M>)
    ensures Frames(b, left + right) == Frames(b, left) + Frames(b, right)
  {
    if left == [] {
      assert left + right == right;
    } else {
      FramesConcat(b, left[1..], right);
      assert (left + right)[1..] == left[1..] + right;
    }
  }

  ghost predicate FramesNonEmpty<M(!new)>(b: Batching<M>) {
    forall m :: b.frame(m).Success? ==> b.frame(m).value != []
  }

  ghost predicate HeadersNeverFail<M>(b: Batching<M>) {
    forall s :: b.headers(s).Success?
  }

  /** Small enough not to have been emitted on its own. */
  predicate BelowThreshold<M>(b: Batching<M>, data: bytes) {
    data == [] || |data| < b.threshold
  }

  /**
   * The messages still in the buffer when one cannot be encoded: those accepted since the buffer was
   * emptied last, by a wait or by reaching the threshold; `held` are in it already. No other stop
   * leaves any.
   */
  function Unflushed<M>(b: Batching<M>, source: seq<SourceEvent<M>>, held: seq<M>): seq<M>
    decreases |source|
  {
    if source == [] then []
    else match source[0]
      case Waiting => Unflushed(b, source[1..], [])
      case Failed(_) => []
      case Item(m) =>
        match b.frame(m)
        case Failure(_) => held
        case Success(f) =>
          if |Frames(b, held) + f| >= b.threshold then Unflushed(b, source[1..], [])
          else Unflushed(b, source[1..], held + [m])
  }

  /** The messages that leave the buffer, those held in it first. */
  function SentFrom<M>(b: Batching<M>, source: seq<SourceEvent<M>>, held: seq<M>): seq<M>
    decreases |source|
  {
    if source == [] then held
    else match source[0]
      case Waiting => held + SentFrom(b, source[1..], [])
      case Failed(_) => held
      case Item(m) =>
        match b.frame(m)
        case Failure(_) => []
        case Success(f) =>
          if |Frames(b, held) + f| >= b.threshold then held + [m] + SentFrom(b, source[1..], [])
          else SentFrom(b, source[1..], held + [m])
  }

  function Sent<M>(b: Batching<M>, source: seq<SourceEvent<M>>): seq<M> {
    SentFrom(b, source, [])
  }

  /** The accepted messages that never leave the buffer before the ending. */
  function Lost<M>(b: Batching<M>, source: seq<SourceEvent<M>>): seq<M> {
    Unflushed(b, source, [])
  }

  /** The events behind the first failure, of the source or of encoding. */
  function Behind<M>(b: Batching<M>, source: seq<SourceEvent<M>>): seq<SourceEvent<M>> {
    if source == [] then []
    else if source[0].Failed? || (source[0].Item? && b.frame(source[0].message).Failure?) then source[1..]
    else Behind(b, source[1..])
  }

  lemma FramesOne<M>(b: Batching<M>, held: seq<M>, m: M)
    requires b.frame(m).Success?
    ensures Frames(b, held + [m]) == Frames(b, held) + b.frame(m).value
  {
    FramesConcat(b, held, [m]);
    assert [m][1..] == [];
  }

  lemma {:induction false} AcceptedSplit<M>(b: Batching<M>, source: seq<SourceEvent<M>>, held: seq<M>)
    ensures held + Accepted(b, source) == SentFrom(b, source, held) + Unflushed(b, source, held)
    decreases |source|
  {
    if source != [] && source[0].Waiting? {
      AcceptedSplit(b, source[1..], []);
      assert [] + Accepted(b, source) == Accepted(b, source);
    } else if source != [] && source[0].Item? && b.frame(source[0].message).Success? {
      var m := source[0].message;
      assert held + Accepted(b, source) == held + [m] + Accepted(b, source[1..]);
      if |Frames(b, held) + b.frame(m).value| >= b.threshold {
        AcceptedSplit(b, source[1..], []);
        assert [] + Accepted(b, source[1..]) == Accepted(b, source[1..]);
      } else {
        AcceptedSplit(b, source[1..], held + [m]);
      }
    }
  }

  lemma {:induction false} UnflushedAreFew<M>(b: Batching<M>, source: seq<SourceEvent<M>>, held: seq<M>)
    requires BelowThreshold(b, Frames(b, held))
    ensures BelowThreshold(b, Frames(b, Unflushed(b, source, held)))
    ensures !StopOf(b, source).EncodeFailed? ==> Unflushed(b, source, held) == []
    decreases |source|
  {
    if source != [] && source[0].Waiting? {
      UnflushedAreFew(b, source[1..], []);
    } else if source != [] && source[0].Item? && b.frame(source[0].message).Success? {
      var m := source[0].message;
      FramesOne(b, held, m);
      UnflushedAreFew(b, source[1..], if |Frames(b, held + [m])| >= b.threshold then [] else held + [m]);
    }
  }

  /** What is lost is the end of what was accepted, too little to fill a chunk, and due to an encode failure. */
  lemma LostAreLast<M>(b: Batching<M>, source: seq<SourceEvent<M>>)
    ensures Accepted(b, source) == Sent(b, source) + Lost(b, source)
    ensures BelowThreshold(b, Frames(b, Lost(b, source)))
    ensures !StopOf(b, source).EncodeFailed? ==> Lost(b, source) == []
  {
    AcceptedSplit(b, source, []);
    UnflushedAreFew(b, source, []);
    assert [] + Accepted(b, source) == Accepted(b, source);
  }

  /** What is ahead of a sender: messages that will leave it, why they stop, what gets lost, what is behind. */
  datatype Outlook<M> = Outlook(sent: seq<M>, stop: Stop, lost: seq<M>, behind: seq<SourceEvent<M>>)

  /** The outlook with `held` in the buffer; an error that was held back comes first. */
  function Ahead<M>(b: Batching<M>, e: Enc<M>, held: seq<M>): Outlook<M> {
    if e.error.Some? then Outlook(held, SourceFailed(e.error.value), [], e.source)
    else Outlook(SentFrom(b, e.source, held), StopOf(b, e.source), Unflushed(b, e.source, held), Behind(b, e.source))
  }

  /** The state in which a source is left at its stop: lost messages stay in the buffer. */
  function Stopped<M>(b: Batching<M>, ahead: Outlook<M>): Enc<M> {
    Enc(ahead.behind, Frames(b, ahead.lost), None)
  }

  /** What a poll says about what was ahead, when a chunk has the frames of `chunk`. */
  ghost predicate Explains<M>(b: Batching<M>, ahead: Outlook<M>, after: Enc<M>, p: Polled, chunk: seq<M>) {
    match p
    case NotReady => after.buf == [] && Ahead(b, after, []) == ahead
    case Chunk(data) =>
      && data == Frames(b, chunk) && after.buf == []
      && var rest := Ahead(b, after, []);
         ahead == rest.(sent := chunk + rest.sent)
    case Error(s) =>
      && (ahead.stop == SourceFailed(s) || ahead.stop == EncodeFailed(s))
      && ahead.sent == [] && after == Stopped(b, ahead)
    case Exhausted => ahead.stop == Complete && ahead.sent == [] && after == Stopped(b, ahead)
  }

  lemma {:induction false} FillExplains<M(!new)>(b: Batching<M>, e: Enc<M>, held: seq<M>) returns (chunk: seq<M>)
    requires FramesNonEmpty(b) && e.error.None? && e.buf == Frames(b, held) && (held == [] <==> e.buf == [])
    ensures Explains(b, Ahead(b, e, held), Fill(b, e).0, Fill(b, e).1, chunk)
    decreases |e.source|
  {
    chunk := held;
    if e.source == [] || e.source[0].Failed? {
      assert held + [] == held;
    } else if e.source[0].Waiting? {
      assert held == [] ==> held + SentFrom(b, e.source[1..], []) == SentFrom(b, e.source[1..], []);
    } else if b.frame(e.source[0].message).Success? {
      var m := e.source[0].message;
      FramesOne(b, held, m);
      chunk := held + [m];
      if |e.buf + b.frame(m).value| < b.threshold {
        chunk := FillExplains(b, e.(source := e.source[1..], buf := e.buf + b.frame(m).value), held + [m]);
      }
    }
  }

  lemma PollExplains<M(!new)>(b: Batching<M>, e: Enc<M>) returns (chunk: seq<M>)
    requires FramesNonEmpty(b) && e.buf == []
    ensures Explains(b, Ahead(b, e, []), PollNext(b, e).0, PollNext(b, e).1, chunk)
  {
    chunk := [];
    if e.error.None? {
      chunk := FillExplains(b, e, []);
    }
  }

  /** The event that ends a run: a server reports every ending as trailers, a client never does. */
  function EndingOf<M>(b: Batching<M>, role: Role, stop: Stop): BodyEvent {
    match role
    case Server => FailureTrailers(b, FinalStatus(stop))
    case Client => if stop.Complete? then End else Broken(stop.status)
  }

  /** The state in which `Run` leaves the sender. */
  function RunAfter<M>(b: Batching<M>, s: Sender<M>): Sender<M>
    decreases |s.inner.source|, |s.inner.buf|
  {
    var (next, event) := PollFrame(b, s);
    if Stops(event) then next else RunAfter(b, next)
  }

  /** The run and the state behind it realise what was ahead. */
  ghost predicate Realises<M>(b: Batching<M>, ahead: Outlook<M>, role: Role, run: seq<BodyEvent>, after: Sender<M>) {
    && Payload(run) == Frames(b, ahead.sent)
    && Terminal(run) == EndingOf(b, role, ahead.stop)
    && after == Sender(Stopped(b, ahead), role, role == Server, None)
  }

  lemma {:induction false} RunRealises<M(!new)>(b: Batching<M>, s: Sender<M>)
    requires FramesNonEmpty(b) && HeadersNeverFail(b)
    requires !s.ended && s.error.None? && s.inner.buf == []
    ensures Realises(b, Ahead(b, s.inner, []), s.role, Run(b, s), RunAfter(b, s))
    decreases |s.inner.source|, |s.inner.buf|
  {
    var chunk := PollExplains(b, s.inner);
    var (next, event) := PollFrame(b, s);
    if !Stops(event) {
      RunRealises(b, next);
      FramesConcat(b, chunk, Ahead(b, next.inner, []).sent);
      assert ([event] + Run(b, next))[1..] == Run(b, next);
    }
  }

  /** A body consumed up to its first ending: frames of the messages sent, and the ending that says why. */
  ghost predicate Delivers<M>(b: Batching<M>, source: seq<SourceEvent<M>>, role: Role, run: seq<BodyEvent>) {
    && Payload(run) == Frames(b, Sent(b, source))
    && Terminal(run) == EndingOf(b, role, StopOf(b, source))
  }

  /**
   * A body that is consumed up to its first ending carries the frames of exactly the messages sent and
   * then the ending that reports why the source stopped. What is lost stays behind in the buffer.
   */
  lemma RunDelivers<M(!new)>(b: Batching<M>, role: Role, source: seq<SourceEvent<M>>)
    requires FramesNonEmpty(b) && HeadersNeverFail(b)
    ensures Delivers(b, source, role, Run(b, NewSender(role, source)))
    ensures RunAfter(b, NewSender(role, source))
         == Sender(Enc(Behind(b, source), Frames(b, Lost(b, source)), None), role, role == Server, None)
    ensures Accepted(b, source) == Sent(b, source) + Lost(b, source)
    ensures BelowThreshold(b, Frames(b, Lost(b, source)))
    ensures !StopOf(b, source).EncodeFailed? ==> Lost(b, source) == []
  {
    RunRealises(b, NewSender(role, source));
    LostAreLast(b, source);
  }

  lemma {:induction false} AcceptedAreFramed<M>(b: Batching<M>, source: seq<SourceEvent<M>>)
    ensures forall i :: 0 <= i < |Accepted(b, source)| ==> b.frame(Accepted(b, source)[i]).Success?
  {
    if source != [] {
      AcceptedAreFramed(b, source[1..]);
    }
  }

  /** A body has the frames of all accepted messages if and only if none is in the buffer at an encode failure. */
  lemma AllSentIfNoneLost<M(!new)>(b: Batching<M>, role: Role, source: seq<SourceEvent<M>>)
    requires FramesNonEmpty(b) && HeadersNeverFail(b)
    ensures Payload(Run(b, NewSender(role, source))) == Frames(b, Accepted(b, source)) <==> Lost(b, source) == []
  {
    var sent, lost := Sent(b, source), Lost(b, source);
    RunDelivers(b, role, source);
    FramesConcat(b, sent, lost);
    if lost != [] {
      AcceptedAreFramed(b, source);
      assert lost[0] == Accepted(b, source)[|sent|];
      assert Frames(b, lost) != [];
    }
  }

  /** A message below the threshold is lost with the next one that cannot be encoded: the body is trailers only. */
  lemma EncodeFailureLoses<M>(b: Batching<M>, m: M, bad: M)
    requires b.frame(m).Success? && 0 < |b.frame(m).value| < b.threshold && b.frame(bad).Failure?
    ensures var source := [Item(m), Item(bad)];
            && Accepted(b, source) == [m] == Lost(b, source)
            && Run(b, NewSender(Server, source)) == [FailureTrailers(b, b.frame(bad).error)]
  {
    var source := [Item(m), Item(bad)];
    assert source[1..] == [Item(bad)] && source[1..][1..] == [];
    assert Frames(b, []) + b.frame(m).value == b.frame(m).value && [] + [m] == [m];
    assert Unflushed(b, [Item(bad)], [m]) == [m];
    assert Accepted(b, [Item(bad)]) == [] && [m] + [] == [m];
    assert Fill(b, Enc([Item(bad)], b.frame(m).value, None)).1 == Polled.Error(b.frame(bad).error);
    assert Fill(b, Enc(source, [], None)).1 == Polled.Error(b.frame(bad).error);
  }
}
