/** What a receiver leaves behind, when it has gone quiet, and which truncations it notices. */
module Receiving {
  import opened Wire
  import opened Headers
  import opened Status
  import opened Body
  import opened Decode
  import opened Parsing

  // ---- What is left at the end ------------------------------------------------------------------

  /** The bytes still in the buffer once `b` is parsed, unless some message in it is refused. */
  function Residue<M>(r: Reading<M>, state: State, b: bytes): Option<bytes>
    decreases |b|, if state.ReadBody? then 1 else 0
  {
    match state
    case Error(_) => None
    case ReadBody(c, len) =>
      if |b| < len then Some(b)
      else
        var payload := r.inflate(c, b[..len]);
        if payload.Failure? || r.decode(payload.value).Failure? then None else Residue(r, ReadHeader, b[len..])
    case ReadHeader =>
      if |b| < HEADER_SIZE then Some(b)
      else
        var header := r.header(b[0], GetU32(b[1..HEADER_SIZE]));
        if header.Valid? then Residue(r, ReadBody(header.compression, header.len), b[HEADER_SIZE..]) else None
  }

  function AfterTerminal(events: seq<BodyEvent>): seq<BodyEvent> {
    if events == [] then []
    else if Stops(events[0]) then events[1..]
    else AfterTerminal(events[1..])
  }

  function ArrivedTrailers(d: Dec): Option<Headers> {
    if Terminal(d.body).Trailers? then AddTrailers(d.trailers, Terminal(d.body).trailers) else d.trailers
  }

  datatype Leaving = Leaving(buf: Option<bytes>, trailers: Option<Headers>, body: seq<BodyEvent>)

  function Leaves<M>(r: Reading<M>, d: Dec): Leaving {
    Leaving(Residue(r, d.state, d.buf + Payload(d.body)), ArrivedTrailers(d), AfterTerminal(d.body))
  }

  /** The same end is still ahead. */
  ghost predicate SameEnd<M>(r: Reading<M>, d: Dec, next: Dec) {
    && !next.state.Error? && next.trailers == d.trailers
    && Leaves(r, next) == Leaves(r, d) && Terminal(next.body) == Terminal(d.body)
  }

  predicate IsCancelled<M>(r: Reading<M>, ending: BodyEvent) {
    ending.Broken? && r.isRequest && ending.status.code == Cancelled
  }

  /** Trailers, a cancelled request, or an end with no bytes left over. */
  predicate EndsWell<M>(r: Reading<M>, ending: BodyEvent, left: bytes) {
    ending.Trailers? || IsCancelled(r, ending) || (ending.End? && left == [])
  }

  /** Everything before the ending is parsed, and `next` holds what is left. */
  ghost predicate Exhausts<M>(r: Reading<M>, d: Dec, next: Dec) {
    Drained(next) && Leaves(r, d) == Leaving(Some(next.buf), next.trailers, next.body)
  }

  /** The state behind a failure that no message is to blame for. */
  ghost predicate FailsInto<M>(r: Reading<M>, d: Dec, next: Dec, s: Status)
    requires Leaves(r, d).buf.Some?
  {
    var ending := Terminal(d.body);
    if EndsWell(r, ending, Leaves(r, d).buf.value) then
      next.state == Error(None) && r.endStatus(ArrivedTrailers(d)).Some?
    else if ending.Broken? then next.state == Error(Some(s)) && s == ending.status
    else Exhausts(r, d, next) && s == r.truncated
  }

  ghost predicate Keeps<M>(r: Reading<M>, d: Dec, next: Dec, p: Option<Polled<M>>) {
    match p
    case None => next.state.Error? || SameEnd(r, d, next)
    case Some(NotReady) => SameEnd(r, d, next)
    case Some(Ready(Message(_))) => SameEnd(r, d, next)
    case Some(Ready(Finished)) =>
      Exhausts(r, d, next) && EndsWell(r, Terminal(d.body), next.buf) && r.endStatus(next.trailers).None?
    case Some(Ready(Failed(s))) => Leaves(r, d).buf.Some? ==> FailsInto(r, d, next, s)
  }

  lemma ChunkKeeps<M>(r: Reading<M>, d: Dec)
    requires !d.state.Error?
    ensures var (next, step) := DecodeChunk(r, d);
            match step
            case Bad(_) => Leaves(r, d).buf.None?
            case _ => SameEnd(r, d, next) && next.body == d.body
  {
    var rest := Payload(d.body);
    var all := d.buf + rest;
    if d.state.ReadBody? {
      BodyKeeps(r, d);
    } else if |d.buf| >= HEADER_SIZE {
      assert all[0] == d.buf[0] && all[1..HEADER_SIZE] == d.buf[1..HEADER_SIZE];
      assert all[HEADER_SIZE..] == d.buf[HEADER_SIZE..] + rest;
      var header := r.header(d.buf[0], GetU32(d.buf[1..HEADER_SIZE]));
      if header.Valid? {
        BodyKeeps(r, d.(buf := d.buf[HEADER_SIZE..], state := ReadBody(header.compression, header.len)));
      }
    }
  }

  lemma BodyKeeps<M>(r: Reading<M>, d: Dec)
    requires d.state.ReadBody?
    ensures var (next, step) := TakeBody(r, d);
            match step
            case Bad(_) => Leaves(r, d).buf.None?
            case _ => SameEnd(r, d, next) && next.body == d.body
  {
    var len, rest := d.state.len, Payload(d.body);
    if |d.buf| >= len {
      assert (d.buf + rest)[..len] == d.buf[..len] && (d.buf + rest)[len..] == d.buf[len..] + rest;
    }
  }

  lemma FrameKeeps<M>(r: Reading<M>, d: Dec)
    requires Drained(d)
    ensures var (next, frame) := PollFrame(r, d);
            match frame
            case Over => Exhausts(r, d, next) && EndsWell(r, Terminal(d.body), next.buf) && next.state == d.state
            case Failing(s) => Leaves(r, d).buf == Some(d.buf) && FailsInto(r, d, next, s)
            case _ => SameEnd(r, d, next) && next.state == d.state
  {
    if d.body != [] && d.body[0].Data? {
      var data, rest := d.body[0].data, Payload(d.body[1..]);
      assert d.buf + data + rest == d.buf + (data + rest);
    } else if d.body == [] || Stops(d.body[0]) {
      assert d.buf + [] == d.buf;
    }
  }

  lemma TurnKeeps<M>(r: Reading<M>, d: Dec)
    requires !d.state.Error?
    ensures var (next, p) := Turn(r, d);
            && Keeps(r, d, next, p)
            && (p.None? && next.state.Error? ==>
                  Leaves(r, d).buf.Some? && EndsWell(r, Terminal(d.body), Leaves(r, d).buf.value)
                  && r.endStatus(ArrivedTrailers(d)).Some?)
  {
    ChunkKeeps(r, d);
    ChunkMeets(r, d);
    var (chunk, step) := DecodeChunk(r, d);
    if step.NeedMore? {
      FrameKeeps(r, chunk);
    }
  }

  lemma {:induction false} PollKeeps<M>(r: Reading<M>, d: Dec)
    requires !d.state.Error?
    ensures var (next, p) := PollNext(r, d); Keeps(r, d, next, Some(p))
    decreases |d.body|, if d.state.Error? then 0 else 1
  {
    TurnKeeps(r, d);
    TurnAdvances(r, d);
    var (next, p) := Turn(r, d);
    if p.None? && !next.state.Error? {
      PollKeeps(r, next);
    } else if p.None? {
      RoundTheLoop(r, d);
    }
  }

  /** Only the end of a body sends the loop round with an error, and then the error is reported. */
  lemma RoundTheLoop<M>(r: Reading<M>, d: Dec)
    requires Turn(r, d).1.None? && Turn(r, d).0.state.Error?
    ensures var (next, p) := PollNext(r, d);
            p.Ready? && p.outcome.Failed? && next.state == Error(None)
  {
    ChunkAdvances(r, d);
    TurnAdvances(r, d);
  }

  lemma {:induction false} AwaitKeeps<M>(r: Reading<M>, d: Dec)
    requires !d.state.Error?
    ensures var (next, outcome) := Await(r, d); Keeps(r, d, next, Some(Ready(outcome)))
    decreases |d.body|
  {
    PollKeeps(r, d);
    var (next, p) := PollNext(r, d);
    if p.NotReady? {
      AwaitKeeps(r, next);
    }
  }

  lemma {:induction false} ObserveKeeps<M>(r: Reading<M>, d: Dec)
    requires !d.state.Error?
    ensures var (last, outcomes) := Observe(r, d);
            outcomes != [] && !outcomes[|outcomes| - 1].Message?
            && Keeps(r, d, last, Some(Ready(outcomes[|outcomes| - 1])))
    decreases Weight(d)
  {
    AwaitKeeps(r, d);
    var (next, outcome) := Await(r, d);
    if outcome.Message? {
      ObserveKeeps(r, next);
    }
  }

  // ---- Terminal states ----------------------------------------------------------------------------

  function Polls<M>(r: Reading<M>, d: Dec, n: nat): (p: (Dec, seq<Polled<M>>))
    ensures |p.1| == n
  {
    if n == 0 then (d, [])
    else
      var (before, results) := Polls(r, d, n - 1);
      var (after, p) := PollNext(r, before);
      (after, results + [p])
  }

  /** However often it is polled, the receiver stays as it is and gives the same. */
  ghost predicate Repeats<M>(r: Reading<M>, d: Dec, outcome: Outcome<M>) {
    forall n: nat :: var (after, results) := Polls(r, d, n);
      after == d && forall i :: 0 <= i < n ==> results[i] == Ready(outcome)
  }

  /** Nothing but the end of the stream, from here on. */
  ghost predicate Quiet<M>(r: Reading<M>, d: Dec) {
    Repeats(r, d, Finished)
  }

  lemma {:induction false} RepeatsFor<M>(r: Reading<M>, d: Dec, outcome: Outcome<M>, n: nat)
    requires PollNext(r, d) == (d, Ready(outcome))
    ensures var (after, results) := Polls(r, d, n);
            after == d && forall i :: 0 <= i < n ==> results[i] == Ready(outcome)
  {
    if n > 0 {
      RepeatsFor(r, d, outcome, n - 1);
    }
  }

  /** A receiver repeats an outcome for ever if and only if one poll gives it and changes nothing. */
  lemma RepeatsIfOnce<M>(r: Reading<M>, d: Dec, outcome: Outcome<M>)
    ensures Repeats(r, d, outcome) <==> PollNext(r, d) == (d, Ready(outcome))
  {
    if PollNext(r, d) == (d, Ready(outcome)) {
      forall n: nat
        ensures var (after, results) := Polls(r, d, n);
                after == d && forall i :: 0 <= i < n ==> results[i] == Ready(outcome)
      {
        RepeatsFor(r, d, outcome, n);
      }
    } else {
      assert Polls(r, d, 0) == (d, []);
      assert Polls(r, d, 1) == (PollNext(r, d).0, [] + [PollNext(r, d).1]);
      assert Polls(r, d, 1).1[0] == PollNext(r, d).1;
    }
  }

  lemma ErrorReportedIsQuiet<M>(r: Reading<M>, d: Dec)
    requires d.state == Error(None)
    ensures Quiet(r, d)
  {
    assert PollNext(r, d) == (d, Ready(Finished));
    RepeatsIfOnce(r, d, Finished);
  }

  /** A body that is over has its status reported once. */
  lemma RespondReports<M>(r: Reading<M>, d: Dec, rest: Dec)
    requires Turn(r, d) == Respond(r, rest) && !d.state.Error?
    ensures var (next, p) := PollNext(r, d);
            && p == Ready(Report(r.endStatus(rest.trailers)))
            && (if p.outcome.Failed? then PollNext(r, next).1 == Ready(Finished) else next == rest)
  {
    if r.endStatus(rest.trailers).Some? {
      var failing := rest.(trailers := None, state := Error(r.endStatus(rest.trailers)));
      TurnAdvances(r, d);
      assert PollNext(r, d) == PollNext(r, failing);
      assert PollNext(r, failing) == (failing.(state := Error(None)), Ready(Report(r.endStatus(rest.trailers))));
    }
  }

  /**
   * With everything parsed and the body over, a receiver is quiet if and only if no bytes are left over
   * and the response stands for no failure; with bytes left over it reports the truncation for ever.
   */
  lemma EndedIsQuiet<M>(r: Reading<M>, d: Dec)
    requires d.body == [] && Drained(d)
    ensures Quiet(r, d) <==> d.buf == [] && r.endStatus(d.trailers).None?
    ensures d.buf != [] ==> Repeats(r, d, Failed(r.truncated))
  {
    assert DecodeChunk(r, d) == (d, NeedMore);
    if d.buf != [] {
      assert PollNext(r, d) == (d, Ready(Failed(r.truncated)));
    } else {
      RespondReports(r, d, d);
    }
    RepeatsIfOnce(r, d, Finished);
    RepeatsIfOnce(r, d, Failed(r.truncated));
  }

  /** In the error state a run of polls gives the stored error once, if any, and never a message. */
  lemma {:induction false} ErrorIsTerminal<M>(r: Reading<M>, d: Dec, n: nat)
    requires d.state.Error?
    ensures var (after, results) := Polls(r, d, n);
            && (n > 0 ==> results[0] == Ready(Report(d.state.status)))
            && (forall i :: 0 < i < n ==> results[i] == Ready(Finished))
            && after == if n == 0 then d else d.(state := Error(None))
  {
    if n > 0 {
      ErrorIsTerminal(r, d, n - 1);
    }
  }

  /**
   * An error of the body is reported when it happens and stored as well, so it is seen twice, if and
   * only if it is not the cancellation of a request.
   */
  lemma BodyErrorIsSeenTwice<M>(r: Reading<M>, d: Dec, s: Status)
    requires Drained(d) && d.body != [] && d.body[0] == Broken(s)
    ensures var (next, p) := PollNext(r, d);
            && (p == Ready(Failed(s)) == PollNext(r, next).1 <==> !(r.isRequest && s.code == Cancelled))
            && (!(r.isRequest && s.code == Cancelled) ==> Quiet(r, PollNext(r, next).0))
            && (r.isRequest && s.code == Cancelled ==> p == Ready(Report(r.endStatus(d.trailers))))
  {
    assert DecodeChunk(r, d) == (d, NeedMore) by {
      if d.state.ReadBody? {
        assert TakeBody(r, d) == (d, NeedMore);
      }
    }
    if r.isRequest && s.code == Cancelled {
      RespondReports(r, d, d.(body := d.body[1..]));
    } else {
      var next := d.(body := d.body[1..], state := Error(Some(s)));
      assert Turn(r, d) == (next, Some(Ready(Failed(s))));
      assert PollNext(r, next) == (next.(state := Error(None)), Ready(Failed(s)));
      ErrorReportedIsQuiet(r, next.(state := Error(None)));
    }
  }

  /**
   * What follows the end of a whole body in which no message is refused. Quiet follows if and only if
   * the body ended well and either no bytes were left over or a failing status was reported. A broken
   * body is reported once more; otherwise the truncation is reported for ever.
   */
  lemma AfterTheEnd<M>(r: Reading<M>, body: seq<BodyEvent>)
    requires AfterTerminal(body) == [] && Residue(r, ReadHeader, Payload(body)).Some?
    ensures var left, ending := Residue(r, ReadHeader, Payload(body)).value, Terminal(body);
            var failure := r.endStatus(ArrivedTrailers(NewReceiver(body)));
            var last := Observe(r, NewReceiver(body)).0;
            && (Quiet(r, last) <==> EndsWell(r, ending, left) && (left == [] || failure.Some?))
            && (ending.Broken? && !EndsWell(r, ending, left) ==> last.state == Error(Some(ending.status)))
            && (!Quiet(r, last) && !(ending.Broken? && !EndsWell(r, ending, left)) ==>
                  Repeats(r, last, Failed(r.truncated)))
  {
    var d := NewReceiver(body);
    assert [] + Payload(body) == Payload(body);
    ObserveKeeps(r, d);
    var (last, outcomes) := Observe(r, d);
    if last.state == Error(None) {
      ErrorReportedIsQuiet(r, last);
    } else if last.state.Error? {
      RepeatsIfOnce(r, last, Finished);
    } else {
      EndedIsQuiet(r, last);
    }
  }

  /** Trailers skip the check for partial data: the end is clean, and the truncation comes up behind it. */
  lemma PartialThenTrailers<M>(r: Reading<M>, h: Headers)
    requires r.endStatus(Some(h)).None?
    ensures var (last, outcomes) := Observe(r, NewReceiver([Data([0]), Trailers(h)]));
            outcomes == [Finished] && Repeats(r, last, Failed(r.truncated))
  {
    var body := [Data([0]), Trailers(h)];
    assert body[1..] == [Trailers(h)] && body[1..][1..] == [] && [0] + [] == [0];
    assert Terminal(body) == Terminal(body[1..]) && Payload(body) == [0] + Payload(body[1..]);
    assert AfterTerminal(body) == AfterTerminal(body[1..]) == [];
    ParseIncomplete(r, [0], Trailers(h), None);
    ChunkingIsInvisible(r, body, body);
    AfterTheEnd(r, body);
  }

  /** A truncation is not stored: every later poll reports it again. */
  lemma PartialThenEnd<M>(r: Reading<M>)
    ensures var (last, outcomes) := Observe(r, NewReceiver([Data([0])]));
            outcomes == [Failed(r.truncated)] && Repeats(r, last, Failed(r.truncated))
  {
    var body := [Data([0])];
    assert body[1..] == [] && [0] + [] == [0];
    assert Terminal(body) == Terminal(body[1..]) && Payload(body) == [0] + Payload(body[1..]);
    assert AfterTerminal(body) == AfterTerminal(body[1..]) == [];
    ParseIncomplete(r, [0], End, None);
    ChunkingIsInvisible(r, body, body);
    AfterTheEnd(r, body);
  }

  // ---- Truncation ---------------------------------------------------------------------------------

  /** The bytes after the last complete message, unless a header or message is refused. */
  function Tail<M>(r: Reading<M>, b: bytes): Option<bytes> {
    if |b| < HEADER_SIZE then Some(b)
    else
      var header := r.header(b[0], GetU32(b[1..HEADER_SIZE]));
      if !header.Valid? then None
      else if |b| < HEADER_SIZE + header.len then Some(b)
      else
        var payload := r.inflate(header.compression, b[HEADER_SIZE..HEADER_SIZE + header.len]);
        if payload.Failure? || r.decode(payload.value).Failure? then None
        else Tail(r, b[HEADER_SIZE + header.len..])
  }

  /** The bytes left in the buffer are the tail without a header that has been read. */
  lemma {:induction false} ResidueOfTail<M>(r: Reading<M>, b: bytes)
    ensures Residue(r, ReadHeader, b)
         == match Tail(r, b)
            case None => None
            case Some(t) => Some(if |t| < HEADER_SIZE then t else t[HEADER_SIZE..])
    decreases |b|
  {
    if |b| >= HEADER_SIZE {
      var header := r.header(b[0], GetU32(b[1..HEADER_SIZE]));
      if header.Valid? && |b| >= HEADER_SIZE + header.len {
        assert b[HEADER_SIZE..][..header.len] == b[HEADER_SIZE..HEADER_SIZE + header.len];
        assert b[HEADER_SIZE..][header.len..] == b[HEADER_SIZE + header.len..];
        ResidueOfTail(r, b[HEADER_SIZE + header.len..]);
      }
    }
  }

  function Last<T>(s: seq<T>): T
    requires s != []
  {
    s[|s| - 1]
  }

  /** A message that is all there comes first in what is parsed, and is no part of the tail. */
  lemma TailAfterOne<M>(r: Reading<M>, b: bytes, ending: BodyEvent, trailers: Option<Headers>, len: nat)
    requires Stops(ending) && |b| >= HEADER_SIZE + len && Tail(r, b).Some?
    requires var header := r.header(b[0], GetU32(b[1..HEADER_SIZE])); header.Valid? && header.len == len
    ensures var rest := b[HEADER_SIZE + len..];
            && Tail(r, b) == Tail(r, rest)
            && Parse(r, b, ending, trailers) != []
            && Parse(r, b, ending, trailers)[1..] == Parse(r, rest, ending, trailers)
  {
    ParseOne(r, b, ending, trailers, len);
  }

  lemma {:induction false} ParseEnds<M>(r: Reading<M>, b: bytes, ending: BodyEvent, trailers: Option<Headers>)
    requires Stops(ending) && Tail(r, b).Some?
    ensures var outcomes := Parse(r, b, ending, trailers);
            outcomes != [] && Last(outcomes) == AfterBody(r, IsCut(Tail(r, b).value), ending, trailers)
    decreases |b|
  {
    if |b| >= HEADER_SIZE && |b| >= HEADER_SIZE + r.header(b[0], GetU32(b[1..HEADER_SIZE])).len {
      var len := r.header(b[0], GetU32(b[1..HEADER_SIZE])).len;
      TailAfterOne(r, b, ending, trailers, len);
      ParseEnds(r, b[HEADER_SIZE + len..], ending, trailers);
    } else {
      ParseIncomplete(r, b, ending, trailers);
    }
  }

  /** Something follows the last complete message that is not one bare header. */
  predicate IsCut(tail: bytes) {
    tail != [] && |tail| != HEADER_SIZE
  }

  /**
   * A body that ends without trailers is reported as cut short exactly when something follows the last
   * complete message that is not one bare header, however the bytes were split.
   */
  lemma TruncationIsReported<M>(r: Reading<M>, body: seq<BodyEvent>)
    requires Terminal(body) == End && Tail(r, Payload(body)).Some?
    ensures var outcomes := Observe(r, NewReceiver(body)).1;
            outcomes != [] &&
            Last(outcomes)
              == if IsCut(Tail(r, Payload(body)).value) then Failed(r.truncated) else Report(r.endStatus(None))
  {
    ChunkingIsInvisible(r, body, body);
    ParseEnds(r, Payload(body), End, None);
  }

  lemma BareHeaderEnds<M>(r: Reading<M>, b: bytes)
    requires |b| == HEADER_SIZE && r.endStatus(None).None?
    requires var header := r.header(b[0], GetU32(b[1..])); header.Valid? && header.len > 0
    ensures Observe(r, NewReceiver([Data(b)])).1 == [Finished]
  {
    var body := [Data(b)];
    assert body[1..] == [] && b + [] == b && b[1..HEADER_SIZE] == b[1..];
    assert Payload(body) == b + Payload(body[1..]) && Terminal(body) == Terminal(body[1..]);
    ParseIncomplete(r, b, End, None);
    ChunkingIsInvisible(r, body, body);
  }

  lemma ThreeIsThree()
    ensures GetU32([0, 0, 0, 3]) == 3
  {
    assert [0, 0, 0, 3][..3] == [0, 0, 0] && [0, 0, 0][..2] == [0, 0] && [0, 0][..1] == [0] && [0][..0] == [];
    assert FromBigEndian([0]) == 0 && FromBigEndian([0, 0]) == 0 && FromBigEndian([0, 0, 0]) == 0;
  }

  /** A response cut off right after a header that announces three bytes counts as a clean end. */
  lemma BareHeaderIsAccepted<M>(cfg: DecodeConfig<M>)
    requires cfg.limit.None? && cfg.direction == Response(200)
    ensures Observe(ReadingOf(cfg), NewReceiver([Data([0, 0, 0, 0, 3])])).1 == [Finished]
  {
    var b: bytes := [0, 0, 0, 0, 3];
    assert b[1..] == [0, 0, 0, 3];
    ThreeIsThree();
    assert ParseHeader(cfg, 0, 3) == Valid(None, 3);
    assert EndStatus(cfg, None) == None;
    BareHeaderEnds(ReadingOf(cfg), b);
  }
}
