/** Which frames a receiver delivers and which it refuses, in terms of its settings and of the bytes alone. */
module Refusals {
  import opened Wire
  import opened Headers
  import opened Status
  import opened Body
  import opened Decode
  import opened Parsing

  // ---- Headers ---------------------------------------------------------------------------------------

  /** A flag is read only if it is zero, or one with an encoding announced. */
  predicate FlagIsKnown<M>(cfg: DecodeConfig<M>, flag: byte) {
    flag == 0 || (flag == 1 && cfg.encoding.Some?)
  }

  predicate LengthFits<M>(cfg: DecodeConfig<M>, len: nat) {
    len <= if cfg.limit.Some? then cfg.limit.value else 4 * 1024 * 1024
  }

  /** A header is accepted if and only if its flag is known and its length fits; the flag is looked at first. */
  lemma HeaderIsChecked<M>(cfg: DecodeConfig<M>, flag: byte, len: nat)
    ensures var h := ParseHeader(cfg, flag, len);
            && (h.Valid? <==> FlagIsKnown(cfg, flag) && LengthFits(cfg, len))
            && (h.Valid? ==> h.len == len && h.compression == if flag == 1 then cfg.encoding else None)
            && (h.BadFlag? <==> !FlagIsKnown(cfg, flag)) && (h.BadFlag? ==> h.status.code == Internal)
            && (h.BadLength? ==> h.status.code == OutOfRange)
  {
  }

  // ---- Frames ----------------------------------------------------------------------------------------

  /** A frame as the bytes at the front announce it, whatever the settings. */
  predicate HasFrame(b: bytes) {
    |b| >= HEADER_SIZE && |b| >= HEADER_SIZE + GetU32(b[1..HEADER_SIZE])
  }

  function FrameLength(b: bytes): nat
    requires |b| >= HEADER_SIZE
  {
    GetU32(b[1..HEADER_SIZE])
  }

  function FrameData(b: bytes): bytes
    requires HasFrame(b)
  {
    b[HEADER_SIZE..HEADER_SIZE + FrameLength(b)]
  }

  /** The bytes behind the first `k` frames, if there are so many. */
  function Behind(b: bytes, k: nat): Option<bytes> {
    if k == 0 then Some(b)
    else if !HasFrame(b) then None
    else Behind(b[HEADER_SIZE + FrameLength(b)..], k - 1)
  }

  /** The message in the frame at the front, if the settings admit it. */
  function Content<M>(cfg: DecodeConfig<M>, b: bytes): Result<M, Status>
    requires HasFrame(b)
  {
    if b[0] != 1 then cfg.decode(FrameData(b))
    else if cfg.encoding.None? then Failure(NewStatus(Internal, ""))
    else match cfg.decompress(cfg.encoding.value, FrameData(b))
      case Failure(text) => Failure(NewStatus(Internal, "decompression error: " + text))
      case Success(out) => cfg.decode(out)
  }

  predicate Admits<M>(cfg: DecodeConfig<M>, b: bytes) {
    HasFrame(b) && FlagIsKnown(cfg, b[0]) && LengthFits(cfg, FrameLength(b))
  }

  /** The frame at the front is delivered as `m`. */
  ghost predicate DeliversAs<M>(cfg: DecodeConfig<M>, b: bytes, m: M) {
    Admits(cfg, b) && Content(cfg, b) == Success(m)
  }

  /** What the outcome behind the messages has to be: the bytes that follow begin with `b`. */
  ghost predicate EndsAs<M>(cfg: DecodeConfig<M>, b: bytes, ending: BodyEvent, outcome: Outcome<M>)
    requires Stops(ending)
  {
    if |b| >= HEADER_SIZE && !FlagIsKnown(cfg, b[0]) then outcome.Failed? && outcome.status.code == Internal
    else if |b| >= HEADER_SIZE && !LengthFits(cfg, FrameLength(b)) then
      outcome.Failed? && outcome.status.code == OutOfRange
    else if HasFrame(b) then Content(cfg, b).Failure? && outcome == Failed(Content(cfg, b).error)
    else outcome == AfterBody(ReadingOf(cfg), b != [] && |b| != HEADER_SIZE, ending, None)
  }

  /** The outcomes are the messages of the first frames, one by one, and then what follows of the bytes behind. */
  ghost predicate Reads<M>(cfg: DecodeConfig<M>, b: bytes, ending: BodyEvent, outcomes: seq<Outcome<M>>)
    requires Stops(ending)
  {
    && outcomes != []
    && var k := |outcomes| - 1;
       && Behind(b, k).Some?
       && EndsAs(cfg, Behind(b, k).value, ending, outcomes[k])
       && forall i :: 0 <= i < k ==>
            Behind(b, i).Some? && outcomes[i].Message? && DeliversAs(cfg, Behind(b, i).value, outcomes[i].message)
  }

  /** A complete frame with an accepted header. */
  lemma WholeFrameIsRead<M>(cfg: DecodeConfig<M>, b: bytes, ending: BodyEvent)
    requires Stops(ending) && Admits(cfg, b)
    ensures var outcomes := Parse(ReadingOf(cfg), b, ending, None);
            match Content(cfg, b)
            case Success(m) =>
              outcomes == [Outcome.Message(m)]
                          + Parse(ReadingOf(cfg), b[HEADER_SIZE + FrameLength(b)..], ending, None)
            case Failure(s) => outcomes == [Failed(s)]
  {
    var r := ReadingOf(cfg);
    var h := ParseHeader(cfg, b[0], FrameLength(b));
    HeaderIsChecked(cfg, b[0], FrameLength(b));
    assert r.header(b[0], FrameLength(b)) == h;
    assert b[HEADER_SIZE..][..FrameLength(b)] == FrameData(b);
    assert b[HEADER_SIZE..][FrameLength(b)..] == b[HEADER_SIZE + FrameLength(b)..];
    assert r.inflate(h.compression, FrameData(b)) == Inflate(cfg, h.compression, FrameData(b));
  }

  lemma BadHeaderIsRead<M>(cfg: DecodeConfig<M>, b: bytes, ending: BodyEvent)
    requires Stops(ending) && |b| >= HEADER_SIZE && !ParseHeader(cfg, b[0], FrameLength(b)).Valid?
    ensures Parse(ReadingOf(cfg), b, ending, None) == [Failed(ParseHeader(cfg, b[0], FrameLength(b)).status)]
  {
    assert ReadingOf(cfg).header(b[0], FrameLength(b)) == ParseHeader(cfg, b[0], FrameLength(b));
  }

  lemma PartOfFrameIsRead<M>(cfg: DecodeConfig<M>, b: bytes, ending: BodyEvent)
    requires Stops(ending) && !HasFrame(b)
    requires |b| >= HEADER_SIZE ==> FlagIsKnown(cfg, b[0]) && LengthFits(cfg, FrameLength(b))
    ensures Parse(ReadingOf(cfg), b, ending, None)
         == [AfterBody(ReadingOf(cfg), b != [] && |b| != HEADER_SIZE, ending, None)]
  {
    if |b| >= HEADER_SIZE {
      HeaderIsChecked(cfg, b[0], FrameLength(b));
      assert ReadingOf(cfg).header(b[0], FrameLength(b)) == ParseHeader(cfg, b[0], FrameLength(b));
    }
    ParseIncomplete(ReadingOf(cfg), b, ending, None);
  }

  lemma FirstIsRead<M>(cfg: DecodeConfig<M>, b: bytes, ending: BodyEvent)
    requires Stops(ending)
    ensures var outcomes := Parse(ReadingOf(cfg), b, ending, None);
            if Admits(cfg, b) && Content(cfg, b).Success? then
              outcomes == [Outcome.Message(Content(cfg, b).value)]
                          + Parse(ReadingOf(cfg), b[HEADER_SIZE + FrameLength(b)..], ending, None)
            else |outcomes| == 1 && !outcomes[0].Message? && EndsAs(cfg, b, ending, outcomes[0])
  {
    if Admits(cfg, b) {
      WholeFrameIsRead(cfg, b, ending);
    } else if |b| >= HEADER_SIZE && !(FlagIsKnown(cfg, b[0]) && LengthFits(cfg, FrameLength(b))) {
      HeaderIsChecked(cfg, b[0], FrameLength(b));
      BadHeaderIsRead(cfg, b, ending);
    } else {
      PartOfFrameIsRead(cfg, b, ending);
    }
  }

  lemma ReadsMore<M>(cfg: DecodeConfig<M>, b: bytes, ending: BodyEvent, m: M, later: seq<Outcome<M>>)
    requires Stops(ending) && DeliversAs(cfg, b, m)
    requires Reads(cfg, b[HEADER_SIZE + FrameLength(b)..], ending, later)
    ensures Reads(cfg, b, ending, [Outcome.Message(m)] + later)
  {
    var rest := b[HEADER_SIZE + FrameLength(b)..];
    var all := [Outcome.Message(m)] + later;
    forall i | 0 <= i < |all| - 1
      ensures Behind(b, i).Some? && all[i].Message? && DeliversAs(cfg, Behind(b, i).value, all[i].message)
    {
      if i > 0 {
        assert Behind(b, i) == Behind(rest, i - 1) && all[i] == later[i - 1];
      }
    }
    assert Behind(b, |all| - 1) == Behind(rest, |later| - 1);
  }

  lemma {:induction false} ParseReads<M>(cfg: DecodeConfig<M>, b: bytes, ending: BodyEvent)
    requires Stops(ending)
    ensures Reads(cfg, b, ending, Parse(ReadingOf(cfg), b, ending, None))
    decreases |b|
  {
    FirstIsRead(cfg, b, ending);
    if Admits(cfg, b) && Content(cfg, b).Success? {
      var rest := b[HEADER_SIZE + FrameLength(b)..];
      ParseReads(cfg, rest, ending);
      ReadsMore(cfg, b, ending, Content(cfg, b).value, Parse(ReadingOf(cfg), rest, ending, None));
    }
  }

  /**
   * However a body arrives, its outcomes are those of the frames its bytes announce: every message
   * delivered was announced within the limit and with a known flag; the first frame that is not ends
   * them with OutOfRange or Internal, one that cannot be decoded with the reason, and otherwise the
   * ending of the body decides.
   */
  lemma FramesAreReadOrRefused<M>(cfg: DecodeConfig<M>, body: seq<BodyEvent>)
    ensures Reads(cfg, Payload(body), Terminal(body), Observe(ReadingOf(cfg), NewReceiver(body)).1)
  {
    ChunkingIsInvisible(ReadingOf(cfg), body, body);
    ParseReads(cfg, Payload(body), Terminal(body));
  }

  /** A length above the limit in the first header is refused before anything of the message arrives. */
  lemma TooLongIsRefused<M>(cfg: DecodeConfig<M>, flag: byte, len: nat, b: bytes, body: seq<BodyEvent>)
    requires FlagIsKnown(cfg, flag) && len < U32_LIMIT && !LengthFits(cfg, len)
    requires Payload(body) == [flag] + PutU32(len) + b
    ensures var outcomes := Observe(ReadingOf(cfg), NewReceiver(body)).1;
            |outcomes| == 1 && outcomes[0].Failed? && outcomes[0].status.code == OutOfRange
  {
    var all := Payload(body);
    assert all[1..HEADER_SIZE] == PutU32(len);
    U32Exact(len);
    ChunkingIsInvisible(ReadingOf(cfg), body, body);
    FirstIsRead(cfg, all, Terminal(body));
  }

  // ---- Endings ---------------------------------------------------------------------------------------

  /** A body cut off in the middle of a message is an internal error, whatever the direction. */
  lemma CutOffIsInternal<M>(cfg: DecodeConfig<M>, body: seq<BodyEvent>)
    requires Terminal(body) == End && |Payload(body)| > HEADER_SIZE && !HasFrame(Payload(body))
    requires FlagIsKnown(cfg, Payload(body)[0]) && LengthFits(cfg, FrameLength(Payload(body)))
    ensures Observe(ReadingOf(cfg), NewReceiver(body)).1
         == [Failed(Status(Internal, "Unexpected EOF decoding stream.", [], map[]))]
  {
    ChunkingIsInvisible(ReadingOf(cfg), body, body);
    FirstIsRead(cfg, Payload(body), Terminal(body));
  }

  /** A request ends when its body does, whatever its trailers say, and when the caller cancels it. */
  lemma RequestEnds<M>(cfg: DecodeConfig<M>, body: seq<BodyEvent>)
    requires cfg.direction == Request && Payload(body) == []
    ensures Observe(ReadingOf(cfg), NewReceiver(body)).1
         == [if Terminal(body).Broken? && Terminal(body).status.code != Cancelled then Failed(Terminal(body).status)
             else Finished]
  {
    ChunkingIsInvisible(ReadingOf(cfg), body, body);
    FirstIsRead(cfg, [], Terminal(body));
  }

  /** A response that breaks fails with the error, cancelled or not. */
  lemma ResponseBreaks<M>(cfg: DecodeConfig<M>, body: seq<BodyEvent>)
    requires cfg.direction != Request && Payload(body) == [] && Terminal(body).Broken?
    ensures Observe(ReadingOf(cfg), NewReceiver(body)).1 == [Failed(Terminal(body).status)]
  {
    ChunkingIsInvisible(ReadingOf(cfg), body, body);
    FirstIsRead(cfg, [], Terminal(body));
  }

  // ---- Behind a refusal ----------------------------------------------------------------------------------

  /** What a refused frame leaves: an unknown flag costs its byte, a length above the limit the header. */
  lemma RefusalConsumes<M>(cfg: DecodeConfig<M>, d: Dec)
    requires d.state.ReadHeader? && |d.buf| >= HEADER_SIZE
    ensures var next := PollNext(ReadingOf(cfg), d).0;
            && (!FlagIsKnown(cfg, d.buf[0]) ==> next == d.(buf := d.buf[1..]))
            && (FlagIsKnown(cfg, d.buf[0]) && !LengthFits(cfg, FrameLength(d.buf)) ==> next == d.(buf := d.buf[5..]))
  {
    HeaderIsChecked(cfg, d.buf[0], FrameLength(d.buf));
    assert ReadingOf(cfg).header(d.buf[0], FrameLength(d.buf)) == ParseHeader(cfg, d.buf[0], FrameLength(d.buf));
  }

  /** A failing status takes the trailers with it: nothing is left to be taken. */
  lemma FailureTakesTrailers<M>(r: Reading<M>, h: Headers)
    requires r.endStatus(Some(h)).Some?
    ensures var (next, p) := PollNext(r, NewReceiver([Trailers(h)]));
            && p == Ready(Failed(r.endStatus(Some(h)).value))
            && DrainTrailers(r, next).1 == Success(None)
  {
    var d := NewReceiver([Trailers(h)]);
    assert d.body[1..] == [];
    var failing := Dec([], Error(r.endStatus(Some(h))), [], None);
    assert Turn(r, d) == (failing, None);
    assert PollNext(r, d) == PollNext(r, failing);
    var after := failing.(state := Error(None));
    assert PollNext(r, failing).0 == after;
    assert PollNext(r, after) == (after, Ready(Finished));
    assert Await(r, after) == (after, Finished);
  }
}
