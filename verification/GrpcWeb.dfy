/** gRPC-Web responses: the trailers become a last frame inside the body. */
module GrpcWeb {
  import opened Wire
  import opened Text
  import opened Headers
  import opened Body

  datatype Mode = Binary | Text

  // ---- Names and lines ---------------------------------------------------------------------------

  function NameText(n: Name): string {
    match n
    case Te => "te"
    case ContentType => "content-type"
    case GrpcMessage => "grpc-message"
    case GrpcMessageType => "grpc-message-type"
    case GrpcStatus => "grpc-status"
    case GrpcStatusDetails => "grpc-status-details-bin"
    case GrpcEncoding => "grpc-encoding"
    case GrpcAcceptEncoding => "grpc-accept-encoding"
    case Custom(text) => text
  }

  function NameFrom(text: string, i: nat): Name
    requires i <= |RESERVED|
    decreases |RESERVED| - i
  {
    if i == |RESERVED| then Custom(text)
    else if NameText(RESERVED[i]) == text then RESERVED[i]
    else NameFrom(text, i + 1)
  }

  function NameOf(text: string): Name {
    NameFrom(text, 0)
  }

  predicate IsTokenChar(c: char) {
    'a' <= c <= 'z' || '0' <= c <= '9'
    || c in ['!', '#', '$', '%', '&', '\'', '*', '+', '-', '.', '^', '_', '`', '|', '~']
  }

  /** A header name is a token, and a reserved one is never spelled out as a custom one. */
  predicate IsHeaderName(n: Name) {
    NameText(n) != "" && (forall c :: c in NameText(n) ==> IsTokenChar(c)) && NameOf(NameText(n)) == n
  }

  datatype Entry = Entry(name: Name, value: string)

  function Line(e: Entry): string {
    NameText(e.name) + ":" + e.value + "\r\n"
  }

  function Lines(entries: seq<Entry>): string {
    if entries == [] then "" else Line(entries[0]) + Lines(entries[1..])
  }

  /** The header map that yields these entries when it is iterated over. */
  function Gather(entries: seq<Entry>): Headers {
    if entries == [] then map[]
    else
      var e := entries[|entries| - 1];
      var h := Gather(entries[..|entries| - 1]);
      h[e.name := if e.name in h then Values(h[e.name].All(), e.value) else Single(e.value)]
  }

  /** Flag 0x80, length, block; a length above 32 bits would be truncated. */
  function TrailerFrame(block: bytes): bytes {
    [0x80] + PutU32(|block|) + block
  }

  function Output(mode: Mode, data: bytes): bytes {
    if mode == Text then ToBytes(Base64Encode(true, data)) else data
  }

  /** Mode, and the order in which header maps are iterated over. */
  datatype WebConfig = WebConfig(mode: Mode, order: Headers -> seq<Entry>)

  function EncodedTrailers(cfg: WebConfig, h: Headers): bytes {
    Output(cfg.mode, TrailerFrame(ToBytes(Lines(cfg.order(h)))))
  }

  method EncodeTrailers(cfg: WebConfig, h: Headers) returns (frame: bytes)
    ensures frame == EncodedTrailers(cfg, h)
  {
    var entries := cfg.order(h);
    var block := "";
    for i := 0 to |entries|
      invariant block + Lines(entries[i..]) == Lines(entries)
    {
      ghost var before := block;
      block := block + NameText(entries[i].name);
      block := block + ":";
      block := block + entries[i].value;
      block := block + "\r\n";
      assert entries[i..][1..] == entries[i + 1..];
      assert block + Lines(entries[i + 1..]) == before + (Line(entries[i]) + Lines(entries[i + 1..]));
    }
    assert block + "" == block;
    frame := Output(cfg.mode, TrailerFrame(ToBytes(block)));
  }

  // ---- The response body ---------------------------------------------------------------------------

  datatype Web = Web(inner: seq<BodyEvent>, trailers: Option<Headers>, sent: bool)

  function NextInner(w: Web): (Web, BodyEvent) {
    if w.inner == [] then (w, End) else (w.(inner := w.inner[1..]), w.inner[0])
  }

  function PollEncode(cfg: WebConfig, w: Web): (Web, BodyEvent) {
    if w.trailers.Some? then (w.(trailers := None, sent := true), Data(EncodedTrailers(cfg, w.trailers.value)))
    else if w.sent then (w, End)
    else
      var (next, event) := NextInner(w);
      match event
      case Pending => (next, Pending)
      case Data(data) => (next, Data(Output(cfg.mode, data)))
      case Trailers(h) => (next.(trailers := Some(h)), Pending)
      case Broken(s) => (next, Broken(s))
      case End => (next.(sent := true), Data(EncodedTrailers(cfg, map[])))
  }

  class GrpcWebCall {
    const cfg: WebConfig
    var inner: seq<BodyEvent>
    var trailers: Option<Headers>
    var trailersSent: bool

    function View(): Web
      reads this
    {
      Web(inner, trailers, trailersSent)
    }

    constructor (cfg: WebConfig, inner: seq<BodyEvent>)
      ensures this.cfg == cfg && View() == Web(inner, None, false)
    {
      this.cfg := cfg;
      this.inner := inner;
      trailers, trailersSent := None, false;
    }

    method Poll() returns (event: BodyEvent)
      modifies this
      ensures (View(), event) == PollEncode(cfg, old(View()))
    {
      if trailers.Some? {
        var h := trailers.value;
        trailers := None;
        trailersSent := true;
        var encoded := EncodeTrailers(cfg, h);
        return Data(encoded);
      }
      if trailersSent {
        return End;
      }
      var polled := End;
      if inner != [] {
        polled := inner[0];
        inner := inner[1..];
      }
      match polled
      case Pending => event := Pending;
      case Data(data) => event := Data(Output(cfg.mode, data));
      case Trailers(h) =>
        trailers := Some(h);
        event := Pending;
      case Broken(s) => event := Broken(s);
      case End =>
        trailersSent := true;
        var encoded := EncodeTrailers(cfg, map[]);
        event := Data(encoded);
    }
  }

  /** Everything a consumer sees up to the end or an error. */
  function WebRun(cfg: WebConfig, w: Web): (run: seq<BodyEvent>)
    ensures run != []
    decreases if w.trailers.Some? then 1 else if w.sent then 0 else 2, |w.inner|
  {
    var (next, event) := PollEncode(cfg, w);
    if Stops(event) then [event] else [event] + WebRun(cfg, next)
  }

  /** The state in which `WebRun` leaves the body. */
  function WebAfter(cfg: WebConfig, w: Web): Web
    decreases if w.trailers.Some? then 1 else if w.sent then 0 else 2, |w.inner|
  {
    var (next, event) := PollEncode(cfg, w);
    if Stops(event) then next else WebAfter(cfg, next)
  }

  /** Once a body has ended without an error, it has sent its trailer frame and only ends again. */
  lemma {:induction false} EndIsFinal(cfg: WebConfig, w: Web)
    ensures var last := WebAfter(cfg, w);
            Terminal(WebRun(cfg, w)) == End ==> last.sent && PollEncode(cfg, last) == (last, End)
    decreases if w.trailers.Some? then 1 else if w.sent then 0 else 2, |w.inner|
  {
    var (next, event) := PollEncode(cfg, w);
    if !Stops(event) {
      EndIsFinal(cfg, next);
      assert ([event] + WebRun(cfg, next))[1..] == WebRun(cfg, next);
    }
  }

  /** What a body still has to say after the data of the inner body. */
  function LastFrame(cfg: WebConfig, ending: BodyEvent): bytes
    requires Stops(ending)
  {
    match ending
    case Trailers(h) => TrailerFrame(ToBytes(Lines(cfg.order(h))))
    case End => TrailerFrame(ToBytes(Lines(cfg.order(map[]))))
    case Broken(_) => []
  }

  function WebEnding(ending: BodyEvent): BodyEvent {
    if ending.Broken? then ending else End
  }

  /** The bytes of all data chunks, each decoded on its own as base64 in text mode. */
  function DecodedPayload(mode: Mode, events: seq<BodyEvent>): Option<bytes> {
    if events == [] || Stops(events[0]) then Some([])
    else if !events[0].Data? then DecodedPayload(mode, events[1..])
    else
      var chunk := if mode == Text then Base64Decode(Canonical, FromBytes(events[0].data)) else Some(events[0].data);
      var rest := DecodedPayload(mode, events[1..]);
      if chunk.Some? && rest.Some? then Some(chunk.value + rest.value) else None
  }

  lemma BytesRoundTrip(s: string)
    requires IsOctets(s)
    ensures FromBytes(ToBytes(s)) == s
  {
    forall i | 0 <= i < |s|
      ensures FromBytes(ToBytes(s))[i] == s[i]
    {
      assert s[i] in s;
    }
  }

  lemma OutputDecodes(mode: Mode, data: bytes, rest: seq<BodyEvent>)
    requires DecodedPayload(mode, rest).Some?
    ensures DecodedPayload(mode, [Data(Output(mode, data))] + rest) == Some(data + DecodedPayload(mode, rest).value)
  {
    var events := [Data(Output(mode, data))] + rest;
    assert events[1..] == rest;
    if mode == Text {
      Base64RoundTrip(Canonical, true, data);
      BytesRoundTrip(Base64Encode(true, data));
    }
  }

  /** The frame of the trailers and then the end. */
  lemma FinalFrame(cfg: WebConfig, after: Web, h: Headers)
    requires after.sent && after.trailers.None?
    ensures var run := [Data(EncodedTrailers(cfg, h))] + WebRun(cfg, after);
            && PollEncode(cfg, after) == (after, End)
            && DecodedPayload(cfg.mode, run) == Some(TrailerFrame(ToBytes(Lines(cfg.order(h)))))
            && Terminal(run) == End
  {
    var frame := TrailerFrame(ToBytes(Lines(cfg.order(h))));
    assert WebRun(cfg, after) == [End];
    OutputDecodes(cfg.mode, frame, [End]);
    assert frame + [] == frame;
    assert ([Data(EncodedTrailers(cfg, h))] + [End])[1..] == [End];
  }

  lemma HeldTrailers(cfg: WebConfig, w: Web)
    requires w.trailers.Some?
    ensures DecodedPayload(cfg.mode, WebRun(cfg, w)) == Some(TrailerFrame(ToBytes(Lines(cfg.order(w.trailers.value)))))
    ensures Terminal(WebRun(cfg, w)) == End
  {
    FinalFrame(cfg, w.(trailers := None, sent := true), w.trailers.value);
  }

  lemma DataFirst(cfg: WebConfig, w: Web, data: bytes)
    requires w.trailers.None? && !w.sent && w.inner != [] && w.inner[0] == Data(data)
    requires var next := w.(inner := w.inner[1..]);
             DecodedPayload(cfg.mode, WebRun(cfg, next))
               == Some(Payload(next.inner) + LastFrame(cfg, Terminal(next.inner)))
    ensures DecodedPayload(cfg.mode, WebRun(cfg, w)) == Some(Payload(w.inner) + LastFrame(cfg, Terminal(w.inner)))
    ensures Terminal(WebRun(cfg, w)) == Terminal(WebRun(cfg, w.(inner := w.inner[1..])))
  {
    var run := WebRun(cfg, w.(inner := w.inner[1..]));
    var tail, last := Payload(w.inner[1..]), LastFrame(cfg, Terminal(w.inner));
    assert WebRun(cfg, w) == [Data(Output(cfg.mode, data))] + run;
    OutputDecodes(cfg.mode, data, run);
    assert data + (tail + last) == data + tail + last;
    assert WebRun(cfg, w)[1..] == run;
  }

  /**
   * The decoded body is the data of the inner body followed by the one frame that holds its trailers;
   * after that frame the body has ended.
   */
  lemma {:induction false} WebRunDecodes(cfg: WebConfig, w: Web)
    requires w.trailers.None? && !w.sent
    ensures DecodedPayload(cfg.mode, WebRun(cfg, w)) == Some(Payload(w.inner) + LastFrame(cfg, Terminal(w.inner)))
    ensures Terminal(WebRun(cfg, w)) == WebEnding(Terminal(w.inner))
    decreases |w.inner|
  {
    var (next, event) := PollEncode(cfg, w);
    var polled := NextInner(w).1;
    assert [] + LastFrame(cfg, Terminal(w.inner)) == LastFrame(cfg, Terminal(w.inner));
    if !Stops(event) {
      assert ([event] + WebRun(cfg, next))[1..] == WebRun(cfg, next);
    }
    match polled
    case Pending => WebRunDecodes(cfg, next);
    case Data(data) =>
      WebRunDecodes(cfg, next);
      DataFirst(cfg, w, data);
    case Trailers(h) => HeldTrailers(cfg, next);
    case Broken(s) =>
    case End => FinalFrame(cfg, next, map[]);
  }

  /** The reserved names as they are spelled. */
  lemma NamesAreSpelled()
    ensures NameText(Te) == "te" && NameText(ContentType) == "content-type" && NameText(GrpcMessage) == "grpc-message"
    ensures NameText(GrpcMessageType) == "grpc-message-type" && NameText(GrpcStatus) == "grpc-status"
    ensures NameText(GrpcStatusDetails) == "grpc-status-details-bin" && NameText(GrpcEncoding) == "grpc-encoding"
    ensures NameText(GrpcAcceptEncoding) == "grpc-accept-encoding"
  {
  }
}
