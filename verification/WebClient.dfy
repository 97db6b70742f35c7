/** A reader of gRPC-Web bodies, independent of the writer, and what it finds in the bodies of a server. */
module WebClient {
  import opened Wire
  import opened Text
  import opened Headers
  import opened Status
  import opened Body
  import opened Encode
  import opened Conservation
  import opened SendBody
  import opened GrpcWeb
  import opened Transparency

  // ---- Frames --------------------------------------------------------------------------------------

  /** The message frames of a complete body, and the block of the trailer frame that must come last. */
  function ParseWeb(b: bytes): Option<(bytes, bytes)> {
    if |b| < HEADER_SIZE || |b| < HEADER_SIZE + GetU32(b[1..5]) then None
    else
      var n := HEADER_SIZE + GetU32(b[1..5]);
      if b[0] >= 0x80 then (if |b| == n then Some(([], b[HEADER_SIZE..])) else None)
      else match ParseWeb(b[n..])
        case None => None
        case Some((frames, block)) => Some((b[..n] + frames, block))
  }

  lemma TrailerFrameParses(block: bytes)
    requires |block| < U32_LIMIT
    ensures ParseWeb(TrailerFrame(block)) == Some(([], block))
  {
    var f := TrailerFrame(block);
    U32Exact(|block|);
    assert f[1..5] == PutU32(|block|) && f[HEADER_SIZE..] == block;
  }

  lemma FirstFrameParses(flag: byte, frames: bytes, last: bytes)
    requires flag < 0x80 && frames != [] && WholeFrames(flag, frames)
    ensures var n := HEADER_SIZE + GetU32(frames[1..5]);
            ParseWeb(frames + last) ==
              match ParseWeb(frames[n..] + last)
              case None => None
              case Some((rest, block)) => Some((frames[..n] + rest, block))
  {
    var n := HEADER_SIZE + GetU32(frames[1..5]);
    var all := frames + last;
    assert all[1..5] == frames[1..5];
    assert all[..n] == frames[..n];
    assert all[n..] == frames[n..] + last;
  }

  lemma {:induction false} BodyParses(flag: byte, frames: bytes, block: bytes)
    requires flag < 0x80 && WholeFrames(flag, frames) && |block| < U32_LIMIT
    ensures ParseWeb(frames + TrailerFrame(block)) == Some((frames, block))
    decreases |frames|
  {
    if frames == [] {
      assert [] + TrailerFrame(block) == TrailerFrame(block);
      TrailerFrameParses(block);
    } else {
      var n := HEADER_SIZE + GetU32(frames[1..5]);
      FirstFrameParses(flag, frames, TrailerFrame(block));
      BodyParses(flag, frames[n..], block);
      assert frames[..n] + frames[n..] == frames;
    }
  }

  // ---- Lines ---------------------------------------------------------------------------------------

  function IndexOf(s: string, c: char): (i: nat)
    ensures i <= |s| && c !in s[..i] && (i < |s| ==> s[i] == c)
  {
    if s == "" || s[0] == c then 0
    else
      var i := IndexOf(s[1..], c) + 1;
      assert s[..i] == [s[0]] + s[1..][..i - 1];
      i
  }

  lemma {:induction false} IndexAfter(prefix: string, c: char, rest: string)
    requires c !in prefix
    ensures IndexOf(prefix + [c] + rest, c) == |prefix|
  {
    if prefix != "" {
      IndexAfter(prefix[1..], c, rest);
      assert (prefix + [c] + rest)[1..] == prefix[1..] + [c] + rest;
      assert prefix[0] in prefix;
    }
  }

  /** The line at the front of a block in two halves, and where the next one starts. */
  function CutLine(s: string): (r: Option<(string, string, nat)>)
    ensures r.Some? ==> 0 < r.value.2 <= |s|
  {
    var i, j := IndexOf(s, ':'), IndexOf(s, '\r');
    if i >= j || j + 1 >= |s| || s[j + 1] != '\n' then None
    else Some((s[..i], s[i + 1..j], j + 2))
  }

  function ParseLines(s: string): Option<seq<Entry>>
    decreases |s|
  {
    if s == "" then Some([])
    else match CutLine(s)
      case None => None
      case Some((name, value, n)) =>
        match ParseLines(s[n..])
        case None => None
        case Some(rest) => Some([Entry(NameOf(name), value)] + rest)
  }

  predicate IsEntry(e: Entry) {
    IsHeaderName(e.name) && IsHeaderValue(e.value)
  }

  lemma TokensHaveNoColon(s: string)
    requires forall c :: c in s ==> IsTokenChar(c)
    ensures ':' !in s && '\r' !in s && IsOctets(s)
  {
  }

  lemma LineColon(name: string, value: string, rest: string)
    requires ':' !in name
    ensures var s := name + ":" + value + "\r\n" + rest;
            IndexOf(s, ':') == |name| && s[..|name|] == name
  {
    var tail := value + "\r\n" + rest;
    assert name + ":" + value + "\r\n" + rest == name + [':'] + tail;
    IndexAfter(name, ':', tail);
  }

  lemma LineEnd(head: string, rest: string)
    requires '\r' !in head
    ensures var s := head + "\r\n" + rest;
            && IndexOf(s, '\r') == |head| && |head| + 1 < |s| && s[|head| + 1] == '\n'
            && s[..|head|] == head
  {
    assert head + "\r\n" + rest == head + ['\r'] + (['\n'] + rest);
    IndexAfter(head, '\r', ['\n'] + rest);
  }

  lemma NameAndValue(name: string, value: string, s: string)
    requires name + ":" + value <= s
    ensures s[|name| + 1..|name| + 1 + |value|] == value
  {
    var head := name + ":" + value;
    assert head[|name| + 1..] == value;
    assert s[..|head|] == head && s[|name| + 1..|head|] == head[|name| + 1..];
  }

  lemma LineIsCut(name: string, value: string, rest: string)
    requires ':' !in name && '\r' !in name && '\r' !in value
    ensures CutLine(name + ":" + value + "\r\n" + rest) == Some((name, value, |name| + |value| + 3))
  {
    LineColon(name, value, rest);
    LineEnd(name + ":" + value, rest);
    NameAndValue(name, value, name + ":" + value + "\r\n" + rest);
  }

  /** Nothing in the entry can be taken for the end of its name or of its line. */
  predicate IsPlain(e: Entry) {
    ':' !in NameText(e.name) && '\r' !in NameText(e.name) && '\r' !in e.value && NameOf(NameText(e.name)) == e.name
  }

  lemma EntriesArePlain(e: Entry)
    requires IsEntry(e)
    ensures IsPlain(e)
  {
    TokensHaveNoColon(NameText(e.name));
  }

  lemma FirstLineParses(e: Entry, rest: string)
    requires IsPlain(e)
    ensures ParseLines(Line(e) + rest) ==
              match ParseLines(rest)
              case None => None
              case Some(entries) => Some([e] + entries)
  {
    LineIsCut(NameText(e.name), e.value, rest);
    assert (Line(e) + rest)[|Line(e)|..] == rest;
  }

  /** Lines whose names and values hold no separators read back as the same entries. */
  lemma {:induction false} LinesParse(entries: seq<Entry>)
    requires forall e :: e in entries ==> IsPlain(e)
    ensures ParseLines(Lines(entries)) == Some(entries)
  {
    if entries != [] {
      assert entries[0] in entries;
      FirstLineParses(entries[0], Lines(entries[1..]));
      LinesParse(entries[1..]);
      assert [entries[0]] + entries[1..] == entries;
    }
  }

  lemma LineIsOctets(e: Entry)
    requires IsEntry(e)
    ensures IsOctets(Line(e))
  {
    TokensHaveNoColon(NameText(e.name));
    assert forall c :: c in Line(e) ==> c in NameText(e.name) || c in e.value || c in [':', '\r', '\n'];
  }

  lemma {:induction false} LinesAreOctets(entries: seq<Entry>)
    requires forall i :: 0 <= i < |entries| ==> IsEntry(entries[i])
    ensures IsOctets(Lines(entries))
  {
    if entries != [] {
      LineIsOctets(entries[0]);
      LinesAreOctets(entries[1..]);
      assert forall c :: c in Lines(entries) ==> c in Line(entries[0]) || c in Lines(entries[1..]);
    }
  }

  // ---- The headers behind the lines ------------------------------------------------------------------

  ghost predicate HasEntries(h: Headers) {
    forall n :: n in h ==> IsHeaderName(n) && forall v :: v in h[n].All() ==> IsHeaderValue(v)
  }

  lemma {:induction false} GatherMembers(entries: seq<Entry>, i: nat)
    requires i < |entries|
    ensures var h := Gather(entries); entries[i].name in h && entries[i].value in h[entries[i].name].All()
    decreases |entries|
  {
    var last := |entries| - 1;
    if i < last {
      GatherMembers(entries[..last], i);
      assert entries[..last][i] == entries[i];
    }
  }

  lemma {:induction false} EntriesAreSound(entries: seq<Entry>)
    requires HasEntries(Gather(entries))
    ensures forall i :: 0 <= i < |entries| ==> IsEntry(entries[i])
  {
    forall i | 0 <= i < |entries|
      ensures IsEntry(entries[i])
    {
      GatherMembers(entries, i);
    }
  }

  /** The headers a reader finds in a trailer block. */
  function ReadBlock(block: bytes): Option<Headers> {
    match ParseLines(FromBytes(block))
    case None => None
    case Some(entries) => Some(Gather(entries))
  }

  lemma BlockIsRead(entries: seq<Entry>)
    requires HasEntries(Gather(entries))
    ensures ReadBlock(ToBytes(Lines(entries))) == Some(Gather(entries))
  {
    EntriesAreSound(entries);
    forall e | e in entries
      ensures IsPlain(e)
    {
      EntriesArePlain(e);
    }
    LinesParse(entries);
    LinesAreOctets(entries);
    BytesRoundTrip(Lines(entries));
  }

  // ---- A call behind gRPC-Web --------------------------------------------------------------------------

  /** The length field of a trailer frame is right exactly when the block's length fits in 32 bits. */
  lemma TrailerLengthIsExact(block: bytes)
    ensures GetU32(TrailerFrame(block)[1..5]) == |block| <==> |block| < U32_LIMIT
  {
    U32RoundTrip(|block|);
    assert TrailerFrame(block)[1..5] == PutU32(|block|);
  }

  lemma TryName(text: string, i: nat)
    requires i < |RESERVED|
    ensures NameFrom(text, i) == if NameText(RESERVED[i]) == text then RESERVED[i] else NameFrom(text, i + 1)
  {
  }

  /** A text is read as the first reserved name that is spelled so. */
  lemma {:induction false} FirstSpelling(text: string, i: nat, k: nat)
    requires i <= k < |RESERVED| && NameText(RESERVED[k]) == text
    requires forall j :: i <= j < k ==> NameText(RESERVED[j]) != text
    ensures NameFrom(text, i) == RESERVED[k]
    decreases k - i
  {
    TryName(text, i);
    if i < k {
      FirstSpelling(text, i + 1, k);
    }
  }

  lemma MessageName()
    ensures IsHeaderName(GrpcMessage)
  {
    assert |"te"| == 2 && |"content-type"| == 12 && |"grpc-message"| == 12;
    assert "content-type"[0] == 'c' && "grpc-message"[0] == 'g';
    FirstSpelling("grpc-message", 0, 2);
  }

  lemma StatusName()
    ensures IsHeaderName(GrpcStatus)
  {
    assert |"te"| == 2 && |"content-type"| == 12 && |"grpc-message"| == 12 && |"grpc-message-type"| == 17;
    assert |"grpc-status"| == 11;
    FirstSpelling("grpc-status", 0, 4);
  }

  lemma DetailsIsToken()
    ensures forall c :: c in "grpc-status-details-bin" ==> IsTokenChar(c)
  {
  }

  lemma DetailsIsFound()
    ensures NameOf("grpc-status-details-bin") == GrpcStatusDetails
  {
    assert |"te"| == 2 && |"content-type"| == 12 && |"grpc-message"| == 12 && |"grpc-message-type"| == 17;
    assert |"grpc-status"| == 11 && |"grpc-status-details-bin"| == 23;
    FirstSpelling("grpc-status-details-bin", 0, 5);
  }

  lemma DetailsName()
    ensures IsHeaderName(GrpcStatusDetails)
  {
    DetailsIsToken();
    DetailsIsFound();
  }

  lemma InsertKeepsEntries(h: Headers, n: Name, value: string)
    requires HasEntries(h) && IsHeaderName(n) && IsHeaderValue(value)
    ensures HasEntries(Insert(h, n, value))
  {
    assert Single(value).All() == [value];
  }

  lemma SanitizedKeepsEntries(h: Headers)
    requires HasEntries(h)
    ensures HasEntries(SanitizedLast(h))
  {
    forall n | n in SanitizedLast(h)
      ensures IsHeaderName(n) && forall v :: v in SanitizedLast(h)[n].All() ==> IsHeaderValue(v)
    {
      assert SanitizedLast(h)[n].All() == [h[n].last] && h[n].last in h[n].All();
    }
  }

  lemma StatusHeadersAreEntries(s: Status)
    requires HasEntries(s.metadata)
    ensures HasEntries(WithStatus(s, map[]))
  {
    var none: Headers := map[];
    var h := none + SanitizedLast(s.metadata);
    StatusValues(s);
    SanitizedKeepsEntries(s.metadata);
    assert h == SanitizedLast(s.metadata);
    StatusName();
    MessageName();
    DetailsName();
    InsertKeepsEntries(h, GrpcStatus, CodeValue(s.code));
    h := Insert(h, GrpcStatus, CodeValue(s.code));
    if s.message != "" {
      InsertKeepsEntries(h, GrpcMessage, MessageValue(s.message));
      h := Insert(h, GrpcMessage, MessageValue(s.message));
    }
    if s.details != [] {
      InsertKeepsEntries(h, GrpcStatusDetails, DetailsValue(s.details));
    }
  }

  lemma {:induction false} FramesAreWholeFrames<M>(b: Batching<M>, flag: byte, messages: seq<M>)
    requires forall i :: 0 <= i < |messages| && b.frame(messages[i]).Success? ==>
               WholeFrames(flag, b.frame(messages[i]).value)
    ensures WholeFrames(flag, Frames(b, messages))
  {
    if messages != [] {
      FramesAreWholeFrames(b, flag, messages[1..]);
      var first := if b.frame(messages[0]).Success? then b.frame(messages[0]).value else [];
      WholeFramesConcat(flag, first, Frames(b, messages[1..]));
    }
  }

  /** What a reader of the whole body of a call finds in it. */
  ghost predicate Reads(frames: bytes, h: Headers, body: Option<bytes>) {
    && body.Some? && ParseWeb(body.value).Some?
    && ParseWeb(body.value).value.0 == frames
    && ReadBlock(ParseWeb(body.value).value.1) == Some(h)
  }

  lemma BodyIsRead(flag: byte, frames: bytes, entries: seq<Entry>, h: Headers)
    requires flag < 0x80 && WholeFrames(flag, frames) && |Lines(entries)| < U32_LIMIT
    requires HasEntries(h) && Gather(entries) == h
    ensures Reads(frames, h, Some(frames + TrailerFrame(ToBytes(Lines(entries)))))
  {
    BodyParses(flag, frames, ToBytes(Lines(entries)));
    BlockIsRead(entries);
  }

  /**
   * The gRPC-Web body of a server call, base64 undone chunk by chunk in text mode, is the frames of exactly
   * the messages sent and one trailer frame from which the status of the call can be read back.
   */
  lemma WebCallIsReadable<M(!new)>(e: EncodeConfig<M>, cfg: WebConfig, source: seq<SourceEvent<M>>, h: Headers)
    requires var s := FinalStatus(StopOf(BatchingOf(e), source)); HasEntries(s.metadata) && h == WithStatus(s, map[])
    requires Gather(cfg.order(h)) == h && |Lines(cfg.order(h))| < U32_LIMIT
    ensures var b := BatchingOf(e);
            var run := WebRun(cfg, Web(Run(b, NewSender(Server, source)), None, false));
            && Terminal(run) == End
            && Reads(Frames(b, Sent(b, source)), h, DecodedPayload(cfg.mode, run))
            && Accepted(b, source) == Sent(b, source) + Lost(b, source)
            && (Frames(b, Lost(b, source)) == [] || |Frames(b, Lost(b, source))| < e.threshold)
            && FromHeaderMap(h) == Some(Received(FinalStatus(StopOf(b, source))))
  {
    var b := BatchingOf(e);
    var s := FinalStatus(StopOf(b, source));
    SenderIsSound(e);
    RunDelivers(b, Server, source);
    HeaderMapRoundTrip(s);
    assert b.headers(s) == Success(h);
    WebRunDecodes(cfg, Web(Run(b, NewSender(Server, source)), None, false));
    StatusHeadersAreEntries(s);
    EncodedFramesAreWhole(e);
    FramesAreWholeFrames(b, Flag(e), Sent(b, source));
    BodyIsRead(Flag(e), Frames(b, Sent(b, source)), cfg.order(h), h);
  }

  /** A body that ends without trailers still gets its trailer frame, an empty one. */
  lemma EmptyTrailerFrame(cfg: WebConfig, inner: seq<BodyEvent>)
    requires Terminal(inner).End? && cfg.order(map[]) == []
    ensures DecodedPayload(cfg.mode, WebRun(cfg, Web(inner, None, false))) == Some(Payload(inner) + [0x80, 0, 0, 0, 0])
    ensures Terminal(WebRun(cfg, Web(inner, None, false))) == End
  {
    WebRunDecodes(cfg, Web(inner, None, false));
    U32IsBigEndian(0, 0, 0, 0);
    assert ToBytes("") == [] && [0x80] + [0, 0, 0, 0] + [] == [0x80, 0, 0, 0, 0];
  }

  /** A body that breaks gets none. */
  lemma BrokenHasNoTrailers(cfg: WebConfig, inner: seq<BodyEvent>)
    requires Terminal(inner).Broken?
    ensures DecodedPayload(cfg.mode, WebRun(cfg, Web(inner, None, false))) == Some(Payload(inner))
    ensures Terminal(WebRun(cfg, Web(inner, None, false))) == Terminal(inner)
  {
    WebRunDecodes(cfg, Web(inner, None, false));
    assert Payload(inner) + [] == Payload(inner);
  }
}
