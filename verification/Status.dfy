/** gRPC status codes and their image in HTTP headers. */
module Status {
  import opened Wire
  import opened Text
  import opened Headers

  datatype Code =
    | Ok | Cancelled | Unknown | InvalidArgument | DeadlineExceeded | NotFound | AlreadyExists
    | PermissionDenied | ResourceExhausted | FailedPrecondition | Aborted | OutOfRange
    | Unimplemented | Internal | Unavailable | DataLoss | Unauthenticated

  function CodeNumber(c: Code): (n: nat)
    ensures n <= 16
  {
    match c
    case Ok => 0 case Cancelled => 1 case Unknown => 2 case InvalidArgument => 3
    case DeadlineExceeded => 4 case NotFound => 5 case AlreadyExists => 6 case PermissionDenied => 7
    case ResourceExhausted => 8 case FailedPrecondition => 9 case Aborted => 10 case OutOfRange => 11
    case Unimplemented => 12 case Internal => 13 case Unavailable => 14 case DataLoss => 15
    case Unauthenticated => 16
  }

  const CODES: seq<Code> :=
    [Ok, Cancelled, Unknown, InvalidArgument, DeadlineExceeded, NotFound, AlreadyExists, PermissionDenied,
     ResourceExhausted, FailedPrecondition, Aborted, OutOfRange, Unimplemented, Internal, Unavailable, DataLoss,
     Unauthenticated]

  function CodeValue(c: Code): string {
    Decimal(CodeNumber(c))
  }

  /** The code whose number is spelled `s`, else Unknown. */
  function CodeOf(s: string): Code {
    CodeFrom(s, 0)
  }

  function CodeFrom(s: string, i: nat): Code
    requires i <= |CODES|
    decreases |CODES| - i
  {
    if i == |CODES| then Unknown
    else if CodeValue(CODES[i]) == s then CODES[i]
    else CodeFrom(s, i + 1)
  }

  lemma CodeIndex(c: Code)
    ensures CODES[CodeNumber(c)] == c
  {
  }

  lemma CodeAt(i: nat)
    requires i < |CODES|
    ensures CodeNumber(CODES[i]) == i
  {
  }

  lemma SameValueSameNumber(c: Code, d: Code)
    requires CodeValue(c) == CodeValue(d)
    ensures CodeNumber(c) == CodeNumber(d)
  {
    DecimalRoundTrip(CodeNumber(c));
    DecimalRoundTrip(CodeNumber(d));
  }

  lemma {:induction false} CodeFoundFrom(c: Code, i: nat)
    requires i <= CodeNumber(c)
    ensures CodeFrom(CodeValue(c), i) == c
    decreases CodeNumber(c) - i
  {
    CodeIndex(c);
    CodeAt(i);
    if i < CodeNumber(c) {
      if CodeValue(CODES[i]) == CodeValue(c) {
        SameValueSameNumber(CODES[i], c);
      }
      CodeFoundFrom(c, i + 1);
    }
  }

  lemma CodeRoundTrip(c: Code)
    ensures CodeOf(CodeValue(c)) == c && VisibleAscii(CodeValue(c))
  {
    CodeFoundFrom(c, 0);
    DecimalIsVisible(CodeNumber(c));
  }

  /** The message is a sequence of Unicode scalar values; the wire carries its UTF-8 bytes. */
  datatype Status = Status(code: Code, message: string, details: bytes, metadata: Headers)

  function NewStatus(code: Code, message: string): Status {
    Status(code, message, [], map[])
  }

  function MessageValue(message: string): string {
    PercentEncode(EncodeUtf8(message))
  }

  function DetailsValue(details: bytes): string {
    Base64Encode(false, details)
  }

  /** The headers after `add_header`, and the error it reports if a value is not a header value. */
  function AddHeader(s: Status, target: Headers): (Headers, Option<Status>) {
    var h := Insert(target + SanitizedLast(s.metadata), GrpcStatus, CodeValue(s.code));
    if s.message != "" && !IsHeaderValue(MessageValue(s.message)) then
      (h, Some(NewStatus(Internal, "invalid grpc-message header value")))
    else
      var h := if s.message != "" then Insert(h, GrpcMessage, MessageValue(s.message)) else h;
      if s.details != [] && !IsHeaderValue(DetailsValue(s.details)) then
        (h, Some(NewStatus(Internal, "invalid grpc-status-details-bin value")))
      else
        (if s.details != [] then Insert(h, GrpcStatusDetails, DetailsValue(s.details)) else h, None)
  }

  method WriteStatus(s: Status, target: Headers) returns (h: Headers, failure: Option<Status>)
    ensures (h, failure) == AddHeader(s, target)
  {
    h := ExtendSanitizedInto(s.metadata, target);
    h := Insert(h, GrpcStatus, CodeValue(s.code));
    if s.message != "" {
      var encoded := MessageValue(s.message);
      if !IsHeaderValue(encoded) {
        return h, Some(NewStatus(Internal, "invalid grpc-message header value"));
      }
      h := Insert(h, GrpcMessage, encoded);
    }
    if s.details != [] {
      var encoded := DetailsValue(s.details);
      if !IsHeaderValue(encoded) {
        return h, Some(NewStatus(Internal, "invalid grpc-status-details-bin value"));
      }
      h := Insert(h, GrpcStatusDetails, encoded);
    }
    failure := None;
  }

  function ToHeaderMap(s: Status): Result<Headers, Status> {
    var (h, failure) := AddHeader(s, map[]);
    if failure.Some? then Failure(failure.value) else Success(h)
  }

  const GRPC_CONTENT: Headers := map[ContentType := Single("application/grpc")]

  /** The headers of a trailers-only response. */
  function IntoHttp(s: Status): Headers {
    var (h, failure) := AddHeader(s, GRPC_CONTENT);
    if failure.Some? then Insert(h, GrpcStatus, CodeValue(failure.value.code)) else h
  }

  predicate IsStatusHeader(n: Name) {
    n == GrpcStatus || n == GrpcMessage || n == GrpcStatusDetails
  }

  /** What is left of a header map once the three status headers are taken out. */
  function OtherHeaders(h: Headers): Headers {
    LastValues(h, set n | n in h && !IsStatusHeader(n))
  }

  function BadMessage(b: bytes): string {
    "Error deserializing status message header: " + DescribeBadUtf8(b)
  }

  function MessageOf(h: Headers): string {
    match Get(h, GrpcMessage)
    case None => ""
    case Some(v) =>
      match DecodeUtf8(PercentDecode(v))
      case Some(text) => text
      case None => BadMessage(PercentDecode(v))
  }

  function DetailsOf(h: Headers): Option<bytes> {
    match Get(h, GrpcStatusDetails)
    case None => Some([])
    case Some(v) => Base64Decode(Indifferent, v)
  }

  function FromHeaderMap(h: Headers): Option<Status> {
    match Get(h, GrpcStatus)
    case None => None
    case Some(code) =>
      match DetailsOf(h)
      case None => Some(NewStatus(Internal, "invalid base64 in grpc-status-details-bin header"))
      case Some(bytes) => Some(Status(CodeOf(code), MessageOf(h), bytes, OtherHeaders(h)))
  }

  method OtherHeadersOf(h: Headers) returns (others: Headers)
    ensures others == OtherHeaders(h)
  {
    others := InsertLastValues(h, n => !IsStatusHeader(n), map[]);
    assert (set n | n in h && !IsStatusHeader(n)) == set n | n in h && (n => !IsStatusHeader(n))(n);
    assert map[] + OtherHeaders(h) == OtherHeaders(h);
  }

  method ParseStatus(h: Headers) returns (r: Option<Status>)
    ensures r == FromHeaderMap(h)
  {
    var code := Get(h, GrpcStatus);
    if code.None? {
      return None;
    }
    var details: bytes := [];
    if GrpcStatusDetails in h {
      var decoded := Base64Decode(Indifferent, h[GrpcStatusDetails].First());
      if decoded.None? {
        return Some(NewStatus(Internal, "invalid base64 in grpc-status-details-bin header"));
      }
      details := decoded.value;
    }
    var others := OtherHeadersOf(h);
    r := Some(Status(CodeOf(code.value), MessageOf(h), details, others));
  }

  // ---- The two halves undo each other --------------------------------------------------

  lemma VisibleIsHeaderValue(s: string)
    requires VisibleAscii(s)
    ensures IsHeaderValue(s)
  {
  }

  lemma StatusValues(s: Status)
    ensures IsHeaderValue(CodeValue(s.code)) && IsHeaderValue(MessageValue(s.message))
    ensures IsHeaderValue(DetailsValue(s.details))
    ensures DecodeUtf8(PercentDecode(MessageValue(s.message))) == Some(s.message)
    ensures Base64Decode(Indifferent, DetailsValue(s.details)) == Some(s.details)
    ensures CodeOf(CodeValue(s.code)) == s.code
  {
    CodeRoundTrip(s.code);
    PercentRoundTrip(EncodeUtf8(s.message));
    Utf8RoundTrip(s.message);
    Base64RoundTrip(Indifferent, false, s.details);
    VisibleIsHeaderValue(CodeValue(s.code));
    VisibleIsHeaderValue(MessageValue(s.message));
    VisibleIsHeaderValue(DetailsValue(s.details));
  }

  /** The headers `add_header` leaves when no value is refused. */
  function WithStatus(s: Status, target: Headers): Headers {
    var h := Insert(target + SanitizedLast(s.metadata), GrpcStatus, CodeValue(s.code));
    var h := if s.message != "" then Insert(h, GrpcMessage, MessageValue(s.message)) else h;
    if s.details != [] then Insert(h, GrpcStatusDetails, DetailsValue(s.details)) else h
  }

  /** No status makes `add_header` fail. */
  lemma AddHeaderSucceeds(s: Status, target: Headers)
    ensures AddHeader(s, target) == (WithStatus(s, target), None)
  {
    StatusValues(s);
  }

  lemma IntoHttpSucceeds(s: Status)
    ensures IntoHttp(s) == WithStatus(s, GRPC_CONTENT)
  {
    AddHeaderSucceeds(s, GRPC_CONTENT);
  }

  /** Writing only status headers on top of filtered metadata leaves the other entries alone. */
  lemma StatusHeadersHide(target: Headers, metadata: Headers, h: Headers)
    requires forall n :: !IsStatusHeader(n) ==> (n in h <==> n in target + SanitizedLast(metadata))
    requires forall n :: !IsStatusHeader(n) && n in h ==> h[n] == (target + SanitizedLast(metadata))[n]
    ensures OtherHeaders(h) == OtherHeaders(target) + SanitizedLast(metadata)
  {
    var left, right := OtherHeaders(h), OtherHeaders(target) + SanitizedLast(metadata);
    forall n
      ensures n in left <==> n in right
      ensures n in left && n in right ==> left[n] == right[n]
    {
      if n in SanitizedLast(metadata) {
        assert !IsStatusHeader(n);
      }
    }
  }

  lemma MessageSurvives(s: Status, target: Headers)
    requires GrpcMessage !in target
    ensures MessageOf(WithStatus(s, target)) == s.message
  {
    StatusValues(s);
    assert GrpcMessage !in target + SanitizedLast(s.metadata);
    if s.message != "" {
      assert Get(WithStatus(s, target), GrpcMessage) == Some(MessageValue(s.message));
    } else {
      assert GrpcMessage !in WithStatus(s, target);
    }
  }

  lemma DetailsSurvive(s: Status, target: Headers)
    requires GrpcStatusDetails !in target
    ensures DetailsOf(WithStatus(s, target)) == Some(s.details)
  {
    StatusValues(s);
    assert GrpcStatusDetails !in target + SanitizedLast(s.metadata);
    if s.details != [] {
      assert Get(WithStatus(s, target), GrpcStatusDetails) == Some(DetailsValue(s.details));
    } else {
      assert GrpcStatusDetails !in WithStatus(s, target);
    }
  }

  /** Reading back what was written gives the code, message and details, whatever the metadata. */
  lemma StatusRoundTrip(s: Status, target: Headers)
    requires GrpcMessage !in target && GrpcStatusDetails !in target
    ensures FromHeaderMap(WithStatus(s, target))
         == Some(Status(s.code, s.message, s.details, OtherHeaders(target) + SanitizedLast(s.metadata)))
  {
    var h := WithStatus(s, target);
    CodeRoundTrip(s.code);
    MessageSurvives(s, target);
    DetailsSurvive(s, target);
    StatusHeadersHide(target, s.metadata, h);
    assert Get(h, GrpcStatus) == Some(CodeValue(s.code));
  }

  /** The status a peer reads: reserved entries and all but the last value of a name are gone. */
  function Received(s: Status): Status {
    s.(metadata := SanitizedLast(s.metadata))
  }

  lemma HeaderMapRoundTrip(s: Status)
    ensures ToHeaderMap(s) == Success(WithStatus(s, map[]))
    ensures FromHeaderMap(WithStatus(s, map[])) == Some(Received(s))
  {
    AddHeaderSucceeds(s, map[]);
    StatusRoundTrip(s, map[]);
    assert OtherHeaders(map[]) + SanitizedLast(s.metadata) == SanitizedLast(s.metadata);
  }

  // ---- Inference at the end of a response ------------------------------------------------

  function CodeOfHttp(http: nat): Option<Code> {
    if http == 400 then Some(Internal)
    else if http == 401 then Some(Unauthenticated)
    else if http == 403 then Some(PermissionDenied)
    else if http == 404 then Some(NotFound)
    else if http in {429, 502, 503, 504} then Some(Unavailable)
    else if http == 200 then None
    else Some(Unknown)
  }

  /** The failure a finished response stands for, if any; 200 without a status counts as success. */
  function InferStatus(trailers: Option<Headers>, http: nat): Option<Status> {
    var found := if trailers.Some? then FromHeaderMap(trailers.value) else None;
    match found
    case Some(s) => if s.code == Ok then None else Some(s)
    case None =>
      match CodeOfHttp(http)
      case None => None
      case Some(code) =>
        Some(NewStatus(code, "grpc-status header missing, mapped from HTTP status code " + Decimal(http)))
  }

  // ---- What a reader makes of other headers --------------------------------------------------------------

  /** The codes as they are written. */
  lemma CodesAreWritten(c: Code)
    ensures CodeValue(c)
         == ["0", "1", "2", "3", "4", "5", "6", "7", "8", "9", "10", "11", "12", "13", "14", "15", "16"][CodeNumber(c)]
  {
    if CodeNumber(c) >= 10 {
      assert CodeNumber(c) / 10 == 1 && Decimal(1) == "1";
    }
  }

  lemma {:induction false} CodeFromIsKnown(s: string, i: nat)
    requires i <= |CODES|
    ensures CodeValue(CodeFrom(s, i)) == s
         || (CodeFrom(s, i) == Unknown && forall j :: i <= j < |CODES| ==> CodeValue(CODES[j]) != s)
    decreases |CODES| - i
  {
    if i < |CODES| && CodeValue(CODES[i]) != s {
      CodeFromIsKnown(s, i + 1);
    }
  }

  /** Any text that is not the number of a code reads as Unknown. */
  lemma CodeIsExact(s: string, c: Code)
    ensures CodeOf(s) == c <==> CodeValue(c) == s || (c == Unknown && forall d :: CodeValue(d) != s)
  {
    CodeFromIsKnown(s, 0);
    CodeRoundTrip(c);
    forall d
      ensures CODES[CodeNumber(d)] == d
    {
      CodeIndex(d);
    }
  }

  lemma OtherHeadersAreExact(h: Headers, n: Name)
    ensures n in OtherHeaders(h) <==> n in h && n !in [GrpcStatus, GrpcMessage, GrpcStatusDetails]
    ensures n in OtherHeaders(h) ==> OtherHeaders(h)[n] == Single(h[n].last)
  {
  }

  /** Without a status header there is no status. */
  lemma NoStatusIsNone(h: Headers)
    ensures FromHeaderMap(h).None? <==> GrpcStatus !in h
  {
  }

  /** A message that is not UTF-8 is replaced by what is wrong with it; the code stays. */
  lemma BadMessageKeepsCode(h: Headers, code: Code)
    requires Get(h, GrpcStatus) == Some(CodeValue(code)) && GrpcStatusDetails !in h
    requires GrpcMessage in h && DecodeUtf8(PercentDecode(h[GrpcMessage].First())).None?
    ensures var s := FromHeaderMap(h);
            && s.Some? && s.value.code == code && s.value.details == [] && s.value.metadata == OtherHeaders(h)
            && s.value.message
                 == "Error deserializing status message header: "
                    + DescribeBadUtf8(PercentDecode(h[GrpcMessage].First()))
  {
    CodeRoundTrip(code);
  }

  /** Details that are no base64 are an internal error, whatever the code was. */
  lemma BadDetailsAreInternal(h: Headers)
    requires GrpcStatus in h && GrpcStatusDetails in h
    requires Base64Decode(Indifferent, h[GrpcStatusDetails].First()).None?
    ensures FromHeaderMap(h) == Some(Status(Internal, "invalid base64 in grpc-status-details-bin header", [], map[]))
  {
  }

  lemma HttpCodes(http: nat)
    ensures var code := CodeOfHttp(http);
            && (code.None? <==> http == 200)
            && (code == Some(Internal) <==> http == 400) && (code == Some(Unauthenticated) <==> http == 401)
            && (code == Some(PermissionDenied) <==> http == 403) && (code == Some(NotFound) <==> http == 404)
            && (code == Some(Unavailable) <==> http in [429, 502, 503, 504])
            && (code == Some(Unknown) <==> http !in [200, 400, 401, 403, 404, 429, 502, 503, 504])
  {
  }

  /** Without a status the HTTP code decides: 200 is a success, and any other is a failure with its own code. */
  lemma HttpDecides(trailers: Option<Headers>, http: nat)
    requires trailers.Some? ==> GrpcStatus !in trailers.value
    ensures InferStatus(trailers, http).None? <==> http == 200
    ensures http != 200 ==>
              InferStatus(trailers, http) ==
                Some(Status(
                  CodeOfHttp(http).value,
                  "grpc-status header missing, mapped from HTTP status code " + Decimal(http), [], map[]))
  {
    HttpCodes(http);
  }

  /** The headers of a status: the code's number, the message percent-encoded, the details in unpadded base64. */
  lemma StatusIsWritten(s: Status, target: Headers)
    requires GrpcMessage !in target && GrpcStatusDetails !in target
    ensures var h := AddHeader(s, target).0;
            && Get(h, GrpcStatus) == Some(Decimal(CodeNumber(s.code)))
            && Get(h, GrpcMessage) == (if s.message == "" then None else Some(PercentEncode(EncodeUtf8(s.message))))
            && Get(h, GrpcStatusDetails) == (if s.details == [] then None else Some(Base64Encode(false, s.details)))
  {
    AddHeaderSucceeds(s, target);
    assert GrpcMessage !in target + SanitizedLast(s.metadata);
    assert GrpcStatusDetails !in target + SanitizedLast(s.metadata);
  }
}
