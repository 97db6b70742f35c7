/** Message compression: names of encodings and the negotiation between client and server. */
module Compression {
  import opened Wire
  import opened Headers
  import opened Status

  datatype Encoding = Gzip | Deflate | Zstd

  const ENCODINGS: seq<Encoding> := [Gzip, Deflate, Zstd]

  function EncodingName(e: Encoding): string {
    match e
    case Gzip => "gzip"
    case Deflate => "deflate"
    case Zstd => "zstd"
  }

  function ParseName(s: string): Option<Encoding> {
    if s == EncodingName(Gzip) then Some(Gzip)
    else if s == EncodingName(Deflate) then Some(Deflate)
    else if s == EncodingName(Zstd) then Some(Zstd)
    else None
  }

  lemma NameRoundTrip(e: Encoding)
    ensures ParseName(EncodingName(e)) == Some(e)
    ensures EncodingName(e) != "identity" && IsReadable(EncodingName(e))
    ensures ',' !in EncodingName(e) && Trim(EncodingName(e)) == EncodingName(e)
  {
    var s := EncodingName(e);
    assert |"gzip"| == 4 && |"deflate"| == 7 && |"zstd"| == 4 && |"identity"| == 8;
    assert "gzip"[0] == 'g' && "zstd"[0] == 'z';
    assert !IsBlank(s[0]) && !IsBlank(s[|s| - 1]);
  }

  /** Which encodings a side has switched on. */
  datatype Enabled = Enabled(gzip: bool, deflate: bool, zstd: bool) {
    predicate Has(e: Encoding) {
      match e
      case Gzip => gzip
      case Deflate => deflate
      case Zstd => zstd
    }
  }

  /** Header text that is visible ASCII, blanks included. */
  predicate IsReadable(s: string) {
    forall c :: c in s ==> c == '\t' || ' ' <= c <= '~'
  }

  predicate IsBlank(c: char) {
    c == ' ' || c == '\t'
  }

  function TrimStart(s: string): string {
    if s != "" && IsBlank(s[0]) then TrimStart(s[1..]) else s
  }

  function TrimEnd(s: string): string {
    if s != "" && IsBlank(s[|s| - 1]) then TrimEnd(s[..|s| - 1]) else s
  }

  function Trim(s: string): string {
    TrimEnd(TrimStart(s))
  }

  /** The pieces of `s` between the separators; there is always at least one. */
  function Split(s: string, separator: char): (parts: seq<string>)
    ensures |parts| > 0
  {
    if s == "" then [""]
    else
      var rest := Split(s[1..], separator);
      if s[0] == separator then [""] + rest else [[s[0]] + rest[0]] + rest[1..]
  }

  function Join(parts: seq<string>, separator: char): string {
    if parts == [] then ""
    else if |parts| == 1 then parts[0]
    else parts[0] + [separator] + Join(parts[1..], separator)
  }

  /** `prefix` put in front of the first piece. */
  function Prepend(prefix: string, parts: seq<string>): seq<string>
    requires parts != []
  {
    [prefix + parts[0]] + parts[1..]
  }

  lemma {:induction false} SplitAfterPrefix(prefix: string, rest: string, separator: char)
    requires separator !in prefix
    ensures Split(prefix + rest, separator) == Prepend(prefix, Split(rest, separator))
  {
    var parts := Split(rest, separator);
    if prefix == "" {
      assert prefix + rest == rest;
      assert prefix + parts[0] == parts[0] && [parts[0]] + parts[1..] == parts;
    } else {
      var s := prefix + rest;
      SplitAfterPrefix(prefix[1..], rest, separator);
      assert s[1..] == prefix[1..] + rest && s[0] == prefix[0];
      assert [prefix[0]] + (prefix[1..] + parts[0]) == prefix + parts[0];
    }
  }

  lemma SplitFirst(first: string, rest: string, separator: char)
    requires separator !in first
    ensures Split(first, separator) == [first]
    ensures Split(first + [separator] + rest, separator) == [first] + Split(rest, separator)
  {
    SplitAfterPrefix(first, "", separator);
    assert first + "" == first;
    var tail := [separator] + rest;
    assert tail[1..] == rest && first + [separator] + rest == first + tail;
    SplitAfterPrefix(first, tail, separator);
  }

  lemma {:induction false} SplitJoin(parts: seq<string>, separator: char)
    requires parts != [] && forall p :: p in parts ==> separator !in p
    ensures Split(Join(parts, separator), separator) == parts
  {
    assert parts[0] in parts && parts == [parts[0]] + parts[1..];
    if |parts| == 1 {
      SplitFirst(parts[0], "", separator);
    } else {
      SplitJoin(parts[1..], separator);
      SplitFirst(parts[0], Join(parts[1..], separator), separator);
    }
  }

  // ---- Reading and writing the negotiation headers -----------------------------------

  /** The encoding announced by `grpc-encoding`, refused unless it is in the accepted set. */
  function FromEncodingHeader(h: Headers, accepted: Enabled): Result<Option<Encoding>, Status> {
    match Get(h, GrpcEncoding)
    case None => Success(None)
    case Some(text) =>
      if !IsReadable(text) then Failure(NewStatus(Internal, "grpc-encoding header is not valid UTF-8"))
      else if text == "identity" then Success(None)
      else match ParseName(text)
        case Some(e) =>
          if accepted.Has(e) then Success(Some(e))
          else Failure(NewStatus(Unimplemented, "compression `" + EncodingName(e) + "` is not supported"))
        case None => Failure(NewStatus(Unimplemented, "unknown compression encoding `" + text + "`"))
  }

  /** What one listed entry offers to a sender with these encodings. */
  function Offer(part: string, enabled: Enabled): Option<Encoding> {
    match ParseName(Trim(part))
    case Some(e) => if enabled.Has(e) then Some(e) else None
    case None => None
  }

  function FirstOffer(parts: seq<string>, enabled: Enabled): Option<Encoding> {
    if parts == [] then None
    else if Offer(parts[0], enabled).Some? then Offer(parts[0], enabled)
    else FirstOffer(parts[1..], enabled)
  }

  predicate IsFirstOffer(parts: seq<string>, i: int, enabled: Enabled, picked: Option<Encoding>) {
    && 0 <= i < |parts| && Offer(parts[i], enabled) == picked
    && forall j :: 0 <= j < i ==> Offer(parts[j], enabled).None?
  }

  ghost predicate PicksFirst(parts: seq<string>, enabled: Enabled, picked: Option<Encoding>) {
    if picked.None? then forall i :: 0 <= i < |parts| ==> Offer(parts[i], enabled).None?
    else exists i :: IsFirstOffer(parts, i, enabled, picked)
  }

  function FromAcceptEncoding(h: Headers, enabled: Enabled): Option<Encoding> {
    match Get(h, GrpcAcceptEncoding)
    case None => None
    case Some(text) => if IsReadable(text) then FirstOffer(Split(text, ','), enabled) else None
  }

  /** Picks the first listed entry that is enabled, and nothing only if none is. */
  method PickEncoding(h: Headers, enabled: Enabled) returns (picked: Option<Encoding>)
    ensures picked == FromAcceptEncoding(h, enabled)
    ensures GrpcAcceptEncoding in h && IsReadable(h[GrpcAcceptEncoding].First()) ==>
              PicksFirst(Split(h[GrpcAcceptEncoding].First(), ','), enabled, picked)
  {
    var text := Get(h, GrpcAcceptEncoding);
    if text.None? || !IsReadable(text.value) {
      return None;
    }
    var parts := Split(text.value, ',');
    for i := 0 to |parts|
      invariant forall j :: 0 <= j < i ==> Offer(parts[j], enabled).None?
      invariant FirstOffer(parts, enabled) == FirstOffer(parts[i..], enabled)
    {
      picked := Offer(parts[i], enabled);
      if picked.Some? {
        assert IsFirstOffer(parts, i, enabled, picked);
        assert PicksFirst(parts, enabled, picked);
        return;
      }
      assert parts[i..][1..] == parts[i + 1..];
    }
    picked := None;
  }

  /** The enabled encodings, in the order in which they are announced. */
  function EnabledList(enabled: Enabled, n: nat): seq<Encoding>
    requires n <= |ENCODINGS|
  {
    if n == 0 then []
    else EnabledList(enabled, n - 1) + if enabled.Has(ENCODINGS[n - 1]) then [ENCODINGS[n - 1]] else []
  }

  function Names(encodings: seq<Encoding>): (names: seq<string>)
    ensures |names| == |encodings|
  {
    seq(|encodings|, i requires 0 <= i < |encodings| => EncodingName(encodings[i]))
  }

  function AcceptEncodingValue(enabled: Enabled): Option<string> {
    var encodings := EnabledList(enabled, |ENCODINGS|);
    if encodings == [] then None else Some(Join(Names(encodings), ','))
  }

  method PrintAcceptEncoding(enabled: Enabled) returns (value: Option<string>)
    ensures value == AcceptEncodingValue(enabled)
  {
    var names := [];
    for i := 0 to |ENCODINGS|
      invariant names == Names(EnabledList(enabled, i))
    {
      if enabled.Has(ENCODINGS[i]) {
        names := names + [EncodingName(ENCODINGS[i])];
      }
    }
    value := if names == [] then None else Some(Join(names, ','));
  }

  // ---- Both sides agree ------------------------------------------------------------------

  lemma {:induction false} EnabledListMembers(enabled: Enabled, n: nat, e: Encoding)
    requires n <= |ENCODINGS|
    ensures e in EnabledList(enabled, n) ==> enabled.Has(e)
    ensures e in ENCODINGS[..n] && enabled.Has(e) ==> e in EnabledList(enabled, n)
  {
    if n > 0 {
      EnabledListMembers(enabled, n - 1, e);
      assert ENCODINGS[..n] == ENCODINGS[..n - 1] + [ENCODINGS[n - 1]];
    }
  }

  lemma {:induction false} OffersOfNames(encodings: seq<Encoding>, enabled: Enabled)
    ensures var pick := FirstOffer(Names(encodings), enabled);
            if pick.None? then forall e :: e in encodings ==> !enabled.Has(e)
            else pick.value in encodings && enabled.Has(pick.value)
  {
    if encodings != [] {
      NameRoundTrip(encodings[0]);
      OffersOfNames(encodings[1..], enabled);
      assert Names(encodings)[1..] == Names(encodings[1..]);
    }
  }

  lemma {:induction false} JoinIsReadable(encodings: seq<Encoding>)
    ensures IsReadable(Join(Names(encodings), ','))
  {
    if encodings != [] {
      NameRoundTrip(encodings[0]);
      JoinIsReadable(encodings[1..]);
      assert Names(encodings)[1..] == Names(encodings[1..]);
    }
  }

  /**
   * A server that reads the header a client printed picks an encoding both have enabled, finds one
   * whenever there is one, and the client accepts the announcement of the pick.
   */
  lemma NegotiationAgrees(h: Headers, client: Enabled, server: Enabled)
    requires Get(h, GrpcAcceptEncoding) == AcceptEncodingValue(client)
    ensures var pick := FromAcceptEncoding(h, server);
            if pick.None? then forall e :: !(client.Has(e) && server.Has(e))
            else client.Has(pick.value) && server.Has(pick.value)
    ensures forall e, g: Headers ::
              FromAcceptEncoding(h, server) == Some(e) && Get(g, GrpcEncoding) == Some(EncodingName(e))
              ==> FromEncodingHeader(g, client) == Success(Some(e))
  {
    var encodings := EnabledList(client, |ENCODINGS|);
    forall e
      ensures e in encodings <==> client.Has(e)
    {
      EnabledListMembers(client, |ENCODINGS|, e);
      assert e in ENCODINGS[..|ENCODINGS|] by {
        assert e == ENCODINGS[0] || e == ENCODINGS[1] || e == ENCODINGS[2];
      }
    }
    if encodings != [] {
      var names := Names(encodings);
      forall p | p in names
        ensures ',' !in p
      {
        var i :| 0 <= i < |names| && names[i] == p;
        NameRoundTrip(encodings[i]);
      }
      SplitJoin(names, ',');
      JoinIsReadable(encodings);
      OffersOfNames(encodings, server);
    }
    forall e
      ensures ParseName(EncodingName(e)) == Some(e) && EncodingName(e) != "identity" && IsReadable(EncodingName(e))
    {
      NameRoundTrip(e);
    }
  }

  // ---- Names, blanks and refusals -----------------------------------------------------------------------

  /** The three names, and no other text. */
  lemma NamesAreExact(s: string)
    ensures ParseName("gzip") == Some(Gzip) && ParseName("deflate") == Some(Deflate) && ParseName("zstd") == Some(Zstd)
    ensures ParseName(s).None? <==> s !in ["gzip", "deflate", "zstd"]
  {
    NameRoundTrip(Gzip);
    NameRoundTrip(Deflate);
    NameRoundTrip(Zstd);
  }

  predicate AllBlank(s: string) {
    forall i :: 0 <= i < |s| ==> s[i] == ' ' || s[i] == '\t'
  }

  lemma {:induction false} TrimStartDrops(blanks: string, s: string)
    requires AllBlank(blanks) && (s == "" || !IsBlank(s[0]))
    ensures TrimStart(blanks + s) == s
    decreases |blanks|
  {
    if blanks == "" {
      assert blanks + s == s;
    } else {
      assert (blanks + s)[1..] == blanks[1..] + s;
      TrimStartDrops(blanks[1..], s);
    }
  }

  lemma {:induction false} TrimEndDrops(s: string, blanks: string)
    requires AllBlank(blanks) && (s == "" || !IsBlank(s[|s| - 1]))
    ensures TrimEnd(s + blanks) == s
    decreases |blanks|
  {
    if blanks == "" {
      assert s + blanks == s;
    } else {
      var n := |blanks| - 1;
      assert (s + blanks)[|s| + n] == blanks[n];
      assert (s + blanks)[..|s| + n] == s + blanks[..n];
      TrimEndDrops(s, blanks[..n]);
    }
  }

  /** Blanks around a listed entry do not matter. */
  lemma BlanksAreDropped(before: string, e: Encoding, after: string, enabled: Enabled)
    requires AllBlank(before) && AllBlank(after)
    ensures Offer(before + EncodingName(e) + after, enabled) == if enabled.Has(e) then Some(e) else None
  {
    var name := EncodingName(e);
    NameRoundTrip(e);
    NameIsBare(e);
    assert before + name + after == before + (name + after);
    TrimStartDrops(before, name + after);
    TrimEndDrops(name, after);
  }

  lemma NameIsBare(e: Encoding)
    ensures var s := EncodingName(e); s != "" && !IsBlank(s[0]) && !IsBlank(s[|s| - 1])
  {
    assert |"gzip"| == 4 && |"deflate"| == 7 && |"zstd"| == 4;
  }

  /** The header printed for each choice of encodings. */
  lemma AcceptIsWritten()
    ensures AcceptEncodingValue(Enabled(false, false, false)).None?
    ensures AcceptEncodingValue(Enabled(true, true, true)) == Some("gzip,deflate,zstd")
    ensures AcceptEncodingValue(Enabled(false, true, true)) == Some("deflate,zstd")
    ensures AcceptEncodingValue(Enabled(true, false, true)) == Some("gzip,zstd")
  {
    assert EnabledList(Enabled(true, true, true), 3) == [Gzip, Deflate, Zstd];
    assert EnabledList(Enabled(false, true, true), 3) == [Deflate, Zstd];
    assert EnabledList(Enabled(true, false, true), 3) == [Gzip, Zstd];
    assert Names([Gzip, Deflate, Zstd]) == ["gzip", "deflate", "zstd"];
    assert Names([Deflate, Zstd]) == ["deflate", "zstd"] && Names([Gzip, Zstd]) == ["gzip", "zstd"];
    assert Join(["deflate", "zstd"], ',') == "deflate,zstd" && Join(["gzip", "zstd"], ',') == "gzip,zstd";
    assert ["gzip", "deflate", "zstd"][1..] == ["deflate", "zstd"];
    assert Join(["gzip", "deflate", "zstd"], ',') == "gzip" + "," + "deflate,zstd" == "gzip,deflate,zstd";
  }

  /** An announced encoding is taken if and only if it is one of the three and accepted; each refusal has its code. */
  lemma EncodingIsChecked(h: Headers, accepted: Enabled)
    ensures var r := FromEncodingHeader(h, accepted);
            && (GrpcEncoding !in h ==> r == Success(None))
            && (GrpcEncoding in h ==>
                  var text := h[GrpcEncoding].First();
                  && (!IsReadable(text) <==> r.Failure? && r.error.code == Internal)
                  && (IsReadable(text) && text == "identity" ==> r == Success(None))
                  && (IsReadable(text) && text != "identity" ==>
                        if ParseName(text).Some? && accepted.Has(ParseName(text).value) then
                          r == Success(ParseName(text))
                        else r.Failure? && r.error.code == Unimplemented))
  {
  }

  /** Without a readable list nothing is picked. */
  lemma NoListNoPick(h: Headers, enabled: Enabled)
    requires GrpcAcceptEncoding in h ==> !IsReadable(h[GrpcAcceptEncoding].First())
    ensures FromAcceptEncoding(h, enabled).None?
  {
  }
}
