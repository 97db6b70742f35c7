/** HTTP header maps and the filtering of names that gRPC reserves. */
module Headers {
  import opened Wire

  /** The names gRPC reserves for itself, and every other name by its text. */
  datatype Name =
    | Te | ContentType | GrpcMessage | GrpcMessageType | GrpcStatus | GrpcStatusDetails
    | GrpcEncoding | GrpcAcceptEncoding
    | Custom(text: string)

  const RESERVED: seq<Name> :=
    [Te, ContentType, GrpcMessage, GrpcMessageType, GrpcStatus, GrpcStatusDetails, GrpcEncoding, GrpcAcceptEncoding]

  /** Names that user metadata may not carry onto the wire. */
  predicate IsReserved(n: Name) {
    !n.Custom?
  }

  lemma ReservedNames(n: Name)
    ensures IsReserved(n) <==> n in RESERVED
  {
    match n
    case Te => assert RESERVED[0] == n;
    case ContentType => assert RESERVED[1] == n;
    case GrpcMessage => assert RESERVED[2] == n;
    case GrpcMessageType => assert RESERVED[3] == n;
    case GrpcStatus => assert RESERVED[4] == n;
    case GrpcStatusDetails => assert RESERVED[5] == n;
    case GrpcEncoding => assert RESERVED[6] == n;
    case GrpcAcceptEncoding => assert RESERVED[7] == n;
    case Custom(_) =>
  }

  /** The values of one name, in order; there is at least one. */
  datatype Values = Values(earlier: seq<string>, last: string) {
    function First(): string {
      if earlier == [] then last else earlier[0]
    }

    function All(): seq<string> {
      earlier + [last]
    }
  }

  /** A header map. The order in which names are visited is not fixed. */
  type Headers = map<Name, Values>

  function Get(h: Headers, name: Name): Option<string> {
    if name in h then Some(h[name].First()) else None
  }

  function Single(value: string): Values {
    Values([], value)
  }

  /** Replaces whatever the name held. */
  function Insert(h: Headers, name: Name, value: string): Headers {
    h[name := Single(value)]
  }

  /** `extend` with another map replaces all values of a name that both hold. */
  function Merge(h: Headers, other: Headers): Headers {
    h + other
  }

  /** A byte an HTTP header value may hold: a tab, or not a control character. */
  predicate IsHeaderValue(s: string) {
    forall c :: c in s ==> c == '\t' || (0x20 <= c as int < 0x100 && c as int != 0x7F)
  }

  // ---- Filtering -------------------------------------------------------------------

  /** The entries of `h` that are not reserved, all values kept. */
  function Sanitized(h: Headers): Headers {
    map n | n in h && !IsReserved(n) :: h[n]
  }

  /** One value per name in `names`: the last, as repeated insertion leaves it. */
  function LastValues(h: Headers, names: set<Name>): Headers {
    map n | n in h && n in names :: Single(h[n].last)
  }

  function CustomNames(h: Headers): set<Name> {
    set n | n in h && !IsReserved(n)
  }

  /** What sanitized metadata adds to a header map. */
  function SanitizedLast(h: Headers): Headers {
    LastValues(h, CustomNames(h))
  }

  /** Removes each reserved name in turn. */
  method IntoSanitizedHeaders(h: Headers) returns (out: Headers)
    ensures out == Sanitized(h)
  {
    out := h;
    for i := 0 to |RESERVED|
      invariant out == map n | n in h && n !in RESERVED[..i] :: h[n]
    {
      out := out - {RESERVED[i]};
    }
    forall n: Name
      ensures IsReserved(n) <==> n in RESERVED[..|RESERVED|]
    {
      ReservedNames(n);
      assert RESERVED[..|RESERVED|] == RESERVED;
    }
  }

  /** Inserts the values of one name one after the other. */
  method InsertEach(h: Headers, name: Name, values: Values) returns (out: Headers)
    ensures out == Insert(h, name, values.last)
  {
    out := h;
    for i := 0 to |values.earlier| + 1
      invariant out == if i == 0 then h else Insert(h, name, values.All()[i - 1])
    {
      out := Insert(out, name, values.All()[i]);
    }
  }

  lemma LastValuesStep(h: Headers, target: Headers, names: set<Name>, name: Name)
    requires name in h && name !in names
    ensures target + LastValues(h, names + {name}) == Insert(target + LastValues(h, names), name, h[name].last)
  {
  }

  /** Inserts every value of every name that passes, names taken in any order. */
  method InsertLastValues(h: Headers, keep: Name -> bool, target: Headers) returns (out: Headers)
    ensures out == target + LastValues(h, set n | n in h && keep(n))
  {
    out := target;
    var names := h.Keys;
    ghost var visited := {};
    while names != {}
      invariant names <= h.Keys
      invariant visited == set n | n in h && n !in names && keep(n)
      invariant out == target + LastValues(h, visited)
    {
      var name :| name in names;
      names := names - {name};
      if keep(name) {
        LastValuesStep(h, target, visited, name);
        out := InsertEach(out, name, h[name]);
        visited := visited + {name};
      }
    }
    assert visited == set n | n in h && keep(n);
  }

  method ExtendSanitizedInto(h: Headers, target: Headers) returns (out: Headers)
    ensures out == target + SanitizedLast(h)
  {
    out := InsertLastValues(h, n => !IsReserved(n), target);
    assert CustomNames(h) == set n | n in h && (n => !IsReserved(n))(n);
  }

  // ---- What is kept, name by name ---------------------------------------------------------------------

  /** A lookup gives the first value of the name. */
  lemma GetIsFirst(h: Headers, name: Name)
    ensures Get(h, name) == if name in h then Some(h[name].All()[0]) else None
  {
  }

  /** Exactly the custom names are kept, each with all its values. */
  lemma SanitizedIsExact(h: Headers, n: Name)
    ensures n in Sanitized(h) <==> n in h && n.Custom?
    ensures n in Sanitized(h) ==> Sanitized(h)[n].All() == h[n].All()
  {
  }

  /** Exactly the custom names are added, each with its last value alone. */
  lemma SanitizedLastIsExact(h: Headers, n: Name)
    ensures n in SanitizedLast(h) <==> n in h && n.Custom?
    ensures n in SanitizedLast(h) ==> SanitizedLast(h)[n].All() == [h[n].All()[|h[n].All()| - 1]]
  {
  }

  /** Where both maps have a name, the values of the second replace those of the first. */
  lemma MergeReplaces(h: Headers, other: Headers, n: Name)
    ensures n in Merge(h, other) <==> n in h || n in other
    ensures n in other ==> Merge(h, other)[n] == other[n]
    ensures n in h && n !in other ==> Merge(h, other)[n] == h[n]
  {
  }
}
