/** Text codecs of the status protocol: decimal numbers, UTF-8, percent-encoding and base64. */
module Text {
  import opened Wire

  /** A header value is kept as a string with one character per byte. */
  function ByteOf(c: char): byte {
    c as int % 256
  }

  function CharOf(b: byte): char {
    b as char
  }

  predicate IsOctets(s: string) {
    forall c :: c in s ==> c as int < 256
  }

  function ToBytes(s: string): (b: bytes)
    ensures |b| == |s|
  {
    seq(|s|, i requires 0 <= i < |s| => ByteOf(s[i]))
  }

  function FromBytes(b: bytes): (s: string)
    ensures |s| == |b|
  {
    seq(|b|, i requires 0 <= i < |b| => CharOf(b[i]))
  }

  predicate VisibleAscii(s: string) {
    forall c :: c in s ==> '!' <= c <= '~'
  }

  // ---- Decimal ----------------------------------------------------------------

  function Decimal(n: nat): (s: string)
    ensures |s| > 0
  {
    if n < 10 then [(n + '0' as int) as char] else Decimal(n / 10) + Decimal(n % 10)
  }

  function ParseDecimal(s: string): Option<nat>
  {
    if s == "" || !('0' <= s[|s| - 1] <= '9') then None
    else
      var d := s[|s| - 1] as int - '0' as int;
      if |s| == 1 then Some(d)
      else match ParseDecimal(s[..|s| - 1])
        case None => None
        case Some(n) => Some(10 * n + d)
  }

  lemma {:induction false} DecimalRoundTrip(n: nat)
    ensures ParseDecimal(Decimal(n)) == Some(n)
  {
    if n >= 10 {
      DecimalRoundTrip(n / 10);
      var s := Decimal(n);
      assert s[..|s| - 1] == Decimal(n / 10);
    }
  }

  lemma {:induction false} DecimalIsVisible(n: nat)
    ensures VisibleAscii(Decimal(n))
  {
    if n >= 10 {
      DecimalIsVisible(n / 10);
    }
  }

  function Pow10(k: nat): nat {
    if k == 0 then 1 else 10 * Pow10(k - 1)
  }

  lemma {:induction false} DecimalWidth(n: nat, k: nat)
    requires k > 0 && n < Pow10(k)
    ensures |Decimal(n)| <= k
  {
    if n >= 10 {
      DecimalWidth(n / 10, k - 1);
    }
  }

  // ---- UTF-8 (Unicode table 3-6) ------------------------------------------------

  function EncodeChar(c: char): (b: bytes)
    ensures 1 <= |b| <= 4
  {
    var v := c as int;
    if v < 0x80 then [v]
    else if v < 0x800 then [0xC0 + v / 64, 0x80 + v % 64]
    else if v < 0x1_0000 then [0xE0 + v / 4096, 0x80 + v / 64 % 64, 0x80 + v % 64]
    else [0xF0 + v / 0x4_0000, 0x80 + v / 4096 % 64, 0x80 + v / 64 % 64, 0x80 + v % 64]
  }

  function EncodeUtf8(s: string): bytes {
    if s == "" then [] else EncodeChar(s[0]) + EncodeUtf8(s[1..])
  }

  predicate Continues(b: byte) {
    0x80 <= b < 0xC0
  }

  predicate IsScalar(v: int) {
    0 <= v < 0xD800 || 0xE000 <= v < 0x11_0000
  }

  /** Six more bits, from a continuation byte. */
  function Extend(high: int, b: byte): int {
    high * 64 + (b as int - 0x80)
  }

  function Accept(v: int, least: int, width: nat): (r: Option<(char, nat)>)
    ensures r.Some? ==> r.value.1 == width && v == r.value.0 as int && least <= v
  {
    if v >= least && IsScalar(v) then Some((v as char, width)) else None
  }

  /** The first character and its width; overlong forms and surrogates are refused. */
  function DecodeChar(b: bytes): (r: Option<(char, nat)>)
    ensures r.Some? ==> 1 <= r.value.1 <= |b|
  {
    if b == [] then None
    else if b[0] < 0x80 then Some((b[0] as char, 1))
    else if 0xC0 <= b[0] < 0xE0 && |b| >= 2 && Continues(b[1]) then
      Accept(Extend(b[0] as int - 0xC0, b[1]), 0x80, 2)
    else if 0xE0 <= b[0] < 0xF0 && |b| >= 3 && Continues(b[1]) && Continues(b[2]) then
      Accept(Extend(Extend(b[0] as int - 0xE0, b[1]), b[2]), 0x800, 3)
    else if 0xF0 <= b[0] < 0xF8 && |b| >= 4 && Continues(b[1]) && Continues(b[2]) && Continues(b[3]) then
      Accept(Extend(Extend(Extend(b[0] as int - 0xF0, b[1]), b[2]), b[3]), 0x1_0000, 4)
    else None
  }

  function DecodeUtf8(b: bytes): Option<string>
  {
    if b == [] then Some("")
    else match DecodeChar(b)
      case None => None
      case Some((c, n)) =>
        match DecodeUtf8(b[n..])
        case None => None
        case Some(s) => Some([c] + s)
  }

  lemma DecodeEncodedChar(c: char, rest: bytes)
    ensures DecodeChar(EncodeChar(c) + rest) == Some((c, |EncodeChar(c)|))
  {
    var v := c as int;
    var e := EncodeChar(c);
    assert forall i :: 0 <= i < |e| ==> (e + rest)[i] == e[i];
    assert v / 4096 == v / 64 / 64 && v / 0x4_0000 == v / 4096 / 64;
  }

  lemma ExtendSplits(high: int, b: byte)
    requires Continues(b)
    ensures Extend(high, b) / 64 == high && 0x80 + Extend(high, b) % 64 == b
  {
  }

  lemma EncodeDecodedChar(b: bytes)
    requires DecodeChar(b).Some?
    ensures var (c, n) := DecodeChar(b).value; EncodeChar(c) == b[..n]
  {
    var (c, n) := DecodeChar(b).value;
    var v := c as int;
    if n == 2 {
      ExtendSplits(b[0] as int - 0xC0, b[1]);
    } else if n == 3 {
      var w := Extend(b[0] as int - 0xE0, b[1]);
      ExtendSplits(b[0] as int - 0xE0, b[1]);
      ExtendSplits(w, b[2]);
      assert v / 4096 == v / 64 / 64;
    } else if n == 4 {
      var w := Extend(b[0] as int - 0xF0, b[1]);
      var x := Extend(w, b[2]);
      ExtendSplits(b[0] as int - 0xF0, b[1]);
      ExtendSplits(w, b[2]);
      ExtendSplits(x, b[3]);
      assert v / 4096 == v / 64 / 64 && v / 0x4_0000 == v / 4096 / 64;
    }
  }

  /** Decoding accepts exactly the encodings of strings, and recovers the string. */
  lemma {:induction false} Utf8RoundTrip(s: string)
    ensures DecodeUtf8(EncodeUtf8(s)) == Some(s)
  {
    if s != "" {
      var e, rest := EncodeChar(s[0]), EncodeUtf8(s[1..]);
      DecodeEncodedChar(s[0], rest);
      Utf8RoundTrip(s[1..]);
      assert (e + rest)[|e|..] == rest;
      assert [s[0]] + s[1..] == s;
    }
  }

  lemma {:induction false} Utf8Faithful(b: bytes)
    requires DecodeUtf8(b).Some?
    ensures EncodeUtf8(DecodeUtf8(b).value) == b
  {
    if b != [] {
      var (c, n) := DecodeChar(b).value;
      EncodeDecodedChar(b);
      var s := DecodeUtf8(b[n..]).value;
      Utf8Faithful(b[n..]);
      assert DecodeUtf8(b).value == [c] + s && ([c] + s)[1..] == s;
      assert EncodeUtf8([c] + s) == EncodeChar(c) + EncodeUtf8(s);
      assert b[..n] + b[n..] == b;
    }
  }

  /** How many bytes decode before the first that do not. */
  function ValidUpTo(b: bytes): (n: nat)
    ensures n <= |b|
  {
    if b == [] || DecodeChar(b).None? then 0
    else
      var width := DecodeChar(b).value.1;
      width + ValidUpTo(b[width..])
  }

  /** A character is decoded from its own bytes, whatever follows. */
  lemma PrefixDecodes(b: bytes, k: nat)
    requires DecodeChar(b).Some? && DecodeChar(b).value.1 <= k <= |b|
    ensures DecodeChar(b[..k]) == DecodeChar(b)
  {
    var (c, width) := DecodeChar(b).value;
    EncodeDecodedChar(b);
    DecodeEncodedChar(c, b[width..k]);
    assert b[..k] == EncodeChar(c) + b[width..k];
  }

  lemma DecodesFrom(b: bytes, width: nat)
    requires DecodeChar(b).Some? && DecodeChar(b).value.1 == width
    ensures DecodeUtf8(b).Some? <==> DecodeUtf8(b[width..]).Some?
  {
  }

  lemma {:induction false} ValidUpToIsExact(b: bytes)
    ensures DecodeUtf8(b[..ValidUpTo(b)]).Some?
    ensures DecodeUtf8(b).None? <==> ValidUpTo(b) < |b|
    ensures ValidUpTo(b) < |b| ==> DecodeChar(b[ValidUpTo(b)..]).None?
  {
    if b != [] && DecodeChar(b).Some? {
      var width := DecodeChar(b).value.1;
      var n := ValidUpTo(b[width..]);
      ValidUpToIsExact(b[width..]);
      PrefixDecodes(b, width + n);
      DecodesFrom(b, width);
      DecodesFrom(b[..width + n], width);
      assert b[..width + n][width..] == b[width..][..n];
      assert b[width + n..] == b[width..][n..];
    }
  }

  /** The width that a first byte announces; none for a byte that cannot be first. */
  function AnnouncedWidth(first: byte): nat {
    if first < 0x80 then 1
    else if 0xC2 <= first < 0xE0 then 2
    else if 0xE0 <= first < 0xF0 then 3
    else if 0xF0 <= first < 0xF5 then 4
    else 0
  }

  predicate SecondFits(first: byte, second: byte) {
    if first == 0xE0 then 0xA0 <= second < 0xC0
    else if first == 0xED then 0x80 <= second < 0xA0
    else if first == 0xF0 then 0x90 <= second < 0xC0
    else if first == 0xF4 then 0x80 <= second < 0x90
    else Continues(second)
  }

  /** Length of the bytes at the front that cannot begin a character; none if they are merely cut off. */
  function BadLength(b: bytes): Option<nat>
    requires b != []
  {
    var width := AnnouncedWidth(b[0]);
    if width == 0 then Some(1)
    else if |b| == 1 then None
    else if !SecondFits(b[0], b[1]) then Some(1)
    else if |b| == 2 then None
    else if !Continues(b[2]) then Some(2)
    else if |b| == 3 then None
    else Some(3)
  }

  function DescribeBadUtf8(b: bytes): string {
    var n := ValidUpTo(b);
    if n == |b| then ""
    else match BadLength(b[n..])
      case Some(len) => "invalid utf-8 sequence of " + Decimal(len) + " bytes from index " + Decimal(n)
      case None => "incomplete utf-8 byte sequence from index " + Decimal(n)
  }

  /** Something can be put behind bytes that are cut off to make up a character. */
  ghost predicate CanBeCompleted(b: bytes) {
    exists rest: bytes :: DecodeChar(b + rest).Some?
  }

  /** What does not begin a character is called incomplete exactly if more bytes could still complete it. */
  lemma IncompleteIsExact(b: bytes)
    requires b != [] && DecodeChar(b).None?
    ensures BadLength(b).None? <==> CanBeCompleted(b)
  {
    if BadLength(b).None? {
      var rest := Completion(b);
      assert DecodeChar(b + rest).Some?;
    } else {
      forall rest: bytes
        ensures DecodeChar(b + rest).None?
      {
        BadStaysBad(b, rest);
      }
    }
  }

  /** Bytes that complete a character. */
  function Completion(b: bytes): (rest: bytes)
    requires b != [] && DecodeChar(b).None? && BadLength(b).None?
    ensures DecodeChar(b + rest).Some?
  {
    var second: byte := if b[0] == 0xE0 then 0xA0 else if b[0] == 0xF0 then 0x90 else 0x80;
    if |b| == 1 then [second, 0x80, 0x80] else [0x80, 0x80]
  }

  lemma BadStaysBad(b: bytes, rest: bytes)
    requires b != [] && DecodeChar(b).None? && BadLength(b).Some?
    ensures DecodeChar(b + rest).None?
  {
    var all := b + rest;
    assert forall i :: 0 <= i < |b| ==> all[i] == b[i];
  }

  /** Bytes that cannot be completed are as many as could be, and at least one. */
  lemma BadLengthIsLongest(b: bytes)
    requires b != [] && DecodeChar(b).None? && BadLength(b).Some?
    ensures var n := BadLength(b).value;
            && 1 <= n <= |b|
            && (n > 1 ==> CanBeCompleted(b[..n]))
            && (n < |b| && CanBeCompleted(b[..1]) ==> !CanBeCompleted(b[..n + 1]))
  {
    var n := BadLength(b).value;
    if n > 1 {
      assert BadLength(b[..n]).None?;
      IncompleteIsExact(b[..n]);
    }
    if n < |b| && CanBeCompleted(b[..1]) {
      if DecodeChar(b[..n + 1]).None? {
        IncompleteIsExact(b[..1]);
        IncompleteIsExact(b[..n + 1]);
      }
    }
  }

  // ---- Percent-encoding of grpc-message -----------------------------------------

  /** CONTROLS with the ten added characters; bytes outside ASCII are always escaped. */
  predicate NeedsEscape(b: byte) {
    b < 0x20 || b >= 0x7F ||
    CharOf(b) in {' ', '"', '#', '%', '<', '>', '`', '?', '{', '}'}
  }

  function HexDigit(n: nat): char
    requires n < 16
  {
    if n < 10 then (n + '0' as int) as char else (n - 10 + 'A' as int) as char
  }

  function HexValue(c: char): (r: Option<nat>)
    ensures r.Some? ==> r.value < 16
  {
    if '0' <= c <= '9' then Some(c as int - '0' as int)
    else if 'A' <= c <= 'F' then Some(c as int - 'A' as int + 10)
    else if 'a' <= c <= 'f' then Some(c as int - 'a' as int + 10)
    else None
  }

  function EscapeByte(b: byte): (s: string)
    ensures s != ""
  {
    if NeedsEscape(b) then ['%', HexDigit(b / 16), HexDigit(b % 16)] else [CharOf(b)]
  }

  function PercentEncode(b: bytes): string {
    if b == [] then "" else EscapeByte(b[0]) + PercentEncode(b[1..])
  }

  /** A '%' not followed by two hex digits stands for itself. */
  function PercentDecode(s: string): bytes {
    if s == "" then []
    else if s[0] == '%' && |s| >= 3 && HexValue(s[1]).Some? && HexValue(s[2]).Some? then
      [HexValue(s[1]).value * 16 + HexValue(s[2]).value] + PercentDecode(s[3..])
    else [ByteOf(s[0])] + PercentDecode(s[1..])
  }

  lemma EscapedByteDecodes(b: byte, rest: string)
    ensures PercentDecode(EscapeByte(b) + rest) == [b] + PercentDecode(rest)
    ensures VisibleAscii(EscapeByte(b))
  {
    var e := EscapeByte(b);
    var s := e + rest;
    assert s[|e|..] == rest;
    if NeedsEscape(b) {
      var high: nat, low: nat := b / 16, b % 16;
      assert HexValue(HexDigit(high)) == Some(high) && HexValue(HexDigit(low)) == Some(low);
      assert s[1] == HexDigit(high) && s[2] == HexDigit(low) && high * 16 + low == b;
    } else {
      assert s[0] == CharOf(b) && ByteOf(CharOf(b)) == b && s[0] != '%';
    }
  }

  lemma {:induction false} PercentRoundTrip(b: bytes)
    ensures PercentDecode(PercentEncode(b)) == b
    ensures VisibleAscii(PercentEncode(b))
    ensures PercentEncode(b) == "" <==> b == []
  {
    if b != [] {
      EscapedByteDecodes(b[0], PercentEncode(b[1..]));
      PercentRoundTrip(b[1..]);
      assert [b[0]] + b[1..] == b;
    }
  }

  /** The hex digits are read in either case. */
  lemma HexDigitsAreRead(n: nat)
    requires n < 16
    ensures HexValue("0123456789ABCDEF"[n]) == HexValue("0123456789abcdef"[n]) == Some(n)
    ensures HexDigit(n) == "0123456789ABCDEF"[n]
  {
  }

  /**
   * Exactly the visible ASCII bytes other than quote, hash, percent, angle brackets, question mark,
   * backquote and braces stand for themselves; any other is a percent sign and two upper-case digits.
   */
  lemma EscapesAreExact(b: byte)
    ensures var plain := 0x21 <= b <= 0x7E && b !in [0x22, 0x23, 0x25, 0x3C, 0x3E, 0x3F, 0x60, 0x7B, 0x7D];
            EscapeByte(b) ==
              if plain then [b as char] else ['%', "0123456789ABCDEF"[b / 16], "0123456789ABCDEF"[b % 16]]
  {
    HexDigitsAreRead(b / 16);
    HexDigitsAreRead(b % 16);
  }

  /** Decoding never fails: a percent sign without two hex digits behind it stays. */
  lemma StrayPercentStays(s: string)
    requires s != "" && s[0] == '%'
    requires |s| < 3 || HexValue(s[1]).None? || HexValue(s[2]).None?
    ensures PercentDecode(s) == [0x25] + PercentDecode(s[1..])
  {
  }

  // ---- Base64 (RFC 4648 section 4) ------------------------------------------------

  /** How a decoder treats the trailing '=' characters. */
  datatype Padding = Canonical | Indifferent

  type sextet = n: int | 0 <= n < 64

  function Symbol(i: sextet): char {
    if i < 26 then (i + 'A' as int) as char
    else if i < 52 then (i - 26 + 'a' as int) as char
    else if i < 62 then (i - 52 + '0' as int) as char
    else if i == 62 then '+' else '/'
  }

  function Symbols(group: seq<sextet>): (s: string)
    ensures |s| == |group|
  {
    seq(|group|, i requires 0 <= i < |group| => Symbol(group[i]))
  }

  function SymbolValue(c: char): Option<sextet> {
    if 'A' <= c <= 'Z' then Some(c as int - 'A' as int)
    else if 'a' <= c <= 'z' then Some(c as int - 'a' as int + 26)
    else if '0' <= c <= '9' then Some(c as int - '0' as int + 52)
    else if c == '+' then Some(62) else if c == '/' then Some(63) else None
  }

  lemma SymbolRoundTrip(i: sextet)
    ensures SymbolValue(Symbol(i)) == Some(i) && '!' <= Symbol(i) <= '~' && Symbol(i) != '='
  {
  }

  /** Three bytes as four six-bit numbers. */
  function Sextets(a: byte, b: byte, c: byte): (sextet, sextet, sextet, sextet) {
    (a / 4, a % 4 * 16 + b / 16, b % 16 * 4 + c / 64, c % 64)
  }

  function Octets(w: sextet, x: sextet, y: sextet, z: sextet): (byte, byte, byte) {
    (w * 4 + x / 16, x % 16 * 16 + y / 4, y % 4 * 64 + z)
  }

  lemma OctetsOfSextets(a: byte, b: byte, c: byte)
    ensures var (w, x, y, z) := Sextets(a, b, c); Octets(w, x, y, z) == (a, b, c)
  {
    var (w, x, y, z) := Sextets(a, b, c);
    Digits(a % 4, b / 16, 16);
    Digits(b % 16, c / 64, 4);
    assert x / 16 == a % 4 && x % 16 == b / 16;
    assert y / 4 == b % 16 && y % 4 == c / 64;
  }

  lemma Digits(high: int, low: int, base: int)
    requires (base == 4 || base == 16 || base == 64) && 0 <= low < base
    ensures (high * base + low) / base == high && (high * base + low) % base == low
  {
  }

  function Base64Encode(pad: bool, b: bytes): string {
    if b == [] then ""
    else if |b| == 1 then
      var (w, x, _, _) := Sextets(b[0], 0, 0);
      Symbols([w, x]) + (if pad then "==" else "")
    else if |b| == 2 then
      var (w, x, y, _) := Sextets(b[0], b[1], 0);
      Symbols([w, x, y]) + (if pad then "=" else "")
    else
      var (w, x, y, z) := Sextets(b[0], b[1], b[2]);
      Symbols([w, x, y, z]) + Base64Encode(pad, b[3..])
  }

  predicate PaddingOk(mode: Padding, rest: string, full: string) {
    rest == full || (mode == Indifferent && rest <= full)
  }

  /** Number of leading base64 symbols, at most four. */
  function LeadingSymbols(s: string): (n: nat)
    ensures n <= |s| && n <= 4 && forall i :: 0 <= i < n ==> SymbolValue(s[i]).Some?
  {
    if |s| == 0 || SymbolValue(s[0]).None? then 0
    else if |s| == 1 || SymbolValue(s[1]).None? then 1
    else if |s| == 2 || SymbolValue(s[2]).None? then 2
    else if |s| == 3 || SymbolValue(s[3]).None? then 3 else 4
  }

  function SymbolAt(s: string, i: nat): sextet
    requires i < LeadingSymbols(s)
  {
    SymbolValue(s[i]).value
  }

  /** Two symbols and padding stand for one byte; bits that encode nothing must be zero. */
  function LastByte(mode: Padding, w: sextet, x: sextet, rest: string): Option<bytes> {
    var (a, b, _) := Octets(w, x, 0, 0);
    if PaddingOk(mode, rest, "==") && b == 0 then Some([a]) else None
  }

  /** Three symbols and padding stand for two bytes. */
  function LastTwoBytes(mode: Padding, w: sextet, x: sextet, y: sextet, rest: string): Option<bytes> {
    var (a, b, c) := Octets(w, x, y, 0);
    if PaddingOk(mode, rest, "=") && c == 0 then Some([a, b]) else None
  }

  /** Only the last group may be short. */
  function Base64Decode(mode: Padding, s: string): Option<bytes> {
    if s == "" then Some([])
    else if LeadingSymbols(s) == 4 then
      var (a, b, c) := Octets(SymbolAt(s, 0), SymbolAt(s, 1), SymbolAt(s, 2), SymbolAt(s, 3));
      match Base64Decode(mode, s[4..])
      case None => None
      case Some(rest) => Some([a, b, c] + rest)
    else if LeadingSymbols(s) == 3 then
      LastTwoBytes(mode, SymbolAt(s, 0), SymbolAt(s, 1), SymbolAt(s, 2), s[3..])
    else if LeadingSymbols(s) == 2 then
      LastByte(mode, SymbolAt(s, 0), SymbolAt(s, 1), s[2..])
    else None
  }

  lemma LastByteRoundTrip(mode: Padding, pad: bool, a: byte)
    requires pad || mode == Indifferent
    ensures var (w, x, y, z) := Sextets(a, 0, 0);
            LastByte(mode, w, x, if pad then "==" else "") == Some([a])
  {
    OctetsOfSextets(a, 0, 0);
  }

  lemma LastTwoBytesRoundTrip(mode: Padding, pad: bool, a: byte, b: byte)
    requires pad || mode == Indifferent
    ensures var (w, x, y, z) := Sextets(a, b, 0);
            LastTwoBytes(mode, w, x, y, if pad then "=" else "") == Some([a, b])
  {
    OctetsOfSextets(a, b, 0);
  }

  lemma LeadingSymbolsOf(group: seq<sextet>, rest: string)
    requires 1 <= |group| <= 4
    requires |group| == 4 || rest == "" || rest[0] == '='
    ensures var s := Symbols(group) + rest;
            && LeadingSymbols(s) == |group|
            && (forall i :: 0 <= i < |group| ==> SymbolAt(s, i) == group[i])
            && s[|group|..] == rest
            && VisibleAscii(s[..|group|])
  {
    var s := Symbols(group) + rest;
    forall i | 0 <= i < |group|
      ensures s[i] == Symbol(group[i]) && SymbolValue(s[i]) == Some(group[i]) && '!' <= s[i] <= '~'
    {
      SymbolRoundTrip(group[i]);
    }
    assert |group| < |s| && |group| < 4 ==> s[|group|] == '=';
  }

  lemma Base64Tail(mode: Padding, pad: bool, b: bytes)
    requires (pad || mode == Indifferent) && 1 <= |b| <= 2
    ensures var s := Base64Encode(pad, b); VisibleAscii(s) && Base64Decode(mode, s) == Some(b)
  {
    var s := Base64Encode(pad, b);
    if |b| == 1 {
      var (w, x, y, z) := Sextets(b[0], 0, 0);
      LeadingSymbolsOf([w, x], if pad then "==" else "");
      LastByteRoundTrip(mode, pad, b[0]);
      assert b == [b[0]] && s == s[..2] + s[2..];
    } else {
      var (w, x, y, z) := Sextets(b[0], b[1], 0);
      LeadingSymbolsOf([w, x, y], if pad then "=" else "");
      LastTwoBytesRoundTrip(mode, pad, b[0], b[1]);
      assert b == [b[0], b[1]] && s == s[..3] + s[3..];
    }
  }

  /** Unpadded output needs a decoder that does not insist on padding. */
  lemma {:induction false} Base64RoundTrip(mode: Padding, pad: bool, b: bytes)
    requires pad || mode == Indifferent
    ensures Base64Decode(mode, Base64Encode(pad, b)) == Some(b)
    ensures VisibleAscii(Base64Encode(pad, b))
    ensures Base64Encode(pad, b) == "" <==> b == []
  {
    if 1 <= |b| <= 2 {
      Base64Tail(mode, pad, b);
    } else if b != [] {
      var s := Base64Encode(pad, b);
      var (w, x, y, z) := Sextets(b[0], b[1], b[2]);
      LeadingSymbolsOf([w, x, y, z], Base64Encode(pad, b[3..]));
      OctetsOfSextets(b[0], b[1], b[2]);
      Base64RoundTrip(mode, pad, b[3..]);
      assert b == [b[0], b[1], b[2]] + b[3..] && s == s[..4] + s[4..];
    }
  }

  lemma SextetsOfOctets(w: sextet, x: sextet, y: sextet, z: sextet)
    ensures var (a, b, c) := Octets(w, x, y, z); Sextets(a, b, c) == (w, x, y, z)
  {
    var (a, b, c) := Octets(w, x, y, z);
    Digits(w, x / 16, 4);
    Digits(x % 16, y / 4, 16);
    Digits(y % 4, z, 64);
    assert a / 4 == w && a % 4 == x / 16;
    assert b / 16 == x % 16 && b % 16 == y / 4;
    assert c / 64 == y % 4 && c % 64 == z;
    Whole(x, 16);
    Whole(y, 4);
  }

  lemma Whole(n: nat, base: nat)
    requires base > 0
    ensures n / base * base + n % base == n
  {
  }

  lemma SymbolOfValue(c: char)
    requires SymbolValue(c).Some?
    ensures Symbol(SymbolValue(c).value) == c
  {
  }

  /** What an encoder writes with and without padding bounds what a decoder takes. */
  predicate Spells(mode: Padding, s: string, b: bytes) {
    if mode == Canonical then s == Base64Encode(true, b)
    else Base64Encode(false, b) <= s <= Base64Encode(true, b)
  }

  lemma FourSymbols(mode: Padding, s: string)
    requires LeadingSymbols(s) == 4
    ensures var (a, b, c) := Octets(SymbolAt(s, 0), SymbolAt(s, 1), SymbolAt(s, 2), SymbolAt(s, 3));
            forall pad, rest :: Base64Encode(pad, [a, b, c] + rest) == s[..4] + Base64Encode(pad, rest)
  {
    var (w, x, y, z) := (SymbolAt(s, 0), SymbolAt(s, 1), SymbolAt(s, 2), SymbolAt(s, 3));
    var (a, b, c) := Octets(w, x, y, z);
    SextetsOfOctets(w, x, y, z);
    forall i | 0 <= i < 4
      ensures Symbol(SymbolAt(s, i)) == s[i]
    {
      SymbolOfValue(s[i]);
    }
    assert Symbols([w, x, y, z]) == s[..4];
    forall pad, rest: bytes
      ensures Base64Encode(pad, [a, b, c] + rest) == s[..4] + Base64Encode(pad, rest)
    {
      assert ([a, b, c] + rest)[3..] == rest;
    }
  }

  /** Whatever is decoded is spelled as the encoder does, up to padding that may be left out. */
  lemma {:induction false} Base64Faithful(mode: Padding, s: string)
    requires Base64Decode(mode, s).Some?
    ensures Spells(mode, s, Base64Decode(mode, s).value)
  {
    if s == "" {
    } else if LeadingSymbols(s) == 4 {
      var (a, b, c) := Octets(SymbolAt(s, 0), SymbolAt(s, 1), SymbolAt(s, 2), SymbolAt(s, 3));
      var rest := Base64Decode(mode, s[4..]).value;
      FourSymbols(mode, s);
      Base64Faithful(mode, s[4..]);
      assert s == s[..4] + s[4..];
      assert Base64Encode(true, [a, b, c] + rest) == s[..4] + Base64Encode(true, rest);
      assert Base64Encode(false, [a, b, c] + rest) == s[..4] + Base64Encode(false, rest);
    } else {
      ShortGroupFaithful(mode, s);
    }
  }

  lemma ShortGroupFaithful(mode: Padding, s: string)
    requires s != "" && LeadingSymbols(s) != 4 && Base64Decode(mode, s).Some?
    ensures Spells(mode, s, Base64Decode(mode, s).value)
  {
    if LeadingSymbols(s) == 3 {
      TwoBytesFaithful(SymbolAt(s, 0), SymbolAt(s, 1), SymbolAt(s, 2), s);
      assert s == s[..3] + s[3..];
    } else {
      OneByteFaithful(SymbolAt(s, 0), SymbolAt(s, 1), s);
      assert s == s[..2] + s[2..];
    }
  }

  lemma TwoBytesFaithful(w: sextet, x: sextet, y: sextet, s: string)
    requires |s| >= 3 && SymbolValue(s[0]) == Some(w) && SymbolValue(s[1]) == Some(x) && SymbolValue(s[2]) == Some(y)
    ensures var (a, b, c) := Octets(w, x, y, 0);
            c == 0 ==> forall pad :: Base64Encode(pad, [a, b]) == s[..3] + if pad then "=" else ""
  {
    SymbolOfValue(s[0]);
    SymbolOfValue(s[1]);
    SymbolOfValue(s[2]);
    SextetsOfOctets(w, x, y, 0);
    assert Symbols([w, x, y]) == s[..3];
  }

  lemma OneByteFaithful(w: sextet, x: sextet, s: string)
    requires |s| >= 2 && SymbolValue(s[0]) == Some(w) && SymbolValue(s[1]) == Some(x)
    ensures var (a, b, c) := Octets(w, x, 0, 0);
            b == 0 ==> forall pad :: Base64Encode(pad, [a]) == s[..2] + if pad then "==" else ""
  {
    SymbolOfValue(s[0]);
    SymbolOfValue(s[1]);
    SextetsOfOctets(w, x, 0, 0);
    assert Symbols([w, x]) == s[..2];
  }

  /** The standard's alphabet. */
  function Listed(i: sextet): char {
    if i < 13 then "ABCDEFGHIJKLM"[i]
    else if i < 26 then "NOPQRSTUVWXYZ"[i - 13]
    else if i < 39 then "abcdefghijklm"[i - 26]
    else if i < 52 then "nopqrstuvwxyz"[i - 39]
    else if i < 62 then "0123456789"[i - 52]
    else "+/"[i - 62]
  }

  lemma SymbolIsListed(i: sextet)
    ensures Symbol(i) == Listed(i)
  {
  }

  /** One, two and three bytes by the standard's bit layout and alphabet. */
  lemma Base64Layout(a: byte, b: byte, c: byte)
    ensures Base64Encode(true, [a]) == [Listed(a / 4), Listed(a % 4 * 16), '=', '=']
    ensures Base64Encode(true, [a, b]) == [Listed(a / 4), Listed(a % 4 * 16 + b / 16), Listed(b % 16 * 4), '=']
    ensures Base64Encode(true, [a, b, c])
         == [Listed(a / 4), Listed(a % 4 * 16 + b / 16), Listed(b % 16 * 4 + c / 64), Listed(c % 64)]
  {
    SymbolIsListed(a / 4);
    SymbolIsListed(a % 4 * 16);
    SymbolIsListed(a % 4 * 16 + b / 16);
    SymbolIsListed(b % 16 * 4);
    SymbolIsListed(b % 16 * 4 + c / 64);
    SymbolIsListed(c % 64);
    assert [a, b, c][3..] == [];
  }

  lemma InvalidIsDescribed()
    ensures DescribeBadUtf8([0xFF]) == "invalid utf-8 sequence of 1 bytes from index 0"
  {
    assert Decimal(1) == "1" && Decimal(0) == "0";
    assert ValidUpTo([0xFF]) == 0 && [0xFF][0..] == [0xFF];
  }

  lemma IncompleteIsDescribed()
    ensures DescribeBadUtf8([0x41, 0xC3]) == "incomplete utf-8 byte sequence from index " + "1"
  {
    assert Decimal(1) == "1";
    var b: bytes := [0x41, 0xC3];
    assert b[1..] == [0xC3] && DecodeChar(b) == Some(('A', 1));
    assert ValidUpTo(b[1..]) == 0;
    assert ValidUpTo(b) == 1 && BadLength([0xC3]) == None;
  }
}
