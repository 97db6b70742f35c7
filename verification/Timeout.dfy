/** The grpc-timeout header: a decimal of at most eight digits and a unit. */
module Timeout {
  import opened Wire
  import opened Text

  /** Whole seconds and the nanoseconds on top of them. */
  datatype Duration = Duration(secs: nat, nanos: nat) {
    ghost predicate Valid() {
      nanos < 1_000_000_000
    }

    function AsNanos(): nat {
      secs * 1_000_000_000 + nanos
    }

    function AsMicros(): nat {
      secs * 1_000_000 + nanos / 1_000
    }

    function AsMillis(): nat {
      secs * 1_000 + nanos / 1_000_000
    }
  }

  const MAX_VALUE: nat := 99_999_999

  const MAX_DURATION := Duration(MAX_VALUE * 3600, 0)

  function Clamp(d: Duration): Duration {
    if d.AsNanos() > MAX_DURATION.AsNanos() then MAX_DURATION else d
  }

  function TryFormat(value: nat, unit: char): Option<string> {
    if value > MAX_VALUE then None else Some(Decimal(value) + [unit])
  }

  function OrElse(first: Option<string>, second: Option<string>): Option<string> {
    if first.Some? then first else second
  }

  /** The first unit, from the finest on, in which the clamped duration has few enough digits. */
  function ToGrpcTimeout(d: Duration): Option<string> {
    var d := Clamp(d);
    OrElse(TryFormat(d.AsNanos(), 'n'),
    OrElse(TryFormat(d.AsMicros(), 'u'),
    OrElse(TryFormat(d.AsMillis(), 'm'),
    OrElse(TryFormat(d.secs, 'S'),
    OrElse(TryFormat(d.secs / 60, 'M'),
           TryFormat(d.secs / 60 / 60, 'H'))))))
  }

  const UNITS: string := "numSMH"

  /** Nanoseconds in the units from the finest to the coarsest. */
  const SIZES: seq<nat> := [1, 1_000, 1_000_000, 1_000_000_000, 60_000_000_000, 3_600_000_000_000]

  /** What a reader makes of a timeout: the value and the position of its unit. */
  function ReadTimeout(s: string): Option<(nat, nat)> {
    if s == "" then None
    else match ParseDecimal(s[..|s| - 1])
      case None => None
      case Some(value) =>
        var unit := s[|s| - 1];
        if unit == 'n' then Some((value, 0))
        else if unit == 'u' then Some((value, 1))
        else if unit == 'm' then Some((value, 2))
        else if unit == 'S' then Some((value, 3))
        else if unit == 'M' then Some((value, 4))
        else if unit == 'H' then Some((value, 5))
        else None
  }

  lemma FormatReads(value: nat, unit: nat)
    requires unit < |SIZES| && value <= MAX_VALUE
    ensures TryFormat(value, UNITS[unit]).Some?
    ensures var s := TryFormat(value, UNITS[unit]).value; |s| <= 9 && ReadTimeout(s) == Some((value, unit))
  {
    var s := Decimal(value) + [UNITS[unit]];
    DecimalRoundTrip(value);
    assert Pow10(8) == 100_000_000 by {
      assert Pow10(2) == 100 && Pow10(4) == 10_000 && Pow10(6) == 1_000_000;
    }
    DecimalWidth(value, 8);
    assert s[..|s| - 1] == Decimal(value);
  }

  /** The duration in each unit, as the conversions compute it. */
  function InUnits(d: Duration): (values: seq<nat>)
    ensures |values| == |SIZES|
  {
    [d.AsNanos(), d.AsMicros(), d.AsMillis(), d.secs, d.secs / 60, d.secs / 60 / 60]
  }

  lemma UnitsRoundDown(d: Duration)
    requires d.Valid()
    ensures forall i :: 0 <= i < |SIZES| ==> InUnits(d)[i] == d.AsNanos() / SIZES[i]
  {
    assert d.AsMicros() == d.AsNanos() / 1_000 && d.AsMillis() == d.AsNanos() / 1_000_000;
    assert d.secs == d.AsNanos() / 1_000_000_000;
    assert d.secs / 60 == d.AsNanos() / 60_000_000_000 && d.secs / 60 / 60 == d.AsNanos() / 3_600_000_000_000;
  }

  lemma HoursFit(d: Duration)
    requires d.Valid()
    ensures InUnits(Clamp(d))[5] <= MAX_VALUE
  {
    assert Clamp(d).secs <= MAX_VALUE * 3600;
  }

  /** The duration in nanoseconds, but no more than 99999999 hours. */
  lemma ClampIsLeast(d: Duration)
    requires d.Valid()
    ensures var t, most := d.secs * 1_000_000_000 + d.nanos, 99_999_999 * 3_600_000_000_000;
            Clamp(d).Valid() && Clamp(d).AsNanos() == if t < most then t else most
  {
  }

  /** Of the units in which the value has at most eight digits the finest is taken; there always is one. */
  lemma FinestUnitIsTaken(d: Duration) returns (unit: nat)
    requires d.Valid()
    ensures unit < |SIZES|
    ensures var all, most := d.secs * 1_000_000_000 + d.nanos, 99_999_999 * 3_600_000_000_000;
            var t := if all < most then all else most;
            && ToGrpcTimeout(d) == Some(Decimal(t / SIZES[unit]) + ["numSMH"[unit]]) && t / SIZES[unit] <= 99_999_999
            && forall finer :: 0 <= finer < unit ==> t / SIZES[finer] > 99_999_999
  {
    HoursFit(d);
    ClampIsLeast(d);
    UnitsRoundDown(Clamp(d));
    var values := InUnits(Clamp(d));
    unit := if values[0] <= MAX_VALUE then 0
            else if values[1] <= MAX_VALUE then 1
            else if values[2] <= MAX_VALUE then 2
            else if values[3] <= MAX_VALUE then 3
            else if values[4] <= MAX_VALUE then 4 else 5;
    assert ToGrpcTimeout(d) == TryFormat(values[unit], UNITS[unit]);
  }

  /** `value` in `unit` is `t` rounded down, in no coarser a unit than needed, with little lost. */
  predicate IsPrecise(t: nat, value: nat, unit: nat) {
    && unit < |SIZES| && value <= 99_999_999
    && value * SIZES[unit] <= t < value * SIZES[unit] + SIZES[unit]
    && (forall finer :: 0 <= finer < unit ==> t / SIZES[finer] > 99_999_999)
    && (unit > 0 ==> (t - value * SIZES[unit]) * 100_000 < t)
  }

  lemma RoundingIsPrecise(t: nat, unit: nat)
    requires unit < |SIZES| && t / SIZES[unit] <= 99_999_999
    requires forall finer :: 0 <= finer < unit ==> t / SIZES[finer] > 99_999_999
    ensures IsPrecise(t, t / SIZES[unit], unit)
  {
    var loss := t - t / SIZES[unit] * SIZES[unit];
    assert 0 <= loss < SIZES[unit];
    if unit > 0 {
      assert SIZES[unit] <= 1000 * SIZES[unit - 1] && t / SIZES[unit - 1] > 99_999_999;
    }
  }

  /**
   * Every duration has a timeout: of the units in which the value has at most eight digits it takes the
   * finest, never says more than the duration, or 99999999 hours if that is less, less than one unit
   * less, and for units coarser than the nanosecond the loss is under one part in a hundred thousand.
   */
  lemma TimeoutIsPrecise(d: Duration) returns (value: nat, unit: nat)
    requires d.Valid()
    ensures ToGrpcTimeout(d).Some? && |ToGrpcTimeout(d).value| <= 9
    ensures ReadTimeout(ToGrpcTimeout(d).value) == Some((value, unit))
    ensures var t, most := d.secs * 1_000_000_000 + d.nanos, 99_999_999 * 3_600_000_000_000;
            IsPrecise(if t < most then t else most, value, unit)
  {
    unit := FinestUnitIsTaken(d);
    var all, most := d.secs * 1_000_000_000 + d.nanos, 99_999_999 * 3_600_000_000_000;
    var t := if all < most then all else most;
    value := t / SIZES[unit];
    FormatReads(value, unit);
    RoundingIsPrecise(t, unit);
  }

  lemma DecimalTail(n: nat, d: nat)
    requires n > 0 && d < 10
    ensures Decimal(n * 10 + d) == Decimal(n) + [(d + '0' as int) as char]
  {
  }

  lemma DecimalOf250()
    ensures Decimal(250) == "250"
  {
    DecimalTail(2, 5);
    DecimalTail(25, 0);
  }

  lemma DecimalOf250000()
    ensures Decimal(250_000) == "250" + "000"
  {
    DecimalOf250();
    DecimalTail(250, 0);
    DecimalTail(2_500, 0);
    DecimalTail(25_000, 0);
  }

  lemma MicrosecondsFit(t: nat, unit: nat)
    requires t == 250_000_000 && unit < |SIZES| && t / SIZES[unit] <= 99_999_999
    requires forall finer :: 0 <= finer < unit ==> t / SIZES[finer] > 99_999_999
    ensures unit == 1 && t / SIZES[unit] == 250_000
  {
    assert t / SIZES[0] == 250_000_000 && t / SIZES[1] == 250_000;
  }

  /** A quarter of a second is sent as 250000 microseconds. */
  lemma QuarterSecond()
    ensures ToGrpcTimeout(Duration(0, 250_000_000)) == Some(Decimal(250_000) + ['u'])
  {
    var unit := FinestUnitIsTaken(Duration(0, 250_000_000));
    MicrosecondsFit(250_000_000, unit);
  }
}
