/** Datetime and currency fields: stored bytes and their text. */
module TemporalCodec {
  import opened Base
  import opened Binary
  import opened Decimal
  import opened Calendar

  const JULIAN_DAY_UNIX_EPOCH: int := 2440588
  const MILLISECONDS_PER_DAY: nat := 86400000
  const DASH: byte := 0x2d
  const COLON: byte := 0x3a
  const LETTER_T: byte := 0x54
  const BLANK: byte := 0x20
  const DOT: byte := 0x2e
  const SIGN_PLUS: byte := 0x2b

  datatype TemporalError = NotDigits | OutOfRange | InvalidDate | Malformed

  // ---- Datetime ----

  /** The fields of a datetime text, as text. */
  datatype Parts = Parts(year: Bytes, month: Bytes, day: Bytes, hour: Bytes, minute: Bytes, second: Bytes)

  predicate Sized(p: Parts)
  {
    |p.year| == 4 && |p.month| == |p.day| == |p.hour| == |p.minute| == |p.second| == 2
  }

  function Joined(p: Parts, separator: byte): Bytes
  {
    p.year + [DASH] + p.month + [DASH] + p.day + [separator] +
    p.hour + [COLON] + p.minute + [COLON] + p.second
  }

  predicate Shaped(text: Bytes)
  {
    |text| == 19 && text[4] == DASH && text[7] == DASH && text[10] in {LETTER_T, BLANK} &&
    text[13] == COLON && text[16] == COLON
  }

  function PartsOf(text: Bytes): Parts
    requires |text| == 19
  {
    Parts(text[0..4], text[5..7], text[8..10], text[11..13], text[14..16], text[17..19])
  }

  lemma JoinedParts(text: Bytes)
    requires Shaped(text)
    ensures Sized(PartsOf(text)) && Joined(PartsOf(text), text[10]) == text
  {
  }

  lemma PartsOfJoined(p: Parts, separator: byte)
    requires Sized(p) && separator in {LETTER_T, BLANK}
    ensures Shaped(Joined(p, separator)) && PartsOf(Joined(p, separator)) == p && Joined(p, separator)[10] == separator
  {
    var t := Joined(p, separator);
    assert t[0..4] == p.year && t[5..7] == p.month && t[8..10] == p.day;
    assert t[11..13] == p.hour && t[14..16] == p.minute && t[17..19] == p.second;
  }

  predicate Numeric(p: Parts)
  {
    AllDigits(p.year) && AllDigits(p.month) && AllDigits(p.day) &&
    AllDigits(p.hour) && AllDigits(p.minute) && AllDigits(p.second)
  }

  /** The same fields as numbers. */
  datatype Moment = Moment(date: Date, hour: int, minute: int, second: int)

  function MomentOf(p: Parts): Moment
    requires Numeric(p)
  {
    Moment(Date(Value(p.year), Value(p.month), Value(p.day)), Value(p.hour), Value(p.minute), Value(p.second))
  }

  function PartsFor(m: Moment): (p: Parts)
    requires m.date.year >= 0 && m.date.month >= 0 && m.date.day >= 0 && m.hour >= 0 && m.minute >= 0 && m.second >= 0
    ensures Sized(p) && Numeric(p)
  {
    Parts(Padded(m.date.year, 4), Padded(m.date.month, 2), Padded(m.date.day, 2),
          Padded(m.hour, 2), Padded(m.minute, 2), Padded(m.second, 2))
  }

  predicate InRange(m: Moment)
  {
    1 <= m.date.year <= 9999 && 0 <= m.hour <= 23 && 0 <= m.minute <= 59 && 0 <= m.second <= 59
  }

  function DateTimeBytes(text: Bytes): Result<Option<Bytes>, TemporalError>
  {
    if !Shaped(text) then Ok(None)
    else if !Numeric(PartsOf(text)) then Err(NotDigits)
    else
      var m := MomentOf(PartsOf(text));
      if !InRange(m) then Err(OutOfRange)
      else
        var days := DaysFromCivil(m.date);
        if CivilFromDays(days) != m.date then Err(InvalidDate)
        else
          var julian := days + JULIAN_DAY_UNIX_EPOCH;
          if !(0 <= julian <= U32_MAX) then Err(OutOfRange)
          else Ok(Some(ToLe(julian, 4) + ToLe(m.hour * 3600000 + m.minute * 60000 + m.second * 1000, 4)))
  }

  function DateTimeText(bytes: Bytes): Option<Bytes>
    requires |bytes| == 8
  {
    var julian, milliseconds := FromLe(bytes[..4]), FromLe(bytes[4..8]);
    if julian == 0 || milliseconds >= MILLISECONDS_PER_DAY then None
    else
      var date := CivilFromDays(julian - JULIAN_DAY_UNIX_EPOCH);
      CivilOfDays(julian - JULIAN_DAY_UNIX_EPOCH);
      if !(1 <= date.year <= 9999) then None
      else
        Some(Joined(PartsFor(Moment(date, milliseconds / 3600000, milliseconds / 60000 % 60, milliseconds / 1000 % 60)),
                    LETTER_T))
  }

  lemma JulianInRange(d: Date)
    requires Real(d) && 1 <= d.year <= 9999
    ensures 0 < DaysFromCivil(d) + JULIAN_DAY_UNIX_EPOCH <= U32_MAX
  {
    DaysByYear(d);
  }

  /** A text of the right shape is accepted exactly when its date is real and its fields in range. */
  lemma AcceptedIff(text: Bytes)
    requires Shaped(text) && Numeric(PartsOf(text))
    ensures var m := MomentOf(PartsOf(text)); DateTimeBytes(text).Ok? <==> Real(m.date) && InRange(m)
    ensures DateTimeBytes(text).Ok? ==> DateTimeBytes(text).value.Some?
  {
    hide DaysFromCivil, CivilFromDays, Real, ToLe;
    var m := MomentOf(PartsOf(text));
    DaysOfCivil(m.date);
    if Real(m.date) && InRange(m) {
      JulianInRange(m.date);
    }
  }

  function Milliseconds(m: Moment): int { m.hour * 3600000 + m.minute * 60000 + m.second * 1000 }

  lemma ClockRoundTrip(hour: int, minute: int, second: int)
    requires 0 <= hour <= 23 && 0 <= minute <= 59 && 0 <= second <= 59
    ensures var ms := hour * 3600000 + minute * 60000 + second * 1000;
            0 <= ms < MILLISECONDS_PER_DAY &&
            ms / 3600000 == hour && ms / 60000 % 60 == minute && ms / 1000 % 60 == second
  {
    var ms := hour * 3600000 + minute * 60000 + second * 1000;
    assert ms / 60000 == hour * 60 + minute;
    assert ms / 1000 == (hour * 60 + minute) * 60 + second;
  }

  lemma ClockParts(ms: int)
    requires 0 <= ms < MILLISECONDS_PER_DAY
    ensures 0 <= ms / 3600000 <= 23
    ensures ms / 3600000 * 3600000 + ms / 60000 % 60 * 60000 + ms / 1000 % 60 * 1000 == ms / 1000 * 1000
  {
    var s := ms / 1000;
    assert ms / 60000 == s / 60;
    assert ms / 3600000 == s / 60 / 60;
  }

  lemma Widths()
    ensures Pow10(4) == 10000 && Pow10(2) == 100
  {
    assert Pow10(4) == 10 * 10 * Pow10(2);
  }

  lemma PartsRoundTrip(p: Parts)
    requires Sized(p) && Numeric(p)
    ensures PartsFor(MomentOf(p)) == p
  {
    ValuePadded(p.year);
    ValuePadded(p.month);
    ValuePadded(p.day);
    ValuePadded(p.hour);
    ValuePadded(p.minute);
    ValuePadded(p.second);
  }

  lemma MomentRoundTrip(m: Moment)
    requires 0 <= m.date.year < 10000 && 0 <= m.date.month < 100 && 0 <= m.date.day < 100
    requires 0 <= m.hour < 100 && 0 <= m.minute < 100 && 0 <= m.second < 100
    ensures MomentOf(PartsFor(m)) == m
  {
    Widths();
    PaddedValue(m.date.year, 4);
    PaddedValue(m.date.month, 2);
    PaddedValue(m.date.day, 2);
    PaddedValue(m.hour, 2);
    PaddedValue(m.minute, 2);
    PaddedValue(m.second, 2);
  }

  lemma StoredParts(julian: nat, ms: nat)
    requires julian <= U32_MAX && ms <= U32_MAX
    ensures var b := ToLe(julian, 4) + ToLe(ms, 4); |b| == 8 && FromLe(b[..4]) == julian && FromLe(b[4..8]) == ms
  {
    PowWidths();
    LeRoundTrip(julian, 4);
    LeRoundTrip(ms, 4);
    var b := ToLe(julian, 4) + ToLe(ms, 4);
    assert b[..4] == ToLe(julian, 4) && b[4..8] == ToLe(ms, 4);
  }

  /** An accepted text comes back, with a T between date and time. */
  lemma DateTimeTextRoundTrip(text: Bytes)
    requires DateTimeBytes(text).Ok? && DateTimeBytes(text).value.Some?
    ensures |DateTimeBytes(text).value.value| == 8
    ensures DateTimeText(DateTimeBytes(text).value.value) == Some(text[10 := LETTER_T])
  {
    hide DaysFromCivil, CivilFromDays, ToLe, FromLe, Value, Joined, Padded;
    var p := PartsOf(text);
    var m := MomentOf(p);
    var julian := DaysFromCivil(m.date) + JULIAN_DAY_UNIX_EPOCH;
    AcceptedIff(text);
    JulianInRange(m.date);
    ClockRoundTrip(m.hour, m.minute, m.second);
    StoredParts(julian, Milliseconds(m));
    PartsRoundTrip(p);
    JoinedAgain(text);
  }

  lemma JoinedAgain(text: Bytes)
    requires Shaped(text)
    ensures Sized(PartsOf(text)) && Joined(PartsOf(text), LETTER_T) == text[10 := LETTER_T]
  {
    JoinedParts(text);
    var t := Joined(PartsOf(text), LETTER_T);
    assert forall i :: 0 <= i < 19 ==> t[i] == text[10 := LETTER_T][i];
  }

  function WholeSeconds(bytes: Bytes): Bytes
    requires |bytes| == 8
  {
    bytes[..4] + ToLe(FromLe(bytes[4..8]) / 1000 * 1000, 4)
  }

  /** Stored bytes with a text come back, cut to whole seconds. */
  lemma DateTimeBytesRoundTrip(bytes: Bytes)
    requires |bytes| == 8 && DateTimeText(bytes).Some?
    ensures DateTimeBytes(DateTimeText(bytes).value) == Ok(Some(WholeSeconds(bytes)))
  {
    hide DaysFromCivil, CivilFromDays, ToLe, FromLe, Value, Joined, PartsFor;
    var julian, ms := FromLe(bytes[..4]), FromLe(bytes[4..8]);
    var date := CivilFromDays(julian - JULIAN_DAY_UNIX_EPOCH);
    CivilOfDays(julian - JULIAN_DAY_UNIX_EPOCH);
    var m := Moment(date, ms / 3600000, ms / 60000 % 60, ms / 1000 % 60);
    ClockParts(ms);
    MomentRoundTrip(m);
    PartsOfJoined(PartsFor(m), LETTER_T);
    LeBytesRoundTrip(bytes[..4]);
    PowWidths();
  }

  // ---- Currency ----

  const CURRENCY_SCALE: nat := 10000
  const I64_MAX: nat := 0x7FFF_FFFF_FFFF_FFFF

  predicate IsI64(v: int) { -(I64_MAX + 1) <= v <= I64_MAX }

  function CurrencyText(v: int): Bytes
  {
    var magnitude: nat := if v < 0 then -v else v;
    (if v < 0 then [DASH] else []) + Digits(magnitude / CURRENCY_SCALE) + [DOT] + Padded(magnitude % CURRENCY_SCALE, 4)
  }

  predicate Space(b: byte) { b in {0x20, 0x09, 0x0a, 0x0b, 0x0c, 0x0d} }

  function Trimmed(text: Bytes): Bytes
  {
    if text != [] && Space(text[0]) then Trimmed(text[1..])
    else if text != [] && Space(text[|text| - 1]) then Trimmed(text[..|text| - 1])
    else text
  }

  /** The text up to the first dot, and after it if there is one. */
  function BeforeDot(text: Bytes): Bytes
  {
    if text == [] || text[0] == DOT then [] else [text[0]] + BeforeDot(text[1..])
  }

  function AfterDot(text: Bytes): Bytes
  {
    if text == [] then [] else if text[0] == DOT then text[1..] else AfterDot(text[1..])
  }

  /** Ten thousandths from a fraction of at most four digits. */
  function FractionScale(digits: nat): nat
  {
    if digits == 0 then CURRENCY_SCALE else if digits == 1 then 1000 else if digits == 2 then 100
    else if digits == 3 then 10 else 1
  }

  function ParseCurrency(text: Bytes): (r: Result<int, TemporalError>)
    ensures r.Ok? ==> IsI64(r.value)
  {
    var t := Trimmed(text);
    if t == [] then Ok(0)
    else
      var negative := t[0] == DASH;
      var body := if t[0] in {DASH, SIGN_PLUS} then t[1..] else t;
      var whole, fraction := BeforeDot(body), AfterDot(body);
      if DOT in fraction || (whole == [] && fraction == []) || !AllDigits(whole) ||
         !AllDigits(fraction) || |fraction| > 4
      then Err(Malformed)
      else
        var w, f := Value(whole), Value(fraction);
        var magnitude := w * CURRENCY_SCALE + f * FractionScale(|fraction|);
        if w > U64_MAX || w * CURRENCY_SCALE > U64_MAX || magnitude > U64_MAX then Err(OutOfRange)
        else if magnitude > I64_MAX + (if negative then 1 else 0) then Err(OutOfRange)
        else Ok(if negative then -magnitude else magnitude)
  }

  lemma {:induction false} DotSplits(whole: Bytes, fraction: Bytes)
    requires AllDigits(whole)
    ensures BeforeDot(whole + [DOT] + fraction) == whole && AfterDot(whole + [DOT] + fraction) == fraction
    decreases |whole|
  {
    var all := whole + [DOT] + fraction;
    if whole != [] {
      DotSplits(whole[1..], fraction);
      assert all[1..] == whole[1..] + [DOT] + fraction;
    }
  }

  lemma NothingToTrim(text: Bytes)
    requires text != [] && !Space(text[0]) && !Space(text[|text| - 1])
    ensures Trimmed(text) == text
  {
  }

  /** Every 64-bit amount comes back from its text, the least one included. */
  lemma CurrencyRoundTrip(v: int)
    requires IsI64(v)
    ensures ParseCurrency(CurrencyText(v)) == Ok(v)
  {
    hide Digits, Padded, Value, Trimmed, BeforeDot, AfterDot;
    var magnitude: nat := if v < 0 then -v else v;
    var whole, fraction := Digits(magnitude / CURRENCY_SCALE), Padded(magnitude % CURRENCY_SCALE, 4);
    var body := whole + [DOT] + fraction;
    var text := CurrencyText(v);
    assert text == (if v < 0 then [DASH] + body else body);
    assert IsDigit(whole[0]) && IsDigit(fraction[3]) && text[|text| - 1] == fraction[3];
    NothingToTrim(text);
    assert v < 0 ==> text[1..] == body;
    assert v >= 0 ==> text[0] == whole[0];
    DotSplits(whole, fraction);
    Widths();
    DigitsValue(magnitude / CURRENCY_SCALE);
    PaddedValue(magnitude % CURRENCY_SCALE, 4);
  }

  /** A whole amount with a sign and four decimals is read exactly when it is a 64-bit amount. */
  lemma CurrencyAcceptedIff(negative: bool, whole: nat, fraction: nat)
    requires fraction < CURRENCY_SCALE
    ensures var text := (if negative then [DASH] else []) + Digits(whole) + [DOT] + Padded(fraction, 4);
            var v := (if negative then -1 else 1) * (whole * CURRENCY_SCALE + fraction);
            ParseCurrency(text) == if IsI64(v) then Ok(v) else Err(OutOfRange)
  {
    hide Digits, Padded, Value, Trimmed, BeforeDot, AfterDot;
    var body := Digits(whole) + [DOT] + Padded(fraction, 4);
    var text := (if negative then [DASH] else []) + Digits(whole) + [DOT] + Padded(fraction, 4);
    assert text == (if negative then [DASH] + body else body);
    assert IsDigit(Digits(whole)[0]) && IsDigit(Padded(fraction, 4)[3]) && text[|text| - 1] == Padded(fraction, 4)[3];
    NothingToTrim(text);
    assert negative ==> text[1..] == body;
    assert !negative ==> text[0] == Digits(whole)[0];
    DotSplits(Digits(whole), Padded(fraction, 4));
    Widths();
    DigitsValue(whole);
    PaddedValue(fraction, 4);
  }
}
