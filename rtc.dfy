/**
 * The real-time clock of internal_utils/src/clocks/rtc.rs: reading the six
 * time registers until two consecutive samples agree, decoding them from BCD
 * and 12-hour form, and rendering the result as an RFC 3339 date-time
 * without offset.
 */
module Rtc {
  import opened Wrappers
  import opened Digits

  /** `RtcFormatFlags::BINARY`: the registers hold binary, not BCD. */
  const BINARY: bv8 := 0x04
  /** `RtcFormatFlags::FULL_HOUR`: the hour register counts 0..23, not 1..12 with a PM bit. */
  const FULL_HOUR: bv8 := 0x02

  /** `RtcTime`: the year is a `u16`, the rest `u8`. */
  datatype RtcTime = RtcTime(year: nat, month: nat, day: nat, hour: nat, minute: nat, second: nat)

  type U8 = x: int | 0 <= x < 0x100

  /** One read of registers 0x00, 0x02, 0x04, 0x07, 0x08 and 0x09. */
  datatype Sample = Sample(seconds: U8, minutes: U8, hours: U8, days: U8, months: U8, years: U8)

  /** `bcd_to_binary`: `(bcd & 0xF0) >> 1` is eight times the high nibble and `>> 3` twice it, so this is ten times the high nibble plus the low one, at most 165. */
  function BcdToBinary(bcd: U8): (r: U8)
    ensures r == 10 * (bcd / 16) + bcd % 16
    ensures r <= 165
  {
    var high := bcd / 16 * 16;   // bcd & 0xF0
    high / 2 + high / 8 + bcd % 16
  }

  /** `hours & 0x7F`: the hour register without its PM bit. */
  function Mask7(b: U8): (r: U8)
    ensures r == b % 0x80
  {
    if b >= 0x80 then b - 0x80 else b
  }

  /** Both nibbles are decimal digits. */
  predicate ValidBcd(b: U8) {
    b / 16 <= 9 && b % 16 <= 9
  }

  /** The BCD byte of a number below 100. */
  function BinaryToBcd(n: nat): (b: U8)
    requires n <= 99
  {
    (n / 10) * 16 + n % 10
  }

  /** On valid BCD the decoding is the decimal value, below 100, and encoding inverts it. */
  lemma BcdRoundTrip(b: U8, n: nat)
    requires n <= 99
    ensures ValidBcd(b) ==> BcdToBinary(b) <= 99 && BinaryToBcd(BcdToBinary(b)) == b
    ensures ValidBcd(BinaryToBcd(n)) && BcdToBinary(BinaryToBcd(n)) == n
  {
    DivModUnique(BinaryToBcd(n), 16, n / 10, n % 10);
    if ValidBcd(b) {
      DivModUnique(BcdToBinary(b), 10, b / 16, b % 16);
    }
  }

  /** A register as the decoder sees it: itself in binary mode, else BCD-decoded. */
  function Field(b: U8, binary: bool): U8 {
    if binary then b else BcdToBinary(b)
  }

  /** The hour after the PM adjustment of `get_current_time`: 12 is added, and a result of 12 becomes 0. */
  function AdjustHour(hour: nat, pm: bool, fullHour: bool): nat {
    if !fullHour && pm then (if hour + 12 == 12 then 0 else hour + 12) else hour
  }

  /**
   * The decode part of `RtcController::get_current_time`, for format flags
   * `format`: the year is counted from 2000, and only a 12-hour reading with
   * the PM bit moves the hour away from its register's value.
   */
  function Decode(s: Sample, format: bv8): (t: RtcTime)
    ensures 2000 <= t.year < 2000 + 256
    ensures format & FULL_HOUR != 0 || s.hours < 0x80 ==> t.hour == Field(Mask7(s.hours), format & BINARY != 0)
    ensures format & FULL_HOUR == 0 && s.hours >= 0x80 && Field(Mask7(s.hours), format & BINARY != 0) != 0 ==>
      t.hour == Field(Mask7(s.hours), format & BINARY != 0) + 12
  {
    var binary := format & BINARY != 0;
    var fullHour := format & FULL_HOUR != 0;
    var pm := s.hours >= 0x80;
    RtcTime(2000 + Field(s.years, binary), Field(s.months, binary), Field(s.days, binary),
            AdjustHour(Field(Mask7(s.hours), binary), pm, fullHour),
            Field(s.minutes, binary), Field(s.seconds, binary))
  }

  /** In binary 24-hour mode the registers are copied, the hour without its top bit, the year offset by 2000. */
  lemma DecodeBinary(s: Sample, format: bv8)
    requires format & BINARY != 0 && format & FULL_HOUR != 0
    ensures Decode(s, format) == RtcTime(2000 + s.years, s.months, s.days, s.hours % 0x80, s.minutes, s.seconds)
  {
  }

  /** In BCD mode with valid BCD everywhere, every field is the decimal value of its register, and the year is 2000..2099. */
  lemma DecodeBcd(s: Sample, format: bv8)
    requires format & BINARY == 0 && format & FULL_HOUR != 0
    requires ValidBcd(s.seconds) && ValidBcd(s.minutes) && ValidBcd(Mask7(s.hours))
    requires ValidBcd(s.days) && ValidBcd(s.months) && ValidBcd(s.years)
    ensures var t := Decode(s, format);
      && t.second == 10 * (s.seconds / 16) + s.seconds % 16 <= 99
      && t.minute <= 99 && t.hour <= 99 && t.day <= 99 && t.month <= 99
      && 2000 <= t.year <= 2099
  {
  }

  /** Only the PM bit and the flags decide between the 12- and 24-hour readings: in 12-hour mode without PM the hour is the register's. */
  lemma DecodeMorning(s: Sample, format: bv8)
    requires s.hours < 0x80
    ensures Decode(s, format).hour == Field(s.hours, format & BINARY != 0)
  {
  }

  /** 12 PM in BCD 12-hour mode (`0x92`) decodes to hour 24, and 12 AM (`0x12`) to hour 12. */
  lemma TwelveAsWritten()
    ensures Decode(Sample(0, 0, 0x92, 1, 1, 0), 0).hour == 24
    ensures Decode(Sample(0, 0, 0x12, 1, 1, 0), 0).hour == 12
  {
    assert (0 as bv8) & BINARY == 0 && (0 as bv8) & FULL_HOUR == 0;
    assert Mask7(0x92) == 0x12 && Mask7(0x12) == 0x12;
    assert BcdToBinary(0x12) == 12;
  }

  /** A 12-hour clock's hour `1..12` with its PM flag, on the 24-hour clock: 12 AM is 0 and 12 PM is 12. */
  function Hour24(hour: nat, pm: bool): nat {
    if hour == 12 then (if pm then 12 else 0) else if pm then hour + 12 else hour
  }

  /** The 12-hour reading of a 24-hour hour. */
  function Hour12(h: nat): (nat, bool)
    requires h < 24
  {
    if h == 0 then (12, false) else if h < 12 then (h, false) else if h == 12 then (12, true) else (h - 12, true)
  }

  /** The corrected conversion is a bijection from `1..12` AM/PM onto `0..23`. */
  lemma Hour24Bijective(hour: nat, pm: bool, h: nat)
    requires 1 <= hour <= 12 && h < 24
    ensures Hour24(hour, pm) < 24 && Hour12(Hour24(hour, pm)) == (hour, pm)
    ensures 1 <= Hour12(h).0 <= 12 && Hour24(Hour12(h).0, Hour12(h).1) == h
  {
  }

  /** The decode with the corrected 12-hour conversion: only the hour of a 12-hour reading differs from `Decode`. */
  function DecodeCorrected(s: Sample, format: bv8): (t: RtcTime)
    ensures format & FULL_HOUR != 0 ==> t == Decode(s, format)
    ensures t.(hour := 0) == Decode(s, format).(hour := 0)
    ensures format & FULL_HOUR == 0 ==> t.hour == Hour24(Field(Mask7(s.hours), format & BINARY != 0), s.hours >= 0x80)
  {
    var t := Decode(s, format);
    var hour := Field(Mask7(s.hours), format & BINARY != 0);
    if format & FULL_HOUR == 0 then t.(hour := Hour24(hour, s.hours >= 0x80)) else t
  }

  /** As written and corrected agree on every 12-hour reading but 12, where the written one is off by 12 (24 for noon, 12 for midnight). */
  lemma CorrectedDiffersAtTwelve(s: Sample, format: bv8)
    requires format & FULL_HOUR == 0
    ensures var hour := Field(Mask7(s.hours), format & BINARY != 0);
      && (1 <= hour <= 11 ==> Decode(s, format) == DecodeCorrected(s, format))
      && (hour == 12 ==> Decode(s, format).hour == DecodeCorrected(s, format).hour + 12)
  {
  }

  /** With valid 12-hour BCD registers the corrected hour is a valid RFC 3339 `time-hour`. */
  lemma CorrectedHourInRange(s: Sample, format: bv8)
    requires format & BINARY == 0 && format & FULL_HOUR == 0
    requires ValidBcd(Mask7(s.hours)) && 1 <= BcdToBinary(Mask7(s.hours)) <= 12
    ensures DecodeCorrected(s, format).hour < 24
  {
  }

  /** The index of the first sample equal to the one before it, searching from `i`. */
  function FirstStable(samples: seq<Sample>, i: nat): (j: nat)
    requires 1 <= i <= |samples|
    requires exists k :: i <= k < |samples| && samples[k] == samples[k - 1]
    ensures i <= j < |samples| && samples[j] == samples[j - 1]
    ensures forall k :: i <= k < j ==> samples[k] != samples[k - 1]
    decreases |samples| - i
  {
    if samples[i] == samples[i - 1] then i else FirstStable(samples, i + 1)
  }

  /** The time with no controller initialised. */
  const ZERO_TIME := RtcTime(0, 0, 0, 0, 0, 0)

  class RtcController {
    /** `format`: the status register B bits kept by `from_bits_truncate`. */
    const format: bv8

    constructor (registerB: bv8)
      ensures format == registerB & (BINARY | FULL_HOUR)
    {
      format := registerB & (BINARY | FULL_HOUR);
    }

    /**
     * `get_current_time`: `samples` are the successive reads of the six
     * registers; the time is decoded from the first read that repeats the
     * one before it, with 12 AM as hour 0 and 12 PM as hour 12 (the source
     * turns 12 PM into 24 and leaves 12 AM at 12, see `TwelveAsWritten`).
     */
    method GetCurrentTime(samples: seq<Sample>) returns (t: RtcTime)
      requires exists k :: 1 <= k < |samples| && samples[k] == samples[k - 1]
      ensures t == DecodeCorrected(samples[FirstStable(samples, 1)], format)
    {
      ghost var stable := FirstStable(samples, 1);
      var current := samples[0];
      var i := 1;
      while true
        invariant 1 <= i <= stable && current == samples[i - 1]
        decreases stable - i
      {
        var next := samples[i];
        if next == current {
          break;
        }
        current := next;
        i := i + 1;
      }
      assert current == samples[stable];
      ghost var binary := format & BINARY != 0;
      var seconds, minutes, hours, days, months, years :=
        current.seconds, current.minutes, current.hours, current.days, current.months, current.years;
      var hourIsPm := hours >= 0x80;
      hours := Mask7(hours);
      if format & BINARY == 0 {
        seconds := BcdToBinary(seconds);
        minutes := BcdToBinary(minutes);
        hours := BcdToBinary(hours);
        days := BcdToBinary(days);
        months := BcdToBinary(months);
        years := BcdToBinary(years);
      }
      assert seconds == Field(current.seconds, binary) && minutes == Field(current.minutes, binary);
      assert hours == Field(Mask7(current.hours), binary);
      assert days == Field(current.days, binary) && months == Field(current.months, binary);
      assert years == Field(current.years, binary);
      var hour: nat := hours;
      if format & FULL_HOUR == 0 {
        if hour == 12 {
          hour := if hourIsPm then 12 else 0;
        } else if hourIsPm {
          hour := hour + 12;
        }
      }
      t := RtcTime(2000 + years as int, months, days, hour, minutes, seconds);
    }
  }

  /** The free `get_current_time`: the controller's reading, or all zeros before `init_rtc`. */
  method CurrentTime(controller: RtcController?, samples: seq<Sample>) returns (t: RtcTime)
    requires controller != null ==> exists k :: 1 <= k < |samples| && samples[k] == samples[k - 1]
    ensures controller == null ==> t == ZERO_TIME
    ensures controller != null ==> t == DecodeCorrected(samples[FirstStable(samples, 1)], controller.format)
  {
    if controller != null {
      t := controller.GetCurrentTime(samples);
    } else {
      t := ZERO_TIME;
    }
  }

  // ---------------------------------------------------------------- Display

  /** `{:0w}` of a decimal number. */
  function Decimal(v: nat, width: nat): string {
    PadLeft(Numeral(v, 10), width, '0')
  }

  /** `"{:04}-{:02}-{:02}T{:02}:{:02}:{:02}"`: RFC 3339 `full-date "T" partial-time` (section 5.6), without offset. */
  function Render(t: RtcTime): string {
    Decimal(t.year, 4) + "-" + Decimal(t.month, 2) + "-" + Decimal(t.day, 2) + "T"
      + Decimal(t.hour, 2) + ":" + Decimal(t.minute, 2) + ":" + Decimal(t.second, 2)
  }

  /** Every field fits its width. */
  predicate Fits(t: RtcTime) {
    t.year <= 9999 && t.month <= 99 && t.day <= 99 && t.hour <= 99 && t.minute <= 99 && t.second <= 99
  }

  /** A field is exactly its width when the value fits it, wider otherwise. */
  lemma DecimalWidth(v: nat, width: nat, limit: nat)
    requires width >= 1 && limit == Pow(10, width)
    ensures |Decimal(v, width)| >= width
    ensures |Decimal(v, width)| == width <==> v < limit
  {
    NumeralLength(v, 10, width);
  }

  lemma DecimalLimits()
    ensures Pow(10, 2) == 100 && Pow(10, 4) == 10000
  {
    assert Pow(10, 1) == 10;
    assert Pow(10, 3) == 1000;
  }

  /** The text is 19 characters exactly when every field fits its width. */
  lemma RenderLength(t: RtcTime)
    ensures |Render(t)| == 19 <==> Fits(t)
  {
    YearWidth(t.year);
    TwoDigitWidth(t.month);
    TwoDigitWidth(t.day);
    TwoDigitWidth(t.hour);
    TwoDigitWidth(t.minute);
    TwoDigitWidth(t.second);
    RenderLengthSum(t);
  }

  lemma YearWidth(v: nat)
    ensures |Decimal(v, 4)| >= 4 && (|Decimal(v, 4)| == 4 <==> v <= 9999)
  {
    DecimalLimits();
    DecimalWidth(v, 4, 10000);
  }

  lemma TwoDigitWidth(v: nat)
    ensures |Decimal(v, 2)| >= 2 && (|Decimal(v, 2)| == 2 <==> v <= 99)
  {
    DecimalLimits();
    DecimalWidth(v, 2, 100);
  }

  /** The text is the six fields and five separators. */
  lemma RenderLengthSum(t: RtcTime)
    ensures |Render(t)| == |Decimal(t.year, 4)| + |Decimal(t.month, 2)| + |Decimal(t.day, 2)|
      + |Decimal(t.hour, 2)| + |Decimal(t.minute, 2)| + |Decimal(t.second, 2)| + 5
  {
  }

  /** Reading `YYYY-MM-DDTHH:MM:SS` back: separators in place and six decimal fields. */
  function ParseTime(text: string): Option<RtcTime> {
    if |text| != 19 || text[4] != '-' || text[7] != '-' || text[10] != 'T' || text[13] != ':' || text[16] != ':' then None
    else
      var year, month, day := ParseNumeral(text[..4], 10), ParseNumeral(text[5..7], 10), ParseNumeral(text[8..10], 10);
      var hour, minute, second := ParseNumeral(text[11..13], 10), ParseNumeral(text[14..16], 10), ParseNumeral(text[17..], 10);
      if year.None? || month.None? || day.None? || hour.None? || minute.None? || second.None? then None
      else Some(RtcTime(year.value, month.value, day.value, hour.value, minute.value, second.value))
  }

  /** The fields of `YYYY-MM-DDTHH:MM:SS` sit at fixed positions between the separators. */
  lemma Layout(y: string, mo: string, d: string, h: string, mi: string, s: string)
    requires |y| == 4 && |mo| == 2 && |d| == 2 && |h| == 2 && |mi| == 2 && |s| == 2
    ensures var text := y + "-" + mo + "-" + d + "T" + h + ":" + mi + ":" + s;
      && |text| == 19 && text[4] == '-' && text[7] == '-' && text[10] == 'T' && text[13] == ':' && text[16] == ':'
      && text[..4] == y && text[5..7] == mo && text[8..10] == d
      && text[11..13] == h && text[14..16] == mi && text[17..] == s
  {
    var date := y + "-" + mo + "-" + d;
    var time := h + ":" + mi + ":" + s;
    assert |date| == 10 && date[..4] == y && date[4] == '-' && date[5..7] == mo && date[7] == '-' && date[8..] == d;
    assert |time| == 8 && time[..2] == h && time[2] == ':' && time[3..5] == mi && time[5] == ':' && time[6..] == s;
    var text := y + "-" + mo + "-" + d + "T" + h + ":" + mi + ":" + s;
    assert text == date + "T" + time;
  }

  /** Text laid out as `YYYY-MM-DDTHH:MM:SS` reads back as the values of its six fields. */
  lemma ParseLayout(y: string, mo: string, d: string, h: string, mi: string, s: string, t: RtcTime)
    requires |y| == 4 && |mo| == 2 && |d| == 2 && |h| == 2 && |mi| == 2 && |s| == 2
    requires ParseNumeral(y, 10) == Some(t.year) && ParseNumeral(mo, 10) == Some(t.month)
    requires ParseNumeral(d, 10) == Some(t.day) && ParseNumeral(h, 10) == Some(t.hour)
    requires ParseNumeral(mi, 10) == Some(t.minute) && ParseNumeral(s, 10) == Some(t.second)
    ensures ParseTime(y + "-" + mo + "-" + d + "T" + h + ":" + mi + ":" + s) == Some(t)
  {
    Layout(y, mo, d, h, mi, s);
  }

  /** Every time whose fields fit reads back from its text. */
  lemma RenderRoundTrip(t: RtcTime)
    requires Fits(t)
    ensures ParseTime(Render(t)) == Some(t)
  {
    RenderLength(t);
    ParsePadded(t.year, 4, 10);
    ParsePadded(t.month, 2, 10);
    ParsePadded(t.day, 2, 10);
    ParsePadded(t.hour, 2, 10);
    ParsePadded(t.minute, 2, 10);
    ParsePadded(t.second, 2, 10);
    ParseLayout(Decimal(t.year, 4), Decimal(t.month, 2), Decimal(t.day, 2),
                Decimal(t.hour, 2), Decimal(t.minute, 2), Decimal(t.second, 2), t);
  }

  /** Every decoded time has a year that fits four digits; with a valid BCD reading and the corrected hour, the whole text is 19 characters. */
  lemma DecodedRenders(s: Sample, format: bv8)
    ensures Decode(s, format).year <= 2255
    ensures format & BINARY == 0 && ValidBcd(s.seconds) && ValidBcd(s.minutes) && ValidBcd(Mask7(s.hours))
      && ValidBcd(s.days) && ValidBcd(s.months) && ValidBcd(s.years)
      && (format & FULL_HOUR == 0 ==> 1 <= BcdToBinary(Mask7(s.hours)) <= 12)
      ==> |Render(DecodeCorrected(s, format))| == 19
  {
    if format & BINARY == 0 && ValidBcd(s.seconds) && ValidBcd(s.minutes) && ValidBcd(Mask7(s.hours))
      && ValidBcd(s.days) && ValidBcd(s.months) && ValidBcd(s.years)
      && (format & FULL_HOUR == 0 ==> 1 <= BcdToBinary(Mask7(s.hours)) <= 12)
    {
      RenderLength(DecodeCorrected(s, format));
    }
  }
}
