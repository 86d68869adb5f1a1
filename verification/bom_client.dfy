/**
 * The pure helpers of the Bureau of Meteorology client: the six frame timestamps behind "now",
 * their YYYYMMDDHHMM text, reading that text back into a time, the frame list built from them,
 * and the radar id for a range. Times are JavaScript time values (integer milliseconds since
 * 1970-01-01T00:00Z); "now" is a parameter.
 */
module BomClient {
  import opened Wrappers
  import opened Decimal
  import opened UtcCalendar
  import opened RadarIds

  /** The radar loop publishes a frame every six minutes. */
  const FrameSpacingMs := 6 * MsPerMinute
  const FrameCount := 6
  const BomRadarUrl := "http://www.bom.gov.au/radar"

  /** The largest magnitude a time value may have; beyond it a Date is invalid. */
  const MaxTime := 8640000000000000

  /** `${year}`: a year in decimal, with a minus sign before the first year of the era. */
  function YearText(y: int): (s: string)
    ensures y >= 0 ==> s == Digits(y)
  {
    if y < 0 then "-" + Digits(-y) else Digits(y)
  }

  /** The timestamp of the minute `t` falls in: year, then month from 1, day, hour and minute, each two digits. */
  function FormatTimestamp(t: int): string
  {
    var d := FieldsOf(t);
    YearText(d.year) + Pad2(d.month + 1) + Pad2(d.day) + Pad2(d.hours) + Pad2(d.minutes)
  }

  /** In a four-digit year the timestamp is twelve digits. */
  lemma TimestampShape(t: int)
    requires 1000 <= FieldsOf(t).year <= 9999
    ensures |FormatTimestamp(t)| == 12 && AllDigits(FormatTimestamp(t))
  {
    var d := FieldsOf(t);
    DigitsLength(d.year, 4);
    assert FormatTimestamp(t) == Digits(d.year) + Pad2(d.month + 1) + Pad2(d.day) + Pad2(d.hours) + Pad2(d.minutes);
  }

  /** `s.slice(from, to)` for `0 <= from <= to`: the bounds are cut to the length of `s`. */
  function Slice(s: string, from: nat, to: nat): (r: string)
    requires from <= to
    ensures to <= |s| ==> r == s[from..to]
    ensures from <= |s| <= to ==> r == s[from..]
    ensures |s| <= from ==> r == ""
    ensures |r| <= to - from
  {
    if |s| <= from then "" else if |s| <= to then s[from..] else s[from..to]
  }

  /** `Date.UTC` reads the years 0 to 99 as 1900 to 1999 (section 21.4.3.4 of ECMA-262). */
  function FullYear(y: int): (r: int)
    ensures 0 <= y <= 99 ==> r == 1900 + y
    ensures !(0 <= y <= 99) ==> r == y
  {
    if 0 <= y <= 99 then 1900 + y else y
  }

  /**
   * `Date.UTC(year, month, day, hours, minutes)`: out-of-range months carry into the year and
   * every other field adds its length in milliseconds; nothing when the time is beyond the
   * range a Date can hold.
   */
  function UtcTime(year: int, month: int, day: int, hours: int, minutes: int): (t: Option<int>)
    ensures Valid(DateFields(FullYear(year), month, day, hours, minutes)) && t.Some? ==>
      t.value == TimeOf(DateFields(FullYear(year), month, day, hours, minutes))
    ensures Valid(DateFields(FullYear(year), month, day, hours, minutes)) ==>
      (t.Some? <==> -MaxTime <= TimeOf(DateFields(FullYear(year), month, day, hours, minutes)) <= MaxTime)
  {
    var y := FullYear(year) + month / 12;
    var days := DaysBetween(1970, y) + MonthStart(y, month % 12) + day - 1;
    var time := days * MsPerDay + hours * MsPerHour + minutes * MsPerMinute;
    if time < -MaxTime || MaxTime < time then None else Some(time)
  }

  /**
   * The time a timestamp names: its five fields read with `parseInt`, the month counted back
   * from 1 to 0; nothing (an invalid Date) when a field does not start with a digit.
   */
  function TimestampToLocalTime(timestamp: string): Option<int>
  {
    var year := ParseInt(Slice(timestamp, 0, 4));
    var month := ParseInt(Slice(timestamp, 4, 6));
    var day := ParseInt(Slice(timestamp, 6, 8));
    var hours := ParseInt(Slice(timestamp, 8, 10));
    var mins := ParseInt(Slice(timestamp, 10, 12));
    if year.None? || month.None? || day.None? || hours.None? || mins.None? then None
    else UtcTime(year.value, month.value - 1, day.value, hours.value, mins.value)
  }

  /** A timestamp cut short before its minute field names no time. */
  lemma TruncatedTimestamp(timestamp: string)
    requires |timestamp| <= 10
    ensures TimestampToLocalTime(timestamp).None?
  {
    assert Slice(timestamp, 10, 12) == "";
  }

  /** A timestamp whose year field starts with neither white space, a digit nor a sign names no time. */
  lemma UnreadableYear(timestamp: string)
    requires |timestamp| > 0 && !IsSpace(timestamp[0]) && !IsDigit(timestamp[0])
    requires timestamp[0] != '-' && timestamp[0] != '+'
    ensures TimestampToLocalTime(timestamp).None?
  {
    assert Slice(timestamp, 0, 4)[0] == timestamp[0];
    TrimmedAlready(Slice(timestamp, 0, 4));
  }

  /**
   * A month field of `0x` is a hexadecimal prefix with no digit after it, so `parseInt` gives
   * NaN and the timestamp names no time, although its first digits are a year.
   */
  lemma {:induction false} HexMonthUnreadable()
    ensures TimestampToLocalTime("20240x010000").None?
  {
    var timestamp := "20240x010000";
    assert Slice(timestamp, 4, 6) == "0x";
    ParseHexPrefix("0x");
    UnreadableField(timestamp);
  }

  /** A timestamp whose month field `parseInt` cannot read names no time. */
  lemma {:induction false} UnreadableField(timestamp: string)
    requires ParseInt(Slice(timestamp, 4, 6)).None?
    ensures TimestampToLocalTime(timestamp).None?
  {
  }

  /** A time in a four-digit year lies well inside the range of a Date. */
  lemma FourDigitYearsInRange(d: DateFields)
    requires Valid(d) && 1000 <= d.year <= 9999
    ensures -MaxTime <= TimeOf(d) <= MaxTime
  {
    if d.year >= 1970 {
      DaysBetweenBounds(1970, d.year);
    } else {
      DaysBetweenBounds(d.year, 1970);
      DaysBetweenBackwards(d.year, 1970);
    }
  }

  /** The five slices of the timestamp of a time in a four-digit year are that time's five fields. */
  lemma FormattedSlices(t: int)
    requires 1000 <= FieldsOf(t).year <= 9999
    ensures FieldsRead(FormatTimestamp(t), FieldsOf(t))
  {
    DigitsLength(FieldsOf(t).year, 4);
    FieldSlices(Digits(FieldsOf(t).year), Pad2(FieldsOf(t).month + 1), Pad2(FieldsOf(t).day),
                Pad2(FieldsOf(t).hours), Pad2(FieldsOf(t).minutes));
    ParseDigits(FieldsOf(t).year);
    ParsePad2(FieldsOf(t).month + 1);
    ParsePad2(FieldsOf(t).day);
    ParsePad2(FieldsOf(t).hours);
    ParsePad2(FieldsOf(t).minutes);
  }

  /** Slicing four, two, two, two and two characters off the joined fields gives the fields back. */
  lemma FieldSlices(y: string, mo: string, da: string, h: string, mi: string)
    requires |y| == 4 && |mo| == 2 && |da| == 2 && |h| == 2 && |mi| == 2
    ensures Slice(y + mo + da + h + mi, 0, 4) == y
    ensures Slice(y + mo + da + h + mi, 4, 6) == mo
    ensures Slice(y + mo + da + h + mi, 6, 8) == da
    ensures Slice(y + mo + da + h + mi, 8, 10) == h
    ensures Slice(y + mo + da + h + mi, 10, 12) == mi
  {
    var s := y + mo + da + h + mi;
    assert s[0..4] == y;
    assert s[4..6] == mo;
    assert s[6..8] == da;
    assert s[8..10] == h;
    assert s[10..12] == mi;
  }

  /** The five slices of `timestamp` read with `parseInt` as the fields `d`, the month counted from 1. */
  predicate FieldsRead(timestamp: string, d: DateFields)
  {
    && ParseInt(Slice(timestamp, 0, 4)) == Some(d.year)
    && ParseInt(Slice(timestamp, 4, 6)) == Some(d.month + 1)
    && ParseInt(Slice(timestamp, 6, 8)) == Some(d.day)
    && ParseInt(Slice(timestamp, 8, 10)) == Some(d.hours)
    && ParseInt(Slice(timestamp, 10, 12)) == Some(d.minutes)
  }

  /** A timestamp whose five slices read as numbers names the time `Date.UTC` makes of them. */
  lemma ReadFields(timestamp: string, d: DateFields)
    requires FieldsRead(timestamp, d)
    ensures TimestampToLocalTime(timestamp) == UtcTime(d.year, d.month, d.day, d.hours, d.minutes)
  {
  }

  /** `Date.UTC` of the fields of a minute in a four-digit year is the time of that minute. */
  lemma UtcOfValid(d: DateFields)
    requires Valid(d) && 1000 <= d.year <= 9999
    ensures UtcTime(d.year, d.month, d.day, d.hours, d.minutes) == Some(TimeOf(d))
  {
    FourDigitYearsInRange(d);
  }

  /** Reading the timestamp of a time in a four-digit year gives the start of that time's minute. */
  lemma TimestampRoundTrip(t: int)
    requires 1000 <= FieldsOf(t).year <= 9999
    ensures TimestampToLocalTime(FormatTimestamp(t)) == Some(t - t % MsPerMinute)
  {
    ReadFormatted(t);
    UtcOfFields(t);
  }

  /** `Date.UTC` of the fields of `t` in a four-digit year is the start of the minute of `t`. */
  lemma UtcOfFields(t: int)
    requires 1000 <= FieldsOf(t).year <= 9999
    ensures UtcTime(FieldsOf(t).year, FieldsOf(t).month, FieldsOf(t).day, FieldsOf(t).hours, FieldsOf(t).minutes)
      == Some(t - t % MsPerMinute)
  {
    UtcOfValid(FieldsOf(t));
    TimeOfFields(t);
  }

  /** The timestamp of `t` is read as `Date.UTC` of the fields of `t`. */
  lemma ReadFormatted(t: int)
    requires 1000 <= FieldsOf(t).year <= 9999
    ensures TimestampToLocalTime(FormatTimestamp(t))
      == UtcTime(FieldsOf(t).year, FieldsOf(t).month, FieldsOf(t).day, FieldsOf(t).hours, FieldsOf(t).minutes)
  {
    FormattedSlices(t);
    ReadFields(FormatTimestamp(t), FieldsOf(t));
  }

  lemma ParsePad2(n: nat)
    requires n < 100
    ensures ParseInt(Pad2(n)) == Some(n)
  {
    ParseAllDigits(Pad2(n));
    ValueOfPad2(n);
  }

  /** `setUTCMinutes(floor(minutes / 6) * 6, 0, 0)` on `now`: same day and hour, the minute cut to a multiple of six. */
  function RoundedNow(now: int): int
  {
    var d := FieldsOf(now);
    (now / MsPerDay) * MsPerDay + d.hours * MsPerHour + (d.minutes / 6 * 6) * MsPerMinute
  }

  /** Rounding is cutting the time down to a whole multiple of six minutes. */
  lemma RoundedNowIsFrameBoundary(now: int)
    ensures RoundedNow(now) == now / FrameSpacingMs * FrameSpacingMs
    ensures RoundedNow(now) == now - now % FrameSpacingMs
    ensures RoundedNow(now) % FrameSpacingMs == 0
    ensures now - FrameSpacingMs < RoundedNow(now) <= now
  {
    var q, r := now / MsPerMinute, now % MsPerMinute;
    var day, md := q / 1440, q % 1440;
    var hh, mm := md / 60, md % 60;
    MinuteClock(now);
    var slots := day * 240 + hh * 10 + mm / 6;
    assert RoundedNow(now) == slots * FrameSpacingMs;
    DivUnique(now, FrameSpacingMs, slots, mm % 6 * MsPerMinute + r);
    DivUnique(RoundedNow(now), FrameSpacingMs, slots, 0);
  }

  /** The time of frame `k` of six: `5 - k` frame intervals before the rounded "now". */
  function FrameTime(now: int, k: nat): int
    requires k < FrameCount
  {
    RoundedNow(now) - (FrameCount - 1 - k) * FrameSpacingMs
  }

  /** The six frame timestamps, oldest first. */
  function GenerateFrameTimestamps(now: int): (ts: seq<string>)
    ensures |ts| == FrameCount
    ensures forall k :: 0 <= k < |ts| ==> ts[k] == FormatTimestamp(FrameTime(now, k))
  {
    seq(FrameCount, k requires 0 <= k < FrameCount => FormatTimestamp(FrameTime(now, k)))
  }

  /** In four-digit years each timestamp reads back as the time of its frame. */
  lemma {:induction false} FrameTimestampsRead(now: int, k: nat)
    requires k < FrameCount && 1000 <= FieldsOf(FrameTime(now, k)).year <= 9999
    ensures TimestampToLocalTime(GenerateFrameTimestamps(now)[k]) == Some(FrameTime(now, k))
  {
    FrameOnMinute(now, k);
    WholeMinuteRoundTrip(FrameTime(now, k));
  }

  /**
   * The frames are six minutes apart, oldest first, on six-minute boundaries, the last at the
   * rounded "now" and so within six minutes before "now".
   */
  lemma FrameTimesSpacing(now: int, k: nat)
    requires k < FrameCount
    ensures FrameTime(now, k) % FrameSpacingMs == 0
    ensures k + 1 < FrameCount ==> FrameTime(now, k + 1) == FrameTime(now, k) + FrameSpacingMs
    ensures FrameTime(now, FrameCount - 1) == now - now % FrameSpacingMs
    ensures now - FrameCount * FrameSpacingMs < FrameTime(now, k) <= now
  {
    RoundedNowIsFrameBoundary(now);
    var slots := now / FrameSpacingMs - (FrameCount - 1 - k);
    assert FrameTime(now, k) == slots * FrameSpacingMs;
    DivUnique(FrameTime(now, k), FrameSpacingMs, slots, 0);
  }

  /** A frame's minute is a multiple of six. */
  lemma FrameMinutes(now: int, k: nat)
    requires k < FrameCount
    ensures FieldsOf(FrameTime(now, k)).minutes % 6 == 0
  {
    var t := FrameTime(now, k);
    assert t % FrameSpacingMs == 0 by {
      FrameTimesSpacing(now, k);
    }
    assert FieldsOf(t).minutes == t % MsPerHour / MsPerMinute by {
      ClockFields(t);
    }
    SixMinuteMultiple(t);
  }

  lemma SixMinuteMultiple(t: int)
    requires t % FrameSpacingMs == 0
    ensures t % MsPerHour / MsPerMinute % 6 == 0
  {
    var q := t / FrameSpacingMs;
    assert t == q * FrameSpacingMs;
    assert t % MsPerHour == (q % 10) * FrameSpacingMs;
  }

  /** One frame of the loop: its timestamp, the image's address, and the time the timestamp names. */
  datatype RadarFrame = RadarFrame(timestamp: string, url: string, localTime: Option<int>)

  datatype RadarFramesResponse = RadarFramesResponse(radarId: string, frames: seq<RadarFrame>, latestTimestamp: string)

  /** The address of one frame image. */
  function FrameUrl(radarId: string, timestamp: string): string
  {
    BomRadarUrl + "/" + radarId + ".T." + timestamp + ".png"
  }

  /** The frame list for `radarId` as of `now`, without the cache in front of it. */
  function GetRadarFrames(radarId: string, now: int): (r: RadarFramesResponse)
    ensures r.radarId == radarId && |r.frames| == FrameCount
    ensures forall k :: 0 <= k < |r.frames| ==> r.frames[k] == MakeFrame(radarId, GenerateFrameTimestamps(now)[k])
    ensures r.latestTimestamp == GenerateFrameTimestamps(now)[FrameCount - 1]
  {
    var timestamps := GenerateFrameTimestamps(now);
    var frames := seq(|timestamps|, k requires 0 <= k < |timestamps| => MakeFrame(radarId, timestamps[k]));
    RadarFramesResponse(radarId, frames, timestamps[|timestamps| - 1])
  }

  /** The frame for one timestamp: the timestamp, its image's address and the time it names. */
  function MakeFrame(radarId: string, timestamp: string): RadarFrame
  {
    RadarFrame(timestamp, FrameUrl(radarId, timestamp), TimestampToLocalTime(timestamp))
  }

  /** In four-digit years each frame's time is the time of the frame its timestamp was made from. */
  lemma FrameLocalTimes(radarId: string, now: int, k: nat)
    requires k < FrameCount && 1000 <= FieldsOf(FrameTime(now, k)).year <= 9999
    ensures GetRadarFrames(radarId, now).frames[k].localTime == Some(FrameTime(now, k))
  {
    FrameOnMinute(now, k);
    WholeMinuteRoundTrip(FrameTime(now, k));
    FrameReadsItsTimestamp(radarId, now, k);
  }

  /** The latest timestamp of the list names "now" cut down to a six-minute boundary. */
  lemma {:induction false} LatestTimestampReadsNow(radarId: string, now: int)
    requires 1000 <= FieldsOf(FrameTime(now, FrameCount - 1)).year <= 9999
    ensures TimestampToLocalTime(GetRadarFrames(radarId, now).latestTimestamp) == Some(now - now % FrameSpacingMs)
  {
    calc {
      TimestampToLocalTime(GetRadarFrames(radarId, now).latestTimestamp);
      TimestampToLocalTime(GenerateFrameTimestamps(now)[FrameCount - 1]);
      == { FrameTimestampsRead(now, FrameCount - 1); }
      Some(FrameTime(now, FrameCount - 1));
      == { FrameTimesSpacing(now, FrameCount - 1); }
      Some(now - now % FrameSpacingMs);
    }
  }

  /** A whole minute in a four-digit year reads back from its timestamp exactly. */
  lemma {:induction false} WholeMinuteRoundTrip(t: int)
    requires t % MsPerMinute == 0 && 1000 <= FieldsOf(t).year <= 9999
    ensures TimestampToLocalTime(FormatTimestamp(t)) == Some(t)
  {
    calc {
      TimestampToLocalTime(FormatTimestamp(t));
      == { TimestampRoundTrip(t); }
      Some(t - t % MsPerMinute);
      == { assert t % MsPerMinute == 0; }
      Some(t);
    }
  }

  /** A frame's time is whatever its timestamp reads as. */
  lemma FrameReadsItsTimestamp(radarId: string, now: int, k: nat)
    requires k < FrameCount
    ensures GetRadarFrames(radarId, now).frames[k].localTime == TimestampToLocalTime(FormatTimestamp(FrameTime(now, k)))
  {
    assert GenerateFrameTimestamps(now)[k] == FormatTimestamp(FrameTime(now, k));
  }

  /** Every frame time is a whole minute. */
  lemma FrameOnMinute(now: int, k: nat)
    requires k < FrameCount
    ensures FrameTime(now, k) % MsPerMinute == 0
  {
    FrameTimesSpacing(now, k);
    DivUnique(FrameTime(now, k), MsPerMinute, 6 * (FrameTime(now, k) / FrameSpacingMs), 0);
  }

  /** The timestamp can be read back out of a frame's address, so different frames have different addresses. */
  lemma UrlNamesTimestamp(radarId: string, timestamp: string)
    ensures var url := FrameUrl(radarId, timestamp);
      url[|BomRadarUrl| + 1 + |radarId| + 3..|url| - 4] == timestamp
  {
  }

  /** The id of `baseId`'s station at `range`, as the client builds it. */
  function GetRadarIdWithRange(baseId: string, range: Range): (id: string)
    ensures |baseId| == 6 ==> |id| == 6 && id[..5] == baseId[..5]
    ensures |baseId| != 6 ==> |id| == |baseId| + 1 && id[..|baseId|] == baseId
    ensures id[|id| - 1] == range.Suffix()
  {
    if |baseId| == 6 then baseId[..5] + [range.Suffix()] else baseId + [range.Suffix()]
  }

  /** The client and the station table build the same id. */
  lemma RadarIdBuildersAgree(baseId: string, range: Range)
    ensures GetRadarIdWithRange(baseId, range) == RadarIdForRange(baseId, range)
  {
  }
}
