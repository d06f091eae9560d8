/** The date helper of lib/helpers/ISO8601ToStringDateUtil.ts. Parsing the ISO string and the
    local-time getters are not part of this model: the formatter receives the getter values
    (full year, zero-based month, day of month, hours 0-23, minutes) directly. */
module DateFormat {
  import opened Common
  import opened Decimal

  /** The hour shown on a 12-hour clock: hours mod 12, with 0 shown as 12. */
  function DisplayHour(hours: nat): (h: nat)
    ensures 1 <= h <= 12
    ensures h % 12 == hours % 12
  {
    var m := hours % 12;
    if m == 0 then 12 else m
  }

  /** The suffix: "PM" exactly when the hour is 12 or later, "AM" otherwise. */
  function Meridiem(hours: nat): (m: string)
    ensures m == "PM" <==> hours >= 12
    ensures m == "AM" <==> hours < 12
  {
    assert "AM"[0] != "PM"[0];
    if hours >= 12 then "PM" else "AM"
  }

  /** `year-MM-DD hh:mm AM|PM`: month is the zero-based month plus one; month, day, hour and minutes
      are padded to two digits; the year is written as it is. */
  function FormatDate(year: int, monthIndex: nat, day: nat, hours: nat, minutes: nat): (r: string)
    // the year comes first, as it is, followed by '-'; the text ends in the hour's AM or PM
    ensures var y := IntToString(year);
      && |r| >= |y| + 15 && r[..|y|] == y && r[|y|] == '-'
      && r[|r| - 2..] == Meridiem(hours) && (r[|r| - 2..] == "PM" <==> hours >= 12)
  {
    var y, ap := IntToString(year), Meridiem(hours);
    var mo, d := PadStart2(NatToString(monthIndex + 1)), PadStart2(NatToString(day));
    var h, mi := PadStart2(NatToString(DisplayHour(hours))), PadStart2(NatToString(minutes));
    LayoutEnds(y, mo, d, h, mi, ap);
    Layout(y, mo, d, h, mi, ap)
  }

  /** Whatever the widths of its padded fields, the template starts with the year and '-' and ends
      in the suffix. */
  lemma LayoutEnds(y: string, mo: string, d: string, h: string, mi: string, ap: string)
    requires |mo| >= 2 && |d| >= 2 && |h| >= 2 && |mi| >= 2 && |ap| == 2
    ensures var s := Layout(y, mo, d, h, mi, ap);
      |s| >= |y| + 15 && s[..|y|] == y && s[|y|] == '-' && s[|s| - 2..] == ap
  {
    var middle := "-" + mo + "-" + d + " " + h + ":" + mi + " ";
    assert Layout(y, mo, d, h, mi, ap) == y + middle + ap;
    assert (y + middle + ap)[..|y|] == y;
    assert (y + middle + ap)[|y|] == middle[0];
  }

  /** The template literal `${year}-${month}-${day} ${hours}:${minutes} ${ampm}`. */
  function Layout(year: string, month: string, day: string, hour: string, minute: string, suffix: string): string {
    year + "-" + month + "-" + day + " " + hour + ":" + minute + " " + suffix
  }

  /** The fields a formatted date is read back into; the hour is on the 24-hour clock. */
  datatype Stamp = Stamp(year: int, month: nat, day: nat, hours: nat, minutes: nat)

  /** A 12-hour clock reading back to 0-23. */
  function To24Hour(h12: nat, pm: bool): nat {
    if pm then (if h12 == 12 then 12 else h12 + 12)
    else (if h12 == 12 then 0 else h12)
  }

  predicate IsYear(s: string) {
    if |s| > 0 && s[0] == '-' then |s| > 1 && IsDigits(s[1..]) else |s| > 0 && IsDigits(s)
  }

  function ParseYear(s: string): int {
    if |s| > 0 && s[0] == '-' then -(Value(s[1..]) as int) else Value(s)
  }

  /** Reads `year-MM-DD hh:mm AM|PM` back into its fields; None when a separator, a digit or the
      suffix is not where the format puts it. */
  function ParseDisplay(s: string): Option<Stamp> {
    if |s| < 16 then None
    else
      var n := |s| - 15;
      if s[n] == '-' && s[n + 3] == '-' && s[n + 6] == ' ' && s[n + 9] == ':' && s[n + 12] == ' '
      then ParseFields(s[..n], s[n + 1..n + 3], s[n + 4..n + 6], s[n + 7..n + 9], s[n + 10..n + 12], s[n + 13..])
      else None
  }

  function ParseFields(year: string, month: string, day: string, hour: string, minute: string, suffix: string): Option<Stamp> {
    if && IsYear(year) && IsDigits(month) && IsDigits(day) && IsDigits(hour) && IsDigits(minute)
       && (suffix == "AM" || suffix == "PM")
    then Some(Stamp(ParseYear(year), Value(month), Value(day), To24Hour(Value(hour), suffix == "PM"), Value(minute)))
    else None
  }

  lemma YearRoundTrip(year: int)
    ensures IsYear(IntToString(year)) && ParseYear(IntToString(year)) == year
  {
    var s := IntToString(year);
    if year < 0 {
      assert s[1..] == NatToString(-year);
      ValueOfNatToString(-year);
    } else {
      ValueOfNatToString(year);
    }
  }

  /** With two-character fields, the layout is the year followed by fifteen characters in fixed
      places. */
  lemma LayoutShape(y: string, mo: string, d: string, h: string, mi: string, ap: string)
    requires |mo| == 2 && |d| == 2 && |h| == 2 && |mi| == 2 && |ap| == 2
    ensures Layout(y, mo, d, h, mi, ap)
            == y + ['-', mo[0], mo[1], '-', d[0], d[1], ' ', h[0], h[1], ':', mi[0], mi[1], ' ', ap[0], ap[1]]
  {
    assert mo == [mo[0], mo[1]] && d == [d[0], d[1]] && h == [h[0], h[1]];
    assert mi == [mi[0], mi[1]] && ap == [ap[0], ap[1]];
  }

  /** The year, then fifteen characters: each field sits at a fixed distance from the end. */
  lemma TailSlices(y: string, t: string)
    requires |t| == 15
    ensures var s, n := y + t, |y|;
      && s[..n] == y && s[n] == t[0] && s[n + 3] == t[3] && s[n + 6] == t[6] && s[n + 9] == t[9]
      && s[n + 12] == t[12] && s[n + 1..n + 3] == t[1..3] && s[n + 4..n + 6] == t[4..6]
      && s[n + 7..n + 9] == t[7..9] && s[n + 10..n + 12] == t[10..12] && s[n + 13..] == t[13..]
  {
  }

  /** Reading a laid-out date finds each field where it was put. */
  lemma ParseLayout(y: string, mo: string, d: string, h: string, mi: string, ap: string)
    requires 0 < |y| && |mo| == 2 && |d| == 2 && |h| == 2 && |mi| == 2 && |ap| == 2
    ensures ParseDisplay(Layout(y, mo, d, h, mi, ap)) == ParseFields(y, mo, d, h, mi, ap)
  {
    LayoutShape(y, mo, d, h, mi, ap);
    var t := ['-', mo[0], mo[1], '-', d[0], d[1], ' ', h[0], h[1], ':', mi[0], mi[1], ' ', ap[0], ap[1]];
    assert t[1..3] == mo && t[4..6] == d && t[7..9] == h && t[10..12] == mi && t[13..] == ap;
    TailSlices(y, t);
    var s := Layout(y, mo, d, h, mi, ap);
    var n := |s| - 15;
    assert n == |y|;
    assert s[..n] == y;
    assert s[n] == '-' && s[n + 3] == '-' && s[n + 6] == ' ' && s[n + 9] == ':' && s[n + 12] == ' ';
    assert s[n + 1..n + 3] == mo && s[n + 4..n + 6] == d;
    assert s[n + 7..n + 9] == h && s[n + 10..n + 12] == mi && s[n + 13..] == ap;
    assert ParseDisplay(s) == ParseFields(y, mo, d, h, mi, ap);
  }

  lemma ReadFields(y: string, mo: string, d: string, h: string, mi: string, ap: string)
    requires IsYear(y) && IsDigits(mo) && IsDigits(d) && IsDigits(h) && IsDigits(mi)
    requires ap == "AM" || ap == "PM"
    ensures ParseFields(y, mo, d, h, mi, ap)
            == Some(Stamp(ParseYear(y), Value(mo), Value(d), To24Hour(Value(h), ap == "PM"), Value(mi)))
  {
  }

  /** The 12-hour reading and its suffix determine the hour of the day: 0 reads "12 AM", 12 reads
      "12 PM", and no two hours share a reading. */
  lemma TwelveHourRoundTrip(hours: nat)
    requires hours < 24
    ensures To24Hour(DisplayHour(hours), hours >= 12) == hours
  {
  }

  /** A layout of a well-formed year and two-digit fields reads back to those fields. */
  lemma LayoutRoundTrip(y: string, mo: string, d: string, h: string, mi: string, ap: string)
    requires IsYear(y) && |mo| == 2 && |d| == 2 && |h| == 2 && |mi| == 2
    requires IsDigits(mo) && IsDigits(d) && IsDigits(h) && IsDigits(mi) && (ap == "AM" || ap == "PM")
    ensures var s := Layout(y, mo, d, h, mi, ap);
      && ParseDisplay(s) == Some(Stamp(ParseYear(y), Value(mo), Value(d), To24Hour(Value(h), ap == "PM"), Value(mi)))
      && |s| == |y| + 15 && s[..|y|] == y && s[|s| - 2..] == ap
  {
    LayoutShape(y, mo, d, h, mi, ap);
    ParseLayout(y, mo, d, h, mi, ap);
    ReadFields(y, mo, d, h, mi, ap);
  }

  /** For every date the getters can produce, the formatted text reads back to the same date and
      time (nothing is lost by the 12-hour clock or the padding, every separator is in place), the
      year comes first unpadded, and the text ends in the hour's suffix. */
  lemma FormatRoundTrip(year: int, monthIndex: nat, day: nat, hours: nat, minutes: nat)
    requires monthIndex < 12 && 1 <= day <= 31 && hours < 24 && minutes < 60
    ensures var s := FormatDate(year, monthIndex, day, hours, minutes);
      && ParseDisplay(s) == Some(Stamp(year, monthIndex + 1, day, hours, minutes))
      && |s| == |IntToString(year)| + 15
      && s[..|IntToString(year)|] == IntToString(year)
      && s[|s| - 2..] == Meridiem(hours)
  {
    var y, mo, d := IntToString(year), PadStart2(NatToString(monthIndex + 1)), PadStart2(NatToString(day));
    var h, mi, ap := PadStart2(NatToString(DisplayHour(hours))), PadStart2(NatToString(minutes)), Meridiem(hours);
    assert FormatDate(year, monthIndex, day, hours, minutes) == Layout(y, mo, d, h, mi, ap);
    TwoDigits(monthIndex + 1);
    TwoDigits(day);
    TwoDigits(DisplayHour(hours));
    TwoDigits(minutes);
    YearRoundTrip(year);
    LayoutRoundTrip(y, mo, d, h, mi, ap);
    assert (ap == "PM") == (hours >= 12);
    TwelveHourRoundTrip(hours);
    assert To24Hour(Value(h), ap == "PM") == hours;
  }
}
