/** Timestamps as `pd.to_datetime(...).dt.tz_localize(None)` leaves them: the
    wall-clock fields of the text, with any UTC offset read and then dropped
    without converting. */
module Timestamps {
  import opened Wrappers
  import opened Digits
  import opened Calendar

  datatype DateTime = DateTime(date: Date, hour: int, minute: int, second: int)

  predicate ValidDateTime(t: DateTime) {
    ValidDate(t.date) && 0 <= t.hour <= 23 && 0 <= t.minute <= 59 && 0 <= t.second <= 59
  }

  /** The number written by the w digits of s starting at i, if they are digits. */
  function Field(s: string, i: nat, w: nat): (r: Option<nat>)
    requires i + w <= |s|
    ensures r.Some? ==> r.value < Pow10(w)
  {
    var f := s[i..i + w];
    if forall k :: 0 <= k < |f| ==> IsDigit(f[k]) then
      ValueBelow(f);
      Some(Value(f))
    else None
  }

  lemma {:induction false} ValueBelow(f: string)
    requires forall k :: 0 <= k < |f| ==> IsDigit(f[k])
    ensures Value(f) < Pow10(|f|)
  {
    if f != [] {
      ValueBelow(f[..|f| - 1]);
    }
  }

  /** "+05:00", "-0500": a sign, hours below 24, an optional colon, minutes below 60. */
  predicate NumericOffset(o: string) {
    && (|o| == 5 || (|o| == 6 && o[3] == ':'))
    && (o[0] == '+' || o[0] == '-')
    && Field(o, 1, 2).Some? && Field(o, 1, 2).value < 24
    && Field(o, |o| - 2, 2).Some? && Field(o, |o| - 2, 2).value < 60
  }

  /** What may follow the seconds: nothing, "Z", or a numeric offset, which
      may be preceded by one space ("2024-01-01 08:00:00 -0500"). */
  predicate ValidOffset(o: string) {
    o == "" || o == "Z" || NumericOffset(o) || (|o| > 0 && o[0] == ' ' && NumericOffset(o[1..]))
  }

  /** `pd.to_datetime` on one cell, for the one layout the model reads:
      "YYYY-MM-DD HH:MM:SS" or "YYYY-MM-DDTHH:MM:SS", then an optional
      offset; the offset is checked and dropped.  None where pandas raises. */
  function ParseTimestamp(s: string): (r: Option<DateTime>)
    ensures r.Some? ==> ValidDateTime(r.value)
  {
    if |s| < 19 || s[4] != '-' || s[7] != '-' || (s[10] != ' ' && s[10] != 'T')
       || s[13] != ':' || s[16] != ':' || !ValidOffset(s[19..]) then None
    else
      match (Field(s, 0, 4), Field(s, 5, 2), Field(s, 8, 2), Field(s, 11, 2), Field(s, 14, 2), Field(s, 17, 2))
      case (Some(y), Some(mo), Some(d), Some(h), Some(mi), Some(se)) =>
        var t := DateTime(Date(y, mo, d), h, mi, se);
        if ValidDateTime(t) then Some(t) else None
      case _ => None
  }

  /** The timestamp written in the layout ParseTimestamp reads, with `sep`
      between date and time. */
  function Layout(t: DateTime, sep: char): (s: string)
    requires ValidDateTime(t)
    ensures |s| == 19
  {
    DateText(t.date) + [sep] + ClockText(t)
  }

  /** "YYYY-MM-DD" */
  function DateText(d: Date): (s: string)
    requires ValidDate(d)
    ensures |s| == 10
  {
    PadNat(d.year, 4) + "-" + PadNat(d.month, 2) + "-" + PadNat(d.day, 2)
  }

  /** "HH:MM:SS" */
  function ClockText(t: DateTime): (s: string)
    requires ValidDateTime(t)
    ensures |s| == 8
  {
    PadNat(t.hour, 2) + ":" + PadNat(t.minute, 2) + ":" + PadNat(t.second, 2)
  }

  /** Parsing keeps the wall clock and drops the offset: whatever offset
      follows, and whichever separator, the same fields come back. */
  lemma ParseLayout(t: DateTime, sep: char, offset: string)
    requires ValidDateTime(t) && (sep == ' ' || sep == 'T') && ValidOffset(offset)
    ensures ParseTimestamp(Layout(t, sep) + offset) == Some(t)
  {
    var s := Layout(t, sep) + offset;
    LayoutSlices(t, sep, offset);
    PaddedField(s, 0, 4, t.date.year);
    PaddedField(s, 5, 2, t.date.month);
    PaddedField(s, 8, 2, t.date.day);
    PaddedField(s, 11, 2, t.hour);
    PaddedField(s, 14, 2, t.minute);
    PaddedField(s, 17, 2, t.second);
  }

  /** Where each field and separator of the layout sits. */
  lemma LayoutSlices(t: DateTime, sep: char, offset: string)
    requires ValidDateTime(t)
    ensures var s := Layout(t, sep) + offset;
      && |s| == 19 + |offset|
      && s[0..4] == PadNat(t.date.year, 4) && s[5..7] == PadNat(t.date.month, 2)
      && s[8..10] == PadNat(t.date.day, 2) && s[11..13] == PadNat(t.hour, 2)
      && s[14..16] == PadNat(t.minute, 2) && s[17..19] == PadNat(t.second, 2)
      && s[4] == '-' && s[7] == '-' && s[10] == sep && s[13] == ':' && s[16] == ':'
      && s[19..] == offset
  {
    var date, clock := DateText(t.date), ClockText(t);
    PartSlices(PadNat(t.date.year, 4), '-', PadNat(t.date.month, 2), '-', PadNat(t.date.day, 2));
    PartSlices(PadNat(t.hour, 2), ':', PadNat(t.minute, 2), ':', PadNat(t.second, 2));
    JoinSlices(date, sep, clock, offset);
  }

  /** Three fields joined by two separators. */
  lemma PartSlices(a: string, x: char, b: string, y: char, c: string)
    requires |b| == 2 && |c| == 2
    ensures var s := a + [x] + b + [y] + c;
      && s[..|a|] == a && s[|a|] == x && s[|a| + 1..|a| + 3] == b
      && s[|a| + 3] == y && s[|a| + 4..] == c
  {
  }

  /** The date, the separator, the clock and the offset. */
  lemma JoinSlices(date: string, sep: char, clock: string, offset: string)
    requires |date| == 10 && |clock| == 8
    ensures var s := date + [sep] + clock + offset;
      && s[..10] == date && s[10] == sep && s[11..19] == clock && s[19..] == offset
      && (forall i, j :: 0 <= i <= j <= 10 ==> s[i..j] == date[i..j])
      && (forall i, j :: 0 <= i <= j <= 8 ==> s[11 + i..11 + j] == clock[i..j])
  {
  }

  /** A field written by PadNat reads back as its number. */
  lemma PaddedField(s: string, i: nat, w: nat, n: nat)
    requires n < Pow10(w) && i + w <= |s| && s[i..i + w] == PadNat(n, w)
    ensures Field(s, i, w) == Some(n)
  {
    ValueOfPadNat(n, w);
  }

  /** Lexicographic order of wall-clock fields: the order pandas compares
      naive timestamps in. */
  predicate AtOrBefore(a: DateTime, b: DateTime) {
    var ka := [a.date.year, a.date.month, a.date.day, a.hour, a.minute, a.second];
    var kb := [b.date.year, b.date.month, b.date.day, b.hour, b.minute, b.second];
    LexLessEq(ka, kb)
  }

  predicate LexLessEq(a: seq<int>, b: seq<int>)
    requires |a| == |b|
  {
    a == [] || a[0] < b[0] || (a[0] == b[0] && LexLessEq(a[1..], b[1..]))
  }

  /** Midnight at the start of a day, as `datetime.strptime(s, '%Y-%m-%d')` gives it. */
  function Midnight(d: Date): DateTime {
    DateTime(d, 0, 0, 0)
  }

  /** `datetime.strptime(s, '%Y-%m-%d')`, for the zero-padded form "YYYY-MM-DD"
      the date picker sends.  None where Python raises. */
  function ParseDay(s: string): (r: Option<Date>)
    ensures r.Some? ==> ValidDate(r.value)
  {
    if |s| != 10 || s[4] != '-' || s[7] != '-' then None
    else
      match (Field(s, 0, 4), Field(s, 5, 2), Field(s, 8, 2))
      case (Some(y), Some(mo), Some(d)) =>
        if ValidDate(Date(y, mo, d)) then Some(Date(y, mo, d)) else None
      case _ => None
  }

  /** The date picker's text for a date reads back as that date. */
  lemma ParseDateText(d: Date)
    requires ValidDate(d)
    ensures ParseDay(DateText(d)) == Some(d)
  {
    var s := DateText(d);
    PartSlices(PadNat(d.year, 4), '-', PadNat(d.month, 2), '-', PadNat(d.day, 2));
    PaddedField(s, 0, 4, d.year);
    PaddedField(s, 5, 2, d.month);
    PaddedField(s, 8, 2, d.day);
  }

  lemma {:induction false} LexLessEqTotal(a: seq<int>, b: seq<int>)
    requires |a| == |b|
    ensures LexLessEq(a, b) || LexLessEq(b, a)
    ensures LexLessEq(a, b) && LexLessEq(b, a) ==> a == b
  {
    if a != [] && a[0] == b[0] {
      LexLessEqTotal(a[1..], b[1..]);
      assert a == [a[0]] + a[1..] && b == [b[0]] + b[1..];
    }
  }

  lemma {:induction false} LexLessEqTrans(a: seq<int>, b: seq<int>, c: seq<int>)
    requires |a| == |b| == |c| && LexLessEq(a, b) && LexLessEq(b, c)
    ensures LexLessEq(a, c)
  {
    if a != [] && a[0] == b[0] && b[0] == c[0] {
      LexLessEqTrans(a[1..], b[1..], c[1..]);
    }
  }

  /** Any two times are ordered one way or the other, and only equal
      times both ways. */
  lemma AtOrBeforeTotal(a: DateTime, b: DateTime)
    ensures AtOrBefore(a, b) || AtOrBefore(b, a)
    ensures AtOrBefore(a, b) && AtOrBefore(b, a) ==> a == b
  {
    var ka := [a.date.year, a.date.month, a.date.day, a.hour, a.minute, a.second];
    var kb := [b.date.year, b.date.month, b.date.day, b.hour, b.minute, b.second];
    LexLessEqTotal(ka, kb);
    if ka == kb {
      assert ka[0] == kb[0] && ka[1] == kb[1] && ka[2] == kb[2];
      assert ka[3] == kb[3] && ka[4] == kb[4] && ka[5] == kb[5];
    }
  }

  lemma AtOrBeforeTrans(a: DateTime, b: DateTime, c: DateTime)
    requires AtOrBefore(a, b) && AtOrBefore(b, c)
    ensures AtOrBefore(a, c)
  {
    var ka := [a.date.year, a.date.month, a.date.day, a.hour, a.minute, a.second];
    var kb := [b.date.year, b.date.month, b.date.day, b.hour, b.minute, b.second];
    var kc := [c.date.year, c.date.month, c.date.day, c.hour, c.minute, c.second];
    LexLessEqTrans(ka, kb, kc);
  }

  /** A valid time is at or after midnight of its own day. */
  lemma MidnightBefore(t: DateTime)
    requires ValidDateTime(t)
    ensures AtOrBefore(Midnight(t.date), t)
  {
    var km := [t.date.year, t.date.month, t.date.day, 0, 0, 0];
    var kt := [t.date.year, t.date.month, t.date.day, t.hour, t.minute, t.second];
    assert km[1..][1..][1..] == [0, 0, 0];
    assert kt[1..][1..][1..] == [t.hour, t.minute, t.second];
    assert LexLessEq([0, 0, 0], [t.hour, t.minute, t.second]) by {
      assert [0, 0, 0][1..] == [0, 0] && [t.hour, t.minute, t.second][1..] == [t.minute, t.second];
      assert [0, 0][1..] == [0] && [t.minute, t.second][1..] == [t.second];
      assert [0][1..] == [] && [t.second][1..] == [];
    }
  }

  /** Calendar order of dates, ignoring the time of day. */
  predicate DayAtOrBefore(a: Date, b: Date) {
    LexLessEq([a.year, a.month, a.day], [b.year, b.month, b.day])
  }

  /** Comparing times compares their dates first. */
  lemma AtOrBeforeDay(a: DateTime, b: DateTime)
    requires AtOrBefore(a, b)
    ensures DayAtOrBefore(a.date, b.date)
  {
    var ka := [a.date.year, a.date.month, a.date.day, a.hour, a.minute, a.second];
    var kb := [b.date.year, b.date.month, b.date.day, b.hour, b.minute, b.second];
    assert ka == [a.date.year, a.date.month, a.date.day] + [a.hour, a.minute, a.second];
    assert kb == [b.date.year, b.date.month, b.date.day] + [b.hour, b.minute, b.second];
    LexPrefix([a.date.year, a.date.month, a.date.day], [a.hour, a.minute, a.second],
              [b.date.year, b.date.month, b.date.day], [b.hour, b.minute, b.second]);
  }

  lemma {:induction false} LexPrefix(a: seq<int>, c: seq<int>, b: seq<int>, d: seq<int>)
    requires |a| == |b| && |c| == |d| && LexLessEq(a + c, b + d)
    ensures LexLessEq(a, b)
  {
    if a != [] && a[0] == b[0] {
      assert (a + c)[1..] == a[1..] + c && (b + d)[1..] == b[1..] + d;
      LexPrefix(a[1..], c, b[1..], d);
    }
  }

  /** A time on the same day as `d` and after its midnight is not at or
      before that midnight. */
  lemma AfterMidnight(t: DateTime)
    requires ValidDateTime(t) && t != Midnight(t.date)
    ensures !AtOrBefore(t, Midnight(t.date))
  {
    MidnightBefore(t);
    AtOrBeforeTotal(t, Midnight(t.date));
  }
}
