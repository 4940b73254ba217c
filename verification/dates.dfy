/** Calendar date-times and the four fixed-width text layouts that the
    watermarker accepts from image metadata (`%Y:%m:%d %H:%M:%S`,
    `%Y-%m-%d %H:%M:%S`, `%Y:%m:%d`, `%Y-%m-%d`), together with the
    `%Y-%m-%d` rendering it stamps on the picture.

    Parsing follows `datetime.strptime` on fixed-width input: the whole
    string must be consumed, every field must be in range, and the day
    must exist in the Gregorian calendar. */
module Dates {
  import opened Wrappers

  /** A naive local date-time, as Python's `datetime` without microseconds. */
  datatype DateTime = DateTime(year: int, month: int, day: int,
                               hour: int, minute: int, second: int)

  /** Gregorian leap-year rule. */
  predicate IsLeapYear(y: int) {
    y % 4 == 0 && (y % 100 != 0 || y % 400 == 0)
  }

  function DaysInMonth(y: int, m: int): (n: int)
    requires 1 <= m <= 12
    ensures 28 <= n <= 31
    ensures n == 29 <==> m == 2 && IsLeapYear(y)
    ensures n == 28 <==> m == 2 && !IsLeapYear(y)
    ensures n == 30 <==> m == 4 || m == 6 || m == 9 || m == 11
  {
    if m == 2 then (if IsLeapYear(y) then 29 else 28)
    else if m == 4 || m == 6 || m == 9 || m == 11 then 30
    else 31
  }

  /** What the `datetime` constructor accepts: years 1..9999, real calendar
      days, and seconds 0..59 (the `%S` directive admits 60 and 61, but the
      constructor then refuses them). */
  predicate Valid(d: DateTime) {
    && 1 <= d.year <= 9999
    && 1 <= d.month <= 12
    && 1 <= d.day <= DaysInMonth(d.year, d.month)
    && 0 <= d.hour <= 23
    && 0 <= d.minute <= 59
    && 0 <= d.second <= 59
  }

  predicate AtMidnight(d: DateTime) {
    d.hour == 0 && d.minute == 0 && d.second == 0
  }

  /** The same day with the time of day dropped. */
  function Midnight(d: DateTime): (r: DateTime)
    ensures AtMidnight(r)
    ensures r.year == d.year && r.month == d.month && r.day == d.day
    ensures Valid(d) ==> Valid(r)
  {
    d.(hour := 0, minute := 0, second := 0)
  }

  /** One of the accepted layouts: year, month and day joined by `sep`,
      optionally followed by a space and `HH:MM:SS`. */
  datatype Format = Format(sep: char, withTime: bool) {
    function Width(): (n: nat)
      ensures n == 10 || n == 19
    {
      if withTime then 19 else 10
    }
  }

  /** `%Y:%m:%d %H:%M:%S`, `%Y-%m-%d %H:%M:%S`, `%Y:%m:%d`, `%Y-%m-%d`, in
      the order they are tried (watermark.py line 55). */
  const Formats: seq<Format> :=
    [Format(':', true), Format('-', true), Format(':', false), Format('-', false)]

  /** `%Y-%m-%d`: the last accepted layout and the one `format_date` writes. */
  const IsoDate: Format := Format('-', false)

  predicate IsDigit(c: char) {
    '0' <= c <= '9'
  }

  predicate AllDigits(s: string) {
    forall i :: 0 <= i < |s| ==> IsDigit(s[i])
  }

  function Pow10(n: nat): (p: nat)
    ensures p >= 1
  {
    if n == 0 then 1 else 10 * Pow10(n - 1)
  }

  /** The value of a string of decimal digits. */
  function ReadNat(s: string): (n: nat)
    requires AllDigits(s)
    ensures n < Pow10(|s|)
  {
    if |s| == 0 then 0
    else ReadNat(s[..|s| - 1]) * 10 + (s[|s| - 1] as int - '0' as int)
  }

  /** `n` written in exactly `w` decimal digits, zero-padded on the left
      (higher digits beyond `w` are dropped). */
  function Pad(n: nat, w: nat): (s: string)
    ensures |s| == w && AllDigits(s)
  {
    if w == 0 then []
    else Pad(n / 10, w - 1) + [('0' as int + n % 10) as char]
  }

  /** Reading back a padded number gives the number when it fits. */
  lemma {:induction false} ReadPad(n: nat, w: nat)
    requires n < Pow10(w)
    ensures ReadNat(Pad(n, w)) == n
  {
    if w > 0 {
      var s := Pad(n, w);
      assert s[..w - 1] == Pad(n / 10, w - 1);
      ReadPad(n / 10, w - 1);
    }
  }

  /** Padding the value of a digit string to its own width gives it back. */
  lemma {:induction false} PadRead(s: string)
    requires AllDigits(s)
    ensures Pad(ReadNat(s), |s|) == s
  {
    if |s| > 0 {
      var init := s[..|s| - 1];
      var n := ReadNat(s);
      assert n / 10 == ReadNat(init);
      assert n % 10 == s[|s| - 1] as int - '0' as int;
      PadRead(init);
      assert s == init + [s[|s| - 1]];
    }
  }

  /** Three fields joined by two separators: `YYYY-MM-DD` and `HH:MM:SS`
      both have this shape. */
  function Triple(a: string, x: char, b: string, y: char, c: string): string {
    a + [x] + b + [y] + c
  }

  /** Where the parts of a triple with two-character tail fields sit. */
  lemma TripleParts(a: string, x: char, b: string, y: char, c: string)
    requires |b| == 2 && |c| == 2
    ensures var t := Triple(a, x, b, y, c);
      && |t| == |a| + 6
      && t[..|a|] == a && t[|a|] == x && t[|a| + 1..|a| + 3] == b
      && t[|a| + 3] == y && t[|a| + 4..] == c
  {
  }

  /** Any string of the triple's length is the triple of its own parts. */
  lemma TripleOfParts(t: string, w: nat)
    requires |t| == w + 6
    ensures t == Triple(t[..w], t[w], t[w + 1..w + 3], t[w + 3], t[w + 4..])
  {
  }

  /** `%Y<sep>%m<sep>%d` of `d`. */
  function DatePart(sep: char, d: DateTime): (s: string)
    requires Valid(d)
    ensures |s| == 10
  {
    Triple(Pad(d.year, 4), sep, Pad(d.month, 2), sep, Pad(d.day, 2))
  }

  /** `%H:%M:%S` of `d`. */
  function TimePart(d: DateTime): (s: string)
    requires Valid(d)
    ensures |s| == 8
  {
    Triple(Pad(d.hour, 2), ':', Pad(d.minute, 2), ':', Pad(d.second, 2))
  }

  /** The text of `d` in layout `f`, as `strftime` writes it. */
  function Render(f: Format, d: DateTime): (s: string)
    requires Valid(d)
    ensures |s| == f.Width()
  {
    DatePart(f.sep, d) + (if f.withTime then [' '] + TimePart(d) else [])
  }

  /** The punctuation and digit positions of layout `f`. */
  predicate Shaped(s: string, f: Format) {
    && |s| == f.Width()
    && AllDigits(s[0..4]) && s[4] == f.sep
    && AllDigits(s[5..7]) && s[7] == f.sep
    && AllDigits(s[8..10])
    && (f.withTime ==>
          && s[10] == ' ' && AllDigits(s[11..13]) && s[13] == ':'
          && AllDigits(s[14..16]) && s[16] == ':' && AllDigits(s[17..19]))
  }

  /** The fields of a shaped string, before any range check. */
  function Fields(s: string, f: Format): DateTime
    requires Shaped(s, f)
  {
    DateTime(ReadNat(s[0..4]), ReadNat(s[5..7]), ReadNat(s[8..10]),
             if f.withTime then ReadNat(s[11..13]) else 0,
             if f.withTime then ReadNat(s[14..16]) else 0,
             if f.withTime then ReadNat(s[17..19]) else 0)
  }

  /** `datetime.strptime(s, f)` on fixed-width input: None where Python
      raises `ValueError`.  Date-only layouts yield midnight. */
  function ParseFormat(s: string, f: Format): (r: Option<DateTime>)
    ensures r.Some? ==> Valid(r.value) && Shaped(s, f)
    ensures r.Some? && !f.withTime ==> AtMidnight(r.value)
  {
    if Shaped(s, f) && Valid(Fields(s, f)) then Some(Fields(s, f)) else None
  }

  /** The date part of a shaped string is the rendering of its fields. */
  lemma DatePartSound(s: string, f: Format)
    requires Shaped(s, f) && Valid(Fields(s, f))
    ensures DatePart(f.sep, Fields(s, f)) == s[..10]
  {
    var date := s[..10];
    PadRead(s[0..4]);
    PadRead(s[5..7]);
    PadRead(s[8..10]);
    TripleOfParts(date, 4);
    assert date[..4] == s[0..4] && date[5..7] == s[5..7] && date[8..] == s[8..10];
  }

  /** The time part of a shaped string with a time is the rendering of its
      fields. */
  lemma TimePartSound(s: string, f: Format)
    requires Shaped(s, f) && Valid(Fields(s, f)) && f.withTime
    ensures TimePart(Fields(s, f)) == s[11..]
  {
    var time := s[11..];
    PadRead(s[11..13]);
    PadRead(s[14..16]);
    PadRead(s[17..19]);
    TripleOfParts(time, 2);
    assert time[..2] == s[11..13] && time[3..5] == s[14..16] && time[6..] == s[17..19];
  }

  /** Soundness: whatever the parser accepts is exactly the rendering of
      the date it returns. */
  lemma ParseSound(s: string, f: Format)
    requires ParseFormat(s, f).Some?
    ensures Render(f, ParseFormat(s, f).value) == s
  {
    DatePartSound(s, f);
    if f.withTime {
      TimePartSound(s, f);
      assert s == s[..10] + [s[10]] + s[11..];
    } else {
      assert s == s[..10];
    }
  }

  /** Where each field of `d` sits in its rendering. */
  lemma RenderFields(f: Format, d: DateTime)
    requires Valid(d)
    ensures var s := Render(f, d);
      && s[0..4] == Pad(d.year, 4) && s[4] == f.sep
      && s[5..7] == Pad(d.month, 2) && s[7] == f.sep
      && s[8..10] == Pad(d.day, 2)
      && (f.withTime ==>
            && s[10] == ' ' && s[11..13] == Pad(d.hour, 2) && s[13] == ':'
            && s[14..16] == Pad(d.minute, 2) && s[16] == ':'
            && s[17..19] == Pad(d.second, 2))
  {
    var s := Render(f, d);
    var date := DatePart(f.sep, d);
    TripleParts(Pad(d.year, 4), f.sep, Pad(d.month, 2), f.sep, Pad(d.day, 2));
    assert s[..10] == date;
    assert s[0..4] == date[..4] && s[5..7] == date[5..7] && s[8..10] == date[8..];
    if f.withTime {
      var time := TimePart(d);
      TripleParts(Pad(d.hour, 2), ':', Pad(d.minute, 2), ':', Pad(d.second, 2));
      assert s[11..] == time;
      assert s[11..13] == time[..2] && s[14..16] == time[3..5] && s[17..19] == time[6..];
    }
  }

  /** The rendering of a valid date has the layout's shape. */
  lemma RenderShaped(f: Format, d: DateTime)
    requires Valid(d)
    ensures Shaped(Render(f, d), f)
  {
    RenderFields(f, d);
  }

  /** Reading the fields of a rendering gives back the date, its time of
      day taken as midnight for a date-only layout. */
  lemma RenderFieldsRead(f: Format, d: DateTime)
    requires Valid(d)
    ensures Shaped(Render(f, d), f)
    ensures var r := Fields(Render(f, d), f);
      r.year == d.year && r.month == d.month && r.day == d.day
      && (f.withTime ==> r.hour == d.hour && r.minute == d.minute && r.second == d.second)
      && (!f.withTime ==> AtMidnight(r))
  {
    RenderShaped(f, d);
    RenderFields(f, d);
    ReadPad(d.year, 4);
    ReadPad(d.month, 2);
    ReadPad(d.day, 2);
    if f.withTime {
      ReadPad(d.hour, 2);
      ReadPad(d.minute, 2);
      ReadPad(d.second, 2);
    }
  }

  /** Completeness: every valid date (at midnight for a date-only layout)
      is accepted in its own rendering and parsed back to itself. */
  lemma ParseComplete(d: DateTime, f: Format)
    requires Valid(d)
    requires !f.withTime ==> AtMidnight(d)
    ensures ParseFormat(Render(f, d), f) == Some(d)
  {
    RenderFieldsRead(f, d);
    assert Fields(Render(f, d), f) == d;
  }

  /** At most one layout accepts any given string, so the order in which
      they are tried never changes the outcome. */
  lemma FormatsExclusive(s: string, i: nat, j: nat)
    requires i < |Formats| && j < |Formats| && i != j
    ensures ParseFormat(s, Formats[i]).None? || ParseFormat(s, Formats[j]).None?
  {
  }

  /** The four layouts tried in order; the first that parses wins
      (watermark.py lines 55-59). */
  function ParseAny(s: string): (r: Option<DateTime>)
    ensures r.None? <==> forall i :: 0 <= i < |Formats| ==> ParseFormat(s, Formats[i]).None?
    ensures r.Some? ==> exists i :: 0 <= i < |Formats| && ParseFormat(s, Formats[i]) == r
  {
    FirstSome(Formats, f => ParseFormat(s, f))
  }

  /** Because the layouts exclude each other, a string parses to `d` under
      the ordered search exactly when some layout parses it to `d`. */
  lemma ParseAnyIsAnyLayout(s: string, d: DateTime)
    ensures ParseAny(s) == Some(d) <==>
            exists i :: 0 <= i < |Formats| && ParseFormat(s, Formats[i]) == Some(d)
  {
    if exists i :: 0 <= i < |Formats| && ParseFormat(s, Formats[i]) == Some(d) {
      var i :| 0 <= i < |Formats| && ParseFormat(s, Formats[i]) == Some(d);
      var k :| 0 <= k < |Formats| && ParseFormat(s, Formats[k]) == ParseAny(s);
      if k != i {
        FormatsExclusive(s, i, k);
      }
    }
  }

  /** `format_date`: the date as zero-padded `YYYY-MM-DD`, which is the
      `%Y-%m-%d` layout and reads back as the same day at midnight. */
  function FormatDate(d: DateTime): (s: string)
    requires Valid(d)
    ensures |s| == 10 && s[4] == '-' && s[7] == '-'
    ensures ParseFormat(s, IsoDate) == Some(Midnight(d))
  {
    var s := Render(IsoDate, Midnight(d));
    ParseComplete(Midnight(d), IsoDate);
    s
  }

  /** Round trip through the full ordered search: the stamped text is
      rejected by the three earlier layouts and accepted by the last. */
  lemma FormatDateRoundTrip(d: DateTime)
    requires Valid(d)
    ensures ParseAny(FormatDate(d)) == Some(Midnight(d))
  {
    var s := FormatDate(d);
    assert Formats[3] == IsoDate;
    FirstSomeAt(Formats, f => ParseFormat(s, f), 3);
  }

  /** The other direction: any `%Y-%m-%d` text that parses is exactly the
      `format_date` of what it parses to. */
  lemma ParseThenFormat(s: string)
    requires ParseFormat(s, IsoDate).Some?
    ensures FormatDate(ParseFormat(s, IsoDate).value) == s
  {
    var d := ParseFormat(s, IsoDate).value;
    ParseSound(s, IsoDate);
    assert Midnight(d) == d;
  }
}
