/** Which date goes on the picture (`get_exif_datetime`, watermark.py
    lines 36-62, and its use at lines 119-122).

    The metadata is the tag-name to text dictionary the imaging library
    reports; an image without metadata is the empty map.  Three tags are
    consulted in a fixed order; a missing or empty value is skipped, and so
    is a value no accepted layout parses.  When no tag yields a date, the
    file's modification time is used instead. */
module DateResolver {
  import opened Wrappers
  import opened Dates

  type Metadata = map<string, string>

  /** The tags tried, most specific first. */
  const DateTags: seq<string> := ["DateTimeOriginal", "DateTimeDigitized", "DateTime"]

  /** The date one tag contributes, if any. */
  function TagDate(meta: Metadata, tag: string): (r: Option<DateTime>)
    ensures r.None? <==> tag !in meta || meta[tag] == "" || ParseAny(meta[tag]).None?
    ensures r.Some? ==> tag in meta && ParseAny(meta[tag]) == r && Valid(r.value)
  {
    if tag in meta && meta[tag] != "" then ParseAny(meta[tag]) else None
  }

  /** The capture date: the date of the first tag, in `DateTags` order,
      that yields one; None when none does. */
  function ExifDate(meta: Metadata): (r: Option<DateTime>)
    ensures r.None? <==> forall i :: 0 <= i < |DateTags| ==> TagDate(meta, DateTags[i]).None?
    ensures r.Some? ==>
      && Valid(r.value)
      && exists i :: 0 <= i < |DateTags| && TagDate(meta, DateTags[i]) == r &&
           forall j :: 0 <= j < i ==> TagDate(meta, DateTags[j]).None?
  {
    FirstSome(DateTags, tag => TagDate(meta, tag))
  }

  /** An image without metadata has no capture date. */
  lemma NoMetadataNoDate()
    ensures ExifDate(map[]) == None
  {
  }

  /** A tag that yields a date wins over every later tag, whatever they
      hold. */
  lemma {:induction false} FirstTagWins(meta: Metadata, i: nat)
    requires i < |DateTags| && TagDate(meta, DateTags[i]).Some?
    requires forall j :: 0 <= j < i ==> TagDate(meta, DateTags[j]).None?
    ensures ExifDate(meta) == TagDate(meta, DateTags[i])
  {
    FirstSomeAt(DateTags, tag => TagDate(meta, tag), i);
  }

  /** A tag that yields nothing (empty, or not a date in any accepted
      layout) does not stop the search: the result is what it would be
      without that tag. */
  lemma UnusableTagIsSkipped(meta: Metadata, tag: string)
    requires TagDate(meta, tag).None?
    ensures ExifDate(meta) == ExifDate(meta - {tag})
  {
    var m := meta - {tag};
    forall i | 0 <= i < |DateTags|
      ensures TagDate(meta, DateTags[i]) == TagDate(m, DateTags[i])
    {
    }
    FirstSomeCongruent(DateTags, t => TagDate(meta, t), t => TagDate(m, t));
  }

  /** The watermark text: the capture date if there is one, otherwise the
      modification time, written as `YYYY-MM-DD`. */
  function WatermarkText(meta: Metadata, mtime: DateTime): (s: string)
    requires Valid(mtime)
    ensures ExifDate(meta).Some? ==> ParseFormat(s, IsoDate) == Some(Midnight(ExifDate(meta).value))
    ensures ExifDate(meta).None? ==> ParseFormat(s, IsoDate) == Some(Midnight(mtime))
  {
    FormatDate(ExifDate(meta).GetOr(mtime))
  }

  /** Precedence: an original capture time written in the first layout
      decides the stamp, whatever a later `DateTime` tag holds. */
  lemma OriginalBeatsLaterTag(d: DateTime, later: string, mtime: DateTime)
    requires Valid(d) && Valid(mtime)
    ensures WatermarkText(map["DateTimeOriginal" := Render(Formats[0], d),
                              "DateTime" := later], mtime) == FormatDate(d)
  {
    var meta := map["DateTimeOriginal" := Render(Formats[0], d), "DateTime" := later];
    var s := Render(Formats[0], d);
    assert meta[DateTags[0]] == s;
    ParseComplete(d, Formats[0]);
    FirstSomeAt(Formats, f => ParseFormat(s, f), 0);
    FirstTagWins(meta, 0);
  }

  /** A year of the 2020s is written `202` followed by its last digit. */
  lemma YearOfTwenties(y: nat)
    requires 2020 <= y <= 2029
    ensures Pad(y, 4) == "202" + [('0' as int + (y - 2020)) as char]
  {
    assert Pad(2, 1) == "2" && Pad(20, 2) == "20" && Pad(202, 3) == "202";
    assert y / 10 == 202 && y % 10 == y - 2020;
  }

  /** The stamp drops the time of day: 2020-01-02 10:00:00 is stamped
      `2020-01-02`. */
  lemma DayStampExample()
    ensures FormatDate(DateTime(2020, 1, 2, 10, 0, 0)) == "2020-01-02"
  {
    var day := DateTime(2020, 1, 2, 0, 0, 0);
    assert Valid(day);
    YearOfTwenties(2020);
    assert Pad(1, 2) == "01" && Pad(2, 2) == "02";
    assert Render(IsoDate, day) == "2020-01-02";
  }

  /** Fallback: with no date tags, the modification day is stamped. */
  lemma FallbackExample()
    ensures WatermarkText(map[], DateTime(2022, 7, 4, 12, 0, 0)) == "2022-07-04"
  {
    NoMetadataNoDate();
    var day := DateTime(2022, 7, 4, 0, 0, 0);
    assert Valid(day);
    YearOfTwenties(2022);
    assert Pad(7, 2) == "07" && Pad(4, 2) == "04";
    assert Render(IsoDate, day) == "2022-07-04";
  }

  lemma OriginalDate()
    ensures DatePart(':', DateTime(2020, 1, 2, 10, 0, 0)) == "2020:01:02"
  {
    YearOfTwenties(2020);
    assert Pad(1, 2) == "01" && Pad(2, 2) == "02";
  }

  lemma OriginalTime()
    ensures TimePart(DateTime(2020, 1, 2, 10, 0, 0)) == "10:00:00"
  {
    assert Pad(10, 2) == "10" && Pad(0, 2) == "00";
  }

  /** `2020:01:02 10:00:00` is the first layout's rendering of that time. */
  lemma OriginalRendering()
    ensures Render(Formats[0], DateTime(2020, 1, 2, 10, 0, 0)) == "2020:01:02 10:00:00"
  {
    OriginalDate();
    OriginalTime();
    assert "2020:01:02" + " " + "10:00:00" == "2020:01:02 10:00:00";
  }

  /** Precedence: with `DateTimeOriginal` 2020-01-02 10:00:00 and `DateTime`
      2021-05-05, the stamp is `2020-01-02`. */
  lemma PrecedenceExample(mtime: DateTime)
    requires Valid(mtime)
    ensures WatermarkText(map["DateTimeOriginal" := "2020:01:02 10:00:00",
                              "DateTime" := "2021:05:05 00:00:00"], mtime) == "2020-01-02"
  {
    var d := DateTime(2020, 1, 2, 10, 0, 0);
    assert Valid(d);
    OriginalRendering();
    OriginalBeatsLaterTag(d, "2021:05:05 00:00:00", mtime);
    DayStampExample();
  }
}
