/** File naming: the download link of a day (`generate_download_links`), the
    local file name (`format_file_name`), and the date stem that
    `process_sheet` and `process_file` recover with `split('.')[0]`. */
module Naming {
  import opened Wrappers
  import opened Text
  import opened Calendar

  const BaseUrl := "https://www.anbima.com.br/informacoes/merc-sec-debentures/arqs/"

  /** `%b` in the C locale. */
  const MonthAbbreviations: seq<string> :=
    ["Jan", "Feb", "Mar", "Apr", "May", "Jun", "Jul", "Aug", "Sep", "Oct", "Nov", "Dec"]

  const LowerMonthAbbreviations: seq<string> :=
    ["jan", "feb", "mar", "apr", "may", "jun", "jul", "aug", "sep", "oct", "nov", "dec"]

  lemma LowerMonthAbbreviation(m: int)
    requires 1 <= m <= 12
    ensures |MonthAbbreviations| == 12
    ensures Lower(MonthAbbreviations[m - 1]) == LowerMonthAbbreviations[m - 1]
  {
    var a := MonthAbbreviations[m - 1];
    assert |a| == 3;
    assert Lower(a) == [LowerChar(a[0]), LowerChar(a[1]), LowerChar(a[2])];
  }

  /** `day.strftime('%y%b%d').lower()`. */
  function DayTag(d: Date): (tag: string)
    requires Valid(d)
    ensures |tag| == 7
  {
    Lower(Pad2(d.year % 100) + MonthAbbreviations[d.month - 1] + Pad2(d.day))
  }

  /** The link of one day: `f"{base_url}d{day_str}.xls"`. */
  function DownloadLink(d: Date): (link: string)
    requires Valid(d)
    ensures |link| == |BaseUrl| + 12
  {
    BaseUrl + "d" + DayTag(d) + ".xls"
  }

  /** `generate_download_links`: one link per day, in the order of the days. */
  method GenerateDownloadLinks(days: seq<Date>) returns (links: seq<string>)
    requires forall i :: 0 <= i < |days| ==> Valid(days[i])
    ensures |links| == |days|
    ensures forall i :: 0 <= i < |days| ==> links[i] == DownloadLink(days[i])
  {
    links := [];
    for i := 0 to |days|
      invariant |links| == i
      invariant forall j :: 0 <= j < i ==> links[j] == DownloadLink(days[j])
    {
      var dayTag := DayTag(days[i]);
      links := links + [BaseUrl + "d" + dayTag + ".xls"];
    }
  }

  /** `day.strftime('%Y%m%d')`. */
  function DateStamp(d: Date): string
    requires Valid(d)
  {
    Pad4(d.year) + Pad2(d.month) + Pad2(d.day)
  }

  /** `format_file_name`: `f"{day.strftime('%Y%m%d').lower()}.xls"`. */
  function FileName(d: Date): (name: string)
    requires Valid(d)
    ensures |name| == 12
  {
    Lower(DateStamp(d)) + ".xls"
  }

  /** Reads an eight-digit `yyyymmdd` stamp back as a date. */
  function ParseDateStamp(s: string): Option<Date>
  {
    if |s| == 8 && AllDigits(s) then
      var d := Date(DecimalValue(s[..4]), DecimalValue(s[4..6]), DecimalValue(s[6..]));
      if Valid(d) then Some(d) else None
    else
      None
  }

  /** The file name is eight digits and ".xls"; its stem before the first '.'
      is the date stamp, which reads back as the very day it names. */
  lemma FileNameStem(d: Date)
    requires Valid(d)
    ensures |DateStamp(d)| == 8 && AllDigits(DateStamp(d))
    ensures FileName(d) == DateStamp(d) + ".xls"
    ensures Stem(FileName(d), '.') == DateStamp(d)
    ensures ParseDateStamp(Stem(FileName(d), '.')) == Some(d)
  {
    var s := DateStamp(d);
    assert AllDigits(s) by {
      forall i | 0 <= i < 8 ensures IsDigit(s[i]) {
        if i < 4 {
          assert s[i] == Pad4(d.year)[i];
        } else if i < 6 {
          assert s[i] == Pad2(d.month)[i - 4];
        } else {
          assert s[i] == Pad2(d.day)[i - 6];
        }
      }
    }
    LowerOfNoUpper(s);
    StemOfSeparated(s, '.', "xls");
    assert s + ['.'] + "xls" == s + ".xls";
    assert s[..4] == Pad4(d.year);
    assert s[4..6] == Pad2(d.month);
    assert s[6..] == Pad2(d.day);
  }

  /** Different days get different file names, so no download overwrites another day's file. */
  lemma FileNameInjective(a: Date, b: Date)
    requires Valid(a) && Valid(b)
    requires FileName(a) == FileName(b)
    ensures a == b
  {
    FileNameStem(a);
    FileNameStem(b);
  }

  /** The position of a lower-case month abbreviation, counting January as 1. */
  function MonthNumber(s: string): (m: int)
    ensures 0 <= m <= 12
    ensures m > 0 ==> LowerMonthAbbreviations[m - 1] == s
  {
    if s == "jan" then 1 else if s == "feb" then 2 else if s == "mar" then 3
    else if s == "apr" then 4 else if s == "may" then 5 else if s == "jun" then 6
    else if s == "jul" then 7 else if s == "aug" then 8 else if s == "sep" then 9
    else if s == "oct" then 10 else if s == "nov" then 11 else if s == "dec" then 12
    else 0
  }

  datatype LinkDate = LinkDate(yearOfCentury: int, month: int, day: int)

  /** Reads a download link back into the `%y`, `%b` and `%d` fields it was built from. */
  function ParseDownloadLink(link: string): Option<LinkDate>
  {
    var head := BaseUrl + "d";
    if |link| == |head| + 11 && link[..|head|] == head && link[|head| + 7..] == ".xls" then
      var tag := link[|head|..|head| + 7];
      if AllDigits(tag[..2]) && AllDigits(tag[5..]) && MonthNumber(tag[2..5]) > 0 then
        Some(LinkDate(DecimalValue(tag[..2]), MonthNumber(tag[2..5]), DecimalValue(tag[5..])))
      else
        None
    else
      None
  }

  /** The day tag is the two-digit year, the lower-case month abbreviation and
      the two-digit day. */
  lemma DayTagParts(d: Date)
    requires Valid(d)
    ensures DayTag(d) == Pad2(d.year % 100) + LowerMonthAbbreviations[d.month - 1] + Pad2(d.day)
  {
    var yy, mon, dd := Pad2(d.year % 100), MonthAbbreviations[d.month - 1], Pad2(d.day);
    LowerConcat(yy + mon, dd);
    LowerConcat(yy, mon);
    LowerOfNoUpper(yy);
    LowerOfNoUpper(dd);
    LowerMonthAbbreviation(d.month);
  }

  lemma SplitThree(head: string, middle: string, tail: string)
    ensures var whole := head + middle + tail;
      && |whole| == |head| + |middle| + |tail|
      && whole[..|head|] == head
      && whole[|head|..|head| + |middle|] == middle
      && whole[|head| + |middle|..] == tail
  {
  }

  lemma MonthNumberOfAbbreviation(m: int)
    requires 1 <= m <= 12
    ensures MonthNumber(LowerMonthAbbreviations[m - 1]) == m
  {
  }

  /** A download link names its day up to the century: the link reads back as
      the two-digit year, month and day of the day it was built for. */
  lemma DownloadLinkRoundTrip(d: Date)
    requires Valid(d)
    ensures ParseDownloadLink(DownloadLink(d)) == Some(LinkDate(d.year % 100, d.month, d.day))
  {
    DayTagParts(d);
    var yy, mon, dd := Pad2(d.year % 100), LowerMonthAbbreviations[d.month - 1], Pad2(d.day);
    var tag := yy + mon + dd;
    SplitThree(yy, mon, dd);
    SplitThree(BaseUrl + "d", tag, ".xls");
    MonthNumberOfAbbreviation(d.month);
  }
}
