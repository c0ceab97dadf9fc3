/**
 Publication-date and bulletin file-name helpers (`iso_pubblication_date`,
 `xml_filename`).
 */
module Dates {
  import opened Wrappers
  import opened Strings

  const FilePrefix := "avcp_contracts_"
  const ClosedSuffix := ".xml"
  const OpenSuffix := "_open.xml"

  /**
   `str(year) + separator + '%02d' % month`. For a month in 1..12 the result
   is the year's decimal text, the separator, then exactly two digits that
   spell the month.
   */
  function IsoPublicationDate(year: int, month: int, separator: string): (d: string)
    ensures 1 <= month <= 12 ==>
      var y := IntToString(year);
      && |d| == |y| + |separator| + 2
      && d[..|y|] == y
      && d[|y|..|y| + |separator|] == separator
      && AllDigits(d[|d| - 2..])
      && DigitsValue(d[|d| - 2..]) == month
  {
    var y := IntToString(year);
    var d := y + separator + Pad2(month);
    assert d[..|y|] == y;
    assert d[|y|..|y| + |separator|] == separator;
    assert 1 <= month <= 12 ==> d[|d| - 2..] == Pad2(month);
    d
  }

  /**
   Reads a date back: the last two characters are the month, the
   `separatorLength` characters before them the separator, the rest the year.
   */
  function ParseIsoDate(d: string, separatorLength: nat): Option<(int, int)> {
    if |d| < separatorLength + 3 then None
    else
      var yearText := d[..|d| - 2 - separatorLength];
      var monthText := d[|d| - 2..];
      if IsIntText(yearText) && AllDigits(monthText) then
        Some((ParseInt(yearText), DigitsValue(monthText)))
      else None
  }

  lemma IsoDateRoundTrip(year: int, month: int, separator: string)
    requires 1 <= month <= 12
    ensures ParseIsoDate(IsoPublicationDate(year, month, separator), |separator|) == Some((year, month))
  {
    var d := IsoPublicationDate(year, month, separator);
    var y := IntToString(year);
    assert d[..|d| - 2 - |separator|] == y;
    IntToStringRoundTrip(year);
  }

  /** Name of the bulletin file for one (year, month), closed or open tenders. */
  function XmlFilename(year: int, month: int, closed: bool): (f: string)
    ensures |FilePrefix| < |f| && f[..|FilePrefix|] == FilePrefix
    ensures closed ==> f[..|f| - |ClosedSuffix|] == FilePrefix + IsoPublicationDate(year, month, "_")
    ensures closed ==> f[|f| - |ClosedSuffix|..] == ClosedSuffix
    ensures !closed ==> f[..|f| - |OpenSuffix|] == FilePrefix + IsoPublicationDate(year, month, "_")
    ensures !closed ==> f[|f| - |OpenSuffix|..] == OpenSuffix
  {
    var date := IsoPublicationDate(year, month, "_");
    var f := if closed then FilePrefix + date + ClosedSuffix else FilePrefix + date + OpenSuffix;
    assert f[..|FilePrefix|] == FilePrefix;
    f
  }

  /** A closed file has the last month digit right before ".xml"; an open one has 'n' there. */
  lemma ClosedDiffersFromOpen(y1: int, m1: int, y2: int, m2: int)
    requires 1 <= m1 <= 12
    ensures XmlFilename(y1, m1, true) != XmlFilename(y2, m2, false)
  {
    ClosedDigitBeforeSuffix(y1, m1);
    OpenLetterBeforeSuffix(y2, m2);
  }

  lemma OpenLetterBeforeSuffix(year: int, month: int)
    ensures |XmlFilename(year, month, false)| >= 9
    ensures XmlFilename(year, month, false)[|XmlFilename(year, month, false)| - 5] == 'n'
  {
    var open := XmlFilename(year, month, false);
    assert open[|open| - 5] == OpenSuffix[4];
  }

  lemma ClosedDigitBeforeSuffix(year: int, month: int)
    requires 1 <= month <= 12
    ensures |XmlFilename(year, month, true)| >= 5
    ensures IsDigit(XmlFilename(year, month, true)[|XmlFilename(year, month, true)| - 5])
  {
    var closed := XmlFilename(year, month, true);
    var date := IsoPublicationDate(year, month, "_");
    var front := FilePrefix + date;
    assert closed[..|closed| - 4] == front;
    assert closed[|closed| - 5] == front[|front| - 1] == date[|date| - 1];
    assert date[|date| - 1] == date[|date| - 2..][1];
  }

  /** Distinct (year, month, closed) triples name distinct files. */
  lemma XmlFilenameInjective(y1: int, m1: int, c1: bool, y2: int, m2: int, c2: bool)
    requires 1 <= m1 <= 12 && 1 <= m2 <= 12
    requires XmlFilename(y1, m1, c1) == XmlFilename(y2, m2, c2)
    ensures y1 == y2 && m1 == m2 && c1 == c2
  {
    var f := XmlFilename(y1, m1, c1);
    var d1 := IsoPublicationDate(y1, m1, "_");
    var d2 := IsoPublicationDate(y2, m2, "_");
    if c1 != c2 {
      if c1 {
        ClosedDiffersFromOpen(y1, m1, y2, m2);
      } else {
        ClosedDiffersFromOpen(y2, m2, y1, m1);
      }
      assert false;
    }
    var n := if c1 then |ClosedSuffix| else |OpenSuffix|;
    assert FilePrefix + d1 == f[..|f| - n] == FilePrefix + d2;
    assert d1 == (FilePrefix + d1)[|FilePrefix|..];
    assert d2 == (FilePrefix + d2)[|FilePrefix|..];
    IsoDateRoundTrip(y1, m1, "_");
    IsoDateRoundTrip(y2, m2, "_");
  }
}
