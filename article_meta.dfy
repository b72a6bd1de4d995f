/**
 * The line of metadata shown with an article: its creation date as
 * `year-month-day`, its reading time rounded up to whole minutes, and its
 * tags.
 */
module ArticleMeta {
  import Decimal
  import Seqs
  import Text
  import TagsView

  /** `Math.ceil`: the least integer not below `x`. */
  function Ceil(x: real): (c: int)
    ensures x <= c as real < x + 1.0
  {
    -((-x).Floor)
  }

  /** `formatReadingTime`: the rounded-up minutes, `minute` or `minutes`, and `read`. */
  function FormatReadingTime(readingTimeMin: real): string
  {
    var minutes := Ceil(readingTimeMin);
    Decimal.IntToString(minutes) + " minute" + (if minutes == 1 then "" else "s") + " read"
  }

  /**
   * The reading time reads, word by word, as the minutes rounded up, the unit
   * (singular exactly for one minute, so also plural for none), and `read`.
   */
  lemma ReadingTimeWords(readingTimeMin: real)
    ensures var minutes := Ceil(readingTimeMin);
      Text.Split(FormatReadingTime(readingTimeMin), ' ')
      == [Decimal.IntToString(minutes), if minutes == 1 then "minute" else "minutes", "read"]
  {
    var minutes := Ceil(readingTimeMin);
    var number := Decimal.IntToString(minutes);
    var unit := if minutes == 1 then "minute" else "minutes";
    Decimal.IntToStringSign(minutes);
    if minutes < 0 {
      Decimal.NoDigit(Decimal.NatToString(-minutes), ' ');
      assert number == "-" + Decimal.NatToString(-minutes);
    } else {
      Decimal.NoDigit(number, ' ');
    }
    assert FormatReadingTime(readingTimeMin) == number + " " + unit + " read";
    Words(number, unit);
  }

  /** A word and a unit, each without a space, followed by `read`, split back into the three words. */
  lemma Words(number: string, unit: string)
    requires ' ' !in number && ' ' !in unit
    ensures Text.Split(number + " " + unit + " read", ' ') == [number, unit, "read"]
  {
    var tail := unit + [' '] + "read";
    assert number + " " + unit + " read" == number + [' '] + tail;
    Text.SplitAfterPiece(number, ' ', tail);
    Text.SplitAfterPiece(unit, ' ', "read");
    Text.SplitWithoutSeparator("read", ' ');
  }

  /** For a non-negative reading time, the first word is the number of started minutes. */
  lemma ReadingTimeValue(readingTimeMin: real)
    requires readingTimeMin >= 0.0
    ensures var number := Text.Split(FormatReadingTime(readingTimeMin), ' ')[0];
      Decimal.IsCanonical(number) && Decimal.Value(number) == Ceil(readingTimeMin)
      && Decimal.Value(number) as real - 1.0 < readingTimeMin <= Decimal.Value(number) as real
  {
    ReadingTimeWords(readingTimeMin);
    Decimal.IntToStringSign(Ceil(readingTimeMin));
  }

  /** `padStart(targetLength, [fill])`: `fill` repeated in front of `s` up to `targetLength` characters. */
  function PadStart(s: string, targetLength: nat, fill: char): (r: string)
    ensures |r| == if |s| < targetLength then targetLength else |s|
    ensures r[|r| - |s|..] == s
    ensures forall i :: 0 <= i < |r| - |s| ==> r[i] == fill
  {
    if |s| < targetLength then Seqs.Repeat(fill, targetLength - |s|) + s else s
  }

  /** `padDateElement`: the decimal digits of `value`, padded with `0` to two. */
  function PadDateElement(value: nat): (r: string)
    ensures Decimal.IsDigits(r) && |r| >= 2
    ensures Decimal.Value(r) == value
    ensures value < 10 ==> r == ['0', Decimal.DigitChar(value)]
    ensures value >= 10 ==> r == Decimal.NatToString(value)
  {
    PaddedDigits(value);
    PadStart(Decimal.NatToString(value), 2, '0')
  }

  /** A single digit gets one leading zero; two or more digits stay as they are. */
  lemma PaddedDigits(value: nat)
    ensures var digits, r := Decimal.NatToString(value), PadStart(Decimal.NatToString(value), 2, '0');
      && Decimal.IsDigits(r) && |r| >= 2 && Decimal.Value(r) == value
      && (value < 10 ==> r == ['0', Decimal.DigitChar(value)])
      && (value >= 10 ==> r == digits)
  {
    var digits := Decimal.NatToString(value);
    var r := PadStart(digits, 2, '0');
    Decimal.ValueOfNatToString(value);
    if value < 10 {
      assert digits == [Decimal.DigitChar(value)];
      assert r == ['0', Decimal.DigitChar(value)];
      assert r[..1] == "0";
    } else {
      assert digits == Decimal.NatToString(value / 10) + [Decimal.DigitChar(value % 10)];
    }
  }

  /** `formatDateString`, given the date's full year, month index (from 0) and day of the month. */
  function FormatDateString(year: int, monthIndex: nat, day: nat): string
  {
    Decimal.IntToString(year) + "-" + PadDateElement(monthIndex + 1) + "-" + PadDateElement(day)
  }

  /**
   * For a year of the common era, the date reads back, part by part, as the
   * year, the month counted from one and the day, the last two in at least
   * two digits.
   */
  lemma DateRoundTrip(year: int, monthIndex: nat, day: nat)
    requires year >= 0
    ensures var parts := Text.Split(FormatDateString(year, monthIndex, day), '-');
      |parts| == 3
      && Decimal.IsDigits(parts[0]) && Decimal.IsDigits(parts[1]) && Decimal.IsDigits(parts[2])
      && Decimal.Value(parts[0]) == year
      && Decimal.Value(parts[1]) == monthIndex + 1 && |parts[1]| >= 2
      && Decimal.Value(parts[2]) == day && |parts[2]| >= 2
  {
    var y, m, d := Decimal.IntToString(year), PadDateElement(monthIndex + 1), PadDateElement(day);
    Decimal.IntToStringSign(year);
    DateSplit(year, monthIndex, day);
    var parts := Text.Split(FormatDateString(year, monthIndex, day), '-');
    assert parts[0] == y && parts[1] == m && parts[2] == d;
    assert Decimal.Value(y) == year && Decimal.Value(m) == monthIndex + 1 && Decimal.Value(d) == day;
    assert Decimal.IsDigits(y) && Decimal.IsDigits(m) && Decimal.IsDigits(d);
  }

  /**
   * The date splits on `-` into its rendered parts: the year, the month and the
   * day; a negative year's minus sign splits off an empty first part.
   */
  lemma DateSplit(year: int, monthIndex: nat, day: nat)
    ensures Text.Split(FormatDateString(year, monthIndex, day), '-')
         == if year >= 0 then [Decimal.IntToString(year), PadDateElement(monthIndex + 1), PadDateElement(day)]
            else ["", Decimal.NatToString(-year), PadDateElement(monthIndex + 1), PadDateElement(day)]
  {
    var m, d := PadDateElement(monthIndex + 1), PadDateElement(day);
    if year >= 0 {
      Decimal.IntToStringSign(year);
      DateParts(Decimal.IntToString(year), m, d);
    } else {
      NegativeYear(year, m, d);
    }
  }

  /** A negative year's rendering is a minus sign before the digits of its magnitude. */
  lemma NegativeYear(year: int, m: string, d: string)
    requires year < 0 && Decimal.IsDigits(m) && Decimal.IsDigits(d)
    ensures Text.Split(Decimal.IntToString(year) + "-" + m + "-" + d, '-')
         == ["", Decimal.NatToString(-year), m, d]
  {
    var n := Decimal.NatToString(-year);
    assert Decimal.IntToString(year) + "-" + m + "-" + d == "-" + (n + "-" + m + "-" + d);
    SignedDateParts(n, m, d);
  }

  /** A minus sign before three digit strings joined by `-` splits off an empty part. */
  lemma SignedDateParts(n: string, m: string, d: string)
    requires Decimal.IsDigits(n) && Decimal.IsDigits(m) && Decimal.IsDigits(d)
    ensures Text.Split("-" + (n + "-" + m + "-" + d), '-') == ["", n, m, d]
  {
    DateParts(n, m, d);
    var tail := n + "-" + m + "-" + d;
    assert "-" + tail == [] + ['-'] + tail;
    Text.SplitAfterPiece([], '-', tail);
  }

  /** Three digit strings joined by `-` split back into themselves. */
  lemma DateParts(y: string, m: string, d: string)
    requires Decimal.IsDigits(y) && Decimal.IsDigits(m) && Decimal.IsDigits(d)
    ensures Text.Split(y + "-" + m + "-" + d, '-') == [y, m, d]
  {
    Decimal.NoDigit(y, '-');
    Decimal.NoDigit(m, '-');
    Decimal.NoDigit(d, '-');
    var tail := m + ['-'] + d;
    assert y + "-" + m + "-" + d == y + ['-'] + tail;
    Text.SplitAfterPiece(y, '-', tail);
    Text.SplitAfterPiece(m, '-', d);
    Text.SplitWithoutSeparator(d, '-');
  }

  /** What `ArticleMeta` shows, item by item. */
  datatype ArticleMetaItems = ArticleMetaItems(date: string, readingTime: string, tags: seq<TagsView.TagElement>)

  /** `ArticleMeta`: the formatted date, the formatted reading time and the tag list, in that order. */
  function ArticleMeta(year: int, monthIndex: nat, day: nat, readingTimeMin: real, tagNames: seq<string>)
    : (items: ArticleMetaItems)
    ensures items.date == FormatDateString(year, monthIndex, day)
    ensures items.readingTime == FormatReadingTime(readingTimeMin)
    ensures TagsView.LinkedNames(items.tags) == tagNames
  {
    TagsView.TagsRoundTrip(tagNames);
    ArticleMetaItems(FormatDateString(year, monthIndex, day), FormatReadingTime(readingTimeMin), TagsView.Tags(tagNames))
  }
}
