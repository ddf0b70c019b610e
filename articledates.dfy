/**
 * The publication-date normalisations of the article passes: each turns the
 * date text found in a page's meta tags into the `YYYY-MM-DD` form, or into
 * that pass's placeholder when the text does not parse.
 */
module ArticleDates {
  import opened Wrappers
  import opened Calendar
  import opened Strptime
  import opened Text

  /** The placeholder several passes store for an unknown date. */
  const Placeholder := "2001/01/01"

  /** The "not available" marker used throughout the article tables. */
  const NotAvailable := "N/A"

  /** A stored date text: an ISO calendar date read back by `IsoParse`. */
  predicate IsIsoDate(s: string)
  {
    IsoParse(s).Some?
  }

  /** `convert_date_format` of the infectious-disease pass: `%B %d, %Y` or the placeholder. */
  function ConvertDateFormat(s: string): (r: string)
    ensures r == Placeholder || IsIsoDate(r)
    ensures ParseLongDate(s).Some? ==> r == IsoFormat(ParseLongDate(s).value)
    ensures ParseLongDate(s).None? ==> r == Placeholder
  {
    match ParseLongDate(s)
    case Some(d) => IsoRoundTrip(d); IsoFormat(d)
    case None => Placeholder
  }

  /**
   * `parse_publication_date` of the allergy pass: `%B %Y`, then `%B %d, %Y`,
   * then `%b %y`, the first that parses giving the ISO date, else the placeholder.
   */
  function ParsePublicationDate(s: string): (r: string)
    ensures r == Placeholder || IsIsoDate(r)
  {
    if ParseMonthYear(s).Some? then IsoRoundTrip(ParseMonthYear(s).value); IsoFormat(ParseMonthYear(s).value)
    else if ParseLongDate(s).Some? then IsoRoundTrip(ParseLongDate(s).value); IsoFormat(ParseLongDate(s).value)
    else if ParseAbbrMonthYear(s).Some? then IsoRoundTrip(ParseAbbrMonthYear(s).value); IsoFormat(ParseAbbrMonthYear(s).value)
    else Placeholder
  }

  /**
   * The date chain of `crawl_article_clinical_ortho` and `crawl_article_jortho`:
   * the meta value (the placeholder when the tag is absent) is tried as
   * `%B %d, %Y`, then as `%B %Y` with day 01; anything else, the placeholder
   * included, is stored as "N/A".
   */
  function MonthFallbackDate(meta: Option<string>): (r: string)
    ensures r == NotAvailable || IsIsoDate(r)
  {
    var raw := meta.GetOr(Placeholder);
    if raw == "" || raw == NotAvailable then NotAvailable
    else if ParseLongDate(raw).Some? then
      IsoRoundTrip(ParseLongDate(raw).value);
      IsoFormat(ParseLongDate(raw).value)
    else if ParseMonthYear(raw).Some? then
      var d := ParseMonthYear(raw).value;
      IsoMonthIsFirstDay(d);
      IsoRoundTrip(Date(d.year, d.month, 1));
      IsoMonthFormat(d)
    else NotAvailable
  }

  /** The date of `crawl_article_jasn`: `%B %d, %Y` or "N/A", the placeholder included. */
  function JasnDate(meta: Option<string>): (r: string)
    ensures r == NotAvailable || IsIsoDate(r)
  {
    var raw := meta.GetOr(Placeholder);
    if raw != NotAvailable && ParseLongDate(raw).Some? then
      IsoRoundTrip(ParseLongDate(raw).value);
      IsoFormat(ParseLongDate(raw).value)
    else NotAvailable
  }

  /**
   * The date of `crawl_article_jbjs`: `%B %d, %Y` of the meta value with no
   * fallback; `None` is the `ValueError` that abandons the link.
   */
  function JbjsDate(meta: Option<string>): (r: Option<string>)
    ensures r.Some? ==> IsIsoDate(r.value)
  {
    var raw := meta.GetOr(NotAvailable);
    match ParseLongDate(raw)
    case Some(d) => IsoRoundTrip(d); Some(IsoFormat(d))
    case None => None
  }

  // ---------------------------------------------------------------------
  // What each chain does with the texts it is written for.

  /** "%B %d, %Y" is not mistaken for "%B %Y": a long date is not four digits after the month. */
  lemma LongFormNotMonthYear(d: Date)
    requires Valid(d)
    ensures ParseMonthYear(LongForm(d)) == None
  {
    var dd, yyyy := NatToString(d.day as nat), Pad(d.year as nat, 4);
    var rest := " " + (dd + (", " + yyyy));
    assert MatchMonth(LongForm(d), MonthNames) == Some((d.month, rest)) by {
      MonthNameFound(MonthNames[d.month - 1], rest, MonthNames, d.month);
    }
    assert SkipSpaces(rest) == dd + (", " + yyyy) by { SkipOneBlank(dd + (", " + yyyy)); }
  }

  /** "%B %Y" is not mistaken for "%B %d, %Y": there is no comma. */
  lemma MonthYearNotLongForm(d: Date)
    requires Valid(d)
    ensures ParseLongDate(MonthYearForm(d)) == None
  {
    var yyyy := Pad(d.year as nat, 4);
    assert MatchMonth(MonthYearForm(d), MonthNames) == Some((d.month, " " + yyyy)) by {
      MonthNameFound(MonthNames[d.month - 1], " " + yyyy, MonthNames, d.month);
    }
    assert SkipSpaces(" " + yyyy) == yyyy by { SkipOneBlank(yyyy); }
    assert DigitPrefix(yyyy) == 4 by { DigitPrefixOf(yyyy, ""); assert yyyy + "" == yyyy; }
  }

  /** A full date becomes its ISO form; anything `%B %d, %Y` rejects becomes the placeholder. */
  lemma ConvertDateFormatCases(d: Date)
    requires Valid(d)
    ensures ConvertDateFormat(LongForm(d)) == IsoFormat(d)
    ensures ConvertDateFormat(MonthYearForm(d)) == Placeholder
    ensures ConvertDateFormat(Placeholder) == Placeholder && ConvertDateFormat(NotAvailable) == Placeholder
  {
    LongDateRoundTrip(d);
    MonthYearNotLongForm(d);
    PlaceholdersRejected();
  }

  /**
   * The allergy chain tries `%B %Y` first: a month and year gives day 01, a
   * full date its own day, the placeholder stays the placeholder.
   */
  lemma PublicationDateCases(d: Date)
    requires Valid(d)
    ensures ParsePublicationDate(MonthYearForm(d)) == IsoFormat(Date(d.year, d.month, 1))
    ensures ParsePublicationDate(LongForm(d)) == IsoFormat(d)
    ensures ParsePublicationDate(Placeholder) == Placeholder
  {
    MonthYearRoundTrip(d);
    LongFormNotMonthYear(d);
    LongDateRoundTrip(d);
    PlaceholdersRejected();
  }

  /** "Mar 24" is too short for either four-digit-year format. */
  lemma AbbrFormOnlyAbbr(d: Date)
    requires Valid(d)
    ensures ParseMonthYear(AbbrForm(d)) == None && ParseLongDate(AbbrForm(d)) == None
  {
    var s := AbbrForm(d);
    assert |s| == 6;
    var r := MatchMonth(s, MonthNames);
    if r.Some? {
      KeysOf(MonthNames, r.value.0 - 1);
      assert |r.value.1| <= 3;
    }
  }

  /** The allergy chain reads a `%b %y` month of its pivot's century as day 01 of it. */
  lemma PublicationDateAbbr(d: Date)
    requires Valid(d) && 1969 <= d.year <= 2068
    ensures ParsePublicationDate(AbbrForm(d)) == IsoFormat(Date(d.year, d.month, 1))
  {
    AbbrFormOnlyAbbr(d);
    AbbrRoundTrip(d);
  }

  /** The orthopaedics chain: a full date keeps its day, a month and year gets day 01. */
  lemma MonthFallbackCases(d: Date)
    requires Valid(d)
    ensures MonthFallbackDate(Some(LongForm(d))) == IsoFormat(d)
    ensures MonthFallbackDate(Some(MonthYearForm(d))) == IsoFormat(Date(d.year, d.month, 1))
  {
    assert MonthFallbackDate(Some(LongForm(d))) == IsoFormat(d) by { LongDateRoundTrip(d); }
    MonthYearNotLongForm(d);
    MonthYearRoundTrip(d);
    IsoMonthIsFirstDay(Date(d.year, d.month, 1));
  }

  /** The orthopaedics chain stores "N/A" for a missing tag (the placeholder), an empty text or "N/A". */
  lemma MonthFallbackPlaceholders()
    ensures MonthFallbackDate(None) == NotAvailable
    ensures MonthFallbackDate(Some("")) == NotAvailable && MonthFallbackDate(Some(NotAvailable)) == NotAvailable
  {
    PlaceholdersRejected();
  }

  /** JASN: a missing date becomes the placeholder, which fails `%B %d, %Y` and is stored as "N/A". */
  lemma JasnDateCases(d: Date)
    requires Valid(d)
    ensures JasnDate(None) == NotAvailable
    ensures JasnDate(Some(LongForm(d))) == IsoFormat(d)
    ensures JasnDate(Some(MonthYearForm(d))) == NotAvailable
  {
    PlaceholdersRejected();
    LongDateRoundTrip(d);
    MonthYearNotLongForm(d);
  }

  /** JBJS: a full date is stored; a missing tag reaches `strptime` as "N/A" and the link fails. */
  lemma JbjsDateCases(d: Date)
    requires Valid(d)
    ensures JbjsDate(Some(LongForm(d))) == Some(IsoFormat(d))
    ensures JbjsDate(None) == None
  {
    LongDateRoundTrip(d);
    PlaceholdersRejected();
  }
}
