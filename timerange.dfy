/**
 * `parse_time_expression`: the date range a question asks about, rendered as
 * `%Y-%m-%d` texts. The current date and the natural-language date parser
 * are inputs: `now` stands for `datetime.now()` and `parsed` for what
 * `dateparser.parse` makes of the whole question.
 */
module TimeRange {
  import opened Wrappers
  import opened Text
  import opened Calendar

  /** The first day of the month before the month of `now`. */
  function PreviousMonthStart(now: Date): (r: Date)
    requires Valid(now) && now.year >= 2
    ensures Valid(r) && r.day == 1
    ensures now.month == 1 ==> r.year == now.year - 1 && r.month == 12
    ensures now.month > 1 ==> r.year == now.year && r.month == now.month - 1
  {
    var last := PrevDay(Date(now.year, now.month, 1));
    Date(last.year, last.month, 1)
  }

  /**
   * The range as dates: the last seven days, the previous calendar month to
   * today, the whole previous year, or the single parsed day; `None` when
   * nothing in the question is a date. The phrases are checked in that order.
   */
  function DateRange(query: string, now: Date, parsed: Option<Date>): (r: Option<(Date, Date)>)
    requires Valid(now) && now.year >= 2
    requires parsed.Some? ==> Valid(parsed.value)
  {
    if Contains(query, "last week") then
      OrdinalAtLeastDayOfYear(now);
      Some((SubDays(now, 7), now))
    else if Contains(query, "last month") then
      Some((PreviousMonthStart(now), now))
    else if Contains(query, "last year") then
      Some((Date(now.year - 1, 1, 1), Date(now.year - 1, 12, 31)))
    else if parsed.Some? then
      Some((parsed.value, parsed.value))
    else
      None
  }

  /** Every range is made of real dates and never ends before it starts. */
  lemma DateRangeOrdered(query: string, now: Date, parsed: Option<Date>)
    requires Valid(now) && now.year >= 2
    requires parsed.Some? ==> Valid(parsed.value)
    ensures var r := DateRange(query, now, parsed);
            r.Some? ==> Valid(r.value.0) && Valid(r.value.1) && Ordinal(r.value.0) <= Ordinal(r.value.1)
  {
    var r := DateRange(query, now, parsed);
    if r.Some? {
      var (s, e) := r.value;
      if !Contains(query, "last week") && Contains(query, "last month") {
        var first := Date(now.year, now.month, 1);
        assert Ordinal(PrevDay(first)) < Ordinal(first);
        OrdinalAtLeastDayOfYear(PrevDay(first));
        assert Ordinal(first) <= Ordinal(now);
      } else if !Contains(query, "last week") && !Contains(query, "last month") && Contains(query, "last year") {
        assert Before(s, e) && s != e;
        OrdinalStrict(s, e);
      }
    }
  }

  /** A question about last week covers the seven days up to today. */
  lemma LastWeekRange(query: string, now: Date, parsed: Option<Date>)
    requires Valid(now) && now.year >= 2
    requires parsed.Some? ==> Valid(parsed.value)
    requires Contains(query, "last week")
    ensures var r := DateRange(query, now, parsed);
            r.Some? && r.value.1 == now && Ordinal(r.value.0) == Ordinal(now) - 7
  {
  }

  /** A question about last month starts on the first day of the previous month and ends today. */
  lemma LastMonthRange(query: string, now: Date, parsed: Option<Date>)
    requires Valid(now) && now.year >= 2
    requires parsed.Some? ==> Valid(parsed.value)
    requires !Contains(query, "last week") && Contains(query, "last month")
    ensures var r := DateRange(query, now, parsed);
            r.Some? && r.value.1 == now
            && r.value.0 == (if now.month == 1 then Date(now.year - 1, 12, 1) else Date(now.year, now.month - 1, 1))
  {
    var start := PreviousMonthStart(now);
    assert DateRange(query, now, parsed) == Some((start, now));
  }

  /** A question about last year covers the previous calendar year from 1 January to 31 December. */
  lemma LastYearRange(query: string, now: Date, parsed: Option<Date>)
    requires Valid(now) && now.year >= 2
    requires parsed.Some? ==> Valid(parsed.value)
    requires !Contains(query, "last week") && !Contains(query, "last month") && Contains(query, "last year")
    ensures DateRange(query, now, parsed) == Some((Date(now.year - 1, 1, 1), Date(now.year - 1, 12, 31)))
  {
  }

  /** Without a relative phrase the parsed date is both ends, and no date means no range. */
  lemma ParsedDayRange(query: string, now: Date, parsed: Option<Date>)
    requires Valid(now) && now.year >= 2
    requires parsed.Some? ==> Valid(parsed.value)
    requires !Contains(query, "last week") && !Contains(query, "last month") && !Contains(query, "last year")
    ensures DateRange(query, now, parsed) == (if parsed.Some? then Some((parsed.value, parsed.value)) else None)
  {
  }

  /** `parse_time_expression`: the `(start_date, end_date)` pair as `%Y-%m-%d` texts. */
  function ParseTimeExpression(query: string, now: Date, parsed: Option<Date>): (r: (Option<string>, Option<string>))
    requires Valid(now) && now.year >= 2
    requires parsed.Some? ==> Valid(parsed.value)
    ensures r.0.Some? <==> r.1.Some?
    ensures r.0.Some? ==> IsoParse(r.0.value).Some? && IsoParse(r.1.value).Some?
  {
    DateRangeOrdered(query, now, parsed);
    match DateRange(query, now, parsed)
    case None => (None, None)
    case Some((s, e)) =>
      IsoRoundTrip(s);
      IsoRoundTrip(e);
      (Some(IsoFormat(s)), Some(IsoFormat(e)))
  }

  /** The texts read back as the range's dates: start no later than end. */
  lemma ParseTimeExpressionOrdered(query: string, now: Date, parsed: Option<Date>)
    requires Valid(now) && now.year >= 2
    requires parsed.Some? ==> Valid(parsed.value)
    ensures var r := ParseTimeExpression(query, now, parsed);
            r.0.Some? ==>
              var s := IsoParse(r.0.value).value;
              var e := IsoParse(r.1.value).value;
              Some((s, e)) == DateRange(query, now, parsed) && Ordinal(s) <= Ordinal(e)
  {
    DateRangeOrdered(query, now, parsed);
    var r := DateRange(query, now, parsed);
    if r.Some? {
      IsoRoundTrip(r.value.0);
      IsoRoundTrip(r.value.1);
    }
  }
}
