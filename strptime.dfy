/**
 * The three `datetime.strptime` formats the article passes use, for the C
 * locale's English month names. As in CPython's `_strptime`, month names
 * match without regard to case, a blank in the format matches one or more
 * whitespace characters, `%d` is one or two digits between 1 and 31, `%Y`
 * exactly four digits, `%y` exactly two, the whole text must be consumed,
 * and a day past the end of its month is a `ValueError` (here `None`).
 */
module Strptime {
  import opened Wrappers
  import opened Text
  import opened Calendar

  const MonthNames: seq<string> := ["January", "February", "March", "April", "May", "June",
    "July", "August", "September", "October", "November", "December"]

  const MonthAbbrs: seq<string> := ["Jan", "Feb", "Mar", "Apr", "May", "Jun",
    "Jul", "Aug", "Sep", "Oct", "Nov", "Dec"]

  /** `s` begins with `name`, ignoring case. */
  predicate NameAt(s: string, name: string)
  {
    |name| <= |s| && Lower(s[..|name|]) == Lower(name)
  }

  /** The first three letters of a month name, lower-cased: they tell the twelve apart. */
  const LowerKeys: seq<string> := ["jan", "feb", "mar", "apr", "may", "jun",
    "jul", "aug", "sep", "oct", "nov", "dec"]

  /** The month whose name starts with the lower-cased three letters `k`, or 0. */
  function MonthOfKey(k: string): (m: int)
    ensures 0 <= m <= 12
    ensures m != 0 ==> LowerKeys[m - 1] == k
  {
    if k == "jan" then 1 else if k == "feb" then 2 else if k == "mar" then 3
    else if k == "apr" then 4 else if k == "may" then 5 else if k == "jun" then 6
    else if k == "jul" then 7 else if k == "aug" then 8 else if k == "sep" then 9
    else if k == "oct" then 10 else if k == "nov" then 11 else if k == "dec" then 12
    else 0
  }

  /**
   * The month name (from `names`) that `s` begins with, ignoring case, and the
   * text after it: the alternation CPython builds for `%B` or `%b`. At most one
   * name can match, since the first three letters already differ.
   */
  function MatchMonth(s: string, names: seq<string>): (r: Option<(int, string)>)
    requires names == MonthNames || names == MonthAbbrs
    ensures r.Some? ==> 1 <= r.value.0 <= 12 && NameAt(s, names[r.value.0 - 1])
                        && r.value.1 == s[|names[r.value.0 - 1]|..]
    ensures r.None? ==> forall j :: 0 <= j < 12 ==> !NameAt(s, names[j])
  {
    if |s| < 3 then None
    else
      var m := MonthOfKey(Lower(s[..3]));
      if m != 0 && NameAt(s, names[m - 1]) then Some((m, s[|names[m - 1]|..]))
      else
        assert forall j :: 0 <= j < 12 ==> !NameAt(s, names[j]) by {
          forall j | 0 <= j < 12 ensures !NameAt(s, names[j]) {
            if NameAt(s, names[j]) { KeyDeterminesMonth(s, names, j); }
          }
        }
        None
  }

  /** A text that begins with a month name has that name's key. */
  lemma KeyDeterminesMonth(s: string, names: seq<string>, j: int)
    requires names == MonthNames || names == MonthAbbrs
    requires 0 <= j < 12 && NameAt(s, names[j])
    ensures |s| >= 3 && MonthOfKey(Lower(s[..3])) == j + 1
  {
    var n := |names[j]|;
    KeysOf(names, j);
    assert Lower(s[..3]) == Lower(s[..n])[..3];
    assert Lower(names[j])[..3] == LowerKeys[j];
  }

  lemma KeysOf(names: seq<string>, j: int)
    requires names == MonthNames || names == MonthAbbrs
    requires 0 <= j < 12
    ensures |names[j]| >= 3 && Lower(names[j])[..3] == LowerKeys[j] && MonthOfKey(LowerKeys[j]) == j + 1
  {
    if names == MonthNames { FullKeyOf(j); } else { AbbrKeyOf(j); }
  }

  lemma FullKeyOf(j: int)
    requires 0 <= j < 12
    ensures |MonthNames[j]| >= 3 && Lower(MonthNames[j])[..3] == LowerKeys[j] && MonthOfKey(LowerKeys[j]) == j + 1
  {
  }

  lemma AbbrKeyOf(j: int)
    requires 0 <= j < 12
    ensures |MonthAbbrs[j]| == 3 && Lower(MonthAbbrs[j]) == LowerKeys[j] && MonthOfKey(LowerKeys[j]) == j + 1
  {
  }

  /** `s` without its leading whitespace. */
  function SkipSpaces(s: string): (r: string)
    ensures |r| <= |s|
  {
    if |s| > 0 && IsSpace(s[0]) then SkipSpaces(s[1..]) else s
  }

  /** The number of digits `s` begins with. */
  function DigitPrefix(s: string): (n: nat)
    ensures n <= |s| && AllDigits(s[..n])
    ensures n < |s| ==> !IsDigit(s[n])
  {
    if |s| > 0 && IsDigit(s[0]) then 1 + DigitPrefix(s[1..]) else 0
  }

  /** A date that `datetime` accepts, or the `ValueError` as `None`. */
  function Checked(d: Date): (r: Option<Date>)
    ensures r.Some? <==> Valid(d)
    ensures r.Some? ==> r.value == d
  {
    if Valid(d) then Some(d) else None
  }

  /** Exactly `n` digits. */
  predicate Numeral(s: string, n: nat)
  {
    |s| == n && AllDigits(s)
  }

  /** `strptime(s, "%B %d, %Y")`. */
  function ParseLongDate(s: string): (r: Option<Date>)
    ensures r.Some? ==> Valid(r.value)
  {
    match MatchMonth(s, MonthNames)
    case None => None
    case Some((m, rest)) => DayCommaYear(rest, m)
  }

  /** The ` %d, %Y` that follows the month name. */
  function DayCommaYear(t: string, m: int): (r: Option<Date>)
    ensures r.Some? ==> Valid(r.value)
  {
    var t1 := SkipSpaces(t);
    var n := DigitPrefix(t1);
    if |t1| == |t| || n < 1 || n > 2 || n == |t1| || t1[n] != ',' then None
    else
      var t2 := t1[n + 1..];
      var t3 := SkipSpaces(t2);
      if |t3| == |t2| || !Numeral(t3, 4) then None
      else Checked(Date(NatOf(t3), m, NatOf(t1[..n])))
  }

  /** `strptime(s, "%B %Y")`: the first day of that month. */
  function ParseMonthYear(s: string): (r: Option<Date>)
    ensures r.Some? ==> Valid(r.value) && r.value.day == 1
  {
    match MatchMonth(s, MonthNames)
    case None => None
    case Some((m, rest)) =>
      var t := SkipSpaces(rest);
      if |t| == |rest| || !Numeral(t, 4) then None
      else Checked(Date(NatOf(t), m, 1))
  }

  /** The `%y` pivot: 69-99 are 1969-1999, 00-68 are 2000-2068. */
  function CenturyOf(yy: nat): (y: nat)
    requires yy < 100
    ensures 1969 <= y <= 2068 && y % 100 == yy
  {
    if yy <= 68 then 2000 + yy else 1900 + yy
  }

  /** `strptime(s, "%b %y")`: the first day of that month. */
  function ParseAbbrMonthYear(s: string): (r: Option<Date>)
    ensures r.Some? ==> Valid(r.value) && r.value.day == 1 && 1969 <= r.value.year <= 2068
  {
    match MatchMonth(s, MonthAbbrs)
    case None => None
    case Some((m, rest)) =>
      var t := SkipSpaces(rest);
      if |t| == |rest| || !Numeral(t, 2) then None
      else
        TwoDigitBound(t);
        Checked(Date(CenturyOf(NatOf(t)), m, 1))
  }

  lemma TwoDigitBound(s: string)
    requires Numeral(s, 2)
    ensures NatOf(s) < 100
  {
    assert NatOf(s[..1]) == DigitValue(s[0]) by {
      assert s[..1][..0] == [];
    }
  }

  // ---------------------------------------------------------------------
  // The texts the formats are meant for, and their round trips.

  /** "March 5, 2024": the `%B %d, %Y` rendering of a date. */
  function LongForm(d: Date): string
    requires Valid(d)
  {
    MonthNames[d.month - 1] + (" " + (NatToString(d.day as nat) + (", " + Pad(d.year as nat, 4))))
  }

  /** "March 2024": the `%B %Y` rendering of a month. */
  function MonthYearForm(d: Date): string
    requires Valid(d)
  {
    MonthNames[d.month - 1] + (" " + Pad(d.year as nat, 4))
  }

  /** A text that begins with a month name is read as that month. */
  lemma MonthNameFound(name: string, rest: string, names: seq<string>, m: int)
    requires names == MonthNames || names == MonthAbbrs
    requires 1 <= m <= 12 && name == names[m - 1]
    ensures MatchMonth(name + rest, names) == Some((m, rest))
  {
    var s := name + rest;
    assert s[..|name|] == name;
    KeyDeterminesMonth(s, names, m - 1);
    assert s[|name|..] == rest;
  }

  /** A single blank is skipped up to the digit after it. */
  lemma SkipOneBlank(t: string)
    requires |t| > 0 && IsDigit(t[0])
    ensures SkipSpaces(" " + t) == t
  {
    assert (" " + t)[1..] == t;
  }

  /** The leading digits stop where the digits `dd` end. */
  lemma {:induction false} DigitPrefixOf(dd: string, rest: string)
    requires AllDigits(dd) && (|rest| == 0 || !IsDigit(rest[0]))
    ensures DigitPrefix(dd + rest) == |dd|
  {
    if |dd| > 0 {
      assert (dd + rest)[1..] == dd[1..] + rest;
      DigitPrefixOf(dd[1..], rest);
    }
  }

  /** `%B %d, %Y` reads its own rendering back: "March 5, 2024" is 2024-03-05. */
  lemma LongDateRoundTrip(d: Date)
    requires Valid(d)
    ensures ParseLongDate(LongForm(d)) == Some(d)
  {
    var dd, yyyy := NatToString(d.day as nat), Pad(d.year as nat, 4);
    var rest := " " + (dd + (", " + yyyy));
    assert MatchMonth(LongForm(d), MonthNames) == Some((d.month, rest)) by {
      MonthNameFound(MonthNames[d.month - 1], rest, MonthNames, d.month);
    }
    assert DayCommaYear(rest, d.month) == Some(d) by {
      SmallNumeral(d.day as nat);
      PadValue(d.year as nat, 4, 10000);
      DayCommaYearReads(dd, yyyy, d.month);
    }
  }

  lemma DayCommaYearReads(dd: string, yyyy: string, m: int)
    requires 1 <= |dd| <= 2 && AllDigits(dd) && Numeral(yyyy, 4)
    ensures DayCommaYear(" " + (dd + (", " + yyyy)), m) == Checked(Date(NatOf(yyyy), m, NatOf(dd)))
  {
    var t1 := dd + (", " + yyyy);
    SkipOneBlank(t1);
    CommaAfterDay(dd, yyyy);
    SkipOneBlank(yyyy);
    DayCommaYearSteps(" " + t1, m, t1, |dd|, yyyy);
  }

  lemma CommaAfterDay(dd: string, yyyy: string)
    requires 1 <= |dd| && AllDigits(dd)
    ensures var t1 := dd + (", " + yyyy);
      DigitPrefix(t1) == |dd| && t1[..|dd|] == dd && t1[|dd|] == ',' && t1[|dd| + 1..] == " " + yyyy
  {
    DigitPrefixOf(dd, ", " + yyyy);
    var t1 := dd + (", " + yyyy);
    assert t1[|dd| + 1..] == " " + yyyy;
  }

  /** How `DayCommaYear` reads a text whose pieces are located. */
  lemma DayCommaYearSteps(t: string, m: int, t1: string, n: nat, t3: string)
    requires SkipSpaces(t) == t1 && |t1| < |t| && DigitPrefix(t1) == n && 1 <= n <= 2 && n < |t1| && t1[n] == ','
    requires SkipSpaces(t1[n + 1..]) == t3 && |t3| < |t1[n + 1..]| && Numeral(t3, 4)
    ensures DayCommaYear(t, m) == Checked(Date(NatOf(t3), m, NatOf(t1[..n])))
  {
  }

  /** A numeral of a day of the month has one or two digits. */
  lemma SmallNumeral(n: nat)
    requires n < 100
    ensures |NatToString(n)| <= 2
  {
  }

  /** `%B %Y` reads its own rendering back as the first of that month. */
  lemma MonthYearRoundTrip(d: Date)
    requires Valid(d)
    ensures ParseMonthYear(MonthYearForm(d)) == Some(Date(d.year, d.month, 1))
  {
    var yyyy := Pad(d.year as nat, 4);
    MonthNameFound(MonthNames[d.month - 1], " " + yyyy, MonthNames, d.month);
    SkipOneBlank(yyyy);
    PadValue(d.year as nat, 4, 10000);
  }

  /** "Mar 24": the `%b %y` rendering of a month. */
  function AbbrForm(d: Date): string
    requires Valid(d)
  {
    MonthAbbrs[d.month - 1] + (" " + Pad((d.year % 100) as nat, 2))
  }

  /** `%b %y` reads its own rendering back for the hundred years its pivot covers. */
  lemma AbbrRoundTrip(d: Date)
    requires Valid(d) && 1969 <= d.year <= 2068
    ensures ParseAbbrMonthYear(AbbrForm(d)) == Some(Date(d.year, d.month, 1))
  {
    var yy := Pad((d.year % 100) as nat, 2);
    assert MatchMonth(AbbrForm(d), MonthAbbrs) == Some((d.month, " " + yy)) by {
      MonthNameFound(MonthAbbrs[d.month - 1], " " + yy, MonthAbbrs, d.month);
    }
    assert SkipSpaces(" " + yy) == yy by { SkipOneBlank(yy); }
    assert CenturyOf(NatOf(yy)) == d.year by {
      PadValue((d.year % 100) as nat, 2, 100);
      PivotInverse(d.year);
    }
  }

  lemma PivotInverse(y: int)
    requires 1969 <= y <= 2068
    ensures CenturyOf((y % 100) as nat) == y
  {
  }

  /** Neither the "2001/01/01" placeholder nor "N/A" is a text any of the three formats accepts. */
  lemma PlaceholdersRejected()
    ensures ParseLongDate("2001/01/01") == None && ParseLongDate("N/A") == None
    ensures ParseMonthYear("2001/01/01") == None && ParseMonthYear("N/A") == None
    ensures ParseAbbrMonthYear("2001/01/01") == None && ParseAbbrMonthYear("N/A") == None
  {
    NoMonthName("2001/01/01", MonthNames);
    NoMonthName("2001/01/01", MonthAbbrs);
    NoMonthName("N/A", MonthNames);
    NoMonthName("N/A", MonthAbbrs);
  }

  /** No month name begins with a digit, and none has a slash as second letter. */
  lemma NoMonthName(s: string, names: seq<string>)
    requires names == MonthNames || names == MonthAbbrs
    requires |s| >= 3 && (IsDigit(s[0]) || s[1] == '/')
    ensures MatchMonth(s, names) == None
  {
    var k := Lower(s[..3]);
    assert k[0] == LowerChar(s[0]) && k[1] == LowerChar(s[1]);
  }
}
