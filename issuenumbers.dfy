/**
 * The calendar arithmetic of the discovery crawlers: from the current year
 * and month, which volume of a journal is current, which issue numbers
 * belong to the month, and the `issueGroupId` of the volume's issue list.
 *
 * Months are the 1 .. 12 that `datetime.now().month` returns.
 */
module IssueNumbers {
  import opened Text

  predicate IsMonth(month: int)
  {
    1 <= month <= 12
  }

  // ---------------------------------------------------------------------
  // Volumes that change every half year

  /** The journals whose volume is `2 * year - K`, plus one from July on. */
  datatype HalfYearly =
    | Jama | Erj | Chest | Pediatrics | KidneyInternational | Ajkd | Jacc
    | ClinicalInfectiousDiseases | InfectiousDiseases | Blood

  /** The constant K each crawler subtracts. */
  function HalfYearOffset(j: HalfYearly): int
  {
    match j
    case Jama => 3717
    case Erj => 3985
    case Chest => 3883
    case Pediatrics => 3895
    case KidneyInternational => 3943
    case Ajkd => 3965
    case Jacc => 3965
    case ClinicalInfectiousDiseases => 3970
    case InfectiousDiseases => 3818
    case Blood => 3905
  }

  /** `base_num if month <= 6 else base_num + 1` with `base_num = 2 * year - K`. */
  function HalfYearVolume(year: int, month: int, offset: int): int
  {
    var base := 2 * year - offset;
    if month <= 6 then base else base + 1
  }

  function JournalVolume(j: HalfYearly, year: int, month: int): int
  {
    HalfYearVolume(year, month, HalfYearOffset(j))
  }

  /** A volume lasts exactly one half year: January to June, then July to December. */
  lemma HalfYearVolumeSteps(year: int, month: int, offset: int)
    requires IsMonth(month)
    ensures month <= 6 ==> HalfYearVolume(year, month, offset) == HalfYearVolume(year, 1, offset)
    ensures month > 6 ==> HalfYearVolume(year, month, offset) == HalfYearVolume(year, 1, offset) + 1
    ensures HalfYearVolume(year + 1, 1, offset) == HalfYearVolume(year, 12, offset) + 1
  {
  }

  /** The volume number gives back the year and the half of it. */
  lemma HalfYearVolumeInverse(year: int, month: int, offset: int)
    ensures (HalfYearVolume(year, month, offset) + offset) / 2 == year
    ensures (HalfYearVolume(year, month, offset) + offset) % 2 == (if month <= 6 then 0 else 1)
  {
  }

  /** Two dates share a volume exactly when they fall in the same half of the same year. */
  lemma HalfYearVolumeSame(y1: int, m1: int, y2: int, m2: int, offset: int)
    ensures HalfYearVolume(y1, m1, offset) == HalfYearVolume(y2, m2, offset) <==> y1 == y2 && (m1 <= 6 <==> m2 <= 6)
  {
    HalfYearVolumeInverse(y1, m1, offset);
    HalfYearVolumeInverse(y2, m2, offset);
  }

  /** The Journal of Allergy and Clinical Immunology's `151 + 2 * (year - 2023)`. */
  function JaciVolume(year: int, month: int): int
  {
    var base := 151 + 2 * (year - 2023);
    if month <= 6 then base else base + 1
  }

  /** The Journal of the American Academy of Dermatology's `88 + 2 * (year - 2023)`. */
  function JaadVolume(year: int, month: int): int
  {
    var base := 88 + 2 * (year - 2023);
    if month <= 6 then base else base + 1
  }

  /** Both are the half-yearly rule in disguise: K is 3895 and 3958. */
  lemma JaciAndJaadAreHalfYearly(year: int, month: int)
    ensures JaciVolume(year, month) == HalfYearVolume(year, month, 3895)
    ensures JaadVolume(year, month) == HalfYearVolume(year, month, 3958)
    ensures JaciVolume(year, month) == JournalVolume(Pediatrics, year, month)
  {
  }

  // ---------------------------------------------------------------------
  // Volumes that change every year

  datatype Yearly =
    | NatureImmunology | NatureReviewsCancer | InvestigativeDermatology | DermatologicClinics
    | NephrologyDialysisTransplantation | Infection | Circulation | CaCancerJournal
    | BloodAdvances | ClinicalOncology

  function YearOffset(j: Yearly): int
  {
    match j
    case NatureImmunology => 1999
    case NatureReviewsCancer => 2000
    case InvestigativeDermatology => 1880
    case DermatologicClinics => 1982
    case NephrologyDialysisTransplantation => 1985
    case Infection => 1972
    case Circulation => 1874
    case CaCancerJournal => 1950
    case BloodAdvances => 2016
    case ClinicalOncology => 1983
  }

  /** `int(year - K)`. */
  function YearlyVolume(j: Yearly, year: int): int
  {
    year - YearOffset(j)
  }

  /** One volume per year, so the volume gives back the year. */
  lemma YearlyVolumeSteps(j: Yearly, year: int, other: int)
    ensures YearlyVolume(j, year + 1) == YearlyVolume(j, year) + 1
    ensures YearlyVolume(j, year) == YearlyVolume(j, other) <==> year == other
  {
  }

  /** The Journal of Pediatrics: a new volume every month, `12 * year - 24024` in January. */
  function JpedsVolume(year: int, month: int): int
  {
    var base := 12 * year - 24024;
    if month <= 1 then base else base + month - 1
  }

  /** The monthly volume gives back the year and the month. */
  lemma JpedsVolumeInverse(year: int, month: int)
    requires IsMonth(month)
    ensures (JpedsVolume(year, month) + 24024) / 12 == year
    ensures (JpedsVolume(year, month) + 24024) % 12 + 1 == month
  {
  }

  /** Consecutive months have consecutive volumes, across the turn of the year too. */
  lemma JpedsVolumeSteps(year: int, month: int)
    requires IsMonth(month)
    ensures month < 12 ==> JpedsVolume(year, month + 1) == JpedsVolume(year, month) + 1
    ensures JpedsVolume(year + 1, 1) == JpedsVolume(year, 12) + 1
  {
  }

  // ---------------------------------------------------------------------
  // Issue numbers

  /** The European Respiratory Journal's `(month - 1) % 6 + 1` (Python's `%` by 6 is never negative). */
  function ErjIssue(month: int): (r: int)
    ensures 1 <= r <= 6
  {
    (month - 1) % 6 + 1
  }

  /** Pediatrics' page: the month in the first half year, the month minus six in the second. */
  function PediatricsPage(month: int): (r: int)
    ensures IsMonth(month) ==> 1 <= r <= 6
  {
    if month <= 6 then month else month - 6
  }

  /** The two formulas agree on every month: issue n of a half-year volume is its n-th month. */
  lemma ErjIssueIsPediatricsPage(month: int)
    requires IsMonth(month)
    ensures ErjIssue(month) == PediatricsPage(month)
    ensures ErjIssue(month) == (if month <= 6 then month else month - 6)
  {
  }

  /** Volume and issue together name exactly one month. */
  lemma ErjIssueNamesTheMonth(y1: int, m1: int, y2: int, m2: int)
    requires IsMonth(m1) && IsMonth(m2)
    requires JournalVolume(Erj, y1, m1) == JournalVolume(Erj, y2, m2) && ErjIssue(m1) == ErjIssue(m2)
    ensures y1 == y2 && m1 == m2
  {
    HalfYearVolumeSame(y1, m1, y2, m2, HalfYearOffset(Erj));
    ErjIssueIsPediatricsPage(m1);
    ErjIssueIsPediatricsPage(m2);
  }

  /** CA: A Cancer Journal for Clinicians: `(month + 1) // 2`, one issue every two months. */
  function CaIssue(month: int): (r: int)
    ensures IsMonth(month) ==> 1 <= r <= 6
  {
    (month + 1) / 2
  }

  /** Issue k covers exactly months 2k - 1 and 2k. */
  lemma CaIssueMonths(month: int, k: int)
    requires IsMonth(month)
    ensures CaIssue(month) == k <==> month == 2 * k - 1 || month == 2 * k
  {
  }

  /** `range(lo, hi)`: the integers from lo up to but not including hi. */
  function Range(lo: int, hi: int): (r: seq<int>)
    ensures |r| == if hi <= lo then 0 else hi - lo
    ensures forall i :: 0 <= i < |r| ==> r[i] == lo + i
    decreases hi - lo
  {
    if hi <= lo then [] else [lo] + Range(lo + 1, hi)
  }

  /** JAMA: `range(start, end + 1)` with `start = (month - 1) * 4 + 1` and `end = start + 3`. */
  function JamaIssues(month: int): seq<int>
  {
    var start := (month - 1) * 4 + 1;
    var end := start + 3;
    Range(start, end + 1)
  }

  /** Journal of Clinical Oncology: `[start, start + 1, start + 2]` with `start = (month - 1) * 3 + 1`. */
  function JcoIssues(month: int): seq<int>
  {
    var start := (month - 1) * 3 + 1;
    [start, start + 1, start + 2]
  }

  /** Blood Advances: `range(issue_start, issue_end + 1)` with `issue_start = (month - 1) * 2 + 1`. */
  function BloodAdvancesIssues(month: int): seq<int>
  {
    var issueStart := (month - 1) * 2 + 1;
    var issueEnd := issueStart + 1;
    Range(issueStart, issueEnd + 1)
  }

  /** Four issues a month, in order; issue n belongs to month (n - 1) / 4 + 1 and to no other. */
  lemma JamaIssuesOfMonth(month: int, n: int)
    requires IsMonth(month)
    ensures |JamaIssues(month)| == 4
    ensures forall i :: 0 <= i < 3 ==> JamaIssues(month)[i + 1] == JamaIssues(month)[i] + 1
    ensures n in JamaIssues(month) <==> n >= 1 && (n - 1) / 4 + 1 == month
  {
    var r := JamaIssues(month);
    if n in r {
      var i :| 0 <= i < |r| && r[i] == n;
    }
    if n >= 1 && (n - 1) / 4 + 1 == month {
      assert r[n - (month - 1) * 4 - 1] == n;
    }
  }

  /** Three issues a month; issue n belongs to month (n - 1) / 3 + 1 and to no other. */
  lemma JcoIssuesOfMonth(month: int, n: int)
    requires IsMonth(month)
    ensures |JcoIssues(month)| == 3
    ensures n in JcoIssues(month) <==> n >= 1 && (n - 1) / 3 + 1 == month
  {
  }

  /** Two issues a month; issue n belongs to month (n - 1) / 2 + 1 and to no other. */
  lemma BloodAdvancesIssuesOfMonth(month: int, n: int)
    requires IsMonth(month)
    ensures |BloodAdvancesIssues(month)| == 2
    ensures n in BloodAdvancesIssues(month) <==> n >= 1 && (n - 1) / 2 + 1 == month
  {
    var r := BloodAdvancesIssues(month);
    if n in r {
      var i :| 0 <= i < |r| && r[i] == n;
    }
  }

  /** Clinical Infectious Diseases scans `range(1, month * 2 + 1)`: every issue up to twice the month. */
  function CidIssues(month: int): (r: seq<int>)
    ensures forall n :: n in r <==> 1 <= n <= 2 * month
  {
    var r := Range(1, month * 2 + 1);
    assert forall n | 1 <= n <= 2 * month :: n in r by {
      forall n | 1 <= n <= 2 * month ensures n in r {
        assert r[n - 1] == n;
      }
    }
    r
  }

  /** Nature Immunology scans `range(1, month + 1)`: issues 1 up to the month. */
  function NatureImmunologyIssues(month: int): (r: seq<int>)
    ensures forall n :: n in r <==> 1 <= n <= month
  {
    var r := Range(1, month + 1);
    assert forall n | 1 <= n <= month :: n in r by {
      forall n | 1 <= n <= month ensures n in r {
        assert r[n - 1] == n;
      }
    }
    r
  }

  // ---------------------------------------------------------------------
  // Issue group ids

  /** Python's `str(n)` for any integer. */
  function IntToString(n: int): (s: string)
    ensures |s| > 0
  {
    if n < 0 then "-" + NatToString(-n) else NatToString(n)
  }

  /** `f"d2020.v{volume}"`, the id of a volume's issue list on the Elsevier journal sites. */
  function GroupId(volume: int): string
  {
    "d2020.v" + IntToString(volume)
  }

  /** Different volumes have different group ids. */
  lemma GroupIdInjective(a: int, b: int)
    ensures GroupId(a) == GroupId(b) <==> a == b
  {
    if GroupId(a) == GroupId(b) {
      var pre := "d2020.v";
      assert IntToString(a) == GroupId(a)[|pre|..];
      assert IntToString(b) == GroupId(b)[|pre|..];
      var sa, sb := IntToString(a), IntToString(b);
      if a < 0 {
        assert sb[0] == '-';
        assert sa[1..] == NatToString(-a);
        assert sb[1..] == NatToString(-b);
      } else {
        assert IsDigit(sa[0]);
        assert b >= 0;
      }
    }
  }
}
