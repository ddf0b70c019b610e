/**
 * The pure helpers of the article passes that pull fields out of page text:
 * author lists from citation exports, PDF links derived from article URLs,
 * volume, issue and ISSN numbers matched by regular expressions, and the
 * sentinel handling of the allergy and Bone & Joint passes.
 *
 * A regular expression is modelled by a matcher that looks at a suffix of
 * the text and says what the pattern matches at its start; `re.search`,
 * `re.findall` and `re.sub` are then scans over the suffixes.
 */
module Extractors {
  import opened Wrappers
  import opened Text
  import opened Vectors

  const NotAvailable := "N/A"

  // ---------------------------------------------------------------------
  // re.search

  /** The first offset at which `m` matches: what `re.search` scans for. */
  function FirstMatch<T>(t: string, m: string -> Option<T>): (r: Option<nat>)
    ensures r.Some? ==> r.value <= |t| && m(t[r.value..]).Some?
    ensures r.Some? ==> forall j :: 0 <= j < r.value ==> m(t[j..]).None?
    ensures r.None? ==> forall j :: 0 <= j <= |t| ==> m(t[j..]).None?
    decreases |t|
  {
    if m(t).Some? then Some(0)
    else if |t| == 0 then None
    else
      var r := FirstMatch(t[1..], m);
      assert forall j :: 1 <= j <= |t| ==> t[1..][j - 1..] == t[j..];
      if r.Some? then Some(r.value + 1) else None
  }

  /** The first offset is determined by where the pattern matches. */
  lemma {:induction false} FirstMatchAt<T>(t: string, m: string -> Option<T>, k: nat)
    requires k <= |t| && m(t[k..]).Some? && forall j :: 0 <= j < k ==> m(t[j..]).None?
    ensures FirstMatch(t, m) == Some(k)
    decreases k
  {
    if k > 0 {
      assert t[0..] == t;
      assert forall j :: 1 <= j <= |t| ==> t[1..][j - 1..] == t[j..];
      FirstMatchAt(t[1..], m, k - 1);
    } else {
      assert t[0..] == t;
    }
  }

  /** `re.search`: what the pattern matches at its first match. */
  function Search<T>(t: string, m: string -> Option<T>): Option<T>
  {
    match FirstMatch(t, m)
    case None => None
    case Some(i) => m(t[i..])
  }

  /** A text in front of the first match changes nothing about it. */
  lemma SearchAfter<T>(host: string, rest: string, m: string -> Option<T>)
    requires forall i :: 0 <= i < |host| ==> m((host + rest)[i..]).None?
    ensures Search(host + rest, m) == Search(rest, m)
  {
    var t := host + rest;
    assert t[|host|..] == rest;
    assert forall j :: 0 <= j <= |rest| ==> t[|host| + j..] == rest[j..];
    var b := FirstMatch(rest, m);
    if b.Some? {
      assert forall j :: 0 <= j < |host| + b.value ==> m(t[j..]).None? by {
        forall j | 0 <= j < |host| + b.value ensures m(t[j..]).None? {
          if j >= |host| {
            assert t[j..] == rest[j - |host|..];
          }
        }
      }
      assert t[|host| + b.value..] == rest[b.value..];
      FirstMatchAt(t, m, |host| + b.value);
    } else {
      assert forall j :: 0 <= j <= |t| ==> m(t[j..]).None? by {
        forall j | 0 <= j <= |t| ensures m(t[j..]).None? {
          if j >= |host| {
            assert t[j..] == rest[j - |host|..];
          }
        }
      }
    }
  }

  /** A run of digits is as long as the digits that start it. */
  lemma {:induction false} DigitRunIs(s: string, i: nat, k: nat)
    requires i <= k <= |s| && AllDigits(s[i..k]) && (k == |s| || !IsDigit(s[k]))
    ensures DigitRunEnd(s, i) == k
    decreases k - i
  {
    if i < k {
      assert s[i..k][0] == s[i];
      assert s[i + 1..k] == s[i..k][1..];
      DigitRunIs(s, i + 1, k);
    }
  }

  /** A run of whitespace is as long as the whitespace that starts it. */
  lemma SpaceRunIs(s: string, i: nat, k: nat)
    requires i <= k <= |s| && (forall j :: i <= j < k ==> IsSpace(s[j])) && (k == |s| || !IsSpace(s[k]))
    ensures SpaceRunEnd(s, i) == k
  {
  }

  /** The end of the line that contains position `i`: the next newline, or the end of the text. */
  function LineEnd(s: string, i: nat): (e: nat)
    requires i <= |s|
    ensures i <= e <= |s| && (e < |s| ==> s[e] == '\n')
    ensures forall k :: i <= k < e ==> s[k] != '\n'
    decreases |s| - i
  {
    if i == |s| || s[i] == '\n' then i else LineEnd(s, i + 1)
  }

  lemma LineEndIs(s: string, i: nat, k: nat)
    requires i <= k <= |s| && (forall j :: i <= j < k ==> s[j] != '\n') && (k == |s| || s[k] == '\n')
    ensures LineEnd(s, i) == k
  {
  }

  // ---------------------------------------------------------------------
  // extract_volume_issue and extract_issn (infectious diseases pass)

  /** `(\d+)` at the start of `a`: the longest run of digits, if any. */
  function LeadingNumber(a: string): (r: Option<string>)
    ensures r.Some? ==> |r.value| > 0 && AllDigits(r.value) && r.value <= a
  {
    var n := DigitRunEnd(a, 0);
    assert a[..n] == a[0..n];
    if n == 0 then None else Some(a[..n])
  }

  /** `(\d+)/` at the start of `a`: the digits and the text after the slash. */
  function NumberThenSlash(a: string): (r: Option<(string, string)>)
    ensures r.Some? ==> |r.value.0| > 0 && AllDigits(r.value.0)
  {
    match LeadingNumber(a)
    case None => None
    case Some(v) => if |v| < |a| && a[|v|] == '/' then Some((v, a[|v| + 1..])) else None
  }

  lemma LeadingNumberReads(v: string, rest: string)
    requires |v| > 0 && AllDigits(v) && (|rest| == 0 || !IsDigit(rest[0]))
    ensures LeadingNumber(v + rest) == Some(v)
  {
    assert (v + rest)[..|v|] == v;
    DigitRunIs(v + rest, 0, |v|);
  }

  lemma NumberThenSlashReads(v: string, rest: string)
    requires |v| > 0 && AllDigits(v)
    ensures NumberThenSlash(v + "/" + rest) == Some((v, rest))
  {
    LeadingNumberReads(v, "/" + rest);
    assert v + "/" + rest == v + ("/" + rest);
  }

  /** `/article/(\d+)/(\d+)/` at the start of `t`, with both numbers read as `int`. */
  function MatchArticlePath(t: string): Option<(nat, nat)>
  {
    if !StartsWith(t, "/article/") then None
    else
      match NumberThenSlash(t[9..])
      case None => None
      case Some((v, b)) =>
        match NumberThenSlash(b)
        case None => None
        case Some((i, _)) => Some((NatOf(v), NatOf(i)))
  }

  /** `extract_volume_issue`: the volume and issue of the first `/article/N/M/` in the URL, else neither. */
  function ExtractVolumeIssue(url: string): (r: (Option<nat>, Option<nat>))
    ensures r.0.Some? <==> r.1.Some?
  {
    var found := Search(url, MatchArticlePath);
    if found.None? then (None, None) else (Some(found.value.0), Some(found.value.1))
  }

  /** A suffix that starts with no `p` is not matched by a pattern that begins with the literal `p`. */
  lemma NotAtSuffix(s: string, p: string, i: nat)
    requires i <= |s| && !At(s, p, i)
    ensures !StartsWith(s[i..], p)
  {
  }

  /** A volume path is matched with its two numbers. */
  lemma MatchArticlePathReads(volume: string, issue: string, rest: string)
    requires |volume| > 0 && AllDigits(volume) && |issue| > 0 && AllDigits(issue)
    ensures MatchArticlePath("/article/" + volume + "/" + issue + "/" + rest) == Some((NatOf(volume), NatOf(issue)))
  {
    var tail := "/article/" + volume + "/" + issue + "/" + rest;
    assert tail[9..] == volume + "/" + (issue + "/" + rest);
    NumberThenSlashReads(volume, issue + "/" + rest);
    NumberThenSlashReads(issue, rest);
  }

  /** The numbers of the first `/article/` path of the URL are read back. */
  lemma ExtractVolumeIssueReads(host: string, volume: nat, issue: nat, rest: string)
    requires var url := host + ("/article/" + NatToString(volume) + "/" + NatToString(issue) + "/" + rest);
             FindFrom(url, "/article/", 0) == Some(|host|)
    ensures ExtractVolumeIssue(host + ("/article/" + NatToString(volume) + "/" + NatToString(issue) + "/" + rest))
         == (Some(volume), Some(issue))
  {
    var tail := "/article/" + NatToString(volume) + "/" + NatToString(issue) + "/" + rest;
    NoMatchBefore(host + tail, |host|);
    SearchAfter(host, tail, MatchArticlePath);
    MatchArticlePathReads(NatToString(volume), NatToString(issue), rest);
    assert FirstMatch(tail, MatchArticlePath) == Some(0) by {
      assert tail[0..] == tail;
    }
  }

  lemma NoMatchBefore(url: string, n: nat)
    requires n <= |url| && forall k :: 0 <= k < n ==> !At(url, "/article/", k)
    ensures forall k :: 0 <= k < n ==> MatchArticlePath(url[k..]).None?
  {
    forall k | 0 <= k < n ensures MatchArticlePath(url[k..]).None? {
      NotAtSuffix(url, "/article/", k);
    }
  }

  /** A URL without `/article/` yields neither number. */
  lemma ExtractVolumeIssueAbsent(url: string)
    requires !Contains(url, "/article/")
    ensures ExtractVolumeIssue(url) == (None, None)
  {
    forall k | 0 <= k <= |url| ensures MatchArticlePath(url[k..]).None? {
      NotAtSuffix(url, "/article/", k);
    }
  }

  /** Four digits, a hyphen, four digits: the shape of an ISSN. */
  predicate IssnShape(s: string)
  {
    |s| == 9 && AllDigits(s[..4]) && s[4] == '-' && AllDigits(s[5..])
  }

  predicate IssnAt(s: string, k: nat)
  {
    k + 9 <= |s| && IssnShape(s[k..k + 9])
  }

  /** `\d{4}-\d{4}` at the start of `t`. */
  function MatchIssn(t: string): Option<string>
  {
    if |t| >= 9 && IssnShape(t[..9]) then Some(t[..9]) else None
  }

  /**
   * `extract_issn` on the text of the `issn` span, absent when the page has
   * none: the first ISSN-shaped substring.
   */
  function ExtractIssn(tag: Option<string>): (r: Option<string>)
    ensures r.Some? ==> tag.Some? && IssnShape(r.value)
    ensures r.Some? ==> exists k: nat :: IssnAt(tag.value, k) && tag.value[k..k + 9] == r.value
                                    && forall j :: 0 <= j < k ==> !IssnAt(tag.value, j)
    ensures r.None? ==> tag.None? || forall k :: 0 <= k <= |tag.value| ==> !IssnAt(tag.value, k)
  {
    match tag
    case None => None
    case Some(text) =>
      var f := FirstMatch(text, MatchIssn);
      assert forall k :: 0 <= k <= |text| ==> (IssnAt(text, k) <==> MatchIssn(text[k..]).Some?) by {
        forall k | 0 <= k <= |text| ensures IssnAt(text, k) <==> MatchIssn(text[k..]).Some? {
          if k + 9 <= |text| {
            assert text[k..][..9] == text[k..k + 9];
          }
        }
      }
      if f.Some? then
        assert text[f.value..][..9] == text[f.value..f.value + 9];
        Search(text, MatchIssn)
      else None
  }

  // ---------------------------------------------------------------------
  // extract_volume_and_issue (pulmonology pass)

  /** `/toc/ajrccm/(\d+)/(\d+)` at the start of `t`; the numbers stay text. */
  function MatchToc(t: string): Option<(string, string)>
  {
    if !StartsWith(t, "/toc/ajrccm/") then None
    else
      match NumberThenSlash(t[12..])
      case None => None
      case Some((v, b)) =>
        match LeadingNumber(b)
        case None => None
        case Some(i) => Some((v, i))
  }

  /** A breadcrumb link that names an issue of the journal. */
  predicate TocLink(href: Option<string>)
  {
    href.Some? && Contains(href.value, "/toc/ajrccm/") && Search(href.value, MatchToc).Some?
  }

  /**
   * `extract_volume_and_issue` over the `href` of each breadcrumb item
   * (`None` for an item without a link): the two numbers of the first link
   * to an issue, else "N/A" for both.
   */
  function ExtractVolumeAndIssue(hrefs: seq<Option<string>>): (r: (string, string))
    ensures r == (NotAvailable, NotAvailable) || (|r.0| > 0 && AllDigits(r.0) && |r.1| > 0 && AllDigits(r.1))
  {
    if |hrefs| == 0 then (NotAvailable, NotAvailable)
    else if TocLink(hrefs[0]) then Search(hrefs[0].value, MatchToc).value
    else ExtractVolumeAndIssue(hrefs[1..])
  }

  /** An issue link is matched with its two numbers. */
  lemma MatchTocReads(volume: string, issue: string, rest: string)
    requires |volume| > 0 && AllDigits(volume) && |issue| > 0 && AllDigits(issue)
    requires |rest| == 0 || !IsDigit(rest[0])
    ensures MatchToc("/toc/ajrccm/" + volume + "/" + issue + rest) == Some((volume, issue))
  {
    var tail := "/toc/ajrccm/" + volume + "/" + issue + rest;
    assert tail[12..] == volume + "/" + (issue + rest);
    NumberThenSlashReads(volume, issue + rest);
    LeadingNumberReads(issue, rest);
  }

  /** The items before the first issue link are skipped and its numbers are read back. */
  lemma {:induction false} VolumeAndIssueFromBreadcrumbs(hrefs: seq<Option<string>>, k: nat, host: string,
                                                         volume: string, issue: string, rest: string)
    requires k < |hrefs| && forall j :: 0 <= j < k ==> !TocLink(hrefs[j])
    requires |volume| > 0 && AllDigits(volume) && |issue| > 0 && AllDigits(issue)
    requires |rest| == 0 || !IsDigit(rest[0])
    requires hrefs[k] == Some(host + ("/toc/ajrccm/" + volume + "/" + issue + rest))
    requires FindFrom(hrefs[k].value, "/toc/ajrccm/", 0) == Some(|host|)
    ensures ExtractVolumeAndIssue(hrefs) == (volume, issue)
    decreases k
  {
    if k > 0 {
      assert hrefs[1..][k - 1] == hrefs[k];
      VolumeAndIssueFromBreadcrumbs(hrefs[1..], k - 1, host, volume, issue, rest);
    } else {
      var url := hrefs[0].value;
      var tail := "/toc/ajrccm/" + volume + "/" + issue + rest;
      forall j | 0 <= j < |host| ensures MatchToc(url[j..]).None? {
        NotAtSuffix(url, "/toc/ajrccm/", j);
      }
      SearchAfter(host, tail, MatchToc);
      MatchTocReads(volume, issue, rest);
      assert FirstMatch(tail, MatchToc) == Some(0) by {
        assert tail[0..] == tail;
      }
      assert Contains(url, "/toc/ajrccm/");
    }
  }

  /** With no issue link among the breadcrumbs both numbers are "N/A". */
  lemma {:induction false} VolumeAndIssueAbsent(hrefs: seq<Option<string>>)
    requires forall j :: 0 <= j < |hrefs| ==> !TocLink(hrefs[j])
    ensures ExtractVolumeAndIssue(hrefs) == (NotAvailable, NotAvailable)
    decreases |hrefs|
  {
    if |hrefs| > 0 {
      assert forall j :: 0 <= j < |hrefs| - 1 ==> hrefs[1..][j] == hrefs[j + 1];
      VolumeAndIssueAbsent(hrefs[1..]);
    }
  }

  // ---------------------------------------------------------------------
  // extract_authors (psychiatry pass)

  /** The first `}` at or after `i`, provided no newline comes before it: where the lazy `(.+?)\}` stops. */
  function BraceEnd(c: string, i: nat): (r: Option<nat>)
    requires i <= |c|
    ensures r.Some? ==> i <= r.value < |c| && c[r.value] == '}'
    ensures r.Some? ==> forall k :: i <= k < r.value ==> c[k] != '}' && c[k] != '\n'
    decreases |c| - i
  {
    if i == |c| || c[i] == '\n' then None
    else if c[i] == '}' then Some(i)
    else BraceEnd(c, i + 1)
  }

  /** `author\s*=\s*\{(.+?)\}` at the start of `t`. */
  function MatchBibAuthor(t: string): (r: Option<string>)
    ensures r.Some? ==> |r.value| > 0 && forall k :: 0 <= k < |r.value| ==> r.value[k] != '\n'
  {
    if !StartsWith(t, "author") then None
    else
      var a := t[6..];
      var w := SpaceRunEnd(a, 0);
      if w == |a| || a[w] != '=' then None
      else
        var b := a[w + 1..];
        var w2 := SpaceRunEnd(b, 0);
        if w2 == |b| || b[w2] != '{' then None
        else
          var c := b[w2 + 1..];
          if |c| == 0 || c[0] == '\n' then None
          else
            match BraceEnd(c, 1)
            case None => None
            case Some(j) => Some(c[..j])
  }

  /** The two line-oriented export formats whose author lines are collected with `re.findall`. */
  datatype LineFormat =
    | Ris      // `A1\s+-\s+(.+)`
    | Medline  // `FAU - (.+)`

  /** The last position in `b[1..w]` that is not a newline: where `\s+(.+)` backtracks to at the end of the text. */
  function LastNonNewline(b: string, w: nat): (r: Option<nat>)
    requires w <= |b|
    ensures r.Some? ==> 1 <= r.value < w && b[r.value] != '\n'
    decreases w
  {
    if w <= 1 then None
    else if b[w - 1] != '\n' then Some(w - 1)
    else LastNonNewline(b, w - 1)
  }

  /** One match of the format's pattern at the start of `t`: the captured author and how much text the match spans. */
  function MatchLine(f: LineFormat, t: string): (r: Option<(string, nat)>)
    ensures r.Some? ==> 0 < r.value.1 <= |t| && |r.value.0| > 0
  {
    match f
    case Medline =>
      if !StartsWith(t, "FAU - ") then None
      else
        var a := t[6..];
        if |a| == 0 || a[0] == '\n' then None
        else
          var e := LineEnd(a, 0);
          Some((a[..e], 6 + e))
    case Ris =>
      if !StartsWith(t, "A1") then None
      else
        var a := t[2..];
        var w1 := SpaceRunEnd(a, 0);
        if w1 == 0 || w1 == |a| || a[w1] != '-' then None
        else
          var b := a[w1 + 1..];
          var w2 := SpaceRunEnd(b, 0);
          if w2 == 0 then None
          else if w2 < |b| then
            assert IsSpace('\n');
            var e := LineEnd(b, w2);
            Some((b[w2..e], 3 + w1 + e))
          else
            match LastNonNewline(b, w2)
            case None => None
            case Some(k) => Some((b[k..k + 1], 3 + w1 + k + 1))
  }

  /** `re.findall` with the format's pattern: every non-overlapping match, left to right. */
  function FindAll(f: LineFormat, t: string): seq<string>
    decreases |t|
  {
    match MatchLine(f, t)
    case Some((author, n)) => [author] + FindAll(f, t[n..])
    case None => if |t| == 0 then [] else FindAll(f, t[1..])
  }

  /** The key the format's export is stored under in the citation data. */
  function KeyOf(f: LineFormat): string
  {
    match f
    case Ris => "ris"
    case Medline => "medlars"
  }

  /** The authors the export of one format yields, none when the citation data lacks it. */
  function LinesFrom(citation: map<string, string>, f: LineFormat): seq<string>
  {
    if KeyOf(f) in citation then FindAll(f, citation[KeyOf(f)]) else []
  }

  /** The BibTeX author field split at " and ", none when the export is absent or has no field. */
  function BibtexAuthors(citation: map<string, string>): seq<string>
  {
    if "bibtex" !in citation then []
    else
      match Search(citation["bibtex"], MatchBibAuthor)
      case None => []
      case Some(field) => Split(field, " and ")
  }

  /**
   * `extract_authors`: BibTeX first, RIS `A1` lines when BibTeX gave none,
   * MEDLINE `FAU` lines when neither did; joined with ", ", or "N/A".
   */
  function ExtractAuthors(citation: map<string, string>): string
  {
    var authors :=
      if |BibtexAuthors(citation)| > 0 then BibtexAuthors(citation)
      else if |LinesFrom(citation, Ris)| > 0 then LinesFrom(citation, Ris)
      else LinesFrom(citation, Medline);
    if |authors| > 0 then Join(authors, ", ") else NotAvailable
  }

  /** A BibTeX author field wins, and its " and " separators become ", ". */
  lemma AuthorsFromBibtex(citation: map<string, string>, field: string)
    requires "bibtex" in citation && Search(citation["bibtex"], MatchBibAuthor) == Some(field)
    ensures ExtractAuthors(citation) == ReplaceAll(field, " and ", ", ")
  {
    ReplaceIsSplitJoin(field, " and ", ", ");
  }

  /** Without a BibTeX author field the RIS lines are used when there are any. */
  lemma AuthorsFromRis(citation: map<string, string>)
    requires BibtexAuthors(citation) == [] && LinesFrom(citation, Ris) != []
    ensures ExtractAuthors(citation) == Join(LinesFrom(citation, Ris), ", ")
  {
  }

  /** With neither BibTeX nor RIS authors the MEDLINE lines decide, and no author at all gives "N/A". */
  lemma AuthorsFromMedline(citation: map<string, string>)
    requires BibtexAuthors(citation) == [] && LinesFrom(citation, Ris) == []
    ensures LinesFrom(citation, Medline) != [] ==> ExtractAuthors(citation) == Join(LinesFrom(citation, Medline), ", ")
    ensures LinesFrom(citation, Medline) == [] ==> ExtractAuthors(citation) == NotAvailable
  {
  }

  /** How an export line starts. */
  function Tag(f: LineFormat): string
  {
    match f
    case Ris => "A1  - "
    case Medline => "FAU - "
  }

  /** The export a citation manager writes for a list of authors, one tagged line each. */
  function ExportLines(f: LineFormat, authors: seq<string>): string
  {
    if |authors| == 0 then ""
    else Tag(f) + authors[0] + ("\n" + ExportLines(f, authors[1..]))
  }

  /** An author name as an export line holds it: not empty, on one line, and not starting with whitespace. */
  predicate ExportableName(name: string)
  {
    |name| > 0 && !IsSpace(name[0]) && forall k :: 0 <= k < |name| ==> name[k] != '\n'
  }

  /** One export line is matched with its author, up to the newline. */
  lemma MatchExportLine(f: LineFormat, name: string, more: string)
    requires ExportableName(name)
    ensures MatchLine(f, Tag(f) + name + ("\n" + more)) == Some((name, |Tag(f)| + |name|))
  {
    match f
    case Medline => MatchMedlineLine(name, more);
    case Ris => MatchRisLine(name, more);
  }

  lemma MatchMedlineLine(name: string, more: string)
    requires ExportableName(name)
    ensures MatchLine(Medline, "FAU - " + name + ("\n" + more)) == Some((name, 6 + |name|))
  {
    var a := ("FAU - " + name + ("\n" + more))[6..];
    assert a == name + ("\n" + more);
    LineEndIs(a, 0, |name|);
    assert a[..|name|] == name;
  }

  lemma MatchRisLine(name: string, more: string)
    requires ExportableName(name)
    ensures MatchLine(Ris, "A1  - " + name + ("\n" + more)) == Some((name, 6 + |name|))
  {
    var a := ("A1  - " + name + ("\n" + more))[2..];
    assert a == "  - " + (name + ("\n" + more));
    SpaceRunIs(a, 0, 2);
    var b := a[3..];
    assert b == " " + name + ("\n" + more);
    SpaceRunIs(b, 0, 1);
    LineEndIs(b, 1, 1 + |name|);
    assert b[1..1 + |name|] == name;
  }

  /** The first line of an export yields its author, and the scan goes on after the newline. */
  lemma FindAllLine(f: LineFormat, name: string, more: string)
    requires ExportableName(name)
    ensures FindAll(f, Tag(f) + name + ("\n" + more)) == [name] + FindAll(f, more)
  {
    var t := Tag(f) + name + ("\n" + more);
    MatchExportLine(f, name, more);
    assert t[|Tag(f)| + |name|..] == "\n" + more;
    assert MatchLine(f, "\n" + more).None?;
    assert ("\n" + more)[1..] == more;
  }

  /** Reading an export back yields exactly the authors written into it. */
  lemma {:induction false} FindAllExport(f: LineFormat, authors: seq<string>)
    requires forall i :: 0 <= i < |authors| ==> ExportableName(authors[i])
    ensures FindAll(f, ExportLines(f, authors)) == authors
    decreases |authors|
  {
    if |authors| > 0 {
      FindAllLine(f, authors[0], ExportLines(f, authors[1..]));
      FindAllExport(f, authors[1..]);
      assert authors == [authors[0]] + authors[1..];
    }
  }

  /** A citation with only a RIS export yields its authors joined with ", ". */
  lemma AuthorsOfRisExport(authors: seq<string>)
    requires |authors| > 0 && forall i :: 0 <= i < |authors| ==> ExportableName(authors[i])
    ensures ExtractAuthors(map["ris" := ExportLines(Ris, authors)]) == Join(authors, ", ")
  {
    var citation := map["ris" := ExportLines(Ris, authors)];
    assert BibtexAuthors(citation) == [] by {
      assert "bibtex" !in citation;
    }
    assert LinesFrom(citation, Ris) == authors by {
      assert KeyOf(Ris) in citation && citation[KeyOf(Ris)] == ExportLines(Ris, authors);
      FindAllExport(Ris, authors);
    }
    AuthorsFromRis(citation);
  }

  /** A BibTeX author field is matched up to its closing brace. */
  lemma MatchBibAuthorReads(field: string, rest: string)
    requires |field| > 0 && forall k :: 0 <= k < |field| ==> field[k] != '}' && field[k] != '\n'
    ensures MatchBibAuthor("author = {" + (field + "}" + rest)) == Some(field)
  {
    var t := "author = {" + (field + "}" + rest);
    var a := t[6..];
    assert a == " = {" + (field + "}" + rest);
    SpaceRunIs(a, 0, 1);
    var b := a[2..];
    assert b == " {" + (field + "}" + rest);
    SpaceRunIs(b, 0, 1);
    var c := b[2..];
    assert c == field + "}" + rest;
    BraceEndIs(c, 1, |field|);
    assert c[..|field|] == field;
  }

  /** A BibTeX export that starts with its author field yields that field. */
  lemma BibtexFieldReads(field: string, rest: string)
    requires |field| > 0 && forall k :: 0 <= k < |field| ==> field[k] != '}' && field[k] != '\n'
    ensures Search("author = {" + (field + "}" + rest), MatchBibAuthor) == Some(field)
  {
    var t := "author = {" + (field + "}" + rest);
    MatchBibAuthorReads(field, rest);
    assert FirstMatch(t, MatchBibAuthor) == Some(0) by {
      assert t[0..] == t;
    }
  }

  /** A citation whose BibTeX export starts with the author field yields that field with " and " turned into ", ". */
  lemma AuthorsOfBibtexExport(field: string, rest: string, citation: map<string, string>)
    requires |field| > 0 && forall k :: 0 <= k < |field| ==> field[k] != '}' && field[k] != '\n'
    requires "bibtex" in citation && citation["bibtex"] == "author = {" + (field + "}" + rest)
    ensures ExtractAuthors(citation) == ReplaceAll(field, " and ", ", ")
  {
    BibtexFieldReads(field, rest);
    AuthorsFromBibtex(citation, field);
  }

  lemma {:induction false} BraceEndIs(c: string, i: nat, j: nat)
    requires i <= j < |c| && c[j] == '}' && forall k :: i <= k < j ==> c[k] != '}' && c[k] != '\n'
    ensures BraceEnd(c, i) == Some(j)
    decreases j - i
  {
    if i < j {
      BraceEndIs(c, i + 1, j);
    }
  }

  // ---------------------------------------------------------------------
  // PDF links

  /**
   * `generate_pdf_url` (psychiatry pass): an abstract page's `/doi/abs/`
   * becomes `/doi/pdf/`; otherwise `/doi/pdf/` is put in place of the first
   * `/doi/`, keeping the text up to the next `/doi/`; a URL without `/doi/`
   * is kept.
   */
  function GeneratePdfUrl(url: string): string
  {
    if Contains(url, "/doi/abs/") then ReplaceAll(url, "/doi/abs/", "/doi/pdf/")
    else if Contains(url, "/doi/") then
      var parts := Split(url, "/doi/");
      assert |parts| >= 2;
      parts[0] + "/doi/pdf/" + parts[1]
    else url
  }

  /** An abstract URL with one `/doi/abs/` gets `/doi/pdf/` in its place and is otherwise kept. */
  lemma PdfUrlFromAbstract(url: string, k: nat)
    requires FindFrom(url, "/doi/abs/", 0) == Some(k) && !Contains(url[k + 9..], "/doi/abs/")
    ensures GeneratePdfUrl(url) == url[..k] + "/doi/pdf/" + url[k + 9..]
  {
    ReplaceAbsent(url[k + 9..], "/doi/abs/", "/doi/pdf/");
  }

  /**
   * Any other DOI URL gets `pdf/` after its first `/doi/`; the text after a
   * second `/doi/` is dropped.
   */
  lemma PdfUrlFromDoi(url: string, k: nat)
    requires !Contains(url, "/doi/abs/") && FindFrom(url, "/doi/", 0) == Some(k)
    ensures var rest := url[k + 5..];
            (!Contains(rest, "/doi/") ==> GeneratePdfUrl(url) == url[..k] + "/doi/pdf/" + rest)
            && (forall j :: FindFrom(rest, "/doi/", 0) == Some(j) ==> GeneratePdfUrl(url) == url[..k] + "/doi/pdf/" + rest[..j])
  {
    var rest := url[k + 5..];
    assert Split(url, "/doi/") == [url[..k]] + Split(rest, "/doi/");
    match FindFrom(rest, "/doi/", 0)
    case None =>
      assert Split(rest, "/doi/") == [rest];
    case Some(j) =>
      assert Split(rest, "/doi/")[0] == rest[..j];
  }

  /** A URL without `/doi/` is its own PDF link. */
  lemma PdfUrlWithoutDoi(url: string)
    requires !Contains(url, "/doi/")
    ensures GeneratePdfUrl(url) == url
  {
    if Contains(url, "/doi/abs/") {
      var k := FindFrom(url, "/doi/abs/", 0).value;
      assert url[k..k + 5] == url[k..k + 9][..5];
      assert At(url, "/doi/", k);
    }
  }

  /** The end of the run of characters other than `/` that begins at `i`. */
  function NonSlashRunEnd(s: string, i: nat): (e: nat)
    requires i <= |s|
    ensures i <= e <= |s| && (e < |s| ==> s[e] == '/')
    ensures forall k :: i <= k < e ==> s[k] != '/'
    decreases |s| - i
  {
    if i < |s| && s[i] != '/' then NonSlashRunEnd(s, i + 1) else i
  }

  /** `/doi/(abs|full)/([^/]+)` at the start of `t`: the replacement `/doi/pdf/\2` and the length matched. */
  function MatchDoiPage(t: string): Option<(string, nat)>
  {
    var k := if StartsWith(t, "/doi/abs/") then 9 else if StartsWith(t, "/doi/full/") then 10 else 0;
    if k == 0 then None
    else
      var n := NonSlashRunEnd(t, k);
      if n == k then None else Some(("/doi/pdf/" + t[k..n], n))
  }

  /**
   * The PDF link of the pulmonology pass, `re.sub` of the pattern above:
   * every match, left to right, is replaced and the rest copied.
   */
  function PdfLink(t: string): string
    decreases |t|
  {
    if |t| == 0 then ""
    else
      match MatchDoiPage(t)
      case Some((replacement, n)) => replacement + PdfLink(t[n..])
      case None => [t[0]] + PdfLink(t[1..])
  }

  /** No replacement starts where `/doi/` does not. */
  lemma NoDoiNoMatch(t: string)
    requires !StartsWith(t, "/doi/")
    ensures MatchDoiPage(t).None?
  {
  }

  /** Text before the first `/doi/` is copied as it is. */
  lemma PdfLinkCopies(host: string, rest: string)
    requires forall i :: 0 <= i < |host| ==> !At(host + rest, "/doi/", i)
    ensures PdfLink(host + rest) == host + PdfLink(rest)
  {
    var t := host + rest;
    forall j | 0 <= j < |host|
      ensures PdfLink(t[j..]) == [t[j]] + PdfLink(t[j + 1..])
    {
      PdfLinkCopiesOne(t, j);
    }
    CopiedPrefix(t, |host|, PdfLink);
    assert t[..|host|] == host && t[|host|..] == rest;
  }

  /** A rewrite that copies each of the first `k` characters copies them all. */
  lemma {:induction false} CopiedPrefix(t: string, k: nat, f: string -> string)
    requires k <= |t|
    requires forall j :: 0 <= j < k ==> f(t[j..]) == [t[j]] + f(t[j + 1..])
    ensures f(t) == t[..k] + f(t[k..])
    decreases k
  {
    if k == 0 {
      assert t[..0] == [] && t[0..] == t;
    } else {
      CopiedPrefix(t, k - 1, f);
      assert t[..k - 1] + [t[k - 1]] == t[..k];
    }
  }

  /** A character where no `/doi/` starts is copied. */
  lemma PdfLinkCopiesOne(t: string, j: nat)
    requires j < |t| && !At(t, "/doi/", j)
    ensures PdfLink(t[j..]) == [t[j]] + PdfLink(t[j + 1..])
  {
    var u := t[j..];
    assert !StartsWith(u, "/doi/") by {
      if 5 <= |u| {
        assert u[..5] == t[j..j + 5];
      }
    }
    NoDoiNoMatch(u);
    assert u[1..] == t[j + 1..];
  }

  /** A URL without `/doi/` is its own PDF link. */
  lemma PdfLinkWithoutDoi(url: string)
    requires !Contains(url, "/doi/")
    ensures PdfLink(url) == url
  {
    assert forall i :: 0 <= i < |url| ==> !At(url + "", "/doi/", i) by {
      assert url + "" == url;
    }
    PdfLinkCopies(url, "");
    assert url + "" == url;
  }

  /** A DOI page path is replaced by the PDF path of the same DOI. */
  lemma MatchDoiPageReads(page: string, doi: string, rest: string)
    requires page == "abs" || page == "full"
    requires |doi| > 0 && (forall k :: 0 <= k < |doi| ==> doi[k] != '/') && (|rest| == 0 || rest[0] == '/')
    ensures MatchDoiPage("/doi/" + page + "/" + doi + rest) == Some(("/doi/pdf/" + doi, 6 + |page| + |doi|))
  {
    var tail := "/doi/" + page + "/" + doi + rest;
    var k := 6 + |page|;
    if page == "abs" {
      assert tail[..9] == "/doi/abs/";
    } else {
      assert tail[..10] == "/doi/full/";
      assert tail[5] == 'f';
    }
    assert tail[k..] == doi + rest;
    NonSlashRunIs(tail, k, k + |doi|);
    assert tail[k..k + |doi|] == doi;
  }

  /** The DOI page of an abstract or full-text URL is rewritten to its PDF page. */
  lemma PdfLinkRewrites(host: string, page: string, doi: string, rest: string)
    requires page == "abs" || page == "full"
    requires |doi| > 0 && (forall k :: 0 <= k < |doi| ==> doi[k] != '/') && (|rest| == 0 || rest[0] == '/')
    requires !Contains(rest, "/doi/")
    requires forall i :: 0 <= i < |host| ==> !At(host + ("/doi/" + page + "/" + doi + rest), "/doi/", i)
    ensures PdfLink(host + ("/doi/" + page + "/" + doi + rest)) == host + ("/doi/pdf/" + doi + rest)
  {
    var tail := "/doi/" + page + "/" + doi + rest;
    PdfLinkCopies(host, tail);
    MatchDoiPageReads(page, doi, rest);
    assert tail[6 + |page| + |doi|..] == rest;
    PdfLinkWithoutDoi(rest);
  }

  lemma NonSlashRunIs(s: string, i: nat, k: nat)
    requires i <= k <= |s| && (forall j :: i <= j < k ==> s[j] != '/') && (k == |s| || s[k] == '/')
    ensures NonSlashRunEnd(s, i) == k
  {
  }

  // ---------------------------------------------------------------------
  // Sentinels

  /**
   * The summary and keywords of the allergy pass: the summariser and the
   * keyword extractor run on a real abstract, and a missing abstract ("N/A")
   * gives "N/A" for both without calling them.
   */
  function DerivedFromAbstract(abstractText: string, summarize: string -> string, keywords: string -> string): (r: (string, string))
    ensures abstractText == NotAvailable ==> r == (NotAvailable, NotAvailable)
    ensures abstractText != NotAvailable ==> r == (summarize(abstractText), keywords(abstractText))
  {
    if abstractText == NotAvailable then (NotAvailable, NotAvailable)
    else (summarize(abstractText), keywords(abstractText))
  }

  /**
   * A missing abstract leaves no trace of the models anywhere: no summary,
   * no keywords, and the zero vector as its embedding, whatever the
   * summariser, keyword extractor and encoder are.
   */
  lemma MissingAbstractIgnoresModels(summarize: string -> string, keywords: string -> string, encode: string -> Vector,
                                     summarize2: string -> string, keywords2: string -> string, encode2: string -> Vector)
    ensures DerivedFromAbstract(NotAvailable, summarize, keywords) == DerivedFromAbstract(NotAvailable, summarize2, keywords2)
    ensures GenerateEmbedding(NotAvailable, encode) == GenerateEmbedding(NotAvailable, encode2) == ZeroVector()
  {
    NothingToEmbedIgnoresEncoder(NotAvailable, NotAvailable, encode, encode2);
  }

  /** The Bone & Joint volume: the `citation_volume` tag cut to its first three characters, "N/A" when absent. */
  function BoneVolume(tag: Option<string>): (r: string)
    ensures |r| <= 3
    ensures tag.None? ==> r == NotAvailable
    ensures tag.Some? ==> r <= tag.value && (|tag.value| <= 3 ==> r == tag.value) && (|tag.value| >= 3 ==> |r| == 3)
  {
    var v := tag.GetOr(NotAvailable);
    v[..if |v| < 3 then |v| else 3]
  }
}
