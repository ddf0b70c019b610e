/**
 * The discovery crawlers (`crawl_page_*.py`): they scan a journal's current
 * issues, collect article links, drop the links the `article_links` table
 * already holds, and pass the rest to `insert_into_database`.
 *
 * Fetching and parsing pages are left out: a fetched issue page is given
 * as its outcome and the links its selectors yield, and `fetch` is a
 * parameter.
 */
module Discovery {
  import opened Wrappers
  import opened Text
  import opened Ledger
  import Enumeration
  import Extractors
  import opened ArticleIds

  predicate Distinct(xs: seq<string>)
  {
    forall i, j :: 0 <= i < j < |xs| ==> xs[i] != xs[j]
  }

  // ---------------------------------------------------------------------
  // The filter against the ledger

  /** `SELECT article_link FROM article_links WHERE journal_name = %s`, as a set. */
  function Existing(rows: Links, journal: string): (r: set<string>)
    ensures forall l :: l in r <==> l in rows && rows[l].journal == journal
  {
    set l | l in rows && rows[l].journal == journal
  }

  /** `[link for link in links if link not in existing_data]`. */
  function NewLinks(links: seq<string>, existing: set<string>): (r: seq<string>)
    ensures forall l :: l in r <==> l in links && l !in existing
    ensures |r| <= |links|
    decreases |links|
  {
    if |links| == 0 then []
    else
      var init := links[..|links| - 1];
      var last := links[|links| - 1];
      assert links == init + [last];
      if last in existing then NewLinks(init, existing) else NewLinks(init, existing) + [last]
  }

  /** The filter keeps the order: filtering a concatenation filters each part. */
  lemma {:induction false} NewLinksConcat(a: seq<string>, b: seq<string>, existing: set<string>)
    ensures NewLinks(a + b, existing) == NewLinks(a, existing) + NewLinks(b, existing)
    decreases |b|
  {
    if |b| == 0 {
      assert a + b == a;
    } else {
      var init := b[..|b| - 1];
      NewLinksConcat(a, init, existing);
      assert (a + b)[..|a + b| - 1] == a + init;
      assert (a + b)[|a + b| - 1] == b[|b| - 1];
    }
  }

  /** Each new link keeps all its repetitions; each known link loses all of them. */
  lemma {:induction false} NewLinksCounts(links: seq<string>, existing: set<string>)
    ensures forall l :: multiset(NewLinks(links, existing))[l] == if l in existing then 0 else multiset(links)[l]
    decreases |links|
  {
    if |links| > 0 {
      var init := links[..|links| - 1];
      var last := links[|links| - 1];
      NewLinksCounts(init, existing);
      assert links == init + [last];
      assert multiset(links) == multiset(init) + multiset{last};
      if last in existing {
        assert NewLinks(links, existing) == NewLinks(init, existing);
      } else {
        assert multiset(NewLinks(links, existing)) == multiset(NewLinks(init, existing)) + multiset{last};
      }
    }
  }

  /** A list without repetitions stays without them. */
  lemma {:induction false} NewLinksDistinct(links: seq<string>, existing: set<string>)
    requires Distinct(links)
    ensures Distinct(NewLinks(links, existing))
    decreases |links|
  {
    if |links| > 0 {
      var init := links[..|links| - 1];
      var last := links[|links| - 1];
      assert Distinct(init);
      NewLinksDistinct(init, existing);
      assert last !in init;
    }
  }

  /**
   * Filtering out links the table already holds changes nothing in the
   * table: `INSERT IGNORE` would have skipped them anyway.
   */
  lemma FilterBeforeInsert(rows: Links, journal: string, links: seq<string>, specialization: string, existing: set<string>)
    requires existing <= rows.Keys
    ensures InsertLinks(rows, journal, NewLinks(links, existing), specialization) == InsertLinks(rows, journal, links, specialization)
  {
    var newLinks := NewLinks(links, existing);
    InsertLinksContents(rows, journal, links, specialization);
    InsertLinksContents(rows, journal, newLinks, specialization);
    assert rows.Keys + (set l | l in newLinks) == rows.Keys + (set l | l in links);
  }

  const Lancet := "The Lancet"

  /**
   * JAMA filters against the links of The Lancet: a JAMA link already in the
   * table is passed to the insert again, and the table still ends as if it
   * had filtered against its own links.
   */
  lemma JamaFilterHarmless(rows: Links, journal: string, links: seq<string>, specialization: string)
    requires journal != Lancet
    ensures forall l :: l in links && l in rows && rows[l].journal == journal ==> l in NewLinks(links, Existing(rows, Lancet))
    ensures InsertLinks(rows, journal, NewLinks(links, Existing(rows, Lancet)), specialization)
            == InsertLinks(rows, journal, NewLinks(links, Existing(rows, journal)), specialization)
  {
    FilterBeforeInsert(rows, journal, links, specialization, Existing(rows, Lancet));
    FilterBeforeInsert(rows, journal, links, specialization, Existing(rows, journal));
  }

  /**
   * The end of every crawler: read the links already stored for
   * `filterJournal`, filter, and insert what is left for `journal`.
   */
  method FilterAndInsert(table: LinkTable, journal: string, filterJournal: string, found: seq<string>,
                         specialization: string, failAt: Option<nat>)
    returns (newLinks: seq<string>, ok: bool)
    modifies table
    ensures newLinks == NewLinks(found, Existing(old(table.rows), filterJournal))
    ensures ok <==> (table.hasScrapedColumn || |newLinks| == 0) && !(failAt.Some? && failAt.value <= |newLinks|)
    ensures ok ==> table.rows == InsertLinks(old(table.rows), journal, found, specialization)
    ensures !ok ==> table.rows == old(table.rows)
    ensures table.hasScrapedColumn == old(table.hasScrapedColumn)
  {
    var existing := Existing(table.rows, filterJournal);
    newLinks := NewLinks(found, existing);
    FilterBeforeInsert(table.rows, journal, found, specialization, existing);
    ok := table.InsertIntoDatabase(journal, newLinks, specialization, |newLinks|, failAt);
  }

  // ---------------------------------------------------------------------
  // Issue scans

  /** What fetching one issue page gave: a page with its status and links, no response, or an exception. */
  datatype Fetch = Page(status: int, links: seq<string>) | NoResponse | Raised

  predicate IsOk(f: Fetch)
  {
    f.Page? && f.status == 200
  }

  /** What a crawler does at an issue page it cannot use. */
  datatype OnBadPage =
    | Skip  // `continue`: JAMA, Blood, Blood Advances, CID, JID, Circulation
    | Stop  // `break` at a missing or non-200 page; an exception ends the crawler (JACC)

  function Prepend(xs: seq<string>, o: Option<seq<string>>): Option<seq<string>>
  {
    if o.None? then None else Some(xs + o.value)
  }

  /** The links of the issue pages, in issue order; None when the crawler ends before the database step. */
  function Scan(pages: seq<Fetch>, policy: OnBadPage): (r: Option<seq<string>>)
    ensures policy == Skip ==> r.Some?
    decreases |pages|
  {
    if |pages| == 0 then Some([])
    else if IsOk(pages[0]) then Prepend(pages[0].links, Scan(pages[1..], policy))
    else if policy == Skip then Scan(pages[1..], policy)
    else if pages[0].Raised? then None
    else Some([])
  }

  /** Skipping never gives up, and collects exactly the links of the good pages. */
  lemma {:induction false} ScanSkipCollects(pages: seq<Fetch>)
    ensures forall l :: l in Scan(pages, Skip).value <==>
              exists i :: 0 <= i < |pages| && IsOk(pages[i]) && l in pages[i].links
    decreases |pages|
  {
    if |pages| > 0 {
      ScanSkipCollects(pages[1..]);
      assert forall i :: 1 <= i < |pages| ==> pages[1..][i - 1] == pages[i];
    }
  }

  /** Stopping at the first bad page gives a prefix of what skipping gives. */
  lemma {:induction false} StopIsPrefixOfSkip(pages: seq<Fetch>)
    ensures Scan(pages, Stop).Some? ==> Scan(pages, Stop).value <= Scan(pages, Skip).value
    decreases |pages|
  {
    ScanSkipCollects(pages);
    if |pages| > 0 {
      StopIsPrefixOfSkip(pages[1..]);
      ScanSkipCollects(pages[1..]);
    }
  }

  /** When every page is good the two policies agree. */
  lemma {:induction false} StopAgreesWhenAllOk(pages: seq<Fetch>)
    requires forall i :: 0 <= i < |pages| ==> IsOk(pages[i])
    ensures Scan(pages, Stop) == Scan(pages, Skip)
    decreases |pages|
  {
    if |pages| > 0 {
      assert forall i :: 0 <= i < |pages[1..]| ==> pages[1..][i] == pages[i + 1];
      StopAgreesWhenAllOk(pages[1..]);
    }
  }

  /** After a missing or non-200 page JACC reads no further issue. */
  lemma {:induction false} StopIgnoresLaterIssues(front: seq<Fetch>, bad: Fetch, rest: seq<Fetch>)
    requires !IsOk(bad) && !bad.Raised?
    ensures Scan(front + [bad] + rest, Stop) == Scan(front, Stop)
    decreases |front|
  {
    if |front| > 0 {
      assert (front + [bad] + rest)[1..] == front[1..] + [bad] + rest;
      StopIgnoresLaterIssues(front[1..], bad, rest);
    } else {
      assert front + [bad] + rest == [bad] + rest;
    }
  }

  /** The issue loop: `continue` or `break` at a bad page, `links.append` at a good one. */
  method CollectIssueLinks(pages: seq<Fetch>, policy: OnBadPage) returns (aborted: bool, links: seq<string>)
    ensures aborted <==> Scan(pages, policy).None?
    ensures !aborted ==> links == Scan(pages, policy).value
  {
    links := [];
    aborted := false;
    var i := 0;
    assert pages[0..] == pages;
    assert Scan(pages, policy).Some? ==> [] + Scan(pages, policy).value == Scan(pages, policy).value;
    while i < |pages|
      invariant 0 <= i <= |pages|
      invariant Scan(pages, policy) == Prepend(links, Scan(pages[i..], policy))
    {
      var page := pages[i];
      assert pages[i..][1..] == pages[i + 1..];
      if IsOk(page) {
        var later := Scan(pages[i + 1..], policy);
        assert later.Some? ==> links + (page.links + later.value) == (links + page.links) + later.value;
        links := links + page.links;
      } else if policy == Stop {
        if page.Raised? {
          aborted := true;
          return;
        }
        assert links + [] == links;
        break;
      }
      i := i + 1;
    }
    assert links + [] == links;
  }

  /** The outcome of fetching each issue, in order (issues given by number or by link). */
  function Pages<K>(issues: seq<K>, fetch: K -> Fetch): (r: seq<Fetch>)
    ensures |r| == |issues| && forall i :: 0 <= i < |issues| ==> r[i] == fetch(issues[i])
  {
    seq(|issues|, i requires 0 <= i < |issues| => fetch(issues[i]))
  }

  /** `"https://www.jacc.org/doi/" in updated_link`: JACC keeps only DOI links. */
  const JaccDoiPrefix := "https://www.jacc.org/doi/"

  /** The links that contain `pattern`, in order. */
  function KeepContaining(links: seq<string>, pattern: string): (r: seq<string>)
    ensures forall l :: l in r <==> l in links && Contains(l, pattern)
    decreases |links|
  {
    if |links| == 0 then []
    else
      var init := links[..|links| - 1];
      var last := links[|links| - 1];
      assert links == init + [last];
      KeepContaining(init, pattern) + if Contains(last, pattern) then [last] else []
  }

  /** Filtering page by page, as JACC does, is filtering the whole list. */
  lemma {:induction false} KeepContainingConcat(a: seq<string>, b: seq<string>, pattern: string)
    ensures KeepContaining(a + b, pattern) == KeepContaining(a, pattern) + KeepContaining(b, pattern)
    decreases |b|
  {
    if |b| == 0 {
      assert a + b == a;
    } else {
      var init := b[..|b| - 1];
      KeepContainingConcat(a, init, pattern);
      assert (a + b)[..|a + b| - 1] == a + init;
      assert (a + b)[|a + b| - 1] == b[|b| - 1];
    }
  }

  /** A JACC href under `/doi/` is kept once the host is put in front of it. */
  lemma JaccDoiHrefKept(href: string, more: string)
    requires href == "/doi/" + more
    ensures Contains("https://www.jacc.org" + href, JaccDoiPrefix)
  {
    var l := "https://www.jacc.org" + href;
    assert l[..|JaccDoiPrefix|] == JaccDoiPrefix;
    ContainsIff(l, JaccDoiPrefix);
    assert At(l, JaccDoiPrefix, 0);
  }

  /**
   * A crawler over a range of issue numbers (JAMA, Blood, Blood Advances,
   * CID, JID, Circulation, JACC): scan, optionally keep only links with
   * `required` in them, then filter and insert. A crawler that ends in an
   * exception writes nothing.
   */
  method CrawlIssues(table: LinkTable, journal: string, filterJournal: string, issues: seq<int>, fetch: int -> Fetch,
                     policy: OnBadPage, required: Option<string>, specialization: string, failAt: Option<nat>)
    returns (found: seq<string>, ok: bool)
    modifies table
    ensures Scan(Pages(issues, fetch), policy).None? ==> !ok && table.rows == old(table.rows)
    ensures Scan(Pages(issues, fetch), policy).Some? ==>
              found == (if required.Some? then KeepContaining(Scan(Pages(issues, fetch), policy).value, required.value)
                        else Scan(Pages(issues, fetch), policy).value)
    ensures ok ==> table.rows == InsertLinks(old(table.rows), journal, found, specialization)
    ensures !ok ==> table.rows == old(table.rows)
  {
    var pages := Pages(issues, fetch);
    var aborted;
    aborted, found := CollectIssueLinks(pages, policy);
    if aborted {
      return found, false;
    }
    if required.Some? {
      found := KeepContaining(found, required.value);
    }
    var newLinks;
    newLinks, ok := FilterAndInsert(table, journal, filterJournal, found, specialization, failAt);
  }

  // ---------------------------------------------------------------------
  // Crawlers over an issue list (Elsevier `issueGroupId` pages)

  /** The links of the issue pages that could be read, each page's sections chosen by `rule`. */
  function IssueHrefs(issueLinks: seq<string>, pageOf: string -> Option<seq<Section>>, rule: SectionRule): seq<string>
    decreases |issueLinks|
  {
    if |issueLinks| == 0 then []
    else
      var init := issueLinks[..|issueLinks| - 1];
      var page := pageOf(issueLinks[|issueLinks| - 1]);
      IssueHrefs(init, pageOf, rule) + if page.Some? then SectionLinks(rule, page.value) else []
  }

  /** The loop over the issue links: each page that could be read gives the links of its chosen sections. */
  method CollectIssueHrefs(issueOrder: seq<string>, pageOf: string -> Option<seq<Section>>, sections: SectionRule)
    returns (hrefs: seq<string>)
    ensures hrefs == IssueHrefs(issueOrder, pageOf, sections)
  {
    hrefs := [];
    var i := 0;
    while i < |issueOrder|
      invariant 0 <= i <= |issueOrder|
      invariant hrefs == IssueHrefs(issueOrder[..i], pageOf, sections)
    {
      assert issueOrder[..i + 1][..i] == issueOrder[..i];
      var page := pageOf(issueOrder[i]);
      if page.Some? {
        var found;
        match sections {
          case AnyOf(keywords) =>
            found := KeywordSectionLinks(page.value, keywords);
          case UntilStopWord =>
            found := SectionsUntilStop(page.value);
        }
        hrefs := hrefs + found;
      }
      i := i + 1;
    }
    assert issueOrder[..|issueOrder|] == issueOrder;
  }

  /**
   * CHEST, JACI, Journal of Pediatrics, Kidney International, AJKD: the
   * issue links of the volume's list (a set, visited in an order the set
   * does not promise), the chosen sections of each issue page (`pageOf`
   * gives None where reading the page raised), de-duplication by article
   * identifier across all issues, then filter and insert. Here the filter
   * reads the links of the crawler's own journal.
   */
  method CrawlIssueList(table: LinkTable, journal: string, base: string, issueAnchors: seq<string>,
                        pageOf: string -> Option<seq<Section>>, sections: SectionRule, ids: IdRule,
                        specialization: string, failAt: Option<nat>)
    returns (issueOrder: seq<string>, hrefs: seq<string>, links: seq<string>, ok: bool)
    modifies table
    ensures (set l | l in issueOrder) == (set a | a in issueAnchors) && Distinct(issueOrder)
    ensures hrefs == IssueHrefs(issueOrder, pageOf, sections)
    ensures (set l | l in links) == (set k | k in Kept(IdOf(ids), hrefs) :: UrlJoin(base, k)) && Distinct(links)
    ensures ok ==> table.rows == InsertLinks(old(table.rows), journal, links, specialization)
    ensures !ok ==> table.rows == old(table.rows)
  {
    var uniqueLinks := set a | a in issueAnchors;
    issueOrder := Enumeration.Enumerate(uniqueLinks);
    hrefs := CollectIssueHrefs(issueOrder, pageOf, sections);
    var articleLinks, processed := CollectArticleLinks(IdOf(ids), base, hrefs);
    links := Enumeration.Enumerate(articleLinks);
    var newLinks;
    newLinks, ok := FilterAndInsert(table, journal, journal, links, specialization, failAt);
  }

  /**
   * JAAD: an index page that is missing or not 200 ends the crawler
   * before the database step; otherwise each issue link of the index (a
   * set) is fetched, a bad or failed issue page is skipped, and the
   * article links of the good pages are gathered into a set (there is no
   * de-duplication by identifier here), filtered and inserted.
   */
  method CrawlJaad(table: LinkTable, journal: string, index: Fetch, issuePage: string -> Fetch,
                   specialization: string, failAt: Option<nat>)
    returns (issueOrder: seq<string>, links: seq<string>, ok: bool)
    modifies table
    ensures !IsOk(index) ==> !ok && table.rows == old(table.rows)
    ensures IsOk(index) ==> (set l | l in issueOrder) == (set a | a in index.links) && Distinct(issueOrder)
    ensures IsOk(index) ==> Distinct(links)
    ensures IsOk(index) ==>
              forall l :: l in links <==>
                exists i :: 0 <= i < |issueOrder| && IsOk(issuePage(issueOrder[i])) && l in issuePage(issueOrder[i]).links
    ensures ok ==> table.rows == InsertLinks(old(table.rows), journal, links, specialization)
    ensures !ok ==> table.rows == old(table.rows)
  {
    if !IsOk(index) {
      return [], [], false;
    }
    var uniqueLinks := set a | a in index.links;
    issueOrder := Enumeration.Enumerate(uniqueLinks);
    var pages := Pages(issueOrder, issuePage);
    var aborted, gathered := CollectIssueLinks(pages, Skip);
    ScanSkipCollects(pages);
    var articleLinks := set l | l in gathered;
    links := Enumeration.Enumerate(articleLinks);
    forall l | l in links
      ensures l in gathered
    {
      assert l in (set x | x in links);
      assert l in articleLinks;
    }
    forall l | l in gathered
      ensures l in links
    {
      assert l in articleLinks;
    }
    var newLinks;
    newLinks, ok := FilterAndInsert(table, journal, journal, links, specialization, failAt);
  }

  /**
   * The links NDT gathers from its one issue page (the current month): a
   * request error is caught and leaves the list empty, while a missing
   * response makes the parse raise and ends the crawler (None). The status
   * is not looked at.
   */
  function NdtLinks(page: Fetch): Option<seq<string>>
  {
    match page
    case Page(_, links) => Some(links)
    case Raised => Some([])
    case NoResponse => None
  }

  /** NDT: `insert_into_database` is called only when something is new. */
  method CrawlNdt(table: LinkTable, journal: string, page: Fetch, specialization: string, failAt: Option<nat>)
    returns (newLinks: seq<string>, inserted: bool, ok: bool)
    modifies table
    ensures NdtLinks(page).None? ==> !inserted && !ok && table.rows == old(table.rows)
    ensures NdtLinks(page).Some? ==> newLinks == NewLinks(NdtLinks(page).value, Existing(old(table.rows), journal))
    ensures inserted <==> NdtLinks(page).Some? && |newLinks| > 0
    ensures !inserted ==> table.rows == old(table.rows)
    ensures ok ==> inserted && table.rows == InsertLinks(old(table.rows), journal, newLinks, specialization)
    ensures ok <==> inserted && table.hasScrapedColumn && !(failAt.Some? && failAt.value <= |newLinks|)
    ensures table.hasScrapedColumn == old(table.hasScrapedColumn)
  {
    var found := NdtLinks(page);
    if found.None? {
      return [], false, false;
    }
    newLinks := NewLinks(found.value, Existing(table.rows, journal));
    inserted := |newLinks| > 0;
    ok := false;
    if inserted {
      ok := table.InsertIntoDatabase(journal, newLinks, specialization, |newLinks|, failAt);
    }
  }

  // ---------------------------------------------------------------------
  // RSS feeds (Gut, Gastroenterology)

  /** Gut: the feed's links as a set, so the filtered list has no repetitions. */
  method GutNewLinks(feed: seq<string>, existing: set<string>) returns (newLinks: seq<string>)
    ensures forall l :: l in newLinks <==> l in feed && l !in existing
    ensures Distinct(newLinks)
  {
    var unique := set l | l in feed;
    var links := Enumeration.Enumerate(unique);
    forall l
      ensures l in links <==> l in feed
    {
      if l in links {
        assert l in (set x | x in links);
        assert l in unique;
      }
      if l in feed {
        assert l in unique;
        assert l in (set x | x in links);
      }
    }
    newLinks := NewLinks(links, existing);
    NewLinksDistinct(links, existing);
  }

  /** `\((\d+)\)` at the start of `t`: the number in parentheses. */
  function MatchParenNumber(t: string): (r: Option<nat>)
  {
    if |t| == 0 || t[0] != '(' then None
    else
      var e := DigitRunEnd(t, 1);
      if e > 1 && e < |t| && t[e] == ')' then Some(NatOf(t[1..e])) else None
  }

  /** The first parenthesised number of a URL, the volume year of the Gastroenterology links. */
  function ParenNumber(url: string): Option<nat>
  {
    Extractors.Search(url, MatchParenNumber)
  }

  /** `int(m.group(1)) if m else 0`. */
  function YearOrZero(url: string): nat
  {
    match ParenNumber(url)
    case Some(n) => n
    case None => 0
  }

  /** `max(...)` over the feed; None where `max` of an empty feed raises. */
  function LatestYear(urls: seq<string>): (r: Option<nat>)
    ensures r.Some? <==> |urls| > 0
    ensures r.Some? ==> forall u :: u in urls ==> YearOrZero(u) <= r.value
    ensures r.Some? ==> exists u :: u in urls && YearOrZero(u) == r.value
    decreases |urls|
  {
    if |urls| == 0 then None
    else
      var init := urls[..|urls| - 1];
      var last := urls[|urls| - 1];
      assert urls == init + [last];
      var m := LatestYear(init);
      if m.Some? && m.value >= YearOrZero(last) then m else Some(YearOrZero(last))
  }

  /** The URLs whose first parenthesised number is `year`. */
  function WithYear(urls: seq<string>, year: nat): (r: seq<string>)
    ensures forall u :: u in r <==> u in urls && ParenNumber(u) == Some(year)
    decreases |urls|
  {
    if |urls| == 0 then []
    else
      var init := urls[..|urls| - 1];
      var last := urls[|urls| - 1];
      assert urls == init + [last];
      WithYear(init, year) + if ParenNumber(last) == Some(year) then [last] else []
  }

  /** Gastroenterology: the feed's links of its latest year; None when the empty feed makes `max` raise. */
  function LatestLinks(urls: seq<string>): Option<seq<string>>
  {
    match LatestYear(urls)
    case None => None
    case Some(y) => Some(WithYear(urls, y))
  }

  /**
   * The kept links are those of the latest year and no others; links
   * without a number are dropped; and as soon as one link has a number
   * something is kept.
   */
  lemma LatestLinksAreLatest(urls: seq<string>)
    ensures LatestLinks(urls).Some? <==> |urls| > 0
    ensures LatestLinks(urls).Some? ==> forall u :: u in LatestLinks(urls).value <==>
              u in urls && ParenNumber(u).Some? && forall v :: v in urls ==> YearOrZero(v) <= ParenNumber(u).value
    ensures (exists u :: u in urls && ParenNumber(u).Some?) ==> LatestLinks(urls).Some? && |LatestLinks(urls).value| > 0
  {
    if |urls| > 0 {
      forall u | u in urls && ParenNumber(u).Some? && (forall v :: v in urls ==> YearOrZero(v) <= ParenNumber(u).value)
        ensures u in LatestLinks(urls).value
      {
        LatestYearAttained(urls, u);
      }
      if exists u :: u in urls && ParenNumber(u).Some? {
        var u :| u in urls && ParenNumber(u).Some?;
        LatestLinksNonEmpty(urls, u);
      }
    }
  }

  /** A numbered link that no link's year exceeds has the latest year. */
  lemma LatestYearAttained(urls: seq<string>, u: string)
    requires u in urls && ParenNumber(u).Some?
    requires forall v :: v in urls ==> YearOrZero(v) <= ParenNumber(u).value
    ensures LatestYear(urls) == Some(ParenNumber(u).value)
  {
    var y := LatestYear(urls).value;
    var top :| top in urls && YearOrZero(top) == y;
    assert YearOrZero(u) <= y;
  }

  /** Some link has the latest year as soon as one link has a number. */
  lemma LatestLinksNonEmpty(urls: seq<string>, u: string)
    requires u in urls && ParenNumber(u).Some?
    ensures LatestLinks(urls).Some? && |LatestLinks(urls).value| > 0
  {
    var y := LatestYear(urls).value;
    var top :| top in urls && YearOrZero(top) == y;
    if ParenNumber(top).None? {
      assert YearOrZero(u) <= 0;
      assert u in LatestLinks(urls).value;
    } else {
      assert top in LatestLinks(urls).value;
    }
  }

  // ---------------------------------------------------------------------
  // Two crawlers that filter the wrong list

  /**
   * Emerging Infectious Diseases as written: the feed's links go to
   * `links`, but the filter runs over `article_links`, which stays empty.
   */
  function CdcNewLinksAsWritten(feed: seq<string>, existing: set<string>): seq<string>
  {
    var articleLinks: seq<string> := [];
    NewLinks(articleLinks, existing)
  }

  /** As written, a new link of the feed never reaches the table. */
  lemma CdcFeedLinkLost()
    ensures var feed := ["https://wwwnc.cdc.gov/eid/article/31/1/24-0001_article"];
            feed[0] !in CdcNewLinksAsWritten(feed, {}) && |CdcNewLinksAsWritten(feed, {})| == 0
  {
  }

  /** As intended: the feed's links that are not stored yet. */
  function CdcNewLinks(feed: seq<string>, existing: set<string>): seq<string>
  {
    NewLinks(feed, existing)
  }

  lemma CdcNewLinksKeepsFeed(feed: seq<string>, existing: set<string>)
    ensures forall l :: l in CdcNewLinks(feed, existing) <==> l in feed && l !in existing
    ensures CdcNewLinks(feed, existing) == [] ==> forall l :: l in feed ==> l in existing
  {
  }

  /**
   * CHEST as written: the filter runs over `links`, the anchors of the
   * volume's issue list, instead of the article links gathered from the
   * issue pages. The anchors are given here by their hrefs; in the program
   * they are parsed tags, which the link insert cannot bind, so that insert
   * fails and commits nothing.
   */
  function ChestNewLinksAsWritten(issueAnchors: seq<string>, articleLinks: seq<string>, existing: set<string>): seq<string>
  {
    NewLinks(issueAnchors, existing)
  }

  /** As written, the articles found are not passed on; only the issue anchor is, and it cannot be stored. */
  lemma ChestArticlesLost()
    ensures var issue := "https://journal.chestnet.org/issue/S0012-3692(24)X0010-1";
            var article := "https://journal.chestnet.org/article/S0012-3692(24)04200-1/fulltext";
            ChestNewLinksAsWritten([issue], [article], {}) == [issue]
  {
  }

  /** As intended: the new article links, and only article links. */
  function ChestNewLinks(issueAnchors: seq<string>, articleLinks: seq<string>, existing: set<string>): seq<string>
  {
    NewLinks(articleLinks, existing)
  }

  lemma ChestNewLinksAreArticles(issueAnchors: seq<string>, articleLinks: seq<string>, existing: set<string>)
    ensures forall l :: l in ChestNewLinks(issueAnchors, articleLinks, existing) <==> l in articleLinks && l !in existing
  {
  }
}
