/**
 * The per-journal article passes: read the journal's pending links from
 * `article_links`, scrape each page, store its metadata row and flag the
 * link 'done'. Fetching and parsing a page are inputs (`fetch`, `None` when
 * either raises), as are the failures of the database and vector writes.
 */
module Passes {
  import opened Wrappers
  import opened Vectors
  import opened Ledger
  import opened Metadata
  import opened ArticleDates

  /** One write a pass performs, in the order performed. */
  datatype Write =
    | StoreMetadata(url: string)
    | AppendVector(collection: string, url: string)
    | FlagEmbeddings(url: string)
    | FlagScraped(url: string)

  /** What parsing a page yields: the metadata columns, and the raw publication-date meta tag if present. */
  datatype Page = Page(columns: ArticleRecord, rawDate: Option<string>)

  /** How a pass turns the raw date tag into the stored publication date. */
  datatype DateRule =
      /** `strptime(tag or "N/A", "%B %d, %Y")` with no handler: a bad date raises. */
    | StrictLongDate
      /** The tag as it is, `default` when absent. */
    | RawOr(default: string)
      /** Full date, else month and year, else "N/A". */
    | MonthFallback
      /** Full date, else "N/A"; an absent tag defaults to "2001/01/01", which fails. */
    | JasnRule

  function PublicationDate(rule: DateRule, raw: Option<string>): (r: Option<string>)
    ensures rule != StrictLongDate ==> r.Some?
  {
    match rule
    case StrictLongDate => JbjsDate(raw)
    case RawOr(default) => Some(raw.GetOr(default))
    case MonthFallback => Some(MonthFallbackDate(raw))
    case JasnRule => Some(JasnDate(raw))
  }

  /**
   * The row a pass stores for a link: the page's columns with the pass's
   * own speciality, url, publication date and an embeddings column of
   * 'pending'; `None` when the page cannot be fetched or parsed.
   */
  function ScrapeRow(link: string, table: string, fetch: string -> Option<Page>, rule: DateRule): (r: Option<ArticleRecord>)
    ensures r.Some? ==> fetch(link).Some? && PublicationDate(rule, fetch(link).value.rawDate).Some?
    ensures r.Some? ==> r.value.url == link && r.value.speciality == table && r.value.embeddings == Some("pending")
    ensures r.Some? ==> r.value.publicationDate == PublicationDate(rule, fetch(link).value.rawDate).value
  {
    match fetch(link)
    case None => None
    case Some(page) =>
      match PublicationDate(rule, page.rawDate)
      case None => None
      case Some(date) =>
        Some(page.columns.(speciality := table, url := link, publicationDate := date, embeddings := Some("pending")))
  }

  /** A strict pass skips a page whose date is not a full `Month D, YYYY`, and the same page under the fallback rule is stored. */
  lemma StrictDateSkips(link: string, table: string, fetch: string -> Option<Page>)
    requires fetch(link).Some? && JbjsDate(fetch(link).value.rawDate).None?
    ensures ScrapeRow(link, table, fetch, StrictLongDate).None?
    ensures ScrapeRow(link, table, fetch, MonthFallback).Some?
  {
  }

  // ---------------------------------------------------------------------
  // The single-store passes (`crawl_article_jbjs`, `crawl_article_ajrccm`,
  // `crawl_article_allergy` and their siblings)

  /** What a pass has changed so far: the link rows, the article tables and the writes in order. */
  datatype Crawl = Crawl(links: Links, tables: Tables, writes: seq<Write>)

  /**
   * One link: a page that scrapes has its row stored and then its link
   * flagged; one that raises changes nothing. `flagFault(link)` is the
   * `scraped = 'done'` update raising: the row stays stored and the link
   * stays pending.
   */
  function PassStep(s: Crawl, link: string, table: string, fetch: string -> Option<Page>, rule: DateRule,
                    storeFault: string -> StoreFault, flagFault: string -> bool): Crawl
  {
    match ScrapeRow(link, table, fetch, rule)
    case None => s
    case Some(rec) =>
      var tables := StoreArticle(s.tables, table, rec, storeFault(link));
      if flagFault(link) then Crawl(s.links, tables, s.writes + [StoreMetadata(link)])
      else Crawl(MarkDone(s.links, link), tables, s.writes + [StoreMetadata(link), FlagScraped(link)])
  }

  /**
   * A failed `scraped` update after a stored row leaves the link rows as they
   * were, so the next pass selects the link again; the row itself is stored.
   */
  lemma FlagFaultKeepsPending(s: Crawl, link: string, table: string, fetch: string -> Option<Page>, rule: DateRule,
                              storeFault: string -> StoreFault, flagFault: string -> bool)
    ensures ScrapeRow(link, table, fetch, rule).Some? && flagFault(link) ==>
              PassStep(s, link, table, fetch, rule, storeFault, flagFault).links == s.links
    ensures ScrapeRow(link, table, fetch, rule).Some? && storeFault(link) == NoStoreFault ==>
              var r := PassStep(s, link, table, fetch, rule, storeFault, flagFault);
              table in r.tables && link in r.tables[table]
  {
  }

  /** The links one after the other; a failing link does not stop the rest. */
  function PassRun(s: Crawl, links: seq<string>, table: string, fetch: string -> Option<Page>, rule: DateRule, storeFault: string -> StoreFault, flagFault: string -> bool): Crawl
    decreases |links|
  {
    if |links| == 0 then s
    else PassStep(PassRun(s, links[..|links| - 1], table, fetch, rule, storeFault, flagFault), links[|links| - 1], table, fetch, rule, storeFault, flagFault)
  }

  /** The links whose page scrapes and whose `scraped` update goes through. */
  function DoneSet(links: seq<string>, table: string, fetch: string -> Option<Page>, rule: DateRule, flagFault: string -> bool): set<string>
  {
    set l | l in links && ScrapeRow(l, table, fetch, rule).Some? && !flagFault(l)
  }

  /** The done set grows by the last link when its page scrapes and its update goes through. */
  lemma DoneSetSnoc(links: seq<string>, table: string, fetch: string -> Option<Page>, rule: DateRule, flagFault: string -> bool)
    requires |links| > 0
    ensures var init, l := links[..|links| - 1], links[|links| - 1];
            DoneSet(links, table, fetch, rule, flagFault)
            == DoneSet(init, table, fetch, rule, flagFault)
               + (if ScrapeRow(l, table, fetch, rule).Some? && !flagFault(l) then {l} else {})
  {
    assert links == links[..|links| - 1] + [links[|links| - 1]];
  }

  /** The link rows after a pass: the scraped links whose update goes through, flagged one after the other. */
  lemma PassRunLinks(s: Crawl, links: seq<string>, table: string, fetch: string -> Option<Page>, rule: DateRule, storeFault: string -> StoreFault, flagFault: string -> bool)
    requires |links| > 0
    ensures var init, l := links[..|links| - 1], links[|links| - 1];
            var mid := PassRun(s, init, table, fetch, rule, storeFault, flagFault).links;
            PassRun(s, links, table, fetch, rule, storeFault, flagFault).links
            == if ScrapeRow(l, table, fetch, rule).Some? && !flagFault(l) then MarkDone(mid, l) else mid
  {
  }

  /**
   * After a pass exactly the links that scraped and were flagged have left
   * the journal's pending set: a link whose page raised, or whose update
   * raised, is still pending, and only pending links were touched.
   */
  lemma {:induction false} PassRunPending(s: Crawl, links: seq<string>, journal: string, table: string,
                                          fetch: string -> Option<Page>, rule: DateRule, storeFault: string -> StoreFault, flagFault: string -> bool)
    ensures PendingOf(PassRun(s, links, table, fetch, rule, storeFault, flagFault).links, journal)
         == PendingOf(s.links, journal) - DoneSet(links, table, fetch, rule, flagFault)
    ensures PassRun(s, links, table, fetch, rule, storeFault, flagFault).links.Keys == s.links.Keys
    decreases |links|
  {
    if |links| > 0 {
      var init, l := links[..|links| - 1], links[|links| - 1];
      PassRunPending(s, init, journal, table, fetch, rule, storeFault, flagFault);
      var mid := PassRun(s, init, table, fetch, rule, storeFault, flagFault).links;
      PassRunLinks(s, links, table, fetch, rule, storeFault, flagFault);
      DoneSetSnoc(links, table, fetch, rule, flagFault);
      if ScrapeRow(l, table, fetch, rule).Some? && !flagFault(l) {
        MarkDonePending(mid, l, journal);
      }
    }
  }

  /** Every link flag comes right after the metadata write for the same link. */
  predicate FlagsFollowStores(w: seq<Write>)
  {
    forall i :: 0 <= i < |w| && w[i].FlagScraped? ==> i > 0 && w[i - 1] == StoreMetadata(w[i].url)
  }

  lemma FlagsFollowStoresAppend(w: seq<Write>, more: seq<Write>)
    requires FlagsFollowStores(w) && FlagsFollowStores(more) && (|more| > 0 ==> !more[0].FlagScraped?)
    ensures FlagsFollowStores(w + more)
  {
    var r := w + more;
    forall i | 0 <= i < |r| && r[i].FlagScraped? ensures i > 0 && r[i - 1] == StoreMetadata(r[i].url) {
      if i < |w| {
        assert r[i] == w[i] && r[i - 1] == w[i - 1];
      } else {
        assert r[i] == more[i - |w|];
        assert i - |w| > 0;
        assert r[i - 1] == more[i - 1 - |w|];
      }
    }
  }

  /** A pass only appends writes, and flags a link only right after storing its row. */
  lemma {:induction false} PassRunWriteOrder(s: Crawl, links: seq<string>, table: string,
                                             fetch: string -> Option<Page>, rule: DateRule, storeFault: string -> StoreFault, flagFault: string -> bool)
    requires FlagsFollowStores(s.writes)
    ensures var r := PassRun(s, links, table, fetch, rule, storeFault, flagFault);
            s.writes <= r.writes && FlagsFollowStores(r.writes)
    decreases |links|
  {
    if |links| > 0 {
      var init, l := links[..|links| - 1], links[|links| - 1];
      PassRunWriteOrder(s, init, table, fetch, rule, storeFault, flagFault);
      var mid := PassRun(s, init, table, fetch, rule, storeFault, flagFault).writes;
      var more := if ScrapeRow(l, table, fetch, rule).None? then []
                  else if flagFault(l) then [StoreMetadata(l)] else [StoreMetadata(l), FlagScraped(l)];
      assert PassRun(s, links, table, fetch, rule, storeFault, flagFault).writes == mid + more;
      FlagsFollowStoresAppend(mid, more);
    }
  }

  /** A pass never changes an article row that was already stored. */
  lemma {:induction false} PassRunKeepsRows(s: Crawl, links: seq<string>, table: string,
                                            fetch: string -> Option<Page>, rule: DateRule, storeFault: string -> StoreFault, flagFault: string -> bool,
                                            n: string, u: string)
    requires n in s.tables && u in s.tables[n]
    ensures var r := PassRun(s, links, table, fetch, rule, storeFault, flagFault);
            n in r.tables && u in r.tables[n] && r.tables[n][u] == s.tables[n][u]
    decreases |links|
  {
    if |links| > 0 {
      PassRunKeepsRows(s, links[..|links| - 1], table, fetch, rule, storeFault, flagFault, n, u);
    }
  }

  /** The `scraped` column after `ensure_scraped_column_exists`, or as it was when the pass does not call it. */
  function EnsuredRows(rows: Links, hasColumn: bool, ensureColumn: bool): Links
  {
    if ensureColumn && !hasColumn then AllPending(rows) else rows
  }

  /** One link of a pass: scrape, store the row, flag the link unless the update raises. */
  method VisitLink(ledger: LinkTable, store: MetadataStore, link: string, table: string,
                   fetch: string -> Option<Page>, rule: DateRule, storeFault: string -> StoreFault, flagFault: string -> bool, writes: seq<Write>)
    returns (after: seq<Write>)
    modifies ledger, store
    ensures ledger.hasScrapedColumn == old(ledger.hasScrapedColumn)
    ensures Crawl(ledger.rows, store.tables, after)
         == PassStep(Crawl(old(ledger.rows), old(store.tables), writes), link, table, fetch, rule, storeFault, flagFault)
  {
    after := writes;
    var row := ScrapeRow(link, table, fetch, rule);
    if row.Some? {
      store.InsertArticleMetadata(table, row.value, storeFault(link));
      if flagFault(link) {
        after := writes + [StoreMetadata(link)];
      } else {
        ledger.MarkScrapedDone(link);
        after := writes + [StoreMetadata(link), FlagScraped(link)];
      }
    }
  }

  /**
   * A single-store pass. `ensureColumn` says whether the pass first calls
   * `ensure_scraped_column_exists`, and `columnFault` whether that call's
   * statements raise; without the column the pending-links query fails and
   * the pass ends, as it does when no link is pending.
   */
  method CrawlArticlePass(ledger: LinkTable, store: MetadataStore, journal: string, table: string,
                          fetch: string -> Option<Page>, rule: DateRule, storeFault: string -> StoreFault, flagFault: string -> bool, ensureColumn: bool, columnFault: bool)
    returns (links: seq<string>, writes: seq<Write>)
    modifies ledger, store
    ensures ledger.hasScrapedColumn == (old(ledger.hasScrapedColumn) || (ensureColumn && !columnFault))
    ensures !ledger.hasScrapedColumn ==> links == [] && writes == [] && ledger.rows == old(ledger.rows) && store.tables == old(store.tables)
    ensures ledger.hasScrapedColumn ==>
              var rows := EnsuredRows(old(ledger.rows), old(ledger.hasScrapedColumn), ensureColumn && !columnFault);
              (set l | l in links) == PendingOf(rows, journal)
              && (forall i, j :: 0 <= i < j < |links| ==> links[i] != links[j])
              && Crawl(ledger.rows, store.tables, writes) == PassRun(Crawl(rows, old(store.tables), []), links, table, fetch, rule, storeFault, flagFault)
    ensures links == [] ==> writes == [] && store.tables == old(store.tables)
  {
    if ensureColumn {
      ledger.EnsureScrapedColumnExists(columnFault);
    }
    if !ledger.hasScrapedColumn {
      return [], [];
    }
    links := ledger.PendingLinks(journal);
    writes := [];
    if |links| == 0 {
      return;
    }
    ghost var start := Crawl(ledger.rows, store.tables, []);
    var i := 0;
    while i < |links|
      invariant 0 <= i <= |links| && ledger.hasScrapedColumn
      invariant Crawl(ledger.rows, store.tables, writes) == PassRun(start, links[..i], table, fetch, rule, storeFault, flagFault)
    {
      writes := VisitLink(ledger, store, links[i], table, fetch, rule, storeFault, flagFault, writes);
      assert links[..i + 1][..i] == links[..i];
      i := i + 1;
    }
    assert links[..i] == links;
  }
}
