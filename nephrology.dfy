/**
 * The two nephrology article passes: `crawl_article_kidney` writes every
 * scraped article to the metadata table, to the per-specialisation vector
 * collection and to the merged one, then flags it; `crawl_article_jasn`
 * stores the metadata and flags the embeddings without writing a vector.
 */
module Nephrology {
  import opened Wrappers
  import opened Vectors
  import opened Ledger
  import opened Metadata
  import opened ArticleDates
  import opened Passes

  /** The collection the kidney pass writes besides the specialisation's own. */
  const MergedName: string := "merged_collection"

  /** Where the kidney pass's writes after the metadata insert can fail. */
  datatype KidneyFault =
    | NoFault
      /** An embedding cannot be computed. */
    | EmbedFault
      /** The insert into the specialisation's collection raises. */
    | CategoryInsertFault
      /** The insert into the merged collection raises. */
    | MergedInsertFault
      /** The embeddings update raises. */
    | EmbeddingsFlagFault
      /** The `scraped` update raises. */
    | ScrapedFlagFault

  /** Everything the kidney pass writes to: link rows, article tables, both collections, and the writes in order. */
  datatype World = World(links: Links, tables: Tables, category: seq<seq<Value>>, merged: seq<seq<Value>>, writes: seq<Write>)

  /** The metadata `add_to_milvus` receives: the row's texts and each embedding wrapped in a list. */
  function KidneyVectors(rec: ArticleRecord, encode: string -> Vector): ArticleVectors
  {
    ArticleVectors(rec.title, rec.abstractText, rec.author, rec.url,
                   [GenerateEmbedding(rec.title, encode)], [GenerateEmbedding(rec.abstractText, encode)],
                   [GenerateEmbedding(rec.author, encode)])
  }

  /** The writes of a link that goes through, in order. */
  function FullVisit(link: string, table: string): seq<Write>
  {
    [StoreMetadata(link), AppendVector(table, link), AppendVector(MergedName, link), FlagEmbeddings(link), FlagScraped(link)]
  }

  /**
   * What follows the metadata insert: both vector inserts, the embeddings
   * flag, then the link flag, each only when everything before it went
   * through. A refused insert or a missing table raises like a fault.
   */
  function VectorStage(w: World, link: string, table: string, m: ArticleVectors, fault: KidneyFault): World
  {
    if fault == EmbedFault || fault == CategoryInsertFault || !WellFormedArticle(m) then w
    else
      var w2 := w.(category := w.category + [ArticleRow(m)], writes := w.writes + [AppendVector(table, link)]);
      if fault == MergedInsertFault then w2
      else
        var w3 := w2.(merged := w2.merged + [ArticleRow(m)], writes := w2.writes + [AppendVector(MergedName, link)]);
        if fault == EmbeddingsFlagFault || table !in w3.tables then w3
        else
          var w4 := w3.(tables := w3.tables[table := SetEmbeddingsDone(w3.tables[table], link)],
                        writes := w3.writes + [FlagEmbeddings(link)]);
          if fault == ScrapedFlagFault then w4
          else w4.(links := MarkDone(w4.links, link), writes := w4.writes + [FlagScraped(link)])
  }

  /** The date rule of the kidney pass: the `citation_date` tag as it is, "N/A" when absent. */
  const KidneyDates: DateRule := RawOr(NotAvailable)

  /** One link of `crawl_article_kidney`. */
  function KidneyStep(w: World, link: string, table: string, fetch: string -> Option<Page>, encode: string -> Vector,
                      storeFault: string -> StoreFault, fault: string -> KidneyFault): World
  {
    match ScrapeRow(link, table, fetch, KidneyDates)
    case None => w
    case Some(rec) =>
      var stored := w.(tables := StoreArticle(w.tables, table, rec, storeFault(link)), writes := w.writes + [StoreMetadata(link)]);
      VectorStage(stored, link, table, KidneyVectors(rec, encode), fault(link))
  }

  /** The links one after the other; a failing link does not stop the rest. */
  function KidneyRun(w: World, links: seq<string>, table: string, fetch: string -> Option<Page>, encode: string -> Vector,
                     storeFault: string -> StoreFault, fault: string -> KidneyFault): World
    decreases |links|
  {
    if |links| == 0 then w
    else KidneyStep(KidneyRun(w, links[..|links| - 1], table, fetch, encode, storeFault, fault), links[|links| - 1],
                    table, fetch, encode, storeFault, fault)
  }

  /** The writes after the metadata insert of a link that goes through. */
  function VisitTail(link: string, table: string): seq<Write>
  {
    [AppendVector(table, link), AppendVector(MergedName, link), FlagEmbeddings(link), FlagScraped(link)]
  }

  /**
   * What the stage after the metadata insert can do: append a prefix of the
   * remaining writes, at most one row to each collection and never to the
   * merged one alone, keep the set of tables, and flag the link only when
   * nothing failed.
   */
  lemma VectorStageFacts(w: World, link: string, table: string, m: ArticleVectors, fault: KidneyFault)
    ensures var r := VectorStage(w, link, table, m, fault);
            w.writes <= r.writes && r.writes[|w.writes|..] <= VisitTail(link, table)
            && |w.category| <= |r.category| <= |w.category| + 1
            && |w.merged| <= |r.merged| && |r.merged| - |w.merged| <= |r.category| - |w.category|
            && r.tables.Keys == w.tables.Keys
            && r.links == (if fault == NoFault && WellFormedArticle(m) && table in w.tables then MarkDone(w.links, link) else w.links)
  {
    VectorStageWrites(w, link, table, m, fault);
    VectorStageRows(w, link, table, m, fault);
  }

  /** The writes of the stage are a prefix of `VisitTail`. */
  lemma VectorStageWrites(w: World, link: string, table: string, m: ArticleVectors, fault: KidneyFault)
    ensures var r := VectorStage(w, link, table, m, fault);
            w.writes <= r.writes && r.writes[|w.writes|..] <= VisitTail(link, table)
  {
    var r := VectorStage(w, link, table, m, fault);
    var tail := VisitTail(link, table);
    var n := |w.writes|;
    if fault == EmbedFault || fault == CategoryInsertFault || !WellFormedArticle(m) {
      assert r.writes[n..] == [];
    } else if fault == MergedInsertFault {
      assert r.writes[n..] == tail[..1];
    } else if fault == EmbeddingsFlagFault || table !in w.tables {
      assert r.writes[n..] == tail[..2];
    } else if fault == ScrapedFlagFault {
      assert r.writes[n..] == tail[..3];
    } else {
      assert r.writes[n..] == tail;
    }
  }

  /** The stage adds at most one row per collection, the merged one only after the other, and flags as it goes. */
  lemma VectorStageRows(w: World, link: string, table: string, m: ArticleVectors, fault: KidneyFault)
    ensures var r := VectorStage(w, link, table, m, fault);
            |w.category| <= |r.category| <= |w.category| + 1
            && |w.merged| <= |r.merged| && |r.merged| - |w.merged| <= |r.category| - |w.category|
            && r.tables.Keys == w.tables.Keys
            && r.links == (if fault == NoFault && WellFormedArticle(m) && table in w.tables then MarkDone(w.links, link) else w.links)
  {
  }

  /**
   * Whatever fails, a link's writes are a prefix of the full sequence: row,
   * specialisation vector, merged vector, embeddings flag, link flag.
   */
  lemma KidneyStepWriteOrder(w: World, link: string, table: string, fetch: string -> Option<Page>, encode: string -> Vector,
                             storeFault: string -> StoreFault, fault: string -> KidneyFault)
    ensures var r := KidneyStep(w, link, table, fetch, encode, storeFault, fault);
            w.writes <= r.writes && r.writes[|w.writes|..] <= FullVisit(link, table)
  {
    var row := ScrapeRow(link, table, fetch, KidneyDates);
    if row.Some? {
      var stored := w.(tables := StoreArticle(w.tables, table, row.value, storeFault(link)), writes := w.writes + [StoreMetadata(link)]);
      var m := KidneyVectors(row.value, encode);
      var r := VectorStage(stored, link, table, m, fault(link));
      VectorStageFacts(stored, link, table, m, fault(link));
      assert r.writes[|w.writes|..] == [StoreMetadata(link)] + r.writes[|stored.writes|..];
      assert FullVisit(link, table) == [StoreMetadata(link)] + VisitTail(link, table);
    }
  }

  /** A link that goes through, in a run against an existing table. */
  predicate Succeeds(link: string, table: string, fetch: string -> Option<Page>, encode: string -> Vector, fault: string -> KidneyFault)
  {
    ScrapeRow(link, table, fetch, KidneyDates).Some?
    && WellFormedArticle(KidneyVectors(ScrapeRow(link, table, fetch, KidneyDates).value, encode))
    && fault(link) == NoFault
  }

  function SucceededSet(links: seq<string>, table: string, fetch: string -> Option<Page>, encode: string -> Vector,
                        fault: string -> KidneyFault): set<string>
  {
    set l | l in links && Succeeds(l, table, fetch, encode, fault)
  }

  /**
   * One step adds at most one row to each collection, never to the merged
   * one alone; against an existing table it flags the link exactly when the
   * link goes through, and the table stays.
   */
  lemma KidneyStepEffects(w: World, link: string, table: string, fetch: string -> Option<Page>, encode: string -> Vector,
                          storeFault: string -> StoreFault, fault: string -> KidneyFault)
    ensures var r := KidneyStep(w, link, table, fetch, encode, storeFault, fault);
            |w.category| <= |r.category| <= |w.category| + 1
            && |w.merged| <= |r.merged| && |r.merged| - |w.merged| <= |r.category| - |w.category|
            && (table in w.tables ==> table in r.tables)
            && (fault(link) != NoFault ==> r.links == w.links)
            && (table in w.tables ==> r.links == if Succeeds(link, table, fetch, encode, fault) then MarkDone(w.links, link) else w.links)
  {
    var row := ScrapeRow(link, table, fetch, KidneyDates);
    if row.Some? {
      var stored := w.(tables := StoreArticle(w.tables, table, row.value, storeFault(link)), writes := w.writes + [StoreMetadata(link)]);
      assert table in w.tables ==> table in stored.tables;
      VectorStageFacts(stored, link, table, KidneyVectors(row.value, encode), fault(link));
    }
  }

  /**
   * A link that goes through gains one row in each collection, then has its
   * embeddings flagged, then its link flagged.
   */
  lemma KidneyStepSuccess(w: World, link: string, table: string, fetch: string -> Option<Page>, encode: string -> Vector,
                          storeFault: string -> StoreFault, fault: string -> KidneyFault)
    requires ScrapeRow(link, table, fetch, KidneyDates).Some?
    requires var rec := ScrapeRow(link, table, fetch, KidneyDates).value;
             WellFormedArticle(KidneyVectors(rec, encode)) && fault(link) == NoFault
             && table in StoreArticle(w.tables, table, rec, storeFault(link))
    ensures var rec := ScrapeRow(link, table, fetch, KidneyDates).value;
            var stored := StoreArticle(w.tables, table, rec, storeFault(link));
            var row := ArticleRow(KidneyVectors(rec, encode));
            var r := KidneyStep(w, link, table, fetch, encode, storeFault, fault);
            r.category == w.category + [row] && r.merged == w.merged + [row]
            && r.tables == stored[table := SetEmbeddingsDone(stored[table], link)]
            && r.links == MarkDone(w.links, link)
            && r.writes == w.writes + FullVisit(link, table)
  {
    var rec := ScrapeRow(link, table, fetch, KidneyDates).value;
    var stored := w.(tables := StoreArticle(w.tables, table, rec, storeFault(link)), writes := w.writes + [StoreMetadata(link)]);
    assert KidneyStep(w, link, table, fetch, encode, storeFault, fault) == VectorStage(stored, link, table, KidneyVectors(rec, encode), NoFault);
    VectorStageNoFault(stored, link, table, KidneyVectors(rec, encode));
    assert stored.writes + VisitTail(link, table) == w.writes + FullVisit(link, table);
  }

  /** When nothing fails the stage writes both rows and both flags. */
  lemma VectorStageNoFault(w: World, link: string, table: string, m: ArticleVectors)
    requires WellFormedArticle(m) && table in w.tables
    ensures var r := VectorStage(w, link, table, m, NoFault);
            r.category == w.category + [ArticleRow(m)] && r.merged == w.merged + [ArticleRow(m)]
            && r.tables == w.tables[table := SetEmbeddingsDone(w.tables[table], link)]
            && r.links == MarkDone(w.links, link)
            && r.writes == w.writes + VisitTail(link, table)
  {
    assert w.writes + [AppendVector(table, link)] + [AppendVector(MergedName, link)] + [FlagEmbeddings(link)] + [FlagScraped(link)]
        == w.writes + VisitTail(link, table);
  }

  /**
   * A failure after the metadata insert skips the link flag: the link stays
   * as it was, so it is still pending on the next run.
   */
  lemma KidneyStepFailureKeepsLink(w: World, link: string, table: string, fetch: string -> Option<Page>, encode: string -> Vector,
                                   storeFault: string -> StoreFault, fault: string -> KidneyFault)
    requires fault(link) != NoFault
    ensures KidneyStep(w, link, table, fetch, encode, storeFault, fault).links == w.links
  {
    KidneyStepEffects(w, link, table, fetch, encode, storeFault, fault);
  }

  /**
   * The hazard of the two inserts without a transaction: when the merged
   * insert fails, the specialisation's collection keeps its new row while
   * the link stays pending, and the retry appends that row a second time.
   */
  lemma KidneyRetryDuplicates(w: World, link: string, table: string, fetch: string -> Option<Page>, encode: string -> Vector,
                              storeFault: string -> StoreFault, fault: string -> KidneyFault, retryFault: string -> KidneyFault)
    requires ScrapeRow(link, table, fetch, KidneyDates).Some?
    requires WellFormedArticle(KidneyVectors(ScrapeRow(link, table, fetch, KidneyDates).value, encode))
    requires fault(link) == MergedInsertFault && retryFault(link) == NoFault
    ensures var row := ArticleRow(KidneyVectors(ScrapeRow(link, table, fetch, KidneyDates).value, encode));
            var first := KidneyStep(w, link, table, fetch, encode, storeFault, fault);
            var second := KidneyStep(first, link, table, fetch, encode, storeFault, retryFault);
            first.links == w.links && first.merged == w.merged
            && second.category == w.category + [row, row] && second.merged == w.merged + [row]
  {
  }

  /** Over a run, the merged collection never gains more rows than the specialisation's, nor that more than one per link. */
  lemma {:induction false} KidneyRunCounts(w: World, links: seq<string>, table: string, fetch: string -> Option<Page>, encode: string -> Vector,
                                           storeFault: string -> StoreFault, fault: string -> KidneyFault)
    ensures var r := KidneyRun(w, links, table, fetch, encode, storeFault, fault);
            |w.merged| <= |r.merged| && |w.category| <= |r.category|
            && |r.merged| - |w.merged| <= |r.category| - |w.category| <= |links|
    decreases |links|
  {
    if |links| > 0 {
      KidneyRunCounts(w, links[..|links| - 1], table, fetch, encode, storeFault, fault);
      KidneyStepEffects(KidneyRun(w, links[..|links| - 1], table, fetch, encode, storeFault, fault), links[|links| - 1],
                        table, fetch, encode, storeFault, fault);
    }
  }

  /**
   * Against an existing table, a run takes out of the journal's pending set
   * exactly the links that went through all their writes.
   */
  lemma {:induction false} KidneyRunPending(w: World, links: seq<string>, journal: string, table: string, fetch: string -> Option<Page>,
                                            encode: string -> Vector, storeFault: string -> StoreFault, fault: string -> KidneyFault)
    requires table in w.tables
    ensures var r := KidneyRun(w, links, table, fetch, encode, storeFault, fault);
            table in r.tables
            && PendingOf(r.links, journal) == PendingOf(w.links, journal) - SucceededSet(links, table, fetch, encode, fault)
    decreases |links|
  {
    if |links| > 0 {
      var init, l := links[..|links| - 1], links[|links| - 1];
      assert links == init + [l];
      KidneyRunPending(w, init, journal, table, fetch, encode, storeFault, fault);
      var mid := KidneyRun(w, init, table, fetch, encode, storeFault, fault);
      KidneyStepEffects(mid, l, table, fetch, encode, storeFault, fault);
      assert SucceededSet(links, table, fetch, encode, fault)
          == SucceededSet(init, table, fetch, encode, fault) + (if Succeeds(l, table, fetch, encode, fault) then {l} else {});
      if Succeeds(l, table, fetch, encode, fault) {
        MarkDonePending(mid.links, l, journal);
      }
    }
  }

  /** The state of the four stores the kidney pass writes, with the writes so far. */
  function Snapshot(ledger: LinkTable, store: MetadataStore, category: Collection, merged: Collection, writes: seq<Write>): World
    reads ledger, store, category, merged
  {
    World(ledger.rows, store.tables, category.rows, merged.rows, writes)
  }

  /** The writes after the metadata insert, as the inner `try` of `crawl_article_kidney` performs them. */
  method VectorWrites(ledger: LinkTable, store: MetadataStore, category: Collection, merged: Collection,
                      link: string, table: string, m: ArticleVectors, fault: KidneyFault, writes: seq<Write>)
    returns (after: seq<Write>)
    requires category != merged && category.schema == ArticleSchema && merged.schema == ArticleSchema
    modifies ledger, store, category, merged
    ensures ledger.hasScrapedColumn == old(ledger.hasScrapedColumn)
    ensures Snapshot(ledger, store, category, merged, after)
         == VectorStage(old(Snapshot(ledger, store, category, merged, writes)), link, table, m, fault)
  {
    after := writes;
    if fault == EmbedFault || fault == CategoryInsertFault {
      return;
    }
    var ok := AddToMilvus(category, m);
    if !ok {
      return;
    }
    after := after + [AppendVector(table, link)];
    if fault == MergedInsertFault {
      return;
    }
    ok := AddToMilvus(merged, m);
    after := after + [AppendVector(MergedName, link)];
    if fault == EmbeddingsFlagFault {
      return;
    }
    ok := store.MarkEmbeddingsDone(table, link);
    if !ok {
      return;
    }
    after := after + [FlagEmbeddings(link)];
    if fault == ScrapedFlagFault {
      return;
    }
    ledger.MarkScrapedDone(link);
    after := after + [FlagScraped(link)];
  }

  /** One link of `crawl_article_kidney`. */
  method KidneyVisit(ledger: LinkTable, store: MetadataStore, category: Collection, merged: Collection,
                     link: string, table: string, fetch: string -> Option<Page>, encode: string -> Vector,
                     storeFault: string -> StoreFault, fault: string -> KidneyFault, writes: seq<Write>)
    returns (after: seq<Write>)
    requires category != merged && category.schema == ArticleSchema && merged.schema == ArticleSchema
    modifies ledger, store, category, merged
    ensures ledger.hasScrapedColumn == old(ledger.hasScrapedColumn)
    ensures Snapshot(ledger, store, category, merged, after)
         == KidneyStep(old(Snapshot(ledger, store, category, merged, writes)), link, table, fetch, encode, storeFault, fault)
  {
    after := writes;
    var row := ScrapeRow(link, table, fetch, KidneyDates);
    if row.None? {
      return;
    }
    store.InsertArticleMetadata(table, row.value, storeFault(link));
    after := VectorWrites(ledger, store, category, merged, link, table, KidneyVectors(row.value, encode), fault(link),
                          writes + [StoreMetadata(link)]);
  }

  /** `crawl_article_kidney`: ensure the `scraped` column, read the pending links, visit each one. */
  method CrawlArticleKidney(ledger: LinkTable, store: MetadataStore, category: Collection, merged: Collection,
                            journal: string, table: string, fetch: string -> Option<Page>, encode: string -> Vector,
                            storeFault: string -> StoreFault, fault: string -> KidneyFault, columnFault: bool)
    returns (links: seq<string>, writes: seq<Write>)
    requires category != merged && category.schema == ArticleSchema && merged.schema == ArticleSchema
    modifies ledger, store, category, merged
    ensures ledger.hasScrapedColumn == (old(ledger.hasScrapedColumn) || !columnFault)
    ensures !ledger.hasScrapedColumn ==> links == [] && ledger.rows == old(ledger.rows)
    ensures ledger.hasScrapedColumn ==>
            var rows := EnsuredRows(old(ledger.rows), old(ledger.hasScrapedColumn), !columnFault);
            (set l | l in links) == PendingOf(rows, journal)
            && (forall i, j :: 0 <= i < j < |links| ==> links[i] != links[j])
            && Snapshot(ledger, store, category, merged, writes)
               == KidneyRun(World(rows, old(store.tables), old(category.rows), old(merged.rows), []),
                            links, table, fetch, encode, storeFault, fault)
    ensures links == [] ==> (writes == [] && store.tables == old(store.tables)
                             && category.rows == old(category.rows) && merged.rows == old(merged.rows))
  {
    ledger.EnsureScrapedColumnExists(columnFault);
    if !ledger.hasScrapedColumn {
      return [], [];
    }
    links := ledger.PendingLinks(journal);
    writes := [];
    if |links| == 0 {
      return;
    }
    ghost var start := Snapshot(ledger, store, category, merged, []);
    var i := 0;
    while i < |links|
      invariant 0 <= i <= |links| && ledger.hasScrapedColumn
      invariant Snapshot(ledger, store, category, merged, writes) == KidneyRun(start, links[..i], table, fetch, encode, storeFault, fault)
    {
      writes := KidneyVisit(ledger, store, category, merged, links[i], table, fetch, encode, storeFault, fault, writes);
      assert links[..i + 1][..i] == links[..i];
      i := i + 1;
    }
    assert links[..i] == links;
  }

  // ---------------------------------------------------------------------
  // `crawl_article_jasn`

  /** One link of `crawl_article_jasn`: store the row, then flag its embeddings; the link itself is never flagged. */
  function JasnStep(s: Crawl, link: string, table: string, fetch: string -> Option<Page>, storeFault: string -> StoreFault): Crawl
  {
    match ScrapeRow(link, table, fetch, JasnRule)
    case None => s
    case Some(rec) =>
      var tables := StoreArticle(s.tables, table, rec, storeFault(link));
      if table in tables then
        Crawl(s.links, tables[table := SetEmbeddingsDone(tables[table], link)], s.writes + [StoreMetadata(link), FlagEmbeddings(link)])
      else
        Crawl(s.links, tables, s.writes + [StoreMetadata(link)])
  }

  function JasnRun(s: Crawl, links: seq<string>, table: string, fetch: string -> Option<Page>, storeFault: string -> StoreFault): Crawl
    decreases |links|
  {
    if |links| == 0 then s
    else JasnStep(JasnRun(s, links[..|links| - 1], table, fetch, storeFault), links[|links| - 1], table, fetch, storeFault)
  }

  /** The JASN pass never changes a link row: every link it visits is still pending afterwards. */
  lemma {:induction false} JasnRunKeepsLinks(s: Crawl, links: seq<string>, table: string, fetch: string -> Option<Page>,
                                             storeFault: string -> StoreFault, journal: string)
    ensures JasnRun(s, links, table, fetch, storeFault).links == s.links
    ensures PendingOf(JasnRun(s, links, table, fetch, storeFault).links, journal) == PendingOf(s.links, journal)
    decreases |links|
  {
    if |links| > 0 {
      JasnRunKeepsLinks(s, links[..|links| - 1], table, fetch, storeFault, journal);
    }
  }

  /**
   * A new JASN article is stored already flagged 'done' and with no vector
   * written, so the synchroniser never selects it.
   */
  lemma JasnRowNeverWaits(s: Crawl, link: string, table: string, fetch: string -> Option<Page>, storeFault: string -> StoreFault)
    ensures ScrapeRow(link, table, fetch, JasnRule).Some? && storeFault(link) == NoStoreFault ==>
            var r := JasnStep(s, link, table, fetch, storeFault);
            table in r.tables && link in r.tables[table] && link !in Waiting(r.tables[table])
    ensures forall x :: x in JasnStep(s, link, table, fetch, storeFault).writes[|s.writes|..] ==> !x.AppendVector?
  {
  }

  /** The stored JASN date is a `YYYY-MM-DD` date or "N/A", never the "2001/01/01" default. */
  lemma JasnStoredDate(link: string, table: string, fetch: string -> Option<Page>)
    requires ScrapeRow(link, table, fetch, JasnRule).Some?
    ensures var d := ScrapeRow(link, table, fetch, JasnRule).value.publicationDate;
            d == NotAvailable || IsIsoDate(d)
  {
  }

  /** One link of `crawl_article_jasn`: store the row, then flag its embeddings. */
  method JasnVisit(ledger: LinkTable, store: MetadataStore, link: string, table: string,
                   fetch: string -> Option<Page>, storeFault: string -> StoreFault, writes: seq<Write>)
    returns (after: seq<Write>)
    modifies store
    ensures Crawl(ledger.rows, store.tables, after)
         == JasnStep(Crawl(ledger.rows, old(store.tables), writes), link, table, fetch, storeFault)
  {
    after := writes;
    var row := ScrapeRow(link, table, fetch, JasnRule);
    if row.Some? {
      store.InsertArticleMetadata(table, row.value, storeFault(link));
      after := after + [StoreMetadata(link)];
      var ok := store.MarkEmbeddingsDone(table, link);
      if ok {
        after := after + [FlagEmbeddings(link)];
      }
    }
  }

  /** `crawl_article_jasn`: ensure the `scraped` column, read the pending links, visit each one. */
  method CrawlArticleJasn(ledger: LinkTable, store: MetadataStore, journal: string, table: string,
                          fetch: string -> Option<Page>, storeFault: string -> StoreFault, columnFault: bool)
    returns (links: seq<string>, writes: seq<Write>)
    modifies ledger, store
    ensures ledger.hasScrapedColumn == (old(ledger.hasScrapedColumn) || !columnFault)
    ensures !ledger.hasScrapedColumn ==>
              links == [] && writes == [] && ledger.rows == old(ledger.rows) && store.tables == old(store.tables)
    ensures ledger.hasScrapedColumn ==>
            var rows := EnsuredRows(old(ledger.rows), old(ledger.hasScrapedColumn), !columnFault);
            (set l | l in links) == PendingOf(rows, journal)
            && Crawl(ledger.rows, store.tables, writes) == JasnRun(Crawl(rows, old(store.tables), []), links, table, fetch, storeFault)
  {
    ledger.EnsureScrapedColumnExists(columnFault);
    if !ledger.hasScrapedColumn {
      return [], [];
    }
    links := ledger.PendingLinks(journal);
    writes := [];
    if |links| == 0 {
      return;
    }
    ghost var start := Crawl(ledger.rows, store.tables, []);
    var i := 0;
    while i < |links|
      invariant 0 <= i <= |links| && ledger.hasScrapedColumn
      invariant Crawl(ledger.rows, store.tables, writes) == JasnRun(start, links[..i], table, fetch, storeFault)
    {
      writes := JasnVisit(ledger, store, links[i], table, fetch, storeFault, writes);
      assert links[..i + 1][..i] == links[..i];
      i := i + 1;
    }
    assert links[..i] == links;
  }
}
