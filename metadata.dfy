/**
 * The per-specialisation article tables: one row per article, unique on
 * `article_url`, written by `INSERT IGNORE` and later flagged when their
 * embeddings have been stored.
 */
module Metadata {
  import opened Wrappers

  /** One row of an article table, its columns in the order the insert lists them. */
  datatype ArticleRecord = ArticleRecord(
    speciality: string, url: string, abstractText: string, title: string,
    journalTitle: string, publisher: string, volume: string, issue: string,
    publicationDate: string, issn: string, language: string, identifier: string,
    author: string, contributor: string, fullPdfLink: string, summary: string,
    keywords: string, embeddings: Option<string>, ingestionDate: string)

  /** A table by its unique `article_url` column. */
  type Table = map<string, ArticleRecord>

  /** Each row is filed under its own url. */
  predicate Keyed(t: Table)
  {
    forall u :: u in t ==> t[u].url == u
  }

  /** All article tables by name. */
  type Tables = map<string, Table>

  /** Where `insert_article_metadata` can fail; every failure is reported and swallowed. */
  datatype StoreFault =
    | NoStoreFault
      /** The connection cannot be made: nothing happens. */
    | ConnectFault
      /** `CREATE TABLE IF NOT EXISTS` fails: the insert still runs against an existing table. */
    | CreateFault
      /** The insert itself fails after the table is ensured. */
    | InsertFault

  /** `INSERT IGNORE`: a row whose url is already stored is dropped. */
  function InsertIgnore(t: Table, rec: ArticleRecord): Table
  {
    if rec.url in t then t else t[rec.url := rec]
  }

  /** `insert_article_metadata`: ensure the table, then `INSERT IGNORE` the record. */
  function StoreArticle(tables: Tables, name: string, rec: ArticleRecord, fault: StoreFault): (r: Tables)
    ensures forall n :: n in tables ==> n in r && forall u :: u in tables[n] ==> u in r[n] && r[n][u] == tables[n][u]
    ensures forall n :: n in r && n != name ==> n in tables && r[n] == tables[n]
    ensures fault == NoStoreFault ==> name in r && rec.url in r[name]
    ensures fault == NoStoreFault && !(name in tables && rec.url in tables[name]) ==> r[name][rec.url] == rec
    ensures forall n :: n in tables && Keyed(tables[n]) ==> Keyed(r[n])
    ensures fault == ConnectFault || fault == InsertFault ==>
              forall n :: n in r ==> r[n] == (if n in tables then tables[n] else map[])
  {
    match fault
    case ConnectFault => tables
    case CreateFault => if name in tables then tables[name := InsertIgnore(tables[name], rec)] else tables
    case InsertFault => if name in tables then tables else tables[name := map[]]
    case NoStoreFault =>
      var t := if name in tables then tables[name] else map[];
      tables[name := InsertIgnore(t, rec)]
  }

  /** Storing the same record again changes nothing. */
  lemma StoreArticleIdempotent(tables: Tables, name: string, rec: ArticleRecord, fault: StoreFault)
    ensures var once := StoreArticle(tables, name, rec, fault);
            StoreArticle(once, name, rec, fault) == once
  {
  }

  /** A second record with an already stored url is ignored, whatever its other columns hold. */
  lemma StoreArticleKeepsFirst(tables: Tables, name: string, first: ArticleRecord, second: ArticleRecord)
    requires first.url == second.url
    ensures var once := StoreArticle(tables, name, first, NoStoreFault);
            StoreArticle(once, name, second, NoStoreFault) == once
  {
  }

  /** A row still waits for its embeddings while the column is NULL or anything but 'done'. */
  predicate NeedsEmbedding(rec: ArticleRecord)
  {
    rec.embeddings.None? || rec.embeddings.value != "done"
  }

  /** `UPDATE <table> SET embeddings = 'done' WHERE article_url = url` on an existing table. */
  function SetEmbeddingsDone(t: Table, url: string): (r: Table)
    ensures r.Keys == t.Keys
    ensures forall u :: u in t && u != url ==> r[u] == t[u]
    ensures url in t ==> r[url] == t[url].(embeddings := Some("done")) && !NeedsEmbedding(r[url])
    ensures Keyed(t) ==> Keyed(r)
  {
    if url in t then t[url := t[url].(embeddings := Some("done"))] else t
  }

  /** The urls of a table's rows waiting for embeddings. */
  function Waiting(t: Table): set<string>
  {
    set u | u in t && NeedsEmbedding(t[u])
  }

  /** Flagging a row takes exactly its url out of the waiting set. */
  lemma SetEmbeddingsDoneWaiting(t: Table, url: string)
    ensures Waiting(SetEmbeddingsDone(t, url)) == Waiting(t) - {url}
  {
  }

  /** The article tables with the statements the passes run against them. */
  class MetadataStore {
    var tables: Tables

    constructor ()
      ensures tables == map[]
    {
      tables := map[];
    }

    /** `insert_article_metadata`; every failure is swallowed, so it returns nothing. */
    method InsertArticleMetadata(name: string, rec: ArticleRecord, fault: StoreFault)
      modifies this
      ensures tables == StoreArticle(old(tables), name, rec, fault)
    {
      tables := StoreArticle(tables, name, rec, fault);
    }

    /** The embeddings flag update; it raises when the table does not exist. */
    method MarkEmbeddingsDone(name: string, url: string) returns (ok: bool)
      modifies this
      ensures ok <==> name in old(tables)
      ensures ok ==> tables == old(tables)[name := SetEmbeddingsDone(old(tables)[name], url)]
      ensures !ok ==> tables == old(tables)
    {
      ok := name in tables;
      if ok {
        tables := tables[name := SetEmbeddingsDone(tables[name], url)];
      }
    }
  }
}
