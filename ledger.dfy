/**
 * The `article_links` table: one row per discovered article link, unique on
 * the link, holding the journal it was found for, its specialisation and its
 * `scraped` status.
 */
module Ledger {
  import opened Wrappers
  import Enumeration

  datatype Status = Pending | Done

  datatype LinkRow = LinkRow(journal: string, specialization: string, scraped: Status)

  /** The table by its unique `article_link` column. */
  type Links = map<string, LinkRow>

  /** The links of one journal still waiting to be scraped. */
  function PendingOf(rows: Links, journal: string): (r: set<string>)
    ensures forall l :: l in r <==> l in rows && rows[l].journal == journal && rows[l].scraped == Pending
  {
    set l | l in rows && rows[l].journal == journal && rows[l].scraped == Pending
  }

  /** One `INSERT IGNORE`: a link already present keeps its row. */
  function InsertOne(rows: Links, journal: string, link: string, specialization: string): Links
  {
    if link in rows then rows else rows[link := LinkRow(journal, specialization, Pending)]
  }

  /** The effect of one `INSERT IGNORE` per link, in list order. */
  function InsertLinks(rows: Links, journal: string, links: seq<string>, specialization: string): Links
    decreases |links|
  {
    if |links| == 0 then rows
    else InsertOne(InsertLinks(rows, journal, links[..|links| - 1], specialization), journal, links[|links| - 1], specialization)
  }

  /** After the inserts every link is present, rows already there are untouched, and each new row is pending. */
  lemma {:induction false} InsertLinksContents(rows: Links, journal: string, links: seq<string>, specialization: string)
    ensures InsertLinks(rows, journal, links, specialization).Keys == rows.Keys + (set l | l in links)
    ensures forall k :: k in rows ==> InsertLinks(rows, journal, links, specialization)[k] == rows[k]
    ensures forall k :: k in InsertLinks(rows, journal, links, specialization) && k !in rows ==>
              InsertLinks(rows, journal, links, specialization)[k] == LinkRow(journal, specialization, Pending)
    decreases |links|
  {
    if |links| > 0 {
      var init := links[..|links| - 1];
      InsertLinksContents(rows, journal, init, specialization);
      assert links == init + [links[|links| - 1]];
    }
  }

  /** Inserting the same links again changes nothing. */
  lemma InsertLinksIdempotent(rows: Links, journal: string, links: seq<string>, specialization: string)
    ensures var once := InsertLinks(rows, journal, links, specialization);
            InsertLinks(once, journal, links, specialization) == once
  {
    var once := InsertLinks(rows, journal, links, specialization);
    InsertLinksContents(rows, journal, links, specialization);
    InsertLinksContents(once, journal, links, specialization);
  }

  /** Only the set of links matters: order and repetitions in the list do not change the table. */
  lemma InsertLinksSetOnly(rows: Links, journal: string, a: seq<string>, b: seq<string>, specialization: string)
    requires (set l | l in a) == (set l | l in b)
    ensures InsertLinks(rows, journal, a, specialization) == InsertLinks(rows, journal, b, specialization)
  {
    InsertLinksContents(rows, journal, a, specialization);
    InsertLinksContents(rows, journal, b, specialization);
  }

  /** Every newly inserted link is pending for the journal it was inserted for; pending links stay pending. */
  lemma NewLinksPending(rows: Links, journal: string, links: seq<string>, specialization: string)
    ensures forall l :: l in links && l !in rows ==> l in PendingOf(InsertLinks(rows, journal, links, specialization), journal)
    ensures PendingOf(rows, journal) <= PendingOf(InsertLinks(rows, journal, links, specialization), journal)
  {
    InsertLinksContents(rows, journal, links, specialization);
  }

  /** `UPDATE article_links SET scraped = 'done' WHERE article_link = link`. */
  function MarkDone(rows: Links, link: string): (r: Links)
    ensures r.Keys == rows.Keys
    ensures forall k :: k in rows && k != link ==> r[k] == rows[k]
    ensures link in rows ==> r[link] == rows[link].(scraped := Done)
  {
    if link in rows then rows[link := rows[link].(scraped := Done)] else rows
  }

  /** Marking a link done takes exactly that link out of every journal's pending set. */
  lemma MarkDonePending(rows: Links, link: string, journal: string)
    ensures PendingOf(MarkDone(rows, link), journal) == PendingOf(rows, journal) - {link}
  {
  }

  /** Marking is idempotent. */
  lemma MarkDoneIdempotent(rows: Links, link: string)
    ensures MarkDone(MarkDone(rows, link), link) == MarkDone(rows, link)
  {
  }

  /** Every row with its status reset: what adding the `scraped` column with default 'pending' leaves. */
  function AllPending(rows: Links): (r: Links)
    ensures r.Keys == rows.Keys
    ensures forall k :: k in r ==> r[k] == rows[k].(scraped := Pending)
  {
    map k | k in rows :: rows[k].(scraped := Pending)
  }

  /** After the column is added every link of a journal is pending. */
  lemma AllPendingOf(rows: Links, journal: string)
    ensures PendingOf(AllPending(rows), journal) == set l | l in rows && rows[l].journal == journal
  {
  }

  /** `article_links` with the statements the passes run against it. */
  class LinkTable {
    var rows: Links
    /** Whether the table has its `scraped` column. */
    var hasScrapedColumn: bool

    /** The table as `setup_database` creates it: empty, with the `scraped` column. */
    constructor ()
      ensures rows == map[] && hasScrapedColumn
    {
      rows := map[];
      hasScrapedColumn := true;
    }

    /**
     * `insert_into_database`: one `INSERT IGNORE` per link, then a commit.
     * `failAt` is the statement at which the database raises, if any: the
     * inserts are statements 0 .. |links|-1 and the commit is statement
     * |links|; an insert also fails while the `scraped` column is missing.
     * The count is only reported, so it affects nothing.
     */
    method InsertIntoDatabase(journal: string, links: seq<string>, specialization: string, count: int, failAt: Option<nat>)
      returns (ok: bool)
      modifies this
      ensures ok <==> (hasScrapedColumn || |links| == 0) && !(failAt.Some? && failAt.value <= |links|)
      ensures ok ==> rows == InsertLinks(old(rows), journal, links, specialization)
      ensures !ok ==> rows == old(rows)
      ensures hasScrapedColumn == old(hasScrapedColumn)
    {
      var staged := rows;
      var i := 0;
      while i < |links|
        invariant 0 <= i <= |links|
        invariant staged == InsertLinks(rows, journal, links[..i], specialization)
        invariant failAt.Some? ==> failAt.value >= i
        invariant !hasScrapedColumn ==> i == 0
      {
        if failAt == Some(i) || !hasScrapedColumn {
          return false;
        }
        assert links[..i + 1][..i] == links[..i];
        staged := InsertOne(staged, journal, links[i], specialization);
        i := i + 1;
      }
      assert links[..|links|] == links;
      if failAt == Some(|links|) {
        return false;
      }
      rows := staged;
      ok := true;
    }

    /**
     * `SELECT article_link FROM article_links WHERE journal_name = %s AND
     * scraped = 'pending'`: each pending link of the journal once, in an
     * order the table does not promise.
     */
    method PendingLinks(journal: string) returns (links: seq<string>)
      ensures (set l | l in links) == PendingOf(rows, journal)
      ensures forall i, j :: 0 <= i < j < |links| ==> links[i] != links[j]
    {
      links := Enumeration.Enumerate(PendingOf(rows, journal));
    }

    /** `UPDATE article_links SET scraped = 'done' WHERE article_link = %s`. */
    method MarkScrapedDone(link: string)
      modifies this
      ensures rows == MarkDone(old(rows), link)
      ensures hasScrapedColumn == old(hasScrapedColumn)
    {
      rows := MarkDone(rows, link);
    }

    /**
     * `ensure_scraped_column_exists`: add the column with default 'pending'
     * only when it is absent; a second call therefore changes nothing.
     * `fault` is the SHOW or the ALTER raising: the error is only printed,
     * and the table stays as it was, with or without the column.
     */
    method EnsureScrapedColumnExists(fault: bool)
      modifies this
      ensures hasScrapedColumn == (old(hasScrapedColumn) || !fault)
      ensures old(hasScrapedColumn) || fault ==> rows == old(rows)
      ensures !old(hasScrapedColumn) && !fault ==> rows == AllPending(old(rows))
    {
      if !fault && !hasScrapedColumn {
        rows := AllPending(rows);
        hasScrapedColumn := true;
      }
    }
  }
}
