/**
 * The embedding synchroniser: rows of the article tables still waiting for
 * embeddings are embedded, appended to the merged vector collection and then
 * flagged 'done', table after table.
 */
module Sync {
  import opened Wrappers
  import opened Vectors
  import opened Metadata
  import Enumeration

  /** The merged-collection row one article becomes: its texts, the table as specialisation, the three embeddings. */
  function MergedRow(rec: ArticleRecord, table: string, encode: string -> Vector): seq<Value>
  {
    [Str(rec.title), Str(rec.abstractText), Str(rec.author), Str(rec.url), Str(table),
     Vec(GenerateEmbedding(rec.title, encode)), Vec(GenerateEmbedding(rec.abstractText, encode)),
     Vec(GenerateEmbedding(rec.author, encode))]
  }

  /** The rows appended for the given records, in that order. */
  function MergedRows(recs: seq<ArticleRecord>, table: string, encode: string -> Vector): (rows: seq<seq<Value>>)
    ensures |rows| == |recs|
  {
    seq(|recs|, i requires 0 <= i < |recs| => MergedRow(recs[i], table, encode))
  }

  /** Each appended row carries its article's url and the table name as specialisation. */
  lemma MergedRowsFields(recs: seq<ArticleRecord>, table: string, encode: string -> Vector)
    ensures forall i :: 0 <= i < |recs| ==>
              |MergedRows(recs, table, encode)[i]| == 8 && MergedRows(recs, table, encode)[i][3] == Str(recs[i].url)
              && MergedRows(recs, table, encode)[i][4] == Str(table)
  {
  }

  /** `MergedRows` grows one row at a time. */
  lemma MergedRowsSnoc(recs: seq<ArticleRecord>, k: nat, table: string, encode: string -> Vector)
    requires k < |recs|
    ensures MergedRows(recs[..k + 1], table, encode) == MergedRows(recs[..k], table, encode) + [MergedRow(recs[k], table, encode)]
  {
    assert recs[..k + 1][..k] == recs[..k];
  }

  /** The row layout handed to the collection stores exactly `MergedRow`. */
  lemma MergedColumnsRow(rec: ArticleRecord, table: string, encode: string -> Vector)
    ensures RowsOf(MergedColumns(rec.title, rec.abstractText, rec.author, rec.url, table,
                                 GenerateEmbedding(rec.title, encode), GenerateEmbedding(rec.abstractText, encode),
                                 GenerateEmbedding(rec.author, encode)))
         == [MergedRow(rec, table, encode)]
  {
    var cols := MergedColumns(rec.title, rec.abstractText, rec.author, rec.url, table,
                              GenerateEmbedding(rec.title, encode), GenerateEmbedding(rec.abstractText, encode),
                              GenerateEmbedding(rec.author, encode));
    var rows := RowsOf(cols);
    assert |rows| == 1;
    assert rows[0] == MergedRow(rec, table, encode);
  }

  /** The rows `SELECT ... WHERE embeddings IS NULL OR embeddings != 'done'` returns. */
  function WaitingRows(t: Table): set<ArticleRecord>
  {
    set u | u in t && NeedsEmbedding(t[u]) :: t[u]
  }

  /** The urls of a list of rows. */
  function UrlsOf(recs: seq<ArticleRecord>): set<string>
  {
    set r | r in recs :: r.url
  }

  /** The status updates for the given rows' urls, in order. */
  function MarkAll(t: Table, recs: seq<ArticleRecord>): Table
    decreases |recs|
  {
    if |recs| == 0 then t else SetEmbeddingsDone(MarkAll(t, recs[..|recs| - 1]), recs[|recs| - 1].url)
  }

  /** `MarkAll` grows one update at a time. */
  lemma MarkAllSnoc(t: Table, recs: seq<ArticleRecord>, k: nat)
    requires k < |recs|
    ensures MarkAll(t, recs[..k + 1]) == SetEmbeddingsDone(MarkAll(t, recs[..k]), recs[k].url)
  {
    assert recs[..k + 1][..k] == recs[..k];
  }

  /** Flagging rows leaves every row whose url is not listed as it was. */
  lemma {:induction false} MarkAllUntouched(t: Table, recs: seq<ArticleRecord>, u: string)
    requires u in t && u !in UrlsOf(recs)
    ensures u in MarkAll(t, recs) && MarkAll(t, recs)[u] == t[u]
    decreases |recs|
  {
    if |recs| > 0 {
      var init := recs[..|recs| - 1];
      assert recs == init + [recs[|recs| - 1]];
      assert UrlsOf(init) <= UrlsOf(recs);
      MarkAllUntouched(t, init, u);
    }
  }

  /** Flagging rows takes exactly their urls out of the waiting set. */
  lemma {:induction false} MarkAllWaiting(t: Table, recs: seq<ArticleRecord>)
    ensures Waiting(MarkAll(t, recs)) == Waiting(t) - UrlsOf(recs)
    decreases |recs|
  {
    if |recs| > 0 {
      var init := recs[..|recs| - 1];
      var last := recs[|recs| - 1];
      assert recs == init + [last];
      assert UrlsOf(recs) == UrlsOf(init) + {last.url};
      MarkAllWaiting(t, init);
      SetEmbeddingsDoneWaiting(MarkAll(t, init), last.url);
    }
  }

  /**
   * One row of `insert_table_to_milvus`: embed it, append it to the
   * collection, then flag it 'done'. A refused insert stops before the flag;
   * `crash` is a failing status update after the append.
   */
  method SyncRow(c: Collection, store: MetadataStore, table: string, rec: ArticleRecord, encode: string -> Vector, crash: bool)
    returns (appended: bool, flagged: bool)
    requires c.schema == MergedSchema && table in store.tables
    modifies c, store
    ensures flagged <==> appended && !crash
    ensures appended ==> c.rows == old(c.rows) + [MergedRow(rec, table, encode)]
    ensures !appended ==> c.rows == old(c.rows)
    ensures flagged ==> store.tables == old(store.tables)[table := SetEmbeddingsDone(old(store.tables)[table], rec.url)]
    ensures !flagged ==> store.tables == old(store.tables)
  {
    var titleVec := GenerateEmbedding(rec.title, encode);
    var abstractVec := GenerateEmbedding(rec.abstractText, encode);
    var authorsVec := GenerateEmbedding(rec.author, encode);
    MergedColumnsRow(rec, table, encode);
    appended := c.Insert(MergedColumns(rec.title, rec.abstractText, rec.author, rec.url, table, titleVec, abstractVec, authorsVec));
    if !appended || crash {
      return appended, false;
    }
    flagged := store.MarkEmbeddingsDone(table, rec.url);
  }

  /** Filing a table twice under one name keeps the second. */
  lemma UpdateTwice(tables: map<string, Table>, table: string, first: Table, second: Table)
    ensures tables[table := first][table := second] == tables[table := second]
  {
  }

  /**
   * Row `k` of the loop, stated against the rows before it: the collection
   * holds the merged rows of `selected[..k]` and the table their flags.
   */
  method SyncNext(c: Collection, store: MetadataStore, table: string, selected: seq<ArticleRecord>, k: nat,
                  ghost tables: map<string, Table>, encode: string -> Vector, crash: bool)
    returns (appended: bool, flagged: bool)
    requires k < |selected| && c.schema == MergedSchema && table in tables
    requires store.tables == tables[table := MarkAll(tables[table], selected[..k])]
    modifies c, store
    ensures flagged <==> appended && !crash
    ensures appended ==> c.rows == old(c.rows) + [MergedRow(selected[k], table, encode)]
    ensures !appended ==> c.rows == old(c.rows)
    ensures flagged ==> store.tables == tables[table := MarkAll(tables[table], selected[..k + 1])]
    ensures !flagged ==> store.tables == old(store.tables)
  {
    MarkAllSnoc(tables[table], selected, k);
    UpdateTwice(tables, table, MarkAll(tables[table], selected[..k]), MarkAll(tables[table], selected[..k + 1]));
    appended, flagged := SyncRow(c, store, table, selected[k], encode, crash);
  }

  /**
   * The row loop of `insert_table_to_milvus` over the rows it read: each goes
   * through `SyncRow` until one fails (`crashAt` names the row, by position,
   * whose status update fails). `inserted` counts appended rows and `marked`
   * flagged ones.
   */
  method SyncRows(c: Collection, store: MetadataStore, table: string, selected: seq<ArticleRecord>,
                  encode: string -> Vector, crashAt: Option<nat>)
    returns (inserted: nat, marked: nat, completed: bool)
    requires c.schema == MergedSchema && table in store.tables
    modifies c, store
    ensures marked <= inserted <= marked + 1 && inserted <= |selected|
    ensures c.rows == old(c.rows) + MergedRows(selected[..inserted], table, encode)
    ensures store.tables == old(store.tables)[table := MarkAll(old(store.tables)[table], selected[..marked])]
    ensures completed <==> marked == |selected|
    ensures inserted == marked + 1 ==> crashAt == Some(marked)
  {
    ghost var tables := store.tables;
    assert tables == tables[table := MarkAll(tables[table], selected[..0])];
    inserted, marked := 0, 0;
    while marked < |selected|
      invariant inserted == marked <= |selected|
      invariant c.schema == MergedSchema
      invariant c.rows == old(c.rows) + MergedRows(selected[..marked], table, encode)
      invariant store.tables == tables[table := MarkAll(tables[table], selected[..marked])]
    {
      var appended, flagged := SyncNext(c, store, table, selected, marked, tables, encode, crashAt == Some(marked));
      if !appended {
        return inserted, marked, false;
      }
      MergedRowsSnoc(selected, marked, table, encode);
      inserted := inserted + 1;
      if !flagged {
        return inserted, marked, false;
      }
      marked := marked + 1;
    }
    completed := true;
  }

  /**
   * `insert_table_to_milvus`. The waiting rows are read once, in an order the
   * database does not promise (`selected`), and `total` is their count; then
   * `SyncRows` handles them. There is no exception handling: a missing table
   * ends the call before anything is written.
   */
  method InsertTableToMilvus(c: Collection, store: MetadataStore, table: string, encode: string -> Vector, crashAt: Option<nat>)
    returns (selected: seq<ArticleRecord>, total: nat, inserted: nat, marked: nat, completed: bool)
    requires c.schema == MergedSchema
    modifies c, store
    ensures table !in old(store.tables) ==>
              selected == [] && !completed && inserted == 0 && marked == 0
              && c.rows == old(c.rows) && store.tables == old(store.tables)
    ensures table in old(store.tables) ==>
              (set r | r in selected) == WaitingRows(old(store.tables)[table]) && total == |selected|
              && forall i, j :: 0 <= i < j < |selected| ==> selected[i] != selected[j]
    ensures marked <= inserted <= marked + 1 && inserted <= |selected|
    ensures c.rows == old(c.rows) + MergedRows(selected[..inserted], table, encode)
    ensures table in old(store.tables) ==>
              store.tables == old(store.tables)[table := MarkAll(old(store.tables)[table], selected[..marked])]
    ensures completed <==> table in old(store.tables) && marked == |selected|
    ensures inserted == marked + 1 ==> crashAt == Some(marked)
  {
    if table !in store.tables {
      return [], 0, 0, 0, false;
    }
    selected := Enumeration.Enumerate(WaitingRows(store.tables[table]));
    total := |selected|;
    inserted, marked, completed := SyncRows(c, store, table, selected, encode, crashAt);
  }

  /** A waiting row's url, in a table filed by url, names that row. */
  lemma WaitingRowUrl(t: Table, r: ArticleRecord)
    requires Keyed(t) && r in WaitingRows(t)
    ensures r.url in t && t[r.url] == r && NeedsEmbedding(r)
  {
  }

  /** A run that completes leaves nothing of the table waiting, and rows already 'done' untouched. */
  lemma CompletedRunDrains(t: Table, selected: seq<ArticleRecord>, u: string)
    requires Keyed(t) && (set r | r in selected) == WaitingRows(t)
    ensures Waiting(MarkAll(t, selected)) == {}
    ensures u in t && !NeedsEmbedding(t[u]) ==> u in MarkAll(t, selected) && MarkAll(t, selected)[u] == t[u]
  {
    MarkAllWaiting(t, selected);
    assert Waiting(t) <= UrlsOf(selected) by {
      forall v | v in Waiting(t) ensures v in UrlsOf(selected) {
        assert t[v] in WaitingRows(t);
      }
    }
    if u in t && !NeedsEmbedding(t[u]) {
      assert u !in UrlsOf(selected) by {
        forall r | r in selected ensures r.url != u {
          WaitingRowUrl(t, r);
        }
      }
      MarkAllUntouched(t, selected, u);
    }
  }

  /**
   * The hazard of writing the vector before the flag without a transaction:
   * when the update of `selected[k]` fails after its row was appended, that
   * row is still waiting, so the next complete run appends it a second time.
   */
  lemma DuplicateOnRetry(t: Table, selected: seq<ArticleRecord>, k: nat, again: seq<ArticleRecord>, table: string, encode: string -> Vector)
    requires Keyed(t)
    requires (set r | r in selected) == WaitingRows(t) && k < |selected|
    requires forall i, j :: 0 <= i < j < |selected| ==> selected[i] != selected[j]
    requires (set r | r in again) == WaitingRows(MarkAll(t, selected[..k]))
    ensures var first := MergedRows(selected[..k + 1], table, encode);
            var second := MergedRows(again, table, encode);
            exists i, j :: 0 <= i < |first| && 0 <= j < |second| &&
              first[i][3] == Str(selected[k].url) && second[j][3] == Str(selected[k].url)
  {
    var rec := selected[k];
    var u := rec.url;
    WaitingRowUrl(t, rec);
    assert u !in UrlsOf(selected[..k]) by {
      forall r | r in selected[..k] ensures r.url != u {
        WaitingRowUrl(t, r);
      }
    }
    var t2 := MarkAll(t, selected[..k]);
    MarkAllUntouched(t, selected[..k], u);
    assert t2[u] == rec;
    assert rec in WaitingRows(t2);
    var j :| 0 <= j < |again| && again[j] == rec;
    assert selected[..k + 1][k] == rec;
    MergedRowsFields(selected[..k + 1], table, encode);
    MergedRowsFields(again, table, encode);
    assert MergedRows(selected[..k + 1], table, encode)[k][3] == Str(u);
    assert MergedRows(again, table, encode)[j][3] == Str(u);
  }

  // ---------------------------------------------------------------------
  // `insert_multiple_tables_to_milvus`

  /**
   * What one table's call did: the waiting rows it read (`selected`), the
   * ones whose merged row it appended (`sent`), the ones it flagged
   * (`flagged`), and whether it returned normally.
   */
  datatype TableRun = TableRun(name: string, selected: seq<ArticleRecord>, sent: seq<ArticleRecord>,
                               flagged: seq<ArticleRecord>, completed: bool)

  /** The tables after one call's status updates. */
  function Flagged(tables: map<string, Table>, run: TableRun): map<string, Table>
  {
    if run.name in tables then tables[run.name := MarkAll(tables[run.name], run.flagged)] else tables
  }

  /** The tables after the calls' status updates, in list order. */
  function FlagTables(tables: map<string, Table>, runs: seq<TableRun>): map<string, Table>
    decreases |runs|
  {
    if |runs| == 0 then tables else Flagged(FlagTables(tables, runs[..|runs| - 1]), runs[|runs| - 1])
  }

  /** The rows the calls appended, in list order. */
  function AppendedRows(runs: seq<TableRun>, encode: string -> Vector): seq<seq<Value>>
    decreases |runs|
  {
    if |runs| == 0 then []
    else
      var run := runs[|runs| - 1];
      AppendedRows(runs[..|runs| - 1], encode) + MergedRows(run.sent, run.name, encode)
  }

  /**
   * `InsertTableToMilvus`'s contract for one call made on `tables`: a missing
   * table reads, writes and completes nothing; otherwise the call reads the
   * waiting rows once each, appends a prefix of them, flags a prefix no more
   * than one shorter, completes exactly when all are flagged, and leaves one
   * row appended but unflagged only when its status update failed.
   */
  predicate RunFits(tables: map<string, Table>, run: TableRun, crash: Option<nat>)
  {
    if run.name !in tables then run.selected == [] && run.sent == [] && run.flagged == [] && !run.completed
    else
      (set r | r in run.selected) == WaitingRows(tables[run.name])
      && (forall i, j :: 0 <= i < j < |run.selected| ==> run.selected[i] != run.selected[j])
      && |run.flagged| <= |run.sent| <= |run.flagged| + 1 && |run.sent| <= |run.selected|
      && run.sent == run.selected[..|run.sent|] && run.flagged == run.selected[..|run.flagged|]
      && (run.completed <==> |run.flagged| == |run.selected|)
      && (|run.sent| == |run.flagged| + 1 ==> crash == Some(|run.flagged|))
  }

  /** Every call fits the tables as the calls before it left them; `crashAt(i)` is the i-th call's failing update. */
  predicate Attempted(tables: map<string, Table>, runs: seq<TableRun>, crashAt: nat -> Option<nat>)
    decreases |runs|
  {
    |runs| == 0
    || (Attempted(tables, runs[..|runs| - 1], crashAt)
        && RunFits(FlagTables(tables, runs[..|runs| - 1]), runs[|runs| - 1], crashAt(|runs| - 1)))
  }

  /** One more call extends the updates, the rows and the history by that call's own. */
  lemma RunsSnoc(tables: map<string, Table>, runs: seq<TableRun>, run: TableRun, encode: string -> Vector,
                 crashAt: nat -> Option<nat>)
    ensures FlagTables(tables, runs + [run]) == Flagged(FlagTables(tables, runs), run)
    ensures AppendedRows(runs + [run], encode) == AppendedRows(runs, encode) + MergedRows(run.sent, run.name, encode)
    ensures Attempted(tables, runs + [run], crashAt)
        <==> Attempted(tables, runs, crashAt) && RunFits(FlagTables(tables, runs), run, crashAt(|runs|))
  {
    assert (runs + [run])[..|runs|] == runs;
  }

  /** One table of `insert_multiple_tables_to_milvus`: `insert_table_to_milvus` on it, as a `TableRun`. */
  method SyncTable(c: Collection, store: MetadataStore, name: string, encode: string -> Vector, crash: Option<nat>)
    returns (run: TableRun)
    requires c.schema == MergedSchema
    modifies c, store
    ensures run.name == name && RunFits(old(store.tables), run, crash)
    ensures c.schema == MergedSchema && c.rows == old(c.rows) + MergedRows(run.sent, name, encode)
    ensures store.tables == Flagged(old(store.tables), run)
  {
    var selected, total, inserted, marked, completed := InsertTableToMilvus(c, store, name, encode, crash);
    run := TableRun(name, selected, selected[..inserted], selected[..marked], completed);
    assert |run.sent| == inserted && |run.flagged| == marked;
  }

  /** Table `|runs|` of the list, stated against the calls before it. */
  method SyncNextTable(c: Collection, store: MetadataStore, name: string, runs: seq<TableRun>,
                       ghost tables: map<string, Table>, ghost start: seq<seq<Value>>,
                       encode: string -> Vector, crashAt: nat -> Option<nat>)
    returns (run: TableRun)
    requires c.schema == MergedSchema && Attempted(tables, runs, crashAt)
    requires c.rows == start + AppendedRows(runs, encode) && store.tables == FlagTables(tables, runs)
    modifies c, store
    ensures run.name == name && c.schema == MergedSchema && Attempted(tables, runs + [run], crashAt)
    ensures c.rows == start + AppendedRows(runs + [run], encode)
    ensures store.tables == FlagTables(tables, runs + [run])
  {
    run := SyncTable(c, store, name, encode, crashAt(|runs|));
    RunsSnoc(tables, runs, run, encode, crashAt);
  }

  /**
   * `insert_multiple_tables_to_milvus`: the tables in list order, stopping at
   * the first call that does not complete (its exception propagates).
   * `runs` holds one `TableRun` per table attempted; `crashAt(i)` is the
   * failing status update of the i-th table, if any.
   */
  method InsertMultipleTables(c: Collection, store: MetadataStore, names: seq<string>, encode: string -> Vector,
                              crashAt: nat -> Option<nat>)
    returns (runs: seq<TableRun>, completed: bool)
    requires c.schema == MergedSchema
    modifies c, store
    ensures |runs| <= |names| && forall i :: 0 <= i < |runs| ==> runs[i].name == names[i]
    ensures forall i :: 0 <= i < |runs| - 1 ==> runs[i].completed
    ensures completed <==> |runs| == |names| && forall i :: 0 <= i < |runs| ==> runs[i].completed
    ensures !completed ==> 0 < |runs| && !runs[|runs| - 1].completed
    ensures Attempted(old(store.tables), runs, crashAt)
    ensures c.rows == old(c.rows) + AppendedRows(runs, encode)
    ensures store.tables == FlagTables(old(store.tables), runs)
  {
    runs, completed := [], true;
    while completed && |runs| < |names|
      invariant |runs| <= |names| && forall j :: 0 <= j < |runs| ==> runs[j].name == names[j]
      invariant forall j :: 0 <= j < |runs| - 1 ==> runs[j].completed
      invariant completed <==> forall j :: 0 <= j < |runs| ==> runs[j].completed
      invariant c.schema == MergedSchema
      invariant Attempted(old(store.tables), runs, crashAt)
      invariant c.rows == old(c.rows) + AppendedRows(runs, encode)
      invariant store.tables == FlagTables(old(store.tables), runs)
      decreases |names| - |runs|
    {
      var run := SyncNextTable(c, store, names[|runs|], runs, old(store.tables), old(c.rows), encode, crashAt);
      runs := runs + [run];
      completed := run.completed;
    }
  }

  /** Only the listed tables change: every other table keeps its rows. */
  lemma {:induction false} FlagTablesOthers(tables: map<string, Table>, runs: seq<TableRun>, n: string)
    requires forall i :: 0 <= i < |runs| ==> runs[i].name != n
    ensures (n in FlagTables(tables, runs) <==> n in tables)
    ensures n in tables ==> FlagTables(tables, runs)[n] == tables[n]
    decreases |runs|
  {
    if |runs| > 0 {
      FlagTablesOthers(tables, runs[..|runs| - 1], n);
    }
  }

  /** Status updates never add a table and keep every table filed by url. */
  lemma {:induction false} FlagTablesKeyed(tables: map<string, Table>, runs: seq<TableRun>)
    requires forall n :: n in tables ==> Keyed(tables[n])
    ensures FlagTables(tables, runs).Keys == tables.Keys
    ensures forall n :: n in FlagTables(tables, runs) ==> Keyed(FlagTables(tables, runs)[n])
    decreases |runs|
  {
    if |runs| > 0 {
      FlagTablesKeyed(tables, runs[..|runs| - 1]);
      var before := FlagTables(tables, runs[..|runs| - 1]);
      var run := runs[|runs| - 1];
      if run.name in before {
        MarkAllKeyed(before[run.name], run.flagged);
      }
    }
  }

  /** Flagging keeps a table filed by url. */
  lemma {:induction false} MarkAllKeyed(t: Table, recs: seq<ArticleRecord>)
    requires Keyed(t)
    ensures Keyed(MarkAll(t, recs))
    decreases |recs|
  {
    if |recs| > 0 {
      MarkAllKeyed(t, recs[..|recs| - 1]);
    }
  }

  /**
   * After a completed run over the list, no row of a listed table waits for
   * embeddings: each table was drained by its own call, and later calls only
   * flag rows.
   */
  lemma {:induction false} MultiRunDrains(tables: map<string, Table>, runs: seq<TableRun>, crashAt: nat -> Option<nat>)
    requires forall n :: n in tables ==> Keyed(tables[n])
    requires Attempted(tables, runs, crashAt) && forall i :: 0 <= i < |runs| ==> runs[i].completed
    ensures forall i :: 0 <= i < |runs| ==>
              runs[i].name in FlagTables(tables, runs) && Waiting(FlagTables(tables, runs)[runs[i].name]) == {}
    decreases |runs|
  {
    if |runs| > 0 {
      var k := |runs| - 1;
      var init, run := runs[..k], runs[k];
      MultiRunDrains(tables, init, crashAt);
      var before := FlagTables(tables, init);
      var after := FlagTables(tables, runs);
      FlagTablesKeyed(tables, init);
      assert run.name in before;
      CompletedRunDrains(before[run.name], run.flagged, "");
      forall i | 0 <= i < k
        ensures runs[i].name in after && Waiting(after[runs[i].name]) == {}
      {
        assert runs[i] == init[i];
        if runs[i].name != run.name {
          assert after[runs[i].name] == before[runs[i].name];
        }
      }
    }
  }
}
