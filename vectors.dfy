/**
 * The vector side of the system: the embedding of one text field, the
 * column layout handed to the vector database, the two collection schemas,
 * and a collection whose rows grow by inserts.
 */
module Vectors {
  import opened Wrappers
  import opened Text

  /** Dimension of the sentence-embedding model's vectors. */
  const Dim: nat := 768

  /** Largest VARCHAR value a collection field accepts, counted here in characters. */
  const MaxVarChar: nat := 65535

  type Vector = seq<real>

  /** The all-zero vector returned for texts with nothing to embed. */
  function ZeroVector(): (v: Vector)
    ensures |v| == Dim
    ensures forall i :: 0 <= i < |v| ==> v[i] == 0.0
  {
    seq(Dim, _ => 0.0)
  }

  /** A text is not embedded when it is the "N/A" marker or only whitespace (empty included). */
  predicate NothingToEmbed(text: string)
  {
    text == "N/A" || IsBlank(text)
  }

  /** An encoder of the embedding model: every text goes to a vector of the model's dimension. */
  ghost predicate EncoderFits(encode: string -> Vector)
  {
    forall t :: |encode(t)| == Dim
  }

  /**
   * `generate_embedding`: the zero vector for a text with nothing to embed,
   * otherwise the model's encoding, which is taken as a parameter.
   */
  function GenerateEmbedding(text: string, encode: string -> Vector): (v: Vector)
    ensures NothingToEmbed(text) ==> |v| == Dim && forall i :: 0 <= i < |v| ==> v[i] == 0.0
    ensures EncoderFits(encode) ==> |v| == Dim
  {
    if NothingToEmbed(text) then ZeroVector() else encode(text)
  }

  /** Texts with nothing to embed never reach the encoder: any two of them embed alike under any encoders. */
  lemma NothingToEmbedIgnoresEncoder(a: string, b: string, e1: string -> Vector, e2: string -> Vector)
    requires NothingToEmbed(a) && NothingToEmbed(b)
    ensures GenerateEmbedding(a, e1) == GenerateEmbedding(b, e2)
  {
  }

  /** Every other text is exactly the encoder's result. */
  lemma TextIsEncoded(text: string, encode: string -> Vector)
    requires !NothingToEmbed(text)
    ensures GenerateEmbedding(text, encode) == encode(text)
  {
  }

  // ---------------------------------------------------------------------
  // Schemas and columns

  datatype FieldKind = AutoId | VarChar | FloatVector
  datatype Field = Field(name: string, kind: FieldKind)

  /** The schema of a per-specialisation collection: an automatic id, four texts, three vectors. */
  const ArticleSchema: seq<Field> := [
    Field("id", AutoId),
    Field("title_text", VarChar), Field("abstract_text", VarChar),
    Field("authors_text", VarChar), Field("article_url", VarChar),
    Field("title_embedding", FloatVector), Field("abstract_embedding", FloatVector),
    Field("authors_embedding", FloatVector)
  ]

  /** The merged collection's schema: the same with a `specialization` text before the vectors. */
  const MergedSchema: seq<Field> := [
    Field("id", AutoId),
    Field("title_text", VarChar), Field("abstract_text", VarChar),
    Field("authors_text", VarChar), Field("article_url", VarChar),
    Field("specialization", VarChar),
    Field("title_embedding", FloatVector), Field("abstract_embedding", FloatVector),
    Field("authors_embedding", FloatVector)
  ]

  /** A column of a column-wise insert: one value per inserted row. */
  datatype Column = Texts(texts: seq<string>) | Vectors(vectors: seq<Vector>)
  {
    function Length(): nat
    {
      if Texts? then |texts| else |vectors|
    }
  }

  /** One stored value of a row. */
  datatype Value = Str(s: string) | Vec(v: Vector)

  /** A column fits a field when it has the field's kind, `n` entries, and values in range. */
  predicate ColumnFits(f: Field, c: Column, n: nat)
  {
    match f.kind
    case AutoId => false
    case VarChar => c.Texts? && |c.texts| == n && forall t <- c.texts :: |t| <= MaxVarChar
    case FloatVector => c.Vectors? && |c.vectors| == n && forall v <- c.vectors :: |v| == Dim
  }

  /** The number of rows a column-wise insert carries: the length of its first column. */
  function RowCount(cols: seq<Column>): nat
  {
    if |cols| == 0 then 0 else cols[0].Length()
  }

  /**
   * A column-wise insert the collection accepts: the schema starts with its
   * automatic id, and every other field gets one fitting column, all of one length.
   */
  predicate Conforms(schema: seq<Field>, cols: seq<Column>)
  {
    |schema| >= 1 && schema[0].kind == AutoId && |cols| == |schema| - 1
    && forall j :: 0 <= j < |cols| ==> ColumnFits(schema[j + 1], cols[j], RowCount(cols))
  }

  function ValueAt(c: Column, i: int): Value
  {
    if c.Texts? then (if 0 <= i < |c.texts| then Str(c.texts[i]) else Str(""))
    else (if 0 <= i < |c.vectors| then Vec(c.vectors[i]) else Vec([]))
  }

  /** The rows a conforming column-wise insert stores, each value in schema order. */
  function RowsOf(cols: seq<Column>): (rows: seq<seq<Value>>)
    ensures |rows| == RowCount(cols)
    ensures forall i, j :: 0 <= i < |rows| && 0 <= j < |cols| ==> |rows[i]| == |cols| && rows[i][j] == ValueAt(cols[j], i)
  {
    seq(RowCount(cols), i => seq(|cols|, j requires 0 <= j < |cols| => ValueAt(cols[j], i)))
  }

  // ---------------------------------------------------------------------
  // `add_to_milvus`

  /** The article metadata handed to `add_to_milvus`; each embedding entry is a list of vectors. */
  datatype ArticleVectors = ArticleVectors(
    title: string, abstractText: string, authors: string, url: string,
    titleEmbedding: seq<Vector>, abstractEmbedding: seq<Vector>, authorsEmbedding: seq<Vector>)

  /** The column layout of `add_to_milvus`: four one-element text columns, then the three embedding entries as they are. */
  function ArticleColumns(m: ArticleVectors): (cols: seq<Column>)
    ensures |cols| == 7
    ensures cols[0] == Texts([m.title]) && cols[1] == Texts([m.abstractText])
    ensures cols[2] == Texts([m.authors]) && cols[3] == Texts([m.url])
    ensures cols[4] == Vectors(m.titleEmbedding) && cols[5] == Vectors(m.abstractEmbedding)
    ensures cols[6] == Vectors(m.authorsEmbedding)
  {
    [Texts([m.title]), Texts([m.abstractText]), Texts([m.authors]), Texts([m.url]),
     Vectors(m.titleEmbedding), Vectors(m.abstractEmbedding), Vectors(m.authorsEmbedding)]
  }

  /** Metadata whose three embedding entries each wrap one vector of the model's dimension. */
  predicate WellFormedArticle(m: ArticleVectors)
  {
    |m.title| <= MaxVarChar && |m.abstractText| <= MaxVarChar
    && |m.authors| <= MaxVarChar && |m.url| <= MaxVarChar
    && |m.titleEmbedding| == 1 && |m.titleEmbedding[0]| == Dim
    && |m.abstractEmbedding| == 1 && |m.abstractEmbedding[0]| == Dim
    && |m.authorsEmbedding| == 1 && |m.authorsEmbedding[0]| == Dim
  }

  /** The one row an article becomes, written field by field. */
  function ArticleRow(m: ArticleVectors): seq<Value>
    requires WellFormedArticle(m)
  {
    [Str(m.title), Str(m.abstractText), Str(m.authors), Str(m.url),
     Vec(m.titleEmbedding[0]), Vec(m.abstractEmbedding[0]), Vec(m.authorsEmbedding[0])]
  }

  /** The layout fits the per-specialisation schema exactly when the metadata is well formed. */
  lemma ArticleColumnsConform(m: ArticleVectors)
    ensures Conforms(ArticleSchema, ArticleColumns(m)) <==> WellFormedArticle(m)
  {
    var cols := ArticleColumns(m);
    assert RowCount(cols) == 1;
    if Conforms(ArticleSchema, cols) {
      assert ColumnFits(ArticleSchema[1], cols[0], 1) && ColumnFits(ArticleSchema[2], cols[1], 1);
      assert ColumnFits(ArticleSchema[3], cols[2], 1) && ColumnFits(ArticleSchema[4], cols[3], 1);
      assert ColumnFits(ArticleSchema[5], cols[4], 1) && ColumnFits(ArticleSchema[6], cols[5], 1);
      assert ColumnFits(ArticleSchema[7], cols[6], 1);
      assert m.titleEmbedding[0] in cols[4].vectors;
      assert m.abstractEmbedding[0] in cols[5].vectors;
      assert m.authorsEmbedding[0] in cols[6].vectors;
    }
  }

  /** Reading back the rows of the layout gives the article's single row: the layout loses nothing. */
  lemma ArticleColumnsRoundTrip(m: ArticleVectors)
    requires WellFormedArticle(m)
    ensures RowsOf(ArticleColumns(m)) == [ArticleRow(m)]
  {
    var cols := ArticleColumns(m);
    var rows := RowsOf(cols);
    assert |rows| == 1;
    assert rows[0] == ArticleRow(m);
  }

  /**
   * The row layout of `insert_table_to_milvus`: the four texts, the table
   * name as specialisation, then each embedding wrapped in a one-element list.
   */
  function MergedColumns(title: string, abstractText: string, authors: string, url: string, table: string,
                         titleVec: Vector, abstractVec: Vector, authorsVec: Vector): (cols: seq<Column>)
    ensures |cols| == 8 && RowCount(cols) == 1
    ensures cols[3] == Texts([url]) && cols[4] == Texts([table])
  {
    [Texts([title]), Texts([abstractText]), Texts([authors]), Texts([url]), Texts([table]),
     Vectors([titleVec]), Vectors([abstractVec]), Vectors([authorsVec])]
  }

  /** The merged layout conforms when the texts fit and the vectors have the model's dimension. */
  lemma MergedColumnsConform(title: string, abstractText: string, authors: string, url: string, table: string,
                             titleVec: Vector, abstractVec: Vector, authorsVec: Vector)
    requires |title| <= MaxVarChar && |abstractText| <= MaxVarChar && |authors| <= MaxVarChar
    requires |url| <= MaxVarChar && |table| <= MaxVarChar
    requires |titleVec| == Dim && |abstractVec| == Dim && |authorsVec| == Dim
    ensures Conforms(MergedSchema, MergedColumns(title, abstractText, authors, url, table, titleVec, abstractVec, authorsVec))
    ensures RowsOf(MergedColumns(title, abstractText, authors, url, table, titleVec, abstractVec, authorsVec))
         == [[Str(title), Str(abstractText), Str(authors), Str(url), Str(table), Vec(titleVec), Vec(abstractVec), Vec(authorsVec)]]
  {
    var cols := MergedColumns(title, abstractText, authors, url, table, titleVec, abstractVec, authorsVec);
    var rows := RowsOf(cols);
    assert |rows| == 1;
    assert rows[0] == [Str(title), Str(abstractText), Str(authors), Str(url), Str(table), Vec(titleVec), Vec(abstractVec), Vec(authorsVec)];
  }

  // ---------------------------------------------------------------------
  // Collections

  /** A vector collection: its schema and the rows inserted so far, in insertion order. */
  class Collection {
    const name: string
    const schema: seq<Field>
    var rows: seq<seq<Value>>

    constructor (name: string, schema: seq<Field>)
      ensures this.name == name && this.schema == schema && rows == []
    {
      this.name := name;
      this.schema := schema;
      rows := [];
    }

    /** A column-wise insert: all its rows when it conforms to the schema, none when it is refused. */
    method Insert(cols: seq<Column>) returns (ok: bool)
      modifies this
      ensures ok <==> Conforms(schema, cols)
      ensures ok ==> rows == old(rows) + RowsOf(cols)
      ensures !ok ==> rows == old(rows)
    {
      ok := Conforms(schema, cols);
      if ok {
        rows := rows + RowsOf(cols);
      }
    }
  }

  /** `add_to_milvus`: insert the article's column layout; a refused insert is the raised error. */
  method AddToMilvus(c: Collection, m: ArticleVectors) returns (ok: bool)
    requires c.schema == ArticleSchema
    modifies c
    ensures ok <==> WellFormedArticle(m)
    ensures ok ==> c.rows == old(c.rows) + [ArticleRow(m)]
    ensures !ok ==> c.rows == old(c.rows)
  {
    ArticleColumnsConform(m);
    ok := c.Insert(ArticleColumns(m));
    if ok {
      ArticleColumnsRoundTrip(m);
    }
  }

  /** The collections by name, each with the schema it was created with. */
  type Catalog = map<string, seq<Field>>

  /**
   * `initialize_milvus` / `initialize_milvus_merged`: create the collection
   * with the given schema only when no collection of that name exists.
   */
  function EnsureCollection(cat: Catalog, name: string, schema: seq<Field>): (r: Catalog)
    ensures name in r && r.Keys == cat.Keys + {name}
    ensures forall n :: n in cat ==> r[n] == cat[n]
    ensures name !in cat ==> r[name] == schema
  {
    if name in cat then cat else cat[name := schema]
  }

  /** Initialising twice is initialising once, whatever schema the second call brings. */
  lemma EnsureCollectionIdempotent(cat: Catalog, name: string, s1: seq<Field>, s2: seq<Field>)
    ensures EnsureCollection(EnsureCollection(cat, name, s1), name, s2) == EnsureCollection(cat, name, s1)
  {
  }
}
