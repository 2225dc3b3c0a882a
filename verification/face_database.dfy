/**
 * The `faces` table of `FaceDatabase`: an auto-increment id, a UNIQUE name
 * and the embedding as text. The SQLite engine is reduced to what the
 * statements do to the rows: an insert with REPLACE on conflict, an update
 * and a delete keyed by name, and a full scan in row order.
 */
module FaceDatabase {
  import opened Wrappers
  import opened Recognition
  import opened EmbeddingCodec
  import opened KnownFaces

  /** One row of the `faces` table. */
  datatype Row = Row(id: nat, name: string, embedding: string)

  /** The rows in storage order, and the id the next insert receives. */
  datatype Table = Table(rows: seq<Row>, nextId: nat)

  /** No two rows share a name or an id. */
  predicate DistinctRows(rows: seq<Row>) {
    forall i, j | 0 <= i < j < |rows| :: rows[i].name != rows[j].name && rows[i].id != rows[j].id
  }

  /** The table's constraints: UNIQUE names, and ids issued once each, all below `nextId`. */
  predicate Valid(t: Table) {
    && DistinctRows(t.rows)
    && (forall i | 0 <= i < |t.rows| :: t.rows[i].id < t.nextId)
  }

  /** A fresh database, as `onCreate` leaves it. */
  const EmptyTable := Table([], 1)

  /** The embedding text stored under a name, if a row has that name. */
  function Lookup(t: Table, name: string): (r: Option<string>)
    ensures r.Some? <==> exists i | 0 <= i < |t.rows| :: t.rows[i].name == name
    ensures r.Some? ==> exists i | 0 <= i < |t.rows| :: t.rows[i].name == name && t.rows[i].embedding == r.value
  {
    LookupRows(t.rows, name)
  }

  function LookupRows(rows: seq<Row>, name: string): (r: Option<string>)
    ensures r.Some? <==> exists i | 0 <= i < |rows| :: rows[i].name == name
    ensures r.Some? ==> exists i | 0 <= i < |rows| :: rows[i].name == name && rows[i].embedding == r.value
  {
    if rows == [] then None
    else if rows[0].name == name then Some(rows[0].embedding)
    else
      var r := LookupRows(rows[1..], name);
      assert forall i | 0 <= i < |rows[1..]| :: rows[1..][i] == rows[i + 1];
      r
  }

  /** With unique names, the row at a name's position holds what `Lookup` returns. */
  lemma {:induction false} LookupAt(rows: seq<Row>, i: nat)
    requires i < |rows|
    requires forall a, b | 0 <= a < b < |rows| :: rows[a].name != rows[b].name
    ensures LookupRows(rows, rows[i].name) == Some(rows[i].embedding)
  {
    if i > 0 {
      assert rows[0].name != rows[i].name;
      assert rows[1..][i - 1] == rows[i];
      LookupRows1(rows);
      LookupAt(rows[1..], i - 1);
    }
  }

  lemma LookupRows1(rows: seq<Row>)
    requires |rows| > 0
    ensures forall a, b | 0 <= a < b < |rows[1..]| :: rows[1..][a] == rows[a + 1] && rows[1..][b] == rows[b + 1]
  {
  }

  /** The rows whose name is not `name`, in order. */
  function Without(rows: seq<Row>, name: string): (r: seq<Row>)
    ensures |r| <= |rows|
    ensures forall i | 0 <= i < |r| :: r[i].name != name && r[i] in rows
    ensures forall i | 0 <= i < |rows| && rows[i].name != name :: rows[i] in r
  {
    if rows == [] then []
    else if rows[0].name == name then Without(rows[1..], name)
    else [rows[0]] + Without(rows[1..], name)
  }

  /** Removing rows keeps the survivors' order, so names and ids stay distinct. */
  lemma {:induction false} WithoutKeepsDistinct(rows: seq<Row>, name: string)
    requires DistinctRows(rows)
    ensures DistinctRows(Without(rows, name))
  {
    if rows != [] {
      var tail := rows[1..];
      TailDistinct(rows);
      WithoutKeepsDistinct(tail, name);
      var w := Without(tail, name);
      if rows[0].name != name {
        forall k | 0 <= k < |w| ensures w[k].name != rows[0].name && w[k].id != rows[0].id {
          var m :| 0 <= m < |tail| && tail[m] == w[k];
          assert w[k] == rows[m + 1];
        }
        ConsDistinct(rows[0], w);
      }
    }
  }

  lemma TailDistinct(rows: seq<Row>)
    requires DistinctRows(rows) && |rows| > 0
    ensures DistinctRows(rows[1..])
  {
    var tail := rows[1..];
    forall i, j | 0 <= i < j < |tail| ensures tail[i].name != tail[j].name && tail[i].id != tail[j].id {
      assert tail[i] == rows[i + 1] && tail[j] == rows[j + 1];
    }
  }

  lemma ConsDistinct(row: Row, rows: seq<Row>)
    requires DistinctRows(rows)
    requires forall k | 0 <= k < |rows| :: rows[k].name != row.name && rows[k].id != row.id
    ensures DistinctRows([row] + rows)
  {
    var r := [row] + rows;
    forall i, j | 0 <= i < j < |r| ensures r[i].name != r[j].name && r[i].id != r[j].id {
      assert r[j] == rows[j - 1];
      if i > 0 { assert r[i] == rows[i - 1]; }
    }
  }

  /** Every row not named `name` is found by `Lookup` exactly as before the removal. */
  lemma {:induction false} LookupWithout(rows: seq<Row>, name: string, other: string)
    requires other != name
    ensures LookupRows(Without(rows, name), other) == LookupRows(rows, other)
  {
    if rows != [] {
      LookupWithout(rows[1..], name, other);
      if rows[0].name != name {
        var rest := Without(rows[1..], name);
        assert Without(rows, name) == [rows[0]] + rest;
        assert ([rows[0]] + rest)[1..] == rest;
      }
    }
  }

  /**
   * `addFace`: `insertWithOnConflict(..., CONFLICT_REPLACE)`. A row already
   * holding the name is deleted and the new row is inserted with a fresh id,
   * so it follows the others. The embedding is stored as `embeddingToString`
   * writes it, "" for a null vector. The insert cannot fail in the model, so
   * the returned flag (`result != -1`) is always true.
   */
  function AddFace(t: Table, name: string, embedding: Option<Embedding>, show: Show): (r: (Table, bool))
    ensures r.1
    ensures Lookup(r.0, name) == Some(EmbeddingToString(embedding, show))
    ensures forall other | other != name :: Lookup(r.0, other) == Lookup(t, other)
    ensures Without(r.0.rows, name) == Without(t.rows, name)
    ensures Valid(t) ==> Valid(r.0)
  {
    var row := Row(t.nextId, name, EmbeddingToString(embedding, show));
    var kept := Without(t.rows, name);
    var t' := Table(kept + [row], t.nextId + 1);
    AddFaceFacts(t, name, row);
    (t', true)
  }

  lemma AddFaceFacts(t: Table, name: string, row: Row)
    requires row.name == name && row.id == t.nextId
    ensures var rows := Without(t.rows, name) + [row];
            && LookupRows(rows, name) == Some(row.embedding)
            && (forall other | other != name :: LookupRows(rows, other) == LookupRows(t.rows, other))
            && Without(rows, name) == Without(t.rows, name)
            && (Valid(t) ==> Valid(Table(rows, t.nextId + 1)))
  {
    var kept := Without(t.rows, name);
    var rows := kept + [row];
    LookupAppend(kept, row);
    forall other | other != name
      ensures LookupRows(rows, other) == LookupRows(t.rows, other)
    {
      LookupWithout(t.rows, name, other);
    }
    WithoutAppend(kept, row, name);
    WithoutTwice(t.rows, name);
    if Valid(t) {
      WithoutKeepsDistinct(t.rows, name);
      WithoutKeepsBound(t.rows, name, t.nextId);
      AppendValid(kept, row);
    }
  }

  /** Removing rows keeps every remaining id below a bound all ids were below. */
  lemma WithoutKeepsBound(rows: seq<Row>, name: string, bound: nat)
    requires forall i | 0 <= i < |rows| :: rows[i].id < bound
    ensures forall k | 0 <= k < |Without(rows, name)| :: Without(rows, name)[k].id < bound
  {
    var kept := Without(rows, name);
    forall k | 0 <= k < |kept|
      ensures kept[k].id < bound
    {
      var m :| 0 <= m < |rows| && rows[m] == kept[k];
    }
  }

  /** A row with a new name and the next id keeps the table valid when it follows the others. */
  lemma AppendValid(rows: seq<Row>, row: Row)
    requires DistinctRows(rows)
    requires forall k | 0 <= k < |rows| :: rows[k].name != row.name && rows[k].id < row.id
    ensures Valid(Table(rows + [row], row.id + 1))
  {
    var r := rows + [row];
    assert forall k | 0 <= k < |rows| :: r[k] == rows[k];
  }

  /** Lookups in rows followed by one more row. */
  lemma {:induction false} LookupAppend(rows: seq<Row>, row: Row)
    ensures LookupRows(rows + [row], row.name) ==
            (if LookupRows(rows, row.name).Some? then LookupRows(rows, row.name) else Some(row.embedding))
    ensures forall other | other != row.name :: LookupRows(rows + [row], other) == LookupRows(rows, other)
  {
    if rows != [] {
      assert (rows + [row])[1..] == rows[1..] + [row];
      LookupAppend(rows[1..], row);
    }
  }

  lemma {:induction false} WithoutAppend(rows: seq<Row>, row: Row, name: string)
    requires row.name == name
    ensures Without(rows + [row], name) == Without(rows, name)
  {
    if rows == [] {
      assert rows + [row] == [row];
    } else {
      assert (rows + [row])[1..] == rows[1..] + [row];
      WithoutAppend(rows[1..], row, name);
    }
  }

  lemma {:induction false} WithoutTwice(rows: seq<Row>, name: string)
    ensures Without(Without(rows, name), name) == Without(rows, name)
  {
    if rows != [] {
      WithoutTwice(rows[1..], name);
      if rows[0].name != name {
        assert ([rows[0]] + Without(rows[1..], name))[1..] == Without(rows[1..], name);
      }
    }
  }

  /** The rows with the named one's embedding replaced. */
  function SetEmbedding(rows: seq<Row>, name: string, embedding: string): (r: seq<Row>)
    ensures |r| == |rows|
    ensures forall i | 0 <= i < |rows| ::
              r[i] == if rows[i].name == name then rows[i].(embedding := embedding) else rows[i]
  {
    if rows == [] then []
    else [if rows[0].name == name then rows[0].(embedding := embedding) else rows[0]]
         + SetEmbedding(rows[1..], name, embedding)
  }

  /**
   * `updateFace`: `UPDATE ... SET embedding WHERE name = ?`. The flag
   * (`affectedRows > 0`) is true exactly when a row had the name; only that
   * row's embedding changes.
   */
  function UpdateFace(t: Table, name: string, embedding: Option<Embedding>, show: Show): (r: (Table, bool))
    ensures r.1 <==> Lookup(t, name).Some?
    ensures Lookup(r.0, name) == if r.1 then Some(EmbeddingToString(embedding, show)) else None
    ensures forall other | other != name :: Lookup(r.0, other) == Lookup(t, other)
    ensures |r.0.rows| == |t.rows| && r.0.nextId == t.nextId
    ensures forall i | 0 <= i < |t.rows| :: r.0.rows[i].name == t.rows[i].name && r.0.rows[i].id == t.rows[i].id
    ensures Valid(t) ==> Valid(r.0)
  {
    var text := EmbeddingToString(embedding, show);
    var t' := Table(SetEmbedding(t.rows, name, text), t.nextId);
    UpdateFacts(t, name, text, t');
    (t', Lookup(t, name).Some?)
  }

  lemma UpdateFacts(t: Table, name: string, text: string, t': Table)
    requires t' == Table(SetEmbedding(t.rows, name, text), t.nextId)
    ensures Lookup(t', name) == (if Lookup(t, name).Some? then Some(text) else None)
    ensures forall other | other != name :: Lookup(t', other) == Lookup(t, other)
    ensures |t'.rows| == |t.rows| && t'.nextId == t.nextId
    ensures forall i | 0 <= i < |t.rows| :: t'.rows[i].name == t.rows[i].name && t'.rows[i].id == t.rows[i].id
    ensures Valid(t) ==> Valid(t')
  {
    UpdateLookups(t.rows, name, text);
    UpdateKeepsValid(t, name, text);
    forall i | 0 <= i < |t.rows| ensures t'.rows[i].name == t.rows[i].name && t'.rows[i].id == t.rows[i].id {
      var row := t.rows[i];
      assert t'.rows[i] == row || t'.rows[i] == row.(embedding := text);
    }
  }

  /** Changing embeddings leaves names and ids, hence the constraints, as they were. */
  lemma UpdateKeepsValid(t: Table, name: string, text: string)
    ensures Valid(t) ==> Valid(Table(SetEmbedding(t.rows, name, text), t.nextId))
  {
  }

  lemma {:induction false} UpdateLookups(rows: seq<Row>, name: string, text: string)
    ensures LookupRows(SetEmbedding(rows, name, text), name) == if LookupRows(rows, name).Some? then Some(text) else None
    ensures forall other | other != name :: LookupRows(SetEmbedding(rows, name, text), other) == LookupRows(rows, other)
  {
    if rows != [] {
      UpdateLookups(rows[1..], name, text);
      assert SetEmbedding(rows, name, text)[1..] == SetEmbedding(rows[1..], name, text);
    }
  }

  /**
   * `removeFace`: `DELETE ... WHERE name = ?`. The flag (`deletedRows > 0`) is
   * true exactly when a row had the name; afterwards none has it and the other
   * rows remain, in order.
   */
  function RemoveFace(t: Table, name: string): (r: (Table, bool))
    ensures r.1 <==> Lookup(t, name).Some?
    ensures Lookup(r.0, name).None?
    ensures forall other | other != name :: Lookup(r.0, other) == Lookup(t, other)
    ensures r.0.rows == Without(t.rows, name)
    ensures Valid(t) ==> Valid(r.0)
  {
    var rows := Without(t.rows, name);
    RemoveFaceFacts(t, name);
    (Table(rows, t.nextId), Lookup(t, name).Some?)
  }

  lemma RemoveFaceFacts(t: Table, name: string)
    ensures forall other | other != name :: LookupRows(Without(t.rows, name), other) == LookupRows(t.rows, other)
    ensures LookupRows(Without(t.rows, name), name).None?
    ensures Valid(t) ==> Valid(Table(Without(t.rows, name), t.nextId))
  {
    var kept := Without(t.rows, name);
    forall other | other != name
      ensures LookupRows(kept, other) == LookupRows(t.rows, other)
    {
      LookupWithout(t.rows, name, other);
    }
    if Valid(t) {
      WithoutKeepsDistinct(t.rows, name);
      WithoutKeepsBound(t.rows, name, t.nextId);
    }
  }

  /**
   * `getAllFaces`: every row in storage order, its embedding decoded and put
   * into the map under its name as `new RecognitionData(name, embedding)`. A
   * row whose text does not decode makes the whole call fail: the parse
   * exception is not caught. Since names are UNIQUE, every `put` adds a new
   * key and the map holds one entry per row, in row order.
   */
  function GetAllFaces(t: Table, parse: Parse): (r: Result<Gallery, string>)
    requires Valid(t)
    ensures r.Success? <==> forall i | 0 <= i < |t.rows| :: Decodes(t.rows[i], parse)
    ensures r.Success? ==> r.value == LoadedAll(t.rows, parse) && UniqueNames(r.value)
  {
    LoadRowsSucceeds(t.rows, parse, []);
    var r := LoadRows(t.rows, parse, []);
    if r.Success? then
      LoadRowsValue(t.rows, parse, []);
      assert [] + LoadedAll(t.rows, parse) == LoadedAll(t.rows, parse);
      LoadedAllUnique(t.rows, parse);
      r
    else r
  }

  /** Rows with distinct names load into a map with distinct keys. */
  lemma LoadedAllUnique(rows: seq<Row>, parse: Parse)
    requires forall i, j | 0 <= i < j < |rows| :: rows[i].name != rows[j].name
    requires forall i | 0 <= i < |rows| :: Decodes(rows[i], parse)
    ensures UniqueNames(LoadedAll(rows, parse))
  {
    var g := LoadedAll(rows, parse);
    assert forall i | 0 <= i < |g| :: g[i].name == rows[i].name;
  }

  /** A row whose embedding text decodes. */
  predicate Decodes(row: Row, parse: Parse) {
    StringToEmbedding(Some(row.embedding), parse).Success?
  }

  /** The map entry `getAllFaces` makes of a row. */
  function Loaded(row: Row, parse: Parse): Entry
    requires Decodes(row, parse)
  {
    Entry(row.name, Enrolled(row.name, StringToEmbedding(Some(row.embedding), parse).value))
  }

  /** The scan loop: `put` of each remaining row, in order, into the map built so far. */
  function LoadRows(rows: seq<Row>, parse: Parse, acc: Gallery): (r: Result<Gallery, string>)
    requires UniqueNames(acc)
    decreases |rows|
  {
    if rows == [] then Success(acc)
    else
      var decoded := StringToEmbedding(Some(rows[0].embedding), parse);
      if decoded.Failure? then Failure(decoded.error)
      else
        var data := Enrolled(rows[0].name, decoded.value);
        PutSemantics(acc, rows[0].name, data);
        LoadRows(rows[1..], parse, Put(acc, rows[0].name, data))
  }

  /** The rows still to read have distinct names, none of them already in the map. */
  predicate DistinctFrom(rows: seq<Row>, acc: Gallery) {
    && (forall i, j | 0 <= i < j < |rows| :: rows[i].name != rows[j].name)
    && (forall i, k | 0 <= i < |rows| && 0 <= k < |acc| :: rows[i].name != acc[k].name)
  }

  /** Reading a row whose name is new appends its entry. */
  lemma LoadStep(rows: seq<Row>, parse: Parse, acc: Gallery)
    requires UniqueNames(acc) && DistinctFrom(rows, acc) && |rows| > 0 && Decodes(rows[0], parse)
    ensures UniqueNames(acc + [Loaded(rows[0], parse)])
    ensures DistinctFrom(rows[1..], acc + [Loaded(rows[0], parse)])
    ensures LoadRows(rows, parse, acc) == LoadRows(rows[1..], parse, acc + [Loaded(rows[0], parse)])
  {
    var entry := Loaded(rows[0], parse);
    PutAppends(acc, entry.name, entry.data);
    var acc' := acc + [entry];
    var tail := rows[1..];
    forall i, k | 0 <= i < |tail| && 0 <= k < |acc'| ensures tail[i].name != acc'[k].name {
      assert tail[i] == rows[i + 1];
    }
    forall i, j | 0 <= i < j < |tail| ensures tail[i].name != tail[j].name {
      assert tail[i] == rows[i + 1] && tail[j] == rows[j + 1];
    }
  }

  /** The scan fails exactly when some row does not decode. */
  lemma {:induction false} LoadRowsSucceeds(rows: seq<Row>, parse: Parse, acc: Gallery)
    requires UniqueNames(acc) && DistinctFrom(rows, acc)
    ensures LoadRows(rows, parse, acc).Success? <==> forall i | 0 <= i < |rows| :: Decodes(rows[i], parse)
    decreases |rows|
  {
    if rows != [] && Decodes(rows[0], parse) {
      LoadStep(rows, parse, acc);
      LoadRowsSucceeds(rows[1..], parse, acc + [Loaded(rows[0], parse)]);
      assert forall i | 1 <= i < |rows| :: rows[i] == rows[1..][i - 1];
    }
  }

  /** The entries of rows that all decode, in order. */
  function LoadedAll(rows: seq<Row>, parse: Parse): (r: Gallery)
    requires forall i | 0 <= i < |rows| :: Decodes(rows[i], parse)
    ensures |r| == |rows|
    ensures forall i | 0 <= i < |rows| :: r[i] == Loaded(rows[i], parse)
  {
    if rows == [] then []
    else
      assert forall i | 0 <= i < |rows[1..]| :: rows[1..][i] == rows[i + 1];
      [Loaded(rows[0], parse)] + LoadedAll(rows[1..], parse)
  }

  /** When every row decodes, the scan appends one entry per row, in row order. */
  lemma {:induction false} LoadRowsValue(rows: seq<Row>, parse: Parse, acc: Gallery)
    requires UniqueNames(acc) && DistinctFrom(rows, acc)
    requires forall i | 0 <= i < |rows| :: Decodes(rows[i], parse)
    ensures LoadRows(rows, parse, acc) == Success(acc + LoadedAll(rows, parse))
    decreases |rows|
  {
    if rows == [] {
      assert acc + [] == acc;
    } else {
      LoadStep(rows, parse, acc);
      var e := Loaded(rows[0], parse);
      var tail := rows[1..];
      assert forall i | 0 <= i < |tail| :: Decodes(tail[i], parse) by {
        forall i | 0 <= i < |tail| ensures Decodes(tail[i], parse) {
          assert tail[i] == rows[i + 1];
        }
      }
      LoadRowsValue(tail, parse, acc + [e]);
      AppendAssoc(acc, [e], LoadedAll(tail, parse));
    }
  }

  /**
   * What `addFace` stores is read back by `getAllFaces`: after adding row 0
   * of an embedding under a name, loading yields that name with that row,
   * for a float printer and parser that read back what they print.
   */
  lemma StoredFaceReadsBack(t: Table, name: string, embedding: Embedding, show: Show, parse: Parse)
    requires Valid(t) && |embedding| >= 1
    requires forall k | 0 <= k < |embedding[0]| ::
               var x := embedding[0][k]; show(x) != "" && CommaFree(show(x)) && parse(show(x)) == Some(x)
    requires forall i | 0 <= i < |t.rows| :: Decodes(t.rows[i], parse)
    ensures var t' := AddFace(t, name, Some(embedding), show).0;
            var loaded := GetAllFaces(t', parse);
            && loaded.Success?
            && Get(loaded.value, name) == Some(Enrolled(name, [embedding[0]]))
  {
    var kept := Without(t.rows, name);
    var row := Row(t.nextId, name, EmbeddingToString(Some(embedding), show));
    var t' := AddFace(t, name, Some(embedding), show).0;
    assert t'.rows == kept + [row];
    StoredRowDecodes(row, embedding, show, parse);
    KeptRowsDecode(t.rows, name, parse);
    AllDecodeAppend(kept, row, parse);
    LoadedLast(t'.rows, parse);
  }

  /** A row holding what `embeddingToString` wrote decodes to row 0 of the embedding. */
  lemma StoredRowDecodes(row: Row, embedding: Embedding, show: Show, parse: Parse)
    requires |embedding| >= 1 && row.embedding == EmbeddingToString(Some(embedding), show)
    requires forall k | 0 <= k < |embedding[0]| ::
               var x := embedding[0][k]; show(x) != "" && CommaFree(show(x)) && parse(show(x)) == Some(x)
    ensures Decodes(row, parse) && Loaded(row, parse) == Entry(row.name, Enrolled(row.name, [embedding[0]]))
  {
    RoundTrip(embedding, show, parse);
  }

  lemma AllDecodeAppend(rows: seq<Row>, row: Row, parse: Parse)
    requires forall i | 0 <= i < |rows| :: Decodes(rows[i], parse)
    requires Decodes(row, parse)
    ensures forall i | 0 <= i < |rows + [row]| :: Decodes((rows + [row])[i], parse)
  {
  }

  /** In the loaded map, the last row's name maps to what that row decodes to. */
  lemma LoadedLast(rows: seq<Row>, parse: Parse)
    requires |rows| > 0 && forall i, j | 0 <= i < j < |rows| :: rows[i].name != rows[j].name
    requires forall i | 0 <= i < |rows| :: Decodes(rows[i], parse)
    ensures Get(LoadedAll(rows, parse), rows[|rows| - 1].name) == Some(Loaded(rows[|rows| - 1], parse).data)
  {
    LoadedAllUnique(rows, parse);
    GetAt(LoadedAll(rows, parse), |rows| - 1);
  }

  /** Rows that all decode still all decode after some are removed. */
  lemma KeptRowsDecode(rows: seq<Row>, name: string, parse: Parse)
    requires forall i | 0 <= i < |rows| :: Decodes(rows[i], parse)
    ensures forall i | 0 <= i < |Without(rows, name)| :: Decodes(Without(rows, name)[i], parse)
  {
    var kept := Without(rows, name);
    forall i | 0 <= i < |kept| ensures Decodes(kept[i], parse) {
      var m :| 0 <= m < |rows| && rows[m] == kept[i];
    }
  }
}
