/**
 * The data-access layer `UtilsDB` (animal_logger/src/db/utils_db.py): deduplicating a
 * column batch by id, splitting rows into batches, inserting batch by batch, creating
 * tables only when absent, finding a model by table name, and turning table-fetch
 * failures into messages. The database is abstract state (a catalogue of tables and the
 * list of committed inserts); what the driver does with one batch is a parameter.
 */
module Database {
  import opened Common
  import opened Columns
  import opened Batching

  /** A column definition of a model; its content is passed through untouched. */
  datatype ColumnDef = ColumnDef(sqlType: string, primaryKey: bool)

  /** A model class: its class name, `__tablename__`, schema from `__table_args__`, and columns. */
  datatype Model = Model(className: string, tableName: string, schema: string, columns: map<string, ColumnDef>)
  {
    /** The `(schema, table)` pair `has_table` is asked about. */
    function Key(): (string, string)
    {
      (schema, tableName)
    }
  }

  /** The tables that exist in the database, by `(schema, table)`, with the model each was created from. */
  type Catalogue = map<(string, string), Model>

  /** What `bulk_insert_mappings` followed by `commit` does with one batch. */
  datatype InsertOutcome = Committed | IntegrityViolation | OtherFailure

  /** The log line written for one batch. */
  datatype BatchReport =
    | BatchStored(number: nat)   // "Batch number <n> ... successfully stored", when there are several batches
    | TableStored                // "Table ... successfully stored", when there is one batch
    | DuplicateKeysSkipped       // warning on IntegrityError
    | InsertFailed               // error on any other exception

  /** One committed transaction: the rows of one batch, stored in one table. */
  datatype Commit = Commit(table: (string, string), rows: seq<Row>)

  /** The exceptions that escape `insert_dict_in_db`. */
  datatype InsertError =
    | DedupRaised(outcome: DedupOutcome)  // IndexError or KeyError from `remove_duplicate_ids`
    | ZeroBatchSize                       // ZeroDivisionError in `_divide_dict_in_batches`

  /** The log line for batch number `index` given what the driver did with it. */
  function Report(outcome: InsertOutcome, index: nat, isBatched: bool): BatchReport
  {
    match outcome
    case Committed => if isBatched then BatchStored(index + 1) else TableStored
    case IntegrityViolation => DuplicateKeysSkipped
    case OtherFailure => InsertFailed
  }

  /** The log lines for attempting every batch in order. */
  function Reports(batches: seq<seq<Row>>, insert: (nat, seq<Row>) -> InsertOutcome, isBatched: bool): seq<BatchReport>
  {
    if batches == [] then []
    else
      var n := |batches| - 1;
      Reports(batches[..n], insert, isBatched) + [Report(insert(n, batches[n]), n, isBatched)]
  }

  /** One log line per batch, in batch order, saying what happened to that batch. */
  lemma {:induction false} ReportsSpec(batches: seq<seq<Row>>, insert: (nat, seq<Row>) -> InsertOutcome, isBatched: bool)
    ensures |Reports(batches, insert, isBatched)| == |batches|
    ensures forall k :: 0 <= k < |batches| ==>
              Reports(batches, insert, isBatched)[k] == Report(insert(k, batches[k]), k, isBatched)
  {
    if batches != [] {
      var n := |batches| - 1;
      ReportsSpec(batches[..n], insert, isBatched);
    }
  }

  /** Entry k holds when the driver commits batch k. */
  function CommitMask(batches: seq<seq<Row>>, insert: (nat, seq<Row>) -> InsertOutcome): seq<bool>
  {
    seq(|batches|, k requires 0 <= k < |batches| => insert(k, batches[k]) == Committed)
  }

  /** The commits made by attempting every batch in order, each in its own transaction. */
  function CommitsOf(table: (string, string), batches: seq<seq<Row>>, insert: (nat, seq<Row>) -> InsertOutcome): seq<Commit>
  {
    if batches == [] then []
    else
      var n := |batches| - 1;
      CommitsOf(table, batches[..n], insert)
        + (if insert(n, batches[n]) == Committed then [Commit(table, batches[n])] else [])
  }

  /** The rows of a list of commits, in commit order. */
  function RowsOf(commits: seq<Commit>): seq<Row>
  {
    if commits == [] then [] else RowsOf(commits[..|commits| - 1]) + commits[|commits| - 1].rows
  }

  /**
   * The commits are exactly the batches the driver accepted, in batch order: a batch that
   * fails is skipped and every later batch is still attempted.
   */
  lemma {:induction false} CommitsAreAcceptedBatches(table: (string, string), batches: seq<seq<Row>>,
                                                     insert: (nat, seq<Row>) -> InsertOutcome)
    ensures var p := KeptPositions(CommitMask(batches, insert));
            && |CommitsOf(table, batches, insert)| == |p|
            && forall j :: 0 <= j < |p| ==>
                 p[j] < |batches| && CommitsOf(table, batches, insert)[j] == Commit(table, batches[p[j]])
  {
    if batches != [] {
      var n := |batches| - 1;
      CommitsAreAcceptedBatches(table, batches[..n], insert);
      assert CommitMask(batches, insert)[..n] == CommitMask(batches[..n], insert);
    }
  }

  /** Concatenation distributes over appending one more chunk. */
  lemma {:induction false} FlattenAppend<T>(chunks: seq<seq<T>>, last: seq<T>)
    ensures Flatten(chunks + [last]) == Flatten(chunks) + last
  {
    if chunks != [] {
      assert (chunks + [last])[1..] == chunks[1..] + [last];
      FlattenAppend(chunks[1..], last);
    }
  }

  /** When the driver accepts every batch, the table receives the rows in their order, each once. */
  lemma {:induction false} AllAcceptedStoresEveryRow(table: (string, string), rows: seq<Row>, b: int,
                                                     insert: (nat, seq<Row>) -> InsertOutcome)
    requires b > 0
    requires forall k :: 0 <= k < |Batches(rows, b)| ==> insert(k, Batches(rows, b)[k]) == Committed
    ensures RowsOf(CommitsOf(table, Batches(rows, b), insert)) == rows
  {
    BatchesFlatten(rows, b);
    AllAcceptedRows(table, Batches(rows, b), insert);
  }

  /** Induction step of AllAcceptedStoresEveryRow over the list of batches. */
  lemma {:induction false} AllAcceptedRows(table: (string, string), batches: seq<seq<Row>>,
                                           insert: (nat, seq<Row>) -> InsertOutcome)
    requires forall k :: 0 <= k < |batches| ==> insert(k, batches[k]) == Committed
    ensures RowsOf(CommitsOf(table, batches, insert)) == Flatten(batches)
  {
    if batches != [] {
      var n := |batches| - 1;
      AllAcceptedRows(table, batches[..n], insert);
      FlattenAppend(batches[..n], batches[n]);
      assert batches[..n] + [batches[n]] == batches;
      var commits := CommitsOf(table, batches, insert);
      assert commits == CommitsOf(table, batches[..n], insert) + [Commit(table, batches[n])];
      assert commits[..|commits| - 1] == CommitsOf(table, batches[..n], insert);
    }
  }

  /** The catalogue after asking `has_table` for each model in turn and creating the absent ones. */
  function CreatedTables(catalogue: Catalogue, models: seq<Model>): Catalogue
  {
    if models == [] then catalogue
    else
      var before := CreatedTables(catalogue, models[..|models| - 1]);
      var m := models[|models| - 1];
      if m.Key() in before then before else before[m.Key() := m]
  }

  /** After the creation pass every listed model's table exists. */
  lemma {:induction false} CreatedTablesHasListed(catalogue: Catalogue, models: seq<Model>)
    ensures forall i :: 0 <= i < |models| ==> models[i].Key() in CreatedTables(catalogue, models)
  {
    if models != [] {
      var n := |models| - 1;
      CreatedTablesHasListed(catalogue, models[..n]);
      CreatedTablesGrows(catalogue, models);
      assert forall i :: 0 <= i < n ==> models[i] == models[..n][i];
    }
  }

  /** One step of the creation pass never drops or changes a table. */
  lemma CreatedTablesGrows(catalogue: Catalogue, models: seq<Model>)
    requires models != []
    ensures var before := CreatedTables(catalogue, models[..|models| - 1]);
            var after := CreatedTables(catalogue, models);
            forall key :: key in before ==> key in after && after[key] == before[key]
  {
  }

  /** Tables that existed before the creation pass are untouched by it. */
  lemma {:induction false} CreatedTablesKeepsExisting(catalogue: Catalogue, models: seq<Model>)
    ensures forall key :: key in catalogue ==>
              key in CreatedTables(catalogue, models) && CreatedTables(catalogue, models)[key] == catalogue[key]
  {
    if models != [] {
      CreatedTablesKeepsExisting(catalogue, models[..|models| - 1]);
      CreatedTablesGrows(catalogue, models);
    }
  }

  /** A table the creation pass adds comes from the first listed model with that `(schema, table)`. */
  lemma {:induction false} CreatedTablesFromFirstListed(catalogue: Catalogue, models: seq<Model>, key: (string, string))
    requires key in CreatedTables(catalogue, models) && key !in catalogue
    ensures exists i :: 0 <= i < |models| && models[i] == CreatedTables(catalogue, models)[key]
                        && models[i].Key() == key
                        && forall j :: 0 <= j < i ==> models[j].Key() != key
  {
    var n := |models| - 1;
    var before := CreatedTables(catalogue, models[..n]);
    var after := CreatedTables(catalogue, models);
    if key in before {
      CreatedTablesFromFirstListed(catalogue, models[..n], key);
      CreatedTablesGrows(catalogue, models);
      var i :| 0 <= i < n && models[..n][i] == before[key] && models[..n][i].Key() == key
               && forall j :: 0 <= j < i ==> models[..n][j].Key() != key;
      assert forall j :: 0 <= j < i ==> models[j] == models[..n][j];
      assert models[i] == after[key];
    } else {
      CreatedTablesHasListed(catalogue, models[..n]);
      assert forall j :: 0 <= j < n ==> models[j] == models[..n][j];
      assert models[n] == after[key];
    }
  }

  /** A creation pass over models whose tables all exist changes nothing. */
  lemma {:induction false} CreatedTablesNoop(catalogue: Catalogue, models: seq<Model>)
    requires forall i :: 0 <= i < |models| ==> models[i].Key() in catalogue
    ensures CreatedTables(catalogue, models) == catalogue
  {
    if models != [] {
      CreatedTablesNoop(catalogue, models[..|models| - 1]);
    }
  }

  /** Running the creation pass twice creates nothing the first run did not. */
  lemma CreatedTablesIdempotent(catalogue: Catalogue, models: seq<Model>)
    ensures CreatedTables(CreatedTables(catalogue, models), models) == CreatedTables(catalogue, models)
  {
    CreatedTablesHasListed(catalogue, models);
    CreatedTablesNoop(CreatedTables(catalogue, models), models);
  }

  /** What `dd.read_sql` (and `compute`) did when fetching a table. */
  datatype ReadOutcome<T> =
    | Read(table: T)
    | UnicodeDecodeFailure   // UnicodeDecodeError
    | OperationalFailure     // sqlalchemy.exc.OperationalError
    | ProgrammingFailure     // sqlalchemy.exc.ProgrammingError
    | UncaughtFailure        // any other exception, which `get_table` lets escape

  /** What `get_table` returns: the pair `(ddf, message)`, or an escaping exception. */
  datatype Fetched<T> = Fetched(table: Option<T>, message: Option<string>) | Raised

  const InvalidCredentialsMessage: string := "Invalid credentials. Try again."
  const LogInMessage: string := "Please, log in with your credentials."
  const NoRightsMessage: string := "You have no rights to the database."

  /** `get_table`'s mapping from the fetch outcome to the returned pair. */
  function GetTable<T>(read: ReadOutcome<T>): (r: Fetched<T>)
    ensures r.Raised? <==> read.UncaughtFailure?
    ensures r.Fetched? ==> (r.table.Some? <==> r.message.None?)
    ensures read.Read? ==> r == Fetched(Some(read.table), None)
    ensures read.UnicodeDecodeFailure? ==> r == Fetched(None, Some(InvalidCredentialsMessage))
    ensures read.OperationalFailure? ==> r == Fetched(None, Some(LogInMessage))
    ensures read.ProgrammingFailure? ==> r == Fetched(None, Some(NoRightsMessage))
  {
    match read
    case Read(t) => Fetched(Some(t), None)
    case UnicodeDecodeFailure => Fetched(None, Some(InvalidCredentialsMessage))
    case OperationalFailure => Fetched(None, Some(LogInMessage))
    case ProgrammingFailure => Fetched(None, Some(NoRightsMessage))
    case UncaughtFailure => Raised
  }

  /** Every message is non-empty, and the message tells which failure happened. */
  lemma FetchMessageIdentifiesFailure<T>(r1: ReadOutcome<T>, r2: ReadOutcome<T>)
    requires GetTable(r1).Fetched? && GetTable(r1).message.Some? && GetTable(r2).Fetched?
    ensures GetTable(r1).message.value != ""
    ensures GetTable(r1).message == GetTable(r2).message ==> r1 == r2
  {
  }

  class UtilsDb {
    /** The tables of the database the engine points at. */
    var catalogue: Catalogue
    /** Every transaction committed through the session, in order. */
    var committed: seq<Commit>
    /** How many times the session has been closed. */
    var sessionCloses: nat

    constructor (catalogue: Catalogue)
      ensures this.catalogue == catalogue && committed == [] && sessionCloses == 0
    {
      this.catalogue := catalogue;
      committed := [];
      sessionCloses := 0;
    }

    /** The keep-mask loop of `remove_duplicate_ids`: keep position i when `ids[i]` is not in `ids[:i]`. */
    static method FirstOccurrences(ids: seq<Cell>) returns (mask: seq<bool>)
      ensures |mask| == |ids|
      ensures forall i :: 0 <= i < |ids| ==> (mask[i] <==> ids[i] !in ids[..i])
    {
      mask := [];
      for idx := 0 to |ids|
        invariant |mask| == idx
        invariant forall i :: 0 <= i < idx ==> (mask[i] <==> ids[i] !in ids[..i])
      {
        if ids[idx] !in ids[..idx] {
          mask := mask + [true];
        } else {
          mask := mask + [false];
        }
      }
    }

    /** The first loop of `remove_duplicate_ids`: the length of every column, in key order. */
    static method ColumnLengths(batch: ColumnBatch) returns (lengths: seq<nat>)
      requires batch.Valid()
      ensures |lengths| == |batch.keys|
      ensures forall j :: 0 <= j < |lengths| ==> lengths[j] == |batch.data[batch.keys[j]]|
    {
      lengths := [];
      for i := 0 to |batch.keys|
        invariant |lengths| == i
        invariant forall j :: 0 <= j < i ==> lengths[j] == |batch.data[batch.keys[j]]|
      {
        lengths := lengths + [|batch.data[batch.keys[i]]|];
      }
    }

    /** The second loop of `remove_duplicate_ids`: whether every length equals the first. */
    static method AllEqualToFirst(lengths: seq<nat>) returns (isSame: bool)
      ensures isSame <==> forall j :: 0 <= j < |lengths| ==> lengths[j] == lengths[0]
    {
      isSame := true;
      var i := 0;
      while i < |lengths|
        invariant 0 <= i <= |lengths|
        invariant isSame
        invariant forall j :: 0 <= j < i ==> lengths[j] == lengths[0]
      {
        if lengths[0] != lengths[i] {
          isSame := false;
          break;
        }
        i := i + 1;
      }
    }

    /** Equal column lengths, in key order, mean the dictionary's columns are equally long. */
    static lemma LengthsShowSameLength(batch: ColumnBatch, lengths: seq<nat>)
      requires batch.Valid()
      requires |lengths| == |batch.keys|
      requires forall j :: 0 <= j < |lengths| ==> lengths[j] == |batch.data[batch.keys[j]]|
      ensures SameLength(batch.data) <==> forall j :: 0 <= j < |lengths| ==> lengths[j] == lengths[0]
      ensures batch.data == map[] <==> lengths == []
    {
      var keys, d := batch.keys, batch.data;
      if forall j :: 0 <= j < |lengths| ==> lengths[j] == lengths[0] {
        forall k, k' | k in d && k' in d ensures |d[k]| == |d[k']| {
          var a :| 0 <= a < |keys| && keys[a] == k;
          var b :| 0 <= b < |keys| && keys[b] == k';
        }
      }
      if lengths != [] {
        assert keys[0] in d;
      } else {
        assert forall k :: k !in d;
      }
    }

    /** The compress loop of `remove_duplicate_ids`: every column, visited in key order, is replaced by its compression under `mask`. */
    static method CompressColumns(keys: seq<string>, data: ColumnMap, mask: seq<bool>) returns (updated: ColumnMap)
      requires forall i, j :: 0 <= i < j < |keys| ==> keys[i] != keys[j]
      requires forall k :: k in data <==> k in keys
      requires forall k :: k in data ==> |data[k]| == |mask|
      ensures updated.Keys == data.Keys
      ensures updated == map k | k in data :: Compress(data[k], mask)
    {
      updated := data;
      for n := 0 to |keys|
        invariant updated.Keys == data.Keys
        invariant forall j :: 0 <= j < n ==> updated[keys[j]] == Compress(data[keys[j]], mask)
        invariant forall j :: n <= j < |keys| ==> updated[keys[j]] == data[keys[j]]
      {
        var k := keys[n];
        updated := updated[k := Compress(updated[k], mask)];
      }
      forall k | k in data
        ensures updated[k] == Compress(data[k], mask)
      {
        var a :| 0 <= a < |keys| && keys[a] == k;
      }
    }

    /** The length and `id` checks `remove_duplicate_ids` makes before it changes anything. */
    static method CheckColumns(batch: ColumnBatch) returns (outcome: DedupOutcome)
      requires batch.Valid()
      ensures outcome == DedupOutcomeOf(batch.data)
    {
      var lengths := ColumnLengths(batch);
      var isSame := AllEqualToFirst(lengths);
      LengthsShowSameLength(batch, lengths);
      if !isSame {
        outcome := LengthMismatch;
      } else if |lengths| == 0 {
        outcome := NoColumns;
      } else if IdKey !in batch.data {
        outcome := NoIdColumn;
      } else {
        outcome := Unique;
      }
    }

    /**
     * `remove_duplicate_ids`: when all columns are equally long, keep only the first row
     * for each id, in every column; otherwise leave the dictionary as it is. The empty
     * dictionary and a missing "id" column raise before anything changes.
     */
    static method RemoveDuplicateIds(batch: ColumnBatch) returns (outcome: DedupOutcome)
      requires batch.Valid()
      modifies batch
      ensures batch.Valid() && batch.keys == old(batch.keys)
      ensures outcome == DedupOutcomeOf(old(batch.data))
      ensures batch.data == AfterDedup(old(batch.data))
    {
      outcome := CheckColumns(batch);
      if outcome != Unique {
        return;
      }
      var data := batch.data;
      var mask := FirstOccurrences(data[IdKey]);
      assert mask == FirstOccurrenceMask(data[IdKey]);
      var updated := CompressColumns(batch.keys, data, mask);
      assert updated == Deduplicated(data);
      batch.data := updated;
    }

    /**
     * `_divide_dict_in_batches`: ceil(n / b) consecutive slices `rows[k*b : (k+1)*b]`.
     * A batch size of zero raises ZeroDivisionError, which nothing catches.
     */
    static method DivideInBatches<T>(rows: seq<T>, batchSize: int) returns (chunks: seq<seq<T>>)
      requires batchSize != 0
      ensures |chunks| == ChunkCount(|rows|, batchSize)
      ensures forall k :: 0 <= k < |chunks| ==> chunks[k] == Slice(rows, k * batchSize, (k + 1) * batchSize)
      ensures chunks == Batches(rows, batchSize)
      ensures rows == [] ==> chunks == []
      ensures 0 < |rows| <= batchSize ==> chunks == [rows]
    {
      var nChunks := ChunkCount(|rows|, batchSize);
      chunks := [];
      var startingRow, endingRow := 0, batchSize;
      for n := 0 to nChunks
        invariant nChunks > 0 ==> batchSize > 0
        invariant startingRow == n * batchSize && endingRow == startingRow + batchSize
        invariant |chunks| == n
        invariant forall k :: 0 <= k < n ==> chunks[k] == Slice(rows, k * batchSize, (k + 1) * batchSize)
      {
        chunks := chunks + [Slice(rows, startingRow, endingRow)];
        assert endingRow == (n + 1) * batchSize;
        startingRow := startingRow + batchSize;
        endingRow := endingRow + batchSize;
      }
      if batchSize > 0 {
        BatchesAreSlices(rows, batchSize);
      }
    }

    /**
     * The loop of `insert_dict_in_db`: attempt every batch in order, each as its own
     * transaction; a batch the driver rejects is logged and skipped, and the loop goes on.
     */
    method InsertBatches(batches: seq<seq<Row>>, table: (string, string),
                         insert: (nat, seq<Row>) -> InsertOutcome) returns (reports: seq<BatchReport>)
      modifies this
      ensures reports == Reports(batches, insert, |batches| > 1)
      ensures committed == old(committed) + CommitsOf(table, batches, insert)
      ensures sessionCloses == old(sessionCloses) && catalogue == old(catalogue)
    {
      var isBatched := |batches| > 1;
      reports := [];
      for idx := 0 to |batches|
        invariant reports == Reports(batches[..idx], insert, isBatched)
        invariant committed == old(committed) + CommitsOf(table, batches[..idx], insert)
        invariant sessionCloses == old(sessionCloses) && catalogue == old(catalogue)
      {
        assert batches[..idx + 1][..idx] == batches[..idx];
        var outcome := insert(idx, batches[idx]);
        if outcome == Committed {
          committed := committed + [Commit(table, batches[idx])];
          reports := reports + [if isBatched then BatchStored(idx + 1) else TableStored];
        } else if outcome == IntegrityViolation {
          reports := reports + [DuplicateKeysSkipped];
        } else {
          reports := reports + [InsertFailed];
        }
      }
      assert batches[..|batches|] == batches;
    }

    /**
     * `insert_dict_in_db`: deduplicate, turn columns into rows, split them into batches,
     * attempt every batch, then close the session once. `insert(k, rows)` is what the
     * driver does with batch k. Exceptions from deduplication and from a zero batch size
     * escape before the session is used or closed.
     */
    method InsertDictInDb(batch: ColumnBatch, model: Model,
                          insert: (nat, seq<Row>) -> InsertOutcome, batchSize: int := 10000)
      returns (result: Result<seq<BatchReport>, InsertError>)
      requires batch.Valid()
      modifies this, batch
      ensures batch.Valid() && batch.keys == old(batch.keys)
      ensures batch.data == AfterDedup(old(batch.data))
      ensures catalogue == old(catalogue)
      ensures var outcome := DedupOutcomeOf(old(batch.data));
              && (outcome == NoColumns || outcome == NoIdColumn ==> result == Failure(DedupRaised(outcome)))
              && (outcome == Unique || outcome == LengthMismatch ==>
                    (result == Failure(ZeroBatchSize) <==> batchSize == 0))
              && ((outcome == Unique || outcome == LengthMismatch) && batchSize != 0 ==> result.Success?)
      ensures result.Failure? ==> committed == old(committed) && sessionCloses == old(sessionCloses)
      ensures result.Success? ==>
                && batchSize != 0
                && var batches := Batches(ToRows(batch.keys, batch.data), batchSize);
                && result.value == Reports(batches, insert, |batches| > 1)
                && committed == old(committed) + CommitsOf(model.Key(), batches, insert)
                && sessionCloses == old(sessionCloses) + 1
    {
      var outcome := RemoveDuplicateIds(batch);
      if outcome == NoColumns || outcome == NoIdColumn {
        return Failure(DedupRaised(outcome));
      }
      var rows := ToRows(batch.keys, batch.data);
      if batchSize == 0 {
        return Failure(ZeroBatchSize);
      }
      var batches := DivideInBatches(rows, batchSize);
      var reports := InsertBatches(batches, model.Key(), insert);
      sessionCloses := sessionCloses + 1;
      result := Success(reports);
    }

    /**
     * `create_specific_model`: build the model and create its table only when `has_table`
     * reports it absent; the model is returned either way.
     */
    method CreateSpecificModel(className: string, modelName: string, schemaName: string,
                               columnData: map<string, ColumnDef>) returns (model: Model)
      modifies this
      ensures model == Model(className, modelName, schemaName, columnData)
      ensures catalogue == CreatedTables(old(catalogue), [model])
      ensures model.Key() in catalogue
      ensures model.Key() in old(catalogue) ==> catalogue == old(catalogue)
      ensures committed == old(committed) && sessionCloses == old(sessionCloses)
    {
      model := Model(className, modelName, schemaName, columnData);
      if model.Key() !in catalogue {
        catalogue := catalogue[model.Key() := model];
      }
      assert [model][..0] == [];
    }

    /** `create_new_models`: create the table of every listed model whose table is absent. */
    method CreateNewModels(models: seq<Model>)
      modifies this
      ensures catalogue == CreatedTables(old(catalogue), models)
      ensures forall i :: 0 <= i < |models| ==> models[i].Key() in catalogue
      ensures forall key :: key in old(catalogue) ==> key in catalogue && catalogue[key] == old(catalogue)[key]
      ensures committed == old(committed) && sessionCloses == old(sessionCloses)
    {
      for i := 0 to |models|
        invariant catalogue == CreatedTables(old(catalogue), models[..i])
        invariant committed == old(committed) && sessionCloses == old(sessionCloses)
      {
        assert models[..i + 1][..i] == models[..i];
        var m := models[i];
        if m.Key() !in catalogue {
          catalogue := catalogue[m.Key() := m];
        }
      }
      assert models[..|models|] == models;
      CreatedTablesHasListed(old(catalogue), models);
      CreatedTablesKeepsExisting(old(catalogue), models);
    }

    /**
     * `get_model_class_with_name`: the loop keeps the last model with that table name.
     * None stands for the source's failure when nothing matches (the result variable is
     * never bound, so Python raises UnboundLocalError).
     */
    static method GetModelClassWithName(models: seq<Model>, tableName: string) returns (found: Option<Model>)
      ensures found.None? <==> forall i :: 0 <= i < |models| ==> models[i].tableName != tableName
      ensures found.Some? ==> exists i :: 0 <= i < |models| && models[i] == found.value
                                          && models[i].tableName == tableName
                                          && forall j :: i < j < |models| ==> models[j].tableName != tableName
    {
      found := None;
      for i := 0 to |models|
        invariant found.None? <==> forall j :: 0 <= j < i ==> models[j].tableName != tableName
        invariant found.Some? ==> exists j :: 0 <= j < i && models[j] == found.value
                                             && models[j].tableName == tableName
                                             && forall j' :: j < j' < i ==> models[j'].tableName != tableName
      {
        if models[i].tableName == tableName {
          found := Some(models[i]);
        }
      }
    }
  }
}
