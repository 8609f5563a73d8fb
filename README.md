# animal_logger data-access core in Dafny

This project models the non-UI logic of animal_logger, a desktop application that
records animals in a PostgreSQL database:

- **Column-batch pipeline** (`UtilsDB` in `animal_logger/src/db/utils_db.py`), in
  modules `Columns`, `Batching` and `Database`.
  - `remove_duplicate_ids` keeps the first row for each distinct `id` and applies the same
    mask to every column. The keep-mask is built by a loop; `itertools.compress` is modelled
    as `Compress`.
  - `_divide_dict_in_batches` slices the row list into chunks of at most `batch_size` rows.
  - `insert_dict_in_db` turns columns into rows, batches them and commits each batch in its own
    transaction. A failed batch is logged and skipped, and the session is closed at the end.
    The database is a per-batch oracle `insert(index, rows)` that says whether the batch
    committed, hit an integrity error, or failed otherwise. Committed batches are recorded in
    the `committed` field.
  - `create_specific_model` and `create_new_models` create a table only when the catalogue of
    existing `(schema, table)` pairs lacks it.
  - `get_model_class_with_name` searches a list of models.
  - `get_table` maps a read outcome to a `(table, message)` pair.
- **Configuration** (`Config` in `config/config.py`), module `Configuration`.
  - `get_info` raises when no configuration was loaded. Otherwise it overwrites `user`/`password`
    in place from the `USERNAME`/`PASSWORD` environment variables when they are set.
  - The environment is a `map<string, string>` parameter.
  - The class-level `_CONFIG_DICT` is a field of a `Config` object.
- **Login** (`LoginPage.attempt_login` in `animal_logger/src/frames/login_page.py`), module
  `Login`.
  - It writes the submitted credentials to the environment and reads the configuration.
  - It fetches the credential table; the fetch is a function parameter from database URL to
    read outcome.
  - It blanks the previous error label.
  - It then shows the fetch's message, destroys every child widget on an exactly matching
    row, or does nothing.
- **Animals** (`BaseAnimal` in `animal_logger/src/animals/base_animal.py`), module `Animals`.
  - An immutable record with defaulted taxonomy fields and a one-line rendering.

Python behaviour that the model keeps:

- An empty column dictionary fails at `len_keys[0]` (`NoColumns`).
- Equal-length columns without `id` fail at `data_dict['id']` (`NoIdColumn`).
- Unequal lengths return the dictionary unchanged (`LengthMismatch`); the pipeline then zips the
  columns to the shortest length.
- A batch size of 0 fails at the division. A negative batch size yields no chunks, because
  `math.ceil` gives a non-positive count and `range` is then empty.
- `get_model_class_with_name` keeps the last matching model. With no match Python raises
  `UnboundLocalError`; the model returns `None` instead.

`get_info` only overwrites `user` and `password`; it does not rebuild `db_url` or the engine
from them (config/config.py:24-33).

## Model

| member | source | states |
|---|---|---|
| Columns.DedupOutcomeOf | animal_logger/src/db/utils_db.py:126-153 | the outcome of `remove_duplicate_ids` in the order the source checks: unequal lengths return unchanged, an empty dictionary fails at `len_keys[0]`, a missing `id` fails at `data_dict['id']`, otherwise the ids are deduplicated |
| Columns.AfterDedup | animal_logger/src/db/utils_db.py:124-153 | the dictionary after `remove_duplicate_ids`: deduplicated on success, the input itself otherwise |
| Columns.Deduplicated | animal_logger/src/db/utils_db.py:138-150 | every column compressed with the first-occurrence mask of the `id` column; its properties are DeduplicatedRows, DeduplicatedIdsDistinct and DeduplicatedKeepsEveryId |
| Columns.KeptPositionsSpec | animal_logger/src/db/utils_db.py:149-150 | the positions `compress` keeps are exactly the true positions of the mask, in increasing order |
| Columns.CompressSpec | animal_logger/src/db/utils_db.py:150 | the compressed column has one element per kept position, namely the input element at that position |
| Columns.DeduplicatedRows | animal_logger/src/db/utils_db.py:138-150 | row i survives iff `id[i]` does not occur in `id[0..i)`; kept rows keep their order; every column keeps its key and is compressed by the same positions, so rows stay aligned |
| Columns.DeduplicatedIdsDistinct | animal_logger/src/db/utils_db.py:141-150 | after deduplication the ids are pairwise distinct |
| Columns.DeduplicatedKeepsEveryId | animal_logger/src/db/utils_db.py:141-150 | every id of the input still occurs after deduplication, and no new id appears |
| Columns.DeduplicatedExample | animal_logger/src/db/utils_db.py:138-150 | ids [1,2,1,3] with values [a,b,c,d] become [1,2,3] with [a,b,d] |
| Columns.ShortestLength | animal_logger/src/db/utils_db.py:96 | `zip(*columns)` yields as many rows as the shortest column |
| Columns.ToRows | animal_logger/src/db/utils_db.py:96 | `[dict(zip(data_dict, t)) for t in zip(*data_dict.values())]`: row i maps every key to that column's i-th value, for as many rows as the shortest column; RowsRoundTrip inverts it |
| Columns.RowsRoundTrip | animal_logger/src/db/utils_db.py:96 | with equal-length columns, every row has every key and regrouping the rows into columns gives back the input |
| Batching.ChunkCount | animal_logger/src/db/utils_db.py:158 | for a positive size the count is ceil(n/b); for a negative size it is 0 |
| Batching.Slice | animal_logger/src/db/utils_db.py:162 | Python's clamped slice `s[lo:hi]`: its length is `min(hi,n) - min(lo,n)` and element i is `s[lo+i]` |
| Batching.Batches | animal_logger/src/db/utils_db.py:156-166 | the chunk list of `_divide_dict_in_batches` by recursion on the rows; BatchesAreSlices proves it equals the source's slice loop |
| Batching.BatchesAreSlices | animal_logger/src/db/utils_db.py:156-166 | there are ceil(n/b) chunks and chunk k is `rows[k*b:(k+1)*b]` |
| Batching.BatchesFlatten | animal_logger/src/db/utils_db.py:156-166 | concatenating the chunks gives back the rows |
| Batching.BatchesSizes | animal_logger/src/db/utils_db.py:156-166 | every chunk but the last has exactly b rows; the last has between 1 and b |
| Batching.BatchesExample | animal_logger/src/db/utils_db.py:156-166 | five rows in chunks of 2 give [[0,1],[2,3],[4]] |
| Database.Reports | animal_logger/src/db/utils_db.py:100-120 | the log outcome of every batch in order: stored (numbered when batched), duplicate keys skipped, or insert failed |
| Database.CommitsOf | animal_logger/src/db/utils_db.py:100-104 | the transactions that commit, in batch order: one per batch the database accepts |
| Database.ReportsSpec | animal_logger/src/db/utils_db.py:100-120 | one report per batch; report k depends only on batch k's own outcome, so a failed batch does not stop later ones |
| Database.CommitsAreAcceptedBatches | animal_logger/src/db/utils_db.py:100-120 | the stored commits are exactly the accepted batches, in batch order |
| Database.AllAcceptedRows | animal_logger/src/db/utils_db.py:100-104 | when every batch commits, the stored rows are the concatenation of the batches |
| Database.AllAcceptedStoresEveryRow | animal_logger/src/db/utils_db.py:96-104 | when every batch commits, the stored rows are exactly the input rows, in order |
| Database.CreatedTables | animal_logger/src/db/utils_db.py:53-64 | the catalogue after visiting the models in order and creating each table that `has_table` reports absent |
| Database.CreatedTablesHasListed | animal_logger/src/db/utils_db.py:56-61 | afterwards every listed model's table exists |
| Database.CreatedTablesGrows | animal_logger/src/db/utils_db.py:57-61 | handling one more model never removes or replaces a table |
| Database.CreatedTablesKeepsExisting | animal_logger/src/db/utils_db.py:60-61 | tables that already existed are untouched |
| Database.CreatedTablesFromFirstListed | animal_logger/src/db/utils_db.py:57-61 | a new table comes from the first listed model with that key |
| Database.CreatedTablesNoop | animal_logger/src/db/utils_db.py:60 | if every listed table exists, nothing is created |
| Database.CreatedTablesIdempotent | animal_logger/src/db/utils_db.py:53-64 | running table creation a second time changes nothing |
| Database.GetTable | animal_logger/src/db/utils_db.py:185-199 | a successful read gives the table and no message; each caught exception gives no table and its fixed message; any other exception propagates |
| Database.FetchMessageIdentifiesFailure | animal_logger/src/db/utils_db.py:190-198 | the returned messages are non-empty, and distinct failures give distinct messages |
| Database.UtilsDb.FirstOccurrences | animal_logger/src/db/utils_db.py:141-146 | mask[i] is true iff `ids[i]` does not occur in `ids[0..i)` |
| Database.UtilsDb.ColumnLengths | animal_logger/src/db/utils_db.py:126-129 | one length per column, in key order |
| Database.UtilsDb.AllEqualToFirst | animal_logger/src/db/utils_db.py:132-136 | true iff every length equals the first one |
| Database.UtilsDb.LengthsShowSameLength | animal_logger/src/db/utils_db.py:126-136 | the length check succeeds iff all columns have the same length; no lengths means no columns |
| Database.UtilsDb.CheckColumns | animal_logger/src/db/utils_db.py:126-142 | the checks before any change: a length mismatch, an empty dictionary, a missing id column or success, decided in that order |
| Database.UtilsDb.CompressColumns | animal_logger/src/db/utils_db.py:149-150 | every column is replaced by its compression under the one mask, and no column is added or dropped |
| Database.UtilsDb.RemoveDuplicateIds | animal_logger/src/db/utils_db.py:124-153 | outcome is mismatch, no columns, no id column or success, decided in that order; on success the batch is deduplicated in place, otherwise it is unchanged |
| Database.UtilsDb.DivideInBatches | animal_logger/src/db/utils_db.py:155-166 | the chunk count is ChunkCount and chunk k is `rows[k*b:(k+1)*b]`; empty input gives no chunks and at most b rows give one chunk |
| Database.UtilsDb.InsertBatches | animal_logger/src/db/utils_db.py:98-120 | reports follow each batch's outcome, and exactly the committed batches are stored, in order |
| Database.UtilsDb.InsertDictInDb | animal_logger/src/db/utils_db.py:84-122 | the batch size defaults to 10000; deduplication errors and a zero batch size propagate before any commit or close; otherwise the call succeeds, the rows of the deduplicated batch are batched, the commits and reports follow the oracle, and the session is closed once |
| Database.UtilsDb.CreateSpecificModel | animal_logger/src/db/utils_db.py:21-51 | returns the model whether or not its table existed; its table exists afterwards; an existing table leaves the catalogue unchanged |
| Database.UtilsDb.CreateNewModels | animal_logger/src/db/utils_db.py:53-64 | every listed table exists afterwards and existing tables are untouched |
| Database.UtilsDb.GetModelClassWithName | animal_logger/src/db/utils_db.py:77-82 | None iff no model has the table name; otherwise the last model with that name |
| Configuration.WithCredentials | config/config.py:26-30 | `user`/`password` take the environment value when it is set and non-empty; every other key is unchanged |
| Configuration.WithCredentialsIdempotent | config/config.py:26-30 | applying the environment twice equals applying it once |
| Configuration.WithCredentialsKeepsLoaded | config/config.py:26-30 | a loaded (non-empty) configuration stays loaded |
| Configuration.Config.Construct | config/config.py:15-16 | the stored configuration is the loaded dictionary |
| Configuration.Config.GetInfo | config/config.py:24-33 | raises when nothing non-empty was loaded; otherwise updates the stored dictionary in place and returns it |
| Login.MatchCount | animal_logger/src/frames/login_page.py:113-114 | the number of credential rows equal to both submitted fields |
| Login.Decide | animal_logger/src/frames/login_page.py:108-122 | the branch taken on `get_table`'s result: a message shows an error, otherwise a matching row tears down, otherwise nothing |
| Login.LoginOutcome | animal_logger/src/frames/login_page.py:100-122 | the whole attempt: a config that was never loaded raises, a missing `db_url` raises, an uncaught fetch exception raises, otherwise Decide on the fetched table |
| Login.MatchCountPositive | animal_logger/src/frames/login_page.py:113-115 | the matching-row count is positive iff some row equals both submitted fields exactly |
| Login.ShowsFetchMessage | animal_logger/src/frames/login_page.py:112-122 | an error is shown iff the fetch failed, and the shown text is exactly the fetch's message |
| Login.TearDownIffMatch | animal_logger/src/frames/login_page.py:112-117 | the window is torn down iff the table was read and some row matches username and password exactly |
| Login.NoActionIffNoMatch | animal_logger/src/frames/login_page.py:112-118 | nothing happens iff the table was read and no row matches |
| Login.PermissionDeniedExample | animal_logger/src/frames/login_page.py:119-122 | a permission error shows "You have no rights to the database." |
| Login.CaseSensitiveExample | animal_logger/src/frames/login_page.py:113-114 | "Alice" does not log in as a stored "alice" |
| Login.LoginPage.AttemptLogin | animal_logger/src/frames/login_page.py:100-122 | the credentials are written to the environment before the fetch; a raise leaves labels and widgets alone; otherwise the last label is blanked, then the error label is added, every child is destroyed, or nothing happens, as decided |
| Animals.NewAnimal | animal_logger/src/animals/base_animal.py:6-30 | each field holds its own constructor argument (species and subspecies not swapped, `class_` kept) |
| Animals.DefaultsAreNone | animal_logger/src/animals/base_animal.py:11-18 | omitted taxonomy arguments are None |
| Animals.Capitalize | animal_logger/src/animals/base_animal.py:33 | the first character is upper-cased and the rest lower-cased, length unchanged |
| Animals.CapitalizeIdempotent | animal_logger/src/animals/base_animal.py:33 | capitalizing a capitalized name changes nothing |
| Animals.CapitalizeIgnoresCase | animal_logger/src/animals/base_animal.py:33 | lower-casing a name first does not change its capitalization |
| Animals.ToString | animal_logger/src/animals/base_animal.py:32-33 | `__str__`: capitalized name, age, sex (or "None"), species and subspecies in the fixed format |
| Animals.ToStringShape | animal_logger/src/animals/base_animal.py:32-33 | the rendering starts with the capitalized name and ends with species and subspecies verbatim |
| Animals.ToStringIgnoresTaxonomy | animal_logger/src/animals/base_animal.py:32-33 | only name, age, sex, species and subspecies affect the rendering |
| Animals.ToStringIgnoresNameCase | animal_logger/src/animals/base_animal.py:33 | only the name is case-transformed, so its case does not matter |
| Animals.ToStringExample | animal_logger/src/animals/base_animal.py:32-33 | "rEX", 3.5, "Canis lupus", "familiaris" with no sex renders "Rex (3.5) - None Canis lupus (familiaris)" |

## Left out

- Logging (`LOGGER` calls) is left out: it has no effect on state or results. The per-batch log choice is kept as a `BatchReport`.
- SQLAlchemy, dask and pandas are not modelled. A database write is an oracle parameter giving each batch's outcome, a table read is a `ReadOutcome` value, and the existing tables are a catalogue map.
- Database.UtilsDb.InsertDictInDb: `bulk_insert_mappings` is not checked against the model's columns. Which batch commits is entirely the oracle's choice.
- Database.UtilsDb.GetModelClassWithName: with no match Python raises `UnboundLocalError`; the model returns `None`. The model list is an input, because `__get_all_classes` uses reflection (`inspect.getmembers`) over a module that is never imported.
- Database.UtilsDb.CreateSpecificModel: `create_dynamic_model` is not part of this model; the created model is the record of its four arguments.
- Database.UtilsDb.DivideInBatches: requires a non-zero batch size. Python raises `ZeroDivisionError` for 0, and `InsertDictInDb` models that case as `ZeroBatchSize`.
- `filter_table` is left out: it indexes the `(table, message)` tuple that `get_table` returns, so as written it has no well-defined result.
- `UtilsDB.__init__` (engine and sessionmaker construction) and `animal_logger/src/db/connection.py` only build engines and are left out.
- The YAML file read in `Config._load_db_config` is I/O. `Construct` receives the loaded dictionary instead.
- `Config._CONFIG_DICT` is class-level state in Python; here it is the field of one `Config` object that is passed around.
- Animals.ToString: Python's float formatting of `age` is a parameter `showAge`, not modelled.
- Animals.Capitalize: only ASCII letters change case. Python's Unicode case mapping (including title-casing the first character) is not modelled.
- Login.LoginPage.AttemptLogin: Tk widgets are reduced to label texts and child identities. The commented-out dashboard call is not made. pandas `==` on columns is exact string equality.
- Widgets, layout and the other frames (dashboard, add-animal, base frame, the rest of the login page, `main.py`) are UI and are left out.
- Database.UtilsDb.InsertDictInDb: the docstring at animal_logger/src/db/utils_db.py:92 says the batch size defaults to 100_000, but the code's default (line 85) is 10_000; the model uses the code's value.
- Database.UtilsDb.CreateSpecificModel: `create_dynamic_model` (animal_logger/src/db/utils_db.py:40) is neither defined nor imported in that file, so the function as written fails at that name; the model assumes it builds the model record.
- Database.UtilsDb.InsertDictInDb: `self.dbsession` (animal_logger/src/db/utils_db.py:19) is the `sessionmaker` itself, and `bulk_insert_mappings`, `commit` and `close` (lines 102, 104, 122) are called on it rather than on a session; the insert oracle and `sessionCloses` assume a working session.
