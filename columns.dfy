/**
 * The column-oriented batch that `UtilsDB.insert_dict_in_db` receives: a dictionary from
 * column name to an equally long list of values, deduplicated by its "id" column and
 * turned into one dictionary per row (animal_logger/src/db/utils_db.py).
 */
module Columns {
  import opened Common

  /** A value held in a column; only equality between values matters to the model. */
  datatype Cell = Int(i: int) | Text(s: string) | Null

  /** A column-oriented batch: column name to the values of that column. */
  type ColumnMap = map<string, seq<Cell>>

  /** One row-oriented record: column name to the value of that column in the row. */
  type Row = map<string, Cell>

  /** The column whose values identify a row. */
  const IdKey: string := "id"

  /** How `remove_duplicate_ids` ends for a given dictionary. */
  datatype DedupOutcome =
    | Unique          // all columns equally long: duplicates removed
    | LengthMismatch  // columns of different lengths: logged, dictionary returned as it was
    | NoColumns       // empty dictionary: `len_keys[0]` raises IndexError
    | NoIdColumn      // equal lengths but no "id" column: `data_dict['id']` raises KeyError

  /** Every column holds as many values as every other. */
  predicate SameLength(d: ColumnMap)
  {
    forall k, k' :: k in d && k' in d ==> |d[k]| == |d[k']|
  }

  /** The outcome `remove_duplicate_ids` reaches on `d`, in the order the source checks. */
  function DedupOutcomeOf(d: ColumnMap): DedupOutcome
  {
    if !SameLength(d) then LengthMismatch
    else if d == map[] then NoColumns
    else if IdKey !in d then NoIdColumn
    else Unique
  }

  /** The dictionary after `remove_duplicate_ids`, when it does not raise. */
  function AfterDedup(d: ColumnMap): ColumnMap
  {
    if DedupOutcomeOf(d) == Unique then Deduplicated(d) else d
  }

  /** The keep-mask of `remove_duplicate_ids`: entry i holds when `ids[i]` does not occur in `ids[..i]`. */
  function FirstOccurrenceMask(ids: seq<Cell>): seq<bool>
  {
    seq(|ids|, i requires 0 <= i < |ids| => ids[i] !in ids[..i])
  }

  /** The positions at which `mask` holds, in ascending order. */
  function KeptPositions(mask: seq<bool>): (p: seq<nat>)
    ensures forall j :: 0 <= j < |p| ==> p[j] < |mask|
  {
    if mask == [] then []
    else
      var n := |mask| - 1;
      KeptPositions(mask[..n]) + (if mask[n] then [n] else [])
  }

  /** KeptPositions lists, in strictly ascending order, exactly the positions at which the mask holds. */
  lemma {:induction false} KeptPositionsSpec(mask: seq<bool>)
    ensures forall j :: 0 <= j < |KeptPositions(mask)| ==> mask[KeptPositions(mask)[j]]
    ensures forall i :: 0 <= i < |mask| && mask[i] ==> i in KeptPositions(mask)
    ensures forall j, j' :: 0 <= j < j' < |KeptPositions(mask)| ==> KeptPositions(mask)[j] < KeptPositions(mask)[j']
  {
    if mask != [] {
      var n := |mask| - 1;
      var prev := KeptPositions(mask[..n]);
      KeptPositionsSpec(mask[..n]);
      var p := KeptPositions(mask);
      forall j | 0 <= j < |p| ensures mask[p[j]] {
        if j < |prev| {
          assert mask[..n][prev[j]] == mask[prev[j]];
        }
      }
      forall i | 0 <= i < |mask| && mask[i] ensures i in p {
        if i < n {
          assert mask[..n][i];
          var j :| 0 <= j < |prev| && prev[j] == i;
          assert p[j] == i;
        } else {
          assert p[|p| - 1] == n;
        }
      }
    }
  }

  /**
   * `itertools.compress(s, mask)`: the elements of `s` whose mask entry holds, in their order.
   * Every call in the source passes a mask as long as the column.
   */
  function Compress<T>(s: seq<T>, mask: seq<bool>): seq<T>
    requires |s| == |mask|
  {
    if s == [] then []
    else
      var n := |s| - 1;
      Compress(s[..n], mask[..n]) + (if mask[n] then [s[n]] else [])
  }

  /** Compressing keeps one element per kept position: the element of `s` at that position. */
  lemma {:induction false} CompressSpec<T>(s: seq<T>, mask: seq<bool>)
    requires |s| == |mask|
    ensures |Compress(s, mask)| == |KeptPositions(mask)|
    ensures forall j :: 0 <= j < |Compress(s, mask)| ==> Compress(s, mask)[j] == s[KeptPositions(mask)[j]]
  {
    if s != [] {
      var n := |s| - 1;
      CompressSpec(s[..n], mask[..n]);
      var prev := KeptPositions(mask[..n]);
      forall j | 0 <= j < |Compress(s, mask)|
        ensures Compress(s, mask)[j] == s[KeptPositions(mask)[j]]
      {
        if j < |prev| {
          assert s[..n][prev[j]] == s[prev[j]];
        }
      }
    }
  }

  /** The dictionary `remove_duplicate_ids` leaves behind when all columns are equally long. */
  function Deduplicated(d: ColumnMap): ColumnMap
    requires IdKey in d && SameLength(d)
  {
    var mask := FirstOccurrenceMask(d[IdKey]);
    map k | k in d :: Compress(d[k], mask)
  }

  /** The position of the first occurrence of `x` in `s`. */
  function FirstIndex(s: seq<Cell>, x: Cell): (i: nat)
    requires x in s
    ensures i < |s| && s[i] == x && x !in s[..i]
  {
    if s[0] == x then 0 else 1 + FirstIndex(s[1..], x)
  }

  /**
   * After deduplication the ids are pairwise distinct, the kept rows are exactly the
   * first occurrences, every column is compressed with the same positions (so rows stay
   * aligned), and the kept rows keep their relative order.
   */
  lemma DeduplicatedRows(d: ColumnMap)
    requires IdKey in d && SameLength(d)
    ensures var ids := d[IdKey];
            var p := KeptPositions(FirstOccurrenceMask(ids));
            && (forall i :: 0 <= i < |ids| ==> (i in p <==> ids[i] !in ids[..i]))
            && (forall j, j' :: 0 <= j < j' < |p| ==> p[j] < p[j'])
            && Deduplicated(d).Keys == d.Keys
            && forall k :: k in d ==>
                 && |Deduplicated(d)[k]| == |p|
                 && forall j :: 0 <= j < |p| ==> Deduplicated(d)[k][j] == d[k][p[j]]
  {
    var ids := d[IdKey];
    var mask := FirstOccurrenceMask(ids);
    var p := KeptPositions(mask);
    KeptPositionsSpec(mask);
    forall k | k in d
      ensures |Deduplicated(d)[k]| == |p|
      ensures forall j :: 0 <= j < |p| ==> Deduplicated(d)[k][j] == d[k][p[j]]
    {
      CompressSpec(d[k], mask);
    }
    forall i | 0 <= i < |ids| && i in p ensures ids[i] !in ids[..i] {
      var j :| 0 <= j < |p| && p[j] == i;
      assert mask[p[j]];
    }
  }

  /** The surviving ids are pairwise distinct. */
  lemma DeduplicatedIdsDistinct(d: ColumnMap)
    requires IdKey in d && SameLength(d)
    ensures var r := Deduplicated(d)[IdKey];
            forall j, j' :: 0 <= j < j' < |r| ==> r[j] != r[j']
  {
    var ids := d[IdKey];
    var mask := FirstOccurrenceMask(ids);
    var p := KeptPositions(mask);
    KeptPositionsSpec(mask);
    var r := Deduplicated(d)[IdKey];
    CompressSpec(ids, mask);
    forall j, j' | 0 <= j < j' < |r| ensures r[j] != r[j'] {
      assert r[j] == ids[p[j]] && r[j'] == ids[p[j']];
      assert mask[p[j']];
      assert ids[..p[j']][p[j]] == ids[p[j]];
    }
  }

  /** Every id of the input survives, and no other value appears among the surviving ids. */
  lemma DeduplicatedKeepsEveryId(d: ColumnMap)
    requires IdKey in d && SameLength(d)
    ensures forall x :: x in d[IdKey] <==> x in Deduplicated(d)[IdKey]
  {
    var ids := d[IdKey];
    var mask := FirstOccurrenceMask(ids);
    var p := KeptPositions(mask);
    KeptPositionsSpec(mask);
    var r := Deduplicated(d)[IdKey];
    CompressSpec(ids, mask);
    forall x | x in ids ensures x in r {
      var i := FirstIndex(ids, x);
      assert mask[i];
      var j :| 0 <= j < |p| && p[j] == i;
      assert r[j] == x;
    }
    forall x | x in r ensures x in ids {
      var j :| 0 <= j < |r| && r[j] == x;
      assert ids[p[j]] == x;
    }
  }

  /** The keep-mask of the worked example below. */
  lemma ExampleMask()
    ensures FirstOccurrenceMask([Int(1), Int(2), Int(1), Int(3)]) == [true, true, false, true]
  {
    var ids := [Int(1), Int(2), Int(1), Int(3)];
    assert ids[..2] == [Int(1), Int(2)];
    assert ids[..3] == [Int(1), Int(2), Int(1)];
  }

  /** The kept positions of the worked example below. */
  lemma ExampleKeptPositions()
    ensures KeptPositions([true, true, false, true]) == [0, 1, 3]
  {
    assert KeptPositions([true]) == [0] by { assert [true][..0] == []; }
    assert KeptPositions([true, true]) == [0, 1] by { assert [true, true][..1] == [true]; }
    assert KeptPositions([true, true, false]) == [0, 1] by {
      assert [true, true, false][..2] == [true, true];
    }
    assert [true, true, false, true][..3] == [true, true, false];
  }

  /** The worked example: ids [1, 2, 1, 3] with values [a, b, c, d] become [1, 2, 3] with [a, b, d]. */
  lemma DeduplicatedExample()
    ensures Deduplicated(map[IdKey := [Int(1), Int(2), Int(1), Int(3)],
                             "val" := [Text("a"), Text("b"), Text("c"), Text("d")]])
         == map[IdKey := [Int(1), Int(2), Int(3)], "val" := [Text("a"), Text("b"), Text("d")]]
  {
    var ids := [Int(1), Int(2), Int(1), Int(3)];
    var vals := [Text("a"), Text("b"), Text("c"), Text("d")];
    var d := map[IdKey := ids, "val" := vals];
    ExampleMask();
    ExampleKeptPositions();
    var r := Deduplicated(d);
    CompressSpec(ids, [true, true, false, true]);
    CompressSpec(vals, [true, true, false, true]);
    assert |r[IdKey]| == 3 && |r["val"]| == 3;
    assert r[IdKey] == [Int(1), Int(2), Int(3)];
    assert r["val"] == [Text("a"), Text("b"), Text("d")];
  }

  /** The number of rows `zip(*data_dict.values())` yields: the length of the shortest column. */
  function ShortestLength(keys: seq<string>, d: ColumnMap): (n: nat)
    requires forall k :: k in keys ==> k in d
    ensures forall k :: k in keys ==> n <= |d[k]|
    ensures keys != [] ==> exists k :: k in keys && n == |d[k]|
  {
    if keys == [] then 0
    else
      var rest := ShortestLength(keys[1..], d);
      if keys[1..] == [] || |d[keys[0]]| <= rest then |d[keys[0]]| else rest
  }

  /** `[dict(zip(data_dict, t)) for t in zip(*data_dict.values())]`: row i maps every key to its i-th value. */
  function ToRows(keys: seq<string>, d: ColumnMap): seq<Row>
    requires forall k :: k in keys ==> k in d
  {
    var n := ShortestLength(keys, d);
    seq(n, i requires 0 <= i < n => map k | k in keys :: d[k][i])
  }

  /** The inverse view: column k lists every row's value for k. */
  function ToColumns(keys: seq<string>, rows: seq<Row>): ColumnMap
    requires forall i, k :: 0 <= i < |rows| && k in keys ==> k in rows[i]
  {
    map k | k in keys :: seq(|rows|, i requires 0 <= i < |rows| => rows[i][k])
  }

  /**
   * When all columns are equally long, turning columns into rows loses nothing:
   * every row carries every key, and reading the rows back column by column
   * gives the dictionary again.
   */
  lemma RowsRoundTrip(keys: seq<string>, d: ColumnMap)
    requires forall k :: k in d <==> k in keys
    requires SameLength(d)
    ensures forall k :: k in keys ==> |ToRows(keys, d)| == |d[k]|
    ensures forall i, k :: 0 <= i < |ToRows(keys, d)| && k in keys ==> k in ToRows(keys, d)[i]
    ensures ToColumns(keys, ToRows(keys, d)) == d
  {
    var rows := ToRows(keys, d);
    if keys != [] {
      var k0 :| k0 in keys && |rows| == |d[k0]|;
    }
    var back := ToColumns(keys, rows);
    forall k | k in d ensures back[k] == d[k] {
      assert |back[k]| == |d[k]|;
    }
  }

  /**
   * The dictionary object itself, which `remove_duplicate_ids` updates in place: its keys
   * in insertion order and the list stored under each key.
   */
  class ColumnBatch {
    var keys: seq<string>
    var data: ColumnMap

    /** The keys are distinct and are exactly the dictionary's keys. */
    ghost predicate Valid()
      reads this
    {
      && (forall i, j :: 0 <= i < j < |keys| ==> keys[i] != keys[j])
      && (forall k :: k in data <==> k in keys)
    }

    constructor (keys: seq<string>, data: ColumnMap)
      requires forall i, j :: 0 <= i < j < |keys| ==> keys[i] != keys[j]
      requires forall k :: k in data <==> k in keys
      ensures Valid() && this.keys == keys && this.data == data
    {
      this.keys := keys;
      this.data := data;
    }
  }
}
