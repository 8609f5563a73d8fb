/**
 * Splitting a row list into consecutive chunks, as `UtilsDB._divide_dict_in_batches`
 * does (animal_logger/src/db/utils_db.py).
 */
module Batching {
  import opened Common

  /**
   * The number of iterations of the chunking loop: `math.ceil(n / b)` when the batch size
   * is positive; for a negative batch size the ceiling is at most zero and `range` yields nothing.
   */
  function ChunkCount(n: nat, b: int): (c: nat)
    requires b != 0
    ensures b > 0 ==> c * b >= n && (c == 0 || (c - 1) * b < n)
    ensures b < 0 ==> c == 0
  {
    if b < 0 then 0 else (n + b - 1) / b
  }

  /** Python's `s[lo:hi]` for non-negative bounds: indices beyond the end are clamped. */
  function Slice<T>(s: seq<T>, lo: nat, hi: nat): (r: seq<T>)
    requires lo <= hi
    ensures |r| == Min(hi, |s|) - Min(lo, |s|)
    ensures forall i :: 0 <= i < |r| ==> r[i] == s[lo + i]
  {
    s[Min(lo, |s|)..Min(hi, |s|)]
  }

  /**
   * The chunks as a reference definition: take batch-size rows off the front until
   * none remain; a non-positive batch size gives no chunks.
   */
  function Batches<T>(rows: seq<T>, b: int): seq<seq<T>>
    requires b != 0
    decreases |rows|
  {
    if b < 0 || rows == [] then []
    else if |rows| <= b then [rows]
    else [rows[..b]] + Batches(rows[b..], b)
  }

  /** Concatenation of a list of chunks. */
  function Flatten<T>(chunks: seq<seq<T>>): seq<T>
  {
    if chunks == [] then [] else chunks[0] + Flatten(chunks[1..])
  }

  /**
   * The reference chunks are the slices the source's loop takes: there are
   * ceil(n / b) of them and the k-th is `rows[k*b : (k+1)*b]`.
   */
  lemma {:induction false} BatchesAreSlices<T>(rows: seq<T>, b: int)
    requires b > 0
    ensures |Batches(rows, b)| == ChunkCount(|rows|, b)
    ensures forall k :: 0 <= k < |Batches(rows, b)| ==> Batches(rows, b)[k] == Slice(rows, k * b, (k + 1) * b)
  {
    var n := |rows|;
    if rows == [] {
      CeilUnique(0, b, ChunkCount(0, b), 0);
    } else if n <= b {
      CeilUnique(n, b, ChunkCount(n, b), 1);
      assert Batches(rows, b)[0] == Slice(rows, 0 * b, 1 * b);
    } else {
      var rest := rows[b..];
      BatchesAreSlices(rest, b);
      ChunkCountStep(n, b);
      assert Batches(rows, b)[0] == Slice(rows, 0 * b, 1 * b);
      forall k | 1 <= k < |Batches(rows, b)|
        ensures Batches(rows, b)[k] == Slice(rows, k * b, (k + 1) * b)
      {
        assert Batches(rows, b)[k] == Batches(rest, b)[k - 1];
        var lo := (k - 1) * b;
        assert lo + b == k * b && k * b + b == (k + 1) * b;
        SliceShift(rows, b, lo, k * b);
      }
    }
  }

  /** One more full chunk in front adds one to the chunk count. */
  lemma ChunkCountStep(n: nat, b: int)
    requires b > 0 && n > b
    ensures ChunkCount(n, b) == 1 + ChunkCount(n - b, b)
  {
    var c' := ChunkCount(n - b, b);
    assert (1 + c') * b == c' * b + b;
    assert c' * b < n by {
      if c' > 0 {
        assert (c' - 1) * b == c' * b - b;
      }
    }
    CeilUnique(n, b, ChunkCount(n, b), 1 + c');
  }

  /** Slicing after dropping b rows is slicing b further along. */
  lemma SliceShift<T>(rows: seq<T>, b: nat, lo: nat, hi: nat)
    requires b <= |rows| && lo <= hi
    ensures Slice(rows[b..], lo, hi) == Slice(rows, lo + b, hi + b)
  {
  }

  /** Multiplying by a positive number preserves order. */
  lemma MulMonotonic(x: int, y: int, b: int)
    requires x <= y && b > 0
    ensures x * b <= y * b
  {
    assert y * b - x * b == (y - x) * b;
  }

  /** At most one count c has c*b >= n > (c-1)*b: the ceiling of n / b. */
  lemma CeilUnique(n: nat, b: int, c: nat, c': nat)
    requires b > 0
    requires c * b >= n && (c == 0 || (c - 1) * b < n)
    requires c' * b >= n && (c' == 0 || (c' - 1) * b < n)
    ensures c == c'
  {
    if c < c' {
      MulMonotonic(c, c' - 1, b);
    } else if c' < c {
      MulMonotonic(c', c - 1, b);
    }
  }

  /** Concatenating the chunks gives back the rows, in order. */
  lemma {:induction false} BatchesFlatten<T>(rows: seq<T>, b: int)
    requires b > 0
    ensures Flatten(Batches(rows, b)) == rows
  {
    if |rows| > b {
      BatchesFlatten(rows[b..], b);
      assert Flatten(Batches(rows, b)) == rows[..b] + Flatten(Batches(rows[b..], b));
    } else if rows != [] {
      assert Flatten([rows]) == rows + Flatten([]);
    }
  }

  /** Every chunk but the last holds exactly b rows; the last holds between 1 and b. */
  lemma {:induction false} BatchesSizes<T>(rows: seq<T>, b: int)
    requires b > 0
    ensures forall k :: 0 <= k < |Batches(rows, b)| - 1 ==> |Batches(rows, b)[k]| == b
    ensures Batches(rows, b) != [] ==> 0 < |Batches(rows, b)[|Batches(rows, b)| - 1]| <= b
  {
    if |rows| > b {
      BatchesSizes(rows[b..], b);
      assert Batches(rows[b..], b) != [];
      forall k | 1 <= k < |Batches(rows, b)| - 1 ensures |Batches(rows, b)[k]| == b {
        assert Batches(rows, b)[k] == Batches(rows[b..], b)[k - 1];
      }
    }
  }

  /** Batch size 2 on five rows gives [[r0, r1], [r2, r3], [r4]]. */
  lemma BatchesExample()
    ensures Batches([0, 1, 2, 3, 4], 2) == [[0, 1], [2, 3], [4]]
  {
    assert [0, 1, 2, 3, 4][2..] == [2, 3, 4];
    assert [2, 3, 4][2..] == [4] && [2, 3, 4][..2] == [2, 3];
    assert [0, 1, 2, 3, 4][..2] == [0, 1];
    assert Batches([4], 2) == [[4]];
    assert Batches([2, 3, 4], 2) == [[2, 3], [4]];
  }
}
