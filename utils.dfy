/** Helpers of the backend (utils.rs): the batch inversion that lets zeros
    through, and the slice layout `parallelize_chunks` hands to its
    threads. */
module Utils {
  import opened Wrappers
  import opened Algebra
  import opened QuotientCommon

  // ---------------------------------------------------------------------
  // batch_multiplicative_inverse_allowing_zero
  // ---------------------------------------------------------------------

  /** `inv` inverts every nonzero field element; it stands for the field's
      `batch_multiplicative_inverse`, applied entry by entry. */
  predicate InvertsNonzero(inv: Val -> Val) {
    forall v: Val :: v != 0 ==> FMul(v, inv(v)) == 1
  }

  /** What the batch inversion computes: zeros stay, the rest are inverted. */
  function InverseAllowingZero(values: seq<Val>, inv: Val -> Val): (r: seq<Val>)
    ensures |r| == |values|
  {
    seq(|values|, i requires 0 <= i < |values| => if values[i] == 0 then 0 else inv(values[i]))
  }

  /** Zeros stay zero and every other entry gets its inverse. */
  lemma InverseAllowingZeroMeaning(values: seq<Val>, inv: Val -> Val)
    requires InvertsNonzero(inv)
    ensures forall i :: 0 <= i < |values| && values[i] == 0 ==> InverseAllowingZero(values, inv)[i] == 0
    ensures forall i :: 0 <= i < |values| && values[i] != 0 ==> FMul(values[i], InverseAllowingZero(values, inv)[i]) == 1
  {
    var r := InverseAllowingZero(values, inv);
    forall i | 0 <= i < |values| && values[i] != 0
      ensures FMul(values[i], r[i]) == 1
    {
      assert r[i] == inv(values[i]);
    }
  }

  /** The first loop: the nonzero entries and their positions, in order. */
  method NonzeroEntries(values: seq<Val>) returns (nonzeroValues: seq<Val>, indices: seq<nat>)
    ensures |nonzeroValues| == |indices|
    ensures forall k :: 0 <= k < |indices| ==> indices[k] < |values| && nonzeroValues[k] == values[indices[k]]
    ensures forall k :: 0 <= k < |nonzeroValues| ==> nonzeroValues[k] != 0
    ensures forall k, l :: 0 <= k < l < |indices| ==> indices[k] < indices[l]
    ensures forall i :: 0 <= i < |values| && values[i] != 0 ==> i in indices
  {
    nonzeroValues := [];
    indices := [];
    for i := 0 to |values|
      invariant |nonzeroValues| == |indices|
      invariant forall k :: 0 <= k < |indices| ==> indices[k] < i && nonzeroValues[k] == values[indices[k]]
      invariant forall k :: 0 <= k < |nonzeroValues| ==> nonzeroValues[k] != 0
      invariant forall k, l :: 0 <= k < l < |indices| ==> indices[k] < indices[l]
      invariant forall j :: 0 <= j < i && values[j] != 0 ==> j in indices
    {
      if values[i] == 0 {
        continue;
      }
      nonzeroValues := nonzeroValues + [values[i]];
      indices := indices + [i];
    }
  }

  /** `batch_multiplicative_inverse_allowing_zero`: collect the nonzero
      entries, invert them, and write each inverse back at its position in
      a copy of the input. */
  method BatchMultiplicativeInverseAllowingZero(values: seq<Val>, inv: Val -> Val) returns (result: seq<Val>)
    ensures result == InverseAllowingZero(values, inv)
  {
    var nonzeroValues, indices := NonzeroEntries(values);
    var inverseNonzeroValues := seq(|nonzeroValues|, k requires 0 <= k < |nonzeroValues| => inv(nonzeroValues[k]));
    result := values;
    for k := 0 to |indices|
      invariant |result| == |values|
      invariant forall j :: 0 <= j < |values| ==>
        result[j] == (if j in indices[..k] then inv(values[j]) else values[j])
    {
      assert indices[..k + 1] == indices[..k] + [indices[k]];
      result := result[indices[k] := inverseNonzeroValues[k]];
    }
    assert indices[..|indices|] == indices;
    forall j | 0 <= j < |values|
      ensures result[j] == InverseAllowingZero(values, inv)[j]
    {
      if values[j] != 0 {
        assert j in indices;
      }
    }
  }

  // ---------------------------------------------------------------------
  // parallelize_chunks
  // ---------------------------------------------------------------------

  /** A sub-slice handed to one call of the closure: where it starts in the
      whole slice and how long it is. */
  datatype Slice = Slice(offset: nat, length: nat)

  function End(s: Slice): nat { s.offset + s.length }

  /** Each slice starts where the one before it ends. */
  ghost predicate Contiguous(r: seq<Slice>) {
    forall j, k :: 0 <= j < k < |r| && j + 1 == k ==> r[k].offset == End(r[j])
  }

  /** Without the `parallel` feature the closure gets the whole slice at
      offset 0. */
  function SequentialSlices(len: nat): (r: seq<Slice>)
    ensures |r| == 1 && r[0].offset == 0 && End(r[0]) == len
  {
    [Slice(0, len)]
  }

  /** The split of the parallel build: `t = len / c` chunks shared by `n`
      threads, the first `t % n` slices one chunk longer. */
  function LoSize(len: nat, c: nat, n: nat): nat
    requires c > 0 && n > 0
  {
    (len / c / n) * c
  }

  function HiSize(len: nat, c: nat, n: nat): nat
    requires c > 0 && n > 0
  {
    LoSize(len, c, n) + c
  }

  function Cutoff(len: nat, c: nat, n: nat): nat
    requires c > 0 && n > 0
  {
    len / c % n
  }

  function SplitPos(len: nat, c: nat, n: nat): nat
    requires c > 0 && n > 0
  {
    Cutoff(len, c, n) * HiSize(len, c, n)
  }

  /** The split point lies inside the slice: after it come `n - t % n`
      slices of the shorter size and the `len % c` leftover entries. */
  lemma SplitLayout(len: nat, c: nat, n: nat)
    requires c > 0 && n > 0
    ensures len - SplitPos(len, c, n) == (n - Cutoff(len, c, n)) * LoSize(len, c, n) + len % c
    ensures Cutoff(len, c, n) < n
  {
    var t := len / c;
    var q := t / n;
    var m := t % n;
    assert len == t * c + len % c;
    assert t == q * n + m;
    assert SplitPos(len, c, n) == m * (q * c + c);
    calc {
      len;
      (q * n + m) * c + len % c;
      { assert (q * n + m) * c == q * n * c + m * c; }
      q * n * c + m * c + len % c;
      { assert q * n * c == (n - m) * (q * c) + m * (q * c); }
      (n - m) * (q * c) + m * (q * c + c) + len % c;
    }
  }

  /** `count` consecutive slices of `size` entries from `start`: what
      `chunks_exact_mut(size)` yields, with the offsets the loops compute. */
  function Chunks(start: nat, size: nat, count: nat): (r: seq<Slice>)
    ensures |r| == count
  {
    seq(count, k requires 0 <= k => Slice(start + k * size, size))
  }

  /** One more chunk is the old chunks followed by the slice after them. */
  lemma ChunksSnoc(start: nat, size: nat, count: nat)
    ensures Chunks(start, size, count + 1) == Chunks(start, size, count) + [Slice(start + count * size, size)]
  {
  }

  /** The runs of longer and shorter slices placed one after the other. */
  function TwoRuns(hi: nat, lo: nat, m: nat, count: nat): seq<Slice> {
    (if m != 0 then Chunks(0, hi, m) else []) + (if lo != 0 then Chunks(m * hi, lo, count) else [])
  }

  lemma TwoRunsLayout(hi: nat, lo: nat, m: nat, count: nat)
    requires hi > 0 && count > 0
    ensures var r := TwoRuns(hi, lo, m, count);
      && |r| == m + (if lo != 0 then count else 0)
      && (forall k :: 0 <= k < |r| ==> r[k].length == (if k < m then hi else lo))
      && (|r| > 0 ==> r[0].offset == 0)
      && Contiguous(r)
      && (|r| > 0 ==> End(r[|r| - 1]) == m * hi + (if lo != 0 then count * lo else 0))
  {
    TwoRunsLengths(hi, lo, m, count);
    TwoRunsContiguous(hi, lo, m, count);
    TwoRunsEnds(hi, lo, m, count);
  }

  lemma MulSucc(j: nat, x: nat)
    ensures (j + 1) * x == j * x + x
  {
  }

  lemma TwoRunsLengths(hi: nat, lo: nat, m: nat, count: nat)
    ensures var r := TwoRuns(hi, lo, m, count);
      && |r| == m + (if lo != 0 then count else 0)
      && (forall k :: 0 <= k < |r| ==> r[k].length == (if k < m then hi else lo))
  {
    var a := if m != 0 then Chunks(0, hi, m) else [];
    var b := if lo != 0 then Chunks(m * hi, lo, count) else [];
    var r := a + b;
    assert r == TwoRuns(hi, lo, m, count);
    forall k | 0 <= k < |r|
      ensures r[k].length == (if k < m then hi else lo)
    {
      if k < m {
        assert r[k] == a[k];
      } else {
        assert r[k] == b[k - m];
      }
    }
  }

  lemma TwoRunsContiguous(hi: nat, lo: nat, m: nat, count: nat)
    ensures Contiguous(TwoRuns(hi, lo, m, count))
  {
    var a := if m != 0 then Chunks(0, hi, m) else [];
    var b := if lo != 0 then Chunks(m * hi, lo, count) else [];
    var r := a + b;
    assert r == TwoRuns(hi, lo, m, count);
    forall j, k | 0 <= j < k < |r| && j + 1 == k
      ensures r[k].offset == End(r[j])
    {
      if k < m {
        assert r[k] == a[k] && r[j] == a[j];
        MulSucc(j, hi);
      } else if k == m {
        assert r[k] == b[0] && r[j] == a[j];
        MulSucc(j, hi);
      } else {
        assert r[k] == b[k - m] && r[j] == b[j - m];
        MulSucc(j - m, lo);
      }
    }
  }

  lemma TwoRunsEnds(hi: nat, lo: nat, m: nat, count: nat)
    requires count > 0
    ensures var r := TwoRuns(hi, lo, m, count);
      && (|r| > 0 ==> r[0].offset == 0)
      && (|r| > 0 ==> End(r[|r| - 1]) == m * hi + (if lo != 0 then count * lo else 0))
  {
    var a := if m != 0 then Chunks(0, hi, m) else [];
    var b := if lo != 0 then Chunks(m * hi, lo, count) else [];
    var r := a + b;
    assert r == TwoRuns(hi, lo, m, count);
    if |r| > 0 {
      if m == 0 {
        assert r[0] == b[0];
      } else {
        assert r[0] == a[0];
      }
      if lo == 0 {
        assert r[|r| - 1] == a[m - 1];
        MulSucc(m - 1, hi);
      } else {
        assert r[|r| - 1] == b[count - 1];
        MulSucc(count - 1, lo);
      }
    }
  }

  /** The slices of the parallel build, in the order they are spawned. */
  function ParallelSlices(len: nat, c: nat, n: nat): (r: seq<Slice>)
    requires c > 0 && n > 0
  {
    TwoRuns(HiSize(len, c, n), LoSize(len, c, n), Cutoff(len, c, n), n - Cutoff(len, c, n))
  }

  /** `parallelize_chunks` with the `parallel` feature on `n` threads: the
      slices the two loops spawn, in order.  The debug assertion that the
      chunk size divides the length comes first, and a zero chunk size
      already fails its remainder. */
  method ParallelizeChunks(len: nat, chunkSize: nat, numThreads: nat) returns (r: Result<seq<Slice>>)
    requires numThreads > 0
    ensures r.Panic? <==> chunkSize == 0 || len % chunkSize != 0
    ensures r.Ok? ==> r.value == ParallelSlices(len, chunkSize, numThreads)
  {
    if chunkSize == 0 {
      return Panic("attempt to calculate the remainder with a divisor of zero");
    }
    if len % chunkSize != 0 {
      return Panic("assertion `left == right` failed: v.len() % chunk_size == 0");
    }
    var loSliceSize := LoSize(len, chunkSize, numThreads);
    var hiSliceSize := HiSize(len, chunkSize, numThreads);
    var cutoffThreadIdx := Cutoff(len, chunkSize, numThreads);
    var splitPos := SplitPos(len, chunkSize, numThreads);
    var slices: seq<Slice> := [];
    if cutoffThreadIdx != 0 {
      slices := SpawnRun(0, hiSliceSize, cutoffThreadIdx);
    }
    if loSliceSize != 0 {
      var loCount := (len - splitPos) / loSliceSize;
      LoCount(len, chunkSize, numThreads);
      var los := SpawnRun(splitPos, loSliceSize, loCount);
      slices := slices + los;
    }
    assert slices == TwoRuns(hiSliceSize, loSliceSize, cutoffThreadIdx, numThreads - cutoffThreadIdx);
    r := Ok(slices);
  }

  /** The second loop spawns one slice for each thread past the cutoff. */
  lemma LoCount(len: nat, c: nat, n: nat)
    requires c > 0 && n > 0 && LoSize(len, c, n) != 0
    ensures SplitPos(len, c, n) <= len
    ensures (len - SplitPos(len, c, n)) / LoSize(len, c, n) == n - Cutoff(len, c, n)
  {
    SplitLayout(len, c, n);
    ModUnique(len - SplitPos(len, c, n), n - Cutoff(len, c, n), LoSize(len, c, n), len % c);
  }

  /** One of the two spawning loops: `count` slices of `size` entries each,
      the first at `start`, each starting where the previous one ends. */
  method SpawnRun(start: nat, size: nat, count: nat) returns (slices: seq<Slice>)
    ensures slices == Chunks(start, size, count)
  {
    slices := [];
    for chunkId := 0 to count
      invariant slices == Chunks(start, size, chunkId)
    {
      ChunksSnoc(start, size, chunkId);
      var offset := start + chunkId * size;
      slices := slices + [Slice(offset, size)];
    }
  }

  /** The layout the parallel build promises: the first `t % n` slices are
      one chunk longer than the rest, no slice is empty, every length is a
      whole number of chunks, each slice starts where the previous one
      ends, and together they cover the `t * c` entries of the whole
      chunks (all of `[0, len)` when `c` divides `len`). */
  lemma ParallelSlicesLayout(len: nat, c: nat, n: nat)
    requires c > 0 && n > 0
    ensures var r := ParallelSlices(len, c, n);
      && |r| == (if LoSize(len, c, n) == 0 then Cutoff(len, c, n) else n)
      && (forall k :: 0 <= k < |r| ==>
            r[k].length == (if k < Cutoff(len, c, n) then HiSize(len, c, n) else LoSize(len, c, n)))
      && (forall k :: 0 <= k < |r| ==> r[k].length > 0 && r[k].length % c == 0)
      && (|r| > 0 ==> r[0].offset == 0)
      && Contiguous(r)
      && (|r| == 0 <==> len / c == 0)
      && (|r| > 0 ==> End(r[|r| - 1]) == len / c * c)
  {
    SplitSizes(len, c, n);
    SplitLayout(len, c, n);
    TwoRunsLayout(HiSize(len, c, n), LoSize(len, c, n), Cutoff(len, c, n), n - Cutoff(len, c, n));
  }

  /** The arithmetic of the split: both sizes are whole numbers of chunks,
      the shorter one is empty exactly when there are fewer chunks than
      threads, and the slices hold all `len / c` chunks. */
  lemma SplitSizes(len: nat, c: nat, n: nat)
    requires c > 0 && n > 0
    ensures var t, m, lo, hi := len / c, Cutoff(len, c, n), LoSize(len, c, n), HiSize(len, c, n);
      && lo % c == 0 && hi % c == 0 && hi > 0
      && m < n
      && (lo == 0 ==> m == t)
      && m * hi + (if lo != 0 then (n - m) * lo else 0) == t * c
  {
    var t := len / c;
    var q := t / n;
    var m := t % n;
    var lo := q * c;
    assert t == q * n + m;
    ModUnique(lo, q, c, 0);
    ModUnique(lo + c, q + 1, c, 0);
    calc {
      m * (lo + c) + (n - m) * lo;
      { assert m * (lo + c) == m * lo + m * c; }
      m * lo + m * c + (n - m) * lo;
      { assert m * lo + (n - m) * lo == n * lo; }
      n * lo + m * c;
      { assert n * lo == (q * n) * c; }
      (q * n) * c + m * c;
      (q * n + m) * c;
    }
    if lo == 0 {
      assert q == 0;
    }
  }

  /** When the chunk size divides the length, the parallel build covers the
      same range as the sequential one. */
  lemma ParallelCoversSequential(len: nat, c: nat, n: nat)
    requires c > 0 && n > 0 && len % c == 0 && len > 0
    ensures var r := ParallelSlices(len, c, n);
      |r| > 0 && r[0].offset == SequentialSlices(len)[0].offset && End(r[|r| - 1]) == End(SequentialSlices(len)[0])
  {
    ParallelSlicesLayout(len, c, n);
    ModUnique(len, len / c, c, 0);
  }
}
