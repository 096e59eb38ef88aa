/** `batch_reads`: the reads 1..T of the input are aligned in contiguous
    windows of a fixed size, the last one cut short. */
module Batches {

  /** `[batch_index, reads_start, batch_size]`. */
  datatype Batch = Batch(index: int, start: int, size: int)

  /** `int(ceil(total / float(size)))`, as an exact quotient. */
  function CeilDiv(total: nat, size: int): (n: nat)
    requires size > 0
    ensures n * size >= total
    ensures n == 0 || (n - 1) * size < total
  {
    var n := (total + size - 1) / size;
    assert n * size <= total + size - 1 < (n + 1) * size;
    n
  }

  /** `int(ceil(total / float(size)))` for a size of either sign: the least
      integer at or above the exact quotient. */
  function CeilQuot(total: nat, size: int): (n: int)
    requires size != 0
    ensures size > 0 ==> n * size >= total && (n - 1) * size < total
    ensures size < 0 ==> n * size <= total && (n - 1) * size > total
  {
    if size > 0 then CeilDiv(total, size)
    else
      NegativeQuotient(total, size);
      total / size
  }

  /** Dafny's division by a negative size rounds toward positive infinity
      on a non-negative dividend. */
  lemma NegativeQuotient(total: nat, size: int)
    requires size < 0
    ensures (total / size) * size <= total && (total / size - 1) * size > total
  {
    var q, r := total / size, total % size;
    assert total == size * q + r && 0 <= r < -size;
    assert (q - 1) * size == q * size - size;
  }

  /** A negative size gives no batches at all. */
  lemma NegativeSizeNoBatches(total: nat, size: int)
    requires size < 0
    ensures CeilQuot(total, size) <= 0
  {
    var n := CeilQuot(total, size);
    if n >= 1 {
      MulLess(0, n - 1, -size);
      assert false;
    }
  }

  function SumSizes(bs: seq<Batch>): int
  {
    if |bs| == 0 then 0 else SumSizes(bs[..|bs| - 1]) + bs[|bs| - 1].size
  }

  /** What batch `i` (counting from 0) of `n` is: it starts right after the
      previous full batches and is full unless it is the last. */
  function Expected(i: nat, n: nat, total: nat, size: int): Batch
  {
    Batch(i + 1, i * size + 1, if i + 1 == n then total - i * size else size)
  }

  lemma MulLess(a: int, b: int, c: int)
    requires a <= b && c > 0
    ensures a * c <= b * c
  {
  }

  /** `batch_reads(args, batch_size)` with `total_reads` given. A zero size
      would raise `ZeroDivisionError`; a negative one makes the batch range
      empty. */
  method BatchReads(total: nat, batchSize: int) returns (batches: seq<Batch>)
    requires batchSize != 0
    ensures batchSize < 0 ==> batches == []
    ensures batchSize > 0 ==> |batches| == CeilDiv(total, batchSize)
    ensures batchSize > 0 ==> forall i :: 0 <= i < |batches| ==> batches[i] == Expected(i, |batches|, total, batchSize)
    ensures batchSize > 0 ==> SumSizes(batches) == total
  {
    var n := CeilQuot(total, batchSize);
    batches := [];
    if n <= 0 {
      // `range(1, nbatches + 1)` is empty
      return;
    }
    if batchSize < 0 {
      NegativeSizeNoBatches(total, batchSize);
    }
    var size := batchSize;
    var i := 1;
    while i <= n
      invariant 1 <= i <= n + 1
      invariant |batches| == i - 1
      invariant i <= n ==> size == batchSize
      invariant forall j :: 0 <= j < i - 1 ==> batches[j] == Expected(j, n, total, batchSize)
      invariant SumSizes(batches) == if i == n + 1 then total else (i - 1) * batchSize
    {
      var start := (i * size) - size + 1;
      var end := start + size - 1;
      if i < n {
        MulLess(i, n - 1, batchSize);
      }
      if end > total {
        size := size - (end - total);
      }
      assert (batches + [Batch(i, start, size)])[..i - 1] == batches;
      batches := batches + [Batch(i, start, size)];
      i := i + 1;
    }
  }

  /** The batches the description above fixes. */
  ghost predicate Partition(batches: seq<Batch>, total: nat, size: int)
    requires size > 0
  {
    && |batches| == CeilDiv(total, size)
    && forall i :: 0 <= i < |batches| ==> batches[i] == Expected(i, |batches|, total, size)
  }

  /** Each batch follows the previous one without gap or overlap, every
      batch holds at least one read and at most `size`, and the last one
      ends at read `total`. */
  lemma Contiguous(batches: seq<Batch>, total: nat, size: int)
    requires size > 0 && Partition(batches, total, size)
    ensures forall i :: 0 <= i < |batches| ==> 1 <= batches[i].size <= size
    ensures forall i :: 0 <= i < |batches| - 1 ==> batches[i + 1].start == batches[i].start + batches[i].size
    ensures |batches| > 0 ==> batches[0].start == 1
    ensures |batches| > 0 ==> batches[|batches| - 1].start + batches[|batches| - 1].size == total + 1
  {
    var n := |batches|;
    forall i | 0 <= i < n
      ensures 1 <= batches[i].size <= size
    {
      if i + 1 == n {
        assert (n - 1) * size < total <= n * size;
        assert n * size == (n - 1) * size + size;
      }
    }
    forall i | 0 <= i < n - 1
      ensures batches[i + 1].start == batches[i].start + batches[i].size
    {
      assert (i + 1) * size == i * size + size;
    }
  }

  lemma DivBounds(x: nat, size: int)
    requires size > 0
    ensures (x / size) * size <= x < (x / size) * size + size
  {
  }

  /** The batch holding read `k`. */
  lemma BatchOfRead(batches: seq<Batch>, total: nat, size: int, k: int) returns (i: int)
    requires size > 0 && Partition(batches, total, size)
    requires 1 <= k <= total
    ensures 0 <= i < |batches| && batches[i].start <= k < batches[i].start + batches[i].size
  {
    Contiguous(batches, total, size);
    var n := |batches|;
    i := (k - 1) / size;
    DivBounds(k - 1, size);
    assert i < n by {
      if i >= n {
        MulLess(n, i, size);
      }
    }
    assert batches[i].start == i * size + 1;
    if i + 1 < n {
      assert batches[i].size == size;
    } else {
      assert batches[i].size == total - i * size;
    }
  }

  /** Every read 1..total falls in exactly one batch. */
  lemma EachReadInOneBatch(batches: seq<Batch>, total: nat, size: int, k: int)
    requires size > 0 && Partition(batches, total, size)
    requires 1 <= k <= total
    ensures exists i :: 0 <= i < |batches| && batches[i].start <= k < batches[i].start + batches[i].size
    ensures forall i, j :: (0 <= i < |batches| && batches[i].start <= k < batches[i].start + batches[i].size
      && 0 <= j < |batches| && batches[j].start <= k < batches[j].start + batches[j].size) ==> i == j
  {
    var i := BatchOfRead(batches, total, size, k);
    forall a, b | 0 <= a < |batches| && batches[a].start <= k < batches[a].start + batches[a].size
      && 0 <= b < |batches| && batches[b].start <= k < batches[b].start + batches[b].size
      ensures a == b
    {
      if a < b {
        StartsGrow(batches, total, size, a, b);
      } else if b < a {
        StartsGrow(batches, total, size, b, a);
      }
    }
  }

  /** A later batch starts after an earlier one ends. */
  lemma StartsGrow(batches: seq<Batch>, total: nat, size: int, a: int, b: int)
    requires size > 0 && Partition(batches, total, size)
    requires 0 <= a < b < |batches|
    ensures batches[a].start + batches[a].size <= batches[b].start
  {
    Contiguous(batches, total, size);
    assert batches[a].size == size;
    MulLess(a + 1, b, size);
    assert (a + 1) * size == a * size + size;
  }
}
