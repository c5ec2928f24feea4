/**
 Sharded evaluation of a dataset: a sampler deals the padded index list out to the ranks in
 strides, and a merge interleaves the ranks' results again.
 */
module Sharding {
  import opened Lists

  /** The number of indices of each rank: the dataset size over the ranks, rounded up. */
  function SamplesPerRank(n: nat, ranks: nat): nat
    requires ranks > 0
  {
    (n + ranks - 1) / ranks
  }

  function TotalSize(n: nat, ranks: nat): nat
    requires ranks > 0
  {
    SamplesPerRank(n, ranks) * ranks
  }

  /** `s[:k]` of a list: no more than the list holds. */
  function Prefix<T>(s: seq<T>, k: nat): seq<T> {
    if k <= |s| then s[..k] else s
  }

  /** `s[start::step]` */
  function Stride<T>(s: seq<T>, start: nat, step: nat): seq<T>
    requires step > 0
    decreases |s| - start
  {
    if start >= |s| then [] else [s[start]] + Stride(s, start + step, step)
  }

  /** The index list padded from its front; the length check fails when one copy of the list is not enough. */
  function Padded<T>(order: seq<T>, ranks: nat): Option<seq<T>>
    requires ranks > 0
  {
    var total := TotalSize(|order|, ranks);
    TotalCovers(|order|, ranks);
    var all := order + Prefix(order, total - |order|);
    if |all| == total then Some(all) else None
  }

  /** The indices that the sampler of one rank yields; None is a failed assertion. */
  function Shard<T>(order: seq<T>, ranks: nat, rank: nat): Option<seq<T>>
    requires rank < ranks
  {
    match Padded(order, ranks)
    case None => None
    case Some(all) =>
      var mine := Stride(all, rank, ranks);
      if |mine| == SamplesPerRank(|order|, ranks) then Some(mine) else None
  }

  // ---------- the merge ----------

  /** The first results of all parts, then the second ones, and so on, up to the shortest part. */
  function Column<T>(parts: seq<seq<T>>, k: nat): (r: seq<T>)
    requires forall p :: p in parts ==> k < |p|
    ensures |r| == |parts|
    ensures forall i :: 0 <= i < |parts| ==> r[i] == parts[i][k]
  {
    seq(|parts|, i requires 0 <= i < |parts| => (assert parts[i] in parts; parts[i][k]))
  }

  function Interleaved<T>(parts: seq<seq<T>>, k: nat): seq<T>
    requires forall p :: p in parts ==> k <= |p|
  {
    if k == 0 then [] else Interleaved(parts, k - 1) + Column(parts, k - 1)
  }

  lemma {:induction false} InterleavedLength<T>(parts: seq<seq<T>>, k: nat)
    requires forall p :: p in parts ==> k <= |p|
    ensures |Interleaved(parts, k)| == k * |parts|
  {
    if k > 0 {
      InterleavedLength(parts, k - 1);
      OneLess(k, |parts|);
    }
  }

  /** The length of the shortest part; no part yields no row. */
  function Shortest<T>(parts: seq<seq<T>>): (m: nat)
    ensures forall p :: p in parts ==> m <= |p|
    ensures parts != [] ==> exists p :: p in parts && |p| == m
  {
    if parts == [] then 0
    else if |parts| == 1 then |parts[0]|
    else
      var rest := Shortest(parts[1..]);
      assert parts == [parts[0]] + parts[1..];
      if |parts[0]| < rest then |parts[0]| else rest
  }

  method ReadRow<T>(parts: seq<seq<T>>, k: nat) returns (row: seq<T>)
    requires forall p :: p in parts ==> k < |p|
    ensures row == Column(parts, k)
  {
    row := [];
    var i := 0;
    while i < |parts|
      invariant 0 <= i <= |parts|
      invariant row == Column(parts, k)[..i]
    {
      assert parts[i] in parts;
      row := row + [parts[i][k]];
      i := i + 1;
    }
  }

  /** Rank 0 reads the part of each rank, interleaves them, and cuts the padding off. */
  method MergeResults<T>(parts: seq<seq<T>>, size: nat) returns (ordered: seq<T>)
    ensures ordered == Prefix(Interleaved(parts, Shortest(parts)), size)
  {
    ordered := [];
    var rows := Shortest(parts);
    var k := 0;
    while k < rows
      invariant 0 <= k <= rows
      invariant ordered == Interleaved(parts, k)
    {
      var row := ReadRow(parts, k);
      ordered := ordered + row;
      k := k + 1;
    }
    ordered := Prefix(ordered, size);
  }

  // ---------- laws ----------

  lemma TotalCovers(n: nat, ranks: nat)
    requires ranks > 0
    ensures n <= TotalSize(n, ranks) < n + ranks
  {
    var q := (n + ranks - 1) / ranks;
    assert n + ranks - 1 == q * ranks + (n + ranks - 1) % ranks;
  }

  /** The sampler's check passes exactly when one copy of the list covers the padding. */
  lemma PaddingFits<T>(order: seq<T>, ranks: nat)
    requires ranks > 0
    ensures Padded(order, ranks).Some? <==> TotalSize(|order|, ranks) <= 2 * |order|
    ensures Padded(order, ranks).Some? ==> |Padded(order, ranks).value| == TotalSize(|order|, ranks)
  {
    TotalCovers(|order|, ranks);
  }

  lemma OneLess(k: int, step: int)
    ensures (k - 1) * step + step == k * step
    ensures k >= 1 && step >= 0 ==> k * step >= step
  {
  }

  /** A stride takes every `step`-th element. */
  lemma {:induction false} StrideElement<T>(s: seq<T>, at: nat, step: nat, k: nat)
    requires step > 0 && at + k * step < |s|
    ensures k < |Stride(s, at, step)| && Stride(s, at, step)[k] == s[at + k * step]
    decreases k
  {
    if k > 0 {
      OneLess(k, step);
      assert (at + step) + (k - 1) * step == at + k * step;
      StrideElement(s, at + step, step, k - 1);
      assert Stride(s, at, step) == [s[at]] + Stride(s, at + step, step);
    }
  }

  lemma {:induction false} StrideLength<T>(s: seq<T>, at: nat, step: nat, count: nat)
    requires step > 0 && |s| <= at + count * step
    requires count > 0 ==> at + (count - 1) * step < |s|
    ensures |Stride(s, at, step)| == count
    decreases count
  {
    if count > 0 {
      OneLess(count, step);
      OneLess(count - 1, step);
      StrideLength(s, at + step, step, count - 1);
    }
  }

  lemma RowInside(k: nat, step: nat, start: nat, count: nat)
    requires k < count && start < step
    ensures k * step + start < count * step
  {
    assert (k + 1) * step <= count * step;
  }

  lemma RowsOfInterleaved<T>(parts: seq<seq<T>>, rows: nat)
    requires rows > 0 && forall p :: p in parts ==> rows <= |p|
    ensures |Interleaved(parts, rows - 1)| == (rows - 1) * |parts|
    ensures Interleaved(parts, rows) == Interleaved(parts, rows - 1) + Column(parts, rows - 1)
  {
    InterleavedLength(parts, rows - 1);
  }

  /** Interleaving puts result k of part i at place k * ranks + i. */
  lemma {:induction false} InterleavedAt<T>(parts: seq<seq<T>>, rows: nat, k: nat, i: nat)
    requires forall p :: p in parts ==> rows <= |p|
    requires k < rows && i < |parts|
    ensures parts[i] in parts && k * |parts| + i < |Interleaved(parts, rows)|
    ensures Interleaved(parts, rows)[k * |parts| + i] == parts[i][k]
  {
    assert parts[i] in parts;
    RowsOfInterleaved(parts, rows);
    if k < rows - 1 {
      InterleavedAt(parts, rows - 1, k, i);
    }
  }

  /** Every rank gets its share: the shard of a rank is as long as the others, and its k-th index is dealt in turn. */
  lemma ShardElement<T>(order: seq<T>, ranks: nat, rank: nat, k: nat)
    requires rank < ranks && Padded(order, ranks).Some? && k < SamplesPerRank(|order|, ranks)
    ensures Shard(order, ranks, rank).Some? && k < |Shard(order, ranks, rank).value|
    ensures var all := Padded(order, ranks).value;
            k * ranks + rank < |all| && Shard(order, ranks, rank).value[k] == all[k * ranks + rank]
  {
    var all, rows := Padded(order, ranks).value, SamplesPerRank(|order|, ranks);
    PaddingFits(order, ranks);
    ShardLength(order, ranks, rank);
    RowInside(k, ranks, rank, rows);
    StrideElement(all, rank, ranks, k);
  }

  lemma {:induction false} ShardLength<T>(order: seq<T>, ranks: nat, rank: nat)
    requires rank < ranks && Padded(order, ranks).Some?
    ensures Shard(order, ranks, rank).Some?
    ensures |Shard(order, ranks, rank).value| == SamplesPerRank(|order|, ranks)
    ensures Shard(order, ranks, rank).value == Stride(Padded(order, ranks).value, rank, ranks)
  {
    var all, rows := Padded(order, ranks).value, SamplesPerRank(|order|, ranks);
    PaddingFits(order, ranks);
    if rows > 0 {
      RowInside(rows - 1, ranks, rank, rows);
    }
    StrideLength(all, rank, ranks, rows);
  }

  /** The results of the ranks, each evaluating its own shard with `f`. */
  ghost predicate AreResults<T, R>(parts: seq<seq<R>>, f: T -> R, order: seq<T>, ranks: nat)
    requires ranks > 0
  {
    && |parts| == ranks
    && forall r: nat {:trigger parts[r]} :: r < ranks ==>
         && Shard(order, ranks, r).Some? && |parts[r]| == |Shard(order, ranks, r).value|
         && forall k :: 0 <= k < |parts[r]| ==> parts[r][k] == f(Shard(order, ranks, r).value[k])
  }

  /** Every place of the padded list belongs to one row of one rank. */
  lemma PlaceOf(x: nat, rows: nat, ranks: nat) returns (k: nat, r: nat)
    requires ranks > 0 && x < rows * ranks
    ensures x == k * ranks + r && r < ranks && k < rows
  {
    k, r := x / ranks, x % ranks;
    assert x == k * ranks + r;
    assert k >= rows ==> k * ranks >= rows * ranks;
  }

  lemma {:induction false} ShortestIsRows<R>(parts: seq<seq<R>>, rows: nat)
    requires parts != [] && forall p :: p in parts ==> |p| == rows
    ensures Shortest(parts) == rows
  {
  }

  lemma {:induction false} MergedElement<T, R>(parts: seq<seq<R>>, f: T -> R, order: seq<T>, ranks: nat,
                                               rows: nat, x: nat)
    requires ranks > 0 && Padded(order, ranks).Some? && AreResults(parts, f, order, ranks)
    requires rows == SamplesPerRank(|order|, ranks) && x < |order|
    requires forall p :: p in parts ==> |p| == rows
    ensures x < |Interleaved(parts, rows)| && Interleaved(parts, rows)[x] == f(order[x])
  {
    PaddingFits(order, ranks);
    TotalCovers(|order|, ranks);
    var k, r := PlaceOf(x, rows, ranks);
    ShardElement(order, ranks, r, k);
    InterleavedAt(parts, rows, k, r);
    assert parts[r][k] == f(Shard(order, ranks, r).value[k]);
    assert Padded(order, ranks).value[x] == order[x];
  }

  /**
   Sharding and merging is the identity: whatever order the sampler starts from, shuffled or
   not, the merged results are the results of that order, each once. It works for every number
   of ranks for which the sampler's own check passes.
   */
  lemma {:induction false} MergeUndoesShard<T, R>(parts: seq<seq<R>>, f: T -> R, order: seq<T>, ranks: nat)
    requires ranks > 0 && Padded(order, ranks).Some? && AreResults(parts, f, order, ranks)
    ensures Prefix(Interleaved(parts, Shortest(parts)), |order|) ==
            seq(|order|, x requires 0 <= x < |order| => f(order[x]))
  {
    var rows := SamplesPerRank(|order|, ranks);
    forall p | p in parts
      ensures |p| == rows
    {
      var r :| 0 <= r < |parts| && parts[r] == p;
      ShardLength(order, ranks, r);
    }
    ShortestIsRows(parts, rows);
    var merged := Interleaved(parts, rows);
    InterleavedLength(parts, rows);
    TotalCovers(|order|, ranks);
    forall x | 0 <= x < |order|
      ensures merged[x] == f(order[x])
    {
      MergedElement(parts, f, order, ranks, rows, x);
    }
  }

  /** The check fails, for example, when three ranks share a dataset of one element. */
  lemma TooManyRanks<T>(x: T, rank: nat)
    requires rank < 3
    ensures Shard([x], 3, rank) == None
  {
    PaddingFits([x], 3);
  }
}
