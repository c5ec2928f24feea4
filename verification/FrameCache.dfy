/** The bounded cache of decoded frames. It drops the frame that was decoded first, however often it was used since. */
module FrameCache {
  import opened Permutations
  import opened Lists

  /** A list index may count from the end: -1 is the last element. */
  predicate InRange(idx: int, length: nat) { 0 <= idx + length && idx < length }

  function At<T>(s: seq<T>, idx: int): T
    requires InRange(idx, |s|)
  {
    if idx < 0 then s[|s| + idx] else s[idx]
  }

  /** The order list after a frame was decoded and put into a cache of the given size. */
  function Put(order: seq<int>, idx: int, size: int): seq<int> {
    if |order| + 1 > size then (order + [idx])[1..] else order + [idx]
  }

  /** The order list after a request: a hit leaves it alone. */
  function Requested(order: seq<int>, idx: int, size: int): seq<int> {
    if idx in order then order else Put(order, idx, size)
  }

  function OrderAfter(requests: seq<int>, size: int): seq<int> {
    if requests == [] then []
    else Requested(OrderAfter(requests[..|requests| - 1], size), requests[|requests| - 1], size)
  }

  /** The requests that had to be decoded, in order. */
  function Misses(requests: seq<int>, size: int): seq<int> {
    if requests == [] then []
    else
      var before, idx := requests[..|requests| - 1], requests[|requests| - 1];
      Misses(before, size) + if idx in OrderAfter(before, size) then [] else [idx]
  }

  lemma PutKeepsLatest(misses: seq<int>, idx: int, size: int)
    ensures Put(Latest(misses, size), idx, size) == Latest(misses + [idx], size)
  {
  }

  /** First in, first out: after any requests the cache holds the frames decoded last, without duplicates. */
  lemma {:induction false} CacheHoldsLatestMisses(requests: seq<int>, size: int)
    ensures OrderAfter(requests, size) == Latest(Misses(requests, size), size)
    ensures Distinct(OrderAfter(requests, size))
    ensures |OrderAfter(requests, size)| <= if size < 0 then 0 else size
  {
    if requests != [] {
      var before, idx := requests[..|requests| - 1], requests[|requests| - 1];
      CacheHoldsLatestMisses(before, size);
      if idx in OrderAfter(before, size) {
        assert Misses(requests, size) == Misses(before, size);
      } else {
        PutKeepsLatest(Misses(before, size), idx, size);
      }
    }
  }

  // ---------- comparison with a least-recently-used cache ----------

  /** The list without a frame. */
  function Without(order: seq<int>, idx: int): (r: seq<int>)
    ensures forall x :: x in r <==> x in order && x != idx
  {
    if order == [] then [] else (if order[0] == idx then [] else [order[0]]) + Without(order[1..], idx)
  }

  /** In a least-recently-used cache a hit moves the frame to the back of the list. */
  function LruRequested(order: seq<int>, idx: int, size: int): seq<int> {
    if idx in order then Without(order, idx) + [idx] else Put(order, idx, size)
  }

  function LruAfter(requests: seq<int>, size: int): seq<int> {
    if requests == [] then []
    else LruRequested(LruAfter(requests[..|requests| - 1], size), requests[|requests| - 1], size)
  }

  /** The place of the last request of a frame, -1 when there is none. */
  function LastUse(requests: seq<int>, idx: int): (n: int)
    ensures -1 <= n < |requests|
  {
    if requests == [] then -1
    else if requests[|requests| - 1] == idx then |requests| - 1
    else LastUse(requests[..|requests| - 1], idx)
  }

  /** The list ascends in the given measure of its frames. */
  ghost predicate Ascends(use: int -> int, order: seq<int>) {
    forall i, j :: 0 <= i < j < |order| ==> use(order[i]) < use(order[j])
  }

  lemma AscendsTail(use: int -> int, order: seq<int>)
    requires Ascends(use, order) && order != []
    ensures Ascends(use, order[1..]) && forall x :: x in order[1..] ==> use(order[0]) < use(x)
  {
    assert forall k :: 0 <= k < |order| - 1 ==> order[1..][k] == order[k + 1];
  }

  lemma AscendsCons(use: int -> int, first: int, rest: seq<int>)
    requires Ascends(use, rest) && forall x :: x in rest ==> use(first) < use(x)
    ensures Ascends(use, [first] + rest)
  {
    var order := [first] + rest;
    forall i, j | 0 <= i < j < |order|
      ensures use(order[i]) < use(order[j])
    {
      assert order[j] == rest[j - 1];
      assert i > 0 ==> order[i] == rest[i - 1];
    }
  }

  lemma {:induction false} WithoutAscends(use: int -> int, order: seq<int>, idx: int)
    requires Ascends(use, order)
    ensures Ascends(use, Without(order, idx))
  {
    if order != [] {
      var rest := Without(order[1..], idx);
      AscendsTail(use, order);
      WithoutAscends(use, order[1..], idx);
      if order[0] == idx {
        assert Without(order, idx) == rest;
      } else {
        AscendsCons(use, order[0], rest);
      }
    }
  }

  /** The measure of a frame by its last request. */
  function Uses(requests: seq<int>): int -> int {
    x => LastUse(requests, x)
  }

  /** The list is in the order of the last requests, the least recent one first. */
  ghost predicate ByLastUse(requests: seq<int>, order: seq<int>) {
    Ascends(Uses(requests), order)
  }

  lemma {:induction false} AfterStep(requests: seq<int>, idx: int, size: int)
    ensures OrderAfter(requests + [idx], size) == Requested(OrderAfter(requests, size), idx, size)
    ensures LruAfter(requests + [idx], size) == LruRequested(LruAfter(requests, size), idx, size)
  {
    assert (requests + [idx])[..|requests|] == requests;
  }

  lemma {:induction false} LastUseStep(requests: seq<int>, idx: int, x: int)
    ensures LastUse(requests + [idx], x) == if x == idx then |requests| else LastUse(requests, x)
  {
    assert (requests + [idx])[..|requests|] == requests;
  }

  lemma BackIsLatest(requests: seq<int>, order: seq<int>, idx: int)
    requires ByLastUse(requests, order) && idx !in order
    ensures ByLastUse(requests + [idx], order + [idx])
  {
    var before, later := Uses(requests), Uses(requests + [idx]);
    forall x
      ensures later(x) == if x == idx then |requests| else before(x)
      ensures before(x) < |requests|
    {
      LastUseStep(requests, idx, x);
    }
    AscendsAppend(before, later, order, idx);
  }

  lemma AscendsAppend(before: int -> int, later: int -> int, order: seq<int>, idx: int)
    requires Ascends(before, order) && idx !in order
    requires forall x :: x != idx ==> later(x) == before(x) && before(x) < later(idx)
    ensures Ascends(later, order + [idx])
  {
  }

  /** The list of a least-recently-used cache is in the order of the last requests. */
  lemma {:induction false} LruIsByLastUse(requests: seq<int>, size: int)
    ensures ByLastUse(requests, LruAfter(requests, size))
  {
    if requests != [] {
      var before, idx := requests[..|requests| - 1], requests[|requests| - 1];
      LruIsByLastUse(before, size);
      assert requests == before + [idx];
      LruStepByLastUse(before, LruAfter(before, size), idx, size);
    }
  }

  lemma LruStepByLastUse(requests: seq<int>, order: seq<int>, idx: int, size: int)
    requires ByLastUse(requests, order)
    ensures ByLastUse(requests + [idx], LruRequested(order, idx, size))
  {
    if idx in order {
      WithoutAscends(Uses(requests), order, idx);
      BackIsLatest(requests, Without(order, idx), idx);
    } else {
      BackIsLatest(requests, order, idx);
      AscendsTail(Uses(requests + [idx]), order + [idx]);
    }
  }

  /** The request at place n misses a full cache, so that a cached frame has to go. */
  predicate Drops(requests: seq<int>, size: int, n: nat)
    requires n < |requests|
  {
    var order := OrderAfter(requests[..n], size);
    requests[n] !in order && order != [] && |order| + 1 > size
  }

  /** The first frame of the list was requested less recently than every other one. */
  predicate FirstIsLeastRecent(requests: seq<int>, order: seq<int>) {
    forall k :: 1 <= k < |order| ==> Uses(requests)(order[0]) < Uses(requests)(order[k])
  }

  lemma FirstOfBoth(use: int -> int, order: seq<int>, lru: seq<int>)
    requires order != [] && lru != [] && Distinct(order) && Ascends(use, lru)
    requires Elements(order) == Elements(lru)
    ensures order[0] == lru[0] <==> forall k :: 1 <= k < |order| ==> use(order[0]) < use(order[k])
  {
    assert order[0] in Elements(lru) && lru[0] in Elements(order);
    forall k | 0 <= k < |order|
      ensures order[k] in lru
    {
      assert order[k] in Elements(order);
    }
  }

  lemma PutElements(order: seq<int>, idx: int, size: int)
    requires order != [] && Distinct(order) && idx !in order
    ensures Elements(Put(order, idx, size)) ==
            Elements(order) + {idx} - if |order| + 1 > size then {order[0]} else {}
  {
    assert order + [idx] == [order[0]] + (order[1..] + [idx]);
    assert Elements(order + [idx]) == Elements(order) + {idx};
    assert order[0] !in order[1..] + [idx];
  }

  /** One request: the two caches go on holding the same frames unless the one that goes was not the least recent. */
  lemma SameFramesStep(requests: seq<int>, order: seq<int>, lru: seq<int>, idx: int, size: int)
    requires Distinct(order) && ByLastUse(requests, lru) && Elements(order) == Elements(lru)
    ensures Elements(Requested(order, idx, size)) == Elements(LruRequested(lru, idx, size)) <==>
            (idx !in order && order != [] && |order| + 1 > size ==> FirstIsLeastRecent(requests, order))
  {
    assert idx in order <==> idx in Elements(lru);
    ElementsSize(order);
    ElementsSize(lru);
    if idx in order {
      assert Elements(LruRequested(lru, idx, size)) == Elements(lru);
    } else if order == [] {
      assert |Elements(lru)| == 0;
    } else {
      PutElements(order, idx, size);
      PutElements(lru, idx, size);
      FirstOfBoth(Uses(requests), order, lru);
      assert order[0] in Elements(order) && lru[0] in Elements(lru);
    }
  }

  // ---------- when the two agree ----------

  /** After n requests the cache holds the frames that a least-recently-used one would hold. */
  ghost predicate SameFrames(requests: seq<int>, size: int, n: nat)
    requires n <= |requests|
  {
    Elements(OrderAfter(requests[..n], size)) == Elements(LruAfter(requests[..n], size))
  }

  /** If a frame goes at request n, then every other cached frame was requested after it. */
  predicate DropIsLeastRecent(requests: seq<int>, size: int, n: nat)
    requires n < |requests|
  {
    Drops(requests, size, n) ==> FirstIsLeastRecent(requests[..n], OrderAfter(requests[..n], size))
  }

  lemma SameFramesNext(requests: seq<int>, size: int, n: nat)
    requires n < |requests| && SameFrames(requests, size, n)
    ensures SameFrames(requests, size, n + 1) <==> DropIsLeastRecent(requests, size, n)
  {
    var before := requests[..n];
    assert requests[..n + 1] == before + [requests[n]];
    AfterStep(before, requests[n], size);
    CacheHoldsLatestMisses(before, size);
    LruIsByLastUse(before, size);
    SameFramesStep(before, OrderAfter(before, size), LruAfter(before, size), requests[n], size);
  }

  lemma {:induction false} SameFramesUpTo(requests: seq<int>, size: int, n: nat)
    requires n <= |requests| && forall k :: 0 <= k < n ==> DropIsLeastRecent(requests, size, k)
    ensures SameFrames(requests, size, n)
  {
    if n > 0 {
      SameFramesUpTo(requests, size, n - 1);
      SameFramesNext(requests, size, n - 1);
    }
  }

  /**
   The cache holds the frames of a least-recently-used cache, after each request, exactly when each frame
   that it drops was requested less recently than all the other cached ones.
   */
  lemma AgreesWithLru(requests: seq<int>, size: int)
    ensures (forall n :: 0 <= n <= |requests| ==> SameFrames(requests, size, n)) <==>
            (forall n :: 0 <= n < |requests| ==> DropIsLeastRecent(requests, size, n))
  {
    if forall n :: 0 <= n <= |requests| ==> SameFrames(requests, size, n) {
      forall n | 0 <= n < |requests|
        ensures DropIsLeastRecent(requests, size, n)
      {
        SameFramesNext(requests, size, n);
      }
    }
    if forall n :: 0 <= n < |requests| ==> DropIsLeastRecent(requests, size, n) {
      forall n | 0 <= n <= |requests|
        ensures SameFrames(requests, size, n)
      {
        SameFramesUpTo(requests, size, n);
      }
    }
  }

  /** After n requests the order list is that of a least-recently-used cache. */
  predicate SameOrder(requests: seq<int>, size: int, n: nat)
    requires n <= |requests|
  {
    OrderAfter(requests[..n], size) == LruAfter(requests[..n], size)
  }

  predicate IsBack(order: seq<int>, idx: int) {
    order != [] && order[|order| - 1] == idx
  }

  /** If request n is a hit, then it is on the frame decoded last. */
  predicate HitIsOnBack(requests: seq<int>, size: int, n: nat)
    requires n < |requests|
  {
    var order := OrderAfter(requests[..n], size);
    requests[n] in order ==> IsBack(order, requests[n])
  }

  lemma {:induction false} WithoutBack(front: seq<int>, idx: int)
    requires idx !in front
    ensures Without(front + [idx], idx) == front
  {
    if front == [] {
      assert Without([], idx) == [];
    } else {
      assert (front + [idx])[1..] == front[1..] + [idx];
      WithoutBack(front[1..], idx);
    }
  }

  lemma {:induction false} MoveToBack(order: seq<int>, idx: int)
    requires Distinct(order) && idx in order
    ensures Without(order, idx) + [idx] == order <==> IsBack(order, idx)
  {
    if IsBack(order, idx) {
      var front := order[..|order| - 1];
      assert order == front + [idx];
      WithoutBack(front, idx);
    }
  }

  lemma SameOrderNext(requests: seq<int>, size: int, n: nat)
    requires n < |requests| && SameOrder(requests, size, n)
    ensures SameOrder(requests, size, n + 1) <==> HitIsOnBack(requests, size, n)
  {
    var before := requests[..n];
    assert requests[..n + 1] == before + [requests[n]];
    AfterStep(before, requests[n], size);
    CacheHoldsLatestMisses(before, size);
    if requests[n] in OrderAfter(before, size) {
      MoveToBack(OrderAfter(before, size), requests[n]);
    }
  }

  lemma {:induction false} SameOrderUpTo(requests: seq<int>, size: int, n: nat)
    requires n <= |requests| && forall k :: 0 <= k < n ==> HitIsOnBack(requests, size, k)
    ensures SameOrder(requests, size, n)
  {
    if n > 0 {
      SameOrderUpTo(requests, size, n - 1);
      SameOrderNext(requests, size, n - 1);
    }
  }

  /** The order list is that of a least-recently-used cache exactly when every hit is on the frame decoded last. */
  lemma KeepsLruOrder(requests: seq<int>, size: int)
    ensures (forall n :: 0 <= n <= |requests| ==> SameOrder(requests, size, n)) <==>
            (forall n :: 0 <= n < |requests| ==> HitIsOnBack(requests, size, n))
  {
    if forall n :: 0 <= n <= |requests| ==> SameOrder(requests, size, n) {
      forall n | 0 <= n < |requests|
        ensures HitIsOnBack(requests, size, n)
      {
        SameOrderNext(requests, size, n);
      }
    }
    if forall n :: 0 <= n < |requests| ==> HitIsOnBack(requests, size, n) {
      forall n | 0 <= n <= |requests|
        ensures SameOrder(requests, size, n)
      {
        SameOrderUpTo(requests, size, n);
      }
    }
  }

  // ---------- an input on which they differ ----------

  lemma FirstTwo(x: int, y: int)
    requires x != y
    ensures OrderAfter([x, y], 2) == [x, y] && LruAfter([x, y], 2) == [x, y]
  {
    AfterStep([], x, 2);
    AfterStep([x], y, 2);
    assert [] + [x] == [x] && [x] + [y] == [x, y];
  }

  lemma ThenHit(x: int, y: int)
    requires x != y
    ensures OrderAfter([x, y, x], 2) == [x, y] && LruAfter([x, y, x], 2) == [y, x]
  {
    FirstTwo(x, y);
    AfterStep([x, y], x, 2);
    assert [x, y] + [x] == [x, y, x];
    MovedToBack(x, y);
  }

  /**
   An input that tells the two apart: frame x was used just before, but it is dropped; a
   least-recently-used cache drops y.
   */
  lemma HitsDoNotProtect(x: int, y: int, z: int)
    requires Distinct([x, y, z])
    ensures OrderAfter([x, y, x, z], 2) == [y, z] && LruAfter([x, y, x, z], 2) == [x, z]
  {
    assert [x, y, z][0] != [x, y, z][1] && [x, y, z][0] != [x, y, z][2] && [x, y, z][1] != [x, y, z][2];
    ThenHit(x, y);
    AfterStep([x, y, x], z, 2);
    assert [x, y, x] + [z] == [x, y, x, z];
    assert ([x, y] + [z])[1..] == [y, z] && ([y, x] + [z])[1..] == [x, z];
  }

  lemma MovedToBack(x: int, y: int)
    requires x != y
    ensures LruRequested([x, y], x, 2) == [y, x]
  {
    assert [x, y][1..] == [y];
    WithoutBack([], x);
    assert Without([y], x) == [y] + Without([], x);
    assert Without([x, y], x) == [] + Without([y], x);
  }

  /** The frame index of the player: the dictionary of decoded frames and its order list, updated in place. */
  class FrameIndex<Data, Image> {
    const raw: seq<Data>
    const decode: Data -> Image
    const cacheSize: int
    var cache: map<int, Image>
    var order: seq<int>

    constructor (raw: seq<Data>, decode: Data -> Image, cacheSize: int)
      ensures Valid() && order == [] && this.raw == raw && this.decode == decode && this.cacheSize == cacheSize
    {
      this.raw, this.decode, this.cacheSize := raw, decode, cacheSize;
      cache, order := map[], [];
    }

    /** The cache agrees with direct decoding, its keys are the order list without duplicates, and it is bounded. */
    ghost predicate Valid()
      reads this
    {
      && cache.Keys == Elements(order) && Distinct(order)
      && |order| <= (if cacheSize < 0 then 0 else cacheSize)
      && forall idx :: idx in cache ==> InRange(idx, |raw|) && cache[idx] == decode(At(raw, idx))
    }

    /** The image of a frame, as decoding it directly gives it; None stands for the index error. */
    method GetImage(idx: int) returns (img: Option<Image>)
      requires Valid()
      modifies this`cache, this`order
      ensures Valid()
      ensures img == if InRange(idx, |raw|) then Some(decode(At(raw, idx))) else None
      ensures 0 <= idx < |raw| ==> img == Some(decode(raw[idx]))
      ensures -|raw| <= idx < 0 ==> img == Some(decode(raw[|raw| + idx]))
      ensures idx >= |raw| || idx < -|raw| ==> img == None
      ensures order == if InRange(idx, |raw|) then Requested(old(order), idx, cacheSize) else old(order)
    {
      if idx in cache {
        return Some(cache[idx]);
      }
      if !InRange(idx, |raw|) {
        return None;
      }
      var decoded := decode(At(raw, idx));
      CachePut(idx, decoded);
      img := Some(decoded);
    }

    method CachePut(idx: int, img: Image)
      requires Valid() && idx !in cache && InRange(idx, |raw|) && img == decode(At(raw, idx))
      modifies this`cache, this`order
      ensures Valid() && order == Put(old(order), idx, cacheSize)
    {
      cache := cache[idx := img];
      order := order + [idx];
      assert Elements(order) == Elements(old(order)) + {idx};
      if |order| > cacheSize {
        var oldest := order[0];
        assert order == [oldest] + order[1..];
        assert oldest !in order[1..];
        assert Elements(order[1..]) == Elements(order) - {oldest};
        order := order[1..];
        cache := cache - {oldest};
      }
    }
  }
}
