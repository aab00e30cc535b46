/** Sampling without replacement (core/random.js, repeated verbatim in
    core/Benchmark.js): a partial Fisher–Yates shuffle over a sparse `taken`
    table. The pseudo-random source is replaced by the integer draws it is
    used for: the k-th draw is `Math.floor(random() * len)` with `len` the
    number of indices not yet chosen, so it lies in [0, len). */
module Sampling {
  import opened Wrappers
  import opened Sequences

  /** What `getRandomItems` returns; a position of a `new Array(n)` that the
      loop never writes is a hole, written `None`. */
  datatype Sample<T> = Sample(result: seq<Option<T>>, indexes: seq<Option<int>>)

  /** The k-th draw lies below the number of indices still available. */
  predicate ValidDraws(draws: seq<int>, len: nat) {
    forall k :: 0 <= k < |draws| ==> 0 <= draws[k] < len - k
  }

  function Min(a: int, b: int): int {
    if a < b then a else b
  }

  /** How many draws a call consumes: none when it returns the whole array
      or throws, otherwise one per chosen element. */
  function DrawCount(len: nat, n: int): nat {
    if n == len || n < 0 then 0 else Min(n, len)
  }

  function Somes<T>(s: seq<T>): (r: seq<Option<T>>)
    ensures |r| == |s| && forall i :: 0 <= i < |s| ==> r[i] == Some(s[i])
  {
    seq(|s|, i requires 0 <= i < |s| => Some(s[i]))
  }

  /** The values in `pool` other than its position `x`, with the last value
      moved into position `x`: one step of the shuffle. */
  function Remove(pool: seq<int>, x: int): (rest: seq<int>)
    requires 0 <= x < |pool|
    ensures |rest| == |pool| - 1
    ensures forall y :: y in rest ==> y in pool
  {
    var rest := pool[x := pool[|pool| - 1]][..|pool| - 1];
    assert forall i :: 0 <= i < |rest| ==> rest[i] in pool by {
      forall i | 0 <= i < |rest| ensures rest[i] in pool {
        if i == x {
          assert rest[i] == pool[|pool| - 1];
        } else {
          assert rest[i] == pool[i];
        }
      }
    }
    rest
  }

  /** The reference shuffle: the value at each drawn position is chosen and
      removed by `Remove`, in draw order. */
  function Pick(pool: seq<int>, draws: seq<int>): (picked: seq<int>)
    requires ValidDraws(draws, |pool|)
    ensures |picked| == |draws|
    decreases |draws|
  {
    if draws == [] then []
    else
      assert ValidDraws(draws[1..], |pool| - 1) by {
        forall k | 0 <= k < |draws| - 1 ensures 0 <= draws[1..][k] < |pool| - 1 - k {
          assert draws[1..][k] == draws[k + 1];
        }
      }
      [pool[draws[0]]] + Pick(Remove(pool, draws[0]), draws[1..])
  }

  /** One draw of the shuffle: the first drawn position is chosen and the
      rest is drawn from what `Remove` leaves. */
  lemma PickStep(pool: seq<int>, draws: seq<int>)
    requires ValidDraws(draws, |pool|) && draws != []
    ensures |pool| > 0 && ValidDraws(draws[1..], |pool| - 1)
    ensures Pick(pool, draws) == [pool[draws[0]]] + Pick(Remove(pool, draws[0]), draws[1..])
  {
    assert draws[0] < |pool|;
    assert ValidDraws(draws[1..], |pool| - 1) by {
      forall k | 0 <= k < |draws| - 1 ensures 0 <= draws[1..][k] < |pool| - 1 - k {
        assert draws[1..][k] == draws[k + 1];
      }
    }
  }

  /** Removing a position of a duplicate-free pool keeps every other value
      and nothing else. */
  lemma RemoveElements(pool: seq<int>, x: int)
    requires 0 <= x < |pool| && NoDuplicates(pool)
    ensures NoDuplicates(Remove(pool, x))
    ensures forall y :: y in Remove(pool, x) <==> y in pool && y != pool[x]
  {
    var rest := Remove(pool, x);
    var last := |pool| - 1;
    forall y | y in pool && y != pool[x] ensures y in rest {
      var i :| 0 <= i < |pool| && pool[i] == y;
      if i == last {
        assert rest[x] == y;
      } else {
        assert rest[i] == y;
      }
    }
  }

  /** Every chosen value comes from the pool and none is chosen twice. */
  lemma {:induction false} PickFromPool(pool: seq<int>, draws: seq<int>)
    requires ValidDraws(draws, |pool|) && NoDuplicates(pool)
    ensures NoDuplicates(Pick(pool, draws))
    ensures forall y :: y in Pick(pool, draws) ==> y in pool
    decreases |draws|
  {
    if draws != [] {
      var x := draws[0];
      var rest := Remove(pool, x);
      PickStep(pool, draws);
      RemoveElements(pool, x);
      PickFromPool(rest, draws[1..]);
      var tail := Pick(rest, draws[1..]);
      assert pool[x] !in tail;
    }
  }

  /** The chosen indices are distinct indices of the input. */
  lemma PickRange(len: nat, draws: seq<int>)
    requires ValidDraws(draws, len)
    ensures NoDuplicates(Pick(Range(len), draws))
    ensures forall i :: 0 <= i < |draws| ==> 0 <= Pick(Range(len), draws)[i] < len
  {
    PickFromPool(Range(len), draws);
    forall i | 0 <= i < |draws| ensures 0 <= Pick(Range(len), draws)[i] < len {
      assert Pick(Range(len), draws)[i] in Pick(Range(len), draws);
    }
  }

  /** The draws that make the shuffle choose `target`: the position of each
      target value in what is left of the pool. */
  function DrawsFor(pool: seq<int>, target: seq<int>): (draws: seq<int>)
    requires NoDuplicates(pool) && NoDuplicates(target) && |target| <= |pool|
    requires forall y :: y in target ==> y in pool
    ensures |draws| == |target|
    decreases |target|
  {
    if target == [] then []
    else
      var x := IndexOf(pool, target[0]);
      RemoveElements(pool, x);
      [x] + DrawsFor(Remove(pool, x), target[1..])
  }

  /** Every ordered choice of distinct pool values is made by some valid
      draw sequence: `DrawsFor` is valid and `Pick` inverts it. */
  lemma {:induction false} DrawsForPicks(pool: seq<int>, target: seq<int>)
    requires NoDuplicates(pool) && NoDuplicates(target) && |target| <= |pool|
    requires forall y :: y in target ==> y in pool
    ensures ValidDraws(DrawsFor(pool, target), |pool|)
    ensures Pick(pool, DrawsFor(pool, target)) == target
    decreases |target|
  {
    if target != [] {
      var x := IndexOf(pool, target[0]);
      var rest := Remove(pool, x);
      RemoveElements(pool, x);
      assert NoDuplicates(target[1..]);
      assert forall y :: y in target[1..] ==> y in rest by {
        forall y | y in target[1..] ensures y in rest {
          var i :| 0 <= i < |target[1..]| && target[1..][i] == y;
          assert target[i + 1] == y;
        }
      }
      DrawsForPicks(rest, target[1..]);
      var draws := DrawsFor(pool, target);
      assert draws == [x] + DrawsFor(rest, target[1..]);
      assert draws[1..] == DrawsFor(rest, target[1..]);
    }
  }

  /** ... and by only one: different valid draws choose differently. With
      uniform draws every ordered sample is therefore equally likely. */
  lemma {:induction false} PickInjective(pool: seq<int>, d1: seq<int>, d2: seq<int>)
    requires NoDuplicates(pool) && ValidDraws(d1, |pool|) && ValidDraws(d2, |pool|)
    requires Pick(pool, d1) == Pick(pool, d2)
    ensures d1 == d2
    decreases |d1|
  {
    if d1 != [] {
      assert |d2| == |d1|;
      PickStep(pool, d1);
      PickStep(pool, d2);
      assert pool[d1[0]] == Pick(pool, d1)[0] == Pick(pool, d2)[0] == pool[d2[0]];
      assert d1[0] == d2[0];
      var rest := Remove(pool, d1[0]);
      RemoveElements(pool, d1[0]);
      assert Pick(rest, d1[1..]) == Pick(pool, d1)[1..];
      assert Pick(rest, d2[1..]) == Pick(pool, d2)[1..];
      PickInjective(rest, d1[1..], d2[1..]);
      assert d1 == [d1[0]] + d1[1..];
      assert d2 == [d2[0]] + d2[1..];
    }
  }

  /** What is left of the pool after the draws `draws`. */
  function PoolAfter(pool: seq<int>, draws: seq<int>): (rest: seq<int>)
    requires ValidDraws(draws, |pool|)
    ensures |rest| == |pool| - |draws|
    decreases |draws|
  {
    if draws == [] then pool
    else
      PickStep(pool, draws);
      PoolAfter(Remove(pool, draws[0]), draws[1..])
  }

  /** The shuffle seen from its last draw: the final draw chooses from what
      the earlier ones left. */
  lemma {:induction false} PickSnoc(pool: seq<int>, draws: seq<int>, x: int)
    requires ValidDraws(draws + [x], |pool|)
    ensures ValidDraws(draws, |pool|) && 0 <= x < |PoolAfter(pool, draws)|
    ensures Pick(pool, draws + [x]) == Pick(pool, draws) + [PoolAfter(pool, draws)[x]]
    ensures PoolAfter(pool, draws + [x]) == Remove(PoolAfter(pool, draws), x)
    decreases |draws|
  {
    assert ValidDraws(draws, |pool|) by {
      forall k | 0 <= k < |draws| ensures 0 <= draws[k] < |pool| - k {
        assert (draws + [x])[k] == draws[k];
      }
    }
    assert (draws + [x])[|draws|] == x;
    PickStep(pool, draws + [x]);
    if draws != [] {
      PickStep(pool, draws);
      assert (draws + [x])[1..] == draws[1..] + [x];
      PickSnoc(Remove(pool, draws[0]), draws[1..], x);
    }
  }

  /** The pool and the chosen values after the first `k` draws, computed
      draw by draw as the loop of `getRandomItems` does. */
  datatype ShuffleState = ShuffleState(pool: seq<int>, picked: seq<int>)

  function ShuffleUpTo(len: nat, draws: seq<int>, k: nat): (s: ShuffleState)
    requires k <= |draws| && ValidDraws(draws, len)
    ensures |s.pool| == len - k && |s.picked| == k
    ensures forall y :: y in s.pool ==> 0 <= y < len
    ensures forall j :: 0 <= j < k ==> 0 <= s.picked[j] < len
  {
    if k == 0 then ShuffleState(Range(len), [])
    else
      var s := ShuffleUpTo(len, draws, k - 1);
      assert s.pool[draws[k - 1]] in s.pool;
      ShuffleState(Remove(s.pool, draws[k - 1]), s.picked + [s.pool[draws[k - 1]]])
  }

  /** The draw-by-draw state agrees with the reference shuffle. */
  lemma {:induction false} ShuffleUpToIsPick(len: nat, draws: seq<int>, k: nat)
    requires k <= |draws| && ValidDraws(draws, len)
    ensures ValidDraws(draws[..k], len)
    ensures ShuffleUpTo(len, draws, k) ==
              ShuffleState(PoolAfter(Range(len), draws[..k]), Pick(Range(len), draws[..k]))
  {
    assert ValidDraws(draws[..k], len) by {
      forall i | 0 <= i < k ensures 0 <= draws[..k][i] < len - i {
        assert draws[..k][i] == draws[i];
      }
    }
    if k == 0 {
      assert draws[..0] == [];
    } else {
      ShuffleUpToIsPick(len, draws, k - 1);
      assert draws[..k] == draws[..k - 1] + [draws[k - 1]];
      PickSnoc(Range(len), draws[..k - 1], draws[k - 1]);
    }
  }

  /** The value at position `i` of the virtual pool kept in the sparse
      `taken` table: an entry if one was written, else the position itself. */
  function Lookup(taken: map<int, int>, i: int): int {
    if i in taken then taken[i] else i
  }

  /** The `taken` update `taken[x] = --len in taken ? taken[len] : len`
      keeps the table a picture of the pool after `Remove`. */
  lemma TakenStep(taken: map<int, int>, pool: seq<int>, x: int)
    requires 0 <= x < |pool|
    requires forall i :: 0 <= i < |pool| ==> pool[i] == Lookup(taken, i)
    ensures forall i :: 0 <= i < |pool| - 1 ==>
              Remove(pool, x)[i] == Lookup(taken[x := Lookup(taken, |pool| - 1)], i)
  {
  }

  /** The contents of an output array of length `n` once the values `vals`
      have been written, the first at position `c - 1`, the next at `c - 2`,
      and so on; unwritten positions are holes. */
  function Placed<U>(n: nat, c: nat, vals: seq<U>): (a: seq<Option<U>>)
    requires |vals| <= c <= n
    ensures |a| == n
  {
    seq(n, i requires 0 <= i < n => if c - |vals| <= i < c then Some(vals[c - 1 - i]) else None)
  }

  lemma PlacedStep<U>(n: nat, c: nat, vals: seq<U>, v: U)
    requires |vals| < c <= n
    ensures Placed(n, c, vals + [v]) == Placed(n, c, vals)[c - 1 - |vals| := Some(v)]
  {
    var a := Placed(n, c, vals + [v]);
    var b := Placed(n, c, vals)[c - 1 - |vals| := Some(v)];
    forall i | 0 <= i < n ensures a[i] == b[i] {
      if c - |vals| <= i < c {
        assert (vals + [v])[c - 1 - i] == vals[c - 1 - i];
      }
    }
  }

  /** The array elements at the chosen indices. */
  function At<T>(arr: seq<T>, indices: seq<int>): (values: seq<T>)
    requires forall j :: 0 <= j < |indices| ==> 0 <= indices[j] < |arr|
    ensures |values| == |indices|
  {
    seq(|indices|, j requires 0 <= j < |indices| => arr[indices[j]])
  }

  /** One iteration of the loop over the sparse table: the value read at the
      drawn position is the next chosen index, and the table update leaves a
      picture of the pool after the draw. */
  lemma ShuffleTableStep(len: nat, draws: seq<int>, k: nat, taken: map<int, int>)
    requires k < |draws| && k < len && ValidDraws(draws, len)
    requires forall i :: 0 <= i < len - k ==> ShuffleUpTo(len, draws, k).pool[i] == Lookup(taken, i)
    ensures 0 <= draws[k] < len - k
    ensures 0 <= Lookup(taken, draws[k]) < len
    ensures ShuffleUpTo(len, draws, k + 1).picked == ShuffleUpTo(len, draws, k).picked + [Lookup(taken, draws[k])]
    ensures var next := ShuffleUpTo(len, draws, k + 1);
            forall i :: 0 <= i < len - k - 1 ==>
              next.pool[i] == Lookup(taken[draws[k] := Lookup(taken, len - k - 1)], i)
  {
    var s := ShuffleUpTo(len, draws, k);
    assert 0 <= draws[k] < len - k;
    TakenStep(taken, s.pool, draws[k]);
    assert s.pool[draws[k]] in s.pool;
  }

  /** Writing the next chosen index, and the element at it, into the output
      arrays at position `c - 1 - k`. */
  lemma PlacedPickStep<T>(arr: seq<T>, n: nat, c: nat, picked: seq<int>, idx: int)
    requires |picked| < c <= n && 0 <= idx < |arr|
    requires forall j :: 0 <= j < |picked| ==> 0 <= picked[j] < |arr|
    ensures Placed(n, c, picked + [idx]) == Placed(n, c, picked)[c - 1 - |picked| := Some(idx)]
    ensures Placed(n, c, At(arr, picked + [idx])) == Placed(n, c, At(arr, picked))[c - 1 - |picked| := Some(arr[idx])]
  {
    PlacedStep(n, c, picked, idx);
    assert At(arr, picked + [idx]) == At(arr, picked) + [arr[idx]];
    PlacedStep(n, c, At(arr, picked), arr[idx]);
  }

  /** The indices chosen by the first `c` draws of the shuffle over
      `0..len-1`: distinct indices of the input. */
  function Chosen(len: nat, draws: seq<int>, c: nat): (chosen: seq<int>)
    requires c <= |draws| && ValidDraws(draws, len)
    ensures |chosen| == c && NoDuplicates(chosen)
    ensures forall j :: 0 <= j < c ==> 0 <= chosen[j] < len
  {
    ShuffleUpToIsPick(len, draws, c);
    PickRange(len, draws[..c]);
    Pick(Range(len), draws[..c])
  }

  /** The output arrays written with distinct values hold no value twice. */
  lemma PlacedDistinct<U>(n: nat, c: nat, vals: seq<U>)
    requires |vals| <= c <= n && NoDuplicates(vals)
    ensures forall i, j :: 0 <= i < j < n && Placed(n, c, vals)[i].Some? ==>
              Placed(n, c, vals)[i] != Placed(n, c, vals)[j]
  {
    var a := Placed(n, c, vals);
    forall i, j | 0 <= i < j < n && a[i].Some? ensures a[i] != a[j] {
      if j < c {
        assert vals[c - 1 - i] != vals[c - 1 - j];
      }
    }
  }

  /** Every element placed in the output comes from the array. */
  lemma PlacedFrom<T>(arr: seq<T>, n: nat, c: nat, indices: seq<int>)
    requires |indices| <= c <= n && forall j :: 0 <= j < |indices| ==> 0 <= indices[j] < |arr|
    ensures forall i :: 0 <= i < n && Placed(n, c, At(arr, indices))[i].Some? ==>
              Placed(n, c, At(arr, indices))[i].value in arr
  {
    var a := Placed(n, c, At(arr, indices));
    forall i | 0 <= i < n && a[i].Some? ensures a[i].value in arr {
      assert a[i].value == arr[indices[c - 1 - i]];
    }
  }

  /** The state of the loop of `getRandomItems` after `done` of its `c`
      draws: `taken` pictures the pool left by the shuffle, and both output
      arrays hold what the chosen indices put there. */
  ghost predicate Filled<T>(arr: seq<T>, n: nat, c: nat, draws: seq<int>, done: nat,
                            taken: map<int, int>, result: seq<Option<T>>, indexes: seq<Option<int>>)
    requires done <= c <= n && c <= |arr| && c <= |draws| && ValidDraws(draws, |arr|)
  {
    (forall i :: 0 <= i < |arr| - done ==> ShuffleUpTo(|arr|, draws, done).pool[i] == Lookup(taken, i)) &&
    indexes == Placed(n, c, ShuffleUpTo(|arr|, draws, done).picked) &&
    result == Placed(n, c, At(arr, ShuffleUpTo(|arr|, draws, done).picked))
  }

  /** One pass of the loop body keeps `Filled`. */
  lemma FilledStep<T>(arr: seq<T>, n: nat, c: nat, draws: seq<int>, done: nat,
                      taken: map<int, int>, result: seq<Option<T>>, indexes: seq<Option<int>>)
    requires done < c <= n && c <= |arr| && c <= |draws| && ValidDraws(draws, |arr|)
    requires Filled(arr, n, c, draws, done, taken, result, indexes)
    ensures 0 <= draws[done] < |arr| - done && 0 <= Lookup(taken, draws[done]) < |arr|
    ensures Filled(arr, n, c, draws, done + 1,
                   taken[draws[done] := Lookup(taken, |arr| - done - 1)],
                   result[c - 1 - done := Some(arr[Lookup(taken, draws[done])])],
                   indexes[c - 1 - done := Some(Lookup(taken, draws[done]))])
  {
    ShuffleTableStep(|arr|, draws, done, taken);
    PlacedPickStep(arr, n, c, ShuffleUpTo(|arr|, draws, done).picked, Lookup(taken, draws[done]));
  }

  /** The loop of `getRandomItems`: `c` draws, each choosing an index
      through the sparse `taken` table and writing it, and the element at it,
      at position `c - 1 - k` of the output arrays (`k` counting the draws). */
  method DrawInto<T>(arr: seq<T>, draws: seq<int>, c: nat, result: array<Option<T>>, indexes: array<Option<int>>)
    requires c <= |arr| && c <= |draws| && ValidDraws(draws, |arr|)
    requires result as object != indexes as object && c <= result.Length == indexes.Length
    requires forall i :: 0 <= i < result.Length ==> result[i] == None && indexes[i] == None
    modifies result, indexes
    ensures result[..] == Placed(result.Length, c, At(arr, Chosen(|arr|, draws, c)))
    ensures indexes[..] == Placed(result.Length, c, Chosen(|arr|, draws, c))
  {
    var n := result.Length;
    var len := |arr|;
    var taken: map<int, int> := map[];
    var remaining := c;
    ghost var done := 0;
    assert Filled(arr, n, c, draws, done, taken, result[..], indexes[..]);
    while remaining != 0
      invariant 0 <= remaining <= c
      invariant done == c - remaining && len == |arr| - done
      invariant Filled(arr, n, c, draws, done, taken, result[..], indexes[..])
    {
      var x := draws[c - remaining];
      FilledStep(arr, n, c, draws, done, taken, result[..], indexes[..]);
      var idx := Lookup(taken, x);
      ghost var before := (result[..], indexes[..], taken);
      remaining := remaining - 1;
      result[remaining] := Some(arr[idx]);
      indexes[remaining] := Some(idx);
      assert result[..] == before.0[c - 1 - done := Some(arr[idx])];
      assert indexes[..] == before.1[c - 1 - done := Some(idx)];
      len := len - 1;
      taken := taken[x := Lookup(taken, len)];
      assert x == draws[done] && len == |arr| - done - 1;
      assert Filled(arr, n, c, draws, done + 1, taken, result[..], indexes[..]);
      done := done + 1;
    }
    ShuffleUpToIsPick(|arr|, draws, c);
  }

  /** The values held by a sample, holes aside. */
  ghost function Present<T(!new)>(s: seq<Option<T>>): (values: set<T>)
    ensures forall v :: v in values <==> Some(v) in s
  {
    set i | 0 <= i < |s| && s[i].Some? :: s[i].value
  }

  /** What `getRandomItems(arr, n)` returns in `result` for a non-negative
      `n` and the given draws: the whole array when `n == arr.length`,
      otherwise the `min(n, len)` chosen elements in the first positions,
      the last chosen first, and holes after them. */
  function Sampled<T>(arr: seq<T>, n: nat, draws: seq<int>): (s: seq<Option<T>>)
    requires ValidDraws(draws, |arr|) && |draws| >= DrawCount(|arr|, n)
    ensures |s| == n
    ensures forall i :: 0 <= i < n ==> (s[i].Some? <==> i < Min(n, |arr|))
  {
    if n == |arr| then Somes(arr)
    else Placed(n, Min(n, |arr|), At(arr, Chosen(|arr|, draws, Min(n, |arr|))))
  }

  /** A sample of a duplicate-free array holds `min(n, len)` distinct
      elements of the array. */
  lemma SampledPresent<T(!new)>(arr: seq<T>, n: nat, draws: seq<int>)
    requires ValidDraws(draws, |arr|) && |draws| >= DrawCount(|arr|, n) && NoDuplicates(arr)
    ensures Present(Sampled(arr, n, draws)) <= Elements(arr)
    ensures |Present(Sampled(arr, n, draws))| == Min(n, |arr|)
  {
    var s := Sampled(arr, n, draws);
    if n == |arr| {
      assert Present(s) == Elements(arr);
      DistinctCardinality(arr);
    } else {
      var c := Min(n, |arr|);
      var chosen := Chosen(|arr|, draws, c);
      var vals := At(arr, chosen);
      assert NoDuplicates(vals) by {
        forall i, j | 0 <= i < j < c ensures vals[i] != vals[j] {
          assert chosen[i] != chosen[j];
        }
      }
      forall v | v in vals ensures v in Present(s) {
        var j :| 0 <= j < c && vals[j] == v;
        assert s[c - 1 - j] == Some(v);
      }
      assert Present(s) == Elements(vals);
      DistinctCardinality(vals);
    }
  }

  /** `getRandomItems(arr, n)`: `n == arr.length` returns the array itself
      with the indexes 0..len-1 and draws nothing; a negative `n` is an
      invalid array length; otherwise `min(n, len)` distinct indices are
      chosen by the shuffle, the k-th one written at position
      `min(n, len) - 1 - k` of `indexes` and the element at it at the same
      position of `result`, and the positions from `min(n, len)` up to `n`
      stay holes. `consumed` is the number of draws used. */
  method GetRandomItems<T(==)>(arr: seq<T>, n: int, draws: seq<int>) returns (r: Result<Sample<T>>, consumed: nat)
    requires ValidDraws(draws, |arr|) && |draws| >= DrawCount(|arr|, n)
    ensures consumed == DrawCount(|arr|, n)
    ensures r.Success? <==> n >= 0
    ensures r.Failure? ==> r.error.RangeError?
    ensures n == |arr| ==> r == Success(Sample(Somes(arr), Somes(Range(|arr|))))
    ensures n >= 0 && n != |arr| ==>
              consumed <= n &&
              r.value.indexes == Placed(n, consumed, Chosen(|arr|, draws, consumed)) &&
              r.value.result == Placed(n, consumed, At(arr, Chosen(|arr|, draws, consumed)))
    ensures r.Success? ==> forall i :: 0 <= i < |r.value.result| && r.value.result[i].Some? ==> r.value.result[i].value in arr
    ensures r.Success? ==> r.value.result == Sampled(arr, n, draws) && r.value.indexes == Sampled(Range(|arr|), n, draws)
  {
    var len := |arr|;
    if len == n {
      return Success(Sample(Somes(arr), Somes(Range(len)))), 0;
    }
    if n < 0 {
      return Failure(RangeError("Invalid array length")), 0;
    }
    var result := new Option<T>[n](_ => None);
    var indexes := new Option<int>[n](_ => None);
    var count := n;
    if count > len {
      count := len;
    }
    DrawInto(arr, draws, count, result, indexes);
    PlacedFrom(arr, n, count, Chosen(len, draws, count));
    assert At(Range(len), Chosen(len, draws, count)) == Chosen(len, draws, count);
    return Success(Sample(result[..], indexes[..])), count;
  }
}
