/** The seed-size and seed-composition arithmetic of
    `Benchmark.seedMembershipFactory` and the step count of
    `Benchmark.runBenchmark` (core/Benchmark.js).

    Percentages are integers: `Math.floor(x * (p / 100))` is written
    `(x * p) / 100`, which for a positive divisor is floor division. For the
    parameter lists the benchmark sweeps (seed sizes 5, 10, 25, 50 and
    composition ratios 0, 25, 50, 75, 100) the floating-point products land
    on the same integers. */
module Seeding {
  import opened Wrappers

  function Min(a: int, b: int): int {
    if b < a then b else a
  }

  function Distance(a: int, b: int): nat {
    if a < b then b - a else a - b
  }

  /** ramda `clamp(min, max, value)`: an error when the bounds cross,
      otherwise the point of [min, max] nearest to `value`. */
  function Clamp(lo: int, hi: int, value: int): (r: Result<int>)
    ensures r.Success? <==> lo <= hi
    ensures r.Success? ==> lo <= r.value <= hi
    ensures r.Success? ==> forall y :: lo <= y <= hi ==> Distance(r.value, value) <= Distance(y, value)
    ensures r.Failure? ==> r.error.Error?
  {
    if lo > hi then Failure(Error("min must not be greater than max in clamp(min, max, value)"))
    else if value < lo then Success(lo)
    else if value > hi then Success(hi)
    else Success(value)
  }

  /** `Math.floor(x * (percent / 100))`. */
  function PercentOf(x: int, percent: int): int {
    (x * percent) / 100
  }

  /** A percentage between 0 and 100 of a non-negative amount lies between
      0 and the amount, and grows with the amount no faster than it. */
  lemma PercentOfBounds(x: int, y: int, percent: int)
    requires 0 <= x <= y && 0 <= percent <= 100
    ensures 0 <= PercentOf(x, percent) <= x
    ensures PercentOf(x, percent) <= PercentOf(y, percent)
    ensures PercentOf(y, percent) - PercentOf(x, percent) <= y - x
  {
    var a, b := x * percent, y * percent;
    ScaleAtMost(x, percent);
    ScaleAtMost(y - x, percent);
    assert b - a == (y - x) * percent by {
      assert y * percent == x * percent + (y - x) * percent;
    }
    var qa, qb := a / 100, b / 100;
    assert a == 100 * qa + a % 100 && 0 <= a % 100 < 100;
    assert b == 100 * qb + b % 100 && 0 <= b % 100 < 100;
  }

  lemma ScaleAtMost(k: int, percent: int)
    requires 0 <= k && 0 <= percent <= 100
    ensures 0 <= k * percent <= k * 100
  {
  }

  /** The declared size of a seed community (core/Benchmark.js:233): the
      requested percentage of the ground-truth community, at least 2 and at
      most the whole community. A community of fewer than 2 nodes makes the
      clamp throw. */
  function DeclaredSeedSize(gtSize: nat, seedSizeParam: int): (r: Result<int>)
    ensures r.Success? <==> gtSize >= 2
    ensures r.Success? ==> 2 <= r.value <= gtSize
    ensures r.Success? && 2 <= PercentOf(gtSize, seedSizeParam) <= gtSize ==> r.value == PercentOf(gtSize, seedSizeParam)
    ensures r.Failure? ==> r.error.Error?
  {
    Clamp(2, gtSize, PercentOf(gtSize, seedSizeParam))
  }

  /** A larger seed-size parameter never declares a smaller seed. */
  lemma DeclaredSeedSizeMonotone(gtSize: nat, p: int, q: int)
    requires gtSize >= 2 && p <= q
    ensures DeclaredSeedSize(gtSize, p).value <= DeclaredSeedSize(gtSize, q).value
  {
    var a, b := gtSize * p, gtSize * q;
    assert b - a == gtSize * (q - p) by {
      assert gtSize * q == gtSize * p + gtSize * (q - p);
    }
    ScaleAtLeastZero(gtSize, q - p);
    var qa, qb := a / 100, b / 100;
    assert a == 100 * qa + a % 100 && 0 <= a % 100 < 100;
    assert b == 100 * qb + b % 100 && 0 <= b % 100 < 100;
    assert PercentOf(gtSize, p) <= PercentOf(gtSize, q);
  }

  lemma ScaleAtLeastZero(k: int, d: int)
    requires 0 <= k && 0 <= d
    ensures 0 <= k * d
  {
  }

  /** The share of TP nodes in a seed of `size` nodes, `floor(size * mixFactor)`
      with `mixFactor = 1 - ratio / 100`, capped by the size of the TP set
      (core/Benchmark.js:241, 249). */
  function TpTarget(size: int, ratio: int, tpSize: nat): int {
    Min(PercentOf(size, 100 - ratio), tpSize)
  }

  /** The rest of the seed, capped by the size of the FN set
      (core/Benchmark.js:250). */
  function FnTarget(size: int, ratio: int, tpSize: nat, fnSize: nat): int {
    Min(size - TpTarget(size, ratio, tpSize), fnSize)
  }

  /** Neither target exceeds its pool, and together they do not exceed the
      declared size. */
  lemma TargetBounds(size: int, ratio: int, tpSize: nat, fnSize: nat)
    requires 0 <= size && 0 <= ratio <= 100
    ensures 0 <= TpTarget(size, ratio, tpSize) <= tpSize
    ensures 0 <= FnTarget(size, ratio, tpSize, fnSize) <= fnSize
    ensures TpTarget(size, ratio, tpSize) + FnTarget(size, ratio, tpSize, fnSize) <= size
  {
    PercentOfBounds(size, size, 100 - ratio);
  }

  /** When both pools are large enough the targets fill the declared size
      exactly, and the TP share is the floored percentage. */
  lemma TargetsFill(size: int, ratio: int, tpSize: nat, fnSize: nat)
    requires 0 <= size && 0 <= ratio <= 100
    requires PercentOf(size, 100 - ratio) <= tpSize
    requires size - PercentOf(size, 100 - ratio) <= fnSize
    ensures TpTarget(size, ratio, tpSize) == PercentOf(size, 100 - ratio)
    ensures TpTarget(size, ratio, tpSize) + FnTarget(size, ratio, tpSize, fnSize) == size
  {
  }

  /** Growing the seed never shrinks either target. */
  lemma TargetsMonotone(size: int, size': int, ratio: int, tpSize: nat, fnSize: nat)
    requires 0 <= size <= size' && 0 <= ratio <= 100
    ensures TpTarget(size, ratio, tpSize) <= TpTarget(size', ratio, tpSize)
    ensures FnTarget(size, ratio, tpSize, fnSize) <= FnTarget(size', ratio, tpSize, fnSize)
  {
    PercentOfBounds(size, size', 100 - ratio);
  }

  /** How many new TP and FN nodes a step picks. */
  datatype Quota = Quota(tp: int, fn: int)

  /** The targets minus what earlier steps already placed in this seed
      community: `alreadyTp` of its `alreadySize` nodes are TP nodes, the
      rest count against the FN target (core/Benchmark.js:247-253). */
  function NewPicks(size: int, ratio: int, tpSize: nat, fnSize: nat, alreadySize: int, alreadyTp: int): (q: Quota)
    ensures alreadySize + q.tp + q.fn == TpTarget(size, ratio, tpSize) + FnTarget(size, ratio, tpSize, fnSize)
  {
    Quota(TpTarget(size, ratio, tpSize) - alreadyTp,
          FnTarget(size, ratio, tpSize, fnSize) - (alreadySize - alreadyTp))
  }

  /** If the nodes already picked fit the targets of an earlier, smaller
      seed, the new quotas are not negative, and after picking them the TP
      and FN counts meet the current targets exactly. */
  lemma NewPicksNonNegative(prevSize: int, size: int, ratio: int, tpSize: nat, fnSize: nat,
                            alreadySize: int, alreadyTp: int)
    requires 0 <= prevSize <= size && 0 <= ratio <= 100
    requires alreadyTp <= TpTarget(prevSize, ratio, tpSize)
    requires alreadySize - alreadyTp <= FnTarget(prevSize, ratio, tpSize, fnSize)
    ensures NewPicks(size, ratio, tpSize, fnSize, alreadySize, alreadyTp).tp >= 0
    ensures NewPicks(size, ratio, tpSize, fnSize, alreadySize, alreadyTp).fn >= 0
    ensures alreadyTp + NewPicks(size, ratio, tpSize, fnSize, alreadySize, alreadyTp).tp == TpTarget(size, ratio, tpSize)
  {
    TargetsMonotone(prevSize, size, ratio, tpSize, fnSize);
  }

  /** The composition ratio reported for a seed community: the share of FN
      nodes, or the sentinel -1 for an empty seed (core/Benchmark.js:286-288). */
  function RealizedRatio(tpCount: int, realSize: int): real {
    if realSize == 0 then -1.0 else 1.0 - (tpCount as real) / (realSize as real)
  }

  /** The ratio is the sentinel -1 for an empty seed; otherwise, times the
      real size, it gives the number of FN nodes in the seed. */
  lemma RealizedRatioShare(tpCount: int, realSize: int)
    ensures realSize == 0 ==> RealizedRatio(tpCount, realSize) == -1.0
    ensures realSize != 0 ==> RealizedRatio(tpCount, realSize) * (realSize as real) == (realSize - tpCount) as real
  {
    if realSize != 0 {
      var share := (tpCount as real) / (realSize as real);
      assert share * (realSize as real) == tpCount as real;
    }
  }

  /** For a non-empty seed the ratio is a proper fraction: the FN share,
      never the sentinel. */
  lemma RealizedRatioRange(tpCount: int, realSize: int)
    requires 0 <= tpCount <= realSize && realSize > 0
    ensures 0.0 <= RealizedRatio(tpCount, realSize) <= 1.0
  {
    RealizedRatioShare(tpCount, realSize);
    var r := RealizedRatio(tpCount, realSize);
    var fn := (realSize - tpCount) as real;
    assert r * (realSize as real) == fn;
    assert 0.0 <= fn <= realSize as real;
    assert r == fn / (realSize as real);
  }

  /** A value of `PARAMETERS_STUB`: a list of options to sweep, or an entry
      that is not an array (the seed count, filled in per graph). */
  datatype StubEntry = Options(count: nat) | NotAList

  /** `reduce((val, opts) => val * (Array.isArray(opts) ? opts.length : 1), 1, stub)`. */
  function StubProduct(stub: seq<StubEntry>): nat {
    if stub == [] then 1
    else
      var last := stub[|stub| - 1];
      StubProduct(stub[..|stub| - 1]) * (if last.Options? then last.count else 1)
  }

  /** `reduce((val, graph) => val + perGraph * graph.communities, 0, graphs)`. */
  function TotalSteps(communities: seq<nat>, perGraph: nat): nat {
    if communities == [] then 0
    else TotalSteps(communities[..|communities| - 1], perGraph) + perGraph * communities[|communities| - 1]
  }

  function Sum(s: seq<nat>): nat {
    if s == [] then 0 else s[0] + Sum(s[1..])
  }

  /** The stub of the benchmark (a seed-count entry that is no list, then
      the seed sizes, ratios and structures) multiplies out to the three
      list lengths. */
  lemma StubProductOfBenchmark(sizes: nat, ratios: nat, structures: nat)
    ensures StubProduct([NotAList, Options(sizes), Options(ratios), Options(structures)]) == sizes * ratios * structures
  {
    var stub := [NotAList, Options(sizes), Options(ratios), Options(structures)];
    assert stub[..3] == [NotAList, Options(sizes), Options(ratios)];
    assert stub[..3][..2] == [NotAList, Options(sizes)];
    assert stub[..3][..2][..1] == [NotAList];
    assert stub[..3][..2][..1][..0] == [];
    assert StubProduct([NotAList]) == 1;
    assert StubProduct([NotAList, Options(sizes)]) == sizes;
    assert StubProduct(stub[..3]) == sizes * ratios;
  }

  /** The left fold over the graphs is the per-graph count times the total
      number of ground-truth communities. */
  lemma {:induction false} TotalStepsIsProduct(communities: seq<nat>, perGraph: nat)
    ensures TotalSteps(communities, perGraph) == perGraph * Sum(communities)
    decreases |communities|
  {
    if communities != [] {
      var init := communities[..|communities| - 1];
      var last := communities[|communities| - 1];
      TotalStepsIsProduct(init, perGraph);
      SumSnoc(init, last);
      assert communities == init + [last];
      assert perGraph * (Sum(init) + last) == perGraph * Sum(init) + perGraph * last;
    }
  }

  lemma {:induction false} SumSnoc(s: seq<nat>, x: nat)
    ensures Sum(s + [x]) == Sum(s) + x
    decreases |s|
  {
    if s != [] {
      assert (s + [x])[1..] == s[1..] + [x];
      SumSnoc(s[1..], x);
    } else {
      assert (s + [x])[1..] == [];
    }
  }
}
