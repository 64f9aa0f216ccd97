/** The job-array partitioner: the year-groups × variables job space, its size, and
    the decoding of one linear job-array index into a job descriptor. */
module Partition {
  import opened Wrappers
  import opened Builtins
  import Arith

  /** One job: the years it fetches, the variable, and the pressure levels, which are
      absent (Python's `None`) for a single-level variable. */
  datatype Job<Y, V, L> = Job(years: seq<Y>, variable: V, levels: Option<seq<L>>)

  /** A strategy returns the job count when called without an index and a job
      descriptor when called with one. */
  datatype Answer<Y, V, L> = JobCount(count: nat) | Descriptor(job: Job<Y, V, L>)

  /** The years of `groups` in order, groups laid end to end. */
  function Flatten<Y>(groups: seq<seq<Y>>): seq<Y>
  {
    if |groups| == 0 then [] else Flatten(groups[..|groups| - 1]) + groups[|groups| - 1]
  }

  /** `groups` cuts `years` into consecutive chunks of `n`, only the last one possibly shorter. */
  ghost predicate IsChunking<Y>(groups: seq<seq<Y>>, years: seq<Y>, n: nat)
  {
    && Flatten(groups) == years
    && (forall k :: 0 <= k < |groups| - 1 ==> |groups[k]| == n)
    && (|groups| > 0 ==> 0 < |groups[|groups| - 1]| <= n)
  }

  /** Every year in a group of its own, in order. */
  function SingletonGroups<Y>(years: seq<Y>): (groups: seq<seq<Y>>)
    ensures Flatten(groups) == years
    ensures forall k :: 0 <= k < |groups| ==> |groups[k]| == 1
  {
    var groups := seq(|years|, k requires 0 <= k < |years| => [years[k]]);
    SingletonsFlatten(years, groups, |years|);
    assert groups[..|years|] == groups && years[..|years|] == years;
    groups
  }

  lemma {:induction false} SingletonsFlatten<Y>(years: seq<Y>, groups: seq<seq<Y>>, m: nat)
    requires |groups| == |years| && m <= |years|
    requires forall k :: 0 <= k < |groups| ==> groups[k] == [years[k]]
    ensures Flatten(groups[..m]) == years[..m]
  {
    if m > 0 {
      assert groups[..m][..m - 1] == groups[..m - 1];
      SingletonsFlatten(years, groups, m - 1);
      assert years[..m] == years[..m - 1] + [years[m - 1]];
    }
  }

  /** The years cut into consecutive chunks of `n`: one chunk `years[i:i+n]` per
      start `i` in `range(0, len(years), n)`. A zero `n` makes `range` raise;
      a negative one yields no start and so no chunk. */
  function GroupYears<Y>(years: seq<Y>, n: int): (r: Result<seq<seq<Y>>, Exception>)
    ensures n == 0 <==> r == Failure(ValueError)
    ensures n < 0 ==> r == Success([])
    ensures n > 0 ==> r.Success? && IsChunking(r.value, years, n)
    ensures n > 0 ==> |r.value| == (|years| + n - 1) / n
  {
    match Range(0, |years|, n)
    case Failure(e) => Failure(e)
    case Success(starts) =>
      ChunkStarts(starts, |years|, n);
      var groups := seq(|starts|, k requires 0 <= k < |starts| && n > 0 => Slice(years, starts[k], starts[k] + n));
      ChunksPartition(years, n, starts, groups);
      Success(groups)
  }

  /** The starts `range(0, len, n)` yields: none for a negative `n`, none negative
      for a positive one. */
  lemma ChunkStarts(starts: seq<int>, len: nat, n: int)
    requires n != 0 && IsRange(starts, 0, len, n)
    ensures n < 0 ==> |starts| == 0
    ensures n > 0 ==> forall k :: 0 <= k < |starts| ==> starts[k] >= 0
  {
    if n > 0 {
      ProgressionClosedForm(starts, 0, n);
      forall k | 0 <= k < |starts| ensures starts[k] >= 0 {
        Arith.MulMonotone(0, k, n);
      }
    }
  }

  /** The chunks `years[i:i+n]`, one per start `i` of `range(0, len(years), n)`,
      partition the years, and there are `ceil(len(years) / n)` of them. */
  lemma ChunksPartition<Y>(years: seq<Y>, n: int, starts: seq<int>, groups: seq<seq<Y>>)
    requires n != 0 && IsRange(starts, 0, |years|, n)
    requires n > 0 ==> |groups| == |starts| && forall k :: 0 <= k < |starts| ==> starts[k] >= 0
    requires n > 0 ==> forall k :: 0 <= k < |groups| ==> groups[k] == Slice(years, starts[k], starts[k] + n)
    ensures n > 0 ==> IsChunking(groups, years, n)
    ensures n > 0 ==> |groups| == (|years| + n - 1) / n
  {
    if n < 0 { return; }
    var m := |groups|;
    if m > 0 {
      ChunksFlatten(years, n, starts, groups, m);
      assert groups[..m] == groups;
      assert years[..Arith.Min(starts[m - 1] + n, |years|)] == years;
    }
    ChunkCount(|years|, n, starts);
    ChunkLengths(years, n, starts, groups);
  }

  /** Every chunk but the last is full, and the last is not empty. */
  lemma ChunkLengths<Y>(years: seq<Y>, n: int, starts: seq<int>, groups: seq<seq<Y>>)
    requires n > 0 && IsRange(starts, 0, |years|, n)
    requires |groups| == |starts| && forall k :: 0 <= k < |starts| ==> starts[k] >= 0
    requires forall k :: 0 <= k < |groups| ==> groups[k] == Slice(years, starts[k], starts[k] + n)
    ensures forall k :: 0 <= k < |groups| - 1 ==> |groups[k]| == n
    ensures |groups| > 0 ==> 0 < |groups[|groups| - 1]| <= n
  {
    forall k | 0 <= k < |groups| - 1 ensures |groups[k]| == n {
      assert starts[k] + n == starts[k + 1] < |years|;
    }
  }

  /** The chunks before the last are full, so the count is `ceil(len / n)`. */
  lemma ChunkCount(len: nat, n: int, starts: seq<int>)
    requires n > 0 && IsRange(starts, 0, len, n)
    ensures |starts| == (len + n - 1) / n
  {
    var m := |starts|;
    if m == 0 {
      Arith.DivModUnique(len + n - 1, n, 0, n - 1);
    } else {
      ProgressionClosedForm(starts, 0, n);
      assert starts[m - 1] == (m - 1) * n;
      Arith.DivModUnique(len + n - 1, n, m, len - 1 - (m - 1) * n);
    }
  }

  /** The first `m` chunks laid end to end are the years up to the end of chunk `m - 1`. */
  lemma {:induction false} ChunksFlatten<Y>(years: seq<Y>, n: int, starts: seq<int>, groups: seq<seq<Y>>, m: nat)
    requires n > 0 && IsRange(starts, 0, |years|, n)
    requires |groups| == |starts| && forall k :: 0 <= k < |starts| ==> starts[k] >= 0
    requires forall k :: 0 <= k < |groups| ==> groups[k] == Slice(years, starts[k], starts[k] + n)
    requires 0 < m <= |groups|
    ensures Flatten(groups[..m]) == years[..Arith.Min(starts[m - 1] + n, |years|)]
  {
    if m == 1 {
      assert groups[..1][..0] == [];
    } else {
      assert groups[..m][..m - 1] == groups[..m - 1];
      ChunksFlatten(years, n, starts, groups, m - 1);
      var a, b := Arith.Min(starts[m - 2] + n, |years|), Arith.Min(starts[m - 1] + n, |years|);
      assert groups[m - 1] == years[a..b];
      assert groups[..m] == groups[..m - 1] + [groups[m - 1]];
      FlattenStep(groups[..m - 1], groups[m - 1], years, a, b);
    }
  }

  /** Appending the chunk `years[a..b]` to a flattening of `years[..a]`. */
  lemma FlattenStep<Y>(prefix: seq<seq<Y>>, chunk: seq<Y>, years: seq<Y>, a: int, b: int)
    requires 0 <= a <= b <= |years|
    requires Flatten(prefix) == years[..a] && chunk == years[a..b]
    ensures Flatten(prefix + [chunk]) == years[..b]
  {
    assert (prefix + [chunk])[..|prefix|] == prefix;
    assert years[..b] == years[..a] + years[a..b];
  }

  /** The variable catalogue: single-level variables first, then multi-level ones. */
  function Variables<V>(single: seq<V>, multi: seq<V>): (variables: seq<V>)
    ensures |variables| == |single| + |multi|
    ensures forall p :: 0 <= p < |single| ==> variables[p] == single[p]
    ensures forall p :: |single| <= p < |variables| ==> variables[p] == multi[p - |single|]
  {
    single + multi
  }

  /** Pressure levels of a job on `variable`: none for a single-level variable, the
      caller's levels, whatever they are, otherwise. */
  function LevelsFor<V(==), L>(variable: V, single: seq<V>, levels: Option<seq<L>>): (r: Option<seq<L>>)
    ensures r.None? <==> (exists p :: 0 <= p < |single| && single[p] == variable) || levels.None?
    ensures r.Some? ==> r == levels
  {
    if variable in single then None else levels
  }

  /** The part both strategies share once the year-groups are built: the job count
      without an index; with one, the year-group at `index % len(groups)` and the
      variable at `index // len(groups)` (Python's floor `%` and `//` agree with
      Dafny's for the positive divisor), the variable looked up with Python's
      negative indexing. */
  function Resolve<Y, V(==), L>(groups: seq<seq<Y>>, single: seq<V>, multi: seq<V>,
                                levels: Option<seq<L>>, index: Option<int>): (r: Result<Answer<Y, V, L>, Exception>)
    ensures index.None? ==> r == Success(JobCount(|groups| * (|single| + |multi|)))
    ensures index.Some? && |groups| == 0 ==> r == Failure(ZeroDivisionError)
    ensures index.Some? && |groups| > 0 ==>
      var count := |groups| * (|single| + |multi|);
      (r.Success? <==> -count <= index.value < count) && (r.Failure? ==> r.error == IndexError)
    ensures index.Some? && r.Success? ==>
      && r.value.Descriptor?
      && r.value.job.levels == (if r.value.job.variable in single then None else levels)
  {
    var variables := Variables(single, multi);
    match index
    case None => Success(JobCount(|groups| * |variables|))
    case Some(i) =>
      if |groups| == 0 then Failure(ZeroDivisionError)
      else
        var yindex, vindex := i % |groups|, i / |groups|;
        FloorDivInRange(i, |groups|, |variables|);
        match Index(variables, vindex)
        case Failure(e) => Failure(e)
        case Success(v) => Success(Descriptor(Job(groups[yindex], v, LevelsFor(v, single, levels))))
  }

  /** The quotient `i // g` is a valid Python index into `v` items exactly when `i`
      lies in `[-g*v, g*v)`. */
  lemma FloorDivInRange(i: int, g: int, v: int)
    requires g > 0 && v >= 0
    ensures -v <= i / g < v <==> -(g * v) <= i < g * v
  {
    Arith.DivBounds(i, g);
    var q := i / g;
    if q < v {
      Arith.MulMonotone(q + 1, v, g);
    } else {
      Arith.MulMonotone(v, q, g);
    }
    if -v <= q {
      Arith.MulMonotone(-v, q, g);
    } else {
      Arith.MulMonotone(q + 1, -v, g);
    }
  }

  /** Strategy `single_year_single_var_all_levels`: one year per job. */
  function SingleYear<Y, V(==), L>(years: seq<Y>, single: seq<V>, multi: seq<V>,
                                   levels: Option<seq<L>>, index: Option<int>): (r: Result<Answer<Y, V, L>, Exception>)
    ensures index.None? ==> r == Success(JobCount(|years| * (|single| + |multi|)))
    ensures index.Some? && |years| == 0 ==> r == Failure(ZeroDivisionError)
  {
    Resolve(SingletonGroups(years), single, multi, levels, index)
  }

  /** Strategy `n_years_single_var_all_levels`: `n` consecutive years per job. */
  function NYears<Y, V(==), L>(years: seq<Y>, n: int, single: seq<V>, multi: seq<V>,
                               levels: Option<seq<L>>, index: Option<int>): (r: Result<Answer<Y, V, L>, Exception>)
    ensures n == 0 ==> r == Failure(ValueError)
    ensures n < 0 ==> r == (if index.None? then Success(JobCount(0)) else Failure(ZeroDivisionError))
    ensures n > 0 && index.None? ==> r == Success(JobCount((|years| + n - 1) / n * (|single| + |multi|)))
  {
    match GroupYears(years, n)
    case Failure(e) => Failure(e)
    case Success(groups) => Resolve(groups, single, multi, levels, index)
  }

  /** One year per job is the n-year grouping with `n = 1`, so the two strategies agree. */
  lemma SingleYearIsOneYearChunks<Y, V, L>(years: seq<Y>, single: seq<V>, multi: seq<V>,
                                                levels: Option<seq<L>>, index: Option<int>)
    ensures GroupYears(years, 1) == Success(SingletonGroups(years))
    ensures SingleYear(years, single, multi, levels, index) == NYears(years, 1, single, multi, levels, index)
  {
    var starts := Range(0, |years|, 1).value;
    ProgressionClosedForm(starts, 0, 1);
    var chunks, singles := GroupYears(years, 1).value, SingletonGroups(years);
    assert |chunks| == |singles|;
    forall k | 0 <= k < |chunks| ensures chunks[k] == singles[k] {
      assert starts[k] == k;
      assert chunks[k] == Slice(years, k, k + 1);
    }
    assert chunks == singles;
  }

  /** Every index in `[0, count)` decodes: to the year-group at position `index % G`
      and the variable at position `index / G` of the catalogue (`G` the number of
      groups). */
  lemma DecodeInRange<Y, V, L>(groups: seq<seq<Y>>, single: seq<V>, multi: seq<V>,
                               levels: Option<seq<L>>, index: int)
    requires 0 <= index < |groups| * (|single| + |multi|)
    ensures |groups| > 0 && 0 <= index / |groups| < |single| + |multi|
    ensures var v := Variables(single, multi)[index / |groups|];
      Resolve(groups, single, multi, levels, Some(index))
        == Success(Descriptor(Job(groups[index % |groups|], v, LevelsFor(v, single, levels))))
  {
    var g, n := |groups|, |single| + |multi|;
    FloorDivInRange(index, g, n);
  }

  /** Decoding is onto the grid: the cell of year-group `a` and variable `b` is the
      job of index `b*G + a`, which lies in `[0, count)`. Within the block of
      indices `b*G .. b*G + G - 1` the variable stays `b` while the year-groups
      advance in order. */
  lemma DecodeCell<Y, V, L>(groups: seq<seq<Y>>, single: seq<V>, multi: seq<V>,
                            levels: Option<seq<L>>, a: int, b: int)
    requires 0 <= a < |groups| && 0 <= b < |single| + |multi|
    ensures 0 <= b * |groups| + a < |groups| * (|single| + |multi|)
    ensures var v := Variables(single, multi)[b];
      Resolve(groups, single, multi, levels, Some(b * |groups| + a))
        == Success(Descriptor(Job(groups[a], v, LevelsFor(v, single, levels))))
  {
    var g, n := |groups|, |single| + |multi|;
    var i := b * g + a;
    Arith.MulMonotone(b + 1, n, g);
    Arith.MulMonotone(0, b, g);
    Arith.DivModUnique(i, g, b, a);
    DecodeInRange(groups, single, multi, levels, i);
  }

  /** Decoding is one-to-one on `[0, count)`: when the year-groups are distinct and
      the catalogue names no variable twice, two indices that decode to the same job
      are the same index. */
  lemma DecodeInjective<Y, V, L>(groups: seq<seq<Y>>, single: seq<V>, multi: seq<V>,
                                 levels: Option<seq<L>>, i: int, j: int)
    requires forall a, b :: 0 <= a < b < |groups| ==> groups[a] != groups[b]
    requires var vs := Variables(single, multi);
      forall p, q :: 0 <= p < q < |vs| ==> vs[p] != vs[q]
    requires 0 <= i < |groups| * (|single| + |multi|)
    requires 0 <= j < |groups| * (|single| + |multi|)
    requires Resolve(groups, single, multi, levels, Some(i)) == Resolve(groups, single, multi, levels, Some(j))
    ensures i == j
  {
    DecodeInRange(groups, single, multi, levels, i);
    DecodeInRange(groups, single, multi, levels, j);
    var g := |groups|;
    assert i % g == j % g;
    assert i / g == j / g;
    assert i == (i / g) * g + i % g && j == (j / g) * g + j % g;
  }

  /** Years are the fast axis: index `i + G` has the same year-group as `i` and the
      next variable. */
  lemma NextBlockNextVariable<Y, V, L>(groups: seq<seq<Y>>, single: seq<V>, multi: seq<V>,
                                       levels: Option<seq<L>>, index: int)
    requires 0 <= index && index + |groups| < |groups| * (|single| + |multi|)
    ensures |groups| > 0 && 0 <= index / |groups| < |single| + |multi| - 1
    ensures var years, p := groups[index % |groups|], index / |groups|;
      var v, v' := Variables(single, multi)[p], Variables(single, multi)[p + 1];
      && Resolve(groups, single, multi, levels, Some(index))
           == Success(Descriptor(Job(years, v, LevelsFor(v, single, levels))))
      && Resolve(groups, single, multi, levels, Some(index + |groups|))
           == Success(Descriptor(Job(years, v', LevelsFor(v', single, levels))))
  {
    var g := |groups|;
    assert g > 0;
    var q, r := index / g, index % g;
    Arith.DivModUnique(index + g, g, q + 1, r);
    DecodeInRange(groups, single, multi, levels, index);
    DecodeInRange(groups, single, multi, levels, index + g);
  }

  /** Python quirk: a negative index in `[-count, 0)` does not fail; floor `%`, floor
      `//` and negative list indexing make it decode as `index + count`. */
  lemma NegativeIndexWraps<Y, V, L>(groups: seq<seq<Y>>, single: seq<V>, multi: seq<V>,
                                    levels: Option<seq<L>>, index: int)
    requires -(|groups| * (|single| + |multi|)) <= index < 0
    ensures Resolve(groups, single, multi, levels, Some(index)).Success?
    ensures Resolve(groups, single, multi, levels, Some(index))
         == Resolve(groups, single, multi, levels, Some(index + |groups| * (|single| + |multi|)))
  {
    var g, n := |groups|, |single| + |multi|;
    var i' := index + g * n;
    assert g * n == n * g;
    Arith.DivModUnique(i', g, index / g + n, index % g);
    FloorDivInRange(index, g, n);
    DecodeInRange(groups, single, multi, levels, i');
  }

  /** With disjoint catalogues a job carries no levels exactly when its variable
      position falls among the single-level variables (or the caller gave none). */
  lemma LevelsFollowCatalogue<Y, V, L>(groups: seq<seq<Y>>, single: seq<V>, multi: seq<V>,
                                       levels: Option<seq<L>>, index: int)
    requires forall k :: 0 <= k < |multi| ==> multi[k] !in single
    requires 0 <= index < |groups| * (|single| + |multi|)
    ensures |groups| > 0
    ensures var r := Resolve(groups, single, multi, levels, Some(index));
      && r.Success?
      && r.value.job.levels == (if index / |groups| < |single| then None else levels)
  {
    DecodeInRange(groups, single, multi, levels, index);
  }

  /** With no single-level variables every job carries the caller's levels. */
  lemma NoSingleVariablesKeepLevels<Y, V, L>(groups: seq<seq<Y>>, multi: seq<V>,
                                             levels: Option<seq<L>>, index: int)
    requires 0 <= index < |groups| * |multi|
    ensures var r := Resolve(groups, [], multi, levels, Some(index));
      r.Success? && r.value.job.levels == levels
  {
    DecodeInRange(groups, [], multi, levels, index);
  }

  /** In terms of the year list: index `i` of the n-year strategy fetches the years
      `years[k*n : k*n+n]` with `k = i % G`. */
  lemma NYearsDecode<Y, V, L>(years: seq<Y>, n: int, single: seq<V>, multi: seq<V>,
                              levels: Option<seq<L>>, index: int)
    requires n >= 1
    requires 0 <= index < (|years| + n - 1) / n * (|single| + |multi|)
    ensures var g := (|years| + n - 1) / n;
      && g > 0
      && var k, p := index % g, index / g;
      && 0 <= p < |single| + |multi|
      && var v := Variables(single, multi)[p];
      NYears(years, n, single, multi, levels, Some(index))
        == Success(Descriptor(Job(Slice(years, k * n, k * n + n), v, LevelsFor(v, single, levels))))
  {
    var groups := GroupYears(years, n).value;
    var starts := Range(0, |years|, n).value;
    ProgressionClosedForm(starts, 0, n);
    DecodeInRange(groups, single, multi, levels, index);
    var k := index % |groups|;
    assert starts[k] == k * n;
  }

  /** The worked examples: five years, `t2m` single-level, `u` and `v` multi-level. */
  lemma WorkedExamples(levels: seq<int>)
    ensures SingleYear([2000, 2001, 2002, 2003, 2004], ["t2m"], ["u", "v"], Some(levels), None)
         == Success(JobCount(15))
    ensures SingleYear([2000, 2001, 2002, 2003, 2004], ["t2m"], ["u", "v"], Some(levels), Some(0))
         == Success(Descriptor(Job([2000], "t2m", None)))
    ensures SingleYear([2000, 2001, 2002, 2003, 2004], ["t2m"], ["u", "v"], Some(levels), Some(5))
         == Success(Descriptor(Job([2000], "u", Some(levels))))
    ensures NYears([2000, 2001, 2002, 2003, 2004], 2, ["t2m"], ["u", "v"], Some(levels), None)
         == Success(JobCount(9))
    ensures NYears([2000, 2001, 2002, 2003, 2004], 2, ["t2m"], ["u", "v"], Some(levels), Some(2))
         == Success(Descriptor(Job([2004], "t2m", None)))
    ensures NYears([2000, 2001, 2002, 2003, 2004], 2, ["t2m"], ["u", "v"], Some(levels), Some(9))
         == Failure(IndexError)
  {
    var years := [2000, 2001, 2002, 2003, 2004];
    SingleYearIsOneYearChunks(years, ["t2m"], ["u", "v"], Some(levels), Some(0));
    SingleYearIsOneYearChunks(years, ["t2m"], ["u", "v"], Some(levels), Some(5));
    NYearsDecode(years, 1, ["t2m"], ["u", "v"], Some(levels), 0);
    NYearsDecode(years, 1, ["t2m"], ["u", "v"], Some(levels), 5);
    NYearsDecode(years, 2, ["t2m"], ["u", "v"], Some(levels), 2);
    assert Slice(years, 0, 1) == [2000];
    assert Slice(years, 4, 6) == [2004];
  }
}
