/**
 `update_county_plot` and `update_state_plot`: the order in which regions
 are drawn, and the traces that order produces. The ranking by case count
 (`counties_by_num_cases`, `states_by_num_cases`) lives outside this model
 and arrives as the `ranked` input.
 */
module Figures {
  import opened Wrappers
  import opened PySlice
  import Sorting
  import TextOrder
  import PyText
  import opened Plots

  /** At most this many counties are drawn. */
  const CountyLimit: nat := 200

  /** The window width both figures ask of `compute_new_cases`. */
  const NumDays: nat := 5

  /** `f"{x[0], x[1]}"`: the text of the pair `(county, state)`. */
  function CountyKey(c: County): (k: string)
    ensures PyText.PlainName(c.county) && PyText.PlainName(c.state) ==> k == "('" + c.county + "', '" + c.state + "')"
  {
    PyText.PlainPairStr(c.county, c.state);
    PyText.PairStr(c.county, c.state)
  }

  /** Different counties never share a key, so sorting by it leaves no ties to break. */
  lemma CountyKeyInjective(c: County, d: County)
    ensures CountyKey(c) == CountyKey(d) ==> c == d
  {
    PyText.PairStrInjective(c.county, c.state, d.county, d.state);
  }

  /** States sort by their own names. */
  function StateKey(s: string): string {
    s
  }

  /**
   The first ten ranked counties in rank order, then ranked counties 10 to
   199 sorted by their key; ranked counties from 200 on are dropped.
   */
  function CountyOrder(ranked: seq<County>): (r: seq<County>)
    ensures |r| == Min(CountyLimit, |ranked|)
    ensures Take(r, TopN) == Take(ranked, TopN)
    ensures Sorting.SortedBy(Drop(r, TopN), CountyKey, TextOrder.LexLe)
    ensures multiset(Drop(r, TopN)) == multiset(Slice(ranked, TopN, CountyLimit))
    ensures multiset(r) == multiset(Take(ranked, CountyLimit))
  {
    var head := Take(ranked, TopN);
    TextOrder.LexLeTotalOrder();
    var tail := Sorting.SortBy(Slice(ranked, TopN, CountyLimit), CountyKey, TextOrder.LexLe);
    var r := head + tail;
    assert Take(r, TopN) == head;
    assert Drop(r, TopN) == tail;
    TakeSliceCover(ranked, TopN, CountyLimit);
    r
  }

  /**
   The first ten ranked states in rank order, then all the other states in
   ascending order of name; nothing is dropped.
   */
  function StateOrder(ranked: seq<string>): (r: seq<string>)
    ensures |r| == |ranked|
    ensures Take(r, TopN) == Take(ranked, TopN)
    ensures Sorting.SortedBy(Drop(r, TopN), StateKey, TextOrder.LexLe)
    ensures multiset(Drop(r, TopN)) == multiset(Drop(ranked, TopN))
    ensures multiset(r) == multiset(ranked)
  {
    var head := Take(ranked, TopN);
    TextOrder.LexLeTotalOrder();
    var tail := Sorting.SortBy(Drop(ranked, TopN), StateKey, TextOrder.LexLe);
    var r := head + tail;
    assert Take(r, TopN) == head;
    assert Drop(r, TopN) == tail;
    TakeDropCover(ranked, TopN);
    r
  }

  /**
   Any arrangement that keeps the top ten and sorts counties 10 to 199 by
   key is `CountyOrder`: since no two counties share a key, the sort has no
   ties and stability never comes into play.
   */
  lemma CountyOrderUnique(ranked: seq<County>, other: seq<County>)
    requires Take(other, TopN) == Take(ranked, TopN)
    requires Sorting.SortedBy(Drop(other, TopN), CountyKey, TextOrder.LexLe)
    requires multiset(Drop(other, TopN)) == multiset(Slice(ranked, TopN, CountyLimit))
    ensures other == CountyOrder(ranked)
  {
    var r := CountyOrder(ranked);
    var a := Drop(r, TopN);
    forall i, j | 0 <= i < |a| && 0 <= j < |a| && CountyKey(a[i]) == CountyKey(a[j])
      ensures a[i] == a[j]
    {
      CountyKeyInjective(a[i], a[j]);
    }
    TextOrder.LexLeTotalOrder();
    Sorting.SortedPermutationUnique(a, Drop(other, TopN), CountyKey, TextOrder.LexLe);
    TakeDropCover(other, TopN);
    TakeDropCover(r, TopN);
  }

  /** Any arrangement that keeps the top ten and sorts the other states is `StateOrder`. */
  lemma StateOrderUnique(ranked: seq<string>, other: seq<string>)
    requires Take(other, TopN) == Take(ranked, TopN)
    requires Sorting.SortedBy(Drop(other, TopN), StateKey, TextOrder.LexLe)
    requires multiset(Drop(other, TopN)) == multiset(Drop(ranked, TopN))
    ensures other == StateOrder(ranked)
  {
    var r := StateOrder(ranked);
    TextOrder.LexLeTotalOrder();
    Sorting.SortedPermutationUnique(Drop(r, TopN), Drop(other, TopN), StateKey, TextOrder.LexLe);
    TakeDropCover(other, TopN);
    TakeDropCover(r, TopN);
  }

  /** Without duplicates among the first 200 ranked counties, none appear in the order either. */
  lemma CountyOrderDistinct(ranked: seq<County>)
    requires Distinct(Take(ranked, CountyLimit))
    ensures Distinct(CountyOrder(ranked))
  {
    PermutationKeepsDistinct(Take(ranked, CountyLimit), CountyOrder(ranked));
  }

  ghost predicate Distinct<T>(s: seq<T>) {
    forall i, j :: 0 <= i < j < |s| ==> s[i] != s[j]
  }

  lemma PermutationKeepsDistinct<T>(a: seq<T>, b: seq<T>)
    requires Distinct(a) && multiset(a) == multiset(b)
    ensures Distinct(b)
  {
    forall i, j | 0 <= i < j < |b|
      ensures b[i] != b[j]
    {
      if b[i] == b[j] {
        RepeatCountsTwice(b, i, j);
        CountAtMostOne(a, b[i]);
      }
    }
  }

  lemma RepeatCountsTwice<T>(s: seq<T>, i: nat, j: nat)
    requires i < j < |s| && s[i] == s[j]
    ensures multiset(s)[s[i]] >= 2
  {
    assert s == s[..j] + s[j..];
    assert s[..j][i] == s[i];
    assert s[j..][0] == s[j];
    assert multiset(s) == multiset(s[..j]) + multiset(s[j..]);
  }

  lemma {:induction false} CountAtMostOne<T>(p: seq<T>, e: T)
    requires Distinct(p)
    ensures multiset(p)[e] <= 1
    decreases |p|
  {
    if |p| > 0 {
      CountAtMostOne(p[1..], e);
      assert p == [p[0]] + p[1..];
      if p[0] == e {
        assert e !in p[1..];
      }
    }
  }

  /**
   The per-county plot of `update_county_plot`: a five-day window, with the
   `min_cases=300` and `lineweight=2` arguments, which change nothing.
   */
  function CountyPlotter(byCounty: map<County, CaseSeries>, percent: bool, compute: NewCasesFn): (plot: County -> Result<Plot, PlotError>)
    ensures forall c :: plot(c) == PlotCounty(byCounty, c, 5, 300, 2, percent, compute)
    ensures forall c, minCases: int, lineweight: int :: plot(c) == PlotCounty(byCounty, c, 5, minCases, lineweight, percent, compute)
  {
    c => PlotCounty(byCounty, c, NumDays, 300, 2, percent, compute)
  }

  /**
   The per-state plot of `update_state_plot`: a five-day window, the default
   `min_cases=10` and `lineweight=1`, which change nothing.
   */
  function StatePlotter(byState: map<string, CaseSeries>, percent: bool, compute: NewCasesFn): (plot: string -> Result<Plot, PlotError>)
    ensures forall s :: plot(s) == PlotState(byState, s, 5, 10, 1, percent, compute)
    ensures forall s, minCases: int, lineweight: int :: plot(s) == PlotState(byState, s, 5, minCases, lineweight, percent, compute)
  {
    s => PlotState(byState, s, NumDays, 10, 1, percent, compute)
  }

  ghost predicate HasTraceNamed(ts: seq<Trace>, name: string) {
    exists k :: 0 <= k < |ts| && ts[k].name == name
  }

  /** The `county, state` label `plot_county` gives a county. */
  function CountyLabel(c: County): string {
    c.county + ", " + c.state
  }

  /** `name` is the label `nameOf` gives some entity of `pool`. */
  ghost predicate LabelOf<E>(name: string, pool: seq<E>, nameOf: E -> string) {
    exists e :: e in pool && name == nameOf(e)
  }

  /** `name` is the label of a successful plot of an entity of `pool`. */
  ghost predicate PlottedFrom<E>(name: string, pool: seq<E>, plot: E -> Result<Plot, PlotError>) {
    exists e :: e in pool && plot(e).Success? && plot(e).value.name == name
  }

  /** Some entity of `pool` is absent from the data. */
  ghost predicate MissingFrom<E>(pool: seq<E>, plot: E -> Result<Plot, PlotError>) {
    exists e :: e in pool && plot(e) == Failure(MissingRegion)
  }

  /**
   The traces of `update_county_plot`: the loop over `CountyOrder`, cut at
   200. It fails only on a ranked county the data does not hold; otherwise
   every county among the first 200 ranked with enough history yields one
   trace under its label, no other trace appears, and exactly the traces
   from the first ten ranked counties are drawn.
   */
  function UpdateCountyPlot(percent: bool, byCounty: map<County, CaseSeries>, ranked: seq<County>, compute: NewCasesFn): (r: Result<seq<Trace>, PlotError>)
    ensures r == Traces(CountyOrder(ranked), CountyPlotter(byCounty, percent, compute))
    ensures r.Failure? <==> exists c :: c in Take(ranked, CountyLimit) && c !in byCounty
    ensures r.Success? ==>
              forall c :: c in Take(ranked, CountyLimit) && PlotCounty(byCounty, c, NumDays, 300, 2, percent, compute).Success? ==>
                HasTraceNamed(r.value, CountyLabel(c))
    ensures r.Success? ==> forall k :: 0 <= k < |r.value| ==> LabelOf(r.value[k].name, Take(ranked, CountyLimit), CountyLabel)
    ensures r.Success? ==>
              var top := Kept(Take(ranked, TopN), CountyPlotter(byCounty, percent, compute), 0);
              |top| <= |r.value| &&
              forall k :: 0 <= k < |r.value| ==> (r.value[k].visible == Visible <==> k < |top|)
  {
    var order := Take(CountyOrder(ranked), CountyLimit);
    var plot := CountyPlotter(byCounty, percent, compute);
    assert order == CountyOrder(ranked);
    assert Take(order, TopN) == Take(ranked, TopN);
    OrderedTraces(order, Take(ranked, CountyLimit), plot);
    LabelledTraces(Traces(order, plot), Take(ranked, CountyLimit), plot, c => c in byCounty, CountyLabel);
    Traces(order, plot)
  }

  /**
   Restates the generic facts about the loop for a plot function that fails
   exactly on entities outside the data and labels each entity by `nameOf`.
   */
  lemma LabelledTraces<E>(r: Result<seq<Trace>, PlotError>, pool: seq<E>, plot: E -> Result<Plot, PlotError>,
                          inData: E -> bool, nameOf: E -> string)
    requires forall e :: plot(e) == Failure(MissingRegion) <==> !inData(e)
    requires forall e :: plot(e).Success? ==> plot(e).value.name == nameOf(e)
    requires r.Failure? <==> MissingFrom(pool, plot)
    requires r.Success? ==> forall e :: e in pool && plot(e).Success? ==> HasTraceNamed(r.value, plot(e).value.name)
    requires r.Success? ==> forall k :: 0 <= k < |r.value| ==> PlottedFrom(r.value[k].name, pool, plot)
    ensures r.Failure? <==> exists e :: e in pool && !inData(e)
    ensures r.Success? ==> forall e :: e in pool && plot(e).Success? ==> HasTraceNamed(r.value, nameOf(e))
    ensures r.Success? ==> forall k :: 0 <= k < |r.value| ==> LabelOf(r.value[k].name, pool, nameOf)
  {
    if MissingFrom(pool, plot) {
      var e :| e in pool && plot(e) == Failure(MissingRegion);
      assert !inData(e);
    }
    if exists e :: e in pool && !inData(e) {
      var e :| e in pool && !inData(e);
      assert plot(e) == Failure(MissingRegion);
    }
    if r.Success? {
      forall k | 0 <= k < |r.value|
        ensures LabelOf(r.value[k].name, pool, nameOf)
      {
        assert PlottedFrom(r.value[k].name, pool, plot);
        var e :| e in pool && plot(e).Success? && plot(e).value.name == r.value[k].name;
        assert r.value[k].name == nameOf(e);
      }
    }
  }

  /**
   The traces of `update_state_plot`: the loop over `StateOrder`; as for
   counties, over every ranked state, each trace named after its state.
   */
  function UpdateStatePlot(percent: bool, byState: map<string, CaseSeries>, ranked: seq<string>, compute: NewCasesFn): (r: Result<seq<Trace>, PlotError>)
    ensures r == Traces(StateOrder(ranked), StatePlotter(byState, percent, compute))
    ensures r.Failure? <==> exists s :: s in ranked && s !in byState
    ensures r.Success? ==>
              forall s :: s in ranked && PlotState(byState, s, NumDays, 10, 1, percent, compute).Success? ==>
                HasTraceNamed(r.value, s)
    ensures r.Success? ==> forall k :: 0 <= k < |r.value| ==> LabelOf(r.value[k].name, ranked, StateKey)
    ensures r.Success? ==>
              var top := Kept(Take(ranked, TopN), StatePlotter(byState, percent, compute), 0);
              |top| <= |r.value| &&
              forall k :: 0 <= k < |r.value| ==> (r.value[k].visible == Visible <==> k < |top|)
  {
    var order := StateOrder(ranked);
    var plot := StatePlotter(byState, percent, compute);
    OrderedTraces(order, ranked, plot);
    LabelledTraces(Traces(order, plot), ranked, plot, s => s in byState, StateKey);
    Traces(order, plot)
  }

  /**
   The loop over an order holding the same entities as `pool`: the figure
   fails exactly on an entity the data lacks; otherwise each entity with a
   successful plot has a trace under its label, every trace comes from such
   an entity, and the drawn traces are those of the first ten positions.
   */
  lemma OrderedTraces<E>(order: seq<E>, pool: seq<E>, plot: E -> Result<Plot, PlotError>)
    requires multiset(order) == multiset(pool)
    ensures Traces(order, plot).Failure? <==> MissingFrom(pool, plot)
    ensures var r := Traces(order, plot);
            r.Success? ==> forall e :: e in pool && plot(e).Success? ==> HasTraceNamed(r.value, plot(e).value.name)
    ensures var r := Traces(order, plot);
            r.Success? ==> forall k :: 0 <= k < |r.value| ==> PlottedFrom(r.value[k].name, pool, plot)
    ensures var r := Traces(order, plot);
            var top := Kept(Take(order, TopN), plot, 0);
            r.Success? ==> |top| <= |r.value| && forall k :: 0 <= k < |r.value| ==> (r.value[k].visible == Visible <==> k < |top|)
  {
    MissingInPool(order, pool, plot);
    if !AnyMissing(order, plot, 0) {
      var ts := Traces(order, plot).value;
      forall e | e in pool && plot(e).Success?
        ensures HasTraceNamed(ts, plot(e).value.name)
      {
        assert e in multiset(order);
        PlotHasTrace(order, plot, e);
      }
      forall k | 0 <= k < |ts|
        ensures PlottedFrom(ts[k].name, pool, plot)
      {
        TraceHasPlot(order, plot, k);
        var e :| e in order && plot(e).Success? && ts[k].name == plot(e).value.name;
        assert e in multiset(pool);
      }
      VisibleIffTopPosition(order, plot);
    }
  }

  lemma MissingInPool<E>(order: seq<E>, pool: seq<E>, plot: E -> Result<Plot, PlotError>)
    requires multiset(order) == multiset(pool)
    ensures AnyMissing(order, plot, 0) <==> MissingFrom(pool, plot)
  {
    if AnyMissing(order, plot, 0) {
      var j :| 0 <= j < |order| && plot(order[j]) == Failure(MissingRegion);
      assert order[j] in multiset(pool);
    }
    if MissingFrom(pool, plot) {
      var e :| e in pool && plot(e) == Failure(MissingRegion);
      assert e in multiset(order);
      var j :| 0 <= j < |order| && order[j] == e;
    }
  }

  /** An entity of the order whose plot succeeds has a trace carrying its plot's label. */
  lemma PlotHasTrace<E>(order: seq<E>, plot: E -> Result<Plot, PlotError>, e: E)
    requires !AnyMissing(order, plot, 0)
    requires e in order && plot(e).Success?
    ensures HasTraceNamed(Traces(order, plot).value, plot(e).value.name)
  {
    var ts := Traces(order, plot).value;
    var ks := Kept(order, plot, 0);
    var j :| 0 <= j < |order| && order[j] == e;
    assert j in ks;
    var k :| 0 <= k < |ks| && ks[k] == j;
    assert ts[k] == TraceAt(plot(e).value, j);
  }

  /** Every trace carries the label of an entity of the order whose plot succeeds. */
  lemma TraceHasPlot<E>(order: seq<E>, plot: E -> Result<Plot, PlotError>, k: nat)
    requires !AnyMissing(order, plot, 0)
    requires k < |Traces(order, plot).value|
    ensures PlottedFrom(Traces(order, plot).value[k].name, order, plot)
  {
    var ts := Traces(order, plot).value;
    var ks := Kept(order, plot, 0);
    var e := order[ks[k]];
    assert ts[k] == TraceAt(plot(e).value, ks[k]);
    assert e in order && plot(e).Success? && ts[k].name == plot(e).value.name;
  }
}
