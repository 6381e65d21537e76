/**
 The per-entity plotting rules of the dashboard: `plot_county` and
 `plot_state` choose the x and y arrays and the label of one line, and the
 loop shared by `update_county_plot` and `update_state_plot` turns an
 ordered list of entities into traces, skipping entities without enough
 history and hiding all but the first ten positions.
 */
module Plots {
  import opened Wrappers
  import PySlice

  type Date = string

  /** A county is addressed by its county name and its state name. */
  datatype County = County(county: string, state: string)

  /** The columns of one region's data frame that the plots read. */
  datatype CaseSeries = CaseSeries(date: seq<Date>, cases: seq<int>)

  /**
   What `compute_new_cases(cases, dates, num_days)` returns: the trimmed
   cumulative cases, the new cases per day, and the trimmed dates.
   */
  datatype Rolling = Rolling(cases: seq<int>, newCases: seq<real>, dates: seq<Date>)

  /**
   `compute_new_cases` lives outside this model; it is a parameter, and
   `None` stands for its `NotEnoughCases` exception.
   */
  type NewCasesFn = (seq<int>, seq<Date>, nat) -> Option<Rolling>

  datatype XAxis = CumulativeCases(counts: seq<int>) | Dates(days: seq<Date>)

  /**
   Percent mode plots `new_cases / cases * 100` element-wise in floating
   point; the model records its operands instead of computing it.
   */
  datatype YAxis = NewCases(perDay: seq<real>) | GrowthPercent(newCases: seq<real>, cases: seq<int>)

  datatype Plot = Plot(x: XAxis, y: YAxis, name: string)

  /**
   `NotEnoughCases` is the exception the loop skips; `MissingRegion` is the
   `KeyError` of looking up an entity that the data does not hold, which
   nothing catches.
   */
  datatype PlotError = NotEnoughCases | MissingRegion

  datatype Visibility = Visible | LegendOnly

  datatype Trace = Trace(x: XAxis, y: YAxis, name: string, visible: Visibility)

  /** Traces at positions below this are drawn; the rest are legend-only. */
  const TopN: nat := 10

  /** The axes shared by `plot_county` and `plot_state` once the rolling window is known. */
  function Axes(rw: Rolling, percent: bool, name: string): Plot
  {
    if percent then Plot(Dates(rw.dates), GrowthPercent(rw.newCases, rw.cases), name)
    else Plot(CumulativeCases(rw.cases), NewCases(rw.newCases), name)
  }

  /**
   The axis choice of both plot functions: in percent mode x is the trimmed
   dates and y the growth rate; otherwise x is the trimmed cumulative cases
   and y the new cases per day.
   */
  ghost predicate PlotsWindow(p: Plot, rw: Rolling, percent: bool) {
    if percent then p.x == Dates(rw.dates) && p.y == GrowthPercent(rw.newCases, rw.cases)
    else p.x == CumulativeCases(rw.cases) && p.y == NewCases(rw.newCases)
  }

  /** `plot_county`: `minCases` and `lineweight` are accepted and ignored. */
  function PlotCounty(byCounty: map<County, CaseSeries>, c: County, numDays: nat,
                      minCases: int, lineweight: int, percent: bool, compute: NewCasesFn): (r: Result<Plot, PlotError>)
    ensures c !in byCounty <==> r == Failure(MissingRegion)
    ensures r == Failure(NotEnoughCases) <==>
              c in byCounty && compute(byCounty[c].cases, byCounty[c].date, numDays).None?
    ensures r.Success? ==> c in byCounty && r.value.name == c.county + ", " + c.state
    ensures r.Success? ==> PlotsWindow(r.value, compute(byCounty[c].cases, byCounty[c].date, numDays).value, percent)
  {
    if c !in byCounty then Failure(MissingRegion)
    else
      var data := byCounty[c];
      match compute(data.cases, data.date, numDays)
      case None => Failure(NotEnoughCases)
      case Some(rw) => Success(Axes(rw, percent, c.county + ", " + c.state))
  }

  /** `plot_state`: as `PlotCounty`, labelled with the state's own name. */
  function PlotState(byState: map<string, CaseSeries>, state: string, numDays: nat,
                     minCases: int, lineweight: int, percent: bool, compute: NewCasesFn): (r: Result<Plot, PlotError>)
    ensures state !in byState <==> r == Failure(MissingRegion)
    ensures r == Failure(NotEnoughCases) <==>
              state in byState && compute(byState[state].cases, byState[state].date, numDays).None?
    ensures r.Success? ==> state in byState && r.value.name == state
    ensures r.Success? ==> PlotsWindow(r.value, compute(byState[state].cases, byState[state].date, numDays).value, percent)
  {
    if state !in byState then Failure(MissingRegion)
    else
      var data := byState[state];
      match compute(data.cases, data.date, numDays)
      case None => Failure(NotEnoughCases)
      case Some(rw) => Success(Axes(rw, percent, state))
  }

  /** What a successful plot at a given position of the loop adds to the figure. */
  function TraceAt(p: Plot, i: nat): (t: Trace)
    ensures t.x == p.x && t.y == p.y && t.name == p.name
    ensures t.visible == Visible <==> i < TopN
  {
    Trace(p.x, p.y, p.name, if i < TopN then Visible else LegendOnly)
  }

  /** Positions `j >= i` of `order` whose plot succeeds, in increasing order. */
  function Kept<E>(order: seq<E>, plot: E -> Result<Plot, PlotError>, i: nat): (ks: seq<nat>)
    requires i <= |order|
    ensures forall k :: 0 <= k < |ks| ==> i <= ks[k] < |order| && plot(order[ks[k]]).Success?
    ensures forall k, k' :: 0 <= k < k' < |ks| ==> ks[k] < ks[k']
    ensures forall j :: i <= j < |order| && plot(order[j]).Success? ==> j in ks
    decreases |order| - i
  {
    if i == |order| then []
    else if plot(order[i]).Success? then [i] + Kept(order, plot, i + 1)
    else Kept(order, plot, i + 1)
  }

  /** Some position from `i` on raises the uncaught `KeyError`. */
  predicate AnyMissing<E>(order: seq<E>, plot: E -> Result<Plot, PlotError>, i: nat)
    requires i <= |order|
  {
    exists j :: i <= j < |order| && plot(order[j]) == Failure(MissingRegion)
  }

  /**
   The loop `for i, e in enumerate(order)` from position `i` on: a skipped
   entity still advances the position, and a `KeyError` abandons the figure.
   */
  function TracesFrom<E>(order: seq<E>, plot: E -> Result<Plot, PlotError>, i: nat): (r: Result<seq<Trace>, PlotError>)
    requires i <= |order|
    ensures r.Failure? <==> AnyMissing(order, plot, i)
    ensures r.Failure? ==> r.error == MissingRegion
    ensures r.Success? ==>
              var ks := Kept(order, plot, i);
              |r.value| == |ks| &&
              forall k :: 0 <= k < |ks| ==> r.value[k] == TraceAt(plot(order[ks[k]]).value, ks[k])
    decreases |order| - i
  {
    if i == |order| then Success([])
    else
      var rest := TracesFrom(order, plot, i + 1);
      KeptStep(order, plot, i);
      AnyMissingStep(order, plot, i);
      match plot(order[i])
      case Failure(NotEnoughCases) => rest
      case Failure(MissingRegion) => Failure(MissingRegion)
      case Success(p) =>
        if rest.Failure? then rest
        else
          PrependTrace(order, plot, i, TraceAt(p, i), rest.value);
          Success([TraceAt(p, i)] + rest.value)
  }

  /** One step of `Kept`: position `i` is kept in front exactly when its plot succeeds. */
  lemma KeptStep<E>(order: seq<E>, plot: E -> Result<Plot, PlotError>, i: nat)
    requires i < |order|
    ensures plot(order[i]).Success? ==> Kept(order, plot, i) == [i] + Kept(order, plot, i + 1)
    ensures !plot(order[i]).Success? ==> Kept(order, plot, i) == Kept(order, plot, i + 1)
  {
  }

  lemma AnyMissingStep<E>(order: seq<E>, plot: E -> Result<Plot, PlotError>, i: nat)
    requires i < |order|
    ensures AnyMissing(order, plot, i) <==> plot(order[i]) == Failure(MissingRegion) || AnyMissing(order, plot, i + 1)
  {
    if AnyMissing(order, plot, i) && plot(order[i]) != Failure(MissingRegion) {
      var j :| i <= j < |order| && plot(order[j]) == Failure(MissingRegion);
      assert j != i;
    }
  }

  /** Putting position `i`'s trace in front of the traces of the later kept positions. */
  lemma PrependTrace<E>(order: seq<E>, plot: E -> Result<Plot, PlotError>, i: nat, t: Trace, ts: seq<Trace>)
    requires i < |order| && plot(order[i]).Success? && t == TraceAt(plot(order[i]).value, i)
    requires var ks := Kept(order, plot, i + 1);
             |ts| == |ks| && forall k :: 0 <= k < |ks| ==> ts[k] == TraceAt(plot(order[ks[k]]).value, ks[k])
    ensures var ks := Kept(order, plot, i);
            |[t] + ts| == |ks| && forall k :: 0 <= k < |ks| ==> ([t] + ts)[k] == TraceAt(plot(order[ks[k]]).value, ks[k])
  {
    KeptStep(order, plot, i);
    var ks := Kept(order, plot, i);
    var rest := Kept(order, plot, i + 1);
    forall k | 0 <= k < |ks|
      ensures ([t] + ts)[k] == TraceAt(plot(order[ks[k]]).value, ks[k])
    {
      if k > 0 {
        assert ks[k] == rest[k - 1];
      }
    }
  }

  /** The traces the loop adds for the whole ordered list. */
  function Traces<E>(order: seq<E>, plot: E -> Result<Plot, PlotError>): (r: Result<seq<Trace>, PlotError>)
    ensures r.Failure? <==> AnyMissing(order, plot, 0)
    ensures r.Success? ==>
              var ks := Kept(order, plot, 0);
              |r.value| == |ks| &&
              forall k :: 0 <= k < |ks| ==> r.value[k] == TraceAt(plot(order[ks[k]]).value, ks[k])
  {
    TracesFrom(order, plot, 0)
  }

  /** The `min_cases` and `lineweight` arguments do not influence the plotted line. */
  lemma PlotIgnoresStyle(byCounty: map<County, CaseSeries>, c: County, byState: map<string, CaseSeries>, state: string,
                         numDays: nat, m1: int, l1: int, m2: int, l2: int, percent: bool, compute: NewCasesFn)
    ensures PlotCounty(byCounty, c, numDays, m1, l1, percent, compute) == PlotCounty(byCounty, c, numDays, m2, l2, percent, compute)
    ensures PlotState(byState, state, numDays, m1, l1, percent, compute) == PlotState(byState, state, numDays, m2, l2, percent, compute)
  {
  }

  /**
   The successful positions before `n` are a prefix of all successful
   positions, and every later one is at least `n`.
   */
  lemma {:induction false} KeptPrefix<E>(order: seq<E>, plot: E -> Result<Plot, PlotError>, n: nat, i: nat)
    requires i <= n <= |order|
    ensures var ks, ps := Kept(order, plot, i), Kept(order[..n], plot, i);
            |ps| <= |ks| && ps == ks[..|ps|] && forall k :: |ps| <= k < |ks| ==> ks[k] >= n
    decreases n - i
  {
    if i < n {
      KeptPrefix(order, plot, n, i + 1);
      assert order[..n][i] == order[i];
    }
  }

  /**
   A trace is drawn exactly when it is among those produced by the first
   ten positions; so drawn traces precede legend-only ones, and an entity
   skipped among the first ten still uses up one of the ten positions.
   */
  lemma VisibleIffTopPosition<E>(order: seq<E>, plot: E -> Result<Plot, PlotError>)
    requires !AnyMissing(order, plot, 0)
    ensures var ts := Traces(order, plot).value;
            var top := Kept(PySlice.Take(order, TopN), plot, 0);
            |top| <= |ts| &&
            forall k :: 0 <= k < |ts| ==> (ts[k].visible == Visible <==> k < |top|)
  {
    var ks := Kept(order, plot, 0);
    var n := if |order| < TopN then |order| else TopN;
    KeptPrefix(order, plot, n, 0);
    var top := Kept(order[..n], plot, 0);
    forall k | 0 <= k < |ks|
      ensures ks[k] < TopN <==> k < |top|
    {
      if k < |top| {
        assert ks[k] == top[k];
      }
    }
  }

  /**
   Eleven entities, the first of which has too little history: ten traces
   result, and the last of them is legend-only although it is only the
   tenth trace, because the skipped entity kept its position.
   */
  lemma SkippedEntityKeepsPosition<E>(order: seq<E>, plot: E -> Result<Plot, PlotError>)
    requires |order| == 11
    requires plot(order[0]) == Failure(NotEnoughCases)
    requires forall i :: 1 <= i < 11 ==> plot(order[i]).Success?
    ensures Traces(order, plot).Success?
    ensures |Traces(order, plot).value| == 10
    ensures Traces(order, plot).value[9].visible == LegendOnly
    ensures Traces(order, plot).value[8].visible == Visible
  {
    KeptAll(order, plot, 1);
  }

  /** When every position from `i` on succeeds, all of them are kept. */
  lemma {:induction false} KeptAll<E>(order: seq<E>, plot: E -> Result<Plot, PlotError>, i: nat)
    requires i <= |order|
    requires forall j :: i <= j < |order| ==> plot(order[j]).Success?
    ensures |Kept(order, plot, i)| == |order| - i
    ensures forall k :: 0 <= k < |order| - i ==> Kept(order, plot, i)[k] == i + k
    decreases |order| - i
  {
    if i < |order| {
      KeptAll(order, plot, i + 1);
      var rest := Kept(order, plot, i + 1);
      assert Kept(order, plot, i) == [i] + rest;
    }
  }
}
