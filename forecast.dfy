/** The forecasting part of the app: `forecast_prices` and the forecast table
    built from its result.  Prices are an abstract type `T`; the scaler and
    the LSTM are opaque steps (see `Engine`). */
module Forecasting {
  import opened Optional
  import opened BusinessDays

  /** Length of one model input (`reshape((-1, 60, 1))`). */
  const WINDOW_LEN: nat := 60
  /** Number of predicted closes (`Dense(3)`). */
  const HORIZON: nat := 3
  /** The history gate: fewer non-missing closes than this give no forecast. */
  const MIN_HISTORY: nat := 63

  /** One row of the downloaded history: its date and its closing price,
      `None` where the close is missing (NaN). */
  datatype Bar<T> = Bar(date: int, close: Option<T>)

  /** A row that survived `dropna()`. */
  datatype Observation<T> = Observation(date: int, price: T)

  /** `data[['Close']].dropna()`: the rows whose close is present, in order. */
  function Observed<T>(bars: seq<Bar<T>>): (r: seq<Observation<T>>)
    ensures |r| <= |bars|
  {
    if bars == [] then []
    else
      var head := if bars[0].close.Some? then [Observation(bars[0].date, bars[0].close.value)] else [];
      head + Observed(bars[1..])
  }

  /** `dropna` works row by row: it distributes over concatenation, so the
      order of the surviving rows is that of the history. */
  lemma {:induction false} ObservedAppend<T>(a: seq<Bar<T>>, b: seq<Bar<T>>)
    ensures Observed(a + b) == Observed(a) + Observed(b)
    decreases |a|
  {
    if a == [] {
      assert a + b == b;
    } else {
      var ab := a + b;
      assert ab[0] == a[0];
      assert ab[1..] == a[1..] + b;
      ObservedAppend(a[1..], b);
      var head := if a[0].close.Some? then [Observation(a[0].date, a[0].close.value)] else [];
      calc {
        Observed(ab);
        head + Observed(a[1..] + b);
        head + (Observed(a[1..]) + Observed(b));
        (head + Observed(a[1..])) + Observed(b);
      }
    }
  }

  /** An observation survives `dropna` exactly when some row carries its date
      and a present close equal to its price. */
  lemma {:induction false} ObservedMembers<T>(bars: seq<Bar<T>>, o: Observation<T>)
    ensures o in Observed(bars) <==> exists i :: 0 <= i < |bars| && bars[i] == Bar(o.date, Some(o.price))
    decreases |bars|
  {
    if bars != [] {
      ObservedMembers(bars[1..], o);
      if o in Observed(bars[1..]) {
        var i :| 0 <= i < |bars[1..]| && bars[1..][i] == Bar(o.date, Some(o.price));
        assert bars[i + 1] == Bar(o.date, Some(o.price));
      }
      if exists i :: 0 <= i < |bars| && bars[i] == Bar(o.date, Some(o.price)) {
        var i :| 0 <= i < |bars| && bars[i] == Bar(o.date, Some(o.price));
        if i > 0 {
          assert bars[1..][i - 1] == Bar(o.date, Some(o.price));
        }
      }
    }
  }

  /** The close column of the observed rows. */
  function Closes<T>(obs: seq<Observation<T>>): (r: seq<T>)
    ensures |r| == |obs|
    ensures forall i :: 0 <= i < |obs| ==> r[i] == obs[i].price
  {
    seq(|obs|, i requires 0 <= i < |obs| => obs[i].price)
  }

  /** Length of `range(60, n - 3)`: the number of training samples built from
      a scaled series of length `n`.  A series of exactly `MIN_HISTORY`
      values gives none; every longer one gives `n - MIN_HISTORY`. */
  function SampleCount(n: nat): (c: nat)
    ensures n >= MIN_HISTORY ==> c == n - MIN_HISTORY
    ensures c == 0 <==> n <= MIN_HISTORY
  {
    if n - HORIZON > WINDOW_LEN then n - HORIZON - WINDOW_LEN else 0
  }

  /** Training inputs `X`: for the k-th loop index `i = 60 + k`, the slice
      `scaled[i - 60 : i]`. */
  function TrainingInputs<T>(scaled: seq<T>): (r: seq<seq<T>>)
    ensures |r| == SampleCount(|scaled|)
    ensures forall k :: 0 <= k < |r| ==> |r[k]| == WINDOW_LEN
    ensures |r| > 0 ==> r[0] == scaled[.. WINDOW_LEN]
    ensures forall k :: 0 <= k < |r| - 1 ==> r[k][1..] == r[k + 1][.. WINDOW_LEN - 1]
  {
    seq(SampleCount(|scaled|), k requires 0 <= k < SampleCount(|scaled|) => scaled[k .. k + WINDOW_LEN])
  }

  /** Training targets `y`: for the k-th loop index `i = 60 + k`, the slice
      `scaled[i : i + 3]`. */
  function TrainingTargets<T>(scaled: seq<T>): (r: seq<seq<T>>)
    ensures |r| == SampleCount(|scaled|)
    ensures forall k :: 0 <= k < |r| ==> |r[k]| == HORIZON
    ensures |r| > 0 ==> r[0] == scaled[WINDOW_LEN .. WINDOW_LEN + HORIZON]
    ensures forall k :: 0 <= k < |r| - 1 ==> r[k][1..] == r[k + 1][.. HORIZON - 1]
  {
    seq(SampleCount(|scaled|), k requires 0 <= k < SampleCount(|scaled|) =>
      scaled[k + WINDOW_LEN .. k + WINDOW_LEN + HORIZON])
  }

  /** The sampling loop of `forecast_prices`: for `i` in `range(60, n - 3)`
      append `scaled[i - 60 : i]` to `X` and `scaled[i : i + 3]` to `y`.
      Sample k's input is the 60 values from position k; its target is the
      3 values right after them. */
  method MakeSamples<T>(scaled: seq<T>) returns (xs: seq<seq<T>>, ys: seq<seq<T>>)
    ensures |xs| == |ys| == SampleCount(|scaled|)
    ensures forall k :: 0 <= k < |xs| ==>
      xs[k] == scaled[k .. k + WINDOW_LEN] &&
      ys[k] == scaled[k + WINDOW_LEN .. k + WINDOW_LEN + HORIZON]
    ensures xs == TrainingInputs(scaled) && ys == TrainingTargets(scaled)
  {
    xs, ys := [], [];
    var i := WINDOW_LEN;
    while i < |scaled| - HORIZON
      invariant WINDOW_LEN <= i
      invariant i <= WINDOW_LEN || i <= |scaled| - HORIZON
      invariant |xs| == |ys| == i - WINDOW_LEN
      invariant forall k :: 0 <= k < |xs| ==>
        xs[k] == scaled[k .. k + WINDOW_LEN] &&
        ys[k] == scaled[k + WINDOW_LEN .. k + WINDOW_LEN + HORIZON]
    {
      xs := xs + [scaled[i - WINDOW_LEN .. i]];
      ys := ys + [scaled[i .. i + HORIZON]];
      i := i + 1;
    }
  }

  /** Each sample is one contiguous stretch of 63 values: the input is its
      first 60, the target the 3 right after, and the stretch ends before the
      final value of the series, which is therefore in no target. */
  lemma SampleIsContiguous<T>(scaled: seq<T>, k: nat)
    requires k < SampleCount(|scaled|)
    ensures k + MIN_HISTORY < |scaled|
    ensures TrainingInputs(scaled)[k] + TrainingTargets(scaled)[k] == scaled[k .. k + MIN_HISTORY]
    ensures TrainingTargets(scaled)[k] == scaled[.. |scaled| - 1][k + WINDOW_LEN .. k + MIN_HISTORY]
  {
    var s := scaled[k .. k + MIN_HISTORY];
    assert TrainingInputs(scaled)[k] == s[.. WINDOW_LEN];
    assert TrainingTargets(scaled)[k] == s[WINDOW_LEN ..];
    assert s[.. WINDOW_LEN] + s[WINDOW_LEN ..] == s;
  }

  /** The samples are every (60, 3) window pair of the series that stays
      clear of its final value: a pair whose target ends at position `e`
      (exclusive) is sample `e - 63` exactly when `e < |scaled|`; the pair
      whose target ends with the final value is not among them. */
  lemma SamplesAreWindowsBeforeLast<T>(scaled: seq<T>, i: int)
    requires WINDOW_LEN <= i && i + HORIZON <= |scaled|
    ensures i + HORIZON < |scaled| <==> i - WINDOW_LEN < |TrainingInputs(scaled)|
    ensures i + HORIZON < |scaled| ==>
      TrainingInputs(scaled)[i - WINDOW_LEN] == scaled[i - WINDOW_LEN .. i] &&
      TrainingTargets(scaled)[i - WINDOW_LEN] == scaled[i .. i + HORIZON]
  {
  }

  /** `scaled_data[-60:]`, the model input at inference time.  A series of at
      least 60 values gives exactly its last 60; a shorter one (which the
      history gate never lets through) gives all of it. */
  function LastWindow<T>(scaled: seq<T>): (r: seq<T>)
    ensures |scaled| >= WINDOW_LEN ==> |r| == WINDOW_LEN && scaled[.. |scaled| - WINDOW_LEN] + r == scaled
    ensures |scaled| < WINDOW_LEN ==> r == scaled
  {
    if |scaled| >= WINDOW_LEN then scaled[|scaled| - WINDOW_LEN ..] else scaled
  }

  /** The last training input is followed by 4 values (its 3-value target and
      the final value); the inference window starts 4 values after it and
      ends with the final value, which no training target ever reaches. */
  lemma LastWindowAfterSamples<T>(scaled: seq<T>)
    requires |scaled| > MIN_HISTORY
    ensures |TrainingInputs(scaled)| == |scaled| - MIN_HISTORY
    ensures LastWindow(scaled) == scaled[|scaled| - WINDOW_LEN ..]
    ensures TrainingInputs(scaled)[|scaled| - MIN_HISTORY - 1] == scaled[|scaled| - WINDOW_LEN - HORIZON - 1 .. |scaled| - HORIZON - 1]
    ensures LastWindow(scaled)[WINDOW_LEN - 1] == scaled[|scaled| - 1]
  {
  }

  /** The library steps `forecast_prices` delegates to, each `None` where the
      library call raises (the `try/except: return None`):
      - `fitTransform`: `MinMaxScaler().fit_transform` of the closes;
      - `fitPredict`: build, compile and fit the LSTM on `(X, y)`, then
        predict from the last window;
      - `inverseTransform`: undo the scaling fitted on the given closes. */
  datatype Engine<!T> = Engine(
    fitTransform: seq<T> -> Option<seq<T>>,
    fitPredict: (seq<seq<T>>, seq<seq<T>>, seq<T>) -> Option<seq<T>>,
    inverseTransform: (seq<T>, seq<T>) -> Option<seq<T>>)

  /** A scaler maps a series to one of equal length. */
  ghost predicate KeepsLength<T(!new)>(e: Engine<T>) {
    forall s :: e.fitTransform(s).Some? ==> |e.fitTransform(s).value| == |s|
  }

  /** What `forecast_prices(data)` returns, stage by stage.  A forecast
      needs at least `MIN_HISTORY` non-missing closes, a successful scaling
      and a successful fit and prediction. */
  function Forecast<T>(bars: seq<Bar<T>>, e: Engine<T>): (r: Option<seq<T>>)
    ensures |Observed(bars)| < MIN_HISTORY ==> r == None
    ensures r.Some? ==> |Observed(bars)| >= MIN_HISTORY && e.fitTransform(Closes(Observed(bars))).Some?
    ensures r.Some? ==> var scaled := e.fitTransform(Closes(Observed(bars))).value;
      e.fitPredict(TrainingInputs(scaled), TrainingTargets(scaled), LastWindow(scaled)).Some?
  {
    var closes := Closes(Observed(bars));
    if |closes| < MIN_HISTORY then None
    else match e.fitTransform(closes)
      case None => None
      case Some(scaled) =>
        match e.fitPredict(TrainingInputs(scaled), TrainingTargets(scaled), LastWindow(scaled))
        case None => None
        case Some(prediction) => e.inverseTransform(closes, prediction)
  }

  /** `forecast_prices`: drop missing closes, give up below the history
      gate, scale, build the samples with the loop, fit and predict from the
      last window, and unscale; any failure gives `None`. */
  method ForecastPrices<T>(bars: seq<Bar<T>>, e: Engine<T>) returns (forecast: Option<seq<T>>)
    ensures |Observed(bars)| < MIN_HISTORY ==> forecast == None
    ensures forecast == Forecast(bars, e)
  {
    var closes := Closes(Observed(bars));
    if |closes| < MIN_HISTORY {
      return None;
    }
    var scaledOrNone := e.fitTransform(closes);
    if scaledOrNone.None? {
      return None;
    }
    var scaled := scaledOrNone.value;
    var xs, ys := MakeSamples(scaled);
    var prediction := e.fitPredict(xs, ys, LastWindow(scaled));
    if prediction.None? {
      return None;
    }
    forecast := e.inverseTransform(closes, prediction.value);
  }

  /** Below the history gate no library step is consulted: the result is
      `None` whatever the engine. */
  lemma ShortHistoryIgnoresEngine<T>(bars: seq<Bar<T>>, e1: Engine<T>, e2: Engine<T>)
    requires |Observed(bars)| < MIN_HISTORY
    ensures Forecast(bars, e1) == None && Forecast(bars, e2) == None
  {
  }

  /** A forecast exists only if the history passed the gate, the scaler
      succeeded, and the model was fitted on exactly `n - 63` samples of
      shape (60, 3) and asked to predict from a window of 60, where `n` is
      the number of non-missing closes. */
  lemma ForecastShape<T(!new)>(bars: seq<Bar<T>>, e: Engine<T>)
    requires KeepsLength(e)
    requires Forecast(bars, e).Some?
    ensures |Observed(bars)| >= MIN_HISTORY
    ensures e.fitTransform(Closes(Observed(bars))).Some?
    ensures var scaled := e.fitTransform(Closes(Observed(bars))).value;
      |scaled| == |Observed(bars)| &&
      |TrainingInputs(scaled)| == |TrainingTargets(scaled)| == |Observed(bars)| - MIN_HISTORY &&
      (forall k :: 0 <= k < |TrainingInputs(scaled)| ==>
        |TrainingInputs(scaled)[k]| == WINDOW_LEN && |TrainingTargets(scaled)[k]| == HORIZON) &&
      |LastWindow(scaled)| == WINDOW_LEN &&
      e.fitPredict(TrainingInputs(scaled), TrainingTargets(scaled), LastWindow(scaled)).Some?
  {
  }

  /** One row of the forecast table. */
  datatype ForecastRow<T> = ForecastRow(date: int, price: T)

  /** The last observation is the last row with a present close. */
  lemma {:induction false} ObservedLast<T>(bars: seq<Bar<T>>)
    requires |Observed(bars)| > 0
    ensures exists i :: (0 <= i < |bars| && bars[i].close.Some? &&
      Observed(bars)[|Observed(bars)| - 1] == Observation(bars[i].date, bars[i].close.value) &&
      forall j :: i < j < |bars| ==> bars[j].close.None?)
    decreases |bars|
  {
    var rest := bars[1..];
    if |Observed(rest)| > 0 {
      ObservedLast(rest);
      var i :| 0 <= i < |rest| && rest[i].close.Some? &&
        Observed(rest)[|Observed(rest)| - 1] == Observation(rest[i].date, rest[i].close.value) &&
        forall j :: i < j < |rest| ==> rest[j].close.None?;
      assert bars[i + 1] == rest[i];
      forall j | i + 1 < j < |bars| ensures bars[j].close.None? {
        assert bars[j] == rest[j - 1];
      }
    } else {
      forall j | 0 < j < |bars| ensures bars[j].close.None? {
        assert bars[j] == rest[j - 1];
        if bars[j].close.Some? {
          ObservedMembers(rest, Observation(bars[j].date, bars[j].close.value));
        }
      }
    }
  }

  /** The date of the last non-missing close (`last_7.index[-1]`): the date
      of a row with a present close after which every close is missing.  The
      download step has already refused a history with no close at all. */
  function LastCloseDate<T>(bars: seq<Bar<T>>): (d: int)
    requires |Observed(bars)| > 0
    ensures exists i :: (0 <= i < |bars| && bars[i].date == d && bars[i].close.Some? &&
      forall j :: i < j < |bars| ==> bars[j].close.None?)
  {
    ObservedLast(bars);
    Observed(bars)[|Observed(bars)| - 1].date
  }

  /** The forecast table for a history whose last non-missing close is on
      `last`: shown only when `forecast_prices` returned three prices
      (`forecast is not None and len(forecast) == 3`), pairing them in order
      with the forecast dates. */
  function ForecastTable<T>(last: int, forecast: Option<seq<T>>): (r: Option<seq<ForecastRow<T>>>)
    ensures r.Some? <==> forecast.Some? && |forecast.value| == HORIZON
    ensures r.Some? ==> (
      && |r.value| == HORIZON
      && (forall i :: 0 <= i < HORIZON ==> r.value[i].price == forecast.value[i])
      && (forall i :: 0 <= i < HORIZON ==> last < r.value[i].date && IsBusinessDay(r.value[i].date))
      && (forall i, j :: 0 <= i < j < HORIZON ==> r.value[i].date < r.value[j].date))
    ensures r.Some? && IsBusinessDay(last) ==> (
      && r.value[0].date == NextBusinessDay(last)
      && forall k :: last < k <= r.value[HORIZON - 1].date && IsBusinessDay(k) ==>
           exists i :: 0 <= i < HORIZON && r.value[i].date == k)
  {
    if forecast.Some? && |forecast.value| == HORIZON then
      var dates := ForecastDates(last);
      var rows := [ForecastRow(dates[0], forecast.value[0]), ForecastRow(dates[1], forecast.value[1]),
                   ForecastRow(dates[2], forecast.value[2])];
      if IsBusinessDay(last) then
        ForecastDatesAfterBusinessDay(last);
        Some(rows)
      else Some(rows)
    else None
  }

  /** The page's forecast table (lines 156-169): its dates are business days
      after the date of the last row with a present close (the next business
      day first, when that close is on one), and a table is shown only for a history
      that passed the gate and a forecast of exactly three prices, which it
      lists in order. */
  lemma PageForecastTable<T>(bars: seq<Bar<T>>, e: Engine<T>)
    requires |Observed(bars)| > 0
    ensures var table := ForecastTable(LastCloseDate(bars), Forecast(bars, e));
      && (table.Some? <==> Forecast(bars, e).Some? && |Forecast(bars, e).value| == HORIZON)
      && (table.Some? ==> (
        && |Observed(bars)| >= MIN_HISTORY
        && |table.value| == HORIZON
        && (forall i :: 0 <= i < HORIZON ==> table.value[i].price == Forecast(bars, e).value[i])
        && (exists j :: 0 <= j < |bars| && bars[j].date == LastCloseDate(bars) && bars[j].close.Some? &&
              forall j' :: j < j' < |bars| ==> bars[j'].close.None?)
        && (forall i :: 0 <= i < HORIZON ==>
              LastCloseDate(bars) < table.value[i].date && IsBusinessDay(table.value[i].date))
        && (IsBusinessDay(LastCloseDate(bars)) ==> table.value[0].date == NextBusinessDay(LastCloseDate(bars)))))
  {
  }
}
