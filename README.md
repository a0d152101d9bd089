# Money forecast app — a Dafny model of its sequential logic

The app is a Streamlit page. A user keeps a watchlist of stock tickers and picks one. The page
downloads 90 days of that ticker's price history and shows its last closes. It also shows a
three-day price forecast from a small LSTM and the ticker's recent news headlines. Most of this
work is done by libraries (yfinance, pandas, scikit-learn, Keras). This project models the
parts that have their own stateable logic, over abstract element types and with no floating
point:

- **The history gate and window sampler of `forecast_prices`** (`forecast.dfy`, module
  `Forecasting`). Missing closes are dropped (`dropna`). A history with fewer than 63 closes left
  gives no forecast. A loop over `i in range(60, n - 3)` builds training pairs: 60 consecutive
  scaled values as the input and the next 3 as the target. The model then predicts from the
  final 60 scaled values. The scaler and the model are opaque steps: fields of an `Engine`
  value, each returning `None` where the library call would raise. This matches the function's
  `try/except: return None`. `ForecastPrices` is a method with the sampling loop. Its result is
  tied to the function `Forecast`.
- **The forecast dates** (`calendar.dfy`, module `BusinessDays`). These are
  `pd.date_range(start=last, periods=4, freq='B')[1:]`, where `last` is the date of the last
  non-missing close. Dates are integer day numbers. Day 0 is a Monday and `d % 7 < 5` marks a
  business day (Monday to Friday, no holidays). `ForecastTable` (in `Forecasting`) pairs the dates
  with the prices. The table is shown only when exactly three prices came back.
- **The watchlist** (`watchlist.dfy`, module `Session`). The class `Watchlist` holds the
  session's `seq<string>`. It starts as `["AAPL", "MSFT", "GOOGL"]`. Add upper-cases its input,
  ignores an empty input, and appends the ticker only if it is absent. Otherwise it warns and
  leaves the list unchanged. Remove deletes the first occurrence of the selected ticker.
- **The news filter** (`news.dfy`, module `News`). It looks at the first five articles and keeps,
  in order, those whose title and link are both present and non-empty. Lines 192-196 (the
  ticker's news) and 204-208 (S&P 500 market news) apply this same rule.

`optional.dfy` holds the `Option` type used for Python's `None` and for swallowed exceptions.

Facts about the code that the model keeps as written:

- The loop bound `len(scaled_data) - 3` in `range(60, len(scaled_data) - 3)` is exclusive. A
  series of length `L` therefore yields `L - 63` samples, none for `L = 63`, and the final value is
  never part of a target. `MakeSamples`, `SampleCount`, `SampleIsContiguous` and
  `SamplesAreWindowsBeforeLast` state this.
- The gate is `len(df) < 63` (`MIN_HISTORY := 63`).
- `MinMaxScaler` does not reject a flat series. Here the scaler is opaque and may fail.
- The page's forecast table is `ForecastTable(LastCloseDate(bars), Forecast(bars, e))`, where
  `Forecast` is the result of `ForecastPrices`. `PageForecastTable` states what that composition
  shows.

## Model

| member | source | states |
|---|---|---|
| `Forecasting.Observed` | money_forecast_app.py:121 | `dropna` keeps at most as many rows as the history has |
| `Forecasting.ObservedAppend` | money_forecast_app.py:121 | dropping missing closes works row by row and keeps the history's order (it distributes over concatenation) |
| `Forecasting.ObservedMembers` | money_forecast_app.py:121 | an observation survives exactly when some row has its date and a present close equal to its price |
| `Forecasting.Closes` | money_forecast_app.py:121 | the close column has one price per observed row, in the same order |
| `Forecasting.TrainingInputs` | money_forecast_app.py:128-130 | `X` has `SampleCount(n)` windows of 60 values; the first is the series' first 60 values and consecutive windows overlap in all but one value (the exact position of each is stated by `MakeSamples` and `SamplesAreWindowsBeforeLast`) |
| `Forecasting.TrainingTargets` | money_forecast_app.py:128-131 | `y` has `SampleCount(n)` targets of 3 values; the first starts at position 60 and consecutive targets overlap in all but one value (the exact position of each is stated by `MakeSamples` and `SamplesAreWindowsBeforeLast`) |
| `Forecasting.SampleCount` | money_forecast_app.py:129 | `range(60, n - 3)` has `n - 63` indices for `n >= 63`, and none exactly when `n <= 63` |
| `Forecasting.MakeSamples` | money_forecast_app.py:128-131 | the loop builds exactly `SampleCount(n)` pairs; pair k has input `scaled[k .. k+60]` and target `scaled[k+60 .. k+63]` |
| `Forecasting.SampleIsContiguous` | money_forecast_app.py:129-131 | each sample's input followed by its target is one contiguous stretch of 63 values ending before the final value, so the final value is in no target |
| `Forecasting.SamplesAreWindowsBeforeLast` | money_forecast_app.py:129-131 | a (60, 3) window pair is a sample exactly when its target stays clear of the final value, and then it sits at index `i - 60` |
| `Forecasting.LastWindow` | money_forecast_app.py:143 | `scaled_data[-60:]` is exactly the last 60 values of a series of at least 60; a shorter series is returned whole |
| `Forecasting.LastWindowAfterSamples` | money_forecast_app.py:129-143 | for more than 63 values, the last training input is `scaled[n-64 .. n-4]`, followed only by its 3-value target and the final value, while the inference window is the last 60 values and ends with the final value |
| `Forecasting.Forecast` | money_forecast_app.py:119-148 | the staged result of `forecast_prices`: `None` below 63 non-missing closes; a forecast only after a successful scaling and a successful fit and prediction |
| `Forecasting.ForecastPrices` | money_forecast_app.py:119-148 | fewer than 63 non-missing closes give `None`; otherwise the result is what the staged pipeline `Forecast` yields, with any failing step giving `None` |
| `Forecasting.ShortHistoryIgnoresEngine` | money_forecast_app.py:121-123 | below the gate the result is `None` whatever the scaler and model would do |
| `Forecasting.ForecastShape` | money_forecast_app.py:121-144 | a forecast implies the gate passed and the model was fitted on exactly `n - 63` samples of lengths 60 and 3 and asked to predict from a window of 60 |
| `Forecasting.ObservedLast` | money_forecast_app.py:157 | the last observation comes from a row with a present close after which every close is missing |
| `Forecasting.LastCloseDate` | money_forecast_app.py:157-158 | the forecast's start date is the date of the last row with a present close |
| `Forecasting.ForecastTable` | money_forecast_app.py:157-169 | a table exists exactly when three prices came back; it has 3 rows with those prices in order and strictly increasing business-day dates after the last close; after a business day the first date is the next business day and none is skipped |
| `Forecasting.PageForecastTable` | money_forecast_app.py:156-169 | the page's table exists exactly when the forecast has three prices; it then lists them in order, the history passed the gate, and every date is a business day after the last present close (`LastCloseDate`, the last row with a present close), the first being the next business day when that close is on one |
| `BusinessDays.NextBusinessDay` | money_forecast_app.py:158 | the result is a business day strictly after `d`, with no business day in between |
| `BusinessDays.RollForward` | money_forecast_app.py:158 | the result is the first business day on or after `d` |
| `BusinessDays.DateRange` | money_forecast_app.py:158 | `date_range(start, periods, freq='B')` has `periods` dates; the first is `start` rolled forward and each next one is the business day after the previous |
| `BusinessDays.DateRangeSkipsNone` | money_forecast_app.py:158 | every business day from `start` to the last date of the range is in the range |
| `BusinessDays.ForecastDatesAfterBusinessDay` | money_forecast_app.py:158 | after a close on a business day, the 3 forecast dates are the next three business days, strictly increasing, with none skipped |
| `BusinessDays.ForecastDates` | money_forecast_app.py:158 | for any last date, `date_range(last, 4, 'B')[1:]` gives 3 strictly increasing business days, all after it |
| `BusinessDays.SaturdayLastSkipsMonday` | money_forecast_app.py:158 | a Saturday last date is rolled to Monday, which `[1:]` then drops, so the forecast starts on Tuesday |
| `Session.Upper` | money_forecast_app.py:64 | upper-casing keeps the length and capitalises each ASCII lower-case letter, leaving other characters |
| `Session.UpperIsCanonical` | money_forecast_app.py:64 | an upper-cased ticker has no lower-case letter and upper-casing it again changes nothing |
| `Session.UpperIgnoresCase` | money_forecast_app.py:64 | inputs that differ only in letter case give the same ticker |
| `Session.AfterAdd` | money_forecast_app.py:63-66 | the old list followed by at most one entry, and the upper-cased ticker is listed afterwards unless the input was empty |
| `Session.AddWarning` | money_forecast_app.py:63-68 | the warning comes exactly when a non-empty input leaves the list unchanged, and it reads "`TICKER` is already in your watchlist." |
| `Session.AddKeepsList` | money_forecast_app.py:63-68 | Add keeps the old list as a prefix and grows it by at most the upper-cased ticker, only when that is absent; an empty input changes nothing; afterwards the ticker is listed; a duplicate-free list stays duplicate-free |
| `Session.AddIdempotent` | money_forecast_app.py:63-68 | adding the same input twice equals adding it once, and the second attempt warns |
| `Session.RemoveFirst` | money_forecast_app.py:74 | `list.remove` on a listed ticker (the only case the page reaches; Python raises otherwise) shortens the list by exactly one |
| `Session.FirstIndex` | money_forecast_app.py:74 | the position `list.remove` acts on holds the ticker, and no earlier entry does |
| `Session.RemoveFirstSplits` | money_forecast_app.py:74 | removal cuts out exactly the first occurrence and keeps the other entries in their order |
| `Session.RemoveKeepsDistinct` | money_forecast_app.py:74 | in a duplicate-free list, removing a listed ticker takes it out entirely, keeps every other ticker and keeps the list duplicate-free |
| `Session.Watchlist.constructor` | money_forecast_app.py:53-54 | a new session's watchlist is `["AAPL", "MSFT", "GOOGL"]`, which has no duplicates |
| `Session.Watchlist.Add` | money_forecast_app.py:62-68 | the new list and the warning for each case: empty input, absent ticker (appended), or present ticker (unchanged, with the warning text) |
| `Session.Watchlist.Remove` | money_forecast_app.py:71-74 | the new list is the old one with the entry at the selected ticker's first position cut out, one shorter, and duplicate-free if the old one was |
| `News.Listed` | money_forecast_app.py:193-195 | an article is listed only if its title and link are both present and non-empty |
| `News.HeadlineOf` | money_forecast_app.py:193-196 | the rendered headline carries the article's own title and link, both non-empty |
| `News.KeepListed` | money_forecast_app.py:192-196 | at most one headline per article, each with a non-empty title and link |
| `News.RecentHeadlines` | money_forecast_app.py:192 | at most five headlines are shown |
| `News.KeepListedAppend` | money_forecast_app.py:192-196 | the filter keeps the feed's order (it distributes over concatenation) |
| `News.KeepListedMembers` | money_forecast_app.py:192-196 | a headline is shown exactly when some article has both a title and a link that give it |
| `News.RecentHeadlinesIgnoresTail` | money_forecast_app.py:192 | articles after the fifth never change what is shown |
| `News.AllListedShown` | money_forecast_app.py:192-196 | when every article has a title and a link, all of them are shown, in order |

## Left out

- The Streamlit page itself: CSS, titles, columns, buttons, select boxes and markdown/HTML rendering (lines 9-50, 56-61, 76-103, 160-209). Only the decisions behind them are modelled. A button press is a call to `Add` or `Remove`, and a rendered headline is a `Headline` value.
- `fetch_data` and its `@st.cache_data` (lines 106-116), the price lookups (lines 84-96) and `.news` (lines 113, 201). These are network I/O. A history is an input sequence of `Bar`s and a feed is an input sequence of `Article`s. `LastCloseDate` requires at least one non-missing close, which `fetch_data` guarantees (line 110) before the page gets that far (line 153).
- `MinMaxScaler.fit_transform` and `inverse_transform` (lines 125-126, 145). This is floating-point work done by scikit-learn. It appears as the opaque `Engine` fields `fitTransform` and `inverseTransform`. The lemmas that need a scaler to keep lengths assume it (`KeepsLength`).
- Building, compiling, fitting and predicting with the LSTM (lines 133-144). This is a numeric ML framework. It appears as one opaque `fitPredict` step that may fail. Whether Keras rejects an empty training set (63 closes give zero samples) is not modelled. The reshaping to `(-1, 60, 1)` and the `flatten` calls are only shape bookkeeping over the abstract element type.
- The "Last 3 Closing Prices" table (lines 163-164) and the company-info table with its `:.2f` formatting (lines 177-186). These are presentation, float formatting and lookups in foreign data.
- Session.Upper: models `str.upper` on ASCII letters only. Python also upper-cases non-ASCII letters, sometimes changing the length ('ß' becomes 'SS').
- News.Truthy: treats the value of `article.get(...)` as an optional string. Python's truthiness of non-string values (numbers, lists) is not modelled.
- Session.Watchlist.Remove: requires the selected ticker to be in the list. The select box offers only listed tickers. A ticker that is not listed would make `list.remove` raise, which the page does not handle.
- Dates have no time of day or time zone. A date is a day number whose weekday is `d % 7`.
