/** Business days as used by `pd.date_range(..., freq='B')`: Monday to Friday,
    no holiday calendar.  A date is an integer day number; day 0 is a Monday,
    so `d % 7` is the weekday (0 = Monday, ..., 4 = Friday, 5 = Saturday,
    6 = Sunday).  Dafny's `%` is Euclidean, so this holds for negative days too. */
module BusinessDays {

  predicate IsBusinessDay(d: int) {
    d % 7 < 5
  }

  /** The first business day strictly after `d` (one `BDay` step). */
  function NextBusinessDay(d: int): (r: int)
    ensures d < r && IsBusinessDay(r)
    ensures forall k :: d < k < r ==> !IsBusinessDay(k)
  {
    if d % 7 == 4 then d + 3        // Friday -> Monday
    else if d % 7 == 5 then d + 2   // Saturday -> Monday
    else d + 1
  }

  /** `BDay().rollforward(d)`: `d` itself if it is a business day, otherwise
      the next one. */
  function RollForward(d: int): (r: int)
    ensures d <= r && IsBusinessDay(r)
    ensures forall k :: d <= k < r ==> !IsBusinessDay(k)
  {
    if IsBusinessDay(d) then d else NextBusinessDay(d)
  }

  /** `pd.date_range(start=start, periods=periods, freq='B')`: a start that is
      not a business day is first rolled forward, then each date is the
      business day after the previous one.  With the contracts of
      `RollForward` and `NextBusinessDay` this says the result is exactly the
      first `periods` business days on or after `start`, in order. */
  function DateRange(start: int, periods: nat): (r: seq<int>)
    ensures |r| == periods
    ensures periods > 0 ==> r[0] == RollForward(start)
    ensures forall i :: 0 <= i < |r| - 1 ==> r[i + 1] == NextBusinessDay(r[i])
    decreases periods
  {
    if periods == 0 then []
    else
      var first := RollForward(start);
      var rest := DateRange(first + 1, periods - 1);
      assert periods > 1 ==> rest[0] == NextBusinessDay(first);
      [first] + rest
  }

  /** `date_range` leaves no business day out: every business day from
      `start` up to the last date of the range is one of its dates. */
  lemma {:induction false} DateRangeSkipsNone(start: int, periods: nat, k: int)
    requires periods > 0
    requires start <= k <= DateRange(start, periods)[periods - 1] && IsBusinessDay(k)
    ensures k in DateRange(start, periods)
    decreases periods
  {
    var r := DateRange(start, periods);
    var first := RollForward(start);
    if k != first {
      var rest := DateRange(first + 1, periods - 1);
      assert r == [first] + rest;
      assert k > first;
      assert periods > 1;
      assert rest[periods - 2] == r[periods - 1];
      DateRangeSkipsNone(first + 1, periods - 1, k);
    }
  }

  /** The forecast dates shown beside the prediction:
      `pd.date_range(start=last, periods=4, freq='B')[1:]`.  Whatever the
      last date, they are three strictly increasing business days, all
      strictly after it. */
  function ForecastDates(last: int): (r: seq<int>)
    ensures |r| == 3
    ensures forall i :: 0 <= i < 3 ==> last < r[i] && IsBusinessDay(r[i])
    ensures forall i, j :: 0 <= i < j < 3 ==> r[i] < r[j]
  {
    var range := DateRange(last, 4);
    assert range[1] == NextBusinessDay(range[0]) && range[2] == NextBusinessDay(range[1])
      && range[3] == NextBusinessDay(range[2]);
    range[1..]
  }

  /** For a last close on a business day (the usual case; a ticker that
      also trades at weekends can have a Saturday or Sunday close), the
      forecast dates are the next three business days after it: strictly
      increasing, all Monday to Friday, the first one the first business day
      after `last`, and no business day between them skipped. */
  lemma ForecastDatesAfterBusinessDay(last: int)
    requires IsBusinessDay(last)
    ensures |ForecastDates(last)| == 3
    ensures ForecastDates(last)[0] == NextBusinessDay(last)
    ensures ForecastDates(last)[1] == NextBusinessDay(ForecastDates(last)[0])
    ensures ForecastDates(last)[2] == NextBusinessDay(ForecastDates(last)[1])
    ensures forall i :: 0 <= i < 3 ==> last < ForecastDates(last)[i] && IsBusinessDay(ForecastDates(last)[i])
    ensures forall i, j :: 0 <= i < j < 3 ==> ForecastDates(last)[i] < ForecastDates(last)[j]
    ensures forall k :: last < k <= ForecastDates(last)[2] && IsBusinessDay(k) ==> k in ForecastDates(last)
  {
    var r := DateRange(last, 4);
    assert r[1..] == ForecastDates(last);
    assert r[0] == last;
    assert r[1] == NextBusinessDay(r[0]) && r[2] == NextBusinessDay(r[1]) && r[3] == NextBusinessDay(r[2]);
  }

  /** When the last date is a Saturday, `date_range` first rolls it forward to
      Monday and `[1:]` then drops that Monday: the first forecast date is a
      Tuesday and the next business day is missing from the forecast. */
  lemma SaturdayLastSkipsMonday(last: int)
    requires last % 7 == 5
    ensures ForecastDates(last)[0] == last + 3
    ensures NextBusinessDay(last) == last + 2
    ensures NextBusinessDay(last) !in ForecastDates(last)
  {
    var r := DateRange(last, 4);
    assert r[1..] == ForecastDates(last);
    assert r[0] == last + 2;
    assert r[1] == NextBusinessDay(r[0]) && r[2] == NextBusinessDay(r[1]) && r[3] == NextBusinessDay(r[2]);
  }
}
