/** Model of StockLogicImpl.IsStocksValid (internal/logic/stock.go): whether a
    window of trading days can be used for a game, and how many of its leading
    days may be shown before the days the player has to guess. */
module StockLogic {

  /** model.StockPublic: one trading day as served to the game. */
  datatype StockPublic = StockPublic(symbolUuid: string, date: string, open: real, high: real,
                                     low: real, close: real, adjClose: real, volume: int)

  /** Smallest (truncated) average daily volume of an acceptable window. */
  const MinAverageVolume: int := 25000

  /** Sum of the daily volumes, accumulated from the first day on. */
  function TotalVolume(stocks: seq<StockPublic>): int
  {
    if stocks == [] then 0 else TotalVolume(stocks[..|stocks| - 1]) + stocks[|stocks| - 1].volume
  }

  /** Go's `/` on int, which truncates toward zero (Dafny's `/` is Euclidean). */
  function TruncDiv(a: int, b: int): int
    requires b > 0
  {
    if a >= 0 then a / b else -((-a) / b)
  }

  /** The truncated quotient is the multiple of `b` nearest to `a` on the side of zero. */
  lemma TruncDivBounds(a: int, b: int)
    requires b > 0
    ensures a >= 0 ==> 0 <= TruncDiv(a, b) * b <= a < TruncDiv(a, b) * b + b
    ensures a < 0 ==> TruncDiv(a, b) * b - b < a <= TruncDiv(a, b) * b <= 0
  {
    if a >= 0 {
      EuclideanDivision(a, b);
    } else {
      EuclideanDivision(-a, b);
      assert TruncDiv(a, b) * b == -(((-a) / b) * b);
    }
  }

  /** Dafny's `/` and `%` on a non-negative dividend: quotient times divisor plus remainder. */
  lemma EuclideanDivision(n: int, b: int)
    requires n >= 0 && b > 0
    ensures 0 <= (n / b) * b <= n < (n / b) * b + b
  {
    var q, r := n / b, n % b;
    assert n == b * q + r && 0 <= r < b;
    assert q >= 0;
    assert q * b == b * q;
  }

  predicate NoZeroOpen(stocks: seq<StockPublic>)
  {
    forall i :: 0 <= i < |stocks| ==> stocks[i].open != 0.0
  }

  /** IsStocksValid: the window is accepted iff it is non-empty, its truncated average
      volume reaches 25000, it is longer than `numberOfDays` and no day opens at 0;
      an accepted window yields `len - numberOfDays`, every rejection yields 0. */
  method IsStocksValid(stocks: seq<StockPublic>, numberOfDays: int) returns (isValid: bool, upperBound: int)
    ensures isValid <==> && |stocks| > 0
                         && TruncDiv(TotalVolume(stocks), |stocks|) >= MinAverageVolume
                         && numberOfDays < |stocks|
                         && NoZeroOpen(stocks)
    ensures upperBound == if isValid then |stocks| - numberOfDays else 0
    ensures isValid ==> 1 <= upperBound
    ensures !isValid ==> upperBound == 0
  {
    isValid := true;
    upperBound := 0;
    var volume := 0;
    for i := 0 to |stocks|
      invariant volume == TotalVolume(stocks[..i])
    {
      assert stocks[..i + 1][..i] == stocks[..i];
      volume := volume + stocks[i].volume;
    }
    assert stocks[..|stocks|] == stocks;
    if |stocks| == 0 {
      isValid := false;
      return;
    }
    var volumeAverage := TruncDiv(volume, |stocks|);
    if volumeAverage < MinAverageVolume {
      isValid := false;
      return;
    }
    upperBound := |stocks| - numberOfDays;
    if upperBound <= 0 {
      isValid := false;
      upperBound := 0;
      return;
    }
    for i := 0 to |stocks|
      invariant forall j :: 0 <= j < i ==> stocks[j].open != 0.0
    {
      if stocks[i].open == 0.0 {
        upperBound := 0;
        isValid := false;
        return;
      }
    }
  }

  lemma {:induction false} TotalVolumeNonNegative(stocks: seq<StockPublic>)
    requires forall i :: 0 <= i < |stocks| ==> stocks[i].volume >= 0
    ensures TotalVolume(stocks) >= 0
  {
    if stocks != [] {
      TotalVolumeNonNegative(stocks[..|stocks| - 1]);
    }
  }

  /** For a non-negative dividend, the truncated quotient reaches `m` iff the dividend reaches `m` times the divisor. */
  lemma TruncDivThreshold(a: int, b: int, m: int)
    requires a >= 0 && b > 0
    ensures TruncDiv(a, b) >= m <==> a >= m * b
  {
    TruncDivBounds(a, b);
    var q := TruncDiv(a, b);
    if q >= m {
      MultiplyMonotone(m, q, b);
    } else {
      MultiplyMonotone(q + 1, m, b);
      assert (q + 1) * b == q * b + b;
    }
  }

  lemma MultiplyMonotone(x: int, y: int, b: int)
    requires x <= y && b >= 0
    ensures x * b <= y * b
  {
    assert y * b - x * b == (y - x) * b;
  }

  /** With non-negative volumes the truncated-average test is a test on the total:
      the window passes iff its volumes add up to at least 25000 per day. */
  lemma AverageTestIsTotalTest(stocks: seq<StockPublic>)
    requires |stocks| > 0
    requires forall i :: 0 <= i < |stocks| ==> stocks[i].volume >= 0
    ensures TruncDiv(TotalVolume(stocks), |stocks|) >= MinAverageVolume <==>
            TotalVolume(stocks) >= MinAverageVolume * |stocks|
  {
    TotalVolumeNonNegative(stocks);
    TruncDivThreshold(TotalVolume(stocks), |stocks|, MinAverageVolume);
  }

  /** The four cases of TestIsStocksValid (internal/logic/stock_test.go). */
  method StockTestScenarios() returns (outcomes: seq<(bool, int)>)
    ensures outcomes == [(true, 1), (false, 0), (false, 0), (false, 0)]
  {
    var day1 := StockPublic("", "2022-01-01", 100.0, 105.0, 95.0, 100.0, 0.0, 30000);
    var day2 := StockPublic("", "2022-01-02", 102.0, 107.0, 97.0, 102.0, 0.0, 50000);
    var day3 := StockPublic("", "2022-01-03", 105.0, 110.0, 100.0, 105.0, 0.0, 60000);
    var window := [day1, day2, day3];
    assert window[..2] == [day1, day2] && window[..1] == [day1];
    assert TotalVolume(window) == 140000 by {
      assert TotalVolume([day1]) == 30000;
      assert TotalVolume([day1, day2]) == 80000;
    }
    var isValid, upperBound := IsStocksValid(window, 2);
    outcomes := [(isValid, upperBound)];

    var quiet := [day1.(volume := 1), day2.(volume := 1), day3.(volume := 1)];
    assert quiet[..2] == [day1.(volume := 1), day2.(volume := 1)] && quiet[..1] == [day1.(volume := 1)];
    assert TotalVolume(quiet) == 3 by {
      assert TotalVolume([quiet[0]]) == 1;
      assert TotalVolume([quiet[0], quiet[1]]) == 2;
    }
    isValid, upperBound := IsStocksValid(quiet, 2);
    outcomes := outcomes + [(isValid, upperBound)];

    var busy := [day1.(volume := 100000), day2.(volume := 100000), day3.(volume := 100000)];
    assert busy[..2] == [day1.(volume := 100000), day2.(volume := 100000)] && busy[..1] == [day1.(volume := 100000)];
    isValid, upperBound := IsStocksValid(busy, 4);
    outcomes := outcomes + [(isValid, upperBound)];

    var closedOpen := busy[0 := busy[0].(open := 0.0)];
    assert closedOpen[..2] == [closedOpen[0], closedOpen[1]] && closedOpen[..1] == [closedOpen[0]];
    isValid, upperBound := IsStocksValid(closedOpen, 2);
    outcomes := outcomes + [(isValid, upperBound)];
  }
}
