/** Model of GetScore (internal/logic/score.go): how a player's guessed price
    path is scored against the actual trading days that followed. Prices are
    only ever compared, so they are modelled as reals. */
module ScoreLogic {

  /** model.DayPrice: the price the player drew for one day. */
  datatype DayPrice = DayPrice(day: int, price: real)

  /** model.Stock: one actual trading day. */
  datatype Stock = Stock(id: int, symbol: string, date: string, open: real, high: real,
                         low: real, close: real, adjClose: real, volume: int)

  function Min(a: nat, b: nat): nat
  {
    if a <= b then a else b
  }

  /** Points for one guessed price against one actual day: 10 within the low/high
      range, 10 within open..close, and 10 within close..open. */
  function DayPoints(price: real, actual: Stock): (points: int)
    ensures points % 10 == 0 && 0 <= points <= 30
  {
    (if price >= actual.low && price <= actual.high then 10 else 0)
    + (if price >= actual.open && price <= actual.close then 10 else 0)
    + (if price >= actual.close && price <= actual.open then 10 else 0)
  }

  /** On a day that opens and closes at different prices, the two open/close
      checks exclude each other, so a day is worth at most 20. */
  lemma DayPointsOfMovingDay(price: real, actual: Stock)
    requires actual.open != actual.close
    ensures DayPoints(price, actual) <= 20
  {
  }

  /** A guess exactly at the open of a day that closes where it opened passes
      both open/close checks. */
  lemma DayPointsOfFlatDay(price: real, actual: Stock)
    requires price == actual.open == actual.close
    ensures DayPoints(price, actual) >= 20
    ensures DayPoints(price, actual) == 30 <==> actual.low <= price <= actual.high
  {
  }

  /** For a day whose low and high bound its open and close, a guess between
      open and close also lies between low and high. */
  lemma DayPointsOfBodyHit(price: real, actual: Stock)
    requires actual.low <= actual.open <= actual.high && actual.low <= actual.close <= actual.high
    requires actual.open <= price <= actual.close || actual.close <= price <= actual.open
    ensures DayPoints(price, actual) >= 20
  {
  }

  /** Points of the first `k` days, each guess paired with the actual day of the same index. */
  function SharedDaysPoints(user: seq<DayPrice>, actual: seq<Stock>, k: nat): (points: int)
    requires k <= |user| && k <= |actual|
    ensures points % 10 == 0 && 0 <= points <= 30 * k
  {
    if k == 0 then 0
    else
      var earlier := SharedDaysPoints(user, actual, k - 1);
      var day := DayPoints(user[k - 1].price, actual[k - 1]);
      SumOfTens(earlier, day);
      earlier + day
  }

  lemma SumOfTens(a: int, b: int)
    requires a % 10 == 0 && b % 10 == 0
    ensures (a + b) % 10 == 0
  {
    assert a == 10 * (a / 10) && b == 10 * (b / 10);
    assert a + b == 10 * (a / 10 + b / 10);
  }

  /** Whether the player's first-to-last direction matches the stock's first open to last close. */
  predicate SameDirection(user: seq<DayPrice>, actual: seq<Stock>)
    requires |user| > 0 && |actual| > 0
  {
    (user[0].price < user[|user| - 1].price) == (actual[0].open < actual[|actual| - 1].close)
  }

  /** The score GetScore returns. */
  function Score(user: seq<DayPrice>, actual: seq<Stock>): int
  {
    if |user| == 0 || |actual| == 0 then 0
    else SharedDaysPoints(user, actual, Min(|user|, |actual|)) + (if SameDirection(user, actual) then 10 else 0)
  }

  /** The score is a multiple of 10, 0 when either side is empty, and at most
      30 per shared day plus the 10-point direction bonus. */
  lemma ScoreBounds(user: seq<DayPrice>, actual: seq<Stock>)
    ensures Score(user, actual) % 10 == 0
    ensures |user| == 0 || |actual| == 0 ==> Score(user, actual) == 0
    ensures 0 <= Score(user, actual) <= 30 * Min(|user|, |actual|) + 10
    ensures |user| > 0 && |actual| > 0 && SameDirection(user, actual) ==> Score(user, actual) >= 10
  {
  }

  /** Only the days both sides share earn per-day points: what lies past the first
      `k` entries of either sequence does not change them. */
  lemma {:induction false} SharedDaysPointsUsePrefix(user: seq<DayPrice>, actual: seq<Stock>,
                                                     user': seq<DayPrice>, actual': seq<Stock>, k: nat)
    requires k <= |user| && k <= |actual| && k <= |user'| && k <= |actual'|
    requires user[..k] == user'[..k] && actual[..k] == actual'[..k]
    ensures SharedDaysPoints(user, actual, k) == SharedDaysPoints(user', actual', k)
  {
    if k > 0 {
      assert user[..k - 1] == user[..k][..k - 1] && user'[..k - 1] == user'[..k][..k - 1];
      assert actual[..k - 1] == actual[..k][..k - 1] && actual'[..k - 1] == actual'[..k][..k - 1];
      assert user[k - 1] == user[..k][k - 1] && user'[k - 1] == user'[..k][k - 1];
      assert actual[k - 1] == actual[..k][k - 1] && actual'[k - 1] == actual'[..k][k - 1];
      SharedDaysPointsUsePrefix(user, actual, user', actual', k - 1);
    }
  }

  /** Guesses past the last actual day earn no per-day points; they can only
      change the direction bonus, which compares the full-length endpoints. */
  lemma ExtraGuessesOnlyMoveBonus(user: seq<DayPrice>, extra: seq<DayPrice>, actual: seq<Stock>)
    requires |user| >= |actual| > 0
    ensures Score(user + extra, actual) - (if SameDirection(user + extra, actual) then 10 else 0) ==
            Score(user, actual) - (if SameDirection(user, actual) then 10 else 0)
  {
    var k := |actual|;
    assert (user + extra)[..k] == user[..k];
    SharedDaysPointsUsePrefix(user + extra, actual, user, actual, k);
  }

  /** GetScore: per-day points over the shared days, then the direction bonus. */
  method GetScore(userPrices: seq<DayPrice>, actualStockInfo: seq<Stock>) returns (score: int)
    ensures score == Score(userPrices, actualStockInfo)
  {
    score := 0;
    if |userPrices| == 0 || |actualStockInfo| == 0 {
      return;
    }
    var i := 0;
    while i < |userPrices|
      invariant 0 <= i <= |userPrices| && i <= |actualStockInfo|
      invariant score == SharedDaysPoints(userPrices, actualStockInfo, i)
    {
      if i >= |actualStockInfo| {
        break;
      }
      var actualStock := actualStockInfo[i];
      if userPrices[i].price >= actualStock.low && userPrices[i].price <= actualStock.high {
        score := score + 10;
      }
      if userPrices[i].price >= actualStock.open && userPrices[i].price <= actualStock.close {
        score := score + 10;
      }
      if userPrices[i].price >= actualStock.close && userPrices[i].price <= actualStock.open {
        score := score + 10;
      }
      i := i + 1;
    }
    assert i == Min(|userPrices|, |actualStockInfo|);
    var isUserThinkBullish := userPrices[0].price < userPrices[|userPrices| - 1].price;
    var isStockBullish := actualStockInfo[0].open < actualStockInfo[|actualStockInfo| - 1].close;
    if isUserThinkBullish == isStockBullish {
      score := score + 10;
    }
  }
}
