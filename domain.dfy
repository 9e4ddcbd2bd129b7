/**
 * The quote record shared by the CSV loader and the stock services, and the
 * ticker filter both of them apply to a list of records.
 */
module Domain {

  /** A value of the C# `int` type (32-bit two's complement). */
  type Int32 = x: int | -0x8000_0000 <= x < 0x8000_0000

  /**
   * C#'s unchecked conversion of a mathematical integer to `int`: the value
   * modulo 2^32, read back in two's complement.
   */
  function Wrap32(x: int): (r: Int32)
    ensures (r - x) % 0x1_0000_0000 == 0
    ensures -0x8000_0000 <= x < 0x8000_0000 ==> r == x
  {
    (x + 0x8000_0000) % 0x1_0000_0000 - 0x8000_0000
  }

  /** Two integers equal modulo 2^32 become the same `int`. */
  lemma Wrap32Congruent(x: int, y: int, q: int)
    requires x == y + q * 0x1_0000_0000
    ensures Wrap32(x) == Wrap32(y)
  {
    var r := (y + 0x8000_0000) % 0x1_0000_0000;
    var d := (y + 0x8000_0000) / 0x1_0000_0000;
    assert y + 0x8000_0000 == d * 0x1_0000_0000 + r;
    assert x + 0x8000_0000 == (d + q) * 0x1_0000_0000 + r;
  }

  /** A point in time; only its identity matters to this model. */
  datatype DateTime = DateTime(ticks: int)

  /** `default(DateTime)`, the trade date of a record that never set one. */
  const DefaultDate: DateTime := DateTime(0)

  /**
   * One quote: the ticker, the trade date, the traded volume, and the price
   * change in absolute and in percent terms. `Change` and `ChangePercent` are
   * C# decimals, exact base-10 numbers, modelled as reals.
   */
  datatype StockPrice = StockPrice(
    Ticker: string,
    TradeDate: DateTime,
    Volume: Int32,
    Change: real,
    ChangePercent: real)

  datatype Option<+T> = None | Some(value: T)

  datatype Result<+T, +E> = Success(value: T) | Failure(error: E)

  /**
   * The records of `prices` whose ticker is exactly `ticker` (ordinal,
   * case-sensitive string equality), in their original order: LINQ's
   * `Where(p => p.Ticker == ticker)`.
   */
  function WithTicker(prices: seq<StockPrice>, ticker: string): (r: seq<StockPrice>)
    ensures |r| <= |prices|
    ensures forall p | p in r :: p.Ticker == ticker && p in prices
  {
    if prices == [] then []
    else if prices[0].Ticker == ticker then [prices[0]] + WithTicker(prices[1..], ticker)
    else WithTicker(prices[1..], ticker)
  }

  /** The filter only drops records: what it keeps is a sub-multiset of its input. */
  lemma {:induction false} WithTickerSubMultiset(prices: seq<StockPrice>, ticker: string)
    ensures multiset(WithTicker(prices, ticker)) <= multiset(prices)
  {
    if prices != [] {
      assert prices == [prices[0]] + prices[1..];
      WithTickerSubMultiset(prices[1..], ticker);
    }
  }

  /** Filtering a concatenation filters each part and keeps the parts in order. */
  lemma {:induction false} WithTickerAppend(a: seq<StockPrice>, b: seq<StockPrice>, ticker: string)
    ensures WithTicker(a + b, ticker) == WithTicker(a, ticker) + WithTicker(b, ticker)
  {
    if a == [] {
      assert a + b == b;
    } else {
      assert (a + b)[1..] == a[1..] + b;
      WithTickerAppend(a[1..], b, ticker);
    }
  }

  /**
   * No record with the requested ticker is lost or duplicated: each one occurs
   * in the result exactly as often as in the input.
   */
  lemma {:induction false} WithTickerKeepsMatches(prices: seq<StockPrice>, ticker: string, p: StockPrice)
    requires p.Ticker == ticker
    ensures multiset(WithTicker(prices, ticker))[p] == multiset(prices)[p]
  {
    if prices != [] {
      assert prices == [prices[0]] + prices[1..];
      WithTickerKeepsMatches(prices[1..], ticker, p);
    }
  }

  /** The filter keeps everything exactly when every record carries the ticker. */
  lemma {:induction false} WithTickerKeepsAll(prices: seq<StockPrice>, ticker: string)
    ensures WithTicker(prices, ticker) == prices <==> forall p | p in prices :: p.Ticker == ticker
  {
    if prices != [] {
      WithTickerKeepsAll(prices[1..], ticker);
      assert forall p | p in prices[1..] :: p in prices;
      if prices[0].Ticker != ticker {
        assert |WithTicker(prices, ticker)| < |prices|;
      } else {
        assert prices == [prices[0]] + prices[1..];
      }
    }
  }

  /** The filter yields nothing exactly when no record carries the ticker. */
  lemma {:induction false} WithTickerNone(prices: seq<StockPrice>, ticker: string)
    ensures WithTicker(prices, ticker) == [] <==> forall p | p in prices :: p.Ticker != ticker
  {
    if prices != [] {
      WithTickerNone(prices[1..], ticker);
      assert forall p | p in prices[1..] :: p in prices;
      assert prices == [prices[0]] + prices[1..];
    }
  }

  /** Filtering twice by the same ticker is the same as filtering once. */
  lemma WithTickerIdempotent(prices: seq<StockPrice>, ticker: string)
    ensures WithTicker(WithTicker(prices, ticker), ticker) == WithTicker(prices, ticker)
  {
    WithTickerKeepsAll(WithTicker(prices, ticker), ticker);
  }
}
