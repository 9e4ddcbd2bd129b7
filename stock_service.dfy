/**
 * The two implementations of the stock service: the mock, which filters a
 * fixed table of four quotes by ticker, and the HTTP-backed service, of which
 * this model keeps the per-instance call counter that paces its requests.
 */
module Services {
  import opened Domain

  /** The cancellation token passed to every call; only whether cancellation was requested. */
  datatype CancellationToken = CancellationToken(isCancellationRequested: bool)

  /** The mock's table: two MSFT and two GOOGL quotes, date and volume left at their defaults. */
  function MockTable(): (table: seq<StockPrice>)
    ensures |table| == 4
  {
    [StockPrice("MSFT", DefaultDate, 0, 0.5, 0.75),
     StockPrice("MSFT", DefaultDate, 0, 0.3, 0.15),
     StockPrice("GOOGL", DefaultDate, 0, 0.3, 0.25),
     StockPrice("GOOGL", DefaultDate, 0, 0.5, 0.45)]
  }

  /**
   * The mock's `GetStockPricesFor`: the rows of its table whose ticker equals
   * `ticker` exactly, in table order. It keeps no state and never looks at
   * the token, and an unknown ticker gives an empty result, never an error.
   */
  function MockGetStockPricesFor(ticker: string, token: CancellationToken): (r: seq<StockPrice>)
    ensures forall p | p in r :: p.Ticker == ticker && p in MockTable()
    ensures |r| <= |MockTable()|
  {
    WithTicker(MockTable(), ticker)
  }

  /** The sum of the `Change` column, as LINQ's `Sum` over decimals. */
  function SumOfChanges(prices: seq<StockPrice>): real
  {
    if prices == [] then 0.0 else prices[0].Change + SumOfChanges(prices[1..])
  }

  /** Asking the mock for MSFT gives its two MSFT rows, whose changes add up to 0.8. */
  lemma MockLoadsMsft(token: CancellationToken)
    ensures MockGetStockPricesFor("MSFT", token) == MockTable()[..2]
    ensures |MockGetStockPricesFor("MSFT", token)| == 2
    ensures SumOfChanges(MockGetStockPricesFor("MSFT", token)) == 0.8
  {
    var t := MockTable();
    assert t[..2] == [t[0], t[1]];
    assert WithTicker(t[2..], "MSFT") == [];
    assert t == [t[0], t[1]] + t[2..];
    WithTickerAppend([t[0], t[1]], t[2..], "MSFT");
    assert [t[0], t[1]][1..] == [t[1]];
    assert SumOfChanges([t[1]]) == 0.3;
  }

  /** Asking the mock for GOOGL gives its two GOOGL rows, changes 0.3 then 0.5. */
  lemma MockLoadsGoogl(token: CancellationToken)
    ensures MockGetStockPricesFor("GOOGL", token) == MockTable()[2..]
    ensures |MockGetStockPricesFor("GOOGL", token)| == 2
    ensures MockGetStockPricesFor("GOOGL", token)[0].Change == 0.3
    ensures MockGetStockPricesFor("GOOGL", token)[1].Change == 0.5
  {
    var t := MockTable();
    assert WithTicker(t[..2], "GOOGL") == [] by {
      assert t[..2] == [t[0], t[1]];
      assert |t[0].Ticker| == |t[1].Ticker| == 4 != |"GOOGL"|;
      WithTickerNone(t[..2], "GOOGL");
    }
    assert WithTicker(t[2..], "GOOGL") == t[2..] by {
      assert t[2..] == [t[2], t[3]];
      WithTickerKeepsAll(t[2..], "GOOGL");
    }
    assert t == t[..2] + t[2..];
    WithTickerAppend(t[..2], t[2..], "GOOGL");
  }

  /**
   * Any ticker other than exactly "MSFT" or "GOOGL", such as "UNKNOWN" or
   * "msft", gives an empty result.
   */
  lemma MockUnknownTicker(ticker: string, token: CancellationToken)
    requires ticker != "MSFT" && ticker != "GOOGL"
    ensures MockGetStockPricesFor(ticker, token) == []
  {
    WithTickerNone(MockTable(), ticker);
  }

  /** The mock ignores the token: every call with the same ticker gives the same rows. */
  lemma MockIgnoresToken(ticker: string, token: CancellationToken, other: CancellationToken)
    ensures MockGetStockPricesFor(ticker, token) == MockGetStockPricesFor(ticker, other)
  {
  }

  /**
   * Fetching MSFT and GOOGL, in either order, gives every row of the table
   * exactly once between them.
   */
  lemma MockFanOut(token: CancellationToken)
    ensures multiset(MockGetStockPricesFor("MSFT", token) + MockGetStockPricesFor("GOOGL", token)) == multiset(MockTable())
    ensures multiset(MockGetStockPricesFor("GOOGL", token) + MockGetStockPricesFor("MSFT", token)) == multiset(MockTable())
  {
    MockLoadsMsft(token);
    MockLoadsGoogl(token);
    var t := MockTable();
    assert t[..2] + t[2..] == t;
  }

  /**
   * What `Task.Delay(milliseconds)` does with its argument: -1 waits
   * forever, any other negative value throws an out-of-range exception, and
   * a non-negative value waits that many milliseconds.
   */
  datatype Pause = Wait(milliseconds: nat) | WaitForever | OutOfRange

  function TaskDelay(milliseconds: Int32): (p: Pause)
    ensures p.Wait? <==> milliseconds >= 0
    ensures p.Wait? ==> p.milliseconds == milliseconds
    ensures p == WaitForever <==> milliseconds == -1
  {
    if milliseconds >= 0 then Wait(milliseconds)
    else if milliseconds == -1 then WaitForever
    else OutOfRange
  }

  /**
   * The pause before the request of the call made after `calls` earlier
   * calls on the same instance: the counter, an `int`, times 1000, in
   * unchecked 32-bit arithmetic.
   */
  function PacingPause(calls: nat): Pause
  {
    TaskDelay(Wrap32(Wrap32(calls) * 1000))
  }

  /**
   * The k-th call on an instance, counting from 0, waits k seconds, for as
   * long as k * 1000 fits in an `int`.
   */
  lemma PacingIsLinear(calls: nat)
    requires calls * 1000 < 0x8000_0000
    ensures PacingPause(calls) == Wait(calls * 1000)
  {
    assert Wrap32(calls) == calls;
  }

  /**
   * Call number 2147484 (counting from 0) overflows `i * 1000` to a value
   * below -1, and `Task.Delay` rejects it.
   */
  lemma PacingOverflows()
    ensures PacingPause(2147484) == OutOfRange
    ensures PacingPause(2147483) == Wait(2147483000)
  {
    assert Wrap32(2147484) == 2147484;
    assert Wrap32(2147484000) == -2147483296;
    PacingIsLinear(2147483);
  }

  /**
   * The pause is never `WaitForever`: the counter times 1000 is even, and
   * wrapping modulo 2^32 keeps it even, so it is never -1.
   */
  lemma PacingNeverWaitsForever(calls: nat)
    ensures PacingPause(calls) != WaitForever
  {
    var w: int := Wrap32(calls);
    var x: int := w * 1000;
    var r := Wrap32(x);
    var d := (r - x) / 0x1_0000_0000;
    assert r - x == d * 0x1_0000_0000;
    assert r == 2 * (w * 500 + d * 0x8000_0000);
  }

  /**
   * The HTTP-backed service. Its only state is the call counter `i`, which
   * every call reads to choose its pause and then increments.
   */
  class StockService {
    var i: Int32
    /** The calls made on this instance so far. */
    ghost var calls: nat

    ghost predicate Valid()
      reads this
    {
      i == Wrap32(calls)
    }

    constructor ()
      ensures Valid() && calls == 0 && i == 0
    {
      i := 0;
      calls := 0;
    }

    /**
     * The part of `GetStockPricesFor` before its request: the pause
     * `Task.Delay(i++ * 1000)`. The counter is incremented even when the
     * pause is rejected, since the increment happens before the delay starts.
     */
    method GetStockPricesFor(ticker: string, token: CancellationToken) returns (pause: Pause)
      requires Valid()
      modifies this
      ensures Valid()
      ensures calls == old(calls) + 1
      ensures i == Wrap32(old(i) + 1)
      ensures pause == TaskDelay(Wrap32((old(i) as int) * 1000))
      ensures pause == PacingPause(old(calls))
    {
      var current := i;
      i := Wrap32(i + 1);
      calls := calls + 1;
      ghost var q := (Wrap32(calls - 1) - (calls - 1)) / 0x1_0000_0000;
      assert Wrap32(calls - 1) + 1 == calls + q * 0x1_0000_0000;
      Wrap32Congruent(Wrap32(calls - 1) + 1, calls, q);
      pause := TaskDelay(Wrap32((current as int) * 1000));
    }
  }
}
