/** The StockExchange object: the order list, the ticker table, and the operations on them. */
module Exchange {
  import opened Lists
  import opened Orders
  import opened Matching

  /** The ticker table `__init__` installs, symbol to average price in cents. */
  const Tickers: map<string, int> := map["GOOG" := 10150, "MSFT" := 4975, "IBM" := 4502]

  /** One `{'shares': ..., 'price': ...}` entry of an info report. */
  datatype ShareLot = ShareLot(shares: int, price: int)

  /** What `info` returns: one of its two error strings, or the report. */
  datatype InfoResult =
    | TickerNotFound
    | NoTransactions
    | Summary(symbol: string, avgPrice: int, lots: seq<ShareLot>)

  function LotOf(o: Order): ShareLot
  {
    ShareLot(o.shares, o.price)
  }

  /** The (shares, price) pair of every record for `symbol`, in list order: the listing `info`
      reports. */
  function SymbolLots(ts: seq<Order>, symbol: string): (r: seq<ShareLot>)
    ensures |r| <= |ts|
    ensures forall o :: o in ts && o.symbol == symbol ==> LotOf(o) in r
    ensures forall k :: 0 <= k < |r| ==> exists o :: o in ts && o.symbol == symbol && r[k] == LotOf(o)
  {
    var matching := Filter(ts, (o: Order) => o.symbol == symbol);
    var r := seq(|matching|, k requires 0 <= k < |matching| => LotOf(matching[k]));
    assert forall o :: o in matching ==> LotOf(o) in r by {
      forall o | o in matching ensures LotOf(o) in r {
        var k :| 0 <= k < |matching| && matching[k] == o;
        assert r[k] == LotOf(o);
      }
    }
    assert forall k :: 0 <= k < |r| ==> matching[k] in matching;
    r
  }

  /** The listing follows the list: an order appended later is listed after every earlier one. */
  lemma SymbolLotsAppend(ts: seq<Order>, o: Order, symbol: string)
    ensures SymbolLots(ts + [o], symbol) == SymbolLots(ts, symbol) + (if o.symbol == symbol then [LotOf(o)] else [])
  {
    FilterAppend(ts, o, (o: Order) => o.symbol == symbol);
  }

  class StockExchange {
    /** The ticker table: set once by the constructor and never written again. */
    const exchange: map<string, int>
    /** Every order ever placed, in the order it was placed. */
    var transactions: seq<Order>

    /** Order numbers are 1, 2, 3, ... in list order. */
    ghost predicate Valid()
      reads this
    {
      NumberedInOrder(transactions)
    }

    constructor ()
      ensures Valid()
      ensures exchange == Tickers && transactions == []
    {
      exchange := Tickers;
      transactions := [];
    }

    /** `get_next_order_number`: one past the last record's number, 1 on an empty list. On a valid
        exchange that is one past the list's length and above every number already issued. */
    function NextOrderNumber(): (n: int)
      reads this
      requires Valid()
      ensures n == |transactions| + 1
      ensures forall o :: o in transactions ==> o.orderNum < n
    {
      if |transactions| > 0 then transactions[|transactions| - 1].orderNum + 1 else 1
    }

    /** `buy`: appends a PENDING buy record under a fresh number and returns the number. */
    method Buy(symbol: string, shares: int, bid: int) returns (orderNum: int)
      requires Valid()
      modifies this
      ensures Valid()
      ensures orderNum == |old(transactions)| + 1
      ensures forall o :: o in old(transactions) ==> o.orderNum < orderNum
      ensures transactions == old(transactions) + [NewOrder(orderNum, Upper(symbol), shares, bid, Side.Buy)]
    {
      var transaction := NewOrder(NextOrderNumber(), Upper(symbol), shares, bid, Side.Buy);
      transactions := transactions + [transaction];
      orderNum := transaction.orderNum;
    }

    /** `sell`: appends a PENDING sell record under a fresh number and returns the number. */
    method Sell(symbol: string, shares: int, ask: int) returns (orderNum: int)
      requires Valid()
      modifies this
      ensures Valid()
      ensures orderNum == |old(transactions)| + 1
      ensures forall o :: o in old(transactions) ==> o.orderNum < orderNum
      ensures transactions == old(transactions) + [NewOrder(orderNum, Upper(symbol), shares, ask, Side.Sell)]
    {
      var transaction := NewOrder(NextOrderNumber(), Upper(symbol), shares, ask, Side.Sell);
      transactions := transactions + [transaction];
      orderNum := transaction.orderNum;
    }

    /** `buy2`: matches a new buy against the queued sells, then appends it. It returns nothing. */
    method Buy2(symbol: string, shares: int, bid: int)
      requires Valid()
      modifies this
      ensures Valid()
      ensures var fill := BuyFill(old(transactions), NewOrder(|old(transactions)| + 1, Upper(symbol), shares, bid, Side.Buy),
                                  shares, 0, Queue(old(transactions), Side.Buy, Upper(symbol), bid));
              transactions == fill.records + [fill.incoming]
    {
      var transaction := NewOrder(NextOrderNumber(), Upper(symbol), shares, bid, Side.Buy);
      // The candidate expression read as its comprehension filtered to PENDING records, sorted
      // by descending ask.
      var sellsByAsk := Queue(transactions, Side.Buy, Upper(symbol), bid);
      var fill := MatchBuy(transactions, transaction, shares, sellsByAsk);
      BuyFillFrame(transactions, transaction, shares, 0, sellsByAsk);
      transactions := fill.records + [fill.incoming];
    }

    /** `sell2`: matches a new sell against the queued buys, appends it and returns its number. */
    method Sell2(symbol: string, shares: int, ask: int) returns (orderNum: int)
      requires Valid()
      modifies this
      ensures Valid()
      ensures orderNum == |old(transactions)| + 1
      ensures var fill := SellFill(old(transactions), NewOrder(orderNum, Upper(symbol), shares, ask, Side.Sell),
                                   shares, ask, Queue(old(transactions), Side.Sell, Upper(symbol), ask));
              transactions == fill.records + [fill.incoming]
    {
      var transaction := NewOrder(NextOrderNumber(), Upper(symbol), shares, ask, Side.Sell);
      // The candidate expression read as its comprehension filtered to PENDING records, sorted
      // by ascending bid.
      var buysByAsk := Queue(transactions, Side.Sell, Upper(symbol), ask);
      var fill := MatchSell(transactions, transaction, shares, ask, buysByAsk);
      SellFillFrame(transactions, transaction, shares, ask, buysByAsk);
      transactions := fill.records + [fill.incoming];
      orderNum := transaction.orderNum;
    }

    /** `info`: the static average for a configured ticker and the (shares, price) of every order
        for it, in list order; 'TICKER NOT FOUND' or 'NO TRANSACTIONS' otherwise. */
    function Info(symbol: string): (r: InfoResult)
      reads this
      ensures r == TickerNotFound <==> Upper(symbol) !in exchange
      ensures r == NoTransactions <==>
                Upper(symbol) in exchange && forall o :: o in transactions ==> o.symbol != Upper(symbol)
      ensures r.Summary? ==>
                r.symbol == Upper(symbol) && Upper(symbol) in exchange && r.avgPrice == exchange[Upper(symbol)]
                && r.lots == SymbolLots(transactions, Upper(symbol)) && 0 < |r.lots| <= |transactions|
    {
      var sym := Upper(symbol);
      if sym !in exchange then TickerNotFound
      else
        var lots := SymbolLots(transactions, sym);
        if |lots| > 0 then Summary(sym, exchange[sym], lots) else NoTransactions
    }

    /** `status`: the first record with the given number, or None when no record has it. */
    function Status(orderNum: int): (r: Option<Order>)
      reads this
      ensures r.None? <==> forall o :: o in transactions ==> o.orderNum != orderNum
      ensures r.Some? ==>
                r.value.orderNum == orderNum
                && exists i :: 0 <= i < |transactions| && transactions[i] == r.value
                               && forall j :: 0 <= j < i ==> transactions[j].orderNum != orderNum
    {
      var matching := Filter(transactions, (o: Order) => o.orderNum == orderNum);
      if |matching| == 0 then None else Some(matching[0])
    }

    /** On a valid exchange, number n names exactly the n-th record placed. */
    lemma StatusOfIssued(n: int)
      requires Valid()
      ensures Status(n) == if 1 <= n <= |transactions| then Some(transactions[n - 1]) else None
    {
      if 1 <= n <= |transactions| {
        assert transactions[n - 1] in transactions;
      }
    }
  }

  /** A fresh exchange numbers its orders 1, 2, ...; the first one can be found by its number and
      an unissued number finds nothing. */
  method FirstOrdersScenario() returns (first: int, second: int, found: Option<Order>, missing: Option<Order>)
    ensures first == 1 && second == 2
    ensures found.Some? && found.value.orderNum == 1 && found.value.operation == Buy
    ensures found.value.status == Pending && found.value.shares == 10
    ensures missing.None?
  {
    var stocks := new StockExchange();
    first := stocks.Buy("GOOG", 10, 1000);
    second := stocks.Sell("GOOG", 10, 1000);
    stocks.StatusOfIssued(1);
    stocks.StatusOfIssued(1000);
    found := stocks.Status(1);
    missing := stocks.Status(1000);
  }
}
