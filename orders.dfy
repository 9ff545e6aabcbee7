/** The order record that StockExchange keeps in its `transactions` list. */
module Orders {

  /** The record's 'operation' field. */
  datatype Side = Buy | Sell

  /** The record's 'status' field: the exchange only ever writes 'PENDING' and 'EXECUTED'. */
  datatype OrderStatus = Pending | Executed

  /** One entry of a record's 'executions' list. `counterparty` is the 'buyerOrderNum' on a sell
      record and the 'sellerOrderNum' on a buy record; `price` and `qty` are what was written. */
  datatype Execution = Execution(counterparty: int, price: int, qty: int)

  /** A transaction record. Prices ('bidask') are in cents. The `executions` field is this
      model's addition for records made by `buy` and `sell`, which have no such entry in the
      source; every record gets one here, empty when the record is created. */
  datatype Order = Order(
    orderNum: int,
    symbol: string,
    shares: int,
    price: int,
    operation: Side,
    status: OrderStatus,
    executions: seq<Execution>)

  /** The record `buy`, `sell`, `buy2` and `sell2` build before appending it. */
  function NewOrder(orderNum: int, symbol: string, shares: int, price: int, operation: Side): Order
  {
    Order(orderNum, symbol, shares, price, operation, Pending, [])
  }

  /** The fields that matching never writes. */
  predicate SameIdentity(a: Order, b: Order)
  {
    a.orderNum == b.orderNum && a.symbol == b.symbol && a.price == b.price && a.operation == b.operation
  }

  /** Order numbers 1, 2, 3, ... in list order: what issuing numbers from the last record keeps. */
  ghost predicate NumberedInOrder(ts: seq<Order>)
  {
    forall i :: 0 <= i < |ts| ==> ts[i].orderNum == i + 1
  }

  predicate IsLowerAscii(c: char)
  {
    'a' <= c <= 'z'
  }

  function UpperChar(c: char): char
  {
    if IsLowerAscii(c) then (c as int - 32) as char else c
  }

  /** Python's `str.upper()` restricted to ASCII letters. */
  function Upper(s: string): (r: string)
    ensures |r| == |s|
    ensures forall i :: 0 <= i < |r| ==> !IsLowerAscii(r[i])
    ensures forall i :: 0 <= i < |s| && IsLowerAscii(s[i]) ==> r[i] as int == s[i] as int - 32
    ensures forall i :: 0 <= i < |s| && !IsLowerAscii(s[i]) ==> r[i] == s[i]
  {
    seq(|s|, i requires 0 <= i < |s| => UpperChar(s[i]))
  }
}
