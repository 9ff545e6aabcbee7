# StockExchange order registry and matching, in Dafny

This project models the `StockExchange` class of the `stocks` service: an in-memory exchange
that keeps one list of order records (`transactions`) and a fixed table of three tickers
(GOOG, MSFT, IBM) with their static average prices.

- **Records.** `Orders.Order` is one transaction record. It holds the order number, the
  uppercased symbol, shares, bid or ask, the operation (buy or sell), the status (PENDING or
  EXECUTED) and an executions list. The executions list is empty when the record is created.
  Records made by `buy` and `sell` have no executions entry in the source; the model gives
  them one (see Left out).
- **Sequencer.** `NextOrderNumber` is one past the last record's number, or 1 on an empty list.
  The class invariant `Valid` says record `i` carries number `i + 1`. So successive orders get
  1, 2, 3, … with no repeats.
- **Registry.** `Buy` and `Sell` append one PENDING record and return its number.
- **Queries.** `Status` finds the first record with a number. `Info` looks up a ticker and
  lists the (shares, price) of its orders in list order.
- **Matching.** `Buy2` and `Sell2` are never reached from the HTTP routes. They pick the
  crossing PENDING records on the other side and visit them in sorted order. Python's stable
  `sorted` is modelled by an insertion sort, and `Sorting.SortedUnique` shows that only one
  sorted arrangement exists. The loops `Matching.MatchBuy` and `Matching.MatchSell` update
  the visited records in the list one at a time, by position. Each loop is proved equal to a
  recursive function (`BuyFill`, `SellFill`). The fill rules are proved as lemmas about those
  functions.

The matching loops are modelled as the code behaves, apart from the candidate filter (see
Findings). In particular:
- `buy2` never lowers the remaining quantity. Every queued sell no larger than the incoming
  order that comes before the first larger one is taken whole, so the buy can be filled past
  its own size.
- `buy2` stops at the first sell that is larger than the incoming order, and the queued sells
  after it are left untouched, whatever their size. `sell2` has no `break` and visits every
  queued buy.
- `buy2` prices the incoming order's executions at the highest ask seen, which starts at 0.
  Because the candidates are sorted by descending ask, that is the larger of 0 and the first
  ask visited. With a negative bid this price can lie above the bid.
- `sell2` prices every execution at the incoming ask. It records the buy's shares left after
  the decrement on a reduced buy's execution.
- `buy2` returns nothing.

Prices are integers in cents. The source compares and copies its float prices but never
computes with them.

## Model

| member | source | states |
|---|---|---|
| Orders.Upper | stocks.py:76 | the symbol is uppercased letter by letter, with the same length; every other character is kept |
| Exchange.StockExchange.constructor | stocks.py:66-71 | the ticker table is GOOG, MSFT and IBM with their averages, and the record list starts empty |
| Exchange.StockExchange.NextOrderNumber | stocks.py:211-216 | on a valid exchange the next number is the list length plus one, which is above every number already issued |
| Exchange.StockExchange.Buy | stocks.py:73-83 | appends exactly one PENDING buy record, with the uppercased symbol, shares and bid, under a number above every earlier one; returns that number; earlier records are unchanged and the list stays numbered 1, 2, 3, … |
| Exchange.StockExchange.Sell | stocks.py:132-142 | the same for a PENDING sell record with the ask |
| Exchange.StockExchange.Status | stocks.py:204-209 | None exactly when no record has the number; otherwise the first record with that number |
| Exchange.StockExchange.StatusOfIssued | stocks.py:204-216 | on a valid exchange, number n finds the n-th record placed, and any number outside 1..length finds nothing |
| Exchange.FirstOrdersScenario | stocks.py:454-461 | after a buy and a sell on a fresh exchange, the orders are numbered 1 and 2, order 1 is the pending buy, and order 1000 is not found |
| Exchange.StockExchange.Info | stocks.py:187-202 | 'TICKER NOT FOUND' exactly when the uppercased symbol is not in the ticker table; 'NO TRANSACTIONS' exactly when the ticker is known and no record has its symbol; otherwise the ticker's static average and the listing of its records |
| Exchange.SymbolLots | stocks.py:194-199 | lists (shares, price) for every record with the symbol and for nothing else |
| Exchange.SymbolLotsAppend | stocks.py:194-199 | the listing keeps list order: a record appended later is listed after all earlier ones |
| Lists.Filter | stocks.py:205 | the kept elements are exactly those satisfying the condition, and the first one kept is the first one in the list that satisfies it |
| Lists.FilterAppend | stocks.py:194 | filtering keeps list order: filtering a list extended by one element extends the earlier result |
| Lists.IndicesWhere | stocks.py:98-100 | the positions kept are, in increasing order, exactly those whose record satisfies the condition; the same holds at sell2's stocks.py:157-159 |
| Matching.CandidatesAsWritten | stocks.py:98-100 | as written, the value is the empty list exactly when nothing crosses, and otherwise the PENDING test of the last record of the list; the same holds at sell2's stocks.py:157-159 |
| Matching.AsWrittenIsBoolWhenCrossing | stocks.py:98-103 | as written, the candidate expression is a bool whenever some record crosses, so the `sorted` call that follows cannot succeed; the same holds at sell2's stocks.py:157-162 |
| Matching.AsWrittenAgreesWhenNothingCrosses | stocks.py:98-100 | as written, the expression is a list only when nothing crosses, and then it equals the corrected candidate list, which is empty |
| Sorting.Sort | stocks.py:103 | sorting returns the same positions, as a permutation; the same holds at sell2's stocks.py:162 |
| Sorting.InsertSorted | stocks.py:103 | inserting a new position into a sorted list keeps it sorted; the same holds at sell2's stocks.py:162 |
| Sorting.SortSorted | stocks.py:103 | sorting distinct positions yields the price order, with ties kept in list order as a stable sort keeps them; the same holds at sell2's stocks.py:162 |
| Sorting.SortedUnique | stocks.py:103 | two sorted arrangements of the same positions are equal, so any stable sort yields the list Sort returns; the same holds at sell2's stocks.py:162 |
| Matching.Queue | stocks.py:98-103 | buy2 visits exactly the PENDING sells for the symbol with ask at most the bid, by descending ask; sell2 visits exactly the PENDING buys with bid at least the ask, by ascending bid; no record is visited twice |
| Matching.BuyFill | stocks.py:108-128 | buy2's loop over the queue: the list keeps its length, the incoming buy keeps its number, symbol, price, side and shares, and it gains at most one execution per queued sell, after its earlier ones |
| Matching.MatchBuy | stocks.py:105-128 | buy2's loop, which updates the visited sells in the list in place, ends in the state BuyFill describes |
| Matching.BuyFillFrame | stocks.py:108-128 | buy2's loop writes only queued records, never changes any record's number, symbol, price or side, and keeps the list length |
| Matching.BuyFillRecords | stocks.py:108-128 | queued sells up to the first one larger than the buy become EXECUTED, with an execution of all their shares at their own ask; that larger one loses the buy's shares and records them at the highest ask; the queued sells after it are untouched |
| Matching.BuyFillIncoming | stocks.py:105-128 | the incoming buy gets one execution per sell taken whole and one for the sell that ends the loop, all at the highest ask; it becomes EXECUTED exactly when some queued sell is larger than it, and its shares never change |
| Matching.BuyPricesWithinBid | stocks.py:106-126 | for a non-negative bid, every execution price buy2 gives the incoming buy is one value, no lower than any queued ask and no higher than the bid |
| Matching.BuyPriceAboveNegativeBid | stocks.py:106-126 | with a negative bid the price can exceed the bid: a sell of 5 at -5 meets a buy of 10 at -3, and the buyer's execution is priced 0 |
| Matching.BuyOnQueue | stocks.py:96-128 | on buy2's candidate queue: non-candidates are untouched; in descending-ask order the sells before the first one larger than the buy are taken whole at their own ask, that one is reduced, and the later ones are untouched; the buyer's executions and status follow, all priced at the larger of 0 and the first queued ask |
| Matching.SellFill | stocks.py:165-182 | sell2's loop over the queue: the list keeps its length, the incoming sell keeps its number, symbol, price, side and shares, and it gains exactly one execution per queued buy, after its earlier ones |
| Matching.MatchSell | stocks.py:165-182 | sell2's loop, which updates the visited buys in the list in place, ends in the state SellFill describes |
| Matching.SellFillFrame | stocks.py:165-182 | sell2's loop never changes any record's number, symbol, price or side, and keeps the list length |
| Matching.SellFillRecords | stocks.py:165-182 | every queued buy no larger than the sell becomes EXECUTED, with an execution of all its shares; every larger one keeps its status, loses the sell's shares and records what is left; records that are not queued are untouched |
| Matching.SellFillIncoming | stocks.py:165-182 | the incoming sell gets one execution per queued buy, in visiting order; it becomes EXECUTED exactly when some queued buy is larger than it, and its shares never change |
| Matching.SellIncomingAtAsk | stocks.py:168-177 | every execution the incoming sell records is at its own ask and names the queued buys in visiting order |
| Matching.SellRestingAtAsk | stocks.py:166-182 | every queued buy gains exactly one execution, at the incoming ask and naming the incoming sell, after its earlier executions |
| Matching.SellOnQueue | stocks.py:155-182 | on sell2's candidate queue: each PENDING buy for the symbol bidding at least the ask is rewritten by the sell2 rule and every other record is untouched; the incoming sell gains one execution per such buy, in ascending-bid order, at the ask |
| Exchange.StockExchange.Buy2 | stocks.py:85-129 | the incoming buy gets the next number, matching runs over the queue, the matched buy is appended last, and the list stays numbered 1, 2, 3, … |
| Exchange.StockExchange.Sell2 | stocks.py:144-185 | the same for sell2, which also returns the incoming order's number |

## Left out

- The Flask resources, argument parsing, JSON responses and status codes (stocks.py:218-318). They are HTTP wrappers around the four wired calls.
- The unit tests (stocks.py:332-491). They drive an HTTP test client. One of them is reflected in `FirstOrdersScenario`.
- The module-level exchange instance and the class-level attribute defaults. The model is one object whose fields are set by its constructor.
- The 'price' entry of the ticker table. Nothing reads it.
- Float prices. Prices are integer cents, because the code only compares and copies them.
- Orders.Upper: maps only ASCII letters. Python's `str.upper()` also maps non-ASCII letters, and the symbol is caller input, so the model differs on such input: `info` of "ıbm" (dotless i) finds IBM in the source but gives TICKER NOT FOUND in the model.
- Validation of symbol, shares or price in `buy`/`sell`. The code has none, so the model accepts any input too.
- Identity of a record, as opposed to its value. In the source, a record taken from the sorted candidate list is the same dictionary as the one in `transactions`. The model writes the updated record back at its position in the list instead. Each record occurs once in the list and the incoming record is not in it during matching, so no other alias can see a difference.
- Exchange.StockExchange.Buy2, Exchange.StockExchange.Sell2: state the new list through `BuyFill`/`SellFill` and the corrected candidate queue. The source as written raises an error instead whenever some record crosses (see Findings).
- Exchange.StockExchange.Buy2, Exchange.StockExchange.Sell2: the model adds an empty executions list that records made by `buy` and `sell` do not have in the source. Even with the candidate filter corrected, the source raises KeyError when it appends an execution to such a record (stocks.py:113, 121, 168, 180). By then it has already changed that record's status or shares (stocks.py:112, 120, 167, 179). The model instead completes the match. It does not capture this error path or the partial update it leaves behind.

## Findings

| source | as written | input that shows it | evidently intended | confidence | as-written member | corrected member |
|---|---|---|---|---|---|---|
| stocks.py:98-103 and stocks.py:157-162 | The candidate list is a comprehension joined by `and` to `tx['status'] == 'PENDING'`. In Python 2, `tx` is left bound to the last record, so the whole expression is a bool as soon as one record crosses. | One resting sell for GOOG at 900 cents, then buy2 of GOOG at 1000 cents: the expression is a bool, and `sorted` of a bool raises TypeError. | The crossing records, additionally filtered to PENDING ones, sorted by price | high; not executed | Matching.AsWrittenIsBoolWhenCrossing | Matching.Queue |
