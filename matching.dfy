/** The matching half of `buy2` and `sell2`: which resting records are candidates, the order in
    which the loop visits them, and what the loop does to them and to the incoming record. */
module Matching {
  import opened Lists
  import opened Orders
  import opened Sorting

  /** Resting record o is on the other side of an incoming `side` order for `symbol` with limit
      `limit`, and crosses it: a sell asking at most the bid for an incoming buy, a buy bidding at
      least the ask for an incoming sell. */
  predicate Crosses(o: Order, side: Side, symbol: string, limit: int)
  {
    o.symbol == symbol &&
    match side
    case Buy => o.operation == Sell && o.price <= limit
    case Sell => o.operation == Buy && o.price >= limit
  }

  predicate IsCandidate(o: Order, side: Side, symbol: string, limit: int)
  {
    Crosses(o, side, symbol, limit) && o.status == Pending
  }

  /** The candidate comprehension read as intended: the crossing records, additionally filtered
      to PENDING ones, as positions in list order. */
  function Candidates(ts: seq<Order>, side: Side, symbol: string, limit: int): seq<nat>
  {
    IndicesWhere(ts, (o: Order) => IsCandidate(o, side, symbol, limit))
  }

  /** A Python value as far as the candidate expression needs one. */
  datatype PyValue = PyList(items: seq<nat>) | PyBool(b: bool)

  /** The candidate expression as written, a crossing-records comprehension joined by `and` to a
      PENDING test, under Python 2 scoping: an empty comprehension is falsy and is
      the value of `and`; otherwise the value is the comparison, in which `tx` is the variable
      the comprehension left behind, bound to the last record of the list. */
  function CandidatesAsWritten(ts: seq<Order>, side: Side, symbol: string, limit: int): (r: PyValue)
    ensures r.PyList? <==> forall i :: 0 <= i < |ts| ==> !Crosses(ts[i], side, symbol, limit)
    ensures r.PyList? ==> r.items == []
    ensures r.PyBool? ==> r.b == (ts[|ts| - 1].status == Pending)
  {
    var crossing := IndicesWhere(ts, (o: Order) => Crosses(o, side, symbol, limit));
    if crossing == [] then PyList([]) else PyBool(ts[|ts| - 1].status == Pending)
  }

  /** As written, the expression is a bool whenever some record crosses, and `sorted` of a bool
      raises TypeError: buy2 and sell2 fail on every input that could match. */
  lemma AsWrittenIsBoolWhenCrossing(ts: seq<Order>, side: Side, symbol: string, limit: int, i: nat)
    requires i < |ts| && Crosses(ts[i], side, symbol, limit)
    ensures CandidatesAsWritten(ts, side, symbol, limit).PyBool?
  {
    assert i in IndicesWhere(ts, (o: Order) => Crosses(o, side, symbol, limit));
  }

  /** The only inputs on which the expression as written is a list are those where nothing
      crosses; there it agrees with the corrected candidate list, which is empty. */
  lemma AsWrittenAgreesWhenNothingCrosses(ts: seq<Order>, side: Side, symbol: string, limit: int)
    requires forall i :: 0 <= i < |ts| ==> !Crosses(ts[i], side, symbol, limit)
    ensures CandidatesAsWritten(ts, side, symbol, limit) == PyList(Candidates(ts, side, symbol, limit))
    ensures Candidates(ts, side, symbol, limit) == []
  {
  }

  /** The visiting order: `sorted(candidates, key=itemgetter('bidask'))`, with `reverse=True`
      (highest ask first) for an incoming buy and lowest bid first for an incoming sell. */
  function Queue(ts: seq<Order>, side: Side, symbol: string, limit: int): (q: seq<nat>)
    ensures InRange(ts, q) && Sorted(ts, q, side == Buy) && Distinct(q)
    ensures forall i :: 0 <= i < |ts| ==> (i in q <==> IsCandidate(ts[i], side, symbol, limit))
  {
    var cs := Candidates(ts, side, symbol, limit);
    SortSorted(ts, cs, side == Buy);
    var q := Sort(ts, cs, side == Buy);
    SortedIsDistinct(ts, q, side == Buy);
    assert forall i :: i in q <==> i in cs by {
      forall i ensures i in q <==> i in cs {
        assert i in q <==> i in multiset(q);
        assert i in cs <==> i in multiset(cs);
      }
    }
    q
  }

  /** The records at the queued positions, in visiting order. */
  function Queued(ts: seq<Order>, q: seq<nat>): (rs: seq<Order>)
    requires InRange(ts, q)
  {
    seq(|q|, k requires 0 <= k < |q| => ts[q[k]])
  }

  lemma QueuedTail(ts: seq<Order>, q: seq<nat>, v: Order)
    requires InRange(ts, q) && q != [] && q[0] !in q[1..]
    ensures Queued(ts[q[0] := v], q[1..]) == Queued(ts, q)[1..]
  {
    var t := ts[q[0] := v];
    forall k | 0 <= k < |q| - 1 ensures t[q[1..][k]] == ts[q[k + 1]] {
      assert q[1..][k] == q[k + 1] != q[0];
    }
  }

  /** The records list and the incoming record as a matching loop leaves them. */
  datatype Fill = Fill(records: seq<Order>, incoming: Order)

  // ---------------------------------------------------------------------------------------------
  // buy2

  /** A sell record the incoming buy takes whole: EXECUTED, with an execution of all its shares at
      its own ask. */
  function FilledAsk(ask: Order, buyer: int): Order
  {
    ask.(status := Executed, executions := ask.executions + [Execution(buyer, ask.price, ask.shares)])
  }

  /** A sell record larger than the incoming buy: its shares drop by the buy's shares and its
      execution is priced at the highest ask seen; its status is left alone. */
  function ReducedAsk(ask: Order, buyer: int, shares: int, highestAsk: int): Order
  {
    ask.(shares := ask.shares - shares, executions := ask.executions + [Execution(buyer, highestAsk, shares)])
  }

  /** The loop of buy2 over the queue positions not visited yet, with `highestAsk` the value of
      `highest_ask` on entry. `shares` is also `processed_shares`, which the loop never lowers. */
  function BuyFill(ts: seq<Order>, incoming: Order, shares: int, highestAsk: int, q: seq<nat>): (f: Fill)
    requires InRange(ts, q)
    ensures |f.records| == |ts|
    ensures SameIdentity(f.incoming, incoming) && f.incoming.shares == incoming.shares
    ensures |incoming.executions| <= |f.incoming.executions| <= |incoming.executions| + |q|
    ensures f.incoming.executions[..|incoming.executions|] == incoming.executions
    decreases |q|
  {
    if q == [] then Fill(ts, incoming)
    else
      var ask := ts[q[0]];
      var highest := if ask.price > highestAsk then ask.price else highestAsk;
      if ask.shares <= shares then
        BuyFill(ts[q[0] := FilledAsk(ask, incoming.orderNum)],
                incoming.(executions := incoming.executions + [Execution(ask.orderNum, highest, ask.shares)]),
                shares, highest, q[1..])
      else
        Fill(ts[q[0] := ReducedAsk(ask, incoming.orderNum, shares, highest)],
             incoming.(status := Executed,
                       executions := incoming.executions + [Execution(ask.orderNum, highest, shares)]))
  }

  /** One visit of buy2's loop, at queue position k, that takes the sell whole. */
  lemma BuyVisitWhole(ts: seq<Order>, incoming: Order, shares: int, highestAsk: int, q: seq<nat>, k: nat)
    requires InRange(ts, q) && k < |q| && ts[q[k]].shares <= shares
    ensures var ask := ts[q[k]];
            var highest := if ask.price > highestAsk then ask.price else highestAsk;
            InRange(ts[q[k] := FilledAsk(ask, incoming.orderNum)], q[k + 1..])
            && BuyFill(ts, incoming, shares, highestAsk, q[k..])
               == BuyFill(ts[q[k] := FilledAsk(ask, incoming.orderNum)],
                          incoming.(executions := incoming.executions + [Execution(ask.orderNum, highest, ask.shares)]),
                          shares, highest, q[k + 1..])
  {
    assert q[k..][0] == q[k] && q[k..][1..] == q[k + 1..];
  }

  /** One visit of buy2's loop, at queue position k, that meets a sell larger than the buy: the
      loop ends there. */
  lemma BuyVisitLast(ts: seq<Order>, incoming: Order, shares: int, highestAsk: int, q: seq<nat>, k: nat)
    requires InRange(ts, q) && k < |q| && ts[q[k]].shares > shares
    ensures var ask := ts[q[k]];
            var highest := if ask.price > highestAsk then ask.price else highestAsk;
            BuyFill(ts, incoming, shares, highestAsk, q[k..])
            == Fill(ts[q[k] := ReducedAsk(ask, incoming.orderNum, shares, highest)],
                    incoming.(status := Executed,
                              executions := incoming.executions + [Execution(ask.orderNum, highest, shares)]))
  {
    assert q[k..][0] == q[k];
  }

  /** Position of the first record with more shares than `shares`, or |rs| when there is none. */
  function FirstOversized(rs: seq<Order>, shares: int): (s: nat)
    ensures s <= |rs|
    ensures forall k :: 0 <= k < s ==> rs[k].shares <= shares
    ensures s < |rs| ==> rs[s].shares > shares
  {
    if rs == [] || rs[0].shares > shares then 0 else 1 + FirstOversized(rs[1..], shares)
  }

  /** `highest_ask` after the first visit: the first record's ask when it exceeds the entry value. */
  function Peak(rs: seq<Order>, highestAsk: int): int
  {
    if rs != [] && rs[0].price > highestAsk then rs[0].price else highestAsk
  }

  /** The executions the incoming buy records for sells it takes whole, all priced at `price`. */
  function BuyerLog(rs: seq<Order>, price: int): seq<Execution>
  {
    seq(|rs|, k requires 0 <= k < |rs| => Execution(rs[k].orderNum, price, rs[k].shares))
  }

  /** A queue sorted by descending ask has no ask above the first one. */
  lemma SortedDescBelowPeak(ts: seq<Order>, q: seq<nat>, highestAsk: int)
    requires InRange(ts, q) && Sorted(ts, q, true)
    ensures forall k :: 0 <= k < |q| ==> ts[q[k]].price <= Peak(Queued(ts, q), highestAsk)
  {
    forall k | 0 < k < |q| ensures ts[q[k]].price <= ts[q[0]].price {
      assert Precedes(ts, q[0], q[k], true);
    }
  }

  lemma DistinctTail(q: seq<nat>)
    requires Distinct(q) && q != []
    ensures q[0] !in q[1..] && Distinct(q[1..])
  {
    forall k | 0 <= k < |q| - 1 ensures q[1..][k] != q[0] {
      assert q[1..][k] == q[k + 1];
    }
  }

  /** One visit of buy2's loop that takes the first queued sell whole and writes v in its place:
      the rest of the queue still names the same records, `highest_ask` is now at its peak and
      stays there, and the loop stops one visit later than it would on the rest. */
  lemma BuyStep(ts: seq<Order>, q: seq<nat>, v: Order, shares: int, highestAsk: int)
    requires InRange(ts, q) && Distinct(q) && q != []
    requires forall k :: 0 <= k < |q| ==> ts[q[k]].price <= Peak(Queued(ts, q), highestAsk)
    requires ts[q[0]].shares <= shares
    ensures InRange(ts[q[0] := v], q[1..]) && Distinct(q[1..])
    ensures Queued(ts[q[0] := v], q[1..]) == Queued(ts, q)[1..]
    ensures Peak(Queued(ts, q), highestAsk)
              == (if ts[q[0]].price > highestAsk then ts[q[0]].price else highestAsk)
    ensures Peak(Queued(ts, q)[1..], Peak(Queued(ts, q), highestAsk)) == Peak(Queued(ts, q), highestAsk)
    ensures forall k :: 0 <= k < |q| - 1 ==>
              ts[q[0] := v][q[1..][k]].price <= Peak(Queued(ts, q), highestAsk)
    ensures FirstOversized(Queued(ts, q), shares) == 1 + FirstOversized(Queued(ts, q)[1..], shares)
  {
    var rs := Queued(ts, q);
    assert rs[0] == ts[q[0]];
    DistinctTail(q);
    QueuedTail(ts, q, v);
    forall k | 0 <= k < |q| - 1 ensures ts[q[0] := v][q[1..][k]] == ts[q[k + 1]] {
      assert q[1..][k] == q[k + 1];
    }
  }

  /** buy2's loop writes only queued records, and never their number, symbol, price or side. */
  lemma {:induction false} BuyFillFrame(ts: seq<Order>, incoming: Order, shares: int, highestAsk: int, q: seq<nat>)
    requires InRange(ts, q)
    ensures var r := BuyFill(ts, incoming, shares, highestAsk, q).records;
            |r| == |ts|
            && (forall i :: 0 <= i < |ts| ==> SameIdentity(r[i], ts[i]))
            && (forall i :: 0 <= i < |ts| && i !in q ==> r[i] == ts[i])
    ensures SameIdentity(BuyFill(ts, incoming, shares, highestAsk, q).incoming, incoming)
    decreases |q|
  {
    if q != [] {
      var ask := ts[q[0]];
      var h := if ask.price > highestAsk then ask.price else highestAsk;
      if ask.shares <= shares {
        var t := ts[q[0] := FilledAsk(ask, incoming.orderNum)];
        var inc := incoming.(executions := incoming.executions + [Execution(ask.orderNum, h, ask.shares)]);
        BuyFillFrame(t, inc, shares, h, q[1..]);
        forall i | 0 <= i < |ts| && i !in q ensures i !in q[1..] && i != q[0] {
        }
      }
    }
  }

  /** The queued sells before the first one larger than the buy are taken whole. */
  lemma {:induction false} BuyFillTaken(ts: seq<Order>, incoming: Order, shares: int, highestAsk: int, q: seq<nat>)
    requires InRange(ts, q) && Distinct(q)
    ensures |BuyFill(ts, incoming, shares, highestAsk, q).records| == |ts|
    ensures forall k :: 0 <= k < FirstOversized(Queued(ts, q), shares) ==>
              BuyFill(ts, incoming, shares, highestAsk, q).records[q[k]] == FilledAsk(ts[q[k]], incoming.orderNum)
    decreases |q|
  {
    if q != [] && ts[q[0]].shares <= shares {
      var c := q[0];
      var ask := ts[c];
      var h := if ask.price > highestAsk then ask.price else highestAsk;
      var v := FilledAsk(ask, incoming.orderNum);
      var t := ts[c := v];
      var inc := incoming.(executions := incoming.executions + [Execution(ask.orderNum, h, ask.shares)]);
      var rest := q[1..];
      DistinctTail(q);
      QueuedTail(ts, q, v);
      var r := BuyFill(t, inc, shares, h, rest).records;
      assert BuyFill(ts, incoming, shares, highestAsk, q).records == r;
      BuyFillTaken(t, inc, shares, h, rest);
      BuyFillFrame(t, inc, shares, h, rest);
      var rs := Queued(ts, q);
      var s' := FirstOversized(Queued(t, rest), shares);
      assert rs[0] == ask;
      assert FirstOversized(rs, shares) == s' + 1;
      assert r[c] == v;
      forall k | 0 < k < s' + 1 ensures r[q[k]] == FilledAsk(ts[q[k]], incoming.orderNum) {
        assert q[k] == rest[k - 1] && t[rest[k - 1]] == ts[q[k]];
      }
    }
  }

  /** The first queued sell larger than the buy is reduced by the buy's shares and priced at
      the highest ask, and the queued sells after it are untouched. */
  lemma {:induction false} BuyFillStopped(ts: seq<Order>, incoming: Order, shares: int, highestAsk: int, q: seq<nat>)
    requires InRange(ts, q) && Distinct(q)
    requires forall k :: 0 <= k < |q| ==> ts[q[k]].price <= Peak(Queued(ts, q), highestAsk)
    ensures |BuyFill(ts, incoming, shares, highestAsk, q).records| == |ts|
    ensures var r := BuyFill(ts, incoming, shares, highestAsk, q).records;
            var s := FirstOversized(Queued(ts, q), shares);
            (s < |q| ==> r[q[s]] == ReducedAsk(ts[q[s]], incoming.orderNum, shares, Peak(Queued(ts, q), highestAsk)))
            && (forall k :: s < k < |q| ==> r[q[k]] == ts[q[k]])
    decreases |q|
  {
    BuyFillFrame(ts, incoming, shares, highestAsk, q);
    if q != [] {
      var c := q[0];
      var ask := ts[c];
      var rs := Queued(ts, q);
      var h := Peak(rs, highestAsk);
      assert rs[0] == ask;
      DistinctTail(q);
      if ask.shares <= shares {
        var v := FilledAsk(ask, incoming.orderNum);
        var t := ts[c := v];
        var inc := incoming.(executions := incoming.executions + [Execution(ask.orderNum, h, ask.shares)]);
        var rest := q[1..];
        BuyStep(ts, q, v, shares, highestAsk);
        var r := BuyFill(t, inc, shares, h, rest).records;
        assert BuyFill(ts, incoming, shares, highestAsk, q).records == r;
        BuyFillStopped(t, inc, shares, h, rest);
        var s' := FirstOversized(Queued(t, rest), shares);
        assert Queued(t, rest) == rs[1..];
        assert FirstOversized(rs, shares) == s' + 1;
        assert Peak(Queued(t, rest), h) == h;
        forall k | 0 < k < |q| ensures q[k] == rest[k - 1] && t[rest[k - 1]] == ts[q[k]] {
        }
      } else {
        forall k | 0 < k < |q| ensures q[k] != c {
          assert q[k] == q[1..][k - 1];
        }
      }
    }
  }

  /** What buy2's loop does to the queued records: the sells before the first one larger than
      the buy are EXECUTED whole at their own ask, that one is reduced by the buy's shares and
      priced at the highest ask, and the queued sells after it are untouched. */
  lemma BuyFillRecords(ts: seq<Order>, incoming: Order, shares: int, highestAsk: int, q: seq<nat>)
    requires InRange(ts, q) && Distinct(q)
    requires forall k :: 0 <= k < |q| ==> ts[q[k]].price <= Peak(Queued(ts, q), highestAsk)
    ensures |BuyFill(ts, incoming, shares, highestAsk, q).records| == |ts|
    ensures var r := BuyFill(ts, incoming, shares, highestAsk, q).records;
            var s := FirstOversized(Queued(ts, q), shares);
            (forall k :: 0 <= k < s ==> r[q[k]] == FilledAsk(ts[q[k]], incoming.orderNum))
            && (s < |q| ==> r[q[s]] == ReducedAsk(ts[q[s]], incoming.orderNum, shares, Peak(Queued(ts, q), highestAsk)))
            && (forall k :: s < k < |q| ==> r[q[k]] == ts[q[k]])
  {
    BuyFillTaken(ts, incoming, shares, highestAsk, q);
    BuyFillStopped(ts, incoming, shares, highestAsk, q);
  }

  /** buy2's loop keeps the incoming record's identity and shares, and makes it EXECUTED exactly
      when some queued sell is larger than it. */
  lemma {:induction false} BuyFillStatus(ts: seq<Order>, incoming: Order, shares: int, highestAsk: int, q: seq<nat>)
    requires InRange(ts, q) && Distinct(q)
    ensures var f := BuyFill(ts, incoming, shares, highestAsk, q).incoming;
            SameIdentity(f, incoming) && f.shares == incoming.shares
            && f.status == (if FirstOversized(Queued(ts, q), shares) < |q| then Executed else incoming.status)
    decreases |q|
  {
    if q != [] {
      var ask := ts[q[0]];
      var rs := Queued(ts, q);
      assert rs[0] == ask;
      if ask.shares <= shares {
        var h := if ask.price > highestAsk then ask.price else highestAsk;
        var v := FilledAsk(ask, incoming.orderNum);
        var inc := incoming.(executions := incoming.executions + [Execution(ask.orderNum, h, ask.shares)]);
        DistinctTail(q);
        QueuedTail(ts, q, v);
        BuyFillStatus(ts[q[0] := v], inc, shares, h, q[1..]);
        assert FirstOversized(rs, shares) == 1 + FirstOversized(rs[1..], shares);
      }
    }
  }

  /** The executions buy2's loop gives the incoming record: one per sell taken whole, then one
      for the sell that stops the loop, if any, all priced at the highest ask. */
  lemma {:induction false} BuyFillLog(ts: seq<Order>, incoming: Order, shares: int, highestAsk: int, q: seq<nat>)
    requires InRange(ts, q) && Distinct(q)
    requires forall k :: 0 <= k < |q| ==> ts[q[k]].price <= Peak(Queued(ts, q), highestAsk)
    ensures var rs := Queued(ts, q);
            var s := FirstOversized(rs, shares);
            var h := Peak(rs, highestAsk);
            BuyFill(ts, incoming, shares, highestAsk, q).incoming.executions
            == incoming.executions + BuyerLog(rs[..s], h)
               + (if s < |q| then [Execution(rs[s].orderNum, h, shares)] else [])
    decreases |q|
  {
    if q != [] {
      var c := q[0];
      var ask := ts[c];
      var rs := Queued(ts, q);
      var h := Peak(rs, highestAsk);
      assert rs[0] == ask;
      if ask.shares <= shares {
        var v := FilledAsk(ask, incoming.orderNum);
        var t := ts[c := v];
        var inc := incoming.(executions := incoming.executions + [Execution(ask.orderNum, h, ask.shares)]);
        var rest := q[1..];
        BuyStep(ts, q, v, shares, highestAsk);
        assert BuyFill(ts, incoming, shares, highestAsk, q) == BuyFill(t, inc, shares, h, rest);
        BuyFillLog(t, inc, shares, h, rest);
        var rs' := Queued(t, rest);
        var s' := FirstOversized(rs', shares);
        assert rs' == rs[1..];
        assert Peak(rs', h) == h;
        BuyerLogCons(rs, s', h);
        assert s' < |rest| ==> rs'[s'] == rs[s' + 1];
      } else {
        assert BuyerLog(rs[..0], h) == [];
      }
    }
  }

  /** What buy2's loop does to the incoming record: one execution per sell it takes whole, then
      one for the sell that stops the loop, if any, all priced at the highest ask; the record
      becomes EXECUTED exactly when some queued sell is larger than it. */
  lemma BuyFillIncoming(ts: seq<Order>, incoming: Order, shares: int, highestAsk: int, q: seq<nat>)
    requires InRange(ts, q) && Distinct(q)
    requires forall k :: 0 <= k < |q| ==> ts[q[k]].price <= Peak(Queued(ts, q), highestAsk)
    ensures var f := BuyFill(ts, incoming, shares, highestAsk, q).incoming;
            var rs := Queued(ts, q);
            var s := FirstOversized(rs, shares);
            var h := Peak(rs, highestAsk);
            SameIdentity(f, incoming) && f.shares == incoming.shares
            && f.executions == incoming.executions + BuyerLog(rs[..s], h)
                                 + (if s < |q| then [Execution(rs[s].orderNum, h, shares)] else [])
            && f.status == (if s < |q| then Executed else incoming.status)
  {
    BuyFillStatus(ts, incoming, shares, highestAsk, q);
    BuyFillLog(ts, incoming, shares, highestAsk, q);
  }

  lemma BuyerLogCons(rs: seq<Order>, n: nat, price: int)
    requires n < |rs|
    ensures BuyerLog(rs[..n + 1], price)
            == [Execution(rs[0].orderNum, price, rs[0].shares)] + BuyerLog(rs[1..][..n], price)
  {
  }

  lemma BuyerLogPrices(rs: seq<Order>, price: int)
    ensures forall k :: 0 <= k < |BuyerLog(rs, price)| ==> BuyerLog(rs, price)[k].price == price
  {
  }

  /** The prices buy2 writes stay within the crossing range: on a queue in descending ask order
      whose asks are at most the bid, every execution the incoming buy records is priced at one
      value, no lower than the ask of any queued sell and, for a non-negative bid, no higher than
      the bid. Queue(ts, Buy, symbol, bid) is such a queue. */
  lemma BuyPricesWithinBid(ts: seq<Order>, incoming: Order, shares: int, bid: int, q: seq<nat>)
    requires InRange(ts, q) && Distinct(q) && Sorted(ts, q, true)
    requires forall k :: 0 <= k < |q| ==> ts[q[k]].price <= bid
    requires bid >= 0
    ensures var f := BuyFill(ts, incoming, shares, 0, q).incoming;
            var h := Peak(Queued(ts, q), 0);
            |f.executions| >= |incoming.executions|
            && (forall k :: |incoming.executions| <= k < |f.executions| ==> f.executions[k].price == h)
            && (forall k :: 0 <= k < |q| ==> ts[q[k]].price <= h)
            && h <= bid
  {
    var rs := Queued(ts, q);
    var h := Peak(rs, 0);
    SortedDescBelowPeak(ts, q, 0);
    BuyFillIncoming(ts, incoming, shares, 0, q);
    if q != [] {
      assert rs[0] == ts[q[0]];
    }
    var s := FirstOversized(rs, shares);
    var f := BuyFill(ts, incoming, shares, 0, q).incoming;
    var tail := BuyerLog(rs[..s], h) + (if s < |q| then [Execution(rs[s].orderNum, h, shares)] else []);
    BuyerLogPrices(rs[..s], h);
    assert forall k :: 0 <= k < |tail| ==> tail[k].price == h;
    assert f.executions == incoming.executions + tail;
  }

  // ---------------------------------------------------------------------------------------------
  // sell2

  /** What sell2's loop body does to one queued buy record: a buy no larger than the sell is
      EXECUTED with an execution of all its shares; a larger one keeps its status, its shares drop
      by the sell's shares, and its execution records the shares it has left. Both at the ask. */
  function SellResting(bid: Order, seller: int, shares: int, ask: int): Order
  {
    if bid.shares <= shares then
      bid.(status := Executed, executions := bid.executions + [Execution(seller, ask, bid.shares)])
    else
      var left := bid.shares - shares;
      bid.(shares := left, executions := bid.executions + [Execution(seller, ask, left)])
  }

  /** The execution the incoming sell records for one queued buy record. */
  function SellTaken(bid: Order, shares: int, ask: int): Execution
  {
    Execution(bid.orderNum, ask, if bid.shares <= shares then bid.shares else shares)
  }

  /** The loop of sell2 over the queue positions not visited yet. It has no `break`: every
      queued buy is visited, whatever happened to the incoming sell before. */
  function SellFill(ts: seq<Order>, incoming: Order, shares: int, ask: int, q: seq<nat>): (f: Fill)
    requires InRange(ts, q)
    ensures |f.records| == |ts|
    ensures SameIdentity(f.incoming, incoming) && f.incoming.shares == incoming.shares
    ensures |f.incoming.executions| == |incoming.executions| + |q|
    ensures f.incoming.executions[..|incoming.executions|] == incoming.executions
    decreases |q|
  {
    if q == [] then Fill(ts, incoming)
    else
      var bid := ts[q[0]];
      var inc := incoming.(executions := incoming.executions + [SellTaken(bid, shares, ask)]);
      SellFill(ts[q[0] := SellResting(bid, incoming.orderNum, shares, ask)],
               if bid.shares <= shares then inc else inc.(status := Executed),
               shares, ask, q[1..])
  }

  /** sell2's loop writes only queued records, and never their number, symbol, price or side. */
  lemma {:induction false} SellFillFrame(ts: seq<Order>, incoming: Order, shares: int, ask: int, q: seq<nat>)
    requires InRange(ts, q)
    ensures var f := SellFill(ts, incoming, shares, ask, q);
            |f.records| == |ts|
            && (forall i :: 0 <= i < |ts| ==> SameIdentity(f.records[i], ts[i]))
            && SameIdentity(f.incoming, incoming)
    decreases |q|
  {
    if q != [] {
      var bid := ts[q[0]];
      var inc := incoming.(executions := incoming.executions + [SellTaken(bid, shares, ask)]);
      SellFillFrame(ts[q[0] := SellResting(bid, incoming.orderNum, shares, ask)],
                    if bid.shares <= shares then inc else inc.(status := Executed), shares, ask, q[1..]);
    }
  }

  /** One visit of sell2's loop, at queue position k. */
  lemma SellVisit(ts: seq<Order>, incoming: Order, shares: int, ask: int, q: seq<nat>, k: nat)
    requires InRange(ts, q) && k < |q|
    ensures var bid := ts[q[k]];
            var inc := incoming.(executions := incoming.executions + [SellTaken(bid, shares, ask)]);
            InRange(ts[q[k] := SellResting(bid, incoming.orderNum, shares, ask)], q[k + 1..])
            && SellFill(ts, incoming, shares, ask, q[k..])
               == SellFill(ts[q[k] := SellResting(bid, incoming.orderNum, shares, ask)],
                           if bid.shares <= shares then inc else inc.(status := Executed),
                           shares, ask, q[k + 1..])
  {
    assert q[k..][0] == q[k] && q[k..][1..] == q[k + 1..];
  }

  function SellLog(rs: seq<Order>, shares: int, ask: int): seq<Execution>
  {
    seq(|rs|, k requires 0 <= k < |rs| => SellTaken(rs[k], shares, ask))
  }

  /** What sell2's loop does to the records: every queued buy is treated by the same rule,
      independently of the others, and every other record is untouched. */
  lemma {:induction false} SellFillRecords(ts: seq<Order>, incoming: Order, shares: int, ask: int, q: seq<nat>)
    requires InRange(ts, q) && Distinct(q)
    ensures |SellFill(ts, incoming, shares, ask, q).records| == |ts|
    ensures forall k :: 0 <= k < |q| ==>
              SellFill(ts, incoming, shares, ask, q).records[q[k]] == SellResting(ts[q[k]], incoming.orderNum, shares, ask)
    ensures forall i :: 0 <= i < |ts| && i !in q ==> SellFill(ts, incoming, shares, ask, q).records[i] == ts[i]
    decreases |q|
  {
    if q != [] {
      var c := q[0];
      var bid := ts[c];
      assert c !in q[1..] by {
        forall k | 0 <= k < |q| - 1 ensures q[1..][k] != c { assert q[1..][k] == q[k + 1]; }
      }
      var t := ts[c := SellResting(bid, incoming.orderNum, shares, ask)];
      var inc := incoming.(executions := incoming.executions + [SellTaken(bid, shares, ask)]);
      var inc' := if bid.shares <= shares then inc else inc.(status := Executed);
      var rest := q[1..];
      assert InRange(t, rest) && Distinct(rest);
      SellFillRecords(t, inc', shares, ask, rest);
      var r := SellFill(t, inc', shares, ask, rest).records;
      assert SellFill(ts, incoming, shares, ask, q).records == r;
      forall k | 0 <= k < |q| ensures r[q[k]] == SellResting(ts[q[k]], incoming.orderNum, shares, ask) {
        if k > 0 {
          assert q[k] == rest[k - 1] && t[rest[k - 1]] == ts[q[k]];
        }
      }
      forall i | 0 <= i < |ts| && i !in q ensures r[i] == ts[i] {
        assert i != c && i !in rest;
      }
    }
  }

  /** sell2's loop keeps the incoming record's identity and shares, and makes it EXECUTED
      exactly when some queued buy is larger than it. */
  lemma {:induction false} SellFillStatus(ts: seq<Order>, incoming: Order, shares: int, ask: int, q: seq<nat>)
    requires InRange(ts, q) && Distinct(q)
    ensures var f := SellFill(ts, incoming, shares, ask, q).incoming;
            SameIdentity(f, incoming) && f.shares == incoming.shares
            && f.status == (if FirstOversized(Queued(ts, q), shares) < |q| then Executed else incoming.status)
    decreases |q|
  {
    if q != [] {
      var c := q[0];
      var bid := ts[c];
      var rs := Queued(ts, q);
      assert rs[0] == bid;
      DistinctTail(q);
      var v := SellResting(bid, incoming.orderNum, shares, ask);
      var inc := incoming.(executions := incoming.executions + [SellTaken(bid, shares, ask)]);
      var inc' := if bid.shares <= shares then inc else inc.(status := Executed);
      QueuedTail(ts, q, v);
      assert SellFill(ts, incoming, shares, ask, q) == SellFill(ts[c := v], inc', shares, ask, q[1..]);
      SellFillStatus(ts[c := v], inc', shares, ask, q[1..]);
      if bid.shares <= shares {
        assert FirstOversized(rs, shares) == FirstOversized(rs[1..], shares) + 1;
      } else {
        assert FirstOversized(rs, shares) == 0;
        assert SellFill(ts[c := v], inc', shares, ask, q[1..]).incoming.status == Executed;
      }
    }
  }

  lemma SellLogCons(rs: seq<Order>, shares: int, ask: int)
    requires rs != []
    ensures SellLog(rs, shares, ask) == [SellTaken(rs[0], shares, ask)] + SellLog(rs[1..], shares, ask)
  {
  }

  /** The executions sell2's loop gives the incoming record: one per queued buy, in visiting
      order. */
  lemma {:induction false} SellFillLog(ts: seq<Order>, incoming: Order, shares: int, ask: int, q: seq<nat>)
    requires InRange(ts, q) && Distinct(q)
    ensures SellFill(ts, incoming, shares, ask, q).incoming.executions
            == incoming.executions + SellLog(Queued(ts, q), shares, ask)
    decreases |q|
  {
    if q != [] {
      var c := q[0];
      var bid := ts[c];
      var rs := Queued(ts, q);
      assert rs[0] == bid;
      DistinctTail(q);
      var v := SellResting(bid, incoming.orderNum, shares, ask);
      var inc := incoming.(executions := incoming.executions + [SellTaken(bid, shares, ask)]);
      var inc' := if bid.shares <= shares then inc else inc.(status := Executed);
      QueuedTail(ts, q, v);
      assert SellFill(ts, incoming, shares, ask, q) == SellFill(ts[c := v], inc', shares, ask, q[1..]);
      SellFillLog(ts[c := v], inc', shares, ask, q[1..]);
      SellLogCons(rs, shares, ask);
    }
  }

  /** What sell2's loop does to the incoming record: one execution per queued buy, in visiting
      order, all at the incoming ask; it becomes EXECUTED exactly when some queued buy is larger
      than it, and its own shares never change. */
  lemma SellFillIncoming(ts: seq<Order>, incoming: Order, shares: int, ask: int, q: seq<nat>)
    requires InRange(ts, q) && Distinct(q)
    ensures var f := SellFill(ts, incoming, shares, ask, q).incoming;
            SameIdentity(f, incoming) && f.shares == incoming.shares
            && f.executions == incoming.executions + SellLog(Queued(ts, q), shares, ask)
            && f.status == (if FirstOversized(Queued(ts, q), shares) < |q| then Executed else incoming.status)
  {
    SellFillStatus(ts, incoming, shares, ask, q);
    SellFillLog(ts, incoming, shares, ask, q);
  }

  /** Every execution the incoming sell records is priced at its own ask and names the queued
      buy it was taken from, in visiting order. */
  lemma SellIncomingAtAsk(ts: seq<Order>, incoming: Order, shares: int, ask: int, q: seq<nat>)
    requires InRange(ts, q) && Distinct(q)
    ensures var f := SellFill(ts, incoming, shares, ask, q).incoming;
            var n := |incoming.executions|;
            |f.executions| == n + |q|
            && (forall k :: 0 <= k < |q| ==>
                  f.executions[n + k].price == ask && f.executions[n + k].counterparty == ts[q[k]].orderNum)
  {
    SellFillLog(ts, incoming, shares, ask, q);
    SellLogAt(ts, q, incoming.executions, SellFill(ts, incoming, shares, ask, q).incoming.executions, shares, ask);
  }

  /** A log of prior executions followed by the sell's log over the queue holds, after the prior
      ones, one execution per queued buy, in queue order, each at the ask. */
  lemma SellLogAt(ts: seq<Order>, q: seq<nat>, prior: seq<Execution>, e: seq<Execution>, shares: int, ask: int)
    requires InRange(ts, q) && e == prior + SellLog(Queued(ts, q), shares, ask)
    ensures |e| == |prior| + |q|
    ensures forall k :: 0 <= k < |q| ==> e[|prior| + k] == SellTaken(ts[q[k]], shares, ask)
  {
    var rs := Queued(ts, q);
    var log := SellLog(rs, shares, ask);
    forall k | 0 <= k < |q| ensures e[|prior| + k] == SellTaken(ts[q[k]], shares, ask) {
      assert e[|prior| + k] == log[k];
      assert rs[k] == ts[q[k]];
    }
  }

  /** Every queued buy gains exactly one execution from sell2, priced at the incoming ask and
      naming the incoming sell. */
  lemma SellRestingAtAsk(ts: seq<Order>, incoming: Order, shares: int, ask: int, q: seq<nat>)
    requires InRange(ts, q) && Distinct(q)
    ensures var r := SellFill(ts, incoming, shares, ask, q).records;
            |r| == |ts|
            && (forall k :: 0 <= k < |q| ==>
                  var e := r[q[k]].executions;
                  |e| == |ts[q[k]].executions| + 1
                  && e[..|e| - 1] == ts[q[k]].executions
                  && e[|e| - 1].price == ask
                  && e[|e| - 1].counterparty == incoming.orderNum)
  {
    SellFillRecords(ts, incoming, shares, ask, q);
  }

  // ---------------------------------------------------------------------------------------------
  // buy2 and sell2 on their candidate queues

  /** What buy2 does to the list and to the incoming buy `incoming` for `shares` at `bid`:
      records that are not PENDING sells for the symbol asking at most the bid are untouched;
      in descending-ask order, the queued sells before the first one larger than the buy are
      taken whole, that one is reduced, and the rest are untouched. Every price written on the
      buyer's side is one value h: the larger of 0 and the first queued ask, which is no lower
      than any queued ask. */
  lemma BuyOnQueue(ts: seq<Order>, incoming: Order, shares: int, symbol: string, bid: int)
    ensures var q := Queue(ts, Buy, symbol, bid);
            var rs := Queued(ts, q);
            var s := FirstOversized(rs, shares);
            var h := Peak(rs, 0);
            var f := BuyFill(ts, incoming, shares, 0, q);
            |f.records| == |ts|
            && (forall i :: 0 <= i < |ts| && !IsCandidate(ts[i], Buy, symbol, bid) ==> f.records[i] == ts[i])
            && (forall k :: 0 <= k < s ==> f.records[q[k]] == FilledAsk(ts[q[k]], incoming.orderNum))
            && (s < |q| ==> f.records[q[s]] == ReducedAsk(ts[q[s]], incoming.orderNum, shares, h))
            && (forall k :: s < k < |q| ==> f.records[q[k]] == ts[q[k]])
            && f.incoming.executions == incoming.executions + BuyerLog(rs[..s], h)
                                          + (if s < |q| then [Execution(rs[s].orderNum, h, shares)] else [])
            && f.incoming.status == (if s < |q| then Executed else incoming.status)
            && h == (if q != [] && ts[q[0]].price > 0 then ts[q[0]].price else 0)
            && (forall k :: 0 <= k < |q| ==> ts[q[k]].price <= h)
  {
    var q := Queue(ts, Buy, symbol, bid);
    SortedDescBelowPeak(ts, q, 0);
    BuyFillFrame(ts, incoming, shares, 0, q);
    BuyFillRecords(ts, incoming, shares, 0, q);
    BuyFillIncoming(ts, incoming, shares, 0, q);
    if q != [] {
      assert Queued(ts, q)[0] == ts[q[0]];
    }
  }

  /** highest_ask starts at 0, so with a negative bid buy2 prices the buyer's execution above
      its own bid: a sell of 5 at -5 cents meets a buy of 10 at -3 cents, and the buyer records
      the trade at 0. */
  lemma BuyPriceAboveNegativeBid()
    ensures var ts := [NewOrder(1, "GOOG", 5, -5, Sell)];
            var incoming := NewOrder(2, "GOOG", 10, -3, Buy);
            var f := BuyFill(ts, incoming, 10, 0, Queue(ts, Buy, "GOOG", -3)).incoming;
            f.executions == [Execution(1, 0, 5)] && f.executions[0].price > incoming.price
  {
    var ts := [NewOrder(1, "GOOG", 5, -5, Sell)];
    var q := Queue(ts, Buy, "GOOG", -3);
    assert IsCandidate(ts[0], Buy, "GOOG", -3);
    assert 0 in q;
    assert q == [0];
  }

  /** What sell2 does to the list and to the incoming sell `incoming` for `shares` at `ask`:
      each record that is a PENDING buy for the symbol bidding at least the ask is rewritten by
      the SellResting rule and every other record is untouched; the incoming sell gains one
      execution per such buy, in ascending-bid order, each at the ask. */
  lemma SellOnQueue(ts: seq<Order>, incoming: Order, shares: int, symbol: string, ask: int)
    ensures var q := Queue(ts, Sell, symbol, ask);
            var f := SellFill(ts, incoming, shares, ask, q);
            var n := |incoming.executions|;
            |f.records| == |ts|
            && (forall i :: 0 <= i < |ts| ==>
                  f.records[i] == if IsCandidate(ts[i], Sell, symbol, ask)
                                  then SellResting(ts[i], incoming.orderNum, shares, ask) else ts[i])
            && |f.incoming.executions| == n + |q|
            && f.incoming.executions[..n] == incoming.executions
            && (forall k :: 0 <= k < |q| ==> f.incoming.executions[n + k] == SellTaken(ts[q[k]], shares, ask))
            && f.incoming.status == (if FirstOversized(Queued(ts, q), shares) < |q| then Executed else incoming.status)
  {
    var q := Queue(ts, Sell, symbol, ask);
    var f := SellFill(ts, incoming, shares, ask, q);
    SellFillRecords(ts, incoming, shares, ask, q);
    SellFillIncoming(ts, incoming, shares, ask, q);
    SellRecordsByCandidate(ts, f.records, q, incoming.orderNum, shares, symbol, ask);
    SellLogAt(ts, q, incoming.executions, f.incoming.executions, shares, ask);
  }

  /** Records rewritten at the queued positions only, with the queue holding exactly the
      candidates, are rewritten exactly at the candidates. */
  lemma SellRecordsByCandidate(ts: seq<Order>, r: seq<Order>, q: seq<nat>, seller: int, shares: int, symbol: string, ask: int)
    requires InRange(ts, q) && |r| == |ts|
    requires forall i :: 0 <= i < |ts| ==> (i in q <==> IsCandidate(ts[i], Sell, symbol, ask))
    requires forall k :: 0 <= k < |q| ==> r[q[k]] == SellResting(ts[q[k]], seller, shares, ask)
    requires forall i :: 0 <= i < |ts| && i !in q ==> r[i] == ts[i]
    ensures forall i :: 0 <= i < |ts| ==>
              r[i] == if IsCandidate(ts[i], Sell, symbol, ask) then SellResting(ts[i], seller, shares, ask) else ts[i]
  {
    forall i | 0 <= i < |ts| && i in q ensures r[i] == SellResting(ts[i], seller, shares, ask) {
      var k :| 0 <= k < |q| && q[k] == i;
    }
  }

  // ---------------------------------------------------------------------------------------------
  // The matching loops, updating the records of the list one at a time

  /** buy2's loop over the sells in `sellsByAsk`, with `highest_ask` starting at 0 and
      `processed_shares` equal to `shares` throughout. */
  method MatchBuy(ts: seq<Order>, incoming: Order, shares: int, sellsByAsk: seq<nat>) returns (f: Fill)
    requires InRange(ts, sellsByAsk)
    ensures f == BuyFill(ts, incoming, shares, 0, sellsByAsk)
  {
    var transactions, transaction := ts, incoming;
    var processedShares := shares;
    var highestAsk := 0;
    var k := 0;
    while k < |sellsByAsk|
      invariant 0 <= k <= |sellsByAsk|
      invariant |transactions| == |ts| && InRange(transactions, sellsByAsk)
      invariant BuyFill(transactions, transaction, shares, highestAsk, sellsByAsk[k..])
                == BuyFill(ts, incoming, shares, 0, sellsByAsk)
    {
      var i := sellsByAsk[k];
      var ask := transactions[i];
      ghost var before, h := transactions, highestAsk;
      if ask.price > highestAsk {
        highestAsk := ask.price;
      }
      if ask.shares <= processedShares {
        BuyVisitWhole(before, transaction, shares, h, sellsByAsk, k);
        transactions := transactions[i := ask.(status := Executed,
                                               executions := ask.executions + [Execution(transaction.orderNum, ask.price, ask.shares)])];
        transaction := transaction.(executions := transaction.executions + [Execution(ask.orderNum, highestAsk, ask.shares)]);
      } else {
        BuyVisitLast(before, transaction, shares, h, sellsByAsk, k);
        transactions := transactions[i := ask.(shares := ask.shares - processedShares,
                                               executions := ask.executions + [Execution(transaction.orderNum, highestAsk, shares)])];
        transaction := transaction.(status := Executed,
                                    executions := transaction.executions + [Execution(ask.orderNum, highestAsk, shares)]);
        return Fill(transactions, transaction);
      }
      k := k + 1;
    }
    f := Fill(transactions, transaction);
  }

  /** sell2's loop over the buys in `buysByAsk`, in the order of its statements. */
  method MatchSell(ts: seq<Order>, incoming: Order, shares: int, ask: int, buysByAsk: seq<nat>) returns (f: Fill)
    requires InRange(ts, buysByAsk)
    ensures f == SellFill(ts, incoming, shares, ask, buysByAsk)
  {
    var transactions, transaction := ts, incoming;
    var k := 0;
    while k < |buysByAsk|
      invariant 0 <= k <= |buysByAsk|
      invariant |transactions| == |ts| && InRange(transactions, buysByAsk)
      invariant SellFill(transactions, transaction, shares, ask, buysByAsk[k..])
                == SellFill(ts, incoming, shares, ask, buysByAsk)
    {
      var i := buysByAsk[k];
      var buy := transactions[i];
      ghost var before, sold, bid := transactions, transaction, buy;
      SellVisit(before, sold, shares, ask, buysByAsk, k);
      if buy.shares <= shares {
        buy := buy.(status := Executed);
        buy := buy.(executions := buy.executions + [Execution(transaction.orderNum, ask, buy.shares)]);
        transaction := transaction.(executions := transaction.executions + [Execution(buy.orderNum, ask, buy.shares)]);
      } else {
        transaction := transaction.(executions := transaction.executions + [Execution(buy.orderNum, ask, shares)]);
        transaction := transaction.(status := Executed);
        buy := buy.(shares := buy.shares - shares);
        buy := buy.(executions := buy.executions + [Execution(transaction.orderNum, ask, buy.shares)]);
      }
      assert buy == SellResting(bid, sold.orderNum, shares, ask);
      transactions := transactions[i := buy];
      k := k + 1;
    }
    f := Fill(transactions, transaction);
  }
}
