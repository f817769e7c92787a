/** The order book of backend/src/main/java/com/gamemarket/service/OrderService.java:
    the order records and the pure part of `createOrder` that picks and ranks the resting
    orders a new order may trade against (lines 78-103). */
module Book {

  datatype Side = Buy | Sell

  /** FILLED and CANCELLED are terminal. */
  datatype Status = Open | PartiallyFilled | Filled | Cancelled

  /** A limit order.  `quantity` is what is left to trade: the source overwrites it as the
      order fills, so the originally requested quantity is not kept.  `createTime` is the
      creation timestamp used as the tie-break between equal prices. */
  datatype Order = Order(
    id: nat,
    playerId: int,
    assetId: int,
    price: int,
    quantity: int,
    side: Side,
    status: Status,
    createTime: int)

  /** The order table, keyed by order id. */
  type Orders = map<nat, Order>

  /** Every stored order carries its own key as its id. */
  predicate KeysMatch(orders: Orders) {
    forall id :: id in orders ==> orders[id].id == id
  }

  /** The limit test of lines 89 and 97: a resting order may fill a BUY taker when it
      asks no more than the taker's limit, and a SELL taker when it bids no less. */
  predicate Crosses(taker: Order, c: Order) {
    if taker.side == Buy then c.price <= taker.price else c.price >= taker.price
  }

  /** The filters of lines 78-85, 89 and 97: an OPEN order for the same asset, from
      another player (no self-trade), other than the taker itself, on the opposite side,
      whose price crosses the taker's limit. */
  predicate Eligible(taker: Order, c: Order) {
    && c.status == Open
    && c.assetId == taker.assetId
    && c.playerId != taker.playerId
    && c.id != taker.id
    && c.side != taker.side
    && Crosses(taker, c)
  }

  /** The comparators of lines 90-94 and 98-102: `a` may be matched no later than `b`.
      Against a BUY taker the cheaper ask comes first, against a SELL taker the higher
      bid; at equal prices the earlier order comes first. */
  predicate Before(side: Side, a: Order, b: Order) {
    if side == Buy then
      a.price < b.price || (a.price == b.price && a.createTime <= b.createTime)
    else
      a.price > b.price || (a.price == b.price && a.createTime <= b.createTime)
  }

  /** `s` is in matching priority for a taker on `side`. */
  predicate Sorted(side: Side, s: seq<Order>) {
    forall i, j :: 0 <= i < j < |s| ==> Before(side, s[i], s[j])
  }

  /** Orders that rank equally come in ascending id order. */
  predicate TiesById(side: Side, s: seq<Order>) {
    forall i, j :: 0 <= i < j < |s| && Before(side, s[j], s[i]) ==> s[i].id < s[j].id
  }

  /** Strictly ascending ids, the order the table returns its rows in. */
  predicate AscendingIds(s: seq<Order>) {
    forall i, j :: 0 <= i < j < |s| ==> s[i].id < s[j].id
  }

  /** `findByStatus("OPEN")` (line 78): the OPEN orders among ids below `n`, in ascending
      id order (the order the table's primary key gives them). */
  function OpenOrders(orders: Orders, n: nat): (r: seq<Order>)
    ensures forall o :: o in r ==> o.status == Open && o in orders.Values
    ensures KeysMatch(orders) ==>
      forall o :: o in r <==> o.id < n && o.id in orders && orders[o.id] == o && o.status == Open
    ensures KeysMatch(orders) ==> AscendingIds(r)
  {
    if n == 0 then []
    else
      var id := n - 1;
      OpenOrders(orders, id)
        + if id in orders && orders[id].status == Open then [orders[id]] else []
  }

  /** The stream filters of lines 81-85, 89 and 97, keeping the input's order. */
  function Filter(taker: Order, s: seq<Order>): (r: seq<Order>)
    ensures forall o :: o in r <==> o in s && Eligible(taker, o)
    ensures |r| <= |s|
  {
    if s == [] then []
    else (if Eligible(taker, s[0]) then [s[0]] else []) + Filter(taker, s[1..])
  }

  /** Places `x` ahead of the first element it may be matched no later than; the elements
      it passes are strictly ahead of it, so equal keys keep their input order. */
  function Insert(side: Side, x: Order, t: seq<Order>): (r: seq<Order>)
    ensures multiset(r) == multiset(t) + multiset{x}
    ensures |r| == |t| + 1
  {
    if t == [] || Before(side, x, t[0]) then [x] + t
    else
      assert t == [t[0]] + t[1..];
      [t[0]] + Insert(side, x, t[1..])
  }

  /** The stable sort of lines 90-94 and 98-102, as an insertion sort. */
  function Sort(side: Side, s: seq<Order>): (r: seq<Order>)
    ensures multiset(r) == multiset(s)
    ensures |r| == |s|
  {
    if s == [] then []
    else
      assert s == [s[0]] + s[1..];
      Insert(side, s[0], Sort(side, s[1..]))
  }

  /** Either of two orders may be matched no later than the other. */
  lemma BeforeTotal(side: Side, a: Order, b: Order)
    ensures Before(side, a, b) || Before(side, b, a)
  {
  }

  /** Inserting into a sequence in priority order keeps it in priority order. */
  lemma {:induction false} InsertSorted(side: Side, x: Order, t: seq<Order>)
    requires Sorted(side, t)
    ensures Sorted(side, Insert(side, x, t))
  {
    if t == [] || Before(side, x, t[0]) {
      var r := [x] + t;
      forall i, j | 0 <= i < j < |r| ensures Before(side, r[i], r[j]) {
        if i == 0 {
          assert Before(side, x, t[0]);
          assert Before(side, t[0], t[j - 1]) || j == 1;
        }
      }
    } else {
      var rest := Insert(side, x, t[1..]);
      InsertSorted(side, x, t[1..]);
      var r := [t[0]] + rest;
      assert r == Insert(side, x, t);
      forall j | 0 <= j < |rest| ensures Before(side, t[0], rest[j]) {
        assert rest[j] in multiset(rest);
        if rest[j] == x {
          BeforeTotal(side, x, t[0]);
        } else {
          assert rest[j] in multiset(t[1..]);
          var k :| 0 <= k < |t[1..]| && t[1..][k] == rest[j];
          assert t[k + 1] == rest[j];
        }
      }
      forall i, j | 0 <= i < j < |r| ensures Before(side, r[i], r[j]) {
        if i == 0 {
          assert r[j] == rest[j - 1];
        } else {
          assert r[i] == rest[i - 1] && r[j] == rest[j - 1];
        }
      }
    }
  }

  /** The sort returns its input in priority order. */
  lemma {:induction false} SortSorted(side: Side, s: seq<Order>)
    ensures Sorted(side, Sort(side, s))
  {
    if s != [] {
      SortSorted(side, s[1..]);
      InsertSorted(side, s[0], Sort(side, s[1..]));
    }
  }

  /** Filtering keeps ids ascending. */
  lemma {:induction false} FilterAscending(taker: Order, s: seq<Order>)
    requires AscendingIds(s)
    ensures AscendingIds(Filter(taker, s))
  {
    if s != [] {
      var rest := Filter(taker, s[1..]);
      FilterAscending(taker, s[1..]);
      forall o | o in rest ensures s[0].id < o.id {
        var k :| 0 <= k < |s[1..]| && s[1..][k] == o;
        assert s[k + 1] == o;
      }
    }
  }

  /** Every element of an insertion is the inserted order or came from the input. */
  lemma InsertFrom(side: Side, x: Order, t: seq<Order>)
    ensures forall y :: y in Insert(side, x, t) <==> y == x || y in t
  {
    var r := Insert(side, x, t);
    forall y ensures y in r <==> y == x || y in t {
      assert y in r <==> y in multiset(r);
      assert y in t <==> y in multiset(t);
    }
  }

  /** Inserting an order whose id is below every id already there keeps equally ranked
      orders in ascending id order: `x` passes only orders that rank strictly ahead. */
  lemma {:induction false} InsertStable(side: Side, x: Order, t: seq<Order>)
    requires TiesById(side, t)
    requires forall o :: o in t ==> x.id < o.id
    ensures TiesById(side, Insert(side, x, t))
  {
    if t != [] && !Before(side, x, t[0]) {
      var rest := Insert(side, x, t[1..]);
      InsertStable(side, x, t[1..]);
      InsertFrom(side, x, t[1..]);
      var r := [t[0]] + rest;
      assert r == Insert(side, x, t);
      forall i, j | 0 <= i < j < |r| && Before(side, r[j], r[i]) ensures r[i].id < r[j].id {
        if i == 0 {
          var y := rest[j - 1];
          assert r[j] == y && y in rest;
          if y != x {
            var k :| 0 <= k < |t[1..]| && t[1..][k] == y;
            assert t[k + 1] == y;
          }
        } else {
          assert r[i] == rest[i - 1] && r[j] == rest[j - 1];
        }
      }
    }
  }

  /** Sorting a sequence with ascending ids is stable: equally ranked orders keep their
      input order. */
  lemma {:induction false} SortStable(side: Side, s: seq<Order>)
    requires AscendingIds(s)
    ensures TiesById(side, Sort(side, s))
  {
    if s != [] {
      var rest := Sort(side, s[1..]);
      SortStable(side, s[1..]);
      forall o | o in rest ensures s[0].id < o.id {
        assert o in multiset(rest);
        assert o in multiset(s[1..]);
        var k :| 0 <= k < |s[1..]| && s[1..][k] == o;
        assert s[k + 1] == o;
      }
      InsertStable(side, s[0], rest);
    }
  }

  /** In a sequence of stored orders whose equally ranked entries come in ascending id
      order, no order appears twice. */
  lemma TiesDistinct(side: Side, orders: Orders, s: seq<Order>)
    requires TiesById(side, s)
    requires forall o :: o in s ==> o.id in orders && orders[o.id] == o
    ensures forall i, j :: 0 <= i < j < |s| ==> s[i].id != s[j].id
  {
  }

  /** Lines 78-103: the resting orders the taker is matched against, in the order they
      are visited.  `n` bounds the ids in use. */
  function Candidates(orders: Orders, n: nat, taker: Order): (r: seq<Order>)
    ensures Sorted(taker.side, r)
    ensures forall o :: o in r ==> Eligible(taker, o) && o in orders.Values
    ensures KeysMatch(orders) ==>
      forall o :: o in r <==> o.id < n && o.id in orders && orders[o.id] == o && Eligible(taker, o)
    ensures KeysMatch(orders) ==> TiesById(taker.side, r)
    ensures KeysMatch(orders) ==> forall i, j :: 0 <= i < j < |r| ==> r[i].id != r[j].id
  {
    var open := OpenOrders(orders, n);
    var eligible := Filter(taker, open);
    SortSorted(taker.side, eligible);
    var r := Sort(taker.side, eligible);
    assert forall o :: o in r <==> o in eligible by {
      forall o ensures o in r <==> o in eligible {
        assert o in r <==> o in multiset(r);
      }
    }
    assert KeysMatch(orders) ==> TiesById(taker.side, r) by {
      if KeysMatch(orders) {
        FilterAscending(taker, open);
        SortStable(taker.side, eligible);
      }
    }
    assert KeysMatch(orders) ==> forall i, j :: 0 <= i < j < |r| ==> r[i].id != r[j].id by {
      if KeysMatch(orders) {
        TiesDistinct(taker.side, orders, r);
      }
    }
    r
  }
}
