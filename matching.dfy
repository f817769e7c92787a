/** The matching and settlement rules of `createOrder` and `cancelOrder` in
    backend/src/main/java/com/gamemarket/service/OrderService.java, stated as functions
    of the whole market state.  Each service call runs in one transaction, so a call is
    one step from a market to a market (or to an error, with the market untouched).
    The class `OrderService` of module `Engine` performs these steps in place and is
    proved to agree with them; the lemmas here state what the steps guarantee. */
module Matching {
  import opened Wrappers
  import opened Ledger
  import opened Book
  import Sums

  /** A player's holding of one asset: what they own and how much of it is earmarked
      for their SELL orders. */
  datatype PlayerAsset = PlayerAsset(quantity: int, reserved: int)

  /** The holdings table, keyed by (player id, asset id). */
  type Holdings = map<(int, int), PlayerAsset>

  /** A trade record: executed at the resting (maker) order's price. */
  datatype Trade = Trade(assetId: int, price: int, quantity: int, buyOrderId: nat, sellOrderId: nat)

  /** Everything the engine reads and writes: the wallets, the known assets, the
      holdings, the orders with the next order id to hand out, and the trade log. */
  datatype Market = Market(
    wallets: Wallets,
    assets: set<int>,
    holdings: Holdings,
    orders: Orders,
    nextOrderId: nat,
    trades: seq<Trade>)

  /** The reasons `createOrder` and `cancelOrder` refuse a request. */
  datatype OrderError =
    | AssetNotFound
    | NotOwned
    | InsufficientQuantity
    | OrderNotFound
    | NotOwner
    | NotCancellable(status: Status)

  /** The matching loop's state: the market so far and the taker's unfilled quantity. */
  datatype Progress = Progress(market: Market, remaining: int)

  /** The result of a successful `createOrder`: the new market, the taker as finally
      saved, and the trades it executed (the list the source returns). */
  datatype Placement = Placement(market: Market, order: Order, executed: seq<Trade>)

  /** A stored order is well formed: an issued id, a positive price, a non-negative
      quantity, and a quantity of zero exactly when FILLED. */
  predicate ValidOrder(o: Order, next: nat) {
    o.id < next && o.price > 0 && o.quantity >= 0 && (o.status == Filled <==> o.quantity == 0)
  }

  /** No holding has a negative reservation or more reserved than owned. */
  predicate ValidHoldings(hs: Holdings) {
    forall k :: k in hs ==> 0 <= hs[k].reserved <= hs[k].quantity
  }

  /** The invariant every engine call keeps. */
  predicate Valid(m: Market) {
    && ValidWallets(m.wallets)
    && ValidHoldings(m.holdings)
    && KeysMatch(m.orders)
    && forall id :: id in m.orders ==> ValidOrder(m.orders[id], m.nextOrderId)
  }

  function Min(a: int, b: int): int {
    if a <= b then a else b
  }

  /** Lines 117-121 and 159-162: who pays and who delivers in a fill against `c`. */
  function Buyer(taker: Order, c: Order): int {
    if taker.side == Buy then taker.playerId else c.playerId
  }

  function Seller(taker: Order, c: Order): int {
    if taker.side == Buy then c.playerId else taker.playerId
  }

  function BuyOrderId(taker: Order, c: Order): nat {
    if taker.side == Buy then taker.id else c.id
  }

  function SellOrderId(taker: Order, c: Order): nat {
    if taker.side == Buy then c.id else taker.id
  }

  /** Lines 135-142 / 173-180: the seller's quantity and reservation both fall by `q`,
      each clamped at zero; a seller without a holding record is left alone. */
  function Deliver(hs: Holdings, seller: int, asset: int, q: int): Holdings {
    var k := (seller, asset);
    if k in hs then hs[k := PlayerAsset(ClampAtZero(hs[k].quantity - q), ClampAtZero(hs[k].reserved - q))]
    else hs
  }

  /** Lines 145-156 / 183-194: the buyer's quantity rises by `q`, in a new holding with
      nothing reserved if they had none. */
  function Receive(hs: Holdings, buyer: int, asset: int, q: int): Holdings {
    var k := (buyer, asset);
    if k in hs then hs[k := hs[k].(quantity := hs[k].quantity + q)]
    else hs[k := PlayerAsset(q, 0)]
  }

  /** Lines 207-215: the resting order after `q` of it traded. */
  function AfterFill(c: Order, q: int): Order {
    var left := c.quantity - q;
    if left <= 0 then c.(quantity := 0, status := Filled)
    else c.(quantity := left, status := PartiallyFilled)
  }

  /** The trade record of lines 198-203 for a fill of `q` against `c`. */
  function FillTrade(taker: Order, c: Order, q: int): Trade {
    Trade(c.assetId, c.price, q, BuyOrderId(taker, c), SellOrderId(taker, c))
  }

  /** The quantity a fill against `c` would take (line 109). */
  function FillQty(remaining: int, c: Order): int {
    Min(remaining, c.quantity)
  }

  /** The amount the buyer pays for that fill (lines 124, 164). */
  function FillCost(remaining: int, c: Order): int {
    c.price * FillQty(remaining, c)
  }

  /** One pass of the loop body of lines 105-219, for a taker with `remaining` left to
      fill and the resting order `c`.  A resting order with nothing left, or whose buyer
      cannot pay, is skipped; otherwise money moves from buyer to seller, items from
      seller to buyer, a trade is logged and the resting order is updated. */
  function Step(m: Market, taker: Order, remaining: int, c: Order): (r: Progress)
    requires remaining > 0 && c.price > 0
    ensures 0 <= r.remaining <= remaining
    ensures r.remaining == remaining <==>
      c.quantity <= 0 || !Sufficient(m.wallets, Buyer(taker, c), FillCost(remaining, c))
    ensures r.remaining == remaining ==> r.market == m
    ensures r.remaining < remaining ==>
      && remaining - r.remaining == FillQty(remaining, c) > 0
      && r.market.trades == m.trades + [FillTrade(taker, c, remaining - r.remaining)]
    ensures r.market.assets == m.assets && r.market.nextOrderId == m.nextOrderId
  {
    if c.quantity <= 0 then Progress(m, remaining)
    else
      var q := FillQty(remaining, c);
      var total := FillCost(remaining, c);
      var buyer, seller := Buyer(taker, c), Seller(taker, c);
      if !Sufficient(m.wallets, buyer, total) then Progress(m, remaining)
      else
        assert total > 0 by { PositiveProduct(c.price, q); }
        var ws := Credited(Debited(m.wallets, buyer, total).value, seller, total).value;
        var hs := Receive(Deliver(m.holdings, seller, taker.assetId, q), buyer, taker.assetId, q);
        Progress(
          m.(wallets := ws, holdings := hs,
             orders := m.orders[c.id := AfterFill(c, q)],
             trades := m.trades + [FillTrade(taker, c, q)]),
          remaining - q)
  }

  lemma PositiveProduct(a: int, b: int)
    requires a > 0 && b > 0
    ensures a * b > 0
  {
  }

  /** The loop of lines 105-219 over the ranked candidates: it stops as soon as nothing
      is left to fill (line 106). */
  function MatchAll(m: Market, taker: Order, remaining: int, cands: seq<Order>): (r: Progress)
    requires forall c :: c in cands ==> c.price > 0
    ensures remaining >= 0 ==> 0 <= r.remaining <= remaining
    ensures remaining <= 0 ==> r == Progress(m, remaining)
    ensures |m.trades| <= |r.market.trades| && r.market.trades[..|m.trades|] == m.trades
    ensures r.market.assets == m.assets && r.market.nextOrderId == m.nextOrderId
    decreases |cands|
  {
    if cands == [] || remaining <= 0 then Progress(m, remaining)
    else
      var p := Step(m, taker, remaining, cands[0]);
      MatchAll(p.market, taker, p.remaining, cands[1..])
  }

  /** With no candidate left, or nothing left to fill, the loop does nothing. */
  lemma MatchAllDone(m: Market, taker: Order, remaining: int, cands: seq<Order>)
    requires forall c :: c in cands ==> c.price > 0
    requires cands == [] || remaining <= 0
    ensures MatchAll(m, taker, remaining, cands) == Progress(m, remaining)
  {
  }

  /** One iteration of the loop keeps its invariant: the rest of the fold from the new
      state is still the whole fold, and the trades collected so far, plus the one just
      executed if any, are still exactly those appended to the log. */
  lemma MatchAllNext(start: Market, goal: Progress, taker: Order, rest: seq<Order>,
                     before: Market, remaining: int, executed: seq<Trade>, after: Market, left: int)
    requires rest != [] && remaining > 0
    requires forall c :: c in rest ==> c.price > 0
    requires MatchAll(before, taker, remaining, rest) == goal
    requires |start.trades| <= |before.trades| && executed == before.trades[|start.trades|..]
    requires after == Step(before, taker, remaining, rest[0]).market
    requires left == Step(before, taker, remaining, rest[0]).remaining
    ensures MatchAll(after, taker, left, rest[1..]) == goal
    ensures |start.trades| <= |after.trades|
    ensures (if left < remaining then executed + [after.trades[|after.trades| - 1]] else executed)
      == after.trades[|start.trades|..]
  {
    if left < remaining {
      SliceSnoc(before.trades, |start.trades|, after.trades[|after.trades| - 1]);
    }
  }

  /** Appending to a sequence appends to each of its suffixes. */
  lemma SliceSnoc<T>(s: seq<T>, n: nat, t: T)
    requires n <= |s|
    ensures (s + [t])[n..] == s[n..] + [t]
  {
  }

  /** The total quantity of a list of trades. */
  function SumQty(ts: seq<Trade>): int {
    if ts == [] then 0 else ts[0].quantity + SumQty(ts[1..])
  }

  /** `t` is a fill of the resting order `c` for this taker: same asset, the maker's
      price, a positive quantity no larger than what `c` had left, and the right order
      on each side. */
  predicate FillOf(taker: Order, c: Order, t: Trade) {
    && t.assetId == c.assetId
    && t.price == c.price
    && 0 < t.quantity <= c.quantity
    && t.buyOrderId == BuyOrderId(taker, c)
    && t.sellOrderId == SellOrderId(taker, c)
  }

  /** `t` is a fill of one of the candidates `cands`. */
  predicate FillOfSome(taker: Order, cands: seq<Order>, t: Trade) {
    exists c :: c in cands && FillOf(taker, c, t)
  }

  /** Trade prices in the order a taker on `side` prefers them: rising for a BUY taker,
      falling for a SELL taker. */
  predicate PriceFirst(side: Side, a: int, b: int) {
    if side == Buy then a <= b else a >= b
  }

  /** The trades the loop appended. */
  function Appended(m: Market, r: Progress): seq<Trade>
    requires |m.trades| <= |r.market.trades|
  {
    r.market.trades[|m.trades|..]
  }

  /** The total of a suffix is its first trade plus the total of the rest; the first
      trade is read off a longer prefix. */
  lemma SumQtyFront(all: seq<Trade>, n: nat, prefix: seq<Trade>)
    requires n < |prefix| <= |all| && all[..|prefix|] == prefix
    ensures SumQty(all[n..]) == prefix[n].quantity + SumQty(all[n + 1..])
  {
    assert all[n..][1..] == all[n + 1..];
    assert all[n] == all[..|prefix|][n];
  }

  /** What the loop consumed is exactly what it traded. */
  lemma {:induction false} MatchAllAccounting(m: Market, taker: Order, remaining: int, cands: seq<Order>)
    requires forall c :: c in cands ==> c.price > 0
    ensures var r := MatchAll(m, taker, remaining, cands);
      remaining - r.remaining == SumQty(Appended(m, r))
    decreases |cands|
  {
    if cands != [] && remaining > 0 {
      var p := Step(m, taker, remaining, cands[0]);
      var r := MatchAll(p.market, taker, p.remaining, cands[1..]);
      MatchAllAccounting(p.market, taker, p.remaining, cands[1..]);
      if p.remaining < remaining {
        SumQtyFront(r.market.trades, |m.trades|, p.market.trades);
      }
    }
  }


  /** An element inside a prefix is the prefix's element. */
  lemma PrefixAt<T>(all: seq<T>, prefix: seq<T>, i: nat)
    requires i < |prefix| <= |all| && all[..|prefix|] == prefix
    ensures all[i] == prefix[i]
  {
    assert all[i] == all[..|prefix|][i];
  }

  /** A fill of one of the later candidates is a fill of one of the candidates. */
  lemma FillOfSomeTail(taker: Order, cands: seq<Order>, t: Trade)
    requires cands != [] && FillOfSome(taker, cands[1..], t)
    ensures FillOfSome(taker, cands, t)
  {
    var c :| c in cands[1..] && FillOf(taker, c, t);
    assert c in cands;
  }

  /** Every trade the loop appended is a fill of one of the candidates. */
  lemma {:induction false} MatchAllFills(m: Market, taker: Order, remaining: int, cands: seq<Order>)
    requires forall c :: c in cands ==> c.price > 0
    ensures var r := MatchAll(m, taker, remaining, cands);
      forall i :: |m.trades| <= i < |r.market.trades| ==>
        r.market.trades[i].quantity > 0 && FillOfSome(taker, cands, r.market.trades[i])
    decreases |cands|
  {
    if cands != [] && remaining > 0 {
      var c := cands[0];
      var p := Step(m, taker, remaining, c);
      var r := MatchAll(p.market, taker, p.remaining, cands[1..]);
      MatchAllFills(p.market, taker, p.remaining, cands[1..]);
      assert var rr := MatchAll(p.market, taker, p.remaining, cands[1..]);
        forall i :: |p.market.trades| <= i < |rr.market.trades| ==>
          rr.market.trades[i].quantity > 0 && FillOfSome(taker, cands[1..], rr.market.trades[i]);
      forall i | |m.trades| <= i < |r.market.trades|
        ensures r.market.trades[i].quantity > 0 && FillOfSome(taker, cands, r.market.trades[i])
      {
        if i < |p.market.trades| {
          PrefixAt(r.market.trades, p.market.trades, i);
          assert p.market.trades[i] == FillTrade(taker, c, remaining - p.remaining);
          assert FillOf(taker, c, r.market.trades[i]);
        } else {
          assert FillOfSome(taker, cands[1..], MatchAll(p.market, taker, p.remaining, cands[1..]).market.trades[i]);
          FillOfSomeTail(taker, cands, r.market.trades[i]);
        }
      }
    }
  }


  /** Against candidates in priority order, the trades come out in the taker's price
      preference: never a worse price before a better one. */
  lemma {:induction false} MatchAllPriority(m: Market, taker: Order, remaining: int, cands: seq<Order>)
    requires forall c :: c in cands ==> c.price > 0
    requires Sorted(taker.side, cands)
    ensures var r := MatchAll(m, taker, remaining, cands);
      forall i, j :: |m.trades| <= i < j < |r.market.trades| ==>
        PriceFirst(taker.side, r.market.trades[i].price, r.market.trades[j].price)
    decreases |cands|
  {
    var r := MatchAll(m, taker, remaining, cands);
    if cands != [] && remaining > 0 {
      var p := Step(m, taker, remaining, cands[0]);
      var rest := cands[1..];
      assert Sorted(taker.side, rest) by {
        forall i, j | 0 <= i < j < |rest| ensures Before(taker.side, rest[i], rest[j]) {
          assert rest[i] == cands[i + 1] && rest[j] == cands[j + 1];
        }
      }
      MatchAllPriority(p.market, taker, p.remaining, rest);
      MatchAllFills(p.market, taker, p.remaining, rest);
      assert r == MatchAll(p.market, taker, p.remaining, rest);
      var n := |m.trades|;
      if p.remaining < remaining {
        forall i, j | n <= i < j < |r.market.trades|
          ensures PriceFirst(taker.side, r.market.trades[i].price, r.market.trades[j].price)
        {
          if i == n {
            assert r.market.trades[..n + 1] == p.market.trades;
            assert r.market.trades[n] == p.market.trades[n];
            assert r.market.trades[i].price == cands[0].price;
            assert FillOfSome(taker, rest, r.market.trades[j]);
            var c :| c in rest && FillOf(taker, c, r.market.trades[j]);
            var k :| 0 <= k < |rest| && rest[k] == c;
            assert Before(taker.side, cands[0], cands[k + 1]);
          }
        }
      }
    }
  }

  /** The loop is zero-sum for the ledger: every debit is matched by an equal credit. */
  lemma {:induction false} MatchAllConservesFunds(m: Market, taker: Order, remaining: int, cands: seq<Order>)
    requires forall c :: c in cands ==> c.price > 0
    ensures Total(MatchAll(m, taker, remaining, cands).market.wallets) == Total(m.wallets)
    decreases |cands|
  {
    if cands != [] && remaining > 0 {
      var c := cands[0];
      var p := Step(m, taker, remaining, c);
      if p.remaining < remaining {
        var total := FillCost(remaining, c);
        PositiveProduct(c.price, FillQty(remaining, c));
        TransferConservesTotal(m.wallets, Buyer(taker, c), Seller(taker, c), total);
      }
      MatchAllConservesFunds(p.market, taker, p.remaining, cands[1..]);
    }
  }

  /** What one executed fill does, for a taker and a resting order of different
      players: the buyer pays `price * qty` out of their balance and the seller is paid
      the same (in a new wallet if they had none), reservations untouched; the seller's
      quantity and reservation fall by `qty`, each clamped at zero, if they have a
      holding record, and the buyer's quantity rises by `qty`, in a new record with
      nothing reserved if they had none; the resting order keeps `old - qty`, FILLED
      when that is zero and PARTIALLY_FILLED otherwise; one trade carrying both order
      ids is logged; nothing else changes. */
  lemma StepSettlement(m: Market, taker: Order, remaining: int, c: Order)
    requires remaining > 0 && c.price > 0 && c.playerId != taker.playerId
    requires Step(m, taker, remaining, c).remaining < remaining
    ensures var r := Step(m, taker, remaining, c).market;
      var q := remaining - Step(m, taker, remaining, c).remaining;
      var total := c.price * q;
      var buyer, seller := Buyer(taker, c), Seller(taker, c);
      && q == Min(remaining, c.quantity)
      && buyer in m.wallets
      && r.wallets.Keys == m.wallets.Keys + {seller}
      && r.wallets[buyer] == m.wallets[buyer].(balance := m.wallets[buyer].balance - total)
      && r.wallets[seller].balance == Balance(m.wallets, seller) + total
      && r.wallets[seller].reserved == (if seller in m.wallets then m.wallets[seller].reserved else 0)
      && (forall p :: p in m.wallets && p != buyer && p != seller ==> r.wallets[p] == m.wallets[p])
    ensures var r := Step(m, taker, remaining, c).market;
      var q := remaining - Step(m, taker, remaining, c).remaining;
      var sk, bk := (Seller(taker, c), taker.assetId), (Buyer(taker, c), taker.assetId);
      && r.holdings.Keys == m.holdings.Keys + {bk}
      && (sk in m.holdings ==>
            r.holdings[sk] == PlayerAsset(ClampAtZero(m.holdings[sk].quantity - q), ClampAtZero(m.holdings[sk].reserved - q)))
      && r.holdings[bk] == (if bk in m.holdings then m.holdings[bk].(quantity := m.holdings[bk].quantity + q)
                            else PlayerAsset(q, 0))
      && (forall k :: k in m.holdings && k != sk && k != bk ==> r.holdings[k] == m.holdings[k])
    ensures var r := Step(m, taker, remaining, c).market;
      var q := remaining - Step(m, taker, remaining, c).remaining;
      && r.orders.Keys == m.orders.Keys + {c.id}
      && r.orders[c.id] == c.(quantity := c.quantity - q, status := if c.quantity == q then Filled else PartiallyFilled)
      && (forall id :: id in m.orders && id != c.id ==> r.orders[id] == m.orders[id])
      && r.trades == m.trades + [Trade(c.assetId, c.price, q,
           if taker.side == Buy then taker.id else c.id,
           if taker.side == Buy then c.id else taker.id)]
  {
    var q := FillQty(remaining, c);
    var total := FillCost(remaining, c);
    var buyer, seller := Buyer(taker, c), Seller(taker, c);
    PositiveProduct(c.price, q);
    var ws1 := Debited(m.wallets, buyer, total).value;
    assert Step(m, taker, remaining, c).market.wallets == Credited(ws1, seller, total).value;
  }

  /** A fill never breaks the market invariant. */
  lemma StepPreservesValid(m: Market, taker: Order, remaining: int, c: Order)
    requires remaining > 0 && c.price > 0
    requires Valid(m) && ValidOrder(c, m.nextOrderId)
    ensures Valid(Step(m, taker, remaining, c).market)
  {
    var r := Step(m, taker, remaining, c);
    if r.remaining < remaining {
      var q := FillQty(remaining, c);
      var asset := taker.assetId;
      var hs1 := Deliver(m.holdings, Seller(taker, c), asset, q);
      assert ValidHoldings(hs1);
      assert ValidHoldings(Receive(hs1, Buyer(taker, c), asset, q));
      assert ValidOrder(AfterFill(c, q), m.nextOrderId);
    }
  }

  /** The loop never breaks the market invariant. */
  lemma {:induction false} MatchAllPreservesValid(m: Market, taker: Order, remaining: int, cands: seq<Order>)
    requires forall c :: c in cands ==> c.price > 0 && ValidOrder(c, m.nextOrderId)
    requires Valid(m)
    ensures Valid(MatchAll(m, taker, remaining, cands).market)
    decreases |cands|
  {
    if cands != [] && remaining > 0 {
      var p := Step(m, taker, remaining, cands[0]);
      StepPreservesValid(m, taker, remaining, cands[0]);
      MatchAllPreservesValid(p.market, taker, p.remaining, cands[1..]);
    }
  }

  /** A loop that filled nothing changed nothing: every skipped candidate leaves the
      whole market as it was. */
  lemma {:induction false} MatchAllIdle(m: Market, taker: Order, remaining: int, cands: seq<Order>)
    requires forall c :: c in cands ==> c.price > 0
    requires MatchAll(m, taker, remaining, cands).remaining == remaining
    ensures MatchAll(m, taker, remaining, cands).market == m
    decreases |cands|
  {
    if cands != [] && remaining > 0 {
      var p := Step(m, taker, remaining, cands[0]);
      assert MatchAll(m, taker, remaining, cands) == MatchAll(p.market, taker, p.remaining, cands[1..]);
      MatchAllIdle(p.market, taker, p.remaining, cands[1..]);
    }
  }

  /** `id` names one of the candidates. */
  predicate IsCandidate(cands: seq<Order>, id: nat) {
    exists c :: c in cands && c.id == id
  }

  /** A fill settles a resting order: FILLED or PARTIALLY_FILLED. */
  predicate Settled(o: Order) {
    o.status == Filled || o.status == PartiallyFilled
  }

  /** The loop touches no order but the candidates: it adds no order, and every entry
      it changes belongs to a candidate and ends FILLED or PARTIALLY_FILLED. */
  lemma {:induction false} MatchAllOrders(m: Market, taker: Order, remaining: int, cands: seq<Order>)
    requires forall c :: c in cands ==> c.price > 0 && c.id in m.orders
    ensures var r := MatchAll(m, taker, remaining, cands).market;
      && r.orders.Keys == m.orders.Keys
      && forall id :: id in m.orders && r.orders[id] != m.orders[id] ==>
           IsCandidate(cands, id) && Settled(r.orders[id])
    decreases |cands|
  {
    if cands != [] && remaining > 0 {
      var c := cands[0];
      var p := Step(m, taker, remaining, c);
      var r := MatchAll(p.market, taker, p.remaining, cands[1..]);
      assert MatchAll(m, taker, remaining, cands).market == r.market;
      assert p.market.orders.Keys == m.orders.Keys;
      MatchAllOrders(p.market, taker, p.remaining, cands[1..]);
      forall id | id in m.orders && r.market.orders[id] != m.orders[id]
        ensures IsCandidate(cands, id) && Settled(r.market.orders[id])
      {
        if r.market.orders[id] != p.market.orders[id] {
          var d :| d in cands[1..] && d.id == id;
          assert d in cands;
        } else {
          assert p.market.orders[id] != m.orders[id];
          assert id == c.id && c in cands;
        }
      }
    }
  }

  /** `p` takes part in the loop: the taker's owner or the owner of a candidate. */
  predicate Party(taker: Order, cands: seq<Order>, p: int) {
    p == taker.playerId || exists c :: c in cands && c.playerId == p
  }

  /** One pass of the loop moves money and items only between the taker's owner and
      the owner of `c`, and only items of the taker's asset. */
  lemma StepParties(m: Market, taker: Order, remaining: int, c: Order)
    requires remaining > 0 && c.price > 0
    ensures var r := Step(m, taker, remaining, c).market;
      && (forall p :: p != taker.playerId && p != c.playerId ==>
            (p in r.wallets <==> p in m.wallets) && (p in m.wallets ==> r.wallets[p] == m.wallets[p]))
      && (forall k: (int, int) :: k.1 != taker.assetId || (k.0 != taker.playerId && k.0 != c.playerId) ==>
            (k in r.holdings <==> k in m.holdings) && (k in m.holdings ==> r.holdings[k] == m.holdings[k]))
  {
    var p := Step(m, taker, remaining, c);
    if p.remaining < remaining {
      var total := FillCost(remaining, c);
      PositiveProduct(c.price, FillQty(remaining, c));
      var ws1 := Debited(m.wallets, Buyer(taker, c), total).value;
      assert p.market.wallets == Credited(ws1, Seller(taker, c), total).value;
    }
  }

  /** The loop moves money and items only between the taker's owner and the owners of
      the candidates, and only items of the taker's asset: every other wallet and
      holding is left as it was, and none is added. */
  lemma {:induction false} MatchAllParties(m: Market, taker: Order, remaining: int, cands: seq<Order>)
    requires forall c :: c in cands ==> c.price > 0
    ensures var r := MatchAll(m, taker, remaining, cands).market;
      && (forall p :: !Party(taker, cands, p) ==>
            (p in r.wallets <==> p in m.wallets) && (p in m.wallets ==> r.wallets[p] == m.wallets[p]))
      && (forall k: (int, int) :: k.1 != taker.assetId || !Party(taker, cands, k.0) ==>
            (k in r.holdings <==> k in m.holdings) && (k in m.holdings ==> r.holdings[k] == m.holdings[k]))
    decreases |cands|
  {
    if cands != [] && remaining > 0 {
      var c := cands[0];
      var p := Step(m, taker, remaining, c);
      assert MatchAll(m, taker, remaining, cands) == MatchAll(p.market, taker, p.remaining, cands[1..]);
      StepParties(m, taker, remaining, c);
      MatchAllParties(p.market, taker, p.remaining, cands[1..]);
      forall q | Party(taker, cands[1..], q) ensures Party(taker, cands, q) {
        if q != taker.playerId {
          var d :| d in cands[1..] && d.playerId == q;
          assert d in cands;
        }
      }
      assert Party(taker, cands, c.playerId);
    }
  }

  /** Lines 48-55: the seller holds the asset and at least `amount` of it is not yet
      earmarked for other sales. */
  predicate CanReserve(hs: Holdings, k: (int, int), amount: int) {
    k in hs && hs[k].quantity - hs[k].reserved >= amount
  }

  /** `after` is `before` with `amount` more reserved at `k` and nothing else changed. */
  predicate ReservedMore(before: Holdings, after: Holdings, k: (int, int), amount: int) {
    && k in before
    && after.Keys == before.Keys
    && after[k].quantity == before[k].quantity
    && after[k].reserved == before[k].reserved + amount
    && forall j :: j in before && j != k ==> after[j] == before[j]
  }

  /** The order saved as OPEN by lines 62-70, with the next id and the clock's time. */
  function NewOrder(m: Market, requester: int, itemId: int, side: Side, price: int, amount: int, now: int): Order {
    Order(m.nextOrderId, requester, itemId, price, amount, side, Open, now)
  }

  /** Lines 43-70: check the asset, reserve a SELL order's quantity, and store the new
      order as OPEN.  A rejected request changes nothing. */
  function Admit(m: Market, requester: int, itemId: int, side: Side, price: int, amount: int, now: int)
    : (r: Result<Market, OrderError>)
    ensures r.Err? <==>
      itemId !in m.assets || (side == Sell && !CanReserve(m.holdings, (requester, itemId), amount))
    ensures r.Err? && itemId !in m.assets ==> r.error == AssetNotFound
    ensures r.Err? && itemId in m.assets && (requester, itemId) !in m.holdings ==> r.error == NotOwned
    ensures r.Err? && itemId in m.assets && (requester, itemId) in m.holdings ==> r.error == InsufficientQuantity
    ensures r.Ok? ==> (
      && r.value.orders == m.orders[m.nextOrderId := NewOrder(m, requester, itemId, side, price, amount, now)]
      && r.value.nextOrderId == m.nextOrderId + 1
      && r.value.wallets == m.wallets && r.value.assets == m.assets && r.value.trades == m.trades
      && (side == Buy ==> r.value.holdings == m.holdings)
      && (side == Sell ==> ReservedMore(m.holdings, r.value.holdings, (requester, itemId), amount)))
    ensures r.Ok? && Valid(m) && amount > 0 && price > 0 ==> Valid(r.value)
  {
    var k := (requester, itemId);
    if itemId !in m.assets then Err(AssetNotFound)
    else if side == Sell && k !in m.holdings then Err(NotOwned)
    else if side == Sell && m.holdings[k].quantity - m.holdings[k].reserved < amount then Err(InsufficientQuantity)
    else
      var hs := if side == Sell then m.holdings[k := m.holdings[k].(reserved := m.holdings[k].reserved + amount)]
                else m.holdings;
      var o := NewOrder(m, requester, itemId, side, price, amount, now);
      Ok(m.(holdings := hs, orders := m.orders[o.id := o], nextOrderId := m.nextOrderId + 1))
  }

  /** Lines 221-231: the taker as finally saved, with what is left of it. */
  function Settle(taker: Order, amount: int, remaining: int): Order {
    if remaining <= 0 then taker.(quantity := 0, status := Filled)
    else if remaining < amount then taker.(quantity := remaining, status := PartiallyFilled)
    else taker.(quantity := remaining, status := Open)
  }

  /** Every stored order has a positive price. */
  predicate Priced(orders: Orders) {
    forall o :: o in orders.Values ==> o.price > 0
  }

  /** Lines 221-236: the market and the taker once the loop has left `p`. */
  function Finish(m: Market, taker: Order, amount: int, p: Progress): Placement
    requires |m.trades| <= |p.market.trades|
  {
    var final := Settle(taker, amount, p.remaining);
    Placement(p.market.(orders := p.market.orders[taker.id := final]), final, Appended(m, p))
  }

  /** Lines 78-231 for an admitted taker: match it against the ranked candidates, then
      save it with what is left of it. */
  function Execute(m: Market, taker: Order, amount: int): Placement
    requires Priced(m.orders)
  {
    var cands := Candidates(m.orders, m.nextOrderId, taker);
    Finish(m, taker, amount, MatchAll(m, taker, amount, cands))
  }

  /** Every order in a valid market has a positive price. */
  lemma ValidPriced(m: Market)
    requires Valid(m)
    ensures Priced(m.orders)
  {
    forall o | o in m.orders.Values ensures o.price > 0 {
      assert ValidOrder(o, m.nextOrderId);
    }
  }

  /** Lines 37-236, `createOrder`: admit the order, match it against the ranked
      candidates, then save the taker with what is left of it.  The amount and the price
      are not validated by the source; they are taken to be positive here. */
  function Place(m: Market, requester: int, itemId: int, side: Side, price: int, amount: int, now: int)
    : (r: Result<Placement, OrderError>)
    requires Valid(m)
    requires amount > 0 && price > 0
    ensures r.Err? <==>
      itemId !in m.assets || (side == Sell && !CanReserve(m.holdings, (requester, itemId), amount))
    ensures r.Err? ==> r.error == Admit(m, requester, itemId, side, price, amount, now).error
  {
    match Admit(m, requester, itemId, side, price, amount, now)
    case Err(e) => Err(e)
    case Ok(m1) =>
      ValidPriced(m1);
      Ok(Execute(m1, NewOrder(m, requester, itemId, side, price, amount, now), amount))
  }

  /** Lines 240-269, `cancelOrder`: only the owner of an OPEN order may cancel it; a
      SELL order gives its remaining quantity back from the reservation, clamped at
      zero.  A rejected request changes nothing. */
  function Cancel(m: Market, orderId: nat, requester: int): (r: Result<Market, OrderError>)
    ensures r.Err? <==>
      orderId !in m.orders || m.orders[orderId].playerId != requester || m.orders[orderId].status != Open
    ensures r.Err? && orderId !in m.orders ==> r.error == OrderNotFound
    ensures r.Err? && orderId in m.orders && m.orders[orderId].playerId != requester ==> r.error == NotOwner
    ensures r.Err? && orderId in m.orders && m.orders[orderId].playerId == requester ==>
      r.error == NotCancellable(m.orders[orderId].status)
    ensures r.Ok? ==> (
      && r.value.orders == m.orders[orderId := m.orders[orderId].(status := Cancelled)]
      && r.value.wallets == m.wallets && r.value.assets == m.assets
      && r.value.nextOrderId == m.nextOrderId && r.value.trades == m.trades)
  {
    if orderId !in m.orders then Err(OrderNotFound)
    else
      var o := m.orders[orderId];
      if o.playerId != requester then Err(NotOwner)
      else if o.status != Open then Err(NotCancellable(o.status))
      else
        var k := (requester, o.assetId);
        var hs := if o.side == Sell && k in m.holdings
                  then m.holdings[k := m.holdings[k].(reserved := ClampAtZero(m.holdings[k].reserved - o.quantity))]
                  else m.holdings;
        Ok(m.(holdings := hs, orders := m.orders[orderId := o.(status := Cancelled)]))
  }

  /** A list of trades of positive quantities has a non-negative total, zero only when
      the list is empty. */
  lemma {:induction false} SumQtyPositive(ts: seq<Trade>)
    requires forall i :: 0 <= i < |ts| ==> ts[i].quantity > 0
    ensures SumQty(ts) >= 0
    ensures SumQty(ts) == 0 <==> ts == []
  {
    if ts != [] {
      SumQtyPositive(ts[1..]);
    }
  }

  /** A sequence with a given prefix is that prefix followed by the rest. */
  lemma PrefixSplit<T>(all: seq<T>, prefix: seq<T>)
    requires |prefix| <= |all| && all[..|prefix|] == prefix
    ensures all == prefix + all[|prefix|..]
  {
    assert all == all[..|prefix|] + all[|prefix|..];
  }

  /** Every trade the loop appended has a positive quantity. */
  lemma AppendedPositive(m: Market, taker: Order, amount: int, cands: seq<Order>)
    requires forall c :: c in cands ==> c.price > 0
    ensures var ts := Appended(m, MatchAll(m, taker, amount, cands));
      forall i :: 0 <= i < |ts| ==> ts[i].quantity > 0
  {
    MatchAllFills(m, taker, amount, cands);
    var ts := Appended(m, MatchAll(m, taker, amount, cands));
    forall i | 0 <= i < |ts| ensures ts[i].quantity > 0 {
      assert ts[i] == MatchAll(m, taker, amount, cands).market.trades[|m.trades| + i];
    }
  }

  /** The taker after the loop: the amount less what it traded, FILLED exactly when
      nothing is left, PARTIALLY_FILLED exactly when some but not all of it traded, OPEN
      exactly when nothing traded; the executed trades are those appended to the log. */
  lemma FinishTaker(m: Market, taker: Order, amount: int, cands: seq<Order>)
    requires forall c :: c in cands ==> c.price > 0
    requires amount > 0
    ensures var pl := Finish(m, taker, amount, MatchAll(m, taker, amount, cands));
      var o := pl.order;
      && o == taker.(quantity := o.quantity, status := o.status)
      && o.quantity == amount - SumQty(pl.executed)
      && 0 <= o.quantity <= amount
      && (o.status == Filled <==> o.quantity == 0)
      && (o.status == PartiallyFilled <==> 0 < o.quantity < amount)
      && (o.status == Open <==> pl.executed == [])
      && pl.market.orders[taker.id] == o
      && pl.market.trades == m.trades + pl.executed
      && pl.market.nextOrderId == m.nextOrderId
  {
    var p := MatchAll(m, taker, amount, cands);
    MatchAllAccounting(m, taker, amount, cands);
    AppendedPositive(m, taker, amount, cands);
    SumQtyPositive(Appended(m, p));
    PrefixSplit(p.market.trades, m.trades);
  }


  /** What `createOrder` leaves of the taker: its quantity is the amount less what it
      traded, its status is FILLED exactly when nothing is left, PARTIALLY_FILLED exactly
      when some but not all of it traded, and OPEN exactly when nothing traded.  The
      returned trades are exactly those appended to the log. */
  lemma PlaceTaker(m: Market, requester: int, itemId: int, side: Side, price: int, amount: int, now: int)
    requires Valid(m) && amount > 0 && price > 0
    requires Place(m, requester, itemId, side, price, amount, now).Ok?
    ensures var pl := Place(m, requester, itemId, side, price, amount, now).value;
      var o := pl.order;
      && o == NewOrder(m, requester, itemId, side, price, amount, now).(quantity := o.quantity, status := o.status)
      && o.quantity == amount - SumQty(pl.executed)
      && 0 <= o.quantity <= amount
      && (o.status == Filled <==> o.quantity == 0)
      && (o.status == PartiallyFilled <==> 0 < o.quantity < amount)
      && (o.status == Open <==> pl.executed == [])
      && pl.market.orders[o.id] == o
      && pl.market.trades == m.trades + pl.executed
      && pl.market.nextOrderId == m.nextOrderId + 1
  {
    var m1 := Admit(m, requester, itemId, side, price, amount, now).value;
    var taker := NewOrder(m, requester, itemId, side, price, amount, now);
    ValidPriced(m1);
    FinishTaker(m1, taker, amount, Candidates(m1.orders, m1.nextOrderId, taker));
  }

  /** `o` was resting in the book when the taker arrived, and was eligible to trade
      against it. */
  predicate RestingFor(m: Market, taker: Order, o: Order) {
    o.id in m.orders && m.orders[o.id] == o && Eligible(taker, o)
  }

  /** `t` is a trade the taker may make: a positive quantity of its asset, with the
      taker's id on its own side, at a price within its limit, filling an order that was
      resting in `m` and eligible. */
  ghost predicate ValidFill(m: Market, taker: Order, t: Trade) {
    && t.quantity > 0
    && t.assetId == taker.assetId
    && (taker.side == Buy ==> t.buyOrderId == taker.id && t.price <= taker.price)
    && (taker.side == Sell ==> t.sellOrderId == taker.id && t.price >= taker.price)
    && exists o :: RestingFor(m, taker, o) && FillOf(taker, o, t)
  }

  /** Every trade the loop appended is a fill of one of the candidates. */
  lemma FinishFills(m: Market, taker: Order, amount: int, cands: seq<Order>)
    requires forall c :: c in cands ==> c.price > 0
    ensures forall t :: t in Finish(m, taker, amount, MatchAll(m, taker, amount, cands)).executed ==>
      FillOfSome(taker, cands, t)
  {
    MatchAllFills(m, taker, amount, cands);
    var p := MatchAll(m, taker, amount, cands);
    assert forall i :: |m.trades| <= i < |p.market.trades| ==>
      FillOfSome(taker, cands, MatchAll(m, taker, amount, cands).market.trades[i]);
    var executed := Appended(m, p);
    forall i | 0 <= i < |executed| ensures FillOfSome(taker, cands, executed[i]) {
      assert executed[i] == p.market.trades[|m.trades| + i];
      assert FillOfSome(taker, cands, p.market.trades[|m.trades| + i]);
    }
  }

  /** Every trade `createOrder` executes is a fill of an order that was resting in the
      book and eligible: OPEN, same asset, another player, the opposite side, a price
      within the taker's limit.  The trade carries the maker's price and the taker's id
      on the taker's side. */
  lemma PlaceFills(m: Market, requester: int, itemId: int, side: Side, price: int, amount: int, now: int)
    requires Valid(m) && amount > 0 && price > 0
    requires Place(m, requester, itemId, side, price, amount, now).Ok?
    ensures var pl := Place(m, requester, itemId, side, price, amount, now).value;
      var taker := NewOrder(m, requester, itemId, side, price, amount, now);
      forall t :: t in pl.executed ==> ValidFill(m, taker, t)
  {
    var m1 := Admit(m, requester, itemId, side, price, amount, now).value;
    var taker := NewOrder(m, requester, itemId, side, price, amount, now);
    ValidPriced(m1);
    var cands := Candidates(m1.orders, m1.nextOrderId, taker);
    FinishFills(m1, taker, amount, cands);
    forall t | t in Execute(m1, taker, amount).executed ensures ValidFill(m, taker, t) {
      assert FillOfSome(taker, cands, t);
      var o :| o in cands && FillOf(taker, o, t);
      assert o.id != taker.id;
      assert RestingFor(m, taker, o);
    }
  }

  /** Against candidates in priority order, the loop's trades come in the taker's
      price preference. */
  lemma FinishPriority(m: Market, taker: Order, amount: int, cands: seq<Order>)
    requires forall c :: c in cands ==> c.price > 0
    requires Sorted(taker.side, cands)
    ensures var ts := Finish(m, taker, amount, MatchAll(m, taker, amount, cands)).executed;
      forall i, j :: 0 <= i < j < |ts| ==> PriceFirst(taker.side, ts[i].price, ts[j].price)
  {
    MatchAllPriority(m, taker, amount, cands);
    var p := MatchAll(m, taker, amount, cands);
    assert forall i, j :: |m.trades| <= i < j < |p.market.trades| ==>
      PriceFirst(taker.side, MatchAll(m, taker, amount, cands).market.trades[i].price,
                 MatchAll(m, taker, amount, cands).market.trades[j].price);
    var ts := Appended(m, p);
    forall i, j | 0 <= i < j < |ts| ensures PriceFirst(taker.side, ts[i].price, ts[j].price) {
      var n := |m.trades|;
      assert ts[i] == p.market.trades[n + i];
      assert ts[j] == p.market.trades[n + j];
      assert PriceFirst(taker.side, p.market.trades[n + i].price, p.market.trades[n + j].price);
    }
  }

  /** A successful `Place` is the admitted taker run through the matching loop. */
  lemma PlaceUnfold(m: Market, requester: int, itemId: int, side: Side, price: int, amount: int, now: int)
    requires Valid(m) && amount > 0 && price > 0
    requires Place(m, requester, itemId, side, price, amount, now).Ok?
    ensures Admit(m, requester, itemId, side, price, amount, now).Ok?
    ensures var m1 := Admit(m, requester, itemId, side, price, amount, now).value;
      && Valid(m1)
      && Priced(m1.orders)
      && Place(m, requester, itemId, side, price, amount, now).value
         == Execute(m1, NewOrder(m, requester, itemId, side, price, amount, now), amount)
  {
    ValidPriced(Admit(m, requester, itemId, side, price, amount, now).value);
  }

  /** The trades of one `createOrder` come in price-priority order: rising prices for a
      BUY, falling prices for a SELL. */
  lemma PlacePriority(m: Market, requester: int, itemId: int, side: Side, price: int, amount: int, now: int)
    requires Valid(m) && amount > 0 && price > 0
    requires Place(m, requester, itemId, side, price, amount, now).Ok?
    ensures var ts := Place(m, requester, itemId, side, price, amount, now).value.executed;
      forall i, j :: 0 <= i < j < |ts| ==> PriceFirst(side, ts[i].price, ts[j].price)
  {
    PlaceUnfold(m, requester, itemId, side, price, amount, now);
    var m1 := Admit(m, requester, itemId, side, price, amount, now).value;
    var taker := NewOrder(m, requester, itemId, side, price, amount, now);
    var cands := Candidates(m1.orders, m1.nextOrderId, taker);
    FinishPriority(m1, taker, amount, cands);
    assert Place(m, requester, itemId, side, price, amount, now).value
      == Finish(m1, taker, amount, MatchAll(m1, taker, amount, cands));
  }

  /** `createOrder` neither creates nor destroys money. */
  lemma PlaceConservesFunds(m: Market, requester: int, itemId: int, side: Side, price: int, amount: int, now: int)
    requires Valid(m) && amount > 0 && price > 0
    requires Place(m, requester, itemId, side, price, amount, now).Ok?
    ensures Total(Place(m, requester, itemId, side, price, amount, now).value.market.wallets) == Total(m.wallets)
  {
    PlaceUnfold(m, requester, itemId, side, price, amount, now);
    var m1 := Admit(m, requester, itemId, side, price, amount, now).value;
    var taker := NewOrder(m, requester, itemId, side, price, amount, now);
    MatchAllConservesFunds(m1, taker, amount, Candidates(m1.orders, m1.nextOrderId, taker));
  }

  /** The order-status state machine across one `createOrder`: the only order it adds
      is the taker, and every stored order it changes was OPEN and eligible to trade
      against the taker and ends FILLED or PARTIALLY_FILLED.  So FILLED, CANCELLED and
      PARTIALLY_FILLED orders are left exactly as they were. */
  lemma PlaceKeepsSettled(m: Market, requester: int, itemId: int, side: Side, price: int, amount: int, now: int)
    requires Valid(m) && amount > 0 && price > 0
    requires Place(m, requester, itemId, side, price, amount, now).Ok?
    ensures var r := Place(m, requester, itemId, side, price, amount, now).value.market;
      var taker := NewOrder(m, requester, itemId, side, price, amount, now);
      && r.orders.Keys == m.orders.Keys + {m.nextOrderId}
      && forall id :: id in m.orders && r.orders[id] != m.orders[id] ==>
           m.orders[id].status == Open && Eligible(taker, m.orders[id]) && Settled(r.orders[id])
  {
    PlaceUnfold(m, requester, itemId, side, price, amount, now);
    var m1 := Admit(m, requester, itemId, side, price, amount, now).value;
    var taker := NewOrder(m, requester, itemId, side, price, amount, now);
    ExecuteOrders(m1, taker, amount);
    forall id | id in m.orders ensures id != taker.id && m1.orders[id] == m.orders[id] {
      assert ValidOrder(m.orders[id], m.nextOrderId);
    }
  }

  /** An admitted taker's execution adds no order but the taker, and every other entry
      it changes was eligible to trade against the taker and ends FILLED or
      PARTIALLY_FILLED. */
  lemma ExecuteOrders(m: Market, taker: Order, amount: int)
    requires Priced(m.orders) && KeysMatch(m.orders) && taker.id in m.orders
    ensures var r := Execute(m, taker, amount).market;
      && r.orders.Keys == m.orders.Keys
      && forall id :: id in m.orders && id != taker.id && r.orders[id] != m.orders[id] ==>
           Eligible(taker, m.orders[id]) && Settled(r.orders[id])
  {
    var cands := Candidates(m.orders, m.nextOrderId, taker);
    FinishOrders(m, taker, amount, cands);
  }

  /** The loop and the final save, over candidates stored in `m` and eligible, add no
      order but the taker and change only candidates, each to FILLED or
      PARTIALLY_FILLED. */
  lemma FinishOrders(m: Market, taker: Order, amount: int, cands: seq<Order>)
    requires forall c :: c in cands ==> c.price > 0 && c.id in m.orders && m.orders[c.id] == c && Eligible(taker, c)
    requires taker.id in m.orders
    ensures var r := Finish(m, taker, amount, MatchAll(m, taker, amount, cands)).market;
      && r.orders.Keys == m.orders.Keys
      && forall id :: id in m.orders && id != taker.id && r.orders[id] != m.orders[id] ==>
           Eligible(taker, m.orders[id]) && Settled(r.orders[id])
  {
    MatchAllOrders(m, taker, amount, cands);
    forall id | id in m.orders && IsCandidate(cands, id) ensures Eligible(taker, m.orders[id]) {
      var c :| c in cands && c.id == id;
    }
  }

  /** `p` may take part in a `createOrder`: the requester, or the owner of an order
      resting in `m` that is eligible to trade against the taker. */
  predicate Trader(m: Market, taker: Order, p: int) {
    p == taker.playerId || exists id :: id in m.orders && m.orders[id].playerId == p && Eligible(taker, m.orders[id])
  }

  /** `createOrder` moves money and items only among the requester and the owners of
      eligible resting orders, and only items of the order's asset: every other wallet
      and holding is left as it was, and none is added. */
  lemma PlaceParties(m: Market, requester: int, itemId: int, side: Side, price: int, amount: int, now: int)
    requires Valid(m) && amount > 0 && price > 0
    requires Place(m, requester, itemId, side, price, amount, now).Ok?
    ensures var r := Place(m, requester, itemId, side, price, amount, now).value.market;
      var taker := NewOrder(m, requester, itemId, side, price, amount, now);
      && (forall p :: !Trader(m, taker, p) ==>
            (p in r.wallets <==> p in m.wallets) && (p in m.wallets ==> r.wallets[p] == m.wallets[p]))
      && (forall k: (int, int) :: k.1 != itemId || !Trader(m, taker, k.0) ==>
            (k in r.holdings <==> k in m.holdings) && (k in m.holdings ==> r.holdings[k] == m.holdings[k]))
  {
    PlaceUnfold(m, requester, itemId, side, price, amount, now);
    var m1 := Admit(m, requester, itemId, side, price, amount, now).value;
    var taker := NewOrder(m, requester, itemId, side, price, amount, now);
    var cands := Candidates(m1.orders, m1.nextOrderId, taker);
    MatchAllParties(m1, taker, amount, cands);
    forall q | Party(taker, cands, q) ensures Trader(m, taker, q) {
      if q != taker.playerId {
        var c :| c in cands && c.playerId == q;
        assert m1.orders[c.id] == c && c.id != taker.id;
        assert m.orders[c.id] == c;
      }
    }
  }

  /** The quantity of every holding of `asset`, keyed by the holding's key. */
  function AssetQuantities(hs: Holdings, asset: int): map<(int, int), int> {
    map k | k in hs && k.1 == asset :: hs[k].quantity
  }

  /** The total quantity of `asset` held across all players. */
  ghost function Supply(hs: Holdings, asset: int): int {
    Sums.Sum(AssetQuantities(hs, asset))
  }

  /** Overwriting one holding changes the supply of its own asset by the difference of
      the quantities, and the supply of every other asset not at all. */
  lemma SupplyUpdate(hs: Holdings, k: (int, int), v: PlayerAsset, asset: int)
    ensures Supply(hs[k := v], asset) ==
      Supply(hs, asset) + (if k.1 == asset then v.quantity - (if k in hs then hs[k].quantity else 0) else 0)
  {
    QuantitiesUpdate(hs, k, v, asset);
    if k.1 == asset {
      Sums.SumUpdate(AssetQuantities(hs, asset), k, v.quantity);
    }
  }

  lemma QuantitiesUpdate(hs: Holdings, k: (int, int), v: PlayerAsset, asset: int)
    ensures AssetQuantities(hs[k := v], asset) ==
      if k.1 == asset then AssetQuantities(hs, asset)[k := v.quantity] else AssetQuantities(hs, asset)
  {
    var before, after := AssetQuantities(hs, asset), AssetQuantities(hs[k := v], asset);
    if k.1 == asset {
      assert after.Keys == before.Keys + {k};
    } else {
      assert after.Keys == before.Keys;
    }
  }

  /** The SELL taker's own holding still has at least `remaining` reserved. */
  predicate Covered(m: Market, taker: Order, remaining: int) {
    var k := (taker.playerId, taker.assetId);
    k in m.holdings && m.holdings[k].reserved >= remaining
  }

  /** A fill for a SELL taker whose reservation covers what is left of it takes the
      items out of the taker's holding without clamping and hands them to the other
      player: the supply of every asset is unchanged, and the reservation still covers
      what is left. */
  lemma StepConservesSupply(m: Market, taker: Order, remaining: int, c: Order)
    requires remaining > 0 && c.price > 0
    requires taker.side == Sell && c.playerId != taker.playerId
    requires ValidHoldings(m.holdings) && Covered(m, taker, remaining)
    ensures var p := Step(m, taker, remaining, c);
      && ValidHoldings(p.market.holdings)
      && Covered(p.market, taker, p.remaining)
      && forall a :: Supply(p.market.holdings, a) == Supply(m.holdings, a)
  {
    var p := Step(m, taker, remaining, c);
    if p.remaining < remaining {
      MoveConservesSupply(m.holdings, taker.playerId, c.playerId, taker.assetId, remaining - p.remaining);
    }
  }

  /** Moving `q` items, no more than the seller has reserved, from one player to another
      leaves no holding clamped: every asset's supply is unchanged, holdings stay valid,
      and the seller's reservation falls by exactly `q`. */
  lemma MoveConservesSupply(hs: Holdings, seller: int, buyer: int, asset: int, q: int)
    requires seller != buyer && ValidHoldings(hs)
    requires (seller, asset) in hs && 0 < q <= hs[(seller, asset)].reserved
    ensures var r := Receive(Deliver(hs, seller, asset, q), buyer, asset, q);
      && ValidHoldings(r)
      && (seller, asset) in r && r[(seller, asset)].reserved == hs[(seller, asset)].reserved - q
      && forall a :: Supply(r, a) == Supply(hs, a)
  {
    var sk, bk := (seller, asset), (buyer, asset);
    var hs1 := hs[sk := PlayerAsset(hs[sk].quantity - q, hs[sk].reserved - q)];
    assert Deliver(hs, seller, asset, q) == hs1;
    var nb := if bk in hs1 then hs1[bk].(quantity := hs1[bk].quantity + q) else PlayerAsset(q, 0);
    assert Receive(hs1, buyer, asset, q) == hs1[bk := nb];
    forall a ensures Supply(hs1[bk := nb], a) == Supply(hs, a) {
      SupplyUpdate(hs, sk, hs1[sk], a);
      SupplyUpdate(hs1, bk, nb, a);
    }
  }

  /** The loop for a SELL taker whose reservation covers its amount conserves the
      supply of every asset. */
  lemma {:induction false} MatchAllConservesSupply(m: Market, taker: Order, remaining: int, cands: seq<Order>)
    requires forall c :: c in cands ==> c.price > 0 && c.playerId != taker.playerId
    requires taker.side == Sell && ValidHoldings(m.holdings) && Covered(m, taker, remaining)
    ensures forall a :: Supply(MatchAll(m, taker, remaining, cands).market.holdings, a) == Supply(m.holdings, a)
    decreases |cands|
  {
    if cands != [] && remaining > 0 {
      var p := Step(m, taker, remaining, cands[0]);
      StepConservesSupply(m, taker, remaining, cands[0]);
      MatchAllConservesSupply(p.market, taker, p.remaining, cands[1..]);
      assert MatchAll(m, taker, remaining, cands) == MatchAll(p.market, taker, p.remaining, cands[1..]);
    }
  }

  /** `createOrder` for a SELL order neither creates nor destroys items of any asset:
      admission only reserves, and the reservation covers every fill. */
  lemma PlaceConservesSupply(m: Market, requester: int, itemId: int, price: int, amount: int, now: int)
    requires Valid(m) && amount > 0 && price > 0
    requires Place(m, requester, itemId, Sell, price, amount, now).Ok?
    ensures forall a ::
      Supply(Place(m, requester, itemId, Sell, price, amount, now).value.market.holdings, a) == Supply(m.holdings, a)
  {
    PlaceUnfold(m, requester, itemId, Sell, price, amount, now);
    AdmitConservesSupply(m, requester, itemId, price, amount, now);
    var m1 := Admit(m, requester, itemId, Sell, price, amount, now).value;
    var taker := NewOrder(m, requester, itemId, Sell, price, amount, now);
    var cands := Candidates(m1.orders, m1.nextOrderId, taker);
    MatchAllConservesSupply(m1, taker, amount, cands);
  }

  /** Admitting a SELL order only reserves: it changes no supply, and the new
      reservation covers the whole order. */
  lemma AdmitConservesSupply(m: Market, requester: int, itemId: int, price: int, amount: int, now: int)
    requires ValidHoldings(m.holdings)
    requires Admit(m, requester, itemId, Sell, price, amount, now).Ok?
    ensures var m1 := Admit(m, requester, itemId, Sell, price, amount, now).value;
      && Covered(m1, NewOrder(m, requester, itemId, Sell, price, amount, now), amount)
      && forall a :: Supply(m1.holdings, a) == Supply(m.holdings, a)
  {
    var m1 := Admit(m, requester, itemId, Sell, price, amount, now).value;
    var k := (requester, itemId);
    assert m1.holdings == m.holdings[k := m1.holdings[k]];
    forall a ensures Supply(m1.holdings, a) == Supply(m.holdings, a) {
      SupplyUpdate(m.holdings, k, m1.holdings[k], a);
    }
  }

  /** The loop and the final save keep the market invariant, for a well-formed taker
      whose id is already issued. */
  lemma FinishPreservesValid(m: Market, taker: Order, amount: int, cands: seq<Order>)
    requires forall c :: c in cands ==> c.price > 0 && ValidOrder(c, m.nextOrderId)
    requires Valid(m) && amount > 0 && taker.price > 0 && taker.id < m.nextOrderId
    ensures Valid(Finish(m, taker, amount, MatchAll(m, taker, amount, cands)).market)
  {
    MatchAllPreservesValid(m, taker, amount, cands);
    var p := MatchAll(m, taker, amount, cands);
    assert ValidOrder(Settle(taker, amount, p.remaining), p.market.nextOrderId);
  }

  /** `createOrder` keeps the market invariant. */
  lemma PlacePreservesValid(m: Market, requester: int, itemId: int, side: Side, price: int, amount: int, now: int)
    requires Valid(m) && amount > 0 && price > 0
    requires Place(m, requester, itemId, side, price, amount, now).Ok?
    ensures Valid(Place(m, requester, itemId, side, price, amount, now).value.market)
  {
    PlaceUnfold(m, requester, itemId, side, price, amount, now);
    var m1 := Admit(m, requester, itemId, side, price, amount, now).value;
    var taker := NewOrder(m, requester, itemId, side, price, amount, now);
    var cands := Candidates(m1.orders, m1.nextOrderId, taker);
    forall c | c in cands ensures c.price > 0 && ValidOrder(c, m1.nextOrderId) {
      assert ValidOrder(c, m1.nextOrderId);
    }
    FinishPreservesValid(m1, taker, amount, cands);
  }

  /** A loop that traded nothing leaves the market as it was, with the taker saved
      unchanged apart from its quantity and status. */
  lemma FinishIdle(m: Market, taker: Order, amount: int, cands: seq<Order>)
    requires forall c :: c in cands ==> c.price > 0
    requires amount > 0
    requires Finish(m, taker, amount, MatchAll(m, taker, amount, cands)).executed == []
    ensures var pl := Finish(m, taker, amount, MatchAll(m, taker, amount, cands));
      && pl.order == taker.(quantity := amount, status := Open)
      && pl.market == m.(orders := m.orders[taker.id := pl.order])
  {
    MatchAllAccounting(m, taker, amount, cands);
    MatchAllIdle(m, taker, amount, cands);
  }

  /** An admitted taker that trades nothing is saved exactly as it was admitted, so the
      market is the admitted one. */
  lemma ExecuteIdle(m: Market, taker: Order, amount: int)
    requires Priced(m.orders) && amount > 0
    requires taker.id in m.orders && m.orders[taker.id] == taker
    requires taker.quantity == amount && taker.status == Open
    requires Execute(m, taker, amount).executed == []
    ensures Execute(m, taker, amount).order == taker
    ensures Execute(m, taker, amount).market == m
  {
    var cands := Candidates(m.orders, m.nextOrderId, taker);
    FinishIdle(m, taker, amount, cands);
    assert m.orders[taker.id := taker] == m.orders;
  }

  /** `cancelOrder` keeps the market invariant. */
  lemma CancelPreservesValid(m: Market, orderId: nat, requester: int)
    requires Valid(m)
    requires Cancel(m, orderId, requester).Ok?
    ensures Valid(Cancel(m, orderId, requester).value)
  {
  }

  /** What `cancelOrder` does to holdings: a SELL order's remaining quantity comes off
      its owner's reservation, clamped at zero; nothing else changes, and a BUY order
      releases nothing. */
  lemma CancelReleases(m: Market, orderId: nat, requester: int)
    requires Cancel(m, orderId, requester).Ok?
    ensures var o := m.orders[orderId];
      var k := (requester, o.assetId);
      var hs := Cancel(m, orderId, requester).value.holdings;
      && hs.Keys == m.holdings.Keys
      && (forall j :: j in m.holdings && (j != k || o.side == Buy) ==> hs[j] == m.holdings[j])
      && (o.side == Sell && k in m.holdings ==>
            hs[k].quantity == m.holdings[k].quantity
            && hs[k].reserved == ClampAtZero(m.holdings[k].reserved - o.quantity))
  {
  }

  /** A cancelled order cannot be cancelled again. */
  lemma CancelTwice(m: Market, orderId: nat, requester: int)
    requires Cancel(m, orderId, requester).Ok?
    ensures Cancel(Cancel(m, orderId, requester).value, orderId, requester) == Err(NotCancellable(Cancelled))
  {
  }

  /** Cancelling a SELL order straight after its admission gives the reservation back
      exactly. */
  lemma AdmitThenCancel(m: Market, requester: int, itemId: int, price: int, amount: int, now: int)
    requires Valid(m) && amount > 0 && price > 0
    requires Admit(m, requester, itemId, Sell, price, amount, now).Ok?
    ensures var m1 := Admit(m, requester, itemId, Sell, price, amount, now).value;
      && Cancel(m1, m.nextOrderId, requester).Ok?
      && Cancel(m1, m.nextOrderId, requester).value.holdings == m.holdings
      && Cancel(m1, m.nextOrderId, requester).value.wallets == m.wallets
      && Cancel(m1, m.nextOrderId, requester).value.trades == m.trades
  {
    var m1 := Admit(m, requester, itemId, Sell, price, amount, now).value;
    var k := (requester, itemId);
    assert m1.holdings[k := m.holdings[k]] == m.holdings;
  }

  /** Placing a SELL order that finds nothing to trade with and then cancelling it gives
      the seller's reservation back exactly: the holdings, the wallets and the trade log
      are as they were before the order. */
  lemma PlaceThenCancel(m: Market, requester: int, itemId: int, price: int, amount: int, now: int)
    requires Valid(m) && amount > 0 && price > 0
    requires Place(m, requester, itemId, Sell, price, amount, now).Ok?
    requires Place(m, requester, itemId, Sell, price, amount, now).value.executed == []
    ensures var pl := Place(m, requester, itemId, Sell, price, amount, now).value;
      && Cancel(pl.market, pl.order.id, requester).Ok?
      && Cancel(pl.market, pl.order.id, requester).value.holdings == m.holdings
      && Cancel(pl.market, pl.order.id, requester).value.wallets == m.wallets
      && Cancel(pl.market, pl.order.id, requester).value.trades == m.trades
  {
    PlaceUnfold(m, requester, itemId, Sell, price, amount, now);
    var m1 := Admit(m, requester, itemId, Sell, price, amount, now).value;
    ExecuteIdle(m1, NewOrder(m, requester, itemId, Sell, price, amount, now), amount);
    AdmitThenCancel(m, requester, itemId, price, amount, now);
  }
}
