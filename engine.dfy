/** The order service of backend/src/main/java/com/gamemarket/service/OrderService.java
    as a class over the tables it updates in place.  The wallet table belongs to the
    wallet service it calls; the asset, holding, order and trade tables are its own
    fields.  Each method is proved to leave the state the matching model of module
    `Matching` prescribes. */
module Engine {
  import opened Wrappers
  import opened Ledger
  import opened Book
  import opened Matching

  class OrderService {
    const walletService: WalletService
    var assets: set<int>
    var holdings: Holdings
    var orders: Orders
    var nextOrderId: nat
    var trades: seq<Trade>

    /** The whole market as the model sees it. */
    function State(): Market
      reads this, walletService
    {
      Market(walletService.wallets, assets, holdings, orders, nextOrderId, trades)
    }

    /** A service over the given wallets, asset catalogue and holdings, with no orders
        and no trades yet.  Valid wallets and holdings make a valid market. */
    constructor (walletService: WalletService, assets: set<int>, holdings: Holdings)
      requires ValidWallets(walletService.wallets) && ValidHoldings(holdings)
      ensures this.walletService == walletService
      ensures State() == Market(walletService.wallets, assets, holdings, map[], 0, [])
      ensures Valid(State())
    {
      this.walletService := walletService;
      this.assets := assets;
      this.holdings := holdings;
      orders := map[];
      nextOrderId := 0;
      trades := [];
    }

    /** Lines 135-156 and 173-194: the seller's quantity and reservation fall by `q`,
        each clamped at zero, if the seller has a holding record; the buyer's quantity
        rises by `q`, in a new record with nothing reserved if they had none. */
    method MoveItems(sellerId: int, buyerId: int, asset: int, q: int)
      modifies this
      ensures holdings == Receive(Deliver(old(holdings), sellerId, asset, q), buyerId, asset, q)
      ensures assets == old(assets) && orders == old(orders)
      ensures nextOrderId == old(nextOrderId) && trades == old(trades)
    {
      var sellerKey := (sellerId, asset);
      if sellerKey in holdings {
        var pa := holdings[sellerKey];
        var reserved := pa.reserved - q;
        if reserved < 0 {
          reserved := 0;
        }
        var quantity := pa.quantity - q;
        if quantity < 0 {
          quantity := 0;
        }
        holdings := holdings[sellerKey := PlayerAsset(quantity, reserved)];
      }
      var buyerKey := (buyerId, asset);
      if buyerKey !in holdings {
        holdings := holdings[buyerKey := PlayerAsset(q, 0)];
      } else {
        var pa := holdings[buyerKey];
        holdings := holdings[buyerKey := pa.(quantity := pa.quantity + q)];
      }
    }

    /** One pass of the loop body of lines 105-219: try to fill `remaining` of the
        taker against the resting order `c`, and return what is left to fill. */
    method MatchOne(taker: Order, remaining: int, c: Order) returns (left: int)
      requires remaining > 0 && c.price > 0
      modifies this, walletService
      ensures State() == Step(old(State()), taker, remaining, c).market
      ensures left == Step(old(State()), taker, remaining, c).remaining
    {
      ghost var m := State();
      var matchQty := c.quantity;
      if matchQty <= 0 {
        return remaining;
      }
      var tradeQty := Min(remaining, matchQty);
      var buyerId, sellerId := Buyer(taker, c), Seller(taker, c);
      var total := c.price * tradeQty;
      PositiveProduct(c.price, tradeQty);
      var ok := walletService.HasSufficientFunds(buyerId, total);
      if !ok {
        return remaining;
      }
      assert tradeQty == FillQty(remaining, c) && total == FillCost(remaining, c);
      var _ := walletService.Debit(buyerId, total);
      var _ := walletService.Credit(sellerId, total);
      assert walletService.wallets
        == Credited(Debited(m.wallets, buyerId, total).value, sellerId, total).value;

      MoveItems(sellerId, buyerId, taker.assetId, tradeQty);

      trades := trades + [Trade(c.assetId, c.price, tradeQty, BuyOrderId(taker, c), SellOrderId(taker, c))];

      var newMatchQty := matchQty - tradeQty;
      if newMatchQty <= 0 {
        orders := orders[c.id := c.(quantity := 0, status := Filled)];
      } else {
        orders := orders[c.id := c.(quantity := newMatchQty, status := PartiallyFilled)];
      }
      assert orders == m.orders[c.id := AfterFill(c, tradeQty)];
      left := remaining - tradeQty;
    }

    /** Lines 43-70: check the asset, reserve a SELL order's quantity on the seller's
        holding, and store the new order as OPEN; returns the stored order. */
    method AdmitOrder(requesterId: int, itemId: int, side: Side, price: int, amount: int, now: int)
      returns (r: Result<Order, OrderError>)
      modifies this
      ensures match Admit(old(State()), requesterId, itemId, side, price, amount, now)
        case Ok(m) => r == Ok(NewOrder(old(State()), requesterId, itemId, side, price, amount, now)) && State() == m
        case Err(e) => r == Err(e) && State() == old(State())
    {
      if itemId !in assets {
        return Err(AssetNotFound);
      }
      if side == Sell {
        var key := (requesterId, itemId);
        if key !in holdings {
          return Err(NotOwned);
        }
        var pa := holdings[key];
        var available := pa.quantity - pa.reserved;
        if available < amount {
          return Err(InsufficientQuantity);
        }
        holdings := holdings[key := pa.(reserved := pa.reserved + amount)];
      }
      var order := Order(nextOrderId, requesterId, itemId, price, amount, side, Open, now);
      orders := orders[order.id := order];
      nextOrderId := nextOrderId + 1;
      return Ok(order);
    }

    /** Lines 105-219: fill `order` against the ranked candidates in turn; returns the
        executed trades and what is left to fill. */
    method MatchOrder(order: Order, amount: int, cands: seq<Order>) returns (executed: seq<Trade>, remaining: int)
      requires forall c :: c in cands ==> c.price > 0
      modifies this, walletService
      ensures var p := MatchAll(old(State()), order, amount, cands);
        && State() == p.market
        && remaining == p.remaining
        && executed == Appended(old(State()), p)
    {
      ghost var start := State();
      ghost var goal := MatchAll(start, order, amount, cands);
      remaining := amount;
      executed := [];
      var rest := cands;
      // The loop visits the candidates in turn and stops early, as at line 106, once
      // the order has nothing left to fill.
      while rest != [] && remaining > 0
        invariant forall c :: c in rest ==> c.price > 0
        invariant MatchAll(State(), order, remaining, rest) == goal
        invariant |start.trades| <= |trades| && executed == trades[|start.trades|..]
        decreases |rest|
      {
        ghost var before := State();
        var left := MatchOne(order, remaining, rest[0]);
        MatchAllNext(start, goal, order, rest, before, remaining, executed, State(), left);
        if left < remaining {
          executed := executed + [trades[|trades| - 1]];
        }
        remaining := left;
        rest := rest[1..];
      }
      MatchAllDone(State(), order, remaining, rest);
    }

    /** Lines 73-236: rank the candidates for the stored `order`, fill it against them
        and save it with what is left of it; returns the executed trades. */
    method ExecuteOrder(order: Order, amount: int) returns (executed: seq<Trade>)
      requires Priced(orders)
      modifies this, walletService
      ensures State() == Execute(old(State()), order, amount).market
      ensures executed == Execute(old(State()), order, amount).executed
    {
      var cands := Candidates(orders, nextOrderId, order);
      var remaining;
      executed, remaining := MatchOrder(order, amount, cands);
      ghost var matched := State();
      var saved := order;
      if remaining <= 0 {
        saved := order.(quantity := 0, status := Filled);
      } else if remaining < amount {
        saved := order.(quantity := remaining, status := PartiallyFilled);
      } else {
        saved := order.(quantity := remaining, status := Open);
      }
      assert saved == Settle(order, amount, remaining);
      orders := orders[order.id := saved];
      assert State() == matched.(orders := matched.orders[order.id := saved]);
    }

    /** Lines 37-236, `createOrder`: admit the order, match it against the ranked
        candidates and save it with what is left of it; returns the executed trades.
        The source validates neither the amount nor the price; both are taken to be
        positive here. */
    method CreateOrder(requesterId: int, itemId: int, side: Side, price: int, amount: int, now: int)
      returns (r: Result<seq<Trade>, OrderError>)
      requires Valid(State())
      requires amount > 0 && price > 0
      modifies this, walletService
      ensures match Place(old(State()), requesterId, itemId, side, price, amount, now)
        case Ok(pl) => r == Ok(pl.executed) && State() == pl.market
        case Err(e) => r == Err(e) && State() == old(State())
      ensures Valid(State())
    {
      ghost var m := State();
      var admitted := AdmitOrder(requesterId, itemId, side, price, amount, now);
      if admitted.Err? {
        return Err(admitted.error);
      }
      ValidPriced(State());
      var executed := ExecuteOrder(admitted.value, amount);
      PlacePreservesValid(m, requesterId, itemId, side, price, amount, now);
      return Ok(executed);
    }

    /** Lines 240-269, `cancelOrder`: only the owner of an OPEN order may cancel it; a
        SELL order's quantity comes off the owner's reservation, clamped at zero. */
    method CancelOrder(orderId: nat, requesterId: int) returns (r: Outcome<OrderError>)
      requires Valid(State())
      modifies this
      ensures match Cancel(old(State()), orderId, requesterId)
        case Ok(m) => r == Pass && State() == m
        case Err(e) => r == Fail(e) && State() == old(State())
      ensures Valid(State())
    {
      ghost var m := State();
      if Cancel(m, orderId, requesterId).Ok? {
        CancelPreservesValid(m, orderId, requesterId);
      }
      if orderId !in orders {
        return Fail(OrderNotFound);
      }
      var order := orders[orderId];
      if order.playerId != requesterId {
        return Fail(NotOwner);
      }
      if order.status != Open {
        return Fail(NotCancellable(order.status));
      }
      if order.side == Sell {
        var key := (requesterId, order.assetId);
        if key in holdings {
          var pa := holdings[key];
          var updated := pa.reserved - order.quantity;
          if updated < 0 {
            updated := 0;
          }
          holdings := holdings[key := pa.(reserved := updated)];
        }
      }
      orders := orders[orderId := order.(status := Cancelled)];
      return Pass;
    }
  }
}
