# Game market order engine and wallet ledger, in Dafny

This project models the trading core of a game-item marketplace backend. It covers two services.

- **The wallet ledger** (`WalletService`). Each player has a wallet holding a balance and a reserved part. The service offers credit, debit, recharge, the reserve/release/commit lifecycle of reserved funds, and a read-only funds check.
- **The order service** (`OrderService`). `createOrder` does four things:
  - it admits a BUY or SELL limit order for an asset, reserving the seller's items for a SELL;
  - it matches the order at once against the resting OPEN orders of other players, in price-time priority;
  - it settles every fill: money from buyer to seller through the ledger, items from seller to buyer, a trade record, and the resting order's new quantity and status;
  - it saves the new order with what is left of it.

  `cancelOrder` withdraws an OPEN order and gives a SELL order's reservation back.

Every service call runs in one transaction. The model therefore treats each call as one atomic step, and a call that throws leaves the state exactly as it was. Money is an integer count of fixed-point units.

The project has six modules:

- `Wrappers` (`wrappers.dfy`): the `Result` and `Outcome` types that carry a failure in place of a thrown exception.
- `Sums` (`sums.dfy`): the sum of the values of a finite map. It is used to state that the ledger's total and each asset's total supply are conserved.
- `Ledger` (`ledger.dfy`): the wallet table as a map from player id to `Wallet(balance, reserved)`, in two layers.
  - Pure functions give each operation's result (`Debited`, `Credited`, `FundsReserved`, `ReservedReleased`, `ReservedCommitted`, `Sufficient`).
  - The class `WalletService` holds the table in a field. Each of its methods is proved to leave exactly the table that the matching function gives.
- `Book` (`book.dfy`): orders and the pure part of `createOrder` that picks and ranks the candidates:
  - the OPEN orders in table order;
  - the eligibility filter;
  - a stable insertion sort under the source's comparators.
- `Matching` (`matching.dfy`): the whole engine as functions on a `Market` value (wallets, asset catalogue, holdings, orders, next order id, trade log), together with the lemmas about them.
  - One pass of the matching loop is `Step`; the loop is `MatchAll`.
  - Admission is `Admit`, the full `createOrder` is `Place`, and `cancelOrder` is `Cancel`.
  - `Valid` is the invariant the engine keeps: non-negative balances, `0 <= reserved <= quantity` on every holding, well-formed orders, and FILLED exactly when the quantity is zero.
  - The order status state machine is proved over whole calls. `createOrder` moves only OPEN eligible orders, each to FILLED or PARTIALLY_FILLED (`PlaceKeepsSettled`). `cancelOrder` moves only an OPEN order, to CANCELLED.
- `Engine` (`engine.dfy`): the class `OrderService`. Its fields are the tables it updates in place, and it calls a `WalletService` object for money.
  - The constructor takes the initial wallets, asset catalogue and holdings, and establishes `Valid` from valid wallets and holdings.
  - `CreateOrder` runs the source's loop over the candidates with a mutable `remaining` counter.
  - Its postcondition says the new state and the returned trades are exactly those `Place` gives.
  - `CancelOrder` is tied to `Cancel` in the same way.
  - Both keep `Valid`, so calls chain.

Four points where the code departs from an idealised exchange are modelled as the code has them.

- Only OPEN orders are ever candidates (`findByStatus("OPEN")`). A PARTIALLY_FILLED resting order is never matched again.
- Only OPEN orders can be cancelled.
- Equal price and equal creation time have no further tie-break. The sort is stable, so such orders keep the order in which the table returns them.
- An order's `quantity` is overwritten with what is left of it. The originally requested quantity is not kept.

## Model

| member | source | states |
|---|---|---|
| Ledger.Debited | backend/src/main/java/com/gamemarket/service/WalletService.java:111-126 | Fails exactly when the amount is not positive, the wallet is missing, or the balance is below the amount, with the matching error. Otherwise only that wallet's balance falls by the amount; its reserved part and every other wallet are unchanged; valid wallets stay valid |
| Ledger.Credited | backend/src/main/java/com/gamemarket/service/WalletService.java:92-108 | Fails exactly when the amount is not positive. Otherwise it adds the amount to the balance, or creates the wallet with that balance and nothing reserved; reserved parts and other wallets are untouched |
| Ledger.FundsReserved | backend/src/main/java/com/gamemarket/service/WalletService.java:18-34 | Fails on a missing wallet or a balance below the amount. Otherwise it moves the amount from balance to reserved and keeps balance + reserved |
| Ledger.ReservedReleased | backend/src/main/java/com/gamemarket/service/WalletService.java:37-53 | Fails only on a missing wallet. Otherwise the balance rises by the full amount and reserved falls by it, clamped at zero; balance + reserved is kept if and only if the amount is at most what was reserved |
| Ledger.ReservedCommitted | backend/src/main/java/com/gamemarket/service/WalletService.java:56-71 | Fails only on a missing wallet. Otherwise reserved falls by the amount, clamped at zero and never negative, and the balance is unchanged |
| Ledger.Sufficient | backend/src/main/java/com/gamemarket/service/WalletService.java:128-132 | For a positive amount, true exactly when a debit of that amount would succeed; a missing wallet counts as balance zero |
| Ledger.DebitedTotal | backend/src/main/java/com/gamemarket/service/WalletService.java:111-126 | A successful debit lowers the ledger's total by exactly the amount |
| Ledger.CreditedTotal | backend/src/main/java/com/gamemarket/service/WalletService.java:92-108 | A successful credit raises the ledger's total by exactly the amount |
| Ledger.TransferConservesTotal | backend/src/main/java/com/gamemarket/service/OrderService.java:126-131 | When `hasSufficientFunds` passes for a positive amount, the debit succeeds, the credit that follows it succeeds, and the ledger's total is unchanged |
| Ledger.CreditThenDebit | backend/src/main/java/com/gamemarket/service/WalletService.java:92-126 | Crediting then debiting the same amount restores an existing wallet table |
| Ledger.ReserveThenRelease | backend/src/main/java/com/gamemarket/service/WalletService.java:18-53 | Releasing what was just reserved restores the wallet table |
| Ledger.WalletService.ReserveFunds | backend/src/main/java/com/gamemarket/service/WalletService.java:18-34 | Leaves exactly the table `FundsReserved` gives, or fails with its error and changes nothing |
| Ledger.WalletService.ReleaseReserved | backend/src/main/java/com/gamemarket/service/WalletService.java:37-53 | Leaves exactly the table `ReservedReleased` gives, or fails with its error and changes nothing |
| Ledger.WalletService.CommitReserved | backend/src/main/java/com/gamemarket/service/WalletService.java:56-71 | Leaves exactly the table `ReservedCommitted` gives, or fails with its error and changes nothing |
| Ledger.WalletService.Recharge | backend/src/main/java/com/gamemarket/service/WalletService.java:74-89 | Same validation and create-or-add behaviour as a credit; returns the saved wallet |
| Ledger.WalletService.Credit | backend/src/main/java/com/gamemarket/service/WalletService.java:92-108 | Leaves exactly the table `Credited` gives, or fails with its error and changes nothing |
| Ledger.WalletService.Debit | backend/src/main/java/com/gamemarket/service/WalletService.java:111-126 | Leaves exactly the table `Debited` gives, or fails with its error and changes nothing |
| Ledger.WalletService.HasSufficientFunds | backend/src/main/java/com/gamemarket/service/WalletService.java:128-132 | Read-only. Answers `Sufficient`; a true answer for a positive amount means a following debit succeeds |
| Book.OpenOrders | backend/src/main/java/com/gamemarket/service/OrderService.java:78 | Exactly the stored OPEN orders, in ascending id order |
| Book.Filter | backend/src/main/java/com/gamemarket/service/OrderService.java:81-97 | Keeps exactly the eligible orders: same asset, another player, not the taker, opposite side, price within the limit |
| Book.Insert | backend/src/main/java/com/gamemarket/service/OrderService.java:90-102 | The result is the input with one more element (as multisets) |
| Book.Sort | backend/src/main/java/com/gamemarket/service/OrderService.java:90-102 | The result is a permutation of the input |
| Book.BeforeTotal | backend/src/main/java/com/gamemarket/service/OrderService.java:90-102 | Of any two orders, one may be matched no later than the other |
| Book.InsertSorted | backend/src/main/java/com/gamemarket/service/OrderService.java:90-102 | Insertion keeps a sequence in priority order |
| Book.SortSorted | backend/src/main/java/com/gamemarket/service/OrderService.java:90-102 | The sort's output is in priority order: price ascending for a BUY taker, descending for a SELL taker, then earlier creation time first |
| Book.FilterAscending | backend/src/main/java/com/gamemarket/service/OrderService.java:81-97 | Filtering keeps the table's ascending id order |
| Book.InsertStable | backend/src/main/java/com/gamemarket/service/OrderService.java:90-102 | Inserting an order whose id is below every id already there keeps equally ranked orders in ascending id order |
| Book.SortStable | backend/src/main/java/com/gamemarket/service/OrderService.java:90-102 | The sort is stable: on input in ascending id order, equally ranked orders stay in ascending id order |
| Book.Candidates | backend/src/main/java/com/gamemarket/service/OrderService.java:78-103 | The visited candidates are in priority order and are exactly the stored orders eligible for the taker. Equally ranked candidates keep the table's ascending id order, and no order appears twice |
| Matching.Step | backend/src/main/java/com/gamemarket/service/OrderService.java:106-218 | A candidate is skipped, with the whole market unchanged, exactly when it has nothing left or its buyer cannot pay. Otherwise the fill takes `min(remaining, candidate quantity) > 0` and appends one trade; `remaining` stays between 0 and its old value |
| Matching.StepSettlement | backend/src/main/java/com/gamemarket/service/OrderService.java:124-216 | One fill's effects. The buyer pays price × quantity and the seller gets the same, possibly in a new wallet. The seller's holding loses the quantity from both quantity and reserved, each clamped at zero; the buyer's gains it, in a new record with nothing reserved if needed. The candidate keeps old − quantity, FILLED at zero and PARTIALLY_FILLED otherwise. One trade with the maker's price and both order ids is logged. Nothing else changes |
| Matching.MatchAll | backend/src/main/java/com/gamemarket/service/OrderService.java:105-219 | The loop stops once nothing is left; `remaining` never goes negative or grows; the trade log only grows |
| Matching.MatchAllAccounting | backend/src/main/java/com/gamemarket/service/OrderService.java:105-219 | What the loop consumed from `remaining` equals the total quantity of the trades it appended |
| Matching.MatchAllFills | backend/src/main/java/com/gamemarket/service/OrderService.java:105-219 | Every appended trade has a positive quantity and fills one of the candidates at that candidate's price and for no more than it had |
| Matching.MatchAllPriority | backend/src/main/java/com/gamemarket/service/OrderService.java:89-219 | Over candidates in priority order, trade prices never get worse for the taker |
| Matching.MatchAllConservesFunds | backend/src/main/java/com/gamemarket/service/OrderService.java:124-169 | The loop leaves the ledger's total unchanged |
| Matching.StepPreservesValid | backend/src/main/java/com/gamemarket/service/OrderService.java:106-218 | A fill keeps the market invariant |
| Matching.MatchAllPreservesValid | backend/src/main/java/com/gamemarket/service/OrderService.java:105-219 | The loop keeps the market invariant |
| Matching.MatchAllIdle | backend/src/main/java/com/gamemarket/service/OrderService.java:126-129 | A loop that filled nothing changed nothing |
| Matching.Admit | backend/src/main/java/com/gamemarket/service/OrderService.java:43-70 | Rejects an unknown asset (AssetNotFound), a SELL without a holding record (NotOwned), or a SELL for more than the unreserved quantity (InsufficientQuantity), and then changes nothing. Otherwise it reserves exactly `amount` more on a SELL (nothing else in the holding changes) and stores the order OPEN under the next id; the invariant is kept |
| Matching.Place | backend/src/main/java/com/gamemarket/service/OrderService.java:37-236 | Fails exactly when admission fails, with admission's error |
| Matching.Cancel | backend/src/main/java/com/gamemarket/service/OrderService.java:240-269 | Fails when the order is missing (OrderNotFound), the requester is not its owner (NotOwner), or it is not OPEN (NotCancellable carrying the order's status), and then changes nothing. Otherwise it marks the order CANCELLED; wallets, catalogue, ids and trades are untouched |
| Matching.FinishTaker | backend/src/main/java/com/gamemarket/service/OrderService.java:221-232 | After the loop the taker keeps amount − traded quantity. It is FILLED exactly at zero, PARTIALLY_FILLED exactly when partly traded, and OPEN exactly when nothing traded |
| Matching.FinishFills | backend/src/main/java/com/gamemarket/service/OrderService.java:105-219 | Every executed trade fills one of the candidates |
| Matching.FinishPriority | backend/src/main/java/com/gamemarket/service/OrderService.java:89-219 | The executed trades come in the taker's price preference |
| Matching.FinishPreservesValid | backend/src/main/java/com/gamemarket/service/OrderService.java:105-232 | The loop and the final save keep the invariant |
| Matching.FinishIdle | backend/src/main/java/com/gamemarket/service/OrderService.java:221-232 | With no trade, the market is as admitted and the taker is saved OPEN with its full amount |
| Matching.ExecuteIdle | backend/src/main/java/com/gamemarket/service/OrderService.java:221-232 | An admitted taker that trades nothing is saved as admitted, OPEN with its full amount, and the market is the admitted one |
| Matching.PlaceTaker | backend/src/main/java/com/gamemarket/service/OrderService.java:221-236 | `createOrder` leaves the taker with amount − sum of trade quantities, FILLED iff zero, PARTIALLY_FILLED iff strictly between, OPEN iff no trade. The returned list is exactly what was appended to the trade log, and the next id advanced by one |
| Matching.PlaceFills | backend/src/main/java/com/gamemarket/service/OrderService.java:78-205 | Every trade fills an order that was resting OPEN in the book: same asset, another player, another order, opposite side, price within the taker's limit. The quantity is positive, the price is the maker's, and the taker's id is on its own side |
| Matching.PlacePriority | backend/src/main/java/com/gamemarket/service/OrderService.java:89-219 | A BUY's trades come at rising prices, a SELL's at falling prices |
| Matching.PlaceConservesFunds | backend/src/main/java/com/gamemarket/service/OrderService.java:37-236 | `createOrder` neither creates nor destroys money |
| Matching.StepParties | backend/src/main/java/com/gamemarket/service/OrderService.java:117-194 | One pass moves money and items only between the taker's owner and the candidate's owner, and only items of the taker's asset; every other wallet and holding is unchanged and none is added |
| Matching.MatchAllOrders | backend/src/main/java/com/gamemarket/service/OrderService.java:105-219 | The loop adds no order; every order entry it changes belongs to a candidate and ends FILLED or PARTIALLY_FILLED |
| Matching.MatchAllParties | backend/src/main/java/com/gamemarket/service/OrderService.java:105-219 | The loop changes no wallet or holding outside the taker's owner and the candidates' owners, and no holding of another asset |
| Matching.FinishOrders | backend/src/main/java/com/gamemarket/service/OrderService.java:105-232 | Over stored eligible candidates, the loop and the final save add no order, and every other order they change was eligible and ends FILLED or PARTIALLY_FILLED |
| Matching.ExecuteOrders | backend/src/main/java/com/gamemarket/service/OrderService.java:73-232 | An admitted taker's execution adds no order, and changes only orders eligible against it, each to FILLED or PARTIALLY_FILLED |
| Matching.PlaceKeepsSettled | backend/src/main/java/com/gamemarket/service/OrderService.java:37-236 | The order status state machine over one `createOrder`: the only order added is the taker. Every existing order it changes was OPEN and eligible and ends FILLED or PARTIALLY_FILLED, so FILLED, CANCELLED and PARTIALLY_FILLED orders are never touched |
| Matching.PlaceParties | backend/src/main/java/com/gamemarket/service/OrderService.java:37-236 | `createOrder` changes and adds no wallet except the requester's and those of owners of eligible resting orders. Among holdings, it touches only those of these players in the order's asset |
| Matching.MoveConservesSupply | backend/src/main/java/com/gamemarket/service/OrderService.java:173-194 | Moving a quantity no larger than the seller's reservation to another player clamps nothing. Every asset's supply is unchanged, holdings stay valid, and the seller's reservation falls by exactly that quantity |
| Matching.StepConservesSupply | backend/src/main/java/com/gamemarket/service/OrderService.java:158-194 | A fill for a SELL taker whose reservation covers what is left keeps every asset's supply, and the reservation still covers what is left |
| Matching.MatchAllConservesSupply | backend/src/main/java/com/gamemarket/service/OrderService.java:105-219 | The loop for a covered SELL taker keeps every asset's supply |
| Matching.AdmitConservesSupply | backend/src/main/java/com/gamemarket/service/OrderService.java:47-57 | Admitting a SELL order changes no supply, and the new reservation covers the whole order |
| Matching.PlaceConservesSupply | backend/src/main/java/com/gamemarket/service/OrderService.java:37-236 | `createOrder` for a SELL order neither creates nor destroys items of any asset |
| Matching.PlacePreservesValid | backend/src/main/java/com/gamemarket/service/OrderService.java:37-236 | `createOrder` keeps the market invariant |
| Matching.CancelPreservesValid | backend/src/main/java/com/gamemarket/service/OrderService.java:240-269 | `cancelOrder` keeps the market invariant |
| Matching.CancelReleases | backend/src/main/java/com/gamemarket/service/OrderService.java:254-265 | A SELL's quantity comes off the owner's reservation, clamped at zero; a BUY releases nothing; no other holding changes |
| Matching.CancelTwice | backend/src/main/java/com/gamemarket/service/OrderService.java:249-251 | A second cancel of the same order always fails with "not cancellable (CANCELLED)" |
| Matching.AdmitThenCancel | backend/src/main/java/com/gamemarket/service/OrderService.java:47-57 | Cancelling a SELL right after admission restores the holdings exactly |
| Matching.PlaceThenCancel | backend/src/main/java/com/gamemarket/service/OrderService.java:240-269 | A SELL that traded nothing, once cancelled, leaves holdings, wallets and trade log as before the order |
| Engine.OrderService.MoveItems | backend/src/main/java/com/gamemarket/service/OrderService.java:134-156 | Moves the traded items between the seller's and the buyer's holdings as a fill prescribes, and changes no other table |
| Engine.OrderService.MatchOne | backend/src/main/java/com/gamemarket/service/OrderService.java:106-218 | One pass of the loop body leaves exactly the state and the `remaining` that `Step` gives |
| Engine.OrderService.MatchOrder | backend/src/main/java/com/gamemarket/service/OrderService.java:105-219 | The loop leaves exactly `MatchAll`'s state; the collected trades are exactly those appended to the log |
| Engine.OrderService.AdmitOrder | backend/src/main/java/com/gamemarket/service/OrderService.java:43-70 | Leaves exactly `Admit`'s state and returns the stored order, or fails with its error and changes nothing |
| Engine.OrderService.ExecuteOrder | backend/src/main/java/com/gamemarket/service/OrderService.java:73-236 | Candidates, loop and final save leave exactly the state and the trades the model prescribes |
| Engine.OrderService.CreateOrder | backend/src/main/java/com/gamemarket/service/OrderService.java:37-236 | Returns exactly `Place`'s trades and leaves its state, or fails with its error and changes nothing; the market invariant holds afterwards |
| Engine.OrderService.CancelOrder | backend/src/main/java/com/gamemarket/service/OrderService.java:240-269 | Leaves exactly `Cancel`'s state, or fails with its error and changes nothing; the market invariant holds afterwards |

## Left out

- Parsing of the request payload (OrderService.java lines 38-41) is not modelled. The asset id, amount, price and side arrive typed, so the "unsupported order type" error cannot arise.
- Engine.OrderService.CreateOrder: requires a positive amount and a positive price. The source does not validate either.
- Matching.Place: requires a positive amount and a positive price. The source does not validate either.
- Engine.OrderService.CreateOrder: requires the market invariant `Valid`. The constructor establishes it from valid wallets and holdings, and `CreateOrder` and `CancelOrder` keep it. The wallet service's `ReserveFunds` and `ReleaseReserved` accept a negative amount, as the source does, and such a call can break it.
- Engine.OrderService.CancelOrder: requires the market invariant `Valid`, for the same reason.
- Matching.Place: requires the market invariant `Valid`, for the same reason.
- Java `int` overflow of quantities is not modelled; integers are unbounded. `BigDecimal` money is an integer count of fixed-point units.
- Null fields (for example a null quantity read as zero) are not modelled; every field has a value.
- The creation timestamp comes from the database clock. It is the parameter `now`.
- Order ids come from the database. They are a counter (`nextOrderId`).
- The order in which `findByStatus("OPEN")` returns rows is database-defined. The model takes ascending order id.
- Persistence round-trips (`save`, `findBy…`), logging, dependency injection and concurrency between transactions are not modelled. Each call is one atomic step, and a throw leaves the state unchanged.
- The HTTP controllers, the repository query declarations and the front-end API wrapper are not part of this model.
- Ledger.FundsReserved: its validity clause assumes a non-negative amount, because `reserveFunds` does not check the amount's sign.
- Ledger.ReservedReleased: its validity clause assumes a non-negative amount, because `releaseReserved` does not check the amount's sign.
- Supply conservation is proved for SELL takers only (`PlaceConservesSupply`). For a BUY taker the seller is the resting order's owner, and the proof would need an invariant that every player's reservation covers their live SELL orders. The model does not carry that invariant. Without it a seller's holding could hold less than the fill and be clamped at zero.
- The trade record's own id and its time stamp are set by the database, not by lines 198-203, and are not modelled. The trade-history queries that sort and group by that time are not part of this model.
