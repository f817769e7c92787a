/** The wallet ledger of backend/src/main/java/com/gamemarket/service/WalletService.java.
    Each player has at most one wallet, a pair of an available `balance` and a
    `reserved` amount.  Money is a fixed-point decimal held as an integer count of its
    smallest unit, so every sum and product below is exact, as with BigDecimal.

    The pure functions (`Debited`, `Credited`, ...) say what each operation does to the
    wallet table; the class `WalletService` performs the same operations in place and is
    proved to agree with them. */
module Ledger {
  import opened Wrappers
  import Sums

  datatype Wallet = Wallet(balance: int, reserved: int)

  /** The reasons a ledger operation is refused (each is a `RuntimeException` in the source). */
  datatype LedgerError = InvalidAmount | WalletNotFound | InsufficientFunds

  /** The wallet table, keyed by player id. */
  type Wallets = map<int, Wallet>

  /** Neither part of any wallet is negative. */
  predicate ValidWallets(ws: Wallets) {
    forall p :: p in ws ==> ws[p].balance >= 0 && ws[p].reserved >= 0
  }

  /** The available balance, where a missing wallet counts as zero. */
  function Balance(ws: Wallets, p: int): int {
    if p in ws then ws[p].balance else 0
  }

  /** What a player owns in total: available plus earmarked funds. */
  function Worth(w: Wallet): int {
    w.balance + w.reserved
  }

  /** The worth of each wallet, keyed by player id. */
  function Worths(ws: Wallets): map<int, int> {
    map p | p in ws :: Worth(ws[p])
  }

  /** The money held by the whole ledger. */
  ghost function Total(ws: Wallets): int {
    Sums.Sum(Worths(ws))
  }

  /** `debit`: take `amount` out of an existing wallet's balance.  Refused for a
      non-positive amount, a missing wallet, or a balance below the amount. */
  function Debited(ws: Wallets, p: int, amount: int): (r: Result<Wallets, LedgerError>)
    ensures r.Ok? <==> amount > 0 && p in ws && ws[p].balance >= amount
    ensures r.Err? && amount <= 0 ==> r.error == InvalidAmount
    ensures r.Err? && amount > 0 && p !in ws ==> r.error == WalletNotFound
    ensures r.Err? && amount > 0 && p in ws ==> r.error == InsufficientFunds
    ensures r.Ok? ==> (r.value.Keys == ws.Keys
      && r.value[p].balance == ws[p].balance - amount
      && r.value[p].reserved == ws[p].reserved
      && forall q :: q in ws && q != p ==> r.value[q] == ws[q])
    ensures r.Ok? && ValidWallets(ws) ==> ValidWallets(r.value)
  {
    if amount <= 0 then Err(InvalidAmount)
    else if p !in ws then Err(WalletNotFound)
    else if ws[p].balance < amount then Err(InsufficientFunds)
    else Ok(ws[p := ws[p].(balance := ws[p].balance - amount)])
  }

  /** `credit` (and `recharge`, which behaves identically): add a positive `amount` to
      the balance, opening a wallet with nothing reserved when the player has none. */
  function Credited(ws: Wallets, p: int, amount: int): (r: Result<Wallets, LedgerError>)
    ensures r.Ok? <==> amount > 0
    ensures r.Err? ==> r.error == InvalidAmount
    ensures r.Ok? ==> (r.value.Keys == ws.Keys + {p}
      && r.value[p].balance == Balance(ws, p) + amount
      && r.value[p].reserved == (if p in ws then ws[p].reserved else 0)
      && forall q :: q in ws && q != p ==> r.value[q] == ws[q])
    ensures r.Ok? && ValidWallets(ws) ==> ValidWallets(r.value)
  {
    if amount <= 0 then Err(InvalidAmount)
    else if p !in ws then Ok(ws[p := Wallet(amount, 0)])
    else Ok(ws[p := ws[p].(balance := ws[p].balance + amount)])
  }

  /** `reserveFunds`: move `amount` from the balance into the reserved part.  The
      amount's sign is not checked. */
  function FundsReserved(ws: Wallets, p: int, amount: int): (r: Result<Wallets, LedgerError>)
    ensures r.Ok? <==> p in ws && ws[p].balance >= amount
    ensures r.Err? ==> r.error == (if p !in ws then WalletNotFound else InsufficientFunds)
    ensures r.Ok? ==> (r.value.Keys == ws.Keys
      && r.value[p].reserved == ws[p].reserved + amount
      && Worth(r.value[p]) == Worth(ws[p])
      && forall q :: q in ws && q != p ==> r.value[q] == ws[q])
    ensures r.Ok? && ValidWallets(ws) && amount >= 0 ==> ValidWallets(r.value)
  {
    if p !in ws then Err(WalletNotFound)
    else if ws[p].balance < amount then Err(InsufficientFunds)
    else Ok(ws[p := Wallet(ws[p].balance - amount, ws[p].reserved + amount)])
  }

  /** `releaseReserved`: give `amount` back to the balance and lower the reserved part
      by it, clamped at zero. */
  function ReservedReleased(ws: Wallets, p: int, amount: int): (r: Result<Wallets, LedgerError>)
    ensures r.Ok? <==> p in ws
    ensures r.Err? ==> r.error == WalletNotFound
    ensures r.Ok? ==> (r.value.Keys == ws.Keys
      && r.value[p].balance == ws[p].balance + amount
      && r.value[p].reserved >= 0
      && (ws[p].reserved >= amount ==> r.value[p].reserved == ws[p].reserved - amount)
      && (ws[p].reserved < amount ==> r.value[p].reserved == 0)
      && (Worth(r.value[p]) == Worth(ws[p]) <==> amount <= ws[p].reserved)
      && forall q :: q in ws && q != p ==> r.value[q] == ws[q])
    ensures r.Ok? && ValidWallets(ws) && amount >= 0 ==> ValidWallets(r.value)
  {
    if p !in ws then Err(WalletNotFound)
    else Ok(ws[p := Wallet(ws[p].balance + amount, ClampAtZero(ws[p].reserved - amount))])
  }

  /** `commitReserved`: spend `amount` out of the reserved part, clamped at zero; the
      balance is not touched. */
  function ReservedCommitted(ws: Wallets, p: int, amount: int): (r: Result<Wallets, LedgerError>)
    ensures r.Ok? <==> p in ws
    ensures r.Err? ==> r.error == WalletNotFound
    ensures r.Ok? ==> (r.value.Keys == ws.Keys
      && r.value[p].balance == ws[p].balance
      && r.value[p].reserved >= 0
      && (ws[p].reserved >= amount ==> r.value[p].reserved == ws[p].reserved - amount)
      && (ws[p].reserved < amount ==> r.value[p].reserved == 0)
      && forall q :: q in ws && q != p ==> r.value[q] == ws[q])
    ensures r.Ok? && ValidWallets(ws) ==> ValidWallets(r.value)
  {
    if p !in ws then Err(WalletNotFound)
    else Ok(ws[p := ws[p].(reserved := ClampAtZero(ws[p].reserved - amount))])
  }

  /** `hasSufficientFunds`: whether the balance (zero for a missing wallet) covers
      `amount`.  For a positive amount this is exactly when `debit` would succeed. */
  function Sufficient(ws: Wallets, p: int, amount: int): (r: bool)
    ensures amount > 0 ==> (r <==> Debited(ws, p, amount).Ok?)
    ensures amount <= 0 && ValidWallets(ws) ==> r
  {
    Balance(ws, p) >= amount
  }

  /** `max(0, x)`, the clamp the source applies to reserved amounts. */
  function ClampAtZero(x: int): int {
    if x < 0 then 0 else x
  }

  /** The table of worths changes at one key when one wallet changes. */
  lemma WorthsUpdate(ws: Wallets, p: int, w: Wallet)
    ensures Worths(ws[p := w]) == Worths(ws)[p := Worth(w)]
  {
  }

  /** Replacing one wallet changes the ledger's total by the change in that wallet's worth. */
  lemma TotalUpdate(ws: Wallets, p: int, w: Wallet)
    ensures Total(ws[p := w]) == Total(ws) - (if p in ws then Worth(ws[p]) else 0) + Worth(w)
  {
    WorthsUpdate(ws, p, w);
    Sums.SumUpdate(Worths(ws), p, Worth(w));
  }

  /** A successful debit takes exactly `amount` out of the ledger. */
  lemma DebitedTotal(ws: Wallets, p: int, amount: int)
    requires Debited(ws, p, amount).Ok?
    ensures Total(Debited(ws, p, amount).value) == Total(ws) - amount
  {
    TotalUpdate(ws, p, ws[p].(balance := ws[p].balance - amount));
  }

  /** A successful credit puts exactly `amount` into the ledger. */
  lemma CreditedTotal(ws: Wallets, p: int, amount: int)
    requires Credited(ws, p, amount).Ok?
    ensures Total(Credited(ws, p, amount).value) == Total(ws) + amount
  {
    if p in ws {
      TotalUpdate(ws, p, ws[p].(balance := ws[p].balance + amount));
    } else {
      TotalUpdate(ws, p, Wallet(amount, 0));
    }
  }

  /** Once `hasSufficientFunds` has passed for a positive amount, moving that money from
      one wallet to another (debit then credit of the same amount) completes and leaves
      the ledger's total unchanged: a settlement is zero-sum. */
  lemma TransferConservesTotal(ws: Wallets, from: int, to: int, amount: int)
    requires amount > 0 && Sufficient(ws, from, amount)
    ensures Debited(ws, from, amount).Ok?
    ensures Credited(Debited(ws, from, amount).value, to, amount).Ok?
    ensures Total(Credited(Debited(ws, from, amount).value, to, amount).value) == Total(ws)
  {
    DebitedTotal(ws, from, amount);
    CreditedTotal(Debited(ws, from, amount).value, to, amount);
  }

  /** A credit followed by a debit of the same amount restores an existing wallet table
      (a wallet whose balance is already negative could not pay the debit back). */
  lemma CreditThenDebit(ws: Wallets, p: int, amount: int)
    requires p in ws && ws[p].balance >= 0 && amount > 0
    ensures Credited(ws, p, amount).Ok?
    ensures Debited(Credited(ws, p, amount).value, p, amount) == Ok(ws)
  {
    var credited := Credited(ws, p, amount).value;
    assert credited == ws[p := ws[p].(balance := ws[p].balance + amount)];
    assert credited[p := ws[p]] == ws;
  }

  /** Releasing what was just reserved restores the wallet table. */
  lemma ReserveThenRelease(ws: Wallets, p: int, amount: int)
    requires FundsReserved(ws, p, amount).Ok?
    requires ws[p].reserved >= 0
    ensures ReservedReleased(FundsReserved(ws, p, amount).value, p, amount) == Ok(ws)
  {
    assert FundsReserved(ws, p, amount).value[p := ws[p]] == ws;
  }

  /** The wallet repository together with the service operations on it. */
  class WalletService {
    var wallets: Wallets

    constructor ()
      ensures wallets == map[]
    {
      wallets := map[];
    }

    /** Lines 18-32: reserve `amount` of the player's balance. */
    method ReserveFunds(playerId: int, amount: int) returns (r: Outcome<LedgerError>)
      modifies this
      ensures match FundsReserved(old(wallets), playerId, amount)
        case Ok(ws) => r == Pass && wallets == ws
        case Err(e) => r == Fail(e) && wallets == old(wallets)
    {
      if playerId !in wallets {
        return Fail(WalletNotFound);
      }
      var w := wallets[playerId];
      if w.balance < amount {
        return Fail(InsufficientFunds);
      }
      wallets := wallets[playerId := Wallet(w.balance - amount, w.reserved + amount)];
      return Pass;
    }

    /** Lines 37-51: return `amount` from the reserved part to the balance. */
    method ReleaseReserved(playerId: int, amount: int) returns (r: Outcome<LedgerError>)
      modifies this
      ensures match ReservedReleased(old(wallets), playerId, amount)
        case Ok(ws) => r == Pass && wallets == ws
        case Err(e) => r == Fail(e) && wallets == old(wallets)
    {
      if playerId !in wallets {
        return Fail(WalletNotFound);
      }
      var w := wallets[playerId];
      var newReserved := w.reserved - amount;
      if newReserved < 0 {
        newReserved := 0;
      }
      wallets := wallets[playerId := Wallet(w.balance + amount, newReserved)];
      return Pass;
    }

    /** Lines 56-70: spend `amount` out of the reserved part. */
    method CommitReserved(playerId: int, amount: int) returns (r: Outcome<LedgerError>)
      modifies this
      ensures match ReservedCommitted(old(wallets), playerId, amount)
        case Ok(ws) => r == Pass && wallets == ws
        case Err(e) => r == Fail(e) && wallets == old(wallets)
    {
      if playerId !in wallets {
        return Fail(WalletNotFound);
      }
      var w := wallets[playerId];
      var newReserved := w.reserved - amount;
      if newReserved < 0 {
        newReserved := 0;
      }
      wallets := wallets[playerId := w.(reserved := newReserved)];
      return Pass;
    }

    /** Lines 74-89: top up a wallet, opening it if needed; returns the saved wallet. */
    method Recharge(playerId: int, amount: int) returns (r: Result<Wallet, LedgerError>)
      modifies this
      ensures match Credited(old(wallets), playerId, amount)
        case Ok(ws) => r == Ok(ws[playerId]) && wallets == ws
        case Err(e) => r == Err(e) && wallets == old(wallets)
    {
      if amount <= 0 {
        return Err(InvalidAmount);
      }
      var w;
      if playerId !in wallets {
        w := Wallet(amount, 0);
      } else {
        w := wallets[playerId];
        w := w.(balance := w.balance + amount);
      }
      wallets := wallets[playerId := w];
      return Ok(w);
    }

    /** Lines 92-107: add a positive amount to a player's balance. */
    method Credit(playerId: int, amount: int) returns (r: Outcome<LedgerError>)
      modifies this
      ensures match Credited(old(wallets), playerId, amount)
        case Ok(ws) => r == Pass && wallets == ws
        case Err(e) => r == Fail(e) && wallets == old(wallets)
    {
      if amount <= 0 {
        return Fail(InvalidAmount);
      }
      if playerId !in wallets {
        wallets := wallets[playerId := Wallet(amount, 0)];
      } else {
        var w := wallets[playerId];
        wallets := wallets[playerId := w.(balance := w.balance + amount)];
      }
      return Pass;
    }

    /** Lines 111-125: take a positive amount out of a player's balance. */
    method Debit(playerId: int, amount: int) returns (r: Outcome<LedgerError>)
      modifies this
      ensures match Debited(old(wallets), playerId, amount)
        case Ok(ws) => r == Pass && wallets == ws
        case Err(e) => r == Fail(e) && wallets == old(wallets)
    {
      if amount <= 0 {
        return Fail(InvalidAmount);
      }
      if playerId !in wallets {
        return Fail(WalletNotFound);
      }
      var w := wallets[playerId];
      if w.balance < amount {
        return Fail(InsufficientFunds);
      }
      wallets := wallets[playerId := w.(balance := w.balance - amount)];
      return Pass;
    }

    /** Lines 128-132: the read-only funds check. */
    method HasSufficientFunds(playerId: int, amount: int) returns (ok: bool)
      ensures ok == Sufficient(wallets, playerId, amount)
      ensures ok && amount > 0 ==> Debited(wallets, playerId, amount).Ok?
    {
      var balance := 0;
      if playerId in wallets {
        balance := wallets[playerId].balance;
      }
      ok := balance >= amount;
    }
  }
}
