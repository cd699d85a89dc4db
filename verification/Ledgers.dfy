/**
  Balances and freezes of the accounts.

  The asset libraries are not part of this model. This ledger is the contract assumed of them: a freeze needs the
  balance to cover it, a release needs it to be frozen, and a withdrawal needs balance that is not frozen.
 */
module Ledgers {
  import opened Errors
  import opened Ticks
  import opened Wrappers

  datatype Asset = BaseAsset | QuoteAsset

  datatype Wallet = Wallet(base: nat, quote: nat, frozenBase: nat, frozenQuote: nat)

  type Ledger = map<AccountId, Wallet>

  function WalletOf(l: Ledger, who: AccountId): Wallet {
    if who in l then l[who] else Wallet(0, 0, 0, 0)
  }

  function Balance(w: Wallet, a: Asset): nat {
    if a == BaseAsset then w.base else w.quote
  }

  function Frozen(w: Wallet, a: Asset): nat {
    if a == BaseAsset then w.frozenBase else w.frozenQuote
  }

  function BalanceOf(l: Ledger, who: AccountId, a: Asset): nat {
    Balance(WalletOf(l, who), a)
  }

  function FrozenOf(l: Ledger, who: AccountId, a: Asset): nat {
    Frozen(WalletOf(l, who), a)
  }

  function WithBalance(w: Wallet, a: Asset, amount: nat): Wallet {
    if a == BaseAsset then w.(base := amount) else w.(quote := amount)
  }

  function WithFrozen(w: Wallet, a: Asset, amount: nat): Wallet {
    if a == BaseAsset then w.(frozenBase := amount) else w.(frozenQuote := amount)
  }

  /** `increase_frozen`. */
  function Freeze(l: Ledger, who: AccountId, a: Asset, amount: nat): Result<Ledger, MarketError> {
    var w := WalletOf(l, who);
    if Frozen(w, a) + amount > Balance(w, a) then Err(LedgerRefused)
    else Ok(l[who := WithFrozen(w, a, Frozen(w, a) + amount)])
  }

  /** `decrease_frozen`. */
  function Thaw(l: Ledger, who: AccountId, a: Asset, amount: nat): Result<Ledger, MarketError> {
    var w := WalletOf(l, who);
    if amount > Frozen(w, a) then Err(FrozenUnderflow)
    else Ok(l[who := WithFrozen(w, a, Frozen(w, a) - amount)])
  }

  function Withdraw(l: Ledger, who: AccountId, a: Asset, amount: nat): Result<Ledger, MarketError> {
    var w := WalletOf(l, who);
    if Frozen(w, a) + amount > Balance(w, a) then Err(LedgerRefused)
    else Ok(l[who := WithBalance(w, a, Balance(w, a) - amount)])
  }

  function Credit(l: Ledger, who: AccountId, a: Asset, amount: nat): Ledger {
    var w := WalletOf(l, who);
    l[who := WithBalance(w, a, Balance(w, a) + amount)]
  }

  function Transfer(l: Ledger, from: AccountId, to: AccountId, a: Asset, amount: nat): Result<Ledger, MarketError> {
    var taken :- Withdraw(l, from, a, amount);
    Ok(Credit(taken, to, a, amount))
  }

  // ---------- pool shares ----------

  /** Who holds how many shares of the pool, apart from the locked ones. */
  type Shares = map<AccountId, nat>

  function SharesOf(s: Shares, who: AccountId): nat {
    if who in s then s[who] else 0
  }

  function Mint(s: Shares, to: AccountId, amount: nat): Shares {
    s[to := SharesOf(s, to) + amount]
  }

  function Burn(s: Shares, who: AccountId, amount: nat): Result<Shares, MarketError> {
    if amount > SharesOf(s, who) then Err(LedgerRefused) else Ok(s[who := SharesOf(s, who) - amount])
  }

  lemma MintAdds(s: Shares, to: AccountId, amount: nat)
    ensures Sum(Mint(s, to, amount)) == Sum(s) + amount
  {
    SumUpdate(s, to, SharesOf(s, to) + amount);
  }

  lemma BurnTakes(s: Shares, who: AccountId, amount: nat)
    ensures Burn(s, who, amount).Ok? ==> Sum(s) >= amount && Sum(Burn(s, who, amount).value) == Sum(s) - amount
  {
    if amount <= SharesOf(s, who) {
      SumUpdate(s, who, SharesOf(s, who) - amount);
    }
  }

  // ---------- movements ----------

  /** Moving balances leaves all freezes alone. */
  lemma TransferKeepsFrozen(l: Ledger, from: AccountId, to: AccountId, a: Asset, amount: nat, who: AccountId, b: Asset)
    ensures FrozenOf(Credit(l, to, a, amount), who, b) == FrozenOf(l, who, b)
    ensures Withdraw(l, from, a, amount).Ok? ==>
      FrozenOf(Withdraw(l, from, a, amount).value, who, b) == FrozenOf(l, who, b)
    ensures Transfer(l, from, to, a, amount).Ok? ==>
      FrozenOf(Transfer(l, from, to, a, amount).value, who, b) == FrozenOf(l, who, b)
  {
  }

  /** Where a transfer takes and adds. */
  lemma TransferMoves(l: Ledger, from: AccountId, to: AccountId, a: Asset, amount: nat, who: AccountId, b: Asset)
    requires Transfer(l, from, to, a, amount).Ok?
    ensures var after := Transfer(l, from, to, a, amount).value;
      && BalanceOf(after, who, b) == BalanceOf(l, who, b)
         + (if who == to && a == b then amount else 0) - (if who == from && a == b then amount else 0)
      && (who != from && who != to ==> WalletOf(after, who) == WalletOf(l, who))
  {
  }

  lemma ThawMovesNothing(l: Ledger, from: AccountId, a: Asset, amount: nat, who: AccountId, b: Asset)
    requires Thaw(l, from, a, amount).Ok?
    ensures var after := Thaw(l, from, a, amount).value;
      && BalanceOf(after, who, b) == BalanceOf(l, who, b)
      && (who != from ==> WalletOf(after, who) == WalletOf(l, who))
  {
  }

  lemma WithdrawErrors(l: Ledger, who: AccountId, a: Asset, amount: nat)
    ensures Withdraw(l, who, a, amount).Ok? || Withdraw(l, who, a, amount) == Err(LedgerRefused)
  {
  }

  lemma TransferErrors(l: Ledger, from: AccountId, to: AccountId, a: Asset, amount: nat)
    ensures Transfer(l, from, to, a, amount).Ok? || Transfer(l, from, to, a, amount) == Err(LedgerRefused)
  {
  }

  /** A release fails only for lack of frozen funds, and takes exactly `amount` off one freeze. */
  lemma ThawTakes(l: Ledger, who: AccountId, a: Asset, amount: nat, whose: AccountId, b: Asset)
    ensures Thaw(l, who, a, amount).Ok? <==> FrozenOf(l, who, a) >= amount
    ensures Thaw(l, who, a, amount).Ok? ==>
      FrozenOf(Thaw(l, who, a, amount).value, whose, b)
      == FrozenOf(l, whose, b) - (if who == whose && a == b then amount else 0)
  {
  }

  // ---------- balances cover freezes ----------

  ghost predicate Solvent(l: Ledger) {
    forall who, a :: FrozenOf(l, who, a) <= BalanceOf(l, who, a)
  }

  /** Every movement keeps balances above freezes. */
  lemma MovementsKeepSolvent(l: Ledger, who: AccountId, a: Asset, amount: nat)
    requires Solvent(l)
    ensures Freeze(l, who, a, amount).Ok? ==> Solvent(Freeze(l, who, a, amount).value)
    ensures Thaw(l, who, a, amount).Ok? ==> Solvent(Thaw(l, who, a, amount).value)
    ensures Withdraw(l, who, a, amount).Ok? ==> Solvent(Withdraw(l, who, a, amount).value)
    ensures Solvent(Credit(l, who, a, amount))
  {
    assert FrozenOf(l, who, BaseAsset) <= BalanceOf(l, who, BaseAsset);
    assert FrozenOf(l, who, QuoteAsset) <= BalanceOf(l, who, QuoteAsset);
    hide Solvent;
    var w := WalletOf(l, who);
    SolventUpdate(l, who, WithFrozen(w, a, Frozen(w, a) + amount));
    SolventUpdate(l, who, WithBalance(w, a, Balance(w, a) + amount));
    if amount <= Frozen(w, a) {
      SolventUpdate(l, who, WithFrozen(w, a, Frozen(w, a) - amount));
    }
    if amount <= Balance(w, a) {
      SolventUpdate(l, who, WithBalance(w, a, Balance(w, a) - amount));
    }
  }

  lemma SolventUpdate(l: Ledger, who: AccountId, w: Wallet)
    requires Solvent(l)
    ensures w.frozenBase <= w.base && w.frozenQuote <= w.quote ==> Solvent(l[who := w])
  {
    if w.frozenBase <= w.base && w.frozenQuote <= w.quote {
      var l' := l[who := w];
      forall x, a ensures FrozenOf(l', x, a) <= BalanceOf(l', x, a) {
        assert FrozenOf(l, x, a) <= BalanceOf(l, x, a);
      }
    }
  }

  lemma TransferKeepsSolvent(l: Ledger, from: AccountId, to: AccountId, a: Asset, amount: nat)
    requires Solvent(l)
    ensures Transfer(l, from, to, a, amount).Ok? ==> Solvent(Transfer(l, from, to, a, amount).value)
  {
    hide Solvent, Withdraw, Credit;
    MovementsKeepSolvent(l, from, a, amount);
    if Withdraw(l, from, a, amount).Ok? {
      MovementsKeepSolvent(Withdraw(l, from, a, amount).value, to, a, amount);
    }
  }

  // ---------- sums over a map ----------

  ghost function Sum<K>(m: map<K, nat>): nat
    decreases |m|
  {
    if m == map[] then 0
    else
      var k :| k in m;
      KeysShrink(m, k);
      m[k] + Sum(m - {k})
  }

  lemma KeysShrink<K>(m: map<K, nat>, k: K)
    requires k in m
    ensures |m - {k}| == |m| - 1
  {
    assert (m - {k}).Keys == m.Keys - {k};
    assert |m.Keys - {k}| == |m.Keys| - 1;
  }

  /** Any entry can be split off a sum. */
  lemma {:induction false} SumSplit<K>(m: map<K, nat>, k: K)
    requires k in m
    ensures Sum(m) == m[k] + Sum(m - {k})
    decreases |m|
  {
    var j :| j in m && Sum(m) == m[j] + Sum(m - {j});
    if j != k {
      KeysShrink(m, j);
      KeysShrink(m, k);
      SumSplit(m - {j}, k);
      SumSplit(m - {k}, j);
      assert m - {j} - {k} == m - {k} - {j};
    }
  }

  lemma SumUpdate<K>(m: map<K, nat>, k: K, v: nat)
    ensures Sum(m[k := v]) == v + (if k in m then Sum(m) - m[k] else Sum(m))
    ensures k in m ==> Sum(m) >= m[k]
  {
    SumSplit(m[k := v], k);
    if k in m {
      SumSplit(m, k);
      assert m[k := v] - {k} == m - {k};
    } else {
      assert m[k := v] - {k} == m;
    }
  }

  ghost function Balances(l: Ledger, a: Asset): map<AccountId, nat> {
    map who | who in l :: Balance(l[who], a)
  }

  /** All accounts' holdings of an asset. */
  ghost function Holdings(l: Ledger, a: Asset): nat {
    Sum(Balances(l, a))
  }

  lemma HoldingsUpdate(l: Ledger, who: AccountId, w: Wallet, a: Asset)
    ensures Holdings(l[who := w], a) == Holdings(l, a) - Balance(WalletOf(l, who), a) + Balance(w, a)
    ensures Holdings(l, a) >= Balance(WalletOf(l, who), a)
  {
    SumUpdate(Balances(l, a), who, Balance(w, a));
    assert Balances(l[who := w], a) == Balances(l, a)[who := Balance(w, a)];
  }

  lemma CreditAdds(l: Ledger, who: AccountId, a: Asset, amount: nat, b: Asset)
    ensures Holdings(Credit(l, who, a, amount), b) == Holdings(l, b) + (if a == b then amount else 0)
  {
    var w := WalletOf(l, who);
    HoldingsUpdate(l, who, WithBalance(w, a, Balance(w, a) + amount), b);
  }

  lemma WithdrawTakes(l: Ledger, who: AccountId, a: Asset, amount: nat, b: Asset)
    requires Withdraw(l, who, a, amount).Ok?
    ensures Holdings(Withdraw(l, who, a, amount).value, b) == Holdings(l, b) - (if a == b then amount else 0)
  {
    var w := WalletOf(l, who);
    HoldingsUpdate(l, who, WithBalance(w, a, Balance(w, a) - amount), b);
  }

  lemma FreezingMovesNothing(l: Ledger, who: AccountId, a: Asset, amount: nat, b: Asset)
    ensures Freeze(l, who, a, amount).Ok? ==> Holdings(Freeze(l, who, a, amount).value, b) == Holdings(l, b)
    ensures Thaw(l, who, a, amount).Ok? ==> Holdings(Thaw(l, who, a, amount).value, b) == Holdings(l, b)
  {
    var w := WalletOf(l, who);
    hide Holdings;
    HoldingsUpdate(l, who, WithFrozen(w, a, Frozen(w, a) + amount), b);
    if amount <= Frozen(w, a) {
      HoldingsUpdate(l, who, WithFrozen(w, a, Frozen(w, a) - amount), b);
    }
  }

  lemma TransferMovesOnly(l: Ledger, from: AccountId, to: AccountId, a: Asset, amount: nat, b: Asset)
    requires Transfer(l, from, to, a, amount).Ok?
    ensures Holdings(Transfer(l, from, to, a, amount).value, b) == Holdings(l, b)
  {
    WithdrawTakes(l, from, a, amount, b);
    CreditAdds(Withdraw(l, from, a, amount).value, to, a, amount, b);
  }
}
