/**
 * The account ledger shared by both bank prototypes: a map from account id
 * to balance, the precondition checks `transfer` performs before taking any
 * lock, and the debit/credit it applies once both locks are held.
 */
module Ledger {
  type Accounts = map<int, int>

  /** Sum of all balances (order-independent). */
  ghost function Total(accounts: Accounts): int
    decreases |accounts|
  {
    if |accounts| == 0 then 0
    else
      var k := PickKey(accounts);
      accounts[k] + Total(accounts - {k})
  }

  /** Some key of a non-empty map (the sum below takes keys out one at a time). */
  ghost function PickKey(accounts: Accounts): (k: int)
    requires |accounts| > 0
    ensures k in accounts
  {
    var keys := accounts.Keys;
    assert |keys| == |accounts|;
    assert exists key :: key in keys by {
      if forall key :: key !in keys { assert false; }
    }
    var key :| key in keys; key
  }

  /** The checks `transfer` makes before taking any lock: both accounts exist,
      the amount is positive, and the source balance covers it. */
  predicate Admissible(accounts: Accounts, from: int, to: int, amount: int)
  {
    from in accounts && to in accounts && amount > 0 && accounts[from] >= amount
  }

  /** Debit `from` by `amount`, then credit `to` by `amount`, in that order. */
  function Apply(accounts: Accounts, from: int, to: int, amount: int): (r: Accounts)
    requires from in accounts && to in accounts
    ensures r.Keys == accounts.Keys
    ensures from != to ==> r[from] == accounts[from] - amount && r[to] == accounts[to] + amount
    ensures from == to ==> r[from] == accounts[from]
    ensures forall a :: a in accounts && a != from && a != to ==> r[a] == accounts[a]
  {
    var debited := accounts[from := accounts[from] - amount];
    debited[to := debited[to] + amount]
  }

  /** Taking any one key out first gives the same total. */
  lemma {:induction false} TotalRemove(accounts: Accounts, k: int)
    requires k in accounts
    ensures Total(accounts) == accounts[k] + Total(accounts - {k})
    decreases |accounts|
  {
    var j := PickKey(accounts);
    if j != k {
      var rest := accounts - {j} - {k};
      assert accounts - {j} - {k} == accounts - {k} - {j};
      assert |accounts - {j}| < |accounts| by { assert j in accounts; }
      assert |accounts - {k}| < |accounts| by { assert k in accounts; }
      TotalRemove(accounts - {j}, k);
      TotalRemove(accounts - {k}, j);
    }
  }

  /** Overwriting one existing balance changes the total by the difference. */
  lemma TotalUpdate(accounts: Accounts, k: int, v: int)
    requires k in accounts
    ensures Total(accounts[k := v]) == Total(accounts) - accounts[k] + v
  {
    TotalRemove(accounts, k);
    TotalRemove(accounts[k := v], k);
    assert accounts[k := v] - {k} == accounts - {k};
  }

  /** A debit/credit moves money between accounts without creating or destroying any. */
  lemma ApplyConserves(accounts: Accounts, from: int, to: int, amount: int)
    requires from in accounts && to in accounts
    ensures Total(Apply(accounts, from, to, amount)) == Total(accounts)
  {
    var debited := accounts[from := accounts[from] - amount];
    assert Apply(accounts, from, to, amount) == debited[to := debited[to] + amount];
    TotalUpdate(accounts, from, accounts[from] - amount);
    TotalUpdate(debited, to, debited[to] + amount);
  }
}
