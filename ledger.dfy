/**
  The integrity rules of the three tables taken together, and the proof
  that each successful request keeps them: cash is never negative, no
  holding row holds zero shares, usernames are unique, and the running
  balances agree with the transactions table.
*/
module Ledger {
  import opened FinanceTypes
  import Holdings
  import Journal
  import Accounts

  /** The rows of the shares table that belong to `id`. */
  function HoldingsIn(shares: map<UserId, map<string, nat>>, id: UserId): map<string, nat>
  {
    if id in shares then shares[id] else map[]
  }

  /** Each user's cash is the starting cash plus the net proceeds of that user's logged trades. */
  ghost predicate CashReconciled(users: map<UserId, User>, log: seq<Tx>, startingCash: nat)
  {
    forall id :: id in users ==> users[id].cash == startingCash + Journal.CashFlow(log, id)
  }

  /** Each holding is the net of the logged shares of its symbol. */
  ghost predicate SharesReconciled(users: map<UserId, User>, shares: map<UserId, map<string, nat>>, log: seq<Tx>)
  {
    forall id, s :: id in users ==> Holdings.Held(HoldingsIn(shares, id), s) == Journal.NetShares(log, id, s)
  }

  ghost predicate Consistent(
    users: map<UserId, User>, shares: map<UserId, map<string, nat>>, log: seq<Tx>,
    nextId: UserId, startingCash: nat)
  {
    && (forall id :: id in users ==> id < nextId)
    && shares.Keys <= users.Keys
    && (forall id :: id in shares ==> Holdings.Positive(shares[id]))
    && (forall id :: id in users ==> users[id].cash >= 0)
    && Accounts.NamesUnique(users)
    && (forall i :: 0 <= i < |log| ==> log[i].user in users)
    && CashReconciled(users, log, startingCash)
    && SharesReconciled(users, shares, log)
  }

  /** Changing only the cash of a row keeps usernames unique. */
  lemma CashUpdateKeepsNames(users: map<UserId, User>, id: UserId, cash: int)
    requires Accounts.NamesUnique(users) && id in users
    ensures Accounts.NamesUnique(users[id := users[id].(cash := cash)])
  {
  }

  /**
    A buy that passed its checks (cost at most the cash) keeps every rule:
    the cash debit, the holding of the canonical symbol and the logged row
    move together.
  */
  lemma BuyKeepsConsistent(
    users: map<UserId, User>, shares: map<UserId, map<string, nat>>, log: seq<Tx>,
    nextId: UserId, startingCash: nat, id: UserId, q: Quote, n: nat)
    requires Consistent(users, shares, log, nextId, startingCash)
    requires id in users && n > 0 && n * q.price <= users[id].cash
    ensures Consistent(
      users[id := users[id].(cash := users[id].cash - n * q.price)],
      shares[id := Holdings.AfterBuy(HoldingsIn(shares, id), q.symbol, n)],
      log + [Tx(id, Bought, q.symbol, n, q.price)],
      nextId, startingCash)
  {
    var tx := Tx(id, Bought, q.symbol, n, q.price);
    var users' := users[id := users[id].(cash := users[id].cash - n * q.price)];
    var shares' := shares[id := Holdings.AfterBuy(HoldingsIn(shares, id), q.symbol, n)];
    var log' := log + [tx];
    Journal.AppendOne(log, tx);
    CashUpdateKeepsNames(users, id, users[id].cash - n * q.price);
    assert forall i :: 0 <= i < |log'| ==> log'[i].user in users' by {
      forall i | 0 <= i < |log'| ensures log'[i].user in users' {
        if i < |log| { assert log'[i] == log[i]; }
      }
    }
    assert CashReconciled(users', log', startingCash);
    assert SharesReconciled(users', shares', log') by {
      forall u, s | u in users'
        ensures Holdings.Held(HoldingsIn(shares', u), s) == Journal.NetShares(log', u, s)
      {
        if u != id {
          assert HoldingsIn(shares', u) == HoldingsIn(shares, u);
        }
      }
    }
  }

  /**
    A sell that passed its checks (a row for the symbol, holding at least
    `n`) keeps every rule: the holding shrinks or its row goes, the cash is
    credited and the logged row records the sale.
  */
  lemma SellKeepsConsistent(
    users: map<UserId, User>, shares: map<UserId, map<string, nat>>, log: seq<Tx>,
    nextId: UserId, startingCash: nat, id: UserId, s: string, price: nat, n: nat)
    requires Consistent(users, shares, log, nextId, startingCash)
    requires id in users && s in HoldingsIn(shares, id) && n <= HoldingsIn(shares, id)[s]
    ensures Consistent(
      users[id := users[id].(cash := users[id].cash + n * price)],
      shares[id := Holdings.AfterSell(HoldingsIn(shares, id), s, n)],
      log + [Tx(id, Sold, s, n, price)],
      nextId, startingCash)
  {
    var tx := Tx(id, Sold, s, n, price);
    var users' := users[id := users[id].(cash := users[id].cash + n * price)];
    var shares' := shares[id := Holdings.AfterSell(HoldingsIn(shares, id), s, n)];
    var log' := log + [tx];
    Journal.AppendOne(log, tx);
    CashUpdateKeepsNames(users, id, users[id].cash + n * price);
    assert forall i :: 0 <= i < |log'| ==> log'[i].user in users' by {
      forall i | 0 <= i < |log'| ensures log'[i].user in users' {
        if i < |log| { assert log'[i] == log[i]; }
      }
    }
    assert Holdings.Positive(HoldingsIn(shares, id));
    assert CashReconciled(users', log', startingCash);
    assert SharesReconciled(users', shares', log') by {
      forall u, t | u in users'
        ensures Holdings.Held(HoldingsIn(shares', u), t) == Journal.NetShares(log', u, t)
      {
        if u != id {
          assert HoldingsIn(shares', u) == HoldingsIn(shares, u);
        }
      }
    }
  }

  /**
    Registering a name no row carries keeps every rule: the new row gets a
    fresh id, the starting cash and no holdings, and has no logged trades.
  */
  lemma RegisterKeepsConsistent(
    users: map<UserId, User>, shares: map<UserId, map<string, nat>>, log: seq<Tx>,
    nextId: UserId, startingCash: nat, u: User)
    requires Consistent(users, shares, log, nextId, startingCash)
    requires Accounts.RowsNamed(users, u.username) == {} && u.cash == startingCash
    ensures Consistent(users[nextId := u], shares, log, nextId + 1, startingCash)
  {
    var users' := users[nextId := u];
    assert nextId !in users;
    assert nextId !in shares;
    Accounts.InsertKeepsNamesUnique(users, nextId, u);
    Journal.NoTradesNoFlow(log, nextId);
    assert SharesReconciled(users', shares, log) by {
      forall v, t | v in users'
        ensures Holdings.Held(HoldingsIn(shares, v), t) == Journal.NetShares(log, v, t)
      {
        if v == nextId {
          assert HoldingsIn(shares, v) == map[];
        }
      }
    }
  }

  /** Renaming a row to a name no row carries keeps every rule. */
  lemma RenameKeepsConsistent(
    users: map<UserId, User>, shares: map<UserId, map<string, nat>>, log: seq<Tx>,
    nextId: UserId, startingCash: nat, id: UserId, name: string)
    requires Consistent(users, shares, log, nextId, startingCash)
    requires id in users && Accounts.RowsNamed(users, name) == {}
    ensures Consistent(users[id := users[id].(username := name)], shares, log, nextId, startingCash)
  {
  }
}
