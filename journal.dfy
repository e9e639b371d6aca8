/**
  The transactions table read as an audit trail: the net shares and the
  net cash that the logged trades of one user add up to. The running
  balances are never recomputed from the log; these functions are what
  the balances are proved to agree with.
*/
module Journal {
  import opened FinanceTypes

  /** How one logged trade changes the shares of `s` held by `id`. */
  function SharesDelta(tx: Tx, id: UserId, s: string): int
  {
    if tx.user != id || tx.symbol != s then 0
    else if tx.kind == Bought then tx.shares
    else -(tx.shares as int)
  }

  /** How one logged trade changes the cash of `id`. */
  function CashDelta(tx: Tx, id: UserId): int
  {
    if tx.user != id then 0
    else if tx.kind == Bought then -(tx.shares * tx.price)
    else tx.shares * tx.price
  }

  /** Shares of `s` bought minus shares of `s` sold by `id`, over the whole log. */
  function NetShares(log: seq<Tx>, id: UserId, s: string): int
  {
    if log == [] then 0
    else NetShares(log[..|log| - 1], id, s) + SharesDelta(log[|log| - 1], id, s)
  }

  /** Proceeds of the sales minus costs of the purchases of `id`, over the whole log. */
  function CashFlow(log: seq<Tx>, id: UserId): int
  {
    if log == [] then 0
    else CashFlow(log[..|log| - 1], id) + CashDelta(log[|log| - 1], id)
  }

  /** Appending one row changes each user's totals by that row's contribution alone. */
  lemma AppendOne(log: seq<Tx>, tx: Tx)
    ensures forall id, s :: NetShares(log + [tx], id, s) == NetShares(log, id, s) + SharesDelta(tx, id, s)
    ensures forall id :: CashFlow(log + [tx], id) == CashFlow(log, id) + CashDelta(tx, id)
  {
  }

  /** A user with no logged trade has bought and sold nothing. */
  lemma {:induction false} NoTradesNoFlow(log: seq<Tx>, id: UserId)
    requires forall i :: 0 <= i < |log| ==> log[i].user != id
    ensures CashFlow(log, id) == 0
    ensures forall s :: NetShares(log, id, s) == 0
  {
    if log != [] {
      NoTradesNoFlow(log[..|log| - 1], id);
    }
  }
}
