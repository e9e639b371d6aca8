/**
  One user's rows of the shares table, as a map from symbol to share
  count, with the two updates a trade makes to it and the value of the
  holdings at a set of quotes.
*/
module Holdings {
  import opened FinanceTypes

  /** The shares of `s` held, zero when there is no row for `s`. */
  function Held(h: map<string, nat>, s: string): nat
  {
    if s in h then h[s] else 0
  }

  /** No row holds zero shares: a row is deleted when its count reaches zero. */
  predicate Positive(h: map<string, nat>)
  {
    forall s :: s in h ==> h[s] > 0
  }

  /**
    The holdings after buying `n` shares of `s`: the existing row grows by
    `n`, or a new row with `n` shares is inserted.
  */
  function AfterBuy(h: map<string, nat>, s: string, n: nat): (h': map<string, nat>)
    ensures h'.Keys == h.Keys + {s}
    ensures forall t :: Held(h', t) == Held(h, t) + (if t == s then n else 0)
    ensures Positive(h) && n > 0 ==> Positive(h')
  {
    if s in h then h[s := h[s] + n] else h[s := n]
  }

  /**
    The holdings after selling `n` of the shares of `s`: the row is deleted
    when nothing remains, otherwise it keeps the remainder.
  */
  function AfterSell(h: map<string, nat>, s: string, n: nat): (h': map<string, nat>)
    requires s in h && n <= h[s]
    ensures s in h' <==> n < h[s]
    ensures h'.Keys <= h.Keys
    ensures forall t :: Held(h', t) == Held(h, t) - (if t == s then n else 0)
    ensures Positive(h) ==> Positive(h')
  {
    var remaining := h[s] - n;
    if remaining == 0 then h - {s} else h[s := remaining]
  }

  /** The price the lookup gives for `s`, zero when it gives nothing. */
  function PriceOf(lookup: string -> Option<Quote>, s: string): nat
  {
    match lookup(s)
    case Some(q) => q.price
    case None => 0
  }

  ghost function Pick(h: map<string, nat>): (s: string)
    requires h != map[]
    ensures s in h
  {
    var s :| s in h; s
  }

  /** The value of the holdings: the sum of shares times price over all rows. */
  ghost function Worth(h: map<string, nat>, lookup: string -> Option<Quote>): nat
    decreases |h|
  {
    if h == map[] then 0
    else
      var s := Pick(h);
      h[s] * PriceOf(lookup, s) + Worth(h - {s}, lookup)
  }

  /** The sum does not depend on the row it starts from. */
  lemma {:induction false} WorthSplit(h: map<string, nat>, lookup: string -> Option<Quote>, s: string)
    requires s in h
    ensures Worth(h, lookup) == h[s] * PriceOf(lookup, s) + Worth(h - {s}, lookup)
    decreases |h|
  {
    var t := Pick(h);
    if t != s {
      WorthSplit(h - {t}, lookup, s);
      WorthSplit(h - {s}, lookup, t);
      assert h - {t} - {s} == h - {s} - {t};
    }
  }

  lemma Distributes(a: nat, b: nat, p: nat)
    ensures (a + b) * p == a * p + b * p
  {
  }

  /** Buying `n` shares of `s` adds `n` times its price to the value of the holdings. */
  lemma WorthAfterBuy(h: map<string, nat>, lookup: string -> Option<Quote>, s: string, n: nat)
    ensures Worth(AfterBuy(h, s, n), lookup) == Worth(h, lookup) + n * PriceOf(lookup, s)
  {
    var h' := AfterBuy(h, s, n);
    var p := PriceOf(lookup, s);
    WorthSplit(h', lookup, s);
    if s in h {
      WorthSplit(h, lookup, s);
      assert h' - {s} == h - {s};
      assert h'[s] == h[s] + n;
      Distributes(h[s], n, p);
    } else {
      assert h' - {s} == h;
    }
  }

  /** Selling `n` shares of `s` takes `n` times its price off the value of the holdings. */
  lemma WorthAfterSell(h: map<string, nat>, lookup: string -> Option<Quote>, s: string, n: nat)
    requires s in h && n <= h[s]
    ensures Worth(AfterSell(h, s, n), lookup) == Worth(h, lookup) - n * PriceOf(lookup, s)
  {
    var h' := AfterSell(h, s, n);
    var p := PriceOf(lookup, s);
    WorthSplit(h, lookup, s);
    if n < h[s] {
      WorthSplit(h', lookup, s);
      assert h' - {s} == h - {s};
      assert h'[s] == h[s] - n;
      Distributes(h[s] - n, n, p);
    } else {
      assert h' == h - {s};
    }
  }

  /**
    A trade at the quoted price moves value between cash and holdings and
    leaves the total unchanged: buying debits the cost that the holdings
    gain.
  */
  lemma BuyKeepsTotal(cash: int, h: map<string, nat>, lookup: string -> Option<Quote>, q: Quote, n: nat)
    requires lookup(q.symbol) == Some(q)
    ensures (cash - n * q.price) + Worth(AfterBuy(h, q.symbol, n), lookup) == cash + Worth(h, lookup)
  {
    WorthAfterBuy(h, lookup, q.symbol, n);
  }

  /** Selling credits the proceeds that the holdings lose. */
  lemma SellKeepsTotal(cash: int, h: map<string, nat>, lookup: string -> Option<Quote>, s: string, q: Quote, n: nat)
    requires s in h && n <= h[s] && lookup(s) == Some(q)
    ensures (cash + n * q.price) + Worth(AfterSell(h, s, n), lookup) == cash + Worth(h, lookup)
  {
    WorthAfterSell(h, lookup, s, n);
  }
}
