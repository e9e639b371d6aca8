/**
  The ledger behind the route handlers: the users, shares and transactions
  tables, and the requests that read and change them. The logged-in user
  is passed in as `id`; the answer of the quote lookup is passed in too.
*/
module Finance {
  import opened FinanceTypes
  import Holdings
  import Journal
  import Accounts
  import Ledger

  /** Some line of the portfolio is for `s`. */
  predicate Listed(lines: seq<Line>, s: string)
  {
    exists i :: 0 <= i < |lines| && lines[i].symbol == s
  }

  class Database {
    /** The users table, keyed by id. */
    var users: map<UserId, User>
    /** The shares table: for each user id, that user's rows by symbol. */
    var shares: map<UserId, map<string, nat>>
    /** The transactions table, oldest row first. */
    var transactions: seq<Tx>
    /** The id the next registered user receives. */
    var nextId: UserId
    /** The cash a new user starts with (the default of the cash column). */
    const startingCash: nat

    /** The rows of the shares table that belong to `id`. */
    function HoldingsOf(id: UserId): map<string, nat>
      reads this
    {
      Ledger.HoldingsIn(shares, id)
    }

    /** The integrity rules of the tables hold (see the Ledger module). */
    ghost predicate Valid()
      reads this
    {
      Ledger.Consistent(users, shares, transactions, nextId, startingCash)
    }

    constructor (startingCash: nat)
      ensures Valid()
      ensures this.startingCash == startingCash
      ensures users == map[] && shares == map[] && transactions == [] && nextId == 0
    {
      this.startingCash := startingCash;
      users := map[];
      shares := map[];
      transactions := [];
      nextId := 0;
    }

    /**
      Buy `n` shares of `symbol`, given what the quote lookup returned for
      it. The holding and the logged row use the quote's canonical symbol.
    */
    method Buy(id: UserId, symbol: string, n: nat, quote: Option<Quote>) returns (r: Result<Tx>)
      requires Valid() && id in users && n > 0
      modifies this
      ensures Valid()
      ensures symbol == [] ==> r == Err(MissingSymbol)
      ensures symbol != [] && quote.None? ==> r == Err(SymbolNotFound)
      ensures symbol != [] && quote.Some? && n * quote.value.price > old(users[id].cash) ==>
        r == Err(InsufficientFunds)
      ensures symbol != [] && quote.Some? && n * quote.value.price <= old(users[id].cash) ==>
        r == Ok(Tx(id, Bought, quote.value.symbol, n, quote.value.price))
      ensures r.Err? ==>
        users == old(users) && shares == old(shares) && transactions == old(transactions)
      ensures r.Ok? ==> quote.Some?
      ensures r.Ok? ==>
        var q := quote.value;
        && users == old(users)[id := old(users[id]).(cash := old(users[id].cash) - n * q.price)]
        && shares == old(shares)[id := Holdings.AfterBuy(old(HoldingsOf(id)), q.symbol, n)]
        && transactions == old(transactions) + [r.value]
      ensures nextId == old(nextId)
    {
      if symbol == [] {
        return Err(MissingSymbol);
      }
      if quote.None? {
        return Err(SymbolNotFound);
      }
      var price := quote.value.price;
      var cost := n * price;
      var cash := users[id].cash;
      if cost > cash {
        return Err(InsufficientFunds);
      }
      var canonical := quote.value.symbol;
      var existing := HoldingsOf(id);
      var updated: map<string, nat>;
      if canonical in existing {
        updated := existing[canonical := existing[canonical] + n];
      } else {
        updated := existing[canonical := n];
      }
      Ledger.BuyKeepsConsistent(users, shares, transactions, nextId, startingCash, id, quote.value, n);
      assert updated == Holdings.AfterBuy(existing, canonical, n);
      shares := shares[id := updated];
      users := users[id := users[id].(cash := cash - cost)];
      var tx := Tx(id, Bought, canonical, n, price);
      transactions := transactions + [tx];
      r := Ok(tx);
    }

    /**
      Sell `n` shares of `symbol`, given what the quote lookup returns for
      it. The holding is found, and the row logged, under the symbol as
      given; the share count is checked before the quote is looked at.
    */
    method Sell(id: UserId, symbol: string, n: nat, quote: Option<Quote>) returns (r: Result<Tx>)
      requires Valid() && id in users && n > 0
      modifies this
      ensures Valid()
      ensures symbol == [] ==> r == Err(MissingSymbol)
      ensures symbol != [] && symbol !in old(HoldingsOf(id)) ==> r == Err(NoSuchHolding)
      ensures symbol != [] && symbol in old(HoldingsOf(id)) && n > old(HoldingsOf(id))[symbol] ==>
        r == Err(InsufficientShares)
      ensures symbol != [] && symbol in old(HoldingsOf(id)) && n <= old(HoldingsOf(id))[symbol] && quote.None? ==>
        r == Err(SymbolNotFound)
      ensures symbol != [] && symbol in old(HoldingsOf(id)) && n <= old(HoldingsOf(id))[symbol] && quote.Some? ==>
        r == Ok(Tx(id, Sold, symbol, n, quote.value.price))
      ensures r.Err? ==>
        users == old(users) && shares == old(shares) && transactions == old(transactions)
      ensures r.Ok? ==> quote.Some? && symbol in old(HoldingsOf(id)) && n <= old(HoldingsOf(id))[symbol]
      ensures r.Ok? ==>
        var q := quote.value;
        && users == old(users)[id := old(users[id]).(cash := old(users[id].cash) + n * q.price)]
        && shares == old(shares)[id := Holdings.AfterSell(old(HoldingsOf(id)), symbol, n)]
        && transactions == old(transactions) + [r.value]
      ensures nextId == old(nextId)
    {
      if symbol == [] {
        return Err(MissingSymbol);
      }
      var existing := HoldingsOf(id);
      if symbol !in existing {
        return Err(NoSuchHolding);
      }
      var held := existing[symbol];
      if n > held {
        return Err(InsufficientShares);
      }
      if quote.None? {
        return Err(SymbolNotFound);
      }
      var price := quote.value.price;
      var value := n * price;
      var remaining := held - n;
      var updated: map<string, nat>;
      if remaining == 0 {
        updated := existing - {symbol};
      } else {
        updated := existing[symbol := remaining];
      }
      Ledger.SellKeepsConsistent(users, shares, transactions, nextId, startingCash, id, symbol, price, n);
      assert updated == Holdings.AfterSell(existing, symbol, n);
      shares := shares[id := updated];
      var cash := users[id].cash;
      users := users[id := users[id].(cash := cash + value)];
      var tx := Tx(id, Sold, symbol, n, price);
      transactions := transactions + [tx];
      r := Ok(tx);
    }

    /**
      Value the portfolio of `id`: every holding at the price the lookup
      gives now, plus the cash. A holding whose lookup fails ends the
      request with an error. Nothing is changed.
    */
    method Index(id: UserId, lookup: string -> Option<Quote>) returns (r: Result<Portfolio>)
      requires id in users
      ensures r.Ok? <==> forall s :: s in HoldingsOf(id) ==> lookup(s).Some?
      ensures r.Err? ==> r.error == QuoteUnavailable
      ensures r.Ok? ==>
        && r.value.cash == users[id].cash
        && r.value.total == users[id].cash + Holdings.Worth(HoldingsOf(id), lookup)
      ensures r.Ok? ==> |r.value.lines| == |HoldingsOf(id)|
      ensures r.Ok? ==> forall i, j :: 0 <= i < j < |r.value.lines| ==> r.value.lines[i].symbol != r.value.lines[j].symbol
      ensures r.Ok? ==> forall i :: 0 <= i < |r.value.lines| ==>
        var line := r.value.lines[i];
        && line.symbol in HoldingsOf(id)
        && lookup(line.symbol).Some?
        && line.shares == HoldingsOf(id)[line.symbol]
        && line.name == lookup(line.symbol).value.name
        && line.price == lookup(line.symbol).value.price
        && line.total == line.shares * line.price
      ensures r.Ok? ==> forall s :: s in HoldingsOf(id) ==> Listed(r.value.lines, s)
    {
      var h := HoldingsOf(id);
      var rest := h;
      var lines: seq<Line> := [];
      var total := 0;
      while rest != map[]
        invariant rest.Keys <= h.Keys
        invariant forall s :: s in rest ==> rest[s] == h[s]
        invariant forall s :: s in h && s !in rest ==> lookup(s).Some?
        invariant total + Holdings.Worth(rest, lookup) == Holdings.Worth(h, lookup)
        invariant |lines| + |rest| == |h|
        invariant forall i, j :: 0 <= i < j < |lines| ==> lines[i].symbol != lines[j].symbol
        invariant forall i :: 0 <= i < |lines| ==>
          var line := lines[i];
          && line.symbol in h && line.symbol !in rest
          && lookup(line.symbol).Some?
          && line.shares == h[line.symbol]
          && line.name == lookup(line.symbol).value.name
          && line.price == lookup(line.symbol).value.price
          && line.total == line.shares * line.price
        invariant forall s :: s in h && s !in rest ==> Listed(lines, s)
        decreases |rest|
      {
        var s :| s in rest;
        var quote := lookup(s);
        if quote.None? {
          return Err(QuoteUnavailable);
        }
        var line := Line(s, quote.value.name, rest[s], quote.value.price, rest[s] * quote.value.price);
        Holdings.WorthSplit(rest, lookup, s);
        total := total + line.total;
        forall t | Listed(lines, t) ensures Listed(lines + [line], t) {
          var i :| 0 <= i < |lines| && lines[i].symbol == t;
          assert (lines + [line])[i].symbol == t;
        }
        assert (lines + [line])[|lines|].symbol == s;
        lines := lines + [line];
        rest := rest - {s};
      }
      var cash := users[id].cash;
      total := total + cash;
      r := Ok(Portfolio(lines, cash, total));
    }

    /**
      Register `username`: refused when a field is missing, when the two
      passwords differ, or when a row already carries the name. The new row
      gets the next id and the starting cash; its id is returned.
    */
    method Register(username: string, password: string, confirmation: string) returns (r: Result<UserId>)
      requires Valid()
      modifies this
      ensures Valid()
      ensures username == [] ==> r == Err(MissingUsername)
      ensures username != [] && password == [] ==> r == Err(MissingPassword)
      ensures username != [] && password != [] && confirmation == [] ==> r == Err(MissingConfirmation)
      ensures username != [] && password != [] && confirmation != [] && password != confirmation ==>
        r == Err(PasswordMismatch)
      ensures username != [] && password != [] && password == confirmation ==>
        if Accounts.RowsNamed(old(users), username) != {} then r == Err(UsernameTaken) else r.Ok?
      ensures r.Err? ==>
        users == old(users) && shares == old(shares) && transactions == old(transactions) && nextId == old(nextId)
      ensures r.Ok? ==>
        && username != [] && password != [] && password == confirmation
        && Accounts.RowsNamed(old(users), username) == {}
        && r.value == old(nextId) && r.value !in old(users)
        && users == old(users)[r.value := Accounts.NewUser(username, password, startingCash)]
        && shares == old(shares) && transactions == old(transactions) && nextId == old(nextId) + 1
    {
      if username == [] {
        return Err(MissingUsername);
      } else if password == [] {
        return Err(MissingPassword);
      } else if confirmation == [] {
        return Err(MissingConfirmation);
      } else if password != confirmation {
        return Err(PasswordMismatch);
      }
      var rows := set u | u in users.Keys && users[u].username == username;
      if |rows| > 0 {
        return Err(UsernameTaken);
      }
      assert rows == Accounts.RowsNamed(users, username);
      var id := nextId;
      Ledger.RegisterKeepsConsistent(users, shares, transactions, nextId, startingCash,
        Accounts.NewUser(username, password, startingCash));
      users := users[id := Accounts.NewUser(username, password, startingCash)];
      nextId := nextId + 1;
      r := Ok(id);
    }

    /**
      Log in: refused when a field is missing or the credentials check
      fails; otherwise the id of the user's row. Nothing is changed.
    */
    method Login(username: string, password: string) returns (r: Result<UserId>)
      ensures username == [] ==> r == Err(MissingUsername)
      ensures username != [] && password == [] ==> r == Err(MissingPassword)
      ensures username != [] && password != [] ==>
        (r.Ok? <==> Accounts.Authenticates(users, username, password))
      ensures username != [] && password != [] && r.Err? ==> r.error == InvalidCredentials
      ensures r.Ok? ==>
        && Accounts.RowsNamed(users, username) == {r.value}
        && CheckPasswordHash(users[r.value].hash, password)
    {
      if username == [] {
        return Err(MissingUsername);
      } else if password == [] {
        return Err(MissingPassword);
      }
      var rows := set u | u in users.Keys && users[u].username == username;
      assert rows == Accounts.RowsNamed(users, username);
      if |rows| != 1 {
        return Err(InvalidCredentials);
      }
      var id :| id in rows;
      assert Accounts.SoleRow(users, username) == Some(id);
      if !CheckPasswordHash(users[id].hash, password) {
        return Err(InvalidCredentials);
      }
      r := Ok(id);
    }

    /**
      Rename the account called `oldName` to `newName`: refused when a field
      is missing, when the credentials check for the old name fails, or when
      a row already carries the new name. The account renamed need not be
      the logged-in one. Returns the id of the renamed row.
    */
    method ChangeUsername(oldName: string, newName: string, password: string) returns (r: Result<UserId>)
      requires Valid()
      modifies this
      ensures Valid()
      ensures oldName == [] ==> r == Err(MissingOldUsername)
      ensures oldName != [] && newName == [] ==> r == Err(MissingNewUsername)
      ensures oldName != [] && newName != [] && password == [] ==> r == Err(MissingPassword)
      ensures oldName != [] && newName != [] && password != [] && !Accounts.Authenticates(old(users), oldName, password) ==>
        r == Err(InvalidCredentials)
      ensures oldName != [] && newName != [] && password != [] && Accounts.Authenticates(old(users), oldName, password) ==>
        if Accounts.RowsNamed(old(users), newName) != {} then r == Err(UsernameTaken) else r.Ok?
      ensures r.Err? ==>
        users == old(users) && shares == old(shares) && transactions == old(transactions) && nextId == old(nextId)
      ensures r.Ok? ==>
        && oldName != [] && newName != [] && password != []
        && Accounts.Authenticates(old(users), oldName, password)
        && Accounts.RowsNamed(old(users), oldName) == {r.value}
        && Accounts.RowsNamed(old(users), newName) == {}
        && users == old(users)[r.value := old(users)[r.value].(username := newName)]
        && shares == old(shares) && transactions == old(transactions) && nextId == old(nextId)
    {
      if oldName == [] {
        return Err(MissingOldUsername);
      }
      if newName == [] {
        return Err(MissingNewUsername);
      } else if password == [] {
        return Err(MissingPassword);
      }
      var rows := set u | u in users.Keys && users[u].username == oldName;
      assert rows == Accounts.RowsNamed(users, oldName);
      if |rows| != 1 {
        return Err(InvalidCredentials);
      }
      var id :| id in rows;
      assert Accounts.SoleRow(users, oldName) == Some(id);
      if !CheckPasswordHash(users[id].hash, password) {
        return Err(InvalidCredentials);
      }
      var taken := set u | u in users.Keys && users[u].username == newName;
      if |taken| > 0 {
        return Err(UsernameTaken);
      }
      assert taken == Accounts.RowsNamed(users, newName);
      Ledger.RenameKeepsConsistent(users, shares, transactions, nextId, startingCash, id, newName);
      users := users[id := users[id].(username := newName)];
      r := Ok(id);
    }
  }
}
