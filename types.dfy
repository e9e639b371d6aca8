/**
  Values shared by the finance ledger: the rows of the three tables
  (users, shares, transactions), the answer of the quote lookup, and the
  reasons a request is turned away with an apology.

  Money is counted in whole cents, so prices and cash are exact integers.
*/
module FinanceTypes {

  /** An identifier of a row of the users table. */
  type UserId = nat

  datatype Option<+T> = None | Some(value: T)

  datatype Result<+T> = Ok(value: T) | Err(error: Failure)

  /** Why a request is refused; each one is shown to the user as an apology. */
  datatype Failure =
    | MissingSymbol          // "must provide symbol"
    | SymbolNotFound         // "symbol not found": the quote lookup gave nothing
    | InsufficientFunds      // "insufficient funds"
    | InsufficientShares     // "insufficient shares to sell"
    | NoSuchHolding          // sell of a symbol without a row: the row lookup fails and the generic error page is shown
    | QuoteUnavailable       // portfolio of a holding whose quote fails: the generic error page is shown
    | MissingUsername        // "must provide username"
    | MissingPassword        // "must provide password"
    | MissingConfirmation    // "must provide password confirmation"
    | PasswordMismatch       // "passwords do not match"
    | UsernameTaken          // "username already exists" / "requested username already exists"
    | InvalidCredentials     // "invalid username and/or password" / "invalid (old) username and/or password"
    | MissingOldUsername     // "must provide old username"
    | MissingNewUsername     // "must provide new username"

  /** What the quote lookup returns for a symbol: the canonical symbol, the company name and the price. */
  datatype Quote = Quote(symbol: string, name: string, price: nat)

  /**
    A stored password hash. The salted one-way hash is abstracted to a
    value that only the same plaintext matches.
  */
  datatype Hash = Digest(secret: string)

  function GeneratePasswordHash(plain: string): Hash
  {
    Digest(plain)
  }

  predicate CheckPasswordHash(h: Hash, plain: string)
  {
    h.secret == plain
  }

  /** A row of the users table. */
  datatype User = User(username: string, hash: Hash, cash: int)

  datatype Kind = Bought | Sold

  /** A row of the transactions table (its date column is not modelled). */
  datatype Tx = Tx(user: UserId, kind: Kind, symbol: string, shares: nat, price: nat)

  /** One line of the portfolio page: a holding valued at its current quote. */
  datatype Line = Line(symbol: string, name: string, shares: nat, price: nat, total: nat)

  /** The portfolio page: the valued holdings, the cash and the grand total. */
  datatype Portfolio = Portfolio(lines: seq<Line>, cash: int, total: int)
}
