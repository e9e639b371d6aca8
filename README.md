# Finance ledger model

A Dafny model of the account ledger of a stock-trading simulator web
application. Users register, log in, rename their account, buy and sell
shares at prices given by a quote lookup, and view their portfolio. Behind
the route handlers sit three tables:

- `users`: username, password hash and cash of each account;
- `shares`: one row per user and symbol, with a share count;
- `transactions`: an append-only log of every trade (`Bought`/`Sold`,
  symbol, shares, price).

The model keeps these tables as the fields of a class, `Finance.Database`,
whose methods are the request handlers with their checks, in the source's
order and with its error cases. The logged-in user's id and the answer of
the quote lookup are passed in as parameters. Money is counted in whole
cents.

Files:

- `types.dfy` (module `FinanceTypes`): table rows, quotes, the refusal
  reasons, and the abstract password hash.
- `holdings.dfy` (module `Holdings`): one user's holdings, the updates a buy
  and a sell make to them, and their value at a set of quotes.
- `journal.dfy` (module `Journal`): the net shares and net cash that the
  transactions log adds up to for one user.
- `accounts.dfy` (module `Accounts`): username queries, the uniqueness rule,
  the credentials check and the row that registration inserts.
- `ledger.dfy` (module `Ledger`): the integrity rules of the three tables
  and the proof that each successful request keeps them.
- `database.dfy` (module `Finance`): the `Database` class and its requests.
- `scenarios.dfy` (module `Scenarios`): two client methods that check a
  sequence of requests against the contracts alone.

Beyond the checks in the code, the class invariant `Valid()` proves that the
running balances never drift from the log. Each user's cash equals the
starting cash plus the net proceeds of that user's logged trades. Each
holding equals the net shares of its symbol in the log. Cash is never
negative, and no holding row has zero shares.

Where the code behaves in a way one might not expect, the model follows
the code:

- Selling a symbol with no row fails in the code when it indexes an empty
  query result, so the generic error page is shown. It is not a dedicated
  "no such holding" refusal. The model returns `NoSuchHolding` and changes
  nothing.
- Sell looks the row up under the symbol as typed, not under the quote's
  canonical symbol. It also logs the symbol as typed.
- The portfolio page fails with the generic error page when a held
  symbol's quote fails (`QuoteUnavailable`).

One exception: registration as written hashes the username instead of the
password (see Findings). `Finance.Database.Register` inserts the corrected
row, `Accounts.NewUser`; `Accounts.NewUserAsWritten` is the row the code
inserts, and `Accounts.AsWrittenRegisterLocksOut` shows what it leads to.

## Model

| member | source | states |
|---|---|---|
| `Holdings.AfterBuy` | application.py:129-137 | the bought symbol's holding grows by the bought count, or a row with that count appears; every other holding is unchanged; no row becomes zero |
| `Holdings.AfterSell` | application.py:330-338 | the row is deleted exactly when the whole holding is sold, otherwise it keeps the remainder; other holdings are unchanged; counts stay positive |
| `Holdings.WorthSplit` | application.py:55-63 | the portfolio sum is the same whichever row the loop takes first |
| `Holdings.WorthAfterBuy` | application.py:127-137 | a buy of n shares raises the holdings' value by n times the symbol's price |
| `Holdings.WorthAfterSell` | application.py:328-338 | a sell of n shares lowers the holdings' value by n times the symbol's price |
| `Holdings.BuyKeepsTotal` | application.py:117-140 | at the quoted price, cash after the debit plus holdings after the buy equals the total before |
| `Holdings.SellKeepsTotal` | application.py:328-344 | at the quoted price, cash after the credit plus holdings after the sell equals the total before |
| `Journal.AppendOne` | application.py:143 | appending one transaction row changes each user's net shares and net cash by that row's contribution alone |
| `Journal.NoTradesNoFlow` | application.py:276-278 | a user with no logged trade has net cash zero and net shares zero for every symbol |
| `Accounts.UniqueNamesAtMostOneRow` | application.py:184-188 | with unique usernames, a query by username returns at most one row |
| `Accounts.SoleRow` | application.py:188 | a row is singled out exactly when the query returns one row, and it is that row |
| `Accounts.NewUser` | application.py:276-278 | the inserted row carries the name and the starting cash, and its hash accepts exactly the chosen password (the intended behaviour) |
| `Accounts.NewUserAsWritten` | application.py:277 | as written, the inserted row's hash accepts exactly the username |
| `Accounts.AsWrittenRegisterLocksOut` | application.py:277 | as written, after registering with a password other than the username, logging in with that password fails |
| `Accounts.AsWrittenAliceLockedOut` | application.py:277 | the concrete case: "alice" registered with "s3cret" cannot log in with "s3cret" |
| `Accounts.RegisterThenLogin` | application.py:267-281 | after registering a free name, the login check with the same credentials finds the new row and accepts |
| `Accounts.InsertKeepsNamesUnique` | application.py:267-278 | inserting a row under a name no row carries keeps usernames unique |
| `Accounts.RenameKeepsNamesUnique` | application.py:392-402 | renaming a row to a name no row carries keeps usernames unique |
| `Ledger.BuyKeepsConsistent` | application.py:117-143 | a buy that passed its checks keeps cash non-negative, holdings positive, names unique and balances reconciled with the log |
| `Ledger.SellKeepsConsistent` | application.py:315-347 | a sell that passed its checks keeps cash non-negative, holdings positive, names unique and balances reconciled with the log |
| `Ledger.RegisterKeepsConsistent` | application.py:267-278 | inserting a new user with a fresh id and the starting cash keeps every integrity rule |
| `Ledger.RenameKeepsConsistent` | application.py:392-402 | renaming to a free name keeps every integrity rule |
| `Finance.Database.Buy` | application.py:76-147 | refusals in the source's order: missing symbol, failed lookup, cost above cash; a refusal changes nothing; success debits shares × price, upserts the canonical symbol's holding, appends one `Bought` row and keeps the invariant |
| `Finance.Database.Sell` | application.py:294-351 | refusals in the source's order: missing symbol, no row, more than held (whatever the lookup says), failed lookup; a refusal changes nothing; success credits shares × price, shrinks or deletes the holding, appends one `Sold` row and keeps the invariant |
| `Finance.Database.Index` | application.py:45-71 | fails exactly when some held symbol's quote fails; otherwise exactly one line per held symbol with shares × price, and total = cash + the sum of shares × price; nothing changes |
| `Finance.Database.Register` | application.py:244-289 | refusals for missing fields, differing passwords and a taken name; a refusal changes nothing; success inserts one row under the next id with the starting cash, and names stay unique |
| `Finance.Database.Login` | application.py:166-199 | refusals for missing fields; otherwise succeeds exactly when the query returns one row whose hash accepts the password, and returns that row's id |
| `Finance.Database.ChangeUsername` | application.py:362-406 | refusals for missing fields, a failed credentials check on the old name and a taken new name; a refusal changes nothing; success renames only the authenticated row, and names stay unique |

## Findings

| source | as written | input that shows it | evidently intended | confidence | as-written member | corrected member |
|---|---|---|---|---|---|---|
| application.py:277 | registration stores `generate_password_hash` of the username | register "alice" with password "s3cret", then log in as "alice" with "s3cret": the check fails; only "alice" as the password passes | store the hash of the password, so that the chosen password logs in | high (not executed) | `Accounts.AsWrittenRegisterLocksOut` | `Accounts.RegisterThenLogin` |

The rest of the model uses the corrected row: `Finance.Database.Register`
inserts `Accounts.NewUser`.

## Left out

- Flask routing, templates, flash messages, redirects and the cache headers: presentation with no ledger logic.
- Sessions and `login_required`: the logged-in user's id is passed to each request. Login's clearing of the session and its storing of the id are not modelled; logout only clears the session.
- The quote and history pages (`quote`, `history`): the first only shows a lookup, the second only lists the transactions table.
- The quote lookup and the currency formatter: helpers.py is not part of this model. A lookup's answer is an `Option<Quote>` parameter of buy and sell, and a function from symbol to `Option<Quote>` for the portfolio.
- Password hashing: the salted one-way hash is abstracted to a value that only the same plaintext matches.
- SQL and SQLite: the tables are maps and a sequence; user ids come from a counter; the date column of the transactions table is not modelled. The model starts from empty tables.
- The starting cash of a new user is the default of the cash column. The database schema is not part of this model, so it is a constructor parameter.
- Floating-point money: prices and cash are exact integer cents, so rounding of float prices is not modelled.
- Parsing of form fields: the share count is a natural number, so the "must provide number of shares" check and the failure of `int()` on a non-number are not modelled.
- Finance.Database.Buy: requires a share count of at least one, which only the HTML form enforces. A zero or negative count is not modelled.
- Finance.Database.Sell: requires a share count of at least one, which only the HTML form enforces. A zero or negative count is not modelled.
- Finance.Database.Index: the order of the portfolio lines is left unspecified, as the query's row order is.
- The API key check at startup and the error handler registration: process setup.
- Concurrency: requests are modelled one at a time, each as one atomic step.
