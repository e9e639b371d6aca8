/**
  A client of the ledger: a sequence of requests whose outcomes follow from
  the contracts of `Finance.Database` alone. Amounts are in cents.
*/
module Scenarios {
  import opened FinanceTypes
  import Finance
  import Accounts

  method Signup()
  {
    var db := new Finance.Database(1000000);
    assert Accounts.RowsNamed(db.users, "ann") == {};
    var reg := db.Register("ann", "pw", "pw");
    assert reg == Ok(0);
    var again := db.Register("ann", "other", "other");
    assert again == Err(UsernameTaken) by {
      assert 0 in Accounts.RowsNamed(db.users, "ann");
    }
    var ann := reg.value;

    // The right password renames the account; a wrong one is refused. This
    // holds for the corrected registration, which stores the hash of the
    // password. As written, registration stores the hash of the username
    // (`Accounts.NewUserAsWritten`), so the rename with "pw" would be refused
    // with `InvalidCredentials`.
    Accounts.RegisterThenLogin(map[], 0, "ann", "pw", 1000000);
    assert Accounts.RowsNamed(db.users, "anne") == {};
    var rn := db.ChangeUsername("ann", "anne", "pw");
    assert rn == Ok(ann);
    var wrong := db.ChangeUsername("anne", "ann", "nope");
    assert wrong == Err(InvalidCredentials) by {
      assert Accounts.RowsNamed(db.users, "anne") == {ann};
    }
  }

  method TradingDay()
  {
    var db := new Finance.Database(1000000);
    assert Accounts.RowsNamed(db.users, "ann") == {};
    var reg := db.Register("ann", "pw", "pw");
    var ann := reg.value;

    // Ten shares at 100.00 cost 1000.00.
    var b1 := db.Buy(ann, "acme", 10, Some(Quote("ACME", "Acme Corp", 10000)));
    assert b1.Ok? && db.users[ann].cash == 900000;
    assert db.HoldingsOf(ann) == map["ACME" := 10];

    // Five more at 110.00 join the same row.
    var b2 := db.Buy(ann, "ACME", 5, Some(Quote("ACME", "Acme Corp", 11000)));
    assert b2.Ok? && db.users[ann].cash == 845000;
    assert db.HoldingsOf(ann) == map["ACME" := 15];
    assert |db.transactions| == 2;

    // Selling under the lower-case symbol finds no row.
    var s0 := db.Sell(ann, "acme", 1, Some(Quote("ACME", "Acme Corp", 12000)));
    assert s0 == Err(NoSuchHolding);

    // Asking for more than is held is refused even when the lookup fails.
    var s1 := db.Sell(ann, "ACME", 16, None);
    assert s1 == Err(InsufficientShares);

    // Selling all fifteen at 120.00 deletes the row.
    var s2 := db.Sell(ann, "ACME", 15, Some(Quote("ACME", "Acme Corp", 12000)));
    assert s2.Ok? && db.users[ann].cash == 1025000;
    assert db.HoldingsOf(ann) == map[];
    assert |db.transactions| == 3 && db.transactions[2] == Tx(ann, Sold, "ACME", 15, 12000);

    // A purchase beyond the cash changes nothing.
    var b3 := db.Buy(ann, "ACME", 1000, Some(Quote("ACME", "Acme Corp", 12000)));
    assert b3 == Err(InsufficientFunds);
    assert db.users[ann].cash == 1025000 && |db.transactions| == 3;
  }
}
