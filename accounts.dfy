/**
  The users table as seen by registration, login and renaming: which rows
  carry a username, the rule that a username names at most one row, and
  the row that registration inserts.
*/
module Accounts {
  import opened FinanceTypes

  /** The ids of the rows whose username is `name` (the rows a query by username returns). */
  function RowsNamed(users: map<UserId, User>, name: string): (rows: set<UserId>)
    ensures rows <= users.Keys
    ensures forall id :: id in rows <==> id in users && users[id].username == name
  {
    set id | id in users.Keys && users[id].username == name
  }

  /** No two rows of the users table share a username. */
  ghost predicate NamesUnique(users: map<UserId, User>)
  {
    forall a, b :: a in users && b in users && users[a].username == users[b].username ==> a == b
  }

  /** With unique names a query by username returns at most one row. */
  lemma UniqueNamesAtMostOneRow(users: map<UserId, User>, name: string)
    requires NamesUnique(users)
    ensures |RowsNamed(users, name)| <= 1
  {
    var rows := RowsNamed(users, name);
    if rows != {} {
      var a :| a in rows;
      assert rows == {a};
    }
  }

  /**
    The row a query by username singles out: present exactly when the query
    returns one row, as login and renaming demand.
  */
  ghost function SoleRow(users: map<UserId, User>, name: string): (r: Option<UserId>)
    ensures r.Some? <==> |RowsNamed(users, name)| == 1
    ensures r.Some? ==> RowsNamed(users, name) == {r.value}
  {
    var rows := RowsNamed(users, name);
    if |rows| == 1 then
      var id :| id in rows;
      assert rows - {id} == {} by {
        assert |rows - {id}| == 0;
      }
      Some(id)
    else None
  }

  /**
    The credentials check of login and renaming: the query by username
    returns exactly one row, and that row's hash accepts the password.
  */
  ghost predicate Authenticates(users: map<UserId, User>, name: string, password: string)
  {
    var row := SoleRow(users, name);
    row.Some? && CheckPasswordHash(users[row.value].hash, password)
  }

  /** The row registration inserts: the name, the hash of the password, and the starting cash. */
  function NewUser(username: string, password: string, cash: int): (u: User)
    ensures u.username == username && u.cash == cash
    ensures forall p :: CheckPasswordHash(u.hash, p) <==> p == password
  {
    User(username, GeneratePasswordHash(password), cash)
  }

  /** The row registration inserts as the code is written: it hashes the username, not the password. */
  function NewUserAsWritten(username: string, password: string, cash: int): (u: User)
    ensures u.username == username && u.cash == cash
    ensures forall p :: CheckPasswordHash(u.hash, p) <==> p == username
  {
    User(username, GeneratePasswordHash(username), cash)
  }

  /**
    As written, a user who registers with a password different from the
    username cannot log in with that password: the query finds the new row,
    but its hash accepts only the username.
  */
  lemma AsWrittenRegisterLocksOut(users: map<UserId, User>, id: UserId, username: string, password: string, cash: int)
    requires id !in users
    requires RowsNamed(users, username) == {}
    requires password != username
    ensures var users' := users[id := NewUserAsWritten(username, password, cash)];
      SoleRow(users', username) == Some(id) && !Authenticates(users', username, password)
  {
    var users' := users[id := NewUserAsWritten(username, password, cash)];
    assert RowsNamed(users', username) == {id};
  }

  /** One such input: "alice" registering with the password "s3cret". */
  lemma AsWrittenAliceLockedOut()
    ensures !Authenticates(map[0 := NewUserAsWritten("alice", "s3cret", 1000000)], "alice", "s3cret")
  {
  }

  /**
    Registering a free name then logging in with the same credentials
    finds exactly the new row, and its hash accepts the password.
  */
  lemma RegisterThenLogin(users: map<UserId, User>, id: UserId, username: string, password: string, cash: int)
    requires id !in users
    requires RowsNamed(users, username) == {}
    ensures var users' := users[id := NewUser(username, password, cash)];
      SoleRow(users', username) == Some(id) && Authenticates(users', username, password)
  {
    var users' := users[id := NewUser(username, password, cash)];
    assert RowsNamed(users', username) == {id};
  }

  /** Inserting a row under a name that no row carries keeps names unique. */
  lemma InsertKeepsNamesUnique(users: map<UserId, User>, id: UserId, u: User)
    requires NamesUnique(users)
    requires id !in users && RowsNamed(users, u.username) == {}
    ensures NamesUnique(users[id := u])
  {
  }

  /** Renaming a row to a name that no row carries keeps names unique. */
  lemma RenameKeepsNamesUnique(users: map<UserId, User>, id: UserId, name: string)
    requires NamesUnique(users)
    requires id in users && RowsNamed(users, name) == {}
    ensures NamesUnique(users[id := users[id].(username := name)])
  {
  }
}
