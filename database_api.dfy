/**
 * The local list-persistence store: the `users` and `userMovies` tables and the
 * seven operations the app runs on them. Tables are sequences of rows in
 * insertion order; the two AUTOINCREMENT primary keys come from counters that
 * start at 1 and never go down.
 */
module DatabaseApi {
  import opened Wrappers

  /** The two flag columns of `userMovies`, which the app passes around as the strings 'inFavorites' and 'inWatchLater'. */
  datatype ListName = InFavorites | InWatchLater

  /** A row of `users(userID, username, password)`. */
  datatype UserRow = UserRow(userID: int, username: string, password: string)

  /** A row of `userMovies(userMovieID, userID, movieData, inFavorites, inWatchLater)`; the 0/1 INTEGER flags are booleans. */
  datatype UserMovieRow = UserMovieRow(userMovieID: int, userID: int, movieData: string, inFavorites: bool, inWatchLater: bool)

  /** One element of what `getMovieListFromID` returns: the selected columns of one row. */
  datatype ListedMovie = ListedMovie(movieData: string, inFavorites: bool, inWatchLater: bool)

  /** The two errors `createNewAccount` throws. */
  datatype AccountError = CredentialsTooShort | UsernameExists

  function Message(e: AccountError): string
  {
    match e
    case CredentialsTooShort => "Username and password must be at least 3 characters"
    case UsernameExists => "Username already exists"
  }

  /** The form shows `message`, so the two rejections read differently. */
  lemma MessagesDiffer()
    ensures Message(CredentialsTooShort) != Message(UsernameExists)
  {
    assert |Message(CredentialsTooShort)| != |Message(UsernameExists)|;
  }

  const MinCredentialLength := 3

  function Other(l: ListName): ListName
  {
    match l
    case InFavorites => InWatchLater
    case InWatchLater => InFavorites
  }

  function Flag(r: UserMovieRow, l: ListName): bool
  {
    match l
    case InFavorites => r.inFavorites
    case InWatchLater => r.inWatchLater
  }

  function ListedFlag(r: ListedMovie, l: ListName): bool
  {
    match l
    case InFavorites => r.inFavorites
    case InWatchLater => r.inWatchLater
  }

  /** `SET <l> = v` on one row. */
  function WithFlag(r: UserMovieRow, l: ListName, v: bool): (s: UserMovieRow)
    ensures Flag(s, l) == v && Flag(s, Other(l)) == Flag(r, Other(l))
    ensures s.userMovieID == r.userMovieID && s.userID == r.userID && s.movieData == r.movieData
  {
    match l
    case InFavorites => r.(inFavorites := v)
    case InWatchLater => r.(inWatchLater := v)
  }

  function Listed(r: UserMovieRow): ListedMovie
  {
    ListedMovie(r.movieData, r.inFavorites, r.inWatchLater)
  }

  /** `WHERE userID = u AND movieData = m`. */
  predicate IsKey(r: UserMovieRow, u: int, m: string)
  {
    r.userID == u && r.movieData == m
  }

  predicate HasKey(rows: seq<UserMovieRow>, u: int, m: string)
  {
    exists i :: 0 <= i < |rows| && IsKey(rows[i], u, m)
  }

  ghost predicate NameTaken(users: seq<UserRow>, name: string)
  {
    exists i :: 0 <= i < |users| && users[i].username == name
  }

  // ---------------------------------------------------------------- table invariants

  ghost predicate UniqueNames(users: seq<UserRow>)
  {
    forall i, j :: 0 <= i < j < |users| ==> users[i].username != users[j].username
  }

  /** Every id was handed out by the counter, and ids grow in row order (so they are distinct). */
  ghost predicate UsersValid(users: seq<UserRow>, nextID: int)
  {
    && 1 <= nextID
    && (forall i :: 0 <= i < |users| ==> 1 <= users[i].userID < nextID)
    && (forall i, j :: 0 <= i < j < |users| ==> users[i].userID < users[j].userID)
    && UniqueNames(users)
  }

  /** At most one row per `(userID, movieData)`. */
  ghost predicate UniqueKeys(rows: seq<UserMovieRow>)
  {
    forall i, j :: 0 <= i < j < |rows| ==> !IsKey(rows[j], rows[i].userID, rows[i].movieData)
  }

  ghost predicate UserMoviesValid(rows: seq<UserMovieRow>, nextID: int)
  {
    && 1 <= nextID
    && (forall i :: 0 <= i < |rows| ==> 1 <= rows[i].userMovieID < nextID)
    && (forall i, j :: 0 <= i < j < |rows| ==> rows[i].userMovieID < rows[j].userMovieID)
    && UniqueKeys(rows)
  }

  // ---------------------------------------------------------------- queries

  /** `SELECT * FROM users WHERE username = ?`. */
  function NamedRows(users: seq<UserRow>, name: string): (r: seq<UserRow>)
    ensures forall k :: 0 <= k < |r| ==> r[k] in users && r[k].username == name
    ensures r == [] <==> !NameTaken(users, name)
  {
    if users == [] then []
    else
      var rest := NamedRows(users[1..], name);
      assert forall k :: 0 <= k < |rest| ==> rest[k] in users;
      assert NameTaken(users[1..], name) ==> NameTaken(users, name) by {
        if NameTaken(users[1..], name) {
          var i :| 0 <= i < |users[1..]| && users[1..][i].username == name;
          assert users[i + 1].username == name;
        }
      }
      (if users[0].username == name then [users[0]] else []) + rest
  }

  /** `SELECT userID FROM users WHERE username = ? AND password = ?`. */
  function CredentialRows(users: seq<UserRow>, name: string, password: string): (r: seq<UserRow>)
    ensures forall k :: 0 <= k < |r| ==> r[k] in users && r[k].username == name && r[k].password == password
    ensures r == [] <==> forall i :: 0 <= i < |users| ==> !(users[i].username == name && users[i].password == password)
  {
    if users == [] then []
    else
      var rest := CredentialRows(users[1..], name, password);
      assert forall k :: 0 <= k < |rest| ==> rest[k] in users;
      assert forall i :: 1 <= i < |users| ==> users[i] == users[1..][i - 1];
      (if users[0].username == name && users[0].password == password then [users[0]] else []) + rest
  }

  /** What `getUserID` resolves with: the first matching row's id, or -1. */
  function LookupUserID(users: seq<UserRow>, name: string, password: string): int
  {
    var rows := CredentialRows(users, name, password);
    if rows == [] then -1 else rows[0].userID
  }

  /** `SELECT movieData, inFavorites, inWatchLater FROM userMovies WHERE userID = ?`, in row order. */
  function RowsOf(rows: seq<UserMovieRow>, u: int): (r: seq<ListedMovie>)
    ensures |r| <= |rows|
    ensures r == [] <==> forall i :: 0 <= i < |rows| ==> rows[i].userID != u
    ensures forall x :: x in r <==> exists i :: 0 <= i < |rows| && rows[i].userID == u && Listed(rows[i]) == x
  {
    if rows == [] then []
    else
      var rest := RowsOf(rows[1..], u);
      assert forall i :: 1 <= i < |rows| ==> rows[i] == rows[1..][i - 1];
      assert forall x :: x in rest ==> exists i :: 0 <= i < |rows| && rows[i].userID == u && Listed(rows[i]) == x by {
        forall x | x in rest
          ensures exists i :: 0 <= i < |rows| && rows[i].userID == u && Listed(rows[i]) == x
        {
          var i :| 0 <= i < |rows[1..]| && rows[1..][i].userID == u && Listed(rows[1..][i]) == x;
          assert rows[i + 1] == rows[1..][i];
        }
      }
      (if rows[0].userID == u then [Listed(rows[0])] else []) + rest
  }

  // ---------------------------------------------------------------- updates

  /** `INSERT INTO userMovies ... VALUES (u, m, 0, 0)` unless a row for `(u, m)` exists. */
  function Inserted(rows: seq<UserMovieRow>, u: int, m: string, id: int): (r: seq<UserMovieRow>)
    ensures HasKey(r, u, m)
    ensures |r| == |rows| + (if HasKey(rows, u, m) then 0 else 1)
    ensures forall i :: 0 <= i < |rows| ==> r[i] == rows[i]
  {
    if HasKey(rows, u, m) then rows
    else
      var r := rows + [UserMovieRow(id, u, m, false, false)];
      assert IsKey(r[|rows|], u, m);
      r
  }

  /** What `addMovieToList(u, m, l)` leaves in `userMovies`: the row ensured, then flag `l` set on it. */
  function AddedToList(rows: seq<UserMovieRow>, u: int, m: string, l: ListName, id: int): seq<UserMovieRow>
  {
    SetFlag(Inserted(rows, u, m, id), u, m, l, true)
  }

  /** `UPDATE userMovies SET <l> = v WHERE userID = u AND movieData = m`. */
  function SetFlag(rows: seq<UserMovieRow>, u: int, m: string, l: ListName, v: bool): (r: seq<UserMovieRow>)
    ensures |r| == |rows|
    ensures forall i :: 0 <= i < |rows| ==> r[i] == if IsKey(rows[i], u, m) then WithFlag(rows[i], l, v) else rows[i]
  {
    if rows == [] then []
    else [if IsKey(rows[0], u, m) then WithFlag(rows[0], l, v) else rows[0]] + SetFlag(rows[1..], u, m, l, v)
  }

  predicate HasUser(users: seq<UserRow>, id: int)
  {
    exists i :: 0 <= i < |users| && users[i].userID == id
  }

  /** `DELETE FROM users WHERE userID = id`: exactly the rows with another id stay; without such a row, nothing changes. */
  function WithoutUser(users: seq<UserRow>, id: int): (r: seq<UserRow>)
    ensures |r| <= |users|
    ensures forall k :: 0 <= k < |r| ==> r[k] in users && r[k].userID != id
    ensures forall x :: x in r <==> x in users && x.userID != id
    ensures !HasUser(users, id) ==> r == users
  {
    if users == [] then []
    else
      var rest := WithoutUser(users[1..], id);
      assert users == [users[0]] + users[1..];
      assert !HasUser(users, id) ==> !HasUser(users[1..], id) by {
        if HasUser(users[1..], id) {
          var i :| 0 <= i < |users[1..]| && users[1..][i].userID == id;
          assert users[i + 1].userID == id;
        }
      }
      (if users[0].userID != id then [users[0]] else []) + rest
  }

  /**
   * The rows the declared `ON DELETE CASCADE` leaves when user `u` goes: exactly
   * the rows of other users; when `u` owns none, nothing changes.
   */
  function WithoutOwner(rows: seq<UserMovieRow>, u: int): (r: seq<UserMovieRow>)
    ensures |r| <= |rows|
    ensures forall k :: 0 <= k < |r| ==> r[k] in rows && r[k].userID != u
    ensures forall x :: x in r <==> x in rows && x.userID != u
    ensures (forall i :: 0 <= i < |rows| ==> rows[i].userID != u) ==> r == rows
  {
    if rows == [] then []
    else
      var rest := WithoutOwner(rows[1..], u);
      assert rows == [rows[0]] + rows[1..];
      assert forall i :: 1 <= i < |rows| ==> rows[1..][i - 1] == rows[i];
      (if rows[0].userID != u then [rows[0]] else []) + rest
  }

  // ---------------------------------------------------------------- the store

  class Database {
    var users: seq<UserRow>
    var userMovies: seq<UserMovieRow>
    /** The AUTOINCREMENT counter of `users.userID`. */
    var nextUserID: int
    /** The AUTOINCREMENT counter of `userMovies.userMovieID`. */
    var nextUserMovieID: int

    ghost predicate Valid()
      reads this
    {
      UsersValid(users, nextUserID) && UserMoviesValid(userMovies, nextUserMovieID)
    }

    /** `CREATE TABLE IF NOT EXISTS` on a fresh database: both tables empty. */
    constructor ()
      ensures Valid()
      ensures users == [] && userMovies == [] && nextUserID == 1 && nextUserMovieID == 1
    {
      users, userMovies := [], [];
      nextUserID, nextUserMovieID := 1, 1;
    }

    /** `createNewAccount`: fails on short credentials or a taken username, else inserts one user. */
    method CreateNewAccount(username: string, password: string) returns (r: Result<int, AccountError>)
      requires Valid()
      modifies this
      ensures Valid()
      ensures r == Err(CredentialsTooShort) <==> |username| < MinCredentialLength || |password| < MinCredentialLength
      ensures r == Err(UsernameExists) <==>
        |username| >= MinCredentialLength && |password| >= MinCredentialLength && NameTaken(old(users), username)
      ensures r.Ok? <==>
        |username| >= MinCredentialLength && |password| >= MinCredentialLength && !NameTaken(old(users), username)
      ensures r.Ok? ==> r.value == old(nextUserID) && nextUserID == old(nextUserID) + 1
                        && users == old(users) + [UserRow(r.value, username, password)]
      ensures r.Err? ==> users == old(users) && nextUserID == old(nextUserID)
      ensures userMovies == old(userMovies) && nextUserMovieID == old(nextUserMovieID)
    {
      if |username| < MinCredentialLength || |password| < MinCredentialLength {
        return Err(CredentialsTooShort);
      }
      var doesUsernameExist := NamedRows(users, username) != [];
      if doesUsernameExist {
        return Err(UsernameExists);
      }
      r := Ok(nextUserID);
      AppendUserValid(users, nextUserID, username, password);
      users := users + [UserRow(nextUserID, username, password)];
      nextUserID := nextUserID + 1;
    }

    /** `getUserID`: the id of a row with both credentials, or -1. */
    method GetUserID(username: string, password: string) returns (id: int)
      requires Valid()
      ensures id == -1 <==> forall i :: 0 <= i < |users| ==> !(users[i].username == username && users[i].password == password)
      ensures id != -1 ==> exists i :: 0 <= i < |users| && users[i] == UserRow(id, username, password)
    {
      id := LookupUserID(users, username, password);
      var rows := CredentialRows(users, username, password);
      if rows != [] {
        assert rows[0] in users;
      }
    }

    /** `doesUserIDExist`: whether some row has this username, whatever its password. */
    method DoesUserIDExist(username: string) returns (b: bool)
      ensures b <==> NameTaken(users, username)
    {
      b := NamedRows(users, username) != [];
    }

    /** `getMovieListFromID`. */
    method GetMovieListFromID(userID: int) returns (list: seq<ListedMovie>)
      ensures list == RowsOf(userMovies, userID)
    {
      list := RowsOf(userMovies, userID);
    }

    /** `addToUserMoviesIfNotExists`: inserts `(u, m, 0, 0)` iff no row for `(u, m)` exists. */
    method AddToUserMoviesIfNotExists(userID: int, movieData: string) returns (added: bool)
      requires Valid()
      modifies this
      ensures Valid()
      ensures added <==> !HasKey(old(userMovies), userID, movieData)
      ensures userMovies == Inserted(old(userMovies), userID, movieData, old(nextUserMovieID))
      ensures nextUserMovieID == if added then old(nextUserMovieID) + 1 else old(nextUserMovieID)
      ensures users == old(users) && nextUserID == old(nextUserID)
    {
      added := !HasKey(userMovies, userID, movieData);
      if added {
        InsertedValid(userMovies, userID, movieData, nextUserMovieID);
        userMovies := userMovies + [UserMovieRow(nextUserMovieID, userID, movieData, false, false)];
        nextUserMovieID := nextUserMovieID + 1;
      }
    }

    /** `addMovieToList`: ensure the row exists, then set flag `l` on it. */
    method AddMovieToList(userID: int, movieData: string, l: ListName)
      requires Valid()
      modifies this
      ensures Valid()
      ensures userMovies == AddedToList(old(userMovies), userID, movieData, l, old(nextUserMovieID))
      ensures nextUserMovieID == if HasKey(old(userMovies), userID, movieData) then old(nextUserMovieID) else old(nextUserMovieID) + 1
      ensures users == old(users) && nextUserID == old(nextUserID)
    {
      var _ := AddToUserMoviesIfNotExists(userID, movieData);
      SetFlagValid(userMovies, nextUserMovieID, userID, movieData, l, true);
      userMovies := SetFlag(userMovies, userID, movieData, l, true);
    }

    /** `removeMovieFromList`: clear flag `l` on the row for `(u, m)`, if any. */
    method RemoveMovieFromList(userID: int, movieData: string, l: ListName)
      requires Valid()
      modifies this
      ensures Valid()
      ensures userMovies == SetFlag(old(userMovies), userID, movieData, l, false)
      ensures users == old(users) && nextUserID == old(nextUserID) && nextUserMovieID == old(nextUserMovieID)
    {
      SetFlagValid(userMovies, nextUserMovieID, userID, movieData, l, false);
      userMovies := SetFlag(userMovies, userID, movieData, l, false);
    }

    /** `deleteAccount`: delete the user row; the declared cascade deletes that user's movie rows. */
    method DeleteAccount(userID: int)
      requires Valid()
      modifies this
      ensures Valid()
      ensures users == WithoutUser(old(users), userID)
      ensures userMovies == if HasUser(old(users), userID) then WithoutOwner(old(userMovies), userID) else old(userMovies)
      ensures nextUserID == old(nextUserID) && nextUserMovieID == old(nextUserMovieID)
      ensures !HasUser(old(users), userID) ==> users == old(users) && userMovies == old(userMovies)
    {
      var cascade := HasUser(users, userID);
      WithoutUserValid(users, nextUserID, userID);
      users := WithoutUser(users, userID);
      if cascade {
        WithoutOwnerValid(userMovies, nextUserMovieID, userID);
        userMovies := WithoutOwner(userMovies, userID);
      }
    }
  }

  // ---------------------------------------------------------------- invariant preservation

  lemma AppendUserValid(users: seq<UserRow>, nextID: int, name: string, password: string)
    requires UsersValid(users, nextID)
    requires !NameTaken(users, name)
    ensures UsersValid(users + [UserRow(nextID, name, password)], nextID + 1)
  {
    var r := users + [UserRow(nextID, name, password)];
    forall i | 0 <= i < |users| ensures r[i] == users[i] && r[i].username != name {
    }
  }

  lemma InsertedValid(rows: seq<UserMovieRow>, u: int, m: string, nextID: int)
    requires UserMoviesValid(rows, nextID)
    ensures UserMoviesValid(Inserted(rows, u, m, nextID), if HasKey(rows, u, m) then nextID else nextID + 1)
  {
    if !HasKey(rows, u, m) {
      var r := rows + [UserMovieRow(nextID, u, m, false, false)];
      forall i | 0 <= i < |rows| ensures r[i] == rows[i] && !IsKey(rows[i], u, m) {
      }
    }
  }

  /** Setting a flag changes no key and no id, so both table invariants survive it. */
  lemma SetFlagValid(rows: seq<UserMovieRow>, nextID: int, u: int, m: string, l: ListName, v: bool)
    requires UserMoviesValid(rows, nextID)
    ensures UserMoviesValid(SetFlag(rows, u, m, l, v), nextID)
  {
    var r := SetFlag(rows, u, m, l, v);
    forall i | 0 <= i < |rows|
      ensures r[i].userMovieID == rows[i].userMovieID && r[i].userID == rows[i].userID && r[i].movieData == rows[i].movieData
    {
      if IsKey(rows[i], u, m) {
        assert r[i] == WithFlag(rows[i], l, v);
      }
    }
  }

  lemma TailUsersValid(users: seq<UserRow>, nextID: int)
    requires users != [] && UsersValid(users, nextID)
    ensures UsersValid(users[1..], nextID)
    ensures forall x :: x in users[1..] ==> users[0].userID < x.userID && users[0].username != x.username
  {
    var tail := users[1..];
    forall i | 0 <= i < |tail| ensures tail[i] == users[i + 1] {
    }
  }

  lemma ConsUserValid(first: UserRow, rest: seq<UserRow>, nextID: int)
    requires UsersValid(rest, nextID) && 1 <= first.userID < nextID
    requires forall k :: 0 <= k < |rest| ==> first.userID < rest[k].userID && first.username != rest[k].username
    ensures UsersValid([first] + rest, nextID)
  {
    var r := [first] + rest;
    forall i | 1 <= i < |r| ensures r[i] == rest[i - 1] {
    }
  }

  lemma {:induction false} WithoutUserValid(users: seq<UserRow>, nextID: int, id: int)
    requires UsersValid(users, nextID)
    ensures UsersValid(WithoutUser(users, id), nextID)
  {
    if users != [] {
      TailUsersValid(users, nextID);
      WithoutUserValid(users[1..], nextID, id);
      var rest := WithoutUser(users[1..], id);
      if users[0].userID != id {
        forall k | 0 <= k < |rest| ensures users[0].userID < rest[k].userID && users[0].username != rest[k].username {
          assert rest[k] in users[1..];
        }
        ConsUserValid(users[0], rest, nextID);
        assert WithoutUser(users, id) == [users[0]] + rest;
      } else {
        assert WithoutUser(users, id) == rest;
      }
    }
  }

  lemma TailRowsValid(rows: seq<UserMovieRow>, nextID: int)
    requires rows != [] && UserMoviesValid(rows, nextID)
    ensures UserMoviesValid(rows[1..], nextID)
    ensures forall x :: x in rows[1..] ==> rows[0].userMovieID < x.userMovieID && !IsKey(x, rows[0].userID, rows[0].movieData)
  {
    var tail := rows[1..];
    forall i | 0 <= i < |tail| ensures tail[i] == rows[i + 1] {
    }
  }

  lemma ConsRowValid(first: UserMovieRow, rest: seq<UserMovieRow>, nextID: int)
    requires UserMoviesValid(rest, nextID) && 1 <= first.userMovieID < nextID
    requires forall k :: 0 <= k < |rest| ==> first.userMovieID < rest[k].userMovieID && !IsKey(rest[k], first.userID, first.movieData)
    ensures UserMoviesValid([first] + rest, nextID)
  {
    var r := [first] + rest;
    forall i | 1 <= i < |r| ensures r[i] == rest[i - 1] {
    }
  }

  lemma {:induction false} WithoutOwnerValid(rows: seq<UserMovieRow>, nextID: int, u: int)
    requires UserMoviesValid(rows, nextID)
    ensures UserMoviesValid(WithoutOwner(rows, u), nextID)
  {
    if rows != [] {
      TailRowsValid(rows, nextID);
      WithoutOwnerValid(rows[1..], nextID, u);
      var rest := WithoutOwner(rows[1..], u);
      if rows[0].userID != u {
        forall k | 0 <= k < |rest|
          ensures rows[0].userMovieID < rest[k].userMovieID && !IsKey(rest[k], rows[0].userID, rows[0].movieData)
        {
          assert rest[k] in rows[1..];
        }
        ConsRowValid(rows[0], rest, nextID);
        assert WithoutOwner(rows, u) == [rows[0]] + rest;
      } else {
        assert WithoutOwner(rows, u) == rest;
      }
    }
  }

  // ---------------------------------------------------------------- properties

  /** With unique usernames, logging in with a stored row's credentials gives that row's id. */
  lemma LookupFindsAccount(users: seq<UserRow>, i: int)
    requires UniqueNames(users) && 0 <= i < |users|
    ensures LookupUserID(users, users[i].username, users[i].password) == users[i].userID
  {
    var rows := CredentialRows(users, users[i].username, users[i].password);
    assert rows != [];
    var k :| 0 <= k < |users| && users[k] == rows[0];
    assert k == i;
  }

  /** Creating an account and then logging in with the same credentials yields the new id. */
  lemma CreateThenLogin(users: seq<UserRow>, nextID: int, name: string, password: string)
    requires UsersValid(users, nextID) && !NameTaken(users, name)
    ensures LookupUserID(users + [UserRow(nextID, name, password)], name, password) == nextID
  {
    AppendUserValid(users, nextID, name, password);
    var after := users + [UserRow(nextID, name, password)];
    LookupFindsAccount(after, |users|);
  }

  /** Setting a flag to the value it was just set to changes nothing. */
  lemma SetFlagIdempotent(rows: seq<UserMovieRow>, u: int, m: string, l: ListName, v: bool)
    ensures SetFlag(SetFlag(rows, u, m, l, v), u, m, l, v) == SetFlag(rows, u, m, l, v)
  {
    var once := SetFlag(rows, u, m, l, v);
    var twice := SetFlag(once, u, m, l, v);
    forall i | 0 <= i < |rows| ensures twice[i] == once[i] {
      if IsKey(rows[i], u, m) {
        assert IsKey(once[i], u, m);
      }
    }
  }

  /** `removeMovieFromList` on a pair with no row is a no-op. */
  lemma SetFlagWithoutRow(rows: seq<UserMovieRow>, u: int, m: string, l: ListName, v: bool)
    requires !HasKey(rows, u, m)
    ensures SetFlag(rows, u, m, l, v) == rows
  {
    var r := SetFlag(rows, u, m, l, v);
    forall i | 0 <= i < |rows| ensures r[i] == rows[i] {
      assert !IsKey(rows[i], u, m);
    }
  }

  /**
   * `addMovieToList(u, m, l)` touches only the row for `(u, m)`: an existing row
   * gets flag `l` set and keeps its other flag; without one, a single new row
   * with only flag `l` set is appended under the next id.
   */
  lemma AddedToListEffect(rows: seq<UserMovieRow>, u: int, m: string, l: ListName, id: int)
    ensures var r := AddedToList(rows, u, m, l, id);
      && |r| == |rows| + (if HasKey(rows, u, m) then 0 else 1)
      && (forall i :: 0 <= i < |rows| ==> r[i] == if IsKey(rows[i], u, m) then WithFlag(rows[i], l, true) else rows[i])
      && (!HasKey(rows, u, m) ==> r[|rows|] == UserMovieRow(id, u, m, l == InFavorites, l == InWatchLater))
  {
    var ins := Inserted(rows, u, m, id);
    var r := AddedToList(rows, u, m, l, id);
    if !HasKey(rows, u, m) {
      assert ins[|rows|] == UserMovieRow(id, u, m, false, false);
      assert r[|rows|] == WithFlag(ins[|rows|], l, true);
      forall i | 0 <= i < |rows| ensures ins[i] == rows[i] {
      }
    }
  }

  /** After `addMovieToList(u, m, l)` a row for `(u, m)` exists and every such row has flag `l` set. */
  lemma AddedToListFlagged(rows: seq<UserMovieRow>, u: int, m: string, l: ListName, id: int)
    ensures HasKey(AddedToList(rows, u, m, l, id), u, m)
    ensures forall i :: 0 <= i < |AddedToList(rows, u, m, l, id)| && IsKey(AddedToList(rows, u, m, l, id)[i], u, m) ==>
      Flag(AddedToList(rows, u, m, l, id)[i], l)
  {
    var ins := Inserted(rows, u, m, id);
    var r := AddedToList(rows, u, m, l, id);
    if HasKey(rows, u, m) {
      var i :| 0 <= i < |rows| && IsKey(rows[i], u, m);
      assert IsKey(r[i], u, m);
    } else {
      assert IsKey(ins[|rows|], u, m);
      assert IsKey(r[|rows|], u, m);
    }
  }

  /** A second `addMovieToList` with the same arguments changes nothing, whatever id the counter offers. */
  lemma AddedToListTwice(rows: seq<UserMovieRow>, u: int, m: string, l: ListName, id: int, id2: int)
    ensures HasKey(AddedToList(rows, u, m, l, id), u, m)
    ensures AddedToList(AddedToList(rows, u, m, l, id), u, m, l, id2) == AddedToList(rows, u, m, l, id)
  {
    AddedToListFlagged(rows, u, m, l, id);
    SetFlagIdempotent(Inserted(rows, u, m, id), u, m, l, true);
  }

  /** With one row per key, the listed rows of a user carry distinct `movieData`. */
  lemma {:induction false} RowsOfDistinct(rows: seq<UserMovieRow>, u: int)
    requires UniqueKeys(rows)
    ensures forall i, j :: 0 <= i < j < |RowsOf(rows, u)| ==> RowsOf(rows, u)[i].movieData != RowsOf(rows, u)[j].movieData
  {
    if rows != [] {
      var tail := rows[1..];
      assert UniqueKeys(tail) by {
        forall i | 0 <= i < |tail| ensures tail[i] == rows[i + 1] {
        }
      }
      RowsOfDistinct(tail, u);
      var rest := RowsOf(tail, u);
      if rows[0].userID == u {
        var r := [Listed(rows[0])] + rest;
        assert RowsOf(rows, u) == r;
        forall j | 1 <= j < |r| ensures r[0].movieData != r[j].movieData {
          assert r[j] == rest[j - 1] && rest[j - 1] in rest;
          var k :| 0 <= k < |tail| && tail[k].userID == u && Listed(tail[k]) == rest[j - 1];
          assert tail[k] == rows[k + 1];
        }
        forall i, j | 1 <= i < j < |r| ensures r[i].movieData != r[j].movieData {
          assert r[i] == rest[i - 1] && r[j] == rest[j - 1];
        }
      } else {
        assert RowsOf(rows, u) == rest;
      }
    }
  }

  /** After `addMovieToList(u, m, l)`, `getMovieListFromID(u)` lists `m` exactly once, with flag `l` set. */
  lemma AddThenListed(rows: seq<UserMovieRow>, nextID: int, u: int, m: string, l: ListName)
    requires UserMoviesValid(rows, nextID)
    ensures exists x :: x in RowsOf(AddedToList(rows, u, m, l, nextID), u) && x.movieData == m && ListedFlag(x, l)
    ensures var listed := RowsOf(AddedToList(rows, u, m, l, nextID), u);
      forall i, j :: 0 <= i < j < |listed| ==> listed[i].movieData != listed[j].movieData
  {
    var r := AddedToList(rows, u, m, l, nextID);
    var id2 := if HasKey(rows, u, m) then nextID else nextID + 1;
    InsertedValid(rows, u, m, nextID);
    SetFlagValid(Inserted(rows, u, m, nextID), id2, u, m, l, true);
    AddedToListFlagged(rows, u, m, l, nextID);
    var i :| 0 <= i < |r| && IsKey(r[i], u, m);
    assert Listed(r[i]) in RowsOf(r, u);
    RowsOfDistinct(r, u);
  }

  /** After `removeMovieFromList(u, m, l)`, no listed entry for `m` has flag `l`. */
  lemma RemovedNotListed(rows: seq<UserMovieRow>, u: int, m: string, l: ListName)
    ensures forall x :: x in RowsOf(SetFlag(rows, u, m, l, false), u) && x.movieData == m ==> !ListedFlag(x, l)
  {
    var r := SetFlag(rows, u, m, l, false);
    forall x | x in RowsOf(r, u) && x.movieData == m ensures !ListedFlag(x, l) {
      var i :| 0 <= i < |r| && r[i].userID == u && Listed(r[i]) == x;
      assert IsKey(rows[i], u, m);
    }
  }

  /** Adding a movie to both lists leaves exactly one row for it, with both flags set. */
  lemma AddToBoth(rows: seq<UserMovieRow>, nextID: int, u: int, m: string)
    requires UserMoviesValid(rows, nextID)
    ensures var id2 := if HasKey(rows, u, m) then nextID else nextID + 1;
      var r := AddedToList(AddedToList(rows, u, m, InFavorites, nextID), u, m, InWatchLater, id2);
      && UniqueKeys(r)
      && (exists i :: 0 <= i < |r| && IsKey(r[i], u, m))
      && (forall i :: 0 <= i < |r| && IsKey(r[i], u, m) ==> r[i].inFavorites && r[i].inWatchLater)
  {
    var id2 := if HasKey(rows, u, m) then nextID else nextID + 1;
    var r1 := AddedToList(rows, u, m, InFavorites, nextID);
    InsertedValid(rows, u, m, nextID);
    SetFlagValid(Inserted(rows, u, m, nextID), id2, u, m, InFavorites, true);
    AddedToListFlagged(rows, u, m, InFavorites, nextID);
    assert UserMoviesValid(r1, id2) && HasKey(r1, u, m);
    assert Inserted(r1, u, m, id2) == r1;
    var r := AddedToList(r1, u, m, InWatchLater, id2);
    SetFlagValid(r1, id2, u, m, InWatchLater, true);
    AddedToListFlagged(r1, u, m, InWatchLater, id2);
    forall i | 0 <= i < |r| && IsKey(r[i], u, m) ensures r[i].inFavorites && r[i].inWatchLater {
      assert IsKey(r1[i], u, m) && r[i] == WithFlag(r1[i], InWatchLater, true);
    }
  }

  /** The user delete keeps the other rows in their order. */
  lemma {:induction false} WithoutUserConcat(a: seq<UserRow>, b: seq<UserRow>, id: int)
    ensures WithoutUser(a + b, id) == WithoutUser(a, id) + WithoutUser(b, id)
  {
    if a != [] {
      var ab := a + b;
      assert ab[0] == a[0] && ab[1..] == a[1..] + b;
      WithoutUserConcat(a[1..], b, id);
      var head := if a[0].userID != id then [a[0]] else [];
      assert WithoutUser(ab, id) == head + WithoutUser(a[1..] + b, id);
      assert WithoutUser(a, id) == head + WithoutUser(a[1..], id);
    } else {
      assert a + b == b;
    }
  }

  /** The cascade keeps the other users' rows in their order. */
  lemma {:induction false} WithoutOwnerConcat(a: seq<UserMovieRow>, b: seq<UserMovieRow>, u: int)
    ensures WithoutOwner(a + b, u) == WithoutOwner(a, u) + WithoutOwner(b, u)
  {
    if a != [] {
      var ab := a + b;
      assert ab[0] == a[0] && ab[1..] == a[1..] + b;
      WithoutOwnerConcat(a[1..], b, u);
      var head := if a[0].userID != u then [a[0]] else [];
      assert WithoutOwner(ab, u) == head + WithoutOwner(a[1..] + b, u);
      assert WithoutOwner(a, u) == head + WithoutOwner(a[1..], u);
    } else {
      assert a + b == b;
    }
  }

  /** After `deleteAccount(u)` cascades, every other user's `getMovieListFromID` reads as before. */
  lemma {:induction false} DeleteKeepsOtherLists(rows: seq<UserMovieRow>, u: int, v: int)
    requires v != u
    ensures RowsOf(WithoutOwner(rows, u), v) == RowsOf(rows, v)
  {
    if rows != [] {
      DeleteKeepsOtherLists(rows[1..], u, v);
      var rest := WithoutOwner(rows[1..], u);
      if rows[0].userID != u {
        var r := [rows[0]] + rest;
        assert WithoutOwner(rows, u) == r;
        assert r[1..] == rest;
      } else {
        assert WithoutOwner(rows, u) == rest;
      }
    }
  }

  /** After `deleteAccount(u)` cascades, `getMovieListFromID(u)` is empty. */
  lemma DeletedListsEmpty(rows: seq<UserMovieRow>, u: int)
    ensures RowsOf(WithoutOwner(rows, u), u) == []
  {
  }
}
