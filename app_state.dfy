/**
 * The app-level session of App.js: the logged-in `userID` (-1 for a guest) and
 * the two in-memory lists, rebuilt from `getMovieListFromID` whenever `userID`
 * changes. The login, logout and delete transitions of the login and profile
 * screens are methods here.
 */
module AppState {
  import opened Wrappers
  import opened MovieRecord
  import opened DatabaseApi

  /** The `userID` of a user who is not logged in. */
  const Guest := -1

  /** The `movieData` of the listed rows whose flag `l` is 1, in row order. */
  function Flagged(rows: seq<ListedMovie>, l: ListName): (r: seq<string>)
    ensures |r| <= |rows|
    ensures forall x :: x in r <==> exists i :: 0 <= i < |rows| && ListedFlag(rows[i], l) && rows[i].movieData == x
  {
    if rows == [] then []
    else
      var rest := Flagged(rows[1..], l);
      assert forall i :: 1 <= i < |rows| ==> rows[i] == rows[1..][i - 1];
      assert forall x :: x in rest ==> exists i :: 0 <= i < |rows| && ListedFlag(rows[i], l) && rows[i].movieData == x by {
        forall x | x in rest
          ensures exists i :: 0 <= i < |rows| && ListedFlag(rows[i], l) && rows[i].movieData == x
        {
          var i :| 0 <= i < |rows[1..]| && ListedFlag(rows[1..][i], l) && rows[1..][i].movieData == x;
          assert rows[i + 1] == rows[1..][i];
        }
      }
      (if ListedFlag(rows[0], l) then [rows[0].movieData] else []) + rest
  }

  lemma {:induction false} FlaggedConcat(a: seq<ListedMovie>, b: seq<ListedMovie>, l: ListName)
    ensures Flagged(a + b, l) == Flagged(a, l) + Flagged(b, l)
  {
    if a != [] {
      assert (a + b)[1..] == a[1..] + b;
      FlaggedConcat(a[1..], b, l);
    } else {
      assert a + b == b;
    }
  }

  /** `JSON.parse` of each string, in order; `None` when one of them throws. */
  function DecodeAll(ss: seq<string>): (r: Option<seq<MovieSummary>>)
    ensures r.None? <==> exists i :: 0 <= i < |ss| && Decode(ss[i]).None?
    ensures r.Some? ==> |r.value| == |ss| && forall i :: 0 <= i < |ss| ==> Decode(ss[i]) == Some(r.value[i])
  {
    if ss == [] then Some([])
    else
      var rest := DecodeAll(ss[1..]);
      assert forall i :: 1 <= i < |ss| ==> ss[i] == ss[1..][i - 1];
      match Decode(ss[0])
      case None => None
      case Some(m) =>
        match rest
        case None =>
          assert exists i :: 0 <= i < |ss| && Decode(ss[i]).None? by {
            var i :| 0 <= i < |ss[1..]| && Decode(ss[1..][i]).None?;
            assert ss[i + 1] == ss[1..][i];
          }
          None
        case Some(ms) => Some([m] + ms)
  }

  lemma DecodeAllSnoc(ss: seq<string>, ms: seq<MovieSummary>, s: string, m: MovieSummary)
    requires DecodeAll(ss) == Some(ms) && Decode(s) == Some(m)
    ensures DecodeAll(ss + [s]) == Some(ms + [m])
  {
    var t := ss + [s];
    assert forall i :: 0 <= i < |ss| ==> t[i] == ss[i];
    var r := DecodeAll(t);
    assert r.Some?;
    assert r.value == ms + [m];
  }

  /** What the `useEffect` of App.js computes from the listed rows: (favorites, watchLater), or `None` if a parse throws. */
  function Loaded(rows: seq<ListedMovie>): Option<(seq<MovieSummary>, seq<MovieSummary>)>
  {
    match (DecodeAll(Flagged(rows, InFavorites)), DecodeAll(Flagged(rows, InWatchLater)))
    case (Some(f), Some(w)) => Some((f, w))
    case _ => None
  }

  /** The lists after the effect has run: the loaded ones, or the old ones when the promise rejected. */
  function Reloaded(rows: seq<ListedMovie>, favorites: seq<MovieSummary>, watchLater: seq<MovieSummary>): (seq<MovieSummary>, seq<MovieSummary>)
  {
    match Loaded(rows)
    case Some(p) => p
    case None => (favorites, watchLater)
  }

  lemma FlaggedPrefix(list: seq<ListedMovie>, i: int, l: ListName)
    requires 0 <= i < |list|
    ensures Flagged(list[..i + 1], l) == Flagged(list[..i], l) + (if ListedFlag(list[i], l) then [list[i].movieData] else [])
  {
    assert list[..i + 1] == list[..i] + [list[i]];
    FlaggedConcat(list[..i], [list[i]], l);
  }

  /** One flagged row whose `movieData` does not parse makes the whole load throw. */
  lemma FailedParseRejects(list: seq<ListedMovie>, i: int, l: ListName)
    requires 0 <= i < |list| && ListedFlag(list[i], l) && Decode(list[i].movieData).None?
    ensures Loaded(list).None?
  {
    var f := Flagged(list, l);
    assert list[i].movieData in f;
    var k :| 0 <= k < |f| && f[k] == list[i].movieData;
    assert DecodeAll(f).None?;
  }

  /** The `for...of` loop of App.js: push each flagged row's parsed `movieData` onto the list(s) its flags name. */
  method Partition(list: seq<ListedMovie>) returns (ok: bool, favorites: seq<MovieSummary>, watchLater: seq<MovieSummary>)
    ensures ok <==> Loaded(list).Some?
    ensures ok ==> (favorites, watchLater) == Loaded(list).value
  {
    favorites, watchLater := [], [];
    var i := 0;
    while i < |list|
      invariant 0 <= i <= |list|
      invariant DecodeAll(Flagged(list[..i], InFavorites)) == Some(favorites)
      invariant DecodeAll(Flagged(list[..i], InWatchLater)) == Some(watchLater)
    {
      var movie := list[i];
      assert list[..i + 1] == list[..i] + [movie];
      FlaggedPrefix(list, i, InFavorites);
      FlaggedPrefix(list, i, InWatchLater);
      if movie.inFavorites {
        var parsed := Decode(movie.movieData);
        if parsed.None? {
          FailedParseRejects(list, i, InFavorites);
          return false, favorites, watchLater;
        }
        DecodeAllSnoc(Flagged(list[..i], InFavorites), favorites, movie.movieData, parsed.value);
        assert Flagged(list[..i + 1], InFavorites) == Flagged(list[..i], InFavorites) + [movie.movieData];
        favorites := favorites + [parsed.value];
      } else {
        assert Flagged(list[..i + 1], InFavorites) == Flagged(list[..i], InFavorites);
      }
      assert DecodeAll(Flagged(list[..i + 1], InFavorites)) == Some(favorites);
      if movie.inWatchLater {
        var parsed := Decode(movie.movieData);
        if parsed.None? {
          FailedParseRejects(list, i, InWatchLater);
          return false, favorites, watchLater;
        }
        DecodeAllSnoc(Flagged(list[..i], InWatchLater), watchLater, movie.movieData, parsed.value);
        assert Flagged(list[..i + 1], InWatchLater) == Flagged(list[..i], InWatchLater) + [movie.movieData];
        watchLater := watchLater + [parsed.value];
      } else {
        assert Flagged(list[..i + 1], InWatchLater) == Flagged(list[..i], InWatchLater);
      }
      i := i + 1;
    }
    assert list[..i] == list;
    ok := true;
  }

  /** The state App.js shares through its context: who is logged in and their two lists. */
  class Session {
    var userID: int
    var favorites: seq<MovieSummary>
    var watchLater: seq<MovieSummary>

    /**
     * The initial `useState` values, then the run of the `userID` effect after the
     * first render, which loads the guest's stored lists.
     */
    constructor (db: Database)
      ensures userID == Guest
      ensures (favorites, watchLater) == Reloaded(RowsOf(db.userMovies, Guest), [], [])
    {
      userID := Guest;
      favorites, watchLater := [], [];
      new;
      LoadLists(db);
    }

    function List(l: ListName): seq<MovieSummary>
      reads this
    {
      match l
      case InFavorites => favorites
      case InWatchLater => watchLater
    }

    /** The `useEffect` keyed on `userID`: rebuild both lists from storage. */
    method LoadLists(db: Database)
      modifies this
      ensures userID == old(userID)
      ensures (favorites, watchLater) == Reloaded(RowsOf(db.userMovies, userID), old(favorites), old(watchLater))
    {
      var list := db.GetMovieListFromID(userID);
      var ok, newFavorites, newWatchLater := Partition(list);
      if ok {
        favorites, watchLater := newFavorites, newWatchLater;
      }
    }

    /** `setUserID`: the effect runs only when the value actually changes. */
    method SetUserID(db: Database, id: int)
      modifies this
      ensures userID == id
      ensures id == old(userID) ==> favorites == old(favorites) && watchLater == old(watchLater)
      ensures id != old(userID) ==>
        (favorites, watchLater) == Reloaded(RowsOf(db.userMovies, id), old(favorites), old(watchLater))
    {
      if id != userID {
        userID := id;
        LoadLists(db);
      }
    }

    /** `onLogin` of the login screen: switch user only when the lookup is not -1. */
    method Login(db: Database, username: string, password: string) returns (found: bool)
      requires db.Valid()
      modifies this
      ensures found <==> exists i :: 0 <= i < |db.users| && db.users[i].username == username && db.users[i].password == password
      ensures found ==> exists i :: 0 <= i < |db.users| && db.users[i] == UserRow(userID, username, password)
      ensures found && userID != old(userID) ==>
        (favorites, watchLater) == Reloaded(RowsOf(db.userMovies, userID), old(favorites), old(watchLater))
      ensures found && userID == old(userID) ==> favorites == old(favorites) && watchLater == old(watchLater)
      ensures !found ==> userID == old(userID) && favorites == old(favorites) && watchLater == old(watchLater)
    {
      var id := db.GetUserID(username, password);
      found := id != -1;
      if found {
        SetUserID(db, id);
      }
    }

    /** The "Log out" button of the profile screen, shown only to a logged-in user. */
    method Logout(db: Database)
      requires userID != Guest
      modifies this
      ensures userID == Guest
      ensures (favorites, watchLater) == Reloaded(RowsOf(db.userMovies, Guest), old(favorites), old(watchLater))
    {
      SetUserID(db, Guest);
    }

    /** `onDeleteAccount` of the profile screen, shown only to a logged-in user: delete the account, then become the guest. */
    method DeleteAccount(db: Database)
      requires db.Valid() && userID != Guest
      modifies this, db
      ensures db.Valid()
      ensures db.users == WithoutUser(old(db.users), old(userID))
      ensures db.userMovies == if HasUser(old(db.users), old(userID)) then WithoutOwner(old(db.userMovies), old(userID)) else old(db.userMovies)
      ensures db.nextUserID == old(db.nextUserID) && db.nextUserMovieID == old(db.nextUserMovieID)
      ensures userID == Guest
      ensures (favorites, watchLater) == Reloaded(RowsOf(db.userMovies, Guest), old(favorites), old(watchLater))
    {
      db.DeleteAccount(userID);
      SetUserID(db, Guest);
    }
  }

  // ---------------------------------------------------------------- properties

  /** Flagged rows become list entries one for one, in order: each list is the parse of exactly its flagged rows. */
  lemma LoadedLists(rows: seq<ListedMovie>)
    requires Loaded(rows).Some?
    ensures var (f, w) := Loaded(rows).value;
      && |f| == |Flagged(rows, InFavorites)| <= |rows|
      && |w| == |Flagged(rows, InWatchLater)| <= |rows|
      && (forall k :: 0 <= k < |f| ==> Decode(Flagged(rows, InFavorites)[k]) == Some(f[k]))
      && (forall k :: 0 <= k < |w| ==> Decode(Flagged(rows, InWatchLater)[k]) == Some(w[k]))
  {
  }

  /** A row's contribution to each list: a row with both flags lands in both, a row with neither in neither. */
  lemma {:induction false} FlaggedCons(r: ListedMovie, rows: seq<ListedMovie>, l: ListName)
    ensures Flagged([r] + rows, l) == (if ListedFlag(r, l) then [r.movieData] else []) + Flagged(rows, l)
  {
    assert ([r] + rows)[1..] == rows;
  }

  /** Lists written by the app always load back: rows whose `movieData` is an encoding parse to those records. */
  lemma {:induction false} DecodeAllEncoded(ss: seq<string>, ms: seq<MovieSummary>)
    requires |ss| == |ms| && forall i :: 0 <= i < |ss| ==> ss[i] == Encode(ms[i])
    ensures DecodeAll(ss) == Some(ms)
  {
    forall i | 0 <= i < |ss| ensures Decode(ss[i]) == Some(ms[i]) {
      DecodeEncode(ms[i]);
    }
    var r := DecodeAll(ss);
    assert r.Some?;
    assert r.value == ms;
  }
}
