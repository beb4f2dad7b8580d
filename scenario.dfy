/**
 * A worked session against a fresh store: create the account "alice", put one
 * movie on the watch-later list, read the lists back, take the movie off, and
 * read them again.
 */
module Scenario {
  import opened Wrappers
  import opened MovieRecord
  import opened DatabaseApi
  import opened AppState

  /** The lists a single row of the user reads back as. */
  lemma SingleRowLoads(m: MovieSummary, fav: bool, later: bool)
    ensures Loaded([ListedMovie(Encode(m), fav, later)]) ==
      Some((if fav then [m] else [], if later then [m] else []))
  {
    var row := ListedMovie(Encode(m), fav, later);
    FlaggedCons(row, [], InFavorites);
    FlaggedCons(row, [], InWatchLater);
    assert [row] + [] == [row];
    DecodeAllEncoded([Encode(m)], [m]);
    assert Flagged([row], InFavorites) == if fav then [Encode(m)] else [];
    assert Flagged([row], InWatchLater) == if later then [Encode(m)] else [];
  }

  /** The one row of a user, read back from a store holding only that row. */
  lemma SingleRowListed(row: UserMovieRow)
    ensures RowsOf([row], row.userID) == [Listed(row)]
  {
    assert [row][1..] == [];
  }

  method WatchLaterRoundTrip(m: MovieSummary) returns (id: int, first: (seq<MovieSummary>, seq<MovieSummary>), second: (seq<MovieSummary>, seq<MovieSummary>))
    ensures id == 1
    ensures first == ([], [m])
    ensures second == ([], [])
  {
    var db := new Database();
    assert |"alice"| == 5 && |"secret"| == 6 && !NameTaken(db.users, "alice");
    var r := db.CreateNewAccount("alice", "secret");
    id := r.value;

    var data := Encode(m);
    db.AddMovieToList(id, data, InWatchLater);
    var added := UserMovieRow(1, 1, data, false, true);
    assert Inserted([], 1, data, 1) == [UserMovieRow(1, 1, data, false, false)];
    assert db.userMovies == [added];

    var rows := db.GetMovieListFromID(id);
    SingleRowListed(added);
    SingleRowLoads(m, false, true);
    var ok, favorites, watchLater := Partition(rows);
    first := (favorites, watchLater);

    db.RemoveMovieFromList(id, data, InWatchLater);
    var removed := UserMovieRow(1, 1, data, false, false);
    assert db.userMovies == [removed];
    rows := db.GetMovieListFromID(id);
    SingleRowListed(removed);
    SingleRowLoads(m, false, false);
    ok, favorites, watchLater := Partition(rows);
    second := (favorites, watchLater);
  }
}
