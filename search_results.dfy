/**
 * components/SearchResults.js: which result's popup is focused, the record a
 * result stores, and the add/remove buttons that update the in-memory lists of
 * the session and persist the change.
 */
module SearchResults {
  import opened Wrappers
  import opened MovieRecord
  import opened DatabaseApi
  import opened AppState
  import opened MovieApi

  // ---------------------------------------------------------------- focus

  /** `Array(n).fill(false)`: also what the effect on `[movies]` resets `focused` to. */
  function Unfocused(n: nat): (r: seq<bool>)
    ensures |r| == n
    ensures forall i :: 0 <= i < n ==> !r[i]
  {
    seq(n, _ => false)
  }

  predicate AtMostOneFocused(f: seq<bool>)
  {
    forall i, j :: 0 <= i < j < |f| ==> !(f[i] && f[j])
  }

  /**
   * `focusResult(index)` with `count == movies.length`: a fresh all-false array
   * with `index` set unless it was focused before (an index past the end of
   * `focused` reads as undefined, which is not focused).
   */
  method FocusResult(focused: seq<bool>, count: nat, index: nat) returns (newFocused: seq<bool>)
    requires index < count
    ensures |newFocused| == count && AtMostOneFocused(newFocused)
    ensures var wasFocused := index < |focused| && focused[index];
      forall i :: 0 <= i < count ==> newFocused[i] == (i == index && !wasFocused)
  {
    var a := new bool[count](_ => false);
    if !(index < |focused| && focused[index]) {
      a[index] := true;
    }
    newFocused := a[..];
  }

  // ---------------------------------------------------------------- the stored record

  /** The `movieData` object a result builds from its search item. */
  function ToMovieData(data: SearchItem): MovieSummary
  {
    MovieSummary(data.title, data.year, data.imdbID, data.poster)
  }

  /**
   * The stored string reads back as Title, Year, imdbID and Poster of the item, and
   * two items give the same stored string exactly when those four fields agree
   * (the item's `Type` plays no part).
   */
  lemma MovieDataFields(a: SearchItem, b: SearchItem)
    ensures Decode(Encode(ToMovieData(a))) == Some(MovieSummary(a.title, a.year, a.imdbID, a.poster))
    ensures Encode(ToMovieData(a)) == Encode(ToMovieData(b)) <==>
      a.title == b.title && a.year == b.year && a.imdbID == b.imdbID && a.poster == b.poster
  {
    DecodeEncode(ToMovieData(a));
    EncodeInjective(ToMovieData(a), ToMovieData(b));
  }

  // ---------------------------------------------------------------- list transforms

  /** `list.filter(e => JSON.stringify(e) != JSON.stringify(m))`. */
  function WithoutMovie(list: seq<MovieSummary>, m: MovieSummary): (r: seq<MovieSummary>)
    ensures |r| <= |list|
    ensures forall x :: x in r <==> x in list && x != m
  {
    if list == [] then []
    else
      EncodeInjective(list[0], m);
      (if Encode(list[0]) != Encode(m) then [list[0]] else []) + WithoutMovie(list[1..], m)
  }

  /** The filter keeps the order of what it keeps: it distributes over concatenation. */
  lemma {:induction false} WithoutMovieConcat(a: seq<MovieSummary>, b: seq<MovieSummary>, m: MovieSummary)
    ensures WithoutMovie(a + b, m) == WithoutMovie(a, m) + WithoutMovie(b, m)
  {
    if a == [] {
      assert a + b == b;
    } else {
      assert (a + b)[1..] == a[1..] + b;
      WithoutMovieConcat(a[1..], b, m);
    }
  }

  /** Removing a movie that is not in the list leaves the list as it is. */
  lemma {:induction false} WithoutAbsentMovie(list: seq<MovieSummary>, m: MovieSummary)
    requires m !in list
    ensures WithoutMovie(list, m) == list
  {
    if list != [] {
      assert m !in list[1..];
      WithoutAbsentMovie(list[1..], m);
      EncodeInjective(list[0], m);
      assert [list[0]] + list[1..] == list;
    }
  }

  /** `list.map(e => e.imdbID)`. */
  function ImdbIDs(list: seq<MovieSummary>): (r: seq<string>)
    ensures |r| == |list|
    ensures forall i :: 0 <= i < |list| ==> r[i] == list[i].imdbID
  {
    if list == [] then [] else [list[0].imdbID] + ImdbIDs(list[1..])
  }

  /** The membership effect: `list.map(e => e.imdbID).includes(id)`. */
  function HasImdbID(list: seq<MovieSummary>, id: string): (b: bool)
    ensures b <==> exists i :: 0 <= i < |list| && list[i].imdbID == id
  {
    var ids := ImdbIDs(list);
    assert id in ids ==> exists i :: 0 <= i < |list| && list[i].imdbID == id by {
      if id in ids {
        var i :| 0 <= i < |ids| && ids[i] == id;
      }
    }
    id in ids
  }

  /** What one press of a list button does to that list: remove when the flag shows membership, prepend otherwise. */
  function Toggled(list: seq<MovieSummary>, m: MovieSummary): seq<MovieSummary>
  {
    if HasImdbID(list, m.imdbID) then WithoutMovie(list, m) else [m] + list
  }

  predicate DistinctImdbIDs(list: seq<MovieSummary>)
  {
    forall i, j :: 0 <= i < j < |list| ==> list[i].imdbID != list[j].imdbID
  }

  lemma {:induction false} WithoutMovieDistinct(list: seq<MovieSummary>, m: MovieSummary)
    requires DistinctImdbIDs(list)
    ensures DistinctImdbIDs(WithoutMovie(list, m))
  {
    if list != [] {
      var tail := list[1..];
      assert DistinctImdbIDs(tail) by {
        forall i | 0 <= i < |tail| ensures tail[i] == list[i + 1] {
        }
      }
      WithoutMovieDistinct(tail, m);
      var rest := WithoutMovie(tail, m);
      if Encode(list[0]) != Encode(m) {
        var r := [list[0]] + rest;
        assert WithoutMovie(list, m) == r;
        forall i, j | 0 <= i < j < |r| ensures r[i].imdbID != r[j].imdbID {
          assert r[j] == rest[j - 1] && rest[j - 1] in tail;
          if i == 0 {
            var k :| 0 <= k < |tail| && tail[k] == rest[j - 1];
            assert tail[k] == list[k + 1];
          } else {
            assert r[i] == rest[i - 1];
          }
        }
      } else {
        assert WithoutMovie(list, m) == rest;
      }
    }
  }

  /** The buttons never put a second entry with the same imdbID into a list that had none twice. */
  lemma ToggledKeepsDistinct(list: seq<MovieSummary>, m: MovieSummary)
    requires DistinctImdbIDs(list)
    ensures DistinctImdbIDs(Toggled(list, m))
  {
    if HasImdbID(list, m.imdbID) {
      WithoutMovieDistinct(list, m);
    } else {
      var r := [m] + list;
      forall i, j | 0 <= i < j < |r| ensures r[i].imdbID != r[j].imdbID {
        assert r[j] == list[j - 1];
        if i > 0 {
          assert r[i] == list[i - 1];
        }
      }
    }
  }

  // ---------------------------------------------------------------- the buttons

  /** `Result.addToList(l)`: prepend to the session's list, then persist with the same list name. */
  method AddToList(session: Session, db: Database, data: SearchItem, l: ListName)
    requires db.Valid()
    modifies session, db
    ensures session.userID == old(session.userID)
    ensures session.List(l) == [ToMovieData(data)] + old(session.List(l))
    ensures session.List(Other(l)) == old(session.List(Other(l)))
    ensures db.Valid()
    ensures db.userMovies == AddedToList(old(db.userMovies), session.userID, Encode(ToMovieData(data)), l, old(db.nextUserMovieID))
    ensures db.nextUserMovieID ==
      if HasKey(old(db.userMovies), session.userID, Encode(ToMovieData(data))) then old(db.nextUserMovieID) else old(db.nextUserMovieID) + 1
    ensures db.users == old(db.users) && db.nextUserID == old(db.nextUserID)
  {
    var movieData := ToMovieData(data);
    if l == InFavorites {
      session.favorites := [movieData] + session.favorites;
    } else {
      session.watchLater := [movieData] + session.watchLater;
    }
    db.AddMovieToList(session.userID, Encode(movieData), l);
  }

  /** `Result.removeFromList(l)`: drop every entry serialising like this movie, then persist. */
  method RemoveFromList(session: Session, db: Database, data: SearchItem, l: ListName)
    requires db.Valid()
    modifies session, db
    ensures session.userID == old(session.userID)
    ensures session.List(l) == WithoutMovie(old(session.List(l)), ToMovieData(data))
    ensures session.List(Other(l)) == old(session.List(Other(l)))
    ensures db.Valid()
    ensures db.userMovies == SetFlag(old(db.userMovies), session.userID, Encode(ToMovieData(data)), l, false)
    ensures db.users == old(db.users) && db.nextUserID == old(db.nextUserID) && db.nextUserMovieID == old(db.nextUserMovieID)
  {
    var movieData := ToMovieData(data);
    if l == InFavorites {
      session.favorites := WithoutMovie(session.favorites, movieData);
    } else {
      session.watchLater := WithoutMovie(session.watchLater, movieData);
    }
    db.RemoveMovieFromList(session.userID, Encode(movieData), l);
  }

  /** A list button of the popup: "Remove from" when the membership check holds, "Add to" otherwise. */
  method PressListButton(session: Session, db: Database, data: SearchItem, l: ListName)
    requires db.Valid()
    modifies session, db
    ensures session.userID == old(session.userID)
    ensures session.List(l) == Toggled(old(session.List(l)), ToMovieData(data))
    ensures session.List(Other(l)) == old(session.List(Other(l)))
    ensures db.Valid()
    ensures db.userMovies == if HasImdbID(old(session.List(l)), data.imdbID)
      then SetFlag(old(db.userMovies), session.userID, Encode(ToMovieData(data)), l, false)
      else AddedToList(old(db.userMovies), session.userID, Encode(ToMovieData(data)), l, old(db.nextUserMovieID))
    ensures db.nextUserMovieID ==
      if HasImdbID(old(session.List(l)), data.imdbID) || HasKey(old(db.userMovies), session.userID, Encode(ToMovieData(data)))
      then old(db.nextUserMovieID) else old(db.nextUserMovieID) + 1
    ensures db.users == old(db.users) && db.nextUserID == old(db.nextUserID)
  {
    var inList := HasImdbID(session.List(l), data.imdbID);
    if inList {
      RemoveFromList(session, db, data, l);
    } else {
      AddToList(session, db, data, l);
    }
  }
}
