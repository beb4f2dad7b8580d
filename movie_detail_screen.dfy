/**
 * screens/MovieRoute/MovieDetailScreen.js: the list of fields the detail screen
 * shows, built by walking `displayOptions` in key order.
 */
module MovieDetailScreen {
  import opened MovieApi
  import opened SettingsScreen

  /** The keys whose value is true, in the object's order. */
  function EnabledKeys(opts: DisplayOptions): (r: seq<string>)
    ensures |r| <= |opts|
    ensures forall i :: 0 <= i < |opts| && opts[i].enabled ==> opts[i].key in r
    ensures forall k :: k in r ==> exists i :: 0 <= i < |opts| && opts[i].key == k && opts[i].enabled
  {
    if opts == [] then []
    else
      var rest := EnabledKeys(opts[1..]);
      forall k | k in rest ensures exists i :: 0 <= i < |opts| && opts[i].key == k && opts[i].enabled {
        var i :| 0 <= i < |opts[1..]| && opts[1..][i].key == k && opts[1..][i].enabled;
        assert opts[i + 1] == opts[1..][i];
      }
      forall i | 1 <= i < |opts| && opts[i].enabled ensures opts[i].key in rest {
        assert opts[1..][i - 1] == opts[i];
      }
      (if opts[0].enabled then [opts[0].key] else []) + rest
  }

  /** The walk keeps the object's order: it distributes over concatenation. */
  lemma {:induction false} EnabledKeysConcat(a: DisplayOptions, b: DisplayOptions)
    ensures EnabledKeys(a + b) == EnabledKeys(a) + EnabledKeys(b)
  {
    if a == [] {
      assert a + b == b;
    } else {
      assert (a + b)[1..] == a[1..] + b;
      EnabledKeysConcat(a[1..], b);
    }
  }

  /** The `for ... in` loop of the render, pushing every enabled key. */
  method EnabledDisplayOptions(opts: DisplayOptions) returns (enabled: seq<string>)
    ensures enabled == EnabledKeys(opts)
  {
    enabled := [];
    var i := 0;
    while i < |opts|
      invariant 0 <= i <= |opts|
      invariant enabled == EnabledKeys(opts[..i])
    {
      assert opts[..i + 1] == opts[..i] + [opts[i]];
      EnabledKeysConcat(opts[..i], [opts[i]]);
      if opts[i].enabled {
        enabled := enabled + [opts[i].key];
      }
      i := i + 1;
    }
    assert opts[..|opts|] == opts;
  }

  /** For an object (distinct keys), a field is shown exactly when its option reads as true. */
  lemma EnabledIffLookup(opts: DisplayOptions, k: string)
    requires DistinctKeys(opts)
    ensures k in EnabledKeys(opts) <==> Lookup(opts, k)
  {
    LookupAt(opts, k);
  }

  /** With distinct keys, `Lookup` reads the one entry holding the key. */
  lemma {:induction false} LookupAt(opts: DisplayOptions, k: string)
    requires DistinctKeys(opts)
    ensures Lookup(opts, k) <==> exists i :: 0 <= i < |opts| && opts[i].key == k && opts[i].enabled
  {
    if opts != [] {
      var tail := opts[1..];
      assert DistinctKeys(tail) by {
        forall i, j | 0 <= i < j < |tail| ensures tail[i].key != tail[j].key {
          assert tail[i] == opts[i + 1] && tail[j] == opts[j + 1];
        }
      }
      LookupAt(tail, k);
      if opts[0].key != k {
        if exists i :: 0 <= i < |opts| && opts[i].key == k && opts[i].enabled {
          var i :| 0 <= i < |opts| && opts[i].key == k && opts[i].enabled;
          assert tail[i - 1] == opts[i];
        }
        if exists i :: 0 <= i < |tail| && tail[i].key == k && tail[i].enabled {
          var i :| 0 <= i < |tail| && tail[i].key == k && tail[i].enabled;
          assert opts[i + 1] == tail[i];
        }
      }
    }
  }

  /** No field header is shown twice. */
  lemma {:induction false} EnabledKeysDistinct(opts: DisplayOptions)
    requires DistinctKeys(opts)
    ensures forall i, j :: 0 <= i < j < |EnabledKeys(opts)| ==> EnabledKeys(opts)[i] != EnabledKeys(opts)[j]
  {
    if opts != [] {
      var tail := opts[1..];
      assert DistinctKeys(tail) by {
        forall i, j | 0 <= i < j < |tail| ensures tail[i].key != tail[j].key {
          assert tail[i] == opts[i + 1] && tail[j] == opts[j + 1];
        }
      }
      EnabledKeysDistinct(tail);
      var rest := EnabledKeys(tail);
      if opts[0].enabled {
        var r := [opts[0].key] + rest;
        assert EnabledKeys(opts) == r;
        forall i, j | 0 <= i < j < |r| ensures r[i] != r[j] {
          if i == 0 {
            assert r[j] in rest;
            var m :| 0 <= m < |tail| && tail[m].key == r[j] && tail[m].enabled;
            assert tail[m] == opts[m + 1];
          } else {
            assert r[i] == rest[i - 1] && r[j] == rest[j - 1];
          }
        }
      } else {
        assert EnabledKeys(opts) == rest;
      }
    }
  }

  /** Flipping a switch shows or hides exactly that field. */
  lemma ToggleShowsOrHides(opts: DisplayOptions, key: string, k: string)
    requires DistinctKeys(opts)
    ensures k in EnabledKeys(Toggle(opts, key)) <==> if k == key then !Lookup(opts, k) else Lookup(opts, k)
  {
    ToggleKeepsDistinct(opts, key);
    EnabledIffLookup(Toggle(opts, key), k);
  }

  /** The detail screen shows only fields that `fetchMovieData` returns. */
  lemma EnabledKeysKnown(opts: DisplayOptions)
    requires KnownKeys(opts)
    ensures forall k :: k in EnabledKeys(opts) ==> k in Keys
  {
  }

  /** With every option false the screen shows no field (only the poster and the back button remain). */
  lemma AllDisabledShowsNothing(opts: DisplayOptions)
    requires forall i :: 0 <= i < |opts| ==> !opts[i].enabled
    ensures EnabledKeys(opts) == []
  {
  }

  /** With the initial options the screen shows Title, Released, Director, Runtime and Plot, in that order. */
  lemma InitialFields()
    ensures EnabledKeys(InitialDisplayOptions) == ["Title", "Released", "Director", "Runtime", "Plot"]
  {
  }
}
