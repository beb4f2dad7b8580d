/**
 * screens/MovieRoute/SettingsScreen.js and the initial `displayOptions` of App.js:
 * which detail fields the user wants to see.
 *
 * `displayOptions` is a plain object, so it is modelled as its list of members in
 * insertion order (the order the detail screen walks), each key at most once.
 */
module SettingsScreen {
  import opened MovieApi

  datatype Entry = Entry(key: string, enabled: bool)

  type DisplayOptions = seq<Entry>

  /** The object's keys, in order. */
  function KeysOf(opts: DisplayOptions): (r: seq<string>)
    ensures |r| == |opts|
    ensures forall i :: 0 <= i < |opts| ==> r[i] == opts[i].key
  {
    if opts == [] then [] else [opts[0].key] + KeysOf(opts[1..])
  }

  /** An object holds each key once. */
  predicate DistinctKeys(opts: DisplayOptions)
  {
    forall i, j :: 0 <= i < j < |opts| ==> opts[i].key != opts[j].key
  }

  /** `displayOptions[key]`, a missing key reading as undefined, which is falsy. */
  function Lookup(opts: DisplayOptions, key: string): (b: bool)
    ensures b ==> key in KeysOf(opts)
  {
    if opts == [] then false
    else if opts[0].key == key then opts[0].enabled
    else Lookup(opts[1..], key)
  }

  /**
   * `{...displayOptions, [key]: !displayOptions[key]}`: the key's value is negated
   * in place, or the key is appended with `true` when it was missing.
   */
  function Toggle(opts: DisplayOptions, key: string): (r: DisplayOptions)
    ensures Lookup(r, key) == !Lookup(opts, key)
    ensures forall k :: k != key ==> Lookup(r, k) == Lookup(opts, k)
  {
    if opts == [] then
      ConsFacts(Entry(key, true), []);
      [Entry(key, true)]
    else
      var e, tail := opts[0], opts[1..];
      assert opts == [e] + tail;
      ConsFacts(e, tail);
      if e.key == key then
        ConsFacts(Entry(key, !e.enabled), tail);
        [Entry(key, !e.enabled)] + tail
      else
        var rest := Toggle(tail, key);
        ConsFacts(e, rest);
        [e] + rest
  }

  /** Toggling keeps the keys in place, appending the key when it was missing. */
  lemma {:induction false} ToggleKeys(opts: DisplayOptions, key: string)
    ensures KeysOf(Toggle(opts, key)) == if key in KeysOf(opts) then KeysOf(opts) else KeysOf(opts) + [key]
  {
    if opts == [] {
      ConsFacts(Entry(key, true), []);
    } else {
      var e, tail := opts[0], opts[1..];
      assert opts == [e] + tail;
      ConsFacts(e, tail);
      if e.key == key {
        ConsFacts(Entry(key, !e.enabled), tail);
      } else {
        ToggleKeys(tail, key);
        ConsFacts(e, Toggle(tail, key));
      }
    }
  }

  /** Keys and lookups of an object whose first member is `e`. */
  lemma ConsFacts(e: Entry, rest: DisplayOptions)
    ensures KeysOf([e] + rest) == [e.key] + KeysOf(rest)
    ensures forall k :: Lookup([e] + rest, k) == if e.key == k then e.enabled else Lookup(rest, k)
  {
    assert ([e] + rest)[1..] == rest;
  }

  /** Toggling keeps the object's keys distinct. */
  lemma ToggleKeepsDistinct(opts: DisplayOptions, key: string)
    requires DistinctKeys(opts)
    ensures DistinctKeys(Toggle(opts, key))
  {
    var r := Toggle(opts, key);
    ToggleKeys(opts, key);
    forall i, j | 0 <= i < j < |r| ensures r[i].key != r[j].key {
      assert r[i].key == KeysOf(r)[i] && r[j].key == KeysOf(r)[j];
      if key !in KeysOf(opts) && j == |opts| {
        assert KeysOf(opts)[i] == opts[i].key;
      } else {
        assert KeysOf(opts)[i] == opts[i].key && KeysOf(opts)[j] == opts[j].key;
      }
    }
  }

  /** Flipping the same switch twice gives back the same object when the key was present, and the same values in any case. */
  lemma {:induction false} ToggleTwice(opts: DisplayOptions, key: string)
    ensures key in KeysOf(opts) ==> Toggle(Toggle(opts, key), key) == opts
    ensures forall k :: Lookup(Toggle(Toggle(opts, key), key), k) == Lookup(opts, k)
  {
    if opts != [] && opts[0].key != key {
      ToggleTwice(opts[1..], key);
      assert KeysOf(opts) == [opts[0].key] + KeysOf(opts[1..]);
      assert [opts[0]] + opts[1..] == opts;
    } else if opts != [] {
      assert [opts[0]] + opts[1..] == opts;
    }
  }

  /** The detail fields the settings screen offers a switch for: `keys` without "Poster". */
  function WithoutPoster(ks: seq<string>): (r: seq<string>)
    ensures forall k :: k in r <==> k in ks && k != "Poster"
  {
    if ks == [] then [] else (if ks[0] == "Poster" then [] else [ks[0]]) + WithoutPoster(ks[1..])
  }

  /** One switch per offered field, in the order of `keys`, showing the field's current value. */
  function Switches(opts: DisplayOptions): (r: seq<Entry>)
    ensures |r| == |WithoutPoster(Keys)|
    ensures forall i :: 0 <= i < |r| ==> r[i] == Entry(WithoutPoster(Keys)[i], Lookup(opts, WithoutPoster(Keys)[i]))
  {
    var offered := WithoutPoster(Keys);
    seq(|offered|, i requires 0 <= i < |offered| => Entry(offered[i], Lookup(opts, offered[i])))
  }

  lemma OfferedFields()
    ensures WithoutPoster(Keys) == ["Title", "Released", "Runtime", "Genre", "Director", "Plot", "Language", "Country", "BoxOffice"]
  {
  }

  /** Pressing switch `i` flips that switch; the switch of every other field keeps its value. */
  lemma SwitchFlipsOnlyItself(opts: DisplayOptions, i: nat)
    requires i < |WithoutPoster(Keys)|
    ensures var after := Switches(Toggle(opts, WithoutPoster(Keys)[i]));
      && after[i].enabled == !Switches(opts)[i].enabled
      && forall j :: 0 <= j < |after| && WithoutPoster(Keys)[j] != WithoutPoster(Keys)[i] ==> after[j] == Switches(opts)[j]
  {
  }

  /** The options App.js starts with. */
  const InitialDisplayOptions: DisplayOptions :=
    [Entry("Title", true), Entry("Released", true), Entry("Director", true), Entry("Runtime", true), Entry("Plot", true)]

  /** Every key the detail screen could show is a field `fetchMovieData` returns. */
  predicate KnownKeys(opts: DisplayOptions)
  {
    forall i :: 0 <= i < |opts| ==> opts[i].key in Keys
  }

  /** The initial options hold each key once, all of them fields of `keys`, and none of them "Poster". */
  lemma InitialOptionsWellFormed()
    ensures DistinctKeys(InitialDisplayOptions) && KnownKeys(InitialDisplayOptions)
    ensures !Lookup(InitialDisplayOptions, "Poster")
  {
  }

  /** Flipping an offered switch adds no key outside `keys`. */
  lemma ToggleKeepsKnownKeys(opts: DisplayOptions, key: string)
    requires KnownKeys(opts) && key in WithoutPoster(Keys)
    ensures KnownKeys(Toggle(opts, key))
  {
    var r := Toggle(opts, key);
    ToggleKeys(opts, key);
    forall i | 0 <= i < |r| ensures r[i].key in Keys {
      assert r[i].key == KeysOf(r)[i];
      if i < |opts| {
        assert KeysOf(r)[i] == KeysOf(opts)[i] == opts[i].key;
      }
    }
  }
}
