/**
 * movieApi.js: the catalog client. The network fetch and the JSON body decoding
 * are an oracle parameter; what is modelled is the query normalisation, the
 * `Response === 'False'` check, the projection onto `keys` and the reordering
 * of the `Released` field.
 */
module MovieApi {
  import opened Wrappers

  /** One element of a search response's `Search` array. */
  datatype SearchItem = SearchItem(title: string, year: string, imdbID: string, kind: string, poster: string)

  /** A decoded catalog response: its top-level string members and, for a search, its `Search` array if present. */
  datatype CatalogResponse = CatalogResponse(fields: map<string, string>, search: Option<seq<SearchItem>>)

  /** The members `fetchMovieData` keeps, in this order. */
  const Keys: seq<string> := ["Title", "Released", "Runtime", "Genre", "Director", "Plot", "Language", "Country", "BoxOffice", "Poster"]

  // ---------------------------------------------------------------- title normalisation

  /** ECMAScript WhiteSpace and LineTerminator: what both `trim` and `\s` match. */
  predicate IsWhitespace(c: char)
  {
    var n := c as int;
    || n == 0x09 || n == 0x0A || n == 0x0B || n == 0x0C || n == 0x0D || n == 0x20 || n == 0xA0
    || n == 0x1680 || (0x2000 <= n <= 0x200A) || n == 0x2028 || n == 0x2029 || n == 0x202F
    || n == 0x205F || n == 0x3000 || n == 0xFEFF
  }

  /** The number of leading whitespace characters. */
  function LeadingSpaces(s: string): (n: nat)
    ensures n <= |s|
    ensures forall k :: 0 <= k < n ==> IsWhitespace(s[k])
    ensures n < |s| ==> !IsWhitespace(s[n])
  {
    if s != [] && IsWhitespace(s[0]) then
      var n := LeadingSpaces(s[1..]);
      assert forall k :: 1 <= k < n + 1 ==> s[k] == s[1..][k - 1];
      n + 1
    else 0
  }

  /** The number of trailing whitespace characters of `s[lo..]`. */
  function TrailingSpaces(s: string, lo: nat): (n: nat)
    requires lo <= |s|
    ensures n <= |s| - lo
    ensures forall k :: |s| - n <= k < |s| ==> IsWhitespace(s[k])
    ensures lo + n < |s| ==> !IsWhitespace(s[|s| - n - 1])
  {
    if |s| > lo && IsWhitespace(s[|s| - 1]) then
      var n := TrailingSpaces(s[..|s| - 1], lo);
      assert forall k :: |s| - n - 1 <= k < |s| - 1 ==> s[k] == s[..|s| - 1][k];
      n + 1
    else 0
  }

  /** Where the trimmed text ends: after the last non-whitespace character. */
  function TrimEnd(s: string): (j: nat)
    ensures LeadingSpaces(s) <= j <= |s|
  {
    |s| - TrailingSpaces(s, LeadingSpaces(s))
  }

  /** `String.prototype.trim`. */
  function Trim(s: string): string
  {
    s[LeadingSpaces(s)..TrimEnd(s)]
  }

  /** `replace(/\s/g, '+')`. */
  function PlusForWhitespace(s: string): (r: string)
    ensures |r| == |s|
    ensures forall k :: 0 <= k < |s| ==> r[k] == if IsWhitespace(s[k]) then '+' else s[k]
  {
    if s == [] then [] else [if IsWhitespace(s[0]) then '+' else s[0]] + PlusForWhitespace(s[1..])
  }

  /** `title.trim().replace(/\s/g, '+')`, the title as it goes into the request URL. */
  function NormalizeTitle(title: string): string
  {
    PlusForWhitespace(Trim(title))
  }

  /**
   * The normalised title is the title with its leading and trailing whitespace cut
   * off (so it starts and ends with a non-whitespace character of the title) and
   * every inner whitespace character turned into '+'.
   */
  lemma NormalizeTitleSpec(title: string)
    ensures var i := LeadingSpaces(title);
      var j := TrimEnd(title);
      var r := NormalizeTitle(title);
      && 0 <= i <= j <= |title|
      && (forall k :: 0 <= k < i ==> IsWhitespace(title[k]))
      && (forall k :: j <= k < |title| ==> IsWhitespace(title[k]))
      && (i < j ==> !IsWhitespace(title[i]) && !IsWhitespace(title[j - 1]))
      && |r| == j - i
      && (forall k :: 0 <= k < |r| ==> r[k] == if IsWhitespace(title[i + k]) then '+' else title[i + k])
  {
    TrimmedAt(title);
  }

  /** The normalised title contains no whitespace at all. */
  lemma NormalizeTitleNoWhitespace(title: string)
    ensures forall k :: 0 <= k < |NormalizeTitle(title)| ==> !IsWhitespace(NormalizeTitle(title)[k])
  {
    var r := NormalizeTitle(title);
    forall k | 0 <= k < |r| ensures !IsWhitespace(r[k]) {
      assert r[k] == if IsWhitespace(Trim(title)[k]) then '+' else Trim(title)[k];
    }
  }

  /** The trimmed text is the title between the two cut points. */
  lemma TrimmedAt(title: string)
    ensures |Trim(title)| == TrimEnd(title) - LeadingSpaces(title)
    ensures forall k :: 0 <= k < |Trim(title)| ==> Trim(title)[k] == title[LeadingSpaces(title) + k]
  {
  }

  // ---------------------------------------------------------------- responses

  /** `json.Response === 'False'`. */
  predicate IsFalse(json: CatalogResponse)
  {
    "Response" in json.fields && json.fields["Response"] == "False"
  }

  /** `new Error(json.Error).message`: the text, or "" when `Error` is missing. */
  function ErrorMessage(json: CatalogResponse): string
  {
    if "Error" in json.fields then json.fields["Error"] else ""
  }

  /** `fetchSearchResults(title, page)`, the network a function of the normalised title and the page. */
  function FetchSearchResults(fetch: (string, nat) -> CatalogResponse, title: string, page: nat): (r: Result<Option<seq<SearchItem>>, string>)
    ensures r.Err? <==> IsFalse(fetch(NormalizeTitle(title), page))
    ensures r.Err? ==> r.error == ErrorMessage(fetch(NormalizeTitle(title), page))
    ensures r.Ok? ==> r.value == fetch(NormalizeTitle(title), page).search
  {
    var json := fetch(NormalizeTitle(title), page);
    if IsFalse(json) then Err(ErrorMessage(json)) else Ok(json.search)
  }

  /** `json[key]`: `None` stands for `undefined`. */
  function Get(json: map<string, string>, key: string): Option<string>
  {
    if key in json then Some(json[key]) else None
  }

  /** `ks.reduce((obj, key) => ({ ...obj, [key]: json[key] }), {})`. */
  function Pick(json: map<string, string>, ks: seq<string>): (r: map<string, Option<string>>)
    ensures r.Keys == set k | k in ks
    ensures forall k :: k in ks ==> r[k] == Get(json, k)
  {
    if ks == [] then map[]
    else
      var last := ks[|ks| - 1];
      var acc := Pick(json, ks[..|ks| - 1]);
      assert forall k :: k in ks ==> k in ks[..|ks| - 1] || k == last;
      acc[last := Get(json, last)]
  }

  // ---------------------------------------------------------------- the release date

  /** `s.split(' ')`: the maximal runs between single spaces, empty runs included. */
  function Split(s: string): (r: seq<string>)
    ensures |r| >= 1
    ensures forall k :: 0 <= k < |r| ==> ' ' !in r[k]
  {
    if s == [] then [""]
    else
      var rest := Split(s[1..]);
      if s[0] == ' ' then [""] + rest
      else [[s[0]] + rest[0]] + rest[1..]
  }

  /** Joining the tokens back with single spaces gives the input. */
  function Join(ts: seq<string>): string
    requires |ts| >= 1
  {
    if |ts| == 1 then ts[0] else ts[0] + " " + Join(ts[1..])
  }

  lemma {:induction false} JoinSplit(s: string)
    ensures Join(Split(s)) == s
  {
    if s != [] {
      JoinSplit(s[1..]);
      var rest := Split(s[1..]);
      if s[0] == ' ' {
        assert [""] + rest != [] && ([""] + rest)[1..] == rest;
        assert s == [' '] + s[1..];
      } else {
        var r := [[s[0]] + rest[0]] + rest[1..];
        if |rest| == 1 {
          assert s == [s[0]] + s[1..];
        } else {
          assert r[1..] == rest[1..];
          assert Join(rest) == rest[0] + " " + Join(rest[1..]);
          assert s == [s[0]] + s[1..];
        }
      }
    }
  }

  lemma {:induction false} SplitNoSpace(t: string)
    requires ' ' !in t
    ensures Split(t) == [t]
  {
    if t != [] {
      SplitNoSpace(t[1..]);
      assert [t[0]] + t[1..] == t;
    }
  }

  lemma {:induction false} SplitAfterToken(t: string, u: string)
    requires ' ' !in t
    ensures Split(t + " " + u) == [t] + Split(u)
  {
    if t == [] {
      assert t + " " + u == [' '] + u;
      assert ([' '] + u)[1..] == u;
    } else {
      SplitAfterToken(t[1..], u);
      var s := t + " " + u;
      assert s[0] == t[0] && s[1..] == t[1..] + " " + u;
      assert [t[0]] + t[1..] == t;
    }
  }

  /** `date[i]` in a template literal: a missing element prints as "undefined". */
  function Token(ts: seq<string>, i: nat): string
  {
    if i < |ts| then ts[i] else "undefined"
  }

  /** `${date[1]} ${date[0]}, ${date[2]}` with `date = released.split(' ')`. */
  function ReorderDate(released: string): string
  {
    var date := Split(released);
    Token(date, 1) + " " + Token(date, 0) + ", " + Token(date, 2)
  }

  /** Three space-separated tokens `t0 t1 t2` become `t1 t0, t2` ("12 Oct 2021" becomes "Oct 12, 2021"). */
  lemma ReorderThreeTokens(t0: string, t1: string, t2: string)
    requires ' ' !in t0 && ' ' !in t1 && ' ' !in t2
    ensures ReorderDate(t0 + " " + t1 + " " + t2) == t1 + " " + t0 + ", " + t2
  {
    SplitNoSpace(t2);
    SplitAfterToken(t1, t2);
    assert t0 + " " + t1 + " " + t2 == t0 + " " + (t1 + " " + t2);
    SplitAfterToken(t0, t1 + " " + t2);
  }

  lemma ReorderExample()
    ensures ReorderDate("12 Oct 2021") == "Oct 12, 2021"
  {
    var t0, t1, t2 := "12", "Oct", "2021";
    assert ' ' !in t0 && ' ' !in t1 && ' ' !in t2;
    ReorderThreeTokens(t0, t1, t2);
    assert t0 + " " + t1 + " " + t2 == "12 Oct 2021";
    assert t1 + " " + t0 + ", " + t2 == "Oct 12, 2021";
  }

  /** A date without spaces (OMDb's "N/A") keeps its text in the middle, padded with "undefined". */
  lemma ReorderOneToken(t: string)
    requires ' ' !in t
    ensures ReorderDate(t) == "undefined " + t + ", undefined"
  {
    SplitNoSpace(t);
  }

  // ---------------------------------------------------------------- movie details

  /** How `fetchMovieData` throws: the catalog's error, or `undefined.split` when `Released` is missing. */
  datatype DetailError = CatalogError(message: string) | ReleasedUndefined

  /** `fetchMovieData(id)`. */
  function FetchMovieData(fetch: string -> CatalogResponse, id: string): Result<map<string, Option<string>>, DetailError>
  {
    var json := fetch(id);
    if IsFalse(json) then Err(CatalogError(ErrorMessage(json)))
    else
      var filtered := Pick(json.fields, Keys);
      match filtered["Released"]
      case None => Err(ReleasedUndefined)
      case Some(date) => Ok(filtered["Released" := Some(ReorderDate(date))])
  }

  /**
   * `fetchMovieData` fails with the catalog's error iff `Response` is 'False'; otherwise
   * its object has exactly the members of `Keys`, each copied from the response,
   * except `Released`, which is reordered (and must be present).
   */
  lemma FetchMovieDataSpec(fetch: string -> CatalogResponse, id: string)
    ensures var json := fetch(id);
      var r := FetchMovieData(fetch, id);
      && (IsFalse(json) <==> r == Err(CatalogError(ErrorMessage(json))))
      && (!IsFalse(json) && "Released" !in json.fields <==> r == Err(ReleasedUndefined))
      && (r.Ok? ==>
          && r.value.Keys == set k | k in Keys
          && r.value["Released"] == Some(ReorderDate(json.fields["Released"]))
          && forall k :: k in Keys && k != "Released" ==> r.value[k] == Get(json.fields, k))
  {
    assert "Released" in Keys;
  }
}
