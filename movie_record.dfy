/**
 * The four-field movie record that the app stores in the `movieData` column,
 * and its string form. The app writes the record with `JSON.stringify` and reads
 * it back with `JSON.parse`; here the writer is a concrete encoder that follows
 * the shape `JSON.stringify` gives a flat object of strings (keys in the fixed
 * order Title, Year, imdbID, Poster; string escapes as in ECMAScript's
 * QuoteJSONString), and the reader parses exactly that layout.
 */
module MovieRecord {
  import opened Wrappers

  /** `{ Title, Year, imdbID, Poster }`, the record a list stores. */
  datatype MovieSummary = MovieSummary(title: string, year: string, imdbID: string, poster: string)

  // ---------------------------------------------------------------- hex digits

  function HexDigit(d: nat): (c: char)
    requires d < 16
  {
    if d < 10 then ('0' as int + d) as char else ('a' as int + d - 10) as char
  }

  function HexValue(c: char): Option<nat>
  {
    if '0' <= c <= '9' then Some(c as int - '0' as int)
    else if 'a' <= c <= 'f' then Some(c as int - 'a' as int + 10)
    else if 'A' <= c <= 'F' then Some(c as int - 'A' as int + 10)
    else None
  }

  /** The value of four hex digits, as in a `\uXXXX` escape. */
  function HexQuad(t: string): (v: Option<nat>)
    requires |t| == 4
    ensures v.Some? ==> v.value < 0x10000
  {
    match (HexValue(t[0]), HexValue(t[1]), HexValue(t[2]), HexValue(t[3]))
    case (Some(a), Some(b), Some(c), Some(d)) =>
      if a < 16 && b < 16 && c < 16 && d < 16 then Some(((a * 16 + b) * 16 + c) * 16 + d) else None
    case _ => None
  }

  // ---------------------------------------------------------------- writing

  /** The escape `JSON.stringify` writes for one character of a string value. */
  function EscapeChar(c: char): string
  {
    var n := c as int;
    if n == 0x22 then ['\\', '"']
    else if n == 0x5C then ['\\', '\\']
    else if n == 0x08 then ['\\', 'b']
    else if n == 0x0C then ['\\', 'f']
    else if n == 0x0A then ['\\', 'n']
    else if n == 0x0D then ['\\', 'r']
    else if n == 0x09 then ['\\', 't']
    else if n < 0x20 then ['\\', 'u', '0', '0', HexDigit(n / 16), HexDigit(n % 16)]
    else [c]
  }

  function Escape(s: string): string
  {
    if s == [] then [] else EscapeChar(s[0]) + Escape(s[1..])
  }

  function Quote(s: string): string
  {
    "\"" + Escape(s) + "\""
  }

  /** One `"key":"value"` member (the literal carries the key and its punctuation), then the rest. */
  function Member(lit: string, value: string, rest: string): string
  {
    lit + Quote(value) + rest
  }

  const TitleLit := "{\"Title\":"
  const YearLit := ",\"Year\":"
  const ImdbLit := ",\"imdbID\":"
  const PosterLit := ",\"Poster\":"

  /** `JSON.stringify(movieData)` for the record built in components/SearchResults.js. */
  function Encode(m: MovieSummary): string
  {
    Member(TitleLit, m.title, Member(YearLit, m.year, Member(ImdbLit, m.imdbID, Member(PosterLit, m.poster, "}"))))
  }

  // ---------------------------------------------------------------- reading

  function UnescapeSimple(e: char): Option<char>
  {
    if e == '"' then Some('"')
    else if e == '\\' then Some('\\')
    else if e == '/' then Some('/')
    else if e == 'b' then Some(0x08 as char)
    else if e == 'f' then Some(0x0C as char)
    else if e == 'n' then Some(0x0A as char)
    else if e == 'r' then Some(0x0D as char)
    else if e == 't' then Some(0x09 as char)
    else None
  }

  function Prepend(c: char, r: Option<(string, string)>): Option<(string, string)>
  {
    match r
    case None => None
    case Some((s, rest)) => Some(([c] + s, rest))
  }

  /**
   * Reads the body of a JSON string up to and including its closing quote;
   * gives the decoded characters and what follows the quote.
   */
  function ParseChars(t: string): Option<(string, string)>
    decreases |t|
  {
    if |t| == 0 then None
    else if t[0] == '"' then Some(("", t[1..]))
    else if t[0] == '\\' then
      if |t| < 2 then None
      else if t[1] == 'u' then
        if |t| < 6 then None
        else match HexQuad(t[2..6])
          case None => None
          case Some(v) =>
            // a lone UTF-16 surrogate has no `char` counterpart
            if 0xD800 <= v < 0xE000 then None else Prepend(v as char, ParseChars(t[6..]))
      else match UnescapeSimple(t[1])
        case None => None
        case Some(c) => Prepend(c, ParseChars(t[2..]))
    else if (t[0] as int) < 0x20 then None
    else Prepend(t[0], ParseChars(t[1..]))
  }

  function ParseMember(lit: string, t: string): Option<(string, string)>
  {
    if lit <= t && |t| > |lit| && t[|lit|] == '"' then ParseChars(t[|lit| + 1..]) else None
  }

  /** `JSON.parse` restricted to the layout `Encode` writes; `None` where `JSON.parse` would throw or the layout differs. */
  function Decode(s: string): Option<MovieSummary>
  {
    match ParseMember(TitleLit, s)
    case None => None
    case Some((title, r1)) =>
      match ParseMember(YearLit, r1)
      case None => None
      case Some((year, r2)) =>
        match ParseMember(ImdbLit, r2)
        case None => None
        case Some((imdbID, r3)) =>
          match ParseMember(PosterLit, r3)
          case None => None
          case Some((poster, r4)) =>
            if r4 == "}" then Some(MovieSummary(title, year, imdbID, poster)) else None
  }

  // ---------------------------------------------------------------- round trip

  lemma HexDigitValue(d: nat)
    requires d < 16
    ensures HexValue(HexDigit(d)) == Some(d)
  {
  }

  /** Reading one escaped character back gives that character, whatever follows. */
  lemma ParseEscapeChar(c: char, t: string)
    ensures ParseChars(EscapeChar(c) + t) == Prepend(c, ParseChars(t))
  {
    var n := c as int;
    var u := EscapeChar(c) + t;
    if n == 0x22 || n == 0x5C || n == 0x08 || n == 0x0C || n == 0x0A || n == 0x0D || n == 0x09 {
      assert u[2..] == t;
      assert (n as char) == c;
    } else if n < 0x20 {
      assert u[6..] == t;
      HexDigitValue(n / 16);
      HexDigitValue(n % 16);
      assert u[2..6] == ['0', '0', HexDigit(n / 16), HexDigit(n % 16)];
      assert HexQuad(u[2..6]) == Some(n);
    } else {
      assert u[1..] == t;
    }
  }

  lemma {:induction false} ParseEscaped(s: string, t: string)
    ensures ParseChars(Escape(s) + "\"" + t) == Some((s, t))
  {
    if s == [] {
      assert Escape(s) + "\"" + t == "\"" + t;
      assert ("\"" + t)[1..] == t;
    } else {
      var tail := Escape(s[1..]) + "\"" + t;
      assert Escape(s) + "\"" + t == EscapeChar(s[0]) + tail;
      ParseEscapeChar(s[0], tail);
      ParseEscaped(s[1..], t);
      assert [s[0]] + s[1..] == s;
    }
  }

  lemma ParseMemberOf(lit: string, value: string, rest: string)
    ensures ParseMember(lit, Member(lit, value, rest)) == Some((value, rest))
  {
    var t := Member(lit, value, rest);
    assert t[..|lit|] == lit;
    assert t[|lit| + 1..] == Escape(value) + "\"" + rest;
    ParseEscaped(value, rest);
  }

  /** Decoding inverts encoding: `JSON.parse(JSON.stringify(m))` gives `m` back. */
  lemma DecodeEncode(m: MovieSummary)
    ensures Decode(Encode(m)) == Some(m)
  {
    var r4 := "}";
    var r3 := Member(PosterLit, m.poster, r4);
    var r2 := Member(ImdbLit, m.imdbID, r3);
    var r1 := Member(YearLit, m.year, r2);
    ParseMemberOf(TitleLit, m.title, r1);
    ParseMemberOf(YearLit, m.year, r2);
    ParseMemberOf(ImdbLit, m.imdbID, r3);
    ParseMemberOf(PosterLit, m.poster, r4);
  }

  /** Equal serialisations mean equal records, so comparing `movieData` strings compares movies. */
  lemma EncodeInjective(a: MovieSummary, b: MovieSummary)
    ensures Encode(a) == Encode(b) <==> a == b
  {
    if Encode(a) == Encode(b) {
      DecodeEncode(a);
      DecodeEncode(b);
    }
  }
}
