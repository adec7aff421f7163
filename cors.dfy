/**
 * The cross-origin rule of the backend (backend/index.js): the list of allowed
 * origins comes from the `ALLOWED_ORIGINS` environment variable, split on commas,
 * or from a built-in default; a request's `Origin` is accepted when it is missing
 * or when some entry of the list matches it, and a refused origin is answered
 * with status 403.
 *
 * An entry is either `*` (every origin), a prefix pattern ending in `*` (every
 * origin that starts with the entry minus its star), or an exact origin.
 */
module Cors {
  import opened Wrappers

  /** The list used when `ALLOWED_ORIGINS` is unset or empty. */
  const DefaultAllowedOrigins: seq<string> := ["http://localhost:3000", "chrome-extension://*"]

  /** The message of the error the origin check fails with. */
  const CorsNotAllowed: string := "CORS not allowed"

  /** `s.split(sep)` for a one-character separator: the pieces between separators, empty ones included. */
  function SplitOn(s: string, sep: char): (parts: seq<string>)
    ensures |parts| >= 1
    ensures forall i :: 0 <= i < |parts| ==> sep !in parts[i]
    decreases |s|
  {
    if s == [] then [[]]
    else
      var rest := SplitOn(s[1..], sep);
      if s[0] == sep then [[]] + rest else [[s[0]] + rest[0]] + rest[1..]
  }

  /** `parts.join(sep)`. */
  function JoinWith(parts: seq<string>, sep: char): string
    decreases |parts|
  {
    if |parts| == 0 then []
    else if |parts| == 1 then parts[0]
    else parts[0] + [sep] + JoinWith(parts[1..], sep)
  }

  /** Splitting loses nothing: joining the pieces with the separator gives back the string. */
  lemma {:induction false} JoinSplit(s: string, sep: char)
    ensures JoinWith(SplitOn(s, sep), sep) == s
    decreases |s|
  {
    if s != [] {
      JoinSplit(s[1..], sep);
      var rest := SplitOn(s[1..], sep);
      if s[0] == sep {
        assert SplitOn(s, sep) == [[]] + rest;
        assert JoinWith([[]] + rest, sep) == [] + [sep] + JoinWith(rest, sep) by {
          assert ([[]] + rest)[1..] == rest;
        }
      } else if |rest| == 1 {
        assert SplitOn(s, sep) == [[s[0]] + rest[0]];
      } else {
        var parts := SplitOn(s, sep);
        assert parts == [[s[0]] + rest[0]] + rest[1..];
        assert parts[1..] == rest[1..];
        assert JoinWith(rest, sep) == rest[0] + [sep] + JoinWith(rest[1..], sep);
        assert s == [s[0]] + s[1..];
      }
    }
  }

  /** A string without the separator, followed by the separator and a tail, splits into that string and the tail's pieces. */
  lemma {:induction false} SplitAtSeparator(p: string, t: string, sep: char)
    requires sep !in p
    ensures SplitOn(p + [sep] + t, sep) == [p] + SplitOn(t, sep)
    decreases |p|
  {
    if p == [] {
      assert p + [sep] + t == [sep] + t;
      assert ([sep] + t)[1..] == t;
    } else {
      SplitAtSeparator(p[1..], t, sep);
      assert (p + [sep] + t)[1..] == p[1..] + [sep] + t;
      assert [p[0]] + p[1..] == p;
    }
  }

  /** A string without the separator splits into itself. */
  lemma {:induction false} SplitNoSeparator(p: string, sep: char)
    requires sep !in p
    ensures SplitOn(p, sep) == [p]
    decreases |p|
  {
    if p != [] {
      SplitNoSeparator(p[1..], sep);
      assert [p[0]] + p[1..] == p;
    }
  }

  /** Joining pieces free of the separator and splitting again gives back the pieces. */
  lemma {:induction false} SplitJoin(parts: seq<string>, sep: char)
    requires |parts| >= 1
    requires forall i :: 0 <= i < |parts| ==> sep !in parts[i]
    ensures SplitOn(JoinWith(parts, sep), sep) == parts
    decreases |parts|
  {
    if |parts| == 1 {
      SplitNoSeparator(parts[0], sep);
    } else {
      SplitJoin(parts[1..], sep);
      SplitAtSeparator(parts[0], JoinWith(parts[1..], sep), sep);
      assert [parts[0]] + parts[1..] == parts;
    }
  }

  /**
   * `process.env.ALLOWED_ORIGINS ? process.env.ALLOWED_ORIGINS.split(",") : default`:
   * an unset or empty variable gives the default list, any other value its
   * comma-separated pieces, untrimmed.
   */
  function AllowedOrigins(env: Option<string>): (entries: seq<string>)
    ensures env.None? || env.value == [] ==> entries == DefaultAllowedOrigins
    ensures env.Some? && env.value != [] ==> JoinWith(entries, ',') == env.value && forall i :: 0 <= i < |entries| ==> ',' !in entries[i]
  {
    if env.Some? && env.value != [] then
      JoinSplit(env.value, ',');
      SplitOn(env.value, ',')
    else DefaultAllowedOrigins
  }

  /** One entry of the list against an origin. */
  predicate EntryMatches(entry: string, origin: string) {
    if entry == "*" then true
    else if |entry| > 0 && entry[|entry| - 1] == '*' then entry[..|entry| - 1] <= origin
    else entry == origin
  }

  /** `entries.some(...)`: the entries are tried in order until one matches. */
  function AnyEntryMatches(entries: seq<string>, origin: string): (b: bool)
    ensures b <==> exists i :: 0 <= i < |entries| && EntryMatches(entries[i], origin)
    decreases |entries|
  {
    if entries == [] then false
    else if EntryMatches(entries[0], origin) then true
    else
      var b := AnyEntryMatches(entries[1..], origin);
      assert forall i :: 1 <= i < |entries| ==> entries[i] == entries[1..][i - 1];
      b
  }

  datatype Decision = Allow | Deny(error: string)

  /**
   * The `origin` callback: a request without an `Origin` (missing or empty) is
   * allowed; otherwise it is allowed exactly when some entry matches, and refused
   * with the error "CORS not allowed".
   */
  function CheckOrigin(origin: Option<string>, entries: seq<string>): (d: Decision)
    ensures d == Allow <==>
              origin.None? || origin.value == [] ||
              exists i :: 0 <= i < |entries| && EntryMatches(entries[i], origin.value)
    ensures d.Deny? ==> d.error == CorsNotAllowed
  {
    if origin.None? || origin.value == [] then Allow
    else if AnyEntryMatches(entries, origin.value) then Allow
    else Deny(CorsNotAllowed)
  }

  /** The status the error handler answers an error with. */
  function ErrorStatus(message: string): int {
    if message == CorsNotAllowed then 403 else 500
  }

  /** A refused origin is answered with 403, never with the generic 500. */
  lemma DeniedIsForbidden(origin: Option<string>, entries: seq<string>)
    ensures CheckOrigin(origin, entries).Deny? ==> ErrorStatus(CheckOrigin(origin, entries).error) == 403
  {
  }

  /** A request without an `Origin` header is always allowed, whatever the list. */
  lemma MissingOriginAllowed(entries: seq<string>)
    ensures CheckOrigin(None, entries) == Allow
    ensures CheckOrigin(Some([]), entries) == Allow
  {
  }

  /** An entry that is exactly `*` allows every origin. */
  lemma WildcardAllowsAll(origin: Option<string>, entries: seq<string>)
    requires "*" in entries
    ensures CheckOrigin(origin, entries) == Allow
  {
    if origin.Some? && origin.value != [] {
      var i :| 0 <= i < |entries| && entries[i] == "*";
      assert EntryMatches(entries[i], origin.value);
    }
  }

  /** An entry ending in `*` allows exactly the origins that start with the entry minus its star. */
  lemma PrefixEntryRule(entry: string, origin: string)
    requires |entry| > 0 && entry[|entry| - 1] == '*'
    ensures EntryMatches(entry, origin) <==> entry[..|entry| - 1] <= origin
  {
    if entry == "*" {
      assert entry[..|entry| - 1] == [];
    }
  }

  /** Any other entry allows only the origin equal to it. */
  lemma ExactEntryRule(entry: string, origin: string)
    requires |entry| == 0 || entry[|entry| - 1] != '*'
    ensures EntryMatches(entry, origin) <==> entry == origin
  {
  }

  /**
   * With the default list, the local web app and every Chrome extension are
   * allowed, and any other origin is refused with 403.
   */
  lemma DefaultListDecisions()
    ensures CheckOrigin(Some("chrome-extension://abc"), AllowedOrigins(None)) == Allow
    ensures CheckOrigin(Some("http://localhost:3000"), AllowedOrigins(Some(""))) == Allow
    ensures CheckOrigin(Some("http://localhost:3001"), AllowedOrigins(None)) == Deny(CorsNotAllowed)
    ensures ErrorStatus(CheckOrigin(Some("https://example.com"), AllowedOrigins(None)).error) == 403
  {
    var d := DefaultAllowedOrigins;
    assert EntryMatches(d[1], "chrome-extension://abc") by {
      assert d[1][..|d[1]| - 1] == "chrome-extension://";
      assert "chrome-extension://abc"[..19] == "chrome-extension://";
    }
    assert !EntryMatches(d[1], "http://localhost:3001") by {
      assert d[1][..|d[1]| - 1] == "chrome-extension://";
      assert "http://localhost:3001"[0] != 'c';
    }
    assert !EntryMatches(d[1], "https://example.com") by {
      assert d[1][..|d[1]| - 1] == "chrome-extension://";
      assert "https://example.com"[0] != 'c';
    }
  }

  /** "http://a.com, http://b.com" splits into "http://a.com" and " http://b.com", blank kept. */
  lemma SplitKeepsBlanks()
    ensures AllowedOrigins(Some("http://a.com, http://b.com")) == ["http://a.com", " http://b.com"]
  {
    var a, b := "http://a.com", " http://b.com";
    var parts := [a, b];
    assert ',' !in a && ',' !in b;
    assert JoinWith(parts, ',') == a + [','] + b by {
      assert parts[1..] == [b];
    }
    assert a + [','] + b == "http://a.com, http://b.com";
    SplitJoin(parts, ',');
  }

  /**
   * The pieces of `ALLOWED_ORIGINS` are not trimmed: with "http://a.com, http://b.com"
   * the second entry keeps its leading blank, so "http://b.com" is refused.
   */
  lemma EntriesAreNotTrimmed()
    ensures CheckOrigin(Some("http://b.com"), AllowedOrigins(Some("http://a.com, http://b.com"))) == Deny(CorsNotAllowed)
  {
    SplitKeepsBlanks();
    BlankEntryRefuses();
  }

  /** Neither "http://a.com" nor " http://b.com" matches the origin "http://b.com". */
  lemma BlankEntryRefuses()
    ensures CheckOrigin(Some("http://b.com"), ["http://a.com", " http://b.com"]) == Deny(CorsNotAllowed)
  {
    var a, b, origin := "http://a.com", " http://b.com", "http://b.com";
    assert !EntryMatches(a, origin) by {
      assert a[7] != origin[7];
    }
    assert !EntryMatches(b, origin) by {
      assert |b| != |origin|;
    }
    assert !AnyEntryMatches([a, b], origin);
  }
}
