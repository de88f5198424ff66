/**
 * The script's cookie handling: reading one cookie out of the
 * `document.cookie` header (`getCookies`) and building the string that
 * `setCookies` assigns to `document.cookie`.
 *
 * The browser's `document.cookie` is the parameter `jar`; the clock is the
 * parameter `now` (milliseconds since the epoch) and `Date.toUTCString` is
 * the uninterpreted parameter `utc`.
 */
module Cookies {
  import opened Optional
  import opened Text

  // ---------------------------------------------------------------------
  // Reading: getCookies
  // ---------------------------------------------------------------------

  /** The entries of a cookie header, as `split("; ")` yields them. */
  function Entries(jar: string): (entries: seq<string>)
    ensures |entries| >= 1
  {
    Split(jar, "; ")
  }

  /** Entry `i` is the first of `rows` that starts with `prefix`. */
  predicate IsFirstMatch(rows: seq<string>, prefix: string, i: int) {
    && 0 <= i < |rows|
    && StartsWith(rows[i], prefix)
    && forall j :: 0 <= j < i ==> !StartsWith(rows[j], prefix)
  }

  /** `rows.find(row => row.startsWith(prefix))`, by position. */
  function FindFirst(rows: seq<string>, prefix: string): (r: Option<nat>)
    ensures r.Some? ==> IsFirstMatch(rows, prefix, r.value)
    ensures r.None? <==> forall j :: 0 <= j < |rows| ==> !StartsWith(rows[j], prefix)
  {
    if |rows| == 0 then None
    else if StartsWith(rows[0], prefix) then Some(0)
    else
      match FindFirst(rows[1..], prefix)
      case None => None
      case Some(i) => Some(i + 1)
  }

  /** `v` follows the `=` at position `i`, the first `=` of `row`, and
      runs up to the next `=` or to the end of `row`. */
  predicate FieldAt(row: string, i: int, v: string) {
    && 0 <= i < |row| && row[i] == '=' && '=' !in row[..i]
    && i + 1 + |v| <= |row| && row[i + 1..i + 1 + |v|] == v && '=' !in v
    && (i + 1 + |v| == |row| || row[i + 1 + |v|] == '=')
  }

  /** `v` is the text of `row` between its first `=` and the next `=`
      (or the end of `row` when there is no second `=`). */
  ghost predicate IsSecondField(row: string, v: string) {
    exists i :: FieldAt(row, i, v)
  }

  /** The first piece of a split on `=` runs up to the first `=` or to the end. */
  lemma FirstPieceShape(s: string)
    ensures '=' !in Split(s, "=")[0]
    ensures s == Split(s, "=")[0] + s[|Split(s, "=")[0]|..]
    ensures |Split(s, "=")[0]| == |s| || s[|Split(s, "=")[0]|] == '='
  {
    var piece := Split(s, "=")[0];
    ContainsChar(piece, '=');
    match IndexOf(s, "=")
    case None =>
    case Some(j) =>
      SplitAt(s, "=", j);
      BeforeFirstIsFree(s, "=", j);
      assert s[j..j + 1] == "=";
  }

  /** What the first `=` of a row, at `i`, tells about the row's split. */
  lemma FirstEquals(row: string, i: nat)
    requires IndexOf(row, "=") == Some(i)
    ensures i < |row| && row[i] == '=' && '=' !in row[..i]
    ensures Split(row, "=") == [row[..i]] + Split(row[i + 1..], "=")
  {
    SplitAt(row, "=", i);
    OccursAtChar(row, '=', i);
    BeforeFirstIsFree(row, "=", i);
    ContainsChar(row[..i], '=');
  }

  /** A field that starts right after the first `=` and is the first piece
      of the rest of the row is the row's second field. */
  lemma FieldAfterFirstEquals(row: string, i: nat)
    requires i < |row| && row[i] == '=' && '=' !in row[..i]
    ensures FieldAt(row, i, Split(row[i + 1..], "=")[0])
  {
    var tail := row[i + 1..];
    var v := Split(tail, "=")[0];
    FirstPieceShape(tail);
    assert row[i + 1..i + 1 + |v|] == tail[..|v|] == v;
    assert i + 1 + |v| < |row| ==> row[i + 1 + |v|] == tail[|v|];
  }

  /** `row.split("=")[1]` is the second field of any row holding a `=`. */
  lemma SecondFieldOfSplit(row: string)
    requires '=' in row
    ensures |Split(row, "=")| >= 2
    ensures IsSecondField(row, Split(row, "=")[1])
  {
    ContainsChar(row, '=');
    var i := IndexOf(row, "=").value;
    FirstEquals(row, i);
    FieldAfterFirstEquals(row, i);
  }

  /** An entry that starts with `name=` holds a `=`. */
  lemma PrefixedHasEquals(row: string, name: string)
    requires StartsWith(row, name + "=")
    ensures '=' in row
  {
    assert row[|name|] == row[..|name| + 1][|name|];
  }

  /** `getCookies(name)` over the cookie header `jar`: the second field of
      the first entry that starts with `name=`, and nothing when no entry
      does (never an empty string in that case). */
  function GetCookie(jar: string, name: string): (r: Option<string>)
    ensures r.Some? <==> exists i :: 0 <= i < |Entries(jar)| && StartsWith(Entries(jar)[i], name + "=")
    ensures r.Some? ==> exists i :: IsFirstMatch(Entries(jar), name + "=", i) && IsSecondField(Entries(jar)[i], r.value)
  {
    var entries := Entries(jar);
    match FindFirst(entries, name + "=")
    case None => None
    case Some(i) =>
      PrefixedHasEquals(entries[i], name);
      SecondFieldOfSplit(entries[i]);
      var fields := Split(entries[i], "=");
      if |fields| > 1 then Some(fields[1]) else None
  }

  /** The first match is unique. */
  lemma FirstMatchUnique(rows: seq<string>, prefix: string, i: int, k: int)
    ensures IsFirstMatch(rows, prefix, i) && IsFirstMatch(rows, prefix, k) ==> i == k
  {
  }

  /** When entry `i` is the first to start with `name=`, the lookup is that
      entry's `split("=")[1]`. */
  lemma GetCookieAt(jar: string, name: string, i: int)
    requires IsFirstMatch(Entries(jar), name + "=", i)
    ensures |Split(Entries(jar)[i], "=")| >= 2
    ensures GetCookie(jar, name) == Some(Split(Entries(jar)[i], "=")[1])
  {
    var entries := Entries(jar);
    PrefixedHasEquals(entries[i], name);
    SecondFieldOfSplit(entries[i]);
    var found := FindFirst(entries, name + "=");
    FirstMatchUnique(entries, name + "=", i, found.value);
  }

  /** A `=`-free key before the first `=` is the first piece of the split. */
  lemma SplitAfterKey(key: string, tail: string)
    requires '=' !in key
    ensures Split(key + "=" + tail, "=") == [key] + Split(tail, "=")
  {
    var row := key + "=" + tail;
    ContainsChar(key, '=');
    FirstOccurrenceAfterFree(key, "=", tail);
    SplitAt(row, "=", |key|);
    assert row[..|key|] == key;
    assert row[|key| + 1..] == tail;
  }

  /** A `=`-free string splits into itself alone. */
  lemma SplitWithoutEquals(s: string)
    requires '=' !in s
    ensures Split(s, "=") == [s]
  {
    ContainsChar(s, '=');
    assert IndexOf(s, "=").None?;
  }

  /** The first piece of splitting `value + rest` on `=`, for a `=`-free
      `value` followed by nothing or by a `=`. */
  lemma FirstPiece(value: string, rest: string)
    requires '=' !in value
    requires rest == [] || rest[0] == '='
    ensures Split(value + rest, "=")[0] == value
  {
    if rest == [] {
      assert value + rest == value;
      SplitWithoutEquals(value);
    } else {
      assert value + rest == value + "=" + rest[1..];
      SplitAfterKey(value, rest[1..]);
    }
  }

  /** `key=value` followed by nothing or by another `=` splits on `=` with
      `value` at index 1. */
  lemma SplitField(key: string, value: string, rest: string)
    requires '=' !in key && '=' !in value
    requires rest == [] || rest[0] == '='
    ensures |Split(key + "=" + value + rest, "=")| >= 2
    ensures Split(key + "=" + value + rest, "=")[1] == value
  {
    var tail := value + rest;
    assert key + "=" + value + rest == key + "=" + tail;
    SplitAfterKey(key, tail);
    FirstPiece(value, rest);
  }

  /** What a key must look like for an entry to start with `name=`. */
  lemma PrefixedKey(key: string, rest: string, name: string)
    requires StartsWith(key + "=" + rest, name + "=")
    ensures |key| < |name| ==> name[|key|] == '='
    ensures |name| < |key| ==> key[|name|] == '='
    ensures |key| == |name| ==> key == name
  {
    var row := key + "=" + rest;
    var p := name + "=";
    assert row[..|p|] == p;
    if |key| < |name| {
      assert p[|key|] == row[..|p|][|key|] == row[|key|];
    } else if |name| < |key| {
      assert key[|name|] == row[|name|] == row[..|p|][|name|];
    } else {
      assert key == row[..|key|] == p[..|name|];
    }
  }

  /** An entry `key=...` starts with `name=` exactly when its key is
      `name`: looking up `a` does not match the entry `ab=1`. */
  lemma KeyMatchIsExact(key: string, rest: string, name: string)
    requires '=' !in key && '=' !in name
    ensures StartsWith(key + "=" + rest, name + "=") <==> key == name
  {
    if key == name {
      assert (key + "=" + rest)[..|name| + 1] == name + "=";
    }
    if StartsWith(key + "=" + rest, name + "=") {
      PrefixedKey(key, rest, name);
    }
  }

  /** The header whose first entry is `name=a=b` yields `a` for `name`:
      a value holding `=` is cut at that `=`. */
  lemma ValueCutAtSecondEquals(name: string, a: string, b: string)
    requires ';' !in name && ';' !in a && ';' !in b
    requires '=' !in name && '=' !in a
    ensures GetCookie(name + "=" + a + "=" + b, name) == Some(a)
  {
    var jar := name + "=" + a + ("=" + b);
    assert jar == name + "=" + a + "=" + b;
    assert Entries(jar) == [jar] by {
      EntriesOfJoin([jar]);
    }
    assert StartsWith(jar, name + "=") by {
      assert jar[..|name| + 1] == name + "=";
    }
    assert IsFirstMatch(Entries(jar), name + "=", 0);
    GetCookieAt(jar, name, 0);
    SplitField(name, a, "=" + b);
  }

  // ---------------------------------------------------------------------
  // The cookie header as a list of name/value pairs
  // ---------------------------------------------------------------------

  datatype Cookie = Cookie(name: string, value: string)

  /** A name or value the header format can carry unambiguously. */
  predicate Plain(s: string) {
    ';' !in s && '=' !in s
  }

  function Pair(c: Cookie): string {
    c.name + "=" + c.value
  }

  /** The header a browser presents for `jar`: `name=value` pairs joined
      with `; `. */
  function Serialize(jar: seq<Cookie>): string {
    Join(seq(|jar|, i requires 0 <= i < |jar| => Pair(jar[i])), "; ")
  }

  /** Reference lookup over the pairs: the value of the first cookie named
      `name`. */
  function Lookup(jar: seq<Cookie>, name: string): (r: Option<string>)
    ensures r.None? <==> forall i :: 0 <= i < |jar| ==> jar[i].name != name
    ensures r.Some? ==> exists i :: (0 <= i < |jar| && jar[i].name == name && r.value == jar[i].value
      && forall j :: 0 <= j < i ==> jar[j].name != name)
  {
    if |jar| == 0 then None
    else if jar[0].name == name then Some(jar[0].value)
    else
      var r := Lookup(jar[1..], name);
      assert forall i :: 1 <= i < |jar| ==> jar[i] == jar[1..][i - 1];
      r
  }

  /** Pieces free of `;` joined with `; ` split back into themselves. */
  lemma EntriesOfJoin(parts: seq<string>)
    requires |parts| >= 1
    requires forall k :: 0 <= k < |parts| ==> ';' !in parts[k]
    ensures Entries(Join(parts, "; ")) == parts
  {
    forall k | 0 <= k < |parts|
      ensures !Contains(parts[k], "; ")
    {
      ContainsFirstChar(parts[k], "; ");
    }
    EntrySeparatorUnbordered();
    JoinSplit(parts, "; ");
  }

  /** The header of `jar` splits back into its pairs. */
  lemma EntriesOfSerialize(jar: seq<Cookie>)
    requires |jar| >= 1
    requires forall i :: 0 <= i < |jar| ==> Plain(jar[i].name) && Plain(jar[i].value)
    ensures Entries(Serialize(jar)) == seq(|jar|, i requires 0 <= i < |jar| => Pair(jar[i]))
  {
    EntriesOfJoin(seq(|jar|, i requires 0 <= i < |jar| => Pair(jar[i])));
  }

  /** In a header of plain pairs, entry `k` starts with `name=` exactly
      when cookie `k` is called `name`. */
  lemma EntryMatchesIffNamed(jar: seq<Cookie>, name: string)
    requires |jar| >= 1
    requires forall i :: 0 <= i < |jar| ==> Plain(jar[i].name) && Plain(jar[i].value)
    requires '=' !in name
    ensures |Entries(Serialize(jar))| == |jar|
    ensures forall k :: 0 <= k < |jar| ==>
      (Entries(Serialize(jar))[k] == Pair(jar[k])
       && (StartsWith(Entries(Serialize(jar))[k], name + "=") <==> jar[k].name == name))
  {
    EntriesOfSerialize(jar);
    forall k | 0 <= k < |jar|
      ensures StartsWith(Pair(jar[k]), name + "=") <==> jar[k].name == name
    {
      KeyMatchIsExact(jar[k].name, jar[k].value, name);
    }
  }

  /** The header of a jar with a cookie called `name` yields the value of
      the first such cookie. */
  lemma LookupSerializedFound(jar: seq<Cookie>, name: string, m: int)
    requires forall i :: 0 <= i < |jar| ==> Plain(jar[i].name) && Plain(jar[i].value)
    requires '=' !in name
    requires 0 <= m < |jar| && jar[m].name == name
    requires forall j :: 0 <= j < m ==> jar[j].name != name
    ensures GetCookie(Serialize(jar), name) == Some(jar[m].value)
  {
    EntryMatchesIffNamed(jar, name);
    FirstMatchIsPair(Serialize(jar), name, m, jar[m].value);
  }

  /** A header whose first entry to start with `name=` is the plain pair
      `name=value` yields `value`. */
  lemma FirstMatchIsPair(header: string, name: string, m: int, value: string)
    requires Plain(name) && Plain(value)
    requires IsFirstMatch(Entries(header), name + "=", m)
    requires Entries(header)[m] == name + "=" + value
    ensures GetCookie(header, name) == Some(value)
  {
    GetCookieAt(header, name, m);
    assert Entries(header)[m] == name + "=" + value + [];
    SplitField(name, value, []);
  }

  /** `getCookies` agrees with the reference lookup on every header made of
      plain pairs. */
  lemma LookupSerialized(jar: seq<Cookie>, name: string)
    requires forall i :: 0 <= i < |jar| ==> Plain(jar[i].name) && Plain(jar[i].value)
    requires '=' !in name
    ensures GetCookie(Serialize(jar), name) == Lookup(jar, name)
  {
    var l := Lookup(jar, name);
    if |jar| == 0 {
      assert Entries(Serialize(jar)) == [""];
    } else if l.None? {
      EntryMatchesIffNamed(jar, name);
    } else {
      var m :| (0 <= m < |jar| && jar[m].name == name && l.value == jar[m].value
        && forall j :: 0 <= j < m ==> jar[j].name != name);
      LookupSerializedFound(jar, name, m);
    }
  }

  // ---------------------------------------------------------------------
  // Writing: setCookies
  // ---------------------------------------------------------------------

  /** Milliseconds in a day: 24 * 60 * 60 * 1000. */
  const MillisPerDay: int := 86_400_000

  /** JavaScript truthiness of the `days` argument; `None` is an omitted
      argument. */
  predicate Truthy(days: Option<int>) {
    days.Some? && days.value != 0
  }

  /** `value || ""` for a value that is a string or absent. */
  function OrEmpty(value: Option<string>): string {
    match value
    case Some(s) => s
    case None => ""
  }

  /** The `; expires=...` clause: present only for a truthy `days`, and
      then naming the instant `days` whole days after `now`. */
  function ExpiresClause(days: Option<int>, now: int, utc: int -> string): (clause: string)
    ensures clause == "" <==> !Truthy(days)
  {
    if Truthy(days) then "; expires=" + utc(now + days.value * MillisPerDay) else ""
  }

  /** `setCookies(name, value, days)`: the string assigned to
      `document.cookie`. It opens with the pair `name=value` and closes with
      the path attribute; between the two stands the expiry attribute when
      `days` is truthy, and nothing otherwise. */
  function SetCookie(name: string, value: Option<string>, days: Option<int>, now: int, utc: int -> string)
    : (cookie: string)
    ensures StartsWith(cookie, name + "=" + OrEmpty(value))
    ensures |name + "=" + OrEmpty(value)| + 8 <= |cookie| && cookie[|cookie| - 8..] == "; path=/"
    ensures !Truthy(days) ==> |cookie| == |name + "=" + OrEmpty(value)| + 8
    ensures Truthy(days) ==> (cookie[|name + "=" + OrEmpty(value)|..|cookie| - 8]
      == "; expires=" + utc(now + days.value * MillisPerDay))
  {
    var pair := name + "=" + OrEmpty(value);
    var clause := ExpiresClause(days, now, utc);
    var cookie := pair + clause + "; path=/";
    assert cookie[..|pair|] == pair;
    assert cookie[|pair|..|cookie| - 8] == clause;
    assert cookie[|cookie| - 8..] == "; path=/";
    cookie
  }

  lemma Regroup(a: string, b: string, c: string)
    ensures a + (b + c) == a + b + c
  {
  }

  /** The cookie string is the pair, then the attributes, each introduced
      by `; `. */
  lemma SetCookieShape(name: string, value: Option<string>, days: Option<int>, now: int, utc: int -> string)
    ensures Truthy(days) ==> (SetCookie(name, value, days, now, utc)
      == (name + "=" + OrEmpty(value)) + "; " + ("expires=" + utc(now + days.value * MillisPerDay)) + "; " + "path=/")
    ensures !Truthy(days) ==> (SetCookie(name, value, days, now, utc)
      == (name + "=" + OrEmpty(value)) + "; " + "path=/")
  {
    var pair := name + "=" + OrEmpty(value);
    var path := "path=/";
    assert "; path=/" == "; " + path;
    if Truthy(days) {
      var expires := "expires=" + utc(now + days.value * MillisPerDay);
      assert "; expires=" + utc(now + days.value * MillisPerDay) == "; " + expires;
      Regroup(pair, "; ", expires);
    } else {
      assert pair + "" == pair;
    }
    Regroup(pair + ExpiresClause(days, now, utc), "; ", path);
  }

  /** The cookie string consists of the pair, the expiry attribute exactly
      when `days` is truthy (at `days * 86400000` ms after `now`), and the
      path attribute. */
  lemma SetCookieAttributes(name: string, value: Option<string>, days: Option<int>, now: int, utc: int -> string)
    requires ';' !in name && ';' !in OrEmpty(value)
    requires forall t :: ';' !in utc(t)
    ensures Truthy(days) ==> (Entries(SetCookie(name, value, days, now, utc))
      == [name + "=" + OrEmpty(value), "expires=" + utc(now + days.value * MillisPerDay), "path=/"])
    ensures !Truthy(days) ==> (Entries(SetCookie(name, value, days, now, utc))
      == [name + "=" + OrEmpty(value), "path=/"])
  {
    SetCookieShape(name, value, days, now, utc);
    var pair := name + "=" + OrEmpty(value);
    if Truthy(days) {
      EntriesOfThree(pair, "expires=" + utc(now + days.value * MillisPerDay), "path=/");
    } else {
      EntriesOfTwo(pair, "path=/");
    }
  }

  lemma EntriesOfTwo(a: string, b: string)
    requires ';' !in a && ';' !in b
    ensures Entries(a + "; " + b) == [a, b]
  {
    JoinTwo(a, b);
    EntriesOfJoin([a, b]);
  }

  lemma EntriesOfThree(a: string, b: string, c: string)
    requires ';' !in a && ';' !in b && ';' !in c
    ensures Entries(a + "; " + b + "; " + c) == [a, b, c]
  {
    JoinThree(a, b, c);
    EntriesOfJoin([a, b, c]);
  }

  lemma JoinTwo(a: string, b: string)
    ensures Join([a, b], "; ") == a + "; " + b
  {
    JoinCons(a, [b], "; ");
    assert [a, b] == [a] + [b];
  }

  lemma JoinThree(a: string, b: string, c: string)
    ensures Join([a, b, c], "; ") == a + "; " + b + "; " + c
  {
    JoinTwo(b, c);
    JoinCons(a, [b, c], "; ");
    assert [a, b, c] == [a] + [b, c];
  }

  /** The first entry of `a; b` is `a` when `a` holds no `;`. */
  lemma FirstEntry(a: string, b: string)
    requires ';' !in a
    ensures Entries(a + "; " + b)[0] == a
  {
    ContainsFirstChar(a, "; ");
    EntrySeparatorUnbordered();
    FirstOccurrenceAfterFree(a, "; ", b);
    SplitAt(a + "; " + b, "; ", |a|);
    assert (a + "; " + b)[..|a|] == a;
  }

  /** A header whose first entry is the plain pair `name=v` yields `v`
      for `name`. */
  lemma PairThenGet(name: string, v: string, rest: string)
    requires Plain(name) && Plain(v)
    ensures GetCookie(name + "=" + v + "; " + rest, name) == Some(v)
  {
    var pair := name + "=" + v;
    var jar := pair + "; " + rest;
    FirstEntry(pair, rest);
    assert IsFirstMatch(Entries(jar), name + "=", 0) by {
      assert pair[..|name| + 1] == name + "=";
    }
    GetCookieAt(jar, name, 0);
    assert pair == name + "=" + v + [];
    SplitField(name, v, []);
  }

  /** Reading back, by its name, the string `setCookies` builds yields the
      value it stored (the empty string for a falsy value). */
  lemma SetThenGet(name: string, value: Option<string>, days: Option<int>, now: int, utc: int -> string)
    requires Plain(name) && Plain(OrEmpty(value))
    ensures GetCookie(SetCookie(name, value, days, now, utc), name) == Some(OrEmpty(value))
  {
    SetCookieShape(name, value, days, now, utc);
    var rest := (if Truthy(days) then "expires=" + utc(now + days.value * MillisPerDay) + "; " else "") + "path=/";
    assert SetCookie(name, value, days, now, utc) == (name + "=" + OrEmpty(value)) + "; " + rest;
    PairThenGet(name, OrEmpty(value), rest);
  }
}
