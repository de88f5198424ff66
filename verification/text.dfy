/**
 * Strings as the script's string methods see them: searching for a
 * separator, `String.prototype.split` with a non-empty string separator,
 * `String.prototype.startsWith`, and `Array.prototype.join`, the inverse
 * of `split`.
 */
module Text {
  import opened Optional

  /** `sep` occurs in `s` starting at index `i`. */
  predicate OccursAt(s: string, sep: string, i: nat) {
    i + |sep| <= |s| && s[i..i + |sep|] == sep
  }

  /** `sep` occurs somewhere in `s`. */
  ghost predicate Contains(s: string, sep: string) {
    exists i: nat :: OccursAt(s, sep, i)
  }

  /** `String.prototype.startsWith`. */
  predicate StartsWith(s: string, prefix: string) {
    |prefix| <= |s| && s[..|prefix|] == prefix
  }

  /** The first occurrence of `sep` in `s` at or after `from`, if any. */
  function IndexOfFrom(s: string, sep: string, from: nat): (r: Option<nat>)
    requires |sep| > 0
    ensures r.Some? ==> from <= r.value && OccursAt(s, sep, r.value)
    ensures r.Some? ==> forall j: nat :: from <= j < r.value ==> !OccursAt(s, sep, j)
    ensures r.None? ==> forall j: nat :: from <= j ==> !OccursAt(s, sep, j)
    decreases |s| - from
  {
    if |s| < from + |sep| then None
    else if s[from..from + |sep|] == sep then Some(from)
    else IndexOfFrom(s, sep, from + 1)
  }

  /** The index of the first occurrence of `sep` in `s`, if any
      (`s.indexOf(sep)`, with `None` for -1). */
  function IndexOf(s: string, sep: string): (r: Option<nat>)
    requires |sep| > 0
    ensures r.Some? ==> OccursAt(s, sep, r.value)
    ensures r.Some? ==> forall j: nat :: j < r.value ==> !OccursAt(s, sep, j)
    ensures r.None? ==> !Contains(s, sep)
  {
    IndexOfFrom(s, sep, 0)
  }

  /** An occurrence in a prefix of `s` is an occurrence in `s` that ends
      within the prefix. */
  lemma OccursInPrefix(s: string, sep: string, i: nat)
    requires i <= |s|
    ensures forall j: nat :: OccursAt(s[..i], sep, j) ==> j + |sep| <= i && OccursAt(s, sep, j)
  {
    forall j: nat | OccursAt(s[..i], sep, j)
      ensures j + |sep| <= i && OccursAt(s, sep, j)
    {
      assert s[..i][j..j + |sep|] == s[j..j + |sep|];
    }
  }

  /** The text before the first occurrence of `sep` holds none. */
  lemma BeforeFirstIsFree(s: string, sep: string, i: nat)
    requires |sep| > 0 && IndexOf(s, sep) == Some(i)
    ensures !Contains(s[..i], sep)
  {
    OccursInPrefix(s, sep, i);
  }

  /** `s.split(sep)` for a non-empty separator: the pieces between the
      successive leftmost non-overlapping occurrences of `sep`, none of
      which holds `sep`. */
  function Split(s: string, sep: string): (parts: seq<string>)
    requires |sep| > 0
    ensures |parts| >= 1
    ensures forall k :: 0 <= k < |parts| ==> !Contains(parts[k], sep)
    decreases |s|
  {
    match IndexOf(s, sep)
    case None => [s]
    case Some(i) =>
      BeforeFirstIsFree(s, sep, i);
      [s[..i]] + Split(s[i + |sep|..], sep)
  }

  /** `parts.join(sep)`. */
  function Join(parts: seq<string>, sep: string): string {
    if |parts| == 0 then ""
    else if |parts| == 1 then parts[0]
    else parts[0] + sep + Join(parts[1..], sep)
  }

  /** Joining a piece in front of a non-empty list puts one separator
      between them. */
  lemma JoinCons(x: string, tail: seq<string>, sep: string)
    requires |tail| >= 1
    ensures Join([x] + tail, sep) == x + sep + Join(tail, sep)
  {
    assert ([x] + tail)[1..] == tail;
  }

  /** One step of a split: the piece before the first separator, then
      the split of what follows it. */
  lemma SplitAt(s: string, sep: string, i: nat)
    requires |sep| > 0 && IndexOf(s, sep) == Some(i)
    ensures i + |sep| <= |s|
    ensures Split(s, sep) == [s[..i]] + Split(s[i + |sep|..], sep)
  {
  }

  /** A string is the text before an occurrence of `sep`, `sep` itself,
      and the text after it. */
  lemma Reassemble(s: string, sep: string, i: nat)
    requires OccursAt(s, sep, i)
    ensures s == s[..i] + sep + s[i + |sep|..]
  {
    assert s == s[..i] + s[i..i + |sep|] + s[i + |sep|..];
  }

  /** Joining the pieces of a split gives back the original string. */
  lemma {:induction false} SplitJoin(s: string, sep: string)
    requires |sep| > 0
    ensures Join(Split(s, sep), sep) == s
    decreases |s|
  {
    var r := IndexOf(s, sep);
    if r.Some? {
      var i := r.value;
      var rest := s[i + |sep|..];
      SplitJoin(rest, sep);
      SplitAt(s, sep, i);
      JoinCons(s[..i], Split(rest, sep), sep);
      Reassemble(s, sep, i);
    }
  }

  /** No proper suffix of `sep` is also a prefix of it, so two occurrences
      of `sep` can never overlap ("; " and "=" are such separators). */
  ghost predicate Unbordered(sep: string) {
    forall k :: 0 < k < |sep| ==> sep[k..] != sep[..|sep| - k]
  }

  /** An occurrence of `sep` in `a + sep + b` that starts inside `a`
      either lies wholly in `a` or shows that `sep` overlaps itself. */
  lemma EarlyOccurrence(a: string, sep: string, b: string, j: nat)
    requires j < |a|
    ensures OccursAt(a + sep + b, sep, j) ==> Contains(a, sep) || !Unbordered(sep)
  {
    var s := a + sep + b;
    if OccursAt(s, sep, j) {
      if j + |sep| <= |a| {
        assert a[j..j + |sep|] == s[j..j + |sep|];
        assert OccursAt(a, sep, j);
      } else {
        var k := |a| - j;
        assert sep[k..] == s[j..j + |sep|][k..] == s[|a|..j + |sep|];
        assert s[|a|..j + |sep|] == sep[..|sep| - k];
      }
    }
  }

  /** The header separator `; ` cannot overlap itself. */
  lemma EntrySeparatorUnbordered()
    ensures Unbordered("; ")
  {
    assert ("; ")[1..] == " ";
    assert ("; ")[..1] == ";";
  }

  /** When `a` holds no `sep`, the first `sep` of `a + sep + b` is the one
      placed right after `a`. */
  lemma FirstOccurrenceAfterFree(a: string, sep: string, b: string)
    requires |sep| > 0 && Unbordered(sep)
    requires !Contains(a, sep)
    ensures IndexOf(a + sep + b, sep) == Some(|a|)
  {
    var s := a + sep + b;
    assert s[|a|..|a| + |sep|] == sep;
    assert OccursAt(s, sep, |a|);
    forall j: nat | j < |a|
      ensures !OccursAt(s, sep, j)
    {
      EarlyOccurrence(a, sep, b, j);
    }
  }

  /** Splitting a join gives back the pieces, provided none holds the
      separator and the separator cannot overlap itself. */
  lemma {:induction false} JoinSplit(parts: seq<string>, sep: string)
    requires |sep| > 0 && Unbordered(sep)
    requires |parts| >= 1
    requires forall k :: 0 <= k < |parts| ==> !Contains(parts[k], sep)
    ensures Split(Join(parts, sep), sep) == parts
    decreases |parts|
  {
    if |parts| > 1 {
      var rest := Join(parts[1..], sep);
      FirstOccurrenceAfterFree(parts[0], sep, rest);
      JoinSplit(parts[1..], sep);
      var s := parts[0] + sep + rest;
      assert s[..|parts[0]|] == parts[0];
      assert s[|parts[0]| + |sep|..] == rest;
      assert parts == [parts[0]] + parts[1..];
    }
  }

  /** A one-character separator occurs exactly where that character does. */
  lemma ContainsChar(s: string, c: char)
    ensures Contains(s, [c]) <==> c in s
  {
    if c in s {
      var i :| 0 <= i < |s| && s[i] == c;
      assert s[i..i + 1] == [c];
      assert OccursAt(s, [c], i);
    }
    if Contains(s, [c]) {
      var i: nat :| OccursAt(s, [c], i);
      assert s[i] == s[i..i + 1][0];
    }
  }

  /** A one-character separator occurs exactly where that character is. */
  lemma OccursAtChar(s: string, c: char, i: nat)
    ensures OccursAt(s, [c], i) <==> i < |s| && s[i] == c
  {
    if i < |s| {
      assert s[i..i + 1] == [s[i]];
    }
  }

  /** Every occurrence of a separator starts with its first character. */
  lemma ContainsFirstChar(s: string, sep: string)
    requires |sep| > 0
    ensures Contains(s, sep) ==> sep[0] in s
  {
    if Contains(s, sep) {
      var i: nat :| OccursAt(s, sep, i);
      assert s[i] == s[i..i + |sep|][0];
    }
  }
}
