/** The parts of java.lang.String the importer relies on: `split` with a
    separator that is a literal string (no regular-expression metacharacters),
    ASCII `toLowerCase`, and `endsWith`. */
module JavaText {
  import opened Options

  /** `sep` occurs in `s` starting at index `j`. */
  predicate OccursAt(s: string, sep: string, j: nat) {
    j + |sep| <= |s| && s[j..j + |sep|] == sep
  }

  /** `sep` occurs nowhere in `s`. */
  predicate Free(s: string, sep: string) {
    forall j: nat :: j <= |s| ==> !OccursAt(s, sep, j)
  }

  /** Moving the search one character to the right: occurrences in `s[1..]`
      are the occurrences in `s` after index 0. */
  lemma OccursAtShift(s: string, sep: string, j: nat)
    requires |s| > 0
    ensures OccursAt(s, sep, j + 1) <==> OccursAt(s[1..], sep, j)
  {
  }

  lemma NoMatchAtStart(s: string, sep: string)
    requires |s| >= |sep| && s[..|sep|] != sep
    ensures !OccursAt(s, sep, 0)
  {
  }

  /** A one-character separator is absent exactly when its character is. */
  lemma FreeOfChar(s: string, sep: string)
    requires |sep| == 1
    ensures Free(s, sep) <==> sep[0] !in s
  {
    if sep[0] in s {
      var j :| 0 <= j < |s| && s[j] == sep[0];
      assert s[j..j + 1] == sep;
      assert OccursAt(s, sep, j);
    } else {
      forall j: nat | j <= |s| ensures !OccursAt(s, sep, j) {
        if j + 1 <= |s| {
          assert s[j..j + 1][0] == s[j];
        }
      }
    }
  }

  /** Index of the first occurrence of `sep` in `s`, scanning left to right. */
  function IndexOf(s: string, sep: string): (r: Option<nat>)
    ensures r.Some? ==> OccursAt(s, sep, r.value)
    ensures r.Some? ==> forall j: nat :: j < r.value ==> !OccursAt(s, sep, j)
    ensures r.None? ==> Free(s, sep)
    decreases |s|
  {
    if |s| < |sep| then None
    else if s[..|sep|] == sep then Some(0)
    else
      NoMatchAtStart(s, sep);
      assert forall j: nat :: OccursAt(s, sep, j + 1) <==> OccursAt(s[1..], sep, j) by {
        forall j: nat ensures OccursAt(s, sep, j + 1) <==> OccursAt(s[1..], sep, j) {
          OccursAtShift(s, sep, j);
        }
      }
      assert forall j: nat :: j > 0 ==> (OccursAt(s, sep, j) <==> OccursAt(s[1..], sep, j - 1)) by {
        forall j: nat | j > 0 ensures OccursAt(s, sep, j) <==> OccursAt(s[1..], sep, j - 1) {
          OccursAtShift(s, sep, j - 1);
        }
      }
      match IndexOf(s[1..], sep)
      case None => None
      case Some(i) => Some(i + 1)
  }

  /** Text before the first occurrence of a separator holds no occurrence of it. */
  lemma PrefixBeforeFirstIsFree(s: string, sep: string, i: nat)
    requires |sep| > 0 && i <= |s|
    requires forall j: nat :: j < i ==> !OccursAt(s, sep, j)
    ensures Free(s[..i], sep)
  {
    forall j: nat | j <= i
      ensures !OccursAt(s[..i], sep, j)
    {
      if OccursAt(s[..i], sep, j) {
        assert s[..i][j..j + |sep|] == s[j..j + |sep|];
        assert OccursAt(s, sep, j);
      }
    }
  }

  /** The fields of `s` between consecutive, non-overlapping, left-to-right
      occurrences of `sep`, keeping every empty field. */
  function RawSplit(s: string, sep: string): (parts: seq<string>)
    requires |sep| > 0
    ensures |parts| >= 1
    decreases |s|
  {
    match IndexOf(s, sep)
    case None => [s]
    case Some(i) => [s[..i]] + RawSplit(s[i + |sep|..], sep)
  }

  /** No field of a split contains the separator. */
  lemma {:induction false} RawSplitFieldsFree(s: string, sep: string)
    requires |sep| > 0
    ensures forall k :: 0 <= k < |RawSplit(s, sep)| ==> Free(RawSplit(s, sep)[k], sep)
    decreases |s|
  {
    match IndexOf(s, sep)
    case None =>
    case Some(i) =>
      PrefixBeforeFirstIsFree(s, sep, i);
      RawSplitFieldsFree(s[i + |sep|..], sep);
      assert RawSplit(s, sep) == [s[..i]] + RawSplit(s[i + |sep|..], sep);
  }

  /** Glues fields back together, `sep` between neighbours. */
  function Join(parts: seq<string>, sep: string): string
    requires |parts| >= 1
    decreases |parts|
  {
    if |parts| == 1 then parts[0] else parts[0] + sep + Join(parts[1..], sep)
  }

  /** Splitting loses nothing: the fields and the separators rebuild the input. */
  lemma {:induction false} RawSplitRejoins(s: string, sep: string)
    requires |sep| > 0
    ensures Join(RawSplit(s, sep), sep) == s
    decreases |s|
  {
    match IndexOf(s, sep)
    case None =>
    case Some(i) =>
      var head, tail := s[..i], s[i + |sep|..];
      var parts := RawSplit(s, sep);
      assert parts == [head] + RawSplit(tail, sep);
      assert parts[1..] == RawSplit(tail, sep);
      RawSplitRejoins(tail, sep);
      assert Join(parts, sep) == head + sep + tail;
      assert s[i..i + |sep|] == sep;
      assert s == head + s[i..i + |sep|] + tail;
  }

  /** Drops the empty strings at the end of `parts`, as `String.split` does. */
  function StripTrailingEmpty(parts: seq<string>): (r: seq<string>)
    ensures |r| <= |parts| && r == parts[..|r|]
    ensures |r| > 0 ==> r[|r| - 1] != ""
    ensures forall k :: |r| <= k < |parts| ==> parts[k] == ""
    decreases |parts|
  {
    if |parts| == 0 || parts[|parts| - 1] != "" then parts
    else StripTrailingEmpty(parts[..|parts| - 1])
  }

  function Empties(n: nat): (r: seq<string>)
    ensures |r| == n && forall k :: 0 <= k < n ==> r[k] == ""
  {
    seq(n, _ => "")
  }

  /** Characters that are special in a java.util.regex pattern. */
  const RegexMeta: string := "\\^$.|?*+()[]{}"

  /** A separator that `String.split` reads as the literal string itself
      (the program passes "\t"; ";" is the documented example). */
  predicate ValidSeparator(sep: string) {
    |sep| > 0 && forall k :: 0 <= k < |sep| ==> sep[k] !in RegexMeta
  }

  /** `s.split(sep)` for a literal separator: when `sep` does not occur the
      result is `[s]` (even for the empty string); otherwise the fields
      between occurrences, with trailing empty fields removed. */
  function Split(s: string, sep: string): (parts: seq<string>)
    requires ValidSeparator(sep)
    ensures Free(s, sep) ==> parts == [s]
    ensures !Free(s, sep) ==> |parts| == 0 || parts[|parts| - 1] != ""
  {
    if IndexOf(s, sep).None? then [s] else StripTrailingEmpty(RawSplit(s, sep))
  }

  /** No field of `s.split(sep)` contains the separator. */
  lemma SplitFieldsFree(s: string, sep: string)
    requires ValidSeparator(sep)
    ensures forall k :: 0 <= k < |Split(s, sep)| ==> Free(Split(s, sep)[k], sep)
  {
    if IndexOf(s, sep).Some? {
      RawSplitFieldsFree(s, sep);
    }
  }

  /** Splitting loses only trailing empty fields: putting them back and
      joining with the separator restores the input. */
  lemma SplitRejoins(s: string, sep: string)
    requires ValidSeparator(sep)
    ensures exists e: nat :: |Split(s, sep)| + e >= 1 && Join(Split(s, sep) + Empties(e), sep) == s
  {
    var parts := Split(s, sep);
    if IndexOf(s, sep).None? {
      assert parts + Empties(0) == [s];
      assert Join(parts + Empties(0), sep) == s;
    } else {
      var raw := RawSplit(s, sep);
      var e := |raw| - |parts|;
      assert parts + Empties(e) == raw;
      RawSplitRejoins(s, sep);
      assert Join(parts + Empties(e), sep) == s;
    }
  }

  /** When the first occurrence of `sep` in `id + sep + rest` is the one
      after `id` (no occurrence starts inside `id`), the first field is `id`
      and the remaining fields are those of `rest`. */
  lemma RawSplitCons(id: string, sep: string, rest: string)
    requires |sep| > 0
    requires Free(id + sep[..|sep| - 1], sep)
    ensures IndexOf(id + sep + rest, sep) == Some(|id|)
    ensures RawSplit(id + sep + rest, sep) == [id] + RawSplit(rest, sep)
  {
    var s := id + sep + rest;
    assert s[|id|..|id| + |sep|] == sep;
    assert OccursAt(s, sep, |id|);
    forall j: nat | j < |id|
      ensures !OccursAt(s, sep, j)
    {
      assert !OccursAt(id + sep[..|sep| - 1], sep, j);
      assert s[j..j + |sep|] == (id + sep[..|sep| - 1])[j..j + |sep|];
    }
    assert s[..|id|] == id;
    assert s[|id| + |sep|..] == rest;
  }

  /** Text without the separator is a single field. */
  lemma RawSplitFree(s: string, sep: string)
    requires |sep| > 0 && Free(s, sep)
    ensures RawSplit(s, sep) == [s]
  {
  }

  /** A line `id + sep + q` splits into exactly `[id, q]` when no occurrence
      of `sep` starts inside `id` (for a one-character separator: `id` does
      not contain it) and `q` is non-empty and separator-free. */
  lemma SplitTwoFields(id: string, sep: string, q: string)
    requires ValidSeparator(sep)
    requires Free(id + sep[..|sep| - 1], sep)
    requires Free(q, sep) && q != ""
    ensures Split(id + sep + q, sep) == [id, q]
  {
    RawSplitCons(id, sep, q);
    RawSplitFree(q, sep);
  }

  predicate IsUpper(c: char) {
    'A' <= c <= 'Z'
  }

  function LowerChar(c: char): char {
    if IsUpper(c) then (c as int + 32) as char else c
  }

  /** `toLowerCase` restricted to ASCII: each upper-case letter becomes its
      lower-case partner, every other character is kept. */
  function ToLower(s: string): (r: string)
    ensures |r| == |s|
    ensures forall k :: 0 <= k < |r| ==> !IsUpper(r[k])
    ensures forall k :: 0 <= k < |s| && !IsUpper(s[k]) ==> r[k] == s[k]
    ensures forall k :: 0 <= k < |s| && IsUpper(s[k]) ==> r[k] as int == s[k] as int + 32
  {
    seq(|s|, k requires 0 <= k < |s| => LowerChar(s[k]))
  }

  /** Lower-casing is idempotent. */
  lemma ToLowerIdempotent(s: string)
    ensures ToLower(ToLower(s)) == ToLower(s)
  {
  }

  predicate EndsWith(s: string, suffix: string) {
    |suffix| <= |s| && s[|s| - |suffix|..] == suffix
  }
}
