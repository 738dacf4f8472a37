/**
 The Python `str` operations the scheduler relies on: `startswith`, `split`
 with a separator, `lower` and `strip`.
 */
module Strings {
  import opened Outcomes

  predicate StartsWith(s: string, prefix: string) {
    |prefix| <= |s| && s[..|prefix|] == prefix
  }

  /** `sep` occurs in `s` starting at index `j`. */
  predicate OccursAt(s: string, sep: string, j: int) {
    0 <= j && j + |sep| <= |s| && s[j..j + |sep|] == sep
  }

  ghost predicate Contains(s: string, sep: string) {
    exists j :: OccursAt(s, sep, j)
  }

  /** The first occurrence of `sep` in `s` at or after index `k`. */
  function FindFrom(s: string, sep: string, k: nat): (r: Option<nat>)
    ensures r.Some? ==> k <= r.value && OccursAt(s, sep, r.value)
    ensures r.Some? ==> forall j :: k <= j < r.value ==> !OccursAt(s, sep, j)
    ensures r.None? ==> forall j :: k <= j ==> !OccursAt(s, sep, j)
    decreases |s| - k
  {
    if k + |sep| > |s| then None
    else if s[k..k + |sep|] == sep then Some(k)
    else FindFrom(s, sep, k + 1)
  }

  /** `str.find`: the index of the leftmost occurrence of `sep`, if any. */
  function Find(s: string, sep: string): (r: Option<nat>)
    ensures r.Some? ==> OccursAt(s, sep, r.value)
    ensures r.Some? ==> forall j :: 0 <= j < r.value ==> !OccursAt(s, sep, j)
    ensures r.None? <==> !Contains(s, sep)
  {
    FindFrom(s, sep, 0)
  }

  /** The inverse of `Split`: the parts glued together with `sep`. */
  function Join(parts: seq<string>, sep: string): string
    decreases |parts|
  {
    if |parts| == 0 then ""
    else if |parts| == 1 then parts[0]
    else parts[0] + sep + Join(parts[1..], sep)
  }

  lemma OccursInPrefix(s: string, sep: string, i: nat, j: int)
    requires i <= |s|
    requires OccursAt(s[..i], sep, j)
    ensures OccursAt(s, sep, j) && j + |sep| <= i
  {
    assert s[..i][j..j + |sep|] == s[j..j + |sep|];
  }

  /**
   `str.split(sep)` for a non-empty separator: the pieces between the
   leftmost non-overlapping occurrences of `sep`, scanning left to right.
   The contract fixes the first piece; it determines the whole result only
   for separators that cannot overlap themselves, such as a single
   character or `every ` (for `aa` in `aaaaa` it also admits a wrong split).
   */
  function Split(s: string, sep: string): (parts: seq<string>)
    requires |sep| > 0
    ensures |parts| >= 1
    ensures Join(parts, sep) == s
    ensures forall i :: 0 <= i < |parts| ==> !Contains(parts[i], sep)
    ensures |parts| == 1 <==> !Contains(s, sep)
    ensures |parts[0]| <= |s| && parts[0] == s[..|parts[0]|]
    ensures |parts| > 1 ==> OccursAt(s, sep, |parts[0]|)
    ensures forall j :: 0 <= j < |parts[0]| ==> !OccursAt(s, sep, j)
    decreases |s|
  {
    match Find(s, sep)
    case None => [s]
    case Some(i) =>
      var rest := Split(s[i + |sep|..], sep);
      SplitCons(s, sep, i, rest);
      [s[..i]] + rest
  }

  /**
   The step of `Split`: the text before the leftmost occurrence, followed by
   the parts of the text after it.
   */
  lemma SplitCons(s: string, sep: string, i: nat, rest: seq<string>)
    requires |sep| > 0 && OccursAt(s, sep, i)
    requires forall j :: 0 <= j < i ==> !OccursAt(s, sep, j)
    requires |rest| >= 1 && Join(rest, sep) == s[i + |sep|..]
    requires forall k :: 0 <= k < |rest| ==> !Contains(rest[k], sep)
    ensures var parts := [s[..i]] + rest;
      && |parts| >= 1
      && Join(parts, sep) == s
      && (forall k :: 0 <= k < |parts| ==> !Contains(parts[k], sep))
      && (|parts| == 1 <==> !Contains(s, sep))
      && |parts[0]| <= |s| && parts[0] == s[..|parts[0]|]
      && (|parts| > 1 ==> OccursAt(s, sep, |parts[0]|))
      && (forall j :: 0 <= j < |parts[0]| ==> !OccursAt(s, sep, j))
  {
    var parts := [s[..i]] + rest;
    assert !Contains(s[..i], sep) by {
      forall j | OccursAt(s[..i], sep, j) ensures false {
        OccursInPrefix(s, sep, i, j);
      }
    }
    assert s == s[..i] + sep + s[i + |sep|..] by {
      assert s == s[..i] + s[i..i + |sep|] + s[i + |sep|..];
    }
    assert Join(parts, sep) == s[..i] + sep + Join(rest, sep);
    assert forall k :: 1 <= k < |parts| ==> parts[k] == rest[k - 1];
  }

  /** A string without the separator splits into itself. */
  lemma SplitWithoutSeparator(s: string, sep: string)
    requires |sep| > 0 && !Contains(s, sep)
    ensures Split(s, sep) == [s]
  {
  }

  /** The first part is the text before the leftmost occurrence of the separator. */
  lemma SplitFirstPart(s: string, sep: string, m: nat)
    requires |sep| > 0 && OccursAt(s, sep, m)
    requires forall j :: 0 <= j < m ==> !OccursAt(s, sep, j)
    ensures Split(s, sep)[0] == s[..m]
  {
    var parts := Split(s, sep);
    assert |parts| > 1;
  }

  /** Every character of a join comes from a part or from the separator. */
  lemma {:induction false} JoinChars(parts: seq<string>, sep: string, k: nat)
    requires k < |Join(parts, sep)|
    ensures Join(parts, sep)[k] in sep || exists i :: 0 <= i < |parts| && Join(parts, sep)[k] in parts[i]
    decreases |parts|
  {
    if |parts| > 1 {
      var tail := Join(parts[1..], sep);
      var j := Join(parts, sep);
      assert j == parts[0] + sep + tail;
      if k < |parts[0]| {
        assert j[k] == parts[0][k];
      } else if k < |parts[0]| + |sep| {
        assert j[k] == sep[k - |parts[0]|];
      } else {
        JoinChars(parts[1..], sep, k - |parts[0]| - |sep|);
        assert j[k] == tail[k - |parts[0]| - |sep|];
        if j[k] !in sep {
          var i :| 0 <= i < |parts[1..]| && j[k] in parts[1..][i];
          assert parts[1..][i] == parts[i + 1];
        }
      }
    } else {
      assert Join(parts, sep)[k] in parts[0];
    }
  }

  /** A leading separator produces an empty first part. */
  lemma SplitLeadingSeparator(s: string, sep: string)
    requires |sep| > 0 && StartsWith(s, sep)
    ensures Split(s, sep) == [""] + Split(s[|sep|..], sep)
  {
    assert OccursAt(s, sep, 0);
  }

  /** Occurrences in a suffix are occurrences in the whole string, shifted. */
  lemma OccursInSuffix(s: string, sep: string, n: nat, j: nat)
    requires n <= |s|
    ensures OccursAt(s, sep, n + j) <==> OccursAt(s[n..], sep, j)
  {
    if n + j + |sep| <= |s| {
      assert s[n..][j..j + |sep|] == s[n + j..n + j + |sep|];
    }
  }

  /**
   `seg` is the text of `t` before the first occurrence of `sep`, or all of
   `t` when `sep` does not occur in it.
   */
  ghost predicate IsLeadingSegment(t: string, sep: string, seg: string) {
    && |seg| <= |t| && t[..|seg|] == seg
    && (|seg| == |t| || OccursAt(t, sep, |seg|))
    && forall j :: 0 <= j < |seg| ==> !OccursAt(t, sep, j)
  }

  /** The first part of a split is the leading segment. */
  lemma FirstPartIsLeadingSegment(t: string, sep: string)
    requires |sep| > 0
    ensures IsLeadingSegment(t, sep, Split(t, sep)[0])
  {
    var parts := Split(t, sep);
    if |parts| == 1 {
      assert Join(parts, sep) == parts[0];
    }
  }

  /**
   After a leading separator, the second part is the text between the
   first and the second occurrence of the separator, or up to the end when
   there is no second one.
   */
  lemma SecondPartAfterLeadingSeparator(s: string, sep: string)
    requires |sep| > 0 && StartsWith(s, sep)
    ensures |Split(s, sep)| > 1
    ensures IsLeadingSegment(s[|sep|..], sep, Split(s, sep)[1])
  {
    SplitLeadingSeparator(s, sep);
    FirstPartIsLeadingSegment(s[|sep|..], sep);
  }

  /** Splitting on a single character at its first occurrence. */
  lemma SplitAtFirstChar(a: string, c: char, b: string)
    requires c !in a
    ensures Split(a + [c] + b, [c]) == [a] + Split(b, [c])
  {
    var s := a + [c] + b;
    assert OccursAt(s, [c], |a|) by { assert s[|a|..|a| + 1] == [c]; }
    forall j | 0 <= j < |a| ensures !OccursAt(s, [c], j) {
      assert s[j..j + 1][0] == a[j];
    }
    assert s[..|a|] == a;
    assert s[|a| + 1..] == b;
  }

  /** A string lacking some character of `sep` cannot contain `sep`. */
  lemma MissingCharNotContained(s: string, sep: string, k: nat)
    requires k < |sep| && sep[k] !in s
    ensures !Contains(s, sep)
  {
    forall j | 0 <= j && j + |sep| <= |s| ensures !OccursAt(s, sep, j) {
      assert s[j..j + |sep|][k] == s[j + k];
    }
  }

  /** Joining parts free of the character `c` with `c` and splitting again gives the parts back. */
  lemma {:induction false} SplitJoinChar(parts: seq<string>, c: char)
    requires |parts| > 0
    requires forall i :: 0 <= i < |parts| ==> c !in parts[i]
    ensures Split(Join(parts, [c]), [c]) == parts
    decreases |parts|
  {
    if |parts| == 1 {
      MissingCharNotContained(parts[0], [c], 0);
      SplitWithoutSeparator(parts[0], [c]);
    } else {
      SplitJoinChar(parts[1..], c);
      SplitAtFirstChar(parts[0], c, Join(parts[1..], [c]));
    }
  }

  /** `Lower` leaves a string without upper-case letters unchanged. */
  lemma LowerUnchanged(s: string)
    requires forall i :: 0 <= i < |s| ==> !IsUpper(s[i])
    ensures Lower(s) == s
  {
  }

  /** Splitting on a character yields one more part than it has occurrences. */
  lemma {:induction false} SplitOnCharCount(s: string, c: char)
    ensures |Split(s, [c])| == 1 + multiset(s)[c]
    decreases |s|
  {
    match Find(s, [c])
    case None =>
      if c in s {
        CharContained(s, c);
      }
    case Some(i) =>
      var rest := s[i + 1..];
      FirstOccurrenceOfChar(s, c, i);
      SplitAtFirstChar(s[..i], c, rest);
      SplitOnCharCount(rest, c);
      assert multiset(s) == multiset(s[..i]) + multiset{c} + multiset(rest);
  }

  /** A character of a string is a one-character substring of it. */
  lemma CharContained(s: string, c: char)
    requires c in s
    ensures Contains(s, [c])
  {
    var j :| 0 <= j < |s| && s[j] == c;
    assert s[j..j + 1] == [c];
    assert OccursAt(s, [c], j);
  }

  /** No part of a split on a character contains that character. */
  lemma PartsLackChar(s: string, c: char)
    ensures forall i :: 0 <= i < |Split(s, [c])| ==> c !in Split(s, [c])[i]
  {
    var parts := Split(s, [c]);
    forall i | 0 <= i < |parts| ensures c !in parts[i] {
      if c in parts[i] {
        CharContained(parts[i], c);
      }
    }
  }

  /** Three parts joined by a separator. */
  lemma JoinThree(a: string, b: string, d: string, sep: string)
    ensures Join([a, b, d], sep) == a + sep + b + sep + d
  {
    assert [a, b, d][1..] == [b, d];
    assert [b, d][1..] == [d];
    assert Join([b, d], sep) == b + sep + d;
    assert Join([a, b, d], sep) == a + sep + (b + sep + d);
    assert a + sep + (b + sep + d) == a + sep + b + sep + d;
  }

  /** The text before the leftmost occurrence of a character lacks it. */
  lemma FirstOccurrenceOfChar(s: string, c: char, i: nat)
    requires OccursAt(s, [c], i)
    requires forall j :: 0 <= j < i ==> !OccursAt(s, [c], j)
    ensures c !in s[..i]
    ensures s == s[..i] + [c] + s[i + 1..]
  {
    assert s[i..i + 1] == [c];
    forall j | 0 <= j < i ensures s[..i][j] != c {
      assert !OccursAt(s, [c], j);
      assert s[j..j + 1][0] == s[j] == s[..i][j];
    }
    assert s == s[..i] + s[i..i + 1] + s[i + 1..];
  }

  predicate IsUpper(ch: char) {
    'A' <= ch <= 'Z'
  }

  function LowerChar(ch: char): (r: char)
    ensures !IsUpper(r)
    ensures IsUpper(ch) ==> r as int == ch as int + ('a' as int - 'A' as int)
  {
    if IsUpper(ch) then (ch as int + 32) as char else ch
  }

  /** `str.lower` on ASCII letters; every other character is kept. */
  function Lower(s: string): (r: string)
    ensures |r| == |s|
    ensures forall i :: 0 <= i < |r| ==> !IsUpper(r[i])
    ensures forall i :: 0 <= i < |s| && !IsUpper(s[i]) ==> r[i] == s[i]
    ensures forall i :: 0 <= i < |s| && IsUpper(s[i]) ==> r[i] as int == s[i] as int + ('a' as int - 'A' as int)
  {
    seq(|s|, i requires 0 <= i < |s| => LowerChar(s[i]))
  }

  /** Lower-casing twice is lower-casing once. */
  lemma LowerIdempotent(s: string)
    ensures Lower(Lower(s)) == Lower(s)
  {
  }

  /** Lower-casing distributes over concatenation. */
  lemma LowerConcat(a: string, b: string)
    ensures Lower(a + b) == Lower(a) + Lower(b)
  {
  }

  /** Python's `str.isspace`: the characters `str.strip()` removes. */
  predicate IsSpace(ch: char) {
    || '\t' <= ch <= '\r'
    || '\U{1C}' <= ch <= ' '
    || ch == '\U{85}' || ch == '\U{A0}' || ch == '\U{1680}'
    || '\U{2000}' <= ch <= '\U{200A}'
    || ch == '\U{2028}' || ch == '\U{2029}' || ch == '\U{202F}'
    || ch == '\U{205F}' || ch == '\U{3000}'
  }

  function LeadingSpaces(s: string): (n: nat)
    ensures n <= |s|
    ensures forall i :: 0 <= i < n ==> IsSpace(s[i])
    ensures n < |s| ==> !IsSpace(s[n])
    decreases |s|
  {
    if |s| > 0 && IsSpace(s[0]) then 1 + LeadingSpaces(s[1..]) else 0
  }

  function TrailingSpaces(s: string): (n: nat)
    ensures n <= |s|
    ensures forall i :: |s| - n <= i < |s| ==> IsSpace(s[i])
    ensures n < |s| ==> !IsSpace(s[|s| - 1 - n])
    decreases |s|
  {
    if |s| > 0 && IsSpace(s[|s| - 1]) then 1 + TrailingSpaces(s[..|s| - 1]) else 0
  }

  /** `str.lstrip()`: `t` without its leading whitespace. */
  function StripStart(t: string): (r: string)
    ensures |r| <= |t| && r == t[|t| - |r|..]
    ensures forall k :: 0 <= k < |t| - |r| ==> IsSpace(t[k])
    ensures |r| > 0 ==> !IsSpace(r[0])
  {
    t[LeadingSpaces(t)..]
  }

  /** `str.rstrip()`: `t` without its trailing whitespace. */
  function StripEnd(t: string): (r: string)
    ensures |r| <= |t| && r == t[..|r|]
    ensures forall k :: |r| <= k < |t| ==> IsSpace(t[k])
    ensures |r| > 0 ==> !IsSpace(r[|r| - 1])
  {
    t[..|t| - TrailingSpaces(t)]
  }

  /**
   `str.strip()`: the part of `s` left after removing whitespace from both
   ends; it neither starts nor ends with whitespace.
   */
  function Strip(s: string): (r: string)
    ensures exists i, j ::
      && 0 <= i <= j <= |s| && r == s[i..j]
      && (forall k :: 0 <= k < i ==> IsSpace(s[k]))
      && (forall k :: j <= k < |s| ==> IsSpace(s[k]))
    ensures |r| > 0 ==> !IsSpace(r[0]) && !IsSpace(r[|r| - 1])
  {
    var t := StripStart(s);
    var r := StripEnd(t);
    StripBothEnds(s, t, r);
    r
  }

  /** Removing whitespace from the front and then from the back. */
  lemma StripBothEnds(s: string, t: string, r: string)
    requires |t| <= |s| && t == s[|s| - |t|..]
    requires forall k :: 0 <= k < |s| - |t| ==> IsSpace(s[k])
    requires |t| > 0 ==> !IsSpace(t[0])
    requires |r| <= |t| && r == t[..|r|]
    requires forall k :: |r| <= k < |t| ==> IsSpace(t[k])
    requires |r| > 0 ==> !IsSpace(r[|r| - 1])
    ensures exists i, j ::
      && 0 <= i <= j <= |s| && r == s[i..j]
      && (forall k :: 0 <= k < i ==> IsSpace(s[k]))
      && (forall k :: j <= k < |s| ==> IsSpace(s[k]))
    ensures |r| > 0 ==> !IsSpace(r[0]) && !IsSpace(r[|r| - 1])
  {
    var lead := |s| - |t|;
    var stop := lead + |r|;
    assert r == s[lead..stop];
    forall k | stop <= k < |s| ensures IsSpace(s[k]) {
      assert s[k] == t[k - lead];
    }
    assert |r| > 0 ==> r[0] == t[0];
  }

  /** A string with no whitespace at either end is its own strip. */
  lemma StripUnpadded(s: string)
    requires |s| > 0 ==> !IsSpace(s[0]) && !IsSpace(s[|s| - 1])
    ensures Strip(s) == s
  {
  }

  /** Stripping twice is stripping once. */
  lemma StripIdempotent(s: string)
    ensures Strip(Strip(s)) == Strip(s)
  {
    StripUnpadded(Strip(s));
  }
}
