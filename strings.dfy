/**
  The string operations of Python that the planner and the voice cloner rely on:
  substring search (`p in s`), `str.count`, `str.split(sep)`, `sep.join(parts)`,
  `str.lower()` and `str.strip()`.  The search, count, split and join operations
  are stated over any sequence, so that the voice cloner can reuse them on audio.
  Lower-casing and stripping are restricted to ASCII.
 */
module Strings {
  import opened Wrappers

  // ---------------------------------------------------------------------------
  // Occurrences and search
  // ---------------------------------------------------------------------------

  /** p occurs in s starting at index i. */
  predicate OccursAt<T(==)>(s: seq<T>, p: seq<T>, i: int) {
    0 <= i && i + |p| <= |s| && s[i..i + |p|] == p
  }

  /** Occurrences in s[k..] are the occurrences in s at index k or later, shifted by k. */
  lemma OccursAtDrop<T>(s: seq<T>, p: seq<T>, k: nat)
    requires k <= |s|
    ensures forall j :: 0 <= j ==> (OccursAt(s[k..], p, j) <==> OccursAt(s, p, j + k))
    ensures forall j :: k <= j ==> (OccursAt(s, p, j) <==> OccursAt(s[k..], p, j - k))
  {
    forall j | 0 <= j
      ensures OccursAt(s[k..], p, j) <==> OccursAt(s, p, j + k)
    {
      if j + |p| <= |s| - k {
        assert s[k..][j..j + |p|] == s[j + k..j + k + |p|];
      }
    }
  }

  /** An occurrence inside the prefix s[..n] is an occurrence in s that ends by n. */
  lemma OccursAtTake<T>(s: seq<T>, p: seq<T>, n: nat)
    requires n <= |s|
    ensures forall j :: OccursAt(s[..n], p, j) <==> (OccursAt(s, p, j) && j + |p| <= n)
  {
    forall j
      ensures OccursAt(s[..n], p, j) <==> (OccursAt(s, p, j) && j + |p| <= n)
    {
      if 0 <= j && j + |p| <= n {
        assert s[..n][j..j + |p|] == s[j..j + |p|];
      }
    }
  }

  /** Index of the leftmost occurrence of p in s, or None (Python's `s.find(p)`). */
  function Find<T(==)>(s: seq<T>, p: seq<T>): (r: Option<nat>)
    ensures r.Some? ==> OccursAt(s, p, r.value)
    ensures r.Some? ==> forall j :: 0 <= j < r.value ==> !OccursAt(s, p, j)
    ensures r.None? <==> forall j :: !OccursAt(s, p, j)
    decreases |s|
  {
    if |p| <= |s| && s[..|p|] == p then
      assert s[0..|p|] == s[..|p|];
      assert OccursAt(s, p, 0);
      Some(0)
    else if s == [] then
      None
    else
      OccursAtDrop(s, p, 1);
      match Find(s[1..], p)
      case None => None
      case Some(i) => Some(i + 1)
  }

  /** Python's `p in s` for strings: p is a contiguous part of s. */
  function Contains<T(==)>(s: seq<T>, p: seq<T>): (b: bool)
    ensures b <==> exists i :: OccursAt(s, p, i)
  {
    Find(s, p).Some?
  }

  /** A pattern that occurs in s occurs wherever a longer pattern it begins occurs. */
  lemma ContainsPrefixOfPattern<T>(s: seq<T>, p: seq<T>, q: seq<T>)
    requires Contains(s, p + q)
    ensures Contains(s, p)
  {
    var i :| OccursAt(s, p + q, i);
    assert s[i..i + |p|] == (p + q)[..|p|];
    assert OccursAt(s, p, i);
  }

  /** Every element of a pattern that occurs in s is an element of s. */
  lemma ContainsElements<T>(s: seq<T>, p: seq<T>, k: nat)
    requires Contains(s, p) && k < |p|
    ensures p[k] in s
  {
    var i :| OccursAt(s, p, i);
    assert s[i + k] == s[i..i + |p|][k];
  }

  // ---------------------------------------------------------------------------
  // Count, join and split
  // ---------------------------------------------------------------------------

  /** Python's `s.count(p)` for a non-empty p: non-overlapping occurrences, scanned from the left. */
  function Count<T(==)>(s: seq<T>, p: seq<T>): nat
    requires |p| > 0
    decreases |s|
  {
    if |s| < |p| then 0
    else if s[..|p|] == p then 1 + Count(s[|p|..], p)
    else Count(s[1..], p)
  }

  lemma {:induction false} CountNoOccurrence<T>(s: seq<T>, p: seq<T>)
    requires |p| > 0
    requires forall j :: !OccursAt(s, p, j)
    ensures Count(s, p) == 0
    decreases |s|
  {
    if |p| <= |s| {
      assert !OccursAt(s, p, 0);
      assert s[..|p|] != p;
      OccursAtDrop(s, p, 1);
      CountNoOccurrence(s[1..], p);
    }
  }

  /** Occurrences in s[1..] are the occurrences in s one place further on. */
  lemma OccursAtShift<T>(s: seq<T>, p: seq<T>, j: nat)
    requires |s| > 0
    ensures OccursAt(s[1..], p, j) <==> OccursAt(s, p, j + 1)
  {
    if j + |p| <= |s| - 1 {
      assert s[1..][j..j + |p|] == s[j + 1..j + 1 + |p|];
    }
  }

  /** Counting from the leftmost occurrence at i on: that one, then the rest after it. */
  lemma {:induction false} CountFirstOccurrence<T>(s: seq<T>, p: seq<T>, i: nat)
    requires |p| > 0
    requires OccursAt(s, p, i)
    requires forall j :: 0 <= j < i ==> !OccursAt(s, p, j)
    ensures Count(s, p) == 1 + Count(s[i + |p|..], p)
    decreases i
  {
    if i == 0 {
      assert s[..|p|] == s[0..|p|] == p;
    } else {
      assert !OccursAt(s, p, 0);
      assert s[..|p|] != p by {
        assert s[0..|p|] == s[..|p|];
      }
      var t := s[1..];
      forall j | 0 <= j < i - 1
        ensures !OccursAt(t, p, j)
      {
        OccursAtShift(s, p, j);
      }
      OccursAtShift(s, p, i - 1);
      CountFirstOccurrence(t, p, i - 1);
      assert t[i - 1 + |p|..] == s[i + |p|..];
    }
  }

  /** Python's `sep.join(parts)`. */
  function Join<T>(parts: seq<seq<T>>, sep: seq<T>): seq<T>
    decreases |parts|
  {
    if |parts| == 0 then []
    else if |parts| == 1 then parts[0]
    else parts[0] + sep + Join(parts[1..], sep)
  }

  /** Joining one more part at the end adds the separator and that part. */
  lemma {:induction false} JoinSnoc<T>(parts: seq<seq<T>>, part: seq<T>, sep: seq<T>)
    requires |parts| > 0
    ensures Join(parts + [part], sep) == Join(parts, sep) + sep + part
    decreases |parts|
  {
    if |parts| == 1 {
      assert (parts + [part])[1..] == [part];
    } else {
      assert (parts + [part])[1..] == parts[1..] + [part];
      JoinSnoc(parts[1..], part, sep);
    }
  }

  /**
    Python's `s.split(sep)` for a non-empty separator: the parts between the
    non-overlapping occurrences of sep, leftmost first.  Joining the parts with
    sep gives back s, and no part contains sep.
   */
  function Split<T(==)>(s: seq<T>, sep: seq<T>): (parts: seq<seq<T>>)
    requires |sep| > 0
    ensures |parts| > 0
    ensures Join(parts, sep) == s
    ensures forall k :: 0 <= k < |parts| ==> !Contains(parts[k], sep)
    decreases |s|
  {
    match Find(s, sep)
    case None => [s]
    case Some(i) =>
      OccursAtTake(s, sep, i);
      var head := s[..i];
      var rest := Split(s[i + |sep|..], sep);
      assert !Contains(head, sep);
      assert ([head] + rest)[1..] == rest;
      assert Join([head] + rest, sep) == head + sep + Join(rest, sep);
      assert s == head + s[i..i + |sep|] + s[i + |sep|..];
      [head] + rest
  }

  /** `s.split(sep)` has one more part than `s.count(sep)`. */
  lemma {:induction false} SplitCount<T>(s: seq<T>, sep: seq<T>)
    requires |sep| > 0
    ensures |Split(s, sep)| == Count(s, sep) + 1
    decreases |s|
  {
    match Find(s, sep)
    case None =>
      CountNoOccurrence(s, sep);
    case Some(i) =>
      CountFirstOccurrence(s, sep, i);
      SplitCount(s[i + |sep|..], sep);
  }

  /** No proper suffix of p equals the prefix of the same length: occurrences of p cannot overlap. */
  predicate NoBorder<T(==)>(p: seq<T>) {
    forall d :: 0 < d < |p| ==> p[d..] != p[..|p| - d]
  }

  /** An occurrence of sep that starts inside part, in part + sep + rest, lies in part or reveals a border of sep. */
  lemma EarlyOccurrence<T>(part: seq<T>, sep: seq<T>, rest: seq<T>, j: nat)
    ensures OccursAt(part + sep + rest, sep, j) && j < |part| ==> Contains(part, sep) || !NoBorder(sep)
  {
    var s := part + sep + rest;
    if OccursAt(s, sep, j) && j < |part| {
      if j + |sep| <= |part| {
        assert s[j..j + |sep|] == part[j..j + |sep|];
        assert OccursAt(part, sep, j);
      } else {
        var d := |part| - j;
        forall k | 0 <= k < |sep| - d
          ensures sep[d..][k] == sep[..|sep| - d][k]
        {
          assert sep[d + k] == s[j..j + |sep|][d + k] == s[|part| + k];
          assert s[|part| + k] == s[|part|..|part| + |sep|][k] == sep[k];
        }
        assert sep[d..] == sep[..|sep| - d];
      }
    }
  }

  /** After a part free of a separator that cannot overlap itself, the first separator is the one that follows the part. */
  lemma FindAfterPart<T>(part: seq<T>, sep: seq<T>, rest: seq<T>)
    requires |sep| > 0 && NoBorder(sep)
    requires !Contains(part, sep)
    ensures Find(part + sep + rest, sep) == Some(|part|)
  {
    var s := part + sep + rest;
    assert s[|part|..|part| + |sep|] == sep;
    assert OccursAt(s, sep, |part|);
    forall j: nat | j < |part|
      ensures !OccursAt(s, sep, j)
    {
      EarlyOccurrence(part, sep, rest, j);
    }
  }

  /**
    The converse round trip: parts free of a separator that cannot overlap itself
    are recovered by splitting their join.
   */
  lemma {:induction false} SplitJoin<T>(parts: seq<seq<T>>, sep: seq<T>)
    requires |sep| > 0 && NoBorder(sep)
    requires |parts| > 0
    requires forall k :: 0 <= k < |parts| ==> !Contains(parts[k], sep)
    ensures Split(Join(parts, sep), sep) == parts
    decreases |parts|
  {
    if |parts| == 1 {
      assert Join(parts, sep) == parts[0];
      assert Find(parts[0], sep).None?;
    } else {
      var rest := Join(parts[1..], sep);
      var s := parts[0] + sep + rest;
      assert Join(parts, sep) == s;
      FindAfterPart(parts[0], sep, rest);
      assert Split(s, sep) == [s[..|parts[0]|]] + Split(s[|parts[0]| + |sep|..], sep);
      assert s[..|parts[0]|] == parts[0];
      assert s[|parts[0]| + |sep|..] == rest;
      assert forall k :: 0 <= k < |parts| - 1 ==> parts[1..][k] == parts[k + 1];
      SplitJoin(parts[1..], sep);
      assert parts == [parts[0]] + parts[1..];
    }
  }

  // ---------------------------------------------------------------------------
  // ASCII lower-casing and whitespace stripping
  // ---------------------------------------------------------------------------

  /** `c.lower()` for ASCII: upper-case letters map to lower-case ones, all else is kept. */
  function LowerChar(c: char): char {
    if 'A' <= c <= 'Z' then (c as int + 32) as char else c
  }

  /** `s.lower()`, character by character. */
  function ToLower(s: string): (r: string)
    ensures |r| == |s|
    ensures forall i :: 0 <= i < |s| ==> r[i] == LowerChar(s[i])
  {
    seq(|s|, i requires 0 <= i < |s| => LowerChar(s[i]))
  }

  /** No upper-case ASCII letter in s. */
  predicate IsLowerCase(s: string) {
    forall i :: 0 <= i < |s| ==> !('A' <= s[i] <= 'Z')
  }

  lemma LowerCaseFixed(s: string)
    requires IsLowerCase(s)
    ensures ToLower(s) == s
  {
  }

  /** Lower-casing yields lower-case text, so doing it twice is doing it once. */
  lemma ToLowerIdempotent(s: string)
    ensures IsLowerCase(ToLower(s))
    ensures ToLower(ToLower(s)) == ToLower(s)
  {
  }

  /** Python's `c.isspace()` on ASCII: tab, line feed, vertical tab, form feed, carriage return, the four separators 0x1C-0x1F, and space. */
  predicate IsSpace(c: char) {
    9 <= c as int <= 13 || 28 <= c as int <= 32
  }

  /** Every character of s is whitespace (s may be empty). */
  predicate IsBlank(s: string) {
    forall i :: 0 <= i < |s| ==> IsSpace(s[i])
  }

  /** The end of the run of whitespace in s that starts at lo. */
  function SpaceRunEnd(s: string, lo: nat): (n: nat)
    requires lo <= |s|
    ensures lo <= n <= |s|
    ensures forall k :: lo <= k < n ==> IsSpace(s[k])
    ensures n < |s| ==> !IsSpace(s[n])
    decreases |s| - lo
  {
    if lo < |s| && IsSpace(s[lo]) then SpaceRunEnd(s, lo + 1) else lo
  }

  /** The start of the run of whitespace in s that ends at hi. */
  function SpaceRunStart(s: string, hi: nat): (n: nat)
    requires hi <= |s|
    ensures n <= hi
    ensures forall k :: n <= k < hi ==> IsSpace(s[k])
    ensures 0 < n ==> !IsSpace(s[n - 1])
    decreases hi
  {
    if 0 < hi && IsSpace(s[hi - 1]) then SpaceRunStart(s, hi - 1) else hi
  }

  /** The number of whitespace characters at the start of s: what `s.lstrip()` removes. */
  function LeadingSpace(s: string): (n: nat)
    ensures n <= |s| && IsBlank(s[..n])
    ensures n < |s| ==> !IsSpace(s[n])
  {
    SpaceRunEnd(s, 0)
  }

  /** The number of whitespace characters at the end of s: what `s.rstrip()` removes. */
  function TrailingSpace(s: string): (n: nat)
    ensures n <= |s| && IsBlank(s[|s| - n..])
    ensures n < |s| ==> !IsSpace(s[|s| - n - 1])
  {
    |s| - SpaceRunStart(s, |s|)
  }

  /** Unless s is all whitespace, its leading and trailing whitespace do not meet. */
  lemma SpaceRunsApart(s: string)
    ensures LeadingSpace(s) < |s| ==> LeadingSpace(s) < |s| - TrailingSpace(s)
  {
  }

  /** `s.strip()`: s with its leading and trailing whitespace removed. */
  function Strip(s: string): string {
    SpaceRunsApart(s);
    var lo := LeadingSpace(s);
    if lo == |s| then [] else s[lo..|s| - TrailingSpace(s)]
  }

  /**
    What Strip yields: the part of s after its LeadingSpace(s) leading
    whitespace characters and before its trailing whitespace; it neither starts
    nor ends with whitespace, and it is empty exactly when s is blank.
   */
  lemma StripSpec(s: string)
    ensures LeadingSpace(s) + |Strip(s)| <= |s|
    ensures Strip(s) == s[LeadingSpace(s)..LeadingSpace(s) + |Strip(s)|]
    ensures IsBlank(s[..LeadingSpace(s)]) && IsBlank(s[LeadingSpace(s) + |Strip(s)|..])
    ensures Strip(s) != [] ==> !IsSpace(Strip(s)[0]) && !IsSpace(Strip(s)[|Strip(s)| - 1])
    ensures Strip(s) == [] <==> IsBlank(s)
  {
    SpaceRunsApart(s);
    var lo := LeadingSpace(s);
    if lo == |s| {
      assert s[..lo] == s;
    } else {
      assert Strip(s) == s[lo..|s| - TrailingSpace(s)];
    }
  }

  /** Lower-casing maps whitespace to whitespace and nothing else to it. */
  lemma LowerCharSpace(c: char)
    ensures IsSpace(LowerChar(c)) <==> IsSpace(c)
  {
  }

  lemma {:induction false} SpaceRunEndToLower(s: string, lo: nat)
    requires lo <= |s|
    ensures SpaceRunEnd(ToLower(s), lo) == SpaceRunEnd(s, lo)
    decreases |s| - lo
  {
    if lo < |s| {
      LowerCharSpace(s[lo]);
      SpaceRunEndToLower(s, lo + 1);
    }
  }

  lemma {:induction false} SpaceRunStartToLower(s: string, hi: nat)
    requires hi <= |s|
    ensures SpaceRunStart(ToLower(s), hi) == SpaceRunStart(s, hi)
    decreases hi
  {
    if 0 < hi {
      LowerCharSpace(s[hi - 1]);
      SpaceRunStartToLower(s, hi - 1);
    }
  }

  lemma ToLowerSlice(s: string, lo: nat, hi: nat)
    requires lo <= hi <= |s|
    ensures ToLower(s)[lo..hi] == ToLower(s[lo..hi])
  {
  }

  /** Lower-casing keeps the leading and trailing whitespace counts. */
  lemma SpaceRunsToLower(s: string)
    ensures LeadingSpace(ToLower(s)) == LeadingSpace(s)
    ensures TrailingSpace(ToLower(s)) == TrailingSpace(s)
  {
    SpaceRunEndToLower(s, 0);
    SpaceRunStartToLower(s, |s|);
  }

  /** Two texts of one length with the same whitespace at either end are stripped at the same places. */
  lemma StripAtSamePlaces(s: string, t: string)
    requires |s| == |t|
    requires LeadingSpace(t) == LeadingSpace(s) && TrailingSpace(t) == TrailingSpace(s)
    ensures LeadingSpace(s) < |s| ==> LeadingSpace(s) < |s| - TrailingSpace(s)
    ensures Strip(t) == if LeadingSpace(s) == |s| then [] else t[LeadingSpace(s)..|s| - TrailingSpace(s)]
  {
    SpaceRunsApart(s);
  }

  /** Lower-casing leaves whitespace alone, so it commutes with stripping. */
  lemma StripToLower(s: string)
    ensures Strip(ToLower(s)) == ToLower(Strip(s))
  {
    SpaceRunsToLower(s);
    StripAtSamePlaces(s, s);
    StripAtSamePlaces(s, ToLower(s));
    var lo := LeadingSpace(s);
    if lo < |s| {
      ToLowerSlice(s, lo, |s| - TrailingSpace(s));
    }
  }
}
