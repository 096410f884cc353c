/** Text operations the history view performs on location strings and
    variable names, each matching the JavaScript primitive it stands for. */
module Strings {
  import opened Optional

  /** `pat` occurs in `s` starting at index `k`. */
  predicate OccursAt(s: string, pat: string, k: nat) {
    k + |pat| <= |s| && s[k..k + |pat|] == pat
  }

  /** `k` is the leftmost index at which `pat` occurs in `s`. */
  predicate FirstOccurrence(s: string, pat: string, k: nat) {
    OccursAt(s, pat, k) && forall j: nat :: j < k ==> !OccursAt(s, pat, j)
  }

  /** Leftmost index at or after `from` where `pat` occurs in `s`. */
  function FindFrom(s: string, pat: string, from: nat): (r: Option<nat>)
    decreases |s| - from
    ensures r.Some? ==> from <= r.value && OccursAt(s, pat, r.value)
    ensures forall j: nat :: from <= j && (r.None? || j < r.value) ==> !OccursAt(s, pat, j)
  {
    if from + |pat| > |s| then None
    else if s[from..from + |pat|] == pat then Some(from)
    else FindFrom(s, pat, from + 1)
  }

  /** Leftmost occurrence of `pat` in `s`, the position at which an unanchored
      regular expression for the literal `pat` matches. */
  function FindFirst(s: string, pat: string): (r: Option<nat>)
    ensures r.Some? ==> FirstOccurrence(s, pat, r.value)
    ensures r.None? ==> forall k: nat :: !OccursAt(s, pat, k)
  {
    FindFrom(s, pat, 0)
  }

  /** JavaScript `s.split(c)[0]`: the text before the first `c`, or all of `s`. */
  function TakeUntil(s: string, c: char): (r: string)
    ensures r <= s
    ensures c !in r
    ensures |r| < |s| ==> s[|r|] == c
  {
    if s == [] || s[0] == c then [] else [s[0]] + TakeUntil(s[1..], c)
  }

  /** JavaScript `s.replace(re, rep)` where `re` matches the literal `pat` and has
      no global flag: only the leftmost occurrence is replaced. */
  function ReplaceFirst(s: string, pat: string, rep: string): string {
    match FindFirst(s, pat)
    case None => s
    case Some(k) => s[..k] + rep + s[k + |pat|..]
  }

  /** JavaScript `s.replace(re, rep)` where `re` is the literal `pat` anchored
      with `^`: replaces `pat` only when `s` starts with it. */
  function ReplacePrefix(s: string, pat: string, rep: string): (r: string)
    ensures pat <= s ==> rep <= r && r[|rep|..] == s[|pat|..] && |r| == |s| - |pat| + |rep|
    ensures !(pat <= s) ==> r == s
  {
    if pat <= s then rep + s[|pat|..] else s
  }

  /** The anchored replacement applies to a string that starts with the pattern. */
  lemma ReplacePrefixApplies(pat: string, rep: string, rest: string)
    ensures ReplacePrefix(pat + rest, pat, rep) == rep + rest
  {
    assert (pat + rest)[..|pat|] == pat;
    assert (pat + rest)[|pat|..] == rest;
  }

  /** Cutting at the first `c` and then replacing a leading `p` by `q`, on a
      string that starts with `p`, `a` and `b`, none of which holds `c`. */
  lemma TakeUntilThenReplacePrefix(p: string, q: string, a: string, b: string, t: string, c: char)
    requires c !in p && c !in a && c !in b
    ensures ReplacePrefix(TakeUntil(p + a + b + t, c), p, q) == q + a + b + TakeUntil(t, c)
  {
    var t1 := TakeUntil(t, c);
    assert TakeUntil(p + a + b + t, c) == p + a + b + t1 by {
      TakeUntilAppend(p + a + b, t, c);
    }
    assert p + a + b + t1 == p + (a + b + t1);
    ReplacePrefixApplies(p, q, a + b + t1);
    assert q + (a + b + t1) == q + a + b + t1;
  }

  /** JavaScript `a < b` on two strings: ordinal, lexicographic comparison in
      which a proper prefix is smaller. */
  predicate Less(a: string, b: string)
    decreases |a|
  {
    if a == [] then b != []
    else if b == [] then false
    else if a[0] != b[0] then a[0] < b[0]
    else Less(a[1..], b[1..])
  }

  /** The comparison as the ECMAScript IsLessThan algorithm states it for
      strings: `a` is a proper prefix of `b`, or at the first index where
      they differ `a` has the smaller character. */
  lemma {:induction false} LessAtFirstDifference(a: string, b: string)
    ensures Less(a, b) <==>
              (a < b) ||
              (exists i: nat :: i < |a| && i < |b| && a[..i] == b[..i] && a[i] < b[i])
    decreases |a|
  {
    if a == [] {
      assert Less(a, b) <==> a < b;
    } else if b == [] {
      assert !Less(a, b);
    } else if a[0] != b[0] {
      if a[0] < b[0] {
        assert a[..0] == b[..0];
      }
    } else {
      LessAtFirstDifference(a[1..], b[1..]);
      if Less(a, b) {
        assert Less(a[1..], b[1..]);
        if !(a[1..] < b[1..]) {
          var i: nat :| i < |a[1..]| && i < |b[1..]| && a[1..][..i] == b[1..][..i] && a[1..][i] < b[1..][i];
          assert a[..i + 1] == [a[0]] + a[1..][..i];
          assert b[..i + 1] == [b[0]] + b[1..][..i];
        }
      } else {
        forall i: nat | 0 < i < |a| && i < |b| && a[..i] == b[..i]
          ensures a[1..][..i - 1] == b[1..][..i - 1]
        {
          assert a[1..][..i - 1] == a[..i][1..];
          assert b[1..][..i - 1] == b[..i][1..];
        }
      }
    }
  }

  lemma {:induction false} LessIrreflexive(a: string)
    ensures !Less(a, a)
    decreases |a|
  {
    if a != [] {
      LessIrreflexive(a[1..]);
    }
  }

  lemma {:induction false} LessAsymmetric(a: string, b: string)
    ensures !(Less(a, b) && Less(b, a))
    decreases |a|
  {
    if a != [] && b != [] && a[0] == b[0] {
      LessAsymmetric(a[1..], b[1..]);
    }
  }

  lemma {:induction false} LessTransitive(a: string, b: string, c: string)
    requires Less(a, b) && Less(b, c)
    ensures Less(a, c)
    decreases |a|
  {
    if a != [] && a[0] == b[0] && b[0] == c[0] {
      LessTransitive(a[1..], b[1..], c[1..]);
    }
  }

  /** Two strings are equal or one is below the other. */
  lemma {:induction false} LessTotal(a: string, b: string)
    ensures a == b || Less(a, b) || Less(b, a)
    decreases |a|
  {
    if a != [] && b != [] && a[0] == b[0] {
      LessTotal(a[1..], b[1..]);
      if a[1..] == b[1..] {
        assert a == [a[0]] + a[1..] && b == [b[0]] + b[1..];
      }
    }
  }

  /** Removing a prefix without `c` from the input of TakeUntil removes it from the result. */
  lemma {:induction false} TakeUntilAppend(a: string, b: string, c: char)
    requires c !in a
    ensures TakeUntil(a + b, c) == a + TakeUntil(b, c)
    decreases |a|
  {
    if a != [] {
      assert (a + b)[0] == a[0] && (a + b)[1..] == a[1..] + b;
      TakeUntilAppend(a[1..], b, c);
      assert a == [a[0]] + a[1..];
    } else {
      assert a + b == b;
    }
  }

  /** A string without `c` is its own TakeUntil. */
  lemma TakeUntilAbsent(s: string, c: char)
    requires c !in s
    ensures TakeUntil(s, c) == s
  {
  }

  /** Occurrences of `pat` in a suffix of `s` are occurrences in `s`, shifted. */
  lemma OccursInSuffix(s: string, pat: string, m: nat, j: nat)
    requires m <= |s|
    ensures OccursAt(s[m..], pat, j) <==> OccursAt(s, pat, m + j)
  {
    if m + j + |pat| <= |s| {
      assert s[m..][j..j + |pat|] == s[m + j..m + j + |pat|];
    }
  }

  /** With no occurrence before `m`, the first occurrence in `s[m..]` is the
      first occurrence in `s`, shifted by `m`. */
  lemma FirstOccurrenceInSuffix(s: string, pat: string, m: nat, k: nat)
    requires m <= |s|
    requires forall j: nat :: j < m ==> !OccursAt(s, pat, j)
    requires FirstOccurrence(s[m..], pat, k)
    ensures FirstOccurrence(s, pat, m + k)
  {
    OccursInSuffix(s, pat, m, k);
    forall j: nat | j < m + k ensures !OccursAt(s, pat, j) {
      if j >= m {
        OccursInSuffix(s, pat, m, j - m);
      }
    }
  }

  /** With no occurrence before `m` and none in `s[m..]`, there is none at all. */
  lemma NoOccurrenceInSuffix(s: string, pat: string, m: nat)
    requires m <= |s|
    requires forall j: nat :: j < m ==> !OccursAt(s, pat, j)
    requires forall j: nat :: !OccursAt(s[m..], pat, j)
    ensures forall k: nat :: !OccursAt(s, pat, k)
  {
    forall k: nat ensures !OccursAt(s, pat, k) {
      if k >= m {
        OccursInSuffix(s, pat, m, k - m);
      }
    }
  }

  /** FindFirst returns the leftmost occurrence whenever there is one. */
  lemma FindFirstIs(s: string, pat: string, k: nat)
    requires FirstOccurrence(s, pat, k)
    ensures FindFirst(s, pat) == Some(k)
  {
  }

  /** When `pat` does not start before index `m`, replacing its first
      occurrence leaves the first `m` characters alone. */
  lemma ReplaceFirstAfter(s: string, pat: string, rep: string, m: nat)
    requires m <= |s|
    requires forall j: nat :: j < m ==> !OccursAt(s, pat, j)
    ensures ReplaceFirst(s, pat, rep) == s[..m] + ReplaceFirst(s[m..], pat, rep)
  {
    var t := s[m..];
    match FindFirst(t, pat)
    case None =>
      NoOccurrenceInSuffix(s, pat, m);
      assert FindFirst(s, pat).None?;
      assert s == s[..m] + t;
    case Some(k) =>
      FirstOccurrenceInSuffix(s, pat, m, k);
      FindFirstIs(s, pat, m + k);
      ReplaceFirstSplit(s, pat, rep, m, k);
  }

  lemma ReplaceFirstSplit(s: string, pat: string, rep: string, m: nat, k: nat)
    requires m <= |s|
    requires FindFirst(s[m..], pat) == Some(k)
    requires FindFirst(s, pat) == Some(m + k)
    ensures ReplaceFirst(s, pat, rep) == s[..m] + ReplaceFirst(s[m..], pat, rep)
  {
    var t := s[m..];
    assert OccursAt(t, pat, k);
    assert s[..m + k] == s[..m] + t[..k];
    assert s[m + k + |pat|..] == t[k + |pat|..];
  }

  /** ReplaceFirst changes nothing when `pat` does not occur, and otherwise
      replaces exactly the leftmost occurrence. */
  lemma ReplaceFirstReplacesLeftmost(s: string, pat: string, rep: string)
    ensures (forall k: nat :: !OccursAt(s, pat, k)) ==> ReplaceFirst(s, pat, rep) == s
    ensures forall k: nat :: FirstOccurrence(s, pat, k) ==>
              ReplaceFirst(s, pat, rep) == s[..k] + rep + s[k + |pat|..]
  {
    forall k: nat | FirstOccurrence(s, pat, k)
      ensures ReplaceFirst(s, pat, rep) == s[..k] + rep + s[k + |pat|..]
    {
      FindFirstIs(s, pat, k);
    }
  }

  /** A character found neither in `s` nor in `rep` is not in the result. */
  lemma ReplaceFirstKeepsOut(s: string, pat: string, rep: string, c: char)
    requires c !in s && c !in rep
    ensures c !in ReplaceFirst(s, pat, rep)
  {
    match FindFirst(s, pat)
    case None =>
    case Some(k) =>
      assert s[..k] + rep + s[k + |pat|..] == ReplaceFirst(s, pat, rep);
      assert forall x :: x in s[..k] || x in s[k + |pat|..] ==> x in s;
  }
}
