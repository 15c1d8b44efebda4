/** The Python `str` operations the application relies on, as pure functions
    over `seq<char>`: `strip`, `lower`, `in`/`find`, `replace(p, "")`,
    `split(c)` and `sep.join(...)`. Whitespace and case folding are those of
    Python restricted to the ASCII range. */
module Strings {
  import opened Wrappers

  // ---------------------------------------------------------------------------
  // Whitespace and trimming
  // ---------------------------------------------------------------------------

  /** Python's `str.isspace` on ASCII: the space, the controls \t \n \v \f \r
      (9 to 13) and the separators \x1c to \x1f (28 to 31). */
  predicate IsSpace(c: char) {
    c == ' ' || 9 <= c as int <= 13 || 28 <= c as int <= 31
  }

  /** Neither end of `s` is whitespace. */
  predicate IsTrimmed(s: string) {
    s == [] || (!IsSpace(s[0]) && !IsSpace(s[|s| - 1]))
  }

  /** `t` is a contiguous piece of `s`: a prefix of one of its suffixes. */
  ghost predicate IsInfix(t: string, s: string) {
    exists i :: 0 <= i <= |s| && t <= s[i..]
  }

  /** `r` is what is left of `s` once some whitespace is taken off its start
      and some off its end, and nothing else. */
  ghost predicate BordersOnlyRemoved(s: string, r: string) {
    exists lo, hi :: 0 <= lo <= hi <= |s| && r == s[lo..hi]
      && (forall k :: 0 <= k < lo ==> IsSpace(s[k]))
      && (forall k :: hi <= k < |s| ==> IsSpace(s[k]))
  }

  lemma PrefixIsInfix(t: string, s: string)
    requires t <= s
    ensures IsInfix(t, s)
  {
    assert s[0..] == s;
  }

  lemma SliceIsInfix(s: string, lo: int, hi: int)
    requires 0 <= lo <= hi <= |s|
    ensures IsInfix(s[lo..hi], s)
  {
    assert s[lo..hi] <= s[lo..];
  }

  lemma InfixTransitive(a: string, b: string, c: string)
    requires IsInfix(a, b) && IsInfix(b, c)
    ensures IsInfix(a, c)
  {
    var i :| 0 <= i <= |b| && a <= b[i..];
    var j :| 0 <= j <= |c| && b <= c[j..];
    assert a <= c[j + i..] by {
      forall k | 0 <= k < |a|
        ensures a[k] == c[j + i + k]
      {
        assert a[k] == b[i + k];
      }
    }
  }

  lemma InfixExcludesChar(t: string, s: string, c: char)
    requires IsInfix(t, s) && c !in s
    ensures c !in t
  {
    var i :| 0 <= i <= |s| && t <= s[i..];
    forall k | 0 <= k < |t|
      ensures t[k] != c
    {
      assert t[k] == s[i + k];
    }
  }

  /** Drops the leading whitespace of `s`. */
  function StripLeft(s: string): (r: string)
    ensures |r| <= |s| && r == s[|s| - |r|..]
    ensures forall k :: 0 <= k < |s| - |r| ==> IsSpace(s[k])
    ensures r == [] || !IsSpace(r[0])
  {
    if |s| > 0 && IsSpace(s[0]) then StripLeft(s[1..]) else s
  }

  /** Drops the trailing whitespace of `s`. */
  function StripRight(s: string): (r: string)
    ensures |r| <= |s| && r == s[..|r|]
    ensures forall k :: |r| <= k < |s| ==> IsSpace(s[k])
    ensures r == [] || !IsSpace(r[|r| - 1])
  {
    if |s| > 0 && IsSpace(s[|s| - 1]) then StripRight(s[..|s| - 1]) else s
  }

  /** Python's `s.strip()`: the piece of `s` left once whitespace is removed
      from both ends. */
  function Strip(s: string): (r: string)
    ensures |r| <= |s|
    ensures IsTrimmed(r)
    ensures IsInfix(r, s)
    ensures r == [] <==> forall k :: 0 <= k < |s| ==> IsSpace(s[k])
    ensures (s == [] || !IsSpace(s[0])) ==> r <= s
    ensures IsTrimmed(s) ==> r == s
    ensures BordersOnlyRemoved(s, r)
  {
    var left := StripLeft(s);
    var r := StripRight(left);
    StripBorders(s, left, r);
    assert r <= s[|s| - |left|..];
    assert r == [] ==> left == [];
    r
  }

  /** Stripping removes border whitespace only: `left` is what is left once
      the leading whitespace is dropped, and `r` is `left` with its trailing
      whitespace dropped, so `r` is a slice of `s` with whitespace around it. */
  lemma StripBorders(s: string, left: string, r: string)
    requires |left| <= |s| && left == s[|s| - |left|..]
    requires forall k :: 0 <= k < |s| - |left| ==> IsSpace(s[k])
    requires |r| <= |left| && r == left[..|r|]
    requires forall k :: |r| <= k < |left| ==> IsSpace(left[k])
    ensures BordersOnlyRemoved(s, r)
  {
    var lo := |s| - |left|;
    var hi := lo + |r|;
    assert r == s[lo..hi];
    forall k | hi <= k < |s|
      ensures IsSpace(s[k])
    {
      assert s[k] == left[k - lo];
    }
  }

  /** Taking border whitespace off `s` so that neither end is whitespace
      leaves one result only, so the contract of `Strip` determines it. */
  lemma StripUnique(s: string, r: string)
    requires IsTrimmed(r) && BordersOnlyRemoved(s, r)
    ensures r == Strip(s)
  {
    TrimmedBordersUnique(s, r, Strip(s));
  }

  lemma TrimmedBordersUnique(s: string, r1: string, r2: string)
    requires IsTrimmed(r1) && BordersOnlyRemoved(s, r1)
    requires IsTrimmed(r2) && BordersOnlyRemoved(s, r2)
    ensures r1 == r2
  {
    var lo1, hi1 :| 0 <= lo1 <= hi1 <= |s| && r1 == s[lo1..hi1]
      && (forall k :: 0 <= k < lo1 ==> IsSpace(s[k]))
      && (forall k :: hi1 <= k < |s| ==> IsSpace(s[k]));
    var lo2, hi2 :| 0 <= lo2 <= hi2 <= |s| && r2 == s[lo2..hi2]
      && (forall k :: 0 <= k < lo2 ==> IsSpace(s[k]))
      && (forall k :: hi2 <= k < |s| ==> IsSpace(s[k]));
    TrimmedSlicesEqual(s, lo1, hi1, lo2, hi2);
  }

  /** Two windows outside which `s` is all whitespace, each cutting out a
      trimmed piece, cut out the same piece. */
  lemma TrimmedSlicesEqual(s: string, lo1: int, hi1: int, lo2: int, hi2: int)
    requires 0 <= lo1 <= hi1 <= |s| && IsTrimmed(s[lo1..hi1])
    requires 0 <= lo2 <= hi2 <= |s| && IsTrimmed(s[lo2..hi2])
    requires forall k :: 0 <= k < lo1 ==> IsSpace(s[k])
    requires forall k :: hi1 <= k < |s| ==> IsSpace(s[k])
    requires forall k :: 0 <= k < lo2 ==> IsSpace(s[k])
    requires forall k :: hi2 <= k < |s| ==> IsSpace(s[k])
    ensures s[lo1..hi1] == s[lo2..hi2]
  {
    if lo1 < hi1 {
      assert s[lo1] == s[lo1..hi1][0] && s[hi1 - 1] == s[lo1..hi1][hi1 - lo1 - 1];
      BorderBounds(s, lo1, hi1, lo2, hi2);
    }
    if lo2 < hi2 {
      assert s[lo2] == s[lo2..hi2][0] && s[hi2 - 1] == s[lo2..hi2][hi2 - lo2 - 1];
      BorderBounds(s, lo2, hi2, lo1, hi1);
    }
  }

  /** A non-blank piece `s[lo..hi]` with non-space ends lies inside any
      window outside which `s` is all whitespace. */
  lemma BorderBounds(s: string, lo: int, hi: int, lo': int, hi': int)
    requires 0 <= lo < hi <= |s| && !IsSpace(s[lo]) && !IsSpace(s[hi - 1])
    requires 0 <= lo' <= hi' <= |s|
    requires forall k :: 0 <= k < lo' ==> IsSpace(s[k])
    requires forall k :: hi' <= k < |s| ==> IsSpace(s[k])
    ensures lo' <= lo && hi <= hi'
  {
  }

  lemma StripIdempotent(s: string)
    ensures Strip(Strip(s)) == Strip(s)
  {
  }

  // ---------------------------------------------------------------------------
  // Case folding
  // ---------------------------------------------------------------------------

  /** Python's `lower()` on one ASCII character. */
  function LowerChar(c: char): char {
    if 'A' <= c <= 'Z' then (c as int + 32) as char else c
  }

  /** Python's `upper()` on one ASCII character. */
  function UpperChar(c: char): char {
    if 'a' <= c <= 'z' then (c as int - 32) as char else c
  }

  /** Python's `s.lower()`, folding the ASCII letters only. */
  function ToLower(s: string): (r: string)
    ensures |r| == |s|
    ensures forall k :: 0 <= k < |s| ==> r[k] == LowerChar(s[k])
  {
    if s == [] then [] else [LowerChar(s[0])] + ToLower(s[1..])
  }

  /** Lower-casing commutes with taking a prefix. */
  lemma ToLowerTake(s: string, n: nat)
    requires n <= |s|
    ensures ToLower(s)[..n] == ToLower(s[..n])
  {
  }

  /** `a` spells `lower` in some mix of letter cases. */
  predicate MatchesAnyCase(a: string, lower: string) {
    && |a| == |lower|
    && forall k :: 0 <= k < |a| ==> a[k] == lower[k] || a[k] == UpperChar(lower[k])
  }

  /** Comparing `lower()` against a text without upper-case letters is the
      same as accepting that text in any letter case. */
  lemma ToLowerMatchesAnyCase(a: string, lower: string)
    requires forall k :: 0 <= k < |lower| ==> !('A' <= lower[k] <= 'Z')
    ensures ToLower(a) == lower <==> MatchesAnyCase(a, lower)
  {
    if |a| == |lower| {
      var t := ToLower(a);
      forall k | 0 <= k < |a|
        ensures t[k] == lower[k] <==> a[k] == lower[k] || a[k] == UpperChar(lower[k])
      {
        LowerCharMatches(a[k], lower[k]);
      }
      if MatchesAnyCase(a, lower) {
        assert t == lower;
      }
    }
  }

  /** One character lower-cases to `l`, which is not an upper-case letter,
      exactly when it is `l` in either case. */
  lemma LowerCharMatches(x: char, l: char)
    requires !('A' <= l <= 'Z')
    ensures LowerChar(x) == l <==> x == l || x == UpperChar(l)
  {
  }

  // ---------------------------------------------------------------------------
  // Searching
  // ---------------------------------------------------------------------------

  /** `m` occurs in `s` starting at index `i`. */
  predicate OccursAt(s: string, m: string, i: int) {
    0 <= i <= |s| - |m| && m <= s[i..]
  }

  /** The first occurrence of `m` in `s` at or after index `from`. */
  function FindFrom(s: string, m: string, from: nat): (r: Option<nat>)
    decreases |s| - from
    ensures r.Some? ==> from <= r.value && OccursAt(s, m, r.value)
    ensures r.Some? ==> forall j :: from <= j < r.value ==> !OccursAt(s, m, j)
    ensures r.None? ==> forall j :: from <= j ==> !OccursAt(s, m, j)
  {
    if from + |m| > |s| then None
    else if m <= s[from..] then Some(from)
    else FindFrom(s, m, from + 1)
  }

  /** Python's `s.find(m)`, with `None` for -1. */
  function Find(s: string, m: string): (r: Option<nat>)
    ensures r.Some? ==> OccursAt(s, m, r.value)
    ensures r.Some? ==> forall j :: 0 <= j < r.value ==> !OccursAt(s, m, j)
    ensures r.None? ==> forall j :: !OccursAt(s, m, j)
  {
    FindFrom(s, m, 0)
  }

  /** Python's `m in s`. */
  predicate Contains(s: string, m: string) {
    Find(s, m).Some?
  }

  /** `m in s` holds exactly when `m` occurs somewhere in `s`. */
  lemma ContainsIffOccurs(s: string, m: string)
    ensures Contains(s, m) <==> exists i :: OccursAt(s, m, i)
  {
    if Contains(s, m) {
      assert OccursAt(s, m, Find(s, m).value);
    }
  }

  /** An occurrence inside a piece of `s` is an occurrence in `s`. */
  lemma ContainsInfix(t: string, s: string, m: string)
    requires IsInfix(t, s) && Contains(t, m)
    ensures Contains(s, m)
  {
    var i :| 0 <= i <= |s| && t <= s[i..];
    var j := Find(t, m).value;
    forall k | 0 <= k < |m|
      ensures m[k] == s[i + j + k]
    {
      assert m[k] == t[j + k];
    }
    assert OccursAt(s, m, i + j);
  }

  /** An occurrence of `m` uses only characters of the text. */
  lemma OccurrenceChars(s: string, m: string, j: int)
    ensures OccursAt(s, m, j) ==> forall k :: 0 <= k < |m| ==> m[k] in s
  {
    if OccursAt(s, m, j) {
      forall k | 0 <= k < |m|
        ensures m[k] in s
      {
        assert m[k] == s[j + k];
      }
    }
  }

  /** A pattern holding a character the text lacks does not occur in it. */
  lemma AbsentChar(s: string, m: string, c: char)
    requires c in m && c !in s
    ensures !Contains(s, m)
  {
    forall j
      ensures !OccursAt(s, m, j)
    {
      OccurrenceChars(s, m, j);
    }
  }

  /** A pattern whose first character is missing from `a` is first found
      where `b` starts, when `b` begins with it. */
  lemma FindAtJoint(a: string, b: string, m: string)
    requires m != [] && m[0] !in a && m <= b
    ensures Find(a + b, m) == Some(|a|)
  {
    var s := a + b;
    assert OccursAt(s, m, |a|);
    forall j | 0 <= j < |a|
      ensures !OccursAt(s, m, j)
    {
      assert s[j] == a[j];
    }
  }

  /** A text contains each of its prefixes. */
  lemma PrefixContained(s: string, m: string)
    ensures m <= s ==> Contains(s, m)
  {
    if m <= s {
      assert OccursAt(s, m, 0);
    }
  }

  /** Absence of a pattern carries over from a text to its pieces. */
  lemma InfixKeepsAbsence(t: string, s: string, m: string)
    requires IsInfix(t, s)
    ensures Contains(t, m) ==> Contains(s, m)
  {
    if Contains(t, m) {
      ContainsInfix(t, s, m);
    }
  }

  /** The text before the first occurrence of `m` does not contain `m`. */
  lemma BeforeFirstOccurrence(s: string, m: string)
    requires m != [] && Contains(s, m)
    ensures !Contains(s[..Find(s, m).value], m)
  {
    var i := Find(s, m).value;
    var t := s[..i];
    forall j | OccursAt(t, m, j)
      ensures OccursAt(s, m, j)
    {
      forall k | 0 <= k < |m|
        ensures m[k] == s[j + k]
      {
        assert m[k] == t[j + k];
      }
    }
  }

  /** An occurrence of a pattern free of `c` in `a + [c] + b` lies wholly in
      `a` or wholly in `b`. */
  lemma ContainsAroundSeparator(a: string, b: string, c: char, m: string)
    requires c !in m
    requires Contains(a + [c] + b, m)
    ensures Contains(a, m) || Contains(b, m)
  {
    var s := a + [c] + b;
    var i := Find(s, m).value;
    OccurrenceCovers(s, m, i, |a|);
    assert s[|a|] == c;
    if i + |m| <= |a| {
      forall k | 0 <= k < |m|
        ensures m[k] == a[i + k]
      {
        assert m[k] == s[i + k];
      }
      assert OccursAt(a, m, i);
    } else {
      forall k | 0 <= k < |m|
        ensures m[k] == b[i - |a| - 1 + k]
      {
        assert m[k] == s[i + k];
      }
      assert OccursAt(b, m, i - |a| - 1);
    }
  }

  /** Every position an occurrence of `m` covers holds a character of `m`. */
  lemma OccurrenceCovers(s: string, m: string, i: int, k: int)
    requires OccursAt(s, m, i) && 0 <= k < |s|
    ensures i <= k < i + |m| ==> s[k] in m
  {
    if i <= k < i + |m| {
      assert m[k - i] == s[k];
    }
  }

  // ---------------------------------------------------------------------------
  // Replacing
  // ---------------------------------------------------------------------------

  /** Python's `s.replace(p, "")`: scanning left to right, every occurrence
      of `p` that does not overlap an earlier removed one is deleted. An empty
      `p` leaves `s` unchanged. */
  function RemoveAll(s: string, p: string): (r: string)
    decreases |s|
    ensures |r| <= |s|
  {
    if p == [] || |s| < |p| then s
    else if p <= s then RemoveAll(s[|p|..], p)
    else [s[0]] + RemoveAll(s[1..], p)
  }

  /** A text without the pattern is left as it is. */
  lemma {:induction false} RemoveAllAbsent(s: string, p: string)
    ensures !Contains(s, p) ==> RemoveAll(s, p) == s
    decreases |s|
  {
    if !Contains(s, p) && p != [] && |s| >= |p| {
      PrefixContained(s, p);
      TailKeepsAbsence(s, p);
      RemoveAllAbsent(s[1..], p);
      assert [s[0]] + s[1..] == s;
    }
  }

  lemma TailKeepsAbsence(s: string, m: string)
    requires |s| > 0
    ensures !Contains(s, m) ==> !Contains(s[1..], m)
  {
    if Contains(s[1..], m) {
      SliceIsInfix(s, 1, |s|);
      assert s[1..|s|] == s[1..];
      ContainsInfix(s[1..], s, m);
    }
  }

  /** If `s` does not start with `p`, its first occurrence of `p` is one past
      the first occurrence in `s[1..]`. */
  lemma FindShift(s: string, p: string)
    requires |s| > 0 && !(p <= s)
    ensures Find(s, p).None? <==> Find(s[1..], p).None?
    ensures Find(s, p).Some? ==> Find(s, p).value == Find(s[1..], p).value + 1
  {
    var t := s[1..];
    forall j | 0 <= j
      ensures OccursAt(s, p, j + 1) <==> OccursAt(t, p, j)
    {
      if OccursAt(t, p, j) {
        forall k | 0 <= k < |p|
          ensures p[k] == s[j + 1 + k]
        {
          assert p[k] == t[j + k];
        }
      }
      if OccursAt(s, p, j + 1) {
        forall k | 0 <= k < |p|
          ensures p[k] == t[j + k]
        {
          assert p[k] == s[j + 1 + k];
        }
      }
    }
    assert !OccursAt(s, p, 0);
    if Find(t, p).Some? {
      assert OccursAt(s, p, Find(t, p).value + 1);
    }
    if Find(s, p).Some? {
      assert OccursAt(t, p, Find(s, p).value - 1);
    }
  }

  /** The reference reading of `replace`: keep the text before the first
      occurrence of `p`, drop that occurrence, and continue after it (with no
      occurrence the text is kept whole, as `RemoveAll` itself ensures). */
  lemma RemoveAllAtFirstOccurrence(s: string, p: string)
    requires p != [] && Contains(s, p)
    ensures RemoveAll(s, p)
            == s[..Find(s, p).value] + RemoveAll(s[Find(s, p).value + |p|..], p)
  {
    var i := Find(s, p).value;
    RemoveAllAtFirst(s, p, i);
    assert s[i + |p|..] == s[Find(s, p).value + |p|..];
  }

  /** The same, for the index of the first occurrence given explicitly. */
  lemma RemoveAllAtFirst(s: string, p: string, i: nat)
    requires p != [] && Find(s, p).Some? && Find(s, p).value == i
    ensures RemoveAll(s, p) == s[..i] + RemoveAll(s[i + |p|..], p)
  {
    NoneBeforeFirst(s, p, i);
    RemoveAllAtFound(s, p, i);
  }

  /** No occurrence of `p` starts before index `i` of `s`, checked one place
      at a time the way the scan of `RemoveAll` moves. */
  predicate NoneBefore(s: string, p: string, i: nat)
    decreases i
  {
    i == 0 || (|s| > 0 && !(p <= s) && NoneBefore(s[1..], p, i - 1))
  }

  /** The scan reaches an occurrence at `i` with nothing removed before it. */
  lemma {:induction false} RemoveAllAtFound(s: string, p: string, i: nat)
    requires p != [] && i + |p| <= |s| && p <= s[i..] && NoneBefore(s, p, i)
    ensures RemoveAll(s, p) == s[..i] + RemoveAll(s[i + |p|..], p)
    decreases i
  {
    if i == 0 {
      assert s[0..] == s;
      RemoveAllAtStart(s, p);
    } else {
      var t, j := s[1..], i - 1;
      assert t[j..] == s[i..];
      RemoveAllAtFound(t, p, j);
      RemoveAllSkip(s, p);
      RemoveAllShiftedCut(s, p, i, t, j);
    }
  }

  /** A text not starting with `p` keeps its first character. */
  lemma RemoveAllSkip(s: string, p: string)
    requires p != [] && |s| >= |p| && !(p <= s)
    ensures RemoveAll(s, p) == [s[0]] + RemoveAll(s[1..], p)
  {
  }

  /** Having no occurrence before `i` gives the step-by-step form. */
  lemma {:induction false} NoneBeforeFirst(s: string, p: string, i: nat)
    requires p != [] && OccursAt(s, p, i)
    requires forall j :: 0 <= j < i ==> !OccursAt(s, p, j)
    ensures i + |p| <= |s| && p <= s[i..] && NoneBefore(s, p, i)
    decreases i
  {
    if i > 0 {
      assert !OccursAt(s, p, 0) && s[0..] == s;
      OccursShift(s, p, i - 1);
      forall j | 0 <= j < i - 1
        ensures !OccursAt(s[1..], p, j)
      {
        OccursShift(s, p, j);
      }
      NoneBeforeFirst(s[1..], p, i - 1);
    }
  }

  /** An occurrence in `s[1..]` is an occurrence in `s`, one place later. */
  lemma OccursShift(s: string, p: string, j: nat)
    requires |s| > 0
    ensures OccursAt(s[1..], p, j) <==> OccursAt(s, p, j + 1)
  {
    if j + 1 <= |s| {
      assert s[1..][j..] == s[j + 1..];
    }
  }

  lemma RemoveAllAtStart(s: string, p: string)
    requires p != [] && p <= s
    ensures RemoveAll(s, p) == s[..0] + RemoveAll(s[|p|..], p)
  {
    RemoveAllLeading(p, s[|p|..]);
    assert p + s[|p|..] == s;
    assert s[..0] == [];
  }

  /** Re-indexes a cut found in `s[1..]` as a cut in `s`. */
  lemma RemoveAllShiftedCut(s: string, p: string, i: nat, t: string, j: nat)
    requires 1 <= i && i + |p| <= |s| && t == s[1..] && j == i - 1
    requires RemoveAll(s, p) == [s[0]] + RemoveAll(t, p)
    requires RemoveAll(t, p) == t[..j] + RemoveAll(t[j + |p|..], p)
    ensures RemoveAll(s, p) == s[..i] + RemoveAll(s[i + |p|..], p)
  {
    assert t[j + |p|..] == s[i + |p|..];
    ConsSlice(s, i, RemoveAll(s[i + |p|..], p));
  }

  lemma ConsSlice(s: string, i: nat, w: string)
    requires 1 <= i <= |s|
    ensures [s[0]] + (s[1..][..i - 1] + w) == s[..i] + w
  {
    assert [s[0]] + s[1..][..i - 1] == s[..i];
  }

  /** A prefix equal to the pattern is removed, whatever follows it. */
  lemma RemoveAllLeading(p: string, t: string)
    requires p != []
    ensures RemoveAll(p + t, p) == RemoveAll(t, p)
  {
    assert (p + t)[|p|..] == t;
  }

  /** The scan is a single pass: removing an occurrence can join the text
      around it into a new occurrence, which stays. */
  lemma RemoveAllIsSinglePass()
    ensures RemoveAll("aabb", "ab") == "ab"
    ensures Contains(RemoveAll("aabb", "ab"), "ab")
  {
    assert "aabb"[1..] == "abb";
    assert "ab" <= "abb";
    assert "abb"[2..] == "b";
    assert RemoveAll("b", "ab") == "b";
    assert OccursAt("ab", "ab", 0);
  }

  // ---------------------------------------------------------------------------
  // Splitting and joining
  // ---------------------------------------------------------------------------

  /** Python's `s.split(c)` for a one-character separator: the pieces between
      separators, always at least one. */
  function Split(s: string, c: char): (r: seq<string>)
    ensures |r| >= 1
    ensures forall k :: 0 <= k < |r| ==> c !in r[k]
    ensures r[0] <= s
  {
    if s == [] then [[]]
    else
      var rest := Split(s[1..], c);
      if s[0] == c then [[]] + rest
      else [[s[0]] + rest[0]] + rest[1..]
  }

  /** Python's `sep.join(xs)`: the pieces in order with `sep` between
      neighbours, so the first piece starts it and the last one ends it. */
  function Join(xs: seq<string>, sep: string): (r: string)
    ensures |xs| == 0 ==> r == []
    ensures |xs| == 1 ==> r == xs[0]
    ensures |xs| > 0 ==> xs[0] <= r
  {
    if |xs| == 0 then []
    else if |xs| == 1 then xs[0]
    else xs[0] + sep + Join(xs[1..], sep)
  }

  /** The last piece ends the join. */
  lemma {:induction false} JoinEndsWithLast(xs: seq<string>, sep: string)
    requires |xs| > 0
    ensures var r, last := Join(xs, sep), xs[|xs| - 1];
            |last| <= |r| && r[|r| - |last|..] == last
  {
    if |xs| > 1 {
      var last, t := xs[|xs| - 1], Join(xs[1..], sep);
      JoinEndsWithLast(xs[1..], sep);
      assert xs[1..][|xs| - 2] == last;
      SuffixAfter(xs[0] + sep, t, |last|);
    }
  }

  /** A suffix of `t` is a suffix of anything ending in `t`. */
  lemma SuffixAfter(u: string, t: string, n: nat)
    requires n <= |t|
    ensures (u + t)[|u + t| - n..] == t[|t| - n..]
  {
  }

  /** Joining two non-empty lists puts one separator between their joins. */
  lemma {:induction false} JoinConcat(xs: seq<string>, ys: seq<string>, sep: string)
    requires |xs| > 0 && |ys| > 0
    ensures Join(xs + ys, sep) == Join(xs, sep) + sep + Join(ys, sep)
  {
    assert (xs + ys)[0] == xs[0];
    assert (xs + ys)[1..] == xs[1..] + ys;
    if |xs| > 1 {
      JoinConcat(xs[1..], ys, sep);
    }
  }

  /** Joining the pieces with the separator gives back the split text. */
  lemma {:induction false} JoinSplit(s: string, c: char)
    ensures Join(Split(s, c), [c]) == s
  {
    if s != [] {
      var rest := Split(s[1..], c);
      JoinSplit(s[1..], c);
      if s[0] == c {
        assert Split(s, c) == [[]] + rest;
        JoinCons([], rest, [c]);
      } else {
        assert Split(s, c) == [[s[0]] + rest[0]] + rest[1..];
        JoinExtendFirst([s[0]], rest, [c]);
      }
      assert [s[0]] + s[1..] == s;
    }
  }

  /** A piece put in front of a non-empty list is followed by one separator. */
  lemma JoinCons(x: string, xs: seq<string>, sep: string)
    requires |xs| > 0
    ensures Join([x] + xs, sep) == x + sep + Join(xs, sep)
  {
    assert ([x] + xs)[1..] == xs;
  }

  /** Text put in front of the first piece comes first in the join. */
  lemma JoinExtendFirst(a: string, xs: seq<string>, sep: string)
    requires |xs| > 0
    ensures Join([a + xs[0]] + xs[1..], sep) == a + Join(xs, sep)
  {
    var ys := [a + xs[0]] + xs[1..];
    assert ys[1..] == xs[1..];
    if |xs| > 1 {
      assert Join(ys, sep) == (a + xs[0]) + sep + Join(xs[1..], sep);
    }
  }

  /** A separator-free text splits into itself. */
  lemma {:induction false} SplitNoSeparator(s: string, c: char)
    requires c !in s
    ensures Split(s, c) == [s]
  {
    if s != [] {
      SplitNoSeparator(s[1..], c);
      assert [s[0]] + s[1..] == s;
    }
  }

  /** Several pieces can only come from a text holding the separator. */
  lemma SplitManyHasSeparator(s: string, c: char)
    requires |Split(s, c)| > 1
    ensures c in s
  {
    if c !in s {
      SplitNoSeparator(s, c);
    }
  }

  /** A separator-free piece followed by the separator is split off whole. */
  lemma {:induction false} SplitAfterPiece(a: string, t: string, c: char)
    requires c !in a
    ensures Split(a + [c] + t, c) == [a] + Split(t, c)
  {
    if a == [] {
      assert ([c] + t)[1..] == t;
    } else {
      SplitAfterPiece(a[1..], t, c);
      assert (a + [c] + t)[0] == a[0];
      assert (a + [c] + t)[1..] == a[1..] + [c] + t;
      assert [a[0]] + a[1..] == a;
    }
  }

  /** Splitting the join of separator-free pieces gives the pieces back. */
  lemma {:induction false} SplitJoin(xs: seq<string>, c: char)
    requires |xs| >= 1
    requires forall k :: 0 <= k < |xs| ==> c !in xs[k]
    ensures Split(Join(xs, [c]), c) == xs
  {
    if |xs| == 1 {
      SplitNoSeparator(xs[0], c);
    } else {
      SplitJoin(xs[1..], c);
      SplitAfterPiece(xs[0], Join(xs[1..], [c]), c);
      assert [xs[0]] + xs[1..] == xs;
    }
  }

  /** Every piece of a split is a contiguous piece of the text. */
  lemma {:induction false} SplitPiecesAreInfixes(s: string, c: char)
    ensures forall k :: 0 <= k < |Split(s, c)| ==> IsInfix(Split(s, c)[k], s)
  {
    if s == [] {
      PrefixIsInfix([], s);
    } else {
      var t := s[1..];
      var r, rest := Split(s, c), Split(t, c);
      SplitPiecesAreInfixes(t, c);
      var shift := if s[0] == c then 1 else 0;
      assert |r| == |rest| + shift;
      assert forall k :: 1 <= k < |r| ==> r[k] == rest[k - shift];
      SliceIsInfix(s, 1, |s|);
      assert s[1..|s|] == t;
      LaterPiecesAreInfixes(s, t, r, rest, shift);
    }
  }

  /** A first piece that starts `s`, followed by pieces of `t` shifted by
      `shift` places, are all pieces of `s` when `t` is. */
  lemma LaterPiecesAreInfixes(s: string, t: string, r: seq<string>, rest: seq<string>, shift: nat)
    requires IsInfix(t, s) && |r| >= 1 && r[0] <= s
    requires shift <= 1 && |r| == |rest| + shift
    requires forall k :: 1 <= k < |r| ==> r[k] == rest[k - shift]
    requires forall k :: 0 <= k < |rest| ==> IsInfix(rest[k], t)
    ensures forall k :: 0 <= k < |r| ==> IsInfix(r[k], s)
  {
    forall k | 0 <= k < |r|
      ensures IsInfix(r[k], s)
    {
      if k == 0 {
        PrefixIsInfix(r[0], s);
      } else {
        assert IsInfix(rest[k - shift], t);
        InfixTransitive(r[k], t, s);
      }
    }
  }

  /** `r` ends `s` and is preceded there by `c`, unless it is all of `s`. */
  predicate EndsAfter(r: string, s: string, c: char) {
    |r| <= |s| && r == s[|s| - |r|..] && (|r| == |s| || s[|s| - |r| - 1] == c)
  }

  /** The last piece of a split is the suffix after the last separator, or
      the whole text when there is none. */
  lemma {:induction false} LastPiece(s: string, c: char)
    ensures EndsAfter(Split(s, c)[|Split(s, c)| - 1], s, c)
  {
    if s != [] {
      var t := s[1..];
      LastPiece(t, c);
      if s[0] == c || |Split(t, c)| > 1 {
        LastPieceOfRest(s, c, t);
      } else {
        LastPieceWhole(s, c, t);
      }
    }
  }

  /** When `s` starts with `c` or its tail holds a separator, the last piece
      is the tail's last piece. */
  lemma LastPieceOfRest(s: string, c: char, t: string)
    requires s != [] && t == s[1..] && (s[0] == c || |Split(t, c)| > 1)
    requires EndsAfter(Split(t, c)[|Split(t, c)| - 1], t, c)
    ensures EndsAfter(Split(s, c)[|Split(s, c)| - 1], s, c)
  {
    var rest, pieces := Split(t, c), Split(s, c);
    var r := rest[|rest| - 1];
    assert pieces[|pieces| - 1] == r;
    if s[0] != c {
      SplitManyHasSeparator(t, c);
    }
    SuffixShift(s, t, r, c);
  }

  /** Otherwise the tail is one piece and the last piece is all of `s`. */
  lemma LastPieceWhole(s: string, c: char, t: string)
    requires s != [] && t == s[1..] && s[0] != c && |Split(t, c)| == 1
    ensures Split(s, c)[|Split(s, c)| - 1] == s
  {
    JoinSplit(t, c);
    assert Split(s, c) == [[s[0]] + t];
  }

  /** A suffix of `s[1..]` that follows a `c` there, or the whole of it when
      `s` starts with `c`, follows a `c` in `s`. */
  lemma SuffixShift(s: string, t: string, r: string, c: char)
    requires |s| > 0 && t == s[1..]
    requires EndsAfter(r, t, c) && (|r| == |t| ==> s[0] == c)
    ensures EndsAfter(r, s, c) && |r| < |s|
  {
    assert t[|t| - |r|..] == s[|s| - |r|..];
  }

  /** A pattern free of `c` that occurs in no piece does not occur in the
      pieces joined by `c` either. */
  lemma {:induction false} JoinKeepsAbsence(xs: seq<string>, c: char, m: string)
    requires m != [] && c !in m
    requires forall k :: 0 <= k < |xs| ==> !Contains(xs[k], m)
    ensures !Contains(Join(xs, [c]), m)
  {
    if |xs| == 0 {
      assert !OccursAt([], m, 0);
    } else if |xs| > 1 {
      JoinKeepsAbsence(xs[1..], c, m);
      if Contains(Join(xs, [c]), m) {
        ContainsAroundSeparator(xs[0], Join(xs[1..], [c]), c, m);
      }
    }
  }

  /** Joining non-empty trimmed pieces gives a trimmed text. */
  lemma {:induction false} JoinTrimmed(xs: seq<string>, sep: string)
    requires forall k :: 0 <= k < |xs| ==> xs[k] != [] && IsTrimmed(xs[k])
    ensures IsTrimmed(Join(xs, sep))
    ensures |xs| > 0 ==> Join(xs, sep) != []
  {
    if |xs| > 1 {
      JoinTrimmed(xs[1..], sep);
      var j := xs[0] + sep + Join(xs[1..], sep);
      assert j[0] == xs[0][0];
      assert j[|j| - 1] == Join(xs[1..], sep)[|Join(xs[1..], sep)| - 1];
    }
  }
}
