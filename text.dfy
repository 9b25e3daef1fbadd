// String helpers the editor relies on: substring search, splitting on a
// separator (`components(separatedBy:)`), prefix trimming and an ASCII
// stand-in for Unicode case mapping.

module Text {
  import opened Wrappers

  /** `sep` occurs in `s` starting at index `i`. */
  predicate OccursAt(s: string, sep: string, i: nat)
  {
    i + |sep| <= |s| && s[i..i + |sep|] == sep
  }

  /** `s` contains no occurrence of `sep` at all. */
  ghost predicate Free(s: string, sep: string)
  {
    forall i: nat :: !OccursAt(s, sep, i)
  }

  /** The first occurrence of a non-empty `sep` in `s` at or after `from`. */
  function FindFrom(s: string, sep: string, from: nat): (r: Option<nat>)
    requires |sep| > 0
    decreases |s| - from
    ensures r.Some? ==> from <= r.value && OccursAt(s, sep, r.value)
    ensures r.Some? ==> forall j: nat :: from <= j < r.value ==> !OccursAt(s, sep, j)
    ensures r.None? ==> forall j: nat :: from <= j ==> !OccursAt(s, sep, j)
  {
    if from + |sep| > |s| then None
    else if s[from..from + |sep|] == sep then Some(from)
    else FindFrom(s, sep, from + 1)
  }

  /** The first occurrence of a non-empty `sep` in `s`. */
  function Find(s: string, sep: string): (r: Option<nat>)
    requires |sep| > 0
    ensures r.Some? ==> OccursAt(s, sep, r.value)
    ensures r.Some? ==> forall j: nat :: j < r.value ==> !OccursAt(s, sep, j)
    ensures r.None? ==> forall j: nat :: !OccursAt(s, sep, j)
  {
    FindFrom(s, sep, 0)
  }

  /** Nothing before the first occurrence; no occurrence exactly when none is found. */
  lemma FindFirst(s: string, sep: string)
    requires |sep| > 0
    ensures Find(s, sep).Some? ==> Free(s[..Find(s, sep).value], sep)
    ensures Find(s, sep).None? <==> Free(s, sep)
  {
    var r := FindFrom(s, sep, 0);
    if r.Some? {
      forall j: nat | OccursAt(s[..r.value], sep, j)
        ensures false
      {
        assert s[..r.value][j..j + |sep|] == s[j..j + |sep|];
        assert OccursAt(s, sep, j);
      }
    }
  }

  /** The parts of `s` between the occurrences of `sep`, left to right. */
  function Split(s: string, sep: string): (parts: seq<string>)
    requires |sep| > 0
    decreases |s|
    ensures |parts| >= 1
  {
    match Find(s, sep)
    case None => [s]
    case Some(i) => [s[..i]] + Split(s[i + |sep|..], sep)
  }

  /** No part holds the separator, and there is one part exactly when `s` has none. */
  lemma {:induction false} SplitPartsFree(s: string, sep: string)
    requires |sep| > 0
    decreases |s|
    ensures forall k :: 0 <= k < |Split(s, sep)| ==> Free(Split(s, sep)[k], sep)
    ensures |Split(s, sep)| == 1 <==> Free(s, sep)
  {
    FindFirst(s, sep);
    match Find(s, sep)
    case None =>
    case Some(i) =>
      SplitPartsFree(s[i + |sep|..], sep);
      assert Split(s, sep)[1..] == Split(s[i + |sep|..], sep);
  }

  /** The parts joined back together with `sep` between them. */
  function Join(parts: seq<string>, sep: string): string
    requires |parts| >= 1
  {
    if |parts| == 1 then parts[0] else parts[0] + sep + Join(parts[1..], sep)
  }

  lemma {:induction false} SplitJoin(s: string, sep: string)
    requires |sep| > 0
    decreases |s|
    ensures Join(Split(s, sep), sep) == s
  {
    match Find(s, sep)
    case None =>
    case Some(i) =>
      var rest := s[i + |sep|..];
      var ps := Split(s, sep);
      assert ps == [s[..i]] + Split(rest, sep);
      SplitJoin(rest, sep);
      assert ps[1..] == Split(rest, sep);
      assert Join(ps, sep) == s[..i] + sep + Join(Split(rest, sep), sep);
      assert s[i..i + |sep|] == sep;
      assert s == s[..i] + s[i..i + |sep|] + rest;
  }

  /**
   * A match of `sep` that starts no later than `i` only reads characters
   * before `i + |sep|`, so the first occurrence is decided by that prefix.
   */
  lemma FindPrefix(s: string, sep: string, t: string)
    requires |sep| > 0 && Find(s, sep).Some?
    ensures Find(s[..Find(s, sep).value + |sep|] + t, sep) == Find(s, sep)
  {
    var i := Find(s, sep).value;
    assert FindFrom(s, sep, 0) == Some(i);
    var u := s[..i + |sep|] + t;
    assert u[..i + |sep|] == s[..i + |sep|];
    assert OccursAt(u, sep, i) by {
      assert u[i..i + |sep|] == s[i..i + |sep|];
    }
    forall j: nat | j < i
      ensures !OccursAt(u, sep, j)
    {
      assert !OccursAt(s, sep, j);
      assert u[j..j + |sep|] == s[j..j + |sep|];
    }
    assert FindFrom(u, sep, 0) == Some(i);
  }

  /** The first part of a split is the text before the first separator. */
  lemma SplitHead(s: string, sep: string)
    requires |sep| > 0
    ensures Split(s, sep)[0] == if Find(s, sep).Some? then s[..Find(s, sep).value] else s
  {
  }

  /** The second part of a split is the head of the split of the remainder. */
  lemma SplitSecond(s: string, sep: string)
    requires |sep| > 0 && Find(s, sep).Some?
    ensures Split(s, sep)[1] == Split(s[Find(s, sep).value + |sep|..], sep)[0]
  {
  }

  /** A string free of the separator splits into itself alone. */
  lemma SplitFree(s: string, sep: string)
    requires |sep| > 0 && Free(s, sep)
    ensures Split(s, sep) == [s]
  {
    FindFirst(s, sep);
  }

  /** A prefix of a string free of `sep` is free of it too. */
  lemma FreePrefix(s: string, t: string, sep: string)
    requires Free(s, sep) && t <= s
    ensures Free(t, sep)
  {
    forall i: nat | OccursAt(t, sep, i)
      ensures false
    {
      assert t[i..i + |sep|] == s[i..i + |sep|];
      assert OccursAt(s, sep, i);
    }
  }

  /**
   * When `sep` first occurs right after `a`, splitting `a + sep + rest`
   * yields `a` and then the head of the split of `rest`.
   */
  lemma SplitAfter(a: string, sep: string, rest: string)
    requires |sep| > 0 && Find(a + sep, sep) == Some(|a|)
    ensures Find(a + sep + rest, sep) == Some(|a|)
    ensures Split(a + sep + rest, sep)[0] == a
    ensures Split(a + sep + rest, sep)[1] == Split(rest, sep)[0]
  {
    FindPrefix(a + sep, sep, rest);
    assert (a + sep)[..|a| + |sep|] == a + sep;
    var s := a + sep + rest;
    SplitHead(s, sep);
    assert s[..|a|] == a;
    SplitSecond(s, sep);
    assert s[|a| + |sep|..] == rest;
  }

  /**
   * A string `c` without the separator's first character keeps its place at
   * the head of a split, when what follows does not start a separator.
   */
  lemma SplitKeepsPrefix(c: string, suffix: string, sep: string)
    requires |sep| > 0 && sep[0] !in c
    requires suffix == [] || suffix[0] != sep[0]
    ensures c <= Split(c + suffix, sep)[0]
  {
    var s := c + suffix;
    SplitHead(s, sep);
    FoundAfter(c, suffix, sep);
    if Find(s, sep).Some? {
      var j := Find(s, sep).value;
      assert s[..j][..|c|] == s[..|c|];
    }
    assert s[..|c|] == c;
  }

  /** A separator whose first character `c` lacks is found no earlier than the end of `c`. */
  lemma FoundAfter(c: string, suffix: string, sep: string)
    requires |sep| > 0 && sep[0] !in c
    ensures Find(c + suffix, sep).Some? ==> Find(c + suffix, sep).value >= |c|
  {
  }

  /**
   * Splitting at a one-character mark that `c` lacks gives `c` back when
   * the string is `c` itself or continues with the mark.
   */
  lemma SplitAtMark(c: string, t: string, mark: char)
    requires mark !in c && c <= t
    requires |t| > |c| ==> t[|c|] == mark
    ensures Split(t, [mark])[0] == c
  {
    SplitHead(t, [mark]);
    if |t| > |c| {
      assert OccursAt(t, [mark], |c|) by {
        assert t[|c|..|c| + 1] == [mark];
      }
    }
    if Find(t, [mark]).Some? {
      var k := Find(t, [mark]).value;
      assert t[k..k + 1] == [mark];
      assert t[k] == mark;
    }
  }

  /** `s` without the prefix `p` if it starts with it (`trimmingPrefix`). */
  function TrimPrefix(s: string, p: string): (r: string)
    ensures p <= s ==> p + r == s
    ensures !(p <= s) ==> r == s
  {
    if p <= s then s[|p|..] else s
  }

  /** `sub` occurs somewhere in `s` (a non-empty needle). */
  predicate Contains(s: string, sub: string)
    requires |sub| > 0
  {
    Find(s, sub).Some?
  }

  function UpperChar(c: char): char
  {
    if 'a' <= c <= 'z' then (c as int - 32) as char else c
  }

  function LowerChar(c: char): char
  {
    if 'A' <= c <= 'Z' then (c as int + 32) as char else c
  }

  /** ASCII upper-casing, character by character. */
  function Upper(s: string): (r: string)
    ensures |r| == |s| && forall i :: 0 <= i < |s| ==> r[i] == UpperChar(s[i])
  {
    seq(|s|, i requires 0 <= i < |s| => UpperChar(s[i]))
  }

  /** ASCII lower-casing, character by character. */
  function Lower(s: string): (r: string)
    ensures |r| == |s| && forall i :: 0 <= i < |s| ==> r[i] == LowerChar(s[i])
  {
    seq(|s|, i requires 0 <= i < |s| => LowerChar(s[i]))
  }

  lemma UpperIdempotent(s: string)
    ensures Upper(Upper(s)) == Upper(s)
  {
    assert forall i :: 0 <= i < |s| ==> UpperChar(UpperChar(s[i])) == UpperChar(s[i]);
  }

  /** Lower-casing ignores the case the text was in. */
  lemma LowerIgnoresCase(s: string)
    ensures Lower(Lower(s)) == Lower(s) && Lower(Upper(s)) == Lower(s)
  {
    assert forall i :: 0 <= i < |s| ==> LowerChar(LowerChar(s[i])) == LowerChar(s[i]);
    assert forall i :: 0 <= i < |s| ==> LowerChar(UpperChar(s[i])) == LowerChar(s[i]);
  }
}
