/** Ordinal models of the .NET `System.String` operations used by the rich
    text editor: `Contains`, `IndexOf`, `Replace` and `Substring`.
    Operations that throw in .NET return a `Failure` carrying the exception
    kind instead. */
module Strings {
  import opened Wrappers

  /** The exceptions the modelled string operations can raise. */
  datatype Fault =
    | EmptyOldValue   // ArgumentException: `Replace` with a zero-length old value
    | OutOfRange      // ArgumentOutOfRangeException: bad `Substring` bounds

  /** `t` occurs in `s` starting at index `i`. */
  ghost predicate OccursAt(s: string, t: string, i: int) {
    0 <= i && i + |t| <= |s| && s[i..i + |t|] == t
  }

  /** `t` occurs somewhere in `s` (the empty string occurs everywhere). */
  ghost predicate Occurs(s: string, t: string) {
    exists i :: OccursAt(s, t, i)
  }

  /** `i` is the first index at which `t` occurs in `s`. */
  ghost predicate FirstOccurrence(s: string, t: string, i: int) {
    OccursAt(s, t, i) && forall j :: 0 <= j < i ==> !OccursAt(s, t, j)
  }

  /** `t` occurs in `s` at index `i` and nowhere else. */
  ghost predicate OccursOnlyAt(s: string, t: string, i: int) {
    OccursAt(s, t, i) && forall j :: OccursAt(s, t, j) ==> j == i
  }

  predicate StartsWith(s: string, t: string) {
    |t| <= |s| && s[..|t|] == t
  }

  /** An occurrence in `s[1..]` is an occurrence in `s` one index later. */
  lemma OccursAtTail(s: string, t: string)
    requires |s| > 0
    ensures forall j {:trigger OccursAt(s[1..], t, j)} :: 0 <= j ==> (OccursAt(s[1..], t, j) <==> OccursAt(s, t, j + 1))
    ensures forall j {:trigger OccursAt(s, t, j)} :: 1 <= j ==> (OccursAt(s, t, j) <==> OccursAt(s[1..], t, j - 1))
  {
    forall j | 0 <= j
      ensures OccursAt(s[1..], t, j) <==> OccursAt(s, t, j + 1)
    {
      if j + 1 + |t| <= |s| {
        assert s[1..][j..j + |t|] == s[j + 1..j + 1 + |t|];
      }
    }
  }

  /** `String.IndexOf(string)` with ordinal comparison: the first index of
      `t` in `s`, or -1 when `t` does not occur. */
  function IndexOf(s: string, t: string): (r: int)
    ensures -1 <= r <= |s|
    ensures r >= 0 ==> FirstOccurrence(s, t, r)
    ensures r == -1 <==> !Occurs(s, t)
    decreases |s|
  {
    if StartsWith(s, t) then
      0
    else if |s| == 0 then
      -1
    else
      OccursAtTail(s, t);
      var k := IndexOf(s[1..], t);
      if k < 0 then -1 else k + 1
  }

  /** `String.Contains(string)`, ordinal. */
  function Contains(s: string, t: string): (b: bool)
    ensures b <==> Occurs(s, t)
  {
    IndexOf(s, t) >= 0
  }

  /** The replace-all loop of `String.Replace(pat, rep)`: scans left to right
      and substitutes every non-overlapping occurrence of `pat`. */
  function ReplaceAll(s: string, pat: string, rep: string): string
    requires pat != []
    decreases |s|
  {
    if StartsWith(s, pat) then
      rep + ReplaceAll(s[|pat|..], pat, rep)
    else if |s| == 0 then
      []
    else
      [s[0]] + ReplaceAll(s[1..], pat, rep)
  }

  /** `String.Replace(pat, rep)`: throws on an empty `pat`, otherwise
      replaces every non-overlapping occurrence. */
  function Replace(s: string, pat: string, rep: string): (r: Result<string, Fault>)
    ensures r.Failure? <==> pat == []
    ensures r.Failure? ==> r.error == EmptyOldValue
    ensures r.Success? ==> r.value == ReplaceAll(s, pat, rep)
  {
    if pat == [] then Failure(EmptyOldValue) else Success(ReplaceAll(s, pat, rep))
  }

  /** `String.Substring(start, length)`. */
  function Substring(s: string, start: int, length: int): (r: Result<string, Fault>)
    ensures r.Success? <==> 0 <= start && 0 <= length && start + length <= |s|
    ensures r.Failure? ==> r.error == OutOfRange
    ensures r.Success? ==> |r.value| == length && OccursAt(s, r.value, start)
  {
    if start < 0 || length < 0 || start + length > |s| then Failure(OutOfRange)
    else Success(s[start..start + length])
  }

  /** The number of non-overlapping occurrences of `pat` that the
      left-to-right scan of `ReplaceAll` substitutes. */
  function CountOccurrences(s: string, pat: string): nat
    requires pat != []
    decreases |s|
  {
    if StartsWith(s, pat) then 1 + CountOccurrences(s[|pat|..], pat)
    else if |s| == 0 then 0
    else CountOccurrences(s[1..], pat)
  }

  /** The scan substitutes nothing exactly when `pat` does not occur. */
  lemma {:induction false} CountZeroIffAbsent(s: string, pat: string)
    requires pat != []
    ensures CountOccurrences(s, pat) == 0 <==> !Occurs(s, pat)
    decreases |s|
  {
    if StartsWith(s, pat) {
      assert OccursAt(s, pat, 0);
    } else if |s| > 0 {
      CountZeroIffAbsent(s[1..], pat);
      OccursAtTail(s, pat);
      if Occurs(s, pat) {
        var j :| OccursAt(s, pat, j);
        assert j != 0;
        assert OccursAt(s[1..], pat, j - 1);
      }
    }
  }

  // ---------------------------------------------------------------------------
  // Properties of ReplaceAll
  // ---------------------------------------------------------------------------

  /** A string in which `pat` does not occur passes through unchanged; this is
      why the `Contains` guard in front of a `Replace` changes nothing. */
  lemma {:induction false} ReplaceAllAbsent(s: string, pat: string, rep: string)
    requires pat != []
    requires !Occurs(s, pat)
    ensures ReplaceAll(s, pat, rep) == s
    decreases |s|
  {
    if StartsWith(s, pat) {
      assert OccursAt(s, pat, 0);
    } else if |s| > 0 {
      OccursAtTail(s, pat);
      ReplaceAllAbsent(s[1..], pat, rep);
      assert s == [s[0]] + s[1..];
    }
  }

  /** The scan copies verbatim every character before the first place `pat`
      can start. */
  lemma {:induction false} ReplaceAllSkip(s: string, pat: string, rep: string, k: int)
    requires pat != []
    requires 0 <= k <= |s|
    requires forall j :: 0 <= j < k ==> !OccursAt(s, pat, j)
    ensures ReplaceAll(s, pat, rep) == s[..k] + ReplaceAll(s[k..], pat, rep)
    decreases k
  {
    if k > 0 {
      assert !OccursAt(s, pat, 0);
      var tail := s[1..];
      assert ReplaceAll(s, pat, rep) == [s[0]] + ReplaceAll(tail, pat, rep);
      forall j | 0 <= j < k - 1
        ensures !OccursAt(tail, pat, j)
      {
        assert !OccursAt(s, pat, j + 1);
        if j + |pat| <= |tail| {
          assert tail[j..j + |pat|] == s[j + 1..j + 1 + |pat|];
        }
      }
      ReplaceAllSkip(tail, pat, rep, k - 1);
      assert tail[k - 1..] == s[k..];
      assert s[..k] == [s[0]] + tail[..k - 1];
    }
  }

  /** Characterisation of `String.Replace` by `IndexOf`: the text before the
      first occurrence is kept, that occurrence becomes `rep`, and the scan
      resumes after it. */
  lemma {:induction false} ReplaceAllAtFirst(s: string, pat: string, rep: string, i: int)
    requires pat != []
    requires FirstOccurrence(s, pat, i)
    ensures ReplaceAll(s, pat, rep) == s[..i] + rep + ReplaceAll(s[i + |pat|..], pat, rep)
  {
    ReplaceAllSkip(s, pat, rep, i);
    ReplaceAllAtStart(s, pat, rep, i);
  }

  /** An occurrence at index `i` is substituted first by the scan that
      resumes at `i`. */
  lemma ReplaceAllAtStart(s: string, pat: string, rep: string, i: int)
    requires pat != []
    requires OccursAt(s, pat, i)
    ensures ReplaceAll(s[i..], pat, rep) == rep + ReplaceAll(s[i + |pat|..], pat, rep)
  {
    var from := s[i..];
    assert from[..|pat|] == s[i..i + |pat|];
    assert from[|pat|..] == s[i + |pat|..];
  }

  /** When `pat` occurs exactly once, `Replace` splices `rep` into that one
      span and leaves everything else as it was. */
  lemma {:induction false} ReplaceAllOnce(s: string, pat: string, rep: string, i: int)
    requires pat != []
    requires OccursOnlyAt(s, pat, i)
    ensures ReplaceAll(s, pat, rep) == s[..i] + rep + s[i + |pat|..]
  {
    ReplaceAllAtFirst(s, pat, rep, i);
    var rest := s[i + |pat|..];
    if Occurs(rest, pat) {
      var j :| OccursAt(rest, pat, j);
      assert s[i + |pat| + j..i + |pat| + j + |pat|] == rest[j..j + |pat|];
      assert OccursAt(s, pat, i + |pat| + j);
      assert false;
    }
    ReplaceAllAbsent(rest, pat, rep);
  }

  /** Each substituted occurrence changes the length by `|rep| - |pat|`. */
  lemma {:induction false} ReplaceAllLength(s: string, pat: string, rep: string)
    requires pat != []
    ensures |ReplaceAll(s, pat, rep)| == |s| + CountOccurrences(s, pat) * (|rep| - |pat|)
    decreases |s|
  {
    if StartsWith(s, pat) {
      ReplaceAllLength(s[|pat|..], pat, rep);
      Distribute(CountOccurrences(s[|pat|..], pat), |rep| - |pat|);
    } else if |s| > 0 {
      ReplaceAllLength(s[1..], pat, rep);
    }
  }

  lemma Distribute(n: int, d: int)
    ensures (1 + n) * d == d + n * d
  {
  }

  /** Replacing a string by itself is the identity. */
  lemma {:induction false} ReplaceAllSelf(s: string, pat: string)
    requires pat != []
    ensures ReplaceAll(s, pat, pat) == s
    decreases |s|
  {
    if StartsWith(s, pat) {
      ReplaceAllSelf(s[|pat|..], pat);
      assert s == s[..|pat|] + s[|pat|..];
    } else if |s| > 0 {
      ReplaceAllSelf(s[1..], pat);
      assert s == [s[0]] + s[1..];
    }
  }

  /** Substitution of one character by a string, defined character by
      character. */
  function SubstituteChar(s: string, c: char, v: string): string {
    if s == [] then []
    else (if s[0] == c then v else [s[0]]) + SubstituteChar(s[1..], c, v)
  }

  /** With a one-character `pat`, the left-to-right scan of `Replace` is the
      same as substituting each matching character independently. */
  lemma {:induction false} ReplaceAllSingleChar(s: string, c: char, v: string)
    ensures ReplaceAll(s, [c], v) == SubstituteChar(s, c, v)
    decreases |s|
  {
    if s != [] {
      ReplaceAllSingleChar(s[1..], c, v);
      if s[0] == c {
        assert StartsWith(s, [c]);
      } else {
        assert !StartsWith(s, [c]);
      }
    }
  }

  /** Occurrences inside a prefix are occurrences in the whole string. */
  lemma OccursInPrefix(s: string, t: string, k: int)
    requires 0 <= k <= |s|
    requires Occurs(s[..k], t)
    ensures Occurs(s, t)
  {
    var j :| OccursAt(s[..k], t, j);
    assert s[..k][j..j + |t|] == s[j..j + |t|];
    assert OccursAt(s, t, j);
  }

  /** An occurrence that ends by `k` is an occurrence in the prefix `s[..k]`. */
  lemma OccursAtInPrefix(s: string, t: string, i: int, k: int)
    requires OccursAt(s, t, i)
    requires i + |t| <= k <= |s|
    ensures Occurs(s[..k], t)
  {
    assert s[..k][i..i + |t|] == s[i..i + |t|];
    assert OccursAt(s[..k], t, i);
  }

  /** A string has at most one first occurrence of `t`. */
  lemma FirstOccurrenceUnique(s: string, t: string, i: int, j: int)
    requires FirstOccurrence(s, t, i)
    requires FirstOccurrence(s, t, j)
    ensures i == j
  {
  }

  /** An occurrence inside `t` at index `i` of `s` is an occurrence in `s`. */
  lemma OccursWithin(s: string, t: string, u: string, i: int)
    requires OccursAt(s, t, i)
    requires Occurs(t, u)
    ensures Occurs(s, u)
  {
    var j :| OccursAt(t, u, j);
    forall k | 0 <= k < |u|
      ensures s[i + j..i + j + |u|][k] == u[k]
    {
      assert s[i + j + k] == s[i..i + |t|][j + k] == t[j + k] == t[j..j + |u|][k];
    }
    assert s[i + j..i + j + |u|] == u;
    assert OccursAt(s, u, i + j);
  }

  /** Occurrences inside a suffix are occurrences in the whole string. */
  lemma OccursInSuffix(s: string, t: string, k: int)
    requires 0 <= k <= |s|
    requires Occurs(s[k..], t)
    ensures Occurs(s, t)
  {
    OccursWithin(s, s[k..], t, k);
  }

  /** An occurrence begins with the first character of the pattern. */
  lemma OccursAtHead(s: string, t: string, i: int)
    requires t != []
    requires OccursAt(s, t, i)
    ensures s[i] == t[0]
  {
    assert s[i..i + |t|][0] == t[0];
  }

  /** A pattern whose first character never appears does not occur. */
  lemma AbsentByHead(s: string, t: string)
    requires t != []
    requires forall k :: 0 <= k < |s| ==> s[k] != t[0]
    ensures !Occurs(s, t)
  {
    if Occurs(s, t) {
      var i :| OccursAt(s, t, i);
      OccursAtHead(s, t, i);
    }
  }

  /** A pattern whose first two characters never appear together does not
      occur. */
  lemma AbsentByHeadPair(s: string, t: string)
    requires |t| >= 2
    requires forall k :: 0 <= k < |s| - 1 ==> s[k] != t[0] || s[k + 1] != t[1]
    ensures !Occurs(s, t)
  {
    if Occurs(s, t) {
      var i :| OccursAt(s, t, i);
      OccursAtHeadPair(s, t, i);
    }
  }

  /** An occurrence begins with the first two characters of the pattern. */
  lemma OccursAtHeadPair(s: string, t: string, i: int)
    requires |t| >= 2
    requires OccursAt(s, t, i)
    ensures i < |s| - 1 && s[i] == t[0] && s[i + 1] == t[1]
  {
    assert s[i..i + |t|][0] == t[0] && s[i..i + |t|][1] == t[1];
  }

  /** A pattern occurs only at `i` when no other index where it would fit
      holds its first character. */
  lemma OnlyAtByHead(s: string, t: string, i: int)
    requires t != []
    requires OccursAt(s, t, i)
    requires forall k :: 0 <= k && k + |t| <= |s| && s[k] == t[0] ==> k == i
    ensures OccursOnlyAt(s, t, i)
  {
    forall j | OccursAt(s, t, j)
      ensures j == i
    {
      OccursAtHead(s, t, j);
    }
  }

  /** An occurrence is the first one when no earlier index holds the
      pattern's first character. */
  lemma FirstByHead(s: string, t: string, i: int)
    requires t != []
    requires OccursAt(s, t, i)
    requires forall k :: 0 <= k < i ==> s[k] != t[0]
    ensures FirstOccurrence(s, t, i)
  {
    forall j | 0 <= j < i && OccursAt(s, t, j)
      ensures false
    {
      OccursAtHead(s, t, j);
    }
  }

  /** Substitution works piecewise on a concatenation. */
  lemma {:induction false} SubstituteCharAppend(u: string, w: string, c: char, v: string)
    ensures SubstituteChar(u + w, c, v) == SubstituteChar(u, c, v) + SubstituteChar(w, c, v)
    decreases |u|
  {
    if u != [] {
      SubstituteCharAppend(u[1..], w, c, v);
      assert (u + w)[1..] == u[1..] + w;
    } else {
      assert u + w == w;
    }
  }

  /** A string without the substituted character is left unchanged. */
  lemma {:induction false} SubstituteCharAbsent(u: string, c: char, v: string)
    requires c !in u
    ensures SubstituteChar(u, c, v) == u
    decreases |u|
  {
    if u != [] {
      assert u[0] != c && c !in u[1..];
      SubstituteCharAbsent(u[1..], c, v);
      assert u == [u[0]] + u[1..];
    }
  }

  /** A single slot character is replaced by the value. */
  lemma SubstituteCharSlot(c: char, v: string)
    ensures SubstituteChar([c], c, v) == v
  {
    assert [c][1..] == [];
  }

  /** Substituting into `open + [c] + close`, where only the middle character
      is `c`, fills that one slot. */
  lemma SubstituteCharFill(open: string, close: string, c: char, v: string)
    requires c !in open && c !in close
    ensures SubstituteChar(open + [c] + close, c, v) == open + v + close
  {
    SubstituteCharAppend(open + [c], close, c, v);
    SubstituteCharAppend(open, [c], c, v);
    SubstituteCharAbsent(open, c, v);
    SubstituteCharAbsent(close, c, v);
    SubstituteCharSlot(c, v);
  }
}
