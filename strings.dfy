/**
  The handful of JavaScript string operations the dashboard relies on:
  `includes` and `replace` with a plain-string pattern (which replaces the
  FIRST occurrence only), both built on the leftmost-occurrence search,
  stated over Dafny's `seq<char>`.
 */
module Strings {

  datatype Option<T> = None | Some(value: T)

  /** `sub` occurs in `s` starting at index `i`. */
  predicate OccursAt(s: string, sub: string, i: int) {
    0 <= i && i + |sub| <= |s| && s[i..i + |sub|] == sub
  }

  /** `i` is the leftmost index at which `sub` occurs in `s`. */
  predicate FirstOccurrenceAt(s: string, sub: string, i: int) {
    OccursAt(s, sub, i) && forall j :: 0 <= j < i ==> !OccursAt(s, sub, j)
  }

  /** Shifting by one character: an occurrence in `s` past index 0 is an occurrence in `s[1..]`. */
  lemma OccursInTail(s: string, sub: string, i: int)
    requires |s| > 0 && 0 <= i
    ensures OccursAt(s, sub, i + 1) <==> OccursAt(s[1..], sub, i)
  {
    if i + 1 + |sub| <= |s| {
      assert s[i + 1..i + 1 + |sub|] == s[1..][i..i + |sub|];
    }
  }

  /** The leftmost-occurrence search that `includes` and `replace` perform: the first index at which `sub` occurs, or None. */
  function IndexOf(s: string, sub: string): Option<nat>
    decreases |s|
  {
    if sub <= s then Some(0)
    else if s == [] then None
    else
      match IndexOf(s[1..], sub)
      case None => None
      case Some(k) => Some(k + 1)
  }

  /** `IndexOf` finds the leftmost occurrence, and answers None only when there is none. */
  lemma {:induction false} IndexOfSpec(s: string, sub: string)
    ensures IndexOf(s, sub).Some? ==> FirstOccurrenceAt(s, sub, IndexOf(s, sub).value)
    ensures IndexOf(s, sub).None? ==> forall i :: !OccursAt(s, sub, i)
    decreases |s|
  {
    if sub <= s {
      assert s[0..|sub|] == sub;
    } else if s != [] {
      IndexOfSpec(s[1..], sub);
      assert !OccursAt(s, sub, 0) by {
        if |sub| <= |s| { assert s[0..|sub|] == s[..|sub|]; }
      }
      match IndexOf(s[1..], sub)
      case None =>
        forall i | 0 < i ensures !OccursAt(s, sub, i) {
          OccursInTail(s, sub, i - 1);
        }
      case Some(k) =>
        OccursInTail(s, sub, k);
        forall j | 0 < j < k + 1 ensures !OccursAt(s, sub, j) {
          OccursInTail(s, sub, j - 1);
        }
    }
  }

  /** `s.includes(sub)`. */
  function Contains(s: string, sub: string): (r: bool)
    ensures r <==> exists i :: OccursAt(s, sub, i)
  {
    IndexOfSpec(s, sub);
    IndexOf(s, sub).Some?
  }

  /** A string cannot contain a pattern holding a character the string lacks. */
  lemma NotContainedWithoutChar(s: string, sub: string, c: char)
    requires c in sub && c !in s
    ensures !Contains(s, sub)
  {
  }

  /** Searching for a one-character pattern finds the first position of that character. */
  lemma IndexOfChar(s: string, c: char)
    ensures IndexOf(s, [c]).None? <==> c !in s
    ensures IndexOf(s, [c]).Some? ==>
      var i := IndexOf(s, [c]).value; i < |s| && s[i] == c && c !in s[..i]
  {
    IndexOfSpec(s, [c]);
    forall i | 0 <= i < |s| ensures OccursAt(s, [c], i) <==> s[i] == c {
      assert s[i..i + 1] == [s[i]];
    }
    match IndexOf(s, [c])
    case None =>
    case Some(i) =>
      forall j | 0 <= j < i ensures s[..i][j] != c {
        assert !OccursAt(s, [c], j);
      }
  }

  /** The first position of a character determines what the one-character search answers. */
  lemma IndexOfCharIs(s: string, c: char, i: nat)
    requires i < |s| && s[i] == c && c !in s[..i]
    ensures IndexOf(s, [c]) == Some(i)
  {
    IndexOfChar(s, c);
  }

  /** `s.replace(pat, "")` with a string pattern: only the first occurrence of `pat` is removed. */
  function RemoveFirst(s: string, pat: string): (r: string)
    ensures !Contains(s, pat) ==> r == s
    ensures Contains(s, pat) ==> |r| == |s| - |pat|
    ensures forall i :: FirstOccurrenceAt(s, pat, i) ==> r == s[..i] + s[i + |pat|..]
  {
    IndexOfSpec(s, pat);
    match IndexOf(s, pat)
    case None => s
    case Some(i) =>
      assert forall j :: FirstOccurrenceAt(s, pat, j) ==> j == i by {
        forall j | FirstOccurrenceAt(s, pat, j) ensures j == i { }
      }
      s[..i] + s[i + |pat|..]
  }

  /** Dropping the first part of a concatenation leaves the second. */
  lemma DropConcatPrefix<T>(a: seq<T>, b: seq<T>)
    ensures (a + b)[|a|..] == b
  {
  }

  /** Concatenation is associative. */
  lemma ConcatAssoc<T>(a: seq<T>, b: seq<T>, c: seq<T>)
    ensures a + (b + c) == (a + b) + c
  {
  }

  /** `a` is obtained from `b` by deleting some characters. */
  predicate IsSubsequence(a: string, b: string)
    decreases |b|
  {
    a == [] || (|b| > 0 && ((a[0] == b[0] && IsSubsequence(a[1..], b[1..])) || IsSubsequence(a, b[1..])))
  }

  /** A subsequence of a suffix is a subsequence of the whole string. */
  lemma {:induction false} SubsequenceOfSuffix(a: string, b: string, k: nat)
    requires k <= |b| && IsSubsequence(a, b[k..])
    ensures IsSubsequence(a, b)
    decreases k
  {
    if k > 0 {
      assert b[1..][k - 1..] == b[k..];
      SubsequenceOfSuffix(a, b[1..], k - 1);
    }
  }

  /** A subsequence is never longer and contains no character its source lacks. */
  lemma {:induction false} SubsequenceBounds(a: string, b: string, c: char)
    requires IsSubsequence(a, b)
    ensures |a| <= |b|
    ensures c !in b ==> c !in a
    decreases |b|
  {
    if a != [] {
      if a[0] == b[0] && IsSubsequence(a[1..], b[1..]) {
        SubsequenceBounds(a[1..], b[1..], c);
        assert a == [a[0]] + a[1..];
      } else {
        SubsequenceBounds(a, b[1..], c);
      }
    }
  }
}
