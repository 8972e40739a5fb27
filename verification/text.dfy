/** String helpers the renderer needs: prefixes, suffixes, occurrences and
    Python's `str.replace(old, new, 1)`, which rewrites only the first
    occurrence of `old`. */
module Text {
  import opened Wrappers

  /** `pat` occurs in `s` starting at index `i`. */
  predicate OccursAt(s: string, pat: string, i: nat) {
    i + |pat| <= |s| && s[i..i + |pat|] == pat
  }

  ghost predicate Contains(s: string, pat: string) {
    exists i: nat :: OccursAt(s, pat, i)
  }

  /** `i` is the leftmost index at which `pat` occurs in `s`. */
  ghost predicate IsFirstOccurrence(s: string, pat: string, i: nat) {
    OccursAt(s, pat, i) && forall j: nat :: j < i ==> !OccursAt(s, pat, j)
  }

  predicate StartsWith(s: string, prefix: string) {
    |prefix| <= |s| && s[..|prefix|] == prefix
  }

  predicate EndsWith(s: string, suffix: string) {
    |suffix| <= |s| && s[|s| - |suffix|..] == suffix
  }

  /** The leftmost occurrence of `pat` in `s` at or after index `k`. */
  function FindFrom(s: string, pat: string, k: nat): (r: Option<nat>)
    ensures r.Some? ==> k <= r.value && OccursAt(s, pat, r.value)
    ensures r.Some? ==> forall j: nat :: k <= j < r.value ==> !OccursAt(s, pat, j)
    ensures r.None? ==> forall j: nat :: k <= j ==> !OccursAt(s, pat, j)
    decreases |s| - k
  {
    if k + |pat| > |s| then None
    else if s[k..k + |pat|] == pat then Some(k)
    else FindFrom(s, pat, k + 1)
  }

  /** Python's `s.find(pat)`, with `None` for -1. */
  function FindFirst(s: string, pat: string): (r: Option<nat>)
    ensures r.None? <==> !Contains(s, pat)
    ensures r.Some? ==> IsFirstOccurrence(s, pat, r.value)
  {
    FindFrom(s, pat, 0)
  }

  /** Python's `s.replace(pat, rep, 1)`: the leftmost occurrence of `pat` is
      replaced by `rep`; a string without `pat` is returned unchanged. An empty
      `pat` occurs at index 0, so `rep` is then inserted in front, as in Python. */
  function ReplaceFirst(s: string, pat: string, rep: string): (r: string)
    ensures !Contains(s, pat) ==> r == s
    ensures forall i: nat :: IsFirstOccurrence(s, pat, i) ==>
              r == s[..i] + rep + s[i + |pat|..]
  {
    match FindFirst(s, pat)
    case None => s
    case Some(i) =>
      assert forall j: nat :: IsFirstOccurrence(s, pat, j) ==> j == i;
      s[..i] + rep + s[i + |pat|..]
  }

  /** When `s` begins with `pat`, only that leading occurrence is rewritten:
      everything after it, later occurrences of `pat` included, is kept. */
  lemma ReplaceFirstAtStart(s: string, pat: string, rep: string)
    requires StartsWith(s, pat)
    ensures ReplaceFirst(s, pat, rep) == rep + s[|pat|..]
  {
    assert IsFirstOccurrence(s, pat, 0);
  }

  /** Regrouping a five-part concatenation whose middle was built separately. */
  lemma ConcatRegroup(a: string, b: string, c: string, d: string, e: string)
    ensures a + (b + c + d) + e == a + b + c + d + e
  {
  }

  /** An occurrence inside the middle part of a concatenation is an
      occurrence in the whole, shifted by the length of the first part. */
  lemma OccursInfix(a: string, b: string, c: string, pat: string, i: nat)
    requires OccursAt(b, pat, i)
    ensures OccursAt(a + b + c, pat, |a| + i)
  {
    assert (a + b + c)[|a| + i..|a| + i + |pat|] == b[i..i + |pat|];
  }

  /** A string that starts with `prefix` has every occurrence inside
      `prefix` at the same index, whatever follows. */
  lemma PrefixOccurrence(prefix: string, rest: string, pat: string, i: nat)
    requires OccursAt(prefix, pat, i)
    ensures OccursAt(prefix + rest, pat, i)
  {
    assert (prefix + rest)[i..i + |pat|] == prefix[i..i + |pat|];
  }

  /** Three parts appended to a prefix one by one, regrouped. */
  lemma AppendThree(before: string, a: string, b: string, c: string)
    ensures before + a + b + c == before + (a + b + c)
  {
  }

  /** Concatenation regrouped to the right. */
  lemma ConcatAssoc(a: string, b: string, c: string)
    ensures a + b + c == a + (b + c)
  {
  }
}
