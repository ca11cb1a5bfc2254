/** The few Python string and path operations the two scripts rely on:
    `str.find`, slicing with Python's index rules, `os.path.join` on POSIX
    and the test `s[-1] == c`. */
module PyText {

  /** `pat` occurs in `s` starting at index `k`. */
  predicate OccursAt(s: string, pat: string, k: int)
  {
    0 <= k && k + |pat| <= |s| && s[k..k + |pat|] == pat
  }

  /** `s.find(pat, from)`: the lowest index at or after `from` where `pat`
      occurs, or -1 when there is none. */
  function FindFrom(s: string, pat: string, from: nat): (k: int)
    ensures k == -1 || (from <= k && OccursAt(s, pat, k))
    ensures k == -1 ==> forall j :: from <= j ==> !OccursAt(s, pat, j)
    ensures k != -1 ==> forall j :: from <= j < k ==> !OccursAt(s, pat, j)
    decreases |s| - from
  {
    if from + |pat| > |s| then -1
    else if s[from..from + |pat|] == pat then from
    else FindFrom(s, pat, from + 1)
  }

  /** `s.find(pat)`. */
  function Find(s: string, pat: string): int
  {
    FindFrom(s, pat, 0)
  }

  /** `pat in s`, written in the scripts as `s.find(pat) != -1`. */
  predicate Contains(s: string, pat: string)
  {
    exists k :: 0 <= k <= |s| && OccursAt(s, pat, k)
  }

  lemma FindIsFirstOccurrence(s: string, pat: string)
    ensures Find(s, pat) == -1 <==> !Contains(s, pat)
    ensures Find(s, pat) != -1 ==>
      OccursAt(s, pat, Find(s, pat)) && forall j :: 0 <= j < Find(s, pat) ==> !OccursAt(s, pat, j)
  {
    if Find(s, pat) != -1 {
      assert OccursAt(s, pat, Find(s, pat));
    } else {
      forall k ensures !OccursAt(s, pat, k) {
        if k >= 0 { assert !OccursAt(s, pat, k); }
      }
    }
  }

  /** A Python index into a string of length `n`, negative ones counting
      from the end, clamped into `0..n` the way slicing does. */
  function SliceBound(n: nat, i: int): (b: nat)
    ensures b <= n
    ensures 0 <= i <= n ==> b == i
    ensures -(n as int) <= i < 0 ==> b as int == n + i
    ensures i > n ==> b == n
    ensures i < -(n as int) ==> b == 0
  {
    var j := if i < 0 then i + n else i;
    if j < 0 then 0 else if j > n then n else j
  }

  /** `s[i:j]`; empty when the bounds cross. */
  function Slice(s: string, i: int, j: int): (r: string)
    ensures |r| <= |s|
  {
    var lo, hi := SliceBound(|s|, i), SliceBound(|s|, j);
    if lo < hi then s[lo..hi] else []
  }

  /** `os.path.join(a, b)` with POSIX rules: an absolute `b` replaces `a`,
      and no separator is added after an empty `a` or one ending in '/'. */
  function Join(a: string, b: string): (r: string)
  {
    if |b| > 0 && b[0] == '/' then b
    else if a == "" || a[|a| - 1] == '/' then a + b
    else a + "/" + b
  }

  lemma JoinFacts(a: string, b: string)
    ensures Join("", b) == b
    ensures Join(a, b) == "" <==> a == "" && b == ""
    ensures a != "" && a[|a| - 1] != '/' && (b == "" || b[0] != '/') ==> Join(a, b) == a + "/" + b
  {
    if a != "" && !(|b| > 0 && b[0] == '/') {
      assert |Join(a, b)| >= |a|;
    }
  }

  /** `s[-1] == c` for a non-empty `s`; false for the empty string. */
  predicate EndsWith(s: string, c: char)
  {
    |s| > 0 && s[|s| - 1] == c
  }
}
