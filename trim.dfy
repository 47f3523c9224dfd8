/** `strings.Trim(s, " ")`: remove every leading and trailing space character (and nothing else). */
module Trimming {

  /** Every character of `s` from index `lo` up to (not including) `hi` is a space. */
  ghost predicate SpacesBetween(s: string, lo: int, hi: int) {
    forall k :: lo <= k < hi && 0 <= k < |s| ==> s[k] == ' '
  }

  ghost predicate AllSpaces(s: string) {
    SpacesBetween(s, 0, |s|)
  }

  /** Neither the first nor the last character is a space. */
  ghost predicate NoOuterSpace(s: string) {
    s == [] || (s[0] != ' ' && s[|s| - 1] != ' ')
  }

  /** `r` is the part `s[i..j]` of `s` left when only spaces stand before `i` and from `j` on. */
  ghost predicate CutAt(s: string, r: string, i: int, j: int) {
    0 <= i <= j <= |s| && r == s[i..j] && SpacesBetween(s, 0, i) && SpacesBetween(s, j, |s|)
  }

  /** `r` is what is left of `s` once a run of spaces is cut from each end. */
  ghost predicate CutFrom(s: string, r: string) {
    exists i, j :: CutAt(s, r, i, j)
  }

  /** The first index at or after `i` that does not hold a space (or `|s|`). */
  function SkipFront(s: string, i: nat): (n: nat)
    requires i <= |s|
    ensures i <= n <= |s| && SpacesBetween(s, i, n)
    ensures n == |s| || s[n] != ' '
    decreases |s| - i
  {
    if i < |s| && s[i] == ' ' then SkipFront(s, i + 1) else i
  }

  /** The least `m` in `lo..j` such that only spaces stand from `m` up to `j`. */
  function SkipBack(s: string, lo: nat, j: nat): (m: nat)
    requires lo <= j <= |s|
    ensures lo <= m <= j && SpacesBetween(s, m, j)
    ensures m == lo || s[m - 1] != ' '
    decreases j
  {
    if lo < j && s[j - 1] == ' ' then SkipBack(s, lo, j - 1) else j
  }

  function Trim(s: string): (r: string)
    ensures NoOuterSpace(r)
    ensures CutFrom(s, r)
    ensures r == [] <==> AllSpaces(s)
  {
    var i := SkipFront(s, 0);
    var j := SkipBack(s, i, |s|);
    assert CutAt(s, s[i..j], i, j);
    assert i == j ==> AllSpaces(s);
    s[i..j]
  }

  /** Any cut of spaces from both ends that leaves no outer space is the one `Trim` makes. */
  lemma TrimUnique(s: string, r: string)
    requires CutFrom(s, r) && NoOuterSpace(r)
    ensures Trim(s) == r
  {
    var i', j' :| CutAt(s, r, i', j');
    if r == [] {
      assert AllSpaces(s);
    } else {
      var i := SkipFront(s, 0);
      assert s[i'] == r[0] && s[j' - 1] == r[|r| - 1];
      assert i == i';
      var j := SkipBack(s, i, |s|);
      assert j == j';
    }
  }

  /** A string with no outer space is left as it is. */
  lemma TrimKeeps(s: string)
    requires NoOuterSpace(s)
    ensures Trim(s) == s
  {
    assert CutAt(s, s, 0, |s|);
    TrimUnique(s, s);
  }

  lemma TrimIdempotent(s: string)
    ensures Trim(Trim(s)) == Trim(s)
  {
    TrimKeeps(Trim(s));
  }
}
