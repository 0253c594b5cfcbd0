/** Suffixes of rune sequences, relative to a prefix-closed set of trie paths. */
module Suffixes {
  import opened Vocabulary

  predicate IsSuffix(t: Runes, s: Runes) {
    |t| <= |s| && t == s[|s| - |t|..]
  }

  ghost predicate PrefixClosed(paths: set<Runes>) {
    [] in paths && forall p {:trigger Init(p)} | p in paths && p != [] :: Init(p) in paths
  }

  /** The longest suffix of `s` that is a path. */
  ghost function LongestSuffixIn(paths: set<Runes>, s: Runes): (q: Runes)
    requires [] in paths
    ensures q in paths && |q| <= |s|
  {
    if s in paths then s else LongestSuffixIn(paths, s[1..])
  }

  /** It is a suffix, and no longer suffix is a path. */
  lemma {:induction false} LongestSuffixIsLongest(paths: set<Runes>, s: Runes)
    requires [] in paths
    ensures IsSuffix(LongestSuffixIn(paths, s), s)
    ensures forall t | t in paths && IsSuffix(t, s) :: |t| <= |LongestSuffixIn(paths, s)|
  {
    if s !in paths {
      LongestSuffixIsLongest(paths, s[1..]);
      assert forall t | t in paths && IsSuffix(t, s) :: t != s && IsSuffix(t, s[1..]);
    }
  }

  /** The longest proper suffix of `p` that is a path: where the fail link of `p` must point. */
  ghost function FailPath(paths: set<Runes>, p: Runes): (q: Runes)
    requires [] in paths && p != []
    ensures q in paths && |q| < |p|
  {
    LongestSuffixIn(paths, p[1..])
  }

  /** Reading one more rune only needs the longest suffix known so far. */
  lemma {:induction false} LongestSuffixOfExtension(paths: set<Runes>, s: Runes, r: char)
    requires PrefixClosed(paths)
    ensures LongestSuffixIn(paths, s + [r]) == LongestSuffixIn(paths, LongestSuffixIn(paths, s) + [r])
  {
    if s !in paths {
      assert Init(s + [r]) == s;
      assert (s + [r])[1..] == s[1..] + [r];
      LongestSuffixOfExtension(paths, s[1..], r);
    }
  }

  /** When `q` cannot be extended by `r`, following its fail link loses no candidate. */
  lemma FailStep(paths: set<Runes>, q: Runes, r: char)
    requires PrefixClosed(paths) && q != [] && q + [r] !in paths
    ensures LongestSuffixIn(paths, q + [r]) == LongestSuffixIn(paths, FailPath(paths, q) + [r])
  {
    assert (q + [r])[1..] == q[1..] + [r];
    LongestSuffixOfExtension(paths, q[1..], r);
  }

  /** The fail link of a child is found by extending the fail link of its parent. */
  lemma FailOfChild(paths: set<Runes>, p: Runes, r: char)
    requires PrefixClosed(paths) && p != []
    ensures FailPath(paths, p + [r]) == LongestSuffixIn(paths, FailPath(paths, p) + [r])
  {
    assert (p + [r])[1..] == p[1..] + [r];
    LongestSuffixOfExtension(paths, p[1..], r);
  }
}
