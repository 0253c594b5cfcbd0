/** How many fail links are followed while the automaton is built, and while it scans a text. */
module HopCost {
  import opened Vocabulary
  import opened Suffixes
  import opened NaiveSearch

  /** Fail links followed from path `q`, counting the hop from the root to nil, until `r` can be read. */
  ghost function FailHops(paths: set<Runes>, q: Runes, r: char): nat
    requires [] in paths
    decreases |q|
  {
    if Snoc(q, r) in paths then 0 else if q == [] then 1 else 1 + FailHops(paths, FailPath(paths, q), r)
  }

  /** Fail links followed to link the node at `p`; the root's children are linked without a search. */
  ghost function LinkHops(paths: set<Runes>, p: Runes): nat
    requires [] in paths
  {
    if |p| < 2 then 0 else FailHops(paths, FailPath(paths, Init(p)), Last(p))
  }

  lemma NoHopsAtTop(paths: set<Runes>, p: Runes)
    requires [] in paths && |p| == 1
    ensures LinkHops(paths, p) == 0
  {
  }

  /** Fail links followed to link all nodes of `ps`. */
  ghost function TotalHops(paths: set<Runes>, ps: set<Runes>): nat
    requires [] in paths
  {
    if ps == {} then 0 else
      var p :| p in ps;
      LinkHops(paths, p) + TotalHops(paths, ps - {p})
  }

  lemma {:induction false} TotalHopsWith(paths: set<Runes>, ps: set<Runes>, p: Runes)
    requires [] in paths && p !in ps
    ensures TotalHops(paths, ps + {p}) == TotalHops(paths, ps) + LinkHops(paths, p)
  {
    var all := ps + {p};
    var q :| q in all && TotalHops(paths, all) == LinkHops(paths, q) + TotalHops(paths, all - {q});
    if q == p {
      assert all - {p} == ps;
    } else {
      assert all - {q} == (ps - {q}) + {p};
      TotalHopsWith(paths, ps - {q}, p);
      TotalHopsWith(paths, ps - {q}, q);
      assert (ps - {q}) + {q} == ps;
    }
  }

  lemma {:induction false} TotalHopsOfUnion(paths: set<Runes>, ps: set<Runes>, qs: set<Runes>)
    requires [] in paths
    ensures TotalHops(paths, ps + qs) <= TotalHops(paths, ps) + TotalHops(paths, qs)
    decreases qs
  {
    if qs == {} {
      assert ps + qs == ps;
    } else {
      var q :| q in qs;
      TotalHopsOfUnion(paths, ps, qs - {q});
      TotalHopsWith(paths, qs - {q}, q);
      assert (qs - {q}) + {q} == qs;
      if q in ps {
        assert ps + (qs - {q}) == ps + qs;
      } else {
        TotalHopsWith(paths, ps + (qs - {q}), q);
        assert ps + (qs - {q}) + {q} == ps + qs;
      }
    }
  }

  /** A search that follows `h` links ends at least `h - 1` runes shallower than it could. */
  lemma {:induction false} FailHopsBound(paths: set<Runes>, q: Runes, r: char)
    requires PrefixClosed(paths)
    ensures FailHops(paths, q, r) + |LongestSuffixIn(paths, Snoc(q, r))| <= |q| + 1
    decreases |q|
  {
    if Snoc(q, r) !in paths {
      if q == [] {
        assert Snoc(q, r)[1..] == [];
      } else {
        FailStep(paths, q, r);
        FailHopsBound(paths, FailPath(paths, q), r);
      }
    }
  }

  /** Along the prefixes of one word the costs telescope. */
  lemma {:induction false} HopsAlongWord(paths: set<Runes>, w: Runes)
    requires PrefixClosed(paths) && w in paths && w != []
    ensures TotalHops(paths, Prefixes(w)) + |FailPath(paths, w)| <= |w| - 1
  {
    var p := Init(w);
    PrefixesNotLonger(p);
    TotalHopsWith(paths, Prefixes(p), w);
    if p == [] {
      assert w[1..] == [];
      TotalHopsWith(paths, {}, []);
      assert {} + {[]} == Prefixes(p);
    } else {
      HopsAlongWord(paths, p);
      assert w == Snoc(p, Last(w));
      FailOfChild(paths, p, Last(w));
      FailHopsBound(paths, FailPath(paths, p), Last(w));
    }
  }

  lemma {:induction false} PrefixesNotLonger(w: Runes)
    ensures forall p | p in Prefixes(w) :: |p| <= |w|
  {
    if w != [] {
      PrefixesNotLonger(Init(w));
    }
  }

  /** The sum over the nonempty words of (length - 1). */
  function BuildBudget(words: seq<Word>): nat {
    if words == [] then 0 else
      BuildBudget(Init(words)) + if Last(words).runes == [] then 0 else |Last(words).runes| - 1
  }

  /** Linking the whole trie is linear in the words. */
  lemma {:induction false} BuildIsLinear(words: seq<Word>)
    ensures TotalHops(TriePaths(words), TriePaths(words)) <= BuildBudget(words)
  {
    TriePathsPrefixClosed(words);
    HopsWithin(TriePaths(words), words);
  }

  lemma {:induction false} HopsWithin(paths: set<Runes>, words: seq<Word>)
    requires PrefixClosed(paths) && TriePaths(words) <= paths
    ensures TotalHops(paths, TriePaths(words)) <= BuildBudget(words)
  {
    if words == [] {
      TotalHopsWith(paths, {}, []);
      assert {} + {[]} == TriePaths(words);
    } else {
      var w := Last(words).runes;
      HopsWithin(paths, Init(words));
      TotalHopsOfUnion(paths, TriePaths(Init(words)), Prefixes(w));
      if w == [] {
        NoPrefixes(Init(words), w);
      } else {
        assert w in paths;
        HopsAlongWord(paths, w);
      }
    }
  }

  // ---- Scanning ----

  /** Fail links followed from path `q` to read `r`; the scan stops at the root. */
  ghost function StepHops(paths: set<Runes>, q: Runes, r: char): nat
    requires [] in paths
    decreases |q|
  {
    if q == [] || Snoc(q, r) in paths then 0 else 1 + StepHops(paths, FailPath(paths, q), r)
  }

  /** Fail links followed while a text is scanned from the root. */
  ghost function ScanHops(paths: set<Runes>, text: Runes): nat
    requires [] in paths
  {
    if text == [] then 0 else
      ScanHops(paths, Init(text)) + StepHops(paths, LongestSuffixIn(paths, Init(text)), Last(text))
  }

  /** Every fail link followed is paid for by depth; reading a rune earns one level. */
  lemma {:induction false} StepHopsBound(paths: set<Runes>, q: Runes, r: char)
    requires PrefixClosed(paths)
    ensures StepHops(paths, q, r) + |LongestSuffixIn(paths, Snoc(q, r))| <= |q| + 1
    decreases |q|
  {
    if q != [] && Snoc(q, r) !in paths {
      FailStep(paths, q, r);
      StepHopsBound(paths, FailPath(paths, q), r);
    }
  }

  /** Scanning is linear: the fail links followed and the depth reached add up to no more than the runes read. */
  lemma {:induction false} ScanIsLinear(paths: set<Runes>, text: Runes)
    requires PrefixClosed(paths)
    ensures ScanHops(paths, text) + |LongestSuffixIn(paths, text)| <= |text|
  {
    hide StepHops, LongestSuffixIn;
    if text != [] {
      var q, r := LongestSuffixIn(paths, Init(text)), Last(text);
      assert text == Snoc(Init(text), r);
      ScanIsLinear(paths, Init(text));
      LongestSuffixOfExtension(paths, Init(text), r);
      StepHopsBound(paths, q, r);
    }
  }

  lemma ScanHopsStep(paths: set<Runes>, text: Runes, i: nat)
    requires [] in paths && i < |text|
    ensures ScanHops(paths, text[..i + 1])
         == ScanHops(paths, text[..i]) + StepHops(paths, LongestSuffixIn(paths, text[..i]), text[i])
  {
    hide StepHops, LongestSuffixIn;
    assert Init(text[..i + 1]) == text[..i];
  }

  lemma ScanHopsOfNothing(paths: set<Runes>, text: Runes)
    requires [] in paths && text == []
    ensures ScanHops(paths, text) == 0
  {
  }

  /** Without a nonempty word there is only the root, and no link to follow. */
  lemma {:induction false} OnlyRoot(words: seq<Word>)
    requires CountNonempty(words) == 0
    ensures TriePaths(words) == {[]}
  {
    if words != [] {
      OnlyRoot(Init(words));
      NoPrefixes(Init(words), Last(words).runes);
    }
  }

  lemma {:induction false} NoHopsAtRoot(paths: set<Runes>, text: Runes)
    requires paths == {[]}
    ensures ScanHops(paths, text) == 0 && LongestSuffixIn(paths, text) == []
  {
    if text != [] {
      NoHopsAtRoot(paths, Init(text));
    }
  }

  // ---- What is counted ----

  /** The path reached from `q` by following `h` fail links. */
  ghost function FailChain(paths: set<Runes>, q: Runes, h: nat): Runes
    requires [] in paths
    decreases h
  {
    if h == 0 || q == [] then q else FailChain(paths, FailPath(paths, q), h - 1)
  }

  /** A scan step follows exactly as many links as lie before the first path that can read the rune, or the root. */
  lemma {:induction false} StepHopsMeaning(paths: set<Runes>, q: Runes, r: char)
    requires [] in paths
    ensures var h := StepHops(paths, q, r);
      && (FailChain(paths, q, h) == [] || Snoc(FailChain(paths, q, h), r) in paths)
      && forall g: nat | g < h :: FailChain(paths, q, g) != [] && Snoc(FailChain(paths, q, g), r) !in paths
    decreases |q|
  {
    if q != [] && Snoc(q, r) !in paths {
      StepHopsMeaning(paths, FailPath(paths, q), r);
      var h := StepHops(paths, q, r);
      forall g: nat | g < h ensures FailChain(paths, q, g) != [] && Snoc(FailChain(paths, q, g), r) !in paths {
        if g > 0 {
          assert FailChain(paths, q, g) == FailChain(paths, FailPath(paths, q), g - 1);
        }
      }
    }
  }

  /** Building follows the same links, and one more from the root to nil when even the root cannot read the rune. */
  lemma {:induction false} FailHopsMeaning(paths: set<Runes>, q: Runes, r: char)
    requires [] in paths
    ensures FailHops(paths, q, r) == StepHops(paths, q, r)
         + if Snoc(FailChain(paths, q, StepHops(paths, q, r)), r) in paths then 0 else 1
    decreases |q|
  {
    if q != [] && Snoc(q, r) !in paths {
      FailHopsMeaning(paths, FailPath(paths, q), r);
    }
  }
}
