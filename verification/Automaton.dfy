/** The Aho-Corasick automaton: a mutable trie whose nodes carry fail links and output lists. */
module Automaton {
  import opened Vocabulary
  import opened Suffixes
  import opened NaiveSearch
  import opened HopCost

  class AcNode {
    ghost const parent: AcNode?  // null only for the root
    ghost const rune: char       // the rune that leads here from the parent
    ghost const path: Runes      // the runes that lead here from the root
    var children: map<char, AcNode>
    var fail: AcNode?
    var output: seq<WordMeta>

    constructor (ghost parent: AcNode?, ghost rune: char)
      ensures this.parent == parent && this.rune == rune
      ensures path == if parent == null then [] else Snoc(parent.path, rune)
      ensures children == map[] && fail == null && output == []
    {
      this.parent := parent;
      this.rune := rune;
      path := if parent == null then [] else Snoc(parent.path, rune);
      children := map[];
      fail := null;
      output := [];
    }
  }

  class AhoCorasick {
    const root: AcNode
    var wordCount: nat
    ghost var repr: set<AcNode>
    ghost var words: seq<Word>   // the words inserted so far

    /** The nodes form a tree, and each knows its place in it. */
    ghost predicate Tree()
      reads this, repr`children
    {
      && root in repr && root.path == []
      && (forall n {:trigger n.parent} | n in repr && n != root ::
            && n.parent != null && n.parent in repr
            && n.path == Snoc(n.parent.path, n.rune)
            && n.rune in n.parent.children && n.parent.children[n.rune] == n)
      && (forall n, r {:trigger n.children[r]} {:trigger r in n.children} | n in repr && r in n.children ::
            && n.children[r] in repr && n.children[r] != root
            && n.children[r].parent == n && n.children[r].rune == r)
    }

    ghost function Paths(): set<Runes>
      reads this
    {
      PathsOf(repr)
    }

    static ghost function PathsOf(nodes: set<AcNode>): set<Runes> {
      set n | n in nodes :: n.path
    }

    /** Every node lists the words that end at it, and there are no fail links yet. */
    ghost predicate Unlinked()
      reads this, repr
    {
      forall n | n in repr :: n.fail == null && n.output == WordsEqualTo(words, n.path)
    }

    /** The trie of the inserted words, before linking. */
    ghost predicate Trie()
      reads this, repr
    {
      Tree() && Unlinked() && Paths() == TriePaths(words) && wordCount == CountNonempty(words)
    }

    ghost predicate Complete()
      reads this, repr`children
    {
      Tree() && Paths() == TriePaths(words)
    }

    /** The node is finished: its fail link leads to the longest proper suffix, its output list is complete. */
    ghost predicate LinkedNode(n: AcNode)
      reads this, n
    {
      && n.output == WordsEnding(words, n.path)
      && if n.path == [] then n.fail == null else
           n.fail != null && n.fail in repr && n.fail.path == FailPath(TriePaths(words), n.path)
    }

    /** The finished automaton. */
    ghost predicate Linked()
      reads this, repr
    {
      Complete() && wordCount == CountNonempty(words) && forall n | n in repr :: LinkedNode(n)
    }

    /** A path leads to one node only. */
    lemma {:induction false} OneNodePerPath(n: AcNode, m: AcNode)
      requires Tree() && n in repr && m in repr && n.path == m.path
      ensures n == m
      decreases |n.path|
    {
      if n == root || m == root {
        assert n != root ==> n.path == Snoc(n.parent.path, n.rune);
        assert m != root ==> m.path == Snoc(m.parent.path, m.rune);
      } else {
        assert n.path == Snoc(n.parent.path, n.rune) && m.path == Snoc(m.parent.path, m.rune);
        assert n.parent.path == Init(n.path) && m.parent.path == Init(m.path);
        assert n.rune == Last(n.path) && m.rune == Last(m.path);
        OneNodePerPath(n.parent, m.parent);
      }
    }

    lemma ChildIffPath(n: AcNode, r: char)
      requires Tree() && n in repr
      ensures r in n.children <==> Snoc(n.path, r) in Paths()
    {
      if Snoc(n.path, r) in Paths() {
        var m :| m in repr && m.path == Snoc(n.path, r);
        assert m.parent.path == Init(m.path) && m.rune == Last(m.path);
        OneNodePerPath(n, m.parent);
      }
      if r in n.children {
        assert n.children[r].path == Snoc(n.path, r);
      }
    }

    constructor (entries: seq<WordEntry>, normalize: Normalizer)
      ensures Linked() && fresh(repr) && words == Normalized(normalize, entries)
    {
      root := new AcNode(null, 'a');
      wordCount := 0;
      new;
      repr := {root};
      words := [];
      hide AhoCorasick.Trie, AhoCorasick.Linked, AhoCorasick.Tree, AhoCorasick.Unlinked;
      RootIsTrie();
      assert fresh(repr);
      Build(entries, normalize);
    }

    /** From an empty trie: inserts the entries in order, then links. */
    method Build(entries: seq<WordEntry>, normalize: Normalizer)
      requires Trie() && words == []
      modifies this, repr
      ensures Linked() && words == Normalized(normalize, entries)
      ensures fresh(repr - old(repr))
    {
      hide AhoCorasick.Trie, AhoCorasick.Linked;
      InsertAll(entries, normalize);
      ghost var _ := BuildFailPointers();
    }

    /** A root without children is the trie of no words. */
    lemma RootIsTrie()
      requires repr == {root} && words == [] && wordCount == 0
      requires root.path == [] && root.children == map[] && root.fail == null && root.output == []
      ensures Trie()
    {
      assert PathsOf({root}) == {[]};
    }

    method InsertAll(entries: seq<WordEntry>, normalize: Normalizer)
      requires Trie() && words == []
      modifies this, repr
      ensures Trie() && words == Normalized(normalize, entries)
      ensures fresh(repr - old(repr))
    {
      hide AhoCorasick.Trie;
      ghost var all := Normalized(normalize, entries);
      for i := 0 to |entries|
        invariant Trie() && fresh(repr - old(repr)) && words == all[..i]
      {
        assert all[..i + 1] == all[..i] + [all[i]];
        Insert(entries[i], normalize(entries[i].text));
      }
      assert all[..|entries|] == all;
    }

    method Insert(entry: WordEntry, runes: Runes)
      requires Trie()
      modifies this, repr
      ensures Trie() && words == old(words) + [Word(runes, entry)]
      ensures fresh(repr - old(repr))
    {
      hide WordsEqualTo, WordsEnding, TriePaths, Prefixes, CountNonempty;
      if |runes| == 0 {
        OneMoreWord(words, Word(runes, entry));
        NoPrefixes(words, runes);
        words := words + [Word(runes, entry)];
        return;
      }
      var curr := root;
      NoPrefixes(words, runes[..0]);
      for i := 0 to |runes|
        invariant Tree() && Unlinked() && words == old(words) && wordCount == old(wordCount)
        invariant Paths() == TriePaths(words) + Prefixes(runes[..i])
        invariant curr in repr && curr.path == runes[..i]
        invariant fresh(repr - old(repr))
      {
        PrefixesOfStep(runes, i);
        curr := Descend(curr, runes[i]);
      }
      assert runes[..|runes|] == runes;
      Record(curr, entry, runes);
    }

    /** One step of an insertion: goes to the child for `r`, creating it when it is missing. */
    method Descend(curr: AcNode, r: char) returns (child: AcNode)
      requires Tree() && Unlinked() && curr in repr
      requires TriePaths(words) <= Paths()
      modifies this`repr, curr`children
      ensures Tree() && Unlinked()
      ensures child in repr && child.path == Snoc(curr.path, r)
      ensures Paths() == old(Paths()) + {child.path}
      ensures fresh(repr - old(repr))
    {
      hide WordsEqualTo, WordsEnding, TriePaths, Prefixes, CountNonempty;
      ChildIffPath(curr, r);
      if r !in curr.children {
        WordsArePaths(words, Snoc(curr.path, r));
        child := AddChild(curr, r);
      } else {
        child := curr.children[r];
      }
    }

    method AddChild(curr: AcNode, r: char) returns (child: AcNode)
      requires Tree() && curr in repr && r !in curr.children
      modifies this`repr, curr`children
      ensures Tree() && fresh(child) && repr == old(repr) + {child}
      ensures child.path == Snoc(curr.path, r) && child.fail == null && child.output == []
    {
      hide AhoCorasick.Tree, AhoCorasick.TreeOf;
      ghost var before := Children();
      TreeByChildren();
      child := new AcNode(curr, r);
      curr.children := curr.children[r := child];
      repr := repr + {child};
      TreeGrows(root, before, curr, r, child);
      assert Children() == WithLeaf(before, curr, r, child);
      TreeByChildren();
    }

    /** The tree as a value: the children of every node. */
    ghost function Children(): map<AcNode, map<char, AcNode>>
      reads this, repr`children
    {
      map n | n in repr :: n.children
    }

    static ghost predicate TreeOf(root: AcNode, kids: map<AcNode, map<char, AcNode>>) {
      && root in kids && root.path == []
      && (forall n {:trigger n.parent} | n in kids && n != root ::
            && n.parent != null && n.parent in kids
            && n.path == Snoc(n.parent.path, n.rune)
            && n.rune in kids[n.parent] && kids[n.parent][n.rune] == n)
      && (forall n, r {:trigger kids[n][r]} {:trigger r in kids[n]} | n in kids && r in kids[n] ::
            && kids[n][r] in kids && kids[n][r] != root
            && kids[n][r].parent == n && kids[n][r].rune == r)
    }

    static ghost function WithLeaf(kids: map<AcNode, map<char, AcNode>>, curr: AcNode, r: char, child: AcNode)
        : map<AcNode, map<char, AcNode>>
      requires curr in kids
    {
      var grown: map<char, AcNode> := kids[curr][r := child];
      var empty: map<char, AcNode> := map[];
      kids[curr := grown][child := empty]
    }

    lemma TreeByChildren()
      ensures Tree() <==> TreeOf(root, Children())
    {
      var kids := Children();
      assert forall n {:trigger n.children} {:trigger kids[n]} | n in repr :: n in kids && kids[n] == n.children;
      if TreeOf(root, kids) {
        forall n, r | n in repr && r in n.children
          ensures n.children[r] in repr && n.children[r] != root && n.children[r].parent == n && n.children[r].rune == r
        {
          assert r in kids[n];
        }
      }
      if Tree() {
        forall n, r | n in kids && r in kids[n]
          ensures kids[n][r] in kids && kids[n][r] != root && kids[n][r].parent == n && kids[n][r].rune == r
        {
          assert r in n.children;
        }
      }
    }

    /** A new leaf below one node keeps the tree a tree. */
    static lemma TreeGrows(root: AcNode, kids: map<AcNode, map<char, AcNode>>, curr: AcNode, r: char, child: AcNode)
      requires TreeOf(root, kids) && curr in kids && r !in kids[curr] && child !in kids
      requires child.parent == curr && child.rune == r && child.path == Snoc(curr.path, r)
      ensures TreeOf(root, WithLeaf(kids, curr, r, child))
    {
    }

    /** Notes the word at the node that spells it. */
    method Record(curr: AcNode, entry: WordEntry, runes: Runes)
      requires Tree() && Unlinked() && runes != [] && wordCount == CountNonempty(words)
      requires Paths() == TriePaths(words) + Prefixes(runes)
      requires curr in repr && curr.path == runes
      modifies this`wordCount, this`words, curr`output
      ensures Trie() && words == old(words) + [Word(runes, entry)]
    {
      hide WordsEqualTo, WordsEnding, TriePaths, Prefixes, CountNonempty;
      ghost var w := Word(runes, entry);
      OneMoreWord(words, w);
      forall n | n in repr && n.path == runes ensures n == curr {
        OneNodePerPath(n, curr);
      }
      curr.output := curr.output + [WordMeta(entry.text, |runes|, entry.category, entry.level)];
      wordCount := wordCount + 1;
      words := words + [w];
    }

    /** The nodes in `done` are finished, the others still list only their own words. */
    ghost predicate LinkedSoFar(done: set<AcNode>)
      reads this, repr
    {
      forall n | n in repr ::
        if n in done then LinkedNode(n) else n.output == WordsEqualTo(words, n.path)
    }

    /** The links followed to finish the nodes in `done`. */
    ghost function HopsFor(done: set<AcNode>): nat
      reads this
    {
      TotalHops(TriePaths(words), PathsOf(done))
    }

    lemma HopsForOneMore(done: set<AcNode>, child: AcNode)
      requires Tree() && done <= repr && child in repr && child !in done
      ensures HopsFor(done + {child}) == HopsFor(done) + LinkHops(TriePaths(words), child.path)
    {
      forall n | n in done ensures n.path != child.path {
        if n.path == child.path {
          OneNodePerPath(n, child);
        }
      }
      TotalHopsWith(TriePaths(words), PathsOf(done), child.path);
      assert PathsOf(done + {child}) == PathsOf(done) + {child.path};
    }

    /** Walks the fail chain of `curr` to the first node with a child for `r`; null when there is none. */
    method FindFail(curr: AcNode, r: char, ghost done: set<AcNode>) returns (failNode: AcNode?, ghost hops: nat)
      requires Complete() && curr in repr && curr.path != []
      requires forall n | n in repr && |n.path| <= |curr.path| :: n in done
      requires forall n | n in done :: n in repr && LinkedNode(n)
      ensures failNode == null ==> FailPath(TriePaths(words), Snoc(curr.path, r)) == []
      ensures failNode != null ==>
        && failNode in repr && r in failNode.children
        && failNode.children[r].path == FailPath(TriePaths(words), Snoc(curr.path, r))
      ensures hops == LinkHops(TriePaths(words), Snoc(curr.path, r))
    {
      hide WordsEqualTo, WordsEnding, TriePaths, Prefixes, CountNonempty;
      ghost var paths, goal := TriePaths(words), FailPath(TriePaths(words), Snoc(curr.path, r));
      TriePathsPrefixClosed(words);
      FailOfChild(paths, curr.path, r);
      hops := 0;
      failNode := curr.fail;
      while failNode != null && r !in failNode.children
        invariant failNode != null ==> failNode in done && |failNode.path| < |curr.path|
        invariant goal == if failNode == null then [] else LongestSuffixIn(paths, Snoc(failNode.path, r))
        invariant LinkHops(paths, Snoc(curr.path, r))
               == hops + if failNode == null then 0 else FailHops(paths, failNode.path, r)
        decreases if failNode == null then 0 else |failNode.path| + 1
      {
        ChildIffPath(failNode, r);
        if failNode.path != [] {
          FailStep(paths, failNode.path, r);
        }
        failNode := failNode.fail;
        hops := hops + 1;
      }
      if failNode != null {
        ChildIffPath(failNode, r);
      }
    }

    /** Points the fail link of a child at the end of the search. */
    method SetFail(curr: AcNode, r: char, child: AcNode, ghost done: set<AcNode>) returns (ghost hops: nat)
      requires Complete() && curr in repr && curr.path != [] && r in curr.children && child == curr.children[r]
      requires forall n | n in repr && |n.path| <= |curr.path| :: n in done
      requires done <= repr && LinkedSoFar(done) && child !in done
      modifies child`fail
      ensures child.fail != null && child.fail in done
      ensures child.fail.path == FailPath(TriePaths(words), child.path)
      ensures hops == LinkHops(TriePaths(words), child.path)
    {
      hide WordsEqualTo, WordsEnding, TriePaths, Prefixes, CountNonempty, LinkHops, TotalHops;
      assert child.path == Snoc(curr.path, r);
      var failNode;
      failNode, hops := FindFail(curr, r, done);
      if failNode == null {
        child.fail := root;
      } else {
        child.fail := failNode.children[r];
        assert child.fail != child;  // so the guard against a self-reference never fires
        child.fail := if child.fail == child then root else child.fail;
      }
    }

    /** Links the child of `curr` for `r`, when every node up to the depth of `curr` is finished. */
    method LinkChild(curr: AcNode, r: char, child: AcNode, ghost done: set<AcNode>) returns (ghost hops: nat)
      requires Complete() && curr in repr && curr.path != [] && r in curr.children && child == curr.children[r]
      requires forall n | n in repr && |n.path| <= |curr.path| :: n in done
      requires done <= repr && LinkedSoFar(done) && child !in done
      modifies child`fail, child`output
      ensures LinkedSoFar(done + {child})
      ensures HopsFor(done + {child}) == HopsFor(done) + hops
    {
      hide WordsEqualTo, WordsEnding, TriePaths, Prefixes, CountNonempty, LinkHops, TotalHops;
      assert child.path == Snoc(curr.path, r);
      HopsForOneMore(done, child);
      hops := SetFail(curr, r, child, done);
      MergeOutput(child);
    }

    /** Appends the finished output list of the fail node. */
    method MergeOutput(child: AcNode)
      requires child.path != [] && child.fail != null && child.fail in repr && child.fail != child
      requires child.fail.path == FailPath(TriePaths(words), child.path)
      requires child.output == WordsEqualTo(words, child.path)
      requires child.fail.output == WordsEnding(words, child.fail.path)
      modifies child`output
      ensures LinkedNode(child)
    {
      hide WordsEqualTo, WordsEnding, TriePaths;
      WordsEndingAlongFail(words, child.path);
      if |child.fail.output| > 0 {
        child.output := child.output + child.fail.output;
      }
      assert LinkedNode(child);
    }

    /** Links a child of the root. */
    method LinkTop(child: AcNode, ghost done: set<AcNode>)
      requires Complete() && child in repr && |child.path| == 1
      requires done <= repr && LinkedSoFar(done) && child !in done
      modifies child`fail
      ensures LinkedSoFar(done + {child})
      ensures HopsFor(done + {child}) == HopsFor(done)
    {
      hide WordsEqualTo, WordsEnding, TriePaths, Prefixes, CountNonempty, LinkHops, TotalHops;
      TopLevelLinked(words, child.path);
      HopsForOneMore(done, child);
      NoHopsAtTop(TriePaths(words), child.path);
      child.fail := root;
      assert LinkedNode(child);
    }

    /** How far the breadth-first traversal has got: the nodes in `processed` have all their children
        in `done`, except that the children of `curr` for the runes in `todo` are still missing; the
        queue holds the other nodes of `done`, by depth, and no node as shallow as `curr` is missing. */
    ghost predicate Frontier(done: set<AcNode>, processed: set<AcNode>, queue: seq<AcNode>,
                             curr: AcNode, todo: set<char>)
      reads this
    {
      && curr in processed && root in processed && processed <= done <= repr
      && (forall n {:trigger n.parent} | n in repr && n != root ::
            n in done <==> n.parent in processed && !(n.parent == curr && n.rune in todo))
      && (forall n | n in done :: n in processed || n in queue)
      && (forall i | 0 <= i < |queue| ::
            && queue[i] in done && queue[i] !in processed
            && |curr.path| <= |queue[i].path| <= |curr.path| + 1)
      && (forall i, j | 0 <= i < j < |queue| ::
            queue[i] != queue[j] && |queue[i].path| <= |queue[j].path|)
      && (forall n | n in repr && |n.path| <= |curr.path| :: n in done)
    }

    /** The head of the queue becomes the current node. */
    lemma NextNode(done: set<AcNode>, processed: set<AcNode>, queue: seq<AcNode>, curr: AcNode)
      requires Tree() && Frontier(done, processed, queue, curr, {}) && queue != []
      ensures queue[0] in repr - processed && queue[0].path != []
      ensures Frontier(done, processed + {queue[0]}, queue[1..], queue[0], queue[0].children.Keys)
    {
      var next := queue[0];
      assert next.path == Snoc(next.parent.path, next.rune);
      forall n | n in repr && |n.path| <= |next.path| ensures n in done {
        if |n.path| > |curr.path| {
          assert n.path == Snoc(n.parent.path, n.rune);
        }
      }
      forall n | n in done ensures n in processed + {next} || n in queue[1..] {
        if n !in processed && n != next {
          var i :| 0 <= i < |queue| && queue[i] == n;
          assert queue[1..][i - 1] == n;
        }
      }
    }

    /** A child of the current node is linked and queued. */
    lemma NextChild(done: set<AcNode>, processed: set<AcNode>, queue: seq<AcNode>,
                    curr: AcNode, todo: set<char>, r: char)
      requires Tree() && curr in repr && r in todo && r in curr.children
      requires Frontier(done, processed, queue, curr, todo)
      ensures curr.children[r] !in done && curr.children[r].path == Snoc(curr.path, r)
      ensures Frontier(done + {curr.children[r]}, processed, queue + [curr.children[r]], curr, todo - {r})
    {
      var child := curr.children[r];
      assert child.path == Snoc(child.parent.path, child.rune);
      forall n | n in repr && n != root
        ensures n in done + {child} <==> n.parent in processed && !(n.parent == curr && n.rune in todo - {r})
      {
        assert n.parent.children[n.rune] == n;
      }
      var grown := queue + [child];
      forall n | n in done + {child} ensures n in processed || n in grown {
        if n == child {
          assert grown[|queue|] == child;
        } else if n in queue {
          var i :| 0 <= i < |queue| && queue[i] == n;
          assert grown[i] == n;
        }
      }
    }

    /** When the queue has run dry, every node is done. */
    lemma {:induction false} AllDone(done: set<AcNode>, processed: set<AcNode>, curr: AcNode, n: AcNode)
      requires Tree() && Frontier(done, processed, [], curr, {}) && n in repr
      ensures n in done
      decreases |n.path|
    {
      if n != root {
        assert n.path == Snoc(n.parent.path, n.rune);
        AllDone(done, processed, curr, n.parent);
      }
    }

    /** So the automaton is finished. */
    lemma Finished(done: set<AcNode>, processed: set<AcNode>, curr: AcNode)
      requires Complete() && wordCount == CountNonempty(words)
      requires Frontier(done, processed, [], curr, {}) && LinkedSoFar(done)
      ensures Linked() && HopsFor(done) == TotalHops(TriePaths(words), TriePaths(words))
    {
      hide WordsEqualTo, WordsEnding, TriePaths, Prefixes, CountNonempty, TotalHops;
      forall n | n in repr ensures n in done {
        AllDone(done, processed, curr, n);
      }
      assert done == repr;
    }

    lemma StartAtRoot()
      requires Trie()
      ensures Frontier({root}, {root}, [], root, root.children.Keys) && LinkedSoFar({root})
      ensures HopsFor({root}) == 0
    {
      RootLinked(words);
      forall n | n in repr && n != root ensures n.path != [] && (n.parent == root ==> n.rune in root.children) {
        assert n.path == Snoc(n.parent.path, n.rune);
      }
      TotalHopsWith(TriePaths(words), {}, []);
      assert PathsOf({root}) == {} + {[]};
    }

    /** Links and queues the children of the root. */
    method LinkTopLevel() returns (queue: seq<AcNode>, ghost done: set<AcNode>)
      requires Trie()
      modifies repr`fail, repr`output
      ensures Frontier(done, {root}, queue, root, {}) && LinkedSoFar(done) && HopsFor(done) == 0
    {
      hide WordsEqualTo, WordsEnding, TriePaths, Prefixes, CountNonempty, LinkHops, TotalHops;
      StartAtRoot();
      queue, done := [], {root};
      var todo := root.children.Keys;
      while todo != {}
        invariant todo <= root.children.Keys
        invariant Frontier(done, {root}, queue, root, todo) && LinkedSoFar(done) && HopsFor(done) == 0
      {
        var r :| r in todo;
        var child := root.children[r];
        NextChild(done, {root}, queue, root, todo, r);
        LinkTop(child, done);
        queue, todo, done := queue + [child], todo - {r}, done + {child};
      }
    }

    /** Links and queues the children of one node, in any order. */
    method LinkChildren(curr: AcNode, queued: seq<AcNode>, ghost done0: set<AcNode>, ghost processed: set<AcNode>)
        returns (queue: seq<AcNode>, ghost done: set<AcNode>, ghost hops: nat)
      requires Complete() && curr in repr && curr.path != []
      requires Frontier(done0, processed, queued, curr, curr.children.Keys) && LinkedSoFar(done0)
      modifies repr`fail, repr`output
      ensures Frontier(done, processed, queue, curr, {}) && LinkedSoFar(done)
      ensures HopsFor(done) == HopsFor(done0) + hops
    {
      hide WordsEqualTo, WordsEnding, TriePaths, Prefixes, CountNonempty, LinkHops, TotalHops;
      queue, done, hops := queued, done0, 0;
      var todo := curr.children.Keys;
      while todo != {}
        invariant todo <= curr.children.Keys
        invariant Frontier(done, processed, queue, curr, todo) && LinkedSoFar(done)
        invariant HopsFor(done) == HopsFor(done0) + hops
      {
        var r :| r in todo;
        var child := curr.children[r];
        NextChild(done, processed, queue, curr, todo, r);
        queue := queue + [child];
        ghost var h := LinkChild(curr, r, child, done);
        hops, done, todo := hops + h, done + {child}, todo - {r};
      }
    }

    /** Links every node, breadth first; follows no more fail links than the words have runes to spare. */
    method BuildFailPointers() returns (ghost hops: nat)
      requires Trie()
      modifies repr`fail, repr`output
      ensures Linked()
      ensures hops == TotalHops(TriePaths(words), TriePaths(words)) <= BuildBudget(words)
    {
      hide WordsEqualTo, WordsEnding, TriePaths, Prefixes, CountNonempty, LinkHops, TotalHops, BuildBudget;
      hide AhoCorasick.Frontier, AhoCorasick.LinkedSoFar, AhoCorasick.HopsFor;
      hide AhoCorasick.Tree, AhoCorasick.Unlinked, AhoCorasick.Linked;
      hops := 0;
      var queue;
      ghost var done, processed, last := {root}, {root}, root;
      queue, done := LinkTopLevel();
      while |queue| > 0
        invariant Frontier(done, processed, queue, last, {}) && LinkedSoFar(done)
        invariant HopsFor(done) == hops
        decreases repr - processed
      {
        var curr := queue[0];
        NextNode(done, processed, queue, last);
        queue, processed, last := queue[1..], processed + {curr}, curr;
        ghost var h;
        queue, done, h := LinkChildren(curr, queue, done, processed);
        hops := hops + h;
      }
      Finished(done, processed, last);
      BuildIsLinear(words);
    }

    /** One transition of the scan: follows fail links until `r` can be read, then reads it. */
    method Advance(start: AcNode, r: char) returns (curr: AcNode, ghost hops: nat)
      requires Linked() && start in repr
      ensures curr in repr && curr.path == LongestSuffixIn(TriePaths(words), Snoc(start.path, r))
      ensures hops == StepHops(TriePaths(words), start.path, r)
    {
      hide WordsEqualTo, WordsEnding, TriePaths, Prefixes, CountNonempty;
      ghost var paths := TriePaths(words);
      TriePathsPrefixClosed(words);
      curr, hops := start, 0;
      while curr != root && r !in curr.children
        invariant curr in repr && hops + StepHops(paths, curr.path, r) == StepHops(paths, start.path, r)
        invariant LongestSuffixIn(paths, Snoc(start.path, r)) == LongestSuffixIn(paths, Snoc(curr.path, r))
        decreases |curr.path|
      {
        NotRoot(curr);
        ChildIffPath(curr, r);
        FailStep(paths, curr.path, r);
        assert LinkedNode(curr);
        curr := curr.fail;
        hops := hops + 1;
      }
      ChildIffPath(curr, r);
      if r in curr.children {
        curr := curr.children[r];
      } else {
        assert Snoc(curr.path, r)[1..] == [];
      }
    }

    lemma NotRoot(n: AcNode)
      requires Tree() && n in repr
      ensures n != root <==> n.path != []
    {
      if n != root {
        assert n.path == Snoc(n.parent.path, n.rune);
      }
    }

    /** The hits reported at one node, for rune index `i`. */
    method Report(curr: AcNode, i: nat) returns (items: seq<MatchItem>)
      ensures items == ItemsAt(curr.output, i + 1)
    {
      items := [];
      for k := 0 to |curr.output|
        invariant |items| == k && forall j | 0 <= j < k :: items[j] == ItemAt(curr.output[j], i + 1)
      {
        var meta := curr.output[k];
        items := items + [MatchItem(meta.text, i - meta.length + 1, i + 1, meta.category, meta.level)];
      }
    }

    lemma OutputIsComplete(n: AcNode)
      requires Linked() && n in repr
      ensures n.output == WordsEnding(words, n.path)
    {
      assert LinkedNode(n);
    }

    lemma ScanStarts()
      requires Linked()
      ensures root in repr && root.path == [] && wordCount == CountNonempty(words)
    {
    }

    /** One rune of the text: a transition, then the hits at the node it leads to. */
    method ScanRune(curr: AcNode, runes: Runes, i: nat, found: seq<MatchItem>)
        returns (next: AcNode, results: seq<MatchItem>, ghost hops: nat)
      requires Linked() && curr in repr && i < |runes|
      requires curr.path == LongestSuffixIn(TriePaths(words), runes[..i]) && found == Search(words, runes[..i])
      ensures next in repr && next.path == LongestSuffixIn(TriePaths(words), runes[..i + 1])
      ensures results == Search(words, runes[..i + 1])
      ensures ScanHops(TriePaths(words), runes[..i + 1]) == ScanHops(TriePaths(words), runes[..i]) + hops
    {
      hide WordsEqualTo, WordsEnding, TriePaths, Prefixes, CountNonempty, Search, LongestSuffixIn, StepHops, ScanHops;
      ScanHopsStep(TriePaths(words), runes, i);
      hide AhoCorasick.Linked, AhoCorasick.LinkedNode, AhoCorasick.Tree, AhoCorasick.Complete;
      ScanStep(words, runes, i);
      next, hops := Advance(curr, runes[i]);
      OutputIsComplete(next);
      var items := Report(next, i);
      results := found + items;
    }

    /** The scan finds exactly what the naive search finds, in the same order. The fail links it follows are
        those that the trie and the text dictate, and with the final depth they are at most the runes read. */
    method SearchNormalized(runes: Runes) returns (results: seq<MatchItem>, ghost hops: nat, ghost depth: nat)
      requires Linked()
      ensures results == Search(words, runes)
      ensures hops == ScanHops(TriePaths(words), runes) && depth == |LongestSuffixIn(TriePaths(words), runes)|
      ensures hops + depth <= |runes|
    {
      hide WordsEqualTo, WordsEnding, TriePaths, Prefixes, CountNonempty, Search, LongestSuffixIn, StepHops, ScanHops;
      hide AhoCorasick.Linked, AhoCorasick.LinkedNode, AhoCorasick.Tree, AhoCorasick.Complete;
      ScanStarts();
      hops, depth := 0, 0;
      if wordCount == 0 {
        NothingToFind(words, runes);
        OnlyRoot(words);
        NoHopsAtRoot(TriePaths(words), runes);
        return [], 0, 0;
      }
      results := [];
      var curr := root;
      SearchNothing(words, runes[..0]);
      ScanHopsOfNothing(TriePaths(words), runes[..0]);
      for i := 0 to |runes|
        invariant curr in repr && curr.path == LongestSuffixIn(TriePaths(words), runes[..i])
        invariant results == Search(words, runes[..i])
        invariant hops == ScanHops(TriePaths(words), runes[..i])
      {
        ghost var h;
        curr, results, h := ScanRune(curr, runes, i, results);
        hops := hops + h;
      }
      assert runes[..|runes|] == runes;
      depth := |curr.path|;
      TriePathsPrefixClosed(words);
      ScanIsLinear(TriePaths(words), runes);
    }
  }
}
