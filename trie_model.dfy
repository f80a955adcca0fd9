/**
 * The predictive-text trie of KeyPad as a structure of heap objects.
 *
 * A `Node` owns a dictionary from keypad digits to child nodes and the
 * words whose digit sequence ends at it. A `Trie` owns the root node and
 * the query limits. Each `Trie` carries a ghost map `nodeAt` from digit
 * paths to the nodes reached by them and a ghost `contents`, the words of
 * every node as a `TrieSpec.Store`; `Valid()` ties the heap to both, and
 * every operation is specified against `contents`.
 */
module TrieModel {
  import opened KeyCodec
  import opened TrieSpec

  /** Lower and upper bound and default of the suggestion depth. */
  const SuggestionDepthDefault := 3
  const SuggestionDepthMax := 10
  const SuggestionDepthMin := 0

  /** The suggestion depth a trie keeps for a requested depth. */
  function ClampDepth(requested: int): (d: int)
    ensures SuggestionDepthMin <= d <= SuggestionDepthMax
    ensures SuggestionDepthMin <= requested <= SuggestionDepthMax ==> d == requested
    ensures requested < SuggestionDepthMin ==> d == SuggestionDepthMin
    ensures requested > SuggestionDepthMax ==> d == SuggestionDepthMax
  {
    if requested < SuggestionDepthMin then SuggestionDepthMin
    else if requested > SuggestionDepthMax then SuggestionDepthMax
    else requested
  }

  /** One trie node: its children by digit, its words, and its leaf flag. */
  class Node {
    var children: map<int, Node>
    var words: seq<string>
    var leaf: bool

    /** A node without children or words, not a leaf. */
    constructor()
      ensures children == map[] && words == [] && !leaf
    {
      children := map[];
      words := [];
      leaf := false;
    }

    /** Appends a word to the node's list; nothing else changes. */
    method AddWord(word: string)
      modifies this`words
      ensures words == old(words) + [word]
    {
      words := words + [word];
    }

    /** Whether a word ends at this node. */
    method IsLeaf() returns (r: bool)
      ensures r == leaf
    {
      r := leaf;
    }

    /** The child under `key`; callers check `HasChild` first. */
    method GetBranch(key: int) returns (r: Node)
      requires key in children
      ensures r == children[key]
    {
      r := children[key];
    }

    /** Whether the node has a child under `key`. */
    method HasChild(key: int) returns (r: bool)
      ensures r <==> key in children
    {
      r := key in children;
    }

    /** Makes `nodeToInsert` the child under `key`; nothing else changes. */
    method PutNode(key: int, nodeToInsert: Node)
      modifies this`children
      ensures children == old(children)[key := nodeToInsert]
    {
      children := children[key := nodeToInsert];
    }

    /** Marks the node as the end of a word; nothing else changes. */
    method SetAsLeaf()
      modifies this`leaf
      ensures leaf
    {
      leaf := true;
    }
  }

  /**
   * The children a node at `p` must have, given the node of every path:
   * under each key 2 to 9, the node of `p` extended by that key, if any.
   */
  ghost function ChildMap(nodeAt: map<Path, Node>, p: Path): (m: map<int, Node>)
    ensures forall d {:trigger d in m} :: d in m <==> IsDigitKey(d) && p + [d] in nodeAt
    ensures forall d {:trigger m[d]} :: d in m ==> m[d] == nodeAt[p + [d]]
  {
    map d | 2 <= d <= 9 && p + [d] in nodeAt :: nodeAt[p + [d]]
  }

  /**
   * Adding a node at path `q` changes only the children due to its parent,
   * which gain `q`'s last key.
   */
  lemma ChildMapGrow(nodeAt: map<Path, Node>, q: Path, n: Node, p: Path)
    requires |q| > 0
    ensures p != Parent(q) ==> ChildMap(nodeAt[q := n], p) == ChildMap(nodeAt, p)
    ensures p == Parent(q) && IsDigitKey(q[|q| - 1]) ==>
      ChildMap(nodeAt[q := n], p) == ChildMap(nodeAt, p)[q[|q| - 1] := n]
  {
    var m := nodeAt[q := n];
    if p == Parent(q) {
      assert q == p + [q[|q| - 1]];
    } else {
      forall d | IsDigitKey(d)
        ensures p + [d] in m <==> p + [d] in nodeAt
        ensures p + [d] in m ==> m[p + [d]] == nodeAt[p + [d]]
      {
        assert Parent(p + [d]) == p;
      }
    }
  }

  /** Set union regroups. */
  lemma UnionAssoc(a: set<Node>, b: set<Node>, c: set<Node>)
    ensures a + b + c == a + (b + c)
  {
  }

  /**
   * The ghost bookkeeping of a trie agrees with itself: the store is well
   * formed, there is a node for exactly its paths, and distinct paths have
   * distinct nodes (`pathOf` inverts `nodeAt`).
   */
  ghost predicate Layout(contents: Store, nodeAt: map<Path, Node>, pathOf: map<Node, Path>) {
    WellFormed(contents) && nodeAt.Keys == contents.Keys &&
    forall p {:trigger nodeAt[p]} :: p in nodeAt ==> nodeAt[p] in pathOf && pathOf[nodeAt[p]] == p
  }

  /** A new empty node for a new path under an existing one keeps the bookkeeping consistent. */
  lemma LayoutGrow(contents: Store, nodeAt: map<Path, Node>, pathOf: map<Node, Path>, q: Path, n: Node)
    requires Layout(contents, nodeAt, pathOf)
    requires |q| > 0 && q !in contents && Parent(q) in contents && IsDigitKey(q[|q| - 1])
    requires forall r {:trigger nodeAt[r]} :: r in nodeAt ==> nodeAt[r] != n
    ensures Layout(contents[q := []], nodeAt[q := n], pathOf[n := q])
  {
    AddEmptyWellFormed(contents, q);
    var nodeAt', pathOf' := nodeAt[q := n], pathOf[n := q];
    forall r {:trigger nodeAt'[r]} | r in nodeAt'
      ensures nodeAt'[r] in pathOf' && pathOf'[nodeAt'[r]] == r
    {
      if r != q {
        assert nodeAt'[r] == nodeAt[r];
      }
    }
  }

  /** Every path of `a` reaches in `b` the same node as in `a`. */
  ghost predicate Keeps(a: map<Path, Node>, b: map<Path, Node>) {
    forall q {:trigger a[q]} :: q in a ==> q in b && b[q] == a[q]
  }

  /** Keeping the nodes of paths is transitive. */
  lemma KeepsTrans(a: map<Path, Node>, b: map<Path, Node>, c: map<Path, Node>)
    requires Keeps(a, b) && Keeps(b, c)
    ensures Keeps(a, c)
  {
    forall q | q in a
      ensures q in c && c[q] == a[q]
    {
      assert b[q] == a[q];
    }
  }

  /** The trie: root, query limits and word count. */
  class Trie {
    var root: Node
    const suggestionDepth: int
    const maxSuggestions: int
    var numWords: int
    /** The words inserted by loading, in order. */
    var wordList: seq<string>

    /** The words of every node, by digit path. */
    ghost var contents: Store
    /** The node reached by each digit path. */
    ghost var nodeAt: map<Path, Node>
    /** The path of each node: the inverse of `nodeAt`. */
    ghost var pathOf: map<Node, Path>
    /** The nodes of the trie. */
    ghost var Repr: set<Node>

    /**
     * `contents` is a well-formed store and the heap lays it out: the root
     * is the node of the empty path; distinct paths reach distinct nodes;
     * each node's children are exactly the nodes one key further down;
     * each node holds the words of its path and is a leaf exactly when it
     * holds some.
     */
    ghost predicate Valid()
      reads this`root, this`contents, this`nodeAt, this`pathOf, this`Repr, Repr
    {
      var ok := Layout(contents, nodeAt, pathOf) &&
        [] in nodeAt && nodeAt[[]] == root &&
        forall p {:trigger nodeAt[p]} :: p in nodeAt ==>
          nodeAt[p] in Repr &&
          nodeAt[p].children == ChildMap(nodeAt, p) &&
          nodeAt[p].words == contents[p] && (nodeAt[p].leaf <==> contents[p] != []);
      ok
    }

    /**
     * Builds a trie from the lines of a dictionary: the depth is clamped,
     * then the words before the first empty line are inserted in order.
     */
    constructor(lines: seq<string>, maxSuggestions: int, suggestionDepth: int := SuggestionDepthDefault)
      requires Loadable(lines)
      ensures Valid()
      ensures contents == Load(lines)
      ensures numWords == FirstEmpty(lines) && wordList == Loaded(lines)
      ensures this.maxSuggestions == maxSuggestions
      ensures this.suggestionDepth == ClampDepth(suggestionDepth)
      ensures forall n {:trigger n in Repr} :: n in Repr ==> fresh(n)
    {
      var r := new Node();
      root := r;
      numWords := 0;
      wordList := [];
      this.maxSuggestions := maxSuggestions;
      this.suggestionDepth := ClampDepth(suggestionDepth);
      contents := Empty();
      nodeAt := map[[] := r];
      pathOf := map[r := []];
      Repr := {r};
      new;
      assert ChildMap(nodeAt, []) == map[] by {
        forall d | IsDigitKey(d) ensures [] + [d] !in nodeAt {
          assert [] + [d] != [];
        }
      }
      ghost var made := LoadTrie(lines);
      forall n | n in Repr
        ensures fresh(n)
      {
        if n != r {
          assert n in made;
        }
      }
    }

    /**
     * Inserts the lines before the first empty one, in order, counting
     * them and keeping them in `wordList`.
     */
    method LoadTrie(lines: seq<string>) returns (ghost made: set<Node>)
      requires Valid() && Loadable(lines)
      modifies this`contents, this`nodeAt, this`pathOf, this`Repr, this`numWords, this`wordList, Repr
      ensures Valid() && Repr == old(Repr) + made
      ensures forall n {:trigger n in made} :: n in made ==> !old(allocated(n))
      ensures contents == InsertAll(old(contents), Loaded(lines))
      ensures numWords == old(numWords) + FirstEmpty(lines)
      ensures wordList == old(wordList) + Loaded(lines)
    {
      ghost var t0 := contents;
      made := {};
      var i := 0;
      while i < |lines|
        invariant i <= FirstEmpty(lines)
        invariant Valid() && Repr == old(Repr) + made
        invariant forall n {:trigger n in made} :: n in made ==> !old(allocated(n))
        invariant contents == LoadPrefix(t0, lines, i)
        invariant numWords == old(numWords) + i
        invariant wordList == old(wordList) + lines[..i]
      {
        var word := lines[i];
        if |word| < 1 {
          break;
        }
        LoadPrefixStep(t0, lines, i);
        AppendNext(old(wordList), lines, i);
        ghost var added := LoadWord(word);
        UnionAssoc(old(Repr), made, added);
        made := made + added;
        i := i + 1;
      }
      LoadPrefixStop(t0, lines, i);
    }

    /** Inserts a loaded word, counts it and appends it to `wordList`. */
    method LoadWord(word: string) returns (ghost made: set<Node>)
      requires Valid() && IsWord(word)
      modifies this`contents, this`nodeAt, this`pathOf, this`Repr, this`numWords, this`wordList, Repr
      ensures Valid() && Repr == old(Repr) + made
      ensures forall n {:trigger n in made} :: n in made ==> !old(allocated(n))
      ensures contents == TrieSpec.Insert(old(contents), word)
      ensures wordList == old(wordList) + [word] && numWords == old(numWords) + 1
    {
      made := Insert(word);
      wordList := wordList + [word];
      numWords := numWords + 1;
    }

    /**
     * Walks the word's digits from the root, creating the missing nodes,
     * and adds the word to the last node, which becomes a leaf.
     */
    method Insert(word: string) returns (ghost made: set<Node>)
      requires Valid() && IsWord(word)
      modifies this`contents, this`nodeAt, this`pathOf, this`Repr, Repr
      ensures Valid() && Repr == old(Repr) + made
      ensures forall n {:trigger n in made} :: n in made ==> !old(allocated(n))
      ensures contents == TrieSpec.Insert(old(contents), word)
      ensures Keeps(old(nodeAt), nodeAt)
    {
      ghost var t0, nodeAt0 := contents, nodeAt;
      ghost var e := Encode(word);
      var node := root;
      made := {};
      assert e[..0] == [];
      GrowRoot(t0);
      for i := 0 to |word|
        invariant Valid() && Repr == old(Repr) + made
        invariant forall n {:trigger n in made} :: n in made ==> !old(allocated(n))
        invariant e[..i] in nodeAt && node == nodeAt[e[..i]]
        invariant contents == Grow(t0, e[..i])
        invariant Keeps(nodeAt0, nodeAt)
      {
        var key := DigitOf(word[i]);
        GrowStep(t0, word, i);
        ghost var added;
        ghost var before := nodeAt;
        node, added := Descend(node, e[..i], key);
        KeepsTrans(nodeAt0, before, nodeAt);
        UnionAssoc(old(Repr), made, added);
        made := made + added;
      }
      assert e[..|word|] == e;
      AddWordAt(node, e, word);
    }

    /**
     * One step of `insert`: from the node at `p`, go to its child under
     * `key`, creating that child, without words, if it is missing.
     */
    method Descend(node: Node, ghost p: Path, key: int) returns (child: Node, ghost added: set<Node>)
      requires Valid() && p in nodeAt && node == nodeAt[p] && IsDigitKey(key)
      modifies this`contents, this`nodeAt, this`pathOf, this`Repr, node`children
      ensures Valid() && Repr == old(Repr) + added
      ensures forall n {:trigger n in added} :: n in added ==> !old(allocated(n))
      ensures p + [key] in nodeAt && child == nodeAt[p + [key]]
      ensures p + [key] in old(nodeAt) ==> nodeAt == old(nodeAt)
      ensures p + [key] !in old(nodeAt) ==> nodeAt == old(nodeAt)[p + [key] := child]
      ensures Keeps(old(nodeAt), nodeAt)
      ensures contents == if p + [key] in old(contents) then old(contents) else old(contents)[p + [key] := []]
    {
      var has := node.HasChild(key);
      if !has {
        child := AddChild(node, p, key);
        added := {child};
      } else {
        child := node.GetBranch(key);
        added := {};
      }
    }

    /** Hangs a new empty node under the node at `p`, at `key`, where there was none. */
    method AddChild(node: Node, ghost p: Path, key: int) returns (created: Node)
      requires Valid() && p in nodeAt && node == nodeAt[p] && IsDigitKey(key)
      requires key !in node.children
      modifies this`contents, this`nodeAt, this`pathOf, this`Repr, node`children
      ensures Valid() && fresh(created) && Repr == old(Repr) + {created}
      ensures p + [key] !in old(nodeAt) && nodeAt == old(nodeAt)[p + [key] := created]
      ensures contents == old(contents)[p + [key] := []]
    {
      ghost var next := p + [key];
      created := new Node();
      node.PutNode(key, created);
      contents := contents[next := []];
      nodeAt := nodeAt[next := created];
      pathOf := pathOf[created := next];
      Repr := Repr + {created};
      GrowValid(node, p, key, created);
    }

    /** The heap after `AddChild` again lays out the grown bookkeeping. */
    twostate lemma GrowValid(new node: Node, new p: Path, new key: int, new created: Node)
      requires old(Valid()) && p in old(nodeAt) && node == old(nodeAt[p]) && IsDigitKey(key)
      requires key !in old(node.children) && !old(allocated(created))
      requires contents == old(contents)[p + [key] := []] && nodeAt == old(nodeAt)[p + [key] := created]
      requires pathOf == old(pathOf)[created := p + [key]] && Repr == old(Repr) + {created} && root == old(root)
      requires node.children == old(node.children)[key := created]
      requires node.words == old(node.words) && node.leaf == old(node.leaf)
      requires created.children == map[] && created.words == [] && !created.leaf
      requires forall n {:trigger n in old(Repr)} :: n in old(Repr) && n != node ==> unchanged(n)
      ensures Valid()
    {
      var next := p + [key];
      assert Parent(next) == p && next[|next| - 1] == key;
      var oldNodeAt := old(nodeAt);
      assert next !in oldNodeAt by {
        assert key !in ChildMap(oldNodeAt, p);
      }
      LayoutGrow(old(contents), oldNodeAt, old(pathOf), next, created);
      forall q {:trigger nodeAt[q]} | q in nodeAt
        ensures nodeAt[q] in Repr && nodeAt[q].children == ChildMap(nodeAt, q)
        ensures nodeAt[q].words == contents[q] && (nodeAt[q].leaf <==> contents[q] != [])
      {
        ChildMapGrow(oldNodeAt, next, created, q);
        if q == next {
          assert ChildMap(nodeAt, next) == map[] by {
            forall d | IsDigitKey(d) ensures next + [d] !in oldNodeAt {
              assert Parent(next + [d]) == next;
            }
          }
        } else {
          assert nodeAt[q] == oldNodeAt[q] && old(nodeAt[q]) in old(Repr);
        }
      }
    }

    /** The end of `insert`: the node at `p` becomes a leaf and gets `word`. */
    method AddWordAt(node: Node, ghost p: Path, word: string)
      requires Valid() && p in nodeAt && node == nodeAt[p]
      requires IsWord(word) && Encode(word) == p
      modifies this`contents, node`leaf, node`words
      ensures Valid()
      ensures contents == old(contents)[p := old(contents)[p] + [word]]
    {
      node.SetAsLeaf();
      node.AddWord(word);
      AddWordWellFormed(contents, p, word);
      contents := contents[p := contents[p] + [word]];
    }

    /** The node of a path the queries resolved, or nil. */
    ghost function NodeOf(r: Option<Path>): Node?
      reads this`nodeAt
    {
      if r.Some? && r.value in nodeAt then nodeAt[r.value] else null
    }

    /**
     * Follows `ks` from the root. A missing child before the last key gives
     * nil and `false`; a missing child at the last key keeps the node
     * reached so far and still reports `true`.
     */
    method GetPrefixLeaf(ks: Path) returns (node: Node?, prefixExists: bool)
      requires Valid()
      ensures var r := PrefixLeaf(contents, ks);
        prefixExists == r.prefixExists && node == NodeOf(r.node)
    {
      node := root;
      prefixExists := true;
      ghost var stuck := false;
      for i := 0 to |ks|
        invariant prefixExists && node != null
        invariant !stuck ==> ks[..i] in nodeAt && node == nodeAt[ks[..i]]
        invariant stuck ==> i == |ks| && ks !in nodeAt && ks[..|ks| - 1] in nodeAt && node == nodeAt[ks[..|ks| - 1]]
      {
        var key := ks[i];
        assert ks[..i + 1] == ks[..i] + [key];
        var has := node.HasChild(key);
        if has {
          node := node.GetBranch(key);
        } else {
          assert ks[..i + 1] !in contents by {
            assert ks[..i + 1][i] == key;
            assert ks[..i + 1] in contents ==> IsKeyPath(ks[..i + 1]);
          }
          if i == |ks| - 1 {
            assert ks[..i + 1] == ks;
            prefixExists := true;
            stuck := true;
          } else {
            prefixExists := false;
            node := null;
            PrefixLeafOutcomes(contents, ks);
            return;
          }
        }
      }
      if !stuck {
        assert ks[..|ks|] == ks;
      }
    }

    /** The node of `getPrefixLeaf` when its flag is set, else nil. */
    method GetPrefixNode(ks: Path) returns (node: Node?)
      requires Valid()
      ensures node == NodeOf(PrefixNode(contents, ks))
    {
      var leaf, prefixExists := GetPrefixLeaf(ks);
      if prefixExists {
        node := leaf;
      } else {
        node := null;
      }
    }

    /**
     * Whether `word` is one of the words of the node `getPrefixLeaf` gives
     * for `ks` (its flag is ignored); a node that is not a leaf has none.
     */
    method WordExists(word: string, ks: Path) returns (r: bool)
      requires Valid()
      ensures r == TrieSpec.WordExists(contents, word, ks)
    {
      var node, _ := GetPrefixLeaf(ks);
      if node != null {
        var leaf := node.IsLeaf();
        if leaf {
          for j := 0 to |node.words|
            invariant word !in node.words[..j]
          {
            if node.words[j] == word {
              return true;
            }
          }
          return false;
        } else {
          return false;
        }
      } else {
        return false;
      }
    }

    /**
     * The suggestions for a key sequence: nothing without a prefix node, or
     * when the node's first word is shorter than the sequence; otherwise the
     * node's words, then, when the depth is above 1, the deeper suggestions
     * with the rest of the budget.
     */
    method GetSuggestions(ks: Path) returns (suggestions: seq<string>)
      requires Valid()
      ensures suggestions == Suggestions(contents, ks, maxSuggestions, suggestionDepth)
    {
      suggestions := [];
      var prefixNode := GetPrefixNode(ks);
      if prefixNode != null {
        ghost var p := PrefixNode(contents, ks).value;
        if |prefixNode.words| > 0 {
          if |prefixNode.words[0]| < |ks| {
            return [];
          }
          for k := 0 to |prefixNode.words|
            invariant suggestions == prefixNode.words[..k]
          {
            suggestions := suggestions + [prefixNode.words[k]];
          }
          assert prefixNode.words[..|prefixNode.words|] == prefixNode.words;
        }
        if suggestionDepth > 1 {
          var deeper := new DeeperSuggestions(suggestionDepth, prefixNode, maxSuggestions - |suggestions|, suggestions, this, p);
          var more := deeper.Get();
          suggestions := suggestions + more;
        }
      }
    }
  }

  /** Queue `q` holds the nodes of the paths `qp`, in the same order. */
  ghost predicate Mirrors(nodeAt: map<Path, Node>, q: seq<Node>, qp: seq<Path>) {
    |q| == |qp| && forall k :: 0 <= k < |q| ==> qp[k] in nodeAt && q[k] == nodeAt[qp[k]]
  }

  /** The nodes of `nodeAt` hold the words of `t` and link to the nodes one key deeper. */
  ghost predicate Shows(t: Store, nodeAt: map<Path, Node>)
    reads nodeAt.Values
  {
    nodeAt.Keys == t.Keys &&
    forall p {:trigger nodeAt[p]} :: p in nodeAt ==>
      nodeAt[p].words == t[p] && nodeAt[p].children == ChildMap(nodeAt, p)
  }

  lemma MirrorsPush(nodeAt: map<Path, Node>, q: seq<Node>, qp: seq<Path>, p: Path)
    requires Mirrors(nodeAt, q, qp) && p in nodeAt
    ensures Mirrors(nodeAt, q + [nodeAt[p]], qp + [p])
  {
  }

  lemma MirrorsTail(nodeAt: map<Path, Node>, q: seq<Node>, qp: seq<Path>)
    requires Mirrors(nodeAt, q, qp) && q != []
    ensures Mirrors(nodeAt, q[1..], qp[1..])
  {
  }

  /**
   * The deeper suggestions of one query: the words below a prefix node, in
   * breadth-first order, skipping the words it is given (the prefix
   * node's own words), up to a budget.
   */
  class DeeperSuggestions {
    const suggestionDepth: int
    const prefixNode: Node
    /** The lists of deeper suggestions; the traversal adds one. */
    var deeperSuggestions: seq<seq<string>>
    /** The deeper suggestions, flattened. */
    var suggestions: seq<string>
    const maxSuggestions: int
    /** The words already suggested. */
    var suggestionSet: set<string>

    /**
     * Records the words already found, gathers the words below the prefix
     * node (at path `start` of `trie`) and flattens them into `suggestions`.
     */
    constructor(suggestionDepth: int, prefixNode: Node, maxSuggestions: int, suggestionAlreadyFound: seq<string>,
                ghost trie: Trie, ghost start: Path)
      requires trie.Valid() && start in trie.nodeAt && trie.nodeAt[start] == prefixNode
      ensures this.suggestionDepth == suggestionDepth && this.prefixNode == prefixNode
      ensures this.maxSuggestions == maxSuggestions
      ensures suggestionSet == Elements(suggestionAlreadyFound)
      ensures deeperSuggestions == [Gather(trie.contents, start, suggestionSet, maxSuggestions)]
      ensures suggestions == Gather(trie.contents, start, suggestionSet, maxSuggestions)
    {
      this.suggestionDepth := suggestionDepth;
      this.prefixNode := prefixNode;
      this.maxSuggestions := maxSuggestions;
      deeperSuggestions := [];
      suggestions := [];
      var seen := {};
      for k := 0 to |suggestionAlreadyFound|
        invariant seen == Elements(suggestionAlreadyFound[..k])
      {
        assert suggestionAlreadyFound[..k + 1] == suggestionAlreadyFound[..k] + [suggestionAlreadyFound[k]];
        seen := seen + {suggestionAlreadyFound[k]};
      }
      assert suggestionAlreadyFound[..|suggestionAlreadyFound|] == suggestionAlreadyFound;
      suggestionSet := seen;
      new;
      assert Shows(trie.contents, trie.nodeAt);
      var found := BreadthTraverse(prefixNode, trie.contents, trie.nodeAt, start);
      deeperSuggestions := deeperSuggestions + [found];
      assert deeperSuggestions == [found];
      FlattenSuggestions();
      FlattenOne(found);
    }

    /** The flattened deeper suggestions. */
    method Get() returns (r: seq<string>)
      ensures r == suggestions
    {
      r := suggestions;
    }

    /**
     * Breadth-first traversal from `currentNode`, the node at path `start`
     * of the trie `t` laid out by `nodeAt`: each node's words in order, those in `suggestionSet`
     * skipped, children queued after it in ascending key order; it stops
     * when the queue is empty or `maxSuggestions` words were kept.
     */
    method BreadthTraverse(currentNode: Node, ghost t: Store, ghost nodeAt: map<Path, Node>, ghost start: Path)
      returns (suggestions: seq<string>)
      requires Shows(t, nodeAt) && start in t && nodeAt[start] == currentNode
      ensures suggestions == Gather(t, start, suggestionSet, maxSuggestions)
    {
      var q := [currentNode];
      suggestions := [];
      // the paths of the queued nodes, and the state of the level-order walk
      ghost var qp: seq<Path> := [start];
      ghost var done: seq<Path> := [];
      ghost var lvl: seq<Path> := [start];
      ghost var L: nat := |start|;
      ghost var j: nat := 0;
      FrontierStart(t, start);
      while q != [] && |suggestions| < maxSuggestions
        invariant Frontier(t, start, done, lvl, L, j)
        invariant qp == lvl[j..] + NextLevel(t, lvl[..j])
        invariant Mirrors(nodeAt, q, qp)
        invariant suggestions == Without(WordsAt(t, done + lvl[..j]), suggestionSet)
        invariant |suggestions| < maxSuggestions || suggestions == []
        decreases |SubtreeOrder(t, start)| - |done| - j
      {
        if j == |lvl| {
          // the whole level is off the queue: the queue is the next level
          QueueAtLevelEnd(t, lvl, qp);
          FrontierNext(t, start, done, lvl, L);
          done, lvl, L, j := done + lvl, qp, L + 1, 0;
        }
        var n := q[0];
        ghost var x := lvl[j];
        ghost var pre := done + lvl[..j];
        FrontierVisit(t, start, done, lvl, L, j, qp, suggestionSet);
        assert n == nodeAt[x];
        var full;
        ghost var k;
        suggestions, k, full := TakeWords(suggestions, n.words);
        if full {
          GatherFull(t, start, suggestionSet, maxSuggestions, pre, x, k);
          return;
        }
        assert n.words[..k] == n.words;
        MirrorsTail(nodeAt, q, qp);
        q := EnqueueChildren(q[1..], n, qp[1..], x, t, nodeAt);
        qp := qp[1..] + Kids(t, x);
        j := j + 1;
      }
      if |suggestions| < maxSuggestions {
        // the queue ran empty: the last level was visited and has no children
        assert |lvl[j..]| == 0;
        assert j == |lvl| && lvl[..j] == lvl;
        FrontierEnd(t, start, done, lvl, L);
        GatherExhausted(t, start, suggestionSet, maxSuggestions);
      }
    }

    /**
     * Appends the words of one node that are not in `suggestionSet` to the
     * list, stopping as soon as it holds `maxSuggestions` words; `full`
     * tells whether it did, and `k` is how many words were looked at.
     */
    method TakeWords(suggestions: seq<string>, words: seq<string>) returns (s': seq<string>, ghost k: nat, full: bool)
      requires |suggestions| < maxSuggestions
      ensures k <= |words| && s' == suggestions + Without(words[..k], suggestionSet)
      ensures full ==> |s'| == maxSuggestions
      ensures !full ==> k == |words| && |s'| < maxSuggestions
    {
      s' := suggestions;
      for i := 0 to |words|
        invariant s' == suggestions + Without(words[..i], suggestionSet)
        invariant |s'| < maxSuggestions
      {
        var word := words[i];
        WithoutSnoc(words[..i], word, suggestionSet);
        assert words[..i + 1] == words[..i] + [word];
        if word !in suggestionSet {
          s' := s' + [word];
        }
        if |s'| == maxSuggestions {
          return s', i + 1, true;
        }
      }
      assert words[..|words|] == words;
      return s', |words|, false;
    }

    /**
     * Appends the children of `n`, the node at path `x`, to the queue, in
     * ascending key order.
     */
    method EnqueueChildren(q: seq<Node>, n: Node, ghost qp: seq<Path>, ghost x: Path,
                           ghost t: Store, ghost nodeAt: map<Path, Node>) returns (q': seq<Node>)
      requires nodeAt.Keys == t.Keys && n.children == ChildMap(nodeAt, x)
      requires Mirrors(nodeAt, q, qp)
      ensures Mirrors(nodeAt, q', qp + Kids(t, x))
    {
      q' := q;
      ghost var qp' := qp;
      for d := 2 to 10
        invariant Mirrors(nodeAt, q', qp')
        invariant qp' + KidsFrom(t, x, d) == qp + Kids(t, x)
      {
        ghost var next := if x + [d] in t then [x + [d]] else [];
        KidsFromStep(t, x, d);
        AppendAssoc(qp', next, KidsFrom(t, x, d + 1));
        if d in n.children {
          MirrorsPush(nodeAt, q', qp', x + [d]);
          q' := q' + [n.children[d]];
        }
        qp' := qp' + next;
      }
    }

    /** Appends every word of every list of `deeperSuggestions` to `suggestions`, in order. */
    method FlattenSuggestions()
      modifies this`suggestions
      ensures suggestions == old(suggestions) + Flatten(deeperSuggestions)
    {
      for i := 0 to |deeperSuggestions|
        invariant suggestions == old(suggestions) + Flatten(deeperSuggestions[..i])
      {
        var list := deeperSuggestions[i];
        for k := 0 to |list|
          invariant suggestions == old(suggestions) + Flatten(deeperSuggestions[..i]) + list[..k]
        {
          assert list[..k + 1] == list[..k] + [list[k]];
          suggestions := suggestions + [list[k]];
        }
        assert list[..|list|] == list;
        FlattenSnoc(deeperSuggestions, i);
      }
      assert deeperSuggestions[..|deeperSuggestions|] == deeperSuggestions;
    }
  }
}
