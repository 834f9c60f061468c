/** The trie of breUtils/prefixTree.hpp: nodes on the heap that stand for a set of words. */
module PrefixTree {

  class Node {
    var nodes: seq<Node>
    var word: char
    var isWord: bool

    constructor (ch: char)
      ensures nodes == [] && word == ch && !isWord
    {
      nodes, word, isWord := [], ch, false;
    }

    /** Does some child carry `ch`? */
    ghost predicate Has(ch: char)
      reads this, nodes
    {
      exists i :: 0 <= i < |nodes| && nodes[i].word == ch
    }

    /** `getIndexAtChar`: the first child that carries `ch`. */
    method GetIndexAtChar(ch: char) returns (child: Node?)
      ensures child == null <==> !Has(ch)
      ensures child != null ==> child in nodes && child.word == ch
    {
      for i := 0 to |nodes|
        invariant forall k :: 0 <= k < i ==> nodes[k].word != ch
      {
        if nodes[i].word == ch {
          return nodes[i];
        }
      }
      child := null;
    }

    /** `contain`: looks at every child. */
    method Contain(ch: char) returns (ans: bool)
      ensures ans <==> Has(ch)
    {
      ans := false;
      for i := 0 to |nodes|
        invariant ans <==> exists k :: 0 <= k < i && nodes[k].word == ch
      {
        if nodes[i].word == ch {
          ans := true;
        }
      }
    }
  }

  /** `str[i]` on a `const std::string`, which ends in a NUL character. */
  function CharAt(str: string, i: nat): char
    requires i <= |str|
  {
    if i < |str| then str[i] else '\0'
  }

  predicate NulFree(str: string) {
    forall i :: 0 <= i < |str| ==> str[i] != '\0'
  }

  /** A map from the texts that lead from the root to some node, to that node. */
  type Paths = map<string, Node>

  /** The fields of all the nodes, as values. */
  ghost function Children(paths: Paths): map<Node, seq<Node>>
    reads paths.Values
  {
    map n | n in paths.Values :: n.nodes
  }

  ghost function Letters(paths: Paths): map<Node, char>
    reads paths.Values
  {
    map n | n in paths.Values :: n.word
  }

  /** The root and the nodes it reaches form a tree: each node hangs under the text without its last character,
      carries that character, and is reached in one way only; brothers carry different characters, none of them
      NUL. */
  ghost predicate IsTree(root: Node, paths: Paths)
    reads paths.Values
  {
    IsShape(root, paths, Children(paths), Letters(paths))
  }

  ghost predicate IsShape(root: Node, paths: Paths, children: map<Node, seq<Node>>, letters: map<Node, char>) {
    && "" in paths && paths[""] == root && paths.Values == children.Keys == letters.Keys
    && (forall p, q {:trigger paths[p], paths[q]} :: p in paths && q in paths && paths[p] == paths[q] ==> p == q)
    && (forall p {:trigger HangsBelow(paths, children, letters, p)} :: p in paths ==>
          HangsBelow(paths, children, letters, p))
    && (forall p {:trigger HasChildren(paths, children, letters, p)} :: p in paths ==>
          HasChildren(paths, children, letters, p))
  }

  /** The node of `p` is a child of the node of `p` without its last character, which it carries. */
  ghost predicate HangsBelow(paths: Paths, children: map<Node, seq<Node>>, letters: map<Node, char>, p: string)
    requires p in paths && paths.Values == children.Keys == letters.Keys
  {
    p != "" ==>
      && p[..|p| - 1] in paths
      && paths[p] in children[paths[p[..|p| - 1]]]
      && letters[paths[p]] == p[|p| - 1]
  }

  /** `child` is the node one character below `p`. */
  ghost predicate IsChild(paths: Paths, letters: map<Node, char>, p: string, child: Node) {
    && child in letters && letters[child] != '\0'
    && p + [letters[child]] in paths && paths[p + [letters[child]]] == child
  }

  ghost predicate HasChildren(paths: Paths, children: map<Node, seq<Node>>, letters: map<Node, char>, p: string)
    requires p in paths && paths.Values == children.Keys == letters.Keys
  {
    && (forall i :: 0 <= i < |children[paths[p]]| ==> IsChild(paths, letters, p, children[paths[p]][i]))
    && (forall i, j :: 0 <= i < j < |children[paths[p]]| ==>
          letters[children[paths[p]][i]] != letters[children[paths[p]][j]])
  }

  lemma {:induction false} PrefixesArePaths(root: Node, paths: Paths, p: string, n: nat)
    requires IsTree(root, paths) && p in paths && n <= |p|
    ensures p[..n] in paths
    decreases |p|
  {
    if n < |p| {
      var parent := p[..|p| - 1];
      assert HangsBelow(paths, Children(paths), Letters(paths), p);
      PrefixesArePaths(root, paths, parent, n);
      assert parent[..n] == p[..n];
    } else {
      assert p[..n] == p;
    }
  }

  lemma PathIsUnique(root: Node, paths: Paths, p: string)
    requires IsTree(root, paths) && p in paths
    ensures forall q :: q in paths && paths[q] == paths[p] ==> q == p
  {
  }

  /** Where a path cannot be followed any further, no longer one goes on. */
  lemma NoLongerPath(root: Node, paths: Paths, str: string, i: nat)
    requires IsTree(root, paths) && i <= |str|
    ensures forall k :: i < k <= |str| && str[..k] in paths ==> str[..i + 1] in paths
  {
    forall k | i < k <= |str| && str[..k] in paths ensures str[..i + 1] in paths {
      PrefixesArePaths(root, paths, str[..k], i + 1);
      assert str[..k][..i + 1] == str[..i + 1];
    }
  }

  /** No path follows `str` further than `i` characters. */
  ghost predicate EndsAt(paths: Paths, str: string, i: nat) {
    forall k :: i < k <= |str| ==> str[..k] !in paths
  }

  /** Every old path is kept, and the new ones all lead to `str`. */
  ghost predicate Extension(before: Paths, after: Paths, str: string) {
    && (forall q :: q in before ==> q in after && after[q] == before[q])
    && (forall q :: q in after && q !in before ==> q <= str)
  }

  lemma NoExtension(paths: Paths, str: string)
    ensures Extension(paths, paths, str)
  {
  }

  lemma NextIsNew(paths: Paths, str: string, i: nat)
    requires i < |str| && EndsAt(paths, str, i)
    ensures str[..i + 1] !in paths
  {
  }

  lemma OneMore(first: Paths, paths: Paths, str: string, i: nat, leaf: Node)
    requires i < |str| && EndsAt(paths, str, i) && Extension(first, paths, str)
    ensures
      var after := paths[str[..i + 1] := leaf];
      EndsAt(after, str, i + 1) && Extension(first, after, str)
  {
    var after := paths[str[..i + 1] := leaf];
    forall k | i + 1 < k <= |str| ensures str[..k] !in after {
      assert |str[..k]| == k != |str[..i + 1]|;
    }
    NextIsNew(paths, str, i);
  }

  /** A node has a child with the letter `ch` exactly when there is a path that goes on with it, and the child is
      the node at its end. */
  lemma ChildIsBelow(root: Node, paths: Paths, path: string, ch: char)
    requires IsTree(root, paths) && path in paths
    ensures paths[path].Has(ch) <==> path + [ch] in paths
    ensures forall child :: child in paths[path].nodes && child.word == ch ==>
      path + [ch] in paths && paths[path + [ch]] == child && ch != '\0'
  {
    var below := path + [ch];
    assert HasChildren(paths, Children(paths), Letters(paths), path);
    forall child | child in paths[path].nodes ensures IsChild(paths, Letters(paths), path, child) {
    }
    if below in paths {
      assert HangsBelow(paths, Children(paths), Letters(paths), below);
      assert below[..|below| - 1] == path && below[|below| - 1] == ch;
    }
  }

  class PrefixTree {
    const root: Node
    ghost var paths: Paths

    ghost function Words(): set<string>
      reads this, paths.Values
    {
      set p | p in paths && paths[p].isWord
    }

    /** Below every node but a lonely root there is the end of a word; the empty text is none. */
    ghost predicate Valid()
      reads this, paths.Values
    {
      && IsTree(root, paths)
      && "" !in Words()
      && forall p {:trigger StartsAWord(p)} :: p in paths && p != "" ==> StartsAWord(p)
    }

    ghost predicate StartsAWord(str: string)
      reads this, paths.Values
    {
      exists w :: w in Words() && str <= w
    }

    constructor ()
      ensures Valid() && Words() == {} && fresh(paths.Values)
    {
      root := new Node('\0');
      paths := map["" := root];
    }

    /** The loop with which all three operations begin: follows `str` as far as there are nodes for it. */
    method Walk(str: string) returns (p: Node, i: nat)
      requires IsTree(root, paths)
      ensures i <= |str| && str[..i] in paths && paths[str[..i]] == p
      ensures i < |str| ==> str[..i + 1] !in paths
    {
      p, i := root, 0;
      assert str[..0] == "";
      assert "" in paths && paths[""] == root;
      hide IsTree;
      var more := p.Contain(CharAt(str, i));
      while more
        invariant i <= |str| && str[..i] in paths && paths[str[..i]] == p
        invariant more <==> p.Has(CharAt(str, i))
        decreases |str| - i
      {
        ChildIsBelow(root, paths, str[..i], CharAt(str, i));
        var child := p.GetIndexAtChar(str[i]);
        assert str[..i] + [str[i]] == str[..i + 1];
        p := child;
        i := i + 1;
        more := p.Contain(CharAt(str, i));
      }
      if i < |str| {
        ChildIsBelow(root, paths, str[..i], str[i]);
        assert str[..i] + [str[i]] == str[..i + 1];
      }
    }

    method Insert(str: string)
      requires Valid() && NulFree(str)
      modifies this`paths, paths.Values
      ensures Valid() && fresh(paths.Values - old(paths.Values))
      ensures Words() == if str == "" then old(Words()) else old(Words()) + {str}
    {
      hide IsTree;
      if str == "" {
        return;
      }
      var p, i := Walk(str);
      NoLongerPath(root, paths, str, i);
      assert EndsAt(paths, str, i);
      p := Extend(str, p, i);
      assert Words() == old(Words());
      forall q | q in paths && q != "" ensures StartsAWord(q) || q <= str {
        if q in old(paths) {
          assert old(StartsAWord(q));
        }
      }
      SetEnd(p, str);
    }

    /** `setEnd` on the node of a word. */
    method SetEnd(p: Node, ghost str: string)
      requires IsTree(root, paths) && "" !in Words() && str in paths && str != "" && paths[str] == p
      requires forall q :: q in paths && q != "" ==> StartsAWord(q) || q <= str
      modifies p`isWord
      ensures Valid() && Words() == old(Words()) + {str}
    {
      ghost var words := Words();
      ghost var children, letters := Children(paths), Letters(paths);
      p.isWord := true;
      assert Children(paths) == children && Letters(paths) == letters;
      assert Words() == words + {str} by {
        hide IsShape, Children, Letters;
        assert forall q :: q in paths && paths[q] == p ==> q == str by { PathIsUnique(root, paths, str); }
      }
      forall q | q in paths && q != "" ensures StartsAWord(q) {
        if q <= str {
          assert str in Words();
        } else {
          assert old(StartsAWord(q));
          var w :| w in words && q <= w;
          assert w in Words();
        }
      }
    }

    /** The loop that adds the nodes that are missing for `str`. */
    method Extend(str: string, start: Node, from: nat) returns (p: Node)
      requires IsTree(root, paths) && NulFree(str)
      requires from <= |str| && str[..from] in paths && paths[str[..from]] == start
      requires EndsAt(paths, str, from)
      modifies this`paths, paths.Values`nodes
      ensures IsTree(root, paths) && str in paths && paths[str] == p && Extension(old(paths), paths, str)
      ensures forall q :: q in paths && q !in old(paths) ==> fresh(paths[q]) && !paths[q].isWord
    {
      hide IsTree, EndsAt, Extension;
      p := start;
      var i := from;
      NoExtension(paths, str);
      while i < |str|
        invariant i <= |str| && str[..i] in paths && paths[str[..i]] == p
        invariant EndsAt(paths, str, i)
        invariant IsTree(root, paths) && Extension(old(paths), paths, str)
        invariant forall q :: q in paths && q !in old(paths) ==> fresh(paths[q]) && !paths[q].isWord
        invariant p in old(paths.Values) || fresh(p)
      {
        ghost var next, before := str[..i + 1], paths;
        assert str[..i] + [str[i]] == next;
        NextIsNew(paths, str, i);
        p := AddLeaf(p, str[..i], str[i]);
        OneMore(old(paths), before, str, i, p);
        i := i + 1;
      }
      assert str[..i] == str;
    }

    method Search(str: string) returns (found: bool)
      requires Valid()
      ensures found <==> str in Words()
    {
      if str == "" {
        return false;
      }
      var p, i := Walk(str);
      if i < |str| && str in paths {
        PrefixesArePaths(root, paths, str, i + 1);
      }
      assert i == |str| ==> str[..i] == str;
      found := i == |str| && p.isWord;
    }

    method StartWith(str: string) returns (found: bool)
      requires Valid()
      ensures found <==> str != "" && StartsAWord(str)
    {
      if str == "" {
        return false;
      }
      var p, i := Walk(str);
      assert i == |str| ==> str[..i] == str;
      forall w | w in Words() && str <= w ensures i == |str| {
        var next := if i < |str| then i + 1 else i;
        PrefixesArePaths(root, paths, w, next);
        assert w[..next] == str[..next];
      }
      found := i == |str|;
    }

    /** A new leaf with the last character of `below`, under the node of `below` without it. */
    method AddLeaf(p: Node, ghost path: string, ch: char) returns (leaf: Node)
      requires IsTree(root, paths) && path in paths && paths[path] == p
      requires ch != '\0' && path + [ch] !in paths
      modifies this`paths, p`nodes
      ensures fresh(leaf) && !leaf.isWord
      ensures paths == old(paths)[path + [ch] := leaf] && IsTree(root, paths)
    {
      hide HangsBelow, HasChildren;
      leaf := new Node(ch);
      ghost var below := path + [ch];
      ghost var children: map<Node, seq<Node>> := Children(paths);
      ghost var letters: map<Node, char> := Letters(paths);
      TreeGrows(root, paths, children, letters, path, ch, leaf);
      p.nodes := p.nodes + [leaf];
      paths := paths[below := leaf];
      assert Children(paths) == children[p := children[p] + [leaf]][leaf := []];
      assert Letters(paths) == letters[leaf := ch];
    }
  }

  lemma ValuesGrow(paths: Paths, below: string, leaf: Node)
    requires below !in paths
    ensures paths[below := leaf].Values == paths.Values + {leaf}
  {
    var paths' := paths[below := leaf];
    assert paths'[below] == leaf;
    forall n | n in paths.Values ensures n in paths'.Values {
      var q :| q in paths && paths[q] == n;
      assert paths'[q] == n;
    }
  }

  /** A tree with a new leaf is a tree. */
  lemma TreeGrows(root: Node, paths: Paths, children: map<Node, seq<Node>>, letters: map<Node, char>,
                  path: string, ch: char, leaf: Node)
    requires IsShape(root, paths, children, letters)
    requires path in paths && path + [ch] !in paths && leaf !in paths.Values && ch != '\0'
    ensures
      var p := paths[path];
      IsShape(root, paths[path + [ch] := leaf], children[p := children[p] + [leaf]][leaf := []], letters[leaf := ch])
  {
    hide HangsBelow, HasChildren;
    var paths', letters' := paths[path + [ch] := leaf], letters[leaf := ch];
    var children' := children[paths[path] := children[paths[path]] + [leaf]][leaf := []];
    ValuesGrow(paths, path + [ch], leaf);
    forall q | q in paths'
      ensures HangsBelow(paths', children', letters', q) && HasChildren(paths', children', letters', q)
    {
      LeafHangs(root, paths, children, letters, path, ch, leaf, q);
      LeafIsAmongChildren(root, paths, children, letters, path, ch, leaf, q);
    }
  }

  lemma LeafIsAmongChildren(root: Node, paths: Paths, children: map<Node, seq<Node>>, letters: map<Node, char>,
                            path: string, ch: char, leaf: Node, q: string)
    requires IsShape(root, paths, children, letters)
    requires path in paths && path + [ch] !in paths && leaf !in paths.Values && ch != '\0'
    requires q in paths || q == path + [ch]
    ensures
      var p := paths[path];
      var paths' := paths[path + [ch] := leaf];
      var children' := children[p := children[p] + [leaf]][leaf := []];
      paths'.Values == children'.Keys && HasChildren(paths', children', letters[leaf := ch], q)
  {
    ValuesGrow(paths, path + [ch], leaf);
    if q == path {
      assert HasChildren(paths, children, letters, path);
      ParentGrows(paths, children, letters, path, ch, leaf);
    } else if q in paths {
      assert HasChildren(paths, children, letters, q) && paths[q] != paths[path];
    }
  }

  lemma LeafHangs(root: Node, paths: Paths, children: map<Node, seq<Node>>, letters: map<Node, char>,
                  path: string, ch: char, leaf: Node, q: string)
    requires IsShape(root, paths, children, letters)
    requires path in paths && path + [ch] !in paths && leaf !in paths.Values
    requires q in paths || q == path + [ch]
    ensures
      var p := paths[path];
      var paths' := paths[path + [ch] := leaf];
      var children' := children[p := children[p] + [leaf]][leaf := []];
      paths'.Values == children'.Keys && HangsBelow(paths', children', letters[leaf := ch], q)
  {
    hide HasChildren;
    var below := path + [ch];
    ValuesGrow(paths, below, leaf);
    if q == below {
      assert below[..|below| - 1] == path;
    } else {
      assert HangsBelow(paths, children, letters, q);
    }
  }

  lemma ParentGrows(paths: Paths, children: map<Node, seq<Node>>, letters: map<Node, char>,
                    path: string, ch: char, leaf: Node)
    requires path in paths && paths.Values == children.Keys == letters.Keys
    requires HasChildren(paths, children, letters, path)
    requires path + [ch] !in paths && leaf !in paths.Values && ch != '\0'
    ensures
      var p := paths[path];
      var paths' := paths[path + [ch] := leaf];
      var children' := children[p := children[p] + [leaf]][leaf := []];
      && paths'.Values == children'.Keys
      && HasChildren(paths', children', letters[leaf := ch], path)
  {
    ValuesGrow(paths, path + [ch], leaf);
    var nodes := children[paths[path]];
    assert forall i :: 0 <= i < |nodes| ==> IsChild(paths, letters, path, nodes[i]) && letters[nodes[i]] != ch;
  }
}
