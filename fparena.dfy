/**
 * The FP-tree as an arena of node records addressed by index: parent and
 * child links, the count every node carries, and the per-item chains that
 * the header table threads through the tree. Everything here is about
 * values; the tree object that owns them is in module FPTree.
 */
module FPArena {
  import opened Itemsets

  datatype Option<T> = None | Some(value: T)

  /**
   * One tree node. `parent` and `next` are arena indices, and `children` maps
   * an item to the index of the child for it. Node 0 is the root, whose
   * item is never read.
   */
  datatype Node = Node(item: Item, count: nat, parent: Option<nat>, children: map<Item, nat>, next: Option<nat>)

  /** A header-table entry: the item's frequency and the first node of its chain. */
  datatype Entry = Entry(frequency: nat, head: Option<nat>)

  // ---------------------------------------------------------------------------
  // Links and paths
  // ---------------------------------------------------------------------------

  /**
   * Node `i`'s parent comes earlier in the arena, the path to `i` is the
   * parent's path followed by `i`'s item, and the parent lists `i` as its
   * child for that item.
   */
  predicate ParentLinked(nodes: seq<Node>, pathOf: seq<seq<Item>>, i: nat)
    requires 0 < i < |nodes| == |pathOf|
  {
    && nodes[i].parent.Some? && nodes[i].parent.value < i
    && pathOf[i] == pathOf[nodes[i].parent.value] + [nodes[i].item]
    && nodes[i].item in nodes[nodes[i].parent.value].children
    && nodes[nodes[i].parent.value].children[nodes[i].item] == i
  }

  /** The child that node `i` lists for `x` is a later node with parent `i` and item `x`. */
  predicate ChildLinked(nodes: seq<Node>, i: nat, x: Item)
    requires i < |nodes| && x in nodes[i].children
  {
    var c := nodes[i].children[x];
    0 < c < |nodes| && nodes[c].parent == Some(i) && nodes[c].item == x
  }

  /**
   * The arena is a tree rooted at node 0, and `pathOf[i]` is the sequence of
   * items from just below the root down to node `i`.
   */
  predicate Linked(nodes: seq<Node>, pathOf: seq<seq<Item>>)
  {
    && |nodes| >= 1 && |pathOf| == |nodes|
    && nodes[0].parent == None && pathOf[0] == []
    && (forall i :: 0 < i < |nodes| ==> ParentLinked(nodes, pathOf, i))
    && (forall i, x {:trigger ChildLinked(nodes, i, x)} :: 0 <= i < |nodes| && x in nodes[i].children ==> ChildLinked(nodes, i, x))
  }

  /** Node `i` has the same item, parent and children in both arenas. */
  predicate SameLinkAt(nodes: seq<Node>, nodes': seq<Node>, i: nat)
    requires i < |nodes| && i < |nodes'|
  {
    nodes'[i].item == nodes[i].item && nodes'[i].parent == nodes[i].parent && nodes'[i].children == nodes[i].children
  }

  /** Two arenas that differ at most in counts and `next` links. */
  predicate SameLinks(nodes: seq<Node>, nodes': seq<Node>)
  {
    |nodes'| == |nodes| && forall i :: 0 <= i < |nodes| ==> SameLinkAt(nodes, nodes', i)
  }

  /** Links and paths only look at items, parents and children. */
  lemma LinkedFrame(nodes: seq<Node>, nodes': seq<Node>, pathOf: seq<seq<Item>>)
    requires Linked(nodes, pathOf) && SameLinks(nodes, nodes')
    ensures Linked(nodes', pathOf)
  {
    assert SameLinkAt(nodes, nodes', 0);
    forall i | 0 < i < |nodes'| ensures ParentLinked(nodes', pathOf, i) {
      assert ParentLinked(nodes, pathOf, i);
      assert SameLinkAt(nodes, nodes', i) && SameLinkAt(nodes, nodes', nodes[i].parent.value);
    }
    forall i, x | 0 <= i < |nodes'| && x in nodes'[i].children ensures ChildLinked(nodes', i, x) {
      assert SameLinkAt(nodes, nodes', i);
      assert ChildLinked(nodes, i, x);
      assert SameLinkAt(nodes, nodes', nodes[i].children[x]);
    }
  }

  /** No two nodes have the same path. */
  lemma {:induction false} PathsUnique(nodes: seq<Node>, pathOf: seq<seq<Item>>, a: nat, b: nat)
    requires Linked(nodes, pathOf) && a < |nodes| && b < |nodes|
    requires pathOf[a] == pathOf[b]
    ensures a == b
    decreases a + b
  {
    if a != 0 && b != 0 {
      assert ParentLinked(nodes, pathOf, a) && ParentLinked(nodes, pathOf, b);
      var pa, pb := nodes[a].parent.value, nodes[b].parent.value;
      var last := |pathOf[a]| - 1;
      assert pathOf[pa] == pathOf[a][..last] && nodes[a].item == pathOf[a][last];
      assert pathOf[pb] == pathOf[b][..last] && nodes[b].item == pathOf[b][last];
      PathsUnique(nodes, pathOf, pa, pb);
    } else if a != 0 {
      NonRootPath(nodes, pathOf, a);
    } else if b != 0 {
      NonRootPath(nodes, pathOf, b);
    }
  }

  /** Only the root has the empty path. */
  lemma NonRootPath(nodes: seq<Node>, pathOf: seq<seq<Item>>, i: nat)
    requires Linked(nodes, pathOf) && 0 < i < |nodes|
    ensures pathOf[i] != []
  {
    assert ParentLinked(nodes, pathOf, i);
  }

  /** Every prefix of a node's path is the path of one of its ancestors. */
  lemma {:induction false} AncestorPath(nodes: seq<Node>, pathOf: seq<seq<Item>>, e: nat, l: nat)
    requires Linked(nodes, pathOf) && e < |nodes| && l <= |pathOf[e]|
    ensures exists a :: 0 <= a < |nodes| && pathOf[a] == pathOf[e][..l]
    decreases e
  {
    if l == |pathOf[e]| {
      assert pathOf[e][..l] == pathOf[e];
    } else {
      assert e != 0;
      assert ParentLinked(nodes, pathOf, e);
      var p := nodes[e].parent.value;
      assert pathOf[e][..l] == pathOf[p][..l];
      AncestorPath(nodes, pathOf, p, l);
    }
  }

  /** No node other than `cur`'s child for `x` has the path of `cur` followed by `x`. */
  lemma OnlyChildHasPath(nodes: seq<Node>, pathOf: seq<seq<Item>>, cur: nat, x: Item, a: nat)
    requires Linked(nodes, pathOf) && cur < |nodes| && a < |nodes|
    requires pathOf[a] == pathOf[cur] + [x]
    ensures x in nodes[cur].children && nodes[cur].children[x] == a
  {
    assert a != 0;
    assert ParentLinked(nodes, pathOf, a);
    var p := nodes[a].parent.value;
    assert pathOf[p] == pathOf[a][..|pathOf[a]| - 1];
    PathsUnique(nodes, pathOf, p, cur);
  }

  // ---------------------------------------------------------------------------
  // Counts: the conservation invariant
  // ---------------------------------------------------------------------------

  /** The total weight of the inserted paths that begin with `p`. */
  function Weight(paths: seq<seq<Item>>, weights: seq<nat>, p: seq<Item>): nat
    requires |weights| == |paths|
  {
    if paths == [] then 0
    else
      var n := |paths| - 1;
      Weight(paths[..n], weights[..n], p) + (if p <= paths[n] then weights[n] else 0)
  }

  /**
   * Every inserted path so far ends at the node `ends` records for it, and
   * every non-root node's count is the total weight of the inserted paths
   * that pass through it.
   */
  predicate Conserved(nodes: seq<Node>, pathOf: seq<seq<Item>>, paths: seq<seq<Item>>, weights: seq<nat>,
                      ends: seq<nat>)
  {
    && |pathOf| == |nodes| && |weights| == |paths| && |ends| == |paths|
    && (forall j :: 0 <= j < |ends| ==> EndsAt(nodes, pathOf, paths, ends, j))
    && (forall i :: 0 < i < |nodes| ==> CountAt(nodes, pathOf, paths, weights, i))
  }

  /** The `j`-th inserted path ends at the node `ends[j]`. */
  predicate EndsAt(nodes: seq<Node>, pathOf: seq<seq<Item>>, paths: seq<seq<Item>>, ends: seq<nat>, j: nat)
    requires |pathOf| == |nodes| && j < |paths| && j < |ends|
  {
    ends[j] < |nodes| && pathOf[ends[j]] == paths[j]
  }

  /** Node `i`'s count is the total weight of the inserted paths through it. */
  predicate CountAt(nodes: seq<Node>, pathOf: seq<seq<Item>>, paths: seq<seq<Item>>, weights: seq<nat>, i: nat)
    requires i < |nodes| == |pathOf| && |weights| == |paths|
  {
    nodes[i].count == Weight(paths, weights, pathOf[i])
  }

  lemma WeightAppend(paths: seq<seq<Item>>, weights: seq<nat>, q: seq<Item>, w: nat, p: seq<Item>)
    requires |weights| == |paths|
    ensures Weight(paths + [q], weights + [w], p) == Weight(paths, weights, p) + (if p <= q then w else 0)
  {
    assert (paths + [q])[..|paths|] == paths;
    assert (weights + [w])[..|paths|] == weights;
  }

  lemma WeightExtendLast(paths: seq<seq<Item>>, weights: seq<nat>, x: Item, p: seq<Item>)
    requires |weights| == |paths| > 0
    ensures var n := |paths| - 1;
            Weight(paths[n := paths[n] + [x]], weights, p) + (if p <= paths[n] then weights[n] else 0)
            == Weight(paths, weights, p) + (if p <= paths[n] + [x] then weights[n] else 0)
  {
    var n := |paths| - 1;
    assert paths[n := paths[n] + [x]][..n] == paths[..n];
  }

  /** A prefix of `q + [x]` is a prefix of `q` or all of `q + [x]`. */
  lemma PrefixOfExtended(p: seq<Item>, q: seq<Item>, x: Item)
    ensures p <= q + [x] <==> p <= q || p == q + [x]
  {
    if p <= q + [x] && |p| <= |q| {
      assert p == (q + [x])[..|p|] == q[..|p|];
    }
    if p <= q {
      assert (q + [x])[..|p|] == q[..|p|];
    }
  }

  /** A sequence that is no node's path begins none of the first `m` inserted paths. */
  lemma {:induction false} WeightOffTree(nodes: seq<Node>, pathOf: seq<seq<Item>>, paths: seq<seq<Item>>,
                                         weights: seq<nat>, ends: seq<nat>, p: seq<Item>, m: nat)
    requires Linked(nodes, pathOf) && Conserved(nodes, pathOf, paths, weights, ends) && m <= |paths|
    requires forall a :: 0 <= a < |nodes| ==> pathOf[a] != p
    ensures Weight(paths[..m], weights[..m], p) == 0
  {
    if m > 0 {
      assert paths[..m][..m - 1] == paths[..m - 1] && weights[..m][..m - 1] == weights[..m - 1];
      WeightOffTree(nodes, pathOf, paths, weights, ends, p, m - 1);
      if p <= paths[m - 1] {
        assert EndsAt(nodes, pathOf, paths, ends, m - 1);
        assert pathOf[ends[m - 1]][..|p|] == p;
        AncestorPath(nodes, pathOf, ends[m - 1], |p|);
      }
    }
  }

  /** Starting a new inserted path, still empty, at the root keeps the counts. */
  lemma BeginPathConserved(nodes: seq<Node>, pathOf: seq<seq<Item>>, paths: seq<seq<Item>>, weights: seq<nat>,
                           ends: seq<nat>, w: nat)
    requires Linked(nodes, pathOf) && Conserved(nodes, pathOf, paths, weights, ends)
    ensures Conserved(nodes, pathOf, paths + [[]], weights + [w], ends + [0])
  {
    forall i | 0 < i < |nodes| ensures CountAt(nodes, pathOf, paths + [[]], weights + [w], i) {
      assert ParentLinked(nodes, pathOf, i) && CountAt(nodes, pathOf, paths, weights, i);
      WeightAppend(paths, weights, [], w, pathOf[i]);
    }
    forall j | 0 <= j < |ends| + 1 ensures EndsAt(nodes, pathOf, paths + [[]], ends + [0], j) {
      if j < |ends| {
        assert EndsAt(nodes, pathOf, paths, ends, j);
      }
    }
  }

  /**
   * Descending into an existing child for `x`: adding the path's weight to
   * that child's count keeps the counts conserved once the current inserted
   * path is extended by `x`.
   */
  lemma CountExistingChild(nodes: seq<Node>, pathOf: seq<seq<Item>>, paths: seq<seq<Item>>, weights: seq<nat>,
                           ends: seq<nat>, cur: nat, x: Item)
    requires Linked(nodes, pathOf) && Conserved(nodes, pathOf, paths, weights, ends)
    requires |paths| > 0 && ends[|paths| - 1] == cur < |nodes| && x in nodes[cur].children
    ensures var c := nodes[cur].children[x];
            var n := |paths| - 1;
            && 0 < c < |nodes|
            && Linked(nodes[c := nodes[c].(count := nodes[c].count + weights[n])], pathOf)
            && Conserved(nodes[c := nodes[c].(count := nodes[c].count + weights[n])], pathOf,
                         paths[n := paths[n] + [x]], weights, ends[n := c])
  {
    var c := nodes[cur].children[x];
    var n := |paths| - 1;
    assert ChildLinked(nodes, cur, x);
    assert ParentLinked(nodes, pathOf, c);
    var nodes' := nodes[c := nodes[c].(count := nodes[c].count + weights[n])];
    var paths' := paths[n := paths[n] + [x]];
    assert EndsAt(nodes, pathOf, paths, ends, n);
    forall i | 0 <= i < |nodes| ensures SameLinkAt(nodes, nodes', i) {
    }
    LinkedFrame(nodes, nodes', pathOf);
    forall i | 0 < i < |nodes| ensures CountAt(nodes', pathOf, paths', weights, i) {
      assert CountAt(nodes, pathOf, paths, weights, i);
      WeightExtendLast(paths, weights, x, pathOf[i]);
      PrefixOfExtended(pathOf[i], paths[n], x);
      if i != c {
        if pathOf[i] == paths[n] + [x] {
          PathsUnique(nodes, pathOf, i, c);
        }
      }
    }
    var ends' := ends[n := c];
    forall j | 0 <= j < |ends| ensures EndsAt(nodes', pathOf, paths', ends', j) {
      assert EndsAt(nodes, pathOf, paths, ends, j);
    }
  }

  /** The arena after adding node `|nodes|` as `cur`'s child for `x`, with count `w` and no chain successor. */
  function WithChild(nodes: seq<Node>, cur: nat, x: Item, w: nat): seq<Node>
    requires cur < |nodes|
  {
    nodes[cur := nodes[cur].(children := nodes[cur].children[x := |nodes|])] + [Node(x, w, Some(cur), map[], None)]
  }

  /**
   * Creating a new child for `x` with the current path's weight keeps the
   * arena linked and the counts conserved once the current inserted path is
   * extended by `x`.
   */
  lemma AddChildConserved(nodes: seq<Node>, pathOf: seq<seq<Item>>, paths: seq<seq<Item>>, weights: seq<nat>,
                          ends: seq<nat>, cur: nat, x: Item)
    requires Linked(nodes, pathOf) && Conserved(nodes, pathOf, paths, weights, ends)
    requires |paths| > 0 && ends[|paths| - 1] == cur < |nodes| && x !in nodes[cur].children
    ensures var n := |paths| - 1;
            && Linked(WithChild(nodes, cur, x, weights[n]), pathOf + [pathOf[cur] + [x]])
            && Conserved(WithChild(nodes, cur, x, weights[n]), pathOf + [pathOf[cur] + [x]],
                         paths[n := paths[n] + [x]], weights, ends[n := |nodes|])
  {
    var n := |paths| - 1;
    var k := |nodes|;
    var q := pathOf[cur];
    var nodes' := WithChild(nodes, cur, x, weights[n]);
    var pathOf' := pathOf + [q + [x]];
    var paths' := paths[n := paths[n] + [x]];
    forall a | 0 <= a < |nodes| ensures pathOf[a] != q + [x] {
      if pathOf[a] == q + [x] {
        OnlyChildHasPath(nodes, pathOf, cur, x, a);
      }
    }
    LinkedWithChild(nodes, pathOf, cur, x, weights[n]);
    assert EndsAt(nodes, pathOf, paths, ends, n);
    forall i | 0 < i < |nodes'| ensures CountAt(nodes', pathOf', paths', weights, i) {
      WeightExtendLast(paths, weights, x, pathOf'[i]);
      PrefixOfExtended(pathOf'[i], q, x);
      if i == k {
        WeightOffTree(nodes, pathOf, paths, weights, ends, q + [x], |paths|);
        assert paths[..|paths|] == paths && weights[..|paths|] == weights;
      } else {
        assert ParentLinked(nodes, pathOf, i) && CountAt(nodes, pathOf, paths, weights, i);
        assert nodes'[i].count == nodes[i].count;
      }
    }
    var ends' := ends[n := k];
    forall j | 0 <= j < |ends| ensures EndsAt(nodes', pathOf', paths', ends', j) {
      assert EndsAt(nodes, pathOf, paths, ends, j);
    }
  }

  lemma LinkedWithChild(nodes: seq<Node>, pathOf: seq<seq<Item>>, cur: nat, x: Item, w: nat)
    requires Linked(nodes, pathOf) && cur < |nodes| && x !in nodes[cur].children
    ensures Linked(WithChild(nodes, cur, x, w), pathOf + [pathOf[cur] + [x]])
  {
    var k := |nodes|;
    var nodes' := WithChild(nodes, cur, x, w);
    var pathOf' := pathOf + [pathOf[cur] + [x]];
    forall i | 0 < i < |nodes'| ensures ParentLinked(nodes', pathOf', i) {
      if i < k {
        assert ParentLinked(nodes, pathOf, i);
      }
    }
    forall i, y | 0 <= i < |nodes'| && y in nodes'[i].children ensures ChildLinked(nodes', i, y) {
      if i < k && !(i == cur && y == x) {
        assert ChildLinked(nodes, i, y);
      }
    }
  }

  /** No node's path repeats an item. */
  predicate DistinctPaths(pathOf: seq<seq<Item>>)
  {
    forall i :: 0 <= i < |pathOf| ==> DistinctPathAt(pathOf, i)
  }

  /** Node `i`'s path repeats no item. */
  predicate DistinctPathAt(pathOf: seq<seq<Item>>, i: nat)
    requires i < |pathOf|
  {
    Distinct(pathOf[i])
  }

  lemma DistinctExtend(pathOf: seq<seq<Item>>, cur: nat, x: Item)
    requires DistinctPaths(pathOf) && cur < |pathOf| && x !in pathOf[cur]
    ensures DistinctPaths(pathOf + [pathOf[cur] + [x]])
  {
    var q := pathOf[cur] + [x];
    assert DistinctPathAt(pathOf, cur);
    forall i, j | 0 <= i < j < |q| ensures q[i] != q[j] {
      if j < |q| - 1 {
        assert q[i] == pathOf[cur][i] && q[j] == pathOf[cur][j];
      } else {
        assert q[i] in pathOf[cur];
      }
    }
    var pathOf' := pathOf + [q];
    forall i | 0 <= i < |pathOf'| ensures DistinctPathAt(pathOf', i) {
      if i < |pathOf| {
        assert DistinctPathAt(pathOf, i);
      }
    }
  }

  // ---------------------------------------------------------------------------
  // The header table's chains
  // ---------------------------------------------------------------------------

  /** The `k`-th node of chain `c` is a node for `x` whose `next` is the chain's following node, if any. */
  predicate ChainLink(nodes: seq<Node>, x: Item, c: seq<nat>, k: nat)
    requires k < |c|
  {
    0 < c[k] < |nodes| && nodes[c[k]].item == x && nodes[c[k]].next == (if k + 1 < |c| then Some(c[k + 1]) else None)
  }

  predicate Increasing(c: seq<nat>)
  {
    forall k, l :: 0 <= k < l < |c| ==> c[k] < c[l]
  }

  /**
   * `c` is the chain of item `x` starting at `head`: nodes for `x` in
   * creation order, each linked by `next` to the one after it, and the last
   * linked to nothing.
   */
  predicate ChainOf(nodes: seq<Node>, x: Item, head: Option<nat>, c: seq<nat>)
  {
    && head == (if c == [] then None else Some(c[0]))
    && (forall k :: 0 <= k < |c| ==> ChainLink(nodes, x, c, k))
    && Increasing(c)
  }

  /** Node `i` is for a header item and lies on that item's chain. */
  predicate OnChain(nodes: seq<Node>, header: map<Item, Entry>, chain: map<Item, seq<nat>>, i: nat)
    requires i < |nodes|
  {
    nodes[i].item in header && nodes[i].item in chain && i in chain[nodes[i].item]
  }

  /** Every non-root node is for a header item and lies on that item's chain. */
  predicate Covered(nodes: seq<Node>, header: map<Item, Entry>, chain: map<Item, seq<nat>>)
  {
    forall i :: 0 < i < |nodes| ==> OnChain(nodes, header, chain, i)
  }

  /** Header item `x`'s chain starts at the header's head for `x`. */
  predicate ChainAt(nodes: seq<Node>, header: map<Item, Entry>, chain: map<Item, seq<nat>>, x: Item)
    requires x in header
  {
    x in chain && ChainOf(nodes, x, header[x].head, chain[x])
  }

  /** Every header item has its chain, and every non-root node is on one. */
  predicate Chained(nodes: seq<Node>, header: map<Item, Entry>, chain: map<Item, seq<nat>>)
  {
    && chain.Keys == header.Keys
    && (forall x {:trigger ChainAt(nodes, header, chain, x)} :: x in header ==> ChainAt(nodes, header, chain, x))
    && Covered(nodes, header, chain)
  }

  /** Chains of items other than `x` survive any change to nodes for `x` and the addition of nodes. */
  lemma OtherChains(nodes: seq<Node>, nodes': seq<Node>, header: map<Item, Entry>, chain: map<Item, seq<nat>>, x: Item)
    requires Chained(nodes, header, chain) && |nodes| <= |nodes'|
    requires forall i :: 0 <= i < |nodes| && nodes[i].item != x ==> nodes'[i] == nodes[i]
    ensures forall y {:trigger ChainAt(nodes', header, chain, y)} :: y in header && y != x ==> ChainAt(nodes', header, chain, y)
  {
    forall y | y in header && y != x ensures ChainAt(nodes', header, chain, y) {
      var c := chain[y];
      assert ChainAt(nodes, header, chain, y);
      forall k | 0 <= k < |c| ensures ChainLink(nodes', y, c, k) {
        assert ChainLink(nodes, y, c, k);
      }
    }
  }

  /** Appending a larger index keeps a chain increasing. */
  lemma IncreasingAppend(c: seq<nat>, t: nat)
    requires Increasing(c) && forall k :: 0 <= k < |c| ==> c[k] < t
    ensures Increasing(c + [t])
  {
  }

  /** The new node `t = |nodes|` for `x` extends `x`'s non-empty chain once the old end links to it. */
  lemma ChainExtended(nodes: seq<Node>, nodes': seq<Node>, x: Item, head: Option<nat>, c: seq<nat>)
    requires ChainOf(nodes, x, head, c) && c != [] && c[|c| - 1] < |nodes|
    requires |nodes'| == |nodes| + 1 && nodes'[|nodes|].item == x && nodes'[|nodes|].next == None
    requires nodes'[c[|c| - 1]] == nodes[c[|c| - 1]].(next := Some(|nodes|))
    requires forall k :: 0 <= k < |c| - 1 ==> nodes'[c[k]] == nodes[c[k]]
    ensures ChainOf(nodes', x, head, c + [|nodes|])
  {
    var t := |nodes|;
    var c' := c + [t];
    assert ChainLink(nodes, x, c, 0);
    forall k | 0 <= k < |c'| ensures ChainLink(nodes', x, c', k) {
      if k < |c| {
        assert ChainLink(nodes, x, c, k);
      }
    }
    forall k | 0 <= k < |c| ensures c[k] < t {
      assert ChainLink(nodes, x, c, k);
    }
    IncreasingAppend(c, t);
  }

  /** Putting the new node `t` on `x`'s chain keeps every node covered. */
  lemma CoveredExtended(nodes: seq<Node>, nodes': seq<Node>, header: map<Item, Entry>, chain: map<Item, seq<nat>>,
                        x: Item, header': map<Item, Entry>, chain': map<Item, seq<nat>>)
    requires Covered(nodes, header, chain) && |nodes'| == |nodes| + 1 && x in header && x in chain
    requires forall i :: 0 <= i < |nodes| ==> nodes'[i].item == nodes[i].item
    requires nodes'[|nodes|].item == x && header'.Keys == header.Keys
    requires chain' == chain[x := chain[x] + [|nodes|]]
    ensures Covered(nodes', header', chain')
  {
    forall i | 0 < i < |nodes'| ensures OnChain(nodes', header', chain', i) {
      if i < |nodes| {
        assert OnChain(nodes, header, chain, i);
      }
    }
  }

  /**
   * The first node for `x`, the arena's newest node, becomes the head of
   * `x`'s chain and the whole of it.
   */
  lemma ChainStart(nodes: seq<Node>, n: Node, header: map<Item, Entry>, chain: map<Item, seq<nat>>, x: Item,
                   header': map<Item, Entry>, chain': map<Item, seq<nat>>)
    requires Chained(nodes, header, chain) && |nodes| > 0
    requires x in header && chain[x] == [] && n.item == x && n.next == None
    requires header' == header[x := header[x].(head := Some(|nodes|))] && chain' == chain[x := [|nodes|]]
    ensures Chained(nodes + [n], header', chain')
  {
    var t := |nodes|;
    var nodes' := nodes + [n];
    OtherChains(nodes, nodes', header, chain, x);
    assert ChainLink(nodes', x, [t], 0);
    assert ChainAt(nodes', header', chain', x);
    forall y | y in header' ensures ChainAt(nodes', header', chain', y) {
      if y != x {
        assert ChainAt(nodes', header, chain, y);
      }
    }
    assert header'.Keys == header.Keys && chain[x] + [t] == [t];
    CoveredExtended(nodes, nodes', header, chain, x, header', chain');
  }

  /**
   * A later node for `x`, the arena's newest, is linked from the current end
   * of `x`'s chain and so becomes the chain's new end.
   */
  lemma ChainAppend(nodes: seq<Node>, nodes': seq<Node>, header: map<Item, Entry>, chain: map<Item, seq<nat>>, x: Item,
                    chain': map<Item, seq<nat>>)
    requires Chained(nodes, header, chain) && |nodes'| == |nodes| + 1
    requires x in header && chain[x] != [] && nodes'[|nodes|].item == x && nodes'[|nodes|].next == None
    requires var last := chain[x][|chain[x]| - 1];
             0 <= last < |nodes| && nodes'[..|nodes|] == nodes[last := nodes[last].(next := Some(|nodes|))]
    requires chain' == chain[x := chain[x] + [|nodes|]]
    ensures Chained(nodes', header, chain')
  {
    var c := chain[x];
    var last := c[|c| - 1];
    assert ChainAt(nodes, header, chain, x);
    assert ChainLink(nodes, x, c, |c| - 1);
    forall i | 0 <= i < |nodes| ensures nodes'[i] == (if i == last then nodes[i].(next := Some(|nodes|)) else nodes[i]) {
      assert nodes'[i] == nodes'[..|nodes|][i];
    }
    OtherChains(nodes, nodes', header, chain, x);
    forall k | 0 <= k < |c| - 1 ensures nodes'[c[k]] == nodes[c[k]] {
      assert c[k] < last;
    }
    ChainExtended(nodes, nodes', x, header[x].head, c);
    forall y | y in header ensures ChainAt(nodes', header, chain', y) {
      if y != x {
        assert ChainAt(nodes', header, chain, y);
      }
    }
    CoveredExtended(nodes, nodes', header, chain, x, header, chain');
  }

  /** Chains only look at items and `next` links. */
  lemma ChainedFrame(nodes: seq<Node>, nodes': seq<Node>, header: map<Item, Entry>, chain: map<Item, seq<nat>>)
    requires Chained(nodes, header, chain) && |nodes'| == |nodes|
    requires forall i :: 0 <= i < |nodes| ==> nodes'[i].item == nodes[i].item && nodes'[i].next == nodes[i].next
    ensures Chained(nodes', header, chain)
  {
    forall x | x in header ensures ChainAt(nodes', header, chain, x) {
      var c := chain[x];
      assert ChainAt(nodes, header, chain, x);
      forall k | 0 <= k < |c| ensures ChainLink(nodes', x, c, k) {
        assert ChainLink(nodes, x, c, k);
      }
    }
    forall i | 0 < i < |nodes'| ensures OnChain(nodes', header, chain, i) {
      assert OnChain(nodes, header, chain, i);
    }
  }

  /** Node `i` differs at most in its `next` link. */
  predicate NextOnlyAt(nodes: seq<Node>, nodes': seq<Node>, i: nat)
    requires i < |nodes| && i < |nodes'|
  {
    nodes'[i] == nodes[i].(next := nodes'[i].next)
  }

  /** Two arenas that differ at most in `next` links. */
  predicate OnlyNextChanged(nodes: seq<Node>, nodes': seq<Node>)
  {
    |nodes'| == |nodes| && forall i :: 0 <= i < |nodes| ==> NextOnlyAt(nodes, nodes', i)
  }

  /** Relinking `next` keeps the links and paths, and the counts. */
  lemma RelinkKeeps(nodes: seq<Node>, nodes': seq<Node>, pathOf: seq<seq<Item>>, paths: seq<seq<Item>>,
                    weights: seq<nat>, ends: seq<nat>)
    requires Linked(nodes, pathOf) && Conserved(nodes, pathOf, paths, weights, ends) && OnlyNextChanged(nodes, nodes')
    ensures Linked(nodes', pathOf) && Conserved(nodes', pathOf, paths, weights, ends)
  {
    forall i | 0 <= i < |nodes| ensures SameLinkAt(nodes, nodes', i) {
      assert NextOnlyAt(nodes, nodes', i);
    }
    LinkedFrame(nodes, nodes', pathOf);
    forall i | 0 < i < |nodes| ensures CountAt(nodes', pathOf, paths, weights, i) {
      assert NextOnlyAt(nodes, nodes', i) && CountAt(nodes, pathOf, paths, weights, i);
    }
    forall j | 0 <= j < |ends| ensures EndsAt(nodes', pathOf, paths, ends, j) {
      assert EndsAt(nodes, pathOf, paths, ends, j);
    }
  }

  /** The arena with node `last` linked by `next` to node `t`. */
  function Relinked(nodes: seq<Node>, last: nat, t: nat): seq<Node>
    requires last < |nodes|
  {
    nodes[last := nodes[last].(next := Some(t))]
  }

  /**
   * The newest node `n` for `x`, appended to `before`, joins the end of
   * `x`'s non-empty chain once the chain's last node is linked to it.
   */
  lemma LinkToNewest(before: seq<Node>, n: Node, header: map<Item, Entry>, chain: map<Item, seq<nat>>, x: Item)
    requires Chained(before, header, chain) && |before| > 0
    requires x in header && chain[x] != [] && n.item == x && n.next == None
    ensures var c := chain[x];
            && c[|c| - 1] < |before|
            && Chained(Relinked(before + [n], c[|c| - 1], |before|), header, chain[x := c + [|before|]])
            && OnlyNextChanged(before + [n], Relinked(before + [n], c[|c| - 1], |before|))
  {
    var c := chain[x];
    var last := c[|c| - 1];
    assert ChainAt(before, header, chain, x);
    assert ChainLink(before, x, c, |c| - 1);
    var nodes' := Relinked(before + [n], last, |before|);
    assert nodes'[..|before|] == before[last := before[last].(next := Some(|before|))];
    ChainAppend(before, nodes', header, chain, x, chain[x := c + [|before|]]);
    forall i | 0 <= i < |nodes'| ensures NextOnlyAt(before + [n], nodes', i) {
    }
  }

  /** The first node for `x`, appended to `before`, becomes `x`'s whole chain and the header's head for `x`. */
  lemma StartWithNewest(before: seq<Node>, n: Node, header: map<Item, Entry>, chain: map<Item, seq<nat>>, x: Item)
    requires Chained(before, header, chain) && |before| > 0
    requires x in header && header[x].head == None && n.item == x && n.next == None
    ensures chain[x] == []
    ensures Chained(before + [n], header[x := Entry(header[x].frequency, Some(|before|))], chain[x := [|before|]])
    ensures OnlyNextChanged(before + [n], before + [n])
  {
    assert ChainAt(before, header, chain, x);
    ChainStart(before, n, header, chain, x, header[x := Entry(header[x].frequency, Some(|before|))],
               chain[x := [|before|]]);
    forall i | 0 <= i < |before| + 1 ensures NextOnlyAt(before + [n], before + [n], i) {
    }
  }

  // ---------------------------------------------------------------------------
  // The whole invariant, and the two ways an insertion step changes it
  // ---------------------------------------------------------------------------

  /** The arena is a tree, its counts are conserved, and the header's chains list its nodes. */
  predicate Arena(nodes: seq<Node>, pathOf: seq<seq<Item>>, paths: seq<seq<Item>>, weights: seq<nat>, ends: seq<nat>,
                  header: map<Item, Entry>, chain: map<Item, seq<nat>>)
  {
    Linked(nodes, pathOf) && Conserved(nodes, pathOf, paths, weights, ends) && Chained(nodes, header, chain)
  }

  /**
   * The insertion step that finds a child for `x` below `cur`, the end of
   * the current path: the child's count grows by the path's weight, and the
   * path grows by `x`.
   */
  lemma ExistingChildStep(nodes: seq<Node>, pathOf: seq<seq<Item>>, paths: seq<seq<Item>>, weights: seq<nat>,
                          ends: seq<nat>, header: map<Item, Entry>, chain: map<Item, seq<nat>>, cur: nat, x: Item)
    requires Arena(nodes, pathOf, paths, weights, ends, header, chain)
    requires |paths| > 0 && ends[|paths| - 1] == cur < |nodes| && x in nodes[cur].children
    ensures var c := nodes[cur].children[x];
            var n := |paths| - 1;
            && 0 < c < |nodes| && nodes[c].item == x && pathOf[c] == pathOf[cur] + [x]
            && Arena(nodes[c := nodes[c].(count := nodes[c].count + weights[n])], pathOf,
                     paths[n := paths[n] + [x]], weights, ends[n := c], header, chain)
  {
    var c := nodes[cur].children[x];
    var n := |paths| - 1;
    assert ChildLinked(nodes, cur, x) && ParentLinked(nodes, pathOf, c);
    CountExistingChild(nodes, pathOf, paths, weights, ends, cur, x);
    ChainedFrame(nodes, nodes[c := nodes[c].(count := nodes[c].count + weights[n])], header, chain);
  }

  /**
   * The insertion step that finds no child for `x` below `cur`, the end of
   * the current path: a new node for `x` with the path's weight as its
   * count, and the path grows by `x`. Its chain is updated afterwards, by
   * `NewChildChained`.
   */
  lemma NewChildStep(nodes: seq<Node>, pathOf: seq<seq<Item>>, paths: seq<seq<Item>>, weights: seq<nat>,
                     ends: seq<nat>, header: map<Item, Entry>, chain: map<Item, seq<nat>>, cur: nat, x: Item)
    requires Arena(nodes, pathOf, paths, weights, ends, header, chain)
    requires |paths| > 0 && ends[|paths| - 1] == cur < |nodes| && x !in nodes[cur].children
    ensures var n := |paths| - 1;
            var nodes' := WithChild(nodes, cur, x, weights[n]);
            && Linked(nodes', pathOf + [pathOf[cur] + [x]])
            && Conserved(nodes', pathOf + [pathOf[cur] + [x]], paths[n := paths[n] + [x]], weights, ends[n := |nodes|])
            && Chained(nodes'[..|nodes|], header, chain)
  {
    var n := |paths| - 1;
    var nodes' := WithChild(nodes, cur, x, weights[n]);
    AddChildConserved(nodes, pathOf, paths, weights, ends, cur, x);
    assert nodes'[..|nodes|] == nodes[cur := nodes[cur].(children := nodes[cur].children[x := |nodes|])];
    ChainedFrame(nodes, nodes'[..|nodes|], header, chain);
  }

  /** Once the new node is on its chain, the whole invariant holds again. */
  lemma NewChildChained(nodes: seq<Node>, nodes': seq<Node>, pathOf: seq<seq<Item>>, paths: seq<seq<Item>>,
                        weights: seq<nat>, ends: seq<nat>, header: map<Item, Entry>, chain: map<Item, seq<nat>>)
    requires Linked(nodes, pathOf) && Conserved(nodes, pathOf, paths, weights, ends)
    requires OnlyNextChanged(nodes, nodes') && Chained(nodes', header, chain)
    ensures Arena(nodes', pathOf, paths, weights, ends, header, chain)
  {
    RelinkKeeps(nodes, nodes', pathOf, paths, weights, ends);
  }

  /**
   * The whole insertion step that creates a new child for `x` below `cur`:
   * once the new node is on its chain (`nodes'`, `header'`, `chain'`), the
   * invariant holds for the extended path.
   */
  lemma NewChildArena(nodes: seq<Node>, pathOf: seq<seq<Item>>, paths: seq<seq<Item>>, weights: seq<nat>,
                      ends: seq<nat>, header: map<Item, Entry>, chain: map<Item, seq<nat>>, cur: nat, x: Item,
                      nodes': seq<Node>, header': map<Item, Entry>, chain': map<Item, seq<nat>>)
    requires Arena(nodes, pathOf, paths, weights, ends, header, chain)
    requires |paths| > 0 && ends[|paths| - 1] == cur < |nodes| && x !in nodes[cur].children
    requires OnlyNextChanged(WithChild(nodes, cur, x, weights[|paths| - 1]), nodes') && Chained(nodes', header', chain')
    ensures var n := |paths| - 1;
            Arena(nodes', pathOf + [pathOf[cur] + [x]], paths[n := paths[n] + [x]], weights, ends[n := |nodes|],
                  header', chain')
  {
    var n := |paths| - 1;
    NewChildStep(nodes, pathOf, paths, weights, ends, header, chain, cur, x);
    NewChildChained(WithChild(nodes, cur, x, weights[n]), nodes', pathOf + [pathOf[cur] + [x]],
                    paths[n := paths[n] + [x]], weights, ends[n := |nodes|], header', chain');
  }
}
