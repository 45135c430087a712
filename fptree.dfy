/**
 * The FP-tree object: its node arena and its header table, updated in place
 * while itemsets are inserted, and read while the conditional pattern base
 * of an item is collected.
 */
module FPTree {
  import opened Itemsets
  import opened FPArena

  /** `s` back to front. */
  function Reversed(s: seq<Item>): (r: seq<Item>)
    ensures |r| == |s| && forall k :: 0 <= k < |s| ==> r[k] == s[|s| - 1 - k]
  {
    if s == [] then [] else [s[|s| - 1]] + Reversed(s[..|s| - 1])
  }

  /**
   * The conditional pattern base of a chain of nodes: for each node of the
   * chain that is not directly below the root, the items on the way up from
   * it to the root, nearest first, leaving out the node's own item.
   */
  function CondPatterns(pathOf: seq<seq<Item>>, c: seq<nat>): seq<seq<Item>>
  {
    if c == [] then []
    else
      var n := c[|c| - 1];
      CondPatterns(pathOf, c[..|c| - 1]) + (if n < |pathOf| && |pathOf[n]| > 1 then [Reversed(pathOf[n])[1..]] else [])
  }

  /** The weight of each pattern of `CondPatterns(pathOf, c)`: the count of the node it was read from. */
  function CondWeights(nodes: seq<Node>, pathOf: seq<seq<Item>>, c: seq<nat>): seq<nat>
  {
    if c == [] then []
    else
      var n := c[|c| - 1];
      CondWeights(nodes, pathOf, c[..|c| - 1]) + (if n < |pathOf| && n < |nodes| && |pathOf[n]| > 1 then [nodes[n].count] else [])
  }

  /** Reading one more node of the chain adds at most one pattern and its weight. */
  lemma CondStep(nodes: seq<Node>, pathOf: seq<seq<Item>>, c: seq<nat>, k: nat)
    requires k < |c| && c[k] < |pathOf| == |nodes|
    ensures CondPatterns(pathOf, c[..k + 1])
         == CondPatterns(pathOf, c[..k]) + (if |pathOf[c[k]]| > 1 then [Reversed(pathOf[c[k]])[1..]] else [])
    ensures CondWeights(nodes, pathOf, c[..k + 1])
         == CondWeights(nodes, pathOf, c[..k]) + (if |pathOf[c[k]]| > 1 then [nodes[c[k]].count] else [])
  {
    assert c[..k + 1][..k] == c[..k];
  }

  /** Reversing keeps the items, and keeps them unrepeated. */
  lemma ReversedItems(s: seq<Item>)
    ensures Elems(Reversed(s)) == Elems(s)
    ensures Distinct(s) ==> Distinct(Reversed(s))
  {
    var r := Reversed(s);
    forall y | y in s ensures y in r {
      var i :| 0 <= i < |s| && s[i] == y;
      assert r[|s| - 1 - i] == y;
    }
  }

  /** Every item on a node's path is a header item. */
  lemma {:induction false} PathItemsInHeader(nodes: seq<Node>, pathOf: seq<seq<Item>>, header: map<Item, Entry>,
                                             chain: map<Item, seq<nat>>, i: nat)
    requires Linked(nodes, pathOf) && Chained(nodes, header, chain) && i < |nodes|
    ensures Elems(pathOf[i]) <= header.Keys
    decreases i
  {
    if i > 0 {
      assert ParentLinked(nodes, pathOf, i) && OnChain(nodes, header, chain, i);
      PathItemsInHeader(nodes, pathOf, header, chain, nodes[i].parent.value);
      assert Elems(pathOf[i]) == Elems(pathOf[nodes[i].parent.value]) + {nodes[i].item};
    }
  }

  /**
   * The pattern read from a non-root node: the items above it, which in a
   * tree whose paths repeat no item are header items other than the node's
   * own, once each.
   */
  lemma NodePattern(nodes: seq<Node>, pathOf: seq<seq<Item>>, header: map<Item, Entry>, chain: map<Item, seq<nat>>,
                    n: nat)
    requires Linked(nodes, pathOf) && Chained(nodes, header, chain) && DistinctPaths(pathOf) && 0 < n < |nodes|
    ensures |pathOf[n]| > 1 ==> Elems(Reversed(pathOf[n])[1..]) <= header.Keys - {nodes[n].item}
    ensures |pathOf[n]| > 1 ==> Distinct(Reversed(pathOf[n])[1..])
  {
    assert ParentLinked(nodes, pathOf, n);
    var p := nodes[n].parent.value;
    var q := pathOf[p];
    assert DistinctPathAt(pathOf, n);
    assert Reversed(pathOf[n])[1..] == Reversed(q);
    ReversedItems(q);
    PathItemsInHeader(nodes, pathOf, header, chain, p);
    assert Distinct(q) by {
      forall i, j | 0 <= i < j < |q| ensures q[i] != q[j] {
        assert q[i] == pathOf[n][i] && q[j] == pathOf[n][j];
      }
    }
    forall y | y in q ensures y != nodes[n].item {
      var i :| 0 <= i < |q| && q[i] == y;
      assert pathOf[n][i] == y && pathOf[n][|q|] == nodes[n].item;
    }
  }

  /**
   * In a tree whose paths repeat no item, the patterns read from nodes for
   * `x` are made of header items other than `x`, once each, and there is a
   * weight for each.
   */
  lemma {:induction false} CondPatternItems(nodes: seq<Node>, pathOf: seq<seq<Item>>, header: map<Item, Entry>,
                                            chain: map<Item, seq<nat>>, x: Item, c: seq<nat>)
    requires Linked(nodes, pathOf) && Chained(nodes, header, chain) && DistinctPaths(pathOf)
    requires forall k :: 0 <= k < |c| ==> 0 < c[k] < |nodes| && nodes[c[k]].item == x
    ensures var patterns := CondPatterns(pathOf, c);
            && |CondWeights(nodes, pathOf, c)| == |patterns|
            && forall k :: 0 <= k < |patterns| ==> Elems(patterns[k]) <= header.Keys - {x} && Distinct(patterns[k])
  {
    if c != [] {
      var n := c[|c| - 1];
      CondPatternItems(nodes, pathOf, header, chain, x, c[..|c| - 1]);
      NodePattern(nodes, pathOf, header, chain, n);
    }
  }

  /** The nodes of a header item's chain are non-root nodes for that item. */
  lemma ChainNodes(nodes: seq<Node>, header: map<Item, Entry>, chain: map<Item, seq<nat>>, x: Item)
    requires Chained(nodes, header, chain) && x in header
    ensures forall k :: 0 <= k < |chain[x]| ==> 0 < chain[x][k] < |nodes| && nodes[chain[x][k]].item == x
  {
    assert ChainAt(nodes, header, chain, x);
    forall k | 0 <= k < |chain[x]| ensures 0 < chain[x][k] < |nodes| && nodes[chain[x][k]].item == x {
      assert ChainLink(nodes, x, chain[x], k);
    }
  }

  /** The header keeps its items and their frequencies; only chain heads may change. */
  predicate SameFrequencies(header: map<Item, Entry>, header': map<Item, Entry>)
  {
    header'.Keys == header.Keys && forall x {:trigger SameFrequencyAt(header, header', x)} :: x in header ==> SameFrequencyAt(header, header', x)
  }

  /** Item `x` has the same frequency in both headers. */
  predicate SameFrequencyAt(header: map<Item, Entry>, header': map<Item, Entry>, x: Item)
  {
    x in header && x in header' && header'[x].frequency == header[x].frequency
  }

  /** The frequency column of a header table. */
  function Frequencies(header: map<Item, Entry>): (freq: map<Item, nat>)
    ensures freq.Keys == header.Keys && forall x :: x in header ==> freq[x] == header[x].frequency
  {
    map x | x in header :: header[x].frequency
  }

  /** Updating chain heads leaves the frequency column as it was. */
  lemma FrequenciesKept(header: map<Item, Entry>, header': map<Item, Entry>)
    requires SameFrequencies(header, header')
    ensures Frequencies(header') == Frequencies(header)
  {
    forall x | x in header ensures Frequencies(header')[x] == Frequencies(header)[x] {
      assert SameFrequencyAt(header, header', x);
    }
  }

  /** Every node but the root has a parent. */
  lemma HasParent(nodes: seq<Node>, pathOf: seq<seq<Item>>, i: nat)
    requires Linked(nodes, pathOf) && 0 < i < |nodes|
    ensures nodes[i].parent.Some?
  {
    assert ParentLinked(nodes, pathOf, i);
  }

  /** Every node of a chain is in the arena. */
  lemma ChainInArena(nodes: seq<Node>, x: Item, head: Option<nat>, c: seq<nat>)
    requires ChainOf(nodes, x, head, c)
    ensures forall k :: 0 <= k < |c| ==> c[k] < |nodes|
  {
    forall k | 0 <= k < |c| ensures c[k] < |nodes| {
      assert ChainLink(nodes, x, c, k);
    }
  }

  /**
   * An FP-tree together with its header table. The root is node 0; the
   * header maps each frequent item to its frequency and the first node of
   * its chain, and `order` lists the header's items in the order they were
   * entered into the table.
   *
   * The ghost state records, for every node, its path from the root; for
   * every header item, its chain; and the itemsets inserted so far, each
   * already filtered and sorted, with its weight and the node where its
   * insertion ended. The last of them may still be being inserted.
   */
  class Tree {
    var nodes: seq<Node>
    var header: map<Item, Entry>
    var order: seq<Item>
    ghost var pathOf: seq<seq<Item>>
    ghost var chain: map<Item, seq<nat>>
    ghost var paths: seq<seq<Item>>
    ghost var weights: seq<nat>
    ghost var ends: seq<nat>

    /**
     * The arena is a tree, every node's count is the weight of the inserted
     * paths through it, every header item's chain lists its nodes, and
     * `order` lists the header's items.
     */
    ghost predicate Valid()
      reads this
    {
      && Arena(nodes, pathOf, paths, weights, ends, header, chain)
      && Elems(order) == header.Keys
    }

    /** A tree of the root alone, and a header entry with an empty chain for each item of `frequencies`. */
    constructor (frequencies: map<Item, nat>, order: seq<Item>)
      requires Elems(order) == frequencies.Keys
      ensures Valid() && DistinctPaths(pathOf)
      ensures |nodes| == 1 && nodes[0].children == map[]
      ensures header == map x | x in frequencies :: Entry(frequencies[x], None)
      ensures Frequencies(header) == frequencies
      ensures this.order == order && paths == [] && weights == []
    {
      nodes := [Node(0, 1, None, map[], None)];
      header := map x | x in frequencies :: Entry(frequencies[x], None);
      this.order := order;
      pathOf := [[]];
      chain := map x | x in frequencies :: [];
      paths := [];
      weights := [];
      ends := [];
    }

    /** Starts recording the insertion of a new itemset of weight `frequency`, at the root. */
    ghost method BeginPath(frequency: nat)
      requires Valid()
      modifies this
      ensures Valid()
      ensures paths == old(paths) + [[]] && weights == old(weights) + [frequency] && ends == old(ends) + [0]
      ensures nodes == old(nodes) && header == old(header) && order == old(order)
      ensures pathOf == old(pathOf) && chain == old(chain)
    {
      BeginPathConserved(nodes, pathOf, paths, weights, ends, frequency);
      paths := paths + [[]];
      weights := weights + [frequency];
      ends := ends + [0];
    }

    /** Adds `frequency` to the count of node `i`. */
    method Increment(i: nat, frequency: nat)
      requires i < |nodes|
      modifies this
      ensures nodes == old(nodes)[i := old(nodes)[i].(count := old(nodes)[i].count + frequency)]
      ensures header == old(header) && order == old(order)
      ensures pathOf == old(pathOf) && chain == old(chain)
      ensures paths == old(paths) && weights == old(weights) && ends == old(ends)
    {
      nodes := nodes[i := nodes[i].(count := nodes[i].count + frequency)];
    }

    /**
     * Puts the newest node, `targetNode`, at the end of its item's chain:
     * as the header's head when the chain is empty, and otherwise by walking
     * the chain to its last node and linking that node to it.
     */
    method UpdateHeaderTable(item: Item, targetNode: nat)
      requires 0 < targetNode == |nodes| - 1 && item in header
      requires nodes[targetNode].item == item && nodes[targetNode].next == None
      requires Chained(nodes[..targetNode], header, chain)
      modifies this
      ensures Chained(nodes, header, chain)
      ensures chain == old(chain)[item := old(chain[item]) + [targetNode]]
      ensures SameFrequencies(old(header), header) && order == old(order)
      ensures OnlyNextChanged(old(nodes), nodes)
      ensures pathOf == old(pathOf) && paths == old(paths) && weights == old(weights) && ends == old(ends)
    {
      ghost var before := nodes[..targetNode];
      assert nodes == before + [nodes[targetNode]];
      if header[item].head == None {
        StartWithNewest(before, nodes[targetNode], header, chain, item);
        assert chain[item] + [targetNode] == [targetNode];
        header := header[item := Entry(header[item].frequency, Some(targetNode))];
        chain := chain[item := [targetNode]];
      } else {
        ghost var c := chain[item];
        assert ChainAt(before, header, chain, item);
        var currentNode := LastInChain(header[item].head.value, item, c);
        LinkToNewest(before, nodes[targetNode], header, chain, item);
        nodes := nodes[currentNode := nodes[currentNode].(next := Some(targetNode))];
        chain := chain[item := c + [targetNode]];
      }
    }

    /** The last node of a chain, found by following `next` links from its head. */
    method LastInChain(head: nat, ghost item: Item, ghost c: seq<nat>) returns (last: nat)
      requires |nodes| > 0 && ChainOf(nodes[..|nodes| - 1], item, Some(head), c)
      ensures c != [] && last == c[|c| - 1]
    {
      ghost var before := nodes[..|nodes| - 1];
      last := head;
      ghost var k := 0;
      assert ChainLink(before, item, c, 0);
      while nodes[last].next != None
        invariant 0 <= k < |c| && last == c[k] && ChainLink(before, item, c, k)
        decreases |c| - k
      {
        last := nodes[last].next.value;
        k := k + 1;
        assert ChainLink(before, item, c, k);
      }
    }

    /**
     * Inserts `item` below node `treeNode` with weight `frequency`: adds the
     * weight to the existing child for `item`, or creates that child with
     * the weight as its count and appends it to the item's chain. Returns
     * the child.
     */
    method UpdateTree(item: Item, treeNode: nat, frequency: nat) returns (child: nat)
      requires Valid() && item in header && treeNode < |nodes|
      requires |paths| > 0 && ends[|paths| - 1] == treeNode && weights[|paths| - 1] == frequency
      modifies this
      ensures Valid()
      ensures SameFrequencies(old(header), header) && order == old(order) && weights == old(weights)
      ensures paths == old(paths)[|paths| - 1 := old(paths)[|paths| - 1] + [item]]
      ensures child < |nodes| && ends == old(ends)[|ends| - 1 := child]
      ensures pathOf[child] == old(pathOf[treeNode]) + [item]
      ensures old(item in nodes[treeNode].children) ==>
                && child == old(nodes[treeNode].children[item]) && |nodes| == old(|nodes|)
                && nodes == old(nodes)[child := nodes[child]]
                && nodes[child].count == old(nodes[child].count) + frequency
                && pathOf == old(pathOf) && chain == old(chain)
      ensures old(item !in nodes[treeNode].children) ==>
                && child == old(|nodes|) == |nodes| - 1 && nodes[child].count == frequency
                && nodes[child].parent == Some(treeNode) && nodes[child].children == map[]
                && pathOf == old(pathOf) + [pathOf[child]] && chain == old(chain)[item := old(chain[item]) + [child]]
                && OnlyNextChanged(old(nodes)[treeNode := old(nodes[treeNode]).(children := old(nodes[treeNode].children)[item := child])]
                                     + [Node(item, frequency, Some(treeNode), map[], None)], nodes)
    {
      if item in nodes[treeNode].children {
        child := nodes[treeNode].children[item];
        ghost var n := |paths| - 1;
        ExistingChildStep(nodes, pathOf, paths, weights, ends, header, chain, treeNode, item);
        Increment(child, frequency);
        paths := paths[n := paths[n] + [item]];
        ends := ends[n := child];
      } else {
        child := NewBranch(item, treeNode, frequency);
      }
    }

    /**
     * Creates the child for `item` below node `treeNode`, with `frequency`
     * as its count, and appends it to the item's chain.
     */
    method NewBranch(item: Item, treeNode: nat, frequency: nat) returns (child: nat)
      requires Valid() && item in header && treeNode < |nodes| && item !in nodes[treeNode].children
      requires |paths| > 0 && ends[|paths| - 1] == treeNode && weights[|paths| - 1] == frequency
      modifies this
      ensures Valid()
      ensures SameFrequencies(old(header), header) && order == old(order) && weights == old(weights)
      ensures paths == old(paths)[|paths| - 1 := old(paths)[|paths| - 1] + [item]]
      ensures child == old(|nodes|) == |nodes| - 1 && ends == old(ends)[|ends| - 1 := child]
      ensures nodes[child].count == frequency && nodes[child].parent == Some(treeNode) && nodes[child].children == map[]
      ensures pathOf == old(pathOf) + [old(pathOf[treeNode]) + [item]]
      ensures chain == old(chain)[item := old(chain[item]) + [child]]
      ensures OnlyNextChanged(old(nodes)[treeNode := old(nodes[treeNode]).(children := old(nodes[treeNode].children)[item := child])]
                                + [Node(item, frequency, Some(treeNode), map[], None)], nodes)
    {
      ghost var n := |paths| - 1;
      ghost var nodes0, pathOf0, paths0, ends0, chain0 := nodes, pathOf, paths, ends, chain;
      child := |nodes|;
      NewChildStep(nodes, pathOf, paths, weights, ends, header, chain, treeNode, item);
      var newItemNode := Node(item, frequency, Some(treeNode), map[], None);
      nodes, pathOf, paths, ends :=
        nodes[treeNode := nodes[treeNode].(children := nodes[treeNode].children[item := child])] + [newItemNode],
        pathOf + [pathOf[treeNode] + [item]], paths[n := paths[n] + [item]], ends[n := child];
      ghost var linked := nodes;
      UpdateHeaderTable(item, child);
      NewChildArena(nodes0, pathOf0, paths0, weights, ends0, old(header), chain0, treeNode, item, nodes, header, chain);
      assert NextOnlyAt(linked, nodes, child);
    }

    /** The items from node `node` up to, not including, the root, appended to `prefixPath`. */
    method AscendFPTree(node: nat, prefixPath: seq<Item>) returns (result: seq<Item>)
      requires Linked(nodes, pathOf) && node < |nodes|
      ensures result == prefixPath + Reversed(pathOf[node])
      decreases node
    {
      if nodes[node].parent != None {
        var parent := nodes[node].parent.value;
        assert ParentLinked(nodes, pathOf, node);
        result := AscendFPTree(parent, prefixPath + [nodes[node].item]);
        assert Reversed(pathOf[node]) == [nodes[node].item] + Reversed(pathOf[parent]) by {
          assert pathOf[node][..|pathOf[node]| - 1] == pathOf[parent];
        }
      } else {
        if node != 0 {
          HasParent(nodes, pathOf, node);
        }
        result := prefixPath;
      }
    }

    /**
     * The conditional pattern base of `basePat`: walking its chain, the
     * path above each node that is not directly below the root, nearest
     * item first, with the node's count as its weight.
     */
    method FindPrefixPath(basePat: Item) returns (condPats: seq<seq<Item>>, frequency: seq<nat>)
      requires Valid() && basePat in header
      ensures condPats == CondPatterns(pathOf, chain[basePat])
      ensures frequency == CondWeights(nodes, pathOf, chain[basePat])
    {
      ghost var c := chain[basePat];
      assert ChainAt(nodes, header, chain, basePat);
      ChainInArena(nodes, basePat, header[basePat].head, c);
      var treeNode := header[basePat].head;
      condPats, frequency := [], [];
      ghost var k := 0;
      while treeNode != None
        invariant 0 <= k <= |c| && treeNode == (if k < |c| then Some(c[k]) else None)
        invariant condPats == CondPatterns(pathOf, c[..k]) && frequency == CondWeights(nodes, pathOf, c[..k])
        decreases |c| - k
      {
        assert ChainLink(nodes, basePat, c, k);
        var prefixPath := AscendFPTree(treeNode.value, []);
        assert prefixPath == Reversed(pathOf[c[k]]);
        if |prefixPath| > 1 {
          condPats := condPats + [prefixPath[1..]];
          frequency := frequency + [nodes[treeNode.value].count];
        }
        treeNode := nodes[treeNode.value].next;
        CondStep(nodes, pathOf, c, k);
        k := k + 1;
      }
      assert c[..k] == c;
    }
  }

  /**
   * In a valid tree every non-root node's count is the total weight of the
   * inserted itemsets whose path passes through it.
   */
  lemma CountsConserved(tree: Tree, i: nat)
    requires tree.Valid() && 0 < i < |tree.nodes|
    ensures tree.nodes[i].count == Weight(tree.paths, tree.weights, tree.pathOf[i])
  {
    assert CountAt(tree.nodes, tree.pathOf, tree.paths, tree.weights, i);
  }
}
