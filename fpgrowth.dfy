/**
 * FP-Growth: building an FP tree from weighted itemsets, mining it
 * recursively through conditional pattern bases, and the support and
 * association-rule helpers around it.
 */
module FPGrowth {
  import opened Itemsets
  import opened FPArena
  import opened FPHeader
  import opened FPTree

  /** Every itemset lists each of its items once, as a frozenset does. */
  predicate AllDistinct(itemSetList: seq<seq<Item>>)
  {
    forall i :: 0 <= i < |itemSetList| ==> Distinct(itemSetList[i])
  }

  /** `headerTable` and `order` hold the counts and first-occurrence order of the weighted itemsets. */
  ghost predicate Tallied(headerTable: map<Item, nat>, order: seq<Item>, itemSetList: seq<seq<Item>>, frequency: seq<nat>)
  {
    && |frequency| == |itemSetList|
    && headerTable.Keys == Elems(Flatten(itemSetList))
    && (forall x :: x in headerTable ==> headerTable[x] == HeaderCount(itemSetList, frequency, x))
    && order == FirstOccurrences(Flatten(itemSetList))
  }

  /** A tally holds exactly the header table's counts. */
  lemma TalliedCounts(headerTable: map<Item, nat>, order: seq<Item>, itemSetList: seq<seq<Item>>, frequency: seq<nat>)
    requires Tallied(headerTable, order, itemSetList, frequency)
    ensures headerTable == Counts(itemSetList, frequency)
  {
  }

  /** Opening a new, still empty itemset keeps the tally. */
  lemma TallyOpen(headerTable: map<Item, nat>, order: seq<Item>, itemSetList: seq<seq<Item>>, frequency: seq<nat>, w: nat)
    requires Tallied(headerTable, order, itemSetList, frequency)
    ensures Tallied(headerTable, order, itemSetList + [[]], frequency + [w])
  {
    CountNothing(itemSetList, frequency, w);
  }

  /** Counting one more occurrence of `y`, with the dictionary's default of 0 for a new key. */
  lemma TallyOne(headerTable: map<Item, nat>, order: seq<Item>, itemSetList: seq<seq<Item>>, frequency: seq<nat>,
                 s: seq<Item>, w: nat, y: Item)
    requires Tallied(headerTable, order, itemSetList + [s], frequency + [w])
    ensures Tallied(headerTable[y := (if y in headerTable then headerTable[y] else 0) + w],
                    if y in headerTable then order else order + [y], itemSetList + [s + [y]], frequency + [w])
  {
    var list, weights, list' := itemSetList + [s], frequency + [w], itemSetList + [s + [y]];
    var before := Flatten(list);
    var headerTable' := headerTable[y := (if y in headerTable then headerTable[y] else 0) + w];
    CountOneMore(itemSetList, frequency, s, w, y);
    assert Elems(before + [y]) == Elems(before) + {y};
    assert headerTable'.Keys == Elems(Flatten(list'));
    if y !in headerTable {
      HeaderCountAbsent(list, weights, y);
    }
    forall x | x in headerTable' ensures headerTable'[x] == HeaderCount(list', weights, x) {
      if x != y {
        assert headerTable[x] == HeaderCount(list, weights, x);
      }
    }
    assert (before + [y])[..|before|] == before;
    assert FirstOccurrences(Flatten(list')) == if y in headerTable then order else order + [y];
  }

  /**
   * Adds the occurrences of one itemset, each weighing `w`, to the tally of
   * the itemsets before it: a missing key starts from 0 and joins the key
   * order.
   */
  method CountItemSet(headerTable: map<Item, nat>, order: seq<Item>, itemSet: seq<Item>, w: nat,
                      ghost done: seq<seq<Item>>, ghost weights: seq<nat>)
    returns (headerTable': map<Item, nat>, order': seq<Item>)
    requires Tallied(headerTable, order, done, weights)
    ensures Tallied(headerTable', order', done + [itemSet], weights + [w])
  {
    headerTable', order' := headerTable, order;
    TallyOpen(headerTable, order, done, weights, w);
    assert itemSet[..0] == [];
    for j := 0 to |itemSet|
      invariant Tallied(headerTable', order', done + [itemSet[..j]], weights + [w])
    {
      var item := itemSet[j];
      assert itemSet[..j + 1] == itemSet[..j] + [item];
      TallyOne(headerTable', order', done, weights, itemSet[..j], w, item);
      if item !in headerTable' {
        order' := order' + [item];
      }
      headerTable' := headerTable'[item := (if item in headerTable' then headerTable'[item] else 0) + w];
    }
    assert itemSet[..|itemSet|] == itemSet;
  }

  /**
   * The first pass of tree construction: the weighted count of every item,
   * with the items in the order they were first met (the order in which
   * the header table's keys are inserted).
   */
  method CountItems(itemSetList: seq<seq<Item>>, frequency: seq<nat>) returns (headerTable: map<Item, nat>, order: seq<Item>)
    requires |frequency| == |itemSetList|
    ensures headerTable == Counts(itemSetList, frequency)
    ensures order == FirstOccurrences(Flatten(itemSetList))
  {
    headerTable, order := map[], [];
    for idx := 0 to |itemSetList|
      invariant Tallied(headerTable, order, itemSetList[..idx], frequency[..idx])
    {
      assert itemSetList[..idx + 1] == itemSetList[..idx] + [itemSetList[idx]];
      assert frequency[..idx + 1] == frequency[..idx] + [frequency[idx]];
      headerTable, order := CountItemSet(headerTable, order, itemSetList[idx], frequency[idx], itemSetList[..idx], frequency[..idx]);
    }
    assert itemSetList[..|itemSetList|] == itemSetList;
    assert frequency[..|frequency|] == frequency;
    TalliedCounts(headerTable, order, itemSetList, frequency);
  }

  /**
   * Inserts one prepared itemset as a path from the root, each item through
   * `UpdateTree`, the path's nodes counting `frequency` more.
   */
  method InsertPath(tree: Tree, itemSet: seq<Item>, frequency: nat)
    requires tree.Valid() && Elems(itemSet) <= tree.header.Keys
    modifies tree
    ensures tree.Valid()
    ensures Frequencies(tree.header) == old(Frequencies(tree.header)) && tree.order == old(tree.order)
    ensures tree.paths == old(tree.paths) + [itemSet] && tree.weights == old(tree.weights) + [frequency]
    ensures Distinct(itemSet) && old(DistinctPaths(tree.pathOf)) ==> DistinctPaths(tree.pathOf)
  {
    ghost var done := tree.paths;
    ghost var distinct := Distinct(itemSet) && DistinctPaths(tree.pathOf);
    tree.BeginPath(frequency);
    var currentNode := 0;
    assert itemSet[..0] == [];
    for j := 0 to |itemSet|
      invariant tree.Valid()
      invariant Frequencies(tree.header) == old(Frequencies(tree.header)) && tree.order == old(tree.order)
      invariant tree.paths == done + [itemSet[..j]] && tree.weights == old(tree.weights) + [frequency]
      invariant currentNode < |tree.nodes| && tree.ends[|done|] == currentNode && tree.pathOf[currentNode] == itemSet[..j]
      invariant distinct ==> DistinctPaths(tree.pathOf)
    {
      ghost var header0, pathOf0, cur0 := tree.header, tree.pathOf, currentNode;
      ghost var existed := itemSet[j] in tree.nodes[currentNode].children;
      TakeOneMore(itemSet, j);
      ExtendLast(done, itemSet[..j], itemSet[j]);
      currentNode := tree.UpdateTree(itemSet[j], currentNode, frequency);
      FrequenciesKept(header0, tree.header);
      if distinct && !existed {
        assert itemSet[j] !in itemSet[..j];
        DistinctExtend(pathOf0, cur0, itemSet[j]);
      }
    }
    assert itemSet[..|itemSet|] == itemSet;
  }

  /**
   * Inserts every itemset, its items that have a header entry sorted by
   * descending frequency, as a path from the root weighing the itemset's
   * frequency.
   */
  method InsertItemSets(fpTree: Tree, itemSetList: seq<seq<Item>>, frequency: seq<nat>)
    requires |frequency| == |itemSetList|
    requires fpTree.Valid() && fpTree.paths == [] && fpTree.weights == [] && DistinctPaths(fpTree.pathOf)
    modifies fpTree
    ensures fpTree.Valid()
    ensures Frequencies(fpTree.header) == old(Frequencies(fpTree.header)) && fpTree.order == old(fpTree.order)
    ensures fpTree.paths == PreparedAll(itemSetList, Frequencies(fpTree.header)) && fpTree.weights == frequency
    ensures AllDistinct(itemSetList) ==> DistinctPaths(fpTree.pathOf)
  {
    var kept := Frequencies(fpTree.header);
    for idx := 0 to |itemSetList|
      invariant fpTree.Valid()
      invariant Frequencies(fpTree.header) == kept && fpTree.order == old(fpTree.order)
      invariant fpTree.paths == PreparedAll(itemSetList[..idx], kept) && fpTree.weights == frequency[..idx]
      invariant AllDistinct(itemSetList) ==> DistinctPaths(fpTree.pathOf)
    {
      PreparedWithin(itemSetList[idx], kept);
      PreparedAllStep(itemSetList, kept, idx);
      TakeOneMore(frequency, idx);
      InsertPath(fpTree, Prepared(itemSetList[idx], kept), frequency[idx]);
    }
    assert itemSetList[..|itemSetList|] == itemSetList;
    assert frequency[..|frequency|] == frequency;
  }

  /**
   * The header table's first column: the weighted count of every item that
   * reaches `minSup`, and those items in the order they were first met.
   */
  method FrequentItems(itemSetList: seq<seq<Item>>, frequency: seq<nat>, minSup: real)
    returns (kept: map<Item, nat>, keptOrder: seq<Item>)
    requires |frequency| == |itemSetList|
    ensures kept == Kept(Counts(itemSetList, frequency), minSup)
    ensures keptOrder == Survivors(FirstOccurrences(Flatten(itemSetList)), Counts(itemSetList, frequency), minSup)
    ensures Elems(keptOrder) == kept.Keys && Distinct(keptOrder)
  {
    var headerTable, order := CountItems(itemSetList, frequency);
    kept := Kept(headerTable, minSup);
    keptOrder := Survivors(order, headerTable, minSup);
    FirstOccurrencesDistinct(Flatten(itemSetList));
    SurvivorsDistinct(order, headerTable, minSup);
    assert forall x :: x in keptOrder <==> x in kept;
  }

  /**
   * Builds the FP tree of the weighted itemsets: the items whose count
   * reaches `minSup` head the table, and each itemset's surviving items,
   * sorted by descending count, are inserted as a path from the root with
   * the itemset's weight. There is no tree when no item survives.
   */
  method ConstructTree(itemSetList: seq<seq<Item>>, frequency: seq<nat>, minSup: real) returns (tree: Tree?)
    requires |frequency| == |itemSetList|
    ensures var counts := Counts(itemSetList, frequency);
            var kept := Kept(counts, minSup);
            && (tree == null <==> kept == map[])
            && (tree != null ==>
                  && fresh(tree) && tree.Valid()
                  && Frequencies(tree.header) == kept
                  && tree.order == Survivors(FirstOccurrences(Flatten(itemSetList)), counts, minSup) && Distinct(tree.order)
                  && tree.paths == PreparedAll(itemSetList, kept) && tree.weights == frequency
                  && (AllDistinct(itemSetList) ==> DistinctPaths(tree.pathOf)))
  {
    var kept, keptOrder := FrequentItems(itemSetList, frequency, minSup);
    if kept == map[] {
      return null;
    }
    var fpTree := new Tree(kept, keptOrder);
    InsertItemSets(fpTree, itemSetList, frequency);
    tree := fpTree;
  }

  /** A header table whose items leave out one item of another has fewer entries. */
  lemma SmallerHeader(header': map<Item, Entry>, header: map<Item, Entry>, x: Item)
    requires x in header && header'.Keys <= header.Keys - {x}
    ensures |header'| < |header|
  {
    SubsetCardinality(header'.Keys, header.Keys - {x});
    assert |header.Keys - {x}| == |header.Keys| - 1;
  }

  /** `preFix + {x}` is among the sets listed from `start` on. */
  predicate MinedWith(out: seq<set<Item>>, start: nat, preFix: set<Item>, x: Item)
  {
    start <= |out| && preFix + {x} in out[start..]
  }

  /** `s` adds at least one item to `preFix`, and only items of `keys`. */
  predicate Grows(s: set<Item>, preFix: set<Item>, keys: set<Item>)
  {
    preFix < s && s - preFix <= keys
  }

  /** The sets of a list and of its extension grow `preFix` within `keys`: so do all of the extended list's. */
  lemma GrowsJoin(mid: seq<set<Item>>, out: seq<set<Item>>, start: nat, preFix: set<Item>, keys: set<Item>)
    requires start <= |mid| <= |out| && out[..|mid|] == mid
    requires forall k {:trigger Grows(mid[k], preFix, keys)} :: start <= k < |mid| ==> Grows(mid[k], preFix, keys)
    requires forall k {:trigger Grows(out[k], preFix, keys)} :: |mid| <= k < |out| ==> Grows(out[k], preFix, keys)
    ensures forall k {:trigger Grows(out[k], preFix, keys)} :: start <= k < |out| ==> Grows(out[k], preFix, keys)
  {
    forall k | start <= k < |mid| ensures Grows(out[k], preFix, keys) {
      assert out[k] == mid[k];
      assert Grows(mid[k], preFix, keys);
    }
  }

  /**
   * Sets that grow `preFix + {item}` within `sub` grow `preFix` within
   * `keys`, when `item` is a key outside `preFix` and `sub` is within `keys`.
   */
  lemma GrowsWider(out: seq<set<Item>>, from: nat, preFix: set<Item>, item: Item, sub: set<Item>, keys: set<Item>)
    requires item !in preFix && item in keys && sub <= keys
    requires forall k {:trigger Grows(out[k], preFix + {item}, sub)} :: from <= k < |out| ==> Grows(out[k], preFix + {item}, sub)
    ensures forall k {:trigger Grows(out[k], preFix, keys)} :: from <= k < |out| ==> Grows(out[k], preFix, keys)
  {
    forall k | from <= k < |out| ensures Grows(out[k], preFix, keys) {
      assert Grows(out[k], preFix + {item}, sub);
    }
  }

  /** Every set strictly between positions `lo` and `hi` of `out` is a proper superset of `s`. */
  predicate SegmentGrows(out: seq<set<Item>>, lo: nat, hi: nat, s: set<Item>)
  {
    forall k :: lo < k < hi && k < |out| ==> s < out[k]
  }

  /** Where the segment of the `i`-th visited item ends: at the next item's set, or at the end of `out`. */
  function SegmentEnd(pos: seq<nat>, i: nat, n: nat): nat
    requires i < |pos|
  {
    if i + 1 < |pos| then pos[i + 1] else n
  }

  /** The `i`-th segment: `preFix + {items[i]}` at `pos[i]`, then proper supersets of it up to the next segment. */
  predicate SegmentAt(out: seq<set<Item>>, start: nat, preFix: set<Item>, items: seq<Item>, pos: seq<nat>, i: nat)
  {
    && i < |pos| && i < |items| && start <= pos[i] < |out| && out[pos[i]] == preFix + {items[i]}
    && SegmentGrows(out, pos[i], SegmentEnd(pos, i, |out|), preFix + {items[i]})
  }

  /**
   * From `start` on, `out` is one segment per item of `items`, in that
   * order and nothing else: the `i`-th segment begins at `pos[i]` with
   * `preFix + {items[i]}` and goes on with proper supersets of it only.
   */
  predicate Segments(out: seq<set<Item>>, start: nat, preFix: set<Item>, items: seq<Item>, pos: seq<nat>)
  {
    && |pos| == |items|
    && (if |pos| == 0 then |out| == start else pos[0] == start)
    && (forall i :: 0 <= i < |pos| ==> start <= pos[i] < |out|)
    && (forall i, j :: 0 <= i < j < |pos| ==> pos[i] < pos[j])
    && (forall i {:trigger SegmentAt(out, start, preFix, items, pos, i)} :: 0 <= i < |pos| ==> SegmentAt(out, start, preFix, items, pos, i))
  }

  /** Appending `preFix + {y}` followed by proper supersets of it adds a segment for `y`. */
  lemma SegmentsStep(out: seq<set<Item>>, out': seq<set<Item>>, start: nat, preFix: set<Item>, items: seq<Item>, pos: seq<nat>, y: Item)
    requires Segments(out, start, preFix, items, pos)
    requires |out| < |out'| && out'[..|out|] == out && out'[|out|] == preFix + {y}
    requires SegmentGrows(out', |out|, |out'|, preFix + {y})
    ensures Segments(out', start, preFix, items + [y], pos + [|out|])
  {
    var pos', items' := pos + [|out|], items + [y];
    forall i | 0 <= i < |pos'| ensures SegmentAt(out', start, preFix, items', pos', i) {
      if i < |pos| {
        SegmentKept(out, out', start, preFix, items, pos, items', pos', i);
      }
    }
    forall i, j | 0 <= i < j < |pos'| ensures pos'[i] < pos'[j] {
      if j == |pos| {
        assert SegmentAt(out, start, preFix, items, pos, i);
      }
    }
  }

  /** A segment of `out` is still one of a longer list with the same segments before it. */
  lemma SegmentKept(out: seq<set<Item>>, out': seq<set<Item>>, start: nat, preFix: set<Item>, items: seq<Item>, pos: seq<nat>,
                    items': seq<Item>, pos': seq<nat>, i: nat)
    requires SegmentAt(out, start, preFix, items, pos, i)
    requires |out| <= |out'| && out'[..|out|] == out
    requires |pos| <= |pos'| && pos'[..|pos|] == pos && |items| <= |items'| && items'[..|items|] == items
    requires SegmentEnd(pos', i, |out'|) == SegmentEnd(pos, i, |out|) <= |out|
    ensures SegmentAt(out', start, preFix, items', pos', i)
  {
    assert pos'[i] == pos[i] && items'[i] == items[i];
    assert out'[pos[i]] == out[pos[i]];
    forall k | pos[i] < k < SegmentEnd(pos, i, |out|) && k < |out'| ensures preFix + {items[i]} < out'[k] {
      assert out'[k] == out[k];
    }
  }

  /** A segment of `out` is still one of a shorter list, when the list keeps all of it. */
  lemma SegmentCut(out: seq<set<Item>>, start: nat, preFix: set<Item>, items: seq<Item>, pos: seq<nat>, n: nat, i: nat)
    requires SegmentAt(out, start, preFix, items, pos, i) && i < n < |pos| == |items| && pos[n] <= |out|
    requires pos[i] < pos[n] && SegmentEnd(pos, i, |out|) <= pos[n]
    ensures SegmentAt(out[..pos[n]], start, preFix, items[..n], pos[..n], i)
  {
    var out' := out[..pos[n]];
    assert SegmentEnd(pos[..n], i, |out'|) == SegmentEnd(pos, i, |out|);
    assert out'[pos[i]] == out[pos[i]];
    forall k | pos[i] < k < SegmentEnd(pos, i, |out|) && k < |out'| ensures preFix + {items[i]} < out'[k] {
      assert out'[k] == out[k];
    }
  }

  /** Dropping the last segment leaves the segments of the other items. */
  lemma SegmentsInit(out: seq<set<Item>>, start: nat, preFix: set<Item>, items: seq<Item>, pos: seq<nat>)
    requires Segments(out, start, preFix, items, pos) && |pos| > 1
    ensures Segments(out[..pos[|pos| - 1]], start, preFix, items[..|pos| - 1], pos[..|pos| - 1])
  {
    var n := |pos| - 1;
    forall i | 0 <= i < n ensures SegmentAt(out[..pos[n]], start, preFix, items[..n], pos[..n], i) {
      assert SegmentAt(out, start, preFix, items, pos, i);
      if i + 1 < n {
        assert pos[i + 1] < pos[n];
      }
      SegmentCut(out, start, preFix, items, pos, n, i);
    }
  }

  /**
   * The state of `MineTree`'s loop: `out` extends `list` by one segment per
   * visited item, and every added set grows `preFix` by items of `keys`.
   */
  predicate MinedSoFar(out: seq<set<Item>>, list: seq<set<Item>>, preFix: set<Item>, keys: set<Item>, items: seq<Item>, segments: seq<nat>)
  {
    && |out| >= |list| && out[..|list|] == list
    && Segments(out, |list|, preFix, items, segments)
    && forall k {:trigger Grows(out[k], preFix, keys)} :: |list| <= k < |out| ==> Grows(out[k], preFix, keys)
  }

  /** One round of `MineTree`'s loop: the sets mined for `item`, led by `preFix + {item}`, add its segment. */
  lemma MinedRound(before: seq<set<Item>>, out: seq<set<Item>>, list: seq<set<Item>>, preFix: set<Item>, keys: set<Item>,
                   items: seq<Item>, segments: seq<nat>, item: Item)
    requires MinedSoFar(before, list, preFix, keys, items, segments)
    requires |out| > |before| && out[..|before|] == before && out[|before|] == preFix + {item}
    requires forall k :: |before| < k < |out| ==> preFix + {item} < out[k]
    requires forall k {:trigger Grows(out[k], preFix, keys)} :: |before| <= k < |out| ==> Grows(out[k], preFix, keys)
    ensures MinedSoFar(out, list, preFix, keys, items + [item], segments + [|before|])
  {
    assert SegmentGrows(out, |before|, |out|, preFix + {item});
    GrowsJoin(before, out, |list|, preFix, keys);
    SegmentsStep(before, out, |list|, preFix, items, segments, item);
    assert out[..|list|] == before[..|list|];
  }

  /** Every item with a segment has its set `preFix + {x}` listed. */
  lemma SegmentsMined(out: seq<set<Item>>, start: nat, preFix: set<Item>, items: seq<Item>, pos: seq<nat>)
    requires Segments(out, start, preFix, items, pos)
    ensures forall x {:trigger MinedWith(out, start, preFix, x)} :: x in items ==> MinedWith(out, start, preFix, x)
  {
    forall x | x in items ensures MinedWith(out, start, preFix, x) {
      var i :| 0 <= i < |items| && items[i] == x;
      assert SegmentAt(out, start, preFix, items, pos, i);
      assert out[start..][pos[i] - start] == preFix + {x};
    }
  }

  /** A set `preFix + {y}`, with `y` outside `preFix`, is no proper subset of any `preFix + {x}`. */
  lemma NoProperExtension(preFix: set<Item>, x: Item, y: Item)
    requires y !in preFix
    ensures !(preFix + {y} < preFix + {x})
  {
  }

  /** In segments of items outside `preFix`, a set `preFix + {x}` occurs only where a segment begins. */
  lemma {:induction false} OnlyAtSegmentStart(out: seq<set<Item>>, start: nat, preFix: set<Item>, items: seq<Item>, pos: seq<nat>, x: Item, k: nat)
    requires Segments(out, start, preFix, items, pos) && preFix !! Elems(items)
    requires start <= k < |out| && out[k] == preFix + {x}
    ensures k in pos
    decreases |pos|
  {
    var j := |pos| - 1;
    assert SegmentAt(out, start, preFix, items, pos, j);
    assert items[j] in Elems(items);
    NoProperExtension(preFix, x, items[j]);
    assert k <= pos[j];
    if k < pos[j] {
      assert j > 0;
      SegmentsInit(out, start, preFix, items, pos);
      assert Elems(items[..j]) <= Elems(items);
      OnlyAtSegmentStart(out[..pos[j]], start, preFix, items[..j], pos[..j], x, k);
    }
  }

  /** `preFix + {x}` occurs at most once in `out` from `start` on. */
  predicate MinedOnce(out: seq<set<Item>>, start: nat, preFix: set<Item>, x: Item)
  {
    forall k1, k2 :: start <= k1 < |out| && start <= k2 < |out| && out[k1] == preFix + {x} && out[k2] == preFix + {x} ==> k1 == k2
  }

  /** Segments of distinct items outside `preFix` list each `preFix + {x}` at most once. */
  lemma SegmentsOnce(out: seq<set<Item>>, start: nat, preFix: set<Item>, items: seq<Item>, pos: seq<nat>)
    requires Segments(out, start, preFix, items, pos) && Distinct(items) && preFix !! Elems(items)
    ensures forall x {:trigger MinedOnce(out, start, preFix, x)} :: MinedOnce(out, start, preFix, x)
  {
    forall x, k1, k2 | start <= k1 < |out| && start <= k2 < |out| && out[k1] == preFix + {x} && out[k2] == preFix + {x}
      ensures k1 == k2
    {
      OnlyAtSegmentStart(out, start, preFix, items, pos, x, k1);
      OnlyAtSegmentStart(out, start, preFix, items, pos, x, k2);
      var i1 :| 0 <= i1 < |pos| && pos[i1] == k1;
      var i2 :| 0 <= i2 < |pos| && pos[i2] == k2;
      SameHead(out, start, preFix, items, pos, x, i1);
      SameHead(out, start, preFix, items, pos, x, i2);
    }
  }

  /** The segment whose head is `preFix + {x}` belongs to `x`. */
  lemma SameHead(out: seq<set<Item>>, start: nat, preFix: set<Item>, items: seq<Item>, pos: seq<nat>, x: Item, i: nat)
    requires Segments(out, start, preFix, items, pos) && preFix !! Elems(items)
    requires i < |pos| && out[pos[i]] == preFix + {x}
    ensures items[i] == x
  {
    assert SegmentAt(out, start, preFix, items, pos, i);
    assert items[i] in Elems(items);
    assert items[i] in preFix + {x};
  }

  /**
   * `preFix + {item}` followed by sets that grow it within `sub` (a part of
   * `keys` without `item`) are proper supersets of it that grow `preFix`
   * within `keys`.
   */
  lemma MinedItem(list: seq<set<Item>>, mid: seq<set<Item>>, out: seq<set<Item>>, preFix: set<Item>, item: Item,
                  sub: set<Item>, keys: set<Item>)
    requires item !in preFix && item in keys && sub <= keys
    requires mid == list + [preFix + {item}] && |out| >= |mid| && out[..|mid|] == mid
    requires forall k {:trigger Grows(out[k], preFix + {item}, sub)} :: |mid| <= k < |out| ==> Grows(out[k], preFix + {item}, sub)
    ensures |out| > |list| && out[..|list|] == list && out[|list|] == preFix + {item}
    ensures forall k :: |list| < k < |out| ==> preFix + {item} < out[k]
    ensures forall k {:trigger Grows(out[k], preFix, keys)} :: |list| <= k < |out| ==> Grows(out[k], preFix, keys)
  {
    GrowsWider(out, |mid|, preFix, item, sub, keys);
    forall k | |list| < k < |out| ensures preFix + {item} < out[k] {
      assert Grows(out[k], preFix + {item}, sub);
    }
    assert Grows(mid[|list|], preFix, keys);
    GrowsJoin(mid, out, |list|, preFix, keys);
    assert out[..|list|] == mid[..|list|];
    assert out[|list|] == mid[|list|];
  }

  /** A header built from the counts of itemsets drawn from `keys` has its items in `keys`. */
  lemma HeaderWithin(header: map<Item, Entry>, itemSetList: seq<seq<Item>>, frequency: seq<nat>, minSup: real, keys: set<Item>)
    requires |frequency| == |itemSetList| && Elems(Flatten(itemSetList)) <= keys
    requires Frequencies(header) == Kept(Counts(itemSetList, frequency), minSup)
    ensures header.Keys <= keys
  {
    forall x | x in header ensures x in keys {
      assert x in Frequencies(header);
    }
  }

  /**
   * The conditional tree of `item` has only items of the tree's header
   * other than `item`, its patterns repeat no item, and so it has a smaller
   * header.
   */
  lemma ConditionalTree(tree: Tree, item: Item, condPats: seq<seq<Item>>, frequency: seq<nat>)
    requires tree.Valid() && DistinctPaths(tree.pathOf) && item in tree.header
    requires condPats == CondPatterns(tree.pathOf, tree.chain[item])
    requires frequency == CondWeights(tree.nodes, tree.pathOf, tree.chain[item])
    ensures |frequency| == |condPats| && AllDistinct(condPats)
    ensures Elems(Flatten(condPats)) <= tree.header.Keys - {item}
  {
    ChainNodes(tree.nodes, tree.header, tree.chain, item);
    CondPatternItems(tree.nodes, tree.pathOf, tree.header, tree.chain, item, tree.chain[item]);
    FlattenWithin(condPats, tree.header.Keys - {item});
  }

  /**
   * The conditional tree of `item`: the tree built from the item's
   * conditional pattern base, with the header's items other than `item`
   * only, and so a smaller header.
   */
  method ConditionalTreeOf(tree: Tree, item: Item, minSup: real) returns (conditionalTree: Tree?)
    requires tree.Valid() && DistinctPaths(tree.pathOf) && item in tree.header
    ensures var pats := CondPatterns(tree.pathOf, tree.chain[item]);
            var ws := CondWeights(tree.nodes, tree.pathOf, tree.chain[item]);
            && |ws| == |pats|
            && (conditionalTree == null <==> Kept(Counts(pats, ws), minSup) == map[])
            && (conditionalTree != null ==>
                  && Frequencies(conditionalTree.header) == Kept(Counts(pats, ws), minSup)
                  && conditionalTree.paths == PreparedAll(pats, Kept(Counts(pats, ws), minSup))
                  && conditionalTree.weights == ws)
    ensures conditionalTree != null ==>
              && fresh(conditionalTree) && conditionalTree.Valid() && DistinctPaths(conditionalTree.pathOf) && Distinct(conditionalTree.order)
              && conditionalTree.header.Keys <= tree.header.Keys - {item} && |conditionalTree.header| < |tree.header|
  {
    var conditionalPattBase, frequency := tree.FindPrefixPath(item);
    ConditionalTree(tree, item, conditionalPattBase, frequency);
    conditionalTree := ConstructTree(conditionalPattBase, frequency, minSup);
    if conditionalTree != null {
      HeaderWithin(conditionalTree.header, conditionalPattBase, frequency, minSup, tree.header.Keys - {item});
      SmallerHeader(conditionalTree.header, tree.header, item);
    }
  }

  /**
   * Mines one header item: lists `preFix + {item}`, builds the tree of the
   * item's conditional pattern base and, when it has items, mines it with
   * `preFix + {item}` as the prefix.
   */
  method MineItem(tree: Tree, minSup: real, preFix: set<Item>, item: Item, freqItemList: seq<set<Item>>) returns (out: seq<set<Item>>)
    requires tree.Valid() && DistinctPaths(tree.pathOf) && Distinct(tree.order) && preFix !! tree.header.Keys && item in tree.header
    ensures |out| > |freqItemList| && out[..|freqItemList|] == freqItemList && out[|freqItemList|] == preFix + {item}
    ensures var pats := CondPatterns(tree.pathOf, tree.chain[item]);
            var ws := CondWeights(tree.nodes, tree.pathOf, tree.chain[item]);
            |ws| == |pats| && Kept(Counts(pats, ws), minSup) == map[] ==> out == freqItemList + [preFix + {item}]
    ensures forall k :: |freqItemList| < k < |out| ==> preFix + {item} < out[k]
    ensures forall k {:trigger Grows(out[k], preFix, tree.header.Keys)} ::
              |freqItemList| <= k < |out| ==> Grows(out[k], preFix, tree.header.Keys)
    decreases |tree.header|, 0
  {
    var keys := tree.header.Keys;
    var newFreqSet := preFix + {item};
    out := freqItemList + [newFreqSet];
    assert Grows(out[|freqItemList|], preFix, keys);
    var conditionalTree := ConditionalTreeOf(tree, item, minSup);
    if conditionalTree != null {
      ghost var mid := out;
      ghost var segments;
      out, segments := MineTree(conditionalTree, minSup, newFreqSet, out);
      MinedItem(freqItemList, mid, out, preFix, item, conditionalTree.header.Keys, keys);
    }
  }

  /**
   * Mines the tree: each header item, from the least frequent up, is mined
   * with `preFix`. The mined sets are appended to `freqItemList`: every
   * header item's set `preFix + {x}` among them, and each of them `preFix`
   * grown by items of the header. They come in one segment per header
   * item, in that ascending order: the item's set `preFix + {x}`, then only
   * proper supersets of it, mined from its conditional tree. `segments`
   * holds where each segment begins, and each `preFix + {x}` is listed
   * once.
   */
  method MineTree(tree: Tree, minSup: real, preFix: set<Item>, freqItemList: seq<set<Item>>)
    returns (out: seq<set<Item>>, ghost segments: seq<nat>)
    requires tree.Valid() && DistinctPaths(tree.pathOf) && Distinct(tree.order) && preFix !! tree.header.Keys
    ensures |out| >= |freqItemList| && out[..|freqItemList|] == freqItemList
    ensures Segments(out, |freqItemList|, preFix, SortByKey(tree.order, Frequencies(tree.header), false), segments)
    ensures forall x {:trigger MinedOnce(out, |freqItemList|, preFix, x)} :: MinedOnce(out, |freqItemList|, preFix, x)
    ensures forall x {:trigger MinedWith(out, |freqItemList|, preFix, x)} ::
              x in tree.header ==> MinedWith(out, |freqItemList|, preFix, x)
    ensures forall k {:trigger Grows(out[k], preFix, tree.header.Keys)} ::
              |freqItemList| <= k < |out| ==> Grows(out[k], preFix, tree.header.Keys)
    decreases |tree.header|, 1
  {
    var sortedItemList := SortByKey(tree.order, Frequencies(tree.header), false);
    SortPermutes(tree.order, Frequencies(tree.header), false);
    var keys := tree.header.Keys;
    out, segments := freqItemList, [];
    assert sortedItemList[..0] == [];
    for i := 0 to |sortedItemList|
      invariant MinedSoFar(out, freqItemList, preFix, keys, sortedItemList[..i], segments)
    {
      var item := sortedItemList[i];
      assert item in tree.header by {
        assert item in multiset(tree.order);
      }
      ghost var before := out;
      out := MineItem(tree, minSup, preFix, item, out);
      TakeOneMore(sortedItemList, i);
      MinedRound(before, out, freqItemList, preFix, keys, sortedItemList[..i], segments, item);
      segments := segments + [|before|];
    }
    assert sortedItemList[..|sortedItemList|] == sortedItemList;
    PermutationDistinct(tree.order, sortedItemList);
    SegmentsOnce(out, |freqItemList|, preFix, sortedItemList, segments);
    SegmentsMined(out, |freqItemList|, preFix, sortedItemList, segments);
  }

  // ---------------------------------------------------------------------------
  // Support counting, rules and the driver
  // ---------------------------------------------------------------------------

  /** The number of itemsets that contain every item of `testSet`. */
  method GetSupport(testSet: set<Item>, itemSetList: seq<seq<Item>>) returns (count: nat)
    ensures count == Support(ItemSets(itemSetList), testSet)
  {
    ghost var transactions := ItemSets(itemSetList);
    count := 0;
    for i := 0 to |itemSetList|
      invariant count == Support(transactions[..i], testSet)
    {
      SupportStep(transactions, i, testSet);
      if testSet <= Elems(itemSetList[i]) {
        count := count + 1;
      }
    }
    assert transactions[..|itemSetList|] == transactions;
  }

  /** A kept itemset with its support ratio. */
  datatype Rule = Rule(itemSet: set<Item>, support: real)

  /**
   * The itemsets of `freqItemSet`, in order, whose support count exceeds
   * `minSup`, each with its support ratio.
   */
  function Rules(freqItemSet: seq<set<Item>>, transactions: seq<ItemSet>, minSup: real): seq<Rule>
  {
    if freqItemSet == [] then []
    else
      var n := |freqItemSet| - 1;
      var s := freqItemSet[n];
      Rules(freqItemSet[..n], transactions, minSup)
        + (if Support(transactions, s) as real > minSup then [Rule(s, Ratio(transactions, s))] else [])
  }

  /** A rule is kept exactly for a listed itemset whose count exceeds `minSup`, and carries its support ratio. */
  lemma {:induction false} RulesMembers(freqItemSet: seq<set<Item>>, transactions: seq<ItemSet>, minSup: real, r: Rule)
    ensures r in Rules(freqItemSet, transactions, minSup)
        <==> && r.itemSet in freqItemSet
             && Support(transactions, r.itemSet) as real > minSup
             && r.support == Ratio(transactions, r.itemSet)
  {
    if freqItemSet != [] {
      var n := |freqItemSet| - 1;
      RulesMembers(freqItemSet[..n], transactions, minSup, r);
      assert freqItemSet == freqItemSet[..n] + [freqItemSet[n]];
    }
  }

  /**
   * Keeps each itemset whose support count exceeds `minSup`, with its
   * support ratio. The division by the number of itemsets fails only when
   * there are none and a negative `minSup` lets an itemset through.
   */
  method AssociationRule(freqItemSet: seq<set<Item>>, itemSetList: seq<seq<Item>>, minSup: real) returns (rules: seq<Rule>)
    requires |itemSetList| > 0 || minSup >= 0.0 || freqItemSet == []
    ensures rules == Rules(freqItemSet, ItemSets(itemSetList), minSup)
  {
    rules := [];
    for i := 0 to |freqItemSet|
      invariant rules == Rules(freqItemSet[..i], ItemSets(itemSetList), minSup)
    {
      var itemSet := freqItemSet[i];
      var subSup := GetSupport(itemSet, itemSetList);
      if subSup as real > minSup {
        rules := rules + [Rule(itemSet, subSup as real / |itemSetList| as real)];
      }
      assert freqItemSet[..i + 1][..i] == freqItemSet[..i];
    }
    assert freqItemSet[..|freqItemSet|] == freqItemSet;
  }

  /** A weight of 1 for every itemset. */
  function GetFrequencyFromList(itemSetList: seq<seq<Item>>): (frequency: seq<nat>)
    ensures |frequency| == |itemSetList| && forall i :: 0 <= i < |frequency| ==> frequency[i] == 1
  {
    seq(|itemSetList|, _ => 1)
  }

  /** With weights of 1, an item's count is the support of the item alone. */
  lemma UnitCountIsSupport(itemSetList: seq<seq<Item>>, x: Item)
    requires AllDistinct(itemSetList)
    ensures HeaderCount(itemSetList, GetFrequencyFromList(itemSetList), x) == Support(ItemSets(itemSetList), {x})
  {
    HeaderCountIsSupport(itemSetList, GetFrequencyFromList(itemSetList), x);
  }

  /** The items whose own support reaches `minSup`. */
  function FrequentSingles(itemSetList: seq<seq<Item>>, minSup: real): set<Item>
  {
    set x | x in Elems(Flatten(itemSetList)) && Support(ItemSets(itemSetList), {x}) as real >= minSup
  }

  /** With weights of 1, the header keeps exactly the items whose own support reaches `minSup`. */
  lemma UnitKeptAreFrequent(itemSetList: seq<seq<Item>>, minSup: real)
    requires AllDistinct(itemSetList)
    ensures Kept(Counts(itemSetList, GetFrequencyFromList(itemSetList)), minSup).Keys
         == FrequentSingles(itemSetList, minSup)
  {
    var kept := Kept(Counts(itemSetList, GetFrequencyFromList(itemSetList)), minSup);
    forall x | x in Elems(Flatten(itemSetList))
      ensures x in kept <==> x in FrequentSingles(itemSetList, minSup)
    {
      UnitCountIsSupport(itemSetList, x);
    }
  }

  /** Two itemsets that both contain `c` give `c` a support of 2. */
  lemma SupportOfTwo(itemSetList: seq<seq<Item>>, c: ItemSet)
    requires |itemSetList| == 2 && c <= Elems(itemSetList[0]) && c <= Elems(itemSetList[1])
    ensures Support(ItemSets(itemSetList), c) == 2
  {
    var transactions := ItemSets(itemSetList);
    assert c <= transactions[0] && c <= transactions[1];
    assert Support(transactions[..0], c) == 0 by {
      assert transactions[..0] == [];
    }
    SupportStep(transactions, 0, c);
    SupportStep(transactions, 1, c);
    assert transactions[..2] == transactions;
  }

  /** In the tied example both items are kept, with count 2 each. */
  lemma TiedCounts(a: Item, b: Item)
    requires a != b
    ensures var itemSetList := [[a, b], [b, a]];
            Kept(Counts(itemSetList, GetFrequencyFromList(itemSetList)), 2.0) == map[a := 2, b := 2]
  {
    var itemSetList := [[a, b], [b, a]];
    var counts := Counts(itemSetList, GetFrequencyFromList(itemSetList));
    assert Flatten(itemSetList) == [a, b, b, a] by {
      assert itemSetList[..1] == [[a, b]] && [[a, b]][..0] == [];
      assert Flatten([[a, b]]) == [a, b];
      assert Flatten(itemSetList) == Flatten([[a, b]]) + [b, a];
    }
    assert counts.Keys == {a, b};
    assert AllDistinct(itemSetList);
    UnitCountIsSupport(itemSetList, a);
    UnitCountIsSupport(itemSetList, b);
    SupportOfTwo(itemSetList, {a});
    SupportOfTwo(itemSetList, {b});
  }

  /** With both items at the same count, a two-item itemset keeps its own order. */
  lemma TiedPrepared(x: Item, y: Item, kept: map<Item, nat>)
    requires x in kept && y in kept && kept[x] == kept[y]
    ensures Prepared([x, y], kept) == [x, y]
  {
    assert [x, y][..1] == [x] && [x][..0] == [];
    assert FilterIn([x], kept) == [x];
    assert FilterIn([x, y], kept) == [x, y];
    assert SortByKey([x], kept, true) == [x];
    assert !Ahead(kept, true, y, x);
  }

  /**
   * Two itemsets with the same two items, met in opposite orders, tie at
   * count 2. Each keeps its own order when prepared, so the tree gets two
   * separate paths of weight 1 below the root, and neither conditional
   * pattern base holds the pair twice, although both itemsets contain it.
   */
  lemma TiedItemsSplitPaths(a: Item, b: Item)
    requires a != b
    ensures var itemSetList := [[a, b], [b, a]];
            var kept := Kept(Counts(itemSetList, GetFrequencyFromList(itemSetList)), 2.0);
            && kept == map[a := 2, b := 2]
            && PreparedAll(itemSetList, kept) == [[a, b], [b, a]]
            && Support(ItemSets(itemSetList), {a, b}) == 2
  {
    var itemSetList := [[a, b], [b, a]];
    var kept := map[a := 2, b := 2];
    TiedCounts(a, b);
    TiedPrepared(a, b, kept);
    TiedPrepared(b, a, kept);
    SupportOfTwo(itemSetList, {a, b});
  }

  /** Mines a whole tree: every header item alone, and only nonempty sets of header items. */
  method MineAll(tree: Tree, minSup: real) returns (freqItems: seq<set<Item>>)
    requires tree.Valid() && DistinctPaths(tree.pathOf) && Distinct(tree.order)
    ensures forall x :: x in tree.header ==> {x} in freqItems
    ensures forall s :: s in freqItems ==> s != {} && s <= tree.header.Keys
    ensures forall x, k1, k2 :: 0 <= k1 < |freqItems| && 0 <= k2 < |freqItems| && freqItems[k1] == {x} && freqItems[k2] == {x} ==> k1 == k2
  {
    var keys := tree.header.Keys;
    ghost var segments;
    freqItems, segments := MineTree(tree, minSup, {}, []);
    forall x, k1, k2 | 0 <= k1 < |freqItems| && 0 <= k2 < |freqItems| && freqItems[k1] == {x} && freqItems[k2] == {x}
      ensures k1 == k2
    {
      assert {} + {x} == {x};
      assert MinedOnce(freqItems, 0, {}, x);
    }
    forall x | x in keys
      ensures {x} in freqItems
    {
      assert MinedWith(freqItems, 0, {}, x);
      assert {} + {x} == {x};
    }
    forall s | s in freqItems
      ensures s != {} && s <= keys
    {
      var k :| 0 <= k < |freqItems| && freqItems[k] == s;
      assert Grows(freqItems[k], {}, keys);
    }
  }

  /**
   * FP-Growth over a list of itemsets, each weighted 1, with a minimum
   * support ratio: the mined itemsets and the rules kept from them, or
   * nothing when no single item is frequent.
   */
  method Run(itemSetList: seq<seq<Item>>, minSupRatio: real) returns (result: Option<(seq<set<Item>>, seq<Rule>)>)
    requires AllDistinct(itemSetList)
    ensures var frequent := FrequentSingles(itemSetList, |itemSetList| as real * minSupRatio);
            && (result.None? <==> frequent == {})
            && (result.Some? ==>
                  var (freqItems, rules) := result.value;
                  && (forall x :: x in frequent ==> {x} in freqItems)
                  && (forall s :: s in freqItems ==> s != {} && s <= frequent)
                  && rules == Rules(freqItems, ItemSets(itemSetList), minSupRatio))
  {
    var minSup := |itemSetList| as real * minSupRatio;
    var frequency := GetFrequencyFromList(itemSetList);
    UnitKeptAreFrequent(itemSetList, minSup);
    var fpTree := ConstructTree(itemSetList, frequency, minSup);
    if fpTree == null {
      return None;
    }
    var freqItems := MineAll(fpTree, minSup);
    assert |itemSetList| > 0 by {
      var x :| x in fpTree.header.Keys;
      assert x in Elems(Flatten(itemSetList));
    }
    var rules := AssociationRule(freqItems, itemSetList, minSupRatio);
    return Some((freqItems, rules));
  }
}
