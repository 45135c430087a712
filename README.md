# Frequent-itemset mining: Apriori and FP-Growth in Dafny

This project models two frequent-itemset miners that work over a list of
transactions, where each transaction is a set of items:

- **Apriori** (`apriori.py`) searches level by level.
  - It starts from the one-item candidates.
  - It counts each candidate's support by scanning every transaction, into
    a frequency table `freqSet` that is shared and never reset.
  - It keeps the candidates whose ratio of support to transactions reaches
    `minSupport`.
  - It joins the kept `k-1`-itemsets pairwise into `k`-item candidates.
  - It stops at the first empty level.
  - In closed mode it also removes from each level the itemsets that a
    superset of the next level dominates.
- **FP-Growth** (`fpgrowth.py`) builds a prefix tree.
  - It counts weighted item frequencies into a header table and drops the
    items below `minSup`.
  - It inserts each itemset's surviving items, ordered by decreasing
    frequency, as a path of the tree. Shared prefixes share nodes, and each
    item's nodes are chained from its header entry.
  - It then mines recursively. Each header item, added to the current
    prefix, is emitted; its conditional pattern base (the paths above the
    item's nodes) is collected and built into a conditional tree to mine
    next.
  - Finally it recounts the support of every mined itemset and keeps the
    rules whose count exceeds the threshold.

Modules:

- `itemsets.dfy` (`Itemsets`): the shared vocabulary. An `Item` is a `nat`
  and an itemset a `set<Item>`. It defines the support of an itemset, its
  ratio, the threshold test, and the Apriori property (a non-empty subset of
  a frequent itemset is frequent).
- `apriori.dfy` (`Apriori`): the specification of the levels, and the
  Apriori algorithm as imperative code.
  - `SupportCounter` is a class holding the shared frequency table.
  - The counting passes, the closed filter, the search loop and the result
    assembly are methods with loops. Each is proved against the level
    functions.
- `fparena.dfy` (`FPArena`): the FP-tree as an arena of node records
  addressed by index. Each node holds its item, count, parent, child map
  and `next` link.
  - Ghost state records each node's path from the root, the node chain of
    each header item, and the itemsets inserted so far with their weights.
  - The invariants: the tree is linked; counts are conserved (a node's count
    is the total weight of the inserted paths through it); every chain lists
    exactly its item's nodes, in creation order.
- `fptree.dfy` (`FPTree`): the `Tree` class.
  - `Increment`, `UpdateHeaderTable`, `UpdateTree`, `AscendFPTree` and
    `FindPrefixPath` update or read the arena in place.
  - The conditional pattern base is specified as a function of the chain.
- `fpheader.dfy` (`FPHeader`): the specification functions for FP-Growth.
  - The weighted header counts, and the dictionary's first-occurrence key
    order.
  - The support cut.
  - The stable sort by key in either direction, as Python's `sorted` and
    `list.sort` do, with `reverse` included.
  - The preparation of an itemset for insertion.
- `fpgrowth.dfy` (`FPGrowth`): `constructTree`, `mineTree`, `getSupport`,
  `associationRule`, `getFrequencyFromList`, and `fpgrowthFromFile`
  without its file reading, as methods proved against those functions.

Behaviour worth knowing, modelled as the code has it:

- `associationRule` keeps an itemset when its support count exceeds the
  threshold it is given. `fpgrowthFromFile` passes the support ratio as
  that threshold, not the count threshold `minSup` (fpgrowth.py:132 and
  fpgrowth.py:165).
  - This compares a support count with a ratio. The model keeps the
    comparison as written: `Rules` compares the count with the value
    passed, and the rules stay in mining order.
- The two sorts of FP-Growth break ties between equally frequent items
  differently. Both are stable, so each keeps the order of its own input:
  - `mineTree` sorts the header items (fpgrowth.py:100). Its input is the
    header table in dictionary insertion order, so ties follow the order in
    which items were first met while counting. `FirstOccurrences`,
    `Survivors` and `SortByKey` model this order.
  - `constructTree` sorts each itemset on its own (fpgrowth.py:43). Its
    input is that itemset's own iteration order, so ties follow each
    itemset's order, which may differ from one itemset to the next.
    `Prepared` models this as `SortByKey` over the filtered itemset.
  - The item order within an itemset is therefore an input to the model:
    an FP-Growth itemset is a sequence without repeats.
- Because of the per-itemset tie order, two itemsets holding the same tied
  items in different orders take different paths in the tree. For the
  itemsets `[a, b]` and `[b, a]` with `minSup` 2, both items are kept with
  count 2, the prepared paths are `[a, b]` and `[b, a]`, and the pair has
  support 2 (`TiedItemsSplitPaths`). Each conditional pattern base then
  holds the pair with weight 1 only, so `{a, b}` is not mined although it
  is frequent. Python's frozenset iteration order depends on hashing, so
  this can occur with real input.
- In closed mode, `closecount += len(closeSet)` adds the number of levels
  stored so far, not the number of itemsets (apriori.py:104).
  `RunApriori` proves that `closeCount` is the triangle number of the level
  count.
- `largeSet[k-1]` refers to the same set object that the closed filter
  later mutates (apriori.py:96 and apriori.py:103). In closed mode both
  tables hold the filtered level, and the model stores that value in both.
- Apriori's weaker join (any two itemsets whose union has exactly `k`
  items) still produces every frequent `k`-itemset (`NextLevel`).

## Model

| member | source | states |
|---|---|---|
| Itemsets.Support | apriori.py:28-32 | The number of transactions containing the itemset, never more than the number of transactions |
| Itemsets.MeetsSupportRatio | apriori.py:34-38 | The threshold test holds exactly when the count is positive and count / number of transactions reaches `minSupport` |
| Itemsets.FrequentDownwardClosed | apriori.py:55-59 | Every non-empty subset of a frequent itemset is frequent, which is why joining frequent itemsets loses no candidate |
| Apriori.GetItemSetTransactionList | apriori.py:62-70 | One transaction per record, each the record's set of items; the candidates are exactly the singletons of items that occur in some record |
| Apriori.JoinSetSound | apriori.py:55-59 | Every joined set has exactly `length` items, all from the joined itemsets |
| Apriori.JoinSetComplete | apriori.py:55-59 | Every `k`-itemset (k >= 2) whose `k-1`-item subsets are all in the input is produced by the join |
| Apriori.FirstLevel | apriori.py:81-89 | Counting all singleton candidates and keeping the survivors yields exactly the frequent 1-itemsets |
| Apriori.NextLevel | apriori.py:97-101 | Joining level `k-1` into `k`-item candidates and keeping the survivors yields exactly the frequent `k`-itemsets |
| Apriori.LevelBounded | apriori.py:95-109 | A non-empty level `k` needs `k` distinct items, so the loop runs at most as many times as there are items |
| Apriori.EmptyLevelBoundsAll | apriori.py:95 | Once a level is empty, no frequent itemset has that many items or more, so stopping there misses nothing |
| Apriori.SupportCounter.constructor | apriori.py:83 | The shared frequency table starts empty (every itemset reads 0) |
| Apriori.CountItem | apriori.py:29-32 | Scanning the transactions for one candidate adds its support to `freqSet` and to the pass's own table, and changes no other entry |
| Apriori.CountSupport | apriori.py:28-32 | After the counting loop each candidate's `freqSet` entry has grown by its support, every other entry is unchanged, and the pass's table holds the candidates with positive support |
| Apriori.KeepFrequent | apriori.py:34-38 | The kept itemsets are exactly the counted ones whose ratio reaches `minSupport` |
| Apriori.ReturnItemsWithMinSupport | apriori.py:22-40 | The result is exactly the candidates meeting the threshold, never one with a zero count, and `freqSet` grows by each candidate's support |
| Apriori.FindDominated | apriori.py:45-48 | Finds an itemset of the level contained in `supset` whose recorded frequency is at most `supset`'s, or reports that none exists |
| Apriori.ReturnClosedItemsWithMinSupport | apriori.py:42-50 | The result is a subset of the input, each removed itemset is dominated by its own superset (no superset removes two), and a superset that dominates a kept itemset has removed another one |
| Apriori.FilterRemovesAtMostOnePerSuperset | apriori.py:44-48 | Because of the `break`, at most one itemset is removed per superset |
| Apriori.RemovalJustified | apriori.py:46-47 | A removed itemset has a frequent one-item-larger superset with equal support, so it is not closed |
| Apriori.ClosedStep | apriori.py:102-104 | Storing the filtered level in both tables keeps the search invariant, and `closecount` grows by the number of stored levels |
| Apriori.SearchStep | apriori.py:95-109 | One iteration of the loop: stores the current level, counts the joined candidates, applies the closed filter, and the next current level is exactly the next frequent level |
| Apriori.StartSearch | apriori.py:81-89 | Reads the records, counts every singleton into a fresh table, and the first current level is exactly the frequent 1-itemsets |
| Apriori.ExtendWithSupport | apriori.py:113-123 | Appends each itemset of a stored level paired with its recorded frequency divided by the number of transactions |
| Apriori.CollectLevels | apriori.py:122-123 | Collects the stored levels in key order: each entry comes from the level of its size with its recorded ratio, every stored itemset appears once, entries are ordered by size, and the length is the total of the level sizes |
| Apriori.ResultComplete | apriori.py:117-123 | In plain mode every frequent itemset appears in the result |
| Apriori.ResultClosed | apriori.py:133-138 | In closed mode every frequent itemset missing from the result has a frequent extension of equal support |
| Apriori.ResultMeaning | apriori.py:113-145 | The assembled result lists frequent itemsets with their true ratios; in plain mode it lists all of them and its length is the number of frequent itemsets |
| Apriori.RunApriori | apriori.py:73-145 | Every returned pair is a frequent itemset with its support ratio, with no itemset twice and ordered by size; plain mode returns every frequent itemset and `count` is their number; closed mode leaves out only non-closed itemsets; `closecount` is the triangle number of the level count |
| FPArena.PathsUnique | fpgrowth.py:62-68 | Since children are keyed by item, no two nodes of the tree have the same path from the root |
| FPArena.OnlyChildHasPath | fpgrowth.py:62-68 | The only node whose path is a node's path followed by `x` is that node's child for `x` |
| FPTree.CountsConserved | fpgrowth.py:61-72 | In a valid tree every non-root node's count is the total weight of the inserted itemsets whose path passes through it |
| FPTree.Tree.constructor | fpgrowth.py:35-39 | A tree of the root alone and a header entry for each kept item with its frequency and an empty chain |
| FPTree.Tree.Increment | fpgrowth.py:14-15 | Adds `frequency` to one node's count and changes nothing else |
| FPTree.Tree.UpdateHeaderTable | fpgrowth.py:51-59 | The new node becomes the chain's head if the chain is empty and is otherwise linked after its last node; earlier chain nodes keep their order and only one `next` link changes |
| FPTree.Tree.LastInChain | fpgrowth.py:55-58 | Following `next` links from the head reaches the last node of the item's chain |
| FPTree.Tree.UpdateTree | fpgrowth.py:61-72 | An existing child for the item has its count raised by `frequency` and no node is created; otherwise a new child with count `frequency` and parent `treeNode` is created and chained, and the old nodes are unchanged apart from the parent's new child entry and `next` links; in both cases the child is returned, counts stay conserved and the chains stay exact |
| FPTree.Tree.NewBranch | fpgrowth.py:66-70 | The created node is a fresh child of `treeNode` with count `frequency`, appended at the end of its item's chain; the old nodes are unchanged apart from the parent's new child entry and `next` links |
| FPTree.Tree.AscendFPTree | fpgrowth.py:74-77 | Appends the node's path from the root, reversed (the node's item first, the root excluded) |
| FPTree.Tree.FindPrefixPath | fpgrowth.py:79-95 | One pattern per chain node not directly below the root, in chain order: the node's ancestors' items, nearest first, with the node's count as weight |
| FPTree.CondPatternItems | fpgrowth.py:84-91 | Each conditional pattern has one weight, repeats no item and holds only header items other than the base item |
| FPHeader.HeaderCountIsSupport | fpgrowth.py:25-27 | With weight 1 per itemset and no repeated items, an item's header count is the number of itemsets that contain it |
| FPHeader.FirstOccurrencesDistinct | fpgrowth.py:23-30 | The header table's key order lists every counted item once |
| FPHeader.Counts | fpgrowth.py:23-27 | The header table has exactly the items that occur in some itemset |
| FPHeader.Kept | fpgrowth.py:30 | An item is kept exactly when its count reaches `minSup`, and keeps its count |
| FPHeader.Survivors | fpgrowth.py:30 | The kept items in their original key order |
| FPHeader.FilterIn | fpgrowth.py:42 | The itemset's items that are in the header table, in the same order |
| FPHeader.SortPermutes | fpgrowth.py:43 | Sorting by header frequency permutes the items |
| FPHeader.SortSorts | fpgrowth.py:43 | Sorting orders the items by frequency, in the requested direction |
| FPHeader.SortStable | fpgrowth.py:100 | Sorting keeps the original order among items of equal frequency |
| FPHeader.PreparedItems | fpgrowth.py:42-43 | A prepared itemset holds exactly the itemset's kept items, repeats none when the itemset repeats none, and is in non-increasing frequency order |
| FPGrowth.TallyOne | fpgrowth.py:27 | Counting one more occurrence, with the dictionary's default of 0, keeps the header counts equal to the weighted occurrence counts and the key order equal to first occurrences |
| FPGrowth.CountItemSet | fpgrowth.py:26-27 | Counting one itemset's items keeps the tally exact |
| FPGrowth.CountItems | fpgrowth.py:23-27 | The header table holds each occurring item's total weight over the itemsets containing it, with keys in first-occurrence order |
| FPGrowth.FrequentItems | fpgrowth.py:30 | The kept header table is the counts reaching `minSup`, and its key order is the survivors of the first-occurrence order |
| FPGrowth.InsertPath | fpgrowth.py:45-47 | Walking `updateTree` from the root inserts the itemset as one more path of its weight, keeping counts conserved and the header frequencies unchanged |
| FPGrowth.InsertItemSets | fpgrowth.py:41-47 | The inserted paths are exactly the prepared itemsets (kept items, by decreasing frequency) with their weights |
| FPGrowth.ConstructTree | fpgrowth.py:22-49 | No tree exactly when no item reaches `minSup`; otherwise a fresh valid tree whose header is the kept counts in first-occurrence order, each item once, and whose paths are the prepared itemsets with their weights |
| FPGrowth.ConditionalTree | fpgrowth.py:108-110 | The conditional pattern base has one weight per pattern, repeats no item within a pattern, and uses only header items other than the base item |
| FPGrowth.ConditionalTreeOf | fpgrowth.py:108-111 | The tree built from the item's conditional pattern base: none exactly when no pattern item reaches `minSup`; otherwise its header holds the kept pattern counts, its paths are the prepared patterns and its weights the pattern weights. It is valid, and its header holds only items of the parent header other than the base item, so it is strictly smaller |
| FPGrowth.MineItem | fpgrowth.py:104-114 | Appends `preFix + {item}` first, then only proper supersets of it, which extend `preFix` by header items; when no item of the conditional pattern base reaches `minSup`, it appends nothing more |
| FPGrowth.MineTree | fpgrowth.py:97-114 | Keeps the earlier list as a prefix and appends one segment per header item, in ascending frequency order (`SortByKey` with ties in table order): the item's `preFix + {x}` first, then only proper supersets of it, mined from its conditional tree. So each `preFix + {x}` is appended exactly once, before the sets of its recursion, and every appended set extends `preFix` by header items |
| FPGrowth.TiedItemsSplitPaths | fpgrowth.py:41-43 | For two distinct items met as `[a, b]` and `[b, a]` with `minSup` 2, both are kept with count 2 and each itemset keeps its own order when prepared, so the paths differ although the pair has support 2 |
| FPGrowth.MineAll | fpgrowth.py:162-163 | Mining from an empty prefix yields every header item alone, exactly once, and only non-empty sets of header items |
| FPGrowth.GetSupport | fpgrowth.py:119-124 | The count is the number of itemsets containing the test set |
| FPGrowth.RulesMembers | fpgrowth.py:126-135 | A rule is present exactly for a mined itemset whose support count exceeds the threshold, and carries count / number of itemsets |
| FPGrowth.AssociationRule | fpgrowth.py:126-135 | The rules are the mined itemsets, in order, whose count exceeds the threshold, each with its support ratio |
| FPGrowth.GetFrequencyFromList | fpgrowth.py:137-139 | One weight of 1 per itemset |
| FPGrowth.UnitCountIsSupport | fpgrowth.py:137-139 | With these unit weights an item's header count is its support |
| FPGrowth.UnitKeptAreFrequent | fpgrowth.py:30-32 | With unit weights the kept header items are exactly the items whose own support reaches `minSup` |
| FPGrowth.Run | fpgrowth.py:154-167 | Nothing exactly when no single item reaches `len * minSupRatio`; otherwise every frequent item is mined alone, every mined set is a non-empty set of frequent items, and the rules are those of `associationRule` given the ratio |

## Left out

- File input (`dataFromFile` in both files) is left out. The records or itemsets are parameters instead.
- File output (`savetxt`, the statistics and closed-itemset files, `printResults`, `display`, and the final sort by support) is left out, along with the command-line `__main__` blocks. These are I/O.
- `time.time()` calls are left out; they have no effect on results.
- Floating point is left out. Ratios and `len * minSupRatio` are exact `real`s, so rounding (including `round(support*100,1)`) is not modelled.
- `subsets` (apriori.py:17-19) and `powerset` (fpgrowth.py:116-117) are left out, because no modelled code calls them.
- Items are natural numbers compared only for equality. Python items from `eval` may be any hashable value.
- Node identity is not modelled. Nodes are arena indices, and the root's item name `'Null'` is a placeholder item 0 that no lookup reads.
- The shared `freqItemList` of `mineTree` is passed in and returned as a value rather than mutated through an alias. The result is the same list.
- FPGrowth.MineTree: states each call's segments, their order and that each `preFix + {x}` is appended once. It does not state which proper supersets a segment holds, that is, how the conditional tree's sets relate to the supports of the extended prefixes. It does not state that a set is appended once across different segments, because that is false: for tied items met in different orders, for example the itemsets `[a, b]` and `[b, a]` with `minSup` 1, `{a, b}` is appended in the segment of `a` and again in the segment of `b`.
- FPGrowth.Run: proves that the frequent single items are mined and that every mined set is a non-empty set of frequent items. It does not state that every frequent itemset is mined, because that is false: when tied items occur in different orders in different itemsets, a frequent itemset can be missed (`TiedItemsSplitPaths`). It does not state that every mined set is frequent: the count a set is mined with in a conditional tree is never above its support, but that bound is not proved. Nor does it state that each set is emitted once overall, which fails for tied items (see FPGrowth.MineTree).
- FPGrowth.MineAll: states that every header item is mined alone exactly once and that every mined set is a non-empty set of header items. It does not state that the mined sets are exactly the frequent itemsets, which fails for tied items met in different orders (see FPGrowth.Run). Nor does it state that larger mined sets appear once each, which fails for the same input (see FPGrowth.MineTree).
- FPGrowth.AssociationRule: requires a non-empty itemset list, a non-negative threshold or no mined sets. So the `ZeroDivisionError` that fpgrowth.py:133 raises for an empty list with a negative threshold and some mined set is not modelled. The one caller (fpgrowth.py:165) reaches it only with a non-empty list.
- FPTree.CountsConserved: the model states conservation per node. It does not state the consequence that the root's children's counts sum to the total weight of the itemsets with a kept item.
- FPGrowth.Run: requires the itemsets to be free of repeats, as the input frozensets are.
