/**
 * The Apriori miner: level-wise candidate generation, support counting by
 * subset scans into a shared frequency table, and the optional filter that
 * drops itemsets that are not closed.
 */
module Apriori {
  import opened Itemsets

  // ---------------------------------------------------------------------------
  // Specification: the itemsets each level of the search should hold
  // ---------------------------------------------------------------------------

  /** The transactions built from the input records, each record read as a set. */
  function TransactionsOf(data: seq<seq<Item>>): seq<ItemSet>
  {
    seq(|data|, i requires 0 <= i < |data| => Elems(data[i]))
  }

  /** The one-item itemsets over a set of items. */
  function Singletons(items: ItemSet): set<ItemSet>
  {
    set x | x in items :: {x}
  }

  /** The frequent itemsets with exactly `k` items. */
  function Level(transactions: seq<ItemSet>, minSupport: real, k: nat): set<ItemSet>
  {
    set c | c <= Universe(transactions) && |c| == k && Frequent(transactions, minSupport, c)
  }

  /** The number of frequent itemsets with 1 to `m` items. */
  function LevelSizes(transactions: seq<ItemSet>, minSupport: real, m: nat): nat
  {
    if m == 0 then 0 else LevelSizes(transactions, minSupport, m - 1) + |Level(transactions, minSupport, m)|
  }

  /** The candidates that survive a counting pass: those that meet the support threshold. */
  function Survivors(transactions: seq<ItemSet>, minSupport: real, candidates: set<ItemSet>): set<ItemSet>
  {
    set c | c in candidates && MeetsSupport(transactions, minSupport, c)
  }

  // ---------------------------------------------------------------------------
  // Candidate generation
  // ---------------------------------------------------------------------------

  /** Every union of two members of `itemSet` that has exactly `length` items. */
  function JoinSet(itemSet: set<ItemSet>, length: nat): set<ItemSet>
  {
    set i, j | i in itemSet && j in itemSet && |i + j| == length :: i + j
  }

  /** Joined candidates have the requested size and use only items of the joined sets. */
  lemma JoinSetSound(itemSet: set<ItemSet>, length: nat, items: ItemSet, c: ItemSet)
    requires forall s :: s in itemSet ==> s <= items
    requires c in JoinSet(itemSet, length)
    ensures |c| == length && c <= items
  {
    var i, j :| i in itemSet && j in itemSet && |i + j| == length && c == i + j;
  }

  /**
   * The join misses no candidate: a `k`-itemset (k >= 2) all of whose
   * (k-1)-item subsets are in `itemSet` is produced.
   */
  lemma JoinSetComplete(itemSet: set<ItemSet>, k: nat, c: ItemSet)
    requires k >= 2 && |c| == k
    requires forall x :: x in c ==> c - {x} in itemSet
    ensures c in JoinSet(itemSet, k)
  {
    var x :| x in c;
    assert |c - {x}| == k - 1;
    var y :| y in c - {x};
    var i, j := c - {x}, c - {y};
    assert i + j == c;
    assert i in itemSet && j in itemSet && |i + j| == k;
  }

  // ---------------------------------------------------------------------------
  // The levels of the search are exactly the frequent itemsets by size
  // ---------------------------------------------------------------------------

  /** A one-item set is a singleton. */
  lemma SingletonOf(c: ItemSet) returns (x: Item)
    requires |c| == 1
    ensures c == {x}
  {
    x :| x in c;
    assert |c - {x}| == 0;
    assert c == (c - {x}) + {x};
  }

  /** The first counting pass, over all singletons, yields exactly the first level. */
  lemma FirstLevel(transactions: seq<ItemSet>, minSupport: real)
    ensures Survivors(transactions, minSupport, Singletons(Universe(transactions))) == Level(transactions, minSupport, 1)
  {
    var u := Universe(transactions);
    forall c | c in Level(transactions, minSupport, 1)
      ensures c in Survivors(transactions, minSupport, Singletons(u))
    {
      var x := SingletonOf(c);
      assert x in u;
    }
  }

  /**
   * Joining level k-1 and keeping the survivors yields exactly level k: the
   * weaker union-of-any-two join still generates every frequent k-itemset.
   */
  lemma NextLevel(transactions: seq<ItemSet>, minSupport: real, k: nat)
    requires k >= 2
    ensures Survivors(transactions, minSupport, JoinSet(Level(transactions, minSupport, k - 1), k))
         == Level(transactions, minSupport, k)
  {
    var prev := Level(transactions, minSupport, k - 1);
    forall c | c in Survivors(transactions, minSupport, JoinSet(prev, k))
      ensures c in Level(transactions, minSupport, k)
    {
      JoinSetSound(prev, k, Universe(transactions), c);
    }
    forall c | c in Level(transactions, minSupport, k)
      ensures c in Survivors(transactions, minSupport, JoinSet(prev, k))
    {
      JoinedFromPrevious(transactions, minSupport, k, c);
    }
  }

  /** A frequent k-itemset is the join of two frequent (k-1)-itemsets, so the join produces it. */
  lemma JoinedFromPrevious(transactions: seq<ItemSet>, minSupport: real, k: nat, c: ItemSet)
    requires k >= 2 && c in Level(transactions, minSupport, k)
    ensures c in JoinSet(Level(transactions, minSupport, k - 1), k)
  {
    var prev := Level(transactions, minSupport, k - 1);
    forall x | x in c ensures c - {x} in prev {
      assert |c - {x}| == k - 1;
      FrequentDownwardClosed(transactions, minSupport, c - {x}, c);
      FrequentInLevel(transactions, minSupport, c - {x});
    }
    JoinSetComplete(prev, k, c);
  }

  /** A non-empty level `k` needs `k` distinct items, so the search stops after at most |universe| levels. */
  lemma LevelBounded(transactions: seq<ItemSet>, minSupport: real, k: nat)
    requires Level(transactions, minSupport, k) != {}
    ensures k <= |Universe(transactions)|
  {
    var c :| c in Level(transactions, minSupport, k);
    SubsetCardinality(c, Universe(transactions));
  }

  /** A frequent itemset with `k` or more items makes level `k` non-empty. */
  lemma LargeFrequentFillsLevel(transactions: seq<ItemSet>, minSupport: real, k: nat, c: ItemSet)
    requires k >= 1 && Frequent(transactions, minSupport, c) && |c| >= k
    ensures Level(transactions, minSupport, k) != {}
  {
    SubsetOfSize(c, k);
    var d :| d <= c && |d| == k;
    FrequentDownwardClosed(transactions, minSupport, d, c);
    FrequentInLevel(transactions, minSupport, d);
  }

  /** Once level `k` is empty, every frequent itemset has fewer than `k` items. */
  lemma EmptyLevelBoundsAll(transactions: seq<ItemSet>, minSupport: real, k: nat)
    requires k >= 1 && Level(transactions, minSupport, k) == {}
    ensures forall c :: Frequent(transactions, minSupport, c) ==> |c| < k
  {
    forall c | Frequent(transactions, minSupport, c) && |c| >= k ensures false {
      LargeFrequentFillsLevel(transactions, minSupport, k, c);
    }
  }

  /** Each frequent itemset is in the level of its size. */
  lemma FrequentInLevel(transactions: seq<ItemSet>, minSupport: real, c: ItemSet)
    requires Frequent(transactions, minSupport, c)
    ensures c in Level(transactions, minSupport, |c|)
  {
    SupportedWithinUniverse(transactions, c);
  }

  // ---------------------------------------------------------------------------
  // Reading the records
  // ---------------------------------------------------------------------------

  /**
   * Stores each record as a set and collects the one-item candidates: the
   * singletons of every item that occurs in some record.
   */
  method GetItemSetTransactionList(data: seq<seq<Item>>) returns (itemSet: set<ItemSet>, transactionList: seq<ItemSet>)
    ensures |transactionList| == |data|
    ensures forall i :: 0 <= i < |data| ==> transactionList[i] == Elems(data[i])
    ensures itemSet == Singletons(Universe(transactionList))
  {
    transactionList := [];
    itemSet := {};
    for r := 0 to |data|
      invariant |transactionList| == r
      invariant forall i :: 0 <= i < r ==> transactionList[i] == Elems(data[i])
      invariant itemSet == Singletons(Universe(transactionList))
    {
      var transaction := Elems(data[r]);
      UniverseAppend(transactionList, transaction);
      ghost var seen := Universe(transactionList);
      transactionList := transactionList + [transaction];
      var rest := transaction;
      while rest != {}
        invariant rest <= transaction
        invariant itemSet == Singletons(seen + (transaction - rest))
      {
        var item :| item in rest;
        itemSet := itemSet + {{item}};
        rest := rest - {item};
      }
    }
  }

  // ---------------------------------------------------------------------------
  // Support counting into the shared frequency table
  // ---------------------------------------------------------------------------

  /** The value a frequency table holds for `c`, 0 when absent. */
  function CountOf(counts: map<ItemSet, nat>, c: ItemSet): nat
  {
    if c in counts then counts[c] else 0
  }

  /**
   * The frequency table shared by every counting pass. It is never reset;
   * reading a missing itemset gives 0, as for a default dictionary.
   */
  class SupportCounter {
    var counts: map<ItemSet, nat>

    constructor ()
      ensures counts == map[]
    {
      counts := map[];
    }

    function Get(c: ItemSet): nat
      reads this
    {
      CountOf(counts, c)
    }
  }

  /**
   * The counting loop of a pass: adds the support of every candidate to
   * `freqSet`, and returns the pass's own table, which holds the candidates
   * found in at least one transaction with their support.
   */
  method CountSupport(itemSet: set<ItemSet>, transactionList: seq<ItemSet>, freqSet: SupportCounter)
    returns (localSet: map<ItemSet, nat>)
    modifies freqSet
    ensures forall c :: freqSet.Get(c) == old(freqSet.Get(c)) + (if c in itemSet then Support(transactionList, c) else 0)
    ensures forall c :: c in localSet <==> c in itemSet && Support(transactionList, c) > 0
    ensures forall c :: c in localSet ==> localSet[c] == Support(transactionList, c)
  {
    localSet := map[];
    var todo := itemSet;
    while todo != {}
      invariant todo <= itemSet
      invariant forall c :: freqSet.Get(c) == old(freqSet.Get(c))
                             + (if c in itemSet - todo then Support(transactionList, c) else 0)
      invariant forall c :: c in localSet <==> c in itemSet - todo && Support(transactionList, c) > 0
      invariant forall c :: c in localSet ==> localSet[c] == Support(transactionList, c)
    {
      var item :| item in todo;
      localSet := CountItem(item, transactionList, freqSet, localSet);
      todo := todo - {item};
    }
  }

  /**
   * The inner loop of a counting pass: one pass over the transactions adds
   * one to the entry of `item`, in `freqSet` and in the pass's own table,
   * for every transaction that contains it. The pass's table gets an entry
   * only if some transaction does.
   */
  method CountItem(item: ItemSet, transactionList: seq<ItemSet>, freqSet: SupportCounter,
                   localSet: map<ItemSet, nat>)
    returns (localSet': map<ItemSet, nat>)
    requires item !in localSet
    modifies freqSet
    ensures forall c :: freqSet.Get(c) == old(freqSet.Get(c)) + (if c == item then Support(transactionList, c) else 0)
    ensures localSet' == if Support(transactionList, item) > 0 then localSet[item := Support(transactionList, item)]
                         else localSet
  {
    localSet' := localSet;
    for t := 0 to |transactionList|
      invariant forall c :: freqSet.Get(c) == old(freqSet.Get(c)) + (if c == item then Support(transactionList[..t], c) else 0)
      invariant localSet' == if Support(transactionList[..t], item) > 0
                             then localSet[item := Support(transactionList[..t], item)] else localSet
    {
      SupportStep(transactionList, t, item);
      if item <= transactionList[t] {
        freqSet.counts := freqSet.counts[item := freqSet.Get(item) + 1];
        localSet' := localSet'[item := (if item in localSet' then localSet'[item] else 0) + 1];
      }
    }
    assert transactionList[..|transactionList|] == transactionList;
  }

  /**
   * The threshold loop of a pass: keeps the itemsets of the pass's table
   * whose count divided by the number of transactions reaches `minSupport`.
   */
  method KeepFrequent(localSet: map<ItemSet, nat>, transactionList: seq<ItemSet>, minSupport: real)
    returns (result: set<ItemSet>)
    requires forall c :: c in localSet ==> localSet[c] == Support(transactionList, c) > 0
    ensures result == Survivors(transactionList, minSupport, localSet.Keys)
  {
    result := {};
    var pending := localSet.Keys;
    while pending != {}
      invariant pending <= localSet.Keys
      invariant result == Survivors(transactionList, minSupport, localSet.Keys - pending)
    {
      var item :| item in pending;
      MeetsSupportRatio(transactionList, minSupport, item);
      var support := localSet[item] as real / |transactionList| as real;
      if support >= minSupport {
        result := result + {item};
      }
      pending := pending - {item};
    }
  }

  /**
   * One counting pass: adds the support of every candidate to `freqSet` and
   * returns the candidates that meet the threshold. A candidate contained in
   * no transaction is never returned, whatever `minSupport` is.
   */
  method ReturnItemsWithMinSupport(itemSet: set<ItemSet>, transactionList: seq<ItemSet>, minSupport: real,
                                   freqSet: SupportCounter)
    returns (result: set<ItemSet>)
    modifies freqSet
    ensures result == Survivors(transactionList, minSupport, itemSet)
    ensures forall c :: freqSet.Get(c) == old(freqSet.Get(c)) + (if c in itemSet then Support(transactionList, c) else 0)
  {
    var localSet := CountSupport(itemSet, transactionList, freqSet);
    result := KeepFrequent(localSet, transactionList, minSupport);
    assert Survivors(transactionList, minSupport, localSet.Keys) == Survivors(transactionList, minSupport, itemSet);
  }

  // ---------------------------------------------------------------------------
  // The closed-itemset filter
  // ---------------------------------------------------------------------------

  /**
   * `supset` shows that `item` is not closed: it contains `item` and its
   * recorded frequency is at least as high.
   */
  predicate Dominated(freqSet: SupportCounter, item: ItemSet, supset: ItemSet)
    reads freqSet
  {
    item <= supset && freqSet.Get(item) <= freqSet.Get(supset)
  }

  /**
   * The inner scan of the closed filter: looks through `itemSet` for an
   * itemset that `supset` dominates and stops at the first one found.
   */
  method FindDominated(itemSet: set<ItemSet>, supset: ItemSet, freqSet: SupportCounter)
    returns (found: bool, item: ItemSet)
    ensures found ==> item in itemSet && Dominated(freqSet, item, supset)
    ensures !found ==> forall c :: c in itemSet ==> !Dominated(freqSet, c, supset)
  {
    found, item := false, {};
    var scan := itemSet;
    while scan != {}
      invariant scan <= itemSet
      invariant forall c :: c in itemSet - scan ==> !Dominated(freqSet, c, supset)
    {
      var candidate :| candidate in scan;
      if Dominated(freqSet, candidate, supset) {
        return true, candidate;
      }
      scan := scan - {candidate};
    }
  }

  /**
   * For each itemset of the next level, removes from `itemSet` the first
   * itemset it dominates, if any, and stops looking (one removal per
   * superset). Returns what is left of `itemSet`; `minSupport` is not used.
   * The ghost map `dominator` records, for each removed itemset, the
   * superset that removed it.
   */
  method ReturnClosedItemsWithMinSupport(itemSet: set<ItemSet>, superSet: set<ItemSet>, minSupport: real,
                                         freqSet: SupportCounter)
    returns (kept: set<ItemSet>, ghost dominator: map<ItemSet, ItemSet>)
    ensures kept <= itemSet
    ensures dominator.Keys == itemSet - kept
    ensures forall c :: c in dominator ==> dominator[c] in superSet && Dominated(freqSet, c, dominator[c])
    ensures forall r1, r2 :: r1 in dominator && r2 in dominator && r1 != r2 ==> dominator[r1] != dominator[r2]
    ensures forall s, c :: s in superSet && c in kept && Dominated(freqSet, c, s) ==> s in dominator.Values
  {
    kept := itemSet;
    dominator := map[];
    var todo := superSet;
    ghost var done: set<ItemSet> := {};
    while todo != {}
      invariant todo !! done && todo + done == superSet
      invariant FilteredBy(itemSet, done, kept, dominator, freqSet)
    {
      var supset :| supset in todo;
      var found, item := FindDominated(kept, supset, freqSet);
      FilterStep(itemSet, done, kept, dominator, freqSet, supset, found, item);
      if found {
        kept := kept - {item};
        dominator := dominator[item := supset];
      }
      todo := todo - {supset};
      done := done + {supset};
    }
  }

  /**
   * What the closed filter has done once the supersets in `done` are
   * processed: each removed itemset is mapped to the distinct superset that
   * removed it, and no processed superset dominates an itemset still kept
   * without having removed one.
   */
  predicate FilteredBy(itemSet: set<ItemSet>, done: set<ItemSet>, kept: set<ItemSet>,
                       dominator: map<ItemSet, ItemSet>, freqSet: SupportCounter)
    reads freqSet
  {
    && kept <= itemSet
    && dominator.Keys == itemSet - kept
    && (forall c :: c in dominator ==> dominator[c] in done && Dominated(freqSet, c, dominator[c]))
    && (forall r1, r2 :: r1 in dominator && r2 in dominator && r1 != r2 ==> dominator[r1] != dominator[r2])
    && (forall s, c :: s in done && c in kept && Dominated(freqSet, c, s) ==> s in dominator.Values)
  }

  /** Processing one more superset, which removes `item` when `found`, keeps `FilteredBy`. */
  lemma FilterStep(itemSet: set<ItemSet>, done: set<ItemSet>, kept: set<ItemSet>,
                   dominator: map<ItemSet, ItemSet>, freqSet: SupportCounter,
                   supset: ItemSet, found: bool, item: ItemSet)
    requires FilteredBy(itemSet, done, kept, dominator, freqSet) && supset !in done
    requires found ==> item in kept && Dominated(freqSet, item, supset)
    requires !found ==> forall c :: c in kept ==> !Dominated(freqSet, c, supset)
    ensures FilteredBy(itemSet, done + {supset}, if found then kept - {item} else kept,
                       if found then dominator[item := supset] else dominator, freqSet)
  {
    if found {
      FilterRemove(itemSet, done, kept, dominator, freqSet, supset, item);
    }
  }

  /** The removal case of `FilterStep`. */
  lemma FilterRemove(itemSet: set<ItemSet>, done: set<ItemSet>, kept: set<ItemSet>,
                     dominator: map<ItemSet, ItemSet>, freqSet: SupportCounter, supset: ItemSet, item: ItemSet)
    requires FilteredBy(itemSet, done, kept, dominator, freqSet) && supset !in done
    requires item in kept && Dominated(freqSet, item, supset)
    ensures FilteredBy(itemSet, done + {supset}, kept - {item}, dominator[item := supset], freqSet)
  {
    var dominator' := dominator[item := supset];
    assert itemSet - (kept - {item}) == (itemSet - kept) + {item};
    forall s | s in dominator.Values ensures s in dominator'.Values {
      var r :| r in dominator && dominator[r] == s;
      assert dominator'[r] == s;
    }
    assert dominator'[item] == supset;
  }

  /**
   * The filter removes at most one itemset per superset: the removed
   * itemsets are no more than the supersets.
   */
  lemma FilterRemovesAtMostOnePerSuperset(itemSet: set<ItemSet>, superSet: set<ItemSet>, kept: set<ItemSet>,
                                          dominator: map<ItemSet, ItemSet>)
    requires dominator.Keys == itemSet - kept
    requires forall c :: c in dominator ==> dominator[c] in superSet
    requires forall r1, r2 :: r1 in dominator && r2 in dominator && r1 != r2 ==> dominator[r1] != dominator[r2]
    ensures |itemSet - kept| <= |superSet|
  {
    InjectiveValues(dominator);
    SubsetCardinality(dominator.Values, superSet);
  }

  /** A map that sends distinct keys to distinct values has as many values as keys. */
  lemma {:induction false} InjectiveValues<K, V>(m: map<K, V>)
    requires forall r1, r2 :: r1 in m && r2 in m && r1 != r2 ==> m[r1] != m[r2]
    ensures |m.Values| == |m.Keys|
    decreases |m.Keys|
  {
    if m.Keys != {} {
      var r :| r in m;
      var m' := m - {r};
      assert m'.Keys == m.Keys - {r};
      assert m'.Values == m.Values - {m[r]} by {
        forall v | v in m.Values - {m[r]} ensures v in m'.Values {
          var r' :| r' in m && m[r'] == v;
          assert m'[r'] == v;
        }
      }
      InjectiveValues(m');
    }
  }

  // ---------------------------------------------------------------------------
  // The mining loop and the result
  // ---------------------------------------------------------------------------

  /**
   * `c` is not closed, as witnessed one level up: some frequent itemset with
   * one more item has the same support.
   */
  ghost predicate HasEqualSupportExtension(transactions: seq<ItemSet>, minSupport: real, c: ItemSet)
  {
    exists d :: EqualSupportExtension(transactions, minSupport, c, d)
  }

  /** `d` is a frequent superset of `c` with one more item and the same support. */
  ghost predicate EqualSupportExtension(transactions: seq<ItemSet>, minSupport: real, c: ItemSet, d: ItemSet)
  {
    Frequent(transactions, minSupport, d) && |d| == |c| + 1 && c <= d
    && Support(transactions, d) == Support(transactions, c)
  }

  /** No itemset occurs twice in `s` from position `from` on. */
  predicate NoRepeats(s: seq<(ItemSet, real)>, from: nat)
  {
    forall i, j :: from <= i < j < |s| ==> s[i].0 != s[j].0
  }

  lemma NoRepeatsAppend(s: seq<(ItemSet, real)>, from: nat, c: ItemSet, r: real)
    requires NoRepeats(s, from)
    requires forall i :: from <= i < |s| ==> s[i].0 != c
    ensures NoRepeats(s + [(c, r)], from)
  {
    var t := s + [(c, r)];
    forall i, j | from <= i < j < |t| ensures t[i].0 != t[j].0 {
      assert t[i] == s[i];
      if j < |s| {
        assert t[j] == s[j];
      }
    }
  }

  /** The recorded frequency of `c` as a fraction of `n` transactions. */
  function RecordedRatio(freqSet: SupportCounter, c: ItemSet, n: nat): real
    reads freqSet
  {
    if n == 0 then 0.0 else freqSet.Get(c) as real / n as real
  }

  /** What `ExtendWithSupport` has built once the itemsets in `done` are appended. */
  predicate Extended(acc: seq<(ItemSet, real)>, out: seq<(ItemSet, real)>, done: set<ItemSet>,
                     freqSet: SupportCounter, n: nat)
    reads freqSet
  {
    && |out| == |acc| + |done| && out[..|acc|] == acc
    && (forall i :: |acc| <= i < |out| ==> out[i].0 in done && out[i].1 == RecordedRatio(freqSet, out[i].0, n))
    && (forall c :: c in done ==> exists i :: |acc| <= i < |out| && out[i].0 == c)
    && NoRepeats(out, |acc|)
  }

  lemma ExtendedStep(acc: seq<(ItemSet, real)>, out: seq<(ItemSet, real)>, done: set<ItemSet>,
                     freqSet: SupportCounter, n: nat, item: ItemSet)
    requires Extended(acc, out, done, freqSet, n) && item !in done && n > 0
    ensures Extended(acc, out + [(item, freqSet.Get(item) as real / n as real)], done + {item}, freqSet, n)
  {
    var support := freqSet.Get(item) as real / n as real;
    var next := out + [(item, support)];
    assert next[..|acc|] == acc by {
      assert next[..|out|] == out;
    }
    forall c | c in done + {item} ensures exists i :: |acc| <= i < |next| && next[i].0 == c {
      if c == item {
        assert next[|next| - 1].0 == c;
      } else {
        var i :| |acc| <= i < |out| && out[i].0 == c;
        assert next[i] == out[i];
      }
    }
    forall i | |acc| <= i < |next|
      ensures next[i].0 in done + {item} && next[i].1 == RecordedRatio(freqSet, next[i].0, n)
    {
      if i < |out| {
        assert next[i] == out[i];
      }
    }
    NoRepeatsAppend(out, |acc|, item, support);
  }

  /**
   * Appends one stored level to the result, pairing each itemset with its
   * recorded frequency divided by the number of transactions `n`.
   */
  method ExtendWithSupport(acc: seq<(ItemSet, real)>, level: set<ItemSet>, freqSet: SupportCounter, n: nat)
    returns (out: seq<(ItemSet, real)>)
    requires level != {} ==> n > 0
    ensures Extended(acc, out, level, freqSet, n)
  {
    out := acc;
    var rest := level;
    ghost var done: set<ItemSet> := {};
    while rest != {}
      invariant done !! rest && done + rest == level
      invariant Extended(acc, out, done, freqSet, n)
    {
      var item :| item in rest;
      ExtendedStep(acc, out, done, freqSet, n, item);
      var support := freqSet.Get(item) as real / n as real;
      out := out + [(item, support)];
      rest := rest - {item};
      done := done + {item};
    }
  }

  // ---------------------------------------------------------------------------
  // The mining loop: what holds after levels 1 .. k-1 have been found
  // ---------------------------------------------------------------------------


  /**
   * The frequency table once the candidates of sizes 1 .. k-1 are counted:
   * every entry is either untouched or the true support, nothing of size `k`
   * or more is recorded yet, and every frequent itemset below size `k` is.
   */
  ghost predicate CountedBelow(transactions: seq<ItemSet>, minSupport: real, counts: map<ItemSet, nat>, k: nat)
  {
    && (forall c :: CountOf(counts, c) == 0 || CountOf(counts, c) == Support(transactions, c))
    && (forall c :: |c| >= k ==> CountOf(counts, c) == 0)
    && (forall c :: Frequent(transactions, minSupport, c) && |c| < k ==> CountOf(counts, c) == Support(transactions, c))
  }

  /**
   * What the search stores for level `j`: without `closed` exactly the
   * level; with `closed` part of it, and every frequent `j`-itemset left out
   * is shown not to be closed by the frequent superset one item larger that
   * `w` records for it.
   */
  ghost predicate StoredLevel(transactions: seq<ItemSet>, minSupport: real, closed: bool, j: nat, s: set<ItemSet>,
                              w: map<ItemSet, ItemSet>)
  {
    && s <= Level(transactions, minSupport, j)
    && (!closed ==> s == Level(transactions, minSupport, j))
    && (closed ==> forall c :: c in Level(transactions, minSupport, j) && c !in s ==>
                    c in w && EqualSupportExtension(transactions, minSupport, c, w[c]))
  }

  /**
   * The stored levels once levels 1 .. k-2 are stored, each as `StoredLevel`
   * says; in closed mode the closed table and the level table hold the same
   * sets.
   */
  ghost predicate StoredBelow(transactions: seq<ItemSet>, minSupport: real, closed: bool, k: nat,
                              largeSet: map<nat, set<ItemSet>>, closeSet: map<nat, set<ItemSet>>,
                              witnesses: map<nat, map<ItemSet, ItemSet>>)
  {
    && (forall j :: j in largeSet <==> 1 <= j <= k - 2)
    && |largeSet| == k - 2
    && (forall j :: j in largeSet ==>
          j in witnesses && StoredLevel(transactions, minSupport, closed, j, largeSet[j], witnesses[j]))
    && (closed ==> closeSet == largeSet)
  }

  /** The empty table before any counting pass. */
  lemma CountedInitially(transactions: seq<ItemSet>, minSupport: real)
    ensures CountedBelow(transactions, minSupport, map[], 1)
  {
  }

  /**
   * A counting pass over candidates of size `k` that include level `k`
   * extends the table by one size.
   */
  lemma CountedStep(transactions: seq<ItemSet>, minSupport: real, k: nat,
                    before: map<ItemSet, nat>, after: map<ItemSet, nat>, candidates: set<ItemSet>)
    requires CountedBelow(transactions, minSupport, before, k)
    requires forall c :: c in candidates ==> |c| == k
    requires Survivors(transactions, minSupport, candidates) == Level(transactions, minSupport, k)
    requires forall c :: CountOf(after, c) == CountOf(before, c) + (if c in candidates then Support(transactions, c) else 0)
    ensures CountedBelow(transactions, minSupport, after, k + 1)
  {
    forall c | Frequent(transactions, minSupport, c) && |c| < k + 1
      ensures CountOf(after, c) == Support(transactions, c)
    {
      if |c| == k {
        FrequentInLevel(transactions, minSupport, c);
        assert c in Survivors(transactions, minSupport, candidates);
      }
    }
  }

  /**
   * An itemset the closed filter removed from level k-1 is not closed: the
   * dominating superset comes from level k, and with both supports recorded
   * the superset's cannot be smaller, so they are equal.
   */
  lemma RemovalJustified(transactions: seq<ItemSet>, minSupport: real, k: nat, freqSet: SupportCounter,
                         current: set<ItemSet>, next: set<ItemSet>, kept: set<ItemSet>,
                         dominator: map<ItemSet, ItemSet>)
    requires k >= 2 && CountedBelow(transactions, minSupport, freqSet.counts, k + 1)
    requires current == Level(transactions, minSupport, k - 1) && next == Level(transactions, minSupport, k)
    requires dominator.Keys == current - kept
    requires forall c :: c in dominator ==> dominator[c] in next && Dominated(freqSet, c, dominator[c])
    requires kept <= current
    ensures StoredLevel(transactions, minSupport, true, k - 1, kept, dominator)
  {
    forall c | c in current && c !in kept
      ensures c in dominator && EqualSupportExtension(transactions, minSupport, c, dominator[c])
    {
      assert c in dominator;
      SupportAntitone(transactions, c, dominator[c]);
    }
  }

  /** Storing level k-1 as `kept` extends the stored levels by one. */
  lemma StoredStep(transactions: seq<ItemSet>, minSupport: real, closed: bool, k: nat,
                   largeSet: map<nat, set<ItemSet>>, closeSet: map<nat, set<ItemSet>>,
                   witnesses: map<nat, map<ItemSet, ItemSet>>, kept: set<ItemSet>, w: map<ItemSet, ItemSet>)
    requires k >= 2 && StoredBelow(transactions, minSupport, closed, k, largeSet, closeSet, witnesses)
    requires StoredLevel(transactions, minSupport, closed, k - 1, kept, w)
    ensures StoredBelow(transactions, minSupport, closed, k + 1, largeSet[k - 1 := kept],
                        if closed then closeSet[k - 1 := kept] else closeSet, witnesses[k - 1 := w])
  {
    KeysExtend(largeSet, k, kept, largeSet[k - 1 := kept]);
    StoredLevelsExtend(transactions, minSupport, closed, k - 1, largeSet, witnesses, kept, w,
                       largeSet[k - 1 := kept], witnesses[k - 1 := w]);
  }

  /** A table keyed 1 .. k-2 gains key k-1. */
  lemma KeysExtend<V>(m: map<nat, V>, k: nat, v: V, m': map<nat, V>)
    requires k >= 2 && (forall j :: j in m <==> 1 <= j <= k - 2) && |m| == k - 2
    requires m' == m[k - 1 := v]
    ensures (forall j :: j in m' <==> 1 <= j <= k - 1) && |m'| == k - 1
  {
    assert k - 1 !in m;
    assert m'.Keys == m.Keys + {k - 1};
  }

  /** Storing one more level, with its witnesses, keeps every stored level as `StoredLevel` says. */
  lemma StoredLevelsExtend(transactions: seq<ItemSet>, minSupport: real, closed: bool, key: nat,
                           largeSet: map<nat, set<ItemSet>>, witnesses: map<nat, map<ItemSet, ItemSet>>,
                           kept: set<ItemSet>, w: map<ItemSet, ItemSet>,
                           large: map<nat, set<ItemSet>>, ws: map<nat, map<ItemSet, ItemSet>>)
    requires forall j :: j in largeSet ==>
               j in witnesses && StoredLevel(transactions, minSupport, closed, j, largeSet[j], witnesses[j])
    requires StoredLevel(transactions, minSupport, closed, key, kept, w)
    requires large == largeSet[key := kept] && ws == witnesses[key := w]
    ensures forall j :: j in large ==> j in ws && StoredLevel(transactions, minSupport, closed, j, large[j], ws[j])
  {
    forall j | j in large ensures j in ws && StoredLevel(transactions, minSupport, closed, j, large[j], ws[j]) {
      if j != key {
        assert large[j] == largeSet[j] && ws[j] == witnesses[j];
      }
    }
  }

  /**
   * The closed branch of one pass: storing the thinned level under key k-1
   * in both tables extends the stored levels, and the running total grows
   * by the k-1 keys the closed table now has.
   */
  lemma ClosedStep(transactions: seq<ItemSet>, minSupport: real, k: nat, current: set<ItemSet>, kept: set<ItemSet>,
                   largeSet: map<nat, set<ItemSet>>, closeSet: map<nat, set<ItemSet>>,
                   witnesses: map<nat, map<ItemSet, ItemSet>>, w: map<ItemSet, ItemSet>, closeCount: nat)
    requires k >= 2 && StoredBelow(transactions, minSupport, true, k, largeSet, closeSet, witnesses)
    requires closeCount == TriangleSum(k - 2)
    requires StoredLevel(transactions, minSupport, true, k - 1, kept, w)
    ensures StoredBelow(transactions, minSupport, true, k + 1, largeSet[k - 1 := current][k - 1 := kept],
                        closeSet[k - 1 := kept], witnesses[k - 1 := w])
    ensures closeCount + |closeSet[k - 1 := kept]| == TriangleSum(k - 1)
  {
    StoredStep(transactions, minSupport, true, k, largeSet, closeSet, witnesses, kept, w);
    MapOverwrite(largeSet, k - 1, current, kept);
  }

  /** The pieces of one pass put together give the search state one level on. */
  lemma StepState(transactions: seq<ItemSet>, minSupport: real, closed: bool, k: nat,
                  currentLSet: set<ItemSet>, largeSet: map<nat, set<ItemSet>>,
                  closeSet: map<nat, set<ItemSet>>, witnesses: map<nat, map<ItemSet, ItemSet>>,
                  counts: map<ItemSet, nat>, count: nat, closeCount: nat,
                  nextLSet: set<ItemSet>, largeSet': map<nat, set<ItemSet>>, closeSet': map<nat, set<ItemSet>>,
                  witnesses': map<nat, map<ItemSet, ItemSet>>, counts': map<ItemSet, nat>, count': nat, closeCount': nat)
    requires SearchState(transactions, minSupport, closed, k, currentLSet, largeSet, closeSet, witnesses,
                         counts, count, closeCount)
    requires currentLSet != {}
    requires nextLSet == Level(transactions, minSupport, k)
    requires StoredBelow(transactions, minSupport, closed, k + 1, largeSet', closeSet', witnesses')
    requires CountedBelow(transactions, minSupport, counts', k + 1)
    requires closeCount' == if closed then TriangleSum(k - 1) else 0
    requires count' == count + |nextLSet|
    ensures SearchState(transactions, minSupport, closed, k + 1, nextLSet, largeSet', closeSet', witnesses',
                        counts', count', closeCount')
  {
    assert count' == LevelSizes(transactions, minSupport, k);
    assert forall j :: 1 <= j < k ==> Level(transactions, minSupport, j) != {};
  }

  /** A second store under the same key replaces the first. */
  lemma MapOverwrite<K, V>(m: map<K, V>, key: K, first: V, second: V)
    ensures m[key := first][key := second] == m[key := second]
  {
  }

  /** 1 + 2 + ... + m: the closed mode's running total after `m` levels. */
  function TriangleSum(m: nat): nat
  {
    if m == 0 then 0 else TriangleSum(m - 1) + m
  }

  lemma {:induction false} TriangleSumClosed(m: nat)
    ensures 2 * TriangleSum(m) == m * (m + 1)
  {
    if m > 0 {
      TriangleSumClosed(m - 1);
    }
  }

  /** The number of itemsets stored under keys 1 .. m. */
  function StoredSize(stored: map<nat, set<ItemSet>>, m: nat): nat
  {
    if m == 0 then 0 else StoredSize(stored, m - 1) + (if m in stored then |stored[m]| else 0)
  }

  /** When every stored level is complete, the stored sizes are the level sizes. */
  lemma {:induction false} StoredSizeOfLevels(transactions: seq<ItemSet>, minSupport: real,
                                              stored: map<nat, set<ItemSet>>, m: nat)
    requires forall j :: 1 <= j <= m ==> j in stored && stored[j] == Level(transactions, minSupport, j)
    ensures StoredSize(stored, m) == LevelSizes(transactions, minSupport, m)
  {
    if m > 0 {
      StoredSizeOfLevels(transactions, minSupport, stored, m - 1);
    }
  }

  // ---------------------------------------------------------------------------
  // Result assembly
  // ---------------------------------------------------------------------------

  /** What the result holds once the stored levels 1 .. done are appended. */
  predicate Collected(items: seq<(ItemSet, real)>, stored: map<nat, set<ItemSet>>, done: nat,
                      freqSet: SupportCounter, n: nat)
    reads freqSet
  {
    && CollectedEntries(items, stored, done, freqSet, n)
    && CollectedCover(items, stored, done)
    && NoRepeats(items, 0)
    && BySize(items)
    && |items| == StoredSize(stored, done)
  }

  /** Every entry is a stored itemset of a level up to `done`, with its recorded ratio. */
  predicate CollectedEntries(items: seq<(ItemSet, real)>, stored: map<nat, set<ItemSet>>, done: nat,
                             freqSet: SupportCounter, n: nat)
    reads freqSet
  {
    forall i :: 0 <= i < |items| ==>
      1 <= |items[i].0| <= done && |items[i].0| in stored && items[i].0 in stored[|items[i].0|]
      && items[i].1 == RecordedRatio(freqSet, items[i].0, n)
  }

  /** Every itemset stored under keys 1 .. done is an entry. */
  predicate CollectedCover(items: seq<(ItemSet, real)>, stored: map<nat, set<ItemSet>>, done: nat)
  {
    forall j, c :: 1 <= j <= done && j in stored && c in stored[j] ==> exists i :: 0 <= i < |items| && items[i].0 == c
  }

  /** Entries come by ascending itemset size. */
  predicate BySize(items: seq<(ItemSet, real)>)
  {
    forall i, j :: 0 <= i <= j < |items| ==> |items[i].0| <= |items[j].0|
  }

  /** Appending level `key` to a result that holds levels 1 .. key-1 gives one that holds 1 .. key. */
  lemma CollectedStep(items: seq<(ItemSet, real)>, out: seq<(ItemSet, real)>, stored: map<nat, set<ItemSet>>,
                      key: nat, freqSet: SupportCounter, n: nat)
    requires key >= 1 && Collected(items, stored, key - 1, freqSet, n)
    requires key in stored && forall c :: c in stored[key] ==> |c| == key
    requires Extended(items, out, stored[key], freqSet, n)
    ensures Collected(out, stored, key, freqSet, n)
  {
    CollectedEntriesStep(items, out, stored, key, freqSet, n);
    CollectedCoverStep(items, out, stored, key, freqSet, n);
    CollectedOrderStep(items, out, stored, key, freqSet, n);
  }

  /** Appending keeps the earlier entries where they were. */
  lemma PrefixKept(items: seq<(ItemSet, real)>, out: seq<(ItemSet, real)>)
    requires |items| <= |out| && out[..|items|] == items
    ensures forall i :: 0 <= i < |items| ==> out[i] == items[i]
  {
    forall i | 0 <= i < |items| ensures out[i] == items[i] {
      assert out[..|items|][i] == out[i];
    }
  }

  lemma CollectedEntriesStep(items: seq<(ItemSet, real)>, out: seq<(ItemSet, real)>, stored: map<nat, set<ItemSet>>,
                             key: nat, freqSet: SupportCounter, n: nat)
    requires key >= 1 && CollectedEntries(items, stored, key - 1, freqSet, n)
    requires key in stored && forall c :: c in stored[key] ==> |c| == key
    requires Extended(items, out, stored[key], freqSet, n)
    ensures CollectedEntries(out, stored, key, freqSet, n)
  {
    PrefixKept(items, out);
  }

  lemma CollectedCoverStep(items: seq<(ItemSet, real)>, out: seq<(ItemSet, real)>, stored: map<nat, set<ItemSet>>,
                           key: nat, freqSet: SupportCounter, n: nat)
    requires key >= 1 && CollectedCover(items, stored, key - 1)
    requires key in stored
    requires Extended(items, out, stored[key], freqSet, n)
    ensures CollectedCover(out, stored, key)
  {
    PrefixKept(items, out);
    forall j, c | 1 <= j <= key && j in stored && c in stored[j]
      ensures exists i :: 0 <= i < |out| && out[i].0 == c
    {
      if j < key {
        var i :| 0 <= i < |items| && items[i].0 == c;
        assert out[i].0 == c;
      }
    }
  }

  lemma CollectedOrderStep(items: seq<(ItemSet, real)>, out: seq<(ItemSet, real)>, stored: map<nat, set<ItemSet>>,
                           key: nat, freqSet: SupportCounter, n: nat)
    requires key >= 1 && CollectedEntries(items, stored, key - 1, freqSet, n)
    requires BySize(items) && NoRepeats(items, 0)
    requires key in stored && forall c :: c in stored[key] ==> |c| == key
    requires Extended(items, out, stored[key], freqSet, n)
    ensures BySize(out) && NoRepeats(out, 0)
  {
    PrefixKept(items, out);
    forall i, j | 0 <= i < j < |out| ensures out[i].0 != out[j].0 {
      if i < |items| && j >= |items| {
        assert |out[i].0| < |out[j].0|;
      }
    }
  }

  /**
   * Appends the stored levels 1 .. levels in key order, each itemset with its
   * recorded frequency divided by `n`.
   */
  method CollectLevels(stored: map<nat, set<ItemSet>>, levels: nat, freqSet: SupportCounter, n: nat)
    returns (items: seq<(ItemSet, real)>)
    requires forall j :: 1 <= j <= levels ==> j in stored && forall c :: c in stored[j] ==> |c| == j
    requires n > 0 || forall j :: 1 <= j <= levels ==> stored[j] == {}
    ensures forall i :: 0 <= i < |items| ==>
              1 <= |items[i].0| <= levels && items[i].0 in stored[|items[i].0|]
              && items[i].1 == RecordedRatio(freqSet, items[i].0, n)
    ensures forall j, c :: 1 <= j <= levels && c in stored[j] ==> exists i :: 0 <= i < |items| && items[i].0 == c
    ensures forall i, j :: 0 <= i < j < |items| ==> items[i].0 != items[j].0
    ensures forall i, j :: 0 <= i <= j < |items| ==> |items[i].0| <= |items[j].0|
    ensures |items| == StoredSize(stored, levels)
  {
    items := [];
    for key := 1 to levels + 1
      invariant Collected(items, stored, key - 1, freqSet, n)
    {
      var out := ExtendWithSupport(items, stored[key], freqSet, n);
      CollectedStep(items, out, stored, key, freqSet, n);
      items := out;
    }
  }

  /** The stored table handed to the result assembly holds, under each key, itemsets of that size. */
  lemma StoredShape(transactions: seq<ItemSet>, minSupport: real, closed: bool, k: nat,
                    largeSet: map<nat, set<ItemSet>>, closeSet: map<nat, set<ItemSet>>,
                    witnesses: map<nat, map<ItemSet, ItemSet>>)
    requires k >= 2 && StoredBelow(transactions, minSupport, closed, k, largeSet, closeSet, witnesses)
    ensures var stored := if closed then closeSet else largeSet;
            && (forall j :: 1 <= j <= k - 2 ==> j in stored && forall c :: c in stored[j] ==> |c| == j)
            && (|transactions| > 0 || forall j :: 1 <= j <= k - 2 ==> stored[j] == {})
  {
    var stored := if closed then closeSet else largeSet;
    forall j | 1 <= j <= k - 2 ensures j in stored && stored[j] <= Level(transactions, minSupport, j) {
    }
  }

  /**
   * Once level k-1 is empty there is no frequent itemset with k-1 or more
   * items, and the sizes of levels 1 .. k-1 add up to those of 1 .. k-2.
   */
  lemma SearchExhausted(transactions: seq<ItemSet>, minSupport: real, k: nat)
    requires k >= 2 && Level(transactions, minSupport, k - 1) == {}
    ensures forall c :: Frequent(transactions, minSupport, c) ==> |c| <= k - 2
    ensures LevelSizes(transactions, minSupport, k - 1) == LevelSizes(transactions, minSupport, k - 2)
  {
    EmptyLevelBoundsAll(transactions, minSupport, k - 1);
  }

  /** Every stored itemset is frequent, and its recorded frequency is its true support ratio. */
  lemma ResultEntries(transactions: seq<ItemSet>, minSupport: real, k: nat,
                      stored: map<nat, set<ItemSet>>, freqSet: SupportCounter, items: seq<(ItemSet, real)>)
    requires forall j :: 1 <= j <= k - 2 ==> j in stored && stored[j] <= Level(transactions, minSupport, j)
    requires CountedBelow(transactions, minSupport, freqSet.counts, k)
    requires forall i :: 0 <= i < |items| ==>
               1 <= |items[i].0| <= k - 2 && items[i].0 in stored[|items[i].0|]
               && items[i].1 == RecordedRatio(freqSet, items[i].0, |transactions|)
    ensures forall i :: 0 <= i < |items| ==>
              Frequent(transactions, minSupport, items[i].0) && items[i].1 == Ratio(transactions, items[i].0)
  {
    forall i | 0 <= i < |items|
      ensures Frequent(transactions, minSupport, items[i].0) && items[i].1 == Ratio(transactions, items[i].0)
    {
      var c := items[i].0;
      assert c in Level(transactions, minSupport, |c|);
      assert freqSet.Get(c) == Support(transactions, c);
    }
  }

  /** With every level stored whole, every frequent itemset is in the result. */
  lemma ResultComplete(transactions: seq<ItemSet>, minSupport: real, k: nat,
                       stored: map<nat, set<ItemSet>>, items: seq<(ItemSet, real)>)
    requires k >= 2 && Level(transactions, minSupport, k - 1) == {}
    requires forall j :: 1 <= j <= k - 2 ==> j in stored && stored[j] == Level(transactions, minSupport, j)
    requires forall j, c :: 1 <= j <= k - 2 && c in stored[j] ==> exists i :: 0 <= i < |items| && items[i].0 == c
    ensures forall c :: Frequent(transactions, minSupport, c) ==> exists i :: 0 <= i < |items| && items[i].0 == c
  {
    EmptyLevelBoundsAll(transactions, minSupport, k - 1);
    forall c | Frequent(transactions, minSupport, c) ensures exists i :: 0 <= i < |items| && items[i].0 == c {
      FrequentInLevel(transactions, minSupport, c);
      assert c in stored[|c|];
    }
  }

  /**
   * With the levels thinned by the closed filter, every frequent itemset
   * missing from the result has a recorded frequent extension of equal
   * support, so it is not closed.
   */
  lemma ResultClosed(transactions: seq<ItemSet>, minSupport: real, k: nat,
                     stored: map<nat, set<ItemSet>>, witnesses: map<nat, map<ItemSet, ItemSet>>,
                     items: seq<(ItemSet, real)>)
    requires k >= 2 && Level(transactions, minSupport, k - 1) == {}
    requires forall j :: 1 <= j <= k - 2 ==>
               j in stored && j in witnesses && StoredLevel(transactions, minSupport, true, j, stored[j], witnesses[j])
    requires forall j, c :: 1 <= j <= k - 2 && c in stored[j] ==> exists i :: 0 <= i < |items| && items[i].0 == c
    ensures forall c ::
              (Frequent(transactions, minSupport, c) && forall i :: 0 <= i < |items| ==> items[i].0 != c)
              ==> HasEqualSupportExtension(transactions, minSupport, c)
  {
    EmptyLevelBoundsAll(transactions, minSupport, k - 1);
    forall c | Frequent(transactions, minSupport, c) && forall i :: 0 <= i < |items| ==> items[i].0 != c
      ensures HasEqualSupportExtension(transactions, minSupport, c)
    {
      FrequentInLevel(transactions, minSupport, c);
      var j := |c|;
      assert c !in stored[j];
      var w := witnesses[j];
      assert c in w && EqualSupportExtension(transactions, minSupport, c, w[c]);
    }
  }

  /** The state of the search once levels 1 .. k-1 are found and level k-1 is current. */
  ghost predicate SearchState(transactions: seq<ItemSet>, minSupport: real, closed: bool, k: nat,
                              currentLSet: set<ItemSet>, largeSet: map<nat, set<ItemSet>>,
                              closeSet: map<nat, set<ItemSet>>, witnesses: map<nat, map<ItemSet, ItemSet>>,
                              counts: map<ItemSet, nat>, count: nat, closeCount: nat)
  {
    && k >= 2
    && currentLSet == Level(transactions, minSupport, k - 1)
    && (forall j :: 1 <= j < k - 1 ==> Level(transactions, minSupport, j) != {})
    && StoredBelow(transactions, minSupport, closed, k, largeSet, closeSet, witnesses)
    && CountedBelow(transactions, minSupport, counts, k)
    && closeCount == (if closed then TriangleSum(k - 2) else 0)
    && count == LevelSizes(transactions, minSupport, k - 1)
  }

  /**
   * One pass of the mining loop: store the current level, join it into
   * candidates one item larger, count them, and in closed mode thin the
   * stored level with the closed filter. The next level is again exactly the
   * frequent itemsets of its size.
   */
  method SearchStep(transactionList: seq<ItemSet>, minSupport: real, closed: bool, freqSet: SupportCounter,
                    k: nat, currentLSet: set<ItemSet>, largeSet: map<nat, set<ItemSet>>,
                    closeSet: map<nat, set<ItemSet>>, ghost witnesses: map<nat, map<ItemSet, ItemSet>>,
                    count: nat, closeCount: nat)
    returns (nextLSet: set<ItemSet>, largeSet': map<nat, set<ItemSet>>, closeSet': map<nat, set<ItemSet>>,
             ghost witnesses': map<nat, map<ItemSet, ItemSet>>, count': nat, closeCount': nat)
    requires currentLSet != {}
    requires SearchState(transactionList, minSupport, closed, k, currentLSet, largeSet, closeSet, witnesses,
                         freqSet.counts, count, closeCount)
    modifies freqSet
    ensures SearchState(transactionList, minSupport, closed, k + 1, nextLSet, largeSet', closeSet', witnesses',
                        freqSet.counts, count', closeCount')
  {
    ghost var T := transactionList;
    largeSet' := largeSet[k - 1 := currentLSet];
    closeSet' := closeSet;
    var currentCSet := JoinSet(currentLSet, k);
    forall c | c in currentCSet ensures |c| == k {
      JoinSetSound(currentLSet, k, Universe(T), c);
    }
    ghost var countsBefore, candidates := freqSet.counts, currentCSet;
    currentCSet := ReturnItemsWithMinSupport(currentCSet, transactionList, minSupport, freqSet);
    NextLevel(T, minSupport, k);
    CountedStep(T, minSupport, k, countsBefore, freqSet.counts, candidates);
    if closed {
      var thinned, dominator := ReturnClosedItemsWithMinSupport(currentLSet, currentCSet, minSupport, freqSet);
      RemovalJustified(T, minSupport, k, freqSet, currentLSet, currentCSet, thinned, dominator);
      ClosedStep(T, minSupport, k, currentLSet, thinned, largeSet, closeSet, witnesses, dominator, closeCount);
      // In apriori.py the filter removes from the very set object that
      // largeSet[k-1] and closeSet[k-1] both hold, so both see the result.
      largeSet' := largeSet'[k - 1 := thinned];
      closeSet' := closeSet'[k - 1 := thinned];
      witnesses' := witnesses[k - 1 := dominator];
      closeCount' := closeCount + |closeSet'|;
    } else {
      StoredStep(T, minSupport, closed, k, largeSet, closeSet, witnesses, currentLSet, map[]);
      witnesses' := witnesses[k - 1 := map[]];
      closeCount' := closeCount;
    }
    nextLSet := currentCSet;
    count' := count + |nextLSet|;
    StepState(T, minSupport, closed, k, currentLSet, largeSet, closeSet, witnesses, countsBefore, count, closeCount,
              nextLSet, largeSet', closeSet', witnesses', freqSet.counts, count', closeCount');
  }

  /**
   * The start of a run: read the transactions, count every 1-itemset into a
   * fresh frequency table and keep the frequent ones, which are level 1.
   */
  method StartSearch(data: seq<seq<Item>>, minSupport: real)
    returns (transactionList: seq<ItemSet>, freqSet: SupportCounter, oneLSet: set<ItemSet>)
    ensures fresh(freqSet)
    ensures transactionList == TransactionsOf(data)
    ensures oneLSet == Level(transactionList, minSupport, 1)
    ensures CountedBelow(transactionList, minSupport, freqSet.counts, 2)
  {
    var itemSet;
    itemSet, transactionList := GetItemSetTransactionList(data);
    ghost var T := transactionList;
    freqSet := new SupportCounter();
    CountedInitially(T, minSupport);
    oneLSet := ReturnItemsWithMinSupport(itemSet, transactionList, minSupport, freqSet);
    FirstLevel(T, minSupport);
    forall c | c in itemSet ensures |c| == 1 {
      var x :| x in Universe(T) && c == {x};
    }
    CountedStep(T, minSupport, 1, map[], freqSet.counts, itemSet);
  }

  /** The search state before the first pass: level 1 is current and nothing is stored. */
  lemma InitialState(transactions: seq<ItemSet>, minSupport: real, closed: bool, oneLSet: set<ItemSet>,
                     counts: map<ItemSet, nat>)
    requires oneLSet == Level(transactions, minSupport, 1)
    requires CountedBelow(transactions, minSupport, counts, 2)
    ensures SearchState(transactions, minSupport, closed, 2, oneLSet, map[], map[], map[], counts, |oneLSet|, 0)
  {
  }

  /**
   * The whole Apriori run. Level k of the search holds exactly the frequent
   * k-itemsets; the loop stops at the first empty level. Without `closed` the
   * result lists every frequent itemset once, by ascending size, with its
   * support ratio; with `closed` the levels are first thinned by the
   * closed-itemset filter. `count` is the number of frequent itemsets and
   * `closeCount` the running total that the closed mode keeps: it adds the
   * number of levels seen so far at every step. `levels` is the number of
   * non-empty levels.
   */
  method RunApriori(data: seq<seq<Item>>, minSupport: real, closed: bool)
    returns (toRetItems: seq<(ItemSet, real)>, count: nat, closeCount: nat, ghost levels: nat)
    ensures forall i :: 0 <= i < |toRetItems| ==>
              Frequent(TransactionsOf(data), minSupport, toRetItems[i].0)
              && toRetItems[i].1 == Ratio(TransactionsOf(data), toRetItems[i].0)
    ensures forall i, j :: 0 <= i < j < |toRetItems| ==> toRetItems[i].0 != toRetItems[j].0
    ensures forall i, j :: 0 <= i <= j < |toRetItems| ==> |toRetItems[i].0| <= |toRetItems[j].0|
    ensures !closed ==> forall c :: Frequent(TransactionsOf(data), minSupport, c) ==>
              exists i :: 0 <= i < |toRetItems| && toRetItems[i].0 == c
    ensures !closed ==> |toRetItems| == count
    ensures closed ==> forall c ::
              (Frequent(TransactionsOf(data), minSupport, c) && forall i :: 0 <= i < |toRetItems| ==> toRetItems[i].0 != c)
              ==> HasEqualSupportExtension(TransactionsOf(data), minSupport, c)
    ensures forall c :: Frequent(TransactionsOf(data), minSupport, c) ==> |c| <= levels
    ensures forall k :: 1 <= k <= levels ==> Level(TransactionsOf(data), minSupport, k) != {}
    ensures count == LevelSizes(TransactionsOf(data), minSupport, levels)
    ensures closeCount == if closed then TriangleSum(levels) else 0
  {
    var transactionList, freqSet, currentLSet := StartSearch(data, minSupport);
    ghost var T := transactionList;
    var largeSet: map<nat, set<ItemSet>> := map[];
    var closeSet: map<nat, set<ItemSet>> := map[];
    ghost var witnesses: map<nat, map<ItemSet, ItemSet>> := map[];
    count := |currentLSet|;
    closeCount := 0;
    var k := 2;
    InitialState(T, minSupport, closed, currentLSet, freqSet.counts);
    while currentLSet != {}
      invariant SearchState(T, minSupport, closed, k, currentLSet, largeSet, closeSet, witnesses,
                            freqSet.counts, count, closeCount)
      decreases |Universe(T)| + 2 - k
    {
      LevelBounded(T, minSupport, k - 1);
      currentLSet, largeSet, closeSet, witnesses, count, closeCount :=
        SearchStep(transactionList, minSupport, closed, freqSet, k, currentLSet, largeSet, closeSet, witnesses,
                   count, closeCount);
      k := k + 1;
    }
    levels := k - 2;
    SearchExhausted(T, minSupport, k);
    StoredShape(T, minSupport, closed, k, largeSet, closeSet, witnesses);

    // Result assembly: the stored levels, keys 1 .. levels in insertion order.
    var stored := if closed then closeSet else largeSet;
    toRetItems := CollectLevels(stored, k - 2, freqSet, |transactionList|);
    ResultMeaning(T, minSupport, closed, k, largeSet, closeSet, witnesses, stored, freqSet, toRetItems);
  }

  /**
   * What the assembled result means once the search has stopped at the empty
   * level k-1: every entry is frequent with its true support ratio; without
   * `closed` every frequent itemset is listed, once per frequent itemset;
   * with `closed` every frequent itemset left out is not closed.
   */
  lemma ResultMeaning(transactions: seq<ItemSet>, minSupport: real, closed: bool, k: nat,
                      largeSet: map<nat, set<ItemSet>>, closeSet: map<nat, set<ItemSet>>,
                      witnesses: map<nat, map<ItemSet, ItemSet>>,
                      stored: map<nat, set<ItemSet>>, freqSet: SupportCounter, items: seq<(ItemSet, real)>)
    requires k >= 2 && Level(transactions, minSupport, k - 1) == {}
    requires StoredBelow(transactions, minSupport, closed, k, largeSet, closeSet, witnesses)
    requires CountedBelow(transactions, minSupport, freqSet.counts, k)
    requires stored == if closed then closeSet else largeSet
    requires forall i :: 0 <= i < |items| ==>
               1 <= |items[i].0| <= k - 2 && items[i].0 in stored[|items[i].0|]
               && items[i].1 == RecordedRatio(freqSet, items[i].0, |transactions|)
    requires forall j, c :: 1 <= j <= k - 2 && c in stored[j] ==> exists i :: 0 <= i < |items| && items[i].0 == c
    requires |items| == StoredSize(stored, k - 2)
    ensures !closed ==> |items| == LevelSizes(transactions, minSupport, k - 1)
    ensures forall i :: 0 <= i < |items| ==>
              Frequent(transactions, minSupport, items[i].0) && items[i].1 == Ratio(transactions, items[i].0)
    ensures !closed ==> forall c :: Frequent(transactions, minSupport, c) ==>
              exists i :: 0 <= i < |items| && items[i].0 == c
    ensures closed ==> forall c ::
              (Frequent(transactions, minSupport, c) && forall i :: 0 <= i < |items| ==> items[i].0 != c)
              ==> HasEqualSupportExtension(transactions, minSupport, c)
  {
    assert forall j :: 1 <= j <= k - 2 ==> j in stored && stored[j] <= Level(transactions, minSupport, j);
    ResultEntries(transactions, minSupport, k, stored, freqSet, items);
    if closed {
      ResultClosed(transactions, minSupport, k, stored, witnesses, items);
    } else {
      SearchExhausted(transactions, minSupport, k);
      StoredSizeOfLevels(transactions, minSupport, largeSet, k - 2);
      ResultComplete(transactions, minSupport, k, stored, items);
    }
  }
}
