/**
 * The header table of an FP-tree before any node exists: how often each
 * item occurs in a weighted list of itemsets, in which order the items were
 * first met, which items survive the support threshold, and the order in
 * which an itemset's surviving items are inserted into the tree.
 */
module FPHeader {
  import opened Itemsets

  // ---------------------------------------------------------------------------
  // Counting
  // ---------------------------------------------------------------------------

  /** The itemsets of `itemSetList` one after the other. */
  function Flatten(itemSetList: seq<seq<Item>>): seq<Item>
  {
    if itemSetList == [] then []
    else Flatten(itemSetList[..|itemSetList| - 1]) + itemSetList[|itemSetList| - 1]
  }

  /**
   * The weighted number of occurrences of `x`: every occurrence of `x` in
   * the `i`-th itemset counts `frequency[i]`.
   */
  function HeaderCount(itemSetList: seq<seq<Item>>, frequency: seq<nat>, x: Item): nat
    requires |frequency| == |itemSetList|
  {
    if itemSetList == [] then 0
    else
      var n := |itemSetList| - 1;
      HeaderCount(itemSetList[..n], frequency[..n], x) + multiset(itemSetList[n])[x] * frequency[n]
  }

  /**
   * The items of `s` without repetitions, in the order of their first
   * occurrence: the key order of a dictionary that is filled from `s`.
   */
  function FirstOccurrences(s: seq<Item>): (r: seq<Item>)
    ensures Elems(r) == Elems(s)
  {
    if s == [] then []
    else
      var r := FirstOccurrences(s[..|s| - 1]);
      var x := s[|s| - 1];
      assert Elems(s) == Elems(s[..|s| - 1]) + {x} by {
        assert s == s[..|s| - 1] + [x];
      }
      assert Elems(r + [x]) == Elems(r) + {x};
      if x in r then r else r + [x]
  }

  /** The first occurrences repeat no item. */
  lemma {:induction false} FirstOccurrencesDistinct(s: seq<Item>)
    ensures Distinct(FirstOccurrences(s))
  {
    if s != [] {
      FirstOccurrencesDistinct(s[..|s| - 1]);
    }
  }

  /** With one itemset appended, each item's count grows by its occurrences there times the itemset's weight. */
  lemma HeaderCountAppend(itemSetList: seq<seq<Item>>, frequency: seq<nat>, s: seq<Item>, w: nat, x: Item)
    requires |frequency| == |itemSetList|
    ensures HeaderCount(itemSetList + [s], frequency + [w], x) == HeaderCount(itemSetList, frequency, x) + multiset(s)[x] * w
  {
    assert (itemSetList + [s])[..|itemSetList|] == itemSetList;
    assert (frequency + [w])[..|itemSetList|] == frequency;
  }

  lemma FlattenAppend(itemSetList: seq<seq<Item>>, s: seq<Item>)
    ensures Flatten(itemSetList + [s]) == Flatten(itemSetList) + s
  {
    assert (itemSetList + [s])[..|itemSetList|] == itemSetList;
  }

  /** An item that occurs nowhere has count 0. */
  lemma {:induction false} HeaderCountAbsent(itemSetList: seq<seq<Item>>, frequency: seq<nat>, x: Item)
    requires |frequency| == |itemSetList| && x !in Flatten(itemSetList)
    ensures HeaderCount(itemSetList, frequency, x) == 0
  {
    if itemSetList != [] {
      var n := |itemSetList| - 1;
      assert itemSetList == itemSetList[..n] + [itemSetList[n]];
      FlattenAppend(itemSetList[..n], itemSetList[n]);
      HeaderCountAbsent(itemSetList[..n], frequency[..n], x);
      assert x !in itemSetList[n];
    }
  }

  /** Opening a new, still empty itemset changes no count. */
  lemma CountNothing(itemSetList: seq<seq<Item>>, frequency: seq<nat>, w: nat)
    requires |frequency| == |itemSetList|
    ensures Flatten(itemSetList + [[]]) == Flatten(itemSetList)
    ensures forall x :: HeaderCount(itemSetList + [[]], frequency + [w], x) == HeaderCount(itemSetList, frequency, x)
  {
    FlattenAppend(itemSetList, []);
    forall x ensures HeaderCount(itemSetList + [[]], frequency + [w], x) == HeaderCount(itemSetList, frequency, x) {
      HeaderCountAppend(itemSetList, frequency, [], w, x);
    }
  }

  /** One more occurrence of `y` in the last itemset adds its weight to `y`'s count only. */
  lemma CountOneMore(itemSetList: seq<seq<Item>>, frequency: seq<nat>, s: seq<Item>, w: nat, y: Item)
    requires |frequency| == |itemSetList|
    ensures Flatten(itemSetList + [s + [y]]) == Flatten(itemSetList + [s]) + [y]
    ensures forall x :: HeaderCount(itemSetList + [s + [y]], frequency + [w], x)
                     == HeaderCount(itemSetList + [s], frequency + [w], x) + (if x == y then w else 0)
  {
    FlattenAppend(itemSetList, s + [y]);
    FlattenAppend(itemSetList, s);
    forall x ensures HeaderCount(itemSetList + [s + [y]], frequency + [w], x)
                  == HeaderCount(itemSetList + [s], frequency + [w], x) + (if x == y then w else 0)
    {
      HeaderCountAppend(itemSetList, frequency, s + [y], w, x);
      HeaderCountAppend(itemSetList, frequency, s, w, x);
      var m := multiset(s)[x];
      assert multiset(s + [y])[x] == m + (if x == y then 1 else 0);
      if x == y {
        OneMoreTimes(m, w);
      }
    }
  }

  lemma OneMoreTimes(m: nat, w: nat)
    ensures (m + 1) * w == m * w + w
  {
  }

  /** Taking one more element of a sequence. */
  lemma TakeOneMore<T>(s: seq<T>, i: nat)
    requires i < |s|
    ensures s[..i + 1] == s[..i] + [s[i]]
  {
  }

  /** Growing the last of a list of paths. */
  lemma ExtendLast(done: seq<seq<Item>>, p: seq<Item>, x: Item)
    ensures (done + [p])[|done| := p + [x]] == done + [p + [x]]
  {
  }

  /** The header table's counts: every item that occurs, with its weighted count. */
  function Counts(itemSetList: seq<seq<Item>>, frequency: seq<nat>): (counts: map<Item, nat>)
    requires |frequency| == |itemSetList|
    ensures counts.Keys == Elems(Flatten(itemSetList))
  {
    map x | x in Elems(Flatten(itemSetList)) :: HeaderCount(itemSetList, frequency, x)
  }

  /** Items drawn from `s` in every itemset are drawn from `s` overall. */
  lemma {:induction false} FlattenWithin(itemSetList: seq<seq<Item>>, s: set<Item>)
    requires forall i :: 0 <= i < |itemSetList| ==> Elems(itemSetList[i]) <= s
    ensures Elems(Flatten(itemSetList)) <= s
  {
    if itemSetList != [] {
      FlattenWithin(itemSetList[..|itemSetList| - 1], s);
    }
  }

  /** The sets of items of the itemsets. */
  function ItemSets(itemSetList: seq<seq<Item>>): (r: seq<ItemSet>)
    ensures |r| == |itemSetList| && forall i :: 0 <= i < |r| ==> r[i] == Elems(itemSetList[i])
  {
    if itemSetList == [] then [] else ItemSets(itemSetList[..|itemSetList| - 1]) + [Elems(itemSetList[|itemSetList| - 1])]
  }

  /**
   * With every itemset free of repetitions and of weight 1, as read from a
   * transaction file, an item's count is its support.
   */
  lemma {:induction false} HeaderCountIsSupport(itemSetList: seq<seq<Item>>, frequency: seq<nat>, x: Item)
    requires |frequency| == |itemSetList|
    requires forall i :: 0 <= i < |itemSetList| ==> Distinct(itemSetList[i]) && frequency[i] == 1
    ensures HeaderCount(itemSetList, frequency, x) == Support(ItemSets(itemSetList), {x})
  {
    if itemSetList != [] {
      var n := |itemSetList| - 1;
      HeaderCountIsSupport(itemSetList[..n], frequency[..n], x);
      assert ItemSets(itemSetList)[..n] == ItemSets(itemSetList[..n]);
      DistinctOccurrences(itemSetList[n], x);
    }
  }

  /** In a sequence without repetitions an item occurs once or not at all. */
  lemma {:induction false} DistinctOccurrences(s: seq<Item>, x: Item)
    requires Distinct(s)
    ensures multiset(s)[x] == if x in s then 1 else 0
  {
    if s != [] {
      var n := |s| - 1;
      assert s == s[..n] + [s[n]];
      assert Distinct(s[..n]);
      DistinctOccurrences(s[..n], x);
      assert s[n] !in s[..n];
    }
  }

  // ---------------------------------------------------------------------------
  // The support threshold
  // ---------------------------------------------------------------------------

  /** The items of `order` whose count reaches `minSup`, in the same order. */
  function Survivors(order: seq<Item>, counts: map<Item, nat>, minSup: real): (r: seq<Item>)
    ensures forall x {:trigger x in r} :: x in r <==> x in order && x in counts && counts[x] as real >= minSup
  {
    if order == [] then []
    else
      var x := order[|order| - 1];
      assert order == order[..|order| - 1] + [x];
      Survivors(order[..|order| - 1], counts, minSup) + (if x in counts && counts[x] as real >= minSup then [x] else [])
  }

  /** Keeping some items of a sequence without repetitions leaves none repeated. */
  lemma {:induction false} SurvivorsDistinct(order: seq<Item>, counts: map<Item, nat>, minSup: real)
    requires Distinct(order)
    ensures Distinct(Survivors(order, counts, minSup))
  {
    if order != [] {
      var n := |order| - 1;
      assert Distinct(order[..n]);
      SurvivorsDistinct(order[..n], counts, minSup);
      assert order[n] !in order[..n];
      assert order[n] !in Survivors(order[..n], counts, minSup);
    }
  }

  /** The counts of the items that reach `minSup`. */
  function Kept(counts: map<Item, nat>, minSup: real): (kept: map<Item, nat>)
    ensures forall x {:trigger x in kept} :: x in kept <==> x in counts && counts[x] as real >= minSup
    ensures forall x :: x in kept ==> kept[x] == counts[x]
  {
    map x | x in counts && counts[x] as real >= minSup :: counts[x]
  }

  // ---------------------------------------------------------------------------
  // Preparing an itemset for insertion
  // ---------------------------------------------------------------------------

  /** The items of `s` that have a frequency, in the same order. */
  function FilterIn(s: seq<Item>, freq: map<Item, nat>): (r: seq<Item>)
    ensures forall x {:trigger x in r} :: x in r <==> x in s && x in freq
  {
    if s == [] then []
    else
      var x := s[|s| - 1];
      assert s == s[..|s| - 1] + [x];
      FilterIn(s[..|s| - 1], freq) + (if x in freq then [x] else [])
  }

  lemma {:induction false} FilterInDistinct(s: seq<Item>, freq: map<Item, nat>)
    requires Distinct(s)
    ensures Distinct(FilterIn(s, freq))
  {
    if s != [] {
      var n := |s| - 1;
      assert Distinct(s[..n]);
      FilterInDistinct(s[..n], freq);
      assert s[n] !in s[..n];
      assert s[n] !in FilterIn(s[..n], freq);
    }
  }

  /** The sort key of `x`: its frequency, or 0 for an item without one. */
  function Key(freq: map<Item, nat>, x: Item): nat
  {
    if x in freq then freq[x] else 0
  }

  /** `x` belongs strictly before `y`: its key is larger (descending order) or smaller (ascending order). */
  predicate Ahead(freq: map<Item, nat>, desc: bool, x: Item, y: Item)
  {
    if desc then Key(freq, x) > Key(freq, y) else Key(freq, x) < Key(freq, y)
  }

  /** `r` with `x` inserted after every element that `x` is not strictly ahead of. */
  function Insert(r: seq<Item>, x: Item, freq: map<Item, nat>, desc: bool): seq<Item>
  {
    if r == [] || !Ahead(freq, desc, x, r[|r| - 1]) then r + [x]
    else Insert(r[..|r| - 1], x, freq, desc) + [r[|r| - 1]]
  }

  /**
   * `s` sorted by key, largest first when `desc` holds and smallest first
   * otherwise, keeping the order of `s` among equal keys: the behaviour of
   * the language's stable built-in sort, `reverse` flag included.
   */
  function SortByKey(s: seq<Item>, freq: map<Item, nat>, desc: bool): seq<Item>
  {
    if s == [] then [] else Insert(SortByKey(s[..|s| - 1], freq, desc), s[|s| - 1], freq, desc)
  }

  /** No element is strictly ahead of an earlier one. */
  predicate SortedBy(r: seq<Item>, freq: map<Item, nat>, desc: bool)
  {
    forall i, j :: 0 <= i < j < |r| ==> !Ahead(freq, desc, r[j], r[i])
  }

  /** The elements of `s` with key `v`, in order. */
  function WithKey(s: seq<Item>, freq: map<Item, nat>, v: nat): seq<Item>
  {
    if s == [] then []
    else WithKey(s[..|s| - 1], freq, v) + (if Key(freq, s[|s| - 1]) == v then [s[|s| - 1]] else [])
  }

  lemma {:induction false} InsertPermutes(r: seq<Item>, x: Item, freq: map<Item, nat>, desc: bool)
    ensures multiset(Insert(r, x, freq, desc)) == multiset(r) + multiset{x}
  {
    if r != [] && Ahead(freq, desc, x, r[|r| - 1]) {
      var n := |r| - 1;
      InsertPermutes(r[..n], x, freq, desc);
      assert r == r[..n] + [r[n]];
    }
  }

  lemma {:induction false} InsertSorted(r: seq<Item>, x: Item, freq: map<Item, nat>, desc: bool)
    requires SortedBy(r, freq, desc)
    ensures SortedBy(Insert(r, x, freq, desc), freq, desc)
  {
    if r != [] && Ahead(freq, desc, x, r[|r| - 1]) {
      var n := |r| - 1;
      var r' := Insert(r[..n], x, freq, desc);
      InsertSorted(r[..n], x, freq, desc);
      InsertPermutes(r[..n], x, freq, desc);
      forall i | 0 <= i < |r'| ensures !Ahead(freq, desc, r[n], r'[i]) {
        assert r'[i] in multiset(r[..n]) + multiset{x};
        if r'[i] != x {
          var k :| 0 <= k < n && r[k] == r'[i];
        }
      }
      SortedSnoc(r', r[n], freq, desc);
    }
  }

  /** Appending an element that is ahead of none of a sorted sequence keeps it sorted. */
  lemma SortedSnoc(r: seq<Item>, y: Item, freq: map<Item, nat>, desc: bool)
    requires SortedBy(r, freq, desc)
    requires forall i :: 0 <= i < |r| ==> !Ahead(freq, desc, y, r[i])
    ensures SortedBy(r + [y], freq, desc)
  {
  }

  /** A single element is taken exactly when it has key `v`. */
  lemma WithKeySingle(y: Item, freq: map<Item, nat>, v: nat)
    ensures WithKey([y], freq, v) == if Key(freq, y) == v then [y] else []
  {
    assert [y][..0] == [];
  }

  /** Taking the elements with key `v` distributes over concatenation. */
  lemma {:induction false} WithKeyAppend(a: seq<Item>, b: seq<Item>, freq: map<Item, nat>, v: nat)
    ensures WithKey(a + b, freq, v) == WithKey(a, freq, v) + WithKey(b, freq, v)
  {
    if b != [] {
      var n := |b| - 1;
      WithKeyAppend(a, b[..n], freq, v);
      assert (a + b)[..|a + b| - 1] == a + b[..n];
    } else {
      assert a + b == a;
    }
  }

  /** Inserting `x` puts it after every element that has its key. */
  lemma {:induction false} InsertStable(r: seq<Item>, x: Item, freq: map<Item, nat>, desc: bool, v: nat)
    ensures WithKey(Insert(r, x, freq, desc), freq, v) == WithKey(r, freq, v) + WithKey([x], freq, v)
  {
    if r == [] || !Ahead(freq, desc, x, r[|r| - 1]) {
      WithKeyAppend(r, [x], freq, v);
    } else {
      var n := |r| - 1;
      var r' := Insert(r[..n], x, freq, desc);
      var wx, wn := WithKey([x], freq, v), WithKey([r[n]], freq, v);
      // `x` is ahead of `r[n]`, so at most one of the two has key `v`.
      assert Key(freq, x) != Key(freq, r[n]);
      WithKeySingle(x, freq, v);
      WithKeySingle(r[n], freq, v);
      calc {
        WithKey(Insert(r, x, freq, desc), freq, v);
        WithKey(r' + [r[n]], freq, v);
        { WithKeyAppend(r', [r[n]], freq, v); }
        WithKey(r', freq, v) + wn;
        { InsertStable(r[..n], x, freq, desc, v); }
        WithKey(r[..n], freq, v) + wx + wn;
        WithKey(r[..n], freq, v) + wn + wx;
        { WithKeyAppend(r[..n], [r[n]], freq, v); assert r[..n] + [r[n]] == r; }
        WithKey(r, freq, v) + wx;
      }
    }
  }

  /** Sorting permutes `s`. */
  lemma {:induction false} SortPermutes(s: seq<Item>, freq: map<Item, nat>, desc: bool)
    ensures multiset(SortByKey(s, freq, desc)) == multiset(s)
  {
    if s != [] {
      var n := |s| - 1;
      SortPermutes(s[..n], freq, desc);
      InsertPermutes(SortByKey(s[..n], freq, desc), s[n], freq, desc);
      assert s == s[..n] + [s[n]];
    }
  }

  /** Sorting orders by key. */
  lemma {:induction false} SortSorts(s: seq<Item>, freq: map<Item, nat>, desc: bool)
    ensures SortedBy(SortByKey(s, freq, desc), freq, desc)
  {
    if s != [] {
      SortSorts(s[..|s| - 1], freq, desc);
      InsertSorted(SortByKey(s[..|s| - 1], freq, desc), s[|s| - 1], freq, desc);
    }
  }

  /** Sorting is stable: the elements of each key keep their order. */
  lemma {:induction false} SortStable(s: seq<Item>, freq: map<Item, nat>, desc: bool, v: nat)
    ensures WithKey(SortByKey(s, freq, desc), freq, v) == WithKey(s, freq, v)
  {
    if s != [] {
      var n := |s| - 1;
      SortStable(s[..n], freq, desc, v);
      InsertStable(SortByKey(s[..n], freq, desc), s[n], freq, desc, v);
      WithKeyAppend(s[..n], [s[n]], freq, v);
      assert s == s[..n] + [s[n]];
    }
  }

  /** A permutation of a sequence without repetitions has none, and the same items. */
  lemma PermutationDistinct(s: seq<Item>, r: seq<Item>)
    requires Distinct(s) && multiset(r) == multiset(s)
    ensures Distinct(r) && Elems(r) == Elems(s)
  {
    forall x ensures multiset(r)[x] <= 1 {
      DistinctOccurrences(s, x);
    }
    forall i, j | 0 <= i < j < |r| ensures r[i] != r[j] {
      if r[i] == r[j] {
        TwoOccurrences(r, i, j);
      }
    }
    assert forall x :: x in r <==> x in multiset(r);
    assert forall x :: x in s <==> x in multiset(s);
  }

  /** An item found at two positions occurs at least twice. */
  lemma TwoOccurrences(r: seq<Item>, i: nat, j: nat)
    requires i < j < |r| && r[i] == r[j]
    ensures multiset(r)[r[i]] >= 2
  {
    assert r == r[..i] + [r[i]] + r[i + 1..j] + [r[j]] + r[j + 1..];
  }

  /**
   * An itemset as it is inserted into the tree: its items that have a
   * frequency, most frequent first, ties in the itemset's own order.
   */
  function Prepared(s: seq<Item>, freq: map<Item, nat>): seq<Item>
  {
    SortByKey(FilterIn(s, freq), freq, true)
  }

  /** A prepared itemset has the itemset's frequent items, once each when the itemset repeats none. */
  lemma PreparedItems(s: seq<Item>, freq: map<Item, nat>)
    ensures forall x :: x in Prepared(s, freq) <==> x in s && x in freq
    ensures Distinct(s) ==> Distinct(Prepared(s, freq))
    ensures SortedBy(Prepared(s, freq), freq, true)
  {
    var f := FilterIn(s, freq);
    SortPermutes(f, freq, true);
    SortSorts(f, freq, true);
    assert forall x :: x in Prepared(s, freq) <==> x in multiset(Prepared(s, freq));
    assert forall x :: x in f <==> x in multiset(f);
    if Distinct(s) {
      FilterInDistinct(s, freq);
      PermutationDistinct(f, Prepared(s, freq));
    }
  }

  /** A prepared itemset's items all have a frequency, once each when the itemset repeats none. */
  lemma PreparedWithin(s: seq<Item>, freq: map<Item, nat>)
    ensures Elems(Prepared(s, freq)) <= freq.Keys
    ensures Distinct(s) ==> Distinct(Prepared(s, freq))
  {
    PreparedItems(s, freq);
  }

  /** Every itemset of the list prepared for insertion. */
  function PreparedAll(itemSetList: seq<seq<Item>>, freq: map<Item, nat>): (r: seq<seq<Item>>)
    ensures |r| == |itemSetList| && forall i :: 0 <= i < |r| ==> r[i] == Prepared(itemSetList[i], freq)
  {
    if itemSetList == [] then []
    else PreparedAll(itemSetList[..|itemSetList| - 1], freq) + [Prepared(itemSetList[|itemSetList| - 1], freq)]
  }

  /** One more itemset prepared. */
  lemma PreparedAllStep(itemSetList: seq<seq<Item>>, freq: map<Item, nat>, i: nat)
    requires i < |itemSetList|
    ensures PreparedAll(itemSetList[..i + 1], freq) == PreparedAll(itemSetList[..i], freq) + [Prepared(itemSetList[i], freq)]
  {
    assert itemSetList[..i + 1][..i] == itemSetList[..i];
  }
}
