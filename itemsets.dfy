/**
 * Items, transactions and support, shared by the Apriori and the FP-Growth
 * miners.
 */
module Itemsets {

  /**
   * An item is an opaque token identified by a natural number: both miners
   * only compare items for equality.
   */
  type Item = nat

  type ItemSet = set<Item>

  /** The number of transactions that contain `c` as a subset. */
  function Support(transactions: seq<ItemSet>, c: ItemSet): (n: nat)
    ensures n <= |transactions|
  {
    if |transactions| == 0 then 0
    else
      var last := |transactions| - 1;
      Support(transactions[..last], c) + (if c <= transactions[last] then 1 else 0)
  }

  /** Support as a fraction of all transactions (exact, where the Python code uses a float). */
  function Ratio(transactions: seq<ItemSet>, c: ItemSet): real
  {
    if |transactions| == 0 then 0.0 else Support(transactions, c) as real / |transactions| as real
  }

  /**
   * Contained in at least one transaction, with a support ratio of at least
   * `minSupport`; the ratio test is stated multiplied out by the number of
   * transactions (see `MeetsSupportRatio`).
   */
  predicate MeetsSupport(transactions: seq<ItemSet>, minSupport: real, c: ItemSet)
  {
    Support(transactions, c) > 0 && Support(transactions, c) as real >= minSupport * |transactions| as real
  }

  /** The threshold test is the ratio test: support / |transactions| >= minSupport. */
  lemma MeetsSupportRatio(transactions: seq<ItemSet>, minSupport: real, c: ItemSet)
    ensures MeetsSupport(transactions, minSupport, c)
        <==> Support(transactions, c) > 0 && Ratio(transactions, c) >= minSupport
  {
    if |transactions| > 0 {
      ScaleByPositive(Support(transactions, c) as real, minSupport, |transactions| as real);
    }
  }

  /** Dividing both sides by a positive number keeps a comparison. */
  lemma ScaleByPositive(s: real, m: real, n: real)
    requires n > 0.0
    ensures s >= m * n <==> s / n >= m
  {
    assert s / n * n == s;
    if s >= m * n {
      assert s / n >= m * n / n;
    }
    if s / n >= m {
      assert s / n * n >= m * n;
    }
  }

  /** A frequent itemset: a non-empty itemset that meets the support threshold. */
  predicate Frequent(transactions: seq<ItemSet>, minSupport: real, c: ItemSet)
  {
    c != {} && MeetsSupport(transactions, minSupport, c)
  }

  /** Every item that occurs in some transaction. */
  function Universe(transactions: seq<ItemSet>): (u: ItemSet)
    ensures forall i, x :: 0 <= i < |transactions| && x in transactions[i] ==> x in u
  {
    set i, x | 0 <= i < |transactions| && x in transactions[i] :: x
  }

  /** The items of a sequence, as a set. */
  function Elems(s: seq<Item>): ItemSet
  {
    set x | x in s
  }

  /** No item occurs twice: the sequence is the iteration order of a set. */
  predicate Distinct(s: seq<Item>)
  {
    forall i, j :: 0 <= i < j < |s| ==> s[i] != s[j]
  }

  /** Counting one more transaction adds one exactly when it contains `c`. */
  lemma SupportStep(transactions: seq<ItemSet>, t: nat, c: ItemSet)
    requires t < |transactions|
    ensures Support(transactions[..t + 1], c)
         == Support(transactions[..t], c) + (if c <= transactions[t] then 1 else 0)
  {
    assert transactions[..t + 1][..t] == transactions[..t];
  }

  /** Appending a transaction adds its items to the universe. */
  lemma UniverseAppend(transactions: seq<ItemSet>, t: ItemSet)
    ensures Universe(transactions + [t]) == Universe(transactions) + t
  {
    var ts := transactions + [t];
    forall x | x in Universe(ts) ensures x in Universe(transactions) + t {
      var i :| 0 <= i < |ts| && x in ts[i];
      if i < |transactions| {
        assert x in transactions[i];
      }
    }
    forall x | x in Universe(transactions) + t ensures x in Universe(ts) {
      if x in t {
        assert x in ts[|transactions|];
      } else {
        var i :| 0 <= i < |transactions| && x in transactions[i];
        assert x in ts[i];
      }
    }
  }

  /** A superset is contained in no more transactions than any of its subsets. */
  lemma {:induction false} SupportAntitone(transactions: seq<ItemSet>, a: ItemSet, b: ItemSet)
    requires a <= b
    ensures Support(transactions, b) <= Support(transactions, a)
  {
    if |transactions| > 0 {
      SupportAntitone(transactions[..|transactions| - 1], a, b);
    }
  }

  /** An itemset contained in some transaction is made of items of the universe. */
  lemma {:induction false} SupportedWithinUniverse(transactions: seq<ItemSet>, c: ItemSet)
    requires Support(transactions, c) > 0
    ensures c <= Universe(transactions)
  {
    var last := |transactions| - 1;
    if !(c <= transactions[last]) {
      SupportedWithinUniverse(transactions[..last], c);
      assert Universe(transactions[..last]) <= Universe(transactions) by {
        forall x | x in Universe(transactions[..last]) ensures x in Universe(transactions) {
          var i :| 0 <= i < last && x in transactions[..last][i];
          assert x in transactions[i];
        }
      }
    }
  }

  /** Frequency is inherited by every non-empty subset (the Apriori property). */
  lemma FrequentDownwardClosed(transactions: seq<ItemSet>, minSupport: real, a: ItemSet, b: ItemSet)
    requires a != {} && a <= b && Frequent(transactions, minSupport, b)
    ensures Frequent(transactions, minSupport, a)
  {
    SupportAntitone(transactions, a, b);
  }

  /** A subset has no more elements than its superset. */
  lemma {:induction false} SubsetCardinality<T>(a: set<T>, b: set<T>)
    requires a <= b
    ensures |a| <= |b|
    decreases b
  {
    if a != {} {
      var x :| x in a;
      SubsetCardinality(a - {x}, b - {x});
    }
  }

  /** A set of `m` or more elements has a subset of exactly `k` elements, for every `k <= m`. */
  lemma {:induction false} SubsetOfSize(c: ItemSet, k: nat)
    requires k <= |c|
    ensures exists d :: d <= c && |d| == k
    decreases |c|
  {
    if k < |c| {
      assert c != {};
      var x :| x in c;
      SubsetOfSize(c - {x}, k);
    } else {
      assert c <= c;
    }
  }
}
