/** Selecting the records that share a key, and summing a weight over them.
    Both derived views of the ledger partition the records by a key (the
    calendar day for the list, the category for the chart); the partition
    lemma here is what makes their counts and sums add up. */
module Selection {
  import opened Expenses

  /** The records of `s` whose key is `k`, in the order they have in `s`. */
  function Select<K(==)>(s: seq<Expense>, key: Expense -> K, k: K): (r: seq<Expense>)
    ensures |r| <= |s|
    ensures forall i :: 0 <= i < |r| ==> key(r[i]) == k
  {
    if s == [] then []
    else Select(s[..|s| - 1], key, k) + (if key(s[|s| - 1]) == k then [s[|s| - 1]] else [])
  }

  /** The sum of `w` over the records of `s`. */
  function Weight(s: seq<Expense>, w: Expense -> int): int
  {
    if s == [] then 0 else Weight(s[..|s| - 1], w) + w(s[|s| - 1])
  }

  /** The sum, over the keys `ks`, of the weight of the records selected by each key. */
  function WeightOver<K(==)>(s: seq<Expense>, key: Expense -> K, w: Expense -> int, ks: seq<K>): int
  {
    if ks == [] then 0 else Weight(Select(s, key, ks[0]), w) + WeightOver(s, key, w, ks[1..])
  }

  predicate Distinct<K(==)>(ks: seq<K>)
  {
    forall i, j :: 0 <= i < j < |ks| ==> ks[i] != ks[j]
  }

  /** A record is selected by `k` exactly when it occurs in `s` with key `k`. */
  lemma {:induction false} SelectMembers<K>(s: seq<Expense>, key: Expense -> K, k: K, x: Expense)
    ensures x in Select(s, key, k) <==> x in s && key(x) == k
  {
    if s != [] {
      var init := s[..|s| - 1];
      SelectMembers(init, key, k, x);
      assert s == init + [s[|s| - 1]];
    }
  }

  /** No record carries key `k`, so none is selected. */
  lemma {:induction false} SelectNone<K>(s: seq<Expense>, key: Expense -> K, k: K)
    requires forall i :: 0 <= i < |s| ==> key(s[i]) != k
    ensures Select(s, key, k) == []
  {
    if s != [] {
      SelectNone(s[..|s| - 1], key, k);
    }
  }

  /** Every record carries key `k`, so all are selected. */
  lemma {:induction false} SelectAll<K>(s: seq<Expense>, key: Expense -> K, k: K)
    requires forall i :: 0 <= i < |s| ==> key(s[i]) == k
    ensures Select(s, key, k) == s
  {
    if s != [] {
      SelectAll(s[..|s| - 1], key, k);
      assert s == s[..|s| - 1] + [s[|s| - 1]];
    }
  }

  /** Selection keeps relative order: what comes from an earlier part of the
      input comes before what comes from a later part. */
  lemma {:induction false} SelectAppend<K>(a: seq<Expense>, b: seq<Expense>, key: Expense -> K, k: K)
    ensures Select(a + b, key, k) == Select(a, key, k) + Select(b, key, k)
  {
    if b == [] {
      assert a + b == a;
    } else {
      var init := b[..|b| - 1];
      SelectAppend(a, init, key, k);
      assert (a + b)[..|a + b| - 1] == a + init;
    }
  }

  lemma WeightSnoc(s: seq<Expense>, w: Expense -> int, x: Expense)
    ensures Weight(s + [x], w) == Weight(s, w) + w(x)
  {
    assert (s + [x])[..|s|] == s;
  }

  lemma SelectSnoc<K>(s: seq<Expense>, key: Expense -> K, k: K, x: Expense)
    ensures Select(s + [x], key, k) == Select(s, key, k) + (if key(x) == k then [x] else [])
  {
    assert (s + [x])[..|s|] == s;
  }

  /** Appending one record to the input adds its weight to exactly the key it
      carries, when the keys are distinct. */
  lemma {:induction false} WeightOverSnoc<K>(s: seq<Expense>, key: Expense -> K, w: Expense -> int, ks: seq<K>, x: Expense)
    requires Distinct(ks)
    ensures WeightOver(s + [x], key, w, ks) == WeightOver(s, key, w, ks) + (if key(x) in ks then w(x) else 0)
  {
    if ks != [] {
      var rest := ks[1..];
      DistinctTail(ks);
      WeightOverSnoc(s, key, w, rest, x);
      SelectSnoc(s, key, ks[0], x);
      assert key(x) in ks <==> key(x) == ks[0] || key(x) in rest by {
        assert ks == [ks[0]] + rest;
      }
      if key(x) == ks[0] {
        WeightSnoc(Select(s, key, ks[0]), w, x);
      } else {
        assert Select(s, key, ks[0]) + [] == Select(s, key, ks[0]);
      }
    }
  }

  /** The keys after the first are distinct and do not repeat the first. */
  lemma DistinctTail<K>(ks: seq<K>)
    requires Distinct(ks) && ks != []
    ensures Distinct(ks[1..]) && ks[0] !in ks[1..]
  {
    var rest := ks[1..];
    forall i, j | 0 <= i < j < |rest| ensures rest[i] != rest[j] {
      assert rest[i] == ks[i + 1] && rest[j] == ks[j + 1];
    }
    forall j | 0 <= j < |rest| ensures rest[j] != ks[0] {
      assert rest[j] == ks[j + 1];
    }
  }

  /** Partition: when the keys are distinct and every record's key is among
      them, the per-key weights add up to the weight of the whole input. */
  lemma {:induction false} PartitionSum<K>(s: seq<Expense>, key: Expense -> K, w: Expense -> int, ks: seq<K>)
    requires Distinct(ks)
    requires forall x :: x in s ==> key(x) in ks
    ensures WeightOver(s, key, w, ks) == Weight(s, w)
  {
    if s == [] {
      EmptyWeightOver(key, w, ks);
    } else {
      var init, last := s[..|s| - 1], s[|s| - 1];
      assert s == init + [last];
      PartitionSum(init, key, w, ks);
      WeightOverSnoc(init, key, w, ks, last);
    }
  }

  lemma {:induction false} EmptyWeightOver<K>(key: Expense -> K, w: Expense -> int, ks: seq<K>)
    ensures WeightOver([], key, w, ks) == 0
  {
    if ks != [] {
      EmptyWeightOver(key, w, ks[1..]);
    }
  }
}
