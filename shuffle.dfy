/** Sorting and grouping of intermediate records on the reduce side. */
module Shuffle {
  import opened Types
  import opened ByteOrder

  // ---------------------------------------------------------------------
  // Sorting by key

  /** Keys never decrease along s. */
  predicate SortedByKey(s: seq<KeyValue>)
  {
    forall i, j :: 0 <= i < j < |s| ==> LessEq(s[i].key, s[j].key)
  }

  /** Insert kv before the first record whose key is not smaller. */
  function Insert(kv: KeyValue, s: seq<KeyValue>): (r: seq<KeyValue>)
    ensures multiset(r) == multiset(s) + multiset{kv}
    decreases |s|
  {
    if s == [] || LessEq(kv.key, s[0].key) then [kv] + s
    else
      assert s == [s[0]] + s[1..];
      [s[0]] + Insert(kv, s[1..])
  }

  lemma {:induction false} InsertSorted(kv: KeyValue, s: seq<KeyValue>)
    requires SortedByKey(s)
    ensures SortedByKey(Insert(kv, s))
    decreases |s|
  {
    var r := Insert(kv, s);
    if s == [] || LessEq(kv.key, s[0].key) {
      forall j | 0 <= j < |s|
        ensures LessEq(kv.key, s[j].key)
      {
        if j > 0 {
          LessEqTransitive(kv.key, s[0].key, s[j].key);
        }
      }
      assert forall j :: 1 <= j < |r| ==> r[j] == s[j - 1];
    } else {
      var t := Insert(kv, s[1..]);
      InsertSorted(kv, s[1..]);
      LessTotal(kv.key, s[0].key);
      assert LessEq(s[0].key, kv.key) by {
        LessAsymmetric(s[0].key, kv.key);
      }
      forall j | 0 <= j < |t|
        ensures LessEq(s[0].key, t[j].key)
      {
        assert t[j] in multiset(t);
        if t[j] != kv {
          assert t[j] in multiset(s[1..]);
          var m :| 0 <= m < |s[1..]| && s[1..][m] == t[j];
          assert s[m + 1] == t[j];
        }
      }
      assert r == [s[0]] + t;
    }
  }

  /** Insertion sort: a permutation of s, sorted by key. It stands for the
      library sort, which is not stable; see SortedOrderIrrelevant for why
      the choice among sorted permutations makes no difference. */
  function SortByKey(s: seq<KeyValue>): (r: seq<KeyValue>)
    ensures multiset(r) == multiset(s)
    ensures SortedByKey(r)
    decreases |s|
  {
    if s == [] then []
    else
      var t := SortByKey(s[1..]);
      InsertSorted(s[0], t);
      assert s == [s[0]] + s[1..];
      Insert(s[0], t)
  }

  // ---------------------------------------------------------------------
  // Grouping runs of equal keys

  /** The values passed to one call of the reduce function, with their key. */
  datatype Group = Group(key: Bytes, values: seq<Bytes>)

  /** The length of the run of records at the front of s that share
      s[0]'s key: the inner scan j of the grouping loop. */
  function RunLength(s: seq<KeyValue>): (n: nat)
    requires |s| > 0
    ensures 1 <= n <= |s|
    ensures forall i :: 0 <= i < n ==> s[i].key == s[0].key
    ensures n < |s| ==> s[n].key != s[0].key
    decreases |s|
  {
    if |s| == 1 || s[1].key != s[0].key then 1 else 1 + RunLength(s[1..])
  }

  /** The values of s, in order. */
  function Values(s: seq<KeyValue>): seq<Bytes>
  {
    seq(|s|, i requires 0 <= i < |s| => s[i].value)
  }

  /** One group per maximal run of equal adjacent keys, in order. */
  function Groups(s: seq<KeyValue>): seq<Group>
    decreases |s|
  {
    if s == [] then []
    else
      var n := RunLength(s);
      [Group(s[0].key, Values(s[..n]))] + Groups(s[n..])
  }

  /** The values recorded under key k, in order. */
  function ValuesWithKey(s: seq<KeyValue>, k: Bytes): seq<Bytes>
    decreases |s|
  {
    if s == [] then []
    else (if s[0].key == k then [s[0].value] else []) + ValuesWithKey(s[1..], k)
  }

  /** How many records carry key k. */
  function Count(s: seq<KeyValue>, k: Bytes): nat
  {
    |ValuesWithKey(s, k)|
  }

  /** The set of keys that occur in s. */
  function Keys(s: seq<KeyValue>): set<Bytes>
  {
    set kv | kv in s :: kv.key
  }

  function GroupKeys(gs: seq<Group>): seq<Bytes>
  {
    seq(|gs|, i requires 0 <= i < |gs| => gs[i].key)
  }

  /** Each element strictly before the next. */
  predicate StrictlyAscending(ks: seq<Bytes>)
  {
    forall i, j :: 0 <= i < j < |ks| ==> Less(ks[i], ks[j])
  }

  lemma {:induction false} ValuesWithKeyConcat(a: seq<KeyValue>, b: seq<KeyValue>, k: Bytes)
    ensures ValuesWithKey(a + b, k) == ValuesWithKey(a, k) + ValuesWithKey(b, k)
    decreases |a|
  {
    if a == [] {
      assert a + b == b;
    } else {
      assert (a + b)[0] == a[0];
      assert (a + b)[1..] == a[1..] + b;
      ValuesWithKeyConcat(a[1..], b, k);
    }
  }

  /** A run that has only key k hands over all its values for k, and none
      for any other key. */
  lemma {:induction false} ValuesWithKeyOfRun(s: seq<KeyValue>, k: Bytes, k2: Bytes)
    requires forall i :: 0 <= i < |s| ==> s[i].key == k
    ensures ValuesWithKey(s, k) == Values(s)
    ensures k2 != k ==> ValuesWithKey(s, k2) == []
    decreases |s|
  {
    if s != [] {
      ValuesWithKeyOfRun(s[1..], k, k2);
      assert Values(s) == [s[0].value] + Values(s[1..]);
    }
  }

  /** A key that does not occur contributes no values. */
  lemma {:induction false} ValuesWithKeyAbsent(s: seq<KeyValue>, k: Bytes)
    requires forall i :: 0 <= i < |s| ==> s[i].key != k
    ensures ValuesWithKey(s, k) == []
    decreases |s|
  {
    if s != [] {
      ValuesWithKeyAbsent(s[1..], k);
    }
  }

  /** In a sorted sequence every key after the first run is larger than
      the first run's key. */
  lemma AfterFirstRun(s: seq<KeyValue>)
    requires SortedByKey(s) && |s| > 0
    ensures forall j :: RunLength(s) <= j < |s| ==> Less(s[0].key, s[j].key)
  {
    var n := RunLength(s);
    forall j | n <= j < |s|
      ensures Less(s[0].key, s[j].key)
    {
      LessTotal(s[0].key, s[n].key);
      if j > n {
        LessEqLess(s[0].key, s[n].key, s[j].key);
      }
    }
  }

  /** The first run of a sorted sequence holds every value of its key. */
  lemma FirstGroupValues(s: seq<KeyValue>)
    requires SortedByKey(s) && |s| > 0
    ensures ValuesWithKey(s, s[0].key) == Values(s[..RunLength(s)])
  {
    AfterFirstRun(s);
    LessIrreflexive(s[0].key);
    TakeRun(s, RunLength(s), s[0].key);
  }

  /** When k fills exactly the first n records, its values are theirs. */
  lemma TakeRun(s: seq<KeyValue>, n: nat, k: Bytes)
    requires 0 < n <= |s|
    requires forall i :: 0 <= i < n ==> s[i].key == k
    requires forall j :: n <= j < |s| ==> s[j].key != k
    ensures ValuesWithKey(s, k) == Values(s[..n])
  {
    assert s == s[..n] + s[n..];
    ValuesWithKeyConcat(s[..n], s[n..], k);
    ValuesWithKeyOfRun(s[..n], k, k);
    forall j | 0 <= j < |s[n..]|
      ensures s[n..][j].key != k
    {
      assert s[n..][j] == s[n + j];
    }
    ValuesWithKeyAbsent(s[n..], k);
  }

  /** A key occurring after the first run of a sorted sequence is larger
      than the first key, and all its values lie after the first run. */
  lemma LaterGroupValues(s: seq<KeyValue>, k: Bytes)
    requires SortedByKey(s) && |s| > 0 && k in Keys(s[RunLength(s)..])
    ensures Less(s[0].key, k)
    ensures ValuesWithKey(s, k) == ValuesWithKey(s[RunLength(s)..], k)
  {
    var n := RunLength(s);
    var kv :| kv in s[n..] && kv.key == k;
    var j :| 0 <= j < |s[n..]| && s[n..][j] == kv;
    AfterFirstRun(s);
    assert s[n + j] == kv;
    LessIrreflexive(s[0].key);
    SkipRun(s, n, k);
  }

  /** Records before n all carry another key, so k's values start at n. */
  lemma SkipRun(s: seq<KeyValue>, n: nat, k: Bytes)
    requires 0 < n <= |s|
    requires forall i :: 0 <= i < n ==> s[i].key == s[0].key
    requires k != s[0].key
    ensures ValuesWithKey(s, k) == ValuesWithKey(s[n..], k)
  {
    assert s == s[..n] + s[n..];
    ValuesWithKeyConcat(s[..n], s[n..], k);
    ValuesWithKeyOfRun(s[..n], s[0].key, k);
  }

  /** Every key of a group occurs in the input, and every key of the
      input has a group. */
  lemma GroupsKeys(s: seq<KeyValue>)
    ensures forall g :: g in Groups(s) ==> g.key in Keys(s)
    ensures forall k :: k in Keys(s) ==> exists g :: g in Groups(s) && g.key == k
  {
    GroupKeysOccur(s);
    KeysHaveGroups(s);
  }

  lemma {:induction false} GroupKeysOccur(s: seq<KeyValue>)
    ensures forall g :: g in Groups(s) ==> g.key in Keys(s)
    decreases |s|
  {
    if s != [] {
      var n := RunLength(s);
      var gs := Groups(s);
      GroupKeysOccur(s[n..]);
      assert gs == [Group(s[0].key, Values(s[..n]))] + Groups(s[n..]);
      forall g | g in gs
        ensures g.key in Keys(s)
      {
        if g != gs[0] {
          assert g in Groups(s[n..]);
          var kv :| kv in s[n..] && kv.key == g.key;
          assert kv in s;
        } else {
          assert s[0] in s;
        }
      }
    }
  }

  lemma {:induction false} KeysHaveGroups(s: seq<KeyValue>)
    ensures forall k :: k in Keys(s) ==> exists g :: g in Groups(s) && g.key == k
    decreases |s|
  {
    if s != [] {
      var n := RunLength(s);
      var gs := Groups(s);
      KeysHaveGroups(s[n..]);
      assert gs == [Group(s[0].key, Values(s[..n]))] + Groups(s[n..]);
      forall k | k in Keys(s)
        ensures exists g :: g in gs && g.key == k
      {
        var kv :| kv in s && kv.key == k;
        var i :| 0 <= i < |s| && s[i] == kv;
        if i < n {
          assert gs[0] in gs && gs[0].key == k;
        } else {
          assert s[n..][i - n] == kv;
          assert k in Keys(s[n..]);
          var g :| g in Groups(s[n..]) && g.key == k;
          assert g in gs;
        }
      }
    }
  }

  /** A key smaller than every element can be put in front. */
  lemma AscendingCons(k: Bytes, ks: seq<Bytes>)
    requires StrictlyAscending(ks)
    requires forall j :: 0 <= j < |ks| ==> Less(k, ks[j])
    ensures StrictlyAscending([k] + ks)
  {
    var r := [k] + ks;
    forall i, j | 0 <= i < j < |r|
      ensures Less(r[i], r[j])
    {
      if i > 0 {
        assert r[i] == ks[i - 1] && r[j] == ks[j - 1];
      }
    }
  }

  /** Grouping a sorted sequence gives strictly ascending keys. */
  lemma {:induction false} GroupsAscending(s: seq<KeyValue>)
    requires SortedByKey(s)
    ensures StrictlyAscending(GroupKeys(Groups(s)))
    decreases |s|
  {
    if s != [] {
      var n := RunLength(s);
      var rest := s[n..];
      assert SortedByKey(rest);
      GroupsAscending(rest);
      GroupsKeys(rest);
      var ks := GroupKeys(Groups(rest));
      forall j | 0 <= j < |ks|
        ensures Less(s[0].key, ks[j])
      {
        assert Groups(rest)[j] in Groups(rest);
        LaterGroupValues(s, ks[j]);
      }
      AscendingCons(s[0].key, ks);
      assert GroupKeys(Groups(s)) == [s[0].key] + ks;
    }
  }

  /** The key of each group occurs in the input. */
  lemma GroupKeyOccurs(s: seq<KeyValue>, i: nat)
    requires i < |Groups(s)|
    ensures Groups(s)[i].key in Keys(s)
  {
    GroupsKeys(s);
    assert Groups(s)[i] in Groups(s);
  }

  /** Grouping a sorted sequence: each group holds every value recorded
      under its key, in order. */
  lemma {:induction false} GroupsCollect(s: seq<KeyValue>)
    requires SortedByKey(s)
    ensures forall i :: 0 <= i < |Groups(s)| ==>
      Groups(s)[i].values == ValuesWithKey(s, Groups(s)[i].key)
    decreases |s|
  {
    if s != [] {
      var n := RunLength(s);
      var rest := s[n..];
      var gs := Groups(s);
      var gr := Groups(rest);
      assert gs == [Group(s[0].key, Values(s[..n]))] + gr;
      assert SortedByKey(rest);
      GroupsCollect(rest);
      FirstGroupValues(s);
      forall i | 1 <= i < |gs|
        ensures gs[i].values == ValuesWithKey(s, gs[i].key)
      {
        assert gs[i] == gr[i - 1];
        GroupKeyOccurs(rest, i - 1);
        LaterGroupValues(s, gr[i - 1].key);
      }
    }
  }

  // ---------------------------------------------------------------------
  // The sort is not stable, and it does not matter

  /** The per-key counts a reduce task sees, in output order. */
  function Tally(s: seq<KeyValue>): seq<(Bytes, nat)>
  {
    var gs := Groups(s);
    seq(|gs|, i requires 0 <= i < |gs| => (gs[i].key, |gs[i].values|))
  }

  /** Taking out the record at position i. */
  lemma RemoveAt(q: seq<KeyValue>, i: nat, k: Bytes)
    requires i < |q|
    ensures multiset(q[..i] + q[i + 1..]) == multiset(q) - multiset{q[i]}
    ensures Count(q, k) == Count(q[..i] + q[i + 1..], k) + (if q[i].key == k then 1 else 0)
  {
    assert q == q[..i] + [q[i]] + q[i + 1..];
    ValuesWithKeyConcat(q[..i], q[i + 1..], k);
    ValuesWithKeyConcat(q[..i] + [q[i]], q[i + 1..], k);
    ValuesWithKeyConcat(q[..i], [q[i]], k);
  }

  /** Reordering records does not change how many carry a key. */
  lemma {:induction false} CountPermutation(p: seq<KeyValue>, q: seq<KeyValue>, k: Bytes)
    requires multiset(p) == multiset(q)
    ensures Count(p, k) == Count(q, k)
    decreases |p|
  {
    if p == [] {
      assert |multiset(q)| == 0;
    } else {
      var x := p[0];
      assert x in multiset(q);
      var i :| 0 <= i < |q| && q[i] == x;
      RemoveAt(q, i, k);
      assert p == [x] + p[1..];
      assert multiset(p[1..]) == multiset(p) - multiset{x};
      CountPermutation(p[1..], q[..i] + q[i + 1..], k);
    }
  }

  /** Taking out the record at position i removes its value from the
      values of its key, and from no other key's. */
  lemma RemoveAtValues(q: seq<KeyValue>, i: nat, k: Bytes)
    requires i < |q|
    ensures multiset(ValuesWithKey(q, k))
         == multiset(ValuesWithKey(q[..i] + q[i + 1..], k)) + (if q[i].key == k then multiset{q[i].value} else multiset{})
  {
    assert q == q[..i] + [q[i]] + q[i + 1..];
    ValuesWithKeyConcat(q[..i], q[i + 1..], k);
    ValuesWithKeyConcat(q[..i] + [q[i]], q[i + 1..], k);
    ValuesWithKeyConcat(q[..i], [q[i]], k);
  }

  /** Reordering records does not change which values a key carries, nor
      how often each. */
  lemma {:induction false} ValuesPermutation(p: seq<KeyValue>, q: seq<KeyValue>, k: Bytes)
    requires multiset(p) == multiset(q)
    ensures multiset(ValuesWithKey(p, k)) == multiset(ValuesWithKey(q, k))
    decreases |p|
  {
    if p == [] {
      assert |multiset(q)| == 0;
    } else {
      var x := p[0];
      assert x in multiset(q);
      var i :| 0 <= i < |q| && q[i] == x;
      RemoveAt(q, i, k);
      RemoveAtValues(q, i, k);
      DropHead(p);
      ValuesPermutation(p[1..], q[..i] + q[i + 1..], k);
      ValuesWithKeyHead(p, k);
    }
  }

  /** The tail of a non-empty sequence is it without its head. */
  lemma DropHead(p: seq<KeyValue>)
    requires p != []
    ensures multiset(p[1..]) == multiset(p) - multiset{p[0]}
  {
    assert p == [p[0]] + p[1..];
  }

  /** The values of a key: the head's if it carries the key, then the tail's. */
  lemma ValuesWithKeyHead(p: seq<KeyValue>, k: Bytes)
    requires p != []
    ensures multiset(ValuesWithKey(p, k))
         == multiset(ValuesWithKey(p[1..], k)) + (if p[0].key == k then multiset{p[0].value} else multiset{})
  {
  }

  /** The head of a non-empty sequence is one of its elements. Kept as its
      own lemma so that the empty-a branch of AscendingUnique learns it
      before reaching its contradiction. */
  lemma HeadOccurs(b: seq<Bytes>)
    requires b != []
    ensures b[0] in b
  {
  }

  /** Two strictly ascending sequences with the same elements are equal. */
  lemma {:induction false} AscendingUnique(a: seq<Bytes>, b: seq<Bytes>)
    requires StrictlyAscending(a) && StrictlyAscending(b)
    requires forall x :: x in a <==> x in b
    ensures a == b
    decreases |a|
  {
    if a == [] {
      if b != [] {
        HeadOccurs(b);
        assert false;
      }
    } else {
      assert a[0] in a;
      assert b != [] && b[0] in b;
      if a[0] != b[0] {
        var i :| 0 <= i < |a| && a[i] == b[0];
        var j :| 0 <= j < |b| && b[j] == a[0];
        assert i > 0 && j > 0;
        LessAsymmetric(a[0], b[0]);
      }
      forall x
        ensures x in a[1..] <==> x in b[1..]
      {
        if x in a[1..] {
          var i :| 1 <= i < |a| && a[i] == x;
          assert x != a[0] by { LessIrreflexive(a[0]); }
          assert x in b;
        }
        if x in b[1..] {
          var j :| 1 <= j < |b| && b[j] == x;
          assert x != b[0] by { LessIrreflexive(b[0]); }
          assert x in a;
        }
      }
      AscendingUnique(a[1..], b[1..]);
      assert a == [a[0]] + a[1..] && b == [b[0]] + b[1..];
    }
  }

  /** The keys of the groups are the keys of the input. */
  lemma InGroupKeys(s: seq<KeyValue>, x: Bytes)
    ensures x in GroupKeys(Groups(s)) <==> x in Keys(s)
  {
    var gs := Groups(s);
    GroupsKeys(s);
    if x in GroupKeys(gs) {
      var i :| 0 <= i < |gs| && GroupKeys(gs)[i] == x;
      assert gs[i] in gs;
    }
    if x in Keys(s) {
      var g :| g in gs && g.key == x;
      var i :| 0 <= i < |gs| && gs[i] == g;
      assert GroupKeys(gs)[i] == x;
    }
  }

  /** Permutations have the same keys. */
  lemma SameKeys(p: seq<KeyValue>, q: seq<KeyValue>)
    requires multiset(p) == multiset(q)
    ensures Keys(p) == Keys(q)
  {
    forall kv
      ensures kv in p <==> kv in q
    {
      assert kv in p <==> kv in multiset(p);
      assert kv in q <==> kv in multiset(q);
    }
  }

  /** Whatever sorted permutation the sort produces, the reduce task sees
      the same keys, in the same order, with the same number of values. */
  lemma SortedOrderIrrelevant(p: seq<KeyValue>, q: seq<KeyValue>)
    requires SortedByKey(p) && SortedByKey(q) && multiset(p) == multiset(q)
    ensures Tally(p) == Tally(q)
  {
    var gp, gq := Groups(p), Groups(q);
    GroupsAscending(p);
    GroupsAscending(q);
    SameKeys(p, q);
    forall x
      ensures x in GroupKeys(gp) <==> x in GroupKeys(gq)
    {
      InGroupKeys(p, x);
      InGroupKeys(q, x);
    }
    AscendingUnique(GroupKeys(gp), GroupKeys(gq));
    assert |gp| == |GroupKeys(gp)| == |GroupKeys(gq)| == |gq|;
    GroupsCollect(p);
    GroupsCollect(q);
    forall i | 0 <= i < |gp|
      ensures Tally(p)[i] == Tally(q)[i]
    {
      assert GroupKeys(gp)[i] == GroupKeys(gq)[i];
      CountPermutation(p, q, gp[i].key);
    }
  }
}
