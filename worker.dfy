/** The worker's computation: the word-count map and reduce functions,
    the key-to-partition hash, the map task that splits its records into
    one intermediate file per reduce task, and the reduce task that reads,
    sorts and groups them. The file system is modelled as a value: the
    intermediate files as a map from (map task id, reduce task id) to the
    records written there, and the output files as a map from reduce task
    id to their bytes. */
module Worker {
  import opened Types
  import Fnv
  import opened Text
  import opened ByteOrder
  import opened Shuffle

  /** The value every record of mapF carries: the string "1". */
  const One: Bytes := [0x31]

  // ---------------------------------------------------------------------
  // Hashing keys to partitions

  /** ihash: FNV-1a of the key's bytes with the top bit masked off
      (& 0x7fffffff), that is, the 32-bit sum modulo 2^31. */
  function Ihash(key: Bytes): (h: int)
    ensures 0 <= h < 0x8000_0000
  {
    (Fnv.Sum32a(key) as int) % 0x8000_0000
  }

  /** The reduce task a key goes to. ihash is non-negative, so Go's
      truncating % agrees with Dafny's here. */
  function Bucket(key: Bytes, nReduce: int): (b: int)
    requires nReduce > 0
    ensures 0 <= b < nReduce
  {
    Ihash(key) % nReduce
  }

  // ---------------------------------------------------------------------
  // The map and reduce functions

  /** The records mapF returns: one (word, "1") per field, in order. */
  function MapOutput(contents: seq<char>, isLetter: char -> bool): seq<KeyValue>
  {
    WordRecords(Fields(contents, isLetter))
  }

  /** One (word, "1") record per word, in order. */
  function WordRecords(ws: seq<seq<char>>): (r: seq<KeyValue>)
    ensures |r| == |ws|
    ensures forall i :: 0 <= i < |ws| ==> r[i] == KeyValue(Encode(ws[i]), One)
    decreases |ws|
  {
    if ws == [] then [] else [KeyValue(Encode(ws[0]), One)] + WordRecords(ws[1..])
  }

  /** mapF: split the contents into words and emit (word, "1") for each. */
  method MapF(contents: seq<char>, isLetter: char -> bool) returns (kva: seq<KeyValue>)
    ensures kva == MapOutput(contents, isLetter)
  {
    var words := Fields(contents, isLetter);
    kva := [];
    for i := 0 to |words|
      invariant |kva| == i
      invariant forall j :: 0 <= j < i ==> kva[j] == KeyValue(Encode(words[j]), One)
    {
      kva := kva + [KeyValue(Encode(words[i]), One)];
    }
  }

  /** reduceF: the number of values, printed in decimal. */
  function ReduceF(values: seq<Bytes>): (r: Bytes)
    ensures forall i :: 0 <= i < |r| ==> IsDigit(r[i])
    ensures ParseDecimal(r) == |values|
  {
    DecimalRoundTrip(|values|);
    Decimal(|values|)
  }

  /** The reduce-function test: three "1"s give "3". */
  lemma ReduceFExample()
    ensures ReduceF([One, One, One]) == [0x33]
  {
  }

  /** The hash test's keys: "hello" and "world" land on different
      hashes, and the hash of a key is the same each time. */
  lemma IhashHelloWorld()
    ensures Ihash([0x68, 0x65, 0x6c, 0x6c, 0x6f]) != Ihash([0x77, 0x6f, 0x72, 0x6c, 0x64])
  {
    var hello: Bytes := [0x68, 0x65, 0x6c, 0x6c, 0x6f];
    var world: Bytes := [0x77, 0x6f, 0x72, 0x6c, 0x64];
    assert hello == [0x68] + [0x65] + [0x6c] + [0x6c] + [0x6f];
    var h1 := Fnv.Round(Fnv.OffsetBasis, 0x68);
    var h2 := Fnv.Round(h1, 0x65);
    var h3 := Fnv.Round(h2, 0x6c);
    var h4 := Fnv.Round(h3, 0x6c);
    var h5 := Fnv.Round(h4, 0x6f);
    assert Fnv.Absorb(h4, [0x6f]) == h5;
    assert Fnv.Absorb(h3, [0x6c, 0x6f]) == h5;
    assert Fnv.Absorb(h2, [0x6c, 0x6c, 0x6f]) == h5;
    assert Fnv.Absorb(h1, [0x65, 0x6c, 0x6c, 0x6f]) == h5;
    assert Fnv.Sum32a(hello) == h5;
    var g1 := Fnv.Round(Fnv.OffsetBasis, 0x77);
    var g2 := Fnv.Round(g1, 0x6f);
    var g3 := Fnv.Round(g2, 0x72);
    var g4 := Fnv.Round(g3, 0x6c);
    var g5 := Fnv.Round(g4, 0x64);
    assert Fnv.Absorb(g4, [0x64]) == g5;
    assert Fnv.Absorb(g3, [0x6c, 0x64]) == g5;
    assert Fnv.Absorb(g2, [0x72, 0x6c, 0x64]) == g5;
    assert Fnv.Absorb(g1, [0x6f, 0x72, 0x6c, 0x64]) == g5;
    assert Fnv.Sum32a(world) == g5;
  }

  /** The map-function test: the records of "hello world goodbye world",
      sorted by key, are goodbye, hello, world, world, each with "1". */
  lemma MapFExample()
    ensures SortByKey(MapOutput("hello world goodbye world", AsciiLetter))
         == [KeyValue(Goodbye, One), KeyValue(Hello, One), KeyValue(World, One), KeyValue(World, One)]
  {
    FieldsExample();
    var h, w, g := KeyValue(Hello, One), KeyValue(World, One), KeyValue(Goodbye, One);
    ExampleRecords();
    ExampleKeysOrdered();
    SortFour(h, w, g);
  }

  const Hello: Bytes := [0x68, 0x65, 0x6c, 0x6c, 0x6f]
  const World: Bytes := [0x77, 0x6f, 0x72, 0x6c, 0x64]
  const Goodbye: Bytes := [0x67, 0x6f, 0x6f, 0x64, 0x62, 0x79, 0x65]

  lemma ExampleRecords()
    ensures WordRecords(["hello", "world", "goodbye", "world"])
         == [KeyValue(Hello, One), KeyValue(World, One), KeyValue(Goodbye, One), KeyValue(World, One)]
  {
    EncodeAscii("hello");
    EncodeAscii("world");
    EncodeAscii("goodbye");
    assert Encode("hello") == Hello;
    assert Encode("world") == World;
    assert Encode("goodbye") == Goodbye;
  }

  lemma ExampleKeysOrdered()
    ensures Less(Goodbye, Hello) && Less(Hello, World) && Less(Goodbye, World)
    ensures !Less(Hello, Goodbye) && !Less(World, Hello) && !Less(World, Goodbye) && !Less(World, World)
  {
    assert Less(Goodbye, Hello) && Less(Hello, World) && Less(Goodbye, World) by {
      assert Goodbye[0] == 0x67 && Hello[0] == 0x68 && World[0] == 0x77;
    }
    LessAsymmetric(Goodbye, Hello);
    LessAsymmetric(Hello, World);
    LessAsymmetric(Goodbye, World);
    LessIrreflexive(World);
  }

  /** Sorting four records whose keys are ordered g < h < w. */
  lemma SortFour(h: KeyValue, w: KeyValue, g: KeyValue)
    requires Less(g.key, h.key) && Less(h.key, w.key) && Less(g.key, w.key)
    requires !Less(h.key, g.key) && !Less(w.key, h.key) && !Less(w.key, g.key) && !Less(w.key, w.key)
    ensures SortByKey([h, w, g, w]) == [g, h, w, w]
  {
    SortCons(h, [w, g, w]);
    PrependFour(h, w, g);
    SortThree(w, g);
    InsertThird(h, g, w);
  }

  // PrependFour, ConsThree and ConsTwo state sequence-display identities on
  // their own: proved inside the sorting examples, where the sort's
  // sortedness quantifiers are in scope, the same equalities cost the
  // solver orders of magnitude more.
  lemma PrependFour(h: KeyValue, w: KeyValue, g: KeyValue)
    ensures [h] + [w, g, w] == [h, w, g, w]
  {
  }

  lemma ConsThree(a: KeyValue, b: KeyValue, c: KeyValue)
    ensures [a] + [b, c] == [a, b, c]
  {
  }

  lemma ConsTwo(a: KeyValue, b: KeyValue)
    ensures [a] + [b] == [a, b]
  {
  }

  lemma InsertThird(h: KeyValue, g: KeyValue, w: KeyValue)
    requires Less(g.key, h.key) && !Less(w.key, h.key)
    ensures Insert(h, [g, w, w]) == [g, h, w, w]
  {
    InsertPast(h, g, [w, w]);
    ConsThree(g, w, w);
    InsertFront(h, [w, w]);
    ConsThree(h, w, w);
  }

  lemma SortThree(w: KeyValue, g: KeyValue)
    requires Less(g.key, w.key) && !Less(w.key, g.key) && !Less(w.key, w.key)
    ensures SortByKey([w, g, w]) == [g, w, w]
  {
    SortTwo(g, w);
    SortCons(w, [g, w]);
    ConsThree(w, g, w);
    InsertPast(w, g, [w]);
    ConsTwo(g, w);
    InsertFront(w, [w]);
    ConsTwo(w, w);
  }

  lemma SortTwo(g: KeyValue, w: KeyValue)
    requires !Less(w.key, g.key)
    ensures SortByKey([g, w]) == [g, w]
  {
    SortOne(w);
    SortCons(g, [w]);
    ConsTwo(g, w);
    InsertFront(g, [w]);
  }

  lemma SortOne(w: KeyValue)
    ensures SortByKey([w]) == [w]
  {
    SortCons(w, []);
    InsertFront(w, []);
    assert [w] + [] == [w];
  }

  /** Insertion sort inserts the head into the sorted tail. */
  lemma SortCons(kv: KeyValue, rest: seq<KeyValue>)
    ensures SortByKey([kv] + rest) == Insert(kv, SortByKey(rest))
  {
    assert ([kv] + rest)[0] == kv && ([kv] + rest)[1..] == rest;
  }

  /** Inserting in front of a head that is not smaller. */
  lemma InsertFront(kv: KeyValue, s: seq<KeyValue>)
    requires s == [] || !Less(s[0].key, kv.key)
    ensures Insert(kv, s) == [kv] + s
  {
  }

  /** Inserting past a smaller head. */
  lemma InsertPast(kv: KeyValue, first: KeyValue, rest: seq<KeyValue>)
    requires Less(first.key, kv.key)
    ensures Insert(kv, [first] + rest) == [first] + Insert(kv, rest)
  {
    assert ([first] + rest)[1..] == rest;
  }

  /** Encoding is one-to-one, so counting keys counts words. */
  lemma EncodeInjective(a: seq<char>, b: seq<char>)
    requires Encode(a) == Encode(b)
    ensures a == b
  {
    DecodeEncode(a);
    DecodeEncode(b);
    assert CodePoints(a) == CodePoints(b);
    assert |a| == |CodePoints(a)| && |b| == |CodePoints(b)|;
    forall i | 0 <= i < |a|
      ensures a[i] == b[i]
    {
      assert CodePoints(a)[i] == a[i] as int && CodePoints(b)[i] == b[i] as int;
    }
  }

  /** How often w occurs in a list of words. */
  function Occurrences(ws: seq<seq<char>>, w: seq<char>): nat
    decreases |ws|
  {
    if ws == [] then 0 else (if ws[0] == w then 1 else 0) + Occurrences(ws[1..], w)
  }

  /** mapF emits one record per occurrence of each word. */
  lemma {:induction false} MapOutputCounts(contents: seq<char>, isLetter: char -> bool, w: seq<char>)
    ensures Count(MapOutput(contents, isLetter), Encode(w)) == Occurrences(Fields(contents, isLetter), w)
  {
    WordRecordsCount(Fields(contents, isLetter), w);
  }

  lemma {:induction false} WordRecordsCount(ws: seq<seq<char>>, w: seq<char>)
    ensures Count(WordRecords(ws), Encode(w)) == Occurrences(ws, w)
    decreases |ws|
  {
    if ws != [] {
      WordRecordsCount(ws[1..], w);
      if Encode(ws[0]) == Encode(w) {
        EncodeInjective(ws[0], w);
      }
    }
  }

  // ---------------------------------------------------------------------
  // The map task

  /** The records of kva that go to reduce task b, in order. */
  function BucketOf(kva: seq<KeyValue>, nReduce: int, b: int): seq<KeyValue>
    requires nReduce > 0
    decreases |kva|
  {
    if kva == [] then []
    else
      var last := kva[|kva| - 1];
      BucketOf(kva[..|kva| - 1], nReduce, b) + (if Bucket(last.key, nReduce) == b then [last] else [])
  }

  /** The intermediate files: (map task id, reduce task id) to the records
      in file tmp/mr-intermediate-<map>-<reduce>. */
  type Store = map<(int, int), seq<KeyValue>>

  /** The effect of a map task with id m on the intermediate files: its
      nReduce files hold exactly its records for each partition, and every
      other file is as it was. */
  ghost predicate MapWrote(store: Store, store': Store, m: int, nReduce: int, kva: seq<KeyValue>)
  {
    && (forall key :: key in store ==> key in store')
    && (forall i, j :: (i, j) in store' ==> (i, j) in store || (i == m && 0 <= j < nReduce))
    && (forall b :: 0 <= b < nReduce ==> (m, b) in store' && store'[(m, b)] == BucketOf(kva, nReduce, b))
    && (forall i, j :: (i, j) in store && i != m ==> store'[(i, j)] == store[(i, j)])
    && (forall j :: (m, j) in store && !(0 <= j < nReduce) ==> store'[(m, j)] == store[(m, j)])
  }

  /** doMapTask. make panics on a negative size and % panics on a zero
      divisor, so nReduce must be non-negative, and zero only when there
      is nothing to write. */
  method DoMapTask(store: Store, task: Task, contents: seq<char>, isLetter: char -> bool)
    returns (store': Store)
    requires task.nReduce >= 0
    requires task.nReduce == 0 ==> MapOutput(contents, isLetter) == []
    ensures MapWrote(store, store', task.id, task.nReduce, MapOutput(contents, isLetter))
  {
    var kva := MapF(contents, isLetter);
    var created := CreateIntermediateFiles(store, task.id, task.nReduce);
    store' := WriteRecords(created, task.id, task.nReduce, kva);
  }

  /** os.Create for each file of the map task: each exists and is empty. */
  method CreateIntermediateFiles(store: Store, m: int, n: int) returns (store': Store)
    requires n >= 0
    ensures forall key :: key in store' <==> key in store || (key.0 == m && 0 <= key.1 < n)
    ensures forall b :: 0 <= b < n ==> store'[(m, b)] == []
    ensures forall key :: key in store && !(key.0 == m && 0 <= key.1 < n) ==> store'[key] == store[key]
  {
    store' := store;
    for i := 0 to n
      invariant forall key :: key in store' <==> key in store || (key.0 == m && 0 <= key.1 < i)
      invariant forall b :: 0 <= b < i ==> store'[(m, b)] == []
      invariant forall key :: key in store && !(key.0 == m && 0 <= key.1 < i) ==> store'[key] == store[key]
    {
      store' := store'[(m, i) := []];
    }
  }

  /** The encode loop: each record is appended to the file of its partition. */
  method WriteRecords(store: Store, m: int, n: int, kva: seq<KeyValue>) returns (store': Store)
    requires n >= 0 && (n == 0 ==> kva == [])
    requires forall b :: 0 <= b < n ==> (m, b) in store && store[(m, b)] == []
    ensures forall key :: key in store' <==> key in store
    ensures forall b :: 0 <= b < n ==> store'[(m, b)] == BucketOf(kva, n, b)
    ensures forall key :: key in store && !(key.0 == m && 0 <= key.1 < n) ==> store'[key] == store[key]
  {
    store' := store;
    for j := 0 to |kva|
      invariant forall key :: key in store' <==> key in store
      invariant forall b :: 0 <= b < n ==> store'[(m, b)] == BucketOf(kva[..j], n, b)
      invariant forall key :: key in store && !(key.0 == m && 0 <= key.1 < n) ==> store'[key] == store[key]
    {
      var kv := kva[j];
      var r := Ihash(kv.key) % n;
      assert kva[..j + 1][..j] == kva[..j];
      store' := store'[(m, r) := store'[(m, r)] + [kv]];
    }
    assert kva[..|kva|] == kva;
  }

  /** Partitioning distributes over concatenation. */
  lemma {:induction false} BucketOfConcat(a: seq<KeyValue>, b: seq<KeyValue>, n: int, r: int)
    requires n > 0
    ensures BucketOf(a + b, n, r) == BucketOf(a, n, r) + BucketOf(b, n, r)
    decreases |b|
  {
    if b == [] {
      assert a + b == a;
    } else {
      var b' := b[..|b| - 1];
      assert (a + b)[..|a + b| - 1] == a + b';
      assert (a + b)[|a + b| - 1] == b[|b| - 1];
      BucketOfConcat(a, b', n, r);
    }
  }

  /** A partition holds exactly the records whose key hashes to it. */
  lemma {:induction false} BucketOfMembers(kva: seq<KeyValue>, n: int, r: int, kv: KeyValue)
    requires n > 0
    ensures kv in BucketOf(kva, n, r) <==> kv in kva && Bucket(kv.key, n) == r
    decreases |kva|
  {
    if kva != [] {
      var init := kva[..|kva| - 1];
      BucketOfMembers(init, n, r, kv);
      assert kva == init + [kva[|kva| - 1]];
    }
  }

  /** Every record of a key lands in the key's partition, and nowhere else. */
  lemma {:induction false} BucketOfCount(kva: seq<KeyValue>, n: int, r: int, k: Bytes)
    requires n > 0
    ensures Count(BucketOf(kva, n, r), k) == if Bucket(k, n) == r then Count(kva, k) else 0
    decreases |kva|
  {
    if kva != [] {
      var init := kva[..|kva| - 1];
      var last := kva[|kva| - 1];
      BucketOfCount(init, n, r, k);
      assert kva == init + [last];
      ValuesWithKeyConcat(init, [last], k);
      ValuesWithKeyConcat(BucketOf(init, n, r), if Bucket(last.key, n) == r then [last] else [], k);
    }
  }

  /** The partitions split the map output: a record occurs in the
      partition of its key exactly as often as in the output, and in no
      other partition, so together the partitions hold the output's
      records, no more and no fewer. */
  lemma {:induction false} BucketsPartition(kva: seq<KeyValue>, n: int, r: int, kv: KeyValue)
    requires n > 0
    ensures multiset(BucketOf(kva, n, r))[kv] == if Bucket(kv.key, n) == r then multiset(kva)[kv] else 0
    decreases |kva|
  {
    if kva != [] {
      var init := kva[..|kva| - 1];
      var last := kva[|kva| - 1];
      BucketsPartition(init, n, r, kv);
      assert kva == init + [last];
      assert multiset(kva) == multiset(init) + multiset{last};
    }
  }

  // ---------------------------------------------------------------------
  // The reduce task

  /** The records reduce task r reads, in file order: partition r of map
      tasks 1..nMap, skipping a file that does not exist. */
  function Gather(store: Store, nMap: int, r: int): seq<KeyValue>
    decreases nMap
  {
    if nMap <= 0 then []
    else Gather(store, nMap - 1, r) + (if (nMap, r) in store then store[(nMap, r)] else [])
  }

  /** The read loop of doReduceTask. */
  method ReadIntermediate(store: Store, nMap: int, r: int) returns (intermediate: seq<KeyValue>)
    ensures intermediate == Gather(store, nMap, r)
  {
    intermediate := [];
    var i := 0;
    while i < nMap
      invariant 0 <= i && (i <= nMap || i == 0)
      invariant intermediate == Gather(store, i, r)
    {
      var mapTaskIndex := i + 1;
      if (mapTaskIndex, r) !in store {
        i := i + 1;
        continue;
      }
      var file := store[(mapTaskIndex, r)];
      var k := 0;
      while k < |file|
        invariant 0 <= k <= |file|
        invariant intermediate == Gather(store, i, r) + file[..k]
      {
        assert file[..k + 1] == file[..k] + [file[k]];
        intermediate := intermediate + [file[k]];
        k := k + 1;
      }
      assert file[..|file|] == file;
      i := i + 1;
    }
  }

  /** The reduce function applied to each group, in order. */
  function ReduceAll(gs: seq<Group>): (out: seq<KeyValue>)
    ensures |out| == |gs|
    ensures forall i :: 0 <= i < |gs| ==> out[i].key == gs[i].key
    decreases |gs|
  {
    if gs == [] then [] else [KeyValue(gs[0].key, ReduceF(gs[0].values))] + ReduceAll(gs[1..])
  }

  /** A prefix of equal keys that stops at a different key or at the end
      is the first run. */
  lemma RunLengthUnique(s: seq<KeyValue>, n: nat)
    requires 1 <= n <= |s|
    requires forall i :: 0 <= i < n ==> s[i].key == s[0].key
    requires n < |s| ==> s[n].key != s[0].key
    ensures RunLength(s) == n
  {
  }

  /** The run of equal keys from i up to j is the next group. */
  lemma NextGroup(s: seq<KeyValue>, i: nat, j: nat)
    requires i < j <= |s|
    requires forall t :: i <= t < j ==> s[t].key == s[i].key
    requires j < |s| ==> s[j].key != s[i].key
    ensures ReduceAll(Groups(s[i..])) == [KeyValue(s[i].key, ReduceF(Values(s[i..j])))] + ReduceAll(Groups(s[j..]))
  {
    var t := s[i..];
    RunLengthUnique(t, j - i);
    assert t[..j - i] == s[i..j] && t[j - i..] == s[j..];
    var gs := Groups(t);
    assert gs == [Group(s[i].key, Values(s[i..j]))] + Groups(s[j..]);
    assert gs[1..] == Groups(s[j..]);
  }

  /** The group-by loop of doReduceTask: scan a run of equal keys, collect
      its values, apply the reduce function. */
  method GroupAndReduce(s: seq<KeyValue>) returns (out: seq<KeyValue>)
    ensures out == ReduceAll(Groups(s))
  {
    out := [];
    var i := 0;
    while i < |s|
      invariant 0 <= i <= |s|
      invariant out + ReduceAll(Groups(s[i..])) == ReduceAll(Groups(s))
    {
      var j := ScanRun(s, i);
      var values := CollectValues(s, i, j);
      var output := ReduceF(values);
      NextGroup(s, i, j);
      out := out + [KeyValue(s[i].key, output)];
      i := j;
    }
  }

  /** The inner scan: j moves past every record with the key at i. */
  method ScanRun(s: seq<KeyValue>, i: nat) returns (j: nat)
    requires i < |s|
    ensures i < j <= |s|
    ensures forall t :: i <= t < j ==> s[t].key == s[i].key
    ensures j < |s| ==> s[j].key != s[i].key
  {
    j := i + 1;
    while j < |s| && s[j].key == s[i].key
      invariant i < j <= |s|
      invariant forall t :: i <= t < j ==> s[t].key == s[i].key
    {
      j := j + 1;
    }
  }

  /** The values of records i..j-1, in order. */
  method CollectValues(s: seq<KeyValue>, i: nat, j: nat) returns (values: seq<Bytes>)
    requires i <= j <= |s|
    ensures values == Values(s[i..j])
  {
    values := [];
    for k := i to j
      invariant values == Values(s[i..k])
    {
      assert Values(s[i..k + 1]) == Values(s[i..k]) + [s[k].value];
      values := values + [s[k].value];
    }
  }

  /** One output line: key, a space, the reduce result, a newline. */
  function Line(kv: KeyValue): Bytes
  {
    kv.key + [0x20] + kv.value + [0x0A]
  }

  /** The bytes written to the output file. */
  function Render(out: seq<KeyValue>): Bytes
    decreases |out|
  {
    if out == [] then [] else Line(out[0]) + Render(out[1..])
  }

  /** What reduce task r computes: its records, sorted by key, grouped,
      and reduced. */
  function ReduceOutput(store: Store, nMap: int, r: int): seq<KeyValue>
  {
    ReduceAll(Groups(SortByKey(Gather(store, nMap, r))))
  }

  /** doReduceTask: returns the contents of its output file. */
  method DoReduceTask(store: Store, task: Task) returns (output: Bytes)
    ensures output == Render(ReduceOutput(store, task.nMap, task.id))
  {
    var intermediate := ReadIntermediate(store, task.nMap, task.id);
    intermediate := SortByKey(intermediate);
    var out := GroupAndReduce(intermediate);
    output := Render(out);
  }

  /** The keys of an output, in order. */
  function OutputKeys(out: seq<KeyValue>): seq<Bytes>
  {
    seq(|out|, i requires 0 <= i < |out| => out[i].key)
  }

  /** What a reduce task writes: one line per distinct key of its input,
      keys strictly ascending, each with the number of records carrying it. */
  lemma ReduceOutputMeaning(store: Store, nMap: int, r: int)
    ensures var g := Gather(store, nMap, r);
      var out := ReduceOutput(store, nMap, r);
      && StrictlyAscending(OutputKeys(out))
      && (forall k :: k in OutputKeys(out) <==> k in Keys(g))
      && (forall i :: 0 <= i < |out| ==> out[i].value == Decimal(Count(g, out[i].key)))
  {
    var g := Gather(store, nMap, r);
    var s := SortByKey(g);
    var gs := Groups(s);
    var out := ReduceOutput(store, nMap, r);
    assert OutputKeys(out) == GroupKeys(gs);
    GroupsAscending(s);
    SameKeys(s, g);
    forall k
      ensures k in OutputKeys(out) <==> k in Keys(g)
    {
      InGroupKeys(s, k);
    }
    GroupsCollect(s);
    forall i | 0 <= i < |out|
      ensures out[i].value == Decimal(Count(g, out[i].key))
    {
      ReduceAllAt(gs, i);
      CountPermutation(s, g, gs[i].key);
    }
  }

  /** Each group the reduce function receives holds exactly the values
      its key carries in the task's input, whatever order the files were
      read and whatever order the unstable sort leaves equal keys in. */
  lemma ReduceInputGroups(store: Store, nMap: int, r: int)
    ensures var g := Gather(store, nMap, r);
      var gs := Groups(SortByKey(g));
      forall i :: 0 <= i < |gs| ==> multiset(gs[i].values) == multiset(ValuesWithKey(g, gs[i].key))
  {
    var g := Gather(store, nMap, r);
    var s := SortByKey(g);
    var gs := Groups(s);
    GroupsCollect(s);
    forall i | 0 <= i < |gs|
      ensures multiset(gs[i].values) == multiset(ValuesWithKey(g, gs[i].key))
    {
      ValuesPermutation(s, g, gs[i].key);
    }
  }

  /** The grouping example: records (a,1), (b,1), (a,1) in that order
      reduce to the lines "a 2" then "b 1". */
  lemma GroupingExample()
    ensures ReduceAll(Groups(SortByKey([KeyValue([0x61], One), KeyValue([0x62], One), KeyValue([0x61], One)])))
         == [KeyValue([0x61], [0x32]), KeyValue([0x62], [0x31])]
  {
    var a, b := KeyValue([0x61], One), KeyValue([0x62], One);
    ExampleSort(a, b);
    ExampleGroups(a, b);
    ExampleReduce();
  }

  lemma ExampleReduce()
    ensures ReduceAll([Group([0x61], [One, One]), Group([0x62], [One])])
         == [KeyValue([0x61], [0x32]), KeyValue([0x62], [0x31])]
  {
    var gs := [Group([0x61], [One, One]), Group([0x62], [One])];
    assert ReduceF([One, One]) == [0x32] && ReduceF([One]) == [0x31];
    assert gs[1..] == [Group([0x62], [One])] && gs[1..][1..] == [];
    assert ReduceAll(gs[1..]) == [KeyValue([0x62], [0x31])];
  }

  lemma ExampleSort(a: KeyValue, b: KeyValue)
    requires a == KeyValue([0x61], One) && b == KeyValue([0x62], One)
    ensures SortByKey([a, b, a]) == [a, a, b]
  {
    var s := [a, b, a];
    assert s[1..] == [b, a] && s[1..][1..] == [a] && [a][1..] == [];
    assert Less(a.key, b.key) by {
      assert a.key[0] == 0x61 && b.key[0] == 0x62;
    }
    LessAsymmetric(a.key, b.key);
    LessIrreflexive(a.key);
    assert SortByKey([a]) == [a];
    assert Insert(b, []) == [b];
    assert Insert(b, [a]) == [a] + Insert(b, [a][1..]);
    assert SortByKey([b, a]) == [a, b];
    assert Insert(a, [a, b]) == [a, a, b];
  }

  lemma ExampleGroups(a: KeyValue, b: KeyValue)
    requires a == KeyValue([0x61], One) && b == KeyValue([0x62], One)
    ensures Groups([a, a, b]) == [Group([0x61], [One, One]), Group([0x62], [One])]
  {
    var sorted := [a, a, b];
    RunLengthUnique(sorted, 2);
    assert sorted[..2] == [a, a] && sorted[2..] == [b];
    RunLengthUnique([b], 1);
    assert [b][..1] == [b] && [b][1..] == [];
    assert Values([a, a]) == [One, One];
    assert Values([b]) == [One];
    assert Groups([b]) == [Group(b.key, [One])] + Groups([]);
    assert Groups(sorted) == [Group(a.key, [One, One])] + Groups([b]);
  }

  lemma {:induction false} ReduceAllAt(gs: seq<Group>, i: nat)
    requires i < |gs|
    ensures ReduceAll(gs)[i] == KeyValue(gs[i].key, ReduceF(gs[i].values))
    decreases i
  {
    if i > 0 {
      ReduceAllAt(gs[1..], i - 1);
    }
  }

  // ---------------------------------------------------------------------
  // The task loop's dispatch

  /** The output files: reduce task id to the bytes of outputs/mr-out-<id>. */
  type Outputs = map<int, Bytes>

  /** One iteration of taskLoop after a task was handed out: run it by its
      type. readFile stands for reading the input file as text. */
  method ProcessTask(store: Store, outputs: Outputs, task: Task,
                     readFile: string -> seq<char>, isLetter: char -> bool)
    returns (store': Store, outputs': Outputs)
    requires task.taskType == MapTask ==> task.nReduce >= 0
    requires task.taskType == MapTask && task.nReduce == 0 ==>
      MapOutput(readFile(task.filename), isLetter) == []
    ensures task.taskType == MapTask ==>
      && outputs' == outputs
      && MapWrote(store, store', task.id, task.nReduce, MapOutput(readFile(task.filename), isLetter))
    ensures task.taskType == ReduceTask ==>
      && store' == store
      && outputs' == outputs[task.id := Render(ReduceOutput(store, task.nMap, task.id))]
  {
    match task.taskType {
      case MapTask =>
        store' := DoMapTask(store, task, readFile(task.filename), isLetter);
        outputs' := outputs;
      case ReduceTask =>
        var output := DoReduceTask(store, task);
        store', outputs' := store, outputs[task.id := output];
    }
  }

  // ---------------------------------------------------------------------
  // The whole job

  /** Every record emitted by the map tasks for inputs, in task order. */
  function AllRecords(inputs: seq<seq<char>>, isLetter: char -> bool): seq<KeyValue>
    decreases |inputs|
  {
    if inputs == [] then []
    else AllRecords(inputs[..|inputs| - 1], isLetter) + MapOutput(inputs[|inputs| - 1], isLetter)
  }

  /** outs[m-1] is what map task m emits for its input inputs[m-1]. */
  ghost predicate Emitted(outs: seq<seq<KeyValue>>, inputs: seq<seq<char>>, isLetter: char -> bool)
  {
    |outs| == |inputs| && forall i :: 0 <= i < |inputs| ==> outs[i] == MapOutput(inputs[i], isLetter)
  }

  /** The map tasks in done (ids 1..|outs|, task m emitting outs[m-1])
      have written their partitions. */
  ghost predicate MapTasksWrote(store: Store, outs: seq<seq<KeyValue>>, nReduce: int, done: set<int>)
  {
    && (forall m :: m in done ==> 1 <= m <= |outs|)
    && forall m, b :: m in done && 0 <= b < nReduce ==>
      && (m, b) in store
      && store[(m, b)] == BucketOf(outs[m - 1], nReduce, b)
  }

  /** A completed map task adds its partitions and keeps those of the
      others. */
  lemma {:induction false} MapTaskAdds(store: Store, store': Store, outs: seq<seq<KeyValue>>,
                                       nReduce: int, done: set<int>, m: int)
    requires 1 <= m <= |outs| && nReduce > 0
    requires MapTasksWrote(store, outs, nReduce, done)
    requires MapWrote(store, store', m, nReduce, outs[m - 1])
    ensures MapTasksWrote(store', outs, nReduce, done + {m})
  {
    forall m', b | m' in done + {m} && 0 <= b < nReduce
      ensures && (m', b) in store'
              && store'[(m', b)] == BucketOf(outs[m' - 1], nReduce, b)
    {
      if m' != m {
        assert (m', b) in store;
      }
    }
  }

  /** After all map tasks, partition r of the files of tasks 1..k holds
      exactly the records of the first k inputs that hash to r. */
  lemma {:induction false} GatherAll(store: Store, inputs: seq<seq<char>>, outs: seq<seq<KeyValue>>,
                                     nReduce: int, isLetter: char -> bool, done: set<int>, r: int, k: nat)
    requires 0 <= r < nReduce && k <= |inputs|
    requires Emitted(outs, inputs, isLetter)
    requires MapTasksWrote(store, outs, nReduce, done)
    requires forall m :: 1 <= m <= |inputs| ==> m in done
    ensures Gather(store, k, r) == BucketOf(AllRecords(inputs[..k], isLetter), nReduce, r)
    decreases k
  {
    if k > 0 {
      GatherAll(store, inputs, outs, nReduce, isLetter, done, r, k - 1);
      assert inputs[..k][..k - 1] == inputs[..k - 1];
      assert inputs[..k][k - 1] == inputs[k - 1];
      assert k in done;
      assert outs[k - 1] == MapOutput(inputs[k - 1], isLetter);
      BucketOfConcat(AllRecords(inputs[..k - 1], isLetter), MapOutput(inputs[k - 1], isLetter), nReduce, r);
    }
  }

  /** Word count is correct: once every map task has written its files,
      reduce task r outputs, in ascending order, exactly the keys emitted
      for any input that hash to r, each with the number of times it was
      emitted. */
  lemma WordCountCorrect(store: Store, inputs: seq<seq<char>>, outs: seq<seq<KeyValue>>,
                         nReduce: int, isLetter: char -> bool, done: set<int>, r: int)
    requires 0 <= r < nReduce
    requires Emitted(outs, inputs, isLetter)
    requires MapTasksWrote(store, outs, nReduce, done)
    requires forall m :: 1 <= m <= |inputs| ==> m in done
    ensures var out := ReduceOutput(store, |inputs|, r);
      var all := AllRecords(inputs, isLetter);
      && StrictlyAscending(OutputKeys(out))
      && (forall k :: k in OutputKeys(out) <==> k in Keys(all) && Bucket(k, nReduce) == r)
      && (forall i :: 0 <= i < |out| ==> out[i].value == Decimal(Count(all, out[i].key)))
  {
    var all := AllRecords(inputs, isLetter);
    GatherAll(store, inputs, outs, nReduce, isLetter, done, r, |inputs|);
    assert inputs[..|inputs|] == inputs;
    PartitionOutput(store, |inputs|, all, nReduce, r);
  }

  /** A reduce task whose input is partition r of all records outputs the
      keys of that partition, ascending, with their number of records. */
  lemma PartitionOutput(store: Store, nMap: int, all: seq<KeyValue>, nReduce: int, r: int)
    requires 0 <= r < nReduce
    requires Gather(store, nMap, r) == BucketOf(all, nReduce, r)
    ensures var out := ReduceOutput(store, nMap, r);
      && StrictlyAscending(OutputKeys(out))
      && (forall k :: k in OutputKeys(out) <==> k in Keys(all) && Bucket(k, nReduce) == r)
      && (forall i :: 0 <= i < |out| ==> out[i].value == Decimal(Count(all, out[i].key)))
  {
    ReduceOutputMeaning(store, nMap, r);
    PartitionKeys(all, nReduce, r);
    CountsCarryOver(ReduceOutput(store, nMap, r), all, nReduce, r);
  }

  /** Counts within a partition are counts within all records. */
  lemma CountsCarryOver(out: seq<KeyValue>, all: seq<KeyValue>, nReduce: int, r: int)
    requires 0 <= r < nReduce
    requires forall k :: k in OutputKeys(out) <==> k in Keys(all) && Bucket(k, nReduce) == r
    requires forall i :: 0 <= i < |out| ==> out[i].value == Decimal(Count(BucketOf(all, nReduce, r), out[i].key))
    ensures forall i :: 0 <= i < |out| ==> out[i].value == Decimal(Count(all, out[i].key))
  {
    forall i | 0 <= i < |out|
      ensures out[i].value == Decimal(Count(all, out[i].key))
    {
      assert OutputKeys(out)[i] == out[i].key;
      BucketOfCount(all, nReduce, r, out[i].key);
    }
  }

  /** The keys of a partition are the keys that hash to it. */
  lemma PartitionKeys(all: seq<KeyValue>, nReduce: int, r: int)
    requires 0 <= r < nReduce
    ensures forall k :: k in Keys(BucketOf(all, nReduce, r)) <==> k in Keys(all) && Bucket(k, nReduce) == r
  {
    var g := BucketOf(all, nReduce, r);
    forall k
      ensures k in Keys(g) <==> k in Keys(all) && Bucket(k, nReduce) == r
    {
      if k in Keys(g) {
        var kv :| kv in g && kv.key == k;
        BucketOfMembers(all, nReduce, r, kv);
      }
      if k in Keys(all) && Bucket(k, nReduce) == r {
        var kv :| kv in all && kv.key == k;
        BucketOfMembers(all, nReduce, r, kv);
      }
    }
  }

  /** How often w occurs among the words of all inputs. */
  function TotalOccurrences(inputs: seq<seq<char>>, isLetter: char -> bool, w: seq<char>): nat
    decreases |inputs|
  {
    if inputs == [] then 0
    else TotalOccurrences(inputs[..|inputs| - 1], isLetter, w)
         + Occurrences(Fields(inputs[|inputs| - 1], isLetter), w)
  }

  /** The records emitted for a word number its occurrences in the inputs. */
  lemma {:induction false} AllRecordsCount(inputs: seq<seq<char>>, isLetter: char -> bool, w: seq<char>)
    ensures Count(AllRecords(inputs, isLetter), Encode(w)) == TotalOccurrences(inputs, isLetter, w)
    decreases |inputs|
  {
    if inputs != [] {
      var init := inputs[..|inputs| - 1];
      AllRecordsCount(init, isLetter, w);
      ValuesWithKeyConcat(AllRecords(init, isLetter), MapOutput(inputs[|inputs| - 1], isLetter), Encode(w));
      MapOutputCounts(inputs[|inputs| - 1], isLetter, w);
    }
  }

  /** Each key is reduced by exactly one task: the one its hash names. */
  lemma KeyInOneOutput(store: Store, inputs: seq<seq<char>>, outs: seq<seq<KeyValue>>,
                       nReduce: int, isLetter: char -> bool, done: set<int>, r1: int, r2: int, k: Bytes)
    requires 0 <= r1 < nReduce && 0 <= r2 < nReduce
    requires Emitted(outs, inputs, isLetter)
    requires MapTasksWrote(store, outs, nReduce, done)
    requires forall m :: 1 <= m <= |inputs| ==> m in done
    requires k in OutputKeys(ReduceOutput(store, |inputs|, r1))
    requires k in OutputKeys(ReduceOutput(store, |inputs|, r2))
    ensures r1 == r2
  {
    WordCountCorrect(store, inputs, outs, nReduce, isLetter, done, r1);
    WordCountCorrect(store, inputs, outs, nReduce, isLetter, done, r2);
  }
}
