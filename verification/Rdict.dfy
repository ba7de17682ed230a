/**
 * The framework's hash map: a fixed number of slots for every bucket, the entries of a bucket without gaps at its
 * front, one place beside the buckets for the entry of the null key, and a rehash that tries a larger table when a
 * bucket overflows.
 */
module Rdict {

  datatype Option<T> = None | Some(value: T)

  datatype Slot<K, V> = Empty | Entry(key: K, value: V)

  datatype Code = OK | ERROR | NOT_EXIST

  const BUCKET_CAPACITY: nat := 16
  const INIT_CAPACITY: nat := 16
  const EXPAND_FACTOR: nat := 2
  const HILL_EXPAND_CAPACITY: nat := 640000
  const HILL_ADD_CAPACITY: nat := 64000

  // ---- a bucket ----

  ghost predicate GapFree<K, V>(b: seq<Slot<K, V>>) {
    forall i, j :: 0 <= i < j < |b| && b[j].Entry? ==> b[i].Entry?
  }

  ghost predicate NoTwins<K, V>(b: seq<Slot<K, V>>) {
    forall i, j :: 0 <= i < j < |b| && b[i].Entry? && b[j].Entry? ==> b[i].key != b[j].key
  }

  // Where the search for a key stops: at its entry, at an empty slot, or at the end of the bucket.
  function Stop<K(==), V>(b: seq<Slot<K, V>>, key: K, from: nat): (j: nat)
    requires from <= |b|
    ensures from <= j <= |b|
    ensures forall i :: from <= i < j ==> b[i].Entry? && b[i].key != key
    ensures j < |b| ==> b[j].Empty? || b[j].key == key
    decreases |b| - from
  {
    if from == |b| || b[from].Empty? || b[from].key == key then from else Stop(b, key, from + 1)
  }

  // ---- a table ----

  ghost predicate Bucket<K, V>(t: seq<seq<Slot<K, V>>>, cap: nat, i: nat)
    requires i < |t|
  {
    |t[i]| == cap && GapFree(t[i]) && NoTwins(t[i])
  }

  function Home<K>(hash: K -> nat, key: K, buckets: nat): (i: nat)
    requires buckets > 0
    ensures i < buckets
  {
    hash(key) % buckets
  }

  // The entry in slot j of bucket i is in the right bucket and in the map.
  ghost predicate Right<K, V>(t: seq<seq<Slot<K, V>>>, hash: K -> nat, m: map<K, V>, i: nat, j: nat)
    requires i < |t| && j < |t[i]|
  {
    var s := t[i][j];
    s.Entry? ==> Home(hash, s.key, |t|) == i && s.key in m && m[s.key] == s.value
  }

  ghost predicate Found<K, V>(t: seq<seq<Slot<K, V>>>, hash: K -> nat, m: map<K, V>, key: K)
    requires |t| > 0 && key in m
  {
    Entry(key, m[key]) in t[Home(hash, key, |t|)]
  }

  // The table holds exactly the entries of m.
  ghost predicate Stores<K, V>(t: seq<seq<Slot<K, V>>>, cap: nat, hash: K -> nat, m: map<K, V>) {
    && |t| > 0
    && (forall i: nat :: i < |t| ==> Bucket(t, cap, i))
    && (forall i: nat, j: nat :: i < |t| && j < |t[i]| ==> Right(t, hash, m, i, j))
    && (forall key :: key in m ==> Found(t, hash, m, key))
  }

  // A search finds the entry of a key that is stored, and stops before any entry of another key otherwise.
  lemma Search<K, V>(t: seq<seq<Slot<K, V>>>, cap: nat, hash: K -> nat, m: map<K, V>, key: K)
    requires Stores(t, cap, hash, m)
    ensures var b := t[Home(hash, key, |t|)];
            var j := Stop(b, key, 0);
            if key in m then j < |b| && b[j] == Entry(key, m[key]) else j == |b| || b[j].Empty?
  {
    hide Home;
    var i := Home(hash, key, |t|);
    var b := t[i];
    var j := Stop(b, key, 0);
    assert Bucket(t, cap, i);
    if j < |b| && b[j].Entry? { assert Right(t, hash, m, i, j); }
    if key in m {
      assert Found(t, hash, m, key);
      var k :| 0 <= k < |b| && b[k] == Entry(key, m[key]);
      assert j <= k;
    }
  }

  // Writing an entry to the slot where the search for its key stopped.
  lemma Written<K, V>(t: seq<seq<Slot<K, V>>>, cap: nat, hash: K -> nat, m: map<K, V>, key: K, value: V)
    requires Stores(t, cap, hash, m)
    requires Stop(t[Home(hash, key, |t|)], key, 0) < |t[Home(hash, key, |t|)]|
    ensures var i := Home(hash, key, |t|);
            Stores(t[i := t[i][Stop(t[i], key, 0) := Entry(key, value)]], cap, hash, m[key := value])
  {
    hide Home;
    var i := Home(hash, key, |t|);
    assert Bucket(t, cap, i);
    var at := Stop(t[i], key, 0);
    var now: seq<seq<Slot<K, V>>>, more := t[i := t[i][at := Entry(key, value)]], m[key := value];
    Search(t, cap, hash, m, key);
    forall h: nat | h < |now|
      ensures Bucket(now, cap, h)
    {
      assert Bucket(t, cap, h);
      if h == i { WrittenBucket(t[i], key, value); }
    }
    forall h: nat, j: nat | h < |now| && j < |now[h]|
      ensures Right(now, hash, more, h, j)
    {
      if h != i || j != at {
        assert Right(t, hash, m, h, j);
        if h == i && t[i][j].Entry? { WrittenElsewhere(t[i], key, j); }
      }
    }
    forall k | k in more
      ensures Found(now, hash, more, k)
    {
      if k == key {
        assert now[i][at] == Entry(key, value);
      } else {
        assert Found(t, hash, m, k);
        var h := Home(hash, k, |t|);
        var j :| 0 <= j < |t[h]| && t[h][j] == Entry(k, m[k]);
        assert now[h][j] == Entry(k, m[k]);
      }
    }
  }

  lemma WrittenBucket<K, V>(b: seq<Slot<K, V>>, key: K, value: V)
    requires GapFree(b) && NoTwins(b) && Stop(b, key, 0) < |b|
    ensures var now := b[Stop(b, key, 0) := Entry(key, value)]; GapFree(now) && NoTwins(now)
  {
    var at := Stop(b, key, 0);
    forall j | 0 <= j < |b| && j != at && b[j].Entry?
      ensures b[j].key != key
    {
      WrittenElsewhere(b, key, j);
    }
  }

  lemma WrittenElsewhere<K, V>(b: seq<Slot<K, V>>, key: K, j: nat)
    requires GapFree(b) && NoTwins(b) && Stop(b, key, 0) < |b|
    requires j < |b| && j != Stop(b, key, 0) && b[j].Entry?
    ensures b[j].key != key
  {
  }

  // ---- taking an entry out ----

  // The last entry behind place j; j when there is none.
  function LastAfter<K, V>(b: seq<Slot<K, V>>, j: nat, n: nat): (r: nat)
    requires j < n <= |b|
    ensures j <= r < n
    ensures r > j ==> b[r].Entry?
    ensures forall i :: r < i < n ==> b[i].Empty?
    decreases n
  {
    if n - 1 == j then j else if b[n - 1].Entry? then n - 1 else LastAfter(b, j, n - 1)
  }

  // The bucket without the entry at j: the last entry moves to its place.
  function Closed<K, V>(b: seq<Slot<K, V>>, j: nat): seq<Slot<K, V>>
    requires j < |b|
  {
    var r := LastAfter(b, j, |b|);
    b[j := b[r]][r := Empty]
  }

  lemma ClosedBucket<K, V>(b: seq<Slot<K, V>>, j: nat)
    requires GapFree(b) && NoTwins(b) && j < |b| && b[j].Entry?
    ensures GapFree(Closed(b, j)) && NoTwins(Closed(b, j)) && |Closed(b, j)| == |b|
  {
  }

  lemma ClosedHas<K, V>(b: seq<Slot<K, V>>, j: nat, s: Slot<K, V>)
    requires NoTwins(b) && j < |b| && b[j].Entry? && s.Entry?
    ensures s in Closed(b, j) <==> s in b && s != b[j]
  {
    var r := LastAfter(b, j, |b|);
    var now := Closed(b, j);
    if s in now {
      var k :| 0 <= k < |now| && now[k] == s;
      assert b[if k == j then r else k] == s;
    }
    if s in b && s != b[j] {
      var k :| 0 <= k < |b| && b[k] == s;
      assert now[if k == r then j else k] == s;
    }
  }

  lemma TakenOut<K, V>(t: seq<seq<Slot<K, V>>>, cap: nat, hash: K -> nat, m: map<K, V>, key: K)
    requires Stores(t, cap, hash, m) && key in m
    ensures var i := Home(hash, key, |t|);
            var j := Stop(t[i], key, 0);
            && j < |t[i]| && Stores(t[i := Closed(t[i], j)], cap, hash, m - {key})
  {
    hide Home, Closed;
    var i := Home(hash, key, |t|);
    var j := Stop(t[i], key, 0);
    Search(t, cap, hash, m, key);
    assert Bucket(t, cap, i);
    ClosedBucket(t[i], j);
    var now: seq<seq<Slot<K, V>>>, less := t[i := Closed(t[i], j)], m - {key};
    forall h: nat | h < |now|
      ensures Bucket(now, cap, h)
    {
      assert Bucket(t, cap, h);
    }
    forall h: nat, k: nat | h < |now| && k < |now[h]|
      ensures Right(now, hash, less, h, k)
    {
      var s := now[h][k];
      if s.Entry? {
        assert s in now[h];
        if h == i { ClosedHas(t[i], j, s); }
        assert s in t[h];
        var at :| 0 <= at < |t[h]| && t[h][at] == s;
        assert Right(t, hash, m, h, at);
      }
    }
    forall k | k in less
      ensures Found(now, hash, less, k)
    {
      assert Found(t, hash, m, k);
      if Home(hash, k, |t|) == i { ClosedHas(t[i], j, Entry(k, m[k])); }
    }
  }

  // ---- moving everything to another table ----

  // The keys in the buckets before i and in the first j slots of bucket i.
  ghost function Visited<K, V>(t: seq<seq<Slot<K, V>>>, i: nat, j: nat): set<K> {
    set h, x | 0 <= h < |t| && 0 <= x < |t[h]| && (h < i || (h == i && x < j)) && t[h][x].Entry? :: t[h][x].key
  }

  ghost function Part<K, V>(m: map<K, V>, keys: set<K>): map<K, V> {
    map k | k in m && k in keys :: m[k]
  }

  lemma NoneVisited<K, V>(t: seq<seq<Slot<K, V>>>, m: map<K, V>)
    ensures Visited(t, 0, 0) == {} && Part(m, Visited(t, 0, 0)) == map[]
  {
  }

  // The next entry has not been visited.
  lemma VisitedMore<K, V>(t: seq<seq<Slot<K, V>>>, cap: nat, hash: K -> nat, m: map<K, V>, i: nat, j: nat)
    requires Stores(t, cap, hash, m) && i < |t| && j < |t[i]| && t[i][j].Entry?
    ensures var key := t[i][j].key;
            && key in m && m[key] == t[i][j].value && key !in Visited(t, i, j)
            && Visited(t, i, j + 1) == Visited(t, i, j) + {key}
            && Part(m, Visited(t, i, j + 1)) == Part(m, Visited(t, i, j))[key := m[key]]
  {
    hide Home;
    var key := t[i][j].key;
    assert Right(t, hash, m, i, j);
    assert Bucket(t, cap, i);
    forall h: nat, x: nat | h < |t| && x < |t[h]| && (h < i || (h == i && x < j)) && t[h][x].Entry?
      ensures t[h][x].key != key
    {
      assert Right(t, hash, m, h, x);
    }
    assert Visited(t, i, j + 1) == Visited(t, i, j) + {key};
  }

  // The slots behind an empty one are empty too.
  lemma VisitedRow<K, V>(t: seq<seq<Slot<K, V>>>, cap: nat, hash: K -> nat, m: map<K, V>, i: nat, j: nat)
    requires Stores(t, cap, hash, m) && i < |t| && j <= |t[i]| && (j == |t[i]| || t[i][j].Empty?)
    ensures Visited(t, i, j) == Visited(t, i + 1, 0)
  {
    assert Bucket(t, cap, i);
  }

  lemma VisitedAll<K, V>(t: seq<seq<Slot<K, V>>>, cap: nat, hash: K -> nat, m: map<K, V>)
    requires Stores(t, cap, hash, m)
    ensures Visited(t, |t|, 0) == m.Keys && Part(m, Visited(t, |t|, 0)) == m
  {
    hide Home;
    forall k | k in m
      ensures k in Visited(t, |t|, 0)
    {
      assert Found(t, hash, m, k);
      var h := Home(hash, k, |t|);
      var x :| 0 <= x < |t[h]| && t[h][x] == Entry(k, m[k]);
    }
    forall h: nat, x: nat | h < |t| && x < |t[h]| && t[h][x].Entry?
      ensures t[h][x].key in m
    {
      assert Right(t, hash, m, h, x);
    }
  }

  lemma NothingStored<K, V>(n: nat, cap: nat, hash: K -> nat, m: map<K, V>)
    requires n > 0 && m == map[]
    ensures Stores(seq(n, i => seq(cap, j => Empty)), cap, hash, m)
  {
    var t: seq<seq<Slot<K, V>>> := seq(n, i => seq(cap, j => Empty));
    forall i: nat | i < |t|
      ensures Bucket(t, cap, i)
    {
    }
  }

  // ---- crowded buckets ----

  ghost function KeysOf<K, V>(b: seq<Slot<K, V>>): set<K> {
    set j | 0 <= j < |b| && b[j].Entry? :: b[j].key
  }

  // The keys that ask for bucket i.
  ghost function Crowd<K, V>(m: map<K, V>, hash: K -> nat, buckets: nat, i: nat): set<K>
    requires buckets > 0
  {
    set key | key in m && Home(hash, key, buckets) == i
  }

  // No bucket is asked for by more keys than it has slots.
  ghost predicate Spread<K, V>(m: map<K, V>, hash: K -> nat, buckets: nat, cap: nat)
    requires buckets > 0
  {
    forall i: nat :: i < buckets ==> |Crowd(m, hash, buckets, i)| <= cap
  }

  // Entries with different keys are as many as their keys.
  lemma {:induction false} KeysCounted<K, V>(b: seq<Slot<K, V>>)
    requires NoTwins(b)
    ensures |KeysOf(b)| <= |b|
    ensures (forall j :: 0 <= j < |b| ==> b[j].Entry?) <==> |KeysOf(b)| == |b|
  {
    hide KeysOf;
    if b == [] {
      assert KeysOf(b) == {} by { NoKeys<K, V>(); }
    } else {
      var n := |b| - 1;
      KeysCounted(b[..n]);
      KeysStep(b);
    }
  }

  lemma NoKeys<K, V>()
    ensures KeysOf<K, V>([]) == {}
  {
  }

  lemma KeysStep<K, V>(b: seq<Slot<K, V>>)
    requires b != [] && NoTwins(b)
    ensures var n := |b| - 1;
            && KeysOf(b) == KeysOf(b[..n]) + (if b[n].Entry? then {b[n].key} else {})
            && (b[n].Entry? ==> b[n].key !in KeysOf(b[..n]))
  {
  }

  lemma MoreKeys<K>(a: set<K>, b: set<K>)
    requires a <= b
    ensures |a| <= |b| && (|a| == |b| ==> a == b)
  {
    var rest := b - a;
    assert b == a + rest;
  }

  // Fewer than cap - 1 other keys ask for the bucket of the key.
  ghost predicate Room<K, V>(m: map<K, V>, hash: K -> nat, buckets: nat, cap: nat, key: K) {
    buckets > 0 && |Crowd(m, hash, buckets, Home(hash, key, buckets)) - {key}| < cap - 1
  }

  // What is stored is spread.
  lemma StoredSpread<K, V>(t: seq<seq<Slot<K, V>>>, cap: nat, hash: K -> nat, m: map<K, V>)
    requires Stores(t, cap, hash, m)
    ensures Spread(m, hash, |t|, cap)
  {
    hide Home;
    forall i: nat | i < |t|
      ensures |Crowd(m, hash, |t|, i)| <= cap
    {
      assert Bucket(t, cap, i);
      KeysCounted(t[i]);
      forall key | key in Crowd(m, hash, |t|, i)
        ensures key in KeysOf(t[i])
      {
        assert Found(t, hash, m, key);
      }
      MoreKeys(Crowd(m, hash, |t|, i), KeysOf(t[i]));
    }
  }

  // A full bucket and one more key that asks for it.
  lemma Overflows<K, V>(t: seq<seq<Slot<K, V>>>, cap: nat, hash: K -> nat, part: map<K, V>, m: map<K, V>, key: K)
    requires Stores(t, cap, hash, part) && part.Keys <= m.Keys && key in m && key !in part
    requires var b := t[Home(hash, key, |t|)]; forall j :: 0 <= j < |b| ==> b[j].Entry?
    ensures !Spread(m, hash, |t|, cap)
  {
    hide Home;
    var i := Home(hash, key, |t|);
    assert Bucket(t, cap, i);
    KeysCounted(t[i]);
    forall k | k in KeysOf(t[i])
      ensures k in Crowd(part, hash, |t|, i)
    {
      var j :| 0 <= j < |t[i]| && t[i][j].Entry? && t[i][j].key == k;
      assert Right(t, hash, part, i, j);
    }
    assert key !in KeysOf(t[i]);
    MoreKeys(KeysOf(t[i]) + {key}, Crowd(m, hash, |t|, i));
  }

  // A search goes past other keys of the bucket only.
  lemma StopsEarly<K, V>(t: seq<seq<Slot<K, V>>>, cap: nat, hash: K -> nat, m: map<K, V>, key: K)
    requires Stores(t, cap, hash, m)
    ensures var i := Home(hash, key, |t|); Stop(t[i], key, 0) <= |Crowd(m, hash, |t|, i) - {key}|
  {
    hide Home;
    var i := Home(hash, key, |t|);
    assert Bucket(t, cap, i);
    var passed := t[i][..Stop(t[i], key, 0)];
    KeysCounted(passed);
    forall k | k in KeysOf(passed)
      ensures k in Crowd(m, hash, |t|, i) - {key}
    {
      var j :| 0 <= j < |passed| && passed[j].Entry? && passed[j].key == k;
      assert Right(t, hash, m, i, j);
    }
    MoreKeys(KeysOf(passed), Crowd(m, hash, |t|, i) - {key});
  }

  // The keys in a bucket are those that ask for it.
  lemma KeysHome<K, V>(t: seq<seq<Slot<K, V>>>, cap: nat, hash: K -> nat, m: map<K, V>, i: nat)
    requires Stores(t, cap, hash, m) && i < |t|
    ensures KeysOf(t[i]) == Crowd(m, hash, |t|, i)
  {
    hide Home;
    forall k | k in KeysOf(t[i])
      ensures k in Crowd(m, hash, |t|, i)
    {
      var j :| 0 <= j < |t[i]| && t[i][j].Entry? && t[i][j].key == k;
      assert Right(t, hash, m, i, j);
    }
    forall k | k in Crowd(m, hash, |t|, i)
      ensures k in KeysOf(t[i])
    {
      assert Found(t, hash, m, k);
    }
  }

  // A bucket is full when as many keys ask for it as it has slots.
  lemma FullCrowd<K, V>(t: seq<seq<Slot<K, V>>>, cap: nat, hash: K -> nat, m: map<K, V>, i: nat)
    requires Stores(t, cap, hash, m) && i < |t|
    ensures |t[i]| == cap
    ensures (forall j :: 0 <= j < cap ==> t[i][j].Entry?) <==> |Crowd(m, hash, |t|, i)| == cap
  {
    hide Home, KeysOf;
    assert Bucket(t, cap, i);
    KeysHome(t, cap, hash, m, i);
    KeysCounted(t[i]);
  }

  // A search for a key that is not stored passes all keys of its bucket.
  lemma StopsBehind<K, V>(t: seq<seq<Slot<K, V>>>, cap: nat, hash: K -> nat, m: map<K, V>, key: K)
    requires Stores(t, cap, hash, m) && key !in m
    ensures var i := Home(hash, key, |t|); Stop(t[i], key, 0) == |Crowd(m, hash, |t|, i)|
  {
    hide Home;
    var i := Home(hash, key, |t|);
    assert Bucket(t, cap, i);
    Search(t, cap, hash, m, key);
    var passed := t[i][..Stop(t[i], key, 0)];
    KeysCounted(passed);
    KeysHome(t, cap, hash, m, i);
    assert KeysOf(t[i]) == KeysOf(passed);
  }

  // ---- where the entries go ----

  function Blank<K, V>(count: nat, cap: nat): seq<seq<Slot<K, V>>> {
    seq(count, i => seq(cap, j => Empty))
  }

  // An entry goes where the scan of its bucket stops.
  function Put<K(==), V>(t: seq<seq<Slot<K, V>>>, hash: K -> nat, e: Slot<K, V>): (r: seq<seq<Slot<K, V>>>)
    requires |t| > 0 && e.Entry?
    ensures |r| == |t|
  {
    var i := Home(hash, e.key, |t|);
    var j := Stop(t[i], e.key, 0);
    if j < |t[i]| then t[i := t[i][j := e]] else t
  }

  // A table after the entries of another one, those before slot j of bucket i, have been put into it one by one.
  function Refilled<K(==), V>(from: seq<seq<Slot<K, V>>>, hash: K -> nat, blank: seq<seq<Slot<K, V>>>, i: nat, j: nat)
    : (r: seq<seq<Slot<K, V>>>)
    requires |blank| > 0 && i <= |from| && j <= if i < |from| then |from[i]| else 0
    ensures |r| == |blank|
    decreases i, j
  {
    if j > 0 then
      var r := Refilled(from, hash, blank, i, j - 1);
      if from[i][j - 1].Entry? then Put(r, hash, from[i][j - 1]) else r
    else if i > 0 then Refilled(from, hash, blank, i - 1, |from[i - 1]|)
    else blank
  }

  // The table that a rehash makes of another one.
  function Moved<K(==), V>(from: seq<seq<Slot<K, V>>>, hash: K -> nat, count: nat, cap: nat): (r: seq<seq<Slot<K, V>>>)
    requires count > 0
    ensures |r| == count
  {
    Refilled(from, hash, Blank(count, cap), |from|, 0)
  }

  lemma RefilledOne<K, V>(from: seq<seq<Slot<K, V>>>, hash: K -> nat, blank: seq<seq<Slot<K, V>>>, i: nat, j: nat)
    requires |blank| > 0 && i < |from| && j < |from[i]| && from[i][j].Entry?
    ensures Refilled(from, hash, blank, i, j + 1) == Put(Refilled(from, hash, blank, i, j), hash, from[i][j])
  {
  }

  // Behind an empty slot nothing more comes.
  lemma {:induction false} RefilledRow<K, V>(from: seq<seq<Slot<K, V>>>, hash: K -> nat, blank: seq<seq<Slot<K, V>>>,
                                             i: nat, j: nat)
    requires |blank| > 0 && i < |from| && j <= |from[i]| && forall x :: j <= x < |from[i]| ==> from[i][x].Empty?
    ensures Refilled(from, hash, blank, i, j) == Refilled(from, hash, blank, i + 1, 0)
    decreases |from[i]| - j
  {
    if j < |from[i]| { RefilledRow(from, hash, blank, i, j + 1); }
  }

  // ---- scans without a bound ----

  // Every bucket from the i-th on is full.
  ghost predicate FullFrom<K, V>(m: map<K, V>, hash: K -> nat, buckets: nat, cap: nat, i: nat)
    requires buckets > 0
  {
    forall h: nat :: i <= h < buckets ==> |Crowd(m, hash, buckets, h)| == cap
  }

  // A scan for this key meets neither the key nor an empty slot before the end of the table.
  ghost predicate RunsOff<K, V>(m: map<K, V>, hash: K -> nat, buckets: nat, cap: nat, key: K)
    requires buckets > 0
  {
    key !in m && FullFrom(m, hash, buckets, cap, Home(hash, key, buckets))
  }

  // How the addition of a new key ends: the scan leaves the table, no larger table takes all keys, or the key is stored
  // in a table with so many buckets.
  datatype Ending = Off | NoTable | In(buckets: nat)

  ghost function Adding<K, V>(m: map<K, V>, hash: K -> nat, cap: nat, limit: nat, buckets: nat, key: K): Ending
    requires buckets > 0 && cap > 0
    decreases Left(limit, buckets * cap)
  {
    CapacityPositive(buckets, cap);
    if FullFrom(m, hash, buckets, cap, Home(hash, key, buckets)) then Off
    else if |Crowd(m, hash, buckets, Home(hash, key, buckets))| < cap - 1 then In(buckets)
    else
      match Chosen(m, hash, cap, limit, Grown(buckets * cap))
      case None => NoTable
      case Some(n) => Adding(m, hash, cap, limit, n, key)
  }

  // How it ends for a key that is stored: as the place of its entry in this table, and in those it moves to, says.  In
  // the last slot of a bucket it asks for a larger table although it needs no slot.
  ghost function Storing<K, V>(t: seq<seq<Slot<K, V>>>, m: map<K, V>, hash: K -> nat, cap: nat, limit: nat,
                               key: K): Ending
    requires |t| > 0 && cap > 0
    decreases Left(limit, |t| * cap)
  {
    CapacityPositive(|t|, cap);
    if Stop(t[Home(hash, key, |t|)], key, 0) < cap - 1 then In(|t|)
    else
      match Chosen(m, hash, cap, limit, Grown(|t| * cap))
      case None => NoTable
      case Some(n) => Storing(Moved(t, hash, n, cap), m, hash, cap, limit, key)
  }

  // ---- the dictionary ----

  // The capacity that is asked for when c is not enough.
  function Grown(c: nat): nat {
    if c < HILL_EXPAND_CAPACITY then c * EXPAND_FACTOR else c + HILL_ADD_CAPACITY
  }

  function Buckets(capacity: nat, cap: nat): nat
    requires cap > 0
  {
    if capacity % cap == 0 then capacity / cap else capacity / cap + 1
  }

  function Or(n: nat, usual: nat): nat {
    if n > 0 then n else usual
  }

  // How often a larger capacity may still be tried.
  function Left(limit: nat, c: nat): nat {
    if c <= limit then limit - c + 1 else 0
  }

  // The number of buckets that a rehash for at least so many entries ends with: the first one tried that keeps the
  // keys spread; none when the limit is reached before.
  ghost function Chosen<K, V>(m: map<K, V>, hash: K -> nat, cap: nat, limit: nat, least: nat): (n: Option<nat>)
    requires cap > 0 && least > 0
    ensures n.Some? ==> n.value > 0 && least <= n.value * cap <= limit
    decreases Left(limit, least)
  {
    var scaled := least * 4 / 3;
    var count := Buckets(scaled, cap);
    EnoughBuckets(scaled, cap);
    if count * cap > limit then None
    else if Spread(m, hash, count, cap) then Some(count)
    else Chosen(m, hash, cap, limit, Grown(scaled * 2))
  }

  // The smallest number of buckets with so many slots.
  lemma FewestBuckets(capacity: nat, cap: nat)
    requires cap > 0 && capacity > 0
    ensures var n := Buckets(capacity, cap); capacity <= n * cap < capacity + cap
  {
    var q, r := capacity / cap, capacity % cap;
    assert capacity == q * cap + r;
    assert (q + 1) * cap == q * cap + cap;
  }

  // How far the tries go: a third more than asked for, and after a bucket has overflowed twice that, and then as much
  // as a dictionary of that capacity grows.
  lemma Tries<K, V>(m: map<K, V>, hash: K -> nat, cap: nat, limit: nat, least: nat)
    returns (count: nat)
    requires cap > 0 && least > 0
    ensures var scaled := least * 4 / 3;
            var next := if 2 * scaled < 640000 then 4 * scaled else 2 * scaled + 64000;
            && count > 0 && scaled <= count * cap < scaled + cap && next > 0
            && Chosen(m, hash, cap, limit, least) ==
                 if count * cap > limit then None
                 else if Spread(m, hash, count, cap) then Some(count)
                 else Chosen(m, hash, cap, limit, next)
  {
    hide Spread;
    var scaled := least * 4 / 3;
    count := Buckets(scaled, cap);
    FewestBuckets(scaled, cap);
    EnoughBuckets(scaled, cap);
  }

  // The items are the entries of the keys seen, each once.
  ghost predicate Gathered<K, V>(items: seq<(K, V)>, seen: set<K>, m: map<K, V>) {
    && seen <= m.Keys && |items| == |seen|
    && (forall x :: x in items ==> x.0 in m && m[x.0] == x.1)
    && (forall k :: k in seen ==> (k, m[k]) in items)
  }

  lemma NothingGathered<K, V>(m: map<K, V>)
    ensures Gathered([], {}, m)
  {
  }

  lemma GatheredMore<K, V>(items: seq<(K, V)>, seen: set<K>, m: map<K, V>, k: K)
    requires Gathered(items, seen, m) && k in m && k !in seen
    ensures Gathered(items + [(k, m[k])], seen + {k}, m) && seen + {k} <= m.Keys
  {
    assert (items + [(k, m[k])])[|items|] == (k, m[k]);
  }

  lemma GatheredAll<K, V>(items: seq<(K, V)>, seen: set<K>, m: map<K, V>)
    requires Gathered(items, seen, m) && seen == m.Keys
    ensures forall x :: x in items ==> x.0 in m && m[x.0] == x.1
    ensures forall k :: k in m ==> (k, m[k]) in items
    ensures |items| == |m|
  {
  }

  // A place of the iterator: before everything, or at a slot of a bucket.
  datatype Place = Start | At(i: nat, j: nat)

  class Dict<K(==), V> {
    const hash: K -> nat
    const cap: nat
    const limit: nat
    var table: array<seq<Slot<K, V>>>
    var capacity: nat
    var size: nat
    var nullEntry: Option<V>
    ghost var entries: map<K, V>

    ghost predicate Valid()
      reads this, table
    {
      && cap >= 2 && capacity == table.Length * cap <= limit
      && Stores(table[..], cap, hash, entries)
      && size == |entries| + (if nullEntry.Some? then 1 else 0)
    }

    // rdict_find; out says that the scan leaves the table.
    method Find(key: Option<K>) returns (out: bool, value: Option<V>)
      requires Valid()
      ensures out <==> key.Some? && RunsOff(entries, hash, table.Length, cap, key.value)
      ensures !out ==> value == match key
                                case None => nullEntry
                                case Some(k) => if k in entries then Some(entries[k]) else None
    {
      hide Stores, Home, FullFrom;
      if key.None? { return false, nullEntry; }
      var k := key.value;
      TableSize(table[..], cap, hash, entries);
      Search(table[..], cap, hash, entries, k);
      var i := Home(hash, k, table.Length);
      var h, j;
      out, h, j := Scan(i, k);
      value := None;
      if !out {
        BucketSize(table[..], cap, hash, entries, i);
        if table[h][j].Entry? { value := Some(table[h][j].value); }
      }
    }

    // The search of rdict_find and rdict_add: only the key or an empty slot stops it, so it may go on into the next
    // buckets and out of the table.
    method Scan(i: nat, key: K) returns (out: bool, h: nat, j: nat)
      requires Valid() && table.Length > 0 && i == Home(hash, key, table.Length)
      ensures out <==> RunsOff(entries, hash, table.Length, cap, key)
      ensures !out ==> i <= h < table.Length && j < cap && |table[h]| == cap
      ensures !out && h == i ==> j == Stop(table[i], key, 0)
      ensures !out && h > i ==> table[h][j].Empty? && Stop(table[i], key, 0) == cap && key !in entries
    {
      hide Stores, Home, FullFrom, Crowd, RunsOff;
      out, h, j := false, i, 0;
      Search(table[..], cap, hash, entries, key);
      BucketSize(table[..], cap, hash, entries, i);
      while table[h][j].Entry? && table[h][j].key != key
        invariant i <= h < table.Length && j < cap && |table[h]| == cap
        invariant h == i ==> Stop(table[i], key, 0) == Stop(table[i], key, j)
        invariant h > i ==> Stop(table[i], key, 0) == cap && key !in entries
        invariant forall g: nat :: i <= g < h ==> |Crowd(entries, hash, table.Length, g)| == cap
        invariant forall x :: 0 <= x < j ==> table[h][x].Entry?
        decreases table.Length - h, cap - j
      {
        j := j + 1;
        if j == cap {
          FullCrowd(table[..], cap, hash, entries, h);
          assert table[..][h] == table[h];
          h, j := h + 1, 0;
          if h == table.Length {
            OffTable(entries, hash, table.Length, cap, key);
            return true, h, j;
          }
          BucketSize(table[..], cap, hash, entries, h);
        }
      }
      StopHere(table[..], cap, hash, entries, key, h, j);
    }

    // The entries move to a new table, unless one of its buckets is full.
    method MoveAll(count: nat) returns (more: array<seq<Slot<K, V>>>, fits: bool)
      requires Stores(table[..], cap, hash, entries) && count > 0 && cap >= 2
      ensures fresh(more) && more.Length == count
      ensures fits <==> Spread(entries, hash, count, cap)
      ensures fits ==> Stores(more[..], cap, hash, entries) && more[..] == Moved(table[..], hash, count, cap)
    {
      hide Home, Stores, Visited, Part, Spread, Refilled, Put;
      ghost var blank := Blank<K, V>(count, cap);
      more := new seq<Slot<K, V>>[count](_ => seq(cap, _ => Empty));
      NothingStored<K, V>(count, cap, hash, map[]);
      assert more[..] == blank;
      NothingRefilled(table[..], hash, blank);
      NoneVisited(table[..], entries);
      var i: nat := 0;
      while i < table.Length
        invariant i <= table.Length
        invariant Stores(more[..], cap, hash, Part(entries, Visited(table[..], i, 0)))
        invariant more[..] == Refilled(table[..], hash, blank, i, 0)
      {
        var j: nat := 0;
        while j < |table[i]| && table[i][j].Entry?
          invariant j <= |table[i]|
          invariant Stores(more[..], cap, hash, Part(entries, Visited(table[..], i, j)))
          invariant more[..] == Refilled(table[..], hash, blank, i, j)
        {
          VisitedMore(table[..], cap, hash, entries, i, j);
          ghost var part := Part(entries, Visited(table[..], i, j));
          var e := table[i][j];
          var h := Home(hash, e.key, count);
          Search(more[..], cap, hash, part, e.key);
          BucketSize(more[..], cap, hash, part, h);
          PartLess(entries, Visited(table[..], i, j), e.key);
          var b := more[h];
          ghost var was := more[..];
          var inc: nat := 0;
          while b[inc].Entry?
            invariant more[..] == was && inc < cap && Stop(b, e.key, 0) == Stop(b, e.key, inc)
            invariant forall k :: 0 <= k < inc ==> b[k].Entry?
            decreases cap - inc
          {
            OtherKey(more[..], cap, hash, part, h, inc, e.key);
            if inc >= cap - 1 {
              PartKeys(entries, Visited(table[..], i, j));
              Overflows(more[..], cap, hash, part, entries, e.key);
              return more, false;
            }
            inc := inc + 1;
          }
          Written(more[..], cap, hash, part, e.key, e.value);
          RefilledOne(table[..], hash, blank, i, j);
          PutAt(more[..], hash, e, h, inc);
          more[h] := b[inc := e];
          assert more[..] == was[h := was[h][inc := e]];
          j := j + 1;
        }
        VisitedRow(table[..], cap, hash, entries, i, j);
        RestEmpty(table[..], cap, hash, entries, i, j);
        RefilledRow(table[..], hash, blank, i, j);
        i := i + 1;
      }
      VisitedAll(table[..], cap, hash, entries);
      StoredSpread(more[..], cap, hash, entries);
      fits := true;
    }

    // _expand_buckets: a table for at least so many entries; a larger one when a bucket overflows.
    method Rehash(least: nat) returns (code: Code)
      requires Valid() && least >= 1
      modifies this
      ensures Valid() && entries == old(entries) && nullEntry == old(nullEntry)
      ensures code == OK ==> fresh(table) && capacity >= least
      ensures code == OK ==> Chosen(entries, hash, cap, limit, least) == Some(table.Length)
      ensures code == OK ==> var scaled := least * 4 / 3;
                             scaled <= capacity && (capacity >= scaled + cap ==>
                               capacity >= if 2 * scaled < 640000 then 4 * scaled else 2 * scaled + 64000)
      ensures code == OK ==> table[..] == Moved(old(table[..]), hash, table.Length, cap)
      ensures code != OK ==> code == ERROR && table == old(table) && capacity == old(capacity)
      ensures code != OK ==> Chosen(entries, hash, cap, limit, least) == None
      decreases Left(limit, least), 0
    {
      var scaled := least * 4 / 3;
      var count := Buckets(scaled, cap);
      EnoughBuckets(scaled, cap);
      FewestBuckets(scaled, cap);
      if count * cap > limit { return ERROR; }
      var more, fits := MoveAll(count);
      if !fits {
        code := Expand(scaled * 2);
        return;
      }
      table := more;
      capacity := count * cap;
      code := OK;
    }

    // rdict_expand
    method Expand(c: nat) returns (code: Code)
      requires Valid() && c >= 1
      modifies this
      ensures Valid() && entries == old(entries) && nullEntry == old(nullEntry)
      ensures code == OK ==> fresh(table) && capacity > c
      ensures code == OK ==> Chosen(entries, hash, cap, limit, Grown(c)) == Some(table.Length)
      ensures code == OK ==> capacity >= (if c < 640000 then 2 * c else c + 64000) * 4 / 3
      ensures code == OK ==> table[..] == Moved(old(table[..]), hash, table.Length, cap)
      ensures code != OK ==> code == ERROR && table == old(table) && capacity == old(capacity)
      ensures code != OK ==> Chosen(entries, hash, cap, limit, Grown(c)) == None
      decreases Left(limit, Grown(c)), 1
    {
      code := Rehash(Grown(c));
    }

    // rdict_create; a size of 0 asks for the usual one.
    constructor (hash: K -> nat, initCapacity: nat, bucketCapacity: nat, limit: nat)
      requires bucketCapacity != 1
      requires var cap := Or(bucketCapacity, BUCKET_CAPACITY);
               Buckets(Or(initCapacity, INIT_CAPACITY) * 4 / 3, cap) * cap <= limit
      ensures Valid() && entries == map[] && nullEntry == None && fresh(table)
      ensures this.hash == hash && this.cap == Or(bucketCapacity, BUCKET_CAPACITY) && this.limit == limit
      ensures capacity >= Or(initCapacity, INIT_CAPACITY)
      ensures table.Length == Buckets(Or(initCapacity, INIT_CAPACITY) * 4 / 3, this.cap)
      ensures this.cap == if bucketCapacity == 0 then 16 else bucketCapacity
      ensures var scaled := (if initCapacity == 0 then 16 else initCapacity) * 4 / 3;
              scaled <= capacity < scaled + this.cap
    {
      var cap, least := Or(bucketCapacity, BUCKET_CAPACITY), Or(initCapacity, INIT_CAPACITY);
      var count := Buckets(least * 4 / 3, cap);
      EnoughBuckets(least * 4 / 3, cap);
      FewestBuckets(least * 4 / 3, cap);
      this.hash, this.cap, this.limit := hash, cap, limit;
      this.capacity := count * cap;
      size, nullEntry, entries := 0, None, map[];
      table := new seq<Slot<K, V>>[count](_ => seq(cap, _ => Empty));
      new;
      NothingStored<K, V>(count, cap, hash, map[]);
      assert table[..] == seq(count, i => seq(cap, j => Empty));
    }

    // rdict_add; out says that a scan leaves the table.
    method Add(key: Option<K>, value: V) returns (out: bool, code: Code)
      requires Valid()
      modifies this, table
      ensures Valid() && (table == old(table) || fresh(table))
      ensures code == OK || code == ERROR
      ensures !out && code == OK && key.None? ==> nullEntry == Some(value) && entries == old(entries)
      ensures !out && code == OK && key.Some? ==>
        entries == old(entries)[key.value := value] && nullEntry == old(nullEntry)
      ensures out || code == ERROR ==> key.Some? && entries == old(entries) && nullEntry == old(nullEntry)
      // how it ends for a new key
      ensures key.Some? && key.value !in old(entries) ==>
        match Adding(old(entries), hash, cap, limit, old(table.Length), key.value)
        case Off => out
        case NoTable => !out && code == ERROR
        case In(n) => !out && code == OK && table.Length == n
      // and for one that is stored
      ensures key.None? || key.value in old(entries) ==> !out
      ensures key.Some? && key.value in old(entries) ==>
        match Storing(old(table[..]), old(entries), hash, cap, limit, key.value)
        case Off => false
        case NoTable => code == ERROR
        case In(n) => code == OK && table.Length == n
      ensures code == ERROR && !out ==>
                exists c: nat :: c >= old(capacity) && Grown(c) > 0 &&
                  Chosen(entries, hash, cap, limit, Grown(c)) == None
      ensures key.Some? && Room(old(entries), hash, old(table.Length), cap, key.value) ==>
                code == OK && !out && table == old(table)
      // a new key in a crowded bucket makes the table grow
      ensures capacity >= old(capacity)
      ensures (key.Some? && key.value !in old(entries) && !out && code == OK
               && !Room(old(entries), hash, old(table.Length), cap, key.value)) ==>
        capacity >= (if old(capacity) < 640000 then 2 * old(capacity) else old(capacity) + 64000) * 4 / 3
      // and so does a stored one whose entry is in the last slot of its bucket, and no other stored one
      ensures key.Some? && key.value in old(entries) && code == OK ==>
        var b := old(table[..])[Home(hash, key.value, old(table.Length))];
        if |b| == cap && b[cap - 1].Entry? && b[cap - 1].key == key.value then
          capacity >= (if old(capacity) < 640000 then 2 * old(capacity) else old(capacity) + 64000) * 4 / 3
        else table == old(table) && capacity == old(capacity)
      decreases Left(limit, capacity)
    {
      hide Stores, Home, Crowd, Chosen, FullFrom, Adding, Storing, Moved, Room;
      out, code := false, OK;
      if key.None? {
        if nullEntry.None? { size := size + 1; }
        nullEntry := Some(value);
        return;
      }
      var k := key.value;
      TableSize(table[..], cap, hash, entries);
      CapacityPositive(table.Length, cap);
      var i := Home(hash, k, table.Length);
      var h, j;
      RoomStops(table[..], cap, hash, entries, k);
      FirstTry(table[..], cap, hash, entries, k, limit);
      FirstPlace(table[..], cap, hash, entries, k, limit);
      if Room(entries, hash, table.Length, cap, k) {
        RoomHere(entries, hash, table.Length, cap, k);
      } else if k !in entries {
        NoRoomHere(table[..], cap, hash, entries, k);
      }
      if k in entries { LastSlot(table[..], cap, hash, entries, k); }
      out, h, j := Scan(i, k);
      if out { return; }
      if h > i || j >= cap - 1 {
        assert !Room(entries, hash, table.Length, cap, k);
        code := Expand(capacity);
        if code != OK { return; }
        out, code := Add(key, value);
        return;
      }
      BucketSize(table[..], cap, hash, entries, i);
      Write(i, j, k, value);
    }

    // The entry is written where the scan of its bucket stopped.
    method Write(i: nat, j: nat, k: K, value: V)
      requires Valid() && i == Home(hash, k, table.Length) && j == Stop(table[i], k, 0) < |table[i]|
      modifies this, table
      ensures Valid() && table == old(table) && entries == old(entries)[k := value] && nullEntry == old(nullEntry)
    {
      hide Stores, Home;
      Search(table[..], cap, hash, entries, k);
      Written(table[..], cap, hash, entries, k, value);
      if table[i][j].Empty? { size := size + 1; }
      ghost var was := table[..];
      table[i] := table[i][j := Entry(k, value)];
      assert table[..] == was[i := was[i][j := Entry(k, value)]];
      entries := entries[k := value];
    }

    // The search of rdict_remove, which stays in the bucket.
    method ScanFor(b: seq<Slot<K, V>>, key: K) returns (j: nat)
      ensures j == Stop(b, key, 0)
    {
      j := 0;
      while j < |b| && b[j].Entry? && b[j].key != key
        invariant j <= |b| && Stop(b, key, 0) == Stop(b, key, j)
      {
        j := j + 1;
      }
    }

    // rdict_remove
    method Remove(key: Option<K>) returns (code: Code)
      requires Valid()
      modifies this, table
      ensures Valid() && table == old(table)
      ensures key.None? ==> code == OK && nullEntry == None && entries == old(entries)
      ensures key.Some? ==> nullEntry == old(nullEntry) && entries == old(entries) - {key.value}
      ensures key.Some? ==> code == if key.value in old(entries) then OK else NOT_EXIST
    {
      hide Stores, Home;
      if key.None? {
        if nullEntry.Some? {
          nullEntry := None;
          size := size - 1;
        }
        return OK;
      }
      var k := key.value;
      TableSize(table[..], cap, hash, entries);
      var i := Home(hash, k, table.Length);
      BucketSize(table[..], cap, hash, entries, i);
      Search(table[..], cap, hash, entries, k);
      var b := table[i];
      var j := ScanFor(b, k);
      if j == cap || b[j].Empty? {
        assert entries - {k} == entries;
        return NOT_EXIST;
      }
      TakenOut(table[..], cap, hash, entries, k);
      var c := CloseGap(b, j);
      ghost var was := table[..];
      table[i] := c;
      assert table[..] == was[i := Closed(was[i], j)];
      entries := entries - {k};
      size := size - 1;
      code := OK;
    }

    // The end of rdict_remove: the last entry of the bucket moves to the place that became free.
    method CloseGap(b: seq<Slot<K, V>>, j: nat) returns (c: seq<Slot<K, V>>)
      requires j < |b| && b[j].Entry?
      ensures c == Closed(b, j)
    {
      c := b[j := Empty];
      var r := |b| - 1;
      while r > j
        invariant j <= r < |b| && c == b[j := Empty]
        invariant LastAfter(b, j, |b|) == LastAfter(b, j, r + 1)
      {
        if c[r].Entry? {
          c := c[j := c[r]][r := Empty];
          return;
        }
        r := r - 1;
      }
    }

    ghost predicate PlaceOk(p: Place)
      reads this
    {
      p.At? ==> (p.i < table.Length && p.j < cap) || (p.i == table.Length && p.j == 0)
    }

    // The keys that have been given out before a place.
    ghost function Seen(p: Place): set<K>
      reads this, table
    {
      match p
      case Start => {}
      case At(i, j) => Visited(table[..], i, j)
    }

    // rdict_next: the entry at a place or after it, and the place behind it.
    method Next(p: Place) returns (e: Option<(Option<K>, V)>, q: Place)
      requires Valid() && PlaceOk(p)
      ensures PlaceOk(q)
      ensures p.Start? && nullEntry.Some? ==> e == Some((None, nullEntry.value)) && q == At(0, 0)
      ensures !(p.Start? && nullEntry.Some?) ==> match e
              case None => Seen(p) == entries.Keys
              case Some((key, v)) => key.Some? && key.value in entries && entries[key.value] == v
                                     && key.value !in Seen(p) && Seen(q) == Seen(p) + {key.value}
    {
      hide Stores, Home, Visited;
      TableSize(table[..], cap, hash, entries);
      q := p;
      if p.Start? {
        q := At(0, 0);
        NoneVisited(table[..], entries);
        if nullEntry.Some? { return Some((None, nullEntry.value)), q; }
      }
      var i: nat, j: nat := q.i, q.j;
      while i < table.Length
        invariant i <= table.Length && PlaceOk(At(i, j)) && Seen(p) == Visited(table[..], i, j)
        decreases table.Length - i
      {
        BucketSize(table[..], cap, hash, entries, i);
        if table[i][j].Entry? {
          VisitedMore(table[..], cap, hash, entries, i, j);
          var s := table[i][j];
          e := Some((Some(s.key), s.value));
          if j + 1 == cap {
            VisitedRow(table[..], cap, hash, entries, i, j + 1);
            q := At(i + 1, 0);
          } else {
            q := At(i, j + 1);
          }
          return;
        }
        VisitedRow(table[..], cap, hash, entries, i, j);
        i, j := i + 1, 0;
      }
      VisitedAll(table[..], cap, hash, entries);
      e, q := None, At(i, 0);
    }

    // A whole iteration gives the entry of the null key first and then every other entry once.
    method VisitAll() returns (first: Option<V>, items: seq<(K, V)>)
      requires Valid()
      ensures first == nullEntry
      ensures forall x :: x in items ==> x.0 in entries && entries[x.0] == x.1
      ensures forall k :: k in entries ==> (k, entries[k]) in items
      ensures |items| == |entries|
    {
      hide Stores, Home, Visited, Gathered;
      first, items := None, [];
      var e, p := Next(Start);
      ghost var seen: set<K> := {};
      NothingGathered(entries);
      if e.Some? && e.value.0.None? {
        first := Some(e.value.1);
        NoneVisited(table[..], entries);
        e, p := Next(p);
      }
      while e.Some?
        invariant PlaceOk(p)
        invariant Gathered(items, seen, entries)
        invariant e.None? ==> seen == entries.Keys
        invariant e.Some? ==> e.value.0.Some? && e.value.0.value in entries && entries[e.value.0.value] == e.value.1
        invariant e.Some? ==> e.value.0.value !in seen && Seen(p) == seen + {e.value.0.value}
        decreases entries.Keys - seen, e.Some?
      {
        var k := e.value.0.value;
        GatheredMore(items, seen, entries, k);
        items := items + [(k, e.value.1)];
        seen := seen + {k};
        e, p := Next(p);
      }
      GatheredAll(items, seen, entries);
    }
  }

  lemma OffTable<K, V>(m: map<K, V>, hash: K -> nat, buckets: nat, cap: nat, key: K)
    requires buckets > 0 && key !in m
    requires forall g: nat :: Home(hash, key, buckets) <= g < buckets ==> |Crowd(m, hash, buckets, g)| == cap
    ensures RunsOff(m, hash, buckets, cap, key)
  {
  }

  // The key or an empty slot keeps the scan in the table.
  lemma StopHere<K, V>(t: seq<seq<Slot<K, V>>>, cap: nat, hash: K -> nat, m: map<K, V>, key: K, h: nat, j: nat)
    requires Stores(t, cap, hash, m) && Home(hash, key, |t|) <= h < |t| && j < |t[h]|
    requires t[h][j].Empty? || t[h][j].key == key
    ensures t[h][j].Entry? ==> key in m
    ensures !RunsOff(m, hash, |t|, cap, key)
  {
    hide Home, Crowd;
    assert Right(t, hash, m, h, j);
    FullCrowd(t, cap, hash, m, h);
  }

  lemma RoomStops<K, V>(t: seq<seq<Slot<K, V>>>, cap: nat, hash: K -> nat, m: map<K, V>, key: K)
    requires Stores(t, cap, hash, m)
    ensures Room(m, hash, |t|, cap, key) ==> Stop(t[Home(hash, key, |t|)], key, 0) < cap - 1
  {
    hide Home, Crowd, Stores;
    StopsEarly(t, cap, hash, m, key);
  }

  lemma LastSlot<K, V>(t: seq<seq<Slot<K, V>>>, cap: nat, hash: K -> nat, m: map<K, V>, key: K)
    requires Stores(t, cap, hash, m) && key in m && cap > 0
    ensures var b := t[Home(hash, key, |t|)];
            && |b| == cap && Stop(b, key, 0) < cap
            && (b[cap - 1].Entry? && b[cap - 1].key == key <==> Stop(b, key, 0) == cap - 1)
  {
    hide Home;
    Search(t, cap, hash, m, key);
    assert Bucket(t, cap, Home(hash, key, |t|));
  }

  lemma NoRoomHere<K, V>(t: seq<seq<Slot<K, V>>>, cap: nat, hash: K -> nat, m: map<K, V>, key: K)
    requires Stores(t, cap, hash, m) && key !in m && !Room(m, hash, |t|, cap, key)
    ensures Stop(t[Home(hash, key, |t|)], key, 0) >= cap - 1
  {
    hide Home;
    StopsBehind(t, cap, hash, m, key);
    var keys := Crowd(m, hash, |t|, Home(hash, key, |t|));
    assert keys - {key} == keys;
  }

  lemma RoomHere<K, V>(m: map<K, V>, hash: K -> nat, buckets: nat, cap: nat, key: K)
    requires Room(m, hash, buckets, cap, key)
    ensures !RunsOff(m, hash, buckets, cap, key)
  {
    hide Home;
    if key !in m {
      var keys := Crowd(m, hash, buckets, Home(hash, key, buckets));
      assert keys - {key} == keys;
    }
  }

  // The first scan decides, unless the bucket is crowded.
  lemma FirstTry<K, V>(t: seq<seq<Slot<K, V>>>, cap: nat, hash: K -> nat, m: map<K, V>, key: K, limit: nat)
    requires Stores(t, cap, hash, m) && cap > 0
    ensures |t| * cap > 0
    ensures RunsOff(m, hash, |t|, cap, key) ==> Adding(m, hash, cap, limit, |t|, key) == Off
    ensures key !in m && !RunsOff(m, hash, |t|, cap, key) ==>
      Adding(m, hash, cap, limit, |t|, key) ==
        if Stop(t[Home(hash, key, |t|)], key, 0) < cap - 1 then In(|t|)
        else match Chosen(m, hash, cap, limit, Grown(|t| * cap))
             case None => NoTable
             case Some(n) => Adding(m, hash, cap, limit, n, key)
  {
    hide Home, Crowd, FullFrom, Chosen;
    CapacityPositive(|t|, cap);
    hide Stores;
    if key !in m { StopsBehind(t, cap, hash, m, key); }
  }

  // The place of a stored key decides, unless it is the last one.
  lemma FirstPlace<K, V>(t: seq<seq<Slot<K, V>>>, cap: nat, hash: K -> nat, m: map<K, V>, key: K, limit: nat)
    requires |t| > 0 && cap > 0
    ensures |t| * cap > 0
    ensures Storing(t, m, hash, cap, limit, key) ==
      if Stop(t[Home(hash, key, |t|)], key, 0) < cap - 1 then In(|t|)
      else match Chosen(m, hash, cap, limit, Grown(|t| * cap))
           case None => NoTable
           case Some(n) => Storing(Moved(t, hash, n, cap), m, hash, cap, limit, key)
  {
    hide Home, Chosen, Moved;
    CapacityPositive(|t|, cap);
  }

  lemma NothingRefilled<K, V>(from: seq<seq<Slot<K, V>>>, hash: K -> nat, blank: seq<seq<Slot<K, V>>>)
    requires |blank| > 0
    ensures Refilled(from, hash, blank, 0, 0) == blank
  {
  }

  lemma PutAt<K, V>(t: seq<seq<Slot<K, V>>>, hash: K -> nat, e: Slot<K, V>, i: nat, j: nat)
    requires |t| > 0 && e.Entry? && i == Home(hash, e.key, |t|) && j == Stop(t[i], e.key, 0) < |t[i]|
    ensures Put(t, hash, e) == t[i := t[i][j := e]]
  {
  }

  lemma RestEmpty<K, V>(t: seq<seq<Slot<K, V>>>, cap: nat, hash: K -> nat, m: map<K, V>, i: nat, j: nat)
    requires Stores(t, cap, hash, m) && i < |t| && j <= |t[i]| && (j == |t[i]| || t[i][j].Empty?)
    ensures forall x :: j <= x < |t[i]| ==> t[i][x].Empty?
  {
    assert Bucket(t, cap, i);
  }

  lemma TableSize<K, V>(t: seq<seq<Slot<K, V>>>, cap: nat, hash: K -> nat, m: map<K, V>)
    requires Stores(t, cap, hash, m)
    ensures |t| > 0
  {
  }

  lemma CapacityPositive(n: nat, cap: nat)
    requires n > 0 && cap > 0
    ensures n * cap > 0
  {
  }

  lemma EnoughBuckets(capacity: nat, cap: nat)
    requires cap > 0 && capacity > 0
    ensures Buckets(capacity, cap) > 0 && Buckets(capacity, cap) * cap >= capacity
  {
  }

  lemma BucketSize<K, V>(t: seq<seq<Slot<K, V>>>, cap: nat, hash: K -> nat, m: map<K, V>, i: nat)
    requires Stores(t, cap, hash, m) && i < |t|
    ensures |t[i]| == cap
  {
    assert Bucket(t, cap, i);
  }

  lemma OtherKey<K, V>(t: seq<seq<Slot<K, V>>>, cap: nat, hash: K -> nat, m: map<K, V>, i: nat, j: nat, key: K)
    requires Stores(t, cap, hash, m) && i < |t| && j < |t[i]| && t[i][j].Entry? && key !in m
    ensures t[i][j].key != key
  {
    assert Right(t, hash, m, i, j);
  }

  lemma PartKeys<K, V>(m: map<K, V>, keys: set<K>)
    ensures Part(m, keys).Keys <= m.Keys
  {
  }

  lemma PartLess<K, V>(m: map<K, V>, keys: set<K>, key: K)
    requires key !in keys
    ensures key !in Part(m, keys)
  {
  }

  // ---- a scan that leaves the table ----

  function Itself(k: nat): nat { k }

  lemma CrowdIs<V>(m: map<nat, V>, buckets: nat, i: nat, keys: set<nat>)
    requires buckets > 0 && forall k :: k in keys <==> k in m && k % buckets == i
    ensures Crowd(m, Itself, buckets, i) == keys && |Crowd(m, Itself, buckets, i)| <= |m|
  {
    MoreKeys(Crowd(m, Itself, buckets, i), m.Keys);
    assert |m.Keys| == |m|;
  }

  // The first two keys go to buckets of their own.
  lemma OwnBucket<V>(m: map<nat, V>, key: nat)
    requires forall k :: k in m ==> k % 4 != key % 4
    ensures Adding(m, Itself, 2, 100, 4, key) == In(4)
  {
    hide Crowd;
    CrowdIs(m, 4, key % 4, {});
  }

  // Keys 10 and 21 meet in the last of eleven buckets when key 14 makes the table grow, and fill it.
  lemma ThreeKeys<V>(m: map<nat, V>)
    requires m.Keys == {10, 21}
    ensures Adding(m, Itself, 2, 100, 4, 14) == In(11)
  {
    hide Crowd, Chosen;
    CrowdIs(m, 4, 2, {10});
    CrowdIs(m, 4, 3, {});
    ElevenBuckets(m);
    CrowdIs(m, 11, 3, {});
  }

  lemma ElevenBuckets<V>(m: map<nat, V>)
    requires m.Keys == {10, 21}
    ensures Chosen(m, Itself, 2, 100, 16) == Some(11)
  {
    hide Crowd;
    assert |m| == |m.Keys| == 2;
    forall i: nat ensures |Crowd(m, Itself, 11, i)| <= 2 { CrowdIs(m, 11, i, set k | k in m && k % 11 == i); }
    assert Spread(m, Itself, 11, 2);
  }

  lemma LastIsFull<V>(m: map<nat, V>)
    requires m.Keys == {10, 14, 21}
    ensures RunsOff(m, Itself, 11, 2, 32)
  {
    hide Crowd;
    CrowdIs(m, 11, 10, {10, 21});
  }

  method StoreNew(d: Dict<nat, int>, key: nat, ghost n: nat)
    requires d.Valid() && d.table.Length > 0 && key !in d.entries
    requires Adding(d.entries, d.hash, d.cap, d.limit, d.table.Length, key) == In(n)
    modifies d, d.table
    ensures d.Valid() && d.table.Length == n && d.entries == old(d.entries)[key := 0]
    ensures d.table == old(d.table) || fresh(d.table)
  {
    hide Crowd, Chosen, Adding, Storing, Stores, Room, Dict.Valid;
    var off, code := d.Add(Some(key), 0);
  }

  method ThreeStored() returns (d: Dict<nat, int>)
    ensures fresh(d) && d.Valid() && d.hash == Itself && d.cap == 2 && d.table.Length == 11
    ensures d.entries.Keys == {10, 14, 21}
  {
    hide Crowd, Chosen, Adding, Stores, Dict.Valid;
    d := new Dict<nat, int>(Itself, 6, 2, 100);
    OwnBucket(d.entries, 10);
    StoreNew(d, 10, 4);
    OwnBucket(d.entries, 21);
    StoreNew(d, 21, 4);
    ThreeKeys(d.entries);
    StoreNew(d, 14, 11);
  }

  // Then a scan for key 32 leaves the table.
  method Overrun() returns (out: bool)
    ensures out
  {
    hide Stores, RunsOff;
    var d := ThreeStored();
    LastIsFull(d.entries);
    var value;
    out, value := d.Find(Some(32));
  }
}
