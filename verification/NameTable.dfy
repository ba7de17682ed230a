/**
 * The table of interned names: hash chains of counted entries, one for every different byte string, and in front of
 * it a cache that is keyed by the address of the string and may be stale.
 */
module NameTable {
  import opened Bytes
  import opened Powers

  class Name {
    const bytes: seq<Byte>
    const hash: Word
    var refs: nat

    constructor (bytes: seq<Byte>, hash: Word)
      ensures this.bytes == bytes && this.hash == hash && refs == 0
    {
      this.bytes := bytes;
      this.hash := hash;
      refs := 0;
    }
  }

  // ---- the hash ----

  const HASH_LIMIT: nat := 32

  function Mixed(h: bv32, c: Byte): bv32 {
    h ^ ((h << 5) + (h >> 2) + (c as bv32))
  }

  function HashFrom(b: seq<Byte>, len: nat, step: nat, h: bv32): bv32
    requires len <= |b| && step > 0
    decreases len
  {
    if len < step then h else HashFrom(b, len - step, step, Mixed(h, b[len - 1]))
  }

  function Hash(b: seq<Byte>): Word
    requires |b| < 0x1_0000
  {
    HashFrom(b, |b|, |b| / HASH_LIMIT + 1, |b| as bv32) as int
  }

  // pbN_calchash
  method CalcHash(b: seq<Byte>) returns (r: Word)
    requires |b| < 0x1_0000
    ensures r == Hash(b)
  {
    var h, len, step := |b| as bv32, |b|, |b| / HASH_LIMIT + 1;
    while len >= step
      invariant 0 <= len <= |b| && HashFrom(b, |b|, step, |b| as bv32) == HashFrom(b, len, step, h)
      decreases len
    {
      h := h ^ ((h << 5) + (h >> 2) + (b[len - 1] as bv32));
      len := len - step;
    }
    r := h as int;
  }

  lemma HashStep(b: seq<Byte>, len: nat, step: nat, h: bv32)
    requires step > 0 && step <= len <= |b|
    ensures HashFrom(b, len, step, h) == HashFrom(b, len - step, step, Mixed(h, b[len - 1]))
  {
    hide Mixed;
  }

  lemma HashStops(b: seq<Byte>, len: nat, step: nat, h: bv32)
    requires len <= |b| && len < step
    ensures HashFrom(b, len, step, h) == h
  {
  }

  // The hash starts from the length and takes the bytes from the last to the first.
  lemma HashOfOne()
    ensures Hash([97]) == 0x80 && Hash([]) == 0
  {
    HashStep([97], 1, 1, 1);
    assert Mixed(1, 97) == 0x80;
  }

  lemma HashOfTwo()
    ensures Hash([97, 98]) == 0x1429
  {
    var a: seq<Byte> := [97, 98];
    assert Mixed(2, 98) == 0xA0;
    assert Mixed(0xA0, 97) == 0x1429;
    hide HashFrom, Mixed;
    HashStep(a, 2, 1, 2);
    HashStep(a, 1, 1, 0xA0);
    HashStops(a, 0, 1, 0x1429);
  }

  // Place k of those that count, from the end, has the same byte in both.
  predicate AgreeAt(b: seq<Byte>, c: seq<Byte>, step: nat, k: nat) {
    |b| == |c| && (k * step < |b| ==> b[|b| - 1 - k * step] == c[|b| - 1 - k * step])
  }

  ghost predicate Agree(b: seq<Byte>, c: seq<Byte>, step: nat) {
    forall k: nat :: AgreeAt(b, c, step, k)
  }

  // From 32 bytes on only every second one from the end counts, from 64 on every third one, and so on.
  lemma SampledBytes(b: seq<Byte>, c: seq<Byte>)
    requires |b| == |c| < 0x1_0000 && Agree(b, c, |b| / 32 + 1)
    ensures Hash(b) == Hash(c)
  {
    hide Agree, HashFrom, Mixed;
    SampledFrom(b, c, 0, |b|, |b| / 32 + 1, |b| as bv32);
  }

  lemma {:induction false} SampledFrom(b: seq<Byte>, c: seq<Byte>, k: nat, len: nat, step: nat, h: bv32)
    requires step > 0 && |b| == |c| && len <= |b| && len == |b| - k * step && Agree(b, c, step)
    ensures HashFrom(b, len, step, h) == HashFrom(c, len, step, h)
    decreases len
  {
    hide HashFrom, Mixed;
    if len >= step {
      SampledByte(b, c, k, len, step);
      HashStep(b, len, step, h);
      HashStep(c, len, step, h);
      hide Agree;
      assert (k + 1) * step == k * step + step;
      SampledFrom(b, c, k + 1, len - step, step, Mixed(h, b[len - 1]));
    } else {
      HashStops(b, len, step, h);
      HashStops(c, len, step, h);
    }
  }

  lemma SampledByte(b: seq<Byte>, c: seq<Byte>, k: nat, len: nat, step: nat)
    requires 0 < step <= len <= |b| == |c| && len == |b| - k * step && Agree(b, c, step)
    ensures b[len - 1] == c[len - 1]
  {
    assert AgreeAt(b, c, step, k);
  }

  // ---- the chains as values ----

  ghost predicate ShortName(b: seq<Byte>) {
    |b| < 0x1_0000
  }

  // The entry at place k of chain i belongs there, and no other entry of the chain has its bytes.
  ghost predicate Placed(chains: seq<seq<Name>>, i: nat, k: nat)
    requires i < |chains| && k < |chains[i]|
  {
    var e := chains[i][k];
    && ShortName(e.bytes) && e.hash == Hash(e.bytes) && e.hash % |chains| == i
    && forall j :: 0 <= j < k ==> chains[i][j].bytes != e.bytes
  }

  ghost predicate Chains(chains: seq<seq<Name>>) {
    forall i: nat, k: nat :: i < |chains| && k < |chains[i]| ==> Placed(chains, i, k)
  }

  ghost function Elems(chains: seq<seq<Name>>): set<Name> {
    set i, k | 0 <= i < |chains| && 0 <= k < |chains[i]| :: chains[i][k]
  }

  // pbN_getname on one chain
  function Lookup(chain: seq<Name>, hash: Word, b: seq<Byte>): (e: Name?)
    ensures e != null ==> e in chain && e.hash == hash && e.bytes == b
  {
    if chain == [] then null
    else if chain[0].hash == hash && chain[0].bytes == b then chain[0]
    else Lookup(chain[1..], hash, b)
  }

  function Entry(chains: seq<seq<Name>>, hash: Word, b: seq<Byte>): Name? {
    if |chains| == 0 then null else Lookup(chains[hash % |chains|], hash, b)
  }

  lemma {:induction false} LookupFinds(chain: seq<Name>, k: nat)
    requires k < |chain| && forall j :: 0 <= j < k ==> chain[j].bytes != chain[k].bytes
    ensures Lookup(chain, chain[k].hash, chain[k].bytes) == chain[k]
  {
    if k > 0 {
      assert chain[0].bytes != chain[k].bytes;
      LookupFinds(chain[1..], k - 1);
    }
  }

  // What a name is looked up as depends only on which entries there are.
  lemma EntryIsMember(chains: seq<seq<Name>>, b: seq<Byte>, e: Name)
    requires Chains(chains) && ShortName(b)
    ensures Entry(chains, Hash(b), b) == e <==> e in Elems(chains) && e.bytes == b
  {
    hide Hash;
    if e in Elems(chains) && e.bytes == b {
      var i: nat, k: nat :| i < |chains| && k < |chains[i]| && chains[i][k] == e;
      assert Placed(chains, i, k);
      LookupFinds(chains[i], k);
    }
    if Entry(chains, Hash(b), b) == e {
      var i := Hash(b) % |chains|;
      var k :| 0 <= k < |chains[i]| && chains[i][k] == e;
    }
  }

  // No two entries have the same bytes.
  lemma OneEntry(chains: seq<seq<Name>>, e: Name, f: Name)
    requires Chains(chains) && e in Elems(chains) && f in Elems(chains) && e.bytes == f.bytes
    ensures e == f
  {
    hide Hash;
    var i: nat, k: nat :| i < |chains| && k < |chains[i]| && chains[i][k] == e;
    assert Placed(chains, i, k);
    EntryIsMember(chains, e.bytes, e);
    EntryIsMember(chains, e.bytes, f);
  }

  // A lookup under any hash finds the entry that the right hash finds, or nothing.
  lemma AnyHash(chains: seq<seq<Name>>, hash: Word, b: seq<Byte>)
    requires Chains(chains) && ShortName(b)
    ensures Entry(chains, hash, b) == null || Entry(chains, hash, b) == Entry(chains, Hash(b), b)
  {
    hide Hash;
    var e := Entry(chains, hash, b);
    if e != null {
      var i := hash % |chains|;
      var k :| 0 <= k < |chains[i]| && chains[i][k] == e;
      EntryIsMember(chains, b, e);
    }
  }

  // ---- changing the chains ----

  // An entry with new bytes goes to the front of its chain.
  lemma Pushed(chains: seq<seq<Name>>, e: Name)
    requires Chains(chains) && |chains| > 0 && ShortName(e.bytes) && e.hash == Hash(e.bytes)
    requires forall f :: f in Elems(chains) ==> f.bytes != e.bytes
    ensures var i := e.hash % |chains|;
            var now := chains[i := [e] + chains[i]];
            Chains(now) && Elems(now) == Elems(chains) + {e}
  {
    hide Hash;
    var i := e.hash % |chains|;
    var now := chains[i := [e] + chains[i]];
    forall h: nat, k: nat | h < |now| && k < |now[h]|
      ensures Placed(now, h, k)
    {
      if h != i {
        assert Placed(chains, h, k);
      } else if k > 0 {
        assert Placed(chains, h, k - 1);
        assert chains[h][k - 1] in Elems(chains);
        assert forall j :: 0 < j < k ==> now[h][j] == chains[h][j - 1];
      }
    }
    forall h, k | 0 <= h < |chains| && 0 <= k < |chains[h]|
      ensures chains[h][k] in Elems(now)
    {
      assert now[h][if h == i then k + 1 else k] == chains[h][k];
    }
    assert now[i][0] == e;
  }

  // Taking an entry out of its chain.
  lemma Unchained(chains: seq<seq<Name>>, i: nat, k: nat)
    requires Chains(chains) && i < |chains| && k < |chains[i]|
    ensures var now := chains[i := chains[i][..k] + chains[i][k + 1..]];
            Chains(now) && Elems(now) == Elems(chains) - {chains[i][k]}
  {
    hide Hash;
    var e := chains[i][k];
    var now := chains[i := chains[i][..k] + chains[i][k + 1..]];
    forall h: nat, m: nat | h < |now| && m < |now[h]|
      ensures Placed(now, h, m)
      ensures now[h][m] in Elems(chains) && now[h][m] != e
    {
      UnchainedAt(chains, i, k, h, m);
    }
    forall h: nat, m: nat | h < |chains| && m < |chains[h]| && chains[h][m] != e
      ensures chains[h][m] in Elems(now)
    {
      var at: nat := if h == i && m > k then m - 1 else m;
      assert now[h][at] == chains[h][m];
    }
  }

  lemma UnchainedAt(chains: seq<seq<Name>>, i: nat, k: nat, h: nat, m: nat)
    requires Chains(chains) && i < |chains| && k < |chains[i]|
    requires var now := chains[i := chains[i][..k] + chains[i][k + 1..]]; h < |now| && m < |now[h]|
    ensures var now := chains[i := chains[i][..k] + chains[i][k + 1..]];
            Placed(now, h, m) && now[h][m] in Elems(chains) && now[h][m] != chains[i][k]
  {
    hide Hash;
    var now := chains[i := chains[i][..k] + chains[i][k + 1..]];
    var at: nat := if h == i && m >= k then m + 1 else m;
    assert now[h][m] == chains[h][at];
    assert Placed(chains, h, at);
    assert Placed(chains, i, k);
    if h == i {
      assert forall j :: 0 <= j < m ==> now[h][j] == chains[h][if j >= k then j + 1 else j];
    }
  }

  // The entries of the chains before i and of the first k places of chain i.
  ghost function Visited(chains: seq<seq<Name>>, i: nat, k: nat): set<Name> {
    set h, m | 0 <= h < |chains| && 0 <= m < |chains[h]| && (h < i || (h == i && m < k)) :: chains[h][m]
  }

  lemma NoneVisited(chains: seq<seq<Name>>)
    ensures Visited(chains, 0, 0) == {}
  {
  }

  lemma VisitedRow(chains: seq<seq<Name>>, i: nat)
    requires i < |chains|
    ensures Visited(chains, i, |chains[i]|) == Visited(chains, i + 1, 0)
  {
  }

  lemma VisitedAll(chains: seq<seq<Name>>)
    ensures Visited(chains, |chains|, 0) == Elems(chains)
  {
  }

  // The next entry is a new one, and so are its bytes.
  lemma VisitedMore(chains: seq<seq<Name>>, i: nat, k: nat)
    requires Chains(chains) && i < |chains| && k < |chains[i]|
    ensures var e := chains[i][k];
            && ShortName(e.bytes) && e.hash == Hash(e.bytes)
            && Visited(chains, i, k + 1) == Visited(chains, i, k) + {e}
            && forall f :: f in Visited(chains, i, k) ==> f.bytes != e.bytes
  {
    hide Hash;
    var e := chains[i][k];
    assert Placed(chains, i, k);
    forall f | f in Visited(chains, i, k)
      ensures f.bytes != e.bytes
    {
      var h: nat, m: nat :| h < |chains| && m < |chains[h]| && (h < i || (h == i && m < k)) && chains[h][m] == f;
      assert Placed(chains, h, m);
    }
  }

  lemma NoneHas(chains: seq<seq<Name>>, b: seq<Byte>)
    requires Chains(chains) && ShortName(b) && Entry(chains, Hash(b), b) == null
    ensures forall f :: f in Elems(chains) ==> f.bytes != b
  {
    hide Hash, Elems;
    forall f | f in Elems(chains)
      ensures f.bytes != b
    {
      EntryIsMember(chains, b, f);
    }
  }

  lemma PlaceOf(chains: seq<seq<Name>>, e: Name)
    requires Chains(chains) && e in Elems(chains)
    ensures |chains| > 0 && exists k :: 0 <= k < |chains[e.hash % |chains|]| && chains[e.hash % |chains|][k] == e
  {
    hide Hash;
    var i: nat, k: nat :| i < |chains| && k < |chains[i]| && chains[i][k] == e;
    assert Placed(chains, i, k);
  }

  lemma NoChains(n: nat)
    ensures Chains(seq(n, i => [])) && Elems(seq(n, i => [])) == {}
  {
  }

  // ---- the cache ----

  const CACHE_SIZE: nat := 53

  // A string's address and the hash that was computed for what was there.
  datatype CacheSlot = CacheSlot(name: nat, hash: Word)

  class Cache {
    const first: array<CacheSlot>
    const second: array<CacheSlot>
    var hash: Word

    constructor ()
      ensures Valid() && first.Length == second.Length == 53
    {
      first := new CacheSlot[CACHE_SIZE](_ => CacheSlot(0, 0));
      second := new CacheSlot[CACHE_SIZE](_ => CacheSlot(0, 0));
      hash := 0;
    }

    predicate Valid() {
      first.Length == second.Length == CACHE_SIZE && first != second
    }
  }

  // ---- the table ----

  datatype NameOp = New(bytes: seq<Byte>) | Delete(bytes: seq<Byte>)

  // How the uses of the names change.
  function Counted(m: map<seq<Byte>, nat>, op: NameOp): map<seq<Byte>, nat> {
    match op
    case New(b) => m[b := if b in m then m[b] + 1 else 1]
    case Delete(b) => if b !in m then m else if m[b] <= 1 then m - {b} else m[b := m[b] - 1]
  }

  function CountedAll(ops: seq<NameOp>): map<seq<Byte>, nat> {
    if ops == [] then map[] else Counted(CountedAll(ops[..|ops| - 1]), ops[|ops| - 1])
  }

  lemma NothingCounted()
    ensures CountedAll([]) == map[]
  {
  }

  lemma CountedMore(ops: seq<NameOp>, i: nat)
    requires i < |ops|
    ensures CountedAll(ops[..i + 1]) == Counted(CountedAll(ops[..i]), ops[i])
  {
    assert ops[..i + 1][..i] == ops[..i];
  }

  // No name gets more uses at a time than its 16 bits can count.
  predicate CountsFit(ops: seq<NameOp>) {
    forall i :: 0 <= i < |ops| && ops[i].New? ==>
      ops[i].bytes in CountedAll(ops[..i]) ==> CountedAll(ops[..i])[ops[i].bytes] < 0xFFFF
  }

  lemma {:induction false} TimesCounted(ops: seq<NameOp>, op: NameOp)
    ensures Times(ops, op) == multiset(ops)[op]
  {
    if ops != [] {
      TimesCounted(ops[..|ops| - 1], op);
      assert ops == ops[..|ops| - 1] + [ops[|ops| - 1]];
    }
  }

  // A run that never deletes a name more often than it was new.
  ghost predicate Balanced(ops: seq<NameOp>, b: seq<Byte>) {
    forall i :: 0 <= i <= |ops| ==> Times(ops[..i], Delete(b)) <= Times(ops[..i], New(b))
  }

  function Times(ops: seq<NameOp>, op: NameOp): nat {
    if ops == [] then 0 else Times(ops[..|ops| - 1], op) + if ops[|ops| - 1] == op then 1 else 0
  }

  // The count of a name is the number of times it was new minus the number of times it was deleted.
  lemma {:induction false} Balance(ops: seq<NameOp>, b: seq<Byte>)
    requires Balanced(ops, b)
    ensures b in CountedAll(ops) <==> Times(ops, New(b)) > Times(ops, Delete(b))
    ensures b in CountedAll(ops) ==> CountedAll(ops)[b] == Times(ops, New(b)) - Times(ops, Delete(b))
    decreases |ops|
  {
    if ops != [] {
      var before := ops[..|ops| - 1];
      assert forall i :: 0 <= i <= |before| ==> before[..i] == ops[..i];
      assert ops[..|ops|] == ops;
      Balance(before, b);
    }
  }

  // The entries and their counts are those of m.
  ghost predicate Tally(r: map<Name, nat>, m: map<seq<Byte>, nat>) {
    && (forall e :: e in r ==> e.bytes in m && m[e.bytes] == r[e])
    && (forall b :: b in m ==> Bears(r, b))
  }

  ghost predicate Bears(r: map<Name, nat>, b: seq<Byte>) {
    exists e :: e in r && e.bytes == b
  }

  ghost predicate OneEach(r: map<Name, nat>) {
    forall e, f :: e in r && f in r && e.bytes == f.bytes ==> e == f
  }

  lemma NotCounted(m: map<seq<Byte>, nat>, b: seq<Byte>)
    requires b !in m
    ensures Counted(m, Delete(b)) == m
  {
  }

  lemma NothingTallied()
    ensures Tally(map[], map[])
  {
  }

  lemma TallyNew(r: map<Name, nat>, m: map<seq<Byte>, nat>, e: Name)
    requires Tally(r, m) && OneEach(r) && (e !in r ==> e.bytes !in m)
    ensures Tally(r[e := if e in r then r[e] + 1 else 1], Counted(m, New(e.bytes)))
  {
    var now := r[e := if e in r then r[e] + 1 else 1];
    if e.bytes in m { assert Bears(r, e.bytes); }
    forall b | b in Counted(m, New(e.bytes))
      ensures Bears(now, b)
    {
      if b == e.bytes { assert e in now; } else { assert Bears(r, b); }
    }
  }

  lemma TallyDelete(r: map<Name, nat>, m: map<seq<Byte>, nat>, e: Name)
    requires Tally(r, m) && OneEach(r) && e in r
    ensures Tally(if r[e] <= 1 then r - {e} else r[e := r[e] - 1], Counted(m, Delete(e.bytes)))
  {
    var now := if r[e] <= 1 then r - {e} else r[e := r[e] - 1];
    forall b | b in Counted(m, Delete(e.bytes))
      ensures Bears(now, b)
    {
      assert Bears(r, b);
      var f :| f in r && f.bytes == b;
      assert f in now;
    }
  }

  const MIN_STRTABLE_SIZE: nat := 16
  const MAX_CHAINS: nat := (0xFFFF_FFFF - 100) / 8

  class Names {
    var chains: array<seq<Name>>
    var count: nat
    ghost var log: nat

    ghost function Known(): set<Name>
      reads this, chains
    {
      Elems(chains[..])
    }

    ghost predicate Valid()
      reads this, chains, Known()
    {
      && (chains.Length == 0 || chains.Length == Pow2(log))
      && Chains(chains[..]) && count == |Known()|
      && forall e :: e in Known() ==> e.refs >= 1
    }

    // The entry of a name, if it has one.
    ghost function Of(b: seq<Byte>): Name?
      requires ShortName(b)
      reads this, chains
    {
      Entry(chains[..], Hash(b), b)
    }

    // pbN_init
    constructor ()
      ensures Valid() && Known() == {} && fresh(chains)
    {
      chains := new seq<Name>[0];
      count := 0;
      log := 0;
    }

    // pbN_getname
    method GetName(b: seq<Byte>, hash: Word) returns (e: Name?)
      ensures e == Entry(chains[..], hash, b)
    {
      if chains.Length == 0 { return null; }
      var chain := chains[hash % chains.Length];
      var k := 0;
      while k < |chain|
        invariant 0 <= k <= |chain|
        invariant Lookup(chain, hash, b) == Lookup(chain[k..], hash, b)
      {
        if chain[k].hash == hash && chain[k].bytes == b { return chain[k]; }
        assert chain[k..][1..] == chain[k + 1..];
        k := k + 1;
      }
      e := null;
    }

    // pb_name: a cache in any state, even a stale one, does not change what is found.
    method LookUp(b: seq<Byte>, p: nat, cache: Cache?) returns (e: Name?)
      requires Valid() && ShortName(b) && (cache != null ==> cache.Valid())
      modifies if cache == null then {} else {cache, cache.first, cache.second}
      ensures e == Of(b) && Valid()
    {
      assert allocated(Known());
      hide Hash, Chains, Elems;
      e := null;
      if cache == null {
        var h := CalcHash(b);
        e := GetName(b, h);
        return;
      }
      var i := p * 2654435761 % 0x1_0000_0000_0000_0000 % CACHE_SIZE;
      var inSecond := false;
      if cache.first[i].name == p {
        cache.hash := cache.first[i].hash;
        e := GetName(b, cache.hash);
      } else if cache.second[i].name == p {
        inSecond := true;
        cache.hash := cache.second[i].hash;
        e := GetName(b, cache.hash);
      } else {
        cache.second[i] := cache.first[i];
        cache.first[i] := CacheSlot(p, cache.first[i].hash);
      }
      AnyHash(chains[..], cache.hash, b);
      if e == null {
        cache.hash := CalcHash(b);
        if inSecond {
          cache.second[i] := CacheSlot(cache.second[i].name, cache.hash);
        } else {
          cache.first[i] := CacheSlot(cache.first[i].name, cache.hash);
        }
        e := GetName(b, cache.hash);
      }
    }

    // Every entry moves to the chain that its hash names among the new ones.
    method Rehash(newSize: nat) returns (more: array<seq<Name>>)
      requires Chains(chains[..]) && newSize > 0
      ensures fresh(more) && more.Length == newSize
      ensures Chains(more[..]) && Elems(more[..]) == Known()
    {
      hide Hash, Chains, Elems, Visited;
      more := new seq<Name>[newSize](_ => []);
      NoChains(newSize);
      assert more[..] == seq(newSize, i => []);
      NoneVisited(chains[..]);
      var i: nat := 0;
      while i < chains.Length
        invariant i <= chains.Length && Chains(more[..])
        invariant Elems(more[..]) == Visited(chains[..], i, 0)
      {
        var chain := chains[i];
        var k: nat := 0;
        while k < |chain|
          invariant k <= |chain| && Chains(more[..])
          invariant Elems(more[..]) == Visited(chains[..], i, k)
        {
          var e := chain[k];
          VisitedMore(chains[..], i, k);
          Pushed(more[..], e);
          var j := e.hash % newSize;
          ghost var was := more[..];
          more[j] := [e] + more[j];
          assert more[..] == was[j := [e] + was[j]];
          k := k + 1;
        }
        VisitedRow(chains[..], i);
        i := i + 1;
      }
      VisitedAll(chains[..]);
    }

    // pbN_resize
    method Resize(size: nat, memory: bool) returns (newSize: nat)
      requires Valid()
      modifies this
      ensures Valid() && Known() == old(Known()) && count == old(count)
      ensures newSize == 0 ==> chains == old(chains)
      ensures newSize != 0 ==> fresh(chains) && chains.Length == newSize >= size
      ensures newSize != 0 ==> newSize >= 16 && (newSize == 16 || newSize < 2 * size)
      ensures memory && size <= MAX_CHAINS ==> newSize != 0
      ensures memory && size <= 536870899 ==> newSize != 0
      ensures newSize < 2 * 536870899
    {
      ghost var known := Known();
      assert allocated(known);
      hide Hash, Chains, Elems;
      newSize := MIN_STRTABLE_SIZE;
      ghost var p: nat := 4;
      while newSize < MAX_CHAINS && newSize < size
        invariant newSize >= MIN_STRTABLE_SIZE && newSize == Pow2(p) && (newSize == 16 || newSize < 2 * size)
        invariant newSize < 2 * MAX_CHAINS
        decreases size - newSize
      {
        newSize := newSize * 2;
        p := p + 1;
      }
      if newSize < size || !memory { return 0; }
      var more := Rehash(newSize);
      chains := more;
      log := p;
      assert Known() == known;
    }

    // pbN_newname: an entry for bytes that have none; memory says whether allocations succeed.
    method NewEntry(b: seq<Byte>, hash: Word, memory: bool) returns (e: Name?)
      requires Valid() && ShortName(b) && hash == Hash(b) && Of(b) == null
      modifies this, chains
      ensures Chains(chains[..]) && (chains.Length == 0 || chains.Length == Pow2(log))
      ensures chains == old(chains) || fresh(chains)
      ensures e == null ==> Known() == old(Known()) && count == old(count)
      ensures e != null ==> fresh(e) && e.bytes == b && e.refs == 0 && count == |Known()|
      ensures e != null ==> Known() == old(Known()) + {e}
      // the number of chains is a power of two from 16 on, doubled when there are as many names
      ensures old(count) < old(chains.Length) ==> chains == old(chains)
      ensures old(count) >= old(chains.Length) && e != null ==>
        chains.Length >= 16 && 2 * old(chains.Length) <= chains.Length
        && (chains.Length == 16 || chains.Length < 4 * old(chains.Length))
      ensures memory && old(count) < MAX_CHAINS / 2 ==> e != null
    {
      hide Hash, Chains, Elems, Entry;
      NoneHas(chains[..], b);
      if count >= chains.Length {
        var newSize := Resize(chains.Length * 2, memory);
        if newSize == 0 { return null; }
      }
      if !memory { return null; }
      var i := hash % chains.Length;
      var name := new Name(b, hash);
      Pushed(chains[..], name);
      ghost var was := chains[..];
      chains[i] := [name] + chains[i];
      assert chains[..] == was[i := [name] + was[i]];
      count := count + 1;
      e := name;
    }

    // A new entry with its first use.
    method NewUsed(b: seq<Byte>, hash: Word, memory: bool) returns (e: Name?)
      requires Valid() && ShortName(b) && hash == Hash(b) && Of(b) == null
      modifies this, chains
      ensures Valid() && (chains == old(chains) || fresh(chains))
      ensures e == null ==> Known() == old(Known())
      ensures e != null ==> fresh(e) && e.bytes == b && e.refs == 1 && Known() == old(Known()) + {e}
      ensures memory && old(count) < MAX_CHAINS / 2 ==> e != null
    {
      ghost var known := Known();
      assert allocated(known);
      hide Hash, Chains, Elems, Entry;
      e := NewEntry(b, hash, memory);
      if e == null { return; }
      Use(e);
    }

    // pb_newname: one more use of the name.
    method NewName(b: seq<Byte>, memory: bool) returns (e: Name?)
      requires Valid() && ShortName(b) && (Of(b) != null ==> Of(b).refs < 0xFFFF)
      modifies this, chains, if Of(b) == null then {} else {Of(b)}
      ensures Valid() && (chains == old(chains) || fresh(chains))
      ensures old(Of(b)) != null ==> e == old(Of(b)) && e.refs == old(e.refs) + 1 && Known() == old(Known())
      ensures old(Of(b)) == null && e != null ==>
        fresh(e) && e.bytes == b && e.refs == 1 && Known() == old(Known()) + {e}
      ensures e == null ==> Known() == old(Known())
      ensures count <= old(count) + 1
      ensures memory && old(count) < MAX_CHAINS / 2 ==> e != null
    {
      ghost var known := Known();
      assert allocated(known);
      hide Hash, Chains, Elems;
      var h := CalcHash(b);
      e := GetName(b, h);
      if e == null {
        e := NewUsed(b, h, memory);
      } else {
        EntryIsMember(chains[..], b, e);
        Use(e);
      }
    }

    // pb_usename
    method Use(e: Name)
      requires chains.Length == 0 || chains.Length == Pow2(log)
      requires Chains(chains[..]) && count == |Known()| && e in Known()
      requires forall f :: f in Known() && f != e ==> f.refs >= 1
      modifies e`refs
      ensures Valid() && e.refs == old(e.refs) + 1
    {
      hide Hash, Chains, Elems;
      e.refs := e.refs + 1;
    }

    // pbN_delname
    method Unlink(e: Name)
      requires Valid() && e in Known()
      modifies this, chains
      ensures Valid() && chains == old(chains) && Known() == old(Known()) - {e}
    {
      hide Hash, Chains;
      PlaceOf(chains[..], e);
      var i := e.hash % chains.Length;
      var chain := chains[i];
      var k: nat := 0;
      while k < |chain|
        invariant k <= |chain| && forall j :: 0 <= j < k ==> chain[j] != e
        invariant chain == chains[i] && unchanged(this) && unchanged(chains)
      {
        if chain[k] == e {
          Unchained(chains[..], i, k);
          ghost var was := chains[..];
          chains[i] := chain[..k] + chain[k + 1..];
          assert chains[..] == was[i := was[i][..k] + was[i][k + 1..]];
          count := count - 1;
          return;
        }
        k := k + 1;
      }
    }

    // pb_delname: one use less; the last one takes the name out.
    method DelName(e: Name)
      requires Valid() && e in Known()
      modifies this, chains, e
      ensures Valid() && chains == old(chains)
      ensures old(e.refs) <= 1 ==> Known() == old(Known()) - {e}
      ensures old(e.refs) > 1 ==> Known() == old(Known()) && e.refs == old(e.refs) - 1
    {
      hide Hash, Chains, Elems;
      if e.refs <= 1 {
        Unlink(e);
        return;
      }
      e.refs := e.refs - 1;
    }

    // The entries and their counts.
    ghost predicate Agrees(r: map<Name, nat>)
      reads this, chains, Known()
    {
      r.Keys == Known() && forall e :: e in r ==> r[e] == e.refs
    }

    // Any run of pb_newname and pb_delname on an empty table in which no count leaves its 16 bits: the entries are the
    // names that are in use, each with the number of its uses.
    method Replay(ops: seq<NameOp>, memory: bool) returns (ok: bool, ghost r: map<Name, nat>)
      requires Valid() && Known() == {} && CountsFit(ops) && forall i :: 0 <= i < |ops| ==> ShortName(ops[i].bytes)
      modifies this, chains
      ensures Valid()
      ensures ok ==> Agrees(r) && Tally(r, CountedAll(ops))
      ensures memory && |ops| < MAX_CHAINS / 2 ==> ok
    {
      hide Hash, Chains, Elems, Entry, Tally, Counted, CountedAll, Pow2, Names.Agrees, Names.Of;
      NothingCounted();
      ok, r := true, map[];
      var i: nat := 0;
      NothingTallied();
      SameAgrees(r);
      while i < |ops|
        invariant i <= |ops| && Valid() && Agrees(r) && Tally(r, CountedAll(ops[..i]))
        invariant (chains == old(chains) || fresh(chains)) && fresh(Known())
        invariant count <= i
      {
        CountedMore(ops, i);
        ok, r := Step(ops[i], memory, r, CountedAll(ops[..i]));
        if !ok { return; }
        i := i + 1;
      }
      assert ops[..i] == ops;
    }

    method Step(op: NameOp, memory: bool, ghost r: map<Name, nat>, ghost m: map<seq<Byte>, nat>)
      returns (ok: bool, ghost now: map<Name, nat>)
      requires Valid() && ShortName(op.bytes) && Agrees(r) && Tally(r, m)
      requires op.New? && op.bytes in m ==> m[op.bytes] < 0xFFFF
      modifies this, chains, Known()
      ensures Valid() && (chains == old(chains) || fresh(chains)) && fresh(Known() - old(Known()))
      ensures ok ==> Agrees(now) && Tally(now, Counted(m, op)) && count <= old(count) + 1
      ensures memory && old(count) < MAX_CHAINS / 2 ==> ok
    {
      hide Hash, Chains, Elems, Entry, Tally, Counted, Names.Agrees, Names.Of;
      if op.New? {
        ok, now := StepNew(op.bytes, memory, r, m);
      } else {
        ok := true;
        now := StepDelete(op.bytes, r, m);
      }
    }

    method StepNew(b: seq<Byte>, memory: bool, ghost r: map<Name, nat>, ghost m: map<seq<Byte>, nat>)
      returns (ok: bool, ghost now: map<Name, nat>)
      requires Valid() && ShortName(b) && Agrees(r) && Tally(r, m) && (b in m ==> m[b] < 0xFFFF)
      modifies this, chains, Known()
      ensures Valid() && (chains == old(chains) || fresh(chains)) && fresh(Known() - old(Known()))
      ensures ok ==> Agrees(now) && Tally(now, Counted(m, New(b))) && count <= old(count) + 1
      ensures memory && old(count) < MAX_CHAINS / 2 ==> ok
    {
      hide Hash, Chains, Elems, Entry, Tally, OneEach, Names.Agrees, Names.Of, Counted;
      Member(b, r, m);
      var e;
      UsesOf(r);
      e := UseName(b, memory);
      ok, now := e != null, r;
      if ok {
        now := if e in r then r[e := r[e] + 1] else r[e := 1];
        TallyNew(r, m, e);
        OneAgrees(r, e, now);
      }
    }

    lemma UsesOf(r: map<Name, nat>)
      requires Agrees(r)
      ensures r.Keys == Known() && forall e :: e in r ==> r[e] == e.refs
    {
    }

    lemma OneAgrees(r: map<Name, nat>, e: Name, now: map<Name, nat>)
      requires now == (if e in r then r[e := r[e] + 1] else r[e := 1]) && Known() == r.Keys + {e}
      requires e.refs == (if e in r then r[e] + 1 else 1) && forall f :: f in r && f != e ==> r[f] == f.refs
      ensures Agrees(now)
    {
    }

    method UseName(b: seq<Byte>, memory: bool) returns (e: Name?)
      requires Valid() && ShortName(b) && (Of(b) != null ==> Of(b).refs < 0xFFFF)
      modifies this, chains, Known()
      ensures Valid() && (chains == old(chains) || fresh(chains)) && fresh(Known() - old(Known())) &&
        count <= old(count) + 1
      ensures e != null ==> e.bytes == b && Known() == old(Known()) + {e} && (e in old(Known()) ==> e == old(Of(b)))
      ensures e != null ==> (old(Of(b)) != null ==> e in old(Known()))
      ensures e != null ==> e.refs == old(if Of(b) == null then 0 else Of(b).refs) + 1
      ensures forall f :: f in old(Known()) && f != e ==> f.refs == old(f.refs)
      ensures memory && old(count) < MAX_CHAINS / 2 ==> e != null
    {
      ghost var known := Known();
      assert allocated(known);
      hide Hash, Chains, Elems, Entry, Names.Of;
      Find(b);
      e := NewName(b, memory);
    }

    method StepDelete(b: seq<Byte>, ghost r: map<Name, nat>, ghost m: map<seq<Byte>, nat>)
      returns (ghost now: map<Name, nat>)
      requires Valid() && ShortName(b) && Agrees(r) && Tally(r, m)
      modifies this, chains, Known()
      ensures Valid() && chains == old(chains) && Known() <= old(Known())
      ensures Agrees(now) && Tally(now, Counted(m, Delete(b))) && count <= old(count)
    {
      hide Hash, Chains, Elems, Entry, Tally, OneEach, Names.Agrees, Names.Of, Counted;
      Member(b, r, m);
      var e;
      e := DropName(b, r);
      now := r;
      if e != null {
        TallyDelete(r, m, e);
        now := if r[e] <= 1 then r - {e} else r[e := r[e] - 1];
        LessAgrees(r, e, now);
      } else {
        NotCounted(m, b);
        SameAgrees(r);
      }
    }

    lemma LessAgrees(r: map<Name, nat>, e: Name, now: map<Name, nat>)
      requires e in r && now == if r[e] <= 1 then r - {e} else r[e := r[e] - 1]
      requires Known() == if r[e] <= 1 then r.Keys - {e} else r.Keys
      requires (r[e] > 1 ==> e.refs == r[e] - 1) && forall f :: f in r && f != e ==> r[f] == f.refs
      ensures Agrees(now)
    {
    }

    lemma SameAgrees(r: map<Name, nat>)
      requires Known() == r.Keys && forall f :: f in r ==> r[f] == f.refs
      ensures Agrees(r)
    {
    }

    // Deletes a name, if there is one.
    method DropName(b: seq<Byte>, ghost r: map<Name, nat>) returns (e: Name?)
      requires Valid() && ShortName(b) && Agrees(r)
      modifies this, chains, Known()
      ensures e == old(Of(b)) && (e != null ==> e in r && e.bytes == b)
      ensures Valid() && chains == old(chains) && Known() <= old(Known()) && count <= old(count)
      ensures Known() == if e != null && r[e] <= 1 then r.Keys - {e} else r.Keys
      ensures forall f :: f in r && f != e ==> r[f] == f.refs
      ensures e != null && r[e] > 1 ==> e.refs == r[e] - 1
    {
      ghost var known := Known();
      assert allocated(known);
      hide Hash, Chains, Elems, Entry;
      Find(b);
      assert r.Keys == known;
      var h := CalcHash(b);
      e := GetName(b, h);
      if e != null { DelName(e); }
    }

    lemma Find(b: seq<Byte>)
      requires Valid() && ShortName(b)
      ensures Of(b) != null ==> Of(b) in Known() && Of(b).bytes == b
    {
      hide Hash, Chains, Elems, Entry;
      if Of(b) != null { EntryIsMember(chains[..], b, Of(b)); }
    }

    // A name has an entry when its uses are counted, and no other entry has its bytes.
    lemma Member(b: seq<Byte>, r: map<Name, nat>, m: map<seq<Byte>, nat>)
      requires Valid() && ShortName(b) && Agrees(r) && Tally(r, m)
      ensures Of(b) == null <==> b !in m
      ensures Of(b) != null ==> Of(b) in Known() && Of(b).bytes == b && Of(b).refs == m[b]
      ensures OneEach(r)
    {
      hide Hash, Chains, Elems, Entry;
      var e := Of(b);
      if e != null { EntryIsMember(chains[..], b, e); }
      if b in m {
        assert Bears(r, b);
        var f :| f in r && f.bytes == b;
        EntryIsMember(chains[..], b, f);
      }
      forall e, f | e in r && f in r && e.bytes == f.bytes
        ensures e == f
      {
        OneEntry(chains[..], e, f);
      }
    }
  }
}
