/**
 * The hash table of lua-protobuf: open addressing with chains threaded through the slots by relative `next`
 * offsets; an entry that does not sit in its own main slot is moved away when that slot's owner arrives.
 * Slots are counted in entries, not in bytes.
 */
module PbTable {

  datatype Entry<V> = Entry(next: int, key: int, value: V)

  // The slot a key asks for; slot 0 is kept for key 0.
  function Main(key: int, n: nat): (m: nat)
    requires n > 1
    ensures m < n && (key != 0 ==> m > 0)
  {
    var h := (key * 2654435761) % n;
    if key != 0 && h == 0 then 1 else h
  }

  // The hash multiplies by 2654435761 and cuts to the size; key 0 alone may have slot 0.
  lemma MainSlots(key: nat)
    ensures Main(1, 0x1_0000_0000) == 2654435761 && Main(2, 0x1_0000_0000) == 1013904226
    ensures Main(key, 8) == if key != 0 && key % 8 == 0 then 1 else key % 8
    ensures Main(key, 32) == if key != 0 && key % 32 == 0 then 1 else key * 17 % 32
  {
    Multiples(key * 331804470, 8, key);
    Multiples(key * 82951117, 32, key * 17);
    Odd(key);
  }

  lemma Multiples(a: nat, d: nat, r: nat)
    requires d == 8 || d == 32
    ensures (a * d + r) % d == r % d
  {
  }

  lemma Odd(key: nat)
    ensures key * 17 % 32 == 0 <==> key % 32 == 0
  {
    var q, r := key / 32, key % 32;
    assert key * 17 == (q * 17) * 32 + r * 17;
    Multiples(q * 17, 32, r * 17);
  }

  // Who comes before a slot in its chain (pred), how far down the chain it is (rank), and where a key sits (home).
  datatype Witness = Witness(rank: seq<nat>, pred: seq<nat>, home: map<int, nat>)

  ghost predicate Homes<V>(s: seq<Entry<V>>, home: map<int, nat>) {
    && (forall k :: k in home ==> home[k] < |s| && s[home[k]].key == k && k != 0)
    && (forall i :: 0 <= i < |s| && s[i].key != 0 ==> s[i].key in home && home[s[i].key] == i)
  }

  ghost predicate Used<V>(s: seq<Entry<V>>, i: int) {
    0 <= i < |s| && s[i].key != 0
  }

  // A used slot whose key asks for main slot m.
  ghost predicate UsedFor<V>(s: seq<Entry<V>>, i: int, m: int)
    requires |s| > 1
  {
    Used(s, i) && Main(s[i].key, |s|) == m
  }

  // The chain of a used slot starts in its main slot, and the links to both neighbours agree.
  ghost predicate Chained<V>(s: seq<Entry<V>>, w: Witness, i: int)
    requires |s| > 1 && |w.rank| == |w.pred| == |s| && 0 <= i < |s|
  {
    var m, p, j := Main(s[i].key, |s|), w.pred[i], i + s[i].next;
    && UsedFor(s, m, m)
    && (i != m ==> UsedFor(s, p, m) && p + s[p].next == i && w.rank[p] < w.rank[i])
    && (s[i].next != 0 ==> UsedFor(s, j, m) && j != m && w.pred[j] == i)
  }

  ghost predicate Linked<V>(s: seq<Entry<V>>, w: Witness) {
    && |s| > 1 && |w.rank| == |w.pred| == |s|
    && s[0].key == 0
    && Homes(s, w.home)
    && (forall i {:trigger s[i].next} :: 0 <= i < |s| && s[i].key == 0 ==> s[i].next == 0)
    && (forall i {:trigger Chained(s, w, i)} :: Used(s, i) ==> Chained(s, w, i))
  }

  lemma LinkedAt<V>(s: seq<Entry<V>>, w: Witness, i: int)
    requires Linked(s, w)
    ensures |s| > 1 && |w.rank| == |w.pred| == |s|
    ensures Used(s, i) ==> Chained(s, w, i)
    ensures 0 <= i < |s| && s[i].key == 0 ==> s[i].next == 0
  {
  }

  // ---- the three ways in which a new key finds its slot ----

  function Placed<V>(s: seq<Entry<V>>, mp: nat, key: int, zero: V): seq<Entry<V>>
    requires mp < |s|
  {
    s[mp := Entry(s[mp].next, key, zero)]
  }

  lemma PlacedLinked<V>(s: seq<Entry<V>>, w: Witness, key: int, zero: V)
    requires Linked(s, w) && key != 0 && key !in w.home && s[Main(key, |s|)].key == 0
    ensures (var mp := Main(key, |s|); Linked(Placed(s, mp, key, zero), w.(home := w.home[key := mp])))
  {
    hide Main;
    var mp := Main(key, |s|);
    var t, v := Placed(s, mp, key, zero), w.(home := w.home[key := mp]);
    forall i | Used(t, i) ensures Chained(t, v, i) {
      if i != mp {
        assert Chained(s, w, i);
      }
    }
  }

  // The occupant of the main slot mp belongs to another chain: it moves to the free slot f, and its predecessor
  // `on` and the rest of its chain are linked to f.
  function Moved<V>(s: seq<Entry<V>>, on: nat, mp: nat, f: nat, key: int, zero: V): seq<Entry<V>>
    requires on < |s| && mp < |s| && f < |s|
  {
    var o := s[mp];
    s[on := s[on].(next := f - on)]
     [f := if o.next != 0 then o.(next := o.next + mp - f) else o]
     [mp := Entry(0, key, zero)]
  }

  ghost function MovedWitness<V>(s: seq<Entry<V>>, w: Witness, on: nat, mp: nat, f: nat, key: int): Witness
    requires |w.rank| == |w.pred| == |s| && on < |s| && mp < |s| && f < |s|
    requires s[mp].next != 0 ==> 0 <= mp + s[mp].next < |s|
  {
    var pred := w.pred[f := on];
    Witness(w.rank[f := w.rank[mp]],
            if s[mp].next != 0 then pred[mp + s[mp].next := f] else pred,
            w.home[s[mp].key := f][key := mp])
  }

  ghost predicate MayMove<V>(s: seq<Entry<V>>, w: Witness, mp: nat, f: nat, key: int) {
    && Linked(s, w) && key != 0 && key !in w.home && mp == Main(key, |s|)
    && Used(s, mp) && Main(s[mp].key, |s|) != mp && 0 < f < |s| && s[f].key == 0
  }

  lemma Mover<V>(s: seq<Entry<V>>, w: Witness, mp: nat, f: nat, key: int)
    requires MayMove(s, w, mp, f, key)
    ensures (var on, m := w.pred[mp], Main(s[mp].key, |s|);
             UsedFor(s, on, m) && on + s[on].next == mp && on != mp && w.rank[on] < w.rank[mp] && UsedFor(s, m, m))
    ensures (var j, m := mp + s[mp].next, Main(s[mp].key, |s|);
             s[mp].next != 0 ==> UsedFor(s, j, m) && j != m && w.pred[j] == mp && w.rank[mp] < w.rank[j])
  {
    hide Main;
    assert Chained(s, w, mp);
    if s[mp].next != 0 {
      assert Chained(s, w, mp + s[mp].next);
    }
  }

  // Who is in which chain after the move.
  lemma MovedUsers<V>(s: seq<Entry<V>>, w: Witness, mp: nat, f: nat, key: int, zero: V, x: int, m: int)
    requires MayMove(s, w, mp, f, key) && w.pred[mp] < |s|
    ensures UsedFor(Moved(s, w.pred[mp], mp, f, key, zero), x, m)
       <==> (if x == f then m == Main(s[mp].key, |s|) else if x == mp then m == mp else UsedFor(s, x, m))
  {
    hide Main, Homes, Chained;
    Mover(s, w, mp, f, key);
  }

  // The way back from a slot that takes no part in the move itself, or only as a neighbour.
  lemma MovedBack<V>(s: seq<Entry<V>>, w: Witness, mp: nat, f: nat, key: int, zero: V, i: nat)
    requires MayMove(s, w, mp, f, key) && i != mp && i != f
    requires w.pred[mp] < |s| && (s[mp].next != 0 ==> 0 <= mp + s[mp].next < |s|)
    requires Used(Moved(s, w.pred[mp], mp, f, key, zero), i)
    ensures var t, v := Moved(s, w.pred[mp], mp, f, key, zero), MovedWitness(s, w, w.pred[mp], mp, f, key);
            var m, p := Main(t[i].key, |t|), v.pred[i];
            UsedFor(t, m, m) && (i != m ==> UsedFor(t, p, m) && p + t[p].next == i && v.rank[p] < v.rank[i])
  {
    hide Main, Homes, UsedFor, Linked;
    LinkedAt(s, w, i);
    Mover(s, w, mp, f, key);
    var on := w.pred[mp];
    var t, v := Moved(s, on, mp, f, key, zero), MovedWitness(s, w, on, mp, f, key);
    var m := Main(t[i].key, |t|);
    MovedUsers(s, w, mp, f, key, zero, m, m);
    MovedUsers(s, w, mp, f, key, zero, v.pred[i], m);
    UsedRange(s, m, m);
    UsedRange(s, w.pred[i], m);
    UsedRange(s, on, Main(s[mp].key, |s|));
    UsedRange(t, v.pred[i], m);
    UsedRange(s, mp + s[mp].next, Main(s[mp].key, |s|));
  }

  // And the way on from it.
  lemma MovedOn<V>(s: seq<Entry<V>>, w: Witness, mp: nat, f: nat, key: int, zero: V, i: nat)
    requires MayMove(s, w, mp, f, key) && i != mp && i != f
    requires w.pred[mp] < |s| && (s[mp].next != 0 ==> 0 <= mp + s[mp].next < |s|)
    requires Used(Moved(s, w.pred[mp], mp, f, key, zero), i)
    ensures var t, v := Moved(s, w.pred[mp], mp, f, key, zero), MovedWitness(s, w, w.pred[mp], mp, f, key);
            var m, j := Main(t[i].key, |t|), i + t[i].next;
            t[i].next != 0 ==> UsedFor(t, j, m) && j != m && v.pred[j] == i
  {
    hide Main, Homes, UsedFor, Linked;
    LinkedAt(s, w, i);
    Mover(s, w, mp, f, key);
    var on := w.pred[mp];
    var t := Moved(s, on, mp, f, key, zero);
    var m := Main(t[i].key, |t|);
    MovedUsers(s, w, mp, f, key, zero, i + t[i].next, m);
    UsedRange(s, m, m);
    UsedRange(s, w.pred[i], m);
    UsedRange(s, i + s[i].next, m);
    UsedRange(t, i + t[i].next, m);
    UsedRange(s, on, Main(s[mp].key, |s|));
    UsedRange(s, mp + s[mp].next, Main(s[mp].key, |s|));
  }

  lemma MovedChained<V>(s: seq<Entry<V>>, w: Witness, mp: nat, f: nat, key: int, zero: V, i: nat)
    requires MayMove(s, w, mp, f, key)
    requires w.pred[mp] < |s| && (s[mp].next != 0 ==> 0 <= mp + s[mp].next < |s|)
    requires Used(Moved(s, w.pred[mp], mp, f, key, zero), i)
    ensures Chained(Moved(s, w.pred[mp], mp, f, key, zero), MovedWitness(s, w, w.pred[mp], mp, f, key), i)
  {
    hide Main, Homes, UsedFor;
    if i != mp && i != f {
      MovedBack(s, w, mp, f, key, zero, i);
      MovedOn(s, w, mp, f, key, zero, i);
    } else {
      Mover(s, w, mp, f, key);
      var on := w.pred[mp];
      var t, v := Moved(s, on, mp, f, key, zero), MovedWitness(s, w, on, mp, f, key);
      var m := Main(t[i].key, |t|);
      MovedUsers(s, w, mp, f, key, zero, m, m);
      MovedUsers(s, w, mp, f, key, zero, on, m);
      MovedUsers(s, w, mp, f, key, zero, i + t[i].next, m);
      UsedRange(s, m, m);
      UsedRange(s, on, m);
      UsedRange(s, i + t[i].next, m);
    }
  }

  lemma UsedRange<V>(s: seq<Entry<V>>, x: int, m: int)
    requires |s| > 1
    ensures UsedFor(s, x, m) ==> 0 <= x < |s| && s[x].key != 0 && Main(s[x].key, |s|) == m
  {
  }

  lemma MovedLinked<V>(s: seq<Entry<V>>, w: Witness, mp: nat, f: nat, key: int, zero: V)
    requires MayMove(s, w, mp, f, key)
    ensures w.pred[mp] < |s| && (s[mp].next != 0 ==> 0 <= mp + s[mp].next < |s|)
    ensures (var on := w.pred[mp]; Linked(Moved(s, on, mp, f, key, zero), MovedWitness(s, w, on, mp, f, key)))
  {
    hide Main, Chained, Homes;
    Mover(s, w, mp, f, key);
    MovedHomes(s, w, mp, f, key, zero);
    var on := w.pred[mp];
    var t, v := Moved(s, on, mp, f, key, zero), MovedWitness(s, w, on, mp, f, key);
    forall i | Used(t, i) ensures Chained(t, v, i) {
      MovedChained(s, w, mp, f, key, zero, i);
    }
  }

  lemma MovedHomes<V>(s: seq<Entry<V>>, w: Witness, mp: nat, f: nat, key: int, zero: V)
    requires MayMove(s, w, mp, f, key)
    requires w.pred[mp] < |s| && (s[mp].next != 0 ==> 0 <= mp + s[mp].next < |s|)
    ensures var t := Moved(s, w.pred[mp], mp, f, key, zero);
            && Homes(t, MovedWitness(s, w, w.pred[mp], mp, f, key).home) && t[0].key == 0
            && forall i {:trigger t[i].next} :: 0 <= i < |t| && t[i].key == 0 ==> t[i].next == 0
  {
    hide Main, Chained;
    Mover(s, w, mp, f, key);
  }

  // The occupant of the main slot mp owns it: the new key goes to the free slot f, second in the chain.
  function Second<V>(s: seq<Entry<V>>, mp: nat, f: nat, key: int, zero: V): seq<Entry<V>>
    requires mp < |s| && f < |s|
  {
    var o := s[mp];
    s[f := Entry(if o.next != 0 then mp - f + o.next else s[f].next, key, zero)]
     [mp := o.(next := f - mp)]
  }

  ghost function SecondWitness<V>(s: seq<Entry<V>>, w: Witness, mp: nat, f: nat, key: int): Witness
    requires |w.rank| == |w.pred| == |s| && mp < |s| && f < |s|
    requires s[mp].next != 0 ==> 0 <= mp + s[mp].next < |s|
  {
    var pred := w.pred[f := mp];
    Witness(seq(|s|, i requires 0 <= i < |w.rank| => 2 * w.rank[i])[f := 2 * w.rank[mp] + 1],
            if s[mp].next != 0 then pred[mp + s[mp].next := f] else pred,
            w.home[key := f])
  }

  lemma SecondLinked<V>(s: seq<Entry<V>>, w: Witness, mp: nat, f: nat, key: int, zero: V)
    requires Linked(s, w) && key != 0 && key !in w.home && mp == Main(key, |s|)
    requires Used(s, mp) && Main(s[mp].key, |s|) == mp && 0 < f < |s| && s[f].key == 0
    ensures s[mp].next != 0 ==> 0 <= mp + s[mp].next < |s|
    ensures Linked(Second(s, mp, f, key, zero), SecondWitness(s, w, mp, f, key))
  {
    hide Main, Chained;
    SecondInRange(s, w, mp);
    var t, v := Second(s, mp, f, key, zero), SecondWitness(s, w, mp, f, key);
    forall i | Used(t, i) ensures Chained(t, v, i) {
      SecondChained(s, w, mp, f, key, zero, i);
    }
  }

  lemma SecondInRange<V>(s: seq<Entry<V>>, w: Witness, mp: nat)
    requires Linked(s, w) && Used(s, mp)
    ensures s[mp].next != 0 ==> 0 <= mp + s[mp].next < |s|
  {
    hide Main;
    assert Chained(s, w, mp);
  }

  lemma SecondChained<V>(s: seq<Entry<V>>, w: Witness, mp: nat, f: nat, key: int, zero: V, i: nat)
    requires Linked(s, w) && key != 0 && mp == Main(key, |s|)
    requires Used(s, mp) && Main(s[mp].key, |s|) == mp && 0 < f < |s| && s[f].key == 0
    requires (s[mp].next != 0 ==> 0 <= mp + s[mp].next < |s|) && Used(Second(s, mp, f, key, zero), i)
    ensures Chained(Second(s, mp, f, key, zero), SecondWitness(s, w, mp, f, key), i)
  {
    hide Main, Homes, Linked, UsedFor, Second, SecondWitness;
    SecondBack(s, w, mp, f, key, zero, i);
    SecondOn(s, w, mp, f, key, zero, i);
  }

  lemma SecondBack<V>(s: seq<Entry<V>>, w: Witness, mp: nat, f: nat, key: int, zero: V, i: nat)
    requires Linked(s, w) && key != 0 && mp == Main(key, |s|)
    requires Used(s, mp) && Main(s[mp].key, |s|) == mp && 0 < f < |s| && s[f].key == 0
    requires (s[mp].next != 0 ==> 0 <= mp + s[mp].next < |s|) && Used(Second(s, mp, f, key, zero), i)
    ensures var t, v := Second(s, mp, f, key, zero), SecondWitness(s, w, mp, f, key);
            && |t| == |s| && |v.rank| == |v.pred| == |t|
            && var m, p := Main(t[i].key, |t|), v.pred[i];
               UsedFor(t, m, m) && (i != m ==> UsedFor(t, p, m) && p + t[p].next == i && v.rank[p] < v.rank[i])
  {
    hide Main, Homes, Linked;
    LinkedAt(s, w, mp);
    LinkedAt(s, w, f);
    LinkedAt(s, w, i);
  }

  lemma SecondOn<V>(s: seq<Entry<V>>, w: Witness, mp: nat, f: nat, key: int, zero: V, i: nat)
    requires Linked(s, w) && key != 0 && mp == Main(key, |s|)
    requires Used(s, mp) && Main(s[mp].key, |s|) == mp && 0 < f < |s| && s[f].key == 0
    requires (s[mp].next != 0 ==> 0 <= mp + s[mp].next < |s|) && Used(Second(s, mp, f, key, zero), i)
    ensures var t, v := Second(s, mp, f, key, zero), SecondWitness(s, w, mp, f, key);
            && |t| == |s| && |v.pred| == |t|
            && var m, j := Main(t[i].key, |t|), i + t[i].next;
               t[i].next != 0 ==> UsedFor(t, j, m) && j != m && v.pred[j] == i
  {
    hide Main, Homes, Linked;
    LinkedAt(s, w, mp);
    LinkedAt(s, w, f);
    LinkedAt(s, w, i);
  }

  // ---- what the table holds ----

  ghost function Held<V>(s: seq<Entry<V>>, home: map<int, nat>): map<int, V>
    requires forall k :: k in home ==> home[k] < |s|
  {
    map k | k in home :: s[home[k]].value
  }

  lemma PlacedHeld<V>(s: seq<Entry<V>>, w: Witness, mp: nat, key: int, zero: V)
    requires Linked(s, w) && key !in w.home && mp < |s| && s[mp].key == 0
    requires Homes(Placed(s, mp, key, zero), w.home[key := mp])
    ensures Held(Placed(s, mp, key, zero), w.home[key := mp]) == Held(s, w.home)[key := zero]
  {
    hide Main, Chained;
    var a, b := Held(s, w.home)[key := zero], Held(Placed(s, mp, key, zero), w.home[key := mp]);
    assert a.Keys == b.Keys;
    assert forall k :: k in w.home ==> w.home[k] != mp;
  }

  lemma MovedHeld<V>(s: seq<Entry<V>>, w: Witness, mp: nat, f: nat, key: int, zero: V)
    requires MayMove(s, w, mp, f, key) && w.pred[mp] < |s| && (s[mp].next != 0 ==> 0 <= mp + s[mp].next < |s|)
    requires Homes(Moved(s, w.pred[mp], mp, f, key, zero), MovedWitness(s, w, w.pred[mp], mp, f, key).home)
    ensures (var on := w.pred[mp];
             Held(Moved(s, on, mp, f, key, zero), MovedWitness(s, w, on, mp, f, key).home)
               == Held(s, w.home)[key := zero])
  {
    hide Main, Chained;
    Mover(s, w, mp, f, key);
    var on := w.pred[mp];
    var home := MovedWitness(s, w, on, mp, f, key).home;
    var a, b := Held(s, w.home)[key := zero], Held(Moved(s, on, mp, f, key, zero), home);
    assert a.Keys == b.Keys;
    forall k | k in w.home ensures b[k] == a[k] {
      MovedValue(s, w, mp, f, key, zero, k);
    }
  }

  lemma MovedValue<V>(s: seq<Entry<V>>, w: Witness, mp: nat, f: nat, key: int, zero: V, k: int)
    requires MayMove(s, w, mp, f, key) && w.pred[mp] < |s| && (s[mp].next != 0 ==> 0 <= mp + s[mp].next < |s|)
    requires k in w.home
    ensures var home := w.home[s[mp].key := f][key := mp];
            && home[k] < |s| && k != key
            && Moved(s, w.pred[mp], mp, f, key, zero)[home[k]].value == s[w.home[k]].value
  {
    hide Main, Chained;
    assert w.home[k] != f && (w.home[k] == mp <==> k == s[mp].key);
  }

  lemma SecondHeld<V>(s: seq<Entry<V>>, w: Witness, mp: nat, f: nat, key: int, zero: V)
    requires Linked(s, w) && key !in w.home && mp < |s| && f < |s| && s[f].key == 0 && mp != f
    requires Homes(Second(s, mp, f, key, zero), w.home[key := f])
    ensures Held(Second(s, mp, f, key, zero), w.home[key := f]) == Held(s, w.home)[key := zero]
  {
    hide Main, Chained;
    var a, b := Held(s, w.home)[key := zero], Held(Second(s, mp, f, key, zero), w.home[key := f]);
    assert a.Keys == b.Keys;
    assert forall k :: k in w.home ==> w.home[k] != f;
  }

  // What the slots below i hold.
  ghost function HeldBelow<V>(s: seq<Entry<V>>, home: map<int, nat>, i: nat): map<int, V> {
    map k | k in home && home[k] < i && home[k] < |s| :: s[home[k]].value
  }

  lemma HeldBelowStep<V>(s: seq<Entry<V>>, w: Witness, i: nat)
    requires Linked(s, w) && i < |s|
    ensures HeldBelow(s, w.home, i + 1)
         == if s[i].key == 0 then HeldBelow(s, w.home, i) else HeldBelow(s, w.home, i)[s[i].key := s[i].value]
    ensures s[i].key != 0 ==> s[i].key !in HeldBelow(s, w.home, i)
  {
    hide Main, Chained;
    var a, b := HeldBelow(s, w.home, i), HeldBelow(s, w.home, i + 1);
    assert forall k :: k in w.home && w.home[k] == i ==> k == s[i].key;
    assert s[i].key == 0 ==> b.Keys == a.Keys;
    assert s[i].key != 0 ==> b.Keys == a.Keys + {s[i].key};
  }

  lemma BelowSize<V>(s: seq<Entry<V>>, w: Witness, i: nat)
    requires Linked(s, w) && i < |s| && s[i].key != 0
    ensures |HeldBelow(s, w.home, i)| < |w.home|
  {
    hide Main, Chained;
    HeldBelowStep(s, w, i);
    var a := HeldBelow(s, w.home, i);
    SubsetSize(a.Keys + {s[i].key}, w.home.Keys);
    assert |a.Keys| == |a|;
  }

  lemma Revalued<V>(s: seq<Entry<V>>, w: Witness, i: nat, v: V)
    requires Linked(s, w) && i < |s|
    ensures Linked(s[i := s[i].(value := v)], w)
  {
    hide Main;
    var t := s[i := s[i].(value := v)];
    forall j | Used(t, j) ensures Chained(t, w, j) {
      assert Chained(s, w, j);
    }
  }

  lemma RevaluedHeld<V>(s: seq<Entry<V>>, w: Witness, i: nat, v: V)
    requires Linked(s, w) && i < |s|
    ensures Held(s[i := s[i].(value := v)], w.home)
         == if s[i].key == 0 then Held(s, w.home) else Held(s, w.home)[s[i].key := v]
  {
    hide Main, Chained;
    var a, b := Held(s, w.home), Held(s[i := s[i].(value := v)], w.home);
    if s[i].key != 0 {
      assert s[i].key in w.home && w.home[s[i].key] == i;
      assert b.Keys == a[s[i].key := v].Keys;
    }
    forall k | k in w.home ensures b[k] == if k == s[i].key then v else a[k] {
      assert w.home[k] == i <==> k == s[i].key;
    }
  }

  // ---- room ----

  ghost predicate Roomy<V>(s: seq<Entry<V>>) {
    exists i :: 1 <= i < |s| && s[i].key == 0
  }

  ghost function KeysBelow<V>(s: seq<Entry<V>>, n: nat): set<int>
    requires n < |s|
  {
    set i | 1 <= i <= n :: s[i].key
  }

  lemma {:induction false} CountKeys<V>(s: seq<Entry<V>>, n: nat)
    requires n < |s| && forall i, j :: 1 <= i < j <= n ==> s[i].key != s[j].key
    ensures |KeysBelow(s, n)| == n
  {
    if n > 0 {
      CountKeys(s, n - 1);
      assert KeysBelow(s, n) == KeysBelow(s, n - 1) + {s[n].key};
      assert s[n].key !in KeysBelow(s, n - 1);
    }
  }

  // A table with fewer keys than slots 1, 2, ... has a free slot among them.
  lemma RoomLeft<V>(s: seq<Entry<V>>, w: Witness)
    requires Linked(s, w) && |w.home| < |s| - 1
    ensures Roomy(s)
  {
    if !Roomy(s) {
      CountKeys(s, |s| - 1);
      SubsetSize(KeysBelow(s, |s| - 1), w.home.Keys);
    }
  }

  lemma {:induction false} AtMost<V>(s: seq<Entry<V>>, n: nat)
    requires n < |s|
    ensures |KeysBelow(s, n)| <= n
  {
    if n > 0 {
      AtMost(s, n - 1);
      assert KeysBelow(s, n) == KeysBelow(s, n - 1) + {s[n].key};
    }
  }

  // No table holds more keys than it has slots besides slot 0, and one that holds as many has no room.
  lemma KeysFit<V>(s: seq<Entry<V>>, w: Witness)
    requires Linked(s, w)
    ensures |w.home| <= |s| - 1
    ensures |w.home| == |s| - 1 ==> !Roomy(s)
  {
    var n, keys := |s| - 1, w.home.Keys;
    AtMost(s, n);
    forall k | k in keys ensures k in KeysBelow(s, n) { assert s[w.home[k]].key == k; }
    SubsetSize(keys, KeysBelow(s, n));
    if Roomy(s) {
      assert 0 in KeysBelow(s, n);
      SubsetSize(keys + {0}, KeysBelow(s, n));
    }
  }

  // The last free slot below n; slot 0 is free.
  ghost function LastFree<V>(s: seq<Entry<V>>, n: nat): (i: nat)
    requires 0 < n <= |s|
    ensures i < n && forall j :: i < j < n ==> s[j].key != 0
    ensures i > 0 ==> s[i].key == 0
  {
    if n == 1 || s[n - 1].key == 0 then n - 1 else LastFree(s, n - 1)
  }

  lemma SubsetSize<T>(a: set<T>, b: set<T>)
    requires a <= b
    ensures |a| <= |b|
  {
    assert b == a + (b - a);
  }

  // ---- chains ----

  // Slot i is on the way from the main slot of j to j.
  ghost predicate Before<V>(s: seq<Entry<V>>, w: Witness, i: int, j: int)
    requires Linked(s, w) && Used(s, j)
    decreases w.rank[j]
  {
    i == j || (assert Chained(s, w, j); j != Main(s[j].key, |s|) && Before(s, w, i, w.pred[j]))
  }

  lemma {:induction false} MainBefore<V>(s: seq<Entry<V>>, w: Witness, j: int)
    requires Linked(s, w) && Used(s, j)
    ensures Before(s, w, Main(s[j].key, |s|), j)
    decreases w.rank[j]
  {
    hide Main;
    assert Chained(s, w, j);
    if j != Main(s[j].key, |s|) {
      MainBefore(s, w, w.pred[j]);
    }
  }

  lemma {:induction false} StepBefore<V>(s: seq<Entry<V>>, w: Witness, i: int, j: int)
    requires Linked(s, w) && Used(s, j) && Before(s, w, i, j) && i != j
    ensures 0 <= i < |s| && s[i].next != 0 && Used(s, i + s[i].next) && Before(s, w, i + s[i].next, j)
    ensures w.rank[i] < w.rank[i + s[i].next] <= w.rank[j]
    decreases w.rank[j]
  {
    hide Main;
    assert Chained(s, w, j);
    var p := w.pred[j];
    if i != p {
      StepBefore(s, w, i, p);
    }
  }

  // Following a link stays in the table and goes down in the chain.
  lemma StepDown<V>(s: seq<Entry<V>>, w: Witness, i: int)
    requires Linked(s, w) && 0 <= i < |s| && s[i].next != 0
    ensures Used(s, i + s[i].next) && w.rank[i] < w.rank[i + s[i].next]
  {
    hide Main;
    assert Chained(s, w, i);
    assert Chained(s, w, i + s[i].next);
  }

  ghost function Deeper(w: Witness, i: nat): set<int>
    requires i < |w.rank|
  {
    set j | 0 <= j < |w.rank| && w.rank[j] > w.rank[i]
  }

  lemma DeeperShrinks(w: Witness, i: nat, j: nat)
    requires i < |w.rank| && j < |w.rank| && w.rank[i] < w.rank[j]
    ensures Deeper(w, j) < Deeper(w, i)
  {
    assert j in Deeper(w, i) && j !in Deeper(w, j);
  }

  // Doubling a size until it is enough or at the limit.
  function SizeFor(n: nat, want: nat, limit: nat): (size: nat)
    requires n > 0
    ensures size == n || n < size < 2 * want
    ensures (size < want ==> limit <= size) && (n >= want ==> size == n)
    decreases want - n
  {
    if n < limit && n < want then SizeFor(2 * n, want, limit) else n
  }

  // A size that doubling can end at.
  predicate Doubled(n: nat, limit: nat) {
    SizeFor(8, n, limit) == n
  }

  lemma {:induction false} EndsDoubled(from: nat, want: nat, limit: nat)
    requires from > 0
    ensures SizeFor(from, SizeFor(from, want, limit), limit) == SizeFor(from, want, limit)
    decreases want - from
  {
    if from < limit && from < want { EndsDoubled(2 * from, want, limit); }
  }

  // Doubling once more ends at twice the size or cannot, and it can below a size that doubling has ended at.
  lemma {:induction false} DoublesOnce(from: nat, n: nat, larger: nat, limit: nat)
    requires from > 0 && SizeFor(from, n, limit) == n
    ensures SizeFor(from, 2 * n, limit) == if n < limit then 2 * n else n
    ensures n < larger && SizeFor(from, larger, limit) == larger ==> n < limit
    decreases n - from
  {
    if from < n { DoublesOnce(2 * from, n, larger, limit); }
  }

  // One key more in a table that is no larger than it has to be.
  lemma {:induction false} OneMore(from: nat, keys: nat, limit: nat)
    requires from > 0
    ensures var n := SizeFor(from, keys, limit);
            SizeFor(from, keys + 1, limit) == if n <= keys && n < limit then SizeFor(2 * n, keys + 1, limit) else n
    decreases keys - from
  {
    if from < limit && from < keys { OneMore(2 * from, keys, limit); }
  }

  class Table<V> {
    const zero: V
    const limit: nat
    var size: nat
    var lastfree: nat
    var hasZero: bool
    var hash: array<Entry<V>>
    ghost var w: Witness

    constructor (zero: V, limit: nat)
      ensures Valid() && Contents() == map[] && !hasZero && size == 0 && fresh(hash)
      ensures this.zero == zero && this.limit == limit
    {
      this.zero, this.limit := zero, limit;
      size, lastfree, hasZero := 0, 0, false;
      hash := new Entry<V>[0];
      w := Witness([], [], map[]);
    }

    ghost predicate Valid()
      reads this, hash
    {
      && hash.Length == size
      && (size == 0 ==> w.home == map[] && !hasZero)
      && (size > 0 ==> Linked(hash[..], w) && 1 <= lastfree <= size && Doubled(size, limit)
                       && (forall i :: lastfree <= i < size ==> hash[i].key != 0)
                       && (!hasZero ==> hash[0].value == zero))
    }

    ghost predicate Core()
      reads this, hash
    {
      hash.Length == size > 0 && Linked(hash[..], w)
    }

    // The nonzero keys with their payloads.
    ghost function Contents(): map<int, V>
      requires Valid()
      reads this, hash
    {
      Held(hash[..], w.home)
    }

    // pb_gettable
    method Get(key: int) returns (found: bool, slot: nat)
      requires Valid()
      ensures key == 0 ==> found == hasZero && slot == 0
      ensures key != 0 ==> found == (key in w.home) && (found ==> slot == w.home[key])
      ensures found ==> slot < size && hash[slot].key == key
      ensures key != 0 ==> found == (key in Contents()) && (found ==> hash[slot].value == Contents()[key])
    {
      hide Main, Chained, Before, Deeper;
      if size == 0 {
        return false, 0;
      }
      if key == 0 {
        return hasZero, 0;
      }
      slot := Main(key, size);
      ghost var s := hash[..];
      if key in w.home {
        MainBefore(s, w, w.home[key]);
      }
      while hash[slot].key != key
        invariant slot < size && s == hash[..]
        invariant key in w.home ==> Before(s, w, slot, w.home[key])
        decreases Deeper(w, slot)
      {
        if key in w.home {
          StepBefore(s, w, slot, w.home[key]);
        }
        if hash[slot].next == 0 {
          return false, 0;
        }
        StepDown(s, w, slot);
        DeeperShrinks(w, slot, slot + hash[slot].next);
        slot := slot + hash[slot].next;
      }
      found := true;
    }

    ghost predicate HasRoom()
      requires Valid()
      reads this, hash
    {
      Roomy(hash[..])
    }

    // The search for a free slot, from lastfree downwards; slot 0 is never taken.
    method FindFree() returns (found: bool, f: nat)
      requires Valid() && size > 0
      modifies this`lastfree
      ensures found == Roomy(hash[..])
      ensures 1 <= lastfree <= size && (found ==> lastfree == f < size && hash[f].key == 0 && hash[f].next == 0)
      ensures forall i :: lastfree <= i < size && !(found && i == f) ==> hash[i].key != 0
    {
      hide Main, Chained, Homes;
      found, f := false, 0;
      while lastfree > 1
        invariant 1 <= lastfree <= size
        invariant forall i :: lastfree <= i < size ==> hash[i].key != 0
      {
        lastfree := lastfree - 1;
        if hash[lastfree].key == 0 && hash[lastfree].next == 0 {
          found, f := true, lastfree;
          assert hash[..][f].key == 0;
          return;
        }
        ghost var e := hash[..][lastfree];
        assert e.key == 0 ==> e.next == 0;
      }
    }

    // The entry before mp in the chain of mp's occupant.
    method FindPrevious(mp: nat) returns (on: nat)
      requires Core() && mp < size && hash[mp].key != 0 && Main(hash[mp].key, size) != mp
      ensures on < size && on == w.pred[mp]
    {
      hide Main, Deeper, Homes;
      ghost var s := hash[..];
      on := Main(hash[mp].key, size);
      MainBefore(s, w, mp);
      while on + hash[on].next != mp
        invariant on < size && on != mp && s == hash[..] && Before(s, w, on, mp)
        decreases Deeper(w, on)
      {
        StepBefore(s, w, on, mp);
        DeeperShrinks(w, on, on + hash[on].next);
        on := on + hash[on].next;
      }
      StepBefore(s, w, on, mp);
      assert Chained(s, w, on);
    }

    // The occupant of mp gives way to the key.
    method MoveAway(mp: nat, f: nat, key: int)
      requires Core() && MayMove(hash[..], w, mp, f, key)
      modifies hash, this`w
      ensures Linked(hash[..], w) && Held(hash[..], w.home) == old(Held(hash[..], w.home))[key := zero]
      ensures hash[mp].key == key && hash[mp].value == zero && hash[f].key != 0 && hash[0] == old(hash[0])
      ensures w.home == old(w.home)[old(hash[mp].key) := f][key := mp]
      ensures forall i :: 0 <= i < size && i != f && i != mp ==> hash[i].key == old(hash[i].key)
    {
      hide Main, Chained, Homes;
      ghost var s := hash[..];
      MovedLinked(s, w, mp, f, key, zero);
      MovedHeld(s, w, mp, f, key, zero);
      Mover(s, w, mp, f, key);
      var on := FindPrevious(mp);
      hash[on] := hash[on].(next := f - on);
      hash[f] := hash[mp];
      if hash[mp].next != 0 {
        hash[f] := hash[f].(next := hash[f].next + mp - f);
        hash[mp] := hash[mp].(next := 0);
      }
      hash[mp] := hash[mp].(key := key, value := zero);
      w := MovedWitness(s, w, on, mp, f, key);
      assert hash[..] == Moved(s, on, mp, f, key, zero);
    }

    // The key follows the owner of its main slot.
    method FollowOwner(mp: nat, f: nat, key: int)
      requires Core() && mp < size && 0 < f < size && hash[f].key == 0 && hash[f].next == 0
      requires key != 0 && key !in w.home && mp == Main(key, size) == Main(hash[mp].key, size) && hash[mp].key != 0
      modifies hash, this`w
      ensures Linked(hash[..], w) && Held(hash[..], w.home) == old(Held(hash[..], w.home))[key := zero]
      ensures hash[f].key == key && hash[f].value == zero && hash[0] == old(hash[0])
      ensures w.home == old(w.home)[key := f]
      ensures forall i :: 0 <= i < size && i != f ==> hash[i].key == old(hash[i].key)
    {
      hide Main, Chained, Homes;
      ghost var s := hash[..];
      SecondLinked(s, w, mp, f, key, zero);
      SecondHeld(s, w, mp, f, key, zero);
      if hash[mp].next != 0 {
        hash[f] := hash[f].(next := mp - f + hash[mp].next);
      }
      hash[mp] := hash[mp].(next := f - mp);
      hash[f] := hash[f].(key := key, value := zero);
      w := SecondWitness(s, w, mp, f, key);
      assert hash[..] == Second(s, mp, f, key, zero);
    }

    // The key finds its main slot taken and no free slot: the table has to grow first.
    ghost predicate Grows(key: int)
      requires Valid()
      reads this, hash
    {
      size == 0 || (key != 0 && hash[Main(key, size)].key != 0 && !HasRoom())
    }

    // pbT_newkey: give a key that the table does not hold a slot, with a zero payload.
    method NewKey(key: int) returns (ok: bool, slot: nat)
      requires Valid() && key !in w.home
      modifies this, hash
      ensures Valid() && (hash == old(hash) || fresh(hash))
      ensures ok ==> slot < size && hash[slot].key == key && hash[slot].value == zero
      ensures ok && key != 0 ==> slot > 0 && Contents() == old(Contents())[key := zero]
      ensures ok && key != 0 ==> hasZero == (old(hasZero) || (old(Grows(key)) && old(size) > 0))
      ensures ok && key != 0 && old(size) > 0 ==> hash[0].value == old(hash[0].value)
      ensures ok && key == 0 ==> slot == 0 && Contents() == old(Contents()) && hasZero
      ensures ok == (old(Grows(key)) && old(size) > 0 ==> old(size) < limit)
      ensures ok ==> size == if !old(Grows(key)) then old(size) else if old(size) == 0 then 8 else 2 * old(size)
      ensures !ok ==> Contents() == old(Contents()) && hasZero == old(hasZero)
      ensures !ok ==> hash == old(hash) && size == old(size) && hash[..] == old(hash[..])
      ensures !old(Grows(key)) ==> hash == old(hash)
      decreases if HasRoom() || (key == 0 && size > 0) then 0 else 3
    {
      hide Main, Chained, Homes, Held, LastFree, Roomy, SizeFor;
      if size == 0 {
        NothingFree();
        var newsize := Resize(2 * size);
        RoomLeft(hash[..], w);
      }
      if key == 0 {
        slot := 0;
        hasZero := true;
        ClearZero();
        return true, 0;
      }
      var mp := Main(key, size);
      if hash[mp].key == 0 {
        PlaceAt(mp, key);
        return true, mp;
      }
      var found, f := FindFree();
      if !found {
        ok, slot := GrowAndAdd(key);
        return;
      }
      ok := true;
      slot := TakeFree(mp, f, key);
    }

    // A table without a free slot grows first.
    method GrowAndAdd(key: int) returns (ok: bool, slot: nat)
      requires Valid() && size > 0 && key != 0 && key !in w.home && !HasRoom()
      modifies this, hash
      ensures Valid() && (hash == old(hash) || fresh(hash)) && ok == (old(size) < limit)
      ensures ok ==> 0 < slot < size == 2 * old(size) && hash[slot].key == key && hash[slot].value == zero && hasZero
      ensures ok ==> Contents() == old(Contents())[key := zero] && hash[0].value == old(hash[0].value)
      ensures !ok ==> Contents() == old(Contents()) && hasZero == old(hasZero)
      ensures !ok ==> hash == old(hash) && size == old(size) && hash[..] == old(hash[..])
      decreases 3, 0
    {
      hide Main, Chained, Homes, Held, LastFree, Roomy, SizeFor;
      KeysFit(hash[..], w);
      NoOtherFree();
      DoublesOnce(8, size, size, limit);
      var newsize := Resize(2 * size);
      if newsize == 0 {
        return false, 0;
      }
      RoomLeft(hash[..], w);
      ok, slot := NewKey(key);
    }

    // The free slot f that the search found is taken.
    method TakeFree(mp: nat, f: nat, key: int) returns (slot: nat)
      requires Core() && 0 < f == lastfree < size && hash[f].key == 0 && hash[f].next == 0 && Doubled(size, limit)
      requires key != 0 && key !in w.home && mp == Main(key, size) && hash[mp].key != 0
      requires (forall i :: f < i < size ==> hash[i].key != 0) && (!hasZero ==> hash[0].value == zero)
      modifies hash, this`w
      ensures Valid() && 0 < slot < size && hash[slot].key == key && hash[slot].value == zero
      ensures Contents() == old(Held(hash[..], w.home))[key := zero] && hash[0] == old(hash[0])
    {
      hide Main, Chained, Homes, Held;
      if Main(hash[mp].key, size) != mp {
        MoveAway(mp, f, key);
        slot := mp;
      } else {
        FollowOwner(mp, f, key);
        slot := f;
      }
    }

    // Key 0 takes slot 0.
    method ClearZero()
      requires Valid() && size > 0
      modifies hash
      ensures Valid() && Contents() == old(Contents()) && hash[0].value == zero && hash[0].key == 0
    {
      hide Main, Chained, Homes, Held;
      Revalued(hash[..], w, 0, zero);
      RevaluedHeld(hash[..], w, 0, zero);
      ghost var s := hash[..];
      hash[0] := hash[0].(key := 0, value := zero);
      assert hash[..] == s[0 := s[0].(value := zero)];
    }

    method PlaceAt(mp: nat, key: int)
      requires Valid() && size > 0 && key != 0 && key !in w.home && mp == Main(key, size) && hash[mp].key == 0
      modifies hash, this`w
      ensures Valid() && Contents() == old(Contents())[key := zero] && mp > 0
      ensures hash[mp].key == key && hash[mp].value == zero && hash[0] == old(hash[0])
    {
      hide Chained, Homes, Held;
      ghost var s := hash[..];
      PlacedLinked(s, w, key, zero);
      PlacedHeld(s, w, mp, key, zero);
      hash[mp] := hash[mp].(key := key, value := zero);
      w := w.(home := w.home[key := mp]);
      assert hash[..] == Placed(s, mp, key, zero);
    }

    // pb_resizetable.  When the size leaves no slot for every key, the new table grows while it is filled, until there
    // is one; that never fails.  Every free slot of the old table is entered as key 0, so key 0 appears, and it ends
    // with the payload of the last of them.
    method Resize(want: nat) returns (newsize: nat)
      requires Valid()
      modifies this
      ensures Valid()
      ensures newsize == if SizeFor(8, want, limit) < want then 0 else SizeFor(8, want, limit)
      ensures newsize == 0 ==> unchanged(this)
      ensures newsize > 0 ==> size == SizeFor(newsize, |w.home| + 1, limit) > |w.home| && fresh(hash)
      ensures newsize > 0 ==> Contents() == old(Contents())
      ensures newsize > 0 ==> w.home.Keys == old(w.home.Keys) && hasZero == (old(size) > 0)
      ensures newsize > 0 ==> hash[0].value == old(if size > 0 then hash[LastFree(hash[..], size)].value else zero)
      decreases if |w.home| < SizeFor(8, want, limit) then 2 else 5
    {
      hide Main, Chained, Homes, Linked, Held, LastFree, Roomy, SizeFor;
      newsize := Double(want);
      if newsize < want {
        return 0;
      }
      EndsDoubled(8, want, limit);
      var nt := new Table<V>.Empty(this, newsize);
      CopyInto(nt);
      Become(nt);
    }

    // *t = nt
    method Become(nt: Table<V>)
      requires nt.Valid() && nt.zero == zero && nt.limit == limit
      modifies this
      ensures Valid() && size == nt.size && hasZero == nt.hasZero && hash == nt.hash
      ensures w == nt.w && Contents() == nt.Contents()
    {
      hide Main, Chained, Homes, Linked, Held;
      size, lastfree, hasZero, hash, w := nt.size, nt.lastfree, nt.hasZero, nt.hash, nt.w;
    }

    // The loop that looks for the size.
    method Double(want: nat) returns (newsize: nat)
      ensures newsize == SizeFor(8, want, limit)
    {
      newsize := 8;
      while newsize < limit && newsize < want
        invariant newsize >= 8 && SizeFor(newsize, want, limit) == SizeFor(8, want, limit)
        decreases want - newsize
      {
        newsize := newsize * 2;
      }
    }

    // The new table of a resize: a copy of the record with all slots cleared.
    constructor Empty(t: Table<V>, newsize: nat)
      requires newsize >= 8 && Doubled(newsize, t.limit)
      ensures zero == t.zero && limit == t.limit && size == newsize && hasZero == t.hasZero
      ensures Valid() && fresh(hash) && w.home == map[] && hash[0].value == zero && HasRoom()
    {
      zero, limit := t.zero, t.limit;
      size, lastfree, hasZero := newsize, newsize, t.hasZero;
      var e := Entry(0, 0, t.zero);
      hash := new Entry<V>[newsize](_ => e);
      w := Witness(seq(newsize, _ => 0), seq(newsize, _ => 0), map[]);
      new;
      assert hash[..][1].key == 0;
    }

    // Every slot of this table is entered into the new one, empty slots as key 0.
    method CopyInto(nt: Table<V>)
      requires Valid() && nt.Valid() && nt != this && nt.hash != hash && nt.limit == limit
      requires nt.size > 0 && nt.w.home == map[] && nt.zero == zero
      requires nt.hasZero == hasZero && nt.hash[0].value == zero
      modifies nt, nt.hash
      ensures Valid() && nt.Valid() && (nt.hash == old(nt.hash) || fresh(nt.hash))
      ensures nt.size == SizeFor(old(nt.size), |w.home| + 1, limit) > |w.home|
      ensures nt.Contents() == Contents() && nt.w.home.Keys == w.home.Keys
      ensures nt.hasZero == (size > 0)
      ensures nt.hash[0].value == if size > 0 then hash[LastFree(hash[..], size)].value else zero
      decreases if |w.home| < nt.size then 1 else 4
    {
      hide Main, Chained, Homes, Linked, Held, HeldBelow, Roomy, LastFree, SizeFor;
      ghost var s := hash[..];
      var i := 0;
      if size > 0 {
        HeldEnds(s, w);
      } else {
        NothingHeld(s, w);
      }
      NothingHeld(nt.hash[..], nt.w);
      ghost var n := nt.size;
      while i < size
        invariant i <= size && s == hash[..] && Valid()
        invariant nt.Valid() && (nt.hash == old(nt.hash) || fresh(nt.hash)) && nt.hash != hash && nt.zero == zero
        invariant 0 < n <= nt.size == SizeFor(n, |nt.w.home| + 1, limit)
        invariant size > 0 ==> nt.Contents() == HeldBelow(s, w.home, i)
        invariant size == 0 ==> nt.Contents() == map[]
        invariant nt.hasZero == (hasZero || i > 0)
        invariant nt.hash[0].value == if i > 0 then hash[LastFree(s, i)].value else zero
      {
        SlotFits(nt, i, n);
        NextFree(i);
        CopySlot(nt, hash[i].key, hash[i].value);
        i := i + 1;
      }
      HeldKeys(nt.hash[..], nt.w);
      KeysFit(nt.hash[..], nt.w);
      if size > 0 {
        HeldKeys(s, w);
      }
    }

    // What holds of the new table before slot i is entered into it.
    lemma SlotFits(nt: Table<V>, i: nat, n: nat)
      requires Valid() && nt.Valid() && nt.limit == limit && nt.size > 0 && i < size
      requires nt.Contents() == HeldBelow(hash[..], w.home, i) && 0 < n <= nt.size == SizeFor(n, |nt.w.home| + 1, limit)
      ensures HeldBelow(hash[..], w.home, i + 1)
           == if hash[i].key == 0 then nt.Contents() else nt.Contents()[hash[i].key := hash[i].value]
      ensures hash[i].key !in nt.w.home
      ensures hash[i].key != 0 ==>
        && (nt.HasRoom() || nt.size < limit) && (|w.home| < n ==> nt.HasRoom())
        && SizeFor(n, |nt.w.home| + 2, limit) == if nt.HasRoom() then nt.size else 2 * nt.size
    {
      hide Main, Chained, Homes, Linked, Held, HeldBelow, Roomy, SizeFor;
      HeldBelowStep(hash[..], w, i);
      HeldKeys(nt.hash[..], nt.w);
      nt.FullRow();
      if hash[i].key == 0 {
        nt.HeldHome();
      } else {
        BelowSize(hash[..], w, i);
        KeysFit(hash[..], w);
        DoublesOnce(8, nt.size, size, limit);
        OneMore(n, |nt.w.home| + 1, limit);
      }
    }

    lemma NextFree(i: nat)
      requires Valid() && i < size
      ensures i == 0 ==> hash[i].key == 0
      ensures LastFree(hash[..], i + 1) == if hash[i].key == 0 then i else LastFree(hash[..], i)
    {
      hide Main, Chained, Homes;
      assert hash[..][i].key == hash[i].key;
    }

    lemma NothingFree()
      requires Valid() && size == 0
      ensures !HasRoom()
    {
    }

    // Slot 0 is the last free one of a table without room.
    lemma NoOtherFree()
      requires Valid() && size > 0 && !HasRoom()
      ensures LastFree(hash[..], size) == 0
    {
    }

    // One round of the rehash loop.
    method CopySlot(nt: Table<V>, key: int, value: V)
      requires nt.Valid() && nt.size > 0 && key !in nt.w.home && (key != 0 ==> nt.hasZero)
      requires key == 0 || nt.HasRoom() || nt.size < nt.limit
      modifies nt, nt.hash
      ensures nt.Valid() && (nt.hash == old(nt.hash) || fresh(nt.hash))
      ensures nt.size == if key == 0 || old(nt.HasRoom()) then old(nt.size) else 2 * old(nt.size)
      ensures nt.Contents() == if key == 0 then old(nt.Contents()) else old(nt.Contents())[key := value]
      ensures |nt.w.home| == old(|nt.w.home|) + if key == 0 then 0 else 1
      ensures nt.hasZero && nt.hash[0].value == if key == 0 then value else old(nt.hash[0].value)
      decreases if key == 0 || nt.HasRoom() then 1 else 4, 0
    {
      hide Main, Chained, Homes, Linked, Held, Roomy, SizeFor;
      nt.FullRow();
      HeldKeys(nt.hash[..], nt.w);
      ghost var c := nt.Contents();
      var _, slot := nt.NewKey(key);
      nt.SetValue(slot, value);
      HeldKeys(nt.hash[..], nt.w);
      if key != 0 { assert nt.Contents().Keys == c.Keys + {key}; }
    }

    // Writing the payload through the entry pointer that a lookup returned.
    method SetValue(slot: nat, value: V)
      requires Valid() && slot < size && (hash[slot].key != 0 || (slot == 0 && hasZero))
      modifies hash
      ensures Valid() && hash[slot] == old(hash[slot]).(value := value)
      ensures slot == 0 ==> Contents() == old(Contents())
      ensures slot != 0 ==> Contents() == old(Contents())[hash[slot].key := value] && hash[0] == old(hash[0])
    {
      hide Main, Chained, Homes, Held;
      Revalued(hash[..], w, slot, value);
      RevaluedHeld(hash[..], w, slot, value);
      ghost var s := hash[..];
      hash[slot] := hash[slot].(value := value);
      assert hash[..] == s[slot := s[slot].(value := value)];
    }

    // pb_settable: the entry of a key, new with a zero payload when there is none.  Growing a table that has slots
    // also makes key 0 appear, because the empty slot 0 is entered into the new table as key 0.
    method Settable(key: int) returns (ok: bool, slot: nat)
      requires Valid()
      modifies this, hash
      ensures Valid() && (hash == old(hash) || fresh(hash))
      ensures ok ==> slot < size && hash[slot].key == key && (slot == 0 ==> key == 0 && hasZero)
      ensures Contents() ==
        if !ok || key == 0 || key in old(Contents()) then old(Contents()) else old(Contents())[key := zero]
      ensures key != 0 ==>
        hasZero == (old(hasZero) || (ok && key !in old(Contents()) && old(Grows(key)) && old(size) > 0))
      ensures old(hasZero) ==> size > 0 && hash[0].value == old(if size > 0 then hash[0].value else zero)
      ensures key == 0 ==> ok == hasZero && (ok && !old(hasZero) ==> hash[0].value == zero)
      ensures !ok ==> old(Grows(key)) && size == old(size) && limit <= size
      ensures !ok ==> hash == old(hash) && hash[..] == old(hash[..]) && key !in Contents()
      ensures !old(Grows(key)) ==> ok && size == old(size)
      ensures ok && old(size) == 0 ==> size == 8
    {
      hide Main, Chained, Homes, Held;
      HeldHome();
      var found;
      found, slot := Get(key);
      if found {
        return true, slot;
      }
      ok, slot := NewKey(key);
    }

    lemma HeldHome()
      requires Valid()
      ensures forall k :: k in Contents() <==> k in w.home
      ensures 0 !in w.home
    {
    }

    // There is room until there is a key in every slot but slot 0.
    lemma FullRow()
      requires Valid() && size > 0
      ensures |Contents()| <= size - 1 && HasRoom() == (|Contents()| < size - 1)
      ensures !HasRoom() ==> forall i :: 1 <= i < size ==> hash[i].key != 0
    {
      hide Main, Chained, Homes, Held;
      HeldKeys(hash[..], w);
      KeysFit(hash[..], w);
      if |w.home| < size - 1 { RoomLeft(hash[..], w); }
      if !HasRoom() {
        forall i | 1 <= i < size ensures hash[i].key != 0 { assert hash[..][i].key == hash[i].key; }
      }
    }

    // pb_nextentry: from the start (cur == -1) or from a slot to the next entry.
    method NextEntry(cur: int) returns (more: bool, slot: nat)
      requires Valid() && -1 <= cur < size
      ensures more ==> cur < slot < size && Entered(slot)
      ensures forall i :: cur < i < (if more then slot else size) ==> !Entered(i)
    {
      if cur == -1 && hasZero {
        return true, 0;
      }
      var i := if cur == -1 then 1 else cur + 1;
      while i < size
        invariant i >= 1 && i > cur
        invariant forall j :: cur < j < i && j < size ==> !Entered(j)
      {
        if hash[i].key != 0 {
          return true, i;
        }
        i := i + 1;
      }
      more, slot := false, 0;
    }

    // The slot shows up in an iteration.
    ghost predicate Entered(i: int)
      requires Valid() && 0 <= i < size
      reads this, hash
    {
      hash[i].key != 0 || (i == 0 && hasZero)
    }

    // The loop `while (pb_nextentry(t, &e))` meets every key exactly once.
    method VisitAll() returns (keys: seq<int>)
      requires Valid()
      ensures forall a, b :: 0 <= a < b < |keys| ==> keys[a] != keys[b]
      ensures forall k :: k in keys <==> k in Contents() || (k == 0 && hasZero)
    {
      hide Main, Chained;
      keys := [];
      var cur := -1;
      ghost var slots: seq<nat> := [];
      var more, slot := NextEntry(cur);
      while more
        invariant -1 <= cur < size && |slots| == |keys|
        invariant more ==> cur < slot < size && Entered(slot)
        invariant forall i :: cur < i < (if more then slot else size) ==> !Entered(i)
        invariant forall a :: 0 <= a < |slots| ==> slots[a] <= cur && Entered(slots[a]) && keys[a] == hash[slots[a]].key
        invariant forall a, b :: 0 <= a < b < |slots| ==> slots[a] < slots[b]
        invariant forall i :: 0 <= i <= cur && Entered(i) ==> i in slots
        decreases size - cur
      {
        keys, slots := keys + [hash[slot].key], slots + [slot];
        cur := slot;
        more, slot := NextEntry(cur);
      }
      AllVisited(keys, slots);
    }

    lemma AllVisited(keys: seq<int>, slots: seq<nat>)
      requires Valid() && |keys| == |slots|
      requires forall a :: 0 <= a < |slots| ==> slots[a] < size && Entered(slots[a]) && keys[a] == hash[slots[a]].key
      requires forall a, b :: 0 <= a < b < |slots| ==> slots[a] < slots[b]
      requires forall i :: 0 <= i < size && Entered(i) ==> i in slots
      ensures forall a, b :: 0 <= a < b < |keys| ==> keys[a] != keys[b]
      ensures forall k :: k in keys <==> k in Contents() || (k == 0 && hasZero)
    {
      hide Main, Chained;
      forall k | k in Contents() || (k == 0 && hasZero) ensures k in keys {
        var i := if k == 0 then 0 else w.home[k];
        assert hash[..][i].key == hash[i].key && Entered(i);
        var a :| 0 <= a < |slots| && slots[a] == i;
        assert keys[a] == k;
      }
      forall a | 0 <= a < |keys| ensures keys[a] in Contents() || (keys[a] == 0 && hasZero) {
        assert hash[..][slots[a]].key == keys[a];
      }
      forall a, b | 0 <= a < b < |keys| ensures keys[a] != keys[b] {
        assert hash[..][slots[a]].key == keys[a] && hash[..][slots[b]].key == keys[b];
      }
    }

    // Any run of stores through pb_settable refines the finite map, up to a store that needs more slots than there can
    // be.
    method StoreAll(ops: seq<(int, V)>) returns (ok: bool, n: nat)
      requires Valid() && forall i :: 0 <= i < |ops| ==> ops[i].0 != 0
      modifies this, hash
      ensures Valid() && n <= |ops| && ok == (n == |ops|)
      ensures Contents() == Stored(old(Contents()), ops[..n])
      ensures !ok ==> ops[n].0 !in Contents() && Grows(ops[n].0) && limit <= size
    {
      hide Main, Chained, Homes, Linked, Held, Roomy;
      ok, n := true, 0;
      ghost var c := Contents();
      while n < |ops|
        invariant n <= |ops| && Valid() && (hash == old(hash) || fresh(hash))
        invariant Contents() == Stored(c, ops[..n])
      {
        var slot;
        label Before:
        ok, slot := Settable(ops[n].0);
        if !ok {
          assert old@Before(Grows(ops[n].0));
          return;
        }
        SetValue(slot, ops[n].1);
        assert ops[..n + 1][..n] == ops[..n];
        n := n + 1;
      }
    }
  }

  function Stored<V>(m: map<int, V>, ops: seq<(int, V)>): map<int, V> {
    if ops == [] then m
    else Stored(m, ops[..|ops| - 1])[ops[|ops| - 1].0 := ops[|ops| - 1].1]
  }

  function FirstKeys(n: nat): (keys: set<int>)
    ensures |keys| == n && forall k :: k in keys <==> 1 <= k <= n
  {
    if n == 0 then {} else FirstKeys(n - 1) + {n}
  }

  // Keys 1 to 7 in eight slots.
  method SevenKeys() returns (t: Table<int>)
    ensures fresh(t) && fresh(t.hash) && t.Valid() && t.size == 8 && t.limit == 100 && !t.hasZero
    ensures t.Contents().Keys == FirstKeys(7)
  {
    hide Main, Chained, Homes, Linked, Held, Roomy, FirstKeys, Table.Grows, Table.HasRoom;
    t := new Table<int>(0, 100);
    NextKey(t, 1);
    var k := 2;
    while k < 8
      invariant 2 <= k <= 8 && t.Valid() && fresh(t) && fresh(t.hash) && t.limit == 100 && t.size == 8 && !t.hasZero
      invariant t.Contents().Keys == FirstKeys(k - 1)
    {
      NextKey(t, k);
      k := k + 1;
    }
  }

  method NextKey(t: Table<int>, k: nat)
    requires t.Valid() && t.limit == 100 && !t.hasZero && t.size == (if k == 1 then 0 else 8)
    requires 1 <= k <= 7 && t.Contents().Keys == FirstKeys(k - 1)
    modifies t, t.hash
    ensures t.Valid() && t.Contents().Keys == FirstKeys(k) && t.size == 8 && !t.hasZero
    ensures t.hash == old(t.hash) || fresh(t.hash)
  {
    hide Main, Chained, Homes, Linked, Held, Roomy;
    assert |t.Contents().Keys| == |t.Contents()|;
    if k > 1 { t.FullRow(); }
    var ok, slot := t.Settable(k);
  }

  // Key 0 can appear without having been stored: with keys 1 to 7 in eight slots, key 8 makes the table grow.
  method ZeroAppears() returns (t: Table<int>, before: bool, after: bool)
    ensures fresh(t) && t.Valid() && forall k :: k in t.Contents() <==> 1 <= k <= 8
    ensures before == false && after == t.hasZero == true
  {
    hide Main, Chained, Homes, Linked, Held, Roomy;
    t := SevenKeys();
    before := t.hasZero;
    assert |t.Contents().Keys| == |t.Contents()|;
    t.FullRow();
    var ok, slot := t.Settable(8);
    after := t.hasZero;
  }

  lemma HeldEnds<V>(s: seq<Entry<V>>, w: Witness)
    requires Linked(s, w)
    ensures HeldBelow(s, w.home, 0) == map[] && HeldBelow(s, w.home, |s|) == Held(s, w.home)
  {
    hide Main, Chained;
    assert forall k :: k in w.home ==> k in HeldBelow(s, w.home, |s|);
  }

  lemma NothingHeld<V>(s: seq<Entry<V>>, w: Witness)
    requires w.home == map[]
    ensures Held(s, w.home) == map[] && |w.home| == 0
  {
  }

  lemma HeldKeys<V>(s: seq<Entry<V>>, w: Witness)
    requires Linked(s, w)
    ensures Held(s, w.home).Keys == w.home.Keys && |Held(s, w.home)| == |w.home|
  {
    hide Main, Chained;
    SameSize(Held(s, w.home), w.home);
  }

  lemma SameSize<A, B>(a: map<int, A>, b: map<int, B>)
    requires a.Keys == b.Keys
    ensures |a| == |b|
  {
    assert |a.Keys| == |a| && |b.Keys| == |b|;
  }
}
