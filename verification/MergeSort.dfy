/**
 * The list sort: a merge sort without recursion that keeps sorted runs on a stack, one run for every binary digit of
 * the number of pairs taken so far, and works by relinking the nodes.
 */
module MergeSort {
  import opened Powers

  // ---- order and stability ----

  class Node<T> {
    const key: T
    var next: Node?<T>
    var prev: Node?<T>

    constructor (key: T)
      ensures this.key == key && next == null && prev == null
    {
      this.key := key;
      next := null;
      prev := null;
    }
  }

  // The comparator gives a total preorder: distinct keys may compare as equal.
  ghost predicate TotalPreorder<T(!new)>(compare: (T, T) -> int) {
    && (forall x, y :: compare(x, y) <= 0 || compare(y, x) <= 0)
    && (forall x, y, z :: compare(x, y) <= 0 && compare(y, z) <= 0 ==> compare(x, z) <= 0)
  }

  predicate Le<T>(compare: (T, T) -> int, x: Node<T>, y: Node<T>) {
    compare(x.key, y.key) <= 0
  }

  predicate Same<T>(compare: (T, T) -> int, x: Node<T>, k: T) {
    compare(x.key, k) <= 0 && compare(k, x.key) <= 0
  }

  ghost predicate Sorted<T>(compare: (T, T) -> int, s: seq<Node<T>>) {
    forall i, j :: 0 <= i < j < |s| ==> Le(compare, s[i], s[j])
  }

  // The nodes that compare as equal to k, in order.
  ghost function Alike<T>(compare: (T, T) -> int, s: seq<Node<T>>, k: T): seq<Node<T>> {
    if s == [] then []
    else (if Same(compare, s[0], k) then [s[0]] else []) + Alike(compare, s[1..], k)
  }

  // r is s in order, and nodes that compare as equal are where they were relative to each other.
  ghost predicate StablySorted<T(!new)>(compare: (T, T) -> int, r: seq<Node<T>>, s: seq<Node<T>>) {
    Sorted(compare, r) && forall k :: Alike(compare, r, k) == Alike(compare, s, k)
  }

  lemma AlikeCons<T>(compare: (T, T) -> int, x: Node<T>, s: seq<Node<T>>, k: T)
    ensures Alike(compare, [x] + s, k) == (if Same(compare, x, k) then [x] else []) + Alike(compare, s, k)
  {
    assert ([x] + s)[1..] == s;
  }

  lemma {:induction false} AlikeAppend<T>(compare: (T, T) -> int, a: seq<Node<T>>, b: seq<Node<T>>, k: T)
    ensures Alike(compare, a + b, k) == Alike(compare, a, k) + Alike(compare, b, k)
  {
    if a == [] {
      assert a + b == b;
    } else {
      hide Alike;
      AlikeAppend(compare, a[1..], b, k);
      AlikeCons(compare, a[0], a[1..], k);
      AlikeCons(compare, a[0], a[1..] + b, k);
      assert a == [a[0]] + a[1..];
      assert a + b == [a[0]] + (a[1..] + b);
    }
  }

  lemma {:induction false} AlikeIn<T>(compare: (T, T) -> int, s: seq<Node<T>>, k: T, x: Node<T>)
    ensures x in Alike(compare, s, k) <==> x in s && Same(compare, x, k)
  {
    if s != [] { AlikeIn(compare, s[1..], k, x); }
  }

  // Nothing is lost, nothing is added.
  lemma SameNodes<T(!new)>(compare: (T, T) -> int, r: seq<Node<T>>, s: seq<Node<T>>, x: Node<T>)
    requires TotalPreorder(compare) && StablySorted(compare, r, s)
    ensures x in r <==> x in s
  {
    assert Same(compare, x, x.key);
    AlikeIn(compare, r, x.key, x);
    AlikeIn(compare, s, x.key, x);
  }

  lemma {:induction false} AlikeMultiset<T>(compare: (T, T) -> int, s: seq<Node<T>>, x: Node<T>, k: T)
    requires Same(compare, x, k)
    ensures multiset(Alike(compare, s, k))[x] == multiset(s)[x]
  {
    if s != [] {
      AlikeMultiset(compare, s[1..], x, k);
      assert s == [s[0]] + s[1..];
    }
  }

  lemma Permutation<T(!new)>(compare: (T, T) -> int, r: seq<Node<T>>, s: seq<Node<T>>)
    requires TotalPreorder(compare) && StablySorted(compare, r, s)
    ensures multiset(r) == multiset(s)
  {
    forall x: Node<T> | x in multiset(r) || x in multiset(s)
      ensures multiset(r)[x] == multiset(s)[x]
    {
      assert Same(compare, x, x.key);
      AlikeMultiset(compare, r, x, x.key);
      AlikeMultiset(compare, s, x, x.key);
    }
  }

  lemma AlikeTail<T>(compare: (T, T) -> int, s: seq<Node<T>>, k: T)
    requires s != []
    ensures Alike(compare, s[1..], k) ==
      if Same(compare, s[0], k) then Alike(compare, s, k)[1..] else Alike(compare, s, k)
  {
  }

  // There is only one way to sort a list stably.
  lemma {:induction false} OneStableOrder<T(!new)>(compare: (T, T) -> int, r: seq<Node<T>>, q: seq<Node<T>>)
    requires TotalPreorder(compare) && Sorted(compare, r) && StablySorted(compare, q, r)
    ensures r == q
    decreases |r|
  {
    if r == [] {
      if q != [] { SameNodes(compare, q, r, q[0]); }
    } else {
      var x := r[0];
      SameNodes(compare, q, r, x);
      var y := q[0];
      SameNodes(compare, q, r, y);
      assert Le(compare, x, y) && Le(compare, y, x) by {
        var i :| 0 <= i < |r| && r[i] == y;
        var j :| 0 <= j < |q| && q[j] == x;
        assert Same(compare, x, x.key);
      }
      assert q[0] == r[0] by {
        assert Alike(compare, r, x.key)[0] == x;
        assert Alike(compare, q, x.key)[0] == y;
      }
      forall k
        ensures Alike(compare, q[1..], k) == Alike(compare, r[1..], k)
      {
        AlikeTail(compare, q, k);
        AlikeTail(compare, r, k);
      }
      OneStableOrder(compare, r[1..], q[1..]);
    }
  }

  // What it means: no node comes before one that is less, and of two that compare as equal the one that came first
  // still does.
  lemma StableOrder<T(!new)>(compare: (T, T) -> int, r: seq<Node<T>>, s: seq<Node<T>>, i: nat, j: nat)
    requires TotalPreorder(compare) && StablySorted(compare, r, s) && i < j < |r|
    ensures compare(r[i].key, r[j].key) <= 0
    ensures compare(r[j].key, r[i].key) <= 0 ==> exists p, q :: 0 <= p < q < |s| && s[p] == r[i] && s[q] == r[j]
  {
    assert Le(compare, r[i], r[j]);
    if compare(r[j].key, r[i].key) <= 0 {
      var k := r[i].key;
      assert Same(compare, r[i], k) && Same(compare, r[j], k);
      var a, b := AlikePlaces(compare, r, k, i, j);
      var p, q := PlacesOf(compare, s, k, a, b);
      assert s[p] == r[i] && s[q] == r[j];
    }
  }

  lemma {:induction false} AlikePlace<T>(compare: (T, T) -> int, s: seq<Node<T>>, k: T, j: nat) returns (b: nat)
    requires j < |s| && Same(compare, s[j], k)
    ensures b < |Alike(compare, s, k)| && Alike(compare, s, k)[b] == s[j]
  {
    if j == 0 {
      b := 0;
    } else {
      b := AlikePlace(compare, s[1..], k, j - 1);
      if Same(compare, s[0], k) { b := b + 1; }
    }
  }

  lemma {:induction false} AlikePlaces<T>(compare: (T, T) -> int, s: seq<Node<T>>, k: T, i: nat, j: nat)
    returns (a: nat, b: nat)
    requires i < j < |s| && Same(compare, s[i], k) && Same(compare, s[j], k)
    ensures a < b < |Alike(compare, s, k)| && Alike(compare, s, k)[a] == s[i] && Alike(compare, s, k)[b] == s[j]
  {
    if i == 0 {
      b := AlikePlace(compare, s[1..], k, j - 1);
      a, b := 0, b + 1;
    } else {
      a, b := AlikePlaces(compare, s[1..], k, i - 1, j - 1);
      if Same(compare, s[0], k) { a, b := a + 1, b + 1; }
    }
  }

  lemma {:induction false} PlaceOf<T>(compare: (T, T) -> int, s: seq<Node<T>>, k: T, b: nat) returns (q: nat)
    requires b < |Alike(compare, s, k)|
    ensures q < |s| && s[q] == Alike(compare, s, k)[b]
  {
    if Same(compare, s[0], k) && b == 0 {
      q := 0;
    } else {
      q := PlaceOf(compare, s[1..], k, if Same(compare, s[0], k) then b - 1 else b);
      q := q + 1;
    }
  }

  lemma {:induction false} PlacesOf<T>(compare: (T, T) -> int, s: seq<Node<T>>, k: T, a: nat, b: nat)
    returns (p: nat, q: nat)
    requires a < b < |Alike(compare, s, k)|
    ensures p < q < |s| && s[p] == Alike(compare, s, k)[a] && s[q] == Alike(compare, s, k)[b]
  {
    if Same(compare, s[0], k) && a == 0 {
      q := PlaceOf(compare, s[1..], k, b - 1);
      p, q := 0, q + 1;
    } else if Same(compare, s[0], k) {
      p, q := PlacesOf(compare, s[1..], k, a - 1, b - 1);
      p, q := p + 1, q + 1;
    } else {
      p, q := PlacesOf(compare, s[1..], k, a, b);
      p, q := p + 1, q + 1;
    }
  }

  // ---- merging ----

  // A node of a comes first when the two compare as equal.
  ghost function Merge<T>(compare: (T, T) -> int, a: seq<Node<T>>, b: seq<Node<T>>): seq<Node<T>> {
    if a == [] then b
    else if b == [] then a
    else if Le(compare, a[0], b[0]) then [a[0]] + Merge(compare, a[1..], b)
    else [b[0]] + Merge(compare, a, b[1..])
  }

  lemma {:induction false} MergeLength<T>(compare: (T, T) -> int, a: seq<Node<T>>, b: seq<Node<T>>)
    ensures |Merge(compare, a, b)| == |a| + |b|
  {
    if a != [] && b != [] {
      if Le(compare, a[0], b[0]) { MergeLength(compare, a[1..], b); } else { MergeLength(compare, a, b[1..]); }
    }
  }

  lemma {:induction false} MergeNodes<T>(compare: (T, T) -> int, a: seq<Node<T>>, b: seq<Node<T>>, x: Node<T>)
    ensures x in Merge(compare, a, b) <==> x in a || x in b
  {
    if a != [] && b != [] {
      if Le(compare, a[0], b[0]) { MergeNodes(compare, a[1..], b, x); } else { MergeNodes(compare, a, b[1..], x); }
    }
  }

  lemma SortedCons<T(!new)>(compare: (T, T) -> int, x: Node<T>, s: seq<Node<T>>)
    requires Sorted(compare, s) && forall y :: y in s ==> Le(compare, x, y)
    ensures Sorted(compare, [x] + s)
  {
  }

  // What is below the first node of a sorted list is below all of it.
  lemma BelowAll<T(!new)>(compare: (T, T) -> int, x: Node<T>, s: seq<Node<T>>)
    requires TotalPreorder(compare) && Sorted(compare, s) && s != [] && Le(compare, x, s[0])
    ensures forall y :: y in s ==> Le(compare, x, y)
  {
    forall y | y in s
      ensures Le(compare, x, y)
    {
      var i :| 0 <= i < |s| && s[i] == y;
      if i > 0 { assert Le(compare, s[0], s[i]); }
    }
  }

  lemma {:induction false} MergeSorted<T(!new)>(compare: (T, T) -> int, a: seq<Node<T>>, b: seq<Node<T>>)
    requires TotalPreorder(compare) && Sorted(compare, a) && Sorted(compare, b)
    ensures Sorted(compare, Merge(compare, a, b))
  {
    if a != [] && b != [] {
      if Le(compare, a[0], b[0]) {
        MergeSorted(compare, a[1..], b);
        BelowAll(compare, a[0], a);
        BelowAll(compare, a[0], b);
        forall y | y in Merge(compare, a[1..], b)
          ensures Le(compare, a[0], y)
        {
          MergeNodes(compare, a[1..], b, y);
          assert y in a || y in b;
        }
        SortedCons(compare, a[0], Merge(compare, a[1..], b));
      } else {
        MergeSorted(compare, a, b[1..]);
        BelowAll(compare, b[0], a);
        BelowAll(compare, b[0], b);
        forall y | y in Merge(compare, a, b[1..])
          ensures Le(compare, b[0], y)
        {
          MergeNodes(compare, a, b[1..], y);
          assert y in a || y in b;
        }
        SortedCons(compare, b[0], Merge(compare, a, b[1..]));
      }
    }
  }

  lemma {:induction false} MergeAlike<T(!new)>(compare: (T, T) -> int, a: seq<Node<T>>, b: seq<Node<T>>, k: T)
    requires TotalPreorder(compare) && Sorted(compare, a) && Sorted(compare, b)
    ensures Alike(compare, Merge(compare, a, b), k) == Alike(compare, a, k) + Alike(compare, b, k)
  {
    hide TotalPreorder;
    if a != [] && b != [] {
      if Le(compare, a[0], b[0]) {
        MergeAlike(compare, a[1..], b, k);
      } else {
        MergeAlike(compare, a, b[1..], k);
        if Same(compare, b[0], k) { NoneAlike(compare, a, b[0], k); }
      }
    }
  }

  // All of a sorted list is above what its first node is above.
  lemma {:induction false} NoneAlike<T(!new)>(compare: (T, T) -> int, a: seq<Node<T>>, y: Node<T>, k: T)
    requires TotalPreorder(compare) && Sorted(compare, a) && Same(compare, y, k)
    requires a != [] ==> !Le(compare, a[0], y)
    ensures Alike(compare, a, k) == []
  {
    if a != [] {
      assert a != [] && !Same(compare, a[0], k);
      if |a| > 1 { assert Le(compare, a[0], a[1]); }
      NoneAlike(compare, a[1..], y, k);
    }
  }

  lemma MergeStable<T(!new)>(compare: (T, T) -> int, ra: seq<Node<T>>, sa: seq<Node<T>>, rb: seq<Node<T>>,
                             sb: seq<Node<T>>)
    requires TotalPreorder(compare) && StablySorted(compare, ra, sa) && StablySorted(compare, rb, sb)
    ensures StablySorted(compare, Merge(compare, ra, rb), sa + sb)
  {
    MergeSorted(compare, ra, rb);
    forall k
      ensures Alike(compare, Merge(compare, ra, rb), k) == Alike(compare, sa + sb, k)
    {
      MergeAlike(compare, ra, rb, k);
      AlikeAppend(compare, sa, sb, k);
    }
  }

  // ---- the stack of runs ----

  // A sorted run and the stretch of the input that it holds.
  datatype Part<T> = Part(nodes: seq<Node<T>>, from: seq<Node<T>>)

  // A part for every slot of the stack; a slot without a run is empty.
  ghost predicate Good<T(!new)>(compare: (T, T) -> int, p: Part<T>) {
    StablySorted(compare, p.nodes, p.from) && |p.nodes| == |p.from|
  }

  ghost predicate AllGood<T(!new)>(compare: (T, T) -> int, parts: seq<Part<T>>) {
    forall p :: p in parts ==> Good(compare, p)
  }

  ghost function Joined<T>(compare: (T, T) -> int, p: Part<T>, q: Part<T>): Part<T> {
    Part(Merge(compare, p.nodes, q.nodes), p.from + q.from)
  }

  // A new run goes up the stack like a carry.
  ghost function Carried<T>(compare: (T, T) -> int, parts: seq<Part<T>>, cur: Part<T>): seq<Part<T>> {
    if parts == [] then [cur]
    else if parts[0].nodes == [] then [cur] + parts[1..]
    else [Part([], [])] + Carried(compare, parts[1..], Joined(compare, parts[0], cur))
  }

  // The input that the stack holds; higher slots hold what came earlier.
  ghost function Held<T>(parts: seq<Part<T>>): seq<Node<T>> {
    if parts == [] then [] else Held(parts[1..]) + parts[0].from
  }

  // All runs merged into one, from the lowest slot up.
  ghost function Collapsed<T>(compare: (T, T) -> int, parts: seq<Part<T>>, out: Part<T>): Part<T> {
    if parts == [] then out
    else if parts[0].nodes == [] then Collapsed(compare, parts[1..], out)
    else if out.nodes == [] then Collapsed(compare, parts[1..], parts[0])
    else Collapsed(compare, parts[1..], Joined(compare, parts[0], out))
  }

  lemma JoinedGood<T(!new)>(compare: (T, T) -> int, p: Part<T>, q: Part<T>)
    requires TotalPreorder(compare) && Good(compare, p) && Good(compare, q)
    ensures Good(compare, Joined(compare, p, q))
  {
    hide StablySorted, TotalPreorder;
    MergeStable(compare, p.nodes, p.from, q.nodes, q.from);
    MergeLength(compare, p.nodes, q.nodes);
  }

  lemma {:induction false} CarriedGood<T(!new)>(compare: (T, T) -> int, parts: seq<Part<T>>, cur: Part<T>)
    requires TotalPreorder(compare) && AllGood(compare, parts) && Good(compare, cur)
    ensures AllGood(compare, Carried(compare, parts, cur))
    ensures Held(Carried(compare, parts, cur)) == Held(parts) + cur.from
  {
    hide Good, TotalPreorder, Joined;
    if parts != [] {
      if parts[0].nodes == [] {
        assert parts[0].from == [] by { EmptyPart(compare, parts[0]); }
        assert ([cur] + parts[1..])[1..] == parts[1..];
      } else {
        var up := Joined(compare, parts[0], cur);
        JoinedGood(compare, parts[0], cur);
        CarriedGood(compare, parts[1..], up);
        EmptyGood<T>(compare);
        var now := Carried(compare, parts[1..], up);
        assert ([Part([], [])] + now)[1..] == now;
        JoinedFrom(compare, parts[0], cur);
        assert Held(parts[1..]) + (parts[0].from + cur.from) == Held(parts[1..]) + parts[0].from + cur.from;
      }
    }
  }

  lemma JoinedFrom<T>(compare: (T, T) -> int, p: Part<T>, q: Part<T>)
    ensures Joined(compare, p, q).from == p.from + q.from
    ensures |Joined(compare, p, q).nodes| == |p.nodes| + |q.nodes|
  {
    MergeLength(compare, p.nodes, q.nodes);
  }

  lemma EmptyPart<T(!new)>(compare: (T, T) -> int, p: Part<T>)
    requires Good(compare, p)
    ensures p.nodes == [] <==> p.from == []
  {
  }

  lemma EmptyGood<T(!new)>(compare: (T, T) -> int)
    ensures Good(compare, Part([], []))
  {
  }

  lemma CollapsedStep<T>(compare: (T, T) -> int, parts: seq<Part<T>>, out: Part<T>)
    ensures Collapsed(compare, parts, out) ==
      if parts == [] then out
      else Collapsed(compare, parts[1..],
                     if parts[0].nodes == [] then out
                     else if out.nodes == [] then parts[0]
                     else Joined(compare, parts[0], out))
  {
  }

  lemma Regrouped<T>(a: seq<Node<T>>, b: seq<Node<T>>, c: seq<Node<T>>)
    ensures a + (b + c) == a + b + c
    ensures c == [] ==> a + b == a + b + c
  {
  }

  lemma {:induction false} CollapsedGood<T(!new)>(compare: (T, T) -> int, parts: seq<Part<T>>, out: Part<T>)
    requires TotalPreorder(compare) && AllGood(compare, parts) && Good(compare, out)
    ensures Good(compare, Collapsed(compare, parts, out))
    ensures Collapsed(compare, parts, out).from == Held(parts) + out.from
  {
    hide Good, TotalPreorder, Joined, Collapsed;
    CollapsedStep(compare, parts, out);
    if parts != [] {
      EmptyPart(compare, parts[0]);
      Regrouped(Held(parts[1..]), parts[0].from, out.from);
      EmptyPart(compare, out);
      if parts[0].nodes == [] {
        CollapsedGood(compare, parts[1..], out);
      } else if out.nodes == [] {
        CollapsedGood(compare, parts[1..], parts[0]);
      } else {
        JoinedGood(compare, parts[0], out);
        JoinedFrom(compare, parts[0], out);
        CollapsedGood(compare, parts[1..], Joined(compare, parts[0], out));
      }
    }
  }

  // Slot i holds no run or one of 2^(k + i) nodes, where k belongs to the lowest slot; only the last run, the odd
  // element included, may be one node short.
  ghost predicate Counted<T>(parts: seq<Part<T>>, k: nat, short: bool) {
    parts == []
    || ((parts[0].nodes == [] || |parts[0].nodes| == Pow2(k) || (short && |parts[0].nodes| == Pow2(k) - 1))
        && Counted(parts[1..], k + 1, short))
  }

  lemma {:induction false} CarriedCounted<T>(compare: (T, T) -> int, parts: seq<Part<T>>, cur: Part<T>, k: nat,
                                             short: bool)
    requires Counted(parts, k, false)
    requires |cur.nodes| == if short then Pow2(k) - 1 else Pow2(k)
    ensures Counted(Carried(compare, parts, cur), k, short)
    decreases |parts|
  {
    if parts == [] {
      assert [cur][1..] == [];
    } else {
      CountedShort(parts[1..], k + 1);
      if parts[0].nodes == [] {
        assert ([cur] + parts[1..])[1..] == parts[1..];
      } else {
        var up := Joined(compare, parts[0], cur);
        JoinedFrom(compare, parts[0], cur);
        CarriedCounted(compare, parts[1..], up, k + 1, short);
        var now := Carried(compare, parts[1..], up);
        assert ([Part([], [])] + now)[1..] == now;
      }
    }
  }

  lemma {:induction false} CountedShort<T>(parts: seq<Part<T>>, k: nat)
    requires Counted(parts, k, false)
    ensures Counted(parts, k, true)
  {
    if parts != [] { CountedShort(parts[1..], k + 1); }
  }

  // The highest slot is in use, so the stack is not higher than the logarithm of what it holds.
  ghost predicate TopUsed<T>(parts: seq<Part<T>>) {
    parts != [] ==> parts[|parts| - 1].nodes != []
  }

  lemma {:induction false} CarriedTop<T>(compare: (T, T) -> int, parts: seq<Part<T>>, cur: Part<T>)
    requires TopUsed(parts) && cur.nodes != []
    ensures TopUsed(Carried(compare, parts, cur)) && Carried(compare, parts, cur) != []
    decreases |parts|
  {
    if parts != [] && parts[0].nodes != [] {
      var up := Joined(compare, parts[0], cur);
      JoinedFrom(compare, parts[0], cur);
      CarriedTop(compare, parts[1..], up);
    }
  }

  lemma {:induction false} HeightBound<T(!new)>(compare: (T, T) -> int, parts: seq<Part<T>>, k: nat, short: bool)
    requires Counted(parts, k, short) && TopUsed(parts) && parts != [] && AllGood(compare, parts)
    ensures Pow2(k + |parts| - 1) <= |Held(parts)| + 1
    decreases |parts|
  {
    hide Good, Pow2;
    assert Good(compare, parts[0]);
    SameLength(compare, parts[0]);
    assert Held(parts) == Held(parts[1..]) + parts[0].from;
    if |parts| > 1 {
      hide Held;
      assert AllGood(compare, parts[1..]) && Counted(parts[1..], k + 1, short);
      HeightBound(compare, parts[1..], k + 1, short);
    } else {
      assert parts[1..] == [];
    }
  }

  lemma SameLength<T(!new)>(compare: (T, T) -> int, p: Part<T>)
    requires Good(compare, p)
    ensures |p.nodes| == |p.from|
  {
  }

  // ---- nodes that occur once ----

  ghost predicate NoRepeats<T>(s: seq<Node<T>>) {
    forall i, j :: 0 <= i < j < |s| ==> s[i] != s[j]
  }

  ghost predicate Apart<T>(a: seq<Node<T>>, b: seq<Node<T>>) {
    forall i, j :: 0 <= i < |a| && 0 <= j < |b| ==> a[i] != b[j]
  }

  lemma SplitNoRepeats<T>(a: seq<Node<T>>, b: seq<Node<T>>)
    requires NoRepeats(a + b)
    ensures NoRepeats(a) && NoRepeats(b) && Apart(a, b)
  {
    var s := a + b;
    forall i, j | 0 <= i < j < |a|
      ensures a[i] != a[j]
    {
      assert s[i] != s[j];
    }
    forall i, j | 0 <= i < j < |b|
      ensures b[i] != b[j]
    {
      assert s[|a| + i] != s[|a| + j];
    }
    forall i, j | 0 <= i < |a| && 0 <= j < |b|
      ensures a[i] != b[j]
    {
      assert s[i] != s[|a| + j];
    }
  }

  lemma {:induction false} RepeatsCounted<T>(s: seq<Node<T>>)
    ensures NoRepeats(s) <==> forall x :: x in s ==> multiset(s)[x] == 1
  {
    if s != [] {
      var x, t := s[0], s[1..];
      assert s == [x] + t;
      RepeatsCounted(t);
      if NoRepeats(s) {
        forall i, j | 0 <= i < j < |t|
          ensures t[i] != t[j]
        {
          assert s[i + 1] != s[j + 1];
        }
        assert x !in t;
      } else if forall y :: y in s ==> multiset(s)[y] == 1 {
        assert multiset(s)[x] == 1;
        assert x !in multiset(t);
        assert x !in t;
        forall y | y in t
          ensures multiset(t)[y] == 1
        {
          assert multiset(s)[y] == 1;
        }
      }
    }
  }

  lemma GoodNoRepeats<T(!new)>(compare: (T, T) -> int, p: Part<T>)
    requires TotalPreorder(compare) && Good(compare, p) && NoRepeats(p.from)
    ensures NoRepeats(p.nodes)
  {
    Permutation(compare, p.nodes, p.from);
    RepeatsCounted(p.nodes);
    RepeatsCounted(p.from);
    forall x | x in p.nodes
      ensures multiset(p.nodes)[x] == 1
    {
      assert x in multiset(p.from);
    }
  }

  lemma {:induction false} HeldIn<T>(parts: seq<Part<T>>, p: Part<T>, x: Node<T>)
    requires p in parts && x in p.from
    ensures x in Held(parts)
  {
    if p != parts[0] { HeldIn(parts[1..], p, x); }
  }

  // The nodes of different runs are different.
  lemma HeldApart<T(!new)>(compare: (T, T) -> int, parts: seq<Part<T>>, p: Part<T>, cur: Part<T>)
    requires TotalPreorder(compare) && AllGood(compare, parts) && Good(compare, cur) && p in parts
    requires NoRepeats(Held(parts) + cur.from)
    ensures Apart(p.nodes, cur.nodes)
  {
    hide Good, TotalPreorder, NoRepeats;
    SplitNoRepeats(Held(parts), cur.from);
    forall i, j | 0 <= i < |p.nodes| && 0 <= j < |cur.nodes|
      ensures p.nodes[i] != cur.nodes[j]
    {
      var x := p.nodes[i];
      GoodNode(compare, p, x);
      GoodNode(compare, cur, x);
      HeldIn(parts, p, x);
    }
  }

  lemma GoodNode<T(!new)>(compare: (T, T) -> int, p: Part<T>, x: Node<T>)
    requires TotalPreorder(compare) && Good(compare, p)
    ensures x in p.nodes <==> x in p.from
  {
    SameNodes(compare, p.nodes, p.from, x);
  }

  // ---- relinking ----

  // All nodes but the last lead on.
  ghost predicate Track<T>(s: seq<Node<T>>)
    reads s
  {
    forall i :: 0 <= i < |s| - 1 ==> s[i].next == s[i + 1]
  }

  // A list that starts at top and ends in null.
  ghost predicate Chain<T>(s: seq<Node<T>>, top: Node?<T>)
    reads s
  {
    && top == (if s == [] then null else s[0])
    && Track(s)
    && (s != [] ==> s[|s| - 1].next == null)
  }

  ghost predicate Three<T>(d: seq<Node<T>>, a: seq<Node<T>>, b: seq<Node<T>>) {
    NoRepeats(d) && NoRepeats(a) && NoRepeats(b) && Apart(d, a) && Apart(d, b) && Apart(a, b)
  }

  // The first node of a goes to the end of d.
  lemma ThreeMoves<T>(d: seq<Node<T>>, a: seq<Node<T>>, b: seq<Node<T>>)
    requires Three(d, a, b) && a != []
    ensures Three(d + [a[0]], a[1..], b)
  {
  }

  lemma ThreeSwap<T>(d: seq<Node<T>>, a: seq<Node<T>>, b: seq<Node<T>>)
    requires Three(d, a, b)
    ensures Three(d, b, a)
  {
    assert Apart(b, a);
  }

  // Appends the first node of a to d.
  method Append<T>(at: Node<T>, x: Node<T>, ghost d: seq<Node<T>>, ghost a: seq<Node<T>>, ghost b: seq<Node<T>>,
                   ghost other: Node?<T>)
    returns (rest: Node?<T>)
    requires Three(d, a, b) && d != [] && d[|d| - 1] == at && Track(d)
    requires a != [] && Chain(a, x) && Chain(b, other)
    modifies at
    ensures Track(d + [a[0]]) && Chain(a[1..], rest) && Chain(b, other)
  {
    assert forall i :: 0 <= i < |d| - 1 ==> d[i] != at;
    assert forall i :: 0 <= i < |a| ==> d[|d| - 1] != a[i];
    assert forall i :: 0 <= i < |b| ==> d[|d| - 1] != b[i];
    assert a[0] != at;
    at.next := x;
    rest := x.next;
    ghost var more := a[1..];
    assert forall i :: 0 <= i < |more| ==> more[i] == a[i + 1];
  }

  // A list that is left when the other one has run out follows as it is.
  method Finish<T>(at: Node<T>, rest: Node?<T>, ghost d: seq<Node<T>>, ghost a: seq<Node<T>>)
    requires NoRepeats(d) && Apart(d, a) && d != [] && d[|d| - 1] == at && Track(d) && Chain(a, rest)
    modifies at
    ensures Chain(d + a, d[0])
  {
    assert forall i :: 0 <= i < |d| - 1 ==> d[i] != at;
    assert forall i :: 0 <= i < |a| ==> d[|d| - 1] != a[i];
    at.next := rest;
    ghost var all := d + a;
    assert forall i :: 0 <= i < |a| ==> all[|d| + i] == a[i];
    assert forall i :: 0 <= i < |d| ==> all[i] == d[i];
    forall i | 0 <= i < |all| - 1
      ensures all[i].next == all[i + 1]
    {
      if i >= |d| {
        assert a[i - |d|].next == a[i - |d| + 1];
      }
    }
    assert a != [] ==> all[|all| - 1] == a[|a| - 1];
  }

  // The state of a merge: d is out already, a and b are left.
  ghost predicate Merging<T>(compare: (T, T) -> int, sa: seq<Node<T>>, sb: seq<Node<T>>, d: seq<Node<T>>,
                             a: seq<Node<T>>, b: seq<Node<T>>) {
    && Three(d, a, b) && d + Merge(compare, a, b) == Merge(compare, sa, sb)
    && (forall i :: 0 <= i < |d| ==> d[i] in sa || d[i] in sb)
  }

  lemma MergingStarts<T>(compare: (T, T) -> int, sa: seq<Node<T>>, sb: seq<Node<T>>)
    requires NoRepeats(sa) && NoRepeats(sb) && Apart(sa, sb)
    ensures Merging(compare, sa, sb, [], sa, sb)
  {
  }

  lemma MergingA<T>(compare: (T, T) -> int, sa: seq<Node<T>>, sb: seq<Node<T>>, d: seq<Node<T>>, a: seq<Node<T>>,
                    b: seq<Node<T>>)
    requires Merging(compare, sa, sb, d, a, b) && a != [] && b != [] && Le(compare, a[0], b[0])
    requires a[0] in sa || a[0] in sb
    ensures Merging(compare, sa, sb, d + [a[0]], a[1..], b)
  {
    ThreeMoves(d, a, b);
    assert d + ([a[0]] + Merge(compare, a[1..], b)) == d + [a[0]] + Merge(compare, a[1..], b);
  }

  lemma MergingB<T>(compare: (T, T) -> int, sa: seq<Node<T>>, sb: seq<Node<T>>, d: seq<Node<T>>, a: seq<Node<T>>,
                    b: seq<Node<T>>)
    requires Merging(compare, sa, sb, d, a, b) && a != [] && b != [] && !Le(compare, a[0], b[0])
    requires b[0] in sa || b[0] in sb
    ensures Merging(compare, sa, sb, d + [b[0]], a, b[1..])
  {
    ThreeSwap(d, a, b);
    ThreeMoves(d, b, a);
    ThreeSwap(d + [b[0]], b[1..], a);
    assert d + ([b[0]] + Merge(compare, a, b[1..])) == d + [b[0]] + Merge(compare, a, b[1..]);
  }

  // _GSK_MERGE_NONEMPTY_LISTS
  method MergeLists<T(!new)>(compare: (T, T) -> int, top: Node<T>, other: Node<T>, ghost sa: seq<Node<T>>,
                             ghost sb: seq<Node<T>>)
    returns (out: Node<T>)
    requires Chain(sa, top) && Chain(sb, other) && NoRepeats(sa) && NoRepeats(sb) && Apart(sa, sb)
    modifies sa, sb
    ensures Chain(Merge(compare, sa, sb), out)
  {
    hide Merge, Chain, Track, NoRepeats, Apart;
    var a: Node?<T>, b: Node?<T> := top, other;
    ghost var ra, rb, d := sa, sb, [];
    MergingStarts(compare, sa, sb);
    assert sa != [] && sb != [] && sa[0] == top && sb[0] == other by { ChainStarts(sa, top); ChainStarts(sb, other); }
    if compare(top.key, other.key) <= 0 {
      MergingA(compare, sa, sb, d, ra, rb);
      out := top;
      a := TailOf(top, ra);
      d, ra := d + [ra[0]], ra[1..];
    } else {
      MergingB(compare, sa, sb, d, ra, rb);
      out := other;
      b := TailOf(other, rb);
      d, rb := d + [rb[0]], rb[1..];
    }
    assert d == [out];
    var at := out;
    while a != null && b != null
      invariant Merging(compare, sa, sb, d, ra, rb)
      invariant Chain(ra, a) && Chain(rb, b) && Track(d)
      invariant d != [] && d[0] == out && d[|d| - 1] == at
      invariant forall i :: 0 <= i < |ra| ==> ra[i] in sa
      invariant forall i :: 0 <= i < |rb| ==> rb[i] in sb
      decreases |ra| + |rb|
    {
      ChainStarts(ra, a);
      ChainStarts(rb, b);
      if compare(a.key, b.key) <= 0 {
        MergingA(compare, sa, sb, d, ra, rb);
        var x := a;
        a := Append(at, x, d, ra, rb, b);
        at := x;
        d, ra := d + [ra[0]], ra[1..];
      } else {
        MergingB(compare, sa, sb, d, ra, rb);
        ThreeSwap(d, ra, rb);
        var x := b;
        b := Append(at, x, d, rb, ra, a);
        at := x;
        d, rb := d + [rb[0]], rb[1..];
      }
    }
    MergeEnds(compare, ra, rb);
    if a != null {
      ChainEnds(rb, b);
      Finish(at, a, d, ra);
    } else {
      ChainEnds(ra, a);
      Finish(at, b, d, rb);
    }
  }

  lemma ChainStarts<T>(s: seq<Node<T>>, top: Node<T>)
    requires Chain(s, top)
    ensures s != [] && s[0] == top
  {
  }

  lemma ChainEnds<T>(s: seq<Node<T>>, top: Node?<T>)
    requires Chain(s, top) && top == null
    ensures s == []
  {
  }

  lemma MergeEnds<T>(compare: (T, T) -> int, a: seq<Node<T>>, b: seq<Node<T>>)
    ensures a == [] ==> Merge(compare, a, b) == b
    ensures b == [] ==> Merge(compare, a, b) == a
  {
  }

  method TailOf<T>(x: Node<T>, ghost s: seq<Node<T>>) returns (rest: Node?<T>)
    requires Chain(s, x)
    ensures Chain(s[1..], rest) && Track([x])
  {
    rest := x.next;
    ghost var more := s[1..];
    assert forall i :: 0 <= i < |more| ==> more[i] == s[i + 1];
  }

  ghost function NodesOf<T>(parts: seq<Part<T>>): set<Node<T>> {
    set i, k | 0 <= i < |parts| && 0 <= k < |parts[i].nodes| :: parts[i].nodes[k]
  }

  // The slots of the stack hold the runs.
  ghost predicate Stacked<T>(stack: seq<Node?<T>>, parts: seq<Part<T>>)
    reads NodesOf(parts)
  {
    |stack| == |parts| && forall i :: 0 <= i < |parts| ==> Chain(parts[i].nodes, stack[i])
  }

  ghost predicate Distinct<T(!new)>(compare: (T, T) -> int, parts: seq<Part<T>>, cur: Part<T>) {
    AllGood(compare, parts) && Good(compare, cur) && NoRepeats(Held(parts) + cur.from)
  }

  lemma DistinctUp<T(!new)>(compare: (T, T) -> int, parts: seq<Part<T>>, cur: Part<T>)
    requires TotalPreorder(compare) && Distinct(compare, parts, cur) && parts != []
    ensures var p := parts[0];
            && NoRepeats(p.nodes) && NoRepeats(cur.nodes) && Apart(p.nodes, cur.nodes)
            && Distinct(compare, parts[1..], Joined(compare, p, cur))
            && Distinct(compare, parts[1..], p)
    ensures forall q :: q in parts[1..] ==> Apart(q.nodes, parts[0].nodes) && Apart(q.nodes, cur.nodes)
  {
    hide Good, NoRepeats, TotalPreorder, Apart;
    var p := parts[0];
    assert Good(compare, p);
    assert Held(parts[1..]) + (p.from + cur.from) == Held(parts[1..]) + p.from + cur.from;
    SplitNoRepeats(Held(parts), cur.from);
    SplitNoRepeats(Held(parts[1..]), p.from);
    GoodNoRepeats(compare, p);
    GoodNoRepeats(compare, cur);
    HeldApart(compare, parts, p, cur);
    JoinedGood(compare, p, cur);
    JoinedFrom(compare, p, cur);
    forall q | q in parts[1..]
      ensures Apart(q.nodes, p.nodes) && Apart(q.nodes, cur.nodes)
    {
      HeldApart(compare, parts[1..], q, p);
      HeldApart(compare, parts, q, cur);
    }
  }

  // Merges the lowest run into the new one; the other slots keep theirs.
  method MergeUp<T(!new)>(compare: (T, T) -> int, a: Node<T>, b: Node<T>, ghost parts: seq<Part<T>>,
                          ghost cur: Part<T>, ghost tops: seq<Node?<T>>)
    returns (out: Node<T>)
    requires TotalPreorder(compare) && Distinct(compare, parts, cur) && parts != []
    requires Chain(parts[0].nodes, a) && Chain(cur.nodes, b) && Stacked(tops, parts[1..])
    modifies parts[0].nodes, cur.nodes
    ensures Chain(Joined(compare, parts[0], cur).nodes, out) && Stacked(tops, parts[1..])
  {
    hide TotalPreorder, Distinct, Chain, NoRepeats, Merge;
    DistinctUp(compare, parts, cur);
    ghost var rest := parts[1..];
    forall i | 0 <= i < |rest|
      ensures Chain(rest[i].nodes, tops[i]) && Apart(rest[i].nodes, parts[0].nodes) && Apart(rest[i].nodes, cur.nodes)
    {
      assert rest[i] in rest;
    }
    out := MergeLists(compare, a, b, parts[0].nodes, cur.nodes);
  }

  ghost function Empties<T>(n: nat): (e: seq<Part<T>>)
    ensures |e| == n && forall i :: 0 <= i < n ==> e[i] == Part([], [])
  {
    seq(n, i => Part([], []))
  }

  lemma {:induction false} CarryStep<T>(compare: (T, T) -> int, parts: seq<Part<T>>, cur: Part<T>, i: nat)
    requires parts != [] && parts[0].nodes != []
    ensures Empties<T>(i) + Carried(compare, parts, cur)
         == Empties<T>(i + 1) + Carried(compare, parts[1..], Joined(compare, parts[0], cur))
  {
    hide Joined;
    assert Empties<T>(i + 1) == Empties<T>(i) + [Part([], [])];
  }

  // The slots below i are empty now and those from i on hold the runs.
  ghost predicate Stored<T>(stack: seq<Node?<T>>, i: nat, parts: seq<Part<T>>)
    reads NodesOf(parts)
  {
    |stack| == i + |parts| && (forall j :: 0 <= j < i ==> stack[j] == null) && Stacked(stack[i..], parts)
  }

  // The run comes to rest in an empty slot or on top.
  lemma CarryStops<T>(compare: (T, T) -> int, stack: seq<Node?<T>>, i: nat, parts: seq<Part<T>>, cur: Part<T>,
                      top: Node<T>)
    requires Stored(stack, i, parts) && Chain(cur.nodes, top)
    requires parts == [] || parts[0].nodes == []
    ensures Stacked(if parts == [] then stack + [top] else stack[i := top],
                    Empties<T>(i) + Carried(compare, parts, cur))
  {
    hide Chain;
    var now := if parts == [] then stack + [top] else stack[i := top];
    var after := Empties<T>(i) + Carried(compare, parts, cur);
    forall j | 0 <= j < |after|
      ensures Chain(after[j].nodes, now[j])
    {
      if j < i {
        EmptyChain<T>();
      } else if j > i {
        assert stack[i..][j - i] == now[j];
      }
    }
  }

  lemma EmptyChain<T>()
    ensures Chain<T>([], null)
  {
  }

  lemma SlotEmpty<T>(stack: seq<Node?<T>>, i: nat, parts: seq<Part<T>>)
    requires Stored(stack, i, parts) && parts != []
    ensures stack[i] == null <==> parts[0].nodes == []
    ensures stack[i] != null ==> Chain(parts[0].nodes, stack[i])
    ensures Stored(stack[i := null], i + 1, parts[1..])
    ensures Stacked(stack[i + 1..], parts[1..])
  {
    assert stack[i..][0] == stack[i];
    assert Chain(parts[0].nodes, stack[i]);
    forall j | 0 <= j < |parts| - 1
      ensures Chain(parts[1..][j].nodes, stack[i + 1..][j])
    {
      assert stack[i..][j + 1] == stack[i + 1 + j];
      assert Chain(parts[j + 1].nodes, stack[i..][j + 1]);
    }
    assert stack[i := null][i + 1..] == stack[i + 1..];
  }

  ghost predicate Within<T>(s: seq<Node<T>>, nodes: set<Node<T>>) {
    forall i :: 0 <= i < |s| ==> s[i] in nodes
  }

  lemma JoinedWithin<T>(compare: (T, T) -> int, p: Part<T>, q: Part<T>, nodes: set<Node<T>>)
    requires Within(p.nodes, nodes) && Within(q.nodes, nodes)
    ensures Within(Joined(compare, p, q).nodes, nodes)
  {
    var m := Merge(compare, p.nodes, q.nodes);
    forall i | 0 <= i < |m|
      ensures m[i] in nodes
    {
      MergeNodes(compare, p.nodes, q.nodes, m[i]);
    }
  }

  lemma StoredAll<T>(stack: seq<Node?<T>>, parts: seq<Part<T>>)
    requires Stacked(stack, parts)
    ensures Stored(stack, 0, parts) && |stack| == |parts|
  {
    assert stack[0..] == stack;
  }

  // Merges the run of one slot into the new one and leaves the slot empty.
  method CarryOne<T(!new)>(compare: (T, T) -> int, stack: array<Node?<T>>, size: nat, i: nat, run: Node<T>,
                           ghost rest: seq<Part<T>>, ghost c: Part<T>, ghost nodes: set<Node<T>>)
    returns (out: Node<T>)
    requires TotalPreorder(compare) && Distinct(compare, rest, c)
    requires i < size <= stack.Length && size == i + |rest| && stack[i] != null
    requires Stored(stack[..size], i, rest) && Chain(c.nodes, run)
    requires (forall p :: p in rest ==> Within(p.nodes, nodes)) && Within(c.nodes, nodes)
    modifies stack, nodes
    ensures Stored(stack[..size], i + 1, rest[1..]) && Chain(Joined(compare, rest[0], c).nodes, out)
    ensures Within(Joined(compare, rest[0], c).nodes, nodes)
  {
    hide TotalPreorder, Distinct, Chain, Joined;
    SlotEmpty(stack[..size], i, rest);
    DistinctUp(compare, rest, c);
    var up := stack[i];
    stack[i] := null;
    ghost var tops := stack[i + 1..size];
    out := MergeUp(compare, up, run, rest, c, tops);
    JoinedWithin(compare, rest[0], c, nodes);
  }

  // Puts a run into the empty slot that is its own, or on top of the stack.
  method PutRun<T(!new)>(compare: (T, T) -> int, stack: array<Node?<T>>, size: nat, i: nat, run: Node<T>,
                         ghost rest: seq<Part<T>>, ghost c: Part<T>)
    returns (now: nat)
    requires i <= size <= stack.Length && size == i + |rest| && i + |Carried(compare, rest, c)| <= stack.Length
    requires Stored(stack[..size], i, rest) && Chain(c.nodes, run) && (i < size ==> stack[i] == null)
    modifies stack
    ensures now == i + |Carried(compare, rest, c)|
    ensures Stacked(stack[..now], Empties<T>(i) + Carried(compare, rest, c))
  {
    hide Chain, Carried, Stored;
    if i < size { SlotEmpty(stack[..size], i, rest); }
    CarryStops(compare, stack[..size], i, rest, c, run);
    CarriedLength(compare, rest, c);
    ghost var was := stack[..size];
    stack[i] := run;
    now := if i == size then size + 1 else size;
    assert stack[..now] == if i == size then was + [run] else was[i := run];
  }

  // Puts a new run on the stack.
  method Carry<T(!new)>(compare: (T, T) -> int, stack: array<Node?<T>>, size: nat, run: Node<T>,
                        ghost parts: seq<Part<T>>, ghost cur: Part<T>, ghost nodes: set<Node<T>>)
    returns (now: nat)
    requires TotalPreorder(compare) && Distinct(compare, parts, cur)
    requires size <= stack.Length && |Carried(compare, parts, cur)| <= stack.Length
    requires Stacked(stack[..size], parts) && Chain(cur.nodes, run)
    requires (forall p :: p in parts ==> Within(p.nodes, nodes)) && Within(cur.nodes, nodes)
    modifies stack, nodes
    ensures now == |Carried(compare, parts, cur)| && Stacked(stack[..now], Carried(compare, parts, cur))
  {
    hide TotalPreorder, Distinct, Chain, Carried, Joined, Stored, Stacked;
    var i, at := 0, run;
    ghost var rest, c := parts, cur;
    assert Empties<T>(0) + Carried(compare, rest, c) == Carried(compare, parts, cur);
    StoredAll(stack[..size], parts);
    while i < size && stack[i] != null
      invariant i <= size && size == i + |rest|
      invariant Empties<T>(i) + Carried(compare, rest, c) == Carried(compare, parts, cur)
      invariant Distinct(compare, rest, c)
      invariant Stored(stack[..size], i, rest) && Chain(c.nodes, at)
      invariant (forall p :: p in rest ==> Within(p.nodes, nodes)) && Within(c.nodes, nodes)
      decreases size - i
    {
      SlotEmpty(stack[..size], i, rest);
      CarryStep(compare, rest, c, i);
      DistinctUp(compare, rest, c);
      at := CarryOne(compare, stack, size, i, at, rest, c, nodes);
      c, rest := Joined(compare, rest[0], c), rest[1..];
      i := i + 1;
    }
    assert |Carried(compare, parts, cur)| == i + |Carried(compare, rest, c)|;
    now := PutRun(compare, stack, size, i, at, rest, c);
  }

  lemma CarriedLength<T>(compare: (T, T) -> int, parts: seq<Part<T>>, cur: Part<T>)
    requires parts == [] || parts[0].nodes == []
    ensures |Carried(compare, parts, cur)| == if parts == [] then 1 else |parts|
  {
  }

  // ---- taking pairs ----

  function Two<T>(s: seq<Node<T>>): nat {
    if |s| < 2 then |s| else 2
  }

  // The run made of the first two nodes, or of the odd one at the end.
  ghost function PairOf<T>(compare: (T, T) -> int, s: seq<Node<T>>): Part<T>
    requires s != []
  {
    if |s| == 1 then Part(s, s)
    else if compare(s[0].key, s[1].key) > 0 then Part([s[1], s[0]], s[..2])
    else Part(s[..2], s[..2])
  }

  lemma PairGood<T(!new)>(compare: (T, T) -> int, s: seq<Node<T>>)
    requires TotalPreorder(compare) && s != []
    ensures Good(compare, PairOf(compare, s))
    ensures PairOf(compare, s).from == s[..Two(s)] && |PairOf(compare, s).nodes| == Two(s)
  {
    if |s| == 1 {
      assert s[..1] == s;
    } else if compare(s[0].key, s[1].key) > 0 {
      var x, y := s[0], s[1];
      assert Le(compare, y, x);
      assert s[..2] == [x, y];
      forall k
        ensures Alike(compare, [y, x], k) == Alike(compare, [x, y], k)
      {
        AlikeTwo(compare, x, y, k);
        AlikeTwo(compare, y, x, k);
      }
    }
  }

  lemma AlikeTwo<T>(compare: (T, T) -> int, x: Node<T>, y: Node<T>, k: T)
    ensures Alike(compare, [x, y], k)
         == (if Same(compare, x, k) then [x] else []) + (if Same(compare, y, k) then [y] else [])
  {
    AlikeCons(compare, x, [y], k);
    AlikeCons(compare, y, [], k);
    assert [x, y] == [x] + [y] && [y] == [y] + [];
  }

  method TakePair<T(!new)>(compare: (T, T) -> int, top: Node<T>, ghost s: seq<Node<T>>)
    returns (run: Node<T>, rest: Node?<T>)
    requires Chain(s, top) && NoRepeats(s)
    modifies s
    ensures Chain(PairOf(compare, s).nodes, run) && Chain(s[Two(s)..], rest)
  {
    run := top;
    rest := top.next;
    if rest != null {
      var b := rest;
      rest := b.next;
      ghost var more := s[2..];
      assert forall i :: 0 <= i < |more| ==> more[i] == s[i + 2];
      assert s[0] != s[1];
      assert forall i :: 0 <= i < |more| ==> more[i] != s[0] && more[i] != s[1];
      if compare(run.key, b.key) > 0 {
        run, b := b, run;
        run.next := b;
        b.next := null;
      } else {
        b.next := null;
      }
    }
  }

  // ---- the sort ----

  const LOG2_MAX_LIST_SIZE: nat := 64

  ghost function SetOf<T>(s: seq<Node<T>>): set<Node<T>> {
    set i | 0 <= i < |s| :: s[i]
  }

  // rest is still to be taken; the stack holds what came before.
  ghost predicate Sorting<T(!new)>(compare: (T, T) -> int, s: seq<Node<T>>, parts: seq<Part<T>>, rest: seq<Node<T>>) {
    && AllGood(compare, parts) && Held(parts) + rest == s && NoRepeats(s)
    && Counted(parts, 1, true) && (rest != [] ==> Counted(parts, 1, false)) && TopUsed(parts)
  }

  lemma SortingStep<T(!new)>(compare: (T, T) -> int, s: seq<Node<T>>, parts: seq<Part<T>>, rest: seq<Node<T>>)
    requires TotalPreorder(compare) && Sorting(compare, s, parts, rest) && rest != []
    ensures var cur := PairOf(compare, rest);
            && cur.nodes != [] && Distinct(compare, parts, cur)
            && Sorting(compare, s, Carried(compare, parts, cur), rest[Two(rest)..])
  {
    hide TotalPreorder, Good, NoRepeats;
    var cur, n := PairOf(compare, rest), Two(rest);
    PairGood(compare, rest);
    CarriedGood(compare, parts, cur);
    CarriedTop(compare, parts, cur);
    CarriedCounted(compare, parts, cur, 1, |rest| == 1);
    if |rest| > 1 { CountedShort(Carried(compare, parts, cur), 1); }
    assert rest == rest[..n] + rest[n..];
    assert Held(parts) + rest[..n] + rest[n..] == s;
    SplitNoRepeats(Held(parts) + rest[..n], rest[n..]);
  }

  lemma SortingBound<T(!new)>(compare: (T, T) -> int, s: seq<Node<T>>, parts: seq<Part<T>>, rest: seq<Node<T>>)
    requires Sorting(compare, s, parts, rest)
    ensures Pow2(|parts|) <= |s| + 1
    ensures |s| < Pow2(LOG2_MAX_LIST_SIZE) ==> |parts| <= LOG2_MAX_LIST_SIZE
  {
    hide AllGood, NoRepeats;
    if parts != [] { HeightBound(compare, parts, 1, true); }
    if |parts| > LOG2_MAX_LIST_SIZE { Pow2Monotone(LOG2_MAX_LIST_SIZE + 1, |parts|); }
  }

  lemma NodesHeld<T(!new)>(compare: (T, T) -> int, parts: seq<Part<T>>, nodes: set<Node<T>>)
    requires TotalPreorder(compare) && AllGood(compare, parts) && SetOf(Held(parts)) <= nodes
    ensures forall p :: p in parts ==> Within(p.nodes, nodes)
    ensures NodesOf(parts) <= nodes
  {
    hide TotalPreorder, Good;
    forall p | p in parts
      ensures Within(p.nodes, nodes)
    {
      forall i | 0 <= i < |p.nodes|
        ensures p.nodes[i] in nodes
      {
        GoodNode(compare, p, p.nodes[i]);
        HeldIn(parts, p, p.nodes[i]);
        assert p.nodes[i] in SetOf(Held(parts));
      }
    }
    forall i, k | 0 <= i < |parts| && 0 <= k < |parts[i].nodes|
      ensures parts[i].nodes[k] in nodes
    {
      assert parts[i] in parts;
    }
  }

  // What the stack holds is apart from what is still to be taken.
  lemma SortingApart<T(!new)>(compare: (T, T) -> int, s: seq<Node<T>>, parts: seq<Part<T>>, rest: seq<Node<T>>)
    requires TotalPreorder(compare) && Sorting(compare, s, parts, rest)
    ensures NodesOf(parts) <= SetOf(Held(parts)) <= SetOf(s) && SetOf(rest) <= SetOf(s)
    ensures SetOf(Held(parts)) !! SetOf(rest)
  {
    hide TotalPreorder, AllGood;
    NodesHeld(compare, parts, SetOf(Held(parts)));
    SplitNoRepeats(Held(parts), rest);
    forall i | 0 <= i < |Held(parts)|
      ensures Held(parts)[i] in SetOf(s) && Held(parts)[i] !in SetOf(rest)
    {
      assert s[i] == Held(parts)[i];
    }
    forall i | 0 <= i < |rest|
      ensures rest[i] in SetOf(s)
    {
      assert s[|Held(parts)| + i] == rest[i];
    }
  }

  // The same, as far as the merge of all runs is concerned.
  method MergeDown<T(!new)>(compare: (T, T) -> int, a: Node<T>, b: Node<T>, ghost parts: seq<Part<T>>,
                            ghost cur: Part<T>, ghost tops: seq<Node?<T>>, ghost nodes: set<Node<T>>)
    returns (out: Node<T>)
    requires TotalPreorder(compare) && Distinct(compare, parts, cur) && parts != []
    requires Chain(parts[0].nodes, a) && Chain(cur.nodes, b) && Stacked(tops, parts[1..])
    requires Within(parts[0].nodes, nodes) && Within(cur.nodes, nodes)
    modifies nodes
    ensures Chain(Joined(compare, parts[0], cur).nodes, out) && Stacked(tops, parts[1..])
    ensures Within(Joined(compare, parts[0], cur).nodes, nodes)
  {
    hide TotalPreorder, Distinct, Chain, Joined, Stacked;
    out := MergeUp(compare, a, b, parts, cur, tops);
    JoinedWithin(compare, parts[0], cur, nodes);
  }

  // Takes one slot to what has been merged from those below it.
  method CollapseOne<T(!new)>(compare: (T, T) -> int, slot: Node?<T>, top: Node?<T>, ghost rest: seq<Part<T>>,
                              ghost c: Part<T>, ghost tops: seq<Node?<T>>, ghost nodes: set<Node<T>>)
    returns (out: Node?<T>, ghost now: Part<T>)
    requires TotalPreorder(compare) && Distinct(compare, rest, c) && rest != []
    requires Chain(rest[0].nodes, slot) && Chain(c.nodes, top) && Stacked(tops, rest[1..])
    requires Within(rest[0].nodes, nodes) && Within(c.nodes, nodes)
    modifies nodes
    ensures Chain(now.nodes, out) && Stacked(tops, rest[1..])
    ensures Within(now.nodes, nodes) && Distinct(compare, rest[1..], now)
    ensures Collapsed(compare, rest[1..], now) == Collapsed(compare, rest, c)
  {
    NoNodes(rest[0].nodes, slot);
    NoNodes(c.nodes, top);
    hide TotalPreorder, Distinct, Chain, Joined, Stacked;
    out, now := top, c;
    if slot != null {
      DistinctUp(compare, rest, c);
      if top == null {
        out, now := slot, rest[0];
      } else {
        out := MergeDown(compare, slot, top, rest, c, tops, nodes);
        now := Joined(compare, rest[0], c);
      }
    } else {
      DistinctSkip(compare, rest, c);
    }
  }

  // Merges all runs, from the lowest slot up.
  method Collapse<T(!new)>(compare: (T, T) -> int, stack: array<Node?<T>>, size: nat, ghost parts: seq<Part<T>>,
                           ghost nodes: set<Node<T>>)
    returns (top: Node?<T>)
    requires TotalPreorder(compare) && Distinct(compare, parts, Part([], []))
    requires size <= stack.Length && Stacked(stack[..size], parts)
    requires forall p :: p in parts ==> Within(p.nodes, nodes)
    modifies nodes
    ensures Chain(Collapsed(compare, parts, Part([], [])).nodes, top)
  {
    StackedSize(stack[..size], parts);
    hide TotalPreorder, Distinct, Chain, Joined, Stacked, Collapsed, Within;
    top := null;
    EmptyChain<T>();
    NothingWithin(nodes);
    assert stack[0..size] == stack[..size];
    var i := 0;
    ghost var rest, c := parts, Part([], []);
    while i < size
      invariant i <= size && size == i + |rest|
      invariant Collapsed(compare, rest, c) == Collapsed(compare, parts, Part([], []))
      invariant Distinct(compare, rest, c)
      invariant Stacked(stack[i..size], rest) && Chain(c.nodes, top)
      invariant (forall p :: p in rest ==> Within(p.nodes, nodes)) && Within(c.nodes, nodes)
    {
      StackedSlot(stack[i..size], rest);
      ghost var tops := stack[i + 1..size];
      assert stack[i..size][1..] == tops;
      top, c := CollapseOne(compare, stack[i], top, rest, c, tops, nodes);
      rest := rest[1..];
      i := i + 1;
    }
    NothingCollapsed(compare, c);
  }

  lemma NothingWithin<T>(nodes: set<Node<T>>)
    ensures Within([], nodes)
  {
  }

  lemma NothingCollapsed<T>(compare: (T, T) -> int, c: Part<T>)
    ensures Collapsed(compare, [], c) == c
  {
  }

  lemma NoNodes<T>(s: seq<Node<T>>, top: Node?<T>)
    requires Chain(s, top)
    ensures top == null <==> s == []
  {
  }

  lemma StackedSize<T>(stack: seq<Node?<T>>, parts: seq<Part<T>>)
    requires Stacked(stack, parts)
    ensures |stack| == |parts|
  {
  }

  lemma StackedSlot<T>(stack: seq<Node?<T>>, parts: seq<Part<T>>)
    requires Stacked(stack, parts) && parts != []
    ensures stack[0] == null <==> parts[0].nodes == []
    ensures Chain(parts[0].nodes, stack[0]) && Stacked(stack[1..], parts[1..])
  {
    assert Chain(parts[0].nodes, stack[0]);
    forall j | 0 <= j < |parts| - 1
      ensures Chain(parts[1..][j].nodes, stack[1..][j])
    {
      assert Chain(parts[j + 1].nodes, stack[j + 1]);
    }
  }

  lemma DistinctSkip<T(!new)>(compare: (T, T) -> int, parts: seq<Part<T>>, cur: Part<T>)
    requires Distinct(compare, parts, cur) && parts != [] && parts[0].nodes == []
    ensures Distinct(compare, parts[1..], cur)
  {
    hide Good, NoRepeats;
    assert Good(compare, parts[0]);
    EmptyPart(compare, parts[0]);
    assert Held(parts) == Held(parts[1..]);
  }

  // The nodes of the new run and of the runs before it are among those taken by then.
  lemma StepWithin<T(!new)>(compare: (T, T) -> int, parts: seq<Part<T>>, cur: Part<T>)
    requires TotalPreorder(compare) && Distinct(compare, parts, cur)
    ensures var nodes := SetOf(Held(Carried(compare, parts, cur)));
            (forall p :: p in parts ==> Within(p.nodes, nodes)) && Within(cur.nodes, nodes)
  {
    hide TotalPreorder, Good, NoRepeats;
    CarriedGood(compare, parts, cur);
    var all := Held(Carried(compare, parts, cur));
    forall i | 0 <= i < |Held(parts)|
      ensures Held(parts)[i] in SetOf(all)
    {
      assert all[i] == Held(parts)[i];
    }
    NodesHeld(compare, parts, SetOf(all));
    forall i | 0 <= i < |cur.nodes|
      ensures cur.nodes[i] in SetOf(all)
    {
      GoodNode(compare, cur, cur.nodes[i]);
      var j :| 0 <= j < |cur.from| && cur.from[j] == cur.nodes[i];
      assert all[|Held(parts)| + j] == cur.nodes[i];
    }
  }

  // One turn of the main loop: a pair is taken and goes up the stack.
  method TakeRun<T(!new)>(compare: (T, T) -> int, top: Node<T>, stack: array<Node?<T>>, used: nat,
                          ghost s: seq<Node<T>>, ghost parts: seq<Part<T>>, ghost rest: seq<Node<T>>)
    returns (at: Node?<T>, now: nat)
    requires TotalPreorder(compare) && Sorting(compare, s, parts, rest) && rest != []
    requires |s| < Pow2(LOG2_MAX_LIST_SIZE) && stack.Length == LOG2_MAX_LIST_SIZE
    requires used == |parts| <= stack.Length && Stacked(stack[..used], parts) && Chain(rest, top)
    modifies stack, SetOf(s)
    ensures var more := Carried(compare, parts, PairOf(compare, rest));
            && Sorting(compare, s, more, rest[Two(rest)..])
            && now == |more| <= stack.Length && Stacked(stack[..now], more) && Chain(rest[Two(rest)..], at)
  {
    hide TotalPreorder, Sorting, Distinct, Chain, Carried, PairOf, Stacked, NoRepeats, Pow2;
    SortingApart(compare, s, parts, rest);
    SortingStep(compare, s, parts, rest);
    ghost var cur := PairOf(compare, rest);
    ghost var more, left := Carried(compare, parts, cur), rest[Two(rest)..];
    SortingApart(compare, s, more, left);
    SortingBound(compare, s, more, left);
    StepWithin(compare, parts, cur);
    assert NoRepeats(rest) by { RestOnce(compare, s, parts, rest); }
    var run;
    run, at := TakePair(compare, top, rest);
    now := Carry(compare, stack, used, run, parts, cur, SetOf(Held(more)));
  }

  lemma RestOnce<T(!new)>(compare: (T, T) -> int, s: seq<Node<T>>, parts: seq<Part<T>>, rest: seq<Node<T>>)
    requires Sorting(compare, s, parts, rest)
    ensures NoRepeats(rest)
  {
    SplitNoRepeats(Held(parts), rest);
  }

  lemma SortingStarts<T(!new)>(compare: (T, T) -> int, s: seq<Node<T>>)
    requires NoRepeats(s)
    ensures Sorting<T>(compare, s, [], s) && Stacked<T>([], [])
  {
  }

  // When all is taken, merging the runs gives the sorted list.
  lemma SortingEnds<T(!new)>(compare: (T, T) -> int, s: seq<Node<T>>, parts: seq<Part<T>>)
    requires TotalPreorder(compare) && Sorting(compare, s, parts, [])
    ensures Distinct(compare, parts, Part([], []))
    ensures forall p :: p in parts ==> Within(p.nodes, SetOf(s))
    ensures StablySorted(compare, Collapsed(compare, parts, Part([], [])).nodes, s)
  {
    hide TotalPreorder, NoRepeats, StablySorted;
    EmptyGood<T>(compare);
    assert Held(parts) + [] == s;
    assert Held(parts) == s;
    NodesHeld(compare, parts, SetOf(s));
    CollapsedGood(compare, parts, Part([], []));
  }

  // GSK_STACK_SORT
  method StackSort<T(!new)>(compare: (T, T) -> int, top: Node?<T>, ghost s: seq<Node<T>>)
    returns (out: Node?<T>, used: nat, ghost r: seq<Node<T>>)
    requires TotalPreorder(compare) && Chain(s, top) && NoRepeats(s) && |s| < Pow2(LOG2_MAX_LIST_SIZE)
    modifies SetOf(s)
    ensures Chain(r, out) && StablySorted(compare, r, s)
    ensures Pow2(used) <= |s| + 1
  {
    hide TotalPreorder, Chain, NoRepeats, Sorting, Carried, PairOf, StablySorted, Stacked, Pow2, Distinct;
    var stack := new Node?<T>[LOG2_MAX_LIST_SIZE](_ => null);
    used := 0;
    var at := top;
    ghost var parts: seq<Part<T>>, rest := [], s;
    SortingStarts(compare, s);
    while at != null
      invariant stack.Length == LOG2_MAX_LIST_SIZE && fresh(stack) && used == |parts| <= stack.Length
      invariant Sorting(compare, s, parts, rest)
      invariant Stacked(stack[..used], parts) && Chain(rest, at)
      decreases |rest|
    {
      NoNodes(rest, at);
      ghost var more := Carried(compare, parts, PairOf(compare, rest));
      at, used := TakeRun(compare, at, stack, used, s, parts, rest);
      parts, rest := more, rest[Two(rest)..];
    }
    NoNodes(rest, at);
    SortingBound(compare, s, parts, rest);
    SortingEnds(compare, s, parts);
    out := Collapse(compare, stack, used, parts, SetOf(s));
    r := Collapsed(compare, parts, Part([], [])).nodes;
  }

  // ---- the order of the nodes afterwards ----

  lemma SortedOnce<T>(r: seq<Node<T>>, s: seq<Node<T>>)
    requires multiset(r) == multiset(s) && NoRepeats(s)
    ensures NoRepeats(r) && SetOf(r) <= SetOf(s) && |r| == |s|
  {
    RepeatsCounted(r);
    RepeatsCounted(s);
    forall x | x in r
      ensures multiset(r)[x] == 1
    {
      assert x in multiset(s);
    }
    forall i | 0 <= i < |r|
      ensures r[i] in SetOf(s)
    {
      assert r[i] in multiset(s);
    }
    assert |multiset(r)| == |r| && |multiset(s)| == |s|;
  }
}
