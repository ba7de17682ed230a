/**
 * The field database of a message type: two indexes, by name and by number, share the fields.  A field is released when
 * neither index reaches it any more.  The tables behind the indexes are taken as finite maps; an entry may be there
 * without a field.
 */
module FieldDb {

  class Field<N> {
    const name: N
    const number: int
    var hasDefault: bool

    constructor (name: N, number: int)
      ensures this.name == name && this.number == number && !hasDefault
    {
      this.name := name;
      this.number := number;
      hasDefault := false;
    }
  }

  // ---- the indexes as values ----

  // pb_fname and pb_field
  function At<K, N>(index: map<K, Field?<N>>, key: K): Field?<N> {
    if key in index then index[key] else null
  }

  ghost predicate Reached<N>(names: map<N, Field?<N>>, tags: map<int, Field?<N>>, f: Field<N>) {
    At(names, f.name) == f || At(tags, f.number) == f
  }

  // The indexes lead to live fields under their own keys, and every live field is reached.
  ghost predicate Indexed<N>(names: map<N, Field?<N>>, tags: map<int, Field?<N>>, live: set<Field<N>>) {
    && (forall n :: n in names && names[n] != null ==> names[n] in live && names[n].name == n)
    && (forall k :: k in tags && tags[k] != null ==> tags[k] in live && tags[k].number == k)
    && (forall f :: f in live ==> Reached(names, tags, f))
  }

  // The field under a name that is reached by it alone.
  function LostName<N>(names: map<N, Field?<N>>, tags: map<int, Field?<N>>, name: N): seq<Field<N>> {
    var f := At(names, name);
    if f != null && At(tags, f.number) != f then [f] else []
  }

  // The field under a number that is reached by it alone.
  function LostNumber<N>(names: map<N, Field?<N>>, tags: map<int, Field?<N>>, number: int): seq<Field<N>> {
    var f := At(tags, number);
    if f != null && At(names, f.name) != f then [f] else []
  }

  // The fields that lose their last index when a new field takes over a name and a number.
  function Displaced<N>(names: map<N, Field?<N>>, tags: map<int, Field?<N>>, name: N, number: int): seq<Field<N>> {
    LostName(names, tags, name) + LostNumber(names, tags, number)
  }

  ghost function SetOf<N>(s: seq<Field<N>>): set<Field<N>> {
    set i | 0 <= i < |s| :: s[i]
  }

  ghost predicate NoRepeats<N>(s: seq<Field<N>>) {
    forall i, j :: 0 <= i < j < |s| ==> s[i] != s[j]
  }

  lemma DisplacedSet<N>(names: map<N, Field?<N>>, tags: map<int, Field?<N>>, live: set<Field<N>>, name: N, number: int)
    requires Indexed(names, tags, live)
    requires At(names, name) == null || At(names, name) != At(tags, number)
    ensures var gone := Displaced(names, tags, name, number);
            NoRepeats(gone) && SetOf(gone) <= live && |live - SetOf(gone)| == |live| - |gone|
  {
    var gone := Displaced(names, tags, name, number);
    CountSet(gone);
    assert SetOf(gone) <= live;
  }

  lemma InDisplaced<N>(names: map<N, Field?<N>>, tags: map<int, Field?<N>>, name: N, number: int, f: Field<N>)
    ensures f in SetOf(Displaced(names, tags, name, number))
       <==> (f == At(names, name) && At(tags, f.number) != f) || (f == At(tags, number) && At(names, f.name) != f)
  {
    var a, b := LostName(names, tags, name), LostNumber(names, tags, number);
    assert a != [] ==> (a + b)[0] == a[0];
    assert b != [] ==> (a + b)[|a|] == b[0];
  }

  // Exactly the fields that are not reached any more are displaced.
  lemma TakenOver<N>(names: map<N, Field?<N>>, tags: map<int, Field?<N>>, live: set<Field<N>>, g: Field<N>, f: Field<N>)
    requires Indexed(names, tags, live) && g !in live && f in live
    requires At(names, g.name) == null || At(names, g.name) != At(tags, g.number)
    ensures Reached(names[g.name := g], tags[g.number := g], f) <==>
      f !in SetOf(Displaced(names, tags, g.name, g.number))
  {
    hide Displaced, SetOf;
    InDisplaced(names, tags, g.name, g.number, f);
    assert Reached(names, tags, f);
  }

  lemma Found<N>(names: map<N, Field?<N>>, tags: map<int, Field?<N>>, live: set<Field<N>>, f: Field<N>)
    requires Indexed(names, tags, live)
    ensures At(names, f.name) == f || At(tags, f.number) == f <==> f in live
    ensures f !in live ==> Without(names, f.name, f) == names && Without(tags, f.number, f) == tags
  {
    assert f in live ==> Reached(names, tags, f);
  }

  lemma StillIndexed<N>(names: map<N, Field?<N>>, tags: map<int, Field?<N>>, live: set<Field<N>>, g: Field<N>)
    requires Indexed(names, tags, live) && g !in live
    requires At(names, g.name) == null || At(names, g.name) != At(tags, g.number)
    ensures var left := live - SetOf(Displaced(names, tags, g.name, g.number));
            Indexed(names[g.name := g], tags[g.number := g], left + {g})
  {
    hide Displaced, SetOf;
    var gone := SetOf(Displaced(names, tags, g.name, g.number));
    var byName, byNumber := names[g.name := g], tags[g.number := g];
    forall n | n in byName && byName[n] != null
      ensures byName[n] in live - gone + {g} && byName[n].name == n
    {
      if n != g.name { TakenOver(names, tags, live, g, byName[n]); }
    }
    forall k | k in byNumber && byNumber[k] != null
      ensures byNumber[k] in live - gone + {g} && byNumber[k].number == k
    {
      if k != g.number { TakenOver(names, tags, live, g, byNumber[k]); }
    }
    forall f | f in live - gone + {g}
      ensures Reached(byName, byNumber, f)
    {
      if f != g { TakenOver(names, tags, live, g, f); }
    }
  }

  lemma {:induction false} CountSet<N>(s: seq<Field<N>>)
    requires NoRepeats(s)
    ensures |SetOf(s)| == |s|
  {
    if s == [] {
      assert SetOf(s) == {};
    } else {
      var n := |s| - 1;
      CountSet(s[..n]);
      assert SetOf(s) == SetOf(s[..n]) + {s[n]} by {
        forall i | 0 <= i < n
          ensures s[i] in SetOf(s[..n])
        {
          assert s[..n][i] == s[i];
        }
      }
    }
  }

  // Taking a field out of both indexes.
  function Without<K(==), N>(index: map<K, Field?<N>>, key: K, f: Field<N>): map<K, Field?<N>> {
    if At(index, key) == f then index - {key} else index
  }

  lemma TakenOut<N>(names: map<N, Field?<N>>, tags: map<int, Field?<N>>, live: set<Field<N>>, f: Field<N>)
    requires Indexed(names, tags, live) && f in live
    ensures Indexed(Without(names, f.name, f), Without(tags, f.number, f), live - {f})
    ensures !Reached(Without(names, f.name, f), Without(tags, f.number, f), f)
  {
    var byName, byNumber := Without(names, f.name, f), Without(tags, f.number, f);
    forall g | g in live - {f}
      ensures Reached(byName, byNumber, g)
    {
      assert Reached(names, tags, g);
    }
  }

  // ---- a type ----

  // The tables give their entries in no order that matters.
  method AnyOf<K>(keys: set<K>) returns (k: K)
    requires keys != {}
    ensures k in keys
  {
    k :| k in keys;
  }

  class Type<N(==,!new)> {
    var names: map<N, Field?<N>>
    var tags: map<int, Field?<N>>
    var count: nat
    var dead: bool
    // the fields in use, and those given back to the pool, in that order
    ghost var live: set<Field<N>>
    ghost var freed: seq<Field<N>>

    ghost predicate Valid()
      reads this
    {
      Indexed(names, tags, live) && count == |live| && Released(freed, live)
    }

    constructor ()
      ensures Valid() && names == map[] && tags == map[] && live == {} && freed == []
    {
      names, tags, count, dead := map[], map[], 0, false;
      live, freed := {}, [];
    }

    // pbT_freefield: the field goes back to the pool.
    method Free(f: Field<N>)
      requires f in live && Released(freed, live)
      modifies this`live, this`freed
      ensures live == old(live) - {f} && freed == old(freed) + [f] && Released(freed, live)
    {
      ReleasedMore(freed, live, f);
      live := live - {f};
      freed := freed + [f];
    }

    // Frees a field that is about to lose its only index.
    method FreeLost(f: Field?<N>, lost: bool, ghost gone: seq<Field<N>>)
      requires Released(freed, live) && count == |live|
      requires if lost then f != null && f in live && gone == [f] else gone == []
      modifies this`count, this`live, this`freed
      ensures freed == old(freed) + gone && live == old(live) - SetOf(gone) && count == |live|
      ensures Released(freed, live)
    {
      hide SetOf, Released;
      SetOfNone<N>();
      if lost {
        SetOfOne(f);
        Free(f);
        count := count - 1;
      }
    }

    // Adds entries without a field where there are none.
    method MakeRoom(name: N, number: int, nameRoom: bool, tagRoom: bool)
      requires Valid()
      modifies this`names, this`tags
      ensures Valid()
      ensures forall n :: At(names, n) == old(At(names, n))
      ensures forall k :: At(tags, k) == old(At(tags, k))
      ensures names == old(names) || names == old(names)[name := null]
      ensures tags == old(tags) || tags == old(tags)[number := null]
      ensures nameRoom ==> name in names
      ensures tagRoom ==> number in tags
    {
      hide Released;
      if name !in names && nameRoom { names := names[name := null]; }
      if number !in tags && tagRoom { tags := tags[number := null]; }
      SameReach(old(names), old(tags), names, tags, live);
    }

    // pb_newfield; the flags say whether an entry can be added to an index and whether a field can be allocated.
    method NewField(name: N, number: int, nameRoom: bool, tagRoom: bool, fieldRoom: bool) returns (f: Field?<N>)
      requires Valid()
      modifies this, live
      ensures Valid()
      // the field that both indexes have already
      ensures old(At(names, name)) != null && old(At(names, name)) == old(At(tags, number)) ==>
                f == old(At(names, name)) && names == old(names) && tags == old(tags) &&
                live == old(live) && freed == old(freed)
      // no room
      ensures f == null ==> live == old(live) && freed == old(freed)
      ensures f == null ==> forall n :: At(names, n) == old(At(names, n))
      ensures f == null ==> forall k :: At(tags, k) == old(At(tags, k))
      // a new field; what it displaces is freed
      ensures f != null ==> f.name == name && f.number == number && !f.hasDefault
      ensures f != null ==> names == old(names)[name := f] && tags == old(tags)[number := f]
      ensures f != null ==> f in old(live) || fresh(f)
      ensures f != null && f !in old(live) ==>
                var gone := Displaced(old(names), old(tags), name, number);
                freed == old(freed) + gone && live == old(live) - SetOf(gone) + {f}
      ensures nameRoom && tagRoom && fieldRoom ==> f != null
    {
      hide Displaced, SetOf, Released;
      f := null;
      ghost var names0, tags0 := names, tags;
      MakeRoom(name, number, nameRoom, tagRoom);
      if name !in names || number !in tags { return; }
      var nf, tf := names[name], tags[number];
      if nf != null && tf == nf {
        nf.hasDefault := false;
        assert names == old(names)[name := nf] && tags == old(tags)[number := nf];
        return nf;
      }
      if !fieldRoom { return; }
      SameDisplaced(names0, tags0, names, tags, name, number);
      ghost var names1, tags1 := names, tags;
      f := TakeOver(name, number, nf, tf);
      SameUpdate(names0, names1, name, f);
      SameUpdate(tags0, tags1, number, f);
    }

    // The new field takes over; what it displaces is freed first.
    method TakeOver(name: N, number: int, nf: Field?<N>, tf: Field?<N>) returns (g: Field<N>)
      requires Valid() && nf == At(names, name) && tf == At(tags, number) && (nf == null || nf != tf)
      modifies this
      ensures Valid() && fresh(g) && g.name == name && g.number == number && !g.hasDefault
      ensures names == old(names)[name := g] && tags == old(tags)[number := g]
      ensures var gone := Displaced(old(names), old(tags), name, number);
              freed == old(freed) + gone && live == old(live) - SetOf(gone) + {g}
    {
      g := new Field(name, number);
      assert g !in SetOf(freed) && g !in live;
      hide Displaced, SetOf, Released, Indexed;
      ghost var gone := Displaced(names, tags, name, number);
      ghost var left := live - SetOf(gone);
      StillIndexed(names, tags, live, g);
      DisplacedSet(names, tags, live, name, number);
      SetOfBoth(freed, gone);
      FreeDisplaced(name, number, nf, tf);
      assert live == left;
      LivesOn(freed, left, g);
      Install(g);
    }

    // Puts a field into both indexes.
    method Install(g: Field<N>)
      requires count == |live| && g !in live && Released(freed, live + {g})
      requires Indexed(names[g.name := g], tags[g.number := g], live + {g})
      modifies this`names, this`tags, this`count, this`live
      ensures Valid() && live == old(live) + {g}
      ensures names == old(names)[g.name := g] && tags == old(tags)[g.number := g]
    {
      hide Indexed, Released;
      count := count + 1;
      names := names[g.name := g];
      tags := tags[g.number := g];
      live := live + {g};
    }

    method FreeDisplaced(ghost name: N, ghost number: int, nf: Field?<N>, tf: Field?<N>)
      requires Valid() && nf == At(names, name) && tf == At(tags, number) && (nf == null || nf != tf)
      modifies this`count, this`live, this`freed
      ensures var gone := Displaced(names, tags, name, number);
              freed == old(freed) + gone && live == old(live) - SetOf(gone)
      ensures count == |live| && Released(freed, live)
    {
      DisplacedLive(names, tags, live, name, number);
      ghost var a, b := LostName(names, tags, name), LostNumber(names, tags, number);
      ghost var gone, first, before := Displaced(names, tags, name, number), freed, live;
      assert gone == a + b;
      hide Indexed, SetOf, Released, Displaced;
      SetOfBoth(a, b);
      SetOfNone<N>();
      if nf != null { SetOfOne(nf); }
      assert tf != null ==> tf !in SetOf(a);
      FreeLost(nf, nf != null && At(tags, nf.number) != nf, a);
      FreeLost(tf, tf != null && At(names, tf.name) != tf, b);
      Regroup(first, a, b);
      MinusBoth(before, SetOf(a), SetOf(b));
    }

    // Frees one of several fields; order is what has been freed of them.
    method FreeNext(f: Field<N>, ghost order: seq<Field<N>>, ghost first: seq<Field<N>>, ghost all: set<Field<N>>)
      requires f in live && Released(freed, live) && freed == first + order
      requires Released(order, live) && SetOf(order) + live == all
      modifies this`live, this`freed
      ensures live == old(live) - {f} && Released(freed, live) && freed == first + (order + [f])
      ensures Released(order + [f], live) && SetOf(order + [f]) + live == all
    {
      hide SetOf, Released;
      Regroup(first, order, [f]);
      ReleasedMore(order, live, f);
      SetOfBoth(order, [f]);
      SetOfOne(f);
      Free(f);
    }

    // pb_delfield; a field that is not one of the type's is left alone.
    method DelField(f: Field<N>)
      requires Valid()
      modifies this
      ensures Valid() && live == old(live) - {f} && freed == old(freed) + if f in old(live) then [f] else []
      ensures names == Without(old(names), f.name, f) && tags == Without(old(tags), f.number, f)
    {
      if f in live { TakenOut(names, tags, live, f); }
      Found(names, tags, live, f);
      hide Indexed, Released;
      var found := 0;
      var nf, tf := At(names, f.name), At(tags, f.number);
      if nf == f {
        names := names - {f.name};
        found := found + 1;
      }
      if tf == f {
        tags := tags - {f.number};
        found := found + 1;
      }
      if found > 0 {
        Free(f);
        count := count - 1;
      }
    }

    // pb_deltype, for the fields: those under a name first, then those that only a number reaches.
    method DelType() returns (ghost order: seq<Field<N>>)
      requires Valid()
      modifies this
      ensures Valid() && live == {} && names == map[] && tags == map[] && count == 0 && dead
      ensures freed == old(freed) + order && NoRepeats(order) && SetOf(order) == old(live)
    {
      hide Released, SetOf, Indexed;
      ghost var first, all := freed, live;
      order := [];
      SetOfNone<N>();
      NothingFreed(live);
      order := FreeNamed(order, first, all);
      order := FreeNumbered(order, first, all);
      assert SetOf(order) == all;
      OnceFreed(order, live);
      NothingIndexed<N>();
      names, tags, count, dead := map[], map[], 0, true;
    }

    // The first loop of pb_deltype: the fields under a name.
    method FreeNamed(ghost was: seq<Field<N>>, ghost first: seq<Field<N>>, ghost all: set<Field<N>>)
      returns (ghost order: seq<Field<N>>)
      requires Indexed(names, tags, live) && Released(freed, live) && freed == first + was
      requires Released(was, live) && SetOf(was) + live == all
      modifies this`tags, this`live, this`freed
      ensures Indexed(map[], tags, live) && Released(freed, live) && freed == first + order
      ensures Released(order, live) && SetOf(order) + live == all
    {
      hide Released, SetOf, Indexed;
      order := was;
      var left, keys := names, names.Keys;
      while keys != {}
        invariant left.Keys == keys && Indexed(left, tags, live) && Released(freed, live)
        invariant freed == first + order && Released(order, live) && SetOf(order) + live == all
        decreases |keys|
      {
        var n := AnyOf(keys);
        var f := left[n];
        EntryLive(left, tags, live, n);
        if f != null {
          TakenOut(left, tags, live, f);
          if At(tags, f.number) == f { tags := tags - {f.number}; }
          FreeNext(f, order, first, all);
          order := order + [f];
        } else {
          NoField(left, tags, live, n);
        }
        left, keys := left - {n}, keys - {n};
      }
      assert left == map[];
    }

    // The second loop: those that only a number reaches.
    method FreeNumbered(ghost was: seq<Field<N>>, ghost first: seq<Field<N>>, ghost all: set<Field<N>>)
      returns (ghost order: seq<Field<N>>)
      requires Indexed(map[], tags, live) && Released(freed, live) && freed == first + was
      requires Released(was, live) && SetOf(was) + live == all
      modifies this`live, this`freed
      ensures live == {} && Released(freed, live) && freed == first + order
      ensures Released(order, live) && SetOf(order) == all
    {
      hide Released, SetOf, Indexed;
      order := was;
      var left := tags;
      var keys: set<int> := tags.Keys;
      while keys != {}
        invariant left.Keys == keys && Indexed(map[], left, live) && Released(freed, live)
        invariant freed == first + order && Released(order, live) && SetOf(order) + live == all
        decreases |keys|
      {
        var k := AnyOf(keys);
        var f := left[k];
        TagLive(left, live, k);
        if f != null {
          TakenOut(map[], left, live, f);
          FreeNext(f, order, first, all);
          order := order + [f];
        } else {
          NoFieldThere(left, live, k);
        }
        left, keys := left - {k}, keys - {k};
      }
      assert left == map[];
      NoneLeft(live);
    }
  }

  lemma NothingIndexed<N>()
    ensures Indexed<N>(map[], map[], {})
  {
  }

  lemma NothingFreed<N>(live: set<Field<N>>)
    ensures Released([], live)
  {
  }

  lemma OnceFreed<N>(freed: seq<Field<N>>, live: set<Field<N>>)
    requires Released(freed, live)
    ensures NoRepeats(freed)
  {
  }

  lemma EntryLive<N>(names: map<N, Field?<N>>, tags: map<int, Field?<N>>, live: set<Field<N>>, n: N)
    requires Indexed(names, tags, live) && n in names
    ensures names[n] != null ==> names[n] in live && names[n].name == n
  {
  }

  lemma TagLive<N>(tags: map<int, Field?<N>>, live: set<Field<N>>, k: int)
    requires Indexed<N>(map[], tags, live) && k in tags
    ensures tags[k] != null ==> tags[k] in live && tags[k].number == k
  {
  }

  lemma NoField<N>(names: map<N, Field?<N>>, tags: map<int, Field?<N>>, live: set<Field<N>>, n: N)
    requires Indexed(names, tags, live) && n in names && names[n] == null
    ensures Indexed(names - {n}, tags, live)
  {
    forall f | f in live
      ensures Reached(names - {n}, tags, f)
    {
      assert Reached(names, tags, f);
    }
  }

  lemma NoFieldThere<N>(tags: map<int, Field?<N>>, live: set<Field<N>>, k: int)
    requires Indexed<N>(map[], tags, live) && k in tags && tags[k] == null
    ensures Indexed<N>(map[], tags - {k}, live)
  {
    forall f | f in live
      ensures Reached(map[], tags - {k}, f)
    {
      assert Reached(map[], tags, f);
    }
  }

  lemma NoneLeft<N>(live: set<Field<N>>)
    requires Indexed<N>(map[], map[], live)
    ensures live == {}
  {
    assert forall f :: f in live ==> Reached(map[], map[], f);
  }

  lemma SameUpdate<K, N>(was: map<K, Field?<N>>, now: map<K, Field?<N>>, key: K, f: Field<N>)
    requires now == was || now == was[key := null]
    ensures now[key := f] == was[key := f]
  {
  }

  lemma MinusBoth<N>(s: set<Field<N>>, a: set<Field<N>>, b: set<Field<N>>)
    ensures s - a - b == s - (a + b)
  {
  }

  lemma Regroup<N>(a: seq<Field<N>>, b: seq<Field<N>>, c: seq<Field<N>>)
    ensures a + (b + c) == a + b + c
  {
  }

  // What was freed was freed once and is not in use.
  ghost predicate Released<N>(freed: seq<Field<N>>, live: set<Field<N>>) {
    NoRepeats(freed) && SetOf(freed) !! live
  }

  lemma ReleasedMore<N>(freed: seq<Field<N>>, live: set<Field<N>>, f: Field<N>)
    requires Released(freed, live) && f in live
    ensures Released(freed + [f], live - {f})
  {
    assert forall i :: 0 <= i < |freed| ==> freed[i] in SetOf(freed);
  }

  // A new field is none of those freed before.
  lemma LivesOn<N>(freed: seq<Field<N>>, live: set<Field<N>>, g: Field<N>)
    requires Released(freed, live) && g !in SetOf(freed)
    ensures Released(freed, live + {g})
  {
  }

  lemma SetOfNone<N>()
    ensures SetOf<N>([]) == {}
  {
  }

  lemma SetOfOne<N>(f: Field<N>)
    ensures SetOf([f]) == {f}
  {
    assert [f][0] == f;
  }

  lemma SetOfBoth<N>(a: seq<Field<N>>, b: seq<Field<N>>)
    ensures SetOf(a + b) == SetOf(a) + SetOf(b)
  {
    forall i | 0 <= i < |a|
      ensures a[i] in SetOf(a + b)
    {
      assert (a + b)[i] == a[i];
    }
    forall i | 0 <= i < |b|
      ensures b[i] in SetOf(a + b)
    {
      assert (a + b)[|a| + i] == b[i];
    }
  }

  lemma DisplacedLive<N>(names: map<N, Field?<N>>, tags: map<int, Field?<N>>, live: set<Field<N>>, name: N, number: int)
    requires Indexed(names, tags, live)
    ensures At(names, name) != null ==> At(names, name) in live
    ensures At(tags, number) != null ==> At(tags, number) in live
  {
  }

  lemma SameReach<N>(names: map<N, Field?<N>>, tags: map<int, Field?<N>>, byName: map<N, Field?<N>>,
                     byNumber: map<int, Field?<N>>, live: set<Field<N>>)
    requires Indexed(names, tags, live)
    requires (forall n :: At(byName, n) == At(names, n)) && forall k :: At(byNumber, k) == At(tags, k)
    ensures Indexed(byName, byNumber, live)
  {
    assert forall n :: n in byName && byName[n] != null ==> At(names, n) == byName[n];
    assert forall k :: k in byNumber && byNumber[k] != null ==> At(tags, k) == byNumber[k];
    forall f | f in live
      ensures Reached(byName, byNumber, f)
    {
      assert Reached(names, tags, f);
    }
  }

  lemma SameDisplaced<N>(names: map<N, Field?<N>>, tags: map<int, Field?<N>>, byName: map<N, Field?<N>>,
                         byNumber: map<int, Field?<N>>, name: N, number: int)
    requires (forall n :: At(byName, n) == At(names, n)) && forall k :: At(byNumber, k) == At(tags, k)
    ensures Displaced(byName, byNumber, name, number) == Displaced(names, tags, name, number)
  {
  }
}
