/**
 `ObjectSet` of src/utils/assorted-vanillajs/ObjectSet.ts: a JavaScript `Set`
 of strings holding the serialisations of its elements.

 `JSON.stringify` and `JSON.parse` are parameters (`ser` and `parse`): the
 set only relies on `ser` being a function, so that equal serialisations
 stand for the same member. The underlying `Set` is insertion-ordered, so
 its contents are a sequence of distinct strings.
 */
module ObjectSets {
  import opened Seqs

  /** The serialisations held, in order of first insertion. */
  datatype ObjectSet = ObjectSet(members: seq<string>) {
    predicate Valid() {
      Distinct(members)
    }
  }

  const Empty: ObjectSet := ObjectSet([])

  /** `Set.prototype.add` on the underlying set of strings. */
  function Insert(s: ObjectSet, key: string): (r: ObjectSet)
    requires s.Valid()
    ensures r.Valid()
    ensures key in r.members
    ensures key in s.members ==> r == s
    ensures key !in s.members ==> r.members == s.members + [key]
  {
    if key in s.members then s else ObjectSet(s.members + [key])
  }

  /** `ObjectSet.add`; `Set.add` returns the set itself. */
  function Add<T>(s: ObjectSet, x: T, ser: T -> string): (r: ObjectSet)
    requires s.Valid()
    ensures r.Valid()
    ensures Has(r, x, ser)
    ensures s.members <= r.members
    ensures forall i :: 0 <= i < |r.members| ==> r.members[i] in s.members || r.members[i] == ser(x)
  {
    Insert(s, ser(x))
  }

  /** `ObjectSet.addAll`: each element added in turn. */
  function AddAll<T>(s: ObjectSet, xs: seq<T>, ser: T -> string): (r: ObjectSet)
    requires s.Valid()
    ensures r.Valid()
    decreases |xs|
  {
    if xs == [] then s
    else AddAll(Add(s, xs[0], ser), xs[1..], ser)
  }

  /** `ObjectSet.delete`: the set without `x`'s serialisation, and whether it
      was there. */
  function Delete<T>(s: ObjectSet, x: T, ser: T -> string): (r: (ObjectSet, bool))
    requires s.Valid()
    ensures r.0.Valid()
    ensures !Has(r.0, x, ser)
    ensures r.1 <==> Has(s, x, ser)
    ensures forall i :: 0 <= i < |s.members| && s.members[i] != ser(x) ==> s.members[i] in r.0.members
    ensures forall i :: 0 <= i < |r.0.members| ==> r.0.members[i] in s.members
  {
    var key := ser(x);
    var kept := Filter(s.members, k => k != key);
    FilterDistinct(s.members, k => k != key);
    (ObjectSet(kept), key in s.members)
  }

  /** `ObjectSet.has`. */
  predicate Has<T>(s: ObjectSet, x: T, ser: T -> string) {
    ser(x) in s.members
  }

  /** `ObjectSet.size`. */
  function Size(s: ObjectSet): (n: nat)
    requires s.Valid()
    ensures n == |set k | k in s.members|
  {
    DistinctCardinality(s.members);
    |s.members|
  }

  /** `ObjectSet.getAllData`: every member parsed back, in insertion order. */
  function GetAllData<T>(s: ObjectSet, parse: string -> T): (r: seq<T>)
    ensures |r| == |s.members|
    ensures forall i :: 0 <= i < |r| ==> r[i] == parse(s.members[i])
  {
    Map(s.members, parse)
  }

  /** `new ObjectSet(data)`: an empty set, filled by `addAll` when data is
      given. */
  function Construct<T>(data: seq<T>, given: bool, ser: T -> string): (r: ObjectSet)
    ensures r.Valid()
    ensures !given ==> r == Empty
  {
    if given then AddAll(Empty, data, ser) else Empty
  }

  // ---------------------------------------------------------------------------
  // Properties

  lemma FilterDistinct<T>(s: seq<T>, keep: T -> bool)
    requires Distinct(s)
    ensures Distinct(Filter(s, keep))
    decreases |s|
  {
    if s != [] {
      FilterDistinct(s[1..], keep);
      var rest := Filter(s[1..], keep);
      assert s[0] !in s[1..];
      assert s[0] !in rest;
    }
  }

  /** Adding all of `xs` gives the de-duplicated sequence of everything
      serialised so far, each where it first appeared. */
  lemma {:induction false} AddAllMembers<T>(s: ObjectSet, xs: seq<T>, ser: T -> string)
    requires s.Valid()
    ensures AddAll(s, xs, ser).members == Dedup(s.members + Map(xs, ser))
    decreases |xs|
  {
    if xs == [] {
      assert s.members + Map(xs, ser) == s.members;
      DedupDistinct(s.members);
    } else {
      var k := ser(xs[0]);
      var a := s.members + [k];
      var tail := Map(xs[1..], ser);
      InsertIsDedup(s, k);
      AddAllMembers(Add(s, xs[0], ser), xs[1..], ser);
      DedupOfDedup(a, tail);
      MapCons(xs, ser);
      ConcatAssoc(s.members, [k], tail);
    }
  }

  /** One insertion is one more step of de-duplication. */
  lemma InsertIsDedup(s: ObjectSet, key: string)
    requires s.Valid()
    ensures Insert(s, key).members == Dedup(s.members + [key])
  {
    DedupDistinct(s.members);
    DedupSnoc(s.members, key);
  }

  lemma MapCons<A, B>(xs: seq<A>, f: A -> B)
    requires xs != []
    ensures Map(xs, f) == [f(xs[0])] + Map(xs[1..], f)
  {
  }

  /** De-duplicating a prefix first changes nothing. */
  lemma {:induction false} DedupOfDedup<T>(a: seq<T>, b: seq<T>)
    ensures Dedup(Dedup(a) + b) == Dedup(a + b)
    decreases |b|
  {
    if b == [] {
      assert Dedup(a) + b == Dedup(a);
      assert a + b == a;
      DedupDistinct(Dedup(a));
    } else {
      var b' := b[..|b| - 1];
      var x := b[|b| - 1];
      DedupOfDedup(a, b');
      assert b == b' + [x];
      ConcatAssoc(Dedup(a), b', [x]);
      ConcatAssoc(a, b', [x]);
      DedupSnoc(Dedup(a) + b', x);
      DedupSnoc(a + b', x);
      assert x in Dedup(a) + b' <==> x in a + b' by {
        assert x in Dedup(a) <==> x in a;
      }
    }
  }

  /** Constructing with data is `addAll` on an empty set; its members are
      the distinct serialisations in order of first occurrence, and its size
      is their number. */
  lemma ConstructMembers<T>(data: seq<T>, ser: T -> string)
    ensures Construct(data, true, ser) == AddAll(Empty, data, ser)
    ensures Construct(data, true, ser).members == Dedup(Map(data, ser))
    ensures Size(Construct(data, true, ser)) == |set k | k in Map(data, ser)|
  {
    AddAllMembers(Empty, data, ser);
    var keys := Map(data, ser);
    assert Empty.members + keys == keys;
    var r := Construct(data, true, ser);
    assert r.members == Dedup(keys);
    DedupSameSet(keys);
  }

  /** De-duplication keeps the set of elements. */
  lemma DedupSameSet(keys: seq<string>)
    ensures (set k | k in Dedup(keys)) == (set k | k in keys)
  {
    var m := Dedup(keys);
    forall k | k in m ensures k in keys {
      var i :| 0 <= i < |m| && m[i] == k;
    }
    forall k | k in keys ensures k in m {
      var i :| 0 <= i < |keys| && keys[i] == k;
    }
  }

  /** Re-adding an element whose serialisation is present changes nothing,
      so the size stays the same; adding a new one grows the size by one. */
  lemma AddSize<T>(s: ObjectSet, x: T, ser: T -> string)
    requires s.Valid()
    ensures Has(s, x, ser) ==> Add(s, x, ser) == s && Size(Add(s, x, ser)) == Size(s)
    ensures !Has(s, x, ser) ==> Size(Add(s, x, ser)) == Size(s) + 1
  {
  }

  /** Two elements with equal serialisations are the same member. */
  lemma SameSerialisation<T>(s: ObjectSet, x: T, y: T, ser: T -> string)
    requires s.Valid()
    requires ser(x) == ser(y)
    ensures Has(s, x, ser) == Has(s, y, ser)
    ensures Add(s, x, ser) == Add(s, y, ser)
    ensures Delete(s, x, ser) == Delete(s, y, ser)
    ensures Has(Add(s, x, ser), y, ser)
    ensures !Has(Delete(s, x, ser).0, y, ser)
  {
  }

  /** Deleting what was just added removes it again; deleting from a set that
      never had it reports `false` and changes nothing. */
  lemma DeleteAfterAdd<T>(s: ObjectSet, x: T, ser: T -> string)
    requires s.Valid()
    ensures Delete(Add(s, x, ser), x, ser).1
    ensures !Has(s, x, ser) ==> Delete(Add(s, x, ser), x, ser).0 == s
    ensures !Has(s, x, ser) ==> Delete(s, x, ser) == (s, false)
  {
    var key := ser(x);
    if !Has(s, x, ser) {
      FilterAll(s.members, k => k != key);
      FilterConcat(s.members, [key], k => k != key);
      FilterSingleton(key, k => k != key);
      assert s.members + [] == s.members;
    }
  }

  /** `delete` keeps the other keys, and so `getAllData`, in their order:
      it distributes over a split of the keys and keeps a single key exactly
      when it is not the deleted one. */
  lemma DeleteKeepsOrder<T>(a: seq<string>, b: seq<string>, k: string, x: T, ser: T -> string)
    requires ObjectSet(a + b).Valid()
    ensures ObjectSet(a).Valid() && ObjectSet(b).Valid()
    ensures Delete(ObjectSet(a + b), x, ser).0.members
         == Delete(ObjectSet(a), x, ser).0.members + Delete(ObjectSet(b), x, ser).0.members
    ensures Delete(ObjectSet([k]), x, ser).0.members == if k != ser(x) then [k] else []
  {
    var key := ser(x);
    forall i, j | 0 <= i < j < |a| ensures a[i] != a[j] {
      assert (a + b)[i] == a[i] && (a + b)[j] == a[j];
    }
    forall i, j | 0 <= i < j < |b| ensures b[i] != b[j] {
      assert (a + b)[|a| + i] == b[i] && (a + b)[|a| + j] == b[j];
    }
    FilterConcat(a, b, k => k != key);
    FilterSingleton(k, k => k != key);
  }

  /** `getAllData` lists elements in the order they were first added. */
  lemma GetAllDataOrder<T>(xs: seq<T>, ser: T -> string, parse: string -> T)
    ensures GetAllData(AddAll(Empty, xs, ser), parse) == Map(Dedup(Map(xs, ser)), parse)
  {
    AddAllMembers(Empty, xs, ser);
    assert Empty.members + Map(xs, ser) == Map(xs, ser);
  }
}
