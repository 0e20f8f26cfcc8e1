/** The MapWrapper class of src/map-wrapper.ts: a wrapper around one
    JavaScript Map that passes get/set/has/size/delete/clear through to it and
    adds array-style queries; tuples, find, filter, map and some each update an
    accumulator in one forEach scan over the entries. */
module MapWrappers {
  import opened KeyValue
  import opened MapEntries

  /** The outcome of construction: the source throws on a bad argument. */
  datatype Result<T> = Success(value: T) | Failure(error: string)

  /** What a caller may pass to the constructor. Every falsy value (absent,
      undefined, null, 0, "", false) behaves alike; every truthy value that is
      not a Map (object, string, number, array) behaves alike. */
  datatype Argument<K, V> = Falsy | JsMap(entries: seq<(K, V)>) | OtherTruthy

  /** The message of the constructor's error. */
  const NotAMapMessage := "Value provided must be instance of Map"

  /** The argument the constructor goes on with: a falsy one is replaced by a
      new empty Map. */
  function Defaulted<K, V>(arg: Argument<K, V>): (m: Argument<K, V>)
    ensures !m.Falsy?
    ensures m.JsMap? <==> !arg.OtherTruthy?
    ensures m.JsMap? ==> m.entries == if arg.JsMap? then arg.entries else []
  {
    if arg.Falsy? then JsMap([]) else arg
  }

  class MapWrapper<K(==), V> {
    /** The wrapped Map's entries, in insertion order. */
    var data: seq<(K, V)>

    /** A Map never holds a key twice. */
    ghost predicate Valid()
      reads this
    {
      DistinctKeys(data)
    }

    /** Wraps a Map with the given entries. */
    constructor (entries: seq<(K, V)>)
      requires DistinctKeys(entries)
      ensures Valid() && data == entries
    {
      data := entries;
    }

    /** The constructor as the source defines it: a falsy argument gives an
        empty wrapper, a Map is wrapped, anything else fails the type guard
        `isMapType` (a truthy Map instance) and is an error. */
    static method Create(arg: Argument<K, V>) returns (r: Result<MapWrapper<K, V>>)
      requires arg.JsMap? ==> DistinctKeys(arg.entries)
      ensures r.Failure? <==> arg.OtherTruthy?
      ensures r.Failure? ==> r.error == NotAMapMessage
      ensures r.Success? ==> fresh(r.value) && r.value.Valid()
      ensures r.Success? && arg.Falsy? ==> r.value.data == []
      ensures r.Success? && arg.JsMap? ==> r.value.data == arg.entries
    {
      var m := Defaulted(arg);
      if !m.JsMap? {
        return Failure(NotAMapMessage);
      }
      var w := new MapWrapper(m.entries);
      return Success(w);
    }

    /** get: the value stored under `key`, or nothing. */
    function Get(key: K): (r: Option<V>)
      reads this
      ensures r.Some? <==> HasKey(data, key)
      ensures r.Some? ==> (key, r.value) in data
    {
      LookupFindsStoredValue(data, key);
      Lookup(data, key)
    }

    /** has: whether some entry has key `key`. */
    function Has(key: K): (b: bool)
      reads this
      ensures b <==> exists i :: 0 <= i < |data| && data[i].0 == key
    {
      Get(key).Some?
    }

    /** size: the number of distinct keys stored. */
    function Size(): (n: nat)
      reads this
      requires Valid()
      ensures n == |KeySet(data)|
    {
      KeySetSize(data);
      |data|
    }

    /** set: overwrites the value of a present key in place, or appends a new
        entry; no other entry changes. */
    method Set(key: K, value: V)
      requires Valid()
      modifies this
      ensures Valid()
      ensures data == Put(old(data), key, value)
      ensures Get(key) == Option.Some(value) && Has(key)
      ensures forall k :: k != key ==> Get(k) == Lookup(old(data), k)
      ensures forall i :: 0 <= i < |old(data)| && old(data)[i].0 == key ==>
                data == old(data)[i := (key, value)]
      ensures !old(Has(key)) ==> data == old(data) + [(key, value)]
      ensures Size() == if old(Has(key)) then old(Size()) else old(Size()) + 1
    {
      ghost var before := data;
      PutKeepsDistinct(data, key, value);
      data := Put(data, key, value);
      forall k
        ensures Lookup(data, k) == if k == key then Option.Some(value) else Lookup(before, k)
      {
        LookupAfterPut(before, key, value, k);
      }
      forall i | 0 <= i < |before| && before[i].0 == key
        ensures data == before[i := (key, value)]
      {
        PutPresent(before, key, value, i);
      }
      if !HasKey(before, key) {
        PutAbsent(before, key, value);
      }
    }

    /** delete: removes the entry for `key`, keeping the order of the rest;
        nothing happens when the key is absent. */
    method Delete(key: K)
      requires Valid()
      modifies this
      ensures Valid()
      ensures data == Remove(old(data), key)
      ensures Get(key) == None && !Has(key)
      ensures forall k :: k != key ==> Get(k) == Lookup(old(data), k)
      ensures forall i :: 0 <= i < |old(data)| && old(data)[i].0 == key ==>
                data == old(data)[..i] + old(data)[i + 1..]
      ensures !old(Has(key)) ==> data == old(data)
      ensures Size() == if old(Has(key)) then old(Size()) - 1 else old(Size())
    {
      ghost var before := data;
      RemoveKeepsDistinct(data, key);
      data := Remove(data, key);
      forall k
        ensures Lookup(data, k) == if k == key then None else Lookup(before, k)
      {
        LookupAfterRemove(before, key, k);
      }
      forall i | 0 <= i < |before| && before[i].0 == key
        ensures data == before[..i] + before[i + 1..]
      {
        RemovePresent(before, key, i);
      }
      if !HasKey(before, key) {
        RemoveAbsent(before, key);
      }
    }

    /** clear: removes every entry. */
    method Clear()
      modifies this
      ensures Valid() && data == []
      ensures Size() == 0 && forall k :: !Has(k)
    {
      data := [];
    }

    /** tuples: one Tuple per entry, in insertion order. */
    method Tuples() returns (ts: seq<Tuple<K, V>>)
      ensures |ts| == |data|
      ensures forall i :: 0 <= i < |ts| ==> ts[i].key == data[i].0 && ts[i].value == data[i].1
      ensures forall i :: 0 <= i < |ts| ==> ts[i].ToNativeTuple() == data[i]
    {
      ts := [];
      for i := 0 to |data|
        invariant |ts| == i
        invariant forall j :: 0 <= j < i ==> ts[j] == TupleOf(data[j])
      {
        ts := ts + [Tuple(data[i].0, data[i].1)];
      }
    }

    /** forEach: runs `callback` once per entry, in insertion order. The
        callback's effect is made explicit as a state it transforms; the
        method returns the final state. */
    method ForEach<S>(callback: (S, V, K) -> S, init: S) returns (state: S)
      ensures state == FoldEntries(data, callback, init)
    {
      state := init;
      for i := 0 to |data|
        invariant state == FoldEntries(data[..i], callback, init)
      {
        assert data[..i + 1][..i] == data[..i];
        state := callback(state, data[i].1, data[i].0);
      }
      assert data[..|data|] == data;
    }

    /** find as the source implements it: the scan is not stopped by a match,
        so every match overwrites the previous one and the result is the
        tuple of the LAST entry satisfying `p`, or nothing. */
    method Find(p: (V, K) -> bool) returns (t: Option<Tuple<K, V>>)
      ensures t == LastMatch(data, p)
      ensures t.None? <==> forall i :: 0 <= i < |data| ==> !Satisfies(p, data[i])
      ensures t.Some? ==>
                exists i :: 0 <= i < |data| && Satisfies(p, data[i])
                            && t.value == TupleOf(data[i])
                            && forall j :: i < j < |data| ==> !Satisfies(p, data[j])
    {
      t := None;
      for i := 0 to |data|
        invariant t == LastMatch(data[..i], p)
      {
        assert data[..i + 1][..i] == data[..i];
        if p(data[i].1, data[i].0) {
          t := Option.Some(Tuple(data[i].0, data[i].1));
        }
      }
      assert data[..|data|] == data;
      LastMatchSpec(data, p);
    }

    /** find as its documentation describes it: the tuple of the FIRST entry
        satisfying `p`, stopping the scan there, or nothing. */
    method FindFirst(p: (V, K) -> bool) returns (t: Option<Tuple<K, V>>)
      ensures t == FirstMatch(data, p)
      ensures t.None? <==> forall i :: 0 <= i < |data| ==> !Satisfies(p, data[i])
      ensures t.Some? ==>
                exists i :: 0 <= i < |data| && Satisfies(p, data[i])
                            && t.value == TupleOf(data[i])
                            && forall j :: 0 <= j < i ==> !Satisfies(p, data[j])
    {
      FirstMatchSpec(data, p);
      var i := 0;
      while i < |data|
        invariant 0 <= i <= |data|
        invariant FirstMatch(data[i..], p) == FirstMatch(data, p)
      {
        if p(data[i].1, data[i].0) {
          return Option.Some(Tuple(data[i].0, data[i].1));
        }
        assert data[i..][1..] == data[i + 1..];
        i := i + 1;
      }
      return None;
    }

    /** filter: a new wrapper holding exactly the entries satisfying `p`, in
        their original order; the receiver is left as it was. */
    method Filter(p: (V, K) -> bool) returns (w: MapWrapper<K, V>)
      requires Valid()
      ensures fresh(w) && w.Valid()
      ensures w.data == FilterEntries(data, p)
      ensures forall k :: w.Get(k) == if Get(k).Some? && p(Get(k).value, k) then Get(k) else None
    {
      w := new MapWrapper([]);
      for i := 0 to |data|
        invariant fresh(w) && w.Valid()
        invariant w.data == FilterEntries(data[..i], p)
      {
        FilterStep(data, p, i);
        if p(data[i].1, data[i].0) {
          w.Set(data[i].0, data[i].1);
        }
      }
      assert data[..|data|] == data;
      forall k
        ensures Lookup(w.data, k) == if Lookup(data, k).Some? && p(Lookup(data, k).value, k)
                                     then Lookup(data, k) else None
      {
        LookupAfterFilter(data, p, k);
      }
    }

    /** map: the callback's result for each entry, in insertion order. */
    method Map<M>(f: (V, K) -> M) returns (r: seq<M>)
      ensures |r| == |data|
      ensures forall i :: 0 <= i < |r| ==> r[i] == f(data[i].1, data[i].0)
    {
      r := [];
      for i := 0 to |data|
        invariant |r| == i
        invariant forall j :: 0 <= j < i ==> r[j] == f(data[j].1, data[j].0)
      {
        r := r + [f(data[i].1, data[i].0)];
      }
    }

    /** some: whether any entry satisfies `p`. The scan runs to the end; the
        flag only ever goes from false to true. */
    method Some(p: (V, K) -> bool) returns (b: bool)
      ensures b <==> exists i :: 0 <= i < |data| && Satisfies(p, data[i])
      ensures b <==> LastMatch(data, p).Some?
    {
      b := false;
      for i := 0 to |data|
        invariant b <==> exists j :: 0 <= j < i && Satisfies(p, data[j])
      {
        if p(data[i].1, data[i].0) {
          b := true;
        }
      }
      AnyMatchIffLastMatch(data, p);
    }
  }
}
