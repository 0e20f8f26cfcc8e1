/** The behaviours that src/map-wrapper.spec.ts checks, derived from the
    contracts of MapWrapper alone. */
module MapWrapperCases {
  import opened KeyValue
  import opened MapEntries
  import opened MapWrappers

  method ConstructionRejectsNonMaps()
  {
    var bad := MapWrapper<string, int>.Create(OtherTruthy);
    assert bad.Failure?;
    var none := MapWrapper<string, int>.Create(Falsy);
    assert none.Success? && none.value.Size() == 0;
  }

  method FindOnEmptyMap()
  {
    var w := new MapWrapper<string, string>([]);
    var t := w.Find((v: string, k: string) => true);
    assert t == None;
  }

  method FindByValueAndByKey()
  {
    var w := new MapWrapper([("first", "first value"), ("second", "second value"),
                             ("third", "third value")]);
    var byValue := w.Find((v: string, k: string) => v == "second value");
    assert byValue == Option.Some(Tuple("second", "second value"));
    var byKey := w.Find((v: string, k: string) => k == "second");
    assert byKey == Option.Some(Tuple("second", "second value"));
  }

  method SomeByKey()
  {
    var w := new MapWrapper([("first", 1), ("second", 2), ("third", 3)]);
    var yes := w.Some((v: int, k: string) => k == "third");
    assert Satisfies((v: int, k: string) => k == "third", w.data[2]);
    assert yes;
    var no := w.Some((v: int, k: string) => k == "fourth");
    assert !no;
  }

  method FilterOnEmptyMap()
  {
    var w := new MapWrapper<string, int>([]);
    var f := w.Filter((v: int, k: string) => true);
    assert f.Size() == 0;
  }

  /** The nine entries of the source's filter scenario, values 1 to 9. */
  const Numbers: seq<(string, int)> :=
    [("uno", 1), ("dos", 2), ("tres", 3), ("quatro", 4), ("cinco", 5),
     ("seis", 6), ("siete", 7), ("ocho", 8), ("nueve", 9)]

  /** Wraps Numbers and filters it with `value > 6`; what get returns on the
      result, entry by entry, follows from Filter's contract. */
  method FilterNumbers() returns (big: MapWrapper<string, int>)
    ensures forall i :: 0 <= i < |Numbers| ==>
              big.Get(Numbers[i].0) == if Numbers[i].1 > 6 then Option.Some(Numbers[i].1) else None
  {
    assert DistinctKeys(Numbers) by {
      // Each key is told apart by its first letter, or by its second after an 's'.
      var tags := ['u', 'd', 't', 'q', 'c', 'e', 'i', 'o', 'n'];
      forall i, j | 0 <= i < j < |Numbers|
        ensures Numbers[i].0 != Numbers[j].0
      {
        assert Numbers[i].0[0] == 's' ==> Numbers[i].0[1] == tags[i];
        assert Numbers[i].0[0] != 's' ==> Numbers[i].0[0] == tags[i];
      }
    }
    var w := new MapWrapper(Numbers);
    big := w.Filter((v: int, k: string) => v > 6);
    forall i | 0 <= i < |Numbers|
      ensures big.Get(Numbers[i].0) == if Numbers[i].1 > 6 then Option.Some(Numbers[i].1) else None
    {
      LookupAt(Numbers, i);
    }
  }

  method FilterDropsSmallValues()
  {
    var big := FilterNumbers();
    assert Numbers[0].0 == "uno" && Numbers[1].0 == "dos" && Numbers[2].0 == "tres";
    assert big.Get("uno") == None && big.Get("dos") == None && big.Get("tres") == None;
    assert Numbers[3].0 == "quatro" && Numbers[4].0 == "cinco" && Numbers[5].0 == "seis";
    assert big.Get("quatro") == None && big.Get("cinco") == None && big.Get("seis") == None;
  }

  method FilterKeepsLargeValues()
  {
    var big := FilterNumbers();
    assert Numbers[6].0 == "siete" && Numbers[7].0 == "ocho" && Numbers[8].0 == "nueve";
    assert big.Get("siete") == Option.Some(7);
    assert big.Get("ocho") == Option.Some(8);
    assert big.Get("nueve") == Option.Some(9);
  }

  method MapOnEmptyMap()
  {
    var w := new MapWrapper<string, int>([]);
    var r := w.Map((v: int, k: string) => v * v);
    assert r == [];
  }

  method SomeOnEmptyMap()
  {
    var w := new MapWrapper<string, int>([]);
    var b := w.Some((v: int, k: string) => true);
    assert !b;
  }

  method TuplesInOrder()
  {
    var w := new MapWrapper([("first", 1), ("second", 2), ("third", 3)]);
    var ts := w.Tuples();
    assert ts[0] == Tuple("first", 1) && ts[2] == Tuple("third", 3);
    w.Clear();
    var none := w.Tuples();
    assert none == [];
  }
}
