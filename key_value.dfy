/** The key/value pair that the wrapper's queries hand out (src/tuple.ts). */
module KeyValue {

  /** One key/value association. Both fields are fixed at construction and
      never change: a datatype value has no state to update. */
  datatype Tuple<K, V> = Tuple(key: K, value: V)
  {
    /** The pair as a native two-element tuple: component 0 is the key,
        component 1 the value. */
    function ToNativeTuple(): (pair: (K, V))
      ensures pair.0 == key && pair.1 == value
    {
      (key, value)
    }
  }

  /** The constructor stores its first argument as the key and its second as
      the value, and the native tuple of the result is the argument pair. */
  lemma ConstructorStoresArguments<K, V>(k: K, v: V)
    ensures Tuple(k, v).key == k && Tuple(k, v).value == v
    ensures Tuple(k, v).ToNativeTuple() == (k, v)
  {
  }

  /** No information is lost by the conversion: two tuples with equal native
      tuples are equal, and converting twice gives equal results. */
  lemma ToNativeTupleInjective<K, V>(a: Tuple<K, V>, b: Tuple<K, V>)
    ensures a.ToNativeTuple() == b.ToNativeTuple() <==> a == b
  {
  }
}
