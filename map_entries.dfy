/** The JavaScript Map that a MapWrapper holds, as a value: the sequence of its
    (key, value) entries in insertion order. A Map never holds two entries with
    the same key (DistinctKeys). The functions here say what the Map's own
    operations and the wrapper's scans compute; the lemmas state what they
    promise. */
module MapEntries {
  import opened KeyValue

  /** "No value": `undefined` from Map.get, `null` from find. */
  datatype Option<T> = None | Some(value: T)

  /** No key occurs twice. */
  predicate DistinctKeys<K(==), V>(s: seq<(K, V)>)
  {
    forall i, j :: 0 <= i < j < |s| ==> s[i].0 != s[j].0
  }

  /** Some entry has key `k`. */
  predicate HasKey<K(==), V>(s: seq<(K, V)>, k: K)
  {
    exists i :: 0 <= i < |s| && s[i].0 == k
  }

  /** A callback's verdict on one entry; callbacks receive (value, key). */
  predicate Satisfies<K, V>(p: (V, K) -> bool, e: (K, V))
  {
    p(e.1, e.0)
  }

  /** The tuple the wrapper builds from one entry. */
  function TupleOf<K, V>(e: (K, V)): Tuple<K, V>
  {
    Tuple(e.0, e.1)
  }

  /** Map.prototype.get: the value stored under `k`, if any. */
  function Lookup<K(==), V>(s: seq<(K, V)>, k: K): Option<V>
  {
    if s == [] then None
    else if s[0].0 == k then Some(s[0].1)
    else Lookup(s[1..], k)
  }

  /** Map.prototype.set: an existing key keeps its position and gets the new
      value; a new key is appended. */
  function Put<K(==), V>(s: seq<(K, V)>, k: K, v: V): seq<(K, V)>
  {
    if s == [] then [(k, v)]
    else if s[0].0 == k then [(k, v)] + s[1..]
    else [s[0]] + Put(s[1..], k, v)
  }

  /** Map.prototype.delete: drops the entry for `k`, if there is one. */
  function Remove<K(==), V>(s: seq<(K, V)>, k: K): seq<(K, V)>
  {
    if s == [] then []
    else if s[0].0 == k then s[1..]
    else [s[0]] + Remove(s[1..], k)
  }

  /** The entries a scan keeps when it keeps those satisfying `p`, visiting
      them in insertion order. */
  function FilterEntries<K, V>(s: seq<(K, V)>, p: (V, K) -> bool): seq<(K, V)>
  {
    if s == [] then []
    else FilterEntries(s[..|s| - 1], p)
         + (if Satisfies(p, s[|s| - 1]) then [s[|s| - 1]] else [])
  }

  /** What a full scan that overwrites its result on every match ends with:
      the tuple of the last entry satisfying `p`. */
  function LastMatch<K, V>(s: seq<(K, V)>, p: (V, K) -> bool): Option<Tuple<K, V>>
  {
    if s == [] then None
    else if Satisfies(p, s[|s| - 1]) then Some(TupleOf(s[|s| - 1]))
    else LastMatch(s[..|s| - 1], p)
  }

  /** What a scan that stops at the first match returns. */
  function FirstMatch<K, V>(s: seq<(K, V)>, p: (V, K) -> bool): Option<Tuple<K, V>>
  {
    if s == [] then None
    else if Satisfies(p, s[0]) then Some(TupleOf(s[0]))
    else FirstMatch(s[1..], p)
  }

  /** The state reached by running `step` on every entry in insertion order,
      starting from `init`; `step` receives (state, value, key). */
  function FoldEntries<K, V, S>(s: seq<(K, V)>, step: (S, V, K) -> S, init: S): S
  {
    if s == [] then init
    else step(FoldEntries(s[..|s| - 1], step, init), s[|s| - 1].1, s[|s| - 1].0)
  }

  /** A callback whose only effect is to record the entry it is called on. */
  function LogEntry<K, V>(log: seq<(K, V)>, value: V, key: K): seq<(K, V)>
  {
    log + [(key, value)]
  }

  /** The set of keys stored. */
  ghost function KeySet<K, V>(s: seq<(K, V)>): set<K>
  {
    if s == [] then {} else KeySet(s[..|s| - 1]) + {s[|s| - 1].0}
  }

  // ---------------------------------------------------------------------
  // Helpers about the shape of the sequence

  lemma HasKeyTail<K, V>(s: seq<(K, V)>, k: K)
    requires s != []
    ensures HasKey(s, k) <==> s[0].0 == k || HasKey(s[1..], k)
  {
    if HasKey(s, k) && s[0].0 != k {
      var i :| 0 <= i < |s| && s[i].0 == k;
      assert s[1..][i - 1].0 == k;
    }
    if HasKey(s[1..], k) {
      var i :| 0 <= i < |s| - 1 && s[1..][i].0 == k;
      assert s[i + 1].0 == k;
    }
  }

  lemma DistinctTail<K, V>(s: seq<(K, V)>)
    requires s != [] && DistinctKeys(s)
    ensures DistinctKeys(s[1..]) && !HasKey(s[1..], s[0].0)
  {
    forall i, j | 0 <= i < j < |s| - 1
      ensures s[1..][i].0 != s[1..][j].0
    {
      assert s[1..][i] == s[i + 1] && s[1..][j] == s[j + 1];
    }
    forall i | 0 <= i < |s| - 1
      ensures s[1..][i].0 != s[0].0
    {
      assert s[1..][i] == s[i + 1];
    }
  }

  lemma DistinctInit<K, V>(s: seq<(K, V)>)
    requires s != [] && DistinctKeys(s)
    ensures DistinctKeys(s[..|s| - 1]) && !HasKey(s[..|s| - 1], s[|s| - 1].0)
  {
  }

  lemma DistinctAppend<K, V>(s: seq<(K, V)>, e: (K, V))
    requires DistinctKeys(s) && !HasKey(s, e.0)
    ensures DistinctKeys(s + [e])
  {
    forall i, j | 0 <= i < j < |s| + 1
      ensures (s + [e])[i].0 != (s + [e])[j].0
    {
      if j == |s| {
        assert (s + [e])[i] == s[i];
      }
    }
  }

  // ---------------------------------------------------------------------
  // get

  /** Map.get finds a value exactly when the key is present, and that value
      is stored under the key. */
  lemma {:induction false} LookupFindsStoredValue<K, V>(s: seq<(K, V)>, k: K)
    ensures Lookup(s, k).Some? <==> HasKey(s, k)
    ensures Lookup(s, k).Some? ==> (k, Lookup(s, k).value) in s
  {
    if s != [] {
      HasKeyTail(s, k);
      if s[0].0 != k {
        LookupFindsStoredValue(s[1..], k);
      }
    }
  }

  /** With distinct keys, the entry at position i is what Map.get returns for
      its key. */
  lemma {:induction false} LookupAt<K, V>(s: seq<(K, V)>, i: nat)
    requires DistinctKeys(s) && i < |s|
    ensures Lookup(s, s[i].0) == Some(s[i].1)
  {
    if i > 0 {
      DistinctTail(s);
      assert s[0].0 != s[i].0;
      assert s[1..][i - 1] == s[i];
      LookupAt(s[1..], i - 1);
    }
  }

  /** With distinct keys, Map.get(k) returns v exactly when (k, v) is stored. */
  lemma LookupIffStored<K, V>(s: seq<(K, V)>, k: K, v: V)
    requires DistinctKeys(s)
    ensures Lookup(s, k) == Some(v) <==> (k, v) in s
  {
    LookupFindsStoredValue(s, k);
    if (k, v) in s {
      var i :| 0 <= i < |s| && s[i] == (k, v);
      LookupAt(s, i);
    }
  }

  // ---------------------------------------------------------------------
  // set

  /** After set(k, v), get(k) is v and every other key reads as before. */
  lemma {:induction false} LookupAfterPut<K, V>(s: seq<(K, V)>, k: K, v: V, k': K)
    ensures Lookup(Put(s, k, v), k') == if k' == k then Some(v) else Lookup(s, k')
  {
    if s == [] {
      assert Put(s, k, v)[1..] == [];
    } else if s[0].0 == k {
      assert Put(s, k, v)[1..] == s[1..];
    } else {
      assert Put(s, k, v)[1..] == Put(s[1..], k, v);
      LookupAfterPut(s[1..], k, v, k');
    }
  }

  /** set on a present key overwrites that entry in place and changes
      nothing else. */
  lemma {:induction false} PutPresent<K, V>(s: seq<(K, V)>, k: K, v: V, i: nat)
    requires DistinctKeys(s) && i < |s| && s[i].0 == k
    ensures Put(s, k, v) == s[i := (k, v)]
  {
    if i > 0 {
      DistinctTail(s);
      assert s[1..][i - 1] == s[i];
      PutPresent(s[1..], k, v, i - 1);
      assert s[i := (k, v)] == [s[0]] + s[1..][i - 1 := (k, v)];
    }
  }

  /** set on an absent key appends the new entry. */
  lemma {:induction false} PutAbsent<K, V>(s: seq<(K, V)>, k: K, v: V)
    requires !HasKey(s, k)
    ensures Put(s, k, v) == s + [(k, v)]
  {
    if s != [] {
      HasKeyTail(s, k);
      PutAbsent(s[1..], k, v);
      assert s + [(k, v)] == [s[0]] + (s[1..] + [(k, v)]);
    }
  }

  /** set keeps the Map's keys unique. */
  lemma PutKeepsDistinct<K, V>(s: seq<(K, V)>, k: K, v: V)
    requires DistinctKeys(s)
    ensures DistinctKeys(Put(s, k, v))
  {
    if HasKey(s, k) {
      var i :| 0 <= i < |s| && s[i].0 == k;
      PutPresent(s, k, v, i);
      assert forall j :: 0 <= j < |s| ==> s[i := (k, v)][j].0 == s[j].0;
    } else {
      PutAbsent(s, k, v);
      DistinctAppend(s, (k, v));
    }
  }

  // ---------------------------------------------------------------------
  // delete

  /** delete on a present key removes exactly that entry, keeping the order
      of the others. */
  lemma {:induction false} RemovePresent<K, V>(s: seq<(K, V)>, k: K, i: nat)
    requires DistinctKeys(s) && i < |s| && s[i].0 == k
    ensures Remove(s, k) == s[..i] + s[i + 1..]
  {
    if i > 0 {
      DistinctTail(s);
      assert s[1..][i - 1] == s[i];
      RemovePresent(s[1..], k, i - 1);
      assert s[..i] + s[i + 1..] == [s[0]] + (s[1..][..i - 1] + s[1..][i..]);
    }
  }

  /** delete on an absent key changes nothing. */
  lemma {:induction false} RemoveAbsent<K, V>(s: seq<(K, V)>, k: K)
    requires !HasKey(s, k)
    ensures Remove(s, k) == s
  {
    if s != [] {
      HasKeyTail(s, k);
      RemoveAbsent(s[1..], k);
    }
  }

  /** After delete(k), get(k) finds nothing and every other key reads as
      before. */
  lemma {:induction false} LookupAfterRemove<K, V>(s: seq<(K, V)>, k: K, k': K)
    requires DistinctKeys(s)
    ensures Lookup(Remove(s, k), k') == if k' == k then None else Lookup(s, k')
  {
    if s != [] {
      DistinctTail(s);
      if s[0].0 == k {
        LookupFindsStoredValue(s[1..], k);
      } else {
        assert Remove(s, k)[1..] == Remove(s[1..], k);
        LookupAfterRemove(s[1..], k, k');
      }
    }
  }

  /** delete keeps the Map's keys unique. */
  lemma RemoveKeepsDistinct<K, V>(s: seq<(K, V)>, k: K)
    requires DistinctKeys(s)
    ensures DistinctKeys(Remove(s, k))
  {
    if HasKey(s, k) {
      var i :| 0 <= i < |s| && s[i].0 == k;
      RemovePresent(s, k, i);
      var r := s[..i] + s[i + 1..];
      forall a, b | 0 <= a < b < |r|
        ensures r[a].0 != r[b].0
      {
        var a' := if a < i then a else a + 1;
        var b' := if b < i then b else b + 1;
        assert r[a] == s[a'] && r[b] == s[b'];
      }
    } else {
      RemoveAbsent(s, k);
    }
  }

  /** Deleting the same key twice is the same as deleting it once. */
  lemma RemoveIdempotent<K, V>(s: seq<(K, V)>, k: K)
    requires DistinctKeys(s)
    ensures Remove(Remove(s, k), k) == Remove(s, k)
  {
    LookupAfterRemove(s, k, k);
    LookupFindsStoredValue(Remove(s, k), k);
    RemoveAbsent(Remove(s, k), k);
  }

  // ---------------------------------------------------------------------
  // size

  /** size counts distinct keys: with unique keys, one per entry. */
  lemma {:induction false} KeySetSize<K, V>(s: seq<(K, V)>)
    requires DistinctKeys(s)
    ensures forall k :: k in KeySet(s) <==> HasKey(s, k)
    ensures |KeySet(s)| == |s|
  {
    if s != [] {
      var init := s[..|s| - 1];
      DistinctInit(s);
      KeySetSize(init);
      forall k
        ensures HasKey(s, k) <==> HasKey(init, k) || k == s[|s| - 1].0
      {
        if HasKey(s, k) && k != s[|s| - 1].0 {
          var i :| 0 <= i < |s| && s[i].0 == k;
          assert init[i] == s[i];
        }
      }
    }
  }

  // ---------------------------------------------------------------------
  // filter

  /** The kept entries are exactly the stored entries satisfying `p`. */
  lemma {:induction false} FilterMembership<K, V>(s: seq<(K, V)>, p: (V, K) -> bool, e: (K, V))
    ensures e in FilterEntries(s, p) <==> e in s && Satisfies(p, e)
  {
    if s != [] {
      FilterMembership(s[..|s| - 1], p, e);
      assert s == s[..|s| - 1] + [s[|s| - 1]];
    }
  }

  /** The scan keeps relative order: filtering a concatenation is the
      concatenation of the filtered parts. */
  lemma {:induction false} FilterAppend<K, V>(a: seq<(K, V)>, b: seq<(K, V)>, p: (V, K) -> bool)
    ensures FilterEntries(a + b, p) == FilterEntries(a, p) + FilterEntries(b, p)
  {
    if b == [] {
      assert a + b == a;
    } else {
      var b' := b[..|b| - 1];
      assert (a + b)[..|a + b| - 1] == a + b';
      assert (a + b)[|a + b| - 1] == b[|b| - 1];
      FilterAppend(a, b', p);
    }
  }

  /** Filtering only removes keys. */
  lemma FilterKeys<K, V>(s: seq<(K, V)>, p: (V, K) -> bool, k: K)
    ensures HasKey(FilterEntries(s, p), k) ==> HasKey(s, k)
  {
    var f := FilterEntries(s, p);
    if HasKey(f, k) {
      var i :| 0 <= i < |f| && f[i].0 == k;
      FilterMembership(s, p, f[i]);
    }
  }

  /** The filtered entries form a valid Map: keys stay unique. */
  lemma {:induction false} FilterKeepsDistinct<K, V>(s: seq<(K, V)>, p: (V, K) -> bool)
    requires DistinctKeys(s)
    ensures DistinctKeys(FilterEntries(s, p))
  {
    if s != [] {
      var init := s[..|s| - 1];
      DistinctInit(s);
      FilterKeepsDistinct(init, p);
      FilterKeys(init, p, s[|s| - 1].0);
      if Satisfies(p, s[|s| - 1]) {
        DistinctAppend(FilterEntries(init, p), s[|s| - 1]);
      }
    }
  }

  /** One step of filter's scan: the entry at `i` is kept by setting it into
      the new Map, where its key is not yet present, so set appends it. */
  lemma FilterStep<K, V>(s: seq<(K, V)>, p: (V, K) -> bool, i: nat)
    requires DistinctKeys(s) && i < |s|
    ensures FilterEntries(s[..i + 1], p)
            == if Satisfies(p, s[i]) then Put(FilterEntries(s[..i], p), s[i].0, s[i].1)
               else FilterEntries(s[..i], p)
  {
    assert s[..i + 1][..i] == s[..i];
    if Satisfies(p, s[i]) {
      DistinctInit(s[..i + 1]);
      FilterKeys(s[..i], p, s[i].0);
      PutAbsent(FilterEntries(s[..i], p), s[i].0, s[i].1);
    }
  }

  /** get on the filtered Map returns the original value when it satisfies
      `p`, and nothing otherwise. */
  lemma LookupAfterFilter<K, V>(s: seq<(K, V)>, p: (V, K) -> bool, k: K)
    requires DistinctKeys(s)
    ensures Lookup(FilterEntries(s, p), k)
            == if Lookup(s, k).Some? && p(Lookup(s, k).value, k) then Lookup(s, k) else None
  {
    FilterKeepsDistinct(s, p);
    var f := FilterEntries(s, p);
    LookupFindsStoredValue(f, k);
    if Lookup(f, k).Some? {
      var v := Lookup(f, k).value;
      FilterMembership(s, p, (k, v));
      LookupIffStored(s, k, v);
    }
    LookupFindsStoredValue(s, k);
    if Lookup(s, k).Some? {
      var v := Lookup(s, k).value;
      FilterMembership(s, p, (k, v));
      if p(v, k) {
        LookupIffStored(f, k, v);
      }
    }
  }

  /** Filtering twice with the same predicate is filtering once. */
  lemma {:induction false} FilterIdempotent<K, V>(s: seq<(K, V)>, p: (V, K) -> bool)
    ensures FilterEntries(FilterEntries(s, p), p) == FilterEntries(s, p)
  {
    if s != [] {
      var init := s[..|s| - 1];
      var tail := if Satisfies(p, s[|s| - 1]) then [s[|s| - 1]] else [];
      FilterIdempotent(init, p);
      FilterAppend(FilterEntries(init, p), tail, p);
      if tail != [] {
        assert tail[..0] == [];
      }
    }
  }

  // ---------------------------------------------------------------------
  // find

  /** The full scan returns nothing exactly when no entry satisfies `p`;
      otherwise it returns the tuple of a satisfying entry after which no
      entry satisfies `p` (the last match). */
  lemma {:induction false} LastMatchSpec<K, V>(s: seq<(K, V)>, p: (V, K) -> bool)
    ensures LastMatch(s, p).None? <==> forall i :: 0 <= i < |s| ==> !Satisfies(p, s[i])
    ensures LastMatch(s, p).Some? ==>
              exists i :: 0 <= i < |s| && Satisfies(p, s[i])
                          && LastMatch(s, p).value == TupleOf(s[i])
                          && forall j :: i < j < |s| ==> !Satisfies(p, s[j])
  {
    if s != [] {
      var n := |s| - 1;
      if Satisfies(p, s[n]) {
        assert LastMatch(s, p).value == TupleOf(s[n]);
      } else {
        var init := s[..n];
        LastMatchSpec(init, p);
        assert forall i :: 0 <= i < n ==> init[i] == s[i];
        if LastMatch(s, p).Some? {
          var i :| 0 <= i < n && Satisfies(p, init[i])
                   && LastMatch(init, p).value == TupleOf(init[i])
                   && forall j :: i < j < n ==> !Satisfies(p, init[j]);
          assert Satisfies(p, s[i]) && LastMatch(s, p).value == TupleOf(s[i]);
        } else {
          forall i | 0 <= i < |s|
            ensures !Satisfies(p, s[i])
          {
            if i < n {
              assert init[i] == s[i];
            }
          }
        }
      }
    }
  }

  /** The stopping scan returns nothing exactly when no entry satisfies `p`;
      otherwise the tuple of a satisfying entry before which no entry
      satisfies `p` (the first match). */
  lemma {:induction false} FirstMatchSpec<K, V>(s: seq<(K, V)>, p: (V, K) -> bool)
    ensures FirstMatch(s, p).None? <==> forall i :: 0 <= i < |s| ==> !Satisfies(p, s[i])
    ensures FirstMatch(s, p).Some? ==>
              exists i :: 0 <= i < |s| && Satisfies(p, s[i])
                          && FirstMatch(s, p).value == TupleOf(s[i])
                          && forall j :: 0 <= j < i ==> !Satisfies(p, s[j])
  {
    if s != [] {
      if Satisfies(p, s[0]) {
        assert FirstMatch(s, p).value == TupleOf(s[0]);
      } else {
        var tail := s[1..];
        FirstMatchSpec(tail, p);
        assert forall i :: 0 <= i < |tail| ==> tail[i] == s[i + 1];
        if FirstMatch(s, p).Some? {
          var i :| 0 <= i < |tail| && Satisfies(p, tail[i])
                   && FirstMatch(tail, p).value == TupleOf(tail[i])
                   && forall j :: 0 <= j < i ==> !Satisfies(p, tail[j]);
          assert Satisfies(p, s[i + 1]) && FirstMatch(s, p).value == TupleOf(s[i + 1]);
          forall j | 0 <= j < i + 1
            ensures !Satisfies(p, s[j])
          {
            if j > 0 {
              assert s[j] == tail[j - 1];
            }
          }
        } else {
          forall i | 0 <= i < |s|
            ensures !Satisfies(p, s[i])
          {
            if i > 0 {
              assert s[i] == tail[i - 1];
            }
          }
        }
      }
    }
  }

  /** When at most one entry satisfies `p` the two scans agree, which is why
      single-match inputs cannot tell them apart. */
  lemma MatchesAgreeWhenUnique<K, V>(s: seq<(K, V)>, p: (V, K) -> bool)
    requires forall i, j :: 0 <= i < j < |s| && Satisfies(p, s[i]) ==> !Satisfies(p, s[j])
    ensures LastMatch(s, p) == FirstMatch(s, p)
  {
    LastMatchSpec(s, p);
    FirstMatchSpec(s, p);
    if LastMatch(s, p).Some? {
      var i :| 0 <= i < |s| && Satisfies(p, s[i]) && LastMatch(s, p).value == TupleOf(s[i])
               && forall j :: i < j < |s| ==> !Satisfies(p, s[j]);
      var i' :| 0 <= i' < |s| && Satisfies(p, s[i']) && FirstMatch(s, p).value == TupleOf(s[i'])
                && forall j :: 0 <= j < i' ==> !Satisfies(p, s[j]);
      assert i == i';
    }
  }

  /** Two entries that both satisfy `p` tell the scans apart: the full scan
      returns the second, the stopping scan the first. */
  lemma LastMatchIsNotFirstMatch()
    ensures var s := [("siete", 7), ("ocho", 8)];
            var p := (v: int, k: string) => v > 6;
            LastMatch(s, p) == Some(Tuple("ocho", 8))
            && FirstMatch(s, p) == Some(Tuple("siete", 7))
  {
    var s := [("siete", 7), ("ocho", 8)];
    assert s[1..] == [("ocho", 8)];
  }

  // ---------------------------------------------------------------------
  // some

  /** some and find agree on whether anything matches. */
  lemma AnyMatchIffLastMatch<K, V>(s: seq<(K, V)>, p: (V, K) -> bool)
    ensures (exists i :: 0 <= i < |s| && Satisfies(p, s[i])) <==> LastMatch(s, p).Some?
  {
    LastMatchSpec(s, p);
  }

  // ---------------------------------------------------------------------
  // forEach

  /** A callback that records each call sees every entry exactly once, in
      insertion order. */
  lemma {:induction false} FoldVisitsEntriesInOrder<K, V>(s: seq<(K, V)>, log: seq<(K, V)>)
    ensures FoldEntries(s, LogEntry, log) == log + s
  {
    if s != [] {
      var n := |s| - 1;
      FoldVisitsEntriesInOrder(s[..n], log);
      assert s == s[..n] + [(s[n].0, s[n].1)];
    }
  }
}
