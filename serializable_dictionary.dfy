/**
 * SerializableDictionary: a dictionary that Unity serializes as two parallel
 * lists, flattened before serialization and rebuilt after deserialization.
 */
module Serialization {
  import opened Vectors
  import DictionaryExtensions

  /** The dictionary rebuilt from parallel key and value lists, key i mapping to value i. */
  function Rebuilt<K(==), V>(keys: seq<K>, values: seq<V>): (m: map<K, V>)
    requires Distinct(keys) && |values| >= |keys|
    ensures m.Keys == Elems(keys)
    ensures forall i :: 0 <= i < |keys| ==> m[keys[i]] == values[i]
  {
    map i | 0 <= i < |keys| :: keys[i] := values[i]
  }

  /** Parallel lists that hold exactly the entries of `m`, each key once. */
  ghost predicate Flattens<K, V>(m: map<K, V>, keys: seq<K>, values: seq<V>) {
    && |keys| == |values|
    && Distinct(keys)
    && Elems(keys) == m.Keys
    && forall i :: 0 <= i < |keys| ==> values[i] == m[keys[i]]
  }

  /** Rebuilding from lists that flatten a dictionary gives that dictionary back. */
  lemma {:induction false} RebuiltFlattened<K, V>(m: map<K, V>, keys: seq<K>, values: seq<V>)
    requires Flattens(m, keys, values)
    ensures Rebuilt(keys, values) == m
  {
    var r := Rebuilt(keys, values);
    forall k | k in m
      ensures r[k] == m[k]
    {
      var i :| 0 <= i < |keys| && keys[i] == k;
    }
  }

  /** Parallel lists holding the entries of `m` whose keys are not in `rest`, each key once. */
  ghost predicate FlattensBut<K, V>(m: map<K, V>, keys: seq<K>, values: seq<V>, rest: set<K>) {
    && rest <= m.Keys
    && Elems(keys) == m.Keys - rest
    && |keys| == |values| && Distinct(keys)
    && forall i :: 0 <= i < |keys| ==> keys[i] in m && values[i] == m[keys[i]]
  }

  lemma {:induction false} FlattensStep<K, V>(m: map<K, V>, keys: seq<K>, values: seq<V>, rest: set<K>, k: K)
    requires FlattensBut(m, keys, values, rest) && k in rest
    ensures FlattensBut(m, keys + [k], values + [m[k]], rest - {k})
  {
    assert k !in Elems(keys);
    assert Elems(keys + [k]) == Elems(keys) + {k};
  }

  lemma {:induction false} FlattensDone<K, V>(m: map<K, V>, keys: seq<K>, values: seq<V>)
    requires FlattensBut(m, keys, values, {})
    ensures Flattens(m, keys, values) && |keys| == |m.Keys|
  {
    DistinctCard(keys);
  }

  class SerializableDictionary<K(==), V> {
    var Dict: map<K, V>
    var Keys: seq<K>
    var Values: seq<V>

    constructor ()
      ensures Dict == map[] && Keys == [] && Values == []
    {
      Dict := map[];
      Keys := [];
      Values := [];
    }

    /** SerializableDictionary.Count: the number of entries. */
    function Count(): (n: nat)
      reads this
      ensures n == |Dict.Keys|
    {
      |Dict|
    }

    /** Clear empties the dictionary; the serialized lists are left as they are. */
    method Clear()
      modifies this`Dict
      ensures Dict == map[]
    {
      Dict := map[];
    }

    /** Add throws on a key that is already present, so callers must not pass one. */
    method Add(key: K, val: V)
      requires key !in Dict
      modifies this`Dict
      ensures Dict == old(Dict)[key := val]
      ensures Count() == old(Count()) + 1
    {
      Dict := Dict[key := val];
    }

    /** Remove deletes the key; an absent key leaves the dictionary unchanged. */
    method Remove(key: K)
      modifies this`Dict
      ensures Dict == old(Dict) - {key}
      ensures key !in old(Dict) ==> Dict == old(Dict)
    {
      Dict := Dict - {key};
    }

    /** The indexer's getter: a look-up that yields the default for an absent key. */
    function Get(key: K, dflt: V): (v: V)
      reads this
      ensures key in Dict ==> v == Dict[key]
      ensures key !in Dict ==> v == dflt
    {
      DictionaryExtensions.TryGetOrDefault(Dict, key, dflt)
    }

    /** The indexer's setter inserts or overwrites that key only. */
    method Set(key: K, val: V)
      modifies this`Dict
      ensures Dict == old(Dict)[key := val]
      ensures Get(key, val) == val
    {
      Dict := Dict[key := val];
    }

    /** SerializableDictionary.TryGetOrDefault, the same look-up as the getter. */
    function TryGetOrDefault(key: K, dflt: V): (v: V)
      reads this
      ensures v == Get(key, dflt)
      ensures key !in Dict ==> v == dflt
    {
      DictionaryExtensions.TryGetOrDefault(Dict, key, dflt)
    }

    /**
     * OnAfterDeserialize: the dictionary is cleared and refilled with Keys[i] -> Values[i].
     * Dictionary.Add throws on a repeated key and the loop indexes Values by the keys' count.
     */
    method OnAfterDeserialize()
      requires Distinct(Keys) && |Values| >= |Keys|
      modifies this`Dict
      ensures Dict == Rebuilt(Keys, Values)
    {
      Dict := map[];
      var i := 0;
      while i < |Keys|
        invariant 0 <= i <= |Keys|
        invariant Dict == Rebuilt(Keys[..i], Values)
      {
        assert Keys[i] !in Elems(Keys[..i]);
        Dict := Dict[Keys[i] := Values[i]];
        assert Keys[..i + 1] == Keys[..i] + [Keys[i]];
        i := i + 1;
      }
      assert Keys[..i] == Keys;
    }

    /**
     * OnBeforeSerialize: the lists are cleared and refilled from the dictionary's
     * entries, in the dictionary's enumeration order, which is left unspecified.
     */
    method OnBeforeSerialize()
      modifies this`Keys, this`Values
      ensures Flattens(Dict, Keys, Values)
      ensures |Keys| == Count()
    {
      Keys := [];
      Values := [];
      var rest := Dict.Keys;
      while rest != {}
        invariant FlattensBut(Dict, Keys, Values, rest)
        decreases rest
      {
        var k :| k in rest;
        FlattensStep(Dict, Keys, Values, rest, k);
        Keys := Keys + [k];
        Values := Values + [Dict[k]];
        rest := rest - {k};
      }
      FlattensDone(Dict, Keys, Values);
    }

    /** Serializing and deserializing again leaves the entries as they were. */
    method RoundTrip()
      modifies this`Keys, this`Values, this`Dict
      ensures Dict == old(Dict)
    {
      OnBeforeSerialize();
      RebuiltFlattened(Dict, Keys, Values);
      OnAfterDeserialize();
    }
  }
}
