/**
 * DictionaryExtensions: look-ups on a dictionary that fall back to the value
 * type's default, and a look-up that inserts a new value when the key is absent.
 */
module DictionaryExtensions {

  /** A mutable .NET Dictionary; its entries are a map field the methods reassign. */
  class Dictionary<K(==), V> {
    var Items: map<K, V>

    constructor ()
      ensures Items == map[]
    {
      Items := map[];
    }
  }

  /**
   * TryGetOrDefault: the stored value, or `dflt` (standing for default(TValue))
   * when the key is absent.
   */
  function TryGetOrDefault<K, V>(dict: map<K, V>, key: K, dflt: V): (v: V)
    ensures key in dict ==> v == dict[key]
    ensures key !in dict ==> v == dflt
  {
    if key in dict then dict[key] else dflt
  }

  /** After an assignment the key reads back the new value and other keys read as before. */
  lemma {:induction false} TryGetOrDefaultAfterSet<K, V>(dict: map<K, V>, key: K, val: V, other: K, dflt: V)
    ensures TryGetOrDefault(dict[key := val], key, dflt) == val
    ensures other != key ==> TryGetOrDefault(dict[key := val], other, dflt) == TryGetOrDefault(dict, other, dflt)
  {
  }

  /** A look-up in a map without the key gives the default. */
  lemma {:induction false} TryGetOrDefaultAfterRemove<K, V>(dict: map<K, V>, key: K, dflt: V)
    ensures TryGetOrDefault(dict - {key}, key, dflt) == dflt
  {
  }

  /** The entries after TryGetOrCreate: unchanged if the key is present, otherwise with `created` added. */
  function AfterGetOrCreate<K, V>(dict: map<K, V>, key: K, created: V): (r: map<K, V>)
    ensures key in r
    ensures key in dict ==> r == dict
    ensures key !in dict ==> r[key] == created && |r| == |dict| + 1
    ensures r.Keys == dict.Keys + {key}
    ensures forall k :: k in dict ==> k in r && r[k] == dict[k]
  {
    if key in dict then dict else dict[key := created]
  }

  /** A second TryGetOrCreate on the same key returns the same value and changes nothing. */
  lemma {:induction false} GetOrCreateIdempotent<K, V>(dict: map<K, V>, key: K, created: V, createdAgain: V)
    ensures AfterGetOrCreate(AfterGetOrCreate(dict, key, created), key, createdAgain) == AfterGetOrCreate(dict, key, created)
    ensures AfterGetOrCreate(dict, key, created)[key] == (if key in dict then dict[key] else created)
  {
  }

  /**
   * TryGetOrCreate: `created` stands for the `new TValue()` the source makes
   * when the key is missing.
   */
  method TryGetOrCreate<K, V>(dict: Dictionary<K, V>, key: K, created: V) returns (v: V)
    modifies dict
    ensures dict.Items == AfterGetOrCreate(old(dict.Items), key, created)
    ensures v == dict.Items[key]
    ensures key in old(dict.Items) ==> v == old(dict.Items)[key]
    ensures key !in old(dict.Items) ==> v == created
  {
    if key in dict.Items {
      v := dict.Items[key];
      return;
    }
    v := created;
    dict.Items := dict.Items[key := v];
  }
}
