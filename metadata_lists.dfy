/**
 * The read-push-redefine idiom of both metadata registries:
 * `Reflect.getMetadata(KEY, ...) || []`, push, `Reflect.defineMetadata(KEY, list, ...)`.
 * A metadata key is modelled as a map from its target to the stored list.
 */
module MetadataLists {

  /** The stored list, or `[]` when nothing was defined. */
  function ListAt<K(!new), V>(store: map<K, seq<V>>, key: K): seq<V> {
    if key in store then store[key] else []
  }

  /** The store after one read-push-redefine. */
  function Appended<K(!new), V>(store: map<K, seq<V>>, key: K, v: V): (s': map<K, seq<V>>)
    ensures ListAt(s', key) == ListAt(store, key) + [v]
    ensures forall k :: k != key ==> ListAt(s', k) == ListAt(store, k)
    ensures s'.Keys == store.Keys + {key}
  {
    store[key := ListAt(store, key) + [v]]
  }

  /** The store after one define per element of vs, in order. */
  function AppendedAll<K(!new), V>(store: map<K, seq<V>>, key: K, vs: seq<V>): map<K, seq<V>>
    decreases |vs|
  {
    if vs == [] then store else AppendedAll(Appended(store, key, vs[0]), key, vs[1..])
  }

  /** Lists grow in call order: n defines append exactly those n entries. */
  lemma {:induction false} AppendsInCallOrder<K(!new), V>(store: map<K, seq<V>>, key: K, vs: seq<V>)
    ensures ListAt(AppendedAll(store, key, vs), key) == ListAt(store, key) + vs
    ensures forall k :: k != key ==> ListAt(AppendedAll(store, key, vs), k) == ListAt(store, k)
    ensures AppendedAll(store, key, vs).Keys == if vs == [] then store.Keys else store.Keys + {key}
    decreases |vs|
  {
    if vs != [] {
      AppendsInCallOrder(Appended(store, key, vs[0]), key, vs[1..]);
      assert [vs[0]] + vs[1..] == vs;
    }
  }
}
