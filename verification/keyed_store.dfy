/**
 * The map semantics shared by the two copies of the keyed task store: a
 * map from task id to a pointer that may be nil (`None`).
 */
module KeyedStore {
  import opened Common

  type Store<T> = map<string, Option<T>>

  /** A Go map value of that type: `None` is the nil map, which reads and
      deletes like an empty map but panics when assigned to. */
  type MapValue<T> = Option<Store<T>>

  /** The bindings a map value holds; the nil map holds none. */
  function Entries<T>(mv: MapValue<T>): Store<T>
  {
    if mv.Some? then mv.value else map[]
  }

  /** What `Get` returns: the stored value when the key is present and not
      nil, nil otherwise. */
  function Lookup<T>(m: Store<T>, key: string): (v: Option<T>)
    ensures v.Some? <==> key in m && m[key].Some?
    ensures v.Some? ==> v == m[key]
  {
    if key in m then m[key] else None
  }

  /** What `Set` does to the map: `key` bound to `v`, overwriting, every
      other binding kept. */
  function Bind<T>(m: Store<T>, key: string, v: Option<T>): (r: Store<T>)
    ensures key in r && r[key] == v
    ensures forall k :: k != key ==> (k in r <==> k in m)
    ensures forall k :: k != key && k in m ==> r[k] == m[k]
  {
    m[key := v]
  }

  /** What `Remove` does to the map: `key` deleted only when bound to a
      non-nil value, so a key bound to nil survives; every other binding
      kept. */
  function Unbind<T>(m: Store<T>, key: string): (r: Store<T>)
    ensures key in r <==> key in m && m[key].None?
    ensures key in r ==> r[key] == None
    ensures forall k :: k != key ==> (k in r <==> k in m)
    ensures forall k :: k != key && k in m ==> r[k] == m[k]
  {
    if key in m && m[key].Some? then m - {key} else m
  }

  /** A lookup after a bind sees the bound value, and only that key changed. */
  lemma LookupAfterBind<T>(m: Store<T>, key: string, v: Option<T>, other: string)
    ensures Lookup(Bind(m, key, v), key) == v
    ensures other != key ==> Lookup(Bind(m, key, v), other) == Lookup(m, other)
  {
  }

  /** A lookup after an unbind finds nothing, whether the key was deleted
      or survived with nil; other keys look up as before. */
  lemma LookupAfterUnbind<T>(m: Store<T>, key: string, other: string)
    ensures Lookup(Unbind(m, key), key) == None
    ensures other != key ==> Lookup(Unbind(m, key), other) == Lookup(m, other)
  {
  }

  /** Unbinding twice is unbinding once. */
  lemma UnbindIdempotent<T>(m: Store<T>, key: string)
    ensures Unbind(Unbind(m, key), key) == Unbind(m, key)
  {
  }
}
