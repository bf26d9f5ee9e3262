/** The browser's `localStorage` as a string-keyed store of strings, with the JSON encoding of a
    stored value passed in as a codec. */
module Storage {
  import opened Wrappers

  type Store = map<string, string>

  /** `localStorage.getItem(key)`: `None` is `null`. */
  function GetItem(store: Store, key: string): (r: Option<string>)
    ensures r.Some? <==> key in store
    ensures r.Some? ==> r.value == store[key]
  {
    if key in store then Some(store[key]) else None
  }

  /** `localStorage.setItem(key, value)`. */
  function SetItem(store: Store, key: string, value: string): (r: Store)
    ensures GetItem(r, key) == Some(value)
    ensures forall k :: k != key ==> GetItem(r, k) == GetItem(store, k)
  {
    store[key := value]
  }

  /** `localStorage.removeItem(key)`. */
  function RemoveItem(store: Store, key: string): (r: Store)
    ensures GetItem(r, key) == None
    ensures forall k :: k != key ==> GetItem(r, k) == GetItem(store, k)
  {
    store - {key}
  }

  /** `JSON.stringify` and `JSON.parse` specialised to one stored type; `decode` answers `None`
      where `JSON.parse` throws. */
  datatype Codec<!T> = Codec(encode: T -> string, decode: string -> Option<T>)

  /** The codec reads back whatever it wrote, and never writes the empty (falsy) string. */
  ghost predicate Lossless<T(!new)>(c: Codec<T>) {
    forall x: T {:trigger c.encode(x)} :: c.decode(c.encode(x)) == Some(x) && |c.encode(x)| > 0
  }
}
