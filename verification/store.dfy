/** The key-value store the eSSD poller writes into, as an immutable value:
    its contents, the keys whose read raises, and the log of every write and
    delete issued against it, so that "no write happened" can be stated. */
module KeyValueStore {
  import opened Wrappers

  datatype Op<V> = SaveOp(key: string, value: V) | DeleteOp(key: string)

  /** `unreadable` holds the keys for which `get_key_value` (or decoding its
      bytes) raises even though a value may be stored there. */
  datatype Store<V> = Store(data: map<string, V>, unreadable: set<string>, log: seq<Op<V>>)

  /** `get_key_value`: `None` when the key is absent or the read raises. */
  function GetKeyValue<V>(st: Store<V>, key: string): Option<V> {
    if key in st.data && key !in st.unreadable then Some(st.data[key]) else None
  }

  /** `save_key_value`: overwrite, and log the write. */
  function SaveKeyValue<V>(st: Store<V>, key: string, value: V): Store<V> {
    st.(data := st.data[key := value], log := st.log + [SaveOp(key, value)])
  }

  /** `delete_key_value`: remove exactly this key, and log the delete. */
  function DeleteKeyValue<V>(st: Store<V>, key: string): Store<V> {
    st.(data := st.data - {key}, log := st.log + [DeleteOp(key)])
  }
}
