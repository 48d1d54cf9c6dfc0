/** Values that may be absent. */
module Wrappers {

  datatype Option<+T> = None | Some(value: T)

  function Lookup<K, V>(m: map<K, V>, key: K): Option<V> {
    if key in m then Some(m[key]) else None
  }
}
