/** Types shared by every module. */
module Prelude {

  datatype Option<+T> = None | Some(value: T)

  function Get<K, V>(m: map<K, V>, k: K): Option<V> {
    if k in m then Some(m[k]) else None
  }

  /** A vector that is allocated only on first use. */
  datatype Vec<T> = Absent | Allocated(items: seq<T>)

  function Items<T>(vec: Vec<T>): seq<T> {
    match vec
    case Absent => []
    case Allocated(items) => items
  }
}
