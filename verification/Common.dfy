/** Small shared definitions. */
module Common {

  /** The smallest units in a token. */
  const COIN := 1_000_000

  datatype Option<+T> = None | Some(value: T)

  /** The larger of two integers. */
  function Max(a: int, b: int): int {
    if a < b then b else a
  }

  /** The smaller of two integers. */
  function Min(a: int, b: int): int {
    if a < b then a else b
  }

  /** No element twice. */
  predicate Distinct<T(==)>(s: seq<T>) {
    forall i, j :: 0 <= i < j < |s| ==> s[i] != s[j]
  }

  /** Insert `more` into `m`; like `std::map::insert`, the entries of `m` are kept. */
  function Merge<K, V>(m: map<K, V>, more: map<K, V>): map<K, V> {
    more + m
  }
}
