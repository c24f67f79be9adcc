/**
 * The four operations of a .NET Dictionary<int, int> that the histogram
 * passes call, on an immutable map value. Add on a key that is already
 * present throws an ArgumentException; here it yields DuplicateKey.
 */
module Dictionaries {

  type Dict = map<int, int>

  /** Either a value, or the key whose Add failed because it was already present. */
  datatype Outcome<T> = Ok(value: T) | DuplicateKey(key: int)

  function ContainsKey(m: Dict, k: int): (b: bool)
    ensures b <==> k in m
  {
    k in m
  }

  /** TryGetValue: whether `k` is present, and its value or the default 0. */
  function TryGetValue(m: Dict, k: int): (r: (bool, int))
    ensures r.0 <==> k in m
    ensures r.1 == if k in m then m[k] else 0
  {
    if k in m then (true, m[k]) else (false, 0)
  }

  /** Remove: drops `k` if present, keeps every other entry. */
  function Remove(m: Dict, k: int): (r: Dict)
    ensures r.Keys == m.Keys - {k}
    ensures forall j :: j in r ==> r[j] == m[j]
  {
    m - {k}
  }

  /** Add: a new entry `k -> v`, or DuplicateKey(k) when `k` is already a key. */
  function Add(m: Dict, k: int, v: int): (r: Outcome<Dict>)
    ensures r.Ok? <==> k !in m
    ensures r.DuplicateKey? ==> r.key == k
    ensures r.Ok? ==> r.value.Keys == m.Keys + {k} && r.value[k] == v
    ensures r.Ok? ==> forall j :: j in m ==> r.value[j] == m[j]
  {
    if k in m then DuplicateKey(k) else Ok(m[k := v])
  }
}
