/**
  The few PHP value-level notions the plugin relies on: the scalars stored in its
  associative arrays, the truthiness of strings, and the array union operator `+`.
 */
module PhpValues {

  datatype Option<+T> = None | Some(value: T)

  /** A scalar stored in one of the plugin's associative arrays. */
  datatype Value = Null | Bool(flag: bool) | Int(num: int) | Str(str: string)

  /** The parameter maps and result records the plugin builds are string-keyed PHP arrays. */
  type Attrs = map<string, Value>

  /** A string is truthy in a PHP condition, and not `empty()`, unless it is "" or "0". */
  predicate Truthy(s: string) {
    s != "" && s != "0"
  }

  /** PHP array union `left + right` (and `left += right`): every key of `left` keeps
      its value, and `right` only contributes the keys that `left` lacks. */
  function Union<K, V>(left: map<K, V>, right: map<K, V>): (r: map<K, V>)
    ensures r.Keys == left.Keys + right.Keys
    ensures forall k :: k in left ==> r[k] == left[k]
    ensures forall k :: k in right && k !in left ==> r[k] == right[k]
  {
    right + left
  }

  /** Adding the same array twice adds nothing the second time. */
  lemma UnionAbsorbs<K, V>(left: map<K, V>, right: map<K, V>)
    ensures Union(Union(left, right), right) == Union(left, right)
  {
  }

  /** Adding an empty array changes nothing. */
  lemma UnionEmpty<K, V>(left: map<K, V>)
    ensures Union(left, map[]) == left
  {
  }
}
