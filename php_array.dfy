/**
 * The part of PHP's value model that the query overrides inspect: an option
 * bag is either an array (an ordered list of key/value entries) or some other
 * value, and it is searched with the strict `in_array` and with
 * `array_key_exists`.
 */
module PhpArray {

  /** Values an array entry may hold; `Compound` is any array or object, never identical to a string. */
  datatype Mixed = Null | Bool(b: bool) | Int(i: int) | Str(s: string) | Compound

  /** PHP array keys are integers or strings. */
  datatype ArrayKey = IntKey(n: int) | StrKey(name: string)

  datatype Entry = Entry(key: ArrayKey, value: Mixed)

  /** A PHP value as `is_array` sees it. */
  datatype PhpValue = Scalar(v: Mixed) | Array(entries: seq<Entry>)

  /** `in_array($needle, $array, true)`: some entry's value is identical (`===`) to the needle. */
  function InArrayStrict(needle: Mixed, entries: seq<Entry>): (r: bool)
    ensures r <==> exists i :: 0 <= i < |entries| && entries[i].value == needle
  {
    if entries == [] then false
    else if entries[0].value == needle then true
    else
      var rest := InArrayStrict(needle, entries[1..]);
      assert forall i :: 1 <= i < |entries| ==> entries[i] == entries[1..][i - 1];
      rest
  }

  /** `array_key_exists($key, $array)`: some entry carries the key, whatever its value (null included). */
  function ArrayKeyExists(key: ArrayKey, entries: seq<Entry>): (r: bool)
    ensures r <==> exists i :: 0 <= i < |entries| && entries[i].key == key
  {
    if entries == [] then false
    else if entries[0].key == key then true
    else
      var rest := ArrayKeyExists(key, entries[1..]);
      assert forall i :: 1 <= i < |entries| ==> entries[i] == entries[1..][i - 1];
      rest
  }

  /** The list `[v0, v1, ...]`: each value under its position as an integer key. */
  function List(values: seq<Mixed>): (r: seq<Entry>)
    ensures |r| == |values|
    ensures forall i :: 0 <= i < |r| ==> r[i].key == IntKey(i) && r[i].value == values[i]
  {
    seq(|values|, i requires 0 <= i < |values| => Entry(IntKey(i), values[i]))
  }
}
