/** Types and arithmetic shared by the models of the firmware's modules. */
module Prelude {

  datatype Option<+T> = None | Some(value: T)

  /** A `uint8_t`. */
  type Byte = i: int | 0 <= i < 256

  /** The modulus of `uint32_t` arithmetic. */
  const U32: int := 0x1_0000_0000

  function Min(a: int, b: int): int {
    if a <= b then a else b
  }

  function Max(a: int, b: int): int {
    if a >= b then a else b
  }

  /** What `strncpy` into a buffer of `max + 1` bytes, closed with a NUL, leaves of a C string. */
  function Truncated<T>(s: seq<T>, max: nat): (r: seq<T>)
    ensures |r| <= max && r <= s
    ensures |s| <= max ==> r == s
  {
    if |s| <= max then s else s[..max]
  }

  /** Removes position `i`: what a `memmove` of the tail one slot down does to a list. */
  function RemoveAt<T>(s: seq<T>, i: nat): (r: seq<T>)
    requires i < |s|
    ensures |r| == |s| - 1
    ensures forall k :: 0 <= k < |r| ==> r[k] == if k < i then s[k] else s[k + 1]
  {
    s[..i] + s[i + 1..]
  }

  /** The position of the first entry filed under `key`, or the length if there is none. */
  function IndexBy<T, K(==)>(keyOf: T -> K, s: seq<T>, key: K): (i: nat)
    ensures i <= |s| && (i < |s| ==> keyOf(s[i]) == key)
    ensures forall k :: 0 <= k < i ==> keyOf(s[k]) != key
  {
    if s == [] || keyOf(s[0]) == key then 0 else 1 + IndexBy(keyOf, s[1..], key)
  }

  lemma IndexByIs<T, K>(keyOf: T -> K, s: seq<T>, key: K, i: nat)
    requires i <= |s| && (i < |s| ==> keyOf(s[i]) == key)
    requires forall k :: 0 <= k < i ==> keyOf(s[k]) != key
    ensures IndexBy(keyOf, s, key) == i
  {
    var j := IndexBy(keyOf, s, key);
    assert !(j < i) && !(i < j);
  }

  /** ASCII case folding, as `strcasecmp` does in the C locale. */
  function Lower(c: char): char {
    if 'A' <= c <= 'Z' then c - 'A' + 'a' else c
  }
}
