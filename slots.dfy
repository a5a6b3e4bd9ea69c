/** The slot list behind a hash table, as a value: a fixed-length sequence of
    slots, each blank or holding one value, addressed by the key's hash taken
    modulo the length of the list. Keys themselves are never stored. */
module Slots {

  /** One slot: the blank marker a new table is filled with, or the value that
      the last write to this slot put there. Because blank is its own variant,
      every value of `V` (a "none" value included) can be stored and read back. */
  datatype Slot<V> = Blank | Val(value: V)

  /** What reading a key yields: the value held in the key's slot, or the
      key error, which carries the key that was asked for. */
  datatype Lookup<K, V> = Found(value: V) | KeyError(key: K)

  /** Python's `%` with a positive divisor: the result has the divisor's sign,
      so it lies in [0, n) for a negative dividend too, and it completes
      Python's identity `a == (a // n) * n + a % n`. (For n > 0 Dafny's
      Euclidean `/` and `%` agree with Python's floored `//` and `%`.) */
  function PyMod(a: int, n: int): (r: int)
    requires n > 0
    ensures 0 <= r < n
    ensures a == (a / n) * n + r
  {
    a % n
  }

  /** The slot a key lives in: `hash(key) % len`, for a list of length n > 0. */
  function Index<K>(hash: K -> int, n: int, key: K): (i: int)
    requires n > 0
    ensures 0 <= i < n
  {
    PyMod(hash(key), n)
  }

  /** The list `n * [BLANK]`: n blank slots, and no slots at all when n <= 0. */
  function Blanks<V>(n: int): (s: seq<Slot<V>>)
    ensures |s| == if n > 0 then n else 0
    ensures forall i :: 0 <= i < |s| ==> s[i].Blank?
  {
    seq(if n > 0 then n else 0, _ => Blank)
  }

  /** Reading `key` from the list `s`: the value in the key's slot, or a key
      error carrying `key` when that slot is blank. */
  function Fetch<K, V>(hash: K -> int, s: seq<Slot<V>>, key: K): (r: Lookup<K, V>)
    requires |s| > 0
    ensures r.Found? <==> s[Index(hash, |s|, key)].Val?
    ensures r.Found? ==> s[Index(hash, |s|, key)] == Val(r.value)
    ensures r.KeyError? ==> r.key == key
  {
    match s[Index(hash, |s|, key)]
    case Blank => KeyError(key)
    case Val(v) => Found(v)
  }

  /** Writing `value` under `key` into the list `s`: the key's slot is
      overwritten, whatever it held, and nothing else changes. Every key that
      shares the slot now reads `value`; every other key reads as before. */
  function Store<K(!new), V>(hash: K -> int, s: seq<Slot<V>>, key: K, value: V): (t: seq<Slot<V>>)
    requires |s| > 0
    ensures |t| == |s|
    ensures forall j :: 0 <= j < |s| && j != Index(hash, |s|, key) ==> t[j] == s[j]
    ensures forall k :: Index(hash, |s|, k) == Index(hash, |s|, key) ==> Fetch(hash, t, k) == Found(value)
    ensures forall k :: Index(hash, |s|, k) != Index(hash, |s|, key) ==> Fetch(hash, t, k) == Fetch(hash, s, k)
  {
    s[Index(hash, |s|, key) := Val(value)]
  }
}
