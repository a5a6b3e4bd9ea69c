/** The table object: a fixed number of slots in an array that writes overwrite
    in place. A key's slot is its hash modulo the number of slots; there is no
    probing, so keys whose hashes share a slot share the value stored there. */
module HashTables {
  import opened Slots
  import opened History

  class HashTable<K(!new), V> {
    /** The built-in hash of the host language, fixed for the table's life. */
    const hash: K -> int
    /** The slot list; its length is the capacity, which never changes. */
    const values: array<Slot<V>>
    /** Every write made so far, oldest first. */
    ghost var writes: seq<(K, V)>

    /** The slots are the blank list of this length after all the writes so far. */
    ghost predicate Valid()
      reads this, values
    {
      && (values.Length > 0 || writes == [])
      && values[..] == Replay(hash, Blanks(values.Length), writes)
    }

    /** A table of `maxCapacity` blank slots; none at all when it is not positive. */
    constructor (maxCapacity: int, hash: K -> int)
      ensures Valid() && fresh(values)
      ensures this.hash == hash && writes == []
      ensures Len() == if maxCapacity > 0 then maxCapacity else 0
      ensures values[..] == Blanks(maxCapacity)
      ensures Len() > 0 ==> forall k :: GetItem(k) == KeyError(k)
    {
      this.hash := hash;
      values := new Slot<V>[if maxCapacity > 0 then maxCapacity else 0](_ => Blank);
      writes := [];
      new;
      assert values[..] == Blanks(maxCapacity);
    }

    /** The number of slots (not the number of keys written). */
    function Len(): (n: nat)
      reads values
      ensures n == |values[..]|
    {
      values.Length
    }

    /** The slot of `key`. */
    function IndexOf(key: K): (i: nat)
      reads values
      requires Len() > 0
      ensures i < Len()
    {
      Index(hash, Len(), key)
    }

    /** `t[key] = value`: overwrites the key's slot and nothing else. */
    method Set(key: K, value: V)
      requires Valid() && Len() > 0
      modifies this, values
      ensures Valid()
      ensures writes == old(writes) + [(key, value)]
      ensures values[..] == Store(hash, old(values[..]), key, value)
      ensures forall k :: IndexOf(k) == IndexOf(key) ==> GetItem(k) == Found(value)
      ensures forall k :: IndexOf(k) != IndexOf(key) ==> GetItem(k) == old(GetItem(k))
    {
      values[IndexOf(key)] := Val(value);
      writes := writes + [(key, value)];
      assert writes[..|writes| - 1] == old(writes);
    }

    /** `t[key]`: the value in the key's slot, or the key error for `key`
        when the slot is blank. Nothing in the table changes. */
    function GetItem(key: K): (r: Lookup<K, V>)
      reads values
      requires Len() > 0
      ensures r == Fetch(hash, values[..], key)
    {
      match values[IndexOf(key)]
      case Blank => KeyError(key)
      case Val(v) => Found(v)
    }

    /** `key in t`: whether reading `key` would succeed; never an error. */
    function Contains(key: K): (r: bool)
      reads values
      requires Len() > 0
      ensures r <==> values[IndexOf(key)].Val?
    {
      GetItem(key).Found?
    }

    /** `t.get(key, default)`: the value read for `key`, or `default` where
        reading would be a key error. */
    function Get(key: K, default: V): (r: V)
      reads values
      requires Len() > 0
      ensures values[IndexOf(key)].Val? ==> r == values[IndexOf(key)].value
      ensures values[IndexOf(key)].Blank? ==> r == default
    {
      match GetItem(key)
      case Found(v) => v
      case KeyError(_) => default
    }

    /** What every read answers after the writes so far: the value of the last
        write to the key's slot, and the key error where no write reached it. */
    lemma ReadsFollowWrites(key: K)
      requires Valid() && Len() > 0
      ensures Untouched(hash, Len(), writes, key) ==> GetItem(key) == KeyError(key)
      ensures forall j :: IsLastWrite(hash, Len(), writes, key, j) ==> GetItem(key) == Found(writes[j].1)
    {
      if Untouched(hash, Len(), writes, key) {
        ReplayUntouched(hash, Blanks(Len()), writes, key);
      }
      forall j | IsLastWrite(hash, Len(), writes, key, j) {
        ReplayLastWrite(hash, Blanks(Len()), writes, key, j);
      }
    }
  }
}
