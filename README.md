# hashTable as written: a direct-addressed slot list

This project models the `hashTable` class of `hashtable/hashtable.py` exactly as
the code implements it. The class is simpler than the design its own docstring
aims for. A table is a list of `max_capacity` slots, and each slot starts out
holding a private `BLANK` sentinel. Writing `t[k] = v` overwrites slot
`hash(k) % len(t)`. Reading `t[k]` returns what that slot holds, or raises
`KeyError(k)` when the slot is still blank. `k in t` and `t.get(k, d)` turn that
error into `False` or into `d`. `len(t)` is the number of slots. Keys are never
stored, and the code has no probing, deletion or resizing.

The module docstring lists collision resolution, insertion order, resizing and
a load factor as goals. The code implements none of them, and the model follows
the code.
The result is that two keys whose hashes fall in the same slot share one value.
The last write to that slot wins for every key that maps there. A key that was
never written reads as present when some other key wrote to its slot. The
fixture in `hashtable/test_hash-table.py` expects its three keys to read back
their own values. In the model that holds only when the three keys fall in
different slots (`History.ReplayLastWrite`).

Files:

- `slots.dfy`, module `Slots`. This is the slot list as a value:
  - `Slot<V> = Blank | Val(v)`, the blank marker and a stored value;
  - `Lookup<K, V> = Found(v) | KeyError(key)`, the result of a read;
  - Python's floored `%` (`PyMod`) and the slot index (`Index`);
  - the fresh list (`Blanks`), a read (`Fetch`) and a write (`Store`).
- `history.dfy`, module `History`. This file covers reads after a whole sequence
  of writes:
  - `Replay` applies the writes in order;
  - the predicates `Untouched` and `IsLastWrite` state the reference answer
    declaratively;
  - lemmas prove that `Replay` meets that reference.
- `hashtable.dfy`, module `HashTables`. The class `HashTable` holds:
  - the slot array `values`;
  - the hash function `hash`;
  - a ghost history `writes`, which `Valid()` ties to the array:
    `values[..] == Replay(hash, Blanks(len), writes)`.

  `Set` (`__setitem__`) overwrites one array element in place. `GetItem`
  (`__getitem__`), `Contains` (`__contains__`) and `Get` (`get`) are functions
  that read the array and change nothing. `Len()` (`__len__`) is the array's
  length. The array is a `const` field, so the capacity cannot change after
  construction.

## Model

| member | source | states |
|---|---|---|
| `Slots.PyMod` | hashtable/hashtable.py:19 | For a positive length, `hash % len` lies in `[0, len)`, also for a negative hash. It satisfies Python's divmod identity `a == (a // n) * n + a % n`. |
| `Slots.Index` | hashtable/hashtable.py:19 | A key's slot index is always a valid position in a non-empty list. |
| `Slots.Blanks` | hashtable/hashtable.py:12 | `n * [BLANK]` has `max(n, 0)` slots, and every one of them is blank. |
| `Slots.Fetch` | hashtable/hashtable.py:22-27 | A read succeeds exactly when the key's slot is not blank, and it yields the value in that slot. Otherwise it is a key error carrying the key that was asked for. |
| `Slots.Store` | hashtable/hashtable.py:17-20 | A write keeps the length and changes only the key's slot. Afterwards every key sharing that slot reads the written value, and every other key reads as before. |
| `History.Replay` | hashtable/hashtable.py:17-20 | Any sequence of writes leaves the number of slots unchanged. |
| `History.ReplayUntouched` | hashtable/hashtable.py:22-27 | A key whose slot no write reached reads as it did before the writes. On a new table that read is the key error. |
| `History.ReplayLastWrite` | hashtable/hashtable.py:19-24 | After any sequence of writes, a key reads the value of the last write that went to its slot, whatever key that write used. |
| `HashTables.HashTable.constructor` | hashtable/hashtable.py:11-12 | A new table has `max(max_capacity, 0)` slots, all blank. Every read on a table with slots raises the key error for its own key. |
| `HashTables.HashTable.Len` | hashtable/hashtable.py:14-15 | `len(t)` is the number of slots in the list, not the number of keys written. `values` is a `const` array, so no `Set` changes the length, as `hashtable/test_hash-table.py:37` expects. |
| `HashTables.HashTable.IndexOf` | hashtable/hashtable.py:19 | The index used by `__setitem__` and `__getitem__` is within the table's bounds. |
| `HashTables.HashTable.Set` | hashtable/hashtable.py:17-20 | The array becomes `Store` of the old array. Writing `t[k] = v` makes every key in `k`'s slot read `v`, and `None`-like values are included. Reads of keys in other slots are unchanged. The history grows by `(k, v)`, and the invariant tying the array to the history is kept. |
| `HashTables.HashTable.GetItem` | hashtable/hashtable.py:22-27 | Reading the array agrees with `Fetch` on the slot list. It is a function of the array, so a read that fails changes nothing. |
| `HashTables.HashTable.Contains` | hashtable/hashtable.py:29-35 | `k in t` is true exactly when `k`'s slot holds a value, which is when `t[k]` would not raise. It never raises itself. |
| `HashTables.HashTable.Get` | hashtable/hashtable.py:37-41 | `get(k, d)` returns the value in `k`'s slot when there is one, and `d` when the slot is blank. |
| `HashTables.HashTable.ReadsFollowWrites` | hashtable/hashtable.py:17-27 | On a valid table, a read answers with the last write made to the key's slot. Where no write reached the slot, it answers the key error for the key. |

## Left out

- Python's built-in `hash()` is a foreign function, and it is randomised per process for strings. It becomes the `hash: K -> int` function given to the constructor and fixed for the table's life. Nothing is assumed about which keys collide.
- `ZeroDivisionError` on a table of zero slots: `Set`, `GetItem`, `Contains` and `Get` require `Len() > 0` instead of modelling the exception. `Len()` itself has no such requirement.
- Get: Python's default `default=None` is not modelled. The caller passes the default explicitly, because `None` is not a value of the generic value type `V`.
- Exceptions as control flow: the `try`/`except KeyError` in `__contains__` and `get` becomes a match on the `Lookup` result. The identity test `is BLANK` becomes the variant test `Blank?`.
- Keys are restricted to types without heap references (`K(!new)`), so that contracts can quantify over all keys. Python keys may be arbitrary hashable objects.
- `self.values` is a public attribute that outside code could rebind or resize. In the model it is a `const` array, and within the model only `Set` writes to it. Client code assigning `t.values[i]` directly would break `Valid()`.
- The docstring's goals are not modelled, because the code does not implement them: collision resolution, insertion order, resizing and load factor. The same goes for deletion, key, value and pair views, and the `_pair`/`pair`/`keys`/`del` interface used in `hashtable/test_hash-table.py`.
- Storing the sentinel itself (`t[k] = BLANK`, which makes a later `t[k]` raise `KeyError`) is not modelled. `BLANK` at `hashtable/hashtable.py:8` is private by intent, and `Set` stores only `Val(v)`.
