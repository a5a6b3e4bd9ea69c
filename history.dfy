/** Reads after a whole history of writes. The reference answer is stated
    declaratively: a key reads the value of the LAST write whose key shares its
    slot, whatever that write's key was, and reads as before when no write
    touched its slot. */
module History {
  import opened Slots

  /** The list `s` after the writes `ws`, oldest first. */
  function Replay<K(!new), V>(hash: K -> int, s: seq<Slot<V>>, ws: seq<(K, V)>): (t: seq<Slot<V>>)
    requires |s| > 0 || ws == []
    ensures |t| == |s|
    decreases |ws|
  {
    if ws == [] then s
    else
      var last := ws[|ws| - 1];
      Store(hash, Replay(hash, s, ws[..|ws| - 1]), last.0, last.1)
  }

  /** No write in `ws` goes to the slot of `key` in a list of length n. */
  ghost predicate Untouched<K, V>(hash: K -> int, n: int, ws: seq<(K, V)>, key: K)
    requires n > 0
  {
    forall j :: 0 <= j < |ws| ==> Index(hash, n, ws[j].0) != Index(hash, n, key)
  }

  /** Write number j of `ws` goes to the slot of `key`, and no later write does. */
  ghost predicate IsLastWrite<K, V>(hash: K -> int, n: int, ws: seq<(K, V)>, key: K, j: int)
    requires n > 0
  {
    && 0 <= j < |ws|
    && Index(hash, n, ws[j].0) == Index(hash, n, key)
    && forall j' :: j < j' < |ws| ==> Index(hash, n, ws[j'].0) != Index(hash, n, key)
  }

  /** The list after the writes `ws` is the list after all but the last,
      with the last write stored on top. */
  lemma ReplayLast<K(!new), V>(hash: K -> int, s: seq<Slot<V>>, ws: seq<(K, V)>, key: K)
    requires |s| > 0 && ws != []
    ensures var last := ws[|ws| - 1];
      Fetch(hash, Replay(hash, s, ws), key) ==
        if Index(hash, |s|, last.0) == Index(hash, |s|, key) then Found(last.1)
        else Fetch(hash, Replay(hash, s, ws[..|ws| - 1]), key)
  {
  }

  /** A slot that no write touched answers as it did before the writes. */
  lemma {:induction false} ReplayUntouched<K(!new), V>(hash: K -> int, s: seq<Slot<V>>, ws: seq<(K, V)>, key: K)
    requires |s| > 0 && Untouched(hash, |s|, ws, key)
    ensures Fetch(hash, Replay(hash, s, ws), key) == Fetch(hash, s, key)
    decreases |ws|
  {
    if ws != [] {
      var init := ws[..|ws| - 1];
      assert forall j :: 0 <= j < |init| ==> init[j] == ws[j];
      ReplayUntouched(hash, s, init, key);
      ReplayLast(hash, s, ws, key);
    }
  }

  /** The last write to a slot wins, for every key that maps there, whatever
      key that write was made under. */
  lemma {:induction false} ReplayLastWrite<K(!new), V>(hash: K -> int, s: seq<Slot<V>>, ws: seq<(K, V)>, key: K, j: int)
    requires |s| > 0 && IsLastWrite(hash, |s|, ws, key, j)
    ensures Fetch(hash, Replay(hash, s, ws), key) == Found(ws[j].1)
    decreases |ws|
  {
    var n, init := |s|, ws[..|ws| - 1];
    ReplayLast(hash, s, ws, key);
    if j < |ws| - 1 {
      assert Index(hash, n, ws[|ws| - 1].0) != Index(hash, n, key);
      assert forall i :: 0 <= i < |init| ==> init[i] == ws[i];
      assert IsLastWrite(hash, n, init, key, j);
      ReplayLastWrite(hash, s, init, key, j);
    }
  }
}
