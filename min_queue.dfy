/**
 * The abstract view of a `std::priority_queue` ordered by a real-valued key
 * with the smallest key on top: a sequence of entries, the index of an entry
 * with the smallest key, and removal at an index. Both calendar queues are
 * built on this view.
 */
module MinQueue {

  /** The index of the first entry of `q` with the smallest key. Any
      minimal entry would do for a heap; taking the first makes the model
      deterministic, and ties are then drained in insertion order. */
  function MinIndex<E>(q: seq<E>, key: E -> real): (k: nat)
    requires q != []
    ensures k < |q|
    ensures forall j :: 0 <= j < |q| ==> key(q[k]) <= key(q[j])
    ensures forall j :: 0 <= j < k ==> key(q[k]) < key(q[j])
    decreases |q|
  {
    if |q| == 1 then 0
    else
      var k := MinIndex(q[1..], key) + 1;
      if key(q[0]) <= key(q[k]) then 0 else k
  }

  /** The smallest key in `q`. */
  function MinKey<E>(q: seq<E>, key: E -> real): real
    requires q != []
  {
    key(q[MinIndex(q, key)])
  }

  /** `q` without its entry at index `k` (RemoveAtContents). */
  function RemoveAt<E>(q: seq<E>, k: nat): seq<E>
    requires k < |q|
  {
    q[..k] + q[k+1..]
  }

  /** Removal at `k` drops that one entry and keeps every other. */
  lemma RemoveAtContents<E>(q: seq<E>, k: nat)
    requires k < |q|
    ensures |RemoveAt(q, k)| == |q| - 1
    ensures multiset(RemoveAt(q, k)) == multiset(q) - multiset{q[k]}
  {
    assert q == q[..k] + [q[k]] + q[k+1..];
  }

  /** Removing an old entry commutes with appending a new one. */
  lemma RemoveAtAppend<E>(q: seq<E>, x: E, k: nat)
    requires k < |q|
    ensures RemoveAt(q + [x], k) == RemoveAt(q, k) + [x]
  {
    assert (q + [x])[..k] == q[..k];
    assert (q + [x])[k+1..] == q[k+1..] + [x];
  }

  /** Appending an entry whose key is not below the minimum leaves the top
      where it was. */
  lemma MinIndexAppend<E>(q: seq<E>, x: E, key: E -> real)
    requires q != []
    requires key(x) >= MinKey(q, key)
    ensures MinIndex(q + [x], key) == MinIndex(q, key)
  {
    var q' := q + [x];
    var k, k' := MinIndex(q, key), MinIndex(q', key);
    assert q'[k] == q[k];
    assert forall j :: 0 <= j < |q| ==> q'[j] == q[j];
  }

  /** After appending `x` the smallest key is the smaller of the old minimum
      and the key of `x`. */
  lemma MinKeyAppend<E>(q: seq<E>, x: E, key: E -> real)
    requires q != []
    ensures MinKey(q + [x], key) == if key(x) < MinKey(q, key) then key(x) else MinKey(q, key)
  {
    var q' := q + [x];
    var k, k' := MinIndex(q, key), MinIndex(q', key);
    assert q'[k] == q[k];
    assert q'[|q|] == x;
    if k' < |q| {
      assert q'[k'] == q[k'];
    }
  }

  /** Removing an entry can only raise the smallest key: every entry that is
      left was already at or above the old minimum. */
  lemma MinKeyRemoveAt<E>(q: seq<E>, k: nat, key: E -> real)
    requires k < |q| && |q| > 1
    ensures MinKey(RemoveAt(q, k), key) >= MinKey(q, key)
  {
    var r := RemoveAt(q, k);
    RemoveAtContents(q, k);
    var e := r[MinIndex(r, key)];
    assert e in multiset(r);
    assert e in multiset(q);
    var j :| 0 <= j < |q| && q[j] == e;
    assert key(q[MinIndex(q, key)]) <= key(q[j]);
  }
}
