/**
 * A PHP array with string keys, as `search` and `queryString` use it: an
 * ordered list of key/value pairs whose keys are distinct. Iteration follows
 * insertion order; assigning to an existing key keeps its position, and
 * assigning to a new key appends it.
 */
module Params {
  import opened ByteStrings
  import opened Wrappers

  datatype Param = Param(key: Bytes, value: Bytes)

  predicate DistinctKeys(ps: seq<Param>) {
    forall i, j :: 0 <= i < j < |ps| ==> ps[i].key != ps[j].key
  }

  predicate HasKey(ps: seq<Param>, k: Bytes) {
    exists i :: 0 <= i < |ps| && ps[i].key == k
  }

  /** Position of the first entry with key `k`, or `|ps|` when there is none. */
  function KeyIndex(ps: seq<Param>, k: Bytes): (i: nat)
    ensures i <= |ps|
    ensures i < |ps| ==> ps[i].key == k
    ensures forall j :: 0 <= j < i ==> ps[j].key != k
  {
    if |ps| == 0 then 0
    else if ps[0].key == k then 0
    else 1 + KeyIndex(ps[1..], k)
  }

  /** `$ps[k]` when `isset`, `None` when the key is absent. */
  function Lookup(ps: seq<Param>, k: Bytes): (r: Option<Bytes>)
    ensures r.Some? <==> HasKey(ps, k)
    ensures DistinctKeys(ps) ==> forall i :: 0 <= i < |ps| && ps[i].key == k ==> r == Some(ps[i].value)
  {
    var i := KeyIndex(ps, k);
    if i < |ps| then Some(ps[i].value) else None
  }

  /**
   * `$ps[k] = v`: the value of `k` becomes `v`; an existing `k` is updated
   * where it stands, a new one is appended; no other entry changes.
   */
  function Assign(ps: seq<Param>, k: Bytes, v: Bytes): (r: seq<Param>)
    requires DistinctKeys(ps)
    ensures DistinctKeys(r)
    ensures Lookup(r, k) == Some(v)
    ensures forall k' :: k' != k ==> Lookup(r, k') == Lookup(ps, k')
    ensures !HasKey(ps, k) ==> r == ps + [Param(k, v)]
    ensures HasKey(ps, k) ==> |r| == |ps|
    ensures HasKey(ps, k) ==> forall i :: 0 <= i < |ps| ==> r[i] == if ps[i].key == k then Param(k, v) else ps[i]
  {
    var i := KeyIndex(ps, k);
    var r := if i < |ps| then ps[i := Param(k, v)] else ps + [Param(k, v)];
    assert DistinctKeys(r);
    assert r[i].key == k;
    assert forall j :: 0 <= j < |r| && j != i ==> r[j] == ps[j];
    assert forall k' :: k' != k && HasKey(r, k') ==> HasKey(ps, k');
    r
  }
}
