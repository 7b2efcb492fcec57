/** A scraped record: the Python `dict` that `get_book_data` builds, modelled as an
    association list in insertion order (the order `str(dict)` renders it in). */
module Records {
  import opened Wrappers

  type Record = seq<(string, string)>

  /** The keys of a record, in insertion order. */
  function Keys(r: Record): (ks: seq<string>)
    ensures |ks| == |r|
  {
    if r == [] then [] else [r[0].0] + Keys(r[1..])
  }

  /** No key is stored twice: every dict has this shape. */
  predicate DistinctKeys(r: Record) {
    r == [] || (r[0].0 !in Keys(r[1..]) && DistinctKeys(r[1..]))
  }

  /** `d.get(k)`: the value stored under `k`, if any. */
  function Lookup(r: Record, k: string): (v: Option<string>)
    ensures v.Some? <==> k in Keys(r)
    ensures v.Some? ==> (k, v.value) in r
  {
    if r == [] then None
    else if r[0].0 == k then Some(r[0].1)
    else Lookup(r[1..], k)
  }

  /** `d[k] = v`: a key already present keeps its position and takes the new value;
      a new key is appended at the end. */
  function Set(r: Record, k: string, v: string): (r': Record)
    ensures Lookup(r', k) == Some(v)
    ensures forall k' :: k' != k ==> Lookup(r', k') == Lookup(r, k')
    ensures Keys(r') == if k in Keys(r) then Keys(r) else Keys(r) + [k]
  {
    if r == [] then [(k, v)]
    else if r[0].0 == k then
      var r' := [(k, v)] + r[1..];
      assert r'[1..] == r[1..];
      r'
    else
      var tail := Set(r[1..], k, v);
      var r' := [r[0]] + tail;
      assert r'[1..] == tail;
      r'
  }

  /** Assignment never stores a key twice. */
  lemma {:induction false} SetKeepsKeysDistinct(r: Record, k: string, v: string)
    requires DistinctKeys(r)
    ensures DistinctKeys(Set(r, k, v))
  {
    if r != [] && r[0].0 != k {
      SetKeepsKeysDistinct(r[1..], k, v);
      assert Set(r, k, v)[1..] == Set(r[1..], k, v);
    }
  }

  /** The i-th key is the key of the i-th entry. */
  lemma {:induction false} KeysAt(r: Record)
    ensures forall i :: 0 <= i < |r| ==> Keys(r)[i] == r[i].0
  {
    if r != [] {
      KeysAt(r[1..]);
      assert forall i :: 1 <= i < |r| ==> r[1..][i - 1] == r[i];
    }
  }

  /** Pairwise different keys make a record with distinct keys. */
  lemma {:induction false} PairwiseDistinctKeys(r: Record)
    requires forall i, j :: 0 <= i < j < |r| ==> r[i].0 != r[j].0
    ensures DistinctKeys(r)
  {
    if r != [] {
      PairwiseDistinctKeys(r[1..]);
      KeysAt(r[1..]);
    }
  }

  /** Assigning a key the record does not hold appends the entry at the end. */
  lemma {:induction false} SetNewKeyAppends(r: Record, k: string, v: string)
    requires k !in Keys(r)
    ensures Set(r, k, v) == r + [(k, v)]
  {
    if r != [] {
      SetNewKeyAppends(r[1..], k, v);
      assert r == [r[0]] + r[1..];
    }
  }
}
