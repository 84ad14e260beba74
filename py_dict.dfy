/**
 * Python's `dict(zip(keys, values))`, for the string keys it is used with:
 * an insertion-ordered list of entries. Building a dict from pairs keeps one
 * entry per key: a key stays at the position where it was first inserted
 * and holds the value of its last pair.
 */
module PyDict {
  import opened Wrappers

  datatype Entry<V> = Entry(key: string, value: V)

  /** A dict, as the list of its entries in insertion order. */
  datatype Dict<V> = Dict(entries: seq<Entry<V>>)

  /** The dict invariant: no key occurs twice. */
  predicate KeysDistinct<V>(es: seq<Entry<V>>) {
    forall i, j :: 0 <= i < j < |es| ==> es[i].key != es[j].key
  }

  /** Position of the entry with key `k`, if any. */
  function Find<V>(es: seq<Entry<V>>, k: string): (r: Option<nat>)
    ensures r.Some? ==> r.value < |es| && es[r.value].key == k
  {
    if es == [] then None
    else if es[0].key == k then Some(0)
    else match Find(es[1..], k)
      case None => None
      case Some(i) => Some(i + 1)
  }

  /** `d.get(k)`: the value stored under `k`, or None. */
  function Get<V>(d: Dict<V>, k: string): Option<V> {
    match Find(d.entries, k)
    case None => None
    case Some(i) => Some(d.entries[i].value)
  }

  /** `d[k] = v`: overwrite the value in place when `k` is present, append otherwise. */
  function Put<V>(d: Dict<V>, k: string, v: V): (r: Dict<V>)
    ensures |d.entries| <= |r.entries| <= |d.entries| + 1
  {
    match Find(d.entries, k)
    case Some(i) => Dict(d.entries[i := Entry(k, v)])
    case None => Dict(d.entries + [Entry(k, v)])
  }

  /** `Find` fails exactly when no entry has the key, and otherwise finds its first entry. */
  lemma {:induction false} FindSpec<V>(es: seq<Entry<V>>, k: string)
    ensures Find(es, k).None? <==> forall i :: 0 <= i < |es| ==> es[i].key != k
    ensures Find(es, k).Some? ==> forall i :: 0 <= i < Find(es, k).value ==> es[i].key != k
  {
    if es != [] && es[0].key != k {
      FindSpec(es[1..], k);
    }
  }

  /** `Find` returns the first position holding the key, so that position determines it. */
  lemma FindIsFirst<V>(es: seq<Entry<V>>, k: string, p: nat)
    requires p < |es| && es[p].key == k
    requires forall i :: 0 <= i < p ==> es[i].key != k
    ensures Find(es, k) == Some(p)
  {
    FindSpec(es, k);
  }

  /** `d[k] = v` keeps every existing key at its position and keeps the keys distinct. */
  lemma PutKeepsKeysDistinct<V>(d: Dict<V>, k: string, v: V)
    requires KeysDistinct(d.entries)
    ensures forall i :: 0 <= i < |d.entries| ==> Put(d, k, v).entries[i].key == d.entries[i].key
    ensures KeysDistinct(Put(d, k, v).entries)
  {
    FindSpec(d.entries, k);
  }

  /** After `d[k] = v`, `k` holds `v` and every other key holds what it held before. */
  lemma PutGet<V>(d: Dict<V>, k: string, v: V, k': string)
    ensures Get(Put(d, k, v), k') == if k' == k then Some(v) else Get(d, k')
  {
    var r := Put(d, k, v);
    FindSpec(d.entries, k);
    FindSpec(d.entries, k');
    match Find(d.entries, k)
    case Some(i) =>
      if k' == k {
        FindIsFirst(r.entries, k, i);
      } else if Find(d.entries, k').Some? {
        FindIsFirst(r.entries, k', Find(d.entries, k').value);
      }
    case None =>
      if k' == k {
        FindIsFirst(r.entries, k, |d.entries|);
      } else if Find(d.entries, k').Some? {
        FindIsFirst(r.entries, k', Find(d.entries, k').value);
      }
  }

  /** `zip(xs, ys)`: pairs up to the shorter of the two. */
  function Zip<A, B>(xs: seq<A>, ys: seq<B>): (ps: seq<(A, B)>)
    ensures |ps| == if |xs| <= |ys| then |xs| else |ys|
  {
    if xs == [] || ys == [] then [] else [(xs[0], ys[0])] + Zip(xs[1..], ys[1..])
  }

  /** The i-th pair of `zip(xs, ys)` holds the i-th elements of both. */
  lemma {:induction false} ZipAt<A, B>(xs: seq<A>, ys: seq<B>)
    ensures forall i :: 0 <= i < |Zip(xs, ys)| ==> Zip(xs, ys)[i] == (xs[i], ys[i])
  {
    if xs != [] && ys != [] {
      ZipAt(xs[1..], ys[1..]);
    }
  }

  /** `dict(pairs)`: insert the pairs from left to right. */
  function FromPairs<V>(ps: seq<(string, V)>): (d: Dict<V>)
    ensures |d.entries| <= |ps|
  {
    if ps == [] then Dict([]) else Put(FromPairs(ps[..|ps| - 1]), ps[|ps| - 1].0, ps[|ps| - 1].1)
  }

  /** A dict built from pairs has one entry per key. */
  lemma {:induction false} FromPairsKeysDistinct<V>(ps: seq<(string, V)>)
    ensures KeysDistinct(FromPairs(ps).entries)
  {
    if ps != [] {
      var init, last := ps[..|ps| - 1], ps[|ps| - 1];
      FromPairsKeysDistinct(init);
      PutKeepsKeysDistinct(FromPairs(init), last.0, last.1);
    }
  }

  /** Inserting more pairs never moves a key: the dict of a prefix lines up with the whole dict. */
  lemma {:induction false} FromPairsPrefixKeys<V>(ps: seq<(string, V)>, m: nat)
    requires m <= |ps|
    ensures |FromPairs(ps[..m]).entries| <= |FromPairs(ps).entries|
    ensures forall j :: 0 <= j < |FromPairs(ps[..m]).entries| ==>
      FromPairs(ps).entries[j].key == FromPairs(ps[..m]).entries[j].key
  {
    if m < |ps| {
      var init := ps[..|ps| - 1];
      assert init[..m] == ps[..m];
      FromPairsPrefixKeys(init, m);
      FromPairsKeysDistinct(init);
      PutKeepsKeysDistinct(FromPairs(init), ps[|ps| - 1].0, ps[|ps| - 1].1);
    } else {
      assert ps[..m] == ps;
    }
  }

  /** Last write wins: the value stored under a key is that of its last pair. */
  lemma {:induction false} FromPairsLastWins<V>(ps: seq<(string, V)>, i: nat)
    requires i < |ps|
    requires forall j :: i < j < |ps| ==> ps[j].0 != ps[i].0
    ensures Get(FromPairs(ps), ps[i].0) == Some(ps[i].1)
  {
    var init, last := ps[..|ps| - 1], ps[|ps| - 1];
    PutGet(FromPairs(init), last.0, last.1, ps[i].0);
    if i < |ps| - 1 {
      FromPairsLastWins(init, i);
    }
  }

  /** A key that no pair carries is absent from the dict. */
  lemma {:induction false} FromPairsAbsent<V>(ps: seq<(string, V)>, k: string)
    requires forall j :: 0 <= j < |ps| ==> ps[j].0 != k
    ensures Get(FromPairs(ps), k) == None
  {
    if ps != [] {
      var init, last := ps[..|ps| - 1], ps[|ps| - 1];
      PutGet(FromPairs(init), last.0, last.1, k);
      FromPairsAbsent(init, k);
    }
  }

  /** With distinct keys, the dict holds every pair, in order. */
  lemma {:induction false} FromPairsOfDistinct<V>(ps: seq<(string, V)>)
    requires forall i, j :: 0 <= i < j < |ps| ==> ps[i].0 != ps[j].0
    ensures FromPairs(ps).entries == seq(|ps|, i requires 0 <= i < |ps| => Entry(ps[i].0, ps[i].1))
  {
    if ps != [] {
      var init := ps[..|ps| - 1];
      var last := ps[|ps| - 1];
      var prefix := seq(|init|, i requires 0 <= i < |init| => Entry(init[i].0, init[i].1));
      FromPairsOfDistinct(init);
      FromPairsAbsent(init, last.0);
      assert Find(FromPairs(init).entries, last.0).None?;
      assert FromPairs(ps).entries == prefix + [Entry(last.0, last.1)];
      assert prefix + [Entry(last.0, last.1)]
        == seq(|ps|, i requires 0 <= i < |ps| => Entry(ps[i].0, ps[i].1));
    }
  }
}
