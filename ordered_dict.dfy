/**
 * A Python `dict` with string keys: an association list in insertion order.
 * Assigning to a key that is already present overwrites its value and keeps
 * its position; assigning to a new key appends it.
 */
module OrderedDict {
  import opened Results

  type Dict<V> = seq<(string, V)>

  function Keys<V>(d: Dict<V>): (ks: seq<string>)
    ensures |ks| == |d| && forall i :: 0 <= i < |d| ==> ks[i] == d[i].0
  {
    seq(|d|, i requires 0 <= i < |d| => d[i].0)
  }

  function Values<V>(d: Dict<V>): (vs: seq<V>)
    ensures |vs| == |d| && forall i :: 0 <= i < |d| ==> vs[i] == d[i].1
  {
    seq(|d|, i requires 0 <= i < |d| => d[i].1)
  }

  /** The invariant of a Python dict: no key twice. */
  predicate UniqueKeys<V>(d: Dict<V>)
  {
    forall i, j :: 0 <= i < j < |d| ==> d[i].0 != d[j].0
  }

  /** Position of key `k`, if present. */
  function IndexOf<V>(d: Dict<V>, k: string): (r: Option<nat>)
    ensures r.Some? ==> r.value < |d| && d[r.value].0 == k && forall j :: 0 <= j < r.value ==> d[j].0 != k
    ensures r.None? ==> forall j :: 0 <= j < |d| ==> d[j].0 != k
  {
    if d == [] then None
    else if d[0].0 == k then Some(0)
    else match IndexOf(d[1..], k)
      case None => None
      case Some(i) => Some(i + 1)
  }

  /** `d.get(k)` */
  function Get<V>(d: Dict<V>, k: string): (r: Option<V>)
  {
    match IndexOf(d, k)
    case None => None
    case Some(i) => Some(d[i].1)
  }

  lemma GetAt<V>(d: Dict<V>, i: nat)
    requires UniqueKeys(d) && i < |d|
    ensures Get(d, d[i].0) == Some(d[i].1)
  {
  }

  /** `d[k] = v` */
  function Put<V>(d: Dict<V>, k: string, v: V): (r: Dict<V>)
    ensures UniqueKeys(d) ==> UniqueKeys(r)
    ensures Get(r, k) == Some(v)
    ensures forall k' :: k' != k ==> Get(r, k') == Get(d, k')
    ensures k in Keys(d) ==> Keys(r) == Keys(d)
    ensures k !in Keys(d) ==> Keys(r) == Keys(d) + [k]
  {
    match IndexOf(d, k)
    case Some(i) =>
      var r := d[i := (k, v)];
      assert forall k' :: k' != k ==> IndexOf(r, k') == IndexOf(d, k') by {
        forall k' | k' != k ensures IndexOf(r, k') == IndexOf(d, k') {
          IndexOfUpdate(d, i, k, v, k');
        }
      }
      assert Keys(r) == Keys(d);
      r
    case None =>
      var r := d + [(k, v)];
      assert forall k' :: k' != k ==> IndexOf(r, k') == IndexOf(d, k') by {
        forall k' | k' != k ensures IndexOf(r, k') == IndexOf(d, k') {
          IndexOfAppend(d, k, v, k');
        }
      }
      IndexOfAppend(d, k, v, k);
      assert k !in Keys(d);
      r
  }

  /** Replacing the value at a position keeps the keys. */
  lemma KeysUpdate<V>(d: Dict<V>, j: nat, v: V)
    requires j < |d|
    ensures Keys(d[j := (d[j].0, v)]) == Keys(d)
  {
    var r := d[j := (d[j].0, v)];
    assert forall i :: 0 <= i < |d| ==> Keys(r)[i] == Keys(d)[i];
  }

  /** Assigning a new key appends it. */
  lemma PutNew<V>(d: Dict<V>, k: string, v: V)
    requires k !in Keys(d)
    ensures Put(d, k, v) == d + [(k, v)]
  {
  }

  /** A dict seen as its first entry and the rest. */
  lemma KeysCons<V>(d: Dict<V>)
    requires d != []
    ensures Keys(d) == [d[0].0] + Keys(d[1..])
    ensures UniqueKeys(d) ==> UniqueKeys(d[1..]) && d[0].0 !in Keys(d[1..])
  {
    assert Keys(d) == [d[0].0] + Keys(d[1..]);
    if UniqueKeys(d) {
      forall j | 0 <= j < |d[1..]| ensures Keys(d[1..])[j] != d[0].0 {
        assert d[1..][j] == d[j + 1];
      }
    }
  }

  /** The keys after `d[k] = v`: those of `d`, and `k`. */
  lemma PutKeys<V>(d: Dict<V>, k: string, v: V)
    ensures forall t :: t in Keys(Put(d, k, v)) <==> t in Keys(d) || t == k
  {
  }

  /** Looking up in a dict seen as its first entry and the rest. */
  lemma GetCons<V>(d: Dict<V>, t: string)
    requires d != []
    ensures Get(d, t) == if d[0].0 == t then Some(d[0].1) else Get(d[1..], t)
  {
  }

  lemma KeysConcat<V>(a: Dict<V>, b: Dict<V>)
    ensures Keys(a + b) == Keys(a) + Keys(b)
  {
    assert forall i :: 0 <= i < |a| + |b| ==> Keys(a + b)[i] == (Keys(a) + Keys(b))[i];
  }

  lemma ConcatAssoc<T>(a: seq<T>, b: seq<T>, c: seq<T>)
    ensures (a + b) + c == a + (b + c)
  {
  }

  /** Looking up in a dict with one more, new, key at the end. */
  lemma GetSnoc<V>(d: Dict<V>, k: string, v: V, t: string)
    requires k !in Keys(d)
    ensures Get(d + [(k, v)], t) == if t == k then Some(v) else Get(d, t)
  {
    if t == k {
      assert forall j :: 0 <= j < |d| ==> Keys(d)[j] != k;
    }
    IndexOfAppend(d, k, v, t);
  }

  /** After `d[k] = v` every value is `v` or a value `d` already had. */
  lemma PutValues<V>(d: Dict<V>, k: string, v: V)
    ensures forall x :: x in Values(Put(d, k, v)) ==> x == v || x in Values(d)
  {
    var r := Put(d, k, v);
    forall x | x in Values(r) ensures x == v || x in Values(d) {
      var i :| 0 <= i < |r| && Values(r)[i] == x;
      match IndexOf(d, k)
      case Some(j) =>
        if i != j {
          assert r[i] == d[i];
          assert Values(d)[i] == x;
        }
      case None =>
        if i < |d| {
          assert r[i] == d[i];
          assert Values(d)[i] == x;
        }
    }
  }

  lemma {:induction false} IndexOfUpdate<V>(d: Dict<V>, i: nat, k: string, v: V, k': string)
    requires i < |d| && d[i].0 == k && k' != k
    ensures IndexOf(d[i := (k, v)], k') == IndexOf(d, k')
    decreases |d|
  {
    if i > 0 {
      assert d[i := (k, v)][1..] == d[1..][i - 1 := (k, v)];
      IndexOfUpdate(d[1..], i - 1, k, v, k');
    }
  }

  lemma {:induction false} IndexOfAppend<V>(d: Dict<V>, k: string, v: V, k': string)
    requires k == k' ==> forall j :: 0 <= j < |d| ==> d[j].0 != k
    ensures k' != k ==> IndexOf(d + [(k, v)], k') == IndexOf(d, k')
    ensures k' == k ==> IndexOf(d + [(k, v)], k') == Some(|d|)
    decreases |d|
  {
    if d != [] {
      assert (d + [(k, v)])[1..] == d[1..] + [(k, v)];
      IndexOfAppend(d[1..], k, v, k');
    }
  }

  /** The dict built by assigning the pairs one after another (`{k: v for k, v in pairs}`). */
  function FromPairs<V>(ps: seq<(string, V)>): (r: Dict<V>)
    ensures UniqueKeys(r)
    ensures forall k :: k in Keys(r) <==> k in Keys(ps)
  {
    if ps == [] then []
    else
      var r := Put(FromPairs(ps[..|ps| - 1]), ps[|ps| - 1].0, ps[|ps| - 1].1);
      assert Keys(ps) == Keys(ps[..|ps| - 1]) + [ps[|ps| - 1].0];
      r
  }

  /** Assigning one more pair of a list. */
  lemma FromPairsStep<V>(ps: seq<(string, V)>, i: nat)
    requires i < |ps|
    ensures FromPairs(ps[..i + 1]) == Put(FromPairs(ps[..i]), ps[i].0, ps[i].1)
  {
    assert ps[..i + 1][..i] == ps[..i];
  }

  /** Assigning pairs whose keys are all distinct rebuilds exactly those pairs, in order. */
  lemma {:induction false} FromUniquePairs<V>(ps: seq<(string, V)>)
    requires UniqueKeys(ps)
    ensures FromPairs(ps) == ps
  {
    if ps != [] {
      var init := ps[..|ps| - 1];
      var last := ps[|ps| - 1];
      LastKeyNew(ps);
      FromUniquePairs(init);
      PutNew(init, last.0, last.1);
      assert init + [last] == ps;
    }
  }

  /** Without its last pair a dict keeps distinct keys and lacks the last key. */
  lemma LastKeyNew<V>(ps: seq<(string, V)>)
    requires UniqueKeys(ps) && ps != []
    ensures UniqueKeys(ps[..|ps| - 1]) && ps[|ps| - 1].0 !in Keys(ps[..|ps| - 1])
  {
    var init := ps[..|ps| - 1];
    forall i | 0 <= i < |init| ensures Keys(init)[i] != ps[|ps| - 1].0 {
      assert init[i] == ps[i];
    }
  }

  /** The value a sequence of assignments leaves for `k`: the last one made. */
  lemma {:induction false} FromPairsLastWins<V>(ps: seq<(string, V)>, i: nat)
    requires i < |ps|
    requires forall j :: i < j < |ps| ==> ps[j].0 != ps[i].0
    ensures Get(FromPairs(ps), ps[i].0) == Some(ps[i].1)
  {
    if i < |ps| - 1 {
      FromPairsLastWins(ps[..|ps| - 1], i);
    }
  }

  /** The pairs of `d` with every key passed through `f`, in order. */
  function MapKeys<V>(d: Dict<V>, f: string -> string): (ps: seq<(string, V)>)
    ensures |ps| == |d| && forall i :: 0 <= i < |d| ==> ps[i] == (f(d[i].0), d[i].1)
  {
    seq(|d|, i requires 0 <= i < |d| => (f(d[i].0), d[i].1))
  }

  /** `{f(k): v for k, v in d.items()}`: keys that collide keep the first position and the last value. */
  function RenameKeys<V>(d: Dict<V>, f: string -> string): Dict<V>
  {
    FromPairs(MapKeys(d, f))
  }

  /** When no two keys are renamed alike, the renamed dict keeps every entry, in order. */
  lemma RenameKeysDistinct<V>(d: Dict<V>, f: string -> string)
    requires forall i, j :: 0 <= i < j < |d| ==> f(d[i].0) != f(d[j].0)
    ensures RenameKeys(d, f) == MapKeys(d, f)
  {
    FromUniquePairs(MapKeys(d, f));
  }

  /** Each renamed key holds the value of the last entry renamed to it. */
  lemma RenameKeysLastWins<V>(d: Dict<V>, f: string -> string, i: nat)
    requires i < |d|
    requires forall j :: i < j < |d| ==> f(d[j].0) != f(d[i].0)
    ensures Get(RenameKeys(d, f), f(d[i].0)) == Some(d[i].1)
  {
    FromPairsLastWins(MapKeys(d, f), i);
  }

  /** Renaming twice with an idempotent renaming is renaming once. */
  lemma RenameKeysIdempotent<V>(d: Dict<V>, f: string -> string)
    requires forall i :: 0 <= i < |d| ==> f(f(d[i].0)) == f(d[i].0)
    ensures RenameKeys(RenameKeys(d, f), f) == RenameKeys(d, f)
  {
    var ps := MapKeys(d, f);
    var r := FromPairs(ps);
    forall i | 0 <= i < |r| ensures f(r[i].0) == r[i].0 {
      assert r[i].0 in Keys(r);
      var j :| 0 <= j < |ps| && Keys(ps)[j] == r[i].0;
    }
    assert MapKeys(r, f) == r;
    FromUniquePairs(r);
  }

  /** Every value replaced by `f(key, value)`, keys untouched and in order. */
  function UpdateValues<V>(d: Dict<V>, f: (string, V) -> V): (r: Dict<V>)
    ensures |r| == |d| && forall i :: 0 <= i < |d| ==> r[i] == (d[i].0, f(d[i].0, d[i].1))
  {
    seq(|d|, i requires 0 <= i < |d| => (d[i].0, f(d[i].0, d[i].1)))
  }

  /**
   * `{k: f(k, v) for k, v in d.items()}` on a dict: the result has exactly
   * the keys of `d`, in the same order, each with its updated value.
   */
  lemma UpdateValuesRebuilt<V>(d: Dict<V>, f: (string, V) -> V)
    requires UniqueKeys(d)
    ensures FromPairs(UpdateValues(d, f)) == UpdateValues(d, f)
    ensures Keys(UpdateValues(d, f)) == Keys(d)
  {
    FromUniquePairs(UpdateValues(d, f));
  }

  /** The pairs `zip(ks, vs)`. */
  function Zip<V>(ks: seq<string>, vs: seq<V>): (ps: seq<(string, V)>)
    requires |ks| == |vs|
    ensures |ps| == |ks| && forall i :: 0 <= i < |ks| ==> ps[i] == (ks[i], vs[i])
  {
    seq(|ks|, i requires 0 <= i < |ks| => (ks[i], vs[i]))
  }

  /** A dict filled from `zip(ks, vs)` has exactly the keys `ks`, each with its last value. */
  lemma ZipFilled<V>(ks: seq<string>, vs: seq<V>)
    requires |ks| == |vs|
    ensures forall k :: k in Keys(FromPairs(Zip(ks, vs))) <==> k in ks
    ensures forall i :: 0 <= i < |ks| && (forall j :: i < j < |ks| ==> ks[j] != ks[i]) ==>
      Get(FromPairs(Zip(ks, vs)), ks[i]) == Some(vs[i])
  {
    var ps := Zip(ks, vs);
    forall k ensures k in Keys(ps) <==> k in ks {
      if k in ks {
        var i :| 0 <= i < |ks| && ks[i] == k;
        assert Keys(ps)[i] == k;
      }
    }
    forall i | 0 <= i < |ks| && (forall j :: i < j < |ks| ==> ks[j] != ks[i])
      ensures Get(FromPairs(ps), ks[i]) == Some(vs[i])
    {
      FromPairsLastWins(ps, i);
    }
  }
}
