/** A plain JavaScript object used as a dictionary, as the converter uses
    `transformedStyle` and `transformedStyles`: a list of key/value entries in
    insertion order. Assigning `obj[k] = v` replaces the value of an existing
    key where it stands and appends a new key at the end. */
module Objects {
  import opened Wrappers

  /** `Object.keys(obj)`, in insertion order. */
  function Keys<V>(m: seq<(string, V)>): (ks: seq<string>)
    ensures |ks| == |m|
    ensures forall i :: 0 <= i < |m| ==> ks[i] == m[i].0
  {
    seq(|m|, i requires 0 <= i < |m| => m[i].0)
  }

  predicate Distinct(s: seq<string>) {
    forall i, j :: 0 <= i < j < |s| ==> s[i] != s[j]
  }

  /** The position of the first entry with key `k`. */
  function Find<V>(m: seq<(string, V)>, k: string): (r: Option<nat>)
    ensures r.Some? ==> r.value < |m| && m[r.value].0 == k
    ensures r.Some? ==> forall j :: 0 <= j < r.value ==> m[j].0 != k
    ensures r.None? ==> forall j :: 0 <= j < |m| ==> m[j].0 != k
  {
    if m == [] then None
    else if m[0].0 == k then Some(0)
    else match Find(m[1..], k)
      case None => None
      case Some(i) => Some(i + 1)
  }

  /** `Find` is determined by the entries up to and including the first with
      key `k`. */
  lemma FindIs<V>(m: seq<(string, V)>, k: string, i: nat)
    requires i < |m| && m[i].0 == k
    requires forall j :: 0 <= j < i ==> m[j].0 != k
    ensures Find(m, k) == Some(i)
  {
  }

  /** `obj[k]`, or None when `k` is not a key. */
  function Lookup<V>(m: seq<(string, V)>, k: string): (r: Option<V>)
    ensures r.None? <==> k !in Keys(m)
  {
    match Find(m, k)
    case None => None
    case Some(i) => Some(m[i].1)
  }

  /** `obj[k] = v`. */
  function Upsert<V>(m: seq<(string, V)>, k: string, v: V): (r: seq<(string, V)>)
    ensures Keys(r) == if k in Keys(m) then Keys(m) else Keys(m) + [k]
    ensures Lookup(r, k) == Some(v)
    ensures forall j :: j != k ==> Lookup(r, j) == Lookup(m, j)
  {
    match Find(m, k)
    case None =>
      var r := m + [(k, v)];
      FindIs(r, k, |m|);
      forall j | j != k ensures Find(r, j) == Find(m, j) {
        if Find(m, j).Some? {
          FindIs(r, j, Find(m, j).value);
        }
      }
      r
    case Some(i) =>
      var r := m[i := (k, v)];
      FindIs(r, k, i);
      forall j | j != k ensures Find(r, j) == Find(m, j) {
        if Find(m, j).Some? {
          FindIs(r, j, Find(m, j).value);
        }
      }
      r
  }

  /** Assigning keeps the keys distinct. */
  lemma UpsertDistinct<V>(m: seq<(string, V)>, k: string, v: V)
    requires Distinct(Keys(m))
    ensures Distinct(Keys(Upsert(m, k, v)))
  {
    var ks := Keys(m);
    if k !in ks {
      assert Keys(Upsert(m, k, v)) == ks + [k];
    }
  }

  /** Assigning a key that is not there yet appends it. */
  lemma UpsertFresh<V>(m: seq<(string, V)>, k: string, v: V)
    requires k !in Keys(m)
    ensures Upsert(m, k, v) == m + [(k, v)]
  {
  }

  /** In a list with distinct keys, looking up the key at position `i` gives
      the value at position `i`. */
  lemma LookupAt<V>(m: seq<(string, V)>, i: nat)
    requires Distinct(Keys(m)) && i < |m|
    ensures Lookup(m, m[i].0) == Some(m[i].1)
  {
    forall j | 0 <= j < i ensures m[j].0 != m[i].0 {
      assert Keys(m)[j] != Keys(m)[i];
    }
    FindIs(m, m[i].0, i);
  }

  /** A key that is present holds the value of some entry. */
  lemma LookupIn<V>(m: seq<(string, V)>, k: string)
    requires k in Keys(m)
    ensures exists i :: 0 <= i < |m| && m[i].0 == k && Lookup(m, k) == Some(m[i].1)
  {
    var i := Find(m, k).value;
    assert m[i].0 == k && Lookup(m, k) == Some(m[i].1);
  }
}
