/** Python's `dict` with string keys as the compiler uses it: entries kept in
    insertion order, and `d[k] = v` on a present key replaces the value where
    the key already stands. */
module OrderedDicts {
  import opened PyResults

  datatype Entry<V> = Entry(key: string, value: V)

  type Dict<V> = seq<Entry<V>>

  predicate HasKey<V>(d: Dict<V>, k: string) {
    exists i :: 0 <= i < |d| && d[i].key == k
  }

  predicate UniqueKeys<V>(d: Dict<V>) {
    forall i, j :: 0 <= i < j < |d| ==> d[i].key != d[j].key
  }

  /** The position of key `k` in `d`: its first occurrence. */
  function KeyIndex<V>(d: Dict<V>, k: string): (i: nat)
    requires HasKey(d, k)
    ensures i < |d| && d[i].key == k
    ensures forall j :: 0 <= j < i ==> d[j].key != k
  {
    if d[0].key == k then 0
    else
      assert HasKey(d[1..], k) by {
        var i :| 0 <= i < |d| && d[i].key == k;
        assert d[1..][i - 1].key == k;
      }
      1 + KeyIndex(d[1..], k)
  }

  /** `d.get(k)`. */
  function Get<V>(d: Dict<V>, k: string): (r: Option<V>)
    ensures r.Some? <==> HasKey(d, k)
    ensures r.Some? ==> exists i :: 0 <= i < |d| && d[i] == Entry(k, r.value)
  {
    if HasKey(d, k) then Some(d[KeyIndex(d, k)].value) else None
  }

  /** `d[k] = v`. */
  function Put<V>(d: Dict<V>, k: string, v: V): Dict<V> {
    if HasKey(d, k) then d[KeyIndex(d, k) := Entry(k, v)] else d + [Entry(k, v)]
  }

  /** `d[k] = v` overwrites the entry of a present key in place and appends
      an absent one; every other entry stays where it was. */
  lemma PutShape<V>(d: Dict<V>, k: string, v: V)
    ensures |Put(d, k, v)| == if HasKey(d, k) then |d| else |d| + 1
    ensures HasKey(d, k) ==> Put(d, k, v)[KeyIndex(d, k)] == Entry(k, v)
    ensures !HasKey(d, k) ==> Put(d, k, v) == d + [Entry(k, v)]
    ensures forall i :: 0 <= i < |d| && d[i].key != k ==> Put(d, k, v)[i] == d[i]
  {
  }

  /** `d[k] = v` grows the dictionary exactly when `k` is new. */
  lemma PutSize<V>(d: Dict<V>, k: string, v: V)
    ensures |Put(d, k, v)| == if HasKey(d, k) then |d| else |d| + 1
  {
  }

  /** `if p: d[k] = v`. */
  function PutIf<V>(d: Dict<V>, p: bool, k: string, v: V): Dict<V> {
    if p then Put(d, k, v) else d
  }

  /** After `d[k] = v`, `k` maps to `v` and every other key keeps its value. */
  lemma PutGet<V>(d: Dict<V>, k: string, v: V, k': string)
    ensures Get(Put(d, k, v), k') == if k' == k then Some(v) else Get(d, k')
  {
    var r := Put(d, k, v);
    PutShape(d, k, v);
    if HasKey(d, k') {
      var i := KeyIndex(d, k');
      assert r[i].key == k';
      assert KeyIndex(r, k') == i;
    } else if k' != k {
      assert !HasKey(r, k');
    } else {
      assert r[|r| - 1].key == k;
      assert KeyIndex(r, k) == |d|;
    }
  }

  /** Assignment keeps the keys distinct. */
  lemma PutUnique<V>(d: Dict<V>, k: string, v: V)
    requires UniqueKeys(d)
    ensures UniqueKeys(Put(d, k, v))
  {
    var r := Put(d, k, v);
    PutShape(d, k, v);
    forall i, j | 0 <= i < j < |r| ensures r[i].key != r[j].key {
      if HasKey(d, k) {
        assert r[i].key == d[i].key && r[j].key == d[j].key;
      } else if j == |d| {
        assert r[i] == d[i];
      }
    }
  }
}
