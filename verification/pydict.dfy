/**
  Python's insertion-ordered `dict` from string to string. Assigning to a present key keeps
  its position; a new key goes to the end. `report_data`, the section field maps and the
  detected-resource map are all of this kind.
 */
module PyDict {
  import opened Wrappers

  datatype Entry = Entry(key: string, value: string)

  type Dict = seq<Entry>

  function Keys(d: Dict): (ks: seq<string>)
    ensures |ks| == |d|
    ensures forall i :: 0 <= i < |d| ==> ks[i] == d[i].key
  {
    seq(|d|, i requires 0 <= i < |d| => d[i].key)
  }

  /** No key appears twice, as in every Python dict. */
  predicate UniqueKeys(d: Dict) {
    forall i, j :: 0 <= i < j < |d| ==> d[i].key != d[j].key
  }

  /** Position of `k`, or -1 when absent. */
  function IndexOf(d: Dict, k: string): (i: int)
    ensures -1 <= i < |d|
    ensures 0 <= i ==> d[i].key == k
    ensures forall j :: 0 <= j < |d| && (i < 0 || j < i) ==> d[j].key != k
  {
    if |d| == 0 then -1
    else if d[0].key == k then 0
    else
      var j := IndexOf(d[1..], k);
      if j < 0 then -1 else j + 1
  }

  /** `d.get(k)`: the value stored under `k`, or None when `k` is absent. */
  function Get(d: Dict, k: string): (r: Option<string>)
    ensures r.Some? <==> k in Keys(d)
    ensures r.Some? ==> Entry(k, r.value) in d
  {
    var i := IndexOf(d, k);
    if i < 0 then None else Some(d[i].value)
  }

  /** `d.get(k, default)`. */
  function GetOr(d: Dict, k: string, default: string): (r: string)
    ensures k !in Keys(d) ==> r == default
    ensures k in Keys(d) ==> Entry(k, r) in d
  {
    Get(d, k).GetOr(default)
  }

  /** In a dict the stored entry for a key is the only one. */
  lemma GetUnique(d: Dict, k: string, v: string)
    requires UniqueKeys(d) && Entry(k, v) in d
    ensures Get(d, k) == Some(v)
  {
  }

  /** `d[k] = v`: a present key keeps its place, a new one goes to the end. */
  function Set(d: Dict, k: string, v: string): (r: Dict)
    ensures Keys(r) == if k in Keys(d) then Keys(d) else Keys(d) + [k]
  {
    var i := IndexOf(d, k);
    if i < 0 then
      var r := d + [Entry(k, v)];
      assert Keys(r) == Keys(d) + [k];
      r
    else
      var r := d[i := Entry(k, v)];
      assert Keys(r) == Keys(d);
      r
  }

  /** After `d[k] = v`, `k` reads `v` and every other key reads what it read before. */
  lemma SetGet(d: Dict, k: string, v: string, k': string)
    ensures Get(Set(d, k, v), k') == if k' == k then Some(v) else Get(d, k')
  {
    var i := IndexOf(d, k);
    var r := Set(d, k, v);
    if k' != k {
      if i < 0 {
        IndexOfAppend(d, Entry(k, v), k');
      } else {
        IndexOfSameKeys(r, d, k');
      }
    }
  }

  /** Whether keys repeat depends only on the keys. */
  lemma UniqueKeysOfKeys(a: Dict, b: Dict)
    requires Keys(a) == Keys(b)
    ensures UniqueKeys(a) <==> UniqueKeys(b)
  {
    assert forall m :: 0 <= m < |a| ==> a[m].key == Keys(a)[m] == Keys(b)[m] == b[m].key;
  }

  /** Assigning keeps the keys distinct. */
  lemma SetUnique(d: Dict, k: string, v: string)
    requires UniqueKeys(d)
    ensures UniqueKeys(Set(d, k, v))
  {
    var r := Set(d, k, v);
    if k in Keys(d) {
      UniqueKeysOfKeys(r, d);
    } else {
      assert forall m :: 0 <= m < |d| ==> r[m].key == Keys(r)[m] == Keys(d)[m] == d[m].key;
    }
  }

  /** The position of a key depends only on the keys. */
  lemma IndexOfSameKeys(a: Dict, b: Dict, k: string)
    requires Keys(a) == Keys(b)
    ensures IndexOf(a, k) == IndexOf(b, k)
  {
    assert |a| == |Keys(a)| == |b|;
    assert forall m :: 0 <= m < |a| ==> a[m].key == b[m].key by {
      forall m | 0 <= m < |a| ensures a[m].key == b[m].key {
        assert a[m].key == Keys(a)[m] == Keys(b)[m] == b[m].key;
      }
    }
  }

  /** Appending an entry for another key does not move `k`. */
  lemma IndexOfAppend(d: Dict, e: Entry, k: string)
    requires e.key != k
    ensures IndexOf(d + [e], k) == IndexOf(d, k)
  {
    assert forall m :: 0 <= m < |d| ==> (d + [e])[m] == d[m];
  }

  /** Setting a key to the value it already has changes nothing. */
  lemma SetSame(d: Dict, k: string, v: string)
    requires Get(d, k) == Some(v)
    ensures Set(d, k, v) == d
  {
    var i := IndexOf(d, k);
    assert d[i] == Entry(k, v);
  }

  /** `d.update(s)`: every entry of `s` is assigned into `d`, in `s`'s order. */
  function Update(d: Dict, s: Dict): (r: Dict)
    ensures |r| >= |d|
    decreases |s|
  {
    if |s| == 0 then d else Update(Set(d, s[0].key, s[0].value), s[1..])
  }

  /** `update` keeps the existing keys, in their order, at the front. */
  lemma {:induction false} UpdateKeepsOrder(d: Dict, s: Dict)
    ensures |Update(d, s)| >= |d| && Keys(Update(d, s))[..|d|] == Keys(d)
    decreases |s|
  {
    if |s| > 0 {
      var d' := Set(d, s[0].key, s[0].value);
      UpdateKeepsOrder(d', s[1..]);
      var r := Update(d', s[1..]);
      assert Keys(d')[..|d|] == Keys(d);
      assert Keys(r)[..|d|] == Keys(r)[..|d'|][..|d|];
    }
  }

  /** `update` keeps the keys distinct. */
  lemma {:induction false} UpdateUnique(d: Dict, s: Dict)
    requires UniqueKeys(d)
    ensures UniqueKeys(Update(d, s))
    decreases |s|
  {
    if |s| > 0 {
      SetUnique(d, s[0].key, s[0].value);
      UpdateUnique(Set(d, s[0].key, s[0].value), s[1..]);
    }
  }

  lemma KeysTail(s: Dict, k: string)
    requires |s| > 0
    ensures k in Keys(s) <==> k == s[0].key || k in Keys(s[1..])
  {
    if k in Keys(s) && k != s[0].key {
      var i :| 0 <= i < |s| && Keys(s)[i] == k;
      assert Keys(s[1..])[i - 1] == k;
    }
    if k in Keys(s[1..]) {
      var i :| 0 <= i < |s| - 1 && Keys(s[1..])[i] == k;
      assert Keys(s)[i + 1] == k;
    }
  }

  /** The keys after `d.update(s)` are those of `d` and those of `s`. */
  lemma {:induction false} UpdateKeys(d: Dict, s: Dict, k: string)
    ensures k in Keys(Update(d, s)) <==> k in Keys(d) || k in Keys(s)
    decreases |s|
  {
    if |s| > 0 {
      KeysTail(s, k);
      UpdateKeys(Set(d, s[0].key, s[0].value), s[1..], k);
    }
  }

  /** After `d.update(s)` a key maps to its value in `s` when `s` has it, and to its old value otherwise. */
  lemma {:induction false} UpdateGet(d: Dict, s: Dict, k: string)
    requires UniqueKeys(s)
    ensures Get(Update(d, s), k) == if k in Keys(s) then Get(s, k) else Get(d, k)
    decreases |s|
  {
    if |s| > 0 {
      var d' := Set(d, s[0].key, s[0].value);
      KeysTail(s, k);
      SetGet(d, s[0].key, s[0].value, k);
      UpdateGet(d', s[1..], k);
      if k == s[0].key {
        assert k !in Keys(s[1..]);
      } else if k in Keys(s) {
        var j :| 0 <= j < |s| && s[j].key == k;
        GetUnique(s, k, s[j].value);
        GetUnique(s[1..], k, s[j].value);
      }
    }
  }

  /** Applying the same update twice is applying it once. */
  lemma UpdateIdempotent(d: Dict, s: Dict)
    requires UniqueKeys(s)
    ensures Update(Update(d, s), s) == Update(d, s)
  {
    var u := Update(d, s);
    forall e | e in s
      ensures Get(u, e.key) == Some(e.value)
    {
      UpdateGet(d, s, e.key);
      GetUnique(s, e.key, e.value);
    }
    UpdateAlreadyPresent(u, s);
  }

  lemma {:induction false} UpdateAlreadyPresent(d: Dict, s: Dict)
    requires forall e :: e in s ==> Get(d, e.key) == Some(e.value)
    ensures Update(d, s) == d
    decreases |s|
  {
    if |s| > 0 {
      SetSame(d, s[0].key, s[0].value);
      UpdateAlreadyPresent(d, s[1..]);
    }
  }
}
