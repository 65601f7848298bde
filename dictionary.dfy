/** A .NET `Dictionary<string, string>` as the sequence of its entries in enumeration
    order.  The modelled code only ever adds entries, or removes a key and at
    once adds it back; the removed slot is the first one reused, so such an
    overwrite keeps the entry where it was and a new key goes last. */
module Dictionary {
  import opened Common

  type Entries = seq<(string, string)>

  /** The keys, in enumeration order. */
  function Keys(d: Entries): (r: seq<string>)
    ensures |r| == |d|
    ensures forall i :: 0 <= i < |d| ==> r[i] == d[i].0
  {
    if |d| == 0 then [] else Keys(d[..|d| - 1]) + [d[|d| - 1].0]
  }

  /** The invariant of every dictionary: no key twice. */
  ghost predicate Valid(d: Entries)
  {
    forall i, j :: 0 <= i < j < |d| ==> d[i].0 != d[j].0
  }

  predicate HasKey(d: Entries, k: string)
  {
    exists i :: 0 <= i < |d| && d[i].0 == k
  }

  /** `TryGetValue`: the value stored under `k`, or None. */
  function Get(d: Entries, k: string): (r: Option<string>)
    ensures r.None? <==> !HasKey(d, k)
    ensures r.Some? ==> exists i :: 0 <= i < |d| && d[i] == (k, r.value)
  {
    if |d| == 0 then None
    else if d[|d| - 1].0 == k then Some(d[|d| - 1].1)
    else
      var r := Get(d[..|d| - 1], k);
      assert forall i :: 0 <= i < |d| - 1 ==> d[..|d| - 1][i] == d[i];
      r
  }

  /** The position of `k`, when present. */
  function IndexOfKey(d: Entries, k: string): (r: Option<nat>)
    ensures r.None? <==> !HasKey(d, k)
    ensures r.Some? ==> r.value < |d| && d[r.value].0 == k
  {
    if |d| == 0 then None
    else if d[|d| - 1].0 == k then Some(|d| - 1)
    else
      var r := IndexOfKey(d[..|d| - 1], k);
      assert forall i :: 0 <= i < |d| - 1 ==> d[..|d| - 1][i] == d[i];
      r
  }

  /** `d.Remove(k); d.Add(k, v);`: overwrite in place, or add at the end. */
  function Put(d: Entries, k: string, v: string): Entries
  {
    match IndexOfKey(d, k)
    case Some(i) => d[i := (k, v)]
    case None => d + [(k, v)]
  }

  /** The entries as a mathematical map. */
  function ToMap(d: Entries): map<string, string>
  {
    if |d| == 0 then map[] else ToMap(d[..|d| - 1])[d[|d| - 1].0 := d[|d| - 1].1]
  }

  /** The map of a dictionary has exactly its keys, and each key maps to the
      value stored with it. */
  lemma {:induction false} ToMapEntries(d: Entries)
    requires Valid(d)
    ensures forall k :: k in ToMap(d) <==> HasKey(d, k)
    ensures forall i :: 0 <= i < |d| ==> d[i].0 in ToMap(d) && ToMap(d)[d[i].0] == d[i].1
  {
    if |d| > 0 {
      var p := d[..|d| - 1];
      ToMapEntries(p);
      assert forall i :: 0 <= i < |p| ==> p[i] == d[i];
      forall k ensures k in ToMap(d) <==> HasKey(d, k) {
        if HasKey(d, k) && k != d[|d| - 1].0 {
          var i :| 0 <= i < |d| && d[i].0 == k;
          assert HasKey(p, k);
        }
      }
    }
  }

  /** Overwriting keeps the keys distinct, makes `k` map to `v` and leaves
      every other key as it was. */
  lemma PutGet(d: Entries, k: string, v: string)
    requires Valid(d)
    ensures Valid(Put(d, k, v))
    ensures Get(Put(d, k, v), k) == Some(v)
    ensures forall k' :: k' != k ==> Get(Put(d, k, v), k') == Get(d, k')
  {
    var r := Put(d, k, v);
    assert Valid(r);
    match IndexOfKey(d, k) {
      case Some(i) => assert r[i] == (k, v);
      case None => assert r[|d|] == (k, v);
    }
    ValidGet(r, k, v);
    forall k' | k' != k ensures Get(r, k') == Get(d, k') {
      match Get(d, k')
      case Some(w) =>
        var i :| 0 <= i < |d| && d[i] == (k', w);
        assert r[i] == (k', w);
        ValidGet(r, k', w);
      case None =>
        assert !HasKey(r, k');
    }
  }

  /** A new key goes last; an existing one keeps its place. */
  lemma PutKeys(d: Entries, k: string, v: string)
    ensures Keys(Put(d, k, v)) == if HasKey(d, k) then Keys(d) else Keys(d) + [k]
  {
  }

  /** As a map, overwriting is map update. */
  lemma PutToMap(d: Entries, k: string, v: string)
    requires Valid(d)
    ensures ToMap(Put(d, k, v)) == ToMap(d)[k := v]
  {
    var r := Put(d, k, v);
    PutGet(d, k, v);
    ToMapEntries(d);
    ToMapEntries(r);
    var m := ToMap(d)[k := v];
    forall k' ensures k' in ToMap(r) <==> k' in m {
      if k' != k {
        assert HasKey(r, k') == Get(r, k').Some?;
        assert HasKey(d, k') == Get(d, k').Some?;
      }
    }
    forall k' | k' in m ensures ToMap(r)[k'] == m[k'] {
      var w := Get(r, k').value;
      var i :| 0 <= i < |r| && r[i] == (k', w);
      if k' != k {
        var j :| 0 <= j < |d| && d[j] == (k', w);
      }
    }
  }

  /** In a dictionary without repeated keys, the entry holding `k` gives the
      value `Get` returns. */
  lemma ValidGet(d: Entries, k: string, v: string)
    requires Valid(d)
    requires exists i :: 0 <= i < |d| && d[i] == (k, v)
    ensures Get(d, k) == Some(v)
  {
    var i :| 0 <= i < |d| && d[i] == (k, v);
    var w := Get(d, k).value;
    var j :| 0 <= j < |d| && d[j] == (k, w);
    assert i == j;
  }

  /** Overwriting with every entry of `e` in turn, as `After` does with the
      cookies of a response. */
  function PutAll(d: Entries, e: Entries): Entries
  {
    if |e| == 0 then d else Put(PutAll(d, e[..|e| - 1]), e[|e| - 1].0, e[|e| - 1].1)
  }

  /** After the merge no key appears twice, and the old entries keep their
      order at the front. */
  lemma {:induction false} PutAllValid(d: Entries, e: Entries)
    requires Valid(d)
    ensures Valid(PutAll(d, e))
    ensures |Keys(d)| <= |Keys(PutAll(d, e))| && Keys(PutAll(d, e))[..|d|] == Keys(d)
  {
    if |e| > 0 {
      var p := e[..|e| - 1];
      PutAllValid(d, p);
      var m := PutAll(d, p);
      PutGet(m, e[|e| - 1].0, e[|e| - 1].1);
      PutKeys(m, e[|e| - 1].0, e[|e| - 1].1);
    }
  }

  /** After the merge a key of `e` has its value from `e` and every other key
      keeps its old value. */
  lemma {:induction false} PutAllGet(d: Entries, e: Entries)
    requires Valid(d) && Valid(e)
    ensures forall k :: Get(PutAll(d, e), k) == if HasKey(e, k) then Get(e, k) else Get(d, k)
  {
    if |e| > 0 {
      var p := e[..|e| - 1];
      var last := e[|e| - 1];
      assert Valid(p);
      PutAllGet(d, p);
      PutAllValid(d, p);
      PutGet(PutAll(d, p), last.0, last.1);
      forall k ensures Get(PutAll(d, e), k) == if HasKey(e, k) then Get(e, k) else Get(d, k) {
        if k != last.0 {
          assert Get(e, k) == Get(p, k);
          assert HasKey(e, k) == Get(e, k).Some? && HasKey(p, k) == Get(p, k).Some?;
        }
      }
    }
  }
}
