/** Python's `dict` as the scanner uses it: items kept in insertion order,
    assignment to a present key replacing its value where it stands, and
    iteration in that order. */
module OrderedMaps {
  import opened Wrappers

  /** The items of a dict, in insertion order. */
  type Dict<K, V> = seq<(K, V)>

  /** No key appears twice. */
  predicate DistinctKeys<K(==), V>(d: Dict<K, V>) {
    forall i, j :: 0 <= i < j < |d| ==> d[i].0 != d[j].0
  }

  /** The position of key `k`, or -1 when it is absent. */
  function IndexOf<K(==), V>(d: Dict<K, V>, k: K): (i: int)
    ensures -1 <= i < |d|
    ensures i >= 0 ==> d[i].0 == k && forall j :: 0 <= j < i ==> d[j].0 != k
    ensures i < 0 ==> forall j :: 0 <= j < |d| ==> d[j].0 != k
    decreases |d|
  {
    if |d| == 0 then -1
    else if d[0].0 == k then 0
    else
      var i := IndexOf(d[1..], k);
      if i < 0 then -1 else i + 1
  }

  /** `d[k]`, with `None` for a missing key. */
  function Get<K(==), V>(d: Dict<K, V>, k: K): Option<V> {
    var i := IndexOf(d, k);
    if i < 0 then None else Some(d[i].1)
  }

  /** `d[k] = v`: a present key keeps its position and takes the new value;
      a new key goes last. */
  function Put<K(==), V>(d: Dict<K, V>, k: K, v: V): Dict<K, V> {
    var i := IndexOf(d, k);
    if i < 0 then d + [(k, v)] else d[i := (k, v)]
  }

  /** Assignment keeps the keys distinct, makes `k` map to `v`, leaves every
      other key's value alone, keeps every earlier key in place, and grows
      the dict exactly when `k` was missing. */
  lemma PutSpec<K, V>(d: Dict<K, V>, k: K, v: V)
    requires DistinctKeys(d)
    ensures DistinctKeys(Put(d, k, v))
    ensures Get(Put(d, k, v), k) == Some(v)
    ensures forall k' :: k' != k ==> Get(Put(d, k, v), k') == Get(d, k')
    ensures forall i :: 0 <= i < |d| ==> Put(d, k, v)[i].0 == d[i].0
    ensures |Put(d, k, v)| == if Get(d, k).None? then |d| + 1 else |d|
  {
    var r := Put(d, k, v);
    var i := IndexOf(d, k);
    forall k' | k' != k
      ensures Get(r, k') == Get(d, k')
    {
      var j := IndexOf(d, k');
      var j' := IndexOf(r, k');
      if j >= 0 {
        assert r[j].0 == k';
        assert j' == j;
      } else {
        assert j' < 0;
      }
    }
    if i < 0 {
      assert r[|d|].0 == k;
      assert IndexOf(r, k) == |d|;
    } else {
      var i' := IndexOf(r, k);
      assert r[i].0 == k;
      assert i' >= 0 && i' <= i;
    }
  }

  /** Every item after an assignment is the assigned one or the item that
      stood at that position before. */
  lemma PutItem<K, V>(d: Dict<K, V>, k: K, v: V, i: int)
    requires 0 <= i < |Put(d, k, v)|
    ensures Put(d, k, v)[i] == (k, v) || (i < |d| && Put(d, k, v)[i] == d[i])
  {
  }

  /** A key is present exactly when some item carries it. */
  lemma GetSome<K, V>(d: Dict<K, V>, k: K)
    ensures Get(d, k).Some? <==> exists i :: 0 <= i < |d| && d[i].0 == k
  {
    if Get(d, k).Some? {
      var i := IndexOf(d, k);
      assert d[i].0 == k;
    }
  }

  /** `d.values()` in order. */
  function Values<K, V>(d: Dict<K, V>): (vs: seq<V>)
    ensures |vs| == |d| && forall i :: 0 <= i < |d| ==> vs[i] == d[i].1
  {
    seq(|d|, i requires 0 <= i < |d| => d[i].1)
  }

  /** `d[key(v)] = v` for each `v` of `vs` in turn. */
  function PutAll<K(==), V>(d: Dict<K, V>, vs: seq<V>, key: V -> K): Dict<K, V>
    decreases |vs|
  {
    if |vs| == 0 then d else Put(PutAll(d, vs[..|vs| - 1], key), key(vs[|vs| - 1]), vs[|vs| - 1])
  }

  /** Assigning one more value is one more assignment. */
  lemma PutAllSnoc<K, V>(d: Dict<K, V>, vs: seq<V>, v: V, key: V -> K)
    ensures PutAll(d, vs + [v], key) == Put(PutAll(d, vs, key), key(v), v)
  {
    assert (vs + [v])[..|vs|] == vs;
  }

  /** Every item is stored under its own key. */
  predicate KeyedBy<K(==), V>(d: Dict<K, V>, key: V -> K) {
    forall i :: 0 <= i < |d| ==> d[i].0 == key(d[i].1)
  }

  /** Assigning a sequence of values keeps the keys distinct and every item
      under its own key, and every item afterwards was there before or is
      one of the values. */
  lemma {:induction false} PutAllSound<K, V>(d: Dict<K, V>, vs: seq<V>, key: V -> K)
    requires DistinctKeys(d) && KeyedBy(d, key)
    ensures var r := PutAll(d, vs, key);
      && DistinctKeys(r) && KeyedBy(r, key)
      && forall i :: 0 <= i < |r| ==> r[i] in d || r[i].1 in vs
    decreases |vs|
  {
    if |vs| > 0 {
      var init := vs[..|vs| - 1];
      var v := vs[|vs| - 1];
      PutAllSound(d, init, key);
      var prev := PutAll(d, init, key);
      PutSpec(prev, key(v), v);
      var r := PutAll(d, vs, key);
      forall i | 0 <= i < |r|
        ensures r[i].0 == key(r[i].1) && (r[i] in d || r[i].1 in vs)
      {
        PutItem(prev, key(v), v, i);
        if r[i] != (key(v), v) {
          assert r[i] == prev[i];
          if r[i].1 in init {
            var j :| 0 <= j < |init| && init[j] == r[i].1;
            assert vs[j] == init[j];
          }
        }
      }
    }
  }

  /** After assigning a sequence of values, every key present before and
      every value's key is present. */
  lemma {:induction false} PutAllComplete<K, V>(d: Dict<K, V>, vs: seq<V>, key: V -> K)
    requires DistinctKeys(d) && KeyedBy(d, key)
    ensures forall k :: Get(d, k).Some? ==> Get(PutAll(d, vs, key), k).Some?
    ensures forall v :: v in vs ==> Get(PutAll(d, vs, key), key(v)).Some?
    decreases |vs|
  {
    if |vs| > 0 {
      var init := vs[..|vs| - 1];
      var v := vs[|vs| - 1];
      PutAllComplete(d, init, key);
      PutAllSound(d, init, key);
      var prev := PutAll(d, init, key);
      var r := PutAll(d, vs, key);
      assert r == Put(prev, key(v), v);
      PutSpec(prev, key(v), v);
      forall k | Get(d, k).Some?
        ensures Get(r, k).Some?
      {
        assert Get(prev, k).Some?;
      }
      forall u | u in vs
        ensures Get(r, key(u)).Some?
      {
        if u != v {
          var j :| 0 <= j < |vs| && vs[j] == u;
          assert init[j] == u;
          assert Get(prev, key(u)).Some?;
        }
      }
    }
  }

  /** `[y for x in xs if f(x) is not None]`, keeping the `y` inside. */
  function FilterMap<A, B>(xs: seq<A>, f: A -> Option<B>): seq<B>
    decreases |xs|
  {
    if |xs| == 0 then []
    else FilterMap(xs[..|xs| - 1], f) + (match f(xs[|xs| - 1]) case Some(y) => [y] case None => [])
  }

  lemma FilterMapSnoc<A, B>(xs: seq<A>, x: A, f: A -> Option<B>)
    ensures FilterMap(xs + [x], f) ==
      FilterMap(xs, f) + (match f(x) case Some(y) => [y] case None => [])
  {
    assert (xs + [x])[..|xs|] == xs;
  }

  /** A value is kept exactly when some element yields it. */
  lemma {:induction false} FilterMapSpec<A, B>(xs: seq<A>, f: A -> Option<B>, y: B)
    ensures y in FilterMap(xs, f) <==> exists j :: 0 <= j < |xs| && f(xs[j]) == Some(y)
    decreases |xs|
  {
    if |xs| > 0 {
      var init := xs[..|xs| - 1];
      var x := xs[|xs| - 1];
      FilterMapSpec(init, f, y);
      assert FilterMap(xs, f) == FilterMap(init, f) + (match f(x) case Some(z) => [z] case None => []);
      if exists j :: 0 <= j < |xs| && f(xs[j]) == Some(y) {
        var j :| 0 <= j < |xs| && f(xs[j]) == Some(y);
        if j < |init| {
          assert init[j] == xs[j];
        }
      }
      if exists j :: 0 <= j < |init| && f(init[j]) == Some(y) {
        var j :| 0 <= j < |init| && f(init[j]) == Some(y);
        assert xs[j] == init[j];
      }
    }
  }

  /** `for x in xs: if f(x) is not None: d[key(f(x))] = f(x)`. */
  function AddAll<A, K(==), V>(d: Dict<K, V>, xs: seq<A>, f: A -> Option<V>, key: V -> K): Dict<K, V>
    decreases |xs|
  {
    if |xs| == 0 then d
    else
      var prev := AddAll(d, xs[..|xs| - 1], f, key);
      match f(xs[|xs| - 1])
      case None => prev
      case Some(v) => Put(prev, key(v), v)
  }

  lemma AddAllSnoc<A, K, V>(d: Dict<K, V>, xs: seq<A>, x: A, f: A -> Option<V>, key: V -> K)
    ensures AddAll(d, xs + [x], f, key) ==
      match f(x)
      case None => AddAll(d, xs, f, key)
      case Some(v) => Put(AddAll(d, xs, f, key), key(v), v)
  {
    assert (xs + [x])[..|xs|] == xs;
  }

  /** Iterative form of `AddAll` from an empty dictionary: one assignment per yielding element. */
  method AddAllLoop<A, K(==), V>(xs: seq<A>, f: A -> Option<V>, key: V -> K) returns (d: Dict<K, V>)
    ensures d == AddAll([], xs, f, key)
  {
    d := [];
    var k := 0;
    while k < |xs|
      invariant 0 <= k <= |xs|
      invariant d == AddAll([], xs[..k], f, key)
    {
      assert xs[..k + 1] == xs[..k] + [xs[k]];
      AddAllSnoc([], xs[..k], xs[k], f, key);
      var y := f(xs[k]);
      if y.Some? {
        d := Put(d, key(y.value), y.value);
      }
      k := k + 1;
    }
    assert xs[..|xs|] == xs;
  }

  /** Adding what each element yields is assigning the yielded values in order. */
  lemma {:induction false} AddAllAsPutAll<A, K, V>(d: Dict<K, V>, xs: seq<A>, f: A -> Option<V>, key: V -> K)
    ensures AddAll(d, xs, f, key) == PutAll(d, FilterMap(xs, f), key)
    decreases |xs|
  {
    if |xs| > 0 {
      var init := xs[..|xs| - 1];
      var x := xs[|xs| - 1];
      AddAllAsPutAll(d, init, f, key);
      assert xs == init + [x];
      FilterMapSnoc(init, x, f);
      var vs := FilterMap(init, f);
      if f(x).Some? {
        PutAllSnoc(d, vs, f(x).value, key);
      } else {
        assert vs + [] == vs;
      }
    }
  }

  /** Starting from an empty dict, the keys stay distinct, every item sits
      under its own key, and every item's value is what some element yielded. */
  lemma AddAllSound<A, K, V>(xs: seq<A>, f: A -> Option<V>, key: V -> K)
    ensures var r := AddAll([], xs, f, key);
      && DistinctKeys(r) && KeyedBy(r, key)
      && forall i :: 0 <= i < |r| ==> exists j :: 0 <= j < |xs| && f(xs[j]) == Some(r[i].1)
  {
    AddAllAsPutAll([], xs, f, key);
    PutAllSound([], FilterMap(xs, f), key);
    var r := AddAll([], xs, f, key);
    forall i | 0 <= i < |r|
      ensures exists j :: 0 <= j < |xs| && f(xs[j]) == Some(r[i].1)
    {
      FilterMapSpec(xs, f, r[i].1);
    }
  }

  /** Starting from an empty dict, every value some element yields has its
      key present. */
  lemma AddAllComplete<A, K, V>(xs: seq<A>, f: A -> Option<V>, key: V -> K)
    ensures forall j :: 0 <= j < |xs| && f(xs[j]).Some? ==>
      Get(AddAll([], xs, f, key), key(f(xs[j]).value)).Some?
  {
    AddAllAsPutAll([], xs, f, key);
    PutAllComplete([], FilterMap(xs, f), key);
    forall j | 0 <= j < |xs| && f(xs[j]).Some?
      ensures f(xs[j]).value in FilterMap(xs, f)
    {
      FilterMapSpec(xs, f, f(xs[j]).value);
    }
  }
}
