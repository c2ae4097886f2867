/**
 * A Python `dict`: a key-to-value map that also remembers the order in which
 * its keys were first inserted. Assigning to an existing key keeps its place;
 * `pop` removes a key wherever it is; iteration follows insertion order.
 */
module OrderedDict {

  datatype Dict<V> = Dict(keys: seq<string>, m: map<string, V>)

  predicate Distinct(s: seq<string>) {
    forall i, j :: 0 <= i < j < |s| ==> s[i] != s[j]
  }

  /** The representation invariant: every key listed once, and exactly the keys of the map. */
  predicate Valid<V>(d: Dict<V>) {
    && Distinct(d.keys)
    && (forall k :: k in d.m ==> k in d.keys)
    && (forall k :: k in d.keys ==> k in d.m)
  }

  function Empty<V>(): (d: Dict<V>)
    ensures d.keys == [] && d.m == map[]
  {
    Dict([], map[])
  }

  /** `d[k] = v`: a new key goes to the end, an existing key keeps its place. */
  function Set<V>(d: Dict<V>, k: string, v: V): (r: Dict<V>)
    ensures r.m == d.m[k := v]
    ensures Valid(d) ==> Valid(r)
    ensures k in d.m ==> r.keys == d.keys
    ensures k !in d.m ==> r.keys == d.keys + [k]
  {
    if k in d.m then Dict(d.keys, d.m[k := v]) else Dict(d.keys + [k], d.m[k := v])
  }

  /** `s` with every occurrence of `x` removed, the rest in order. */
  function Without(s: seq<string>, x: string): (r: seq<string>)
    ensures forall y :: y in r <==> y in s && y != x
    ensures Distinct(s) ==> Distinct(r)
  {
    if |s| == 0 then []
    else
      var tail := Without(s[1..], x);
      if s[0] == x then tail
      else
        assert Distinct(s) ==> s[0] !in s[1..];
        [s[0]] + tail
  }

  /** Removing an absent element changes nothing. */
  lemma {:induction false} WithoutAbsent(s: seq<string>, x: string)
    requires x !in s
    ensures Without(s, x) == s
  {
    if |s| > 0 {
      assert x !in s[1..];
      WithoutAbsent(s[1..], x);
    }
  }

  /** Removing an element listed once cuts it out at its place and keeps the rest in order. */
  lemma {:induction false} WithoutCuts(s: seq<string>, x: string, i: nat)
    requires Distinct(s) && i < |s| && s[i] == x
    ensures Without(s, x) == s[..i] + s[i + 1..]
  {
    if i == 0 {
      assert x !in s[1..];
      WithoutAbsent(s[1..], x);
    } else {
      assert Distinct(s[1..]) && s[1..][i - 1] == x;
      WithoutCuts(s[1..], x, i - 1);
      assert s[0] != x;
      assert s[1..][..i - 1] + s[1..][i..] == s[1..i] + s[i + 1..];
      assert [s[0]] + s[1..i] == s[..i];
    }
  }

  /**
   * `d.pop(k, None)`: removes `k` if present, does nothing otherwise. The
   * remaining keys keep their order: `k` is cut out at its place.
   */
  function Pop<V>(d: Dict<V>, k: string): (r: Dict<V>)
    ensures r.m == d.m - {k}
    ensures Valid(d) ==> Valid(r)
    ensures forall x :: x in r.keys <==> x in d.keys && x != k
    ensures k !in d.keys ==> r.keys == d.keys
    ensures Valid(d) && k in d.keys ==>
              exists i :: 0 <= i < |d.keys| && d.keys[i] == k && r.keys == d.keys[..i] + d.keys[i + 1..]
  {
    var r := Dict(Without(d.keys, k), d.m - {k});
    if k !in d.keys then
      WithoutAbsent(d.keys, k);
      r
    else if Valid(d) then
      var i :| 0 <= i < |d.keys| && d.keys[i] == k;
      WithoutCuts(d.keys, k, i);
      r
    else r
  }

  /** The `(key, value)` pairs of the listed keys that are in `m`, in list order. */
  function ItemsOf<V>(keys: seq<string>, m: map<string, V>): (r: seq<(string, V)>)
    ensures forall p :: p in r ==> p.0 in m && m[p.0] == p.1
    ensures (forall k :: k in keys ==> k in m) ==> |r| == |keys|
    ensures (forall k :: k in keys ==> k in m) ==>
              forall i :: 0 <= i < |r| ==> r[i].0 == keys[i]
  {
    if |keys| == 0 then []
    else
      var tail := ItemsOf(keys[1..], m);
      assert forall k :: k in keys[1..] ==> k in keys;
      (if keys[0] in m then [(keys[0], m[keys[0]])] else []) + tail
  }

  /** `d.items()`, in insertion order. */
  function Items<V>(d: Dict<V>): seq<(string, V)> {
    ItemsOf(d.keys, d.m)
  }

  /** The `i`-th item of a well-formed dict is its `i`-th key with that key's value. */
  lemma ItemAt<V>(d: Dict<V>, i: int)
    requires Valid(d) && 0 <= i < |d.keys|
    ensures |Items(d)| == |d.keys| && Items(d)[i] == (d.keys[i], d.m[d.keys[i]])
  {
    assert Items(d)[i] in Items(d);
  }

  /** A `for k, v in items: d[k] = v` loop: each pair assigned in turn, left to right. */
  function SetAll<V>(d: Dict<V>, items: seq<(string, V)>): (r: Dict<V>)
    ensures Valid(d) ==> Valid(r)
    ensures forall k :: k in d.m ==> k in r.m
    decreases |items|
  {
    if |items| == 0 then d else SetAll(Set(d, items[0].0, items[0].1), items[1..])
  }

  /** Last writer wins: after assigning the pairs in turn, a key takes the value of its last pair. */
  lemma {:induction false} SetAllLastWins<V>(d: Dict<V>, items: seq<(string, V)>, k: string, i: nat)
    requires i < |items| && items[i].0 == k
    requires forall j :: i < j < |items| ==> items[j].0 != k
    ensures k in SetAll(d, items).m && SetAll(d, items).m[k] == items[i].1
    decreases |items|
  {
    var d' := Set(d, items[0].0, items[0].1);
    var rest := items[1..];
    assert SetAll(d, items) == SetAll(d', rest);
    if i == 0 {
      forall j | 0 <= j < |rest|
        ensures rest[j].0 != k
      {
        assert rest[j] == items[j + 1];
      }
      SetAllUntouched(d', rest, k);
    } else {
      forall j | i - 1 < j < |rest|
        ensures rest[j].0 != k
      {
        assert rest[j] == items[j + 1];
      }
      SetAllLastWins(d', rest, k, i - 1);
    }
  }

  /** Pair `i` is the last of `items` that names `k`. */
  ghost predicate LastFor<V>(items: seq<(string, V)>, k: string, i: int) {
    0 <= i < |items| && items[i].0 == k && forall j :: i < j < |items| ==> items[j].0 != k
  }

  /**
   * `after` is what assigning `items` in turn to `before` leaves under `k`:
   * the value of the last pair naming `k` when there is one, and otherwise
   * whatever `before` had under `k`, or nothing.
   */
  ghost predicate LastWriter<V>(before: Dict<V>, after: Dict<V>, items: seq<(string, V)>, k: string) {
    && (forall i :: LastFor(items, k, i) ==> k in after.m && after.m[k] == items[i].1)
    && ((forall i :: 0 <= i < |items| ==> items[i].0 != k) ==>
          && (k in after.m <==> k in before.m)
          && (k in before.m ==> after.m[k] == before.m[k]))
  }

  /** The assignment loop leaves every key as `LastWriter` describes. */
  lemma {:induction false} SetAllAt<V>(d: Dict<V>, items: seq<(string, V)>, k: string)
    ensures LastWriter(d, SetAll(d, items), items, k)
  {
    SetAllLastWinsAll(d, items, k);
    SetAllUntouched(d, items, k);
  }

  lemma {:induction false} SetAllLastWinsAll<V>(d: Dict<V>, items: seq<(string, V)>, k: string)
    ensures forall i :: LastFor(items, k, i) ==> k in SetAll(d, items).m && SetAll(d, items).m[k] == items[i].1
  {
    forall i | LastFor(items, k, i)
      ensures k in SetAll(d, items).m && SetAll(d, items).m[k] == items[i].1
    {
      SetAllLastWins(d, items, k, i);
    }
  }


  /** A key that no pair mentions keeps whatever it had, or stays absent. */
  lemma {:induction false} SetAllUntouched<V>(d: Dict<V>, items: seq<(string, V)>, k: string)
    ensures (forall i :: 0 <= i < |items| ==> items[i].0 != k) ==>
              && (k in SetAll(d, items).m <==> k in d.m)
              && (k in d.m ==> SetAll(d, items).m[k] == d.m[k])
    decreases |items|
  {
    if |items| > 0 {
      var rest := items[1..];
      SetAllUntouched(Set(d, items[0].0, items[0].1), rest, k);
      if forall i :: 0 <= i < |items| ==> items[i].0 != k {
        forall j | 0 <= j < |rest|
          ensures rest[j].0 != k
        {
          assert rest[j] == items[j + 1];
        }
      }
    }
  }

  /** The first `n` keys of `d` with their values: what `d` was after its first `n` insertions. */
  function Prefix<V>(d: Dict<V>, n: nat): Dict<V>
    requires n <= |d.keys|
  {
    Dict(d.keys[..n], map k | k in d.keys[..n] && k in d.m :: d.m[k])
  }

  lemma PrefixStep<V>(d: Dict<V>, n: nat)
    requires Valid(d) && n < |d.keys|
    ensures Set(Prefix(d, n), d.keys[n], d.m[d.keys[n]]) == Prefix(d, n + 1)
  {
    var k := d.keys[n];
    assert k !in d.keys[..n] by {
      forall j | 0 <= j < n
        ensures d.keys[..n][j] != k
      {
        assert d.keys[..n][j] == d.keys[j];
      }
    }
    assert d.keys[..n + 1] == d.keys[..n] + [k];
    assert Prefix(d, n).m[k := d.m[k]] == Prefix(d, n + 1).m;
  }

  lemma PrefixWhole<V>(d: Dict<V>)
    requires Valid(d)
    ensures Prefix(d, |d.keys|) == d
  {
    assert d.keys[..|d.keys|] == d.keys;
    assert Prefix(d, |d.keys|).m == d.m;
  }

  lemma {:induction false} RebuildFrom<V>(d: Dict<V>, n: nat)
    requires Valid(d) && n <= |d.keys|
    ensures SetAll(Prefix(d, n), ItemsOf(d.keys[n..], d.m)) == d
    decreases |d.keys| - n
  {
    var tail := d.keys[n..];
    if n == |d.keys| {
      PrefixWhole(d);
      assert tail == [];
    } else {
      var k := d.keys[n];
      assert tail[1..] == d.keys[n + 1..];
      assert ItemsOf(tail, d.m) == [(k, d.m[k])] + ItemsOf(d.keys[n + 1..], d.m);
      PrefixStep(d, n);
      RebuildFrom(d, n + 1);
    }
  }

  /**
   * Assigning the items of a dict, in order, into an empty dict rebuilds it
   * exactly: same contents and same key order.
   */
  lemma RebuildFromItems<V>(d: Dict<V>)
    requires Valid(d)
    ensures SetAll(Empty(), Items(d)) == d
  {
    RebuildFrom(d, 0);
    assert d.keys[0..] == d.keys;
    assert Prefix(d, 0) == Empty();
  }

  /** Assigning the items of `c` into `d` is a map union in which `c` wins on shared keys. */
  lemma SetAllItemsIsUnion<V>(d: Dict<V>, c: Dict<V>)
    requires Valid(c)
    ensures SetAll(d, Items(c)).m == d.m + c.m
  {
    var items := Items(c);
    var r := SetAll(d, items);
    forall k
      ensures (k in r.m <==> k in d.m + c.m) && (k in r.m ==> r.m[k] == (d.m + c.m)[k])
    {
      if k in c.m {
        var i :| 0 <= i < |c.keys| && c.keys[i] == k;
        assert items[i].0 == k;
        assert items[i] in items;
        forall j | i < j < |items|
          ensures items[j].0 != k
        {
          assert items[j].0 == c.keys[j];
        }
        SetAllLastWins(d, items, k, i);
      } else {
        forall i | 0 <= i < |items|
          ensures items[i].0 != k
        {
          assert items[i] in items;
        }
        SetAllUntouched(d, items, k);
      }
    }
    assert r.m.Keys == (d.m + c.m).Keys;
  }
}
