/**
 * Plain JavaScript objects whose key order can be observed (through
 * `Object.keys`, `for ... in` or spreading): the own keys in enumeration
 * order together with their values.
 */
module Records {

  /** No element appears twice. */
  ghost predicate Distinct<T>(s: seq<T>)
  {
    forall i, j :: 0 <= i < j < |s| ==> s[i] != s[j]
  }

  /** Two duplicate-free sequences with no common element concatenate to a duplicate-free one. */
  lemma DistinctConcat<T>(a: seq<T>, b: seq<T>)
    requires Distinct(a) && Distinct(b)
    requires forall x :: x in a ==> x !in b
    ensures Distinct(a + b)
  {
    forall i, j | 0 <= i < j < |a + b|
      ensures (a + b)[i] != (a + b)[j]
    {
      if j >= |a| && i < |a| {
        assert (a + b)[i] in a;
        assert (a + b)[j] == b[j - |a|];
      }
    }
  }

  /** An object: its own keys in enumeration order, and the value of each. */
  datatype Record<V> = Record(keys: seq<string>, values: map<string, V>) {

    /** Every key is listed exactly once, and only keys are listed. */
    ghost predicate Valid()
    {
      Distinct(keys) && (forall k :: k in values <==> k in keys)
    }
  }

  /** The object literal `{}`. */
  function Empty<V>(): (r: Record<V>)
    ensures r.Valid()
  {
    Record([], map[])
  }

  /**
   * `obj[k] = v`: an existing key keeps its place in the order, a new key goes
   * to the end.
   */
  function Assign<V>(r: Record<V>, k: string, v: V): (r': Record<V>)
    requires r.Valid()
    ensures r'.Valid()
    ensures r'.values == r.values[k := v]
    ensures |r.keys| <= |r'.keys| <= |r.keys| + 1 && r'.keys[..|r.keys|] == r.keys
  {
    if k in r.values then Record(r.keys, r.values[k := v])
    else
      DistinctConcat(r.keys, [k]);
      Record(r.keys + [k], r.values[k := v])
  }

  /** `s` without any occurrence of `k`, the rest in order. */
  function Without(s: seq<string>, k: string): (r: seq<string>)
    ensures forall x :: x in r <==> x in s && x != k
  {
    if s == [] then []
    else
      var rest := Without(s[1..], k);
      if s[0] == k then rest else [s[0]] + rest
  }

  /** Removing a key from a concatenation removes it from each part, the parts kept in order. */
  lemma {:induction false} WithoutAppend(xs: seq<string>, ys: seq<string>, k: string)
    ensures Without(xs + ys, k) == Without(xs, k) + Without(ys, k)
  {
    if xs == [] {
      assert xs + ys == ys;
    } else {
      var zs := xs + ys;
      assert zs[0] == xs[0] && zs[1..] == xs[1..] + ys;
      WithoutAppend(xs[1..], ys, k);
      var rest := Without(xs[1..], k);
      if xs[0] == k {
        assert Without(zs, k) == rest + Without(ys, k);
      } else {
        assert Without(zs, k) == [xs[0]] + (rest + Without(ys, k));
        assert Without(xs, k) == [xs[0]] + rest;
      }
    }
  }

  /** Removing a key from a one-key order removes that key or keeps the other. */
  lemma WithoutSingleton(x: string, k: string)
    ensures Without([x], k) == if x == k then [] else [x]
  {
  }

  /** Removing a key keeps a duplicate-free order duplicate-free. */
  lemma {:induction false} WithoutDistinct(s: seq<string>, k: string)
    requires Distinct(s)
    ensures Distinct(Without(s, k))
  {
    if s != [] {
      WithoutDistinct(s[1..], k);
      if s[0] != k {
        assert s[0] !in s[1..];
        DistinctConcat([s[0]], Without(s[1..], k));
      }
    }
  }

  /** Assigning a key twice is assigning it the second value: the key keeps the place the first assignment gave it. */
  lemma AssignTwice<V>(r: Record<V>, k: string, v: V, v': V)
    requires r.Valid()
    ensures Assign(Assign(r, k, v), k, v') == Assign(r, k, v')
  {
    assert r.values[k := v][k := v'] == r.values[k := v'];
  }

  /** `delete obj[k]`: the key leaves the order, the others keep theirs. */
  function Delete<V>(r: Record<V>, k: string): (r': Record<V>)
    requires r.Valid()
    ensures r'.Valid()
    ensures r'.keys == Without(r.keys, k) && r'.values == r.values - {k}
  {
    WithoutDistinct(r.keys, k);
    Record(Without(r.keys, k), r.values - {k})
  }

  /** Deleting a key that is not listed leaves the order as it is. */
  lemma {:induction false} WithoutAbsent(s: seq<string>, k: string)
    requires k !in s
    ensures Without(s, k) == s
  {
    if s != [] {
      WithoutAbsent(s[1..], k);
      assert [s[0]] + s[1..] == s;
    }
  }

  /** Deleting a key the object does not have changes nothing. */
  lemma DeleteAbsent<V>(r: Record<V>, k: string)
    requires r.Valid() && k !in r.values
    ensures Delete(r, k) == r
  {
    WithoutAbsent(r.keys, k);
    assert r.values - {k} == r.values;
  }

  /**
   * Deleting the first key of the order (what `for ... in` does when its body
   * deletes the key it is visiting) leaves exactly the keys still to visit.
   */
  lemma DeleteFirst<V>(r: Record<V>)
    requires r.Valid() && r.keys != []
    ensures Delete(r, r.keys[0]).keys == r.keys[1..]
    ensures Delete(r, r.keys[0]).values == r.values - {r.keys[0]}
  {
    assert r.keys[0] !in r.keys[1..];
    WithoutAbsent(r.keys[1..], r.keys[0]);
  }

  /** The keys of `ks` that `m` does not have, in the order of `ks`. */
  function Fresh<V>(ks: seq<string>, m: map<string, V>): (r: seq<string>)
    ensures forall x {:trigger x in r} :: x in r <==> x in ks && x !in m
  {
    if ks == [] then []
    else
      var rest := Fresh(ks[1..], m);
      if ks[0] in m then rest else [ks[0]] + rest
  }

  /** The fresh keys of a concatenation are those of each part, in order. */
  lemma {:induction false} FreshAppend<V>(xs: seq<string>, ys: seq<string>, m: map<string, V>)
    ensures Fresh(xs + ys, m) == Fresh(xs, m) + Fresh(ys, m)
  {
    if xs == [] {
      assert xs + ys == ys;
    } else {
      var zs := xs + ys;
      assert zs[0] == xs[0] && zs[1..] == xs[1..] + ys;
      FreshAppend(xs[1..], ys, m);
      var a, b := Fresh(xs[1..], m), Fresh(ys, m);
      if xs[0] in m {
        assert Fresh(zs, m) == a + b;
        assert Fresh(xs, m) == a;
      } else {
        assert Fresh(zs, m) == [xs[0]] + (a + b);
        assert Fresh(xs, m) == [xs[0]] + a;
        assert [xs[0]] + (a + b) == ([xs[0]] + a) + b;
      }
    }
  }

  /** A one-key order is fresh exactly when the map does not have its key. */
  lemma FreshSingleton<V>(x: string, m: map<string, V>)
    ensures Fresh([x], m) == if x in m then [] else [x]
  {
  }

  /** The fresh keys of a duplicate-free order are duplicate-free. */
  lemma {:induction false} FreshDistinct<V>(ks: seq<string>, m: map<string, V>)
    requires Distinct(ks)
    ensures Distinct(Fresh(ks, m))
  {
    if ks != [] {
      FreshDistinct(ks[1..], m);
      if ks[0] !in m {
        assert ks[0] !in ks[1..];
        DistinctConcat([ks[0]], Fresh(ks[1..], m));
      }
    }
  }

  /**
   * `{...a, ...b}`: the keys of `a` in their order followed by the keys only
   * `b` has, in `b`'s order; on a shared key the value of `b` wins.
   */
  function Spread<V>(a: Record<V>, b: Record<V>): (r: Record<V>)
    requires a.Valid() && b.Valid()
    ensures r.Valid()
    ensures |a.keys| <= |r.keys| && r.keys[..|a.keys|] == a.keys
    ensures r.keys[|a.keys|..] == Fresh(b.keys, a.values)
    ensures forall k :: k in r.values <==> k in a.values || k in b.values
    ensures forall k :: k in b.values ==> r.values[k] == b.values[k]
    ensures forall k :: k in a.values && k !in b.values ==> r.values[k] == a.values[k]
  {
    var added := Fresh(b.keys, a.values);
    FreshDistinct(b.keys, a.values);
    DistinctConcat(a.keys, added);
    Record(a.keys + added, a.values + b.values)
  }

  /** Nothing new is fresh against an empty object. */
  lemma {:induction false} FreshAgainstEmpty<V>(ks: seq<string>)
    ensures Fresh<V>(ks, map[]) == ks
  {
    if ks != [] {
      FreshAgainstEmpty<V>(ks[1..]);
      assert [ks[0]] + ks[1..] == ks;
    }
  }

  /** Spreading into an empty literal copies the object: `{...{}, ...b}` is `b`. */
  lemma SpreadOntoEmpty<V>(b: Record<V>)
    requires b.Valid()
    ensures Spread(Empty(), b) == b
  {
    FreshAgainstEmpty<V>(b.keys);
    assert map[] + b.values == b.values;
  }

  /** Spreading an empty object (or `undefined`) changes nothing: `{...a, ...{}}` is `a`. */
  lemma SpreadEmpty<V>(a: Record<V>)
    requires a.Valid()
    ensures Spread(a, Empty()) == a
  {
    assert a.values + map[] == a.values;
    assert a.keys + [] == a.keys;
  }
}
