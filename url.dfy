/**
 * `UrlBuilder.query`: the query string of a parameter object. Percent-encoding
 * (`encodeURIComponent`, section 19.2.6.5 of ECMA-262) is the parameter
 * `encode`; nothing is assumed about it except where a lemma says so.
 */
module Url {
  import opened Options
  import opened Strings
  import opened Records

  /** The `key=value` text of one parameter, or nothing when its value is `undefined`. */
  function Pair<V>(key: string, value: Option<V>, encode: V -> string): seq<string>
  {
    if value.Some? then [key + "=" + encode(value.value)] else []
  }

  /**
   * The `key=value` texts of the defined parameters among `keys`, in key order.
   * Only the value goes through `encode`; the key is copied as it is.
   */
  function Pairs<V>(keys: seq<string>, values: map<string, Option<V>>, encode: V -> string): seq<string>
    requires forall k :: k in keys ==> k in values
  {
    if keys == [] then []
    else Pair(keys[0], values[keys[0]], encode) + Pairs(keys[1..], values, encode)
  }

  /**
   * What `UrlBuilder.query(params)` returns: the empty string when no parameter
   * has a defined value, otherwise `?` followed by the pairs joined by `&`.
   */
  function QueryString<V>(params: Record<Option<V>>, encode: V -> string): (q: string)
    requires params.Valid()
    ensures q == "" || q[0] == '?'
  {
    var pairs := Pairs(params.keys, params.values, encode);
    if pairs == [] then "" else "?" + Join(pairs, "&")
  }

  /** One more key adds its pair (if any) at the end. */
  lemma {:induction false} PairsSnoc<V>(keys: seq<string>, key: string, values: map<string, Option<V>>, encode: V -> string)
    requires forall k :: k in keys ==> k in values
    requires key in values
    ensures Pairs(keys + [key], values, encode) == Pairs(keys, values, encode) + Pair(key, values[key], encode)
  {
    if keys != [] {
      assert (keys + [key])[1..] == keys[1..] + [key];
      PairsSnoc(keys[1..], key, values, encode);
    }
  }

  /** The accumulator of `UrlBuilder.query` once `pairs` have been appended: `?` and each pair followed by `&`. */
  function Accumulated(pairs: seq<string>): (acc: string)
    ensures |acc| >= 1
  {
    if pairs == [] then "?" else "?" + Join(pairs, "&") + "&"
  }

  /** Appending one more pair and its `&` extends the accumulator. */
  lemma AccumulatedSnoc(pairs: seq<string>, pair: string)
    ensures Accumulated(pairs + [pair]) == Accumulated(pairs) + pair + "&"
  {
    JoinSnoc(pairs, pair, "&");
    if pairs == [] {
      assert pairs + [pair] == [pair];
    } else {
      var joined := Join(pairs, "&");
      calc {
        Accumulated(pairs + [pair]);
        "?" + (joined + "&" + pair) + "&";
        ("?" + joined + "&") + pair + "&";
      }
    }
  }

  /** Dropping the accumulator's last character gives the query string of the pairs. */
  lemma AccumulatedSlice(pairs: seq<string>)
    ensures var acc := Accumulated(pairs);
      acc[..|acc| - 1] == if pairs == [] then "" else "?" + Join(pairs, "&")
  {
    var acc := Accumulated(pairs);
    if pairs != [] {
      assert acc == ("?" + Join(pairs, "&")) + "&";
    }
  }

  /**
   * `UrlBuilder.query`: appends `key=value&` for each defined value to an
   * accumulator that starts as `?`, then drops the last character.
   */
  method Query<V>(params: Record<Option<V>>, encode: V -> string) returns (q: string)
    requires params.Valid()
    ensures q == QueryString(params, encode)
  {
    var keys := params.keys;
    if |keys| == 0 {
      return "";
    }
    var acc := "?";
    for i := 0 to |keys|
      invariant acc == Accumulated(Pairs(keys[..i], params.values, encode))
    {
      var key := keys[i];
      var value := params.values[key];
      ghost var done := Pairs(keys[..i], params.values, encode);
      assert keys[..i + 1] == keys[..i] + [key];
      PairsSnoc(keys[..i], key, params.values, encode);
      if value.Some? {
        var pair := key + "=" + encode(value.value);
        AccumulatedSnoc(done, pair);
        acc := acc + pair + "&";
      } else {
        assert done + [] == done;
      }
    }
    assert keys[..|keys|] == keys;
    AccumulatedSlice(Pairs(keys, params.values, encode));
    q := acc[..|acc| - 1];
  }

  /** No pairs at all exactly when every listed value is `undefined`. */
  lemma {:induction false} PairsEmpty<V>(keys: seq<string>, values: map<string, Option<V>>, encode: V -> string)
    requires forall k :: k in keys ==> k in values
    ensures Pairs(keys, values, encode) == [] <==> forall k :: k in keys ==> values[k].None?
  {
    if keys != [] {
      PairsEmpty(keys[1..], values, encode);
      assert forall k :: k in keys ==> k == keys[0] || k in keys[1..];
    }
  }

  /**
   * The query string is empty exactly when no parameter is defined: for an
   * empty object, and also when every value is `undefined` (the lone `?` is
   * sliced off).
   */
  lemma QueryEmptyIff<V>(params: Record<Option<V>>, encode: V -> string)
    requires params.Valid()
    ensures QueryString(params, encode) == "" <==> forall k :: k in params.values ==> params.values[k].None?
  {
    PairsEmpty(params.keys, params.values, encode);
  }

  /** Removing a parameter whose value is `undefined` does not change the pairs. */
  lemma {:induction false} PairsWithout<V>(keys: seq<string>, values: map<string, Option<V>>, k: string, encode: V -> string)
    requires forall x :: x in keys ==> x in values
    requires k in values && values[k].None?
    ensures Pairs(Without(keys, k), values - {k}, encode) == Pairs(keys, values, encode)
  {
    if keys != [] {
      PairsWithout(keys[1..], values, k, encode);
    }
  }

  /** A parameter whose value is `undefined` contributes nothing to the query string. */
  lemma QueryIgnoresUndefined<V>(params: Record<Option<V>>, k: string, encode: V -> string)
    requires params.Valid()
    requires k in params.values && params.values[k].None?
    ensures QueryString(Delete(params, k), encode) == QueryString(params, encode)
  {
    PairsWithout(params.keys, params.values, k, encode);
  }

  /** When neither keys nor encoded values contain `&`, no pair does. */
  lemma {:induction false} PairsFreeOfAmpersand<V>(keys: seq<string>, values: map<string, Option<V>>, encode: V -> string)
    requires forall k :: k in keys ==> k in values && '&' !in k
    requires forall v :: '&' !in encode(v)
    ensures forall j :: 0 <= j < |Pairs(keys, values, encode)| ==> '&' !in Pairs(keys, values, encode)[j]
  {
    if keys != [] {
      PairsFreeOfAmpersand(keys[1..], values, encode);
      var v := values[keys[0]];
      if v.Some? {
        assert '&' !in keys[0] + "=" + encode(v.value);
      }
    }
  }

  /**
   * The query string is unambiguous: when no key holds `&` and the encoder
   * never emits one (as `encodeURIComponent` never does), splitting the text
   * after `?` on `&` gives back exactly the pairs, in key order.
   */
  lemma QuerySplitsIntoPairs<V>(params: Record<Option<V>>, encode: V -> string)
    requires params.Valid()
    requires forall k :: k in params.values ==> '&' !in k
    requires forall v :: '&' !in encode(v)
    requires QueryString(params, encode) != ""
    ensures Split(QueryString(params, encode)[1..], '&') == Pairs(params.keys, params.values, encode)
  {
    var pairs := Pairs(params.keys, params.values, encode);
    PairsFreeOfAmpersand(params.keys, params.values, encode);
    assert ("?" + Join(pairs, "&"))[1..] == Join(pairs, "&");
    SplitJoin(pairs, '&');
  }
}
