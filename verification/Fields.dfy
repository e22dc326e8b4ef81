/** Objects with string keys in insertion order, as JavaScript keeps them. */
module Fields {
  import opened Optional

  type Fields<T> = seq<(string, T)>

  function Get<T>(f: Fields<T>, key: string): (v: Option<T>) {
    if f == [] then None
    else if f[0].0 == key then Some(f[0].1)
    else Get(f[1..], key)
  }

  predicate Has<T>(f: Fields<T>, key: string) {
    Get(f, key).Some?
  }

  /** No key occurs twice. */
  predicate Distinct<T>(f: Fields<T>) {
    f == [] || (!Has(f[1..], f[0].0) && Distinct(f[1..]))
  }

  function Keys<T>(f: Fields<T>): (keys: seq<string>) {
    if f == [] then [] else [f[0].0] + Keys(f[1..])
  }

  /** Assigning a field: in place when the key is there, at the end otherwise. */
  function Put<T>(f: Fields<T>, key: string, value: T): (g: Fields<T>) {
    if f == [] then [(key, value)]
    else if f[0].0 == key then [(key, value)] + f[1..]
    else [f[0]] + Put(f[1..], key, value)
  }

  /** The fields of both objects spread into one, those of the second last. */
  function PutAll<T>(f: Fields<T>, g: Fields<T>): (h: Fields<T>)
    decreases |g|
  {
    if g == [] then f else PutAll(Put(f, g[0].0, g[0].1), g[1..])
  }

  function MapValues<S, T>(f: Fields<S>, change: (string, S) -> T): (g: Fields<T>)
    ensures |g| == |f| && forall k | 0 <= k < |f| :: g[k] == (f[k].0, change(f[k].0, f[k].1))
  {
    if f == [] then [] else [(f[0].0, change(f[0].0, f[0].1))] + MapValues(f[1..], change)
  }

  lemma {:induction false} KeysInOrder<T>(f: Fields<T>)
    ensures |Keys(f)| == |f| && forall k | 0 <= k < |f| :: Keys(f)[k] == f[k].0
  {
    if f != [] { KeysInOrder(f[1..]); }
  }

  lemma {:induction false} HasKey<T>(f: Fields<T>, key: string)
    ensures key in Keys(f) <==> Has(f, key)
  {
    if f != [] { HasKey(f[1..], key); }
  }

  lemma {:induction false} PutGet<T>(f: Fields<T>, key: string, value: T, other: string)
    ensures Get(Put(f, key, value), other) == if other == key then Some(value) else Get(f, other)
  {
    if f != [] && f[0].0 != key {
      PutGet(f[1..], key, value, other);
      assert Put(f, key, value)[1..] == Put(f[1..], key, value);
    } else if f != [] {
      assert Put(f, key, value)[1..] == f[1..];
    }
  }

  lemma {:induction false} PutDistinct<T>(f: Fields<T>, key: string, value: T)
    requires Distinct(f)
    ensures Distinct(Put(f, key, value))
  {
    if f != [] && f[0].0 != key {
      PutDistinct(f[1..], key, value);
      PutGet(f[1..], key, value, f[0].0);
      assert Put(f, key, value)[1..] == Put(f[1..], key, value);
    } else if f != [] {
      assert Put(f, key, value)[1..] == f[1..];
    }
  }

  lemma {:induction false} PutSame<T>(f: Fields<T>, key: string, value: T)
    requires Get(f, key) == Some(value)
    ensures Put(f, key, value) == f
  {
    if f[0].0 != key { PutSame(f[1..], key, value); }
  }

  /** A new key goes to the end. */
  lemma {:induction false} PutNew<T>(f: Fields<T>, key: string, value: T)
    requires !Has(f, key)
    ensures Put(f, key, value) == f + [(key, value)]
  {
    if f != [] {
      PutNew(f[1..], key, value);
      assert f + [(key, value)] == [f[0]] + (f[1..] + [(key, value)]);
    }
  }

  /** In a spread the later object wins. */
  lemma {:induction false} PutAllGet<T>(f: Fields<T>, g: Fields<T>, key: string)
    requires Distinct(g)
    ensures Get(PutAll(f, g), key) == if Has(g, key) then Get(g, key) else Get(f, key)
    decreases |g|
  {
    if g != [] {
      PutAllGet(Put(f, g[0].0, g[0].1), g[1..], key);
      PutGet(f, g[0].0, g[0].1, key);
    }
  }

  lemma {:induction false} PutAllDistinct<T>(f: Fields<T>, g: Fields<T>)
    requires Distinct(f)
    ensures Distinct(PutAll(f, g))
    decreases |g|
  {
    if g != [] {
      PutDistinct(f, g[0].0, g[0].1);
      PutAllDistinct(Put(f, g[0].0, g[0].1), g[1..]);
    }
  }

  /** Does `f` hold every field of `g` already? */
  ghost predicate Includes<T>(f: Fields<T>, g: Fields<T>) {
    forall k | 0 <= k < |g| :: Get(f, g[k].0) == Some(g[k].1)
  }

  lemma {:induction false} PutAllSame<T>(f: Fields<T>, g: Fields<T>)
    requires Includes(f, g)
    ensures PutAll(f, g) == f
    decreases |g|
  {
    if g != [] {
      PutSame(f, g[0].0, g[0].1);
      assert forall k | 0 <= k < |g[1..]| :: g[1..][k] == g[k + 1];
      PutAllSame(f, g[1..]);
    }
  }

  lemma {:induction false} GetAt<T>(f: Fields<T>, k: nat)
    requires Distinct(f) && k < |f|
    ensures Get(f, f[k].0) == Some(f[k].1)
  {
    if k > 0 {
      GetAt(f[1..], k - 1);
      assert f[1..][k - 1] == f[k];
    }
  }

  /** Spreading the same object in again changes nothing. */
  lemma PutAllTwice<T>(f: Fields<T>, g: Fields<T>)
    requires Distinct(g)
    ensures PutAll(PutAll(f, g), g) == PutAll(f, g)
  {
    forall k | 0 <= k < |g|
      ensures Get(PutAll(f, g), g[k].0) == Some(g[k].1)
    {
      GetAt(g, k);
      PutAllGet(f, g, g[k].0);
    }
    PutAllSame(PutAll(f, g), g);
  }

  lemma {:induction false} GetMapped<S, T>(f: Fields<S>, change: (string, S) -> T, key: string)
    ensures Get(MapValues(f, change), key)
            == if Has(f, key) then Some(change(key, Get(f, key).value)) else None
  {
    if f != [] { GetMapped(f[1..], change, key); }
  }

  lemma {:induction false} MapPut<S, T>(f: Fields<S>, change: (string, S) -> T, key: string, value: S)
    ensures MapValues(Put(f, key, value), change) == Put(MapValues(f, change), key, change(key, value))
  {
    if f != [] {
      if f[0].0 == key {
        assert Put(f, key, value)[1..] == f[1..];
      } else {
        MapPut(f[1..], change, key, value);
        assert Put(f, key, value)[1..] == Put(f[1..], key, value);
      }
    }
  }

  lemma {:induction false} MapPutAll<S, T>(f: Fields<S>, g: Fields<S>, change: (string, S) -> T)
    ensures MapValues(PutAll(f, g), change) == PutAll(MapValues(f, change), MapValues(g, change))
    decreases |g|
  {
    if g != [] {
      MapPut(f, change, g[0].0, g[0].1);
      MapPutAll(Put(f, g[0].0, g[0].1), g[1..], change);
      assert MapValues(g, change)[1..] == MapValues(g[1..], change);
    }
  }
}
