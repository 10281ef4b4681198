/** The global de-duplication pool of agrf/global_cache/pool.py: objects are
    bucketed by a hash key, and `dedup` hands back an already stored equal
    object when there is one. The module-level dict becomes an explicit pool
    value threaded through each call. */
module Pool {
  import opened Wrappers

  /** Hash key to bucket, each bucket in insertion order. */
  type Pool<K, X> = map<K, seq<X>>

  /** The position of the first element of `bucket` that `eq` matches with `obj`. */
  function FirstMatch<X>(bucket: seq<X>, obj: X, eq: (X, X) -> bool): (r: Option<nat>)
    ensures r.None? <==> forall i | 0 <= i < |bucket| :: !eq(obj, bucket[i])
    ensures r.Some? ==> r.value < |bucket| && eq(obj, bucket[r.value])
    ensures r.Some? ==> forall i | 0 <= i < r.value :: !eq(obj, bucket[i])
  {
    if bucket == [] then None
    else if eq(obj, bucket[0]) then Some(0)
    else
      match FirstMatch(bucket[1..], obj, eq)
      case None => None
      case Some(i) => Some(i + 1)
  }

  /** `q` holds every bucket of `p`, each possibly extended at its end. */
  predicate Grows<K, X(==)>(p: Pool<K, X>, q: Pool<K, X>)
  {
    forall k | k in p :: k in q && p[k] <= q[k]
  }

  /** `dedup(obj, hash_fn, eq_fn)`: the new pool and the returned object. The
      returned object is stored in the bucket of `obj`'s key, and the pool
      only grows, by that key at most. */
  function Dedup<K, X(==)>(pool: Pool<K, X>, obj: X, hash: X -> K, eq: (X, X) -> bool): (r: (Pool<K, X>, X))
    ensures hash(obj) in r.0 && r.1 in r.0[hash(obj)]
    ensures Grows(pool, r.0) && r.0.Keys == pool.Keys + {hash(obj)}
    ensures forall k | k in pool && k != hash(obj) :: r.0[k] == pool[k]
  {
    var key := hash(obj);
    if key !in pool then (pool[key := [obj]], obj)
    else
      match FirstMatch(pool[key], obj, eq)
      case Some(i) => (pool, pool[key][i])
      case None => (pool[key := pool[key] + [obj]], obj)
  }

  /** The first object of a new key starts its bucket and is returned as is. */
  lemma DedupNewKey<K, X>(pool: Pool<K, X>, obj: X, hash: X -> K, eq: (X, X) -> bool)
    requires hash(obj) !in pool
    ensures Dedup(pool, obj, hash, eq) == (pool[hash(obj) := [obj]], obj)
  {
  }

  /** With a match in the bucket, the earliest matching stored object comes
      back and the pool stays as it was. */
  lemma DedupFound<K, X>(pool: Pool<K, X>, obj: X, hash: X -> K, eq: (X, X) -> bool, j: nat)
    requires hash(obj) in pool && j < |pool[hash(obj)]| && eq(obj, pool[hash(obj)][j])
    ensures var (p, x) := Dedup(pool, obj, hash, eq);
      p == pool &&
      exists i | 0 <= i <= j :: x == pool[hash(obj)][i] && eq(obj, x) &&
        forall i' | 0 <= i' < i :: !eq(obj, pool[hash(obj)][i'])
  {
    var i := FirstMatch(pool[hash(obj)], obj, eq).value;
    assert i <= j;
  }

  /** Without a match the object is appended to its bucket and returned. */
  lemma DedupAppends<K, X>(pool: Pool<K, X>, obj: X, hash: X -> K, eq: (X, X) -> bool)
    requires hash(obj) in pool
    requires forall i | 0 <= i < |pool[hash(obj)]| :: !eq(obj, pool[hash(obj)][i])
    ensures Dedup(pool, obj, hash, eq) == (pool[hash(obj) := pool[hash(obj)] + [obj]], obj)
  {
  }

  /** `eq_fn` is an equivalence relation. */
  ghost predicate Equivalence<X(!new)>(eq: (X, X) -> bool)
  {
    (forall x :: eq(x, x)) &&
    (forall x, y :: eq(x, y) ==> eq(y, x)) &&
    (forall x, y, z :: eq(x, y) && eq(y, z) ==> eq(x, z))
  }

  /** `hash_fn` gives equal objects equal keys. */
  ghost predicate HashRespects<K, X(!new)>(hash: X -> K, eq: (X, X) -> bool)
  {
    forall x, y :: eq(x, y) ==> hash(x) == hash(y)
  }

  /** Under a reflexive `eq_fn` the returned object always equals the argument. */
  lemma DedupEqual<K, X(!new)>(pool: Pool<K, X>, obj: X, hash: X -> K, eq: (X, X) -> bool)
    requires Equivalence(eq)
    ensures eq(obj, Dedup(pool, obj, hash, eq).1)
  {
  }

  /** Objects that `eq` matches with `a` are exactly those it matches with `b`. */
  lemma MatchesAgree<X(!new)>(eq: (X, X) -> bool, a: X, b: X, x: X)
    requires Equivalence(eq) && eq(a, b)
    ensures eq(a, x) <==> eq(b, x)
  {
    if eq(a, x) {
      assert eq(b, a);
    }
  }

  /** A later `dedup` of an equal object hands back the very object the first
      call returned, and leaves the pool unchanged. */
  lemma {:induction false} DedupStable<K, X(!new)>(pool: Pool<K, X>, obj: X, other: X, hash: X -> K, eq: (X, X) -> bool)
    requires Equivalence(eq) && HashRespects(hash, eq) && eq(obj, other)
    ensures var (p1, x1) := Dedup(pool, obj, hash, eq);
      Dedup(p1, other, hash, eq) == (p1, x1)
  {
    var (p1, x1) := Dedup(pool, obj, hash, eq);
    var key := hash(obj);
    assert hash(other) == key;
    var b := p1[key];
    var i :| 0 <= i < |b| && b[i] == x1 && eq(obj, b[i]) && forall j | 0 <= j < i :: !eq(obj, b[j]) by {
      if key !in pool {
        assert b[0] == x1;
      } else {
        match FirstMatch(pool[key], obj, eq)
        case Some(k) =>
          assert b[k] == x1;
        case None =>
          assert b[|b| - 1] == x1;
      }
    }
    forall j | 0 <= j <= i ensures eq(other, b[j]) == (j == i) {
      MatchesAgree(eq, obj, other, b[j]);
    }
    assert FirstMatch(b, other, eq) == Some(i);
  }

  /** Every stored object sits under its own key, and no bucket holds two
      equal objects. */
  ghost predicate Canonical<K, X>(pool: Pool<K, X>, hash: X -> K, eq: (X, X) -> bool)
  {
    forall k | k in pool ::
      (forall i | 0 <= i < |pool[k]| :: hash(pool[k][i]) == k) &&
      (forall i, j | 0 <= i < j < |pool[k]| :: !eq(pool[k][i], pool[k][j]))
  }

  /** `dedup` keeps the pool canonical when `eq_fn` is an equivalence. */
  lemma DedupKeepsCanonical<K, X(!new)>(pool: Pool<K, X>, obj: X, hash: X -> K, eq: (X, X) -> bool)
    requires Equivalence(eq) && Canonical(pool, hash, eq)
    ensures Canonical(Dedup(pool, obj, hash, eq).0, hash, eq)
  {
    var key := hash(obj);
    if key in pool && FirstMatch(pool[key], obj, eq).None? {
      var b := pool[key] + [obj];
      forall i, j | 0 <= i < j < |b| ensures !eq(b[i], b[j]) {
        if j == |b| - 1 {
          assert !eq(obj, b[i]);
        }
      }
    }
  }
}
