/** The orientation algebra of agrf/lib/building/symmetry.py.

    An orientation is an integer 0..7 made of three generator bits: M (mirror) = 1,
    R (rotate) = 2 and T (transpose) = 4.  A symmetry class is described by an
    8-entry descriptor that maps every orientation to the label of the appearance
    it produces; orientations with equal labels render identically. */
module Symmetry {
  import opened Wrappers

  type Orientation = i: int | 0 <= i < 8

  const M: Orientation := 1
  const R: Orientation := 2
  const T: Orientation := 4

  /** Python's `a ^ b` on two orientations. */
  function Xor(a: Orientation, b: Orientation): Orientation
  {
    ((a as bv3) ^ (b as bv3)) as int
  }

  /** Python's `b & mask` on two orientations. */
  function And(b: Orientation, mask: Orientation): Orientation
  {
    ((b as bv3) & (mask as bv3)) as int
  }

  /** `compose_symmetry_indices`: the group law.  A mirrored (odd) left operand
      exchanges the R and T bits of the right operand before combining. */
  function Compose(a: Orientation, b: Orientation): Orientation
  {
    if a % 2 == 1 then
      Xor(Xor(Xor(a, if And(b, 4) != 0 then 2 else 0), if And(b, 2) != 0 then 4 else 0), And(b, 1))
    else
      Xor(a, b)
  }

  /** The same law on three-bit vectors, where the solver can decide it bit by bit. */
  function ComposeBits(x: bv3, y: bv3): bv3
  {
    if x & 1 == 1 then x ^ (if y & 4 != 0 then 2 else 0) ^ (if y & 2 != 0 then 4 else 0) ^ (y & 1)
    else x ^ y
  }

  lemma ComposeAsBits(a: Orientation, b: Orientation)
    ensures Compose(a, b) as bv3 == ComposeBits(a as bv3, b as bv3)
  {
  }

  lemma ComposeBitsAssociative(x: bv3, y: bv3, z: bv3)
    ensures ComposeBits(ComposeBits(x, y), z) == ComposeBits(x, ComposeBits(y, z))
  {
  }

  /** 0 is a two-sided identity of the group law. */
  lemma ComposeIdentity(a: Orientation)
    ensures Compose(0, a) == a && Compose(a, 0) == a
  {
  }

  /** The group law is associative. */
  lemma {:induction false} ComposeAssociative(a: Orientation, b: Orientation, c: Orientation)
    ensures Compose(Compose(a, b), c) == Compose(a, Compose(b, c))
  {
    ComposeAsBits(a, b);
    ComposeAsBits(Compose(a, b), c);
    ComposeAsBits(b, c);
    ComposeAsBits(a, Compose(b, c));
    ComposeBitsAssociative(a as bv3, b as bv3, c as bv3);
  }

  /** The group law is not commutative, and every generator is its own inverse. */
  lemma ComposeFacts()
    ensures Compose(M, R) == 5 && Compose(R, M) == 3
    ensures Compose(M, M) == 0 && Compose(R, R) == 0 && Compose(T, T) == 0
    ensures Compose(T, M) == 5 && Compose(T, R) == 6 && Compose(6, M) == 7
  {
  }

  /** The inverse of an orientation: 3 and 5 are each other's inverse, every
      other orientation is its own. */
  function Inverse(a: Orientation): (b: Orientation)
    ensures Compose(a, b) == 0 && Compose(b, a) == 0
  {
    if a == 3 then 5 else if a == 5 then 3 else a
  }

  /** Every orientation is the T part, then the R part, then the M part of it. */
  lemma ComposeGenerators(z: Orientation)
    ensures z == Compose(Compose(And(z, T), And(z, R)), And(z, M))
    ensures And(z, T) in {0, T} && And(z, R) in {0, R} && And(z, M) in {0, M}
  {
  }

  // ---------------------------------------------------------------------------
  // Descriptors, first occurrences and canonical labels

  /** A symmetry descriptor: one class label per orientation. */
  type Descriptor = d: seq<nat> | |d| == 8 witness [0, 0, 0, 0, 0, 0, 0, 0]

  /** Position `i` is the first position carrying its label. */
  predicate IsFirst<X(==)>(d: seq<X>, i: int)
    requires 0 <= i < |d|
  {
    forall k | 0 <= k < i :: d[k] != d[i]
  }

  function FirstFrom<X(==)>(d: seq<X>, k: nat, i: nat): (f: nat)
    requires k <= i < |d|
    requires forall j | 0 <= j < k :: d[j] != d[i]
    ensures k <= f <= i && d[f] == d[i] && IsFirst(d, f)
    decreases i - k
  {
    if d[k] == d[i] then k else FirstFrom(d, k + 1, i)
  }

  /** The first position carrying the same label as position `i`. */
  function FirstIndex<X(==)>(d: seq<X>, i: nat): (f: nat)
    requires i < |d|
    ensures f <= i && d[f] == d[i] && IsFirst(d, f)
  {
    FirstFrom(d, 0, i)
  }

  lemma FirstIndexUnique<X>(d: seq<X>, i: nat, f: nat)
    requires i < |d| && f < |d|
    requires d[f] == d[i] && IsFirst(d, f)
    ensures FirstIndex(d, i) == f
  {
  }

  /** The number of first occurrences strictly before position `n`. */
  function NewCount<X(==)>(d: seq<X>, n: nat): nat
    requires n <= |d|
  {
    if n == 0 then 0 else NewCount(d, n - 1) + (if IsFirst(d, n - 1) then 1 else 0)
  }

  lemma NewCountStep<X>(d: seq<X>, i: nat)
    requires i < |d|
    ensures NewCount(d, i + 1) == NewCount(d, i) + (if IsFirst(d, i) then 1 else 0)
  {
  }

  lemma {:induction false} NewCountMonotone<X>(d: seq<X>, i: nat, j: nat)
    requires i <= j <= |d|
    ensures NewCount(d, i) <= NewCount(d, j)
    ensures i < j && IsFirst(d, i) ==> NewCount(d, i) < NewCount(d, j)
    decreases j - i
  {
    if i < j {
      NewCountMonotone(d, i, j - 1);
      if i == j - 1 {
        assert NewCount(d, j) == NewCount(d, i) + (if IsFirst(d, i) then 1 else 0);
      }
    }
  }

  /** The set of labels used by the first `n` positions. */
  ghost function Labels<X>(d: seq<X>, n: nat): set<X>
    requires n <= |d|
  {
    set k | 0 <= k < n :: d[k]
  }

  lemma LabelsStep<X>(d: seq<X>, n: nat)
    requires n < |d|
    ensures Labels(d, n + 1) == Labels(d, n) + {d[n]}
    ensures d[n] in Labels(d, n) <==> !IsFirst(d, n)
  {
    forall x | x in Labels(d, n + 1) ensures x in Labels(d, n) + {d[n]} {
      var k :| 0 <= k < n + 1 && d[k] == x;
      if k < n {
        assert x in Labels(d, n);
      }
    }
    forall x | x in Labels(d, n) + {d[n]} ensures x in Labels(d, n + 1) {
      if x in Labels(d, n) {
        var k :| 0 <= k < n && d[k] == x;
        assert d[k] in Labels(d, n + 1);
      } else {
        assert d[n] in Labels(d, n + 1);
      }
    }
    if !IsFirst(d, n) {
      var k :| 0 <= k < n && d[k] == d[n];
      assert d[k] in Labels(d, n);
    }
  }

  /** There are as many first occurrences as distinct labels. */
  lemma {:induction false} NewCountIsLabelCount<X>(d: seq<X>, n: nat)
    requires n <= |d|
    ensures NewCount(d, n) == |Labels(d, n)|
  {
    if n > 0 {
      NewCountIsLabelCount(d, n - 1);
      LabelsStep(d, n - 1);
    }
  }

  /** The reference definition of canonicalisation: the label of position `i` is
      the number of distinct labels seen before its class first appears. */
  function CanonicalLabel<X(==)>(d: seq<X>, i: nat): nat
    requires i < |d|
  {
    NewCount(d, FirstIndex(d, i))
  }

  /** Canonical labels keep exactly the partition of the input. */
  lemma SameLabelIff<X>(d: seq<X>, i: nat, j: nat)
    requires i < |d| && j < |d|
    ensures CanonicalLabel(d, i) == CanonicalLabel(d, j) <==> d[i] == d[j]
  {
    var fi, fj := FirstIndex(d, i), FirstIndex(d, j);
    if d[i] == d[j] {
      FirstIndexUnique(d, j, fi);
    } else if fi < fj {
      NewCountMonotone(d, fi, fj);
    } else {
      NewCountMonotone(d, fj, fi);
    }
  }

  /** Canonical labels are smaller than the number of classes. */
  lemma CanonicalLabelBound<X>(d: seq<X>, i: nat)
    requires i < |d|
    ensures CanonicalLabel(d, i) < NewCount(d, |d|)
  {
    NewCountMonotone(d, FirstIndex(d, i), |d|);
  }

  /** Two sequences of the same length induce the same partition of positions. */
  ghost predicate SameClasses<X, Y>(a: seq<X>, b: seq<Y>)
  {
    |a| == |b| && forall i, j | 0 <= i < |a| && 0 <= j < |a| :: a[i] == a[j] <==> b[i] == b[j]
  }

  /** Every class of `fine` lies inside one class of `coarse`. */
  ghost predicate Refines<X, Y>(fine: seq<X>, coarse: seq<Y>)
  {
    |fine| == |coarse| && forall i, j | 0 <= i < |fine| && 0 <= j < |fine| :: fine[i] == fine[j] ==> coarse[i] == coarse[j]
  }

  ghost predicate AssignInv<X>(d: seq<X>, i: nat, assign: map<X, nat>)
    requires i <= |d|
  {
    && assign.Keys == Labels(d, i)
    && (forall k {:trigger CanonicalLabel(d, k)} | 0 <= k < i :: assign[d[k]] == CanonicalLabel(d, k))
    && |assign| == NewCount(d, i)
  }

  /** Extending the label dictionary with an already-labelled position. */
  lemma AssignKeep<X>(d: seq<X>, i: nat, assign: map<X, nat>)
    requires i < |d| && AssignInv(d, i, assign) && d[i] in assign
    ensures assign[d[i]] == CanonicalLabel(d, i)
    ensures AssignInv(d, i + 1, assign)
  {
    LabelsStep(d, i);
    assert Labels(d, i + 1) == Labels(d, i);
    var k :| 0 <= k < i && d[k] == d[i];
    FirstIndexUnique(d, i, FirstIndex(d, k));
    assert assign[d[k]] == CanonicalLabel(d, k);
    assert assign[d[i]] == CanonicalLabel(d, i);
    NewCountStep(d, i);
    assert assign.Keys == Labels(d, i + 1);
    assert |assign| == NewCount(d, i + 1);
    forall j | 0 <= j < i + 1 ensures assign[d[j]] == CanonicalLabel(d, j) {
      if j < i {
        assert assign[d[j]] == CanonicalLabel(d, j);
      } else {
        assert j == i;
      }
    }
  }

  /** Extending the label dictionary with a new label. */
  lemma AssignNew<X>(d: seq<X>, i: nat, assign: map<X, nat>)
    requires i < |d| && AssignInv(d, i, assign) && d[i] !in assign
    ensures |assign| == CanonicalLabel(d, i)
    ensures AssignInv(d, i + 1, assign[d[i] := |assign|])
  {
    var assign' := assign[d[i] := |assign|];
    LabelsStep(d, i);
    FirstIndexUnique(d, i, i);
    assert assign'.Keys == assign.Keys + {d[i]};
    forall k | 0 <= k < i + 1
      ensures assign'[d[k]] == CanonicalLabel(d, k)
    {
      if k < i {
        assert d[k] in Labels(d, i);
      }
    }
  }

  /** The label `__canonicalize_descriptor` gives position `i`, and its dictionary afterwards. */
  function CanonStep<X(==)>(d: seq<X>, i: nat, assign: map<X, nat>): (r: (nat, map<X, nat>))
    requires i < |d| && AssignInv(d, i, assign)
    ensures r.0 == CanonicalLabel(d, i) && AssignInv(d, i + 1, r.1)
  {
    if d[i] in assign then
      AssignKeep(d, i, assign);
      (assign[d[i]], assign)
    else
      AssignNew(d, i, assign);
      (|assign|, assign[d[i] := |assign|])
  }

  /** The loop of `__canonicalize_descriptor` from position `i` on, with the
      label dictionary `assign` built so far. */
  function CanonFrom<X(==)>(d: seq<X>, i: nat, assign: map<X, nat>): (r: seq<nat>)
    requires i <= |d| && AssignInv(d, i, assign)
    ensures |r| == |d| - i
    ensures forall k {:trigger CanonicalLabel(d, k)} | i <= k < |d| :: r[k - i] == CanonicalLabel(d, k)
    decreases |d| - i
  {
    if i == |d| then []
    else
      var step := CanonStep(d, i, assign);
      var rest := CanonFrom(d, i + 1, step.1);
      CanonCons(d, i, step.0, rest);
      [step.0] + rest
  }

  /** Prepending the label of position `i` to the labels after it. */
  lemma CanonCons<X>(d: seq<X>, i: nat, x: nat, rest: seq<nat>)
    requires i < |d| && x == CanonicalLabel(d, i) && |rest| == |d| - i - 1
    requires forall k {:trigger CanonicalLabel(d, k)} | i + 1 <= k < |d| :: rest[k - (i + 1)] == CanonicalLabel(d, k)
    ensures forall k {:trigger CanonicalLabel(d, k)} | i <= k < |d| :: ([x] + rest)[k - i] == CanonicalLabel(d, k)
  {
    forall k | i <= k < |d| ensures ([x] + rest)[k - i] == CanonicalLabel(d, k) {
      if k > i {
        assert ([x] + rest)[k - i] == rest[k - (i + 1)];
      }
    }
  }

  /** `__canonicalize_descriptor`: relabels the classes by order of first appearance. */
  function Canonicalize<X(==)>(d: seq<X>): (r: seq<nat>)
    ensures |r| == |d|
    ensures forall k {:trigger CanonicalLabel(d, k)} | 0 <= k < |d| :: r[k] == CanonicalLabel(d, k)
  {
    assert Labels(d, 0) == {};
    CanonFrom(d, 0, map[])
  }

  /** Canonicalisation preserves the partition of orientations. */
  lemma CanonicalizeSameClasses<X>(d: seq<X>)
    ensures SameClasses(d, Canonicalize(d))
  {
    forall i, j | 0 <= i < |d| && 0 <= j < |d|
      ensures d[i] == d[j] <==> Canonicalize(d)[i] == Canonicalize(d)[j]
    {
      SameLabelIff(d, i, j);
    }
  }

  /** Canonicalisation only looks at the partition: two inputs with the same
      classes canonicalise to the same descriptor. */
  lemma {:induction false} CanonicalizeOnlyPartition<X, Y>(a: seq<X>, b: seq<Y>)
    requires SameClasses(a, b)
    ensures Canonicalize(a) == Canonicalize(b)
  {
    forall n | 0 <= n <= |a|
      ensures NewCount(a, n) == NewCount(b, n)
    {
      NewCountSame(a, b, n);
    }
    forall i | 0 <= i < |a|
      ensures Canonicalize(a)[i] == Canonicalize(b)[i]
    {
      assert Canonicalize(a)[i] == CanonicalLabel(a, i) && Canonicalize(b)[i] == CanonicalLabel(b, i);
      var f := FirstIndex(a, i);
      assert IsFirst(b, f) by {
        forall k | 0 <= k < f ensures b[k] != b[f] {
          assert a[k] != a[f];
        }
      }
      FirstIndexUnique(b, i, f);
    }
  }

  lemma {:induction false} NewCountSame<X, Y>(a: seq<X>, b: seq<Y>, n: nat)
    requires SameClasses(a, b) && n <= |a|
    ensures NewCount(a, n) == NewCount(b, n)
  {
    if n > 0 {
      NewCountSame(a, b, n - 1);
      assert IsFirst(a, n - 1) == IsFirst(b, n - 1) by {
        if !IsFirst(a, n - 1) {
          var k :| 0 <= k < n - 1 && a[k] == a[n - 1];
          assert b[k] == b[n - 1];
        }
        if !IsFirst(b, n - 1) {
          var k :| 0 <= k < n - 1 && b[k] == b[n - 1];
          assert a[k] == a[n - 1];
        }
      }
    }
  }

  /** A descriptor is canonical when canonicalisation leaves it unchanged. */
  predicate IsCanonical(d: seq<nat>)
  {
    Canonicalize(d) == d
  }

  /** Canonicalisation is idempotent. */
  lemma CanonicalizeIdempotent<X>(d: seq<X>)
    ensures IsCanonical(Canonicalize(d))
  {
    CanonicalizeSameClasses(d);
    var c := Canonicalize(d);
    assert SameClasses(c, d);
    CanonicalizeOnlyPartition(c, d);
  }

  /** Restricted growth: every entry reuses an earlier label or is the next
      fresh one.  `next` counts the labels seen before position `i`. */
  predicate RestrictedGrowth(d: seq<nat>, i: nat, next: nat)
    requires i <= |d|
    decreases |d| - i
  {
    if i == |d| then true
    else if d[i] < next then RestrictedGrowth(d, i + 1, next)
    else d[i] == next && RestrictedGrowth(d, i + 1, next + 1)
  }

  /** The labels of the first `n` entries are exactly `0 .. NewCount(d, n) - 1`. */
  ghost predicate LabelsBelow(d: seq<nat>, n: nat)
    requires n <= |d|
  {
    forall x: nat :: x in Labels(d, n) <==> x < NewCount(d, n)
  }

  /** While the labels seen so far are exactly `0 .. NewCount - 1`, a label no
      larger than that count keeps them so. */
  lemma GrowthStepLabels(d: seq<nat>, i: nat)
    requires i < |d| && d[i] <= NewCount(d, i)
    requires LabelsBelow(d, i)
    ensures IsFirst(d, i) <==> d[i] == NewCount(d, i)
    ensures LabelsBelow(d, i + 1)
  {
    LabelsStep(d, i);
    NewCountStep(d, i);
    var seen, count := Labels(d, i + 1), NewCount(d, i + 1);
    forall x: nat ensures x in seen <==> x < count {
      assert x in seen <==> x in Labels(d, i) || x == d[i];
    }
  }

  /** Under the same invariant, an earlier label is the canonical one. */
  lemma GrowthStepLabel(d: seq<nat>, i: nat)
    requires i < |d| && d[i] <= NewCount(d, i)
    requires IsFirst(d, i) <==> d[i] == NewCount(d, i)
    requires forall k {:trigger CanonicalLabel(d, k)} | 0 <= k < i :: d[k] == CanonicalLabel(d, k)
    ensures d[i] == CanonicalLabel(d, i)
  {
    var f := FirstIndex(d, i);
    if f < i {
      FirstIndexUnique(d, f, f);
      assert CanonicalLabel(d, f) == d[f];
    } else {
      FirstIndexUnique(d, i, i);
    }
  }

  /** A restricted-growth sequence labels every position canonically. */
  lemma {:induction false} RestrictedGrowthLabels(d: seq<nat>, i: nat)
    requires i <= |d| && RestrictedGrowth(d, i, NewCount(d, i))
    requires LabelsBelow(d, i)
    requires forall k {:trigger CanonicalLabel(d, k)} | 0 <= k < i :: d[k] == CanonicalLabel(d, k)
    ensures forall k {:trigger CanonicalLabel(d, k)} | 0 <= k < |d| :: d[k] == CanonicalLabel(d, k)
    decreases |d| - i
  {
    if i < |d| {
      GrowthStepLabels(d, i);
      GrowthStepLabel(d, i);
      NewCountStep(d, i);
      RestrictedGrowthLabels(d, i + 1);
    }
  }

  /** Restricted-growth descriptors are canonical. */
  lemma RestrictedGrowthCanonical(d: seq<nat>)
    requires RestrictedGrowth(d, 0, 0)
    ensures IsCanonical(d)
  {
    assert Labels(d, 0) == {};
    assert LabelsBelow(d, 0);
    RestrictedGrowthLabels(d, 0);
    forall k | 0 <= k < |d| ensures Canonicalize(d)[k] == d[k] {
      assert Canonicalize(d)[k] == CanonicalLabel(d, k);
    }
  }

  // ---------------------------------------------------------------------------
  // Render indices

  /** The loop of `render_indices` from orientation `i` on, with `seen` the labels
      of the orientations before `i`. */
  function RenderFrom(d: Descriptor, i: nat, seen: set<nat>): (r: seq<Orientation>)
    requires i <= 8
    requires seen == Labels(d, i)
    ensures forall k | 0 <= k < |r| :: i <= r[k]
    ensures forall p, q | 0 <= p < q < |r| :: r[p] < r[q]
    ensures forall j :: j in r <==> i <= j < 8 && IsFirst(d, j)
    ensures |r| == NewCount(d, 8) - NewCount(d, i)
    ensures forall k | 0 <= k < |r| :: NewCount(d, r[k]) == NewCount(d, i) + k
    decreases 8 - i
  {
    if i == 8 then []
    else
      LabelsStep(d, i);
      NewCountMonotone(d, i + 1, 8);
      NewCountStep(d, i);
      if d[i] in seen then
        assert seen + {d[i]} == seen;
        RenderFrom(d, i + 1, seen)
      else
        var rest := RenderFrom(d, i + 1, seen + {d[i]});
        RenderFromCons(d, i, rest);
        [i] + rest
  }

  /** Putting a first occurrence `i` in front of the render indices after it
      gives the render indices from `i` on. */
  lemma RenderFromCons(d: Descriptor, i: Orientation, rest: seq<Orientation>)
    requires IsFirst(d, i) && NewCount(d, i + 1) == NewCount(d, i) + 1
    requires forall k | 0 <= k < |rest| :: i + 1 <= rest[k]
    requires forall p, q | 0 <= p < q < |rest| :: rest[p] < rest[q]
    requires forall j :: j in rest <==> i + 1 <= j < 8 && IsFirst(d, j)
    requires |rest| == NewCount(d, 8) - NewCount(d, i + 1)
    requires forall k | 0 <= k < |rest| :: NewCount(d, rest[k]) == NewCount(d, i + 1) + k
    ensures var r := [i] + rest;
      && (forall k | 0 <= k < |r| :: i <= r[k])
      && (forall p, q | 0 <= p < q < |r| :: r[p] < r[q])
      && (forall j :: j in r <==> i <= j < 8 && IsFirst(d, j))
      && |r| == NewCount(d, 8) - NewCount(d, i)
      && (forall k | 0 <= k < |r| :: NewCount(d, r[k]) == NewCount(d, i) + k)
  {
  }

  /** `render_indices`: the first orientation of every class, in increasing order. */
  function RenderIndices(d: Descriptor): (r: seq<Orientation>)
    ensures |r| > 0 && r[0] == 0
    ensures forall p, q | 0 <= p < q < |r| :: r[p] < r[q]
    ensures forall j :: j in r <==> 0 <= j < 8 && IsFirst(d, j)
    ensures |r| == NewCount(d, 8)
    ensures forall k | 0 <= k < |r| :: NewCount(d, r[k]) == k
  {
    assert Labels(d, 0) == {};
    var r := RenderFrom(d, 0, {});
    assert 0 in r;
    r
  }

  /** There is one render index per distinct label, and their labels are distinct. */
  lemma RenderIndicesCount(d: Descriptor)
    ensures |RenderIndices(d)| == |Labels(d, 8)|
    ensures forall p, q | 0 <= p < q < |RenderIndices(d)| :: d[RenderIndices(d)[p]] != d[RenderIndices(d)[q]]
  {
    NewCountIsLabelCount(d, 8);
    var r := RenderIndices(d);
    forall p, q | 0 <= p < q < |r| ensures d[r[p]] != d[r[q]] {
      assert r[q] in r;
      assert IsFirst(d, r[q]);
    }
  }

  /** In a canonical descriptor the k-th render index carries label k. */
  lemma CanonicalRenderLabels(d: Descriptor)
    requires IsCanonical(d)
    ensures forall k | 0 <= k < |RenderIndices(d)| :: d[RenderIndices(d)[k]] == k
    ensures forall i | 0 <= i < 8 :: d[i] < |RenderIndices(d)|
  {
    var r := RenderIndices(d);
    forall k | 0 <= k < |r| ensures d[r[k]] == k {
      assert r[k] in r;
      assert Canonicalize(d)[r[k]] == CanonicalLabel(d, r[k]);
      FirstIndexUnique(d, r[k], r[k]);
    }
    forall i | 0 <= i < 8 ensures d[i] < |r| {
      assert Canonicalize(d)[i] == CanonicalLabel(d, i);
      CanonicalLabelBound(d, i);
    }
  }

  /** A canonical descriptor has as many render indices as its largest label
      plus one. */
  lemma CanonicalRenderCount(d: Descriptor, w: Orientation)
    requires IsCanonical(d) && forall i | 0 <= i < 8 :: d[i] <= d[w]
    ensures |RenderIndices(d)| == d[w] + 1
  {
    CanonicalRenderLabels(d);
    var r := RenderIndices(d);
    assert d[r[|r| - 1]] == |r| - 1;
  }

  /** On a canonical descriptor, a list whose `k`-th entry is the first
      orientation labelled `k`, for every label, is `render_indices`. */
  lemma RenderIndicesFromLabels(d: Descriptor, ri: seq<Orientation>)
    requires IsCanonical(d) && 0 < |ri|
    requires forall k | 0 <= k < |ri| :: d[ri[k]] == k && IsFirst(d, ri[k])
    requires forall i | 0 <= i < 8 :: d[i] < |ri|
    ensures RenderIndices(d) == ri
  {
    CanonicalRenderLabels(d);
    var r := RenderIndices(d);
    assert d[r[|r| - 1]] == |r| - 1;
    assert d[ri[|ri| - 1]] == |ri| - 1;
    forall k | 0 <= k < |r| ensures r[k] == ri[k] {
      assert r[k] in r;
      assert IsFirst(d, r[k]) && d[r[k]] == d[ri[k]];
    }
  }

  /** `canonical_index`: the first orientation in the class of `i`; the
      source's fallback `return i` is never reached. */
  function CanonicalIndex(d: Descriptor, i: Orientation): (j: Orientation)
    ensures j <= i && d[j] == d[i]
    ensures forall k | 0 <= k < j :: d[k] != d[i]
    ensures j in RenderIndices(d)
  {
    CanonicalIndexFrom(d, i, 0)
  }

  function CanonicalIndexFrom(d: Descriptor, i: Orientation, j: nat): (r: Orientation)
    requires j <= i
    requires forall k | 0 <= k < j :: d[k] != d[i]
    ensures j <= r <= i && d[r] == d[i]
    ensures forall k | 0 <= k < r :: d[k] != d[i]
    decreases 8 - j
  {
    if d[j] == d[i] then j else CanonicalIndexFrom(d, i, j + 1)
  }

  // ---------------------------------------------------------------------------
  // Symmetry classes and the registry

  datatype SymmetryClass =
    | Full
    | SymmetricalX
    | SymmetricalY
    | Symmetrical
    | Rotational
    | Rotational4
    | Diagonal
    | DiagonalAlt
    | Diamond
    | Cylindrical
  {
    /** `_symmetry_descriptor` of each built-in class. */
    function Desc(): Descriptor
    {
      match this
      case Full => [0, 1, 2, 3, 4, 5, 6, 7]
      case SymmetricalX => [0, 1, 0, 1, 2, 3, 2, 3]
      case SymmetricalY => [0, 1, 2, 3, 0, 1, 2, 3]
      case Symmetrical => [0, 1, 0, 1, 0, 1, 0, 1]
      case Rotational => [0, 1, 2, 3, 2, 3, 0, 1]
      case Rotational4 => [0, 1, 1, 0, 1, 0, 0, 1]
      case Diagonal => [0, 0, 1, 2, 2, 1, 3, 3]
      case DiagonalAlt => [0, 1, 2, 2, 3, 3, 1, 0]
      case Diamond => [0, 0, 1, 1, 1, 1, 0, 0]
      case Cylindrical => [0, 0, 0, 0, 0, 0, 0, 0]
    }

    /** The render indices of each built-in class, written out. */
    function Render(): seq<Orientation>
    {
      match this
      case Full => [0, 1, 2, 3, 4, 5, 6, 7]
      case SymmetricalX => [0, 1, 4, 5]
      case SymmetricalY => [0, 1, 2, 3]
      case Symmetrical => [0, 1]
      case Rotational => [0, 1, 2, 3]
      case Rotational4 => [0, 1]
      case Diagonal => [0, 2, 3, 6]
      case DiagonalAlt => [0, 1, 2, 4]
      case Diamond => [0, 2]
      case Cylindrical => [0]
    }
  }

  /** `_type_pool`: the seven registered descriptors.  Rotational4, DiagonalAlt
      and Diamond are not registered. */
  const TypePool: map<seq<nat>, SymmetryClass> := map[
    [0, 1, 2, 3, 4, 5, 6, 7] := Full,
    [0, 1, 0, 1, 2, 3, 2, 3] := SymmetricalX,
    [0, 1, 2, 3, 0, 1, 2, 3] := SymmetricalY,
    [0, 1, 0, 1, 0, 1, 0, 1] := Symmetrical,
    [0, 0, 1, 2, 2, 1, 3, 3] := Diagonal,
    [0, 1, 2, 3, 2, 3, 0, 1] := Rotational,
    [0, 0, 0, 0, 0, 0, 0, 0] := Cylindrical
  ]

  /** Looking a canonical descriptor up in `_type_pool`; a missing key is a KeyError. */
  function PoolLookup(d: seq<nat>): (r: Result<SymmetryClass>)
    ensures r.Ok? ==> r.value.Desc() == d
    ensures r.Ok? ==> r.value !in {Rotational4, DiagonalAlt, Diamond}
    ensures r.Err? ==> r.error == KeyError
  {
    if d in TypePool then Ok(TypePool[d]) else Err(KeyError)
  }

  /** Every registered class is found under its own descriptor. */
  lemma PoolRegistersSevenClasses(c: SymmetryClass)
    ensures PoolLookup(c.Desc()).Ok? <==> c !in {Rotational4, DiagonalAlt, Diamond}
    ensures PoolLookup(c.Desc()).Ok? ==> PoolLookup(c.Desc()) == Ok(c)
  {
  }

  /** Every built-in descriptor is already canonical. */
  lemma BuiltinsCanonical(c: SymmetryClass)
    ensures IsCanonical(c.Desc())
  {
    match c
    case Full => RestrictedGrowthCanonical([0, 1, 2, 3, 4, 5, 6, 7]);
    case SymmetricalX => RestrictedGrowthCanonical([0, 1, 0, 1, 2, 3, 2, 3]);
    case SymmetricalY => RestrictedGrowthCanonical([0, 1, 2, 3, 0, 1, 2, 3]);
    case Symmetrical => RestrictedGrowthCanonical([0, 1, 0, 1, 0, 1, 0, 1]);
    case Rotational => RestrictedGrowthCanonical([0, 1, 2, 3, 2, 3, 0, 1]);
    case Rotational4 => RestrictedGrowthCanonical([0, 1, 1, 0, 1, 0, 0, 1]);
    case Diagonal => RestrictedGrowthCanonical([0, 0, 1, 2, 2, 1, 3, 3]);
    case DiagonalAlt => RestrictedGrowthCanonical([0, 1, 2, 2, 3, 3, 1, 0]);
    case Diamond => RestrictedGrowthCanonical([0, 0, 1, 1, 1, 1, 0, 0]);
    case Cylindrical => RestrictedGrowthCanonical([0, 0, 0, 0, 0, 0, 0, 0]);
  }

  /** `render_indices` of every built-in class, and so the number of objects
      its `create_variants` call takes. */
  lemma RenderIndicesOf(c: SymmetryClass)
    ensures RenderIndices(c.Desc()) == c.Render()
  {
    BuiltinsCanonical(c);
    RenderIndicesFromLabels(c.Desc(), c.Render());
  }

  /** Orientations that look alike keep looking alike after any further
      orientation: the descriptor is a union of cosets, so the links that
      `create_variants` wires are well defined. */
  ghost predicate Consistent(d: Descriptor)
  {
    forall x: Orientation, y: Orientation, z: Orientation {:trigger Compose(x, z), Compose(y, z)} | d[x] == d[y] ::
      d[Compose(x, z)] == d[Compose(y, z)]
  }

  /** The first orientation from `j` on that looks like `x`: a lean twin of
      `CanonicalIndex` that the solver can evaluate on literal descriptors. */
  function FirstMatch(d: Descriptor, x: Orientation, j: nat): (r: Orientation)
    requires j <= x
    ensures j <= r <= x
    decreases x - j
  {
    if d[j] == d[x] then j else FirstMatch(d, x, j + 1)
  }

  lemma {:induction false} FirstMatchSame(d: Descriptor, x: Orientation, y: Orientation, j: nat)
    requires j <= x && j <= y && d[x] == d[y]
    ensures FirstMatch(d, x, j) == FirstMatch(d, y, j)
    ensures d[FirstMatch(d, x, j)] == d[x]
    decreases x - j
  {
    if d[j] != d[x] {
      FirstMatchSame(d, x, y, j + 1);
    }
  }

  /** Check of the three generators against the first look-alike, orientation by orientation. */
  predicate GeneratorsRespected(d: Descriptor, x: nat)
    requires x <= 8
    decreases 8 - x
  {
    x == 8 ||
    (var c := FirstMatch(d, x, 0);
     && d[Compose(x, M)] == d[Compose(c, M)]
     && d[Compose(x, R)] == d[Compose(c, R)]
     && d[Compose(x, T)] == d[Compose(c, T)]
     && GeneratorsRespected(d, x + 1))
  }

  lemma {:induction false} GeneratorsRespectedAt(d: Descriptor, k: nat, x: Orientation, g: Orientation)
    requires k <= x && GeneratorsRespected(d, k) && g in {M, R, T}
    ensures d[Compose(x, g)] == d[Compose(FirstMatch(d, x, 0), g)]
    decreases x - k
  {
    if k < x {
      GeneratorsRespectedAt(d, k + 1, x, g);
    }
  }

  /** One generator step preserves looking alike. */
  lemma GeneratorStep(d: Descriptor, x: Orientation, y: Orientation, g: Orientation)
    requires GeneratorsRespected(d, 0) && d[x] == d[y] && g in {0, M, R, T}
    ensures d[Compose(x, g)] == d[Compose(y, g)]
  {
    if g == 0 {
      ComposeIdentity(x);
      ComposeIdentity(y);
    } else {
      FirstMatchSame(d, x, y, 0);
      GeneratorsRespectedAt(d, 0, x, g);
      GeneratorsRespectedAt(d, 0, y, g);
    }
  }

  /** Checking the generators suffices for consistency. */
  lemma ConsistentByGenerators(d: Descriptor)
    requires GeneratorsRespected(d, 0)
    ensures Consistent(d)
  {
    forall x: Orientation, y: Orientation, z: Orientation | d[x] == d[y]
      ensures d[Compose(x, z)] == d[Compose(y, z)]
    {
      var t, r, m := And(z, T), And(z, R), And(z, M);
      ComposeGenerators(z);
      GeneratorStep(d, x, y, t);
      GeneratorStep(d, Compose(x, t), Compose(y, t), r);
      GeneratorStep(d, Compose(Compose(x, t), r), Compose(Compose(y, t), r), m);
      ComposeAssociative(x, t, r);
      ComposeAssociative(y, t, r);
      ComposeAssociative(x, Compose(t, r), m);
      ComposeAssociative(y, Compose(t, r), m);
    }
  }

  /** Every built-in descriptor is consistent.  Each class is evaluated in a
      lemma of its own to keep every proof small. */
  lemma BuiltinsConsistent(c: SymmetryClass)
    ensures Consistent(c.Desc())
  {
    match c
    case Full => FullConsistent();
    case SymmetricalX => SymmetricalXConsistent();
    case SymmetricalY => SymmetricalYConsistent();
    case Symmetrical => SymmetricalConsistent();
    case Rotational => RotationalConsistent();
    case Rotational4 => Rotational4Consistent();
    case Diagonal => DiagonalConsistent();
    case DiagonalAlt => DiagonalAltConsistent();
    case Diamond => DiamondConsistent();
    case Cylindrical => CylindricalConsistent();
  }

  lemma FullConsistent()
    ensures Consistent(Full.Desc())
  {
    ConsistentByGenerators([0, 1, 2, 3, 4, 5, 6, 7]);
  }

  lemma SymmetricalXConsistent()
    ensures Consistent(SymmetricalX.Desc())
  {
    ConsistentByGenerators([0, 1, 0, 1, 2, 3, 2, 3]);
  }

  lemma SymmetricalYConsistent()
    ensures Consistent(SymmetricalY.Desc())
  {
    ConsistentByGenerators([0, 1, 2, 3, 0, 1, 2, 3]);
  }

  lemma SymmetricalConsistent()
    ensures Consistent(Symmetrical.Desc())
  {
    ConsistentByGenerators([0, 1, 0, 1, 0, 1, 0, 1]);
  }

  lemma RotationalConsistent()
    ensures Consistent(Rotational.Desc())
  {
    ConsistentByGenerators([0, 1, 2, 3, 2, 3, 0, 1]);
  }

  lemma Rotational4Consistent()
    ensures Consistent(Rotational4.Desc())
  {
    ConsistentByGenerators([0, 1, 1, 0, 1, 0, 0, 1]);
  }

  lemma DiagonalConsistent()
    ensures Consistent(Diagonal.Desc())
  {
    ConsistentByGenerators([0, 0, 1, 2, 2, 1, 3, 3]);
  }

  lemma DiagonalAltConsistent()
    ensures Consistent(DiagonalAlt.Desc())
  {
    ConsistentByGenerators([0, 1, 2, 2, 3, 3, 1, 0]);
  }

  lemma DiamondConsistent()
    ensures Consistent(Diamond.Desc())
  {
    ConsistentByGenerators([0, 0, 1, 1, 1, 1, 0, 0]);
  }

  lemma CylindricalConsistent()
    ensures Consistent(Cylindrical.Desc())
  {
    ConsistentByGenerators([0, 0, 0, 0, 0, 0, 0, 0]);
  }

  // ---------------------------------------------------------------------------
  // join and meet

  function Pair(a: Descriptor, b: Descriptor): (p: seq<(nat, nat)>)
    ensures |p| == 8
    ensures forall i | 0 <= i < 8 :: p[i] == (a[i], b[i])
  {
    seq(8, i requires 0 <= i < 8 => (a[i], b[i]))
  }

  /** The descriptor computed by `join` before the registry lookup. */
  function JoinDescriptor(a: Descriptor, b: Descriptor): (j: Descriptor)
    ensures forall i, k | 0 <= i < 8 && 0 <= k < 8 :: j[i] == j[k] <==> a[i] == a[k] && b[i] == b[k]
    ensures IsCanonical(j)
  {
    var p := Pair(a, b);
    CanonicalizeSameClasses(p);
    CanonicalizeIdempotent(p);
    Canonicalize(p)
  }

  /** `join`: the common refinement of two classes, looked up in the registry. */
  function Join(a: SymmetryClass, b: SymmetryClass): (r: Result<SymmetryClass>)
    ensures r.Ok? ==> forall i, k | 0 <= i < 8 && 0 <= k < 8 ::
      r.value.Desc()[i] == r.value.Desc()[k] <==> a.Desc()[i] == a.Desc()[k] && b.Desc()[i] == b.Desc()[k]
    ensures r.Err? <==> JoinDescriptor(a.Desc(), b.Desc()) !in TypePool
  {
    PoolLookup(JoinDescriptor(a.Desc(), b.Desc()))
  }

  /** The common refinement is the greatest lower bound under refinement. */
  lemma JoinDescriptorGreatest(a: Descriptor, b: Descriptor, c: seq<nat>)
    requires Refines(c, a) && Refines(c, b)
    ensures Refines(JoinDescriptor(a, b), a) && Refines(JoinDescriptor(a, b), b)
    ensures Refines(c, JoinDescriptor(a, b))
  {
    var r := JoinDescriptor(a, b);
    forall i, j | 0 <= i < 8 && 0 <= j < 8 && c[i] == c[j] ensures r[i] == r[j] {
      assert a[i] == a[j] && b[i] == b[j];
    }
  }

  /** `join` is the greatest lower bound of two classes under refinement. */
  lemma JoinIsMeetOfPartitions(a: SymmetryClass, b: SymmetryClass, c: seq<nat>)
    requires Join(a, b).Ok?
    requires Refines(c, a.Desc()) && Refines(c, b.Desc())
    ensures Refines(Join(a, b).value.Desc(), a.Desc()) && Refines(Join(a, b).value.Desc(), b.Desc())
    ensures Refines(c, Join(a, b).value.Desc())
  {
    var da, db := a.Desc(), b.Desc();
    assert Join(a, b).value.Desc() == JoinDescriptor(da, db);
    JoinDescriptorGreatest(da, db, c);
  }

  /** Replace every `from` label of `s` by `to`. */
  function Relabel(s: seq<nat>, from: nat, to: nat): (r: seq<nat>)
    ensures |r| == |s|
    ensures forall j | 0 <= j < |s| :: r[j] == if s[j] == from then to else s[j]
  {
    seq(|s|, j requires 0 <= j < |s| => if s[j] == from then to else s[j])
  }

  /** Positions remembered in a `prev` dictionary of the merge loop. */
  predicate PrevBelow(prev: map<nat, nat>, i: nat)
  {
    forall x | x in prev :: prev[x] < i
  }

  /** The label `meet` starts orientation `i` with: that of the last earlier
      orientation with the same first-input label, else `i` itself. */
  function MeetCur(a: Descriptor, i: nat, ret: seq<nat>, prev1: map<nat, nat>): (cur: nat)
    requires i < 8 && |ret| == i && PrevBelow(prev1, i)
    ensures a[i] in prev1 ==> cur == ret[prev1[a[i]]]
    ensures a[i] !in prev1 ==> cur == i
  {
    if a[i] in prev1 then ret[prev1[a[i]]] else i
  }

  /** The labels after one round of the merge loop of `meet`. */
  function MeetNext(a: Descriptor, b: Descriptor, i: nat, ret: seq<nat>, prev1: map<nat, nat>, prev2: map<nat, nat>): (r: seq<nat>)
    requires i < 8 && |ret| == i && PrevBelow(prev1, i) && PrevBelow(prev2, i)
    ensures |r| == i + 1
  {
    var cur := MeetCur(a, i, ret, prev1);
    if b[i] in prev2 then
      var bi := prev2[b[i]];
      (if cur != i then Relabel(ret, cur, ret[bi]) else ret) + [ret[bi]]
    else
      ret + [cur]
  }

  /** The merge loop of `meet` from orientation `i` on.  `ret` holds one label
      (itself an orientation) per orientation already visited; `prev1` and
      `prev2` map each label of either input to the last orientation that
      carried it.  The inner relabelling loop reads `ret[bi]` while it writes,
      but `ret[bi]` is only written when it already equals the new value, so the
      loop is the single `Relabel` of `MeetNext`. */
  function MeetLoop(a: Descriptor, b: Descriptor, i: nat, ret: seq<nat>, prev1: map<nat, nat>, prev2: map<nat, nat>): (r: seq<nat>)
    requires i <= 8 && |ret| == i && PrevBelow(prev1, i) && PrevBelow(prev2, i)
    ensures |r| == 8
    decreases 8 - i
  {
    if i == 8 then ret
    else MeetLoop(a, b, i + 1, MeetNext(a, b, i, ret, prev1, prev2), prev1[a[i] := i], prev2[b[i] := i])
  }

  /** A `prev` dictionary maps exactly the labels seen so far to an orientation carrying them. */
  ghost predicate PrevInv(d: Descriptor, i: nat, prev: map<nat, nat>)
    requires i <= 8
  {
    && prev.Keys == Labels(d, i)
    && PrevBelow(prev, i)
    && (forall x | x in prev :: d[prev[x]] == x)
  }

  lemma PrevStep(d: Descriptor, i: nat, prev: map<nat, nat>)
    requires i < 8 && PrevInv(d, i, prev)
    ensures PrevInv(d, i + 1, prev[d[i] := i])
    ensures forall j | 0 <= j < i :: d[j] in prev
  {
    LabelsStep(d, i);
    forall j | 0 <= j < i ensures d[j] in prev {
      assert d[j] in Labels(d, i);
    }
  }

  /** Labels equal on `d` are equal on `ret`, for the orientations before `i`. */
  ghost predicate Respects(d: Descriptor, i: nat, ret: seq<nat>)
    requires i <= |ret| && i <= 8
  {
    forall j, k | 0 <= j < i && 0 <= k < i :: d[j] == d[k] ==> ret[j] == ret[k]
  }

  /** What the merge loop keeps true about the orientations before `i`. */
  ghost predicate MeetInv(a: Descriptor, b: Descriptor, i: nat, ret: seq<nat>, prev1: map<nat, nat>, prev2: map<nat, nat>)
  {
    && i <= 8 && |ret| == i
    && PrevInv(a, i, prev1)
    && PrevInv(b, i, prev2)
    && (forall j | 0 <= j < i :: ret[j] < i)
    && Respects(a, i, ret)
    && Respects(b, i, ret)
  }

  /** One round changes earlier labels by a function of the old label only, and
      only the label `cur` changes. */
  lemma MeetNextOld(a: Descriptor, b: Descriptor, i: nat, ret: seq<nat>, prev1: map<nat, nat>, prev2: map<nat, nat>)
    requires MeetInv(a, b, i, ret, prev1, prev2) && i < 8
    ensures forall j | 0 <= j < i ::
      MeetNext(a, b, i, ret, prev1, prev2)[j] ==
        if b[i] in prev2 && ret[j] == MeetCur(a, i, ret, prev1) then ret[prev2[b[i]]] else ret[j]
    ensures MeetNext(a, b, i, ret, prev1, prev2)[i] ==
        if b[i] in prev2 then ret[prev2[b[i]]] else MeetCur(a, i, ret, prev1)
  {
  }

  /** The new orientation joins every earlier orientation sharing either input label. */
  lemma MeetNextJoins(a: Descriptor, b: Descriptor, i: nat, ret: seq<nat>, prev1: map<nat, nat>, prev2: map<nat, nat>, j: nat)
    requires MeetInv(a, b, i, ret, prev1, prev2) && i < 8 && j < i
    requires a[j] == a[i] || b[j] == b[i]
    ensures MeetNext(a, b, i, ret, prev1, prev2)[j] == MeetNext(a, b, i, ret, prev1, prev2)[i]
  {
    MeetNextOld(a, b, i, ret, prev1, prev2);
    PrevStep(a, i, prev1);
    PrevStep(b, i, prev2);
    var cur := MeetCur(a, i, ret, prev1);
    if a[j] == a[i] {
      assert a[prev1[a[i]]] == a[j];
      assert ret[j] == cur;
    }
    if b[j] == b[i] {
      assert b[prev2[b[i]]] == b[j];
    }
  }

  /** `Respects` survives one round, for either input. */
  lemma RespectsStep(a: Descriptor, b: Descriptor, d: Descriptor, i: nat, ret: seq<nat>, prev1: map<nat, nat>, prev2: map<nat, nat>)
    requires MeetInv(a, b, i, ret, prev1, prev2) && i < 8
    requires d == a || d == b
    ensures Respects(d, i + 1, MeetNext(a, b, i, ret, prev1, prev2))
  {
    var r := MeetNext(a, b, i, ret, prev1, prev2);
    MeetNextOld(a, b, i, ret, prev1, prev2);
    forall j, k | 0 <= j < i + 1 && 0 <= k < i + 1 && d[j] == d[k] ensures r[j] == r[k] {
      if j < i && k < i {
        assert ret[j] == ret[k];
      } else if j < i {
        MeetNextJoins(a, b, i, ret, prev1, prev2, j);
      } else if k < i {
        MeetNextJoins(a, b, i, ret, prev1, prev2, k);
      }
    }
  }

  lemma MeetInvStep(a: Descriptor, b: Descriptor, i: nat, ret: seq<nat>, prev1: map<nat, nat>, prev2: map<nat, nat>)
    requires MeetInv(a, b, i, ret, prev1, prev2) && i < 8
    ensures MeetInv(a, b, i + 1, MeetNext(a, b, i, ret, prev1, prev2), prev1[a[i] := i], prev2[b[i] := i])
  {
    PrevStep(a, i, prev1);
    PrevStep(b, i, prev2);
    MeetNextOld(a, b, i, ret, prev1, prev2);
    RespectsStep(a, b, a, i, ret, prev1, prev2);
    RespectsStep(a, b, b, i, ret, prev1, prev2);
  }

  /** The merge loop coarsens both inputs. */
  lemma {:induction false} MeetLoopCoarsens(a: Descriptor, b: Descriptor, i: nat, ret: seq<nat>, prev1: map<nat, nat>, prev2: map<nat, nat>)
    requires MeetInv(a, b, i, ret, prev1, prev2)
    ensures Refines(a, MeetLoop(a, b, i, ret, prev1, prev2))
    ensures Refines(b, MeetLoop(a, b, i, ret, prev1, prev2))
    decreases 8 - i
  {
    if i < 8 {
      MeetInvStep(a, b, i, ret, prev1, prev2);
      MeetLoopCoarsens(a, b, i + 1, MeetNext(a, b, i, ret, prev1, prev2), prev1[a[i] := i], prev2[b[i] := i]);
    }
  }

  /** Every label names an orientation of the same class of any common
      coarsening `c`, and one round keeps it so. */
  lemma MeetNextFinest(a: Descriptor, b: Descriptor, c: seq<nat>, i: nat, ret: seq<nat>, prev1: map<nat, nat>, prev2: map<nat, nat>)
    requires MeetInv(a, b, i, ret, prev1, prev2) && i < 8
    requires Refines(a, c) && Refines(b, c)
    requires forall j | 0 <= j < i :: c[ret[j]] == c[j]
    ensures forall j | 0 <= j < i + 1 :: MeetNext(a, b, i, ret, prev1, prev2)[j] < 8
    ensures forall j | 0 <= j < i + 1 :: c[MeetNext(a, b, i, ret, prev1, prev2)[j]] == c[j]
  {
    var r := MeetNext(a, b, i, ret, prev1, prev2);
    MeetNextOld(a, b, i, ret, prev1, prev2);
    var cur := MeetCur(a, i, ret, prev1);
    assert c[cur] == c[i] by {
      if a[i] in prev1 {
        var p := prev1[a[i]];
        assert a[p] == a[i] && c[ret[p]] == c[p];
      }
    }
    if b[i] in prev2 {
      var bi := prev2[b[i]];
      assert b[bi] == b[i] && c[ret[bi]] == c[bi];
    }
    forall j | 0 <= j < i + 1 ensures r[j] < 8 && c[r[j]] == c[j] {
      if j < i {
        assert c[ret[j]] == c[j];
      }
    }
  }

  /** The merge loop merges no more than any common coarsening `c` does. */
  lemma {:induction false} MeetLoopFinest(a: Descriptor, b: Descriptor, c: seq<nat>, i: nat, ret: seq<nat>, prev1: map<nat, nat>, prev2: map<nat, nat>)
    requires MeetInv(a, b, i, ret, prev1, prev2)
    requires Refines(a, c) && Refines(b, c)
    requires forall j | 0 <= j < i :: c[ret[j]] == c[j]
    ensures Refines(MeetLoop(a, b, i, ret, prev1, prev2), c)
    decreases 8 - i
  {
    if i < 8 {
      MeetInvStep(a, b, i, ret, prev1, prev2);
      MeetNextFinest(a, b, c, i, ret, prev1, prev2);
      MeetLoopFinest(a, b, c, i + 1, MeetNext(a, b, i, ret, prev1, prev2), prev1[a[i] := i], prev2[b[i] := i]);
    } else {
      forall j, k | 0 <= j < 8 && 0 <= k < 8 && ret[j] == ret[k] ensures c[j] == c[k] {
        assert c[j] == c[ret[j]];
      }
    }
  }

  /** The descriptor computed by `meet` before the registry lookup: the finest
      common coarsening of the two inputs. */
  function MeetDescriptor(a: Descriptor, b: Descriptor): (m: Descriptor)
    ensures Refines(a, m) && Refines(b, m)
    ensures forall c: seq<nat> | Refines(a, c) && Refines(b, c) :: Refines(m, c)
    ensures IsCanonical(m)
  {
    assert Labels(a, 0) == {} && Labels(b, 0) == {};
    assert MeetInv(a, b, 0, [], map[], map[]);
    var r := MeetLoop(a, b, 0, [], map[], map[]);
    MeetLoopCoarsens(a, b, 0, [], map[], map[]);
    forall c: seq<nat> | Refines(a, c) && Refines(b, c)
      ensures Refines(r, c)
    {
      MeetLoopFinest(a, b, c, 0, [], map[], map[]);
    }
    CanonicalizeSameClasses(r);
    CanonicalizeIdempotent(r);
    Canonicalize(r)
  }

  /** `meet`: the finest common coarsening of two classes, looked up in the registry. */
  function Meet(a: SymmetryClass, b: SymmetryClass): (r: Result<SymmetryClass>)
    ensures r.Ok? ==> Refines(a.Desc(), r.value.Desc()) && Refines(b.Desc(), r.value.Desc())
    ensures r.Ok? ==> forall c: seq<nat> | Refines(a.Desc(), c) && Refines(b.Desc(), c) :: Refines(r.value.Desc(), c)
    ensures r.Err? <==> MeetDescriptor(a.Desc(), b.Desc()) !in TypePool
  {
    PoolLookup(MeetDescriptor(a.Desc(), b.Desc()))
  }

  /** `break_x_symmetry`: join with the Y-symmetrical class, whose classes pair
      each orientation with the one differing in the T bit. */
  function BreakXSymmetry(c: SymmetryClass): (r: Result<SymmetryClass>)
    ensures r.Ok? ==> forall i, k | 0 <= i < 8 && 0 <= k < 8 ::
      r.value.Desc()[i] == r.value.Desc()[k] <==> c.Desc()[i] == c.Desc()[k] && i % 4 == k % 4
    ensures r.Err? ==> r.error == KeyError
  {
    var r := Join(c, SymmetricalY);
    if r.Ok? then
      RefineByY(c.Desc(), SymmetricalY.Desc(), r.value.Desc());
      r
    else
      r
  }

  /** `break_y_symmetry`: join with the X-symmetrical class, whose classes pair
      each orientation with the one differing in the R bit. */
  function BreakYSymmetry(c: SymmetryClass): (r: Result<SymmetryClass>)
    ensures r.Ok? ==> forall i, k | 0 <= i < 8 && 0 <= k < 8 ::
      r.value.Desc()[i] == r.value.Desc()[k] <==> c.Desc()[i] == c.Desc()[k] && i / 4 == k / 4 && i % 2 == k % 2
    ensures r.Err? ==> r.error == KeyError
  {
    var r := Join(c, SymmetricalX);
    if r.Ok? then
      RefineByX(c.Desc(), SymmetricalX.Desc(), r.value.Desc());
      r
    else
      r
  }

  /** `add_x_symmetry`: meet with the X-symmetrical class.  The result merges
      every orientation with its R-flipped twin, and merges nothing it need not. */
  function AddXSymmetry(c: SymmetryClass): (r: Result<SymmetryClass>)
    ensures r.Ok? ==> Refines(c.Desc(), r.value.Desc())
    ensures r.Ok? ==> forall i: Orientation :: r.value.Desc()[i] == r.value.Desc()[Xor(i, R)]
    ensures r.Ok? ==> forall e: seq<nat> | Refines(c.Desc(), e) && Refines(SymmetricalX.Desc(), e) :: Refines(r.value.Desc(), e)
    ensures r.Err? ==> r.error == KeyError
  {
    SymmetricalXClasses();
    Meet(c, SymmetricalX)
  }

  /** `add_y_symmetry`: meet with the Y-symmetrical class.  The result merges
      every orientation with its T-flipped twin, and merges nothing it need not. */
  function AddYSymmetry(c: SymmetryClass): (r: Result<SymmetryClass>)
    ensures r.Ok? ==> Refines(c.Desc(), r.value.Desc())
    ensures r.Ok? ==> forall i: Orientation :: r.value.Desc()[i] == r.value.Desc()[Xor(i, T)]
    ensures r.Ok? ==> forall e: seq<nat> | Refines(c.Desc(), e) && Refines(SymmetricalY.Desc(), e) :: Refines(r.value.Desc(), e)
    ensures r.Err? ==> r.error == KeyError
  {
    SymmetricalYClasses();
    Meet(c, SymmetricalY)
  }

  /** The classes of the X-symmetrical descriptor: same half, same parity,
      that is, equal up to the R bit. */
  lemma SymmetricalXClasses()
    ensures forall i, k | 0 <= i < 8 && 0 <= k < 8 ::
      SymmetricalX.Desc()[i] == SymmetricalX.Desc()[k] <==> i / 4 == k / 4 && i % 2 == k % 2
    ensures forall i: Orientation :: SymmetricalX.Desc()[i] == SymmetricalX.Desc()[Xor(i, R)]
  {
  }

  /** The classes of the Y-symmetrical descriptor: equal up to the T bit. */
  lemma SymmetricalYClasses()
    ensures forall i, k | 0 <= i < 8 && 0 <= k < 8 ::
      SymmetricalY.Desc()[i] == SymmetricalY.Desc()[k] <==> i % 4 == k % 4
    ensures forall i: Orientation :: SymmetricalY.Desc()[i] == SymmetricalY.Desc()[Xor(i, T)]
  {
  }

  lemma RefineByX(a: Descriptor, x: Descriptor, j: Descriptor)
    requires x == SymmetricalX.Desc()
    requires forall i, k | 0 <= i < 8 && 0 <= k < 8 :: j[i] == j[k] <==> a[i] == a[k] && x[i] == x[k]
    ensures forall i, k | 0 <= i < 8 && 0 <= k < 8 :: j[i] == j[k] <==> a[i] == a[k] && i / 4 == k / 4 && i % 2 == k % 2
  {
    SymmetricalXClasses();
  }

  lemma RefineByY(a: Descriptor, y: Descriptor, j: Descriptor)
    requires y == SymmetricalY.Desc()
    requires forall i, k | 0 <= i < 8 && 0 <= k < 8 :: j[i] == j[k] <==> a[i] == a[k] && y[i] == y[k]
    ensures forall i, k | 0 <= i < 8 && 0 <= k < 8 :: j[i] == j[k] <==> a[i] == a[k] && i % 4 == k % 4
  {
    SymmetricalYClasses();
  }

  /** Two canonical descriptors with the same classes are equal. */
  lemma CanonicalUnique(x: seq<nat>, y: seq<nat>)
    requires IsCanonical(x) && IsCanonical(y) && SameClasses(x, y)
    ensures x == y
  {
    CanonicalizeOnlyPartition(x, y);
  }

  /** Joining with a coarser descriptor changes nothing, on either side. */
  lemma JoinDescriptorAbsorbs(a: Descriptor, b: Descriptor)
    requires IsCanonical(a) && Refines(a, b)
    ensures JoinDescriptor(a, b) == a && JoinDescriptor(b, a) == a
  {
    CanonicalUnique(JoinDescriptor(a, b), a);
    CanonicalUnique(JoinDescriptor(b, a), a);
  }

  /** Meeting with a finer descriptor changes nothing, on either side. */
  lemma MeetDescriptorAbsorbs(a: Descriptor, b: Descriptor)
    requires IsCanonical(b) && Refines(a, b)
    ensures MeetDescriptor(a, b) == b && MeetDescriptor(b, a) == b
  {
    assert Refines(b, b);
    CanonicalUnique(MeetDescriptor(a, b), b);
    CanonicalUnique(MeetDescriptor(b, a), b);
  }

  /** Joining with a coarser class is the identity, on either side. */
  lemma JoinAbsorbs(a: SymmetryClass, b: SymmetryClass)
    requires Refines(a.Desc(), b.Desc()) && a.Desc() in TypePool
    ensures Join(a, b) == Ok(a) && Join(b, a) == Ok(a)
  {
    BuiltinsCanonical(a);
    PoolRegistersSevenClasses(a);
    JoinDescriptorAbsorbs(a.Desc(), b.Desc());
  }

  /** Meeting with a finer class is the identity, on either side. */
  lemma MeetAbsorbs(a: SymmetryClass, b: SymmetryClass)
    requires Refines(a.Desc(), b.Desc()) && b.Desc() in TypePool
    ensures Meet(a, b) == Ok(b) && Meet(b, a) == Ok(b)
  {
    BuiltinsCanonical(b);
    PoolRegistersSevenClasses(b);
    MeetDescriptorAbsorbs(a.Desc(), b.Desc());
  }

  /** Breaking X symmetry of any class that has Y symmetry leaves exactly
      the Y-symmetrical class. */
  lemma BreakXOfCoarser(c: SymmetryClass)
    requires Refines(SymmetricalY.Desc(), c.Desc())
    ensures BreakXSymmetry(c) == Ok(SymmetricalY)
  {
    JoinAbsorbs(SymmetricalY, c);
  }

  /** Breaking Y symmetry of any class that has X symmetry leaves exactly
      the X-symmetrical class. */
  lemma BreakYOfCoarser(c: SymmetryClass)
    requires Refines(SymmetricalX.Desc(), c.Desc())
    ensures BreakYSymmetry(c) == Ok(SymmetricalX)
  {
    JoinAbsorbs(SymmetricalX, c);
  }

  /** Adding X symmetry to any class finer than the X-symmetrical one yields
      exactly the X-symmetrical class. */
  lemma AddXOfFiner(c: SymmetryClass)
    requires Refines(c.Desc(), SymmetricalX.Desc())
    ensures AddXSymmetry(c) == Ok(SymmetricalX)
  {
    MeetAbsorbs(c, SymmetricalX);
  }

  /** Adding Y symmetry to any class finer than the Y-symmetrical one yields
      exactly the Y-symmetrical class. */
  lemma AddYOfFiner(c: SymmetryClass)
    requires Refines(c.Desc(), SymmetricalY.Desc())
    ensures AddYSymmetry(c) == Ok(SymmetricalY)
  {
    MeetAbsorbs(c, SymmetricalY);
  }

  /** The refinements among built-in classes that the lemmas above apply to. */
  lemma BuiltinRefinements(d: Descriptor)
    ensures Refines(SymmetricalX.Desc(), Symmetrical.Desc())
    ensures Refines(SymmetricalY.Desc(), Symmetrical.Desc())
    ensures Refines(Full.Desc(), d) && Refines(d, Cylindrical.Desc())
  {
  }

  // ---------------------------------------------------------------------------
  // Derived queries

  /** `is_symmetrical_y`: the first four entries repeat as the last four. */
  predicate IsSymmetricalY(d: Descriptor)
  {
    d[..4] == d[4..]
  }

  /** A descriptor is Y-symmetrical exactly when every orientation looks like
      its T-flipped twin, that is, when it coarsens the Y-symmetrical class. */
  lemma IsSymmetricalYIff(d: Descriptor)
    ensures IsSymmetricalY(d) <==> forall i | 0 <= i < 4 :: d[i] == d[i + 4]
    ensures IsSymmetricalY(d) <==> Refines(SymmetricalY.Desc(), d)
  {
    SymmetricalYClasses();
    if forall i | 0 <= i < 4 :: d[i] == d[i + 4] {
      assert d[..4] == d[4..];
    }
    if IsSymmetricalY(d) {
      assert forall i | 0 <= i < 4 :: d[..4][i] == d[4..][i];
    }
  }

  /** Adding Y symmetry to a registered class that already has it changes nothing. */
  lemma AddYSymmetryKeeps(c: SymmetryClass)
    requires IsSymmetricalY(c.Desc()) && c.Desc() in TypePool
    ensures AddYSymmetry(c) == Ok(c)
  {
    IsSymmetricalYIff(c.Desc());
    MeetAbsorbs(SymmetricalY, c);
  }

  /** The orientations that keep handedness: identity and the three rotations. */
  predicate Proper(o: Orientation)
  {
    o == 0 || o == 3 || o == 5 || o == 6
  }

  predicate ProperBits(x: bv3)
  {
    x == 0 || x == 3 || x == 5 || x == 6
  }

  lemma ProperBitsCompose(x: bv3, y: bv3)
    ensures ProperBits(ComposeBits(x, y)) <==> (ProperBits(x) <==> ProperBits(y))
  {
  }

  lemma ProperAsBits(a: Orientation)
    ensures Proper(a) <==> ProperBits(a as bv3)
  {
  }

  /** Composing adds handedness like parity. */
  lemma ComposeProper(a: Orientation, b: Orientation)
    ensures Proper(Compose(a, b)) <==> (Proper(a) <==> Proper(b))
  {
    ComposeAsBits(a, b);
    ProperAsBits(a);
    ProperAsBits(b);
    ProperAsBits(Compose(a, b));
    ProperBitsCompose(a as bv3, b as bv3);
  }

  /** `chirality_indices`. */
  function ChiralityIndices(d: Descriptor): (r: seq<Orientation>)
    ensures r == [0] || r == [0, 2]
  {
    if {d[0], d[3], d[5], d[6]} == {d[1], d[2], d[4], d[7]} then [0] else [0, 2]
  }

  /** For a consistent descriptor there is one chirality exactly when the
      identity looks like some mirrored orientation; otherwise the two listed
      chiralities look different. */
  lemma ChiralityIff(d: Descriptor)
    requires Consistent(d)
    ensures ChiralityIndices(d) == [0] <==> exists x: Orientation :: !Proper(x) && d[x] == d[0]
    ensures ChiralityIndices(d) == [0, 2] ==> d[0] != d[2]
  {
    FourSets(d[0], d[3], d[5], d[6], d[1], d[2], d[4], d[7]);
    if x: Orientation :| !Proper(x) && d[x] == d[0] {
      var w0 := MirrorTwin(d, x, 0);
      var w1 := MirrorTwin(d, x, 1);
      var w2 := MirrorTwin(d, x, 2);
      var w3 := MirrorTwin(d, x, 3);
      var w4 := MirrorTwin(d, x, 4);
      var w5 := MirrorTwin(d, x, 5);
      var w6 := MirrorTwin(d, x, 6);
      var w7 := MirrorTwin(d, x, 7);
    } else {
      assert !Proper(1) && !Proper(2) && !Proper(4) && !Proper(7);
    }
  }

  /** Two four-element set displays are equal when each element of one occurs in the other. */
  lemma FourSets(a0: nat, a1: nat, a2: nat, a3: nat, b0: nat, b1: nat, b2: nat, b3: nat)
    ensures {a0, a1, a2, a3} == {b0, b1, b2, b3} <==>
      && (a0 == b0 || a0 == b1 || a0 == b2 || a0 == b3)
      && (a1 == b0 || a1 == b1 || a1 == b2 || a1 == b3)
      && (a2 == b0 || a2 == b1 || a2 == b2 || a2 == b3)
      && (a3 == b0 || a3 == b1 || a3 == b2 || a3 == b3)
      && (b0 == a0 || b0 == a1 || b0 == a2 || b0 == a3)
      && (b1 == a0 || b1 == a1 || b1 == a2 || b1 == a3)
      && (b2 == a0 || b2 == a1 || b2 == a2 || b2 == a3)
      && (b3 == a0 || b3 == a1 || b3 == a2 || b3 == a3)
  {
    var s, t := {a0, a1, a2, a3}, {b0, b1, b2, b3};
    if s != t {
      var v :| v in s - t || v in t - s;
    }
  }

  /** When the identity looks like the mirrored orientation `x`, every
      orientation looks like its composition with `x`, which has the other
      handedness. */
  lemma MirrorTwin(d: Descriptor, x: Orientation, z: Orientation) returns (w: Orientation)
    requires Consistent(d) && !Proper(x) && d[x] == d[0]
    ensures d[z] == d[w] && (Proper(w) <==> !Proper(z))
  {
    ComposeIdentity(z);
    ComposeProper(x, z);
    w := Compose(x, z);
  }

  /** `rotational_view_indices`. */
  function RotationalViewIndices(d: Descriptor): (r: seq<Orientation>)
    ensures r == [0] || r == [0, 3] || r == [0, 3, 6, 5]
  {
    if d[0] != d[3] then
      if |{d[0], d[3], d[5], d[6]}| == 4 then [0, 3, 6, 5] else [0, 3]
    else
      [0]
  }

  /** `r` lists rotations whose appearances under `d` are pairwise different
      and, together, cover the appearance of every rotation. */
  ghost predicate RotationalViewsOf(d: Descriptor, r: seq<Orientation>)
  {
    && (forall j | 0 <= j < |r| :: Proper(r[j]))
    && (forall j, k | 0 <= j < k < |r| :: d[r[j]] != d[r[k]])
    && (forall e: Orientation | Proper(e) :: exists j | 0 <= j < |r| :: d[r[j]] == d[e])
  }

  /** Which rotations can look alike under a consistent descriptor: either all
      four do, or at most the half-turn pairs 0, 6 and 3, 5 do. */
  lemma RotationPairs(d: Descriptor)
    requires Consistent(d)
    ensures d[0] == d[3] ==> d[3] == d[6] && d[6] == d[5]
    ensures d[0] != d[3] ==> d[0] != d[5] && d[3] != d[6] && d[5] != d[6]
    ensures d[0] == d[6] <==> d[3] == d[5]
  {
    assert Compose(0, 3) == 3 && Compose(3, 3) == 6 && Compose(0, 6) == 6 && Compose(3, 6) == 5;
    assert Compose(5, 3) == 0 && Compose(6, 3) == 5 && Compose(3, 5) == 0 && Compose(6, 5) == 3;
  }

  /** For a consistent descriptor the rotational views are complete and
      irredundant: they show every appearance of the four rotations, each once. */
  lemma RotationalViewsComplete(d: Descriptor)
    requires Consistent(d)
    ensures RotationalViewsOf(d, RotationalViewIndices(d))
  {
    var r := RotationalViewIndices(d);
    RotationPairs(d);
    if d[0] == d[3] {
      assert r == [0];
      forall e: Orientation | Proper(e) ensures exists j | 0 <= j < |r| :: d[r[j]] == d[e] {
        assert d[r[0]] == d[e];
      }
    } else if d[0] != d[6] {
      assert |{d[0], d[3], d[5], d[6]}| == 4;
      assert r == [0, 3, 6, 5];
      forall e: Orientation | Proper(e) ensures exists j | 0 <= j < |r| :: d[r[j]] == d[e] {
        if e == 0 { assert d[r[0]] == d[e]; }
        else if e == 3 { assert d[r[1]] == d[e]; }
        else if e == 6 { assert d[r[2]] == d[e]; }
        else { assert d[r[3]] == d[e]; }
      }
    } else {
      assert {d[0], d[3], d[5], d[6]} == {d[0], d[3]};
      assert r == [0, 3];
      forall e: Orientation | Proper(e) ensures exists j | 0 <= j < |r| :: d[r[j]] == d[e] {
        if e == 0 || e == 6 { assert d[r[0]] == d[e]; }
        else { assert d[r[1]] == d[e]; }
      }
    }
  }

  // ---------------------------------------------------------------------------
  // The looks seen from another orientation

  /** The looks seen from orientation `x`: position `i` holds the look of `x`
      composed with `i`, which is what the views of the variant drawn in
      orientation `x` show. */
  function Shift(d: Descriptor, x: Orientation): (s: Descriptor)
    ensures forall i: Orientation :: s[i] == d[Compose(x, i)]
  {
    seq(8, i requires 0 <= i < 8 => d[Compose(x, i)])
  }

  /** `c` conjugated by `x`. */
  function Conj(x: Orientation, c: Orientation): Orientation
  {
    Compose(Compose(x, c), Inverse(x))
  }

  /** Conjugation keeps handedness. */
  lemma ConjProper(x: Orientation, c: Orientation)
    ensures Proper(Conj(x, c)) <==> Proper(c)
  {
    ComposeProper(x, c);
    ComposeProper(Compose(x, c), Inverse(x));
    assert Proper(Inverse(x)) <==> Proper(x);
  }

  /** The rotations commute with every orientation up to swapping the two
      quarter turns. */
  lemma RotationsNormalBits(x: bv3)
    ensures ComposeBits(x, 3) == ComposeBits(3, x) || ComposeBits(x, 3) == ComposeBits(5, x)
    ensures ComposeBits(x, 6) == ComposeBits(6, x)
  {
  }

  /** Conjugation maps the quarter turn 3 to a quarter turn and fixes the half
      turn 6. */
  lemma ConjRotations(x: Orientation)
    ensures Conj(x, 3) in {3, 5} && Conj(x, 6) == 6
  {
    ComposeAsBits(x, 3);
    ComposeAsBits(3, x);
    ComposeAsBits(5, x);
    ComposeAsBits(x, 6);
    ComposeAsBits(6, x);
    RotationsNormalBits(x as bv3);
    var q: Orientation := if Compose(x, 3) == Compose(3, x) then 3 else 5;
    assert Compose(x, 3) == Compose(q, x);
    ComposeAssociative(q, x, Inverse(x));
    ComposeAssociative(6, x, Inverse(x));
    ComposeIdentity(q);
    ComposeIdentity(6);
  }

  /** Seen from `x`, orientation `c` looks like the identity exactly when its
      conjugate by `x` does in `d`. */
  lemma ShiftedStabilizer(d: Descriptor, x: Orientation, c: Orientation)
    requires Consistent(d)
    ensures d[Compose(x, c)] == d[x] <==> d[Conj(x, c)] == d[0]
  {
    var xi := Inverse(x);
    var xc := Compose(x, c);
    ComposeIdentity(x);
    ComposeIdentity(xi);
    ComposeAssociative(xc, xi, x);
    ComposeAssociative(x, xi, x);
    assert Compose(Compose(xc, xi), x) == xc by {
      ComposeAssociative(x, c, Compose(xi, x));
    }
    if d[xc] == d[x] {
      assert d[Compose(xc, xi)] == d[Compose(x, xi)];
    }
    if d[Conj(x, c)] == d[0] {
      assert d[Compose(Conj(x, c), x)] == d[Compose(0, x)];
    }
  }

  /** The looks seen from any orientation are again consistent. */
  lemma ShiftConsistent(d: Descriptor, x: Orientation)
    requires Consistent(d)
    ensures Consistent(Shift(d, x))
  {
    var s := Shift(d, x);
    forall a: Orientation, b: Orientation, z: Orientation | s[a] == s[b]
      ensures s[Compose(a, z)] == s[Compose(b, z)]
    {
      ComposeAssociative(x, a, z);
      ComposeAssociative(x, b, z);
      assert d[Compose(Compose(x, a), z)] == d[Compose(Compose(x, b), z)];
    }
  }

  /** Seen from any orientation, a consistent descriptor pairs the rotations
      alike exactly as it does from the identity. */
  lemma ShiftRotationPattern(d: Descriptor, x: Orientation)
    requires Consistent(d)
    ensures Shift(d, x)[0] == Shift(d, x)[3] <==> d[0] == d[3]
    ensures Shift(d, x)[0] == Shift(d, x)[6] <==> d[0] == d[6]
  {
    ComposeIdentity(x);
    RotationPairs(d);
    ConjRotations(x);
    ShiftedStabilizer(d, x, 3);
    ShiftedStabilizer(d, x, 6);
  }

  /** Seen from any orientation, a consistent descriptor has the same
      rotational view indices. */
  lemma ShiftKeepsRotations(d: Descriptor, x: Orientation)
    requires Consistent(d)
    ensures RotationalViewIndices(Shift(d, x)) == RotationalViewIndices(d)
  {
    var s := Shift(d, x);
    ShiftConsistent(d, x);
    ShiftRotationPattern(d, x);
    RotationPairs(d);
    RotationPairs(s);
    if d[0] != d[3] {
      assert |{d[0], d[3], d[5], d[6]}| == 4 <==> d[0] != d[6];
      assert |{s[0], s[3], s[5], s[6]}| == 4 <==> s[0] != s[6];
    }
  }

  /** Seen from any orientation, the identity looks like a mirrored orientation
      exactly when it does from the identity. */
  lemma ShiftMirrorTwin(d: Descriptor, x: Orientation)
    requires Consistent(d)
    ensures (exists y: Orientation :: !Proper(y) && Shift(d, x)[y] == Shift(d, x)[0]) <==>
            (exists m: Orientation :: !Proper(m) && d[m] == d[0])
  {
    var s := Shift(d, x);
    ComposeIdentity(x);
    if y: Orientation :| !Proper(y) && s[y] == s[0] {
      ShiftedStabilizer(d, x, y);
      ConjProper(x, y);
      assert !Proper(Conj(x, y)) && d[Conj(x, y)] == d[0];
    }
    if m: Orientation :| !Proper(m) && d[m] == d[0] {
      var y := Compose(Compose(Inverse(x), m), x);
      ConjugateBack(x, m);
      ShiftedStabilizer(d, x, y);
      ConjProper(x, y);
      assert !Proper(y) && s[y] == s[0];
    }
  }

  /** Seen from any orientation, a consistent descriptor has the same
      chirality indices. */
  lemma ShiftKeepsChirality(d: Descriptor, x: Orientation)
    requires Consistent(d)
    ensures ChiralityIndices(Shift(d, x)) == ChiralityIndices(d)
  {
    ShiftConsistent(d, x);
    ChiralityIff(d);
    ChiralityIff(Shift(d, x));
    ShiftMirrorTwin(d, x);
  }

  /** Seen from any orientation, the rotational view indices of a consistent
      descriptor still show every rotation's look exactly once. */
  lemma ShiftRotationalViews(d: Descriptor, x: Orientation)
    requires Consistent(d)
    ensures RotationalViewsOf(Shift(d, x), RotationalViewIndices(d))
  {
    ShiftConsistent(d, x);
    ShiftKeepsRotations(d, x);
    RotationalViewsComplete(Shift(d, x));
  }

  /** Seen from any orientation, the chirality indices of a consistent
      descriptor are `[0]` exactly when some mirrored orientation looks like the
      identity, and otherwise name two different looks. */
  lemma ShiftChiralities(d: Descriptor, x: Orientation)
    requires Consistent(d)
    ensures ChiralityIndices(d) == [0] <==> exists y: Orientation :: !Proper(y) && Shift(d, x)[y] == Shift(d, x)[0]
    ensures ChiralityIndices(d) == [0, 2] ==> Shift(d, x)[0] != Shift(d, x)[2]
  {
    ShiftConsistent(d, x);
    ShiftKeepsChirality(d, x);
    ChiralityIff(Shift(d, x));
  }

  /** Conjugating by `x` undoes conjugating by the inverse of `x`. */
  lemma ConjugateBack(x: Orientation, m: Orientation)
    ensures Conj(x, Compose(Compose(Inverse(x), m), x)) == m
  {
    var xi := Inverse(x);
    var y := Compose(Compose(xi, m), x);
    ComposeAssociative(x, Compose(xi, m), x);
    ComposeAssociative(x, xi, m);
    ComposeIdentity(m);
    assert Compose(x, y) == Compose(m, x);
    ComposeAssociative(m, x, xi);
  }
}
