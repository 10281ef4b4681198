/** The variant objects of agrf/lib/building/symmetry.py: `create_variants` wires
    every authored object to the objects that are its M, R and T views, and
    `symmetry_item` follows those links.  Object identity (`is`) is an index into
    the list of variants. */
module Variants {
  import opened Wrappers
  import opened Symmetry

  /** One authored object after `create_variants`: its payload and the indices
      of the variants that are its M, R and T views. */
  datatype Variant<T> = Variant(payload: T, m: nat, r: nat, t: nat)

  /** The labels `create_variants` links orientation `idx` to, as (M, R, T).  A
      mirrored (odd) orientation swaps its R and T partners. */
  function LinkLabels(d: Descriptor, idx: Orientation): (l: (nat, nat, nat))
    ensures l.0 == d[Compose(idx, M)] && l.1 == d[Compose(idx, R)] && l.2 == d[Compose(idx, T)]
  {
    if idx % 2 == 0 then (d[Xor(idx, 1)], d[Xor(idx, 2)], d[Xor(idx, 4)])
    else (d[Xor(idx, 1)], d[Xor(idx, 4)], d[Xor(idx, 2)])
  }

  /** Every link of every variant names a variant. */
  predicate WellLinked<T>(vs: seq<Variant<T>>)
  {
    forall k | 0 <= k < |vs| :: vs[k].m < |vs| && vs[k].r < |vs| && vs[k].t < |vs|
  }

  /** Variant `k` is linked as `create_variants` links the `k`-th render index of `d`. */
  ghost predicate Wired<T>(d: Descriptor, vs: seq<Variant<T>>)
  {
    && |vs| == |RenderIndices(d)|
    && forall k | 0 <= k < |vs| :: (vs[k].m, vs[k].r, vs[k].t) == LinkLabels(d, RenderIndices(d)[k])
  }

  predicate InRange(l: (nat, nat, nat), n: nat)
  {
    l.0 < n && l.1 < n && l.2 < n
  }

  /** `create_variants`: the list of linked variants, of which the first is the
      one returned.  A wrong number of objects fails the assertion; a link label
      past the end of the list is an IndexError. */
  function CreateVariants<T>(d: Descriptor, objects: seq<T>): (r: Result<seq<Variant<T>>>)
    ensures r.Err? && r.error == AssertionError <==> |objects| != |RenderIndices(d)|
    ensures r.Err? && r.error != AssertionError ==> r.error == IndexError
    ensures r.Err? && r.error == IndexError <==>
      |objects| == |RenderIndices(d)| &&
      exists k | 0 <= k < |objects| :: !InRange(LinkLabels(d, RenderIndices(d)[k]), |objects|)
    ensures r.Ok? ==> |r.value| == |objects| && WellLinked(r.value) && Wired(d, r.value)
    ensures r.Ok? ==> forall k | 0 <= k < |objects| :: r.value[k].payload == objects[k]
  {
    var idx := RenderIndices(d);
    if |objects| != |idx| then Err(AssertionError)
    else if exists k | 0 <= k < |objects| :: !InRange(LinkLabels(d, idx[k]), |objects|) then Err(IndexError)
    else
      var vs := Wire(d, objects);
      assert WellLinked(vs) by {
        forall k | 0 <= k < |vs| ensures vs[k].m < |vs| && vs[k].r < |vs| && vs[k].t < |vs| {
          assert InRange(LinkLabels(d, idx[k]), |objects|);
        }
      }
      Ok(vs)
  }

  /** The variants `create_variants` builds, before any link is checked. */
  function Wire<T>(d: Descriptor, objects: seq<T>): (vs: seq<Variant<T>>)
    requires |objects| == |RenderIndices(d)|
    ensures |vs| == |objects| && Wired(d, vs)
    ensures forall k | 0 <= k < |objects| :: vs[k].payload == objects[k]
  {
    var idx := RenderIndices(d);
    seq(|objects|, k requires 0 <= k < |objects| =>
      var l := LinkLabels(d, idx[k]);
      Variant(objects[k], l.0, l.1, l.2))
  }

  /** A canonical descriptor never produces an out-of-range link. */
  lemma CreateVariantsCanonical<T>(d: Descriptor, objects: seq<T>)
    requires IsCanonical(d) && |objects| == |RenderIndices(d)|
    ensures CreateVariants(d, objects).Ok?
  {
    CanonicalRenderLabels(d);
    var idx := RenderIndices(d);
    forall k | 0 <= k < |objects| ensures InRange(LinkLabels(d, idx[k]), |objects|) {
      var l := LinkLabels(d, idx[k]);
      assert l.0 == d[Compose(idx[k], M)] && l.1 == d[Compose(idx[k], R)] && l.2 == d[Compose(idx[k], T)];
    }
  }

  /** `symmetry_item`: the view `i` of variant `o`, reached by following links.
      Every `i` other than 0..6 falls through to T, then R, then M. */
  function SymmetryItem<T>(vs: seq<Variant<T>>, o: nat, i: int): (v: nat)
    requires WellLinked(vs) && o < |vs|
    ensures v < |vs|
    ensures i == 0 ==> v == o
    ensures i == 1 ==> v == vs[o].m
    ensures i == 2 ==> v == vs[o].r
    ensures i == 4 ==> v == vs[o].t
  {
    if i == 0 then o
    else if i == 1 then vs[o].m
    else if i == 2 then vs[o].r
    else if i == 3 then vs[vs[o].r].m
    else if i == 4 then vs[o].t
    else if i == 5 then vs[vs[o].t].m
    else if i == 6 then vs[vs[o].t].r
    else vs[vs[vs[o].t].r].m
  }

  /** The loop of `symmetry_index` from view `i` on. */
  function SymmetryIndexFrom<T>(vs: seq<Variant<T>>, o: nat, other: nat, i: nat): (r: Result<Orientation>)
    requires WellLinked(vs) && o < |vs| && i <= 8
    ensures r.Ok? ==> i <= r.value && SymmetryItem(vs, o, r.value) == other
    ensures r.Ok? ==> forall j | i <= j < r.value :: SymmetryItem(vs, o, j) != other
    ensures r.Err? ==> r.error == KeyError
    ensures r.Err? <==> forall j | i <= j < 8 :: SymmetryItem(vs, o, j) != other
    decreases 8 - i
  {
    if i == 8 then Err(KeyError)
    else if SymmetryItem(vs, o, i) == other then Ok(i)
    else SymmetryIndexFrom(vs, o, other, i + 1)
  }

  /** `symmetry_index`: the first of the eight views of `o` that is `other`, or a
      KeyError when none is. */
  function SymmetryIndex<T>(vs: seq<Variant<T>>, o: nat, other: nat): (r: Result<Orientation>)
    requires WellLinked(vs) && o < |vs|
    ensures r.Ok? ==> SymmetryItem(vs, o, r.value) == other
    ensures r.Ok? ==> forall j | 0 <= j < r.value :: SymmetryItem(vs, o, j) != other
    ensures r.Err? <==> r == Err(KeyError) && forall j | 0 <= j < 8 :: SymmetryItem(vs, o, j) != other
  {
    SymmetryIndexFrom(vs, o, other, 0)
  }

  /** The views of `o` at the given orientations. */
  function Views<T>(vs: seq<Variant<T>>, o: nat, indices: seq<Orientation>): (r: seq<nat>)
    requires WellLinked(vs) && o < |vs|
    ensures |r| == |indices|
    ensures forall j | 0 <= j < |r| :: r[j] == SymmetryItem(vs, o, indices[j])
  {
    seq(|indices|, j requires 0 <= j < |indices| => SymmetryItem(vs, o, indices[j]))
  }

  /** `get_all_variants`: the view of `o` at every render index. */
  function GetAllVariants<T>(d: Descriptor, vs: seq<Variant<T>>, o: nat): (r: seq<nat>)
    requires WellLinked(vs) && o < |vs|
    ensures |r| == |RenderIndices(d)|
  {
    Views(vs, o, RenderIndices(d))
  }

  /** `rotational_views`. */
  function RotationalViews<T>(d: Descriptor, vs: seq<Variant<T>>, o: nat): (r: seq<nat>)
    requires WellLinked(vs) && o < |vs|
    ensures |r| == |RotationalViewIndices(d)|
  {
    Views(vs, o, RotationalViewIndices(d))
  }

  /** `chiralities`. */
  function Chiralities<T>(d: Descriptor, vs: seq<Variant<T>>, o: nat): (r: seq<nat>)
    requires WellLinked(vs) && o < |vs|
    ensures |r| == |ChiralityIndices(d)|
  {
    Views(vs, o, ChiralityIndices(d))
  }

  /** The R (or T) link of every entry of a list. */
  function FollowR<T>(vs: seq<Variant<T>>, xs: seq<nat>): (r: seq<nat>)
    requires WellLinked(vs) && forall j | 0 <= j < |xs| :: xs[j] < |vs|
    ensures |r| == |xs| && forall j | 0 <= j < |xs| :: r[j] == vs[xs[j]].r
  {
    seq(|xs|, j requires 0 <= j < |xs| => vs[xs[j]].r)
  }

  function FollowT<T>(vs: seq<Variant<T>>, xs: seq<nat>): (r: seq<nat>)
    requires WellLinked(vs) && forall j | 0 <= j < |xs| :: xs[j] < |vs|
    ensures |r| == |xs| && forall j | 0 <= j < |xs| :: r[j] == vs[xs[j]].t
  {
    seq(|xs|, j requires 0 <= j < |xs| => vs[xs[j]].t)
  }

  /** Whether `get_all_entries` adds the R views and the T views. */
  predicate EntriesAddR(d: Descriptor) { d[2] != d[0] }
  predicate EntriesAddT(d: Descriptor) { {d[4], d[6]} != {d[0], d[2]} }

  /** `get_all_entries`: `o`, then the R views if R changes the look, then the T
      views of everything so far if T changes the set of looks. */
  function GetAllEntries<T>(d: Descriptor, vs: seq<Variant<T>>, o: nat): (r: seq<nat>)
    requires WellLinked(vs) && o < |vs|
    ensures |r| == (if EntriesAddR(d) then 2 else 1) * (if EntriesAddT(d) then 2 else 1)
    ensures r[0] == o
    ensures forall j | 0 <= j < |r| :: r[j] < |vs|
  {
    var ret := [o];
    var ret := if EntriesAddR(d) then ret + FollowR(vs, ret) else ret;
    if EntriesAddT(d) then ret + FollowT(vs, ret) else ret
  }

  // ---------------------------------------------------------------------------
  // The link structure of a consistent canonical descriptor

  /** What the link proofs use of a list of variants wired from a consistent
      canonical descriptor: variant `k` is labelled by the `k`-th render index,
      and every label names a variant. */
  ghost predicate Coherent<T>(d: Descriptor, vs: seq<Variant<T>>)
  {
    && Consistent(d) && Wired(d, vs) && WellLinked(vs)
    && (forall k | 0 <= k < |vs| :: d[RenderIndices(d)[k]] == k)
    && (forall i | 0 <= i < 8 :: d[i] < |vs|)
  }

  /** `create_variants` on a consistent canonical descriptor and the right number
      of objects succeeds and yields a coherent list. */
  lemma CreatedVariantsCoherent<T>(d: Descriptor, objects: seq<T>)
    requires IsCanonical(d) && Consistent(d) && |objects| == |RenderIndices(d)|
    ensures CreateVariants(d, objects).Ok? && Coherent(d, CreateVariants(d, objects).value)
  {
    CreateVariantsCanonical(d, objects);
    CanonicalRenderLabels(d);
  }

  /** The link `g` (one of M, R, T) of variant `k`. */
  function Follow<T>(vs: seq<Variant<T>>, k: nat, g: Orientation): (v: nat)
    requires WellLinked(vs) && k < |vs| && g in {M, R, T}
    ensures v < |vs|
  {
    if g == M then vs[k].m else if g == R then vs[k].r else vs[k].t
  }

  /** Under a consistent canonical descriptor, following link `g` from the
      variant labelled like orientation `x` reaches the variant labelled like
      `x` composed with `g`. */
  lemma FollowLink<T>(d: Descriptor, vs: seq<Variant<T>>, x: Orientation, g: Orientation)
    requires Coherent(d, vs) && g in {M, R, T}
    ensures d[x] < |vs| && Follow(vs, d[x], g) == d[Compose(x, g)]
  {
    var k := d[x];
    var rk := RenderIndices(d)[k];
    assert d[rk] == d[x];
    assert (vs[k].m, vs[k].r, vs[k].t) == LinkLabels(d, rk);
  }

  /** Two links in a row compose. */
  lemma FollowTwo<T>(d: Descriptor, vs: seq<Variant<T>>, x: Orientation, g: Orientation, h: Orientation)
    requires Coherent(d, vs) && g in {M, R, T} && h in {M, R, T}
    ensures d[x] < |vs| && Follow(vs, Follow(vs, d[x], g), h) == d[Compose(x, Compose(g, h))]
  {
    FollowLink(d, vs, x, g);
    FollowLink(d, vs, Compose(x, g), h);
    ComposeAssociative(x, g, h);
  }

  /** Under a consistent canonical descriptor the view `i` of the variant
      labelled like `x` is the variant labelled like `x` composed with `i`. */
  lemma ItemIsLabel<T>(d: Descriptor, vs: seq<Variant<T>>, x: Orientation, i: Orientation)
    requires Coherent(d, vs)
    ensures d[x] < |vs| && SymmetryItem(vs, d[x], i) == d[Compose(x, i)]
  {
    FollowLink(d, vs, x, M);
    var k := d[x];
    if i == 0 {
      ComposeIdentity(x);
    } else if i == 1 || i == 2 || i == 4 {
      FollowLink(d, vs, x, i);
      assert SymmetryItem(vs, k, i) == Follow(vs, k, i);
      assert SymmetryItem(vs, k, i) == d[Compose(x, i)];
    } else if i == 3 {
      FollowTwo(d, vs, x, R, M);
      assert Compose(R, M) == 3;
      assert SymmetryItem(vs, k, i) == Follow(vs, Follow(vs, k, R), M);
      assert SymmetryItem(vs, k, i) == d[Compose(x, i)];
    } else if i == 5 {
      FollowTwo(d, vs, x, T, M);
      assert Compose(T, M) == 5;
      assert SymmetryItem(vs, k, i) == Follow(vs, Follow(vs, k, T), M);
      assert SymmetryItem(vs, k, i) == d[Compose(x, i)];
    } else if i == 6 {
      FollowTwo(d, vs, x, T, R);
      assert Compose(T, R) == 6;
      assert SymmetryItem(vs, k, i) == Follow(vs, Follow(vs, k, T), R);
      assert SymmetryItem(vs, k, i) == d[Compose(x, i)];
    } else {
      assert i == 7;
      FollowTwo(d, vs, x, T, R);
      assert Compose(T, R) == 6 && Compose(6, M) == 7;
      var k6 := Follow(vs, Follow(vs, k, T), R);
      assert k6 == d[Compose(x, 6)];
      FollowLink(d, vs, Compose(x, 6), M);
      ComposeAssociative(x, 6, M);
      assert SymmetryItem(vs, k, i) == Follow(vs, k6, M);
      assert SymmetryItem(vs, k, i) == d[Compose(x, i)];
    }
  }

  /** `symmetry_item` is a right action of the orientation group on the variants. */
  lemma ItemAction<T>(d: Descriptor, vs: seq<Variant<T>>, k: nat, i: Orientation, j: Orientation)
    requires Coherent(d, vs) && k < |vs|
    ensures SymmetryItem(vs, SymmetryItem(vs, k, i), j) == SymmetryItem(vs, k, Compose(i, j))
  {
    var x := RenderIndices(d)[k];
    assert d[x] == k;
    ItemIsLabel(d, vs, x, i);
    var y := Compose(x, i);
    ItemIsLabel(d, vs, y, j);
    ItemIsLabel(d, vs, x, Compose(i, j));
    ComposeAssociative(x, i, j);
  }

  /** M, R and T are involutions on the variants. */
  lemma LinksAreInvolutions<T>(d: Descriptor, vs: seq<Variant<T>>, k: nat)
    requires Coherent(d, vs) && k < |vs|
    ensures vs[vs[k].m].m == k && vs[vs[k].r].r == k && vs[vs[k].t].t == k
  {
    ComposeFacts();
    ItemAction(d, vs, k, M, M);
    ItemAction(d, vs, k, R, R);
    ItemAction(d, vs, k, T, T);
  }

  /** Seen from the first variant, view `i` is the variant numbered by label `d[i]`. */
  lemma RepresentativeViews<T>(d: Descriptor, vs: seq<Variant<T>>, i: Orientation)
    requires Coherent(d, vs)
    ensures 0 < |vs| && SymmetryItem(vs, 0, i) == d[i]
  {
    assert d[0] == 0;
    ItemIsLabel(d, vs, 0, i);
    ComposeIdentity(i);
  }

  /** `all_variants` of the returned variant is the input list, in order. */
  lemma AllVariantsIsInput<T>(d: Descriptor, objects: seq<T>)
    requires IsCanonical(d) && Consistent(d) && |objects| == |RenderIndices(d)|
    ensures CreateVariants(d, objects).Ok?
    ensures var vs := CreateVariants(d, objects).value;
      forall j | 0 <= j < |objects| :: GetAllVariants(d, vs, 0)[j] == j && vs[j].payload == objects[j]
  {
    CreatedVariantsCoherent(d, objects);
    var vs := CreateVariants(d, objects).value;
    forall j | 0 <= j < |objects| ensures GetAllVariants(d, vs, 0)[j] == j {
      RepresentativeViews(d, vs, RenderIndices(d)[j]);
    }
  }

  /** From the first variant, `symmetry_index` of variant `k` is the `k`-th render
      index; a value that is no variant is a KeyError. */
  lemma SymmetryIndexOfRepresentative<T>(d: Descriptor, vs: seq<Variant<T>>, other: nat)
    requires Coherent(d, vs)
    ensures other < |vs| ==> SymmetryIndex(vs, 0, other) == Ok(RenderIndices(d)[other])
    ensures other >= |vs| ==> SymmetryIndex(vs, 0, other) == Err(KeyError)
  {
    var r := SymmetryIndex(vs, 0, other);
    if other < |vs| {
      var x := RenderIndices(d)[other];
      assert x in RenderIndices(d);
      assert IsFirst(d, x) && d[x] == other;
      RepresentativeViews(d, vs, x);
      assert SymmetryItem(vs, 0, x) == other;
      assert r.Ok?;
      var v := r.value;
      RepresentativeViews(d, vs, v);
      assert d[v] == d[x];
      assert !(v < x);
      assert !(x < v);
    } else {
      assert forall j | 0 <= j < 8 :: SymmetryItem(vs, 0, j) != other;
    }
  }

  /** The views of the variant labelled like orientation `x` are the variants
      labelled like `x` composed with each index. */
  lemma ViewsAreLabels<T>(d: Descriptor, vs: seq<Variant<T>>, x: Orientation, indices: seq<Orientation>)
    requires Coherent(d, vs)
    ensures d[x] < |vs|
    ensures forall j | 0 <= j < |indices| :: Views(vs, d[x], indices)[j] == d[Compose(x, indices[j])]
  {
    FollowLink(d, vs, x, M);
    forall j | 0 <= j < |indices| ensures Views(vs, d[x], indices)[j] == d[Compose(x, indices[j])] {
      ItemIsLabel(d, vs, x, indices[j]);
    }
  }

  /** `get_all_variants` of the variant labelled like `x` lists the variants
      labelled like `x` composed with each render index. */
  lemma GetAllVariantsFrom<T>(d: Descriptor, vs: seq<Variant<T>>, x: Orientation)
    requires Coherent(d, vs)
    ensures d[x] < |vs|
    ensures forall j | 0 <= j < |RenderIndices(d)| ::
      GetAllVariants(d, vs, d[x])[j] == d[Compose(x, RenderIndices(d)[j])]
  {
    ViewsAreLabels(d, vs, x, RenderIndices(d));
  }

  /** The rotational views of the variant labelled like `x` are the variants
      labelled like `x` composed with each rotational view index, which show
      each look of the rotations of `x` exactly once. */
  lemma RotationalViewLabels<T>(d: Descriptor, vs: seq<Variant<T>>, x: Orientation)
    requires Coherent(d, vs)
    ensures d[x] < |vs|
    ensures forall j | 0 <= j < |RotationalViewIndices(d)| ::
      RotationalViews(d, vs, d[x])[j] == Shift(d, x)[RotationalViewIndices(d)[j]]
    ensures RotationalViewsOf(Shift(d, x), RotationalViewIndices(d))
  {
    ShiftRotationalViews(d, x);
    ViewsAreLabels(d, vs, x, RotationalViewIndices(d));
  }

  /** Every rotational view of a variant is one of its rotations, and no two
      are the same variant. */
  lemma RotationalViewsEntries<T>(d: Descriptor, vs: seq<Variant<T>>, x: Orientation)
    requires Coherent(d, vs)
    ensures d[x] < |vs|
    ensures var r := RotationalViews(d, vs, d[x]);
      && (forall j | 0 <= j < |r| :: exists e: Orientation :: Proper(e) && r[j] == SymmetryItem(vs, d[x], e))
      && (forall j, k | 0 <= j < k < |r| :: r[j] != r[k])
  {
    RotationalViewLabels(d, vs, x);
    var idx := RotationalViewIndices(d);
    var r := RotationalViews(d, vs, d[x]);
    forall j | 0 <= j < |r| ensures exists e: Orientation :: Proper(e) && r[j] == SymmetryItem(vs, d[x], e) {
      ItemIsLabel(d, vs, x, idx[j]);
    }
  }

  /** Every rotation of a variant is among its rotational views. */
  lemma RotationalViewsCover<T>(d: Descriptor, vs: seq<Variant<T>>, x: Orientation)
    requires Coherent(d, vs)
    ensures d[x] < |vs|
    ensures forall e: Orientation | Proper(e) :: SymmetryItem(vs, d[x], e) in RotationalViews(d, vs, d[x])
  {
    RotationalViewLabels(d, vs, x);
    var s := Shift(d, x);
    var idx := RotationalViewIndices(d);
    var r := RotationalViews(d, vs, d[x]);
    forall e: Orientation | Proper(e) ensures SymmetryItem(vs, d[x], e) in r {
      ItemIsLabel(d, vs, x, e);
      var j :| 0 <= j < |idx| && s[idx[j]] == s[e];
      assert r[j] == SymmetryItem(vs, d[x], e);
    }
  }

  /** A variant is one of its own mirrored views exactly when, seen from its
      orientation, some mirrored orientation looks like the identity. */
  lemma MirroredSelfView<T>(d: Descriptor, vs: seq<Variant<T>>, x: Orientation)
    requires Coherent(d, vs)
    ensures d[x] < |vs|
    ensures (exists y: Orientation :: !Proper(y) && SymmetryItem(vs, d[x], y) == d[x]) <==>
            (exists y: Orientation :: !Proper(y) && Shift(d, x)[y] == Shift(d, x)[0])
  {
    var s := Shift(d, x);
    ComposeIdentity(x);
    FollowLink(d, vs, x, M);
    if y: Orientation :| !Proper(y) && SymmetryItem(vs, d[x], y) == d[x] {
      ItemIsLabel(d, vs, x, y);
      assert s[y] == s[0];
    }
    if y: Orientation :| !Proper(y) && s[y] == s[0] {
      ItemIsLabel(d, vs, x, y);
      assert SymmetryItem(vs, d[x], y) == d[x];
    }
  }

  /** Seen from any orientation `x`, the chirality indices pick out the look
      of `x`, and when there are two, the look of `x` composed with R, which
      then differs from it. */
  lemma ChiralityLabels(d: Descriptor, x: Orientation)
    requires Consistent(d)
    ensures ChiralityIndices(d) == [0] ==> d[Compose(x, ChiralityIndices(d)[0])] == d[x]
    ensures ChiralityIndices(d) == [0, 2] ==>
      && d[Compose(x, ChiralityIndices(d)[0])] == d[x]
      && d[Compose(x, ChiralityIndices(d)[1])] == d[Compose(x, R)]
      && d[x] != d[Compose(x, R)]
  {
    ComposeIdentity(x);
    if ChiralityIndices(d) == [0, 2] {
      ShiftChiralities(d, x);
      assert Shift(d, x)[0] == d[x];
      assert Shift(d, x)[2] == d[Compose(x, R)];
    }
  }

  /** A list holding the look of `x` composed with each chirality index is the
      look of `x` alone, or the look of `x` and that of `x` composed with R,
      which then differ. */
  lemma ChiralityLabelList(d: Descriptor, x: Orientation, c: seq<nat>)
    requires Consistent(d)
    requires |c| == |ChiralityIndices(d)|
    requires forall j | 0 <= j < |c| :: c[j] == d[Compose(x, ChiralityIndices(d)[j])]
    ensures c == [d[x]] || c == [d[x], d[Compose(x, R)]]
    ensures |c| == 2 ==> c[0] != c[1]
  {
    ChiralityLabels(d, x);
    if |c| == 2 {
      assert c == [d[x], d[Compose(x, R)]];
    } else {
      assert c == [d[x]];
    }
  }

  /** `chiralities` of any variant is the variant alone, or the variant and its
      R view, which then differ. */
  lemma ChiralitiesShape<T>(d: Descriptor, vs: seq<Variant<T>>, x: Orientation)
    requires Coherent(d, vs)
    ensures d[x] < |vs|
    ensures var c := Chiralities(d, vs, d[x]);
      && (c == [d[x]] || c == [d[x], d[Compose(x, R)]])
      && (|c| == 2 ==> c[0] != c[1])
  {
    ViewsAreLabels(d, vs, x, ChiralityIndices(d));
    ChiralityLabelList(d, x, Chiralities(d, vs, d[x]));
  }

  /** `chiralities` of any variant is the variant alone, or the variant and its
      R view, which then differ; it is the variant alone exactly when some
      mirrored view of the variant is the variant itself. */
  lemma ChiralitiesFrom<T>(d: Descriptor, vs: seq<Variant<T>>, x: Orientation)
    requires Coherent(d, vs)
    ensures d[x] < |vs|
    ensures var c := Chiralities(d, vs, d[x]);
      && (c == [d[x]] || c == [d[x], d[Compose(x, R)]])
      && (|c| == 2 ==> c[0] != c[1])
      && (|c| == 1 <==> exists y: Orientation :: !Proper(y) && SymmetryItem(vs, d[x], y) == d[x])
  {
    ChiralitiesShape(d, vs, x);
    ShiftChiralities(d, x);
    MirroredSelfView(d, vs, x);
  }

  /** Under a consistent descriptor the looks of the unmirrored orientations
      0, 2, 4 and 6 coincide only in pairs that R or T exchange together. */
  lemma EvenLooks(d: Descriptor)
    requires Consistent(d)
    ensures d[0] == d[2] ==> d[4] == d[6]
    ensures d[4] == d[0] ==> d[6] == d[2]
    ensures d[4] == d[2] ==> d[6] == d[0]
    ensures d[6] == d[0] ==> d[4] == d[2]
    ensures d[6] == d[2] ==> d[4] == d[0]
    ensures d[4] == d[6] ==> d[0] == d[2]
  {
    assert Compose(0, T) == 4 && Compose(2, T) == 6;
    assert Compose(4, R) == 6 && Compose(0, R) == 2;
    assert Compose(2, R) == 0 && Compose(6, R) == 4;
    assert Compose(4, T) == 0 && Compose(6, T) == 2;
  }

  /** The entries of the first variant, written as its links. */
  lemma EntriesLinks<T>(d: Descriptor, vs: seq<Variant<T>>)
    requires WellLinked(vs) && 0 < |vs|
    ensures GetAllEntries(d, vs, 0) ==
      if EntriesAddR(d) && EntriesAddT(d) then [0, vs[0].r, vs[0].t, vs[vs[0].r].t]
      else if EntriesAddR(d) then [0, vs[0].r]
      else if EntriesAddT(d) then [0, vs[0].t]
      else [0]
  {
    var ret := if EntriesAddR(d) then [0] + FollowR(vs, [0]) else [0];
    assert FollowR(vs, [0]) == [vs[0].r];
    if EntriesAddR(d) {
      assert FollowT(vs, ret) == [vs[0].t, vs[vs[0].r].t];
    } else {
      assert FollowT(vs, ret) == [vs[0].t];
    }
  }

  /** The R and T links around the first variant, as labels. */
  lemma RepresentativeLinks<T>(d: Descriptor, vs: seq<Variant<T>>)
    requires Coherent(d, vs)
    ensures 0 < |vs| && d[0] == 0 && vs[0].r == d[2] && vs[0].t == d[4] && vs[d[2]].t == d[6]
  {
    RepresentativeViews(d, vs, R);
    RepresentativeViews(d, vs, T);
    FollowLink(d, vs, R, T);
    assert Compose(R, T) == 6;
  }

  /** The entries of the first variant, written as labels. */
  lemma EntriesLabels<T>(d: Descriptor, vs: seq<Variant<T>>)
    requires Coherent(d, vs)
    ensures 0 < |vs|
    ensures GetAllEntries(d, vs, 0) == EntryLabels(d)
  {
    RepresentativeLinks(d, vs);
    EntriesLinks(d, vs);
  }

  /** The labels `get_all_entries` reaches from the first variant. */
  function EntryLabels(d: Descriptor): (r: seq<nat>)
    ensures |r| == (if EntriesAddR(d) then 2 else 1) * (if EntriesAddT(d) then 2 else 1)
  {
    if EntriesAddR(d) && EntriesAddT(d) then [d[0], d[2], d[4], d[6]]
    else if EntriesAddR(d) then [d[0], d[2]]
    else if EntriesAddT(d) then [d[0], d[4]]
    else [d[0]]
  }

  /** Where the looks of 0, 2, 4 and 6 pair up as `EvenLooks` says, the entry
      labels are distinct and are exactly those looks. */
  lemma EntryLabelsAreEvenLooks(d: Descriptor)
    requires d[0] == d[2] ==> d[4] == d[6]
    requires d[4] == d[0] ==> d[6] == d[2]
    requires d[4] == d[2] ==> d[6] == d[0]
    requires d[6] == d[0] ==> d[4] == d[2]
    requires d[6] == d[2] ==> d[4] == d[0]
    requires d[4] == d[6] ==> d[0] == d[2]
    ensures forall p, q | 0 <= p < q < |EntryLabels(d)| :: EntryLabels(d)[p] != EntryLabels(d)[q]
    ensures forall j :: j in EntryLabels(d) <==> j in {d[0], d[2], d[4], d[6]}
  {
  }

  /** Under a consistent canonical descriptor, `get_all_entries` lists the looks
      of the unmirrored orientations 0, 2, 4 and 6, each exactly once. */
  lemma EntriesAreEvenViews<T>(d: Descriptor, vs: seq<Variant<T>>)
    requires Coherent(d, vs)
    ensures 0 < |vs|
    ensures forall p, q | 0 <= p < q < |GetAllEntries(d, vs, 0)| :: GetAllEntries(d, vs, 0)[p] != GetAllEntries(d, vs, 0)[q]
    ensures forall j :: j in GetAllEntries(d, vs, 0) <==> j in {d[0], d[2], d[4], d[6]}
  {
    EntriesLabels(d, vs);
    assert GetAllEntries(d, vs, 0) == EntryLabels(d);
    EvenLooks(d);
    EntryLabelsAreEvenLooks(d);
  }

  /** A coherent list over a descriptor whose orientations 0, 2 and 4 look
      alike and 1 looks different: the first variant is its own R and T view,
      and its M view is the second variant, whose M view is the first. */
  lemma TwoLookLinks<T>(d: Descriptor, vs: seq<Variant<T>>)
    requires Coherent(d, vs) && d[1] == 1 && d[2] == 0 && d[4] == 0
    ensures 0 < |vs|
    ensures vs[0].r == 0 && vs[0].t == 0 && vs[0].m == 1 && vs[vs[0].m].m == 0
  {
    LinksAreInvolutions(d, vs, 0);
    RepresentativeLinks(d, vs);
    RepresentativeViews(d, vs, M);
  }

  /** The layout test's symmetrical building is its own R and T view, and M
      twice returns to it. */
  lemma SymmetricalLinks<T>(c: SymmetryClass, objects: seq<T>)
    requires c == Symmetrical && |objects| == 2
    ensures CreateVariants(c.Desc(), objects).Ok?
    ensures var vs := CreateVariants(c.Desc(), objects).value;
      vs[0].r == 0 && vs[0].t == 0 && vs[vs[0].m].m == 0 && vs[0].m == 1
  {
    var d := c.Desc();
    BuiltinsCanonical(c);
    BuiltinsConsistent(c);
    RenderIndicesOf(c);
    CreatedVariantsCoherent(d, objects);
    TwoLookLinks(d, CreateVariants(d, objects).value);
  }
}
