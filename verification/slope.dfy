/** The slope table of agrf/lib/building/slope.py: six groups of slope types,
    each a `create_variants` call over a symmetry class, and `make_slopes`,
    which picks for every slope and every orientation of a target class the
    sprite view that draws it. */
module Slope {
  import opened Wrappers
  import opened Symmetry

  // ---------------------------------------------------------------------------
  // Slope types and groups

  /** `SlopeType.offset`: the steep slopes 29, 23, 27 and 30 are packed into
      15..18; every other value is its own offset. */
  function Offset(value: int): int
  {
    if value == 29 then 15
    else if value == 23 then 16
    else if value == 27 then 17
    else if value == 30 then 18
    else value
  }

  /** One `create_variants` call of the table: a symmetry class and the slope
      values of its objects.  Since `all_variants` of the returned object is
      the input list in order (`Variants.AllVariantsIsInput`), `values[j]` is
      the variant drawn at the `j`-th render index of the class. */
  datatype SlopeGroup = SlopeGroup(sym: SymmetryClass, values: seq<int>)

  /** `slope_groups`: flat, ortho, para, mono, tri and steep. */
  const SlopeGroups: seq<SlopeGroup> := [
    SlopeGroup(Cylindrical, [0]),
    SlopeGroup(SymmetricalY, [3, 6, 12, 9]),
    SlopeGroup(Diamond, [5, 10]),
    SlopeGroup(DiagonalAlt, [1, 4, 8, 2]),
    SlopeGroup(Diagonal, [7, 14, 11, 13]),
    SlopeGroup(Diagonal, [23, 30, 27, 29])
  ]

  /** The slope values of a list of groups, group after group. */
  function Values(groups: seq<SlopeGroup>): seq<int>
  {
    if groups == [] then [] else groups[0].values + Values(groups[1..])
  }

  /** `slope_types`: the values of every group's `all_variants`, in order. */
  function SlopeValues(): seq<int>
  {
    Values(SlopeGroups)
  }

  predicate Distinct<X(==)>(s: seq<X>)
  {
    forall p, q | 0 <= p < q < |s| :: s[p] != s[q]
  }

  /** A sequence in which every entry can be told its own position repeats nothing. */
  lemma DistinctByPositions(s: seq<int>, pos: map<int, nat>)
    requires forall p | 0 <= p < |s| :: s[p] in pos && pos[s[p]] == p
    ensures Distinct(s)
  {
  }

  function Offsets(values: seq<int>): (r: seq<int>)
    ensures |r| == |values| && forall p | 0 <= p < |r| :: r[p] == Offset(values[p])
  {
    seq(|values|, p requires 0 <= p < |values| => Offset(values[p]))
  }

  /** `slope_types` written out. */
  lemma SlopeValuesListed()
    ensures SlopeValues() == [0, 3, 6, 12, 9, 5, 10, 1, 4, 8, 2, 7, 14, 11, 13, 23, 30, 27, 29]
  {
  }

  /** The offsets of `slope_types`, written out. */
  lemma SlopeOffsetsListed()
    ensures Offsets(SlopeValues()) == [0, 3, 6, 12, 9, 5, 10, 1, 4, 8, 2, 7, 14, 11, 13, 16, 18, 17, 15]
  {
    SlopeValuesListed();
  }

  lemma SlopeOffsetsCover()
    ensures forall o | 0 <= o < 19 :: o in Offsets(SlopeValues())
  {
    SlopeOffsetsListed();
    var os := [0, 3, 6, 12, 9, 5, 10, 1, 4, 8, 2, 7, 14, 11, 13, 16, 18, 17, 15];
    var at := [0, 7, 10, 1, 8, 5, 2, 11, 9, 4, 6, 13, 3, 14, 12, 18, 15, 17, 16];
    forall o | 0 <= o < 19 ensures o in os {
      assert o in {0, 1, 2, 3, 4, 5, 6, 7, 8, 9, 10, 11, 12, 13, 14, 15, 16, 17, 18};
      assert os[at[o]] == o;
    }
  }

  lemma SlopeValuesDistinct()
    ensures Distinct([0, 3, 6, 12, 9, 5, 10, 1, 4, 8, 2, 7, 14, 11, 13, 23, 30, 27, 29])
  {
    var vs := [0, 3, 6, 12, 9, 5, 10, 1, 4, 8, 2, 7, 14, 11, 13, 23, 30, 27, 29];
    var at := map[0 := 0, 3 := 1, 6 := 2, 12 := 3, 9 := 4, 5 := 5, 10 := 6, 1 := 7, 4 := 8, 8 := 9,
                  2 := 10, 7 := 11, 14 := 12, 11 := 13, 13 := 14, 23 := 15, 30 := 16, 27 := 17, 29 := 18];
    forall p | 0 <= p < 19 ensures vs[p] in at && at[vs[p]] == p {
      assert p in {0, 1, 2, 3, 4, 5, 6, 7, 8, 9, 10, 11, 12, 13, 14, 15, 16, 17, 18};
    }
    DistinctByPositions(vs, at);
  }

  lemma SlopeOffsetsDistinct()
    ensures Distinct([0, 3, 6, 12, 9, 5, 10, 1, 4, 8, 2, 7, 14, 11, 13, 16, 18, 17, 15])
    ensures forall p | 0 <= p < 19 :: 0 <= [0, 3, 6, 12, 9, 5, 10, 1, 4, 8, 2, 7, 14, 11, 13, 16, 18, 17, 15][p] < 19
  {
    var os := [0, 3, 6, 12, 9, 5, 10, 1, 4, 8, 2, 7, 14, 11, 13, 16, 18, 17, 15];
    var at := map[0 := 0, 3 := 1, 6 := 2, 12 := 3, 9 := 4, 5 := 5, 10 := 6, 1 := 7, 4 := 8, 8 := 9,
                  2 := 10, 7 := 11, 14 := 12, 11 := 13, 13 := 14, 16 := 15, 18 := 16, 17 := 17, 15 := 18];
    forall p | 0 <= p < 19 ensures os[p] in at && at[os[p]] == p && 0 <= os[p] < 19 {
      assert p in {0, 1, 2, 3, 4, 5, 6, 7, 8, 9, 10, 11, 12, 13, 14, 15, 16, 17, 18};
    }
    DistinctByPositions(os, at);
  }

  /** The table holds 19 distinct slope values whose offsets are exactly
      0..18, each once. */
  lemma SlopeTypesTable()
    ensures |SlopeValues()| == 19
    ensures Distinct(SlopeValues()) && Distinct(Offsets(SlopeValues()))
    ensures forall o :: o in Offsets(SlopeValues()) <==> 0 <= o < 19
  {
    SlopeValuesListed();
    SlopeOffsetsListed();
    SlopeOffsetsCover();
    SlopeValuesDistinct();
    SlopeOffsetsDistinct();
  }

  /** What `make_slopes` relies on of a group: a consistent canonical class and
      one object per render index. */
  ghost predicate WellFormed(g: SlopeGroup)
  {
    var d := g.sym.Desc();
    IsCanonical(d) && Consistent(d) && |g.values| == |RenderIndices(d)|
  }

  /** A group over a built-in class with one object per render index. */
  lemma BuiltinGroupWellFormed(g: SlopeGroup)
    requires |g.values| == |g.sym.Render()|
    ensures WellFormed(g)
  {
    RenderIndicesOf(g.sym);
    BuiltinsCanonical(g.sym);
    BuiltinsConsistent(g.sym);
  }

  /** Every group passes exactly as many objects as its class has render
      indices (1, 4, 2, 4, 4, 4), so every `create_variants` call succeeds. */
  lemma SlopeGroupsWellFormed()
    ensures forall gi | 0 <= gi < |SlopeGroups| :: WellFormed(SlopeGroups[gi])
  {
    forall gi | 0 <= gi < |SlopeGroups| ensures WellFormed(SlopeGroups[gi]) {
      assert gi in {0, 1, 2, 3, 4, 5};
      BuiltinGroupWellFormed(SlopeGroups[gi]);
    }
  }

  // ---------------------------------------------------------------------------
  // make_slopes

  /** `sprites[s].symmetry_item(item)`: the view `item` of the sprite drawn for
      slope value `s`. */
  datatype View<S> = View(sprite: S, item: Orientation)

  /** The result of `make_slopes`: for each orientation of the target class,
      the view drawn for each slope value. */
  type Table<S> = map<Orientation, map<int, View<S>>>

  /** What the loops read of a group: its descriptor, its render indices and
      the values of its variants. */
  datatype Prepared = Prepared(desc: Descriptor, render: seq<Orientation>, values: seq<int>)

  /** A group ready for the loops.  Its render indices are the written-out
      ones of its class, which `RenderIndicesOf` shows to be what
      `render_indices` computes. */
  function Prepare(g: SlopeGroup): (p: Prepared)
    ensures p.desc == g.sym.Desc() && p.render == g.sym.Render() && p.values == g.values
  {
    Prepared(g.sym.Desc(), g.sym.Render(), g.values)
  }

  /** The length of `zip(render_indices(), all_variants)` for a group. */
  function Zip(g: Prepared): (n: nat)
    ensures n <= |g.render| && n <= |g.values|
  {
    if |g.render| <= |g.values| then |g.render| else |g.values|
  }

  /** The inner loop of `make_slopes`: the first position `k` from `k0` on whose
      render index, composed with `i`, looks like `target`. */
  function FindMatch(d: Descriptor, ri: seq<Orientation>, len: nat, target: nat, i: Orientation, k0: nat): (r: Option<nat>)
    requires len <= |ri| && k0 <= len
    ensures r.Some? ==> k0 <= r.value < len && d[Compose(ri[r.value], i)] == target
    ensures r.Some? ==> forall k | k0 <= k < r.value :: d[Compose(ri[k], i)] != target
    ensures r.None? <==> forall k | k0 <= k < len :: d[Compose(ri[k], i)] != target
    decreases len - k0
  {
    if k0 == len then None
    else if d[Compose(ri[k0], i)] == target then Some(k0)
    else FindMatch(d, ri, len, target, i, k0 + 1)
  }

  /** The position in its group of the variant whose view `i` draws the `j`-th
      slope type of the group. */
  function Source(g: Prepared, j: nat, i: Orientation): (r: Option<nat>)
    requires j < Zip(g)
    ensures r.Some? ==> r.value < Zip(g)
  {
    FindMatch(g.desc, g.render, Zip(g), g.desc[g.render[j]], i, 0)
  }

  /** The entry `make_slopes` writes for the `j`-th slope type of `g` at
      orientation `i`, when there is one and its sprite exists. */
  function Entry<S>(sprites: map<int, S>, g: Prepared, j: nat, i: Orientation): Option<View<S>>
    requires j < Zip(g)
  {
    match Source(g, j, i)
    case None => None
    case Some(k) => if g.values[k] in sprites then Some(View(sprites[g.values[k]], i)) else None
  }

  /** The sprite the entry needs is absent: `sprites[...]` raises KeyError. */
  predicate Missing<S>(sprites: map<int, S>, g: Prepared, j: nat, i: Orientation)
    requires j < Zip(g)
  {
    Source(g, j, i).Some? && g.values[Source(g, j, i).value] !in sprites
  }

  predicate Covers<S>(ret: Table<S>, symRI: seq<Orientation>)
  {
    forall m | 0 <= m < |symRI| :: symRI[m] in ret
  }

  /** The loop over the orientations of the target class, for the `j`-th slope
      type of `g`, from the `n`-th orientation on. */
  function FillViews<S>(sprites: map<int, S>, symRI: seq<Orientation>, g: Prepared, j: nat, n: nat, ret: Table<S>): (r: Result<Table<S>>)
    requires j < Zip(g) && n <= |symRI| && Covers(ret, symRI)
    ensures r.Ok? ==> r.value.Keys == ret.Keys
    ensures r.Err? ==> r.error == KeyError
    decreases |symRI| - n
  {
    if n == |symRI| then Ok(ret)
    else
      var i := symRI[n];
      match Source(g, j, i)
      case None => FillViews(sprites, symRI, g, j, n + 1, ret)
      case Some(k) =>
        if g.values[k] !in sprites then Err(KeyError)
        else FillViews(sprites, symRI, g, j, n + 1, ret[i := ret[i][g.values[j] := View(sprites[g.values[k]], i)]])
  }

  /** The loop over the slope types of one group, from the `j`-th on. */
  function FillGroup<S>(sprites: map<int, S>, symRI: seq<Orientation>, g: Prepared, j: nat, ret: Table<S>): (r: Result<Table<S>>)
    requires j <= Zip(g) && Covers(ret, symRI)
    ensures r.Ok? ==> r.value.Keys == ret.Keys
    ensures r.Err? ==> r.error == KeyError
    decreases Zip(g) - j
  {
    if j == Zip(g) then Ok(ret)
    else
      var ret' :- FillViews(sprites, symRI, g, j, 0, ret);
      FillGroup(sprites, symRI, g, j + 1, ret')
  }

  /** The slope values of prepared groups, group after group. */
  function Flat(ps: seq<Prepared>): seq<int>
  {
    if ps == [] then [] else ps[0].values + Flat(ps[1..])
  }

  /** Each group prepared once, in order. */
  function PrepareAll(groups: seq<SlopeGroup>): (ps: seq<Prepared>)
    ensures |ps| == |groups| && forall gi | 0 <= gi < |groups| :: ps[gi] == Prepare(groups[gi])
  {
    seq(|groups|, gi requires 0 <= gi < |groups| => Prepare(groups[gi]))
  }

  lemma {:induction false} FlatPrepareAll(groups: seq<SlopeGroup>)
    ensures Flat(PrepareAll(groups)) == Values(groups)
  {
    if groups != [] {
      assert PrepareAll(groups)[1..] == PrepareAll(groups[1..]);
      FlatPrepareAll(groups[1..]);
    }
  }

  /** The loop over the groups. */
  function FillTable<S>(sprites: map<int, S>, symRI: seq<Orientation>, ps: seq<Prepared>, ret: Table<S>): (r: Result<Table<S>>)
    requires Covers(ret, symRI)
    ensures r.Ok? ==> r.value.Keys == ret.Keys
    ensures r.Err? ==> r.error == KeyError
  {
    if ps == [] then Ok(ret)
    else
      var ret' :- FillGroup(sprites, symRI, ps[0], 0, ret);
      FillTable(sprites, symRI, ps[1..], ret')
  }

  /** An empty row for every render index of the target class. */
  function EmptyTable<S>(symRI: seq<Orientation>): (r: Table<S>)
    ensures Covers(r, symRI) && forall i | i in r :: i in symRI && r[i] == map[]
  {
    map i | i in symRI :: map[]
  }

  /** `make_slopes(sprites, sym)`.  The final loop, which stores each row in
      its sprites' `slope_variants`, changes nothing in the table. */
  function MakeSlopes<S>(sprites: map<int, S>, sym: SymmetryClass): (r: Result<Table<S>>)
    ensures r.Ok? ==> forall i :: i in r.value <==> i in RenderIndices(sym.Desc())
    ensures r.Err? ==> r.error == KeyError
  {
    var symRI := RenderIndices(sym.Desc());
    FillTable(sprites, symRI, PrepareAll(SlopeGroups), EmptyTable(symRI))
  }

  // ---------------------------------------------------------------------------
  // What the loops build, row by row

  /** One write of the loop body, seen from row `i`. */
  function Write<S>(sprites: map<int, S>, g: Prepared, j: nat, i: Orientation, row: map<int, View<S>>): map<int, View<S>>
    requires j < Zip(g)
  {
    match Entry(sprites, g, j, i)
    case None => row
    case Some(e) => row[g.values[j] := e]
  }

  /** Row `i` after the slope types of `g` from the `j`-th on. */
  function RowGroup<S>(sprites: map<int, S>, g: Prepared, j: nat, i: Orientation, row: map<int, View<S>>): map<int, View<S>>
    requires j <= Zip(g)
    decreases Zip(g) - j
  {
    if j == Zip(g) then row else RowGroup(sprites, g, j + 1, i, Write(sprites, g, j, i, row))
  }

  /** Row `i` after all the groups. */
  function RowTable<S>(sprites: map<int, S>, ps: seq<Prepared>, i: Orientation, row: map<int, View<S>>): map<int, View<S>>
  {
    if ps == [] then row else RowTable(sprites, ps[1..], i, RowGroup(sprites, ps[0], 0, i, row))
  }

  predicate MissingAt<S>(sprites: map<int, S>, symRI: seq<Orientation>, g: Prepared, j: nat, n: nat)
    requires j < Zip(g)
  {
    exists m | n <= m < |symRI| :: Missing(sprites, g, j, symRI[m])
  }

  /** Some slope type of `g` from the `j`-th on needs an absent sprite. */
  predicate GroupMissing<S>(sprites: map<int, S>, symRI: seq<Orientation>, g: Prepared, j: nat)
    requires j <= Zip(g)
    decreases Zip(g) - j
  {
    j < Zip(g) && (MissingAt(sprites, symRI, g, j, 0) || GroupMissing(sprites, symRI, g, j + 1))
  }

  /** Some slope type of some group needs an absent sprite. */
  predicate TableMissing<S>(sprites: map<int, S>, symRI: seq<Orientation>, ps: seq<Prepared>)
  {
    ps != [] && (GroupMissing(sprites, symRI, ps[0], 0) || TableMissing(sprites, symRI, ps[1..]))
  }

  /** The orientation loop fails exactly when one of its entries needs an
      absent sprite, and otherwise applies the write to every row it visits. */
  lemma {:induction false} FillViewsRows<S>(sprites: map<int, S>, symRI: seq<Orientation>, g: Prepared, j: nat, n: nat, ret: Table<S>)
    requires j < Zip(g) && n <= |symRI| && Covers(ret, symRI) && Distinct(symRI)
    ensures FillViews(sprites, symRI, g, j, n, ret).Err? <==> MissingAt(sprites, symRI, g, j, n)
    ensures FillViews(sprites, symRI, g, j, n, ret).Ok? ==>
      forall i | i in ret :: FillViews(sprites, symRI, g, j, n, ret).value[i] ==
        if i in symRI[n..] then Write(sprites, g, j, i, ret[i]) else ret[i]
    decreases |symRI| - n
  {
    if n < |symRI| {
      var i := symRI[n];
      assert symRI[n..] == [i] + symRI[n + 1..];
      assert i !in symRI[n + 1..];
      assert MissingAt(sprites, symRI, g, j, n) <==> Missing(sprites, g, j, i) || MissingAt(sprites, symRI, g, j, n + 1);
      var src := Source(g, j, i);
      if src.None? {
        assert FillViews(sprites, symRI, g, j, n, ret) == FillViews(sprites, symRI, g, j, n + 1, ret);
        assert Write(sprites, g, j, i, ret[i]) == ret[i];
        FillViewsRows(sprites, symRI, g, j, n + 1, ret);
      } else if g.values[src.value] !in sprites {
        assert FillViews(sprites, symRI, g, j, n, ret) == Err(KeyError);
      } else {
        var row := ret[i][g.values[j] := View(sprites[g.values[src.value]], i)];
        assert Write(sprites, g, j, i, ret[i]) == row;
        var next := ret[i := row];
        assert FillViews(sprites, symRI, g, j, n, ret) == FillViews(sprites, symRI, g, j, n + 1, next);
        FillViewsRows(sprites, symRI, g, j, n + 1, next);
      }
    }
  }

  /** One slope type's writes, then the rest of the group, is the whole group. */
  lemma RowGroupStep<S>(sprites: map<int, S>, symRI: seq<Orientation>, g: Prepared, j: nat, ret: Table<S>, next: Table<S>, res: Result<Table<S>>)
    requires j < Zip(g) && next.Keys == ret.Keys && (res.Ok? ==> res.value.Keys == ret.Keys)
    requires symRI[0..] == symRI
    requires forall i | i in ret :: next[i] == if i in symRI[0..] then Write(sprites, g, j, i, ret[i]) else ret[i]
    requires res.Ok? ==> forall i | i in next :: res.value[i] == if i in symRI then RowGroup(sprites, g, j + 1, i, next[i]) else next[i]
    ensures res.Ok? ==> forall i | i in ret :: res.value[i] == if i in symRI then RowGroup(sprites, g, j, i, ret[i]) else ret[i]
  {
  }

  /** The slope-type loop of a group, row by row. */
  lemma {:induction false} FillGroupRows<S>(sprites: map<int, S>, symRI: seq<Orientation>, g: Prepared, j: nat, ret: Table<S>)
    requires j <= Zip(g) && Covers(ret, symRI) && Distinct(symRI)
    ensures FillGroup(sprites, symRI, g, j, ret).Err? <==> GroupMissing(sprites, symRI, g, j)
    ensures FillGroup(sprites, symRI, g, j, ret).Ok? ==>
      forall i | i in ret :: FillGroup(sprites, symRI, g, j, ret).value[i] ==
        if i in symRI then RowGroup(sprites, g, j, i, ret[i]) else ret[i]
    decreases Zip(g) - j
  {
    if j < Zip(g) {
      FillViewsRows(sprites, symRI, g, j, 0, ret);
      assert symRI[0..] == symRI;
      var step := FillViews(sprites, symRI, g, j, 0, ret);
      if step.Ok? {
        var next := step.value;
        FillGroupRows(sprites, symRI, g, j + 1, next);
        assert FillGroup(sprites, symRI, g, j, ret) == FillGroup(sprites, symRI, g, j + 1, next);
        RowGroupStep(sprites, symRI, g, j, ret, next, FillGroup(sprites, symRI, g, j, ret));
      }
    }
  }

  /** The group loop, row by row. */
  lemma {:induction false} FillTableRows<S>(sprites: map<int, S>, symRI: seq<Orientation>, ps: seq<Prepared>, ret: Table<S>)
    requires Covers(ret, symRI) && Distinct(symRI)
    ensures FillTable(sprites, symRI, ps, ret).Err? <==> TableMissing(sprites, symRI, ps)
    ensures FillTable(sprites, symRI, ps, ret).Ok? ==>
      forall i | i in ret :: FillTable(sprites, symRI, ps, ret).value[i] ==
        if i in symRI then RowTable(sprites, ps, i, ret[i]) else ret[i]
  {
    if ps != [] {
      FillGroupRows(sprites, symRI, ps[0], 0, ret);
      var step := FillGroup(sprites, symRI, ps[0], 0, ret);
      if step.Ok? {
        var next := step.value;
        FillTableRows(sprites, symRI, ps[1..], next);
        assert FillTable(sprites, symRI, ps, ret) == FillTable(sprites, symRI, ps[1..], next);
        forall i | i in ret && FillTable(sprites, symRI, ps, ret).Ok?
          ensures FillTable(sprites, symRI, ps, ret).value[i] ==
            if i in symRI then RowTable(sprites, ps, i, ret[i]) else ret[i]
        {
          assert i in next;
          if i in symRI {
            assert next[i] == RowGroup(sprites, ps[0], 0, i, ret[i]);
          } else {
            assert next[i] == ret[i];
          }
        }
      }
    }
  }

  // ---------------------------------------------------------------------------
  // What the table holds for the slope ps

  /** A prepared group of a consistent canonical class with one object per
      render index. */
  ghost predicate PreparedWell(g: Prepared)
  {
    IsCanonical(g.desc) && Consistent(g.desc) && g.render == RenderIndices(g.desc) && |g.values| == |g.render|
  }

  lemma PrepareWell(g: SlopeGroup)
    requires WellFormed(g)
    ensures PreparedWell(Prepare(g)) && Zip(Prepare(g)) == |g.values|
  {
    RenderIndicesOf(g.sym);
  }

  /** Whatever the orientation `i`, some variant of a well-formed group draws
      each of its slope types: right composition with `i` is a bijection, and
      consistency carries it over to the render index of its class. */
  lemma SourceExists(g: Prepared, j: nat, i: Orientation)
    requires PreparedWell(g) && j < |g.values|
    ensures j < Zip(g) && Source(g, j, i).Some?
  {
    var d, ri := g.desc, g.render;
    CanonicalRenderLabels(d);
    var x := Compose(ri[j], Inverse(i));
    ComposeAssociative(ri[j], Inverse(i), i);
    ComposeIdentity(ri[j]);
    assert Compose(x, i) == ri[j];
    var k := d[x];
    assert d[ri[k]] == d[x];
    assert d[Compose(ri[k], i)] == d[Compose(x, i)];
  }

  /** At orientation 0 every slope type is drawn by its own variant. */
  lemma SourceAtIdentity(g: Prepared, j: nat)
    requires PreparedWell(g) && j < |g.values|
    ensures j < Zip(g) && Source(g, j, 0) == Some(j)
  {
    var d, ri := g.desc, g.render;
    CanonicalRenderLabels(d);
    ComposeIdentity(ri[j]);
    var k := Source(g, j, 0).value;
    ComposeIdentity(ri[k]);
    assert d[ri[k]] == d[ri[j]];
  }

  /** Every slope type of the group is drawn by some variant at orientation `i`. */
  predicate Complete(g: Prepared, i: Orientation)
  {
    Zip(g) == |g.values| && forall jj | 0 <= jj < |g.values| :: Source(g, jj, i).Some?
  }

  lemma SourcesComplete(g: Prepared, i: Orientation)
    requires PreparedWell(g)
    ensures Complete(g, i)
  {
    forall jj | 0 <= jj < |g.values| ensures Source(g, jj, i).Some? {
      SourceExists(g, jj, i);
    }
  }

  /** Writes `vals[p]` under `keys[p]`, in order, skipping the absent ones. */
  function Assign<K, V>(keys: seq<K>, vals: seq<Option<V>>, row: map<K, V>): map<K, V>
    requires |keys| == |vals|
  {
    if keys == [] then row
    else Assign(keys[1..], vals[1..], if vals[0].Some? then row[keys[0] := vals[0].value] else row)
  }

  lemma DistinctTail<X>(s: seq<X>)
    requires Distinct(s) && s != []
    ensures Distinct(s[1..]) && s[0] !in s[1..]
  {
    forall p, q | 0 <= p < q < |s| - 1 ensures s[1..][p] != s[1..][q] {
      assert s[1..][p] == s[p + 1] && s[1..][q] == s[q + 1];
    }
  }

  /** Writing distinct keys, none of them absent: the map gains exactly the
      keys, each with its own value, and keeps everything else. */
  lemma {:induction false} AssignContent<K, V>(keys: seq<K>, vals: seq<Option<V>>, row: map<K, V>)
    requires |keys| == |vals| && Distinct(keys)
    requires forall p | 0 <= p < |vals| :: vals[p].Some?
    ensures forall k :: k in Assign(keys, vals, row) <==> k in row || k in keys
    ensures forall k | k in row && k !in keys :: Assign(keys, vals, row)[k] == row[k]
    ensures forall p | 0 <= p < |keys| :: keys[p] in Assign(keys, vals, row) && Assign(keys, vals, row)[keys[p]] == vals[p].value
  {
    if keys != [] {
      DistinctTail(keys);
      var row' := row[keys[0] := vals[0].value];
      assert vals[0].Some?;
      assert Assign(keys, vals, row) == Assign(keys[1..], vals[1..], row');
      assert forall p | 0 <= p < |vals[1..]| :: vals[1..][p] == vals[p + 1];
      AssignContent(keys[1..], vals[1..], row');
      forall p | 0 <= p < |keys| ensures keys[p] in Assign(keys, vals, row) && Assign(keys, vals, row)[keys[p]] == vals[p].value {
        if p > 0 {
          assert keys[p] == keys[1..][p - 1] && vals[p] == vals[1..][p - 1];
        }
      }
    }
  }

  /** Writing one list of keys after another is writing their concatenation. */
  lemma {:induction false} AssignAppend<K, V>(a: seq<K>, va: seq<Option<V>>, b: seq<K>, vb: seq<Option<V>>, row: map<K, V>)
    requires |a| == |va| && |b| == |vb|
    ensures Assign(a + b, va + vb, row) == Assign(b, vb, Assign(a, va, row))
  {
    if a != [] {
      assert (a + b)[1..] == a[1..] + b && (va + vb)[1..] == va[1..] + vb;
      assert (a + b)[0] == a[0] && (va + vb)[0] == va[0];
      AssignAppend(a[1..], va[1..], b, vb, if va[0].Some? then row[a[0] := va[0].value] else row);
    } else {
      assert a + b == b && va + vb == vb;
    }
  }

  /** The entries of a group at orientation `i`, slope type by slope type. */
  function GroupEntries<S>(sprites: map<int, S>, g: Prepared, i: Orientation): (r: seq<Option<View<S>>>)
    ensures |r| == Zip(g) && forall jj | 0 <= jj < Zip(g) :: r[jj] == Entry(sprites, g, jj, i)
  {
    seq(Zip(g), jj requires 0 <= jj < Zip(g) => Entry(sprites, g, jj, i))
  }

  /** The slope-type loop of a group writes its entries in order. */
  lemma {:induction false} RowGroupAssign<S>(sprites: map<int, S>, g: Prepared, j: nat, i: Orientation, row: map<int, View<S>>)
    requires j <= Zip(g)
    ensures RowGroup(sprites, g, j, i, row) == Assign(g.values[j..Zip(g)], GroupEntries(sprites, g, i)[j..], row)
    decreases Zip(g) - j
  {
    if j < Zip(g) {
      var keys, vals := g.values[j..Zip(g)], GroupEntries(sprites, g, i)[j..];
      assert keys[0] == g.values[j] && vals[0] == Entry(sprites, g, j, i);
      assert keys[1..] == g.values[j + 1..Zip(g)] && vals[1..] == GroupEntries(sprites, g, i)[j + 1..];
      RowGroupAssign(sprites, g, j + 1, i, Write(sprites, g, j, i, row));
    }
  }

  /** The entries of every group at orientation `i`, group after group. */
  function TableEntries<S>(sprites: map<int, S>, ps: seq<Prepared>, i: Orientation): seq<Option<View<S>>>
  {
    if ps == [] then [] else GroupEntries(sprites, ps[0], i) + TableEntries(sprites, ps[1..], i)
  }

  /** Every group pairs each of its objects with a render index. */
  predicate Zipped(ps: seq<Prepared>)
  {
    forall gi | 0 <= gi < |ps| :: Zip(ps[gi]) == |ps[gi].values|
  }

  lemma {:induction false} TableEntriesLength<S>(sprites: map<int, S>, ps: seq<Prepared>, i: Orientation)
    requires Zipped(ps)
    ensures |TableEntries(sprites, ps, i)| == |Flat(ps)|
  {
    if ps != [] {
      assert Zip(ps[0]) == |ps[0].values|;
      assert Zipped(ps[1..]) by {
        forall gi | 0 <= gi < |ps[1..]| ensures Zip(ps[1..][gi]) == |ps[1..][gi].values| {
          assert ps[1..][gi] == ps[gi + 1];
        }
      }
      TableEntriesLength(sprites, ps[1..], i);
    }
  }

  /** The group loop writes every group's entries in order. */
  lemma {:induction false} RowTableAssign<S>(sprites: map<int, S>, ps: seq<Prepared>, i: Orientation, row: map<int, View<S>>)
    requires Zipped(ps)
    ensures |TableEntries(sprites, ps, i)| == |Flat(ps)|
    ensures RowTable(sprites, ps, i, row) == Assign(Flat(ps), TableEntries(sprites, ps, i), row)
  {
    if ps != [] {
      var g := ps[0];
      assert Zip(g) == |g.values|;
      assert g.values[0..Zip(g)] == g.values;
      assert GroupEntries(sprites, g, i)[0..] == GroupEntries(sprites, g, i);
      RowGroupAssign(sprites, g, 0, i, row);
      assert Zipped(ps[1..]) by {
        forall gi | 0 <= gi < |ps[1..]| ensures Zip(ps[1..][gi]) == |ps[1..][gi].values| {
          assert ps[1..][gi] == ps[gi + 1];
        }
      }
      var row' := RowGroup(sprites, g, 0, i, row);
      RowTableAssign(sprites, ps[1..], i, row');
      AssignAppend(g.values, GroupEntries(sprites, g, i), Flat(ps[1..]), TableEntries(sprites, ps[1..], i), row);
    }
  }

  /** With every slope type drawn and every sprite present, no entry is absent. */
  lemma {:induction false} TableEntriesPresent<S>(sprites: map<int, S>, ps: seq<Prepared>, i: Orientation)
    requires forall gi | 0 <= gi < |ps| :: Complete(ps[gi], i)
    requires forall v | v in Flat(ps) :: v in sprites
    ensures forall p | 0 <= p < |TableEntries(sprites, ps, i)| :: TableEntries(sprites, ps, i)[p].Some?
  {
    if ps != [] {
      var g := ps[0];
      assert Complete(g, i);
      assert Flat(ps) == g.values + Flat(ps[1..]);
      forall jj | 0 <= jj < Zip(g) ensures GroupEntries(sprites, g, i)[jj].Some? {
        assert Source(g, jj, i).Some?;
        var k := Source(g, jj, i).value;
        var w := g.values[k];
        assert w in Flat(ps);
        assert Entry(sprites, g, jj, i) == Some(View(sprites[w], i));
      }
      forall gi | 0 <= gi < |ps[1..]| ensures Complete(ps[1..][gi], i) {
        assert ps[1..][gi] == ps[gi + 1];
      }
      TableEntriesPresent(sprites, ps[1..], i);
    }
  }

  /** Where the `jj`-th object of the `gi`-th group sits in the flattened lists. */
  function Start(ps: seq<Prepared>, gi: nat): nat
    requires gi <= |ps|
  {
    if gi == 0 then 0 else |ps[0].values| + Start(ps[1..], gi - 1)
  }

  lemma {:induction false} FlatIndex<S>(sprites: map<int, S>, ps: seq<Prepared>, i: Orientation, gi: nat, jj: nat)
    requires Zipped(ps) && gi < |ps| && jj < |ps[gi].values|
    ensures Start(ps, gi) + jj < |Flat(ps)| == |TableEntries(sprites, ps, i)|
    ensures Flat(ps)[Start(ps, gi) + jj] == ps[gi].values[jj]
    ensures TableEntries(sprites, ps, i)[Start(ps, gi) + jj] == Entry(sprites, ps[gi], jj, i)
  {
    TableEntriesLength(sprites, ps, i);
    assert Zipped(ps[1..]) by {
      forall g2 | 0 <= g2 < |ps[1..]| ensures Zip(ps[1..][g2]) == |ps[1..][g2].values| {
        assert ps[1..][g2] == ps[g2 + 1];
      }
    }
    if gi > 0 {
      assert ps[gi] == ps[1..][gi - 1];
      FlatIndex(sprites, ps[1..], i, gi - 1, jj);
    }
  }

  /** Row `i` after all the groups holds exactly their values, each drawn by
      its source variant, when the values are distinct and every sprite is
      present. */
  lemma RowTableContent<S>(sprites: map<int, S>, ps: seq<Prepared>, i: Orientation, row: map<int, View<S>>)
    requires forall gi | 0 <= gi < |ps| :: Complete(ps[gi], i)
    requires Distinct(Flat(ps))
    requires forall v | v in Flat(ps) :: v in sprites
    ensures forall v :: v in RowTable(sprites, ps, i, row) <==> v in row || v in Flat(ps)
    ensures forall gi, jj | 0 <= gi < |ps| && 0 <= jj < |ps[gi].values| ::
      (&& jj < Zip(ps[gi])
       && Entry(sprites, ps[gi], jj, i).Some?
       && ps[gi].values[jj] in RowTable(sprites, ps, i, row)
       && RowTable(sprites, ps, i, row)[ps[gi].values[jj]] == Entry(sprites, ps[gi], jj, i).value)
  {
    assert Zipped(ps);
    RowTableAssign(sprites, ps, i, row);
    TableEntriesPresent(sprites, ps, i);
    AssignContent(Flat(ps), TableEntries(sprites, ps, i), row);
    forall gi, jj | 0 <= gi < |ps| && 0 <= jj < |ps[gi].values|
      ensures && jj < Zip(ps[gi])
              && Entry(sprites, ps[gi], jj, i).Some?
              && ps[gi].values[jj] in RowTable(sprites, ps, i, row)
              && RowTable(sprites, ps, i, row)[ps[gi].values[jj]] == Entry(sprites, ps[gi], jj, i).value
    {
      FlatIndex(sprites, ps, i, gi, jj);
    }
  }

  // ---------------------------------------------------------------------------
  // When make_slopes fails, and what it returns

  /** At orientation 0 every slope type of the group is drawn by its own variant. */
  predicate Anchored(g: Prepared)
  {
    Zip(g) == |g.values| && forall k | 0 <= k < |g.values| :: Source(g, k, 0) == Some(k)
  }

  lemma PreparedAnchored(g: Prepared)
    requires PreparedWell(g)
    ensures Anchored(g)
  {
    forall k | 0 <= k < |g.values| ensures Source(g, k, 0) == Some(k) {
      SourceAtIdentity(g, k);
    }
  }

  /** The slope-type loop of a group whose variants draw themselves at the
      first target orientation fails exactly when one of the group's sprites
      is absent. */
  lemma {:induction false} GroupMissingFrom<S>(sprites: map<int, S>, symRI: seq<Orientation>, g: Prepared, j: nat)
    requires Anchored(g) && j <= |g.values| && 0 < |symRI| && symRI[0] == 0
    ensures (forall k | 0 <= k < |g.values| :: g.values[k] in sprites) ==> !GroupMissing(sprites, symRI, g, j)
    ensures !(forall k | j <= k < |g.values| :: g.values[k] in sprites) ==> GroupMissing(sprites, symRI, g, j)
    decreases |g.values| - j
  {
    if j < |g.values| {
      GroupMissingFrom(sprites, symRI, g, j + 1);
      if g.values[j] !in sprites {
        assert Missing(sprites, g, j, symRI[0]);
      }
    }
  }

  /** The group loop fails exactly when some slope value has no sprite. */
  lemma {:induction false} TableMissingIff<S>(sprites: map<int, S>, symRI: seq<Orientation>, ps: seq<Prepared>)
    requires forall gi | 0 <= gi < |ps| :: Anchored(ps[gi])
    requires 0 < |symRI| && symRI[0] == 0
    ensures TableMissing(sprites, symRI, ps) <==> !(forall v | v in Flat(ps) :: v in sprites)
  {
    if ps != [] {
      var g := ps[0];
      assert Anchored(g);
      assert Flat(ps) == g.values + Flat(ps[1..]);
      forall gi | 0 <= gi < |ps[1..]| ensures Anchored(ps[1..][gi]) {
        assert ps[1..][gi] == ps[gi + 1];
      }
      TableMissingIff(sprites, symRI, ps[1..]);
      GroupMissingFrom(sprites, symRI, g, 0);
      var allG := forall k | 0 <= k < |g.values| :: g.values[k] in sprites;
      var allR := forall v | v in Flat(ps[1..]) :: v in sprites;
      if allG && allR {
        forall v | v in Flat(ps) ensures v in sprites {
          if v in g.values {
            var k :| 0 <= k < |g.values| && g.values[k] == v;
          }
        }
      } else if !allG {
        var k :| 0 <= k < |g.values| && g.values[k] !in sprites;
        var w := g.values[k];
        assert w in Flat(ps);
      } else {
        var w :| w in Flat(ps[1..]) && w !in sprites;
        assert w in Flat(ps);
      }
    }
  }

  /** The render indices of a class start at 0 and repeat nothing. */
  lemma RenderIndicesDistinct(d: Descriptor)
    ensures 0 < |RenderIndices(d)| && RenderIndices(d)[0] == 0 && Distinct(RenderIndices(d))
  {
  }

  /** The six slope groups, prepared: well-formed, and together holding the
      19 distinct slope values. */
  lemma SlopeGroupsPrepared()
    ensures |PrepareAll(SlopeGroups)| == 6
    ensures forall gi | 0 <= gi < 6 :: PreparedWell(PrepareAll(SlopeGroups)[gi])
    ensures Flat(PrepareAll(SlopeGroups)) == SlopeValues() && Distinct(SlopeValues())
  {
    SlopeGroupsWellFormed();
    forall gi | 0 <= gi < 6 ensures PreparedWell(PrepareAll(SlopeGroups)[gi]) {
      PrepareWell(SlopeGroups[gi]);
    }
    FlatPrepareAll(SlopeGroups);
    SlopeTypesTable();
  }

  /** Every group of a table draws each of its slope types at every
      orientation, and the table's values are distinct and all have sprites. */
  predicate Drawable<S>(sprites: map<int, S>, ps: seq<Prepared>)
  {
    && (forall gi, i | 0 <= gi < |ps| && 0 <= i < 8 :: Complete(ps[gi], i))
    && Distinct(Flat(ps))
    && (forall v | v in Flat(ps) :: v in sprites)
  }

  /** Every row of `r` holds exactly the values of `ps`, and the `jj`-th
      value of the `gi`-th group is drawn, at orientation `i`, by view `i` of
      the sprite of its source variant. */
  ghost predicate Drawn<S>(sprites: map<int, S>, ps: seq<Prepared>, r: Table<S>)
  {
    && (forall i, v | i in r :: v in r[i] <==> v in Flat(ps))
    && (forall gi | 0 <= gi < |ps| :: Zip(ps[gi]) == |ps[gi].values|)
    && (forall i, gi, jj | i in r && 0 <= gi < |ps| && 0 <= jj < |ps[gi].values| ::
          && ps[gi].values[jj] in r[i]
          && Entry(sprites, ps[gi], jj, i) == Some(r[i][ps[gi].values[jj]]))
  }

  /** A table whose every row is what the groups write into an empty row is
      drawn as `Drawn` says. */
  lemma TableContent<S>(sprites: map<int, S>, ps: seq<Prepared>, r: Table<S>)
    requires Drawable(sprites, ps)
    requires forall i | i in r :: r[i] == RowTable(sprites, ps, i, map[])
    ensures Drawn(sprites, ps, r)
  {
    forall gi | 0 <= gi < |ps| ensures Zip(ps[gi]) == |ps[gi].values| {
      assert Complete(ps[gi], 0);
    }
    forall i | i in r ensures forall v :: v in r[i] <==> v in Flat(ps) {
      TableRowKeys(sprites, ps, r, i);
    }
    forall i, gi, jj | i in r && 0 <= gi < |ps| && 0 <= jj < |ps[gi].values|
      ensures && ps[gi].values[jj] in r[i]
              && Entry(sprites, ps[gi], jj, i) == Some(r[i][ps[gi].values[jj]])
    {
      TableContentAt(sprites, ps, r, i, gi, jj);
    }
  }

  /** One row of such a table. */
  lemma TableRowKeys<S>(sprites: map<int, S>, ps: seq<Prepared>, r: Table<S>, i: Orientation)
    requires Drawable(sprites, ps)
    requires forall i | i in r :: r[i] == RowTable(sprites, ps, i, map[])
    requires i in r
    ensures forall v :: v in r[i] <==> v in Flat(ps)
  {
    assert forall gi | 0 <= gi < |ps| :: Complete(ps[gi], i);
    RowTableContent(sprites, ps, i, map[]);
  }

  /** One entry of such a table. */
  lemma TableContentAt<S>(sprites: map<int, S>, ps: seq<Prepared>, r: Table<S>, i: Orientation, gi: int, jj: int)
    requires Drawable(sprites, ps)
    requires forall i | i in r :: r[i] == RowTable(sprites, ps, i, map[])
    requires i in r && 0 <= gi < |ps| && 0 <= jj < |ps[gi].values|
    ensures && jj < Zip(ps[gi])
            && ps[gi].values[jj] in r[i]
            && Entry(sprites, ps[gi], jj, i) == Some(r[i][ps[gi].values[jj]])
  {
    assert forall g2 | 0 <= g2 < |ps| :: Complete(ps[g2], i);
    RowTableContent(sprites, ps, i, map[]);
  }

  /** The six slope groups draw every slope type at every orientation. */
  lemma SlopeGroupsDrawable<S>(sprites: map<int, S>)
    requires forall v | v in SlopeValues() :: v in sprites
    ensures Drawable(sprites, PrepareAll(SlopeGroups))
  {
    var ps := PrepareAll(SlopeGroups);
    SlopeGroupsPrepared();
    forall gi, i | 0 <= gi < |ps| && 0 <= i < 8 ensures Complete(ps[gi], i) {
      SourcesComplete(ps[gi], i);
    }
  }

  /** `make_slopes` fails exactly when some slope value has no sprite, and
      otherwise each row is what the groups write into an empty row. */
  lemma MakeSlopesRows<S>(sprites: map<int, S>, sym: SymmetryClass)
    ensures MakeSlopes(sprites, sym).Ok? <==> forall v | v in SlopeValues() :: v in sprites
    ensures MakeSlopes(sprites, sym).Ok? ==> forall i | i in MakeSlopes(sprites, sym).value ::
      MakeSlopes(sprites, sym).value[i] == RowTable(sprites, PrepareAll(SlopeGroups), i, map[])
  {
    var symRI := RenderIndices(sym.Desc());
    var ps := PrepareAll(SlopeGroups);
    RenderIndicesDistinct(sym.Desc());
    SlopeGroupsPrepared();
    forall gi | 0 <= gi < |ps| ensures Anchored(ps[gi]) {
      PreparedAnchored(ps[gi]);
    }
    var ret := EmptyTable<S>(symRI);
    FillTableRows(sprites, symRI, ps, ret);
    TableMissingIff(sprites, symRI, ps);
    assert MakeSlopes(sprites, sym) == FillTable(sprites, symRI, ps, ret);
  }

  /** `make_slopes(sprites, sym)` raises KeyError exactly when some slope type
      has no sprite; otherwise each row of the result holds exactly the 19
      slope types, and the `jj`-th type of the `gi`-th group is drawn, at
      orientation `i`, by view `i` of the sprite of the group's variant that
      the inner loop finds. */
  lemma MakeSlopesTable<S>(sprites: map<int, S>, sym: SymmetryClass)
    ensures Flat(PrepareAll(SlopeGroups)) == SlopeValues()
    ensures MakeSlopes(sprites, sym).Ok? <==> forall v | v in SlopeValues() :: v in sprites
    ensures MakeSlopes(sprites, sym).Ok? ==> Drawn(sprites, PrepareAll(SlopeGroups), MakeSlopes(sprites, sym).value)
  {
    MakeSlopesRows(sprites, sym);
    FlatPrepareAll(SlopeGroups);
    if MakeSlopes(sprites, sym).Ok? {
      SlopeGroupsDrawable(sprites);
      TableContent(sprites, PrepareAll(SlopeGroups), MakeSlopes(sprites, sym).value);
    }
  }

  // ---------------------------------------------------------------------------
  // The expectations of the slope tests

  /** Where a value of prepared groups comes from. */
  lemma {:induction false} FlatPosition(ps: seq<Prepared>, v: int) returns (gi: nat, jj: nat)
    requires v in Flat(ps)
    ensures gi < |ps| && jj < |ps[gi].values| && ps[gi].values[jj] == v
  {
    assert Flat(ps) == ps[0].values + Flat(ps[1..]);
    if v in ps[0].values {
      var k :| 0 <= k < |ps[0].values| && ps[0].values[k] == v;
      gi, jj := 0, k;
    } else {
      var g1, j1 := FlatPosition(ps[1..], v);
      assert ps[1..][g1] == ps[g1 + 1];
      gi, jj := g1 + 1, j1;
    }
  }

  /** In a drawn table whose groups draw themselves at orientation 0, row 0
      maps each value to view 0 of its own sprite. */
  lemma RowZero<S>(sprites: map<int, S>, ps: seq<Prepared>, r: Table<S>)
    requires Drawn(sprites, ps, r) && 0 in r
    requires forall gi | 0 <= gi < |ps| :: Anchored(ps[gi])
    requires forall v | v in Flat(ps) :: v in sprites
    ensures forall v | v in Flat(ps) :: v in r[0] && r[0][v] == View(sprites[v], 0)
  {
    forall v | v in Flat(ps) ensures v in r[0] && r[0][v] == View(sprites[v], 0) {
      var gi, jj := FlatPosition(ps, v);
      assert Anchored(ps[gi]);
      assert Entry(sprites, ps[gi], jj, 0) == Some(r[0][v]);
    }
  }

  /** With every sprite present, row 0 of `make_slopes` maps each slope value
      to its own sprite, whatever the target class. */
  lemma SlopesAtIdentity<S>(sprites: map<int, S>, sym: SymmetryClass)
    requires forall v | v in SlopeValues() :: v in sprites
    ensures MakeSlopes(sprites, sym).Ok? && 0 in MakeSlopes(sprites, sym).value
    ensures forall v | v in SlopeValues() ::
      v in MakeSlopes(sprites, sym).value[0] && MakeSlopes(sprites, sym).value[0][v] == View(sprites[v], 0)
  {
    MakeSlopesTable(sprites, sym);
    RenderIndicesDistinct(sym.Desc());
    SlopeGroupsPrepared();
    var ps := PrepareAll(SlopeGroups);
    forall gi | 0 <= gi < |ps| ensures Anchored(ps[gi]) {
      PreparedAnchored(ps[gi]);
    }
    RowZero(sprites, ps, MakeSlopes(sprites, sym).value);
  }

  /** The flat, ortho, mono and tri groups, prepared. */
  lemma PreparedSlopeGroups()
    ensures PrepareAll(SlopeGroups)[0] == Prepared(Cylindrical.Desc(), [0], [0])
    ensures PrepareAll(SlopeGroups)[1] == Prepared(SymmetricalY.Desc(), [0, 1, 2, 3], [3, 6, 12, 9])
    ensures PrepareAll(SlopeGroups)[3] == Prepared(DiagonalAlt.Desc(), [0, 1, 2, 4], [1, 4, 8, 2])
    ensures PrepareAll(SlopeGroups)[4] == Prepared(Diagonal.Desc(), [0, 2, 3, 6], [7, 14, 11, 13])
  {
  }

  /** The variants the inner loop picks for the entries the tests name. */
  lemma SlopeSources()
    ensures Source(Prepared(Cylindrical.Desc(), [0], [0]), 0, 1) == Some(0)
    ensures Source(Prepared(SymmetricalY.Desc(), [0, 1, 2, 3], [3, 6, 12, 9]), 0, 1) == Some(1)
    ensures Source(Prepared(SymmetricalY.Desc(), [0, 1, 2, 3], [3, 6, 12, 9]), 0, 2) == Some(2)
    ensures Source(Prepared(DiagonalAlt.Desc(), [0, 1, 2, 4], [1, 4, 8, 2]), 0, 1) == Some(1)
    ensures Source(Prepared(Diagonal.Desc(), [0, 2, 3, 6], [7, 14, 11, 13]), 0, 1) == Some(0)
    ensures Source(Prepared(Diagonal.Desc(), [0, 2, 3, 6], [7, 14, 11, 13]), 0, 2) == Some(1)
    ensures Source(Prepared(Diagonal.Desc(), [0, 2, 3, 6], [7, 14, 11, 13]), 0, 3) == Some(1)
  {
  }

  /** The first value of a group of a drawn table is drawn, at orientation
      `i`, by the sprite of the variant the inner loop picks. */
  lemma FirstEntry<S>(sprites: map<int, S>, ps: seq<Prepared>, r: Table<S>, gi: nat, i: Orientation, k: nat)
    requires Drawn(sprites, ps, r) && i in r && gi < |ps| && k < |ps[gi].values|
    requires Zip(ps[gi]) == |ps[gi].values| && Source(ps[gi], 0, i) == Some(k) && ps[gi].values[k] in sprites
    ensures ps[gi].values[0] in r[i] && r[i][ps[gi].values[0]] == View(sprites[ps[gi].values[k]], i)
  {
    assert Entry(sprites, ps[gi], 0, i) == Some(r[i][ps[gi].values[0]]);
  }

  /** The entry `test_x` names, in any drawn table over the six groups. */
  lemma XEntries<S>(sprites: map<int, S>, ps: seq<Prepared>, r: Table<S>)
    requires Drawn(sprites, ps, r) && 1 in r && 0 < |ps| && 0 in sprites
    requires ps[0] == Prepared(Cylindrical.Desc(), [0], [0])
    ensures 0 in r[1] && r[1][0] == View(sprites[0], M)
  {
    SlopeSources();
    FirstEntry(sprites, ps, r, 0, 1, 0);
  }

  /** The entries `test_full` names, in any drawn table over the six groups. */
  lemma FullEntries<S>(sprites: map<int, S>, ps: seq<Prepared>, r: Table<S>)
    requires Drawn(sprites, ps, r) && 1 in r && 2 in r && 3 in r && 4 < |ps|
    requires 4 in sprites && 12 in sprites && 6 in sprites && 7 in sprites && 14 in sprites
    requires ps[1] == Prepared(SymmetricalY.Desc(), [0, 1, 2, 3], [3, 6, 12, 9])
    requires ps[3] == Prepared(DiagonalAlt.Desc(), [0, 1, 2, 4], [1, 4, 8, 2])
    requires ps[4] == Prepared(Diagonal.Desc(), [0, 2, 3, 6], [7, 14, 11, 13])
    ensures 1 in r[1] && 3 in r[1] && 7 in r[1] && 3 in r[2] && 7 in r[2] && 7 in r[3]
    ensures && r[1][1] == View(sprites[4], 1)
            && r[2][3] == View(sprites[12], 2)
            && r[1][3] == View(sprites[6], 1)
            && r[1][7] == View(sprites[7], 1)
            && r[2][7] == View(sprites[14], 2)
            && r[3][7] == View(sprites[14], 3)
  {
    SlopeSources();
    FirstEntry(sprites, ps, r, 3, 1, 1);
    FirstEntry(sprites, ps, r, 1, 2, 2);
    FirstEntry(sprites, ps, r, 1, 1, 1);
    FirstEntry(sprites, ps, r, 4, 1, 0);
    FirstEntry(sprites, ps, r, 4, 2, 1);
    FirstEntry(sprites, ps, r, 4, 3, 1);
  }

  /** In a drawn table every row holds every value. */
  lemma RowsHoldAll<S>(sprites: map<int, S>, ps: seq<Prepared>, r: Table<S>, keys: set<Orientation>)
    requires Drawn(sprites, ps, r) && forall i | i in keys :: i in r
    ensures forall i, v | i in keys && v in Flat(ps) :: i in r && v in r[i]
  {
  }

  /** `test_x`: against `BuildingSymmetricalX` every slope type is in rows 1,
      4 and 5, and row 1 draws the flat slope with the M view of its sprite. */
  lemma SlopesSymmetricalX<S>(sprites: map<int, S>, sym: SymmetryClass)
    requires sym == SymmetricalX
    requires forall v | v in SlopeValues() :: v in sprites
    ensures MakeSlopes(sprites, sym).Ok?
    ensures forall i, v | i in {1, 4, 5} && v in SlopeValues() ::
      i in MakeSlopes(sprites, sym).value && v in MakeSlopes(sprites, sym).value[i]
    ensures 1 in MakeSlopes(sprites, sym).value && 0 in MakeSlopes(sprites, sym).value[1]
    ensures MakeSlopes(sprites, sym).value[1][0] == View(sprites[0], M)
  {
    MakeSlopesTable(sprites, sym);
    RenderIndicesOf(sym);
    var ps, r := PrepareAll(SlopeGroups), MakeSlopes(sprites, sym).value;
    assert forall i :: i in r <==> i in [0, 1, 4, 5];
    PreparedSlopeGroups();
    RowsHoldAll(sprites, ps, r, {1, 4, 5});
    assert SlopeValues()[0] == 0 by {
      SlopeValuesListed();
    }
    XEntries(sprites, ps, r);
  }

  /** A drawn table with a row for every orientation holds every value in
      every row. */
  lemma FullRows<S>(sprites: map<int, S>, ps: seq<Prepared>, r: Table<S>)
    requires Drawn(sprites, ps, r)
    requires forall i :: i in r <==> i in [0, 1, 2, 3, 4, 5, 6, 7]
    ensures forall i | 0 <= i < 8 :: i in r
    ensures forall i, v | 0 <= i < 8 && v in Flat(ps) :: v in r[i]
  {
    forall i | 0 <= i < 8 ensures i in r {
      assert [0, 1, 2, 3, 4, 5, 6, 7][i] == i;
    }
  }

  /** `test_full`, first half: against `BuildingFull` every slope type is in
      every row. */
  lemma SlopesFullRows<S>(sprites: map<int, S>, sym: SymmetryClass)
    requires sym == Full
    requires forall v | v in SlopeValues() :: v in sprites
    ensures MakeSlopes(sprites, sym).Ok?
    ensures forall i | 0 <= i < 8 :: i in MakeSlopes(sprites, sym).value
    ensures forall i, v | 0 <= i < 8 && v in SlopeValues() :: v in MakeSlopes(sprites, sym).value[i]
  {
    MakeSlopesTable(sprites, sym);
    RenderIndicesOf(sym);
    FullRows(sprites, PrepareAll(SlopeGroups), MakeSlopes(sprites, sym).value);
  }

  /** `test_full`, second half: six entries are the views the test names. */
  lemma SlopesFull<S>(sprites: map<int, S>, sym: SymmetryClass)
    requires sym == Full
    requires forall v | v in SlopeValues() :: v in sprites
    ensures MakeSlopes(sprites, sym).Ok? && 1 in MakeSlopes(sprites, sym).value
    ensures 2 in MakeSlopes(sprites, sym).value && 3 in MakeSlopes(sprites, sym).value
    ensures 1 in MakeSlopes(sprites, sym).value[1] && 3 in MakeSlopes(sprites, sym).value[1]
    ensures 7 in MakeSlopes(sprites, sym).value[1] && 3 in MakeSlopes(sprites, sym).value[2]
    ensures 7 in MakeSlopes(sprites, sym).value[2] && 7 in MakeSlopes(sprites, sym).value[3]
    ensures && MakeSlopes(sprites, sym).value[1][1] == View(sprites[4], 1)
            && MakeSlopes(sprites, sym).value[2][3] == View(sprites[12], 2)
            && MakeSlopes(sprites, sym).value[1][3] == View(sprites[6], 1)
            && MakeSlopes(sprites, sym).value[1][7] == View(sprites[7], 1)
            && MakeSlopes(sprites, sym).value[2][7] == View(sprites[14], 2)
            && MakeSlopes(sprites, sym).value[3][7] == View(sprites[14], 3)
  {
    MakeSlopesTable(sprites, sym);
    RenderIndicesOf(sym);
    var ps, r := PrepareAll(SlopeGroups), MakeSlopes(sprites, sym).value;
    assert 1 in r && 2 in r && 3 in r;
    PreparedSlopeGroups();
    FullEntries(sprites, ps, r);
  }
}
