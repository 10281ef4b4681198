# agrf building core in Dafny

This project models the integer logic that agrf, a Python toolkit for building
OpenTTD NewGRF graphics, uses to turn authored building sprites into the eight
screen orientations and to paint the sprites of one tile back to front. The
model is purely functional. Every Python exception the modelled code can raise
becomes an `Err` of the `Wrappers.Result` datatype: `KeyError`, `IndexError`,
`ValueError`, `TypeError`, `AttributeError` and `AssertionError`. The one
exception is the demo grid's `to_layout`, which calls `demo_filter` and
`demo_translate` on each tile. The model keeps each tile as an opaque value,
so whatever those calls raise is not modelled (see "## Left out").

The modules follow the Python files:

- `Symmetry` (`symmetry.dfy`) covers the orientation group and symmetry
  descriptors from `agrf/lib/building/symmetry.py`.
  - An orientation is `0..7`, made of the generator bits M=1, R=2 and T=4.
  - A descriptor is an 8-entry partition of the orientations.
  - Also modelled: `compose_symmetry_indices`, `render_indices`,
    canonicalisation, `join`, `meet`, the break/add helpers,
    `chirality_indices`, `rotational_view_indices`, `canonical_index`, the ten
    built-in classes and the seven-entry `_type_pool`.
- `Variants` (`variants.dfy`) covers `create_variants` and link chasing.
  - Object identity is an index into a sequence of `Variant`s, each holding its
    payload and the indices of its M, R and T siblings.
  - Also modelled: `symmetry_item`, `symmetry_index`, `get_all_variants`,
    `rotational_views`, `chiralities` and `get_all_entries`.
- `Slope` (`slope.dfy`) covers the slope-type table and `make_slopes` from
  `agrf/lib/building/slope.py`.
- `Layout` (`layout.dfy`) covers the bounding-box geometry and the depth
  sorter of `agrf/lib/building/layout.py`.
  - Geometry: the `BBoxPosition` T/R/M transforms, `pushdown`, `move` and
    `up`, and the ground and pixel-offset positions.
  - Sprites: child-sprite addition and register filtering, and the sprite-id
    remap of `DefaultGraphics.graphics`.
  - Sorting: `overlaps`, `is_in_front` and `ALayout.sorted_parent_sprites`.
- `Parameters` (`parameters.dfy`) covers the NewGRF parameters of
  `agrf/parameters/parameters.py`:
  - reverse enum lookup, `limits`, `range` and `code`;
  - list indexing, and preset id allocation with its lookups;
  - the `SearchSpace` enumeration and its `desc` string.
- `Demo` (`demo.dfy`) covers the demo grid of `agrf/lib/building/demo.py`:
  render-context inference, the `T` and `M` grid transforms, and the tile
  translation in `to_layout`.
- `Pool` (`pool.dfy`) covers `dedup` in `agrf/global_cache/pool.py`.
- `Config` (`config.dfy`) covers the config dictionary of
  `agrf/gorender/__init__.py`: construction, `subset` and the cached
  `final_config`.
- `Actions` (`actions.dfy`) covers the sprite-set ids and references of
  `FakeReferencingGenericSpriteLayout` in `agrf/actions.py`.

## Behaviour worth knowing

- **Boxes that do not meet on screen stay in input order.** The unit boxes at
  `(0,0,0)` and `(2,2,0)` have disjoint `2x - z` intervals. Neither is in
  front of the other, so the sorter keeps them in input order
  (`Layout.SideBySideUnordered`).
- **Pairs are not always ordered exactly one way.**
  - Two flat, non-ground boxes at the same height that meet on screen are
    each in front of the other (`Layout.FlatTwinsInFront`), so sorting them
    fails (`Layout.FlatTwinsFail`).
  - Three solid boxes that do not overlap in 3D can each be in front of the
    next (`Layout.InFrontCycle`), and such a layout fails (`Layout.CyclicLayoutFails`).
- **`join` and `meet` only look up the registry; they never add to it.** A
  canonical result outside the seven registered descriptors raises
  `KeyError`. Rotational4, DiagonalAlt and Diamond are never found.
- **`meet` computes the finest common coarsening.** Its merge loop is proved
  to yield the finest partition that both arguments refine.

Two properties hold only under a side condition:

- `SearchSpace.desc` joins option positions without a separator. It therefore
  identifies a variation only while every choice has at most ten options.
  `Parameters.DescAmbiguous` exhibits two different variations with the same
  `desc`.
- `Demo.M` goes through `zip`, which truncates ragged rows to the shortest
  one. So `M` applied twice restores only rectangular grids
  (`Demo.DemoMDropsOverhang`).

## Model

| member | source | states |
|---|---|---|
| `Symmetry.ComposeIdentity` | agrf/lib/building/symmetry.py:206-210 | orientation 0 is a two-sided identity of `compose_symmetry_indices` |
| `Symmetry.ComposeAssociative` | agrf/lib/building/symmetry.py:206-210 | composing orientations is associative |
| `Symmetry.ComposeFacts` | agrf/lib/building/symmetry.py:206-210 | composition is not commutative (M∘R = 5, R∘M = 3), and M, R and T are each their own inverse |
| `Symmetry.ComposeAsBits` | agrf/lib/building/symmetry.py:206-210 | the integer XOR form of `compose_symmetry_indices` agrees with a 3-bit swap-then-xor group law |
| `Symmetry.Inverse` | agrf/lib/building/symmetry.py:206-210 | every orientation has a two-sided inverse, so the eight orientations form a group |
| `Symmetry.ComposeGenerators` | agrf/lib/building/symmetry.py:175-190 | every orientation is T, then R, then M applied in that order, each generator used or not, as `symmetry_item` decomposes it |
| `Symmetry.ComposeProper` | agrf/lib/building/symmetry.py:148-155 | the rotations {0,3,5,6} (even bit count) form a subgroup: a composite is a rotation iff both parts are, or neither |
| `Symmetry.FirstIndex` | agrf/lib/building/symmetry.py:91-100 | the first orientation carrying the class of `i` is at or before `i` |
| `Symmetry.SameLabelIff` | agrf/lib/building/symmetry.py:59-67 | two positions receive the same canonical label iff they carry the same class |
| `Symmetry.CanonicalLabelBound` | agrf/lib/building/symmetry.py:59-67 | canonical labels are below the number of distinct classes |
| `Symmetry.NewCountIsLabelCount` | agrf/lib/building/symmetry.py:91-100 | the number of first appearances in a prefix equals the number of distinct values in it |
| `Symmetry.CanonStep` | agrf/lib/building/symmetry.py:63-66 | one loop step of `__canonicalize_descriptor` emits the first-appearance label and keeps the assignment invariant |
| `Symmetry.Canonicalize` | agrf/lib/building/symmetry.py:59-67 | each position is relabelled with the first-appearance rank of its class |
| `Symmetry.CanonicalizeSameClasses` | agrf/lib/building/symmetry.py:59-67 | canonicalisation keeps the partition |
| `Symmetry.CanonicalizeOnlyPartition` | agrf/lib/building/symmetry.py:59-67 | two descriptors with the same partition canonicalise to the same tuple |
| `Symmetry.CanonicalizeIdempotent` | agrf/lib/building/symmetry.py:59-67 | a canonicalised descriptor is already canonical |
| `Symmetry.RestrictedGrowthCanonical` | agrf/lib/building/symmetry.py:59-67 | a descriptor whose every new value is the next unused label is canonical |
| `Symmetry.RenderIndices` | agrf/lib/building/symmetry.py:91-100 | `render_indices` starts at 0, strictly increases, lists exactly the first orientation of each class, and has one entry per class |
| `Symmetry.RenderIndicesCount` | agrf/lib/building/symmetry.py:91-100 | the length of `render_indices` is the number of distinct descriptor values, and no two entries share a class |
| `Symmetry.CanonicalRenderLabels` | agrf/lib/building/symmetry.py:91-100 | for a canonical descriptor the k-th render index carries class k, and every class is below the number of render indices |
| `Symmetry.RenderIndicesFromLabels` | agrf/lib/building/symmetry.py:91-100 | for a canonical descriptor, the render indices are the unique list of first orientations indexed by class |
| `Symmetry.CanonicalIndex` | agrf/lib/building/symmetry.py:198-204 | `canonical_index(i)` is the smallest orientation in the class of `i`, and it is a render index |
| `Symmetry.PoolLookup` | agrf/lib/building/symmetry.py:255-261 | a `_type_pool` hit returns the class with exactly that descriptor, and a miss raises KeyError |
| `Symmetry.PoolRegistersSevenClasses` | agrf/lib/building/symmetry.py:255-261 | exactly seven built-in classes are registered; Rotational4, DiagonalAlt and Diamond are not |
| `Symmetry.BuiltinsCanonical` | agrf/lib/building/symmetry.py:215-252 | every built-in descriptor is already canonical |
| `Symmetry.RenderIndicesOf` | agrf/lib/building/symmetry.py:215-252 | the render indices of each built-in class, written out |
| `Symmetry.BuiltinsConsistent` | agrf/lib/building/symmetry.py:215-252 | every built-in descriptor respects the group action: equal classes stay equal under any further orientation |
| `Symmetry.JoinDescriptor` | agrf/lib/building/symmetry.py:102-106 | two orientations share a class of the join iff they share one in both inputs, and the result is canonical |
| `Symmetry.JoinDescriptorGreatest` | agrf/lib/building/symmetry.py:102-106 | the join refines both inputs and is the coarsest partition that does |
| `Symmetry.Join` | agrf/lib/building/symmetry.py:102-106 | `join` refines both classes exactly, and fails iff the canonical pair descriptor is not registered |
| `Symmetry.JoinIsMeetOfPartitions` | agrf/lib/building/symmetry.py:102-106 | a successful `join` is the coarsest registered common refinement |
| `Symmetry.MeetLoopCoarsens` | agrf/lib/building/symmetry.py:110-128 | the merge loop of `meet` puts together every two orientations that either input puts together |
| `Symmetry.MeetLoopFinest` | agrf/lib/building/symmetry.py:110-128 | the merge loop merges nothing beyond what any common coarsening merges |
| `Symmetry.MeetDescriptor` | agrf/lib/building/symmetry.py:108-130 | the canonicalised merge result is the finest common coarsening of both inputs |
| `Symmetry.Meet` | agrf/lib/building/symmetry.py:108-130 | `meet` coarsens both classes minimally, and fails iff the result is not registered |
| `Symmetry.BreakXSymmetry` | agrf/lib/building/symmetry.py:132-134 | breaking X symmetry separates orientations that differ in `i % 4`, and raises KeyError when unregistered |
| `Symmetry.BreakYSymmetry` | agrf/lib/building/symmetry.py:136-138 | breaking Y symmetry separates orientations in different halves or with different M bits |
| `Symmetry.AddXSymmetry` | agrf/lib/building/symmetry.py:140-142 | adding X symmetry identifies each orientation with its R-flip, minimally |
| `Symmetry.AddYSymmetry` | agrf/lib/building/symmetry.py:144-146 | adding Y symmetry identifies each orientation with its T-flip, minimally |
| `Symmetry.SymmetricalXClasses` | agrf/lib/building/symmetry.py:219-220 | the classes of SymmetricalX, described arithmetically, are closed under R |
| `Symmetry.SymmetricalYClasses` | agrf/lib/building/symmetry.py:223-224 | the classes of SymmetricalY are `i % 4`, closed under T |
| `Symmetry.CanonicalUnique` | agrf/lib/building/symmetry.py:59-67 | two canonical descriptors with the same partition are equal |
| `Symmetry.JoinDescriptorAbsorbs` | agrf/lib/building/symmetry.py:102-106 | the join of a canonical descriptor with a coarser one is the finer one, in either order |
| `Symmetry.MeetDescriptorAbsorbs` | agrf/lib/building/symmetry.py:108-130 | the meet of a descriptor with a coarser canonical one is the coarser one, in either order |
| `Symmetry.JoinAbsorbs` | agrf/lib/building/symmetry.py:102-106 | joining a registered class with a coarser one gives back the finer class, in either order |
| `Symmetry.MeetAbsorbs` | agrf/lib/building/symmetry.py:108-130 | meeting a class with a coarser registered one gives back the coarser class, in either order |
| `Symmetry.BreakXOfCoarser` | agrf/lib/building/symmetry.py:132-134 | breaking X symmetry of any class coarser than SymmetricalY gives SymmetricalY |
| `Symmetry.BreakYOfCoarser` | agrf/lib/building/symmetry.py:136-138 | breaking Y symmetry of any class coarser than SymmetricalX gives SymmetricalX |
| `Symmetry.AddXOfFiner` | agrf/lib/building/symmetry.py:140-142 | adding X symmetry to any class finer than SymmetricalX gives SymmetricalX |
| `Symmetry.AddYOfFiner` | agrf/lib/building/symmetry.py:144-146 | adding Y symmetry to any class finer than SymmetricalY gives SymmetricalY |
| `Symmetry.BuiltinRefinements` | agrf/lib/building/symmetry.py:215-252 | Full refines every descriptor, every descriptor refines Cylindrical, and both single-axis classes refine Symmetrical |
| `Symmetry.IsSymmetricalYIff` | agrf/lib/building/symmetry.py:55-57 | `is_symmetrical_y` holds iff the two halves agree, iff the class is coarser than SymmetricalY |
| `Symmetry.AddYSymmetryKeeps` | agrf/lib/building/symmetry.py:144-146 | adding Y symmetry to a registered Y-symmetrical class changes nothing |
| `Symmetry.ChiralityIndices` | agrf/lib/building/symmetry.py:148-155 | `chirality_indices` is `[0]` or `[0, 2]` |
| `Symmetry.ChiralityIff` | agrf/lib/building/symmetry.py:148-155 | for a consistent descriptor it is `[0]` iff some mirrored orientation shares the class of 0; with `[0, 2]` the two entries show different classes |
| `Symmetry.MirrorTwin` | agrf/lib/building/symmetry.py:148-155 | when a mirrored orientation shares the class of 0, every class holds both a mirrored and an unmirrored orientation |
| `Symmetry.RotationalViewIndices` | agrf/lib/building/symmetry.py:157-165 | `rotational_view_indices` is `[0]`, `[0, 3]` or `[0, 3, 6, 5]` |
| `Symmetry.RotationPairs` | agrf/lib/building/symmetry.py:157-165 | under the group action, rotations 3, 5 and 6 split the class of 0 in only the three patterns the code distinguishes |
| `Symmetry.RotationalViewsComplete` | agrf/lib/building/symmetry.py:157-165 | the returned views show every rotation class exactly once |
| `Variants.LinkLabels` | agrf/lib/building/symmetry.py:9-16 | the M, R and T links of the object at render index `idx` go to the classes of `idx` composed with M, R and T; the code's odd-index R/T swap is exactly composition |
| `Variants.CreateVariants` | agrf/lib/building/symmetry.py:3-18 | AssertionError iff the object count differs from the render-index count, IndexError iff a link class is out of range, otherwise one linked variant per object carrying its payload |
| `Variants.CreateVariantsCanonical` | agrf/lib/building/symmetry.py:3-18 | for a canonical descriptor and the right count, `create_variants` succeeds |
| `Variants.CreatedVariantsCoherent` | agrf/lib/building/symmetry.py:3-18 | for a canonical, consistent descriptor the links of variant `d[x]` lead to `d[x∘g]` for every orientation x |
| `Variants.SymmetryItem` | agrf/lib/building/symmetry.py:175-190 | `symmetry_item(o, 0)` is `o`, and 1, 2 and 4 follow the M, R and T links |
| `Variants.FollowLink` | agrf/lib/building/symmetry.py:20-30 | following generator g from variant `d[x]` reaches variant `d[x∘g]` |
| `Variants.ItemIsLabel` | agrf/lib/building/symmetry.py:175-190 | `symmetry_item(d[x], i)` is variant `d[x∘i]` |
| `Variants.ItemAction` | agrf/lib/building/symmetry.py:175-190 | group-action law: item j of item i is item `i∘j` |
| `Variants.LinksAreInvolutions` | agrf/lib/building/symmetry.py:10-16 | M, R and T are involutions on the variant set |
| `Variants.RepresentativeViews` | agrf/lib/building/symmetry.py:175-190 | viewing the representative in orientation i gives variant `d[i]` |
| `Variants.AllVariantsIsInput` | agrf/lib/building/symmetry.py:32-34 | `all_variants` of the representative is the input list in order |
| `Variants.SymmetryIndexFrom` | agrf/lib/building/symmetry.py:192-196 | the scan from i returns the first orientation whose view is `other`, and KeyError iff none from i on matches |
| `Variants.SymmetryIndex` | agrf/lib/building/symmetry.py:192-196 | `symmetry_index` is the smallest orientation viewing `other`, and KeyError iff none of the 8 does |
| `Variants.SymmetryIndexOfRepresentative` | agrf/lib/building/symmetry.py:192-196 | from the representative, variant k is found at the k-th render index, and an index past the variants raises KeyError |
| `Variants.ViewsAreLabels` | agrf/lib/building/symmetry.py:167-173 | in a coherent variant set, the view of variant `d[x]` at each listed index i is variant `d[x∘i]` |
| `Variants.GetAllVariantsFrom` | agrf/lib/building/symmetry.py:32-34 | `get_all_variants` of variant `d[x]` lists variant `d[x∘i]` for each render index i, in order |
| `Variants.RotationalViewsEntries` | agrf/lib/building/symmetry.py:157-169 | every entry of `rotational_views` of any variant is one of its rotations, and no variant appears twice |
| `Variants.RotationalViewsCover` | agrf/lib/building/symmetry.py:157-169 | every rotation of a variant is among its `rotational_views` |
| `Variants.ChiralityLabels` | agrf/lib/building/symmetry.py:148-155 | seen from any orientation x, the chirality indices pick the look of x and, when there are two, the look of x∘R, which then differs |
| `Variants.ChiralityLabelList` | agrf/lib/building/symmetry.py:171-173 | a list of the looks of x composed with each chirality index is `[d[x]]` or `[d[x], d[x∘R]]` with distinct entries |
| `Variants.MirroredSelfView` | agrf/lib/building/symmetry.py:148-155 | a variant is one of its own mirrored views iff, seen from its orientation, some mirrored orientation looks like the identity |
| `Variants.ChiralitiesShape` | agrf/lib/building/symmetry.py:171-173 | `chiralities` of any variant is the variant alone, or the variant and its R view, which then differ |
| `Variants.ChiralitiesFrom` | agrf/lib/building/symmetry.py:171-173 | `chiralities` of any variant is `[v]` exactly when some mirrored view of v is v itself, and otherwise `[v, v.R]` with `v.R` different from v |
| `Symmetry.ShiftRotationalViews` | agrf/lib/building/symmetry.py:157-165 | the rotational view indices, read from any orientation x, pick looks that are pairwise distinct and cover every rotation of x |
| `Symmetry.ShiftChiralities` | agrf/lib/building/symmetry.py:148-155 | seen from any orientation x, there is one chirality iff a mirrored orientation looks like x, and otherwise x and x∘R look different |
| `Variants.GetAllEntries` | agrf/lib/building/symmetry.py:36-44 | `get_all_entries` starts with the object and doubles once for R and once for T |
| `Variants.EntriesLinks` | agrf/lib/building/symmetry.py:36-44 | the entries are the object, its R, its T and its R.T, as the two conditions allow |
| `Variants.EntriesLabels` | agrf/lib/building/symmetry.py:36-44 | from the representative of a coherent variant set, the entries are the variants labelled by the even orientations the two tests keep |
| `Variants.EvenLooks` | agrf/lib/building/symmetry.py:40-43 | for a consistent descriptor the T test compares the same pairs the R test leaves open |
| `Variants.EntriesAreEvenViews` | agrf/lib/building/symmetry.py:36-44 | from the representative, the entries are the distinct variants at orientations 0, 2, 4 and 6 |
| `Variants.TwoLookLinks` | agrf/lib/building/symmetry.py:10-16 | with two looks told apart only by M, R and T link each look to itself, and M swaps the two |
| `Variants.SymmetricalLinks` | agrf/lib/building/layout_test.py:168-175 | for the Symmetrical class, `g is g.R`, `g is g.T` and `g is g.M.M` |
| `Slope.Offsets` | agrf/lib/building/slope.py:11-12 | each slope type's `offset`, position by position |
| `Slope.SlopeValuesListed` | agrf/lib/building/slope.py:16-24 | the six groups list the 19 slope values in order |
| `Slope.SlopeOffsetsListed` | agrf/lib/building/slope.py:11-12 | 29, 23, 27 and 30 map to 15, 16, 17 and 18, and every other value maps to itself |
| `Slope.SlopeOffsetsCover` | agrf/lib/building/slope.py:11-12 | every sprite offset 0..18 belongs to some slope type |
| `Slope.SlopeTypesTable` | agrf/lib/building/slope.py:16-24 | 19 slope types with distinct values and distinct offsets, the offsets being exactly 0..18 |
| `Slope.SlopeGroupsWellFormed` | agrf/lib/building/slope.py:16-21 | each group supplies exactly as many slope types as its class has render indices |
| `Slope.BuiltinGroupWellFormed` | agrf/lib/building/slope.py:16-21 | a group built by `create_variants` with one slope type per render index is well formed |
| `Slope.PreparedSlopeGroups` | agrf/lib/building/slope.py:16-21 | the flat, ortho, mono and tri groups pair their classes' render indices with the slope values 0; 3, 6, 12, 9; 1, 4, 8, 2; and 7, 14, 11, 13 |
| `Slope.SlopeSources` | agrf/lib/building/slope.py:33-39 | worked sources: under orientation 1, ortho slope 3 takes its sprite from slope 6, mono slope 1 from slope 4, and tri slope 7 from itself |
| `Slope.FindMatch` | agrf/lib/building/slope.py:33-39 | the inner loop finds the first render index whose composed class matches, or none |
| `Slope.SourceExists` | agrf/lib/building/slope.py:31-39 | within a well-formed group a matching slope type always exists |
| `Slope.SourceAtIdentity` | agrf/lib/building/slope.py:31-39 | at orientation 0 every slope type is its own source |
| `Slope.FillViews` | agrf/lib/building/slope.py:32-38 | one pass over the target orientations keeps the result's keys, and raises KeyError for a missing sprite |
| `Slope.FillViewsRows` | agrf/lib/building/slope.py:32-38 | the pass fails iff a needed sprite is missing; otherwise it writes exactly the visited rows |
| `Slope.FillGroupRows` | agrf/lib/building/slope.py:31-39 | a group's loop fails iff a needed sprite is missing, and otherwise updates each row by the group's entries |
| `Slope.FillTableRows` | agrf/lib/building/slope.py:30-39 | the loop over all groups fails iff a needed sprite is missing, and otherwise fills each row group by group |
| `Slope.MakeSlopes` | agrf/lib/building/slope.py:27-45 | the result's keys are exactly `sym.render_indices()`, and the only failure is KeyError |
| `Slope.MakeSlopesRows` | agrf/lib/building/slope.py:27-45 | `make_slopes` succeeds iff every slope value has a sprite, and each row is the group-by-group assignment |
| `Slope.MakeSlopesTable` | agrf/lib/building/slope.py:27-45 | on success, `ret[i][s]` is `sprites[s2].symmetry_item(i)` for the first matching `s2` of the group of `s` |
| `Slope.TableContentAt` | agrf/lib/building/slope.py:30-39 | each row of a drawable table binds every slope value of every group to the entry its first matching source gives |
| `Slope.TableMissingIff` | agrf/lib/building/slope.py:30-39 | the table fails iff some slope value has no sprite |
| `Slope.RowTableContent` | agrf/lib/building/slope.py:30-39 | every row holds every slope value, each bound to its group's first matching entry |
| `Slope.SlopesAtIdentity` | agrf/lib/building/slope_test.py:11-16 | `ret[0][v]` is `sprites[v]` for every slope value, for any target symmetry |
| `Slope.SlopesSymmetricalX` | agrf/lib/building/slope_test.py:19-30 | for SymmetricalX, rows 1, 4 and 5 hold every slope value, and `ret[1][0]` is `sprites[0].M` |
| `Slope.SlopesFullRows` | agrf/lib/building/slope_test.py:33-42 | for Full, all eight rows exist and hold every slope value |
| `Slope.SlopesFull` | agrf/lib/building/slope_test.py:43-48 | for Full, `ret[1][1]` is `sprites[4].M`, `ret[2][3]` is `sprites[12].R`, `ret[1][3]` is `sprites[6].M`, `ret[1][7]` is `sprites[7].M`, `ret[2][7]` is `sprites[14].R` and `ret[3][7]` is `sprites[14].R.M` |
| `Layout.BoxTransforms` | agrf/lib/building/layout.py:260-276 | T, R and M are involutions, keep a box inside the tile, commute as the group requires, and M conjugates R into T |
| `Layout.View` | agrf/lib/building/layout.py:260-276 | viewing a box in any orientation keeps its ground flag, height and z offset, and keeps it on the tile |
| `Layout.BoxViewAction` | agrf/lib/building/layout.py:260-276 | the box transforms are an action of the orientation group: view j of view i is view `i∘j` |
| `Layout.ViewThenT` | agrf/lib/building/layout.py:260-263 | viewing a box in orientation i and then applying T is its view in `i∘T` |
| `Layout.ViewThenR` | agrf/lib/building/layout.py:265-268 | viewing in i and then applying R is the view in `i∘R` |
| `Layout.ViewThenM` | agrf/lib/building/layout.py:270-276 | viewing in i and then applying M is the view in `i∘M` |
| `Layout.PushStep` | agrf/lib/building/layout.py:281-285 | one pushdown step raises the screen row `x + y - z` by 2 and keeps `y - x` |
| `Layout.Lowerings` | agrf/lib/building/layout.py:278-286 | the number of steps that lower z never exceeds the number of steps |
| `Layout.PushdownClosedForm` | agrf/lib/building/layout.py:278-286 | n steps lower z by 2 per step while z ≥ 2, and then shift x and y by one per remaining step |
| `Layout.PushdownScreen` | agrf/lib/building/layout.py:278-286 | n steps move the sprite exactly 2n screen rows down, as the blit offset at lines 718-720 uses it, and keep `y - x` |
| `Layout.PushdownAdds` | agrf/lib/building/layout.py:278-286 | `pushdown` by 0 or a negative count is the identity, as `range(steps)` is then empty, and pushdowns compose additively, keeping the extent |
| `Layout.MoveAdds` | agrf/lib/building/layout.py:288-292 | `move` and `up` add offsets, and a zero move is the identity |
| `Layout.GroundBox` | agrf/lib/building/layout.py:240-242 | the ground as a parent sprite is a full 16×16 ground box of height 0 or 1 at the origin |
| `Layout.PositionTransforms` | agrf/lib/building/layout.py:232-238 | T, R and M are involutions on every position, ground and pixel offsets being fixed |
| `Layout.GroundBoxSymmetric` | agrf/lib/building/layout.py:240-242 | the ground box is fixed by T, R and M |
| `Layout.AddChild` | agrf/lib/building/layout.py:434-437 | adding `None` returns the sprite itself; adding a child to a child sprite (pixel-offset position) raises AssertionError from `__post_init__` (lines 336-337); otherwise the child is appended and the rest of the sprite is left alone |
| `Layout.FilterRegister` | agrf/lib/building/layout.py:439-440 | exactly the children not drawn under `reg` remain, and the rest of the sprite is untouched |
| `Layout.KeepChildren` | agrf/lib/building/layout.py:439-440 | a child is kept iff it is a child not drawn under `reg`, and the list never grows |
| `Layout.KeepChildrenFacts` | agrf/lib/building/layout.py:439-440 | filtering is idempotent and changes nothing when no child is drawn under `reg` |
| `Layout.KeepAppend` | agrf/lib/building/layout.py:439-440 | filtering distributes over concatenation |
| `Layout.FilterAfterAdd` | agrf/lib/building/layout.py:434-440 | on a parent sprite, filtering after adding a child equals filtering first and then keeping the child iff it survives; a child sprite refuses the child |
| `Layout.SpriteOpsKeepBare` | agrf/lib/building/layout.py:336-337 | `__add__` and `filter_register` keep `__post_init__`'s rule that a child sprite has no children |
| `Layout.LoadedSpriteId` | agrf/lib/building/layout.py:49-61 | the sub-climate shifts 3981..4012 by 569, 1011/1012 by 26 and 1332/1333 by 19; monorail and maglev add 82 and 164 to 1011/1012; every other id loads itself |
| `Layout.LoadedSpriteIdInjective` | agrf/lib/building/layout.py:49-61 | under one render context, different remapped ids load different sprites |
| `Layout.LoadedSpriteIdCollides` | agrf/lib/building/layout.py:49-61 | outside the remapped ids this fails: 1011 on snow loads the same sprite as 1037 |
| `Layout.Overlaps` | agrf/lib/building/layout.py:537-539 | AssertionError iff an interval is given high end first |
| `Layout.OverlapsMeansCommonPoint` | agrf/lib/building/layout.py:537-539 | `overlaps` is symmetric, and for non-empty intervals it holds iff the half-open intervals share a point |
| `Layout.OverlapsEmpty` | agrf/lib/building/layout.py:537-539 | an empty interval strictly inside another still counts as overlapping |
| `Layout.IsInFront` | agrf/lib/building/layout.py:542-563 | the whole tie-break order: never in front without all three screen projections overlapping; entirely beyond in x or in y means in front; otherwise a flat pair at one height with exactly one ground box is in front iff the other box is the ground, and any other pair is in front iff `a` lies entirely above `b` |
| `Layout.InFrontAsymmetric` | agrf/lib/building/layout.py:542-563 | two boxes with positive extents are never each in front of the other |
| `Layout.GroundTieBreak` | agrf/lib/building/layout.py:557-559 | a flat non-ground box at the height of a flat ground box, whose footprint strictly overlaps the ground box's and which meets it on screen, is in front of it, and not the reverse |
| `Layout.FlatTwinsInFront` | agrf/lib/building/layout.py:553-563 | two flat non-ground boxes at the same height that meet on screen are each in front of the other |
| `Layout.InFrontCycle` | agrf/lib/building/layout.py:542-563 | three solid boxes that do not overlap in 3D can each be in front of the next |
| `Layout.SideBySideUnordered` | agrf/lib/building/layout.py:547-548 | unit boxes at (0,0,0) and (2,2,0) do not meet on screen, so neither is in front |
| `Layout.NonEmpty` | agrf/lib/building/layout.py:592 | exactly the non-empty parent sprites survive the filter |
| `Layout.CheckPairs` | agrf/lib/building/layout.py:594-600 | AssertionError iff two different sprites' boxes overlap strictly on all three axes |
| `Layout.FirstCandidate` | agrf/lib/building/layout.py:604-614 | a round picks the first unplaced sprite that is in front of no other unplaced sprite, or finds none |
| `Layout.PlaceRounds` | agrf/lib/building/layout.py:602-617 | each successful round places one sprite; failure is AssertionError |
| `Layout.SortedParentSprites` | agrf/lib/building/layout.py:587-617 | a flattened layout returns its sprites unchanged; otherwise the result has one entry per non-empty sprite or is an AssertionError |
| `Layout.GreedyOrder` | agrf/lib/building/layout.py:603-614 | in a greedy run, no sprite is in front of a sprite placed after it |
| `Layout.StuckBlocks` | agrf/lib/building/layout.py:603-615 | a round that places nothing leaves a non-empty set in which every sprite is in front of another |
| `Layout.PlaceAll` | agrf/lib/building/layout.py:602-617 | the placement fails iff the sprites repeat or some set blocks itself; on success it is a permutation, respects the in-front order, and each round took the first placeable sprite |
| `Layout.PermutationByCount` | agrf/lib/building/layout.py:602-617 | a duplicate-free run holding every sprite, and of the same length, is a permutation |
| `Layout.NoBlockingInRun` | agrf/lib/building/layout.py:602-617 | a sequence with no sprite in front of a later one contains no self-blocking set |
| `Layout.CycleBlocks` | agrf/lib/building/layout.py:603-614 | three sprites each in front of the next form a self-blocking set |
| `Layout.BlockingFails` | agrf/lib/building/layout.py:602-617 | a self-blocking set always makes the placement fail |
| `Layout.SortIsPlacement` | agrf/lib/building/layout.py:592-617 | without a 3D overlap, sorting is the placement of the non-empty sprites |
| `Layout.SortFailsOnBlocking` | agrf/lib/building/layout.py:602-615 | a self-blocking set of non-empty sprites makes the sort fail |
| `Layout.SortFailsWithPlacement` | agrf/lib/building/layout.py:602-617 | a failing placement round makes the whole sort fail with AssertionError |
| `Layout.SortedCorrect` | agrf/lib/building/layout.py:587-617 | a successful sort returns each non-empty sprite exactly once, never puts a sprite before one it is in front of, and picks greedily |
| `Layout.SortedBoxes` | agrf/lib/building/layout.py:594-600 | a successful sort implies that all non-empty sprites are boxes and no two overlap in 3D |
| `Layout.SortFailsIff` | agrf/lib/building/layout.py:587-617 | the sort fails iff two sprites overlap in 3D, the sprites repeat, or some set blocks itself |
| `Layout.CyclicLayoutFails` | agrf/lib/building/layout.py:602-615 | a layout with the three cyclic boxes cannot be sorted |
| `Layout.FlatTwinsFail` | agrf/lib/building/layout.py:602-615 | a layout with two flat twins that meet on screen cannot be sorted |
| `Layout.SortPair` | agrf/lib/building/layout.py:602-617 | with two sprites where only the first is in front, the sort swaps them |
| `Layout.PlacePair` | agrf/lib/building/layout.py:603-614 | of two sprites where only the first is in front, the second is placed first |
| `Layout.GroundDrawnFirst` | agrf/lib/building/layout.py:557-559 | a flat sprite listed before a ground sprite with which it overlaps is drawn after it |
| `Parameters.ReverseLookup` | agrf/parameters/parameters.py:5-9 | the reverse table has exactly the enum's names as keys |
| `Parameters.ReverseLookupLast` | agrf/parameters/parameters.py:9 | each name maps to the key of its last occurrence in the enum |
| `Parameters.EnumIndex` | agrf/parameters/parameters.py:11-12 | AttributeError without an enum, KeyError for an unknown name, otherwise a key carrying that name |
| `Parameters.EnumIndexInverse` | agrf/parameters/parameters.py:5-12 | with distinct keys, the enum maps `enum_index(v)` back to `v` |
| `Parameters.EnumIndexOfSetting` | agrf/parameters/parameters.py:5-12 | with distinct names, `enum_index` inverts the enum on every entry |
| `Parameters.EnumIndexLastWins` | agrf/parameters/parameters.py:9 | with a repeated name the later key wins |
| `Parameters.NewParameter` | agrf/parameters/parameters.py:16-22 | the constructor keeps its arguments, has no index yet, and defaults an empty option name to the name |
| `Parameters.MinValue` | agrf/parameters/parameters.py:34-36 | the least enum key; AttributeError without an enum and ValueError for an empty one |
| `Parameters.MaxValue` | agrf/parameters/parameters.py:38-40 | the greatest enum key, with the same errors |
| `Parameters.Limits` | agrf/parameters/parameters.py:42-46 | the stored limits without an enum, else the least and greatest keys, both attained |
| `Parameters.Range` | agrf/parameters/parameters.py:48-50 | a half-open range containing every enum key |
| `Parameters.RangeExtendsLimits` | agrf/parameters/parameters.py:42-50 | `range` is `limits` with the upper end raised by one, failing exactly when they do |
| `Parameters.ParamCode` | agrf/parameters/parameters.py:55-61 | without a mapping, the parameter's own index with a full 32-bit mask (needs an index); with a mapping, its parameter, shift and a `2**num_bit - 1` mask |
| `Parameters.PlainCodeIsFullField` | agrf/parameters/parameters.py:55-61 | a plain parameter reads like a mapping of 32 bits from bit 0 of its own index |
| `Parameters.ListParameters` | agrf/parameters/parameters.py:78-82 | every parameter's index becomes its list position, and nothing else changes |
| `Parameters.GetItem` | agrf/parameters/parameters.py:94-95 | IndexError iff no parameter has the name, else a listed parameter with that name |
| `Parameters.FirstNamed` | agrf/parameters/parameters.py:94-95 | the first position with the name, or none |
| `Parameters.ParameterById` | agrf/parameters/parameters.py:97-98 | Python list indexing, negative ids counting from the end, and IndexError outside |
| `Parameters.Index` | agrf/parameters/parameters.py:88-89 | `index(name)` fails with IndexError whenever `self[name]` does |
| `Parameters.IndexRoundTrip` | agrf/parameters/parameters.py:78-98 | `index(name)` succeeds iff the name is listed, gives the first such position, and `parameter_by_id` of it is `self[name]` |
| `Parameters.PresetKeys` | agrf/parameters/parameters.py:108-109 | the keys visited are exactly those named by some preset |
| `Parameters.FirstOccurrences` | agrf/parameters/parameters.py:110 | the keys allocated are distinct and drawn from the visited keys |
| `Parameters.FirstOccurrencesCovers` | agrf/parameters/parameters.py:110 | every visited key gets allocated |
| `Parameters.Without` | agrf/parameters/parameters.py:112-114 | the preset table drops the preset value's name and keeps only entries of the enum |
| `Parameters.PresetEntry` | agrf/parameters/parameters.py:111-114 | a preset key's reverse table never names the preset value |
| `Parameters.WithoutKeeps` | agrf/parameters/parameters.py:112-114 | every other enum entry stays in the preset table |
| `Parameters.PresetEntryFacts` | agrf/parameters/parameters.py:111-114 | a preset key's entry exists iff the key names a parameter whose enum has the preset value, and it pairs `enum_index` of that value with the enum minus it |
| `Parameters.NewPresetList` | agrf/parameters/parameters.py:101-115 | the constructor indexes the parameters and records the preset parameter's id |
| `Parameters.Allocate` | agrf/parameters/parameters.py:108-115 | allocation fails only on a key whose entry fails |
| `Parameters.AllocateCorrect` | agrf/parameters/parameters.py:108-115 | keys get consecutive ids from `start_id` in first-encounter order, each only once |
| `Parameters.PresetAllocation` | agrf/parameters/parameters.py:101-115 | after construction, every preset key holds its allocated id and a table without the preset value |
| `Parameters.PresetIndex` | agrf/parameters/parameters.py:117-120 | the allocated id for preset keys, the plain index otherwise |
| `Parameters.PresetParameterById` | agrf/parameters/parameters.py:150-153 | a preset table when the id has one, else the plain parameter at that id |
| `Parameters.PresetIdRoundTrip` | agrf/parameters/parameters.py:117-153 | a preset key's id leads back to its preset table, which lacks the preset value; other names keep their plain index |
| `Parameters.Iterate` | agrf/parameters/parameters.py:161-170 | the number of variations is the product of the option counts |
| `Parameters.Variations` | agrf/parameters/parameters.py:172-174 | `iterate_variations` yields the product of the option counts |
| `Parameters.IterateOptions` | agrf/parameters/parameters.py:166-170 | looping over k options of a choice yields k times the variations of the remaining choices |
| `Parameters.IterateKeys` | agrf/parameters/parameters.py:161-170 | every variation's keys are the starting keys plus the choice names |
| `Parameters.IterateBlocks` | agrf/parameters/parameters.py:166-170 | the d-th option of a choice heads a contiguous block of the rest's variations: the first choice varies slowest |
| `Parameters.IterateValues` | agrf/parameters/parameters.py:161-170 | every variation gives each choice (its last occurrence) one of its options |
| `Parameters.AfterNameUntouched` | agrf/parameters/parameters.py:167-168 | keys no later choice names keep their starting value |
| `Parameters.VariationBlockValue` | agrf/parameters/parameters.py:161-177 | in the d-th block the choice is set to its d-th option, and `desc` reads back position d |
| `Parameters.PositionOf` | agrf/parameters/parameters.py:177 | `options.index(x)`: the first position of x, ValueError when absent |
| `Parameters.PositionOfDistinct` | agrf/parameters/parameters.py:177 | with distinct options, `index` inverts indexing |
| `Parameters.Decimal` | agrf/parameters/parameters.py:177 | `str(n)` of a natural number is one digit long iff n < 10 |
| `Parameters.Desc` | agrf/parameters/parameters.py:176-177 | `desc` succeeds iff every choice is set to one of its options |
| `Parameters.DescFrom` | agrf/parameters/parameters.py:176-177 | the failures are KeyError (choice not set) and ValueError (value not an option) |
| `Parameters.DescIdentifies` | agrf/parameters/parameters.py:176-177 | with at most ten options per choice, equal `desc` strings mean equal choices |
| `Parameters.DescAmbiguous` | agrf/parameters/parameters.py:176-177 | with twelve options, positions 1 and 10 and positions 11 and 0 both give "110" |
| `Demo.Or` | agrf/lib/building/demo.py:37-39 | Python `or` on an optional string: the first operand unless it is `None` or empty |
| `Demo.InferRenderContexts` | agrf/lib/building/demo.py:26-43 | a grid of the shape of `tiles`, each field the explicit context's when truthy, else the demo's; IndexError iff the explicit contexts do not cover the tiles |
| `Demo.DefaultContexts` | agrf/lib/building/demo.py:26-43 | without explicit contexts every tile gets the demo's climate, sub-climate and rail type |
| `Demo.EmptyFieldFallsBack` | agrf/lib/building/demo.py:37-39 | an empty string falls back like `None` |
| `Demo.DemoT` | agrf/lib/building/demo.py:89-92 | AssertionError iff explicit contexts are set; otherwise only the tiles change |
| `Demo.DemoTMoves` | agrf/lib/building/demo.py:89-92 | T reverses the row order and applies the tile T to every tile, `None` staying `None` |
| `Demo.DemoTInvolution` | agrf/lib/building/demo.py:89-92 | T twice restores the demo when the tile T is an involution |
| `Demo.LiftTwice` | agrf/lib/building/demo.py:92 | applying an involutive tile map twice through `None` restores every cell |
| `Demo.DemoM` | agrf/lib/building/demo.py:94-97 | AssertionError iff explicit contexts are set; otherwise only the tiles change |
| `Demo.MirrorIsReversedZip` | agrf/lib/building/demo.py:97 | the direct mirror equals the code's reversed `zip(*tiles)` with each row reversed |
| `Demo.DemoMMoves` | agrf/lib/building/demo.py:94-97 | the tile at (r, c) of an R×C grid moves to (C−1−c, R−1−r) of a C×R grid, with the tile M applied |
| `Demo.DemoMCell` | agrf/lib/building/demo.py:94-97 | cell (i, j) of M's grid is the tile M of cell (rows−1−j, width−1−i) of the demo, the width being the shortest row |
| `Demo.Mirror` | agrf/lib/building/demo.py:97 | the mirrored grid has one row per column `zip` keeps |
| `Demo.Width` | agrf/lib/building/demo.py:97 | the width `zip` sees is at most every row's length |
| `Demo.WidthAttained` | agrf/lib/building/demo.py:97 | the width is the length of some row |
| `Demo.MirrorTwice` | agrf/lib/building/demo.py:94-97 | mirroring twice with an involutive tile map truncates every row to the shortest one |
| `Demo.DemoMTwice` | agrf/lib/building/demo.py:94-97 | M twice gives the demo with its rows truncated to the shortest |
| `Demo.DemoMInvolution` | agrf/lib/building/demo.py:94-97 | on a non-empty rectangular grid, M twice restores the demo |
| `Demo.DemoMDropsOverhang` | agrf/lib/building/demo.py:94-97 | on the ragged grid `[[a, b], [c]]`, M twice drops `b` |
| `Demo.TruncatedRectangle` | agrf/lib/building/demo.py:97 | truncation changes nothing on a rectangular grid |
| `Demo.ToLayout` | agrf/lib/building/demo.py:23-57 | the placement loop succeeds iff the grid has a row and the explicit contexts, inferred at construction, cover its tiles; every failure of the loop itself is IndexError (failures inside a tile's `demo_filter`/`demo_translate` are outside the model) |
| `Demo.RowPlacementsSound` | agrf/lib/building/demo.py:50-56 | every placement of a row comes from a non-`None` tile with its context and the translation of its reversed column |
| `Demo.GridPlacementsFacts` | agrf/lib/building/demo.py:49-56 | the grid loop yields as many placements as there are non-`None` tiles, and each comes from a tile of the grid with its context and translation |
| `Demo.RowPlacementsAt` | agrf/lib/building/demo.py:50-56 | the placement of tile j of a row sits after those of the present tiles to its right, and carries that tile, its context and its translation |
| `Demo.GridPlacementsAt` | agrf/lib/building/demo.py:49-56 | the placement of tile (i, j) sits after those of the present tiles of earlier rows and to its right in row i, and carries that tile, its context and its translation |
| `Demo.RowPlacementsCount` | agrf/lib/building/demo.py:50-56 | a row contributes one placement per non-`None` tile |
| `Demo.ToLayoutPlaces` | agrf/lib/building/demo.py:45-57 | one placement per non-`None` tile, row by row and right to left within a row; the placement of tile (r, j) carries its context and moves by `(c·16 − (columns−1)·8, r·16 − (rows−1)·8)`, c = len(row)−1−j |
| `Pool.FirstMatch` | agrf/global_cache/pool.py:10-12 | the first bucket element that `eq_fn` matches, or none |
| `Pool.Dedup` | agrf/global_cache/pool.py:4-15 | the returned object is in its key's bucket; the pool only grows, by that key at most, and other buckets are unchanged |
| `Pool.DedupNewKey` | agrf/global_cache/pool.py:5-8 | a new key starts a bucket with the object, which is returned as is |
| `Pool.DedupFound` | agrf/global_cache/pool.py:10-12 | with a match, the earliest matching stored element is returned and the pool is unchanged |
| `Pool.DedupAppends` | agrf/global_cache/pool.py:14-15 | without a match, the object is appended and returned |
| `Pool.DedupEqual` | agrf/global_cache/pool.py:4-15 | with `eq_fn` an equivalence, the result is always equal to the argument |
| `Pool.DedupStable` | agrf/global_cache/pool.py:4-15 | a later `dedup` of an equal object returns the same stored element and leaves the pool alone |
| `Pool.DedupKeepsCanonical` | agrf/global_cache/pool.py:4-15 | buckets stay keyed by hash and free of equal pairs |
| `Config.PyIndex` | agrf/gorender/__init__.py:50 | Python list indexing: a negative index counts from the end; out of range gives none |
| `Config.Iterate` | agrf/gorender/__init__.py:50 | iterating `agrf_subset` yields a list's items or a string's characters, and TypeError for anything else |
| `Config.Subscript` | agrf/gorender/__init__.py:50 | `container[i]` on a list or string, with IndexError out of range and TypeError for a non-sequence container or a non-integer index |
| `Config.Pick` | agrf/gorender/__init__.py:50 | the comprehension fails at the first failing index |
| `Config.PickFailsAt` | agrf/gorender/__init__.py:50 | an out-of-range index, after good ones, raises IndexError |
| `Config.PickSucceeds` | agrf/gorender/__init__.py:50 | all indices in range give one element per index, in index order |
| `Config.Reindex` | agrf/gorender/__init__.py:47-50 | only the listed keys change |
| `Config.ReindexPicks` | agrf/gorender/__init__.py:48-50 | a present listed key becomes the picked list, and a missing one stays missing |
| `Config.ReindexSucceeds` | agrf/gorender/__init__.py:48-50 | all listed keys selectable means the reindexing succeeds |
| `Config.Subset` | agrf/gorender/__init__.py:43-53 | without `agrf_subset` the config comes back; with it, the key is removed and every key except the five lists is untouched |
| `Config.SubsetKeysDistinct` | agrf/gorender/__init__.py:48 | the five reindexed keys are distinct and do not include `agrf_subset` |
| `Config.SubsetReindexes` | agrf/gorender/__init__.py:46-51 | each present list among the five becomes one entry per index, entry j being the list at `indices[j]` |
| `Config.SubsetSucceeds` | agrf/gorender/__init__.py:46-51 | with list indices in range for every present list, `subset` succeeds |
| `Config.SubsetOutOfRange` | agrf/gorender/__init__.py:46-50 | an out-of-range index into `sprites`, the first list visited, after in-range integer indices raises IndexError |
| `Config.NewConfig` | agrf/gorender/__init__.py:22-31 | the supplied entries override the loaded ones, an absent file gives an empty dict, and the cache is empty |
| `Config.FinalConfig` | agrf/gorender/__init__.py:33-38 | a cached value is returned as is; otherwise `subset` is computed and cached; `config` itself never changes |
| `Config.FinalConfigCached` | agrf/gorender/__init__.py:33-38 | a second `final_config` returns the first result without recomputing |
| `Config.FinalConfigOfSupplied` | agrf/gorender/__init__.py:22-38 | with no file and no `agrf_subset`, `final_config` is the supplied dict |
| `Actions.Range` | agrf/actions.py:49 | `tuple(range(lo, hi))`: `hi - lo` consecutive ids from `lo`, empty when `lo >= hi` |
| `Actions.FakeLayout` | agrf/actions.py:46-66 | IndexError iff there are no sprite sets |
| `Actions.AlternativesAppend` | agrf/actions.py:64-65 | the wrappers of consecutive set lists follow each other |
| `Actions.AlternativesOrder` | agrf/actions.py:64-65 | one wrapper per sprite, sprite j of set i at the position after all earlier sets' sprites |
| `Actions.Alternatives` | agrf/actions.py:64-65 | every reference after the Action1 is an alternative-sprites wrapper |
| `Actions.FakeLayoutIds` | agrf/actions.py:48-53 | without loading sprites both tuples are `31−n .. 30`; with m loading sets they are `31−n−m .. 30−m` and `31−m .. 30`, adjacent and ordered; `len(ent1) == n`, and every id is below 31 |
| `Actions.FakeLayoutRefs` | agrf/actions.py:55-66 | the first ref is Action1 with `first_set = ent1[0]`, `set_count = n` and `sprite_count = len(sprites[0])`, followed by one wrapper per sprite, sprite sets first |
| `Actions.EmptyLoadingDiffers` | agrf/actions.py:48-53 | an empty loading list gives an empty second tuple, unlike `None` |

## Left out

- Image and pixel work is not modelled: `graphics()` methods, `LayeredImage`, blending, masks and resizing. These are numpy pixel formulas.
- File and process I/O is not modelled: loading JSON configs, images and third-party sprites, and running gorender.
  - The loaded JSON dict of `Config.__init__` is a parameter of `Config.NewConfig`.
  - `DefaultGraphics` image loading (agrf/lib/building/layout.py:63-84) is left out.
- The `__class__` swap in `create_variants` is replaced by variant records with link indices. Nothing in the model depends on the class.
- `create_variants` links objects by Python identity. Passing the same object twice makes its links be overwritten by the later position; index records keep one record per position and cannot show this aliasing.
- `v.symmetry = classobj` is not stored. The descriptor is passed alongside the variants instead.
- `ParameterList.__init__` sets each parameter's index in place (agrf/parameters/parameters.py:81-82). A `Parameter` object listed twice, or shared by two lists, keeps the index of the last assignment, and `index(name)` returns that value. `Parameters.ListParameters` gives each position its own index record, so it cannot show this aliasing.
- `__merge_descriptor` is left out because nothing calls it.
- The `slope_variants` back-reference mutation in `make_slopes` (agrf/lib/building/slope.py:41-43) is left out. It is a mutable alias of the row itself.
- Slope.MakeSlopes: a row entry is the source sprite together with the orientation, `View(sprites[s2], i)`, standing for `sprites[s2].symmetry_item(i)`. The variant objects are not materialised.
- `Parameter.add`, `make_if`, `ParameterListWithPreset.add` and `to_grf` are left out. They emit grf actions into a library that is not part of this model.
- Parameters.ParamCode: returns the three numbers of the `var(...)` string rather than the string itself.
- `numBit` is a natural number. A negative `num_bit` (which would make Python's `2 ** num_bit` a float) is not representable.
- Demo.ToLayout: returns the placements (tile, render context, translation) rather than the translated tiles' parent sprites. A tile is an opaque value, so nothing raised inside its `demo_filter` or `demo_translate` is modelled. In particular, for an `ALayout` tile, `demo_translate` (agrf/lib/building/layout.py:654-666) reads `sorted_parent_sprites`. That raises AssertionError when the tile's sprites cannot be sorted, as `Layout.SortFailsIff` characterises. A demo holding such a tile fails in Python, while `Demo.ToLayout` returns `Ok`.
- Box extents are natural numbers. `BBoxPosition` does not check this. A negative extent can make `overlaps` raise AssertionError from `is_in_front` (agrf/lib/building/layout.py:538 and 547-552). Such boxes cannot be written in the model, so that error branch of `Layout.Overlaps` is never reached from `Layout.IsInFront`.
- `Layout.Sprite` leaves out `extra_sprites` (agrf/lib/building/layout.py:328). The sprite-level T, R and M maps transform it (line 364), and those maps are not modelled.
- Layout.SortedParentSprites: sprite equality in the model is coarser than Python's. `NewGeneralSprite` is a dataclass compared on all its fields, including `extra_sprites`, and the sorter's `!=` and `in` tests (agrf/lib/building/layout.py:596, 605 and 609) use that comparison. Two sprites that differ only in `extra_sprites` are distinct in Python, and the sort can place both. They are one value of `Layout.Sprite`, so the model reports a repeat and the sort fails.
- `Layout.Sprite` admits a child sprite (one at a pixel offset) that has children, which `__post_init__` rejects when a sprite is built (agrf/lib/building/layout.py:336-337). Building sprites is not modelled. `Layout.SpriteOpsKeepBare` shows that the modelled operations never produce one.
- `RenderContext.dodraw` always returns true, so drawing under a register is not modelled beyond `filter_register`.
- The `feature` argument of `FakeReferencingGenericSpriteLayout` is left out. It is passed through to grf objects unchanged.
- Config.Subset: JSON dicts, booleans, null and floats are opaque values.
  - Subscripting with them gives TypeError. Python would look up a dict key, or treat a bool as 0 or 1.
  - A dict-valued `agrf_subset`, which Python would iterate by keys, is treated as a non-list.
- `deepcopy` and `Config.copy` are left out because values are immutable here.
- The dedup pool is an explicit value threaded through `Pool.Dedup` rather than the module-level `__POOL__`. Python's default `hash` is a parameter like any other `hash_fn`.
- `functools.cache` decorators are left out. Every modelled function is pure, so caching changes nothing.
- `ALayout.__getattr__`/`__call__` dispatch, `ALayout.pushdown` and the fields the sorter does not read (category, notes, altitude, foundation, purchase) are left out.
