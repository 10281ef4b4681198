/** Bounding-box geometry and the depth sorter of agrf/lib/building/layout.py.

    A parent sprite is drawn at a bounding box on the 16x16 tile.  Before the
    sprites of a tile are blended back to front, `sorted_parent_sprites` orders
    them so that every sprite comes after the sprites it is in front of. */
module Layout {
  import opened Wrappers
  import Symmetry

  // ---------------------------------------------------------------------------
  // Positions

  /** A box extent along x, y and z.  The model takes extents to be natural
      numbers; `BBoxPosition` itself does not check this. */
  datatype Extent = Extent(x: nat, y: nat, z: nat)

  /** A box offset on the tile along x, y and z. */
  datatype Point = Point(x: int, y: int, z: int)

  /** `BBoxPosition`. */
  datatype BBox = BBox(extent: Extent, offset: Point, isGround: bool)
  {
    /** `T`: reflect y on the tile, keeping the extent. */
    function T(): (r: BBox)
      ensures r.extent == extent && r.isGround == isGround
      ensures r.offset.x == offset.x && r.offset.z == offset.z
      ensures r.offset.y + r.extent.y + offset.y == 16
    {
      BBox(extent, Point(offset.x, 16 - offset.y - extent.y, offset.z), isGround)
    }

    /** `R`: reflect x on the tile, keeping the extent. */
    function R(): (r: BBox)
      ensures r.extent == extent && r.isGround == isGround
      ensures r.offset.y == offset.y && r.offset.z == offset.z
      ensures r.offset.x + r.extent.x + offset.x == 16
    {
      BBox(extent, Point(16 - offset.x - extent.x, offset.y, offset.z), isGround)
    }

    /** `M`: exchange the x and y components of offset and extent. */
    function M(): (r: BBox)
      ensures r.isGround == isGround
      ensures r.extent.x == extent.y && r.extent.y == extent.x && r.extent.z == extent.z
      ensures r.offset.x == offset.y && r.offset.y == offset.x && r.offset.z == offset.z
    {
      BBox(Extent(extent.y, extent.x, extent.z), Point(offset.y, offset.x, offset.z), isGround)
    }

    /** `move`: shift the offset; `up` is a move along z only. */
    function Move(dx: int, dy: int, dz: int): (r: BBox)
      ensures r.extent == extent && r.isGround == isGround
      ensures r.offset.x - offset.x == dx && r.offset.y - offset.y == dy && r.offset.z - offset.z == dz
    {
      BBox(extent, Point(offset.x + dx, offset.y + dy, offset.z + dz), isGround)
    }

    /** `up`. */
    function Up(dz: int): (r: BBox)
      ensures r == Move(0, 0, dz)
    {
      Move(0, 0, dz)
    }

    /** `pushdown`: `steps` iterations of the loop that lowers the box by 2 while
        it is at least 2 high, and otherwise moves it one step along x and y.
        A negative count runs no iteration, as `range(steps)` is then empty. */
    function Pushdown(steps: int): (r: BBox)
      ensures r.extent == extent && r.isGround == isGround
      ensures steps <= 0 ==> r == this
    {
      BBox(extent, PushdownFrom(offset, if steps < 0 then 0 else steps), isGround)
    }
  }

  /** One iteration of the `pushdown` loop. */
  function PushStep(o: Point): (r: Point)
    ensures r.x + r.y - r.z == o.x + o.y - o.z + 2
    ensures r.y - r.x == o.y - o.x
  {
    if o.z >= 2 then Point(o.x, o.y, o.z - 2) else Point(o.x + 1, o.y + 1, o.z)
  }

  /** The `pushdown` loop, iteration by iteration. */
  function PushdownFrom(o: Point, steps: nat): (r: Point)
    decreases steps
  {
    if steps == 0 then o else PushdownFrom(PushStep(o), steps - 1)
  }

  /** How many of `steps` pushdown iterations lower the box: while it is at
      least 2 high, every step does. */
  function Lowerings(z: int, steps: nat): (k: nat)
    ensures k <= steps
  {
    if z < 2 then 0 else if steps <= z / 2 then steps else z / 2
  }

  /** The `pushdown` loop in closed form: the first steps lower the box by 2
      each as long as it stays at height 0 or more, the rest move it along the
      diagonal. */
  lemma {:induction false} PushdownClosedForm(o: Point, steps: nat)
    ensures var k := Lowerings(o.z, steps);
      PushdownFrom(o, steps) == Point(o.x + (steps - k), o.y + (steps - k), o.z - 2 * k)
    decreases steps
  {
    if steps > 0 {
      PushdownClosedForm(PushStep(o), steps - 1);
    }
  }

  /** Every pushdown step moves the box 2 pixels down the screen, whose
      vertical coordinate is x + y - z, and none moves it sideways (y - x). */
  lemma {:induction false} PushdownScreen(o: Point, steps: nat)
    ensures PushdownFrom(o, steps).x + PushdownFrom(o, steps).y - PushdownFrom(o, steps).z == o.x + o.y - o.z + 2 * steps
    ensures PushdownFrom(o, steps).y - PushdownFrom(o, steps).x == o.y - o.x
    decreases steps
  {
    if steps > 0 {
      PushdownScreen(PushStep(o), steps - 1);
    }
  }

  /** Pushing down by 0 or by a negative count is the identity, and pushing
      down twice adds up. */
  lemma {:induction false} PushdownAdds(b: BBox, m: nat, n: nat)
    ensures forall s: int | s <= 0 :: b.Pushdown(s) == b
    ensures b.Pushdown(m).Pushdown(n) == b.Pushdown(m + n)
    decreases m
  {
    if m > 0 {
      var b' := BBox(b.extent, PushStep(b.offset), b.isGround);
      PushdownAdds(b', m - 1, n);
      assert b.Pushdown(m) == b'.Pushdown(m - 1);
      assert b.Pushdown(m + n) == b'.Pushdown(m - 1 + n);
    }
  }

  /** Moves add up, and moving by nothing is the identity. */
  lemma MoveAdds(b: BBox, dx: int, dy: int, dz: int, ex: int, ey: int, ez: int)
    ensures b.Move(0, 0, 0) == b
    ensures b.Move(dx, dy, dz).Move(ex, ey, ez) == b.Move(dx + ex, dy + ey, dz + ez)
    ensures b.Up(dz).Up(ez) == b.Up(dz + ez)
  {
  }

  /** The box lies on the 16x16 tile. */
  predicate InTile(b: BBox)
  {
    0 <= b.offset.x && b.offset.x + b.extent.x <= 16 && 0 <= b.offset.y && b.offset.y + b.extent.y <= 16
  }

  /** T, R and M are involutions, keep a box on the tile exactly when it was on
      it, and mirroring exchanges R and T, as the orientation group law says. */
  lemma BoxTransforms(b: BBox)
    ensures b.T().T() == b && b.R().R() == b && b.M().M() == b
    ensures InTile(b.T()) <==> InTile(b)
    ensures InTile(b.R()) <==> InTile(b)
    ensures InTile(b.M()) <==> InTile(b)
    ensures b.M().R().M() == b.T() && b.M().T().M() == b.R()
    ensures b.T().R() == b.R().T()
  {
  }

  /** The view of a box in orientation `o`, reached as `symmetry_item` reaches
      it: T when the T bit is set, then R, then M. */
  function View(b: BBox, o: Symmetry.Orientation): (r: BBox)
    ensures r.isGround == b.isGround && r.offset.z == b.offset.z && r.extent.z == b.extent.z
    ensures InTile(r) <==> InTile(b)
  {
    BoxTransforms(b);
    var b1 := if Symmetry.And(o, Symmetry.T) != 0 then b.T() else b;
    BoxTransforms(b1);
    var b2 := if Symmetry.And(o, Symmetry.R) != 0 then b1.R() else b1;
    BoxTransforms(b2);
    if Symmetry.And(o, Symmetry.M) != 0 then b2.M() else b2
  }

  /** Applying one of T, R and M to a view is viewing in the composed
      orientation. */
  lemma ViewThenT(b: BBox, i: Symmetry.Orientation)
    ensures View(b, i).T() == View(b, Symmetry.Compose(i, Symmetry.T))
  {
    BoxTransforms(b);
    if i == 0 {
      assert Symmetry.Compose(i, Symmetry.T) == 4;
    } else if i == 1 {
      assert Symmetry.Compose(i, Symmetry.T) == 3;
    } else if i == 2 {
      assert Symmetry.Compose(i, Symmetry.T) == 6;
    } else if i == 3 {
      assert Symmetry.Compose(i, Symmetry.T) == 1;
    } else if i == 4 {
      assert Symmetry.Compose(i, Symmetry.T) == 0;
    } else if i == 5 {
      assert Symmetry.Compose(i, Symmetry.T) == 7;
    } else if i == 6 {
      assert Symmetry.Compose(i, Symmetry.T) == 2;
    } else if i == 7 {
      assert Symmetry.Compose(i, Symmetry.T) == 5;
    }
  }

  /** See `ViewThenT`. */
  lemma ViewThenR(b: BBox, i: Symmetry.Orientation)
    ensures View(b, i).R() == View(b, Symmetry.Compose(i, Symmetry.R))
  {
    BoxTransforms(b);
    if i == 0 {
      assert Symmetry.Compose(i, Symmetry.R) == 2;
    } else if i == 1 {
      assert Symmetry.Compose(i, Symmetry.R) == 5;
    } else if i == 2 {
      assert Symmetry.Compose(i, Symmetry.R) == 0;
    } else if i == 3 {
      assert Symmetry.Compose(i, Symmetry.R) == 7;
    } else if i == 4 {
      assert Symmetry.Compose(i, Symmetry.R) == 6;
    } else if i == 5 {
      assert Symmetry.Compose(i, Symmetry.R) == 1;
    } else if i == 6 {
      assert Symmetry.Compose(i, Symmetry.R) == 4;
    } else if i == 7 {
      assert Symmetry.Compose(i, Symmetry.R) == 3;
    }
  }

  /** See `ViewThenT`. */
  lemma ViewThenM(b: BBox, i: Symmetry.Orientation)
    ensures View(b, i).M() == View(b, Symmetry.Compose(i, Symmetry.M))
  {
    BoxTransforms(b);
    if i == 0 {
      assert Symmetry.Compose(i, Symmetry.M) == 1;
    } else if i == 1 {
      assert Symmetry.Compose(i, Symmetry.M) == 0;
    } else if i == 2 {
      assert Symmetry.Compose(i, Symmetry.M) == 3;
    } else if i == 3 {
      assert Symmetry.Compose(i, Symmetry.M) == 2;
    } else if i == 4 {
      assert Symmetry.Compose(i, Symmetry.M) == 5;
    } else if i == 5 {
      assert Symmetry.Compose(i, Symmetry.M) == 4;
    } else if i == 6 {
      assert Symmetry.Compose(i, Symmetry.M) == 7;
    } else if i == 7 {
      assert Symmetry.Compose(i, Symmetry.M) == 6;
    }
  }

  /** Viewing a box in orientation `i` and then `j` is viewing it in
      `compose(i, j)`: the box transforms are the same right action of the
      orientation group as `symmetry_item` on variants. */
  lemma BoxViewAction(b: BBox, i: Symmetry.Orientation, j: Symmetry.Orientation)
    ensures View(View(b, i), j) == View(b, Symmetry.Compose(i, j))
  {
    var x := View(b, i);
    var jt, jr, jm := Symmetry.And(j, Symmetry.T), Symmetry.And(j, Symmetry.R), Symmetry.And(j, Symmetry.M);
    var i1 := Symmetry.Compose(i, jt);
    var i2 := Symmetry.Compose(i1, jr);
    var i3 := Symmetry.Compose(i2, jm);
    Symmetry.ComposeGenerators(j);
    Symmetry.ComposeIdentity(i);
    Symmetry.ComposeIdentity(i1);
    Symmetry.ComposeIdentity(i2);
    ViewThenT(b, i);
    ViewThenR(b, i1);
    ViewThenM(b, i2);
    Symmetry.ComposeAssociative(i, jt, jr);
    Symmetry.ComposeAssociative(i, Symmetry.Compose(jt, jr), jm);
  }

  /** `GroundPosition`, `BBoxPosition` and `OffsetPosition`. */
  datatype Position = Ground | Box(box: BBox) | PixelOffset(px: int, py: int)
  {
    /** T, R and M on a position: only a bounding box changes. */
    function T(): (r: Position)
      ensures Ground? ==> r == this
      ensures PixelOffset? ==> r == this
      ensures Box? ==> r == Box(box.T())
    {
      if Box? then Box(box.T()) else this
    }

    function R(): (r: Position)
      ensures Ground? ==> r == this
      ensures PixelOffset? ==> r == this
      ensures Box? ==> r == Box(box.R())
    {
      if Box? then Box(box.R()) else this
    }

    function M(): (r: Position)
      ensures Ground? ==> r == this
      ensures PixelOffset? ==> r == this
      ensures Box? ==> r == Box(box.M())
    {
      if Box? then Box(box.M()) else this
    }

    /** `pushdown`: a ground position is first turned into its full-tile box;
        a pixel offset has no `pushdown` (an AttributeError). */
    function Pushdown(steps: int): (r: Result<Position>)
      ensures Ground? ==> r == Ok(Box(GroundBox(false).Pushdown(steps)))
      ensures Box? ==> r == Ok(Box(box.Pushdown(steps)))
      ensures PixelOffset? <==> r == Err(AttributeError)
    {
      match this
      case Ground => Ok(Box(GroundBox(false).Pushdown(steps)))
      case Box(b) => Ok(Box(b.Pushdown(steps)))
      case PixelOffset(_, _) => Err(AttributeError)
    }
  }

  /** `GroundPosition.to_parentsprite`: the full tile, 0 or 1 high, marked as ground. */
  function GroundBox(low: bool): (b: BBox)
    ensures InTile(b) && b.isGround && b.offset == Point(0, 0, 0)
    ensures b.extent.x == 16 && b.extent.y == 16 && b.extent.z == (if low then 0 else 1)
  {
    BBox(Extent(16, 16, if low then 0 else 1), Point(0, 0, 0), true)
  }

  /** T, R and M are involutions on every position. */
  lemma PositionTransforms(p: Position)
    ensures p.T().T() == p && p.R().R() == p && p.M().M() == p
  {
    if p.Box? {
      BoxTransforms(p.box);
    }
  }

  /** The full-tile ground box is its own T, R and M view. */
  lemma GroundBoxSymmetric(low: bool)
    ensures GroundBox(low).T() == GroundBox(low)
    ensures GroundBox(low).R() == GroundBox(low)
    ensures GroundBox(low).M() == GroundBox(low)
  {
  }

  // ---------------------------------------------------------------------------
  // Sprites

  /** The graphic of a sprite: a built-in sprite `DefaultGraphics(sprite_id,
      yofs)`, an authored graphic (named by an opaque reference), or the empty
      sprite. */
  datatype Graphic = DefaultGraphic(spriteId: int, yofs: int) | NewGraphic(ref: nat) | EmptyGraphic

  /** `NewGeneralSprite`: the graphic, its position, its child sprites and its
      flags (register names mapped to register numbers). */
  datatype Sprite = Sprite(graphic: Graphic, position: Position, children: seq<Sprite>, flags: map<string, int>)

  const DoDraw: string := "dodraw"

  /** `is_empty`: the sprite draws the empty graphic. */
  predicate IsEmpty(s: Sprite)
  {
    s.graphic.EmptyGraphic?
  }

  /** `__post_init__`'s check: a child sprite, placed at a pixel offset, has
      no child sprites of its own. */
  predicate ChildSpriteBare(s: Sprite)
  {
    s.position.PixelOffset? ==> s.children == []
  }

  /** `__add__`: adding no child returns the sprite itself. Otherwise the child
      is appended through `replace`, whose `__post_init__` rejects a child
      sprite that now has a child. */
  function AddChild(s: Sprite, child: Option<Sprite>): (r: Result<Sprite>)
    ensures child.None? ==> r == Ok(s)
    ensures r.Err? <==> child.Some? && s.position.PixelOffset?
    ensures r.Err? ==> r.error == AssertionError
    ensures r.Ok? && child.Some? ==> r.value.children == s.children + [child.value]
    ensures r.Ok? ==> r.value.graphic == s.graphic && r.value.position == s.position && r.value.flags == s.flags
  {
    if child.None? then Ok(s)
    else
      var t := s.(children := s.children + [child.value]);
      if !ChildSpriteBare(t) then Err(AssertionError) else Ok(t)
  }

  /** The child is drawn unless its `dodraw` register is `reg`. */
  predicate KeptBy(c: Sprite, reg: int)
  {
    DoDraw !in c.flags || c.flags[DoDraw] != reg
  }

  /** The children kept by `filter_register`, in order. */
  function KeepChildren(cs: seq<Sprite>, reg: int): (r: seq<Sprite>)
    ensures |r| <= |cs|
    ensures forall c :: c in r <==> c in cs && KeptBy(c, reg)
  {
    if cs == [] then []
    else if KeptBy(cs[0], reg) then [cs[0]] + KeepChildren(cs[1..], reg)
    else KeepChildren(cs[1..], reg)
  }

  /** `filter_register`: drop the child sprites whose `dodraw` flag is `reg`. */
  function FilterRegister(s: Sprite, reg: int): (r: Sprite)
    ensures r.graphic == s.graphic && r.position == s.position && r.flags == s.flags
    ensures forall c :: c in r.children <==> c in s.children && KeptBy(c, reg)
  {
    s.(children := KeepChildren(s.children, reg))
  }

  /** Filtering keeps the children in order: the kept children are a
      subsequence, all of them when none is drawn under `reg`, and filtering
      again changes nothing. */
  lemma {:induction false} KeepChildrenFacts(cs: seq<Sprite>, reg: int)
    ensures (forall c | c in cs :: KeptBy(c, reg)) ==> KeepChildren(cs, reg) == cs
    ensures KeepChildren(KeepChildren(cs, reg), reg) == KeepChildren(cs, reg)
  {
    if cs != [] {
      KeepChildrenFacts(cs[1..], reg);
      if KeptBy(cs[0], reg) {
        assert KeepChildren(cs, reg) == [cs[0]] + KeepChildren(cs[1..], reg);
        assert KeepChildren(KeepChildren(cs, reg), reg) == [cs[0]] + KeepChildren(KeepChildren(cs[1..], reg), reg);
      }
    }
  }

  /** Filtering distributes over concatenation. */
  lemma {:induction false} KeepAppend(a: seq<Sprite>, b: seq<Sprite>, reg: int)
    ensures KeepChildren(a + b, reg) == KeepChildren(a, reg) + KeepChildren(b, reg)
  {
    if a != [] {
      assert (a + b)[1..] == a[1..] + b;
      KeepAppend(a[1..], b, reg);
    } else {
      assert a + b == b;
    }
  }

  /** `filter_register` after `__add__`: on a parent sprite the new child is
      kept exactly when its register is not `reg`; a child sprite takes no
      child in the first place. */
  lemma FilterAfterAdd(s: Sprite, c: Sprite, reg: int)
    ensures s.position.PixelOffset? ==> AddChild(s, Some(c)) == Err(AssertionError)
    ensures !s.position.PixelOffset? ==>
      FilterRegister(AddChild(s, Some(c)).value, reg).children ==
      FilterRegister(s, reg).children + (if KeptBy(c, reg) then [c] else [])
  {
    KeepAppend(s.children, [c], reg);
    assert [c][1..] == [];
  }

  /** `__add__` and `filter_register` keep the `__post_init__` check: a sprite
      that passes it still passes it afterwards, so neither operation can
      produce a child sprite with children. */
  lemma SpriteOpsKeepBare(s: Sprite, child: Option<Sprite>, reg: int)
    requires ChildSpriteBare(s)
    ensures AddChild(s, child).Ok? ==> ChildSpriteBare(AddChild(s, child).value)
    ensures ChildSpriteBare(FilterRegister(s, reg))
  {
  }

  // ---------------------------------------------------------------------------
  // The sprite-id remap of `DefaultGraphics.graphics`

  /** The built-in sprite `DefaultGraphics.graphics` loads for a sprite id: the
      snow, desert and similar sub-climates use other sprites for 3981..4012,
      1011/1012 and 1332/1333, and monorail and maglev use the rail sprites
      82 and 164 further on. */
  function LoadedSpriteId(id: int, subclimate: string, railType: string): (r: int)
    ensures subclimate == "default" && (id !in {1011, 1012} || railType !in {"monorail", "maglev"}) ==> r == id
    ensures 3981 <= id <= 4012 && subclimate != "default" ==> r == id + 569
    ensures id in {1011, 1012} ==>
      r == id + (if subclimate != "default" then 26 else 0)
        + (if railType == "monorail" then 82 else if railType == "maglev" then 164 else 0)
    ensures id in {1332, 1333} && subclimate != "default" ==> r == id + 19
    ensures !(3981 <= id <= 4012) && id !in {1011, 1012, 1332, 1333} ==> r == id
  {
    var base :=
      if 3981 <= id <= 4012 && subclimate != "default" then id + 569
      else if id in {1011, 1012} && subclimate != "default" then id + 26
      else if id in {1332, 1333} && subclimate != "default" then id + 19
      else id;
    if id in {1011, 1012} && railType == "monorail" then base + 82
    else if id in {1011, 1012} && railType == "maglev" then base + 164
    else base
  }

  /** The sprite ids the remap may change. */
  predicate Remapped(id: int)
  {
    3981 <= id <= 4012 || id in {1011, 1012, 1332, 1333}
  }

  /** Within the remapped ids, different ids load different sprites under one
      render context (outside them the remap can collide: 1011 on snow loads
      sprite 1037). */
  lemma LoadedSpriteIdInjective(a: int, b: int, subclimate: string, railType: string)
    requires Remapped(a) && Remapped(b)
    requires LoadedSpriteId(a, subclimate, railType) == LoadedSpriteId(b, subclimate, railType)
    ensures a == b
  {
  }

  /** A remapped id can coincide with an id that is loaded as it is. */
  lemma LoadedSpriteIdCollides()
    ensures LoadedSpriteId(1011, "snow", "rail") == LoadedSpriteId(1037, "snow", "rail")
  {
  }

  // ---------------------------------------------------------------------------
  // Overlap and the in-front relation

  /** `overlaps`: two half-open intervals share a point.  Intervals given high
      end first fail the assertion. */
  function Overlaps(a0: int, a1: int, b0: int, b1: int): (r: Result<bool>)
    ensures r.Err? <==> !(a0 <= a1 && b0 <= b1)
    ensures r.Err? ==> r.error == AssertionError
  {
    if a0 <= a1 && b0 <= b1 then Ok(a1 > b0 && b1 > a0) else Err(AssertionError)
  }

  /** `t` lies in the half-open interval [lo, hi). */
  predicate Within(t: int, lo: int, hi: int)
  {
    lo <= t < hi
  }

  /** The overlap test is symmetric, and on non-empty intervals it holds
      exactly when some integer lies in both [a0, a1) and [b0, b1). */
  lemma OverlapsMeansCommonPoint(a0: int, a1: int, b0: int, b1: int)
    requires a0 <= a1 && b0 <= b1
    ensures Overlaps(a0, a1, b0, b1) == Overlaps(b0, b1, a0, a1)
    ensures a0 < a1 && b0 < b1 ==>
      (Overlaps(a0, a1, b0, b1).value <==> exists t :: Within(t, a0, a1) && Within(t, b0, b1))
  {
    if a0 < a1 && b0 < b1 && Overlaps(a0, a1, b0, b1).value {
      var t := if a0 < b0 then b0 else a0;
      assert Within(t, a0, a1) && Within(t, b0, b1);
    }
  }

  /** An empty interval still overlaps one that strictly contains its point. */
  lemma OverlapsEmpty()
    ensures Overlaps(5, 5, 0, 10) == Ok(true)
  {
  }

  /** The three projections `is_in_front` compares, as (low, high) pairs: the
      screen diagonals 2x - z and 2y - z and the screen column x - y. */
  function ProjX(b: BBox): (int, int)
  {
    (b.offset.x * 2 - (b.offset.z + b.extent.z), (b.offset.x + b.extent.x) * 2 - b.offset.z)
  }

  function ProjY(b: BBox): (int, int)
  {
    (b.offset.y * 2 - (b.offset.z + b.extent.z), (b.offset.y + b.extent.y) * 2 - b.offset.z)
  }

  function ProjD(b: BBox): (int, int)
  {
    (b.offset.x - (b.offset.y + b.extent.y), (b.offset.x + b.extent.x) - b.offset.y)
  }

  /** The projections of two boxes overlap pairwise on screen. */
  predicate ScreenOverlap(a: BBox, b: BBox)
  {
    && ProjX(a).1 > ProjX(b).0 && ProjX(b).1 > ProjX(a).0
    && ProjY(a).1 > ProjY(b).0 && ProjY(b).1 > ProjY(a).0
    && ProjD(a).1 > ProjD(b).0 && ProjD(b).1 > ProjD(a).0
  }

  /** Zero height at the same level, one of the two being the ground. */
  predicate FlatGroundPair(a: BBox, b: BBox)
  {
    a.extent.z == 0 && b.extent.z == 0 && a.offset.z == b.offset.z && a.isGround != b.isGround
  }

  /** `is_in_front(a, b)`: `a` must be drawn after `b`. */
  function IsInFront(a: BBox, b: BBox): (r: bool)
    ensures !ScreenOverlap(a, b) ==> !r
    ensures ScreenOverlap(a, b) && a.offset.x >= b.offset.x + b.extent.x ==> r
    ensures ScreenOverlap(a, b) && a.offset.y >= b.offset.y + b.extent.y ==> r
    ensures r && FlatGroundPair(a, b) ==> b.isGround
    ensures ScreenOverlap(a, b) && a.offset.x < b.offset.x + b.extent.x && a.offset.y < b.offset.y + b.extent.y ==>
      (r <==> if FlatGroundPair(a, b) then b.isGround else a.offset.z >= b.offset.z + b.extent.z)
  {
    var ox := Overlaps(ProjX(a).0, ProjX(a).1, ProjX(b).0, ProjX(b).1);
    var oy := Overlaps(ProjY(a).0, ProjY(a).1, ProjY(b).0, ProjY(b).1);
    var od := Overlaps(ProjD(a).0, ProjD(a).1, ProjD(b).0, ProjD(b).1);
    if !ox.value then false
    else if !oy.value then false
    else if !od.value then false
    else if a.offset.x >= b.offset.x + b.extent.x then true
    else if a.offset.y >= b.offset.y + b.extent.y then true
    else if a.offset.z == b.offset.z == a.offset.z + a.extent.z == b.offset.z + b.extent.z && a.isGround != b.isGround then
      b.isGround && !a.isGround
    else a.offset.z >= b.offset.z + b.extent.z
  }

  /** A box with a positive extent along every axis. */
  predicate Solid(b: BBox)
  {
    b.extent.x > 0 && b.extent.y > 0 && b.extent.z > 0
  }

  /** For solid boxes the in-front relation is asymmetric: two boxes are
      never each in front of the other. */
  lemma InFrontAsymmetric(a: BBox, b: BBox)
    requires Solid(a) && Solid(b)
    ensures !(IsInFront(a, b) && IsInFront(b, a))
  {
  }

  /** Of a flat ground box and a flat box at its height whose projections
      overlap, the other box is in front of the ground, not the reverse. */
  lemma GroundTieBreak(a: BBox, b: BBox)
    requires FlatGroundPair(a, b) && b.isGround && ScreenOverlap(a, b)
    requires a.offset.x < b.offset.x + b.extent.x && a.offset.y < b.offset.y + b.extent.y
    requires b.offset.x < a.offset.x + a.extent.x && b.offset.y < a.offset.y + a.extent.y
    ensures IsInFront(a, b) && !IsInFront(b, a)
  {
  }

  /** Two flat boxes at the same height, neither of them ground, whose
      projections overlap and which overlap along x and y, are each in front of
      the other. */
  lemma FlatTwinsInFront(a: BBox, b: BBox)
    requires a.extent.z == 0 && b.extent.z == 0 && a.offset.z == b.offset.z && !a.isGround && !b.isGround
    requires ScreenOverlap(a, b)
    ensures IsInFront(a, b) && IsInFront(b, a)
  {
  }

  // ---------------------------------------------------------------------------
  // The depth sorter

  /** `ALayout`, reduced to what the sorter reads. */
  datatype ALayout = ALayout(ground: Sprite, parents: seq<Sprite>, flattened: bool)

  /** The strict overlap of two boxes along all three axes. */
  predicate BoxesOverlap(a: BBox, b: BBox)
  {
    && a.offset.x + a.extent.x > b.offset.x && b.offset.x + b.extent.x > a.offset.x
    && a.offset.y + a.extent.y > b.offset.y && b.offset.y + b.extent.y > a.offset.y
    && a.offset.z + a.extent.z > b.offset.z && b.offset.z + b.extent.z > a.offset.z
  }

  /** The pairwise check fails on two different sprites: reading the offset of
      a sprite without a bounding box fails, and so do two overlapping boxes. */
  predicate Clash(i: Sprite, j: Sprite)
  {
    !i.position.Box? || !j.position.Box? || BoxesOverlap(i.position.box, j.position.box)
  }

  /** `is_in_front` on two sprites.  The sorter only asks it of two different
      sprites after the pairwise check, by which point both have boxes. */
  predicate Ahead(j: Sprite, k: Sprite)
  {
    j.position.Box? && k.position.Box? && IsInFront(j.position.box, k.position.box)
  }

  /** The non-empty parent sprites, in order. */
  function NonEmpty(s: seq<Sprite>): (r: seq<Sprite>)
    ensures forall x :: x in r <==> x in s && !IsEmpty(x)
    ensures |r| <= |s|
  {
    if s == [] then []
    else if IsEmpty(s[0]) then NonEmpty(s[1..])
    else [s[0]] + NonEmpty(s[1..])
  }

  /** The pairwise overlap assertions of `sorted_parent_sprites`. */
  function CheckPairs(s: seq<Sprite>): (r: Result<()>)
    ensures r.Err? <==> exists p, q | 0 <= p < |s| && 0 <= q < |s| :: s[p] != s[q] && Clash(s[p], s[q])
    ensures r.Err? ==> r.error == AssertionError
  {
    if exists p, q | 0 <= p < |s| && 0 <= q < |s| :: s[p] != s[q] && Clash(s[p], s[q]) then Err(AssertionError)
    else Ok(())
  }

  /** Sprite `j` may be placed once the sprites in `placed` are: no other
      unplaced sprite is one `j` is in front of. */
  predicate Placeable<X(==)>(s: seq<X>, placed: seq<X>, j: X, front: (X, X) -> bool)
  {
    forall k | k in s :: k != j && k !in placed ==> !front(j, k)
  }

  /** A sprite a round of the placement loop may pick. */
  predicate Candidate<X(==)>(s: seq<X>, placed: seq<X>, j: X, front: (X, X) -> bool)
  {
    j !in placed && Placeable(s, placed, j, front)
  }

  /** The inner loop of a placement round from position `from` on: the
      position of the first candidate, or None. */
  function FirstCandidate<X(==)>(s: seq<X>, placed: seq<X>, from: nat, front: (X, X) -> bool): (r: Option<nat>)
    requires from <= |s|
    ensures r.Some? ==> from <= r.value < |s| && Candidate(s, placed, s[r.value], front)
    ensures r.Some? ==> forall m {:trigger Candidate(s, placed, s[m], front)} | from <= m < r.value ::
      !Candidate(s, placed, s[m], front)
    ensures r.None? <==> forall m {:trigger Candidate(s, placed, s[m], front)} | from <= m < |s| ::
      !Candidate(s, placed, s[m], front)
    decreases |s| - from
  {
    if from == |s| then None
    else if Candidate(s, placed, s[from], front) then Some(from)
    else FirstCandidate(s, placed, from + 1, front)
  }

  /** The placement loop with `rounds` rounds left: each round appends the
      first candidate, and a round without one fails the length assertion. */
  function PlaceRounds<X(==)>(s: seq<X>, placed: seq<X>, rounds: nat, front: (X, X) -> bool): (r: Result<seq<X>>)
    ensures r.Err? ==> r.error == AssertionError
    ensures r.Ok? ==> |r.value| == |placed| + rounds
    decreases rounds
  {
    if rounds == 0 then Ok(placed)
    else
      match FirstCandidate(s, placed, 0, front)
      case None => Err(AssertionError)
      case Some(i) => PlaceRounds(s, placed + [s[i]], rounds - 1, front)
  }

  /** `sorted_parent_sprites`: a flattened layout keeps its parent sprites as
      they are; otherwise the non-empty ones are checked pairwise and then
      placed one per round. */
  function SortedParentSprites(l: ALayout): (r: Result<seq<Sprite>>)
    ensures l.flattened ==> r == Ok(l.parents)
    ensures r.Err? ==> r.error == AssertionError
    ensures !l.flattened && r.Ok? ==> |r.value| == |NonEmpty(l.parents)|
  {
    if l.flattened then Ok(l.parents)
    else
      var s := NonEmpty(l.parents);
      var _ :- CheckPairs(s);
      PlaceRounds(s, [], |s|, Ahead)
  }

  // ---------------------------------------------------------------------------
  // Sequence facts

  predicate Distinct<X(==)>(s: seq<X>)
  {
    forall p, q | 0 <= p < q < |s| :: s[p] != s[q]
  }

  lemma {:induction false} CardSetAtMostLength<X>(s: seq<X>)
    ensures |set x | x in s| <= |s|
    ensures Distinct(s) ==> |set x | x in s| == |s|
  {
    if s != [] {
      var t := s[..|s| - 1];
      CardSetAtMostLength(t);
      assert (set x | x in s) == (set x | x in t) + {s[|s| - 1]} by {
        assert s == t + [s[|s| - 1]];
      }
      if Distinct(s) {
        assert s[|s| - 1] !in t;
        assert Distinct(t);
      }
    }
  }

  lemma {:induction false} DistinctMultiset<X>(s: seq<X>, v: X)
    requires Distinct(s)
    ensures multiset(s)[v] == if v in s then 1 else 0
  {
    if s != [] {
      var t := s[..|s| - 1];
      assert s == t + [s[|s| - 1]];
      assert Distinct(t);
      DistinctMultiset(t, v);
      assert s[|s| - 1] !in t;
    }
  }

  lemma DistinctAppend<X>(s: seq<X>, x: X)
    requires Distinct(s) && x !in s
    ensures Distinct(s + [x])
  {
  }

  lemma SubsetCard<X>(A: set<X>, B: set<X>)
    requires A <= B
    ensures |A| <= |B|
    ensures |A| == |B| ==> A == B
  {
    assert B == A + (B - A);
  }

  /** A list with a repeat has fewer distinct elements than entries. */
  lemma DropOneCard<X>(s: seq<X>, q: nat, p: nat)
    requires p < q < |s| && s[p] == s[q]
    ensures |set x | x in s| < |s|
  {
    var t := s[..q] + s[q + 1..];
    assert s == s[..q] + [s[q]] + s[q + 1..];
    assert (set x | x in s) == (set x | x in t) by {
      assert s[q] == t[p];
    }
    CardSetAtMostLength(t);
  }

  /** A list without repeats that holds every element of `s` and is as long
      as `s` is a permutation of it, and `s` has no repeats either. */
  lemma PermutationByCount<X>(r: seq<X>, s: seq<X>)
    requires Distinct(r) && |r| == |s| && forall x | x in r :: x in s
    ensures Distinct(s) && multiset(r) == multiset(s)
  {
    var R, S := set x | x in r, set x | x in s;
    CardSetAtMostLength(r);
    CardSetAtMostLength(s);
    SubsetCard(R, S);
    if !Distinct(s) {
      var p, q :| 0 <= p < q < |s| && s[p] == s[q];
      DropOneCard(s, q, p);
      assert false;
    }
    assert R == S;
    forall v ensures multiset(r)[v] == multiset(s)[v] {
      DistinctMultiset(r, v);
      DistinctMultiset(s, v);
      assert v in r <==> v in R;
      assert v in s <==> v in S;
    }
  }

  // ---------------------------------------------------------------------------
  // What the placement loop computes

  /** Entry `i` of `r` is the first candidate of round `i`. */
  predicate PickedFirst<X(==)>(s: seq<X>, r: seq<X>, i: nat, front: (X, X) -> bool)
    requires i < |r|
  {
    var c := FirstCandidate(s, r[..i], 0, front);
    c.Some? && s[c.value] == r[i]
  }

  /** The run of the placement loop that produced `r`: every entry is the first
      candidate of its round. */
  predicate GreedyRun<X(==)>(s: seq<X>, r: seq<X>, front: (X, X) -> bool)
  {
    forall i | 0 <= i < |r| :: PickedFirst(s, r, i, front)
  }

  /** Appending the first candidate extends a greedy run. */
  lemma GreedyStep<X>(s: seq<X>, placed: seq<X>, front: (X, X) -> bool)
    requires GreedyRun(s, placed, front) && FirstCandidate(s, placed, 0, front).Some?
    ensures GreedyRun(s, placed + [s[FirstCandidate(s, placed, 0, front).value]], front)
  {
    var next := placed + [s[FirstCandidate(s, placed, 0, front).value]];
    forall n | 0 <= n < |next| ensures PickedFirst(s, next, n, front) {
      if n < |placed| {
        assert next[..n] == placed[..n];
        assert PickedFirst(s, placed, n, front);
      } else {
        assert next[..n] == placed;
      }
    }
  }

  /** A successful loop run extends what was placed by one first candidate per
      round, and the result has no repeats and only sprites of `s`. */
  lemma {:induction false} PlaceRoundsOk<X>(s: seq<X>, placed: seq<X>, rounds: nat, front: (X, X) -> bool)
    requires GreedyRun(s, placed, front) && Distinct(placed) && forall x | x in placed :: x in s
    requires PlaceRounds(s, placed, rounds, front).Ok?
    ensures var r := PlaceRounds(s, placed, rounds, front).value;
      && r[..|placed|] == placed
      && GreedyRun(s, r, front) && Distinct(r) && (forall x | x in r :: x in s)
    decreases rounds
  {
    if rounds > 0 {
      var i := FirstCandidate(s, placed, 0, front).value;
      var next := placed + [s[i]];
      GreedyStep(s, placed, front);
      DistinctAppend(placed, s[i]);
      PlaceRoundsOk(s, next, rounds - 1, front);
      var r := PlaceRounds(s, next, rounds - 1, front).value;
      assert r[..|placed|] == r[..|next|][..|placed|];
    }
  }

  /** In a greedy run, each sprite was placeable when it was placed, so it is
      in front of no sprite placed after it. */
  lemma GreedyOrder<X>(s: seq<X>, r: seq<X>, front: (X, X) -> bool)
    requires GreedyRun(s, r, front) && Distinct(r) && forall x | x in r :: x in s
    ensures forall p, q | 0 <= p < q < |r| :: !front(r[p], r[q])
  {
    forall p, q | 0 <= p < q < |r| ensures !front(r[p], r[q]) {
      assert PickedFirst(s, r, p, front);
      assert Candidate(s, r[..p], r[p], front);
      assert r[q] !in r[..p];
      assert r[q] in s;
    }
  }

  /** A set of sprites of which every one is in front of another one of them:
      none of them can ever be placed first. */
  ghost predicate Blocking<X>(s: seq<X>, B: set<X>, front: (X, X) -> bool)
  {
    && B != {}
    && (forall j | j in B :: j in s)
    && (forall j {:trigger HasBlocker(B, j, front)} | j in B :: HasBlocker(B, j, front))
  }

  /** Some other member of `B` is one `j` is in front of. */
  ghost predicate HasBlocker<X>(B: set<X>, j: X, front: (X, X) -> bool)
  {
    exists k | k in B :: k != j && front(j, k)
  }

  /** The unplaced sprites when a round finds no candidate block each other. */
  lemma StuckBlocks<X>(s: seq<X>, placed: seq<X>, front: (X, X) -> bool)
    requires FirstCandidate(s, placed, 0, front).None?
    requires exists k :: k in s && k !in placed
    ensures Blocking(s, (set k | k in s && k !in placed), front)
  {
    var B := set k | k in s && k !in placed;
    var k0 :| k0 in s && k0 !in placed;
    assert k0 in B;
    forall j | j in B ensures HasBlocker(B, j, front) {
      var m :| 0 <= m < |s| && s[m] == j;
      assert !Candidate(s, placed, s[m], front);
      var k :| k in s && k != j && k !in placed && front(j, k);
      assert k in B;
    }
  }

  /** When every sprite is placed but rounds remain, some sprite is listed twice. */
  lemma AllPlacedEarly<X>(s: seq<X>, placed: seq<X>)
    requires Distinct(placed) && |placed| < |s| && forall k | k in s :: k in placed
    ensures !Distinct(s)
  {
    CardSetAtMostLength(placed);
    CardSetAtMostLength(s);
    SubsetCard(set x | x in s, set x | x in placed);
  }

  /** When the loop fails, either a sprite is listed twice or the unplaced
      sprites of the failing round block each other. */
  lemma {:induction false} PlaceRoundsErr<X>(s: seq<X>, placed: seq<X>, rounds: nat, front: (X, X) -> bool)
    requires Distinct(placed) && (forall x | x in placed :: x in s) && |placed| + rounds == |s|
    requires PlaceRounds(s, placed, rounds, front).Err?
    ensures !Distinct(s) || exists B :: Blocking(s, B, front)
    decreases rounds
  {
    var c := FirstCandidate(s, placed, 0, front);
    if c.Some? {
      var next := placed + [s[c.value]];
      DistinctAppend(placed, s[c.value]);
      PlaceRoundsErr(s, next, rounds - 1, front);
    } else if exists k :: k in s && k !in placed {
      StuckBlocks(s, placed, front);
    } else {
      AllPlacedEarly(s, placed);
    }
  }

  /** The earliest position in `r` of an element of `B`. */
  lemma FirstIn<X>(r: seq<X>, B: set<X>, j: X) returns (p: nat)
    requires j in B && j in r
    ensures p < |r| && r[p] in B
    ensures forall q | 0 <= q < p :: r[q] !in B
  {
    p := 0;
    while r[p] !in B
      invariant p < |r| && forall q | 0 <= q < p :: r[q] !in B
      invariant j in r[p..]
      decreases |r| - p
    {
      p := p + 1;
    }
  }

  /** A run that places every sprite leaves no blocking set: the first sprite
      of the set to be placed is in front of none of the others. */
  lemma NoBlockingInRun<X>(s: seq<X>, r: seq<X>, B: set<X>, front: (X, X) -> bool)
    requires forall p, q | 0 <= p < q < |r| :: !front(r[p], r[q])
    requires forall x | x in s :: x in r
    ensures !Blocking(s, B, front)
  {
    if B != {} && forall j | j in B :: j in s {
      var j0 :| j0 in B;
      var first := FirstIn(r, B, j0);
      forall k | k in B && k != r[first] ensures !front(r[first], k) {
        var q :| 0 <= q < |r| && r[q] == k;
        assert q > first;
      }
      assert !HasBlocker(B, r[first], front);
    }
  }

  /** The whole placement loop: it succeeds exactly when no sprite is listed
      twice and no sprites block each other, and then it returns a
      permutation of `s`, built greedily, in which no sprite is in front of a
      later one. */
  lemma PlaceAll<X>(s: seq<X>, front: (X, X) -> bool)
    ensures PlaceRounds(s, [], |s|, front).Err? <==> !Distinct(s) || exists B :: Blocking(s, B, front)
    ensures PlaceRounds(s, [], |s|, front).Ok? ==>
      var r := PlaceRounds(s, [], |s|, front).value;
      && multiset(r) == multiset(s) && Distinct(r)
      && (forall p, q | 0 <= p < q < |r| :: !front(r[p], r[q]))
      && GreedyRun(s, r, front)
  {
    if PlaceRounds(s, [], |s|, front).Err? {
      PlaceRoundsErr(s, [], |s|, front);
    } else {
      PlaceRoundsOk(s, [], |s|, front);
      var r := PlaceRounds(s, [], |s|, front).value;
      PermutationByCount(r, s);
      GreedyOrder(s, r, front);
      forall x | x in s ensures x in r {
        assert multiset(r)[x] == multiset(s)[x];
      }
      forall B ensures !Blocking(s, B, front) {
        NoBlockingInRun(s, r, B, front);
      }
    }
  }

  /** Sprites that block each other make the placement loop fail. */
  lemma BlockingFails<X>(s: seq<X>, B: set<X>, front: (X, X) -> bool)
    requires Blocking(s, B, front)
    ensures PlaceRounds(s, [], |s|, front).Err?
  {
    PlaceAll(s, front);
  }

  // ---------------------------------------------------------------------------
  // What `sorted_parent_sprites` promises

  /** Once the pairwise check passes, the sort is the placement loop. */
  lemma SortIsPlacement(l: ALayout)
    requires !l.flattened && CheckPairs(NonEmpty(l.parents)).Ok?
    ensures SortedParentSprites(l) == PlaceRounds(NonEmpty(l.parents), [], |NonEmpty(l.parents)|, Ahead)
  {
  }

  /** A failing placement loop fails the sort, whatever the pairwise check says. */
  lemma SortFailsWithPlacement(l: ALayout)
    requires !l.flattened && PlaceRounds(NonEmpty(l.parents), [], |NonEmpty(l.parents)|, Ahead).Err?
    ensures SortedParentSprites(l) == Err(AssertionError)
  {
  }

  /** Non-empty parent sprites that block each other make the sort fail. */
  lemma SortFailsOnBlocking(l: ALayout, B: set<Sprite>)
    requires !l.flattened && Blocking(NonEmpty(l.parents), B, Ahead)
    ensures SortedParentSprites(l) == Err(AssertionError)
  {
    BlockingFails(NonEmpty(l.parents), B, Ahead);
    SortFailsWithPlacement(l);
  }

  /** On success the result lists every non-empty parent sprite exactly once,
      each sprite is in front of no sprite after it, and every entry is the
      first sprite in input order that could be placed in its round. */
  lemma SortedCorrect(l: ALayout)
    requires !l.flattened && SortedParentSprites(l).Ok?
    ensures var r := SortedParentSprites(l).value;
      && multiset(r) == multiset(NonEmpty(l.parents)) && Distinct(r)
      && (forall p, q | 0 <= p < q < |r| :: !Ahead(r[p], r[q]))
      && GreedyRun(NonEmpty(l.parents), r, Ahead)
  {
    SortIsPlacement(l);
    PlaceAll(NonEmpty(l.parents), Ahead);
  }

  /** A successful sort has checked that any two different sprites have
      boxes and that the boxes do not overlap. */
  lemma SortedBoxes(l: ALayout)
    requires !l.flattened && SortedParentSprites(l).Ok?
    ensures var s := NonEmpty(l.parents);
      forall p, q | 0 <= p < |s| && 0 <= q < |s| && s[p] != s[q] ::
        s[p].position.Box? && s[q].position.Box? && !BoxesOverlap(s[p].position.box, s[q].position.box)
  {
  }

  /** The sort fails exactly when two different non-empty sprites clash, a
      sprite is listed twice, or some sprites block each other. */
  lemma SortFailsIff(l: ALayout)
    requires !l.flattened
    ensures var s := NonEmpty(l.parents);
      SortedParentSprites(l).Err? <==>
        (exists p, q | 0 <= p < |s| && 0 <= q < |s| :: s[p] != s[q] && Clash(s[p], s[q]))
        || !Distinct(s) || exists B :: Blocking(s, B, Ahead)
  {
    if CheckPairs(NonEmpty(l.parents)).Ok? {
      SortIsPlacement(l);
      PlaceAll(NonEmpty(l.parents), Ahead);
    }
  }

  // ---------------------------------------------------------------------------
  // Examples

  /** A sprite drawing an authored graphic at a box, with no children or flags. */
  function BoxSprite(ref: nat, b: BBox): Sprite
  {
    Sprite(NewGraphic(ref), Box(b), [], map[])
  }

  /** Three solid boxes, no two of them overlapping, each in front of the next
      and the last in front of the first. */
  lemma InFrontCycle(a: BBox, b: BBox, c: BBox)
    requires a == BBox(Extent(2, 2, 4), Point(7, 2, 0), false)
    requires b == BBox(Extent(5, 5, 6), Point(2, 3, 3), false)
    requires c == BBox(Extent(6, 1, 1), Point(2, 2, 4), false)
    ensures Solid(a) && Solid(b) && Solid(c)
    ensures !BoxesOverlap(a, b) && !BoxesOverlap(b, c) && !BoxesOverlap(c, a)
    ensures IsInFront(a, b) && IsInFront(b, c) && IsInFront(c, a)
  {
  }

  /** Parent sprites none of which is empty are all kept. */
  lemma {:induction false} NonEmptyKeepsAll(s: seq<Sprite>)
    requires forall x | x in s :: !IsEmpty(x)
    ensures NonEmpty(s) == s
  {
    if s != [] {
      NonEmptyKeepsAll(s[1..]);
    }
  }

  /** Three sprites each in front of the next, the last in front of the
      first, block each other. */
  lemma CycleBlocks<X>(s: seq<X>, x: X, y: X, z: X, front: (X, X) -> bool)
    requires x in s && y in s && z in s && x != y && y != z && z != x
    requires front(x, y) && front(y, z) && front(z, x)
    ensures Blocking(s, {x, y, z}, front)
  {
    assert HasBlocker({x, y, z}, x, front) && HasBlocker({x, y, z}, y, front) && HasBlocker({x, y, z}, z, front);
  }

  /** Sprites at the three cyclic boxes block each other. */
  lemma CyclicSpritesBlock(s: seq<Sprite>, x: Sprite, y: Sprite, z: Sprite)
    requires x.position == Box(BBox(Extent(2, 2, 4), Point(7, 2, 0), false))
    requires y.position == Box(BBox(Extent(5, 5, 6), Point(2, 3, 3), false))
    requires z.position == Box(BBox(Extent(6, 1, 1), Point(2, 2, 4), false))
    requires x in s && y in s && z in s
    ensures Blocking(s, {x, y, z}, Ahead)
  {
    InFrontCycle(x.position.box, y.position.box, z.position.box);
    CycleBlocks(s, x, y, z, Ahead);
  }

  /** Any layout holding sprites at the three cyclic boxes cannot be sorted. */
  lemma CyclicLayoutFails(l: ALayout, x: Sprite, y: Sprite, z: Sprite)
    requires x.position == Box(BBox(Extent(2, 2, 4), Point(7, 2, 0), false))
    requires y.position == Box(BBox(Extent(5, 5, 6), Point(2, 3, 3), false))
    requires z.position == Box(BBox(Extent(6, 1, 1), Point(2, 2, 4), false))
    requires !l.flattened && x in l.parents && y in l.parents && z in l.parents
    requires !IsEmpty(x) && !IsEmpty(y) && !IsEmpty(z)
    ensures SortedParentSprites(l) == Err(AssertionError)
  {
    var s := NonEmpty(l.parents);
    CyclicSpritesBlock(s, x, y, z);
    SortFailsOnBlocking(l, {x, y, z});
  }

  /** Two sprites each in front of the other block each other. */
  lemma TwoCycleBlocks<X>(s: seq<X>, x: X, y: X, front: (X, X) -> bool)
    requires x in s && y in s && x != y && front(x, y) && front(y, x)
    ensures Blocking(s, {x, y}, front)
  {
    assert HasBlocker({x, y}, x, front) && HasBlocker({x, y}, y, front);
  }

  /** Two different flat sprites at the same height, neither of them ground,
      whose projections overlap make the sort fail: each is in front of the
      other. */
  lemma FlatTwinsFail(l: ALayout, x: Sprite, y: Sprite)
    requires x.position.Box? && y.position.Box?
    requires var a, b := x.position.box, y.position.box;
      a.extent.z == 0 && b.extent.z == 0 && a.offset.z == b.offset.z && !a.isGround && !b.isGround
      && ScreenOverlap(a, b)
    requires !l.flattened && x in l.parents && y in l.parents && x != y && !IsEmpty(x) && !IsEmpty(y)
    ensures SortedParentSprites(l) == Err(AssertionError)
  {
    FlatTwinsInFront(x.position.box, y.position.box);
    TwoCycleBlocks(NonEmpty(l.parents), x, y, Ahead);
    SortFailsOnBlocking(l, {x, y});
  }

  /** Placing two different sprites, the second in front of the first and
      not the reverse, puts the first one last. */
  lemma PlacePair<X>(u: X, v: X, front: (X, X) -> bool)
    requires u != v && front(u, v) && !front(v, u)
    ensures PlaceRounds([u, v], [], 2, front) == Ok([v, u])
  {
    var s := [u, v];
    assert !Candidate(s, [], s[0], front);
    assert Candidate(s, [], s[1], front);
    assert FirstCandidate(s, [], 0, front) == Some(1);
    assert Candidate(s, [v], s[0], front);
    assert FirstCandidate(s, [v], 0, front) == Some(0);
    assert [] + [s[1]] == [v];
    assert [v] + [s[0]] == [v, u];
    assert PlaceRounds(s, [v, u], 0, front) == Ok([v, u]);
    assert PlaceRounds(s, [v], 1, front) == Ok([v, u]);
  }

  /** The sort of two sprites neither of which is empty and which do not
      clash, the second one in front of the first and not the reverse. */
  lemma SortPair(l: ALayout, u: Sprite, v: Sprite)
    requires l.parents == [u, v] && !l.flattened && !IsEmpty(u) && !IsEmpty(v)
    requires u != v && !Clash(u, v) && !Clash(v, u)
    requires Ahead(u, v) && !Ahead(v, u)
    ensures SortedParentSprites(l) == Ok([v, u])
  {
    NonEmptyKeepsAll(l.parents);
    assert CheckPairs(l.parents).Ok?;
    SortIsPlacement(l);
    PlacePair(u, v, Ahead);
    assert NonEmpty(l.parents) == [u, v];
    assert |NonEmpty(l.parents)| == 2;
    assert PlaceRounds([u, v], [], 2, Ahead) == Ok([v, u]);
  }

  /** A flat box on the ground of the tile is drawn after the ground sprite
      even when it is listed first. */
  lemma GroundDrawnFirst(l: ALayout, flat: BBox)
    requires flat == BBox(Extent(4, 4, 0), Point(6, 6, 0), false)
    requires l.parents == [BoxSprite(0, flat), BoxSprite(1, GroundBox(true))] && !l.flattened
    ensures SortedParentSprites(l) == Ok([BoxSprite(1, GroundBox(true)), BoxSprite(0, flat)])
  {
    GroundTieBreak(flat, GroundBox(true));
    SortPair(l, BoxSprite(0, flat), BoxSprite(1, GroundBox(true)));
  }

  /** Two unit boxes two steps apart on the diagonal have disjoint `2x - z`
      intervals, so they do not meet on screen: neither is in front of the
      other and the sorter keeps them in input order. */
  lemma SideBySideUnordered(a: BBox, b: BBox)
    requires a == BBox(Extent(1, 1, 1), Point(0, 0, 0), false)
    requires b == BBox(Extent(1, 1, 1), Point(2, 2, 0), false)
    ensures !IsInFront(a, b) && !IsInFront(b, a)
  {
  }
}
