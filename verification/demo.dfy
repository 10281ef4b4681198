/** The demo grid of agrf/lib/building/demo.py: a grid of optional tiles,
    its per-tile render contexts, its transposed and mirrored views, and where
    `to_layout` places each tile.  Tiles are generic; their own T and M views
    are parameters. */
module Demo {
  import opened Wrappers

  // ---------------------------------------------------------------------------
  // Render contexts

  /** `RenderContext`: every field may be unset. */
  datatype RenderContext = RenderContext(climate: Option<string>, subclimate: Option<string>, railType: Option<string>)

  /** `RenderContext()`, the default of demo.py: nothing set. */
  const DefaultContext := RenderContext(None, None, None)

  /** Python truthiness of an optional string: set and non-empty. */
  predicate Truthy(s: Option<string>)
  {
    s.Some? && s.value != ""
  }

  /** Python's `a or b`. */
  function Or(a: Option<string>, b: Option<string>): (r: Option<string>)
    ensures Truthy(a) ==> r == a
    ensures !Truthy(a) ==> r == b
  {
    if Truthy(a) then a else b
  }

  /** `Demo`: rows of optional tiles, the demo-wide context fields and the
      optional explicit contexts. */
  datatype Demo<X> = Demo(
    tiles: seq<seq<Option<X>>>,
    climate: Option<string>,
    subclimate: Option<string>,
    railType: Option<string>,
    renderContexts: Option<seq<seq<RenderContext>>>)

  /** The context of one tile: each field of `rc` when truthy, else the demo's. */
  function Infer<X>(d: Demo<X>, rc: RenderContext): (r: RenderContext)
    ensures r.climate == (if Truthy(rc.climate) then rc.climate else d.climate)
    ensures r.subclimate == (if Truthy(rc.subclimate) then rc.subclimate else d.subclimate)
    ensures r.railType == (if Truthy(rc.railType) then rc.railType else d.railType)
  {
    RenderContext(Or(rc.climate, d.climate), Or(rc.subclimate, d.subclimate), Or(rc.railType, d.railType))
  }

  /** The explicit contexts reach every tile. */
  predicate CoversTiles<X>(tiles: seq<seq<Option<X>>>, rcs: seq<seq<RenderContext>>)
  {
    forall i | 0 <= i < |tiles| :: |tiles[i]| > 0 ==> i < |rcs| && |tiles[i]| <= |rcs[i]|
  }

  /** The same rows and row lengths. */
  predicate SameShape<X, Y>(a: seq<seq<X>>, b: seq<seq<Y>>)
  {
    |a| == |b| && forall i | 0 <= i < |a| :: |a[i]| == |b[i]|
  }

  /** `infer_render_contexts`: a grid shaped like the tiles, each entry taken
      from the explicit contexts when given and the default otherwise, with
      unset fields filled from the demo.  Explicit contexts that miss a tile
      are an IndexError. */
  function InferRenderContexts<X>(d: Demo<X>): (r: Result<seq<seq<RenderContext>>>)
    ensures r.Err? <==> d.renderContexts.Some? && !CoversTiles(d.tiles, d.renderContexts.value)
    ensures r.Err? ==> r.error == IndexError
    ensures r.Ok? ==> SameShape(r.value, d.tiles)
    ensures r.Ok? ==> forall i, j | 0 <= i < |d.tiles| && 0 <= j < |d.tiles[i]| ::
      r.value[i][j] == Infer(d, if d.renderContexts.Some? then d.renderContexts.value[i][j] else DefaultContext)
  {
    if d.renderContexts.Some? && !CoversTiles(d.tiles, d.renderContexts.value) then Err(IndexError)
    else
      Ok(seq(|d.tiles|, i requires 0 <= i < |d.tiles| =>
        seq(|d.tiles[i]|, j requires 0 <= j < |d.tiles[i]| =>
          Infer(d, if d.renderContexts.Some? then d.renderContexts.value[i][j] else DefaultContext))))
  }

  /** Without explicit contexts every tile gets the demo's own fields. */
  lemma DefaultContexts<X>(d: Demo<X>)
    requires d.renderContexts.None?
    ensures InferRenderContexts(d).Ok?
    ensures forall i, j | 0 <= i < |d.tiles| && 0 <= j < |d.tiles[i]| ::
      InferRenderContexts(d).value[i][j] == RenderContext(d.climate, d.subclimate, d.railType)
  {
  }

  /** An empty explicit field falls back like an unset one. */
  lemma EmptyFieldFallsBack<X>(d: Demo<X>)
    ensures Infer(d, RenderContext(Some(""), None, Some("monorail"))) ==
      RenderContext(d.climate, d.subclimate, Some("monorail"))
  {
  }

  // ---------------------------------------------------------------------------
  // Grid views

  /** `s[::-1]`. */
  function Reverse<T>(s: seq<T>): (r: seq<T>)
    ensures |r| == |s|
  {
    seq(|s|, i requires 0 <= i < |s| => s[|s| - 1 - i])
  }

  /** `tile and f(tile)`: an empty cell stays empty. */
  function Lift<X>(f: X -> X, t: Option<X>): (r: Option<X>)
    ensures r.None? <==> t.None?
  {
    if t.Some? then Some(f(t.value)) else None
  }

  /** Lifting an involution gives an involution. */
  lemma LiftTwice<X(!new)>(f: X -> X, t: Option<X>)
    requires Involution(f)
    ensures Lift(f, Lift(f, t)) == t
  {
  }

  /** A tile view over a row. */
  function MapTiles<X>(f: X -> X, row: seq<Option<X>>): (r: seq<Option<X>>)
    ensures |r| == |row|
  {
    seq(|row|, j requires 0 <= j < |row| => Lift(f, row[j]))
  }

  /** A tile view over every row. */
  function MapGrid<X>(f: X -> X, rows: seq<seq<Option<X>>>): (r: seq<seq<Option<X>>>)
    ensures |r| == |rows|
  {
    seq(|rows|, i requires 0 <= i < |rows| => MapTiles(f, rows[i]))
  }

  /** `row[::-1]` for every row. */
  function ReverseEach<T>(rows: seq<seq<T>>): (r: seq<seq<T>>)
    ensures |r| == |rows|
  {
    seq(|rows|, i requires 0 <= i < |rows| => Reverse(rows[i]))
  }

  /** The length of the shortest row; 0 without rows. */
  function Width<T>(rows: seq<seq<T>>): (w: nat)
    ensures forall i | 0 <= i < |rows| :: w <= |rows[i]|
    ensures rows == [] ==> w == 0
  {
    if rows == [] then 0
    else if |rows| == 1 then |rows[0]|
    else
      var w := Width(rows[1..]);
      assert forall i | 1 <= i < |rows| :: rows[i] == rows[1..][i - 1];
      if |rows[0]| <= w then |rows[0]| else w
  }

  /** Some row is exactly as long as the width. */
  lemma {:induction false} WidthAttained<T>(rows: seq<seq<T>>)
    requires rows != []
    ensures exists i | 0 <= i < |rows| :: Width(rows) == |rows[i]|
  {
    if |rows| == 1 {
      assert Width(rows) == |rows[0]|;
    } else {
      WidthAttained(rows[1..]);
      var k :| 0 <= k < |rows[1..]| && Width(rows[1..]) == |rows[1..][k]|;
      assert rows[1..][k] == rows[k + 1];
      if Width(rows) == |rows[0]| {
        assert 0 <= 0 < |rows| && Width(rows) == |rows[0]|;
      } else {
        assert 0 <= k + 1 < |rows| && Width(rows) == |rows[k + 1]|;
      }
    }
  }

  /** `list(zip(*rows))`: the columns, as many as the shortest row is long. */
  function Zip<T>(rows: seq<seq<T>>): (r: seq<seq<T>>)
    ensures |r| == Width(rows)
  {
    seq(Width(rows), j requires 0 <= j < Width(rows) => seq(|rows|, i requires 0 <= i < |rows| => rows[i][j]))
  }

  /** `Demo.T`: the rows in reverse order, each tile replaced by its T view.
      Explicit contexts make it an AssertionError. */
  function DemoT<X>(tileT: X -> X, d: Demo<X>): (r: Result<Demo<X>>)
    ensures r.Err? <==> d.renderContexts.Some?
    ensures r.Err? ==> r.error == AssertionError
    ensures r.Ok? ==> r.value.(tiles := d.tiles) == d
  {
    if d.renderContexts.Some? then Err(AssertionError)
    else Ok(d.(tiles := MapGrid(tileT, Reverse(d.tiles))))
  }

  /** `Demo.M`: the columns in reverse order (`zip(*tiles)[::-1]`), each
      reversed, each tile replaced by its M view. */
  function DemoM<X>(tileM: X -> X, d: Demo<X>): (r: Result<Demo<X>>)
    ensures r.Err? <==> d.renderContexts.Some?
    ensures r.Err? ==> r.error == AssertionError
    ensures r.Ok? ==> r.value.(tiles := d.tiles) == d
  {
    if d.renderContexts.Some? then Err(AssertionError)
    else Ok(d.(tiles := MapGrid(tileM, Mirror(d.tiles))))
  }

  /** T moves the tile at (r, c) to (R-1-r, c), applying the tile's T view. */
  lemma DemoTMoves<X>(tileT: X -> X, d: Demo<X>)
    requires d.renderContexts.None?
    ensures var t := DemoT(tileT, d).value.tiles;
      |t| == |d.tiles| &&
      forall i | 0 <= i < |t| :: |t[i]| == |d.tiles[|d.tiles| - 1 - i]| &&
        forall j | 0 <= j < |t[i]| :: t[i][j] == Lift(tileT, d.tiles[|d.tiles| - 1 - i][j])
  {
    var t := DemoT(tileT, d).value.tiles;
    forall i | 0 <= i < |t|
      ensures |t[i]| == |d.tiles[|d.tiles| - 1 - i]|
      ensures forall j | 0 <= j < |t[i]| :: t[i][j] == Lift(tileT, d.tiles[|d.tiles| - 1 - i][j])
    {
      assert t[i] == MapTiles(tileT, Reverse(d.tiles)[i]);
    }
  }

  /** The grid turned as `Demo.M` turns it: cell (i, j) of the result is
      cell (R-1-j, C-1-i) of an R-row grid whose shortest row has C tiles. */
  function Mirror<T>(rows: seq<seq<T>>): (r: seq<seq<T>>)
    ensures |r| == Width(rows)
  {
    var w := Width(rows);
    seq(w, i requires 0 <= i < w => seq(|rows|, j requires 0 <= j < |rows| => rows[|rows| - 1 - j][w - 1 - i]))
  }

  /** The turn is `zip(*rows)` reversed, each column reversed. */
  lemma MirrorIsReversedZip<T>(rows: seq<seq<T>>)
    ensures Mirror(rows) == ReverseEach(Reverse(Zip(rows)))
  {
    var m, z := Mirror(rows), ReverseEach(Reverse(Zip(rows)));
    var w, n := Width(rows), |rows|;
    forall i | 0 <= i < w ensures m[i] == z[i] {
      var col := Zip(rows)[w - 1 - i];
      assert z[i] == Reverse(col);
      forall j | 0 <= j < n ensures m[i][j] == z[i][j] {
        assert Reverse(col)[j] == col[n - 1 - j];
      }
    }
  }

  /** Where a tile view over the mirror puts one cell. */
  lemma MirrorMapCell<X>(f: X -> X, rows: seq<seq<Option<X>>>, i: nat, j: nat)
    requires i < Width(rows) && j < |rows|
    ensures var g := MapGrid(f, Mirror(rows));
      |g| == Width(rows) && |g[i]| == |rows| &&
      g[i][j] == Lift(f, rows[|rows| - 1 - j][Width(rows) - 1 - i])
  {
    var m := Mirror(rows);
    assert MapGrid(f, m)[i] == MapTiles(f, m[i]);
  }

  /** Where M puts one tile. */
  lemma DemoMCell<X>(tileM: X -> X, d: Demo<X>, i: nat, j: nat)
    requires d.renderContexts.None? && i < Width(d.tiles) && j < |d.tiles|
    ensures var t := DemoM(tileM, d).value.tiles;
      |t| == Width(d.tiles) && |t[i]| == |d.tiles| &&
      t[i][j] == Lift(tileM, d.tiles[|d.tiles| - 1 - j][Width(d.tiles) - 1 - i])
  {
    MirrorMapCell(tileM, d.tiles, i, j);
  }

  /** M turns an R x C grid (C its shortest row) into a C x R grid and moves
      the tile at (r, c) to (C-1-c, R-1-r), applying the tile's M view. */
  lemma DemoMMoves<X>(tileM: X -> X, d: Demo<X>)
    requires d.renderContexts.None?
    ensures var t := DemoM(tileM, d).value.tiles;
      var rows, cols := |d.tiles|, Width(d.tiles);
      |t| == cols &&
      forall i | 0 <= i < cols :: |t[i]| == rows &&
        forall j | 0 <= j < rows :: t[i][j] == Lift(tileM, d.tiles[rows - 1 - j][cols - 1 - i])
  {
    var g := MapGrid(tileM, Mirror(d.tiles));
    var rows, cols := |d.tiles|, Width(d.tiles);
    forall i | 0 <= i < cols
      ensures |g[i]| == rows
      ensures forall j | 0 <= j < rows :: g[i][j] == Lift(tileM, d.tiles[rows - 1 - j][cols - 1 - i])
    {
      assert |g[i]| == |Mirror(d.tiles)[i]|;
      forall j | 0 <= j < rows ensures g[i][j] == Lift(tileM, d.tiles[rows - 1 - j][cols - 1 - i]) {
        MirrorMapCell(tileM, d.tiles, i, j);
      }
    }
  }

  /** Every row has the same length. */
  predicate Rectangular<T>(rows: seq<seq<T>>)
  {
    forall i | 0 <= i < |rows| :: |rows[i]| == |rows[0]|
  }

  /** The rows cut to the length of the shortest one, as a round trip through
      `zip` leaves them. */
  function Truncated<T>(rows: seq<seq<T>>): (r: seq<seq<T>>)
    ensures |r| == |rows|
    ensures forall i | 0 <= i < |rows| :: r[i] == rows[i][..Width(rows)]
  {
    seq(|rows|, i requires 0 <= i < |rows| => rows[i][..Width(rows)])
  }

  /** The width of a grid whose rows all have length `n` is `n`. */
  lemma WidthOfRectangle<T>(rows: seq<seq<T>>, n: nat)
    requires rows != [] && forall i | 0 <= i < |rows| :: |rows[i]| == n
    ensures Width(rows) == n
  {
    WidthAttained(rows);
  }

  /** Truncating a rectangular grid changes nothing. */
  lemma TruncatedRectangle<T>(rows: seq<seq<T>>)
    requires Rectangular(rows)
    ensures Truncated(rows) == rows
  {
    if rows != [] {
      WidthOfRectangle(rows, |rows[0]|);
      var tr := Truncated(rows);
      forall i | 0 <= i < |rows| ensures tr[i] == rows[i] {
        assert tr[i] == rows[i][..|rows[i]|];
      }
    }
  }

  /** A tile view that undoes itself. */
  ghost predicate Involution<X(!new)>(f: X -> X)
  {
    forall x :: f(f(x)) == x
  }

  /** T twice restores the grid when the tiles' T is an involution. */
  lemma DemoTInvolution<X(!new)>(tileT: X -> X, d: Demo<X>)
    requires d.renderContexts.None? && Involution(tileT)
    ensures DemoT(tileT, d).Ok? && DemoT(tileT, DemoT(tileT, d).value) == Ok(d)
  {
    var d1 := DemoT(tileT, d).value;
    DemoTMoves(tileT, d);
    DemoTMoves(tileT, d1);
    var t1 := d1.tiles;
    var t2 := DemoT(tileT, d1).value.tiles;
    var n := |d.tiles|;
    forall i | 0 <= i < n ensures t2[i] == d.tiles[i] {
      forall j | 0 <= j < |t2[i]| ensures t2[i][j] == d.tiles[i][j] {
        assert t2[i][j] == Lift(tileT, t1[n - 1 - i][j]);
        assert t1[n - 1 - i][j] == Lift(tileT, d.tiles[i][j]);
        LiftTwice(tileT, d.tiles[i][j]);
      }
    }
    assert t2 == d.tiles;
  }

  /** Mirroring a grid with at least one column gives a grid whose rows all
      have the original number of rows as length. */
  lemma MirrorMapWidth<X>(f: X -> X, rows: seq<seq<Option<X>>>)
    requires Width(rows) > 0
    ensures Width(MapGrid(f, Mirror(rows))) == |rows|
  {
    var g1 := MapGrid(f, Mirror(rows));
    forall i | 0 <= i < |g1| ensures |g1[i]| == |rows| {
      MirrorMapCell(f, rows, i, 0);
    }
    WidthOfRectangle(g1, |rows|);
  }

  /** Mirroring twice under an involutive tile view restores one cell. */
  lemma MirrorTwiceCell<X(!new)>(f: X -> X, rows: seq<seq<Option<X>>>, i: nat, j: nat)
    requires Involution(f) && i < |rows| && j < Width(rows)
    ensures var g2 := MapGrid(f, Mirror(MapGrid(f, Mirror(rows))));
      |g2| == |rows| && |g2[i]| == Width(rows) && g2[i][j] == rows[i][j]
  {
    var cols, n := Width(rows), |rows|;
    MirrorMapWidth(f, rows);
    var g1 := MapGrid(f, Mirror(rows));
    var g2 := MapGrid(f, Mirror(g1));
    MirrorMapCell(f, g1, i, j);
    assert g2[i][j] == Lift(f, g1[cols - 1 - j][n - 1 - i]);
    MirrorMapCell(f, rows, cols - 1 - j, n - 1 - i);
    assert g1[cols - 1 - j][n - 1 - i] == Lift(f, rows[i][j]);
    LiftTwice(f, rows[i][j]);
  }

  /** Mirroring twice under an involutive tile view truncates the grid. */
  lemma MirrorTwice<X(!new)>(f: X -> X, rows: seq<seq<Option<X>>>)
    requires Involution(f) && Width(rows) > 0
    ensures MapGrid(f, Mirror(MapGrid(f, Mirror(rows)))) == Truncated(rows)
  {
    var g2 := MapGrid(f, Mirror(MapGrid(f, Mirror(rows))));
    var tr := Truncated(rows);
    MirrorTwiceCell(f, rows, 0, 0);
    forall i | 0 <= i < |rows| ensures g2[i] == tr[i] {
      MirrorTwiceCell(f, rows, i, 0);
      forall j | 0 <= j < Width(rows) ensures g2[i][j] == tr[i][j] {
        MirrorTwiceCell(f, rows, i, j);
      }
    }
  }

  /** M twice cuts every row to the shortest one, and otherwise restores the
      grid when the tiles' M is an involution: `zip` drops the overhang of a
      ragged grid. */
  lemma DemoMTwice<X(!new)>(tileM: X -> X, d: Demo<X>)
    requires d.renderContexts.None? && Involution(tileM)
    requires Width(d.tiles) > 0
    ensures DemoM(tileM, d).Ok? && DemoM(tileM, DemoM(tileM, d).value) == Ok(d.(tiles := Truncated(d.tiles)))
  {
    MirrorTwice(tileM, d.tiles);
  }

  /** On a rectangular grid M twice is the identity. */
  lemma DemoMInvolution<X(!new)>(tileM: X -> X, d: Demo<X>)
    requires d.renderContexts.None? && Involution(tileM)
    requires Rectangular(d.tiles) && Width(d.tiles) > 0
    ensures DemoM(tileM, d).Ok? && DemoM(tileM, DemoM(tileM, d).value) == Ok(d)
  {
    DemoMTwice(tileM, d);
    TruncatedRectangle(d.tiles);
  }

  /** A ragged grid does not survive M twice: the overhanging tile is lost. */
  lemma DemoMDropsOverhang<X(!new)>(tileM: X -> X, d: Demo<X>, a: X, b: X, c: X)
    requires d.tiles == [[Some(a), Some(b)], [Some(c)]] && d.renderContexts.None? && Involution(tileM)
    ensures DemoM(tileM, d).Ok? && DemoM(tileM, DemoM(tileM, d).value) == Ok(d.(tiles := [[Some(a)], [Some(c)]]))
  {
    assert Width(d.tiles) == 1 by {
      assert |d.tiles[1]| == 1;
    }
    DemoMTwice(tileM, d);
    var tr := Truncated(d.tiles);
    assert tr[0] == d.tiles[0][..1] == [Some(a)];
    assert tr[1] == d.tiles[1][..1] == [Some(c)];
    assert tr == [[Some(a)], [Some(c)]];
  }

  // ---------------------------------------------------------------------------
  // `to_layout`

  /** One tile placed in the layout: its context and its translation. */
  datatype Placement<X> = Placement(tile: X, context: RenderContext, dx: int, dy: int)

  /** The translation of the tile at column `j` of row `r` (of length `len`)
      in a grid of `rows` rows whose first row has `columns` tiles: `c` counts
      from the row's end. */
  function Offset(r: int, j: int, len: int, rows: int, columns: int): (o: (int, int))
  {
    ((len - 1 - j) * 16 - (columns - 1) * 8, r * 16 - (rows - 1) * 8)
  }

  /** The inner loop of `to_layout` over `row[::-1]`, from position `c` on. */
  function RowPlacements<X>(row: seq<Option<X>>, ctx: seq<RenderContext>, r: int, rows: int, columns: int, c: nat): (ps: seq<Placement<X>>)
    requires |ctx| == |row| && c <= |row|
    decreases |row| - c
  {
    if c == |row| then []
    else
      var rest := RowPlacements(row, ctx, r, rows, columns, c + 1);
      var tile := row[|row| - 1 - c];
      if tile.None? then rest
      else [Placement(tile.value, ctx[|row| - 1 - c], c * 16 - (columns - 1) * 8, r * 16 - (rows - 1) * 8)] + rest
  }

  /** The outer loop of `to_layout` from row `r` on. */
  function GridPlacements<X>(tiles: seq<seq<Option<X>>>, ctx: seq<seq<RenderContext>>, rows: int, columns: int, r: nat): (ps: seq<Placement<X>>)
    requires SameShape(ctx, tiles) && r <= |tiles|
    decreases |tiles| - r
  {
    if r == |tiles| then []
    else RowPlacements(tiles[r], ctx[r], r, rows, columns, 0) + GridPlacements(tiles, ctx, rows, columns, r + 1)
  }

  /** `to_layout`, up to the sprites each tile contributes: the placed tiles
      in drawing order.  A grid without rows is an IndexError. */
  function ToLayout<X>(d: Demo<X>): (r: Result<seq<Placement<X>>>)
    ensures r.Ok? <==> d.tiles != [] && InferRenderContexts(d).Ok?
    ensures r.Err? ==> r.error == IndexError
  {
    var ctx :- InferRenderContexts(d);
    if d.tiles == [] then Err(IndexError)
    else Ok(GridPlacements(d.tiles, ctx, |d.tiles|, |d.tiles[0]|, 0))
  }

  /** The number of tiles present in a row. */
  function CountRow<X>(row: seq<Option<X>>): (n: nat)
    ensures n <= |row|
  {
    if row == [] then 0 else (if row[|row| - 1].Some? then 1 else 0) + CountRow(row[..|row| - 1])
  }

  /** The number of tiles present in the rows from `r` on. */
  function CountGrid<X>(tiles: seq<seq<Option<X>>>, r: nat): (n: nat)
    requires r <= |tiles|
    decreases |tiles| - r
  {
    if r == |tiles| then 0 else CountRow(tiles[r]) + CountGrid(tiles, r + 1)
  }

  /** The number of tiles present in a list of rows. */
  function CountRows<X>(rows: seq<seq<Option<X>>>): (n: nat)
  {
    if rows == [] then 0 else CountRow(rows[0]) + CountRows(rows[1..])
  }

  /** How many present tiles precede the cell `(i, j)` when the grid is read
      row by row, each row from its last column to its first. */
  function Rank<X>(tiles: seq<seq<Option<X>>>, i: nat, j: nat): (k: nat)
    requires i < |tiles| && j < |tiles[i]|
  {
    CountRows(tiles[..i]) + CountRow(tiles[i][j + 1..])
  }

  /** The placement of the present cell `(i, j)`: its tile, its context and
      the translation of `Offset`. */
  function PlacementOf<X>(tiles: seq<seq<Option<X>>>, ctx: seq<seq<RenderContext>>, i: nat, j: nat, rows: int, columns: int): (p: Placement<X>)
    requires SameShape(ctx, tiles) && i < |tiles| && j < |tiles[i]| && tiles[i][j].Some?
  {
    var o := Offset(i, j, |tiles[i]|, rows, columns);
    Placement(tiles[i][j].value, ctx[i][j], o.0, o.1)
  }

  /** Within the row loop from `c` on, the present tile at column `j` comes
      after exactly the present tiles to its right. */
  lemma {:induction false} RowPlacementsAt<X>(row: seq<Option<X>>, ctx: seq<RenderContext>, r: int, rows: int, columns: int, c: nat, j: nat)
    requires |ctx| == |row| && c <= |row| && j < |row| - c && row[j].Some?
    ensures var ps := RowPlacements(row, ctx, r, rows, columns, c);
      var k := CountRow(row[j + 1..|row| - c]);
      var o := Offset(r, j, |row|, rows, columns);
      k < |ps| && ps[k] == Placement(row[j].value, ctx[j], o.0, o.1)
    decreases |row| - c
  {
    var last := |row| - 1 - c;
    var ps := RowPlacements(row, ctx, r, rows, columns, c);
    var rest := RowPlacements(row, ctx, r, rows, columns, c + 1);
    var pre: seq<Placement<X>> := if row[last].None? then [] else [Placement(row[last].value, ctx[last], c * 16 - (columns - 1) * 8, r * 16 - (rows - 1) * 8)];
    assert ps == pre + rest;
    if j < last {
      RowPlacementsAt(row, ctx, r, rows, columns, c + 1, j);
      var s := row[j + 1..|row| - c];
      assert s[..|s| - 1] == row[j + 1..|row| - (c + 1)];
      assert s[|s| - 1] == row[last];
      assert CountRow(s) == |pre| + CountRow(row[j + 1..|row| - (c + 1)]);
    } else {
      assert row[j + 1..|row| - c] == [];
      assert ps[0] == pre[0];
    }
  }

  /** Within the grid loop from row `r` on, the present tile at `(i, j)` comes
      after the present tiles of the rows between and those to its right. */
  lemma {:induction false} GridPlacementsAt<X>(tiles: seq<seq<Option<X>>>, ctx: seq<seq<RenderContext>>, rows: int, columns: int, r: nat, i: nat, j: nat)
    requires SameShape(ctx, tiles) && r <= i < |tiles| && j < |tiles[i]| && tiles[i][j].Some?
    ensures var ps := GridPlacements(tiles, ctx, rows, columns, r);
      var k := CountRows(tiles[r..i]) + CountRow(tiles[i][j + 1..]);
      k < |ps| && ps[k] == PlacementOf(tiles, ctx, i, j, rows, columns)
    decreases i - r
  {
    var head := RowPlacements(tiles[r], ctx[r], r, rows, columns, 0);
    if i == r {
      RowPlacementsAt(tiles[r], ctx[r], r, rows, columns, 0, j);
      assert tiles[i][j + 1..|tiles[i]| - 0] == tiles[i][j + 1..];
      assert tiles[r..i] == [];
    } else {
      GridPlacementsAt(tiles, ctx, rows, columns, r + 1, i, j);
      RowPlacementsCount(tiles[r], ctx[r], r, rows, columns, 0);
      assert tiles[r][..|tiles[r]| - 0] == tiles[r];
      var s := tiles[r..i];
      assert s[0] == tiles[r] && s[1..] == tiles[r + 1..i];
    }
  }

  /** Every placement of a row is a tile present at some column `j`, with that
      tile's own context and the translation of `Offset`. */
  lemma {:induction false} RowPlacementsSound<X>(row: seq<Option<X>>, ctx: seq<RenderContext>, r: int, rows: int, columns: int, c: nat)
    requires |ctx| == |row| && c <= |row|
    ensures forall p | p in RowPlacements(row, ctx, r, rows, columns, c) ::
      exists j | 0 <= j < |row| - c :: row[j] == Some(p.tile) && p.context == ctx[j] && (p.dx, p.dy) == Offset(r, j, |row|, rows, columns)
    decreases |row| - c
  {
    if c < |row| {
      RowPlacementsSound(row, ctx, r, rows, columns, c + 1);
      var j := |row| - 1 - c;
      forall p | p in RowPlacements(row, ctx, r, rows, columns, c + 1)
        ensures exists j' | 0 <= j' < |row| - c :: row[j'] == Some(p.tile) && p.context == ctx[j'] && (p.dx, p.dy) == Offset(r, j', |row|, rows, columns)
      {
        var j' :| 0 <= j' < |row| - (c + 1) && row[j'] == Some(p.tile) && p.context == ctx[j'] && (p.dx, p.dy) == Offset(r, j', |row|, rows, columns);
      }
      if row[j].Some? {
        var p := Placement(row[j].value, ctx[j], c * 16 - (columns - 1) * 8, r * 16 - (rows - 1) * 8);
        assert (p.dx, p.dy) == Offset(r, j, |row|, rows, columns);
      }
    }
  }

  /** A row places exactly its present tiles, once each. */
  lemma {:induction false} RowPlacementsCount<X>(row: seq<Option<X>>, ctx: seq<RenderContext>, r: int, rows: int, columns: int, c: nat)
    requires |ctx| == |row| && c <= |row|
    ensures |RowPlacements(row, ctx, r, rows, columns, c)| == CountRow(row[..|row| - c])
    decreases |row| - c
  {
    if c < |row| {
      RowPlacementsCount(row, ctx, r, rows, columns, c + 1);
      var pre := row[..|row| - c];
      assert pre[..|pre| - 1] == row[..|row| - (c + 1)];
      assert pre[|pre| - 1] == row[|row| - 1 - c];
      assert CountRow(pre) == (if pre[|pre| - 1].Some? then 1 else 0) + CountRow(pre[..|pre| - 1]);
    }
  }

  lemma {:induction false} GridPlacementsFacts<X>(tiles: seq<seq<Option<X>>>, ctx: seq<seq<RenderContext>>, rows: int, columns: int, r: nat)
    requires SameShape(ctx, tiles) && r <= |tiles|
    ensures |GridPlacements(tiles, ctx, rows, columns, r)| == CountGrid(tiles, r)
    ensures forall p | p in GridPlacements(tiles, ctx, rows, columns, r) ::
      exists i, j | r <= i < |tiles| && 0 <= j < |tiles[i]| ::
        tiles[i][j] == Some(p.tile) && p.context == ctx[i][j] && (p.dx, p.dy) == Offset(i, j, |tiles[i]|, rows, columns)
    decreases |tiles| - r
  {
    if r < |tiles| {
      var head := RowPlacements(tiles[r], ctx[r], r, rows, columns, 0);
      var tail := GridPlacements(tiles, ctx, rows, columns, r + 1);
      RowPlacementsSound(tiles[r], ctx[r], r, rows, columns, 0);
      RowPlacementsCount(tiles[r], ctx[r], r, rows, columns, 0);
      assert tiles[r][..|tiles[r]| - 0] == tiles[r];
      GridPlacementsFacts(tiles, ctx, rows, columns, r + 1);
      forall p: Placement<X> | p in head + tail
        ensures exists i, j | r <= i < |tiles| && 0 <= j < |tiles[i]| ::
          tiles[i][j] == Some(p.tile) && p.context == ctx[i][j] && (p.dx, p.dy) == Offset(i, j, |tiles[i]|, rows, columns)
      {
        if p in head {
          var j :| 0 <= j < |tiles[r]| && tiles[r][j] == Some(p.tile) && p.context == ctx[r][j] && (p.dx, p.dy) == Offset(r, j, |tiles[r]|, rows, columns);
        }
      }
    }
  }

  /** `to_layout` places exactly the present tiles, in the order of the loop:
      the placement at position `Rank(i, j)` is the tile of cell `(i, j)` with
      its own inferred context, shifted right-to-left by 16 per column and
      down by 16 per row, and centred on the grid the first row spans.  As
      there are as many placements as present tiles, every placement is one
      of these. */
  lemma ToLayoutPlaces<X>(d: Demo<X>)
    requires ToLayout(d).Ok?
    ensures var ctx := InferRenderContexts(d).value;
      var ps := ToLayout(d).value;
      && |ps| == CountGrid(d.tiles, 0)
      && (forall i, j | 0 <= i < |d.tiles| && 0 <= j < |d.tiles[i]| && d.tiles[i][j].Some? ::
            Rank(d.tiles, i, j) < |ps| &&
            ps[Rank(d.tiles, i, j)] == PlacementOf(d.tiles, ctx, i, j, |d.tiles|, |d.tiles[0]|))
      && (forall p | p in ps :: exists i, j | 0 <= i < |d.tiles| && 0 <= j < |d.tiles[i]| ::
            d.tiles[i][j] == Some(p.tile) && p.context == ctx[i][j] &&
            (p.dx, p.dy) == ((|d.tiles[i]| - 1 - j) * 16 - (|d.tiles[0]| - 1) * 8, i * 16 - (|d.tiles| - 1) * 8))
  {
    var ctx := InferRenderContexts(d).value;
    GridPlacementsFacts(d.tiles, ctx, |d.tiles|, |d.tiles[0]|, 0);
    forall i, j | 0 <= i < |d.tiles| && 0 <= j < |d.tiles[i]| && d.tiles[i][j].Some?
      ensures Rank(d.tiles, i, j) < |ToLayout(d).value| &&
        ToLayout(d).value[Rank(d.tiles, i, j)] == PlacementOf(d.tiles, ctx, i, j, |d.tiles|, |d.tiles[0]|)
    {
      GridPlacementsAt(d.tiles, ctx, |d.tiles|, |d.tiles[0]|, 0, i, j);
      assert d.tiles[0..i] == d.tiles[..i];
    }
  }
}
