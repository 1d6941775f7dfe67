/**
 * The geometry of `compose_layer`: a layer's tile grid is drawn onto a
 * transparent canvas sized by the first tile, each named tile at its cell's
 * offset, and the canvas is cropped from the origin to the target size.
 *
 * Pixels are abstract. A tile image is known by its name and size; a
 * picture is its size and the tiles drawn onto it, in drawing order; and a
 * canvas pixel is the stack of tile pixels drawn over it, bottom first
 * (the image library blends that stack over transparency).
 */
module Compose {
  import opened Wrappers
  import Descriptor

  datatype Size = Size(w: nat, h: nat)

  /** The tile images that can be loaded, by tile name, with their sizes. */
  type TileStore = map<string, Size>

  /** A named cell of the grid: column `x`, row `y`. */
  datatype Cell = Cell(x: nat, y: nat, name: string)

  /** A tile drawn with its top-left corner at (`left`, `top`). */
  datatype Placed = Placed(name: string, left: nat, top: nat, size: Size)

  /** An image of `width` by `height` pixels: transparent, then `placed` drawn over it in order. */
  datatype Picture = Picture(width: nat, height: nat, placed: seq<Placed>)

  /** Pixel (`i`, `j`) of the tile image `name`. */
  datatype TilePixel = TilePixel(name: string, i: nat, j: nat)

  /**
   * Why a layer cannot be composed: a tile it names cannot be loaded, or
   * the canvas size or a tile's offset leaves `u32` (a panic in the
   * source's checked arithmetic).
   */
  datatype ComposeError = MissingTile(name: string) | Overflow

  function Min(a: nat, b: nat): nat {
    if a <= b then a else b
  }

  // ----- the cells of a grid -----

  /** `a` comes before `b` in row-major order. */
  predicate Before(a: Cell, b: Cell) {
    a.y < b.y || (a.y == b.y && a.x < b.x)
  }

  predicate RowMajor(cells: seq<Cell>) {
    forall i, j :: 0 <= i < j < |cells| ==> Before(cells[i], cells[j])
  }

  /** Cell `c` is a non-empty entry of the grid, where it says it is. */
  predicate InGrid(tiles: seq<seq<string>>, c: Cell) {
    c.y < |tiles| && c.x < |tiles[c.y]| && tiles[c.y][c.x] == c.name && c.name != ""
  }

  /** The non-empty cells of row `y` from column `x` on, left to right. */
  function RowCells(row: seq<string>, y: nat, x: nat): (r: seq<Cell>)
    requires x <= |row|
    ensures forall k :: 0 <= k < |r| ==> r[k].y == y && x <= r[k].x < |row| && row[r[k].x] == r[k].name && r[k].name != ""
    ensures forall i, j :: 0 <= i < j < |r| ==> r[i].x < r[j].x
    decreases |row| - x
  {
    if x == |row| then []
    else
      var rest := RowCells(row, y, x + 1);
      if row[x] == "" then rest else [Cell(x, y, row[x])] + rest
  }

  /** The non-empty cells of the rows from `y` on, in row-major order. */
  function GridCells(tiles: seq<seq<string>>, y: nat): (r: seq<Cell>)
    requires y <= |tiles|
    ensures forall k :: 0 <= k < |r| ==> y <= r[k].y && InGrid(tiles, r[k])
    ensures RowMajor(r)
    decreases |tiles| - y
  {
    if y == |tiles| then []
    else
      var row := RowCells(tiles[y], y, 0);
      var rest := GridCells(tiles, y + 1);
      assert forall k :: 0 <= k < |row| ==> InGrid(tiles, row[k]);
      row + rest
  }

  /** Every non-empty entry of a row, from column `x` on, has its cell. */
  lemma {:induction false} RowCellsComplete(row: seq<string>, y: nat, x: nat, c: Cell)
    requires x <= c.x < |row| && c.y == y && row[c.x] == c.name && c.name != ""
    ensures c in RowCells(row, y, x)
    decreases |row| - x
  {
    if x < c.x {
      RowCellsComplete(row, y, x + 1, c);
    }
  }

  /** Every non-empty entry of the rows from `y` on has its cell. */
  lemma {:induction false} GridCellsComplete(tiles: seq<seq<string>>, y: nat, c: Cell)
    requires y <= c.y && InGrid(tiles, c)
    ensures c in GridCells(tiles, y)
    decreases |tiles| - y
  {
    if y == c.y {
      RowCellsComplete(tiles[y], y, 0, c);
    } else {
      GridCellsComplete(tiles, y + 1, c);
    }
  }

  /** The cells drawn are exactly the non-empty entries of the grid. */
  lemma GridCellsCharacterized(tiles: seq<seq<string>>, c: Cell)
    ensures c in GridCells(tiles, 0) <==> InGrid(tiles, c)
  {
    if InGrid(tiles, c) {
      GridCellsComplete(tiles, 0, c);
    }
  }

  // ----- loading and placing -----

  /** Where a cell's tile goes: column and row scaled by the first tile's size. */
  function PlacementOf(c: Cell, tile: Size, store: TileStore): Placed
    requires c.name in store
  {
    Placed(c.name, c.x * tile.w, c.y * tile.h, store[c.name])
  }

  /** A cell's tile can be loaded, and its left offset fits in `u32`. */
  predicate Drawable(c: Cell, store: TileStore, tile: Size) {
    c.name in store && c.x * tile.w <= Descriptor.U32_MAX
  }

  /** Why a cell cannot be drawn: its tile is loaded before its offset is computed. */
  function CellError(c: Cell, store: TileStore): ComposeError {
    if c.name !in store then MissingTile(c.name) else Overflow
  }

  /**
   * The cells' tiles, loaded in order and placed; the first cell whose
   * tile cannot be loaded, or whose offset leaves `u32`, stops the layer.
   */
  function Place(cells: seq<Cell>, store: TileStore, tile: Size): (r: Result<seq<Placed>, ComposeError>)
    ensures r.Success? <==> forall k :: 0 <= k < |cells| ==> Drawable(cells[k], store, tile)
    ensures r.Success? ==> |r.value| == |cells|
    ensures r.Success? ==> forall k :: 0 <= k < |cells| ==> cells[k].name in store && r.value[k] == PlacementOf(cells[k], tile, store)
    ensures r.Failure? ==> exists k :: 0 <= k < |cells| && !Drawable(cells[k], store, tile) && r.error == CellError(cells[k], store)
                                        && forall j :: 0 <= j < k ==> Drawable(cells[j], store, tile)
  {
    if |cells| == 0 then Success([])
    else if !Drawable(cells[0], store, tile) then
      assert 0 < |cells| && !Drawable(cells[0], store, tile);
      Failure(CellError(cells[0], store))
    else
      match Place(cells[1..], store, tile)
      case Failure(e) =>
        var k :| 0 <= k < |cells[1..]| && !Drawable(cells[1..][k], store, tile) && e == CellError(cells[1..][k], store)
                 && forall j :: 0 <= j < k ==> Drawable(cells[1..][j], store, tile);
        assert cells[k + 1] == cells[1..][k];
        assert forall j :: 0 < j < k + 1 ==> cells[j] == cells[1..][j - 1];
        Failure(e)
      case Success(rest) =>
        assert forall k :: 0 < k < |cells| ==> cells[k] == cells[1..][k - 1];
        Success([PlacementOf(cells[0], tile, store)] + rest)
  }

  /** The canvas of a grid of `cols` by `rows` cells of size `tile` has a `u32` width and height. */
  predicate CanvasFits(cols: nat, rows: nat, tile: Size) {
    cols * tile.w <= Descriptor.U32_MAX && rows * tile.h <= Descriptor.U32_MAX
  }

  /**
   * The arithmetic of the source is on `u32`: given the first tile's size,
   * the canvas size and the left offset of every drawn tile fit. (A top
   * offset is below the canvas height, so it fits when that does.)
   */
  ghost predicate Fits(tiles: seq<seq<string>>, store: TileStore) {
    |tiles| > 0 && |tiles[0]| > 0 && tiles[0][0] in store ==>
      && CanvasFits(|tiles[0]|, |tiles|, store[tiles[0][0]])
      && forall c :: InGrid(tiles, c) ==> c.x * store[tiles[0][0]].w <= Descriptor.U32_MAX
  }

  /** `crop_imm` from the origin: the pixels of `p` that lie in both it and `w` by `h`. */
  function Crop(p: Picture, w: nat, h: nat): (r: Picture)
    ensures r.width <= p.width && r.width <= w && (r.width == p.width || r.width == w)
    ensures r.height <= p.height && r.height <= h && (r.height == p.height || r.height == h)
    ensures r.placed == p.placed
  {
    Picture(Min(w, p.width), Min(h, p.height), p.placed)
  }

  /**
   * `compose_layer` without the file writes: `None` when the grid or its
   * first row is empty; otherwise tile `[0][0]` is loaded, the canvas is
   * sized from it, every named cell's tile is drawn at its offset, and the
   * canvas is cropped to `finalW` by `finalH`.
   */
  function ComposeLayer(tiles: seq<seq<string>>, store: TileStore, finalW: nat, finalH: nat): (r: Result<Option<Picture>, ComposeError>)
    ensures (|tiles| == 0 || |tiles[0]| == 0) <==> r == Success(None)
    ensures r.Success? && r.value.Some? ==>
              && tiles[0][0] in store
              && r.value.value.width == Min(finalW, |tiles[0]| * store[tiles[0][0]].w)
              && r.value.value.height == Min(finalH, |tiles| * store[tiles[0][0]].h)
    ensures r.Failure? && r.error.MissingTile? ==> r.error.name !in store
    ensures r.Failure? && r.error.Overflow? ==> !Fits(tiles, store)
  {
    if |tiles| == 0 || |tiles[0]| == 0 then Success(None)
    else if tiles[0][0] !in store then Failure(MissingTile(tiles[0][0]))
    else
      var tile := store[tiles[0][0]];
      if !CanvasFits(|tiles[0]|, |tiles|, tile) then Failure(Overflow)
      else
        var canvas := Picture(|tiles[0]| * tile.w, |tiles| * tile.h, []);
        match Place(GridCells(tiles, 0), store, tile)
        case Failure(e) => Failure(e)
        case Success(placed) => Success(Some(Crop(canvas.(placed := placed), finalW, finalH)))
  }

  /**
   * A composed layer draws each non-empty cell, and nothing else, at
   * (x * tile width, y * tile height), in row-major order.
   */
  lemma ComposedPlacements(tiles: seq<seq<string>>, store: TileStore, finalW: nat, finalH: nat)
    requires ComposeLayer(tiles, store, finalW, finalH).Success?
    requires ComposeLayer(tiles, store, finalW, finalH).value.Some?
    ensures var p := ComposeLayer(tiles, store, finalW, finalH).value.value;
            var cells := GridCells(tiles, 0);
            && |p.placed| == |cells|
            && forall k :: 0 <= k < |cells| ==>
                 && InGrid(tiles, cells[k])
                 && cells[k].name in store
                 && p.placed[k] == Placed(cells[k].name, cells[k].x * store[tiles[0][0]].w, cells[k].y * store[tiles[0][0]].h, store[cells[k].name])
  {
  }

  /**
   * A non-empty layer fails to compose exactly when a tile it needs is not
   * in the store or its arithmetic leaves `u32`; when the arithmetic fits,
   * the only failure is a missing tile.
   */
  lemma ComposeFails(tiles: seq<seq<string>>, store: TileStore, finalW: nat, finalH: nat)
    requires |tiles| > 0 && |tiles[0]| > 0
    ensures ComposeLayer(tiles, store, finalW, finalH).Failure? <==>
              tiles[0][0] !in store || !Fits(tiles, store) || exists c :: InGrid(tiles, c) && c.name !in store
    ensures Fits(tiles, store) && ComposeLayer(tiles, store, finalW, finalH).Failure? ==>
              ComposeLayer(tiles, store, finalW, finalH).error.MissingTile?
  {
    var cells := GridCells(tiles, 0);
    if tiles[0][0] in store && CanvasFits(|tiles[0]|, |tiles|, store[tiles[0][0]]) {
      if exists c :: InGrid(tiles, c) && !Drawable(c, store, store[tiles[0][0]]) {
        var c :| InGrid(tiles, c) && !Drawable(c, store, store[tiles[0][0]]);
        GridCellsCharacterized(tiles, c);
        var k :| 0 <= k < |cells| && cells[k] == c;
      }
    }
  }

  // ----- pixels -----

  predicate Covers(p: Placed, px: nat, py: nat) {
    p.left <= px < p.left + p.size.w && p.top <= py < p.top + p.size.h
  }

  /** The tile pixels drawn over canvas pixel (`px`, `py`), bottom first. */
  function Stack(placed: seq<Placed>, px: nat, py: nat): (r: seq<TilePixel>)
    ensures |r| <= |placed|
  {
    if |placed| == 0 then []
    else
      var p := placed[0];
      (if Covers(p, px, py) then [TilePixel(p.name, px - p.left, py - p.top)] else []) + Stack(placed[1..], px, py)
  }

  /**
   * The stack holds exactly the pixels of the placements that cover
   * (`px`, `py`), each at the pixel's offset inside its tile.
   */
  lemma {:induction false} StackMembers(placed: seq<Placed>, px: nat, py: nat, t: TilePixel)
    ensures t in Stack(placed, px, py) <==>
              exists k :: 0 <= k < |placed| && Covers(placed[k], px, py) &&
                t == TilePixel(placed[k].name, px - placed[k].left, py - placed[k].top)
    decreases |placed|
  {
    if |placed| > 0 {
      var p, rest := placed[0], placed[1..];
      StackMembers(rest, px, py, t);
      if exists k :: 0 <= k < |rest| && Covers(rest[k], px, py) && t == TilePixel(rest[k].name, px - rest[k].left, py - rest[k].top) {
        var k :| 0 <= k < |rest| && Covers(rest[k], px, py) && t == TilePixel(rest[k].name, px - rest[k].left, py - rest[k].top);
        assert placed[k + 1] == rest[k];
      }
      if exists k :: 0 <= k < |placed| && Covers(placed[k], px, py) && t == TilePixel(placed[k].name, px - placed[k].left, py - placed[k].top) {
        var k :| 0 <= k < |placed| && Covers(placed[k], px, py) && t == TilePixel(placed[k].name, px - placed[k].left, py - placed[k].top);
        if k > 0 {
          assert rest[k - 1] == placed[k];
        }
      }
    }
  }

  lemma Regroup<T>(x: seq<T>, y: seq<T>, z: seq<T>, head: seq<T>, sa: seq<T>, sb: seq<T>)
    requires x == head + y && y == sa + sb && z == head + sa
    ensures x == z + sb
  {
  }

  /** Drawing `a` and then `b` stacks `a`'s pixels below `b`'s: the stack keeps drawing order. */
  lemma {:induction false} StackAppend(a: seq<Placed>, b: seq<Placed>, px: nat, py: nat)
    ensures Stack(a + b, px, py) == Stack(a, px, py) + Stack(b, px, py)
    decreases |a|
  {
    if |a| == 0 {
      assert a + b == b;
    } else {
      var p := a[0];
      var head := if Covers(p, px, py) then [TilePixel(p.name, px - p.left, py - p.top)] else [];
      var sa, sb := Stack(a[1..], px, py), Stack(b, px, py);
      assert Stack(a + b, px, py) == head + Stack(a[1..] + b, px, py) by {
        assert (a + b)[0] == p;
        assert (a + b)[1..] == a[1..] + b;
      }
      assert Stack(a[1..] + b, px, py) == sa + sb by {
        StackAppend(a[1..], b, px, py);
      }
      assert Stack(a, px, py) == head + sa;
      Regroup(Stack(a + b, px, py), Stack(a[1..] + b, px, py), Stack(a, px, py), head, sa, sb);
    }
  }

  /** A pixel of a picture: the stack of tile pixels over a transparent background. */
  function Pixel(p: Picture, px: nat, py: nat): seq<TilePixel>
    requires px < p.width && py < p.height
  {
    Stack(p.placed, px, py)
  }

  /** Cropping from the origin keeps every pixel that survives where it was. */
  lemma CropKeepsPixels(p: Picture, w: nat, h: nat, px: nat, py: nat)
    requires px < Crop(p, w, h).width && py < Crop(p, w, h).height
    ensures px < p.width && py < p.height
    ensures Pixel(Crop(p, w, h), px, py) == Pixel(p, px, py)
  {
  }

  /** Along one axis, a pixel lies in the span of cell `x` exactly when `x` is its quotient by the tile size. */
  lemma SpanOfPixel(x: nat, t: nat, px: nat)
    requires t > 0
    ensures x * t <= px < x * t + t <==> x == px / t
    ensures x == px / t ==> px - x * t == px % t
  {
    var q, m := px / t, px % t;
    assert px == q * t + m && 0 <= m < t;
    if x < q {
      assert x * t + t == (x + 1) * t <= q * t;
    } else if x > q {
      assert q * t + t == (q + 1) * t <= x * t;
    }
  }

  /** Two different cells of the same tile size have disjoint rectangles. */
  lemma CellsDisjoint(a: Cell, b: Cell, tile: Size, px: nat, py: nat)
    requires tile.w > 0 && tile.h > 0
    requires a.x != b.x || a.y != b.y
    ensures !(Covers(Placed(a.name, a.x * tile.w, a.y * tile.h, tile), px, py)
              && Covers(Placed(b.name, b.x * tile.w, b.y * tile.h, tile), px, py))
  {
    SpanOfPixel(a.x, tile.w, px);
    SpanOfPixel(b.x, tile.w, px);
    SpanOfPixel(a.y, tile.h, py);
    SpanOfPixel(b.y, tile.h, py);
  }

  /** The tile pixels at (`i`, `j`) of the cells at column `cx`, row `cy`, in order. */
  function Owned(cells: seq<Cell>, cx: nat, cy: nat, i: nat, j: nat): seq<TilePixel> {
    if |cells| == 0 then []
    else
      (if cells[0].x == cx && cells[0].y == cy then [TilePixel(cells[0].name, i, j)] else []) + Owned(cells[1..], cx, cy, i, j)
  }

  /**
   * When every tile has the cell size, a canvas pixel is covered by the
   * tiles of the cell it falls in, at its offset within that cell.
   */
  lemma {:induction false} StackOfUniform(placed: seq<Placed>, cells: seq<Cell>, tile: Size, px: nat, py: nat)
    requires tile.w > 0 && tile.h > 0
    requires |placed| == |cells|
    requires forall k :: 0 <= k < |cells| ==> placed[k] == Placed(cells[k].name, cells[k].x * tile.w, cells[k].y * tile.h, tile)
    ensures Stack(placed, px, py) == Owned(cells, px / tile.w, py / tile.h, px % tile.w, py % tile.h)
    decreases |cells|
  {
    if |cells| > 0 {
      var c := cells[0];
      SpanOfPixel(c.x, tile.w, px);
      SpanOfPixel(c.y, tile.h, py);
      StackOfUniform(placed[1..], cells[1..], tile, px, py);
    }
  }

  /** In row-major cells, a position holds at most one cell, so it owns at most one tile pixel. */
  lemma {:induction false} OwnedRowMajor(cells: seq<Cell>, cx: nat, cy: nat, i: nat, j: nat)
    requires RowMajor(cells)
    ensures |Owned(cells, cx, cy, i, j)| <= 1
    ensures forall k :: 0 <= k < |cells| && cells[k].x == cx && cells[k].y == cy ==>
              Owned(cells, cx, cy, i, j) == [TilePixel(cells[k].name, i, j)]
    ensures (forall k :: 0 <= k < |cells| ==> !(cells[k].x == cx && cells[k].y == cy)) ==>
              Owned(cells, cx, cy, i, j) == []
    decreases |cells|
  {
    if |cells| > 0 {
      var rest := cells[1..];
      assert RowMajor(rest) by {
        forall a, b | 0 <= a < b < |rest| ensures Before(rest[a], rest[b]) {
          assert rest[a] == cells[a + 1] && rest[b] == cells[b + 1];
        }
      }
      OwnedRowMajor(rest, cx, cy, i, j);
      if cells[0].x == cx && cells[0].y == cy {
        assert forall k :: 0 <= k < |rest| ==> Before(cells[0], rest[k]) by {
          forall k | 0 <= k < |rest| ensures Before(cells[0], rest[k]) {
            assert rest[k] == cells[k + 1];
          }
        }
        assert Owned(rest, cx, cy, i, j) == [];
      }
      forall k | 1 <= k < |cells| && cells[k].x == cx && cells[k].y == cy
        ensures Owned(cells, cx, cy, i, j) == [TilePixel(cells[k].name, i, j)]
      {
        assert rest[k - 1] == cells[k];
        assert Before(cells[0], cells[k]);
      }
    }
  }

  /** The entry of the grid at column `cx`, row `cy`, if there is one and it is not empty. */
  function CellAt(tiles: seq<seq<string>>, cx: nat, cy: nat): (r: Option<string>)
    ensures r.Some? <==> cy < |tiles| && cx < |tiles[cy]| && tiles[cy][cx] != ""
    ensures r.Some? ==> InGrid(tiles, Cell(cx, cy, r.value))
  {
    if cy < |tiles| && cx < |tiles[cy]| && tiles[cy][cx] != "" then Some(tiles[cy][cx]) else None
  }

  /**
   * What a canvas pixel shows when every tile has the cell size: the pixel
   * at its offset within the tile of the cell it falls in, or nothing
   * (transparent) when that cell is empty or missing.
   */
  function CellPixel(tiles: seq<seq<string>>, tile: Size, px: nat, py: nat): seq<TilePixel>
    requires tile.w > 0 && tile.h > 0
  {
    match CellAt(tiles, px / tile.w, py / tile.h)
    case None => []
    case Some(name) => [TilePixel(name, px % tile.w, py % tile.h)]
  }

  /** Drawing the grid's cells with tiles of the cell size gives every pixel its cell's tile. */
  lemma StackOfGrid(tiles: seq<seq<string>>, placed: seq<Placed>, tile: Size, px: nat, py: nat)
    requires tile.w > 0 && tile.h > 0
    requires |placed| == |GridCells(tiles, 0)|
    requires forall k :: 0 <= k < |placed| ==>
               placed[k] == Placed(GridCells(tiles, 0)[k].name, GridCells(tiles, 0)[k].x * tile.w, GridCells(tiles, 0)[k].y * tile.h, tile)
    ensures Stack(placed, px, py) == CellPixel(tiles, tile, px, py)
  {
    var cells := GridCells(tiles, 0);
    var cx, cy, i, j := px / tile.w, py / tile.h, px % tile.w, py % tile.h;
    assert Stack(placed, px, py) == Owned(cells, cx, cy, i, j) by {
      StackOfUniform(placed, cells, tile, px, py);
    }
    match CellAt(tiles, cx, cy)
    case None =>
      forall k | 0 <= k < |cells| ensures !(cells[k].x == cx && cells[k].y == cy) {
        assert InGrid(tiles, cells[k]);
      }
      OwnedRowMajor(cells, cx, cy, i, j);
    case Some(name) =>
      assert Cell(cx, cy, name) in cells by {
        GridCellsCharacterized(tiles, Cell(cx, cy, name));
      }
      OwnedRowMajor(cells, cx, cy, i, j);
  }

  /**
   * With tiles all of the first tile's size, every pixel of a composed
   * layer shows exactly the tile of the cell it falls in, at its offset in
   * that cell, and a pixel whose cell is empty or missing stays
   * transparent.
   */
  lemma PixelOwner(tiles: seq<seq<string>>, store: TileStore, finalW: nat, finalH: nat, px: nat, py: nat)
    requires ComposeLayer(tiles, store, finalW, finalH).Success?
    requires ComposeLayer(tiles, store, finalW, finalH).value.Some?
    requires forall c :: InGrid(tiles, c) && c.name in store ==> store[c.name] == store[tiles[0][0]]
    requires px < ComposeLayer(tiles, store, finalW, finalH).value.value.width
    requires py < ComposeLayer(tiles, store, finalW, finalH).value.value.height
    ensures store[tiles[0][0]].w > 0 && store[tiles[0][0]].h > 0
    ensures Pixel(ComposeLayer(tiles, store, finalW, finalH).value.value, px, py)
         == CellPixel(tiles, store[tiles[0][0]], px, py)
  {
    var p := ComposeLayer(tiles, store, finalW, finalH).value.value;
    var tile := store[tiles[0][0]];
    ComposedPlacements(tiles, store, finalW, finalH);
    StackOfGrid(tiles, p.placed, tile, px, py);
  }
}
