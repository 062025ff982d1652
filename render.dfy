/** The integer arithmetic of rendering a user's view (`int_div`,
    server/server.c:421-432; the view window and the wrap mapping of
    `create_user_update`, lines 568-626) and the growing element buffer of
    `append_element_json` (lines 433-447).

    The C code mixes `unsigned` and `int`; every conversion it performs
    implicitly is written out here with `U32` (reduction modulo 2^32) and
    `ToInt32` (reinterpretation as a two's-complement `int`). */
module Render {
  import opened Util

  const TILE_SIZE: nat := 8
  const CELL_SIZE: nat := 20

  /** `int_div`: for a negative numerator the magnitude is rounded up in
      unsigned arithmetic and negated; otherwise plain unsigned division. */
  function IntDiv(a: int, b: nat): (r: int)
    requires I32_MIN <= a <= I32_MAX && 0 < b < U32_MODULUS
    ensures I32_MIN <= r <= I32_MAX
  {
    if a < 0 then
      var magnitude := U32(-a);
      var quot := U32(magnitude + b - 1) / b;
      ToInt32(U32(-quot))
    else
      ToInt32(U32(a) / b)
  }

  /** For a negative numerator, rounding the magnitude up is rounding the
      quotient down. */
  lemma NegativeIntDiv(a: int, b: nat)
    requires I32_MIN <= a < 0 && 0 < b <= 0x8000_0000
    ensures IntDiv(a, b) == a / b
  {
    var q := a / b;
    MagnitudeRoundsUp(a, b);
    NegativeQuotientBounds(a, b);
    assert U32(-a) == -a;
    assert U32(-a + b - 1) == -a + b - 1;
    assert U32(-(-q)) == q + U32_MODULUS;
  }

  /** `(-a + b - 1) / b` is the magnitude of the floor of `a / b`. */
  lemma MagnitudeRoundsUp(a: int, b: nat)
    requires a < 0 && 0 < b
    ensures (-a + b - 1) / b == -(a / b)
  {
    var q, r := a / b, a % b;
    assert a == q * b + r && 0 <= r < b;
    assert -a + b - 1 == (-q) * b + (b - 1 - r) by {
      assert (-q) * b == -(q * b);
    }
    DivUnique(-a + b - 1, b, -q, b - 1 - r);
  }

  /** The floor of a negative `a / b` lies between `a` and `-1`. */
  lemma NegativeQuotientBounds(a: int, b: nat)
    requires a < 0 && 0 < b
    ensures a <= a / b < 0
  {
    var q, r := a / b, a % b;
    assert a == q * b + r && 0 <= r < b;
    if q >= 0 {
      MulMono(0, q, b);
    }
    if q < a {
      MulMono(1, b, -(q + 1));
    }
  }

  /** For a non-negative numerator the unsigned quotient fits an `int`. */
  lemma NonNegativeIntDiv(a: int, b: nat)
    requires 0 <= a <= I32_MAX && 0 < b < U32_MODULUS
    ensures IntDiv(a, b) == a / b
  {
    DivMod(a, b);
    if a / b > a {
      MulMono(1, b, a / b);
    }
  }

  /** `int_div` is floor division for every divisor up to 2^31 (the server
      only divides by `CELL_SIZE`): it agrees with Dafny's `/`, which rounds
      toward minus infinity for a positive divisor. */
  lemma IntDivFloors(a: int, b: nat)
    requires I32_MIN <= a <= I32_MAX && 0 < b <= 0x8000_0000
    ensures IntDiv(a, b) == a / b
    ensures IntDiv(a, b) * b <= a < (IntDiv(a, b) + 1) * b
  {
    if a < 0 {
      NegativeIntDiv(a, b);
    } else {
      NonNegativeIntDiv(a, b);
    }
    FloorBounds(a, b);
  }

  /** Dafny's `/` by a positive divisor rounds down. */
  lemma FloorBounds(a: int, b: nat)
    requires 0 < b
    ensures (a / b) * b <= a < (a / b + 1) * b
  {
    var q := a / b;
    assert a == q * b + a % b && 0 <= a % b < b;
    assert (q + 1) * b == q * b + b;
  }

  /** `(v + d - 1) / d` in unsigned arithmetic: `v / d` rounded up, as long
      as the sum does not wrap. */
  function RoundUpDiv(v: nat, d: nat): (r: nat)
    requires 0 < d < U32_MODULUS
    ensures v + d - 1 < U32_MODULUS ==> (r - 1) * d < v <= r * d
  {
    var sum := U32(v + d - 1);
    DivMod(sum, d);
    sum / d
  }

  /** The horizontal (or vertical) extent of a view: the visible tiles
      `minTile .. minTile + tiles - 1` and the rendered cells
      `minCell .. minCell + cells - 1`. */
  datatype Window = Window(minTile: int, tiles: nat, minCell: int, cells: nat)

  /** Tile `t` is visible in the window. */
  predicate Visible(win: Window, t: int)
  {
    win.minTile <= t < win.minTile + win.tiles
  }

  /** Tile `t` lies in one of the window's rendered cells. */
  predicate Rendered(win: Window, t: int)
  {
    win.minCell * CELL_SIZE <= t < (win.minCell + win.cells) * CELL_SIZE
  }

  /** Every visible tile lies in a rendered cell. */
  ghost predicate Covers(win: Window)
  {
    forall t :: Visible(win, t) ==> Rendered(win, t)
  }

  /** Bounds under which none of the window's 32-bit arithmetic wraps. */
  predicate Moderate(pos: nat, canvas: nat)
  {
    pos < 0x4000_0000 && canvas < 0x4000_0000
  }

  /** The window of `create_user_update` (lines 571-580) along one axis, for
      a user at tile `pos` with a canvas `canvas` pixels wide, as written:
      the cell count is the tile count rounded up to whole cells. Whatever
      the 32-bit arithmetic does, the first cell is the one holding the
      first tile; when the canvas is not near the top of the `unsigned`
      range, the tiles span the canvas and the cells span the tiles. */
  function ViewWindow(pos: nat, canvas: nat): (win: Window)
    requires pos < U32_MODULUS && canvas < U32_MODULUS
    ensures I32_MIN <= win.minTile <= I32_MAX
    ensures win.minCell * CELL_SIZE <= win.minTile < (win.minCell + 1) * CELL_SIZE
    ensures canvas < 0x4000_0000 ==> canvas <= win.tiles * TILE_SIZE && win.tiles <= win.cells * CELL_SIZE
  {
    var tiles := RoundUpDiv(canvas, TILE_SIZE);
    var cells := RoundUpDiv(tiles, CELL_SIZE);
    var minTile := ToInt32(U32(pos - (tiles + 1) / 2));
    IntDivFloors(minTile, CELL_SIZE);
    assert canvas < 0x4000_0000 ==> tiles <= cells * CELL_SIZE by {
      if canvas < 0x4000_0000 {
        TilesFitCanvas(canvas);
      }
    }
    Window(minTile, tiles, IntDiv(minTile, CELL_SIZE), cells)
  }

  /** The first visible tile of a view at tile `pos` on a canvas `canvas`
      pixels wide, in unbounded arithmetic. */
  function FirstTile(pos: nat, canvas: nat): int
  {
    pos - (RoundUpDiv(canvas, TILE_SIZE) + 1) / 2
  }

  /** The window's first tile is the user's tile less half the visible
      tiles, rounded up; its first cell is the one holding that tile. */
  lemma ViewWindowCorner(pos: nat, canvas: nat)
    requires Moderate(pos, canvas)
    ensures var win := ViewWindow(pos, canvas);
      && win.minTile == pos - (win.tiles + 1) / 2 == FirstTile(pos, canvas)
      && win.minCell * CELL_SIZE <= win.minTile < (win.minCell + 1) * CELL_SIZE
      && (win.tiles - 1) * TILE_SIZE < canvas <= win.tiles * TILE_SIZE
  {
    var tiles := RoundUpDiv(canvas, TILE_SIZE);
    TilesFitCanvas(canvas);
    var minTile := pos - (tiles + 1) / 2;
    Int32RoundTrip(minTile);
    IntDivFloors(minTile, CELL_SIZE);
  }

  /** The number of visible tiles never exceeds the canvas size. */
  lemma TilesFitCanvas(canvas: nat)
    requires canvas < 0x4000_0000
    ensures RoundUpDiv(canvas, TILE_SIZE) <= canvas
  {
    var tiles := RoundUpDiv(canvas, TILE_SIZE);
    if tiles > 0 {
      MulMono(1, TILE_SIZE, tiles - 1);
    }
  }

  /** A value in the range of `int` survives the trip through `unsigned`. */
  lemma Int32RoundTrip(v: int)
    requires I32_MIN <= v <= I32_MAX
    ensures ToInt32(U32(v)) == v
  {
    if v < 0 {
      assert U32(v) == v + U32_MODULUS;
    }
  }

  /** When the first visible tile starts a cell, the window as written
      covers the view. */
  lemma AlignedViewWindowCovers(pos: nat, canvas: nat)
    requires Moderate(pos, canvas)
    requires FirstTile(pos, canvas) % CELL_SIZE == 0
    ensures Covers(ViewWindow(pos, canvas))
  {
    var win := ViewWindow(pos, canvas);
    ViewWindowCorner(pos, canvas);
    TilesFitCanvas(canvas);
    var tiles, cells := win.tiles, win.cells;
    assert cells == RoundUpDiv(tiles, CELL_SIZE);
    assert tiles <= cells * CELL_SIZE;
    AlignedCell(win.minTile, win.minCell);
    AlignedCovers(win);
  }

  /** A tile that starts a cell is that cell's first tile. */
  lemma AlignedCell(t: int, c: int)
    requires c * CELL_SIZE <= t < (c + 1) * CELL_SIZE && t % CELL_SIZE == 0
    ensures t == c * CELL_SIZE
  {
    DivUnique(t, CELL_SIZE, c, t - c * CELL_SIZE);
  }

  /** A window whose first tile starts its first cell, and whose cells
      span at least its tiles, covers them. */
  lemma AlignedCovers(win: Window)
    requires win.minTile == win.minCell * CELL_SIZE
    requires win.tiles <= win.cells * CELL_SIZE
    ensures Covers(win)
  {
    assert (win.minCell + win.cells) * CELL_SIZE == win.minTile + win.cells * CELL_SIZE;
  }

  /** The window as written can miss the last cell column: a 400-pixel
      canvas at tile 44 shows tiles 19..68, but only cells 0..2 (tiles
      0..59) are rendered. */
  lemma ViewWindowMissesLastCell()
    ensures ViewWindow(44, 400) == Window(19, 50, 0, 3)
    ensures !Covers(ViewWindow(44, 400))
  {
    assert RoundUpDiv(400, TILE_SIZE) == 50;
    assert RoundUpDiv(50, CELL_SIZE) == 3;
    assert IntDiv(19, CELL_SIZE) == 0;
    var win := ViewWindow(44, 400);
    assert Visible(win, 60) && !Rendered(win, 60);
  }

  /** A tile that is not before another lies in a cell that is not before
      the other's. */
  lemma CellOrder(c: int, d: int, s: int, t: int)
    requires c * CELL_SIZE <= s < (c + 1) * CELL_SIZE
    requires d * CELL_SIZE <= t < (d + 1) * CELL_SIZE && s <= t
    ensures c <= d
  {
    if c > d {
      MulMono(d + 1, c, CELL_SIZE);
    }
  }

  /** The window with the cell count taken from the cells of the first and
      the last visible tile. */
  function CoveringWindow(pos: nat, canvas: nat): (win: Window)
    requires Moderate(pos, canvas)
  {
    var w := ViewWindow(pos, canvas);
    ViewWindowCorner(pos, canvas);
    if w.tiles == 0 then w.(cells := 0)
    else
      var last := IntDiv(w.minTile + w.tiles - 1, CELL_SIZE);
      IntDivFloors(w.minTile + w.tiles - 1, CELL_SIZE);
      CellOrder(w.minCell, last, w.minTile, w.minTile + w.tiles - 1);
      w.(cells := last - w.minCell + 1)
  }

  /** The corrected window covers the view and renders no cell without a
      visible tile: its first and last cells both hold visible tiles. It
      renders at most one cell more than the window as written. */
  lemma CoveringWindowIsExact(pos: nat, canvas: nat)
    requires Moderate(pos, canvas)
    ensures var win := CoveringWindow(pos, canvas);
      && Covers(win)
      && (win.tiles > 0 ==> win.minCell * CELL_SIZE <= win.minTile < (win.minCell + 1) * CELL_SIZE)
      && (win.tiles > 0 ==> (win.minCell + win.cells - 1) * CELL_SIZE <= win.minTile + win.tiles - 1)
      && win.cells <= ViewWindow(pos, canvas).cells + 1
  {
    var w := ViewWindow(pos, canvas);
    var win := CoveringWindow(pos, canvas);
    ViewWindowCorner(pos, canvas);
    if w.tiles > 0 {
      var last := w.minTile + w.tiles - 1;
      IntDivFloors(last, CELL_SIZE);
      assert win.minCell + win.cells == last / CELL_SIZE + 1;
      forall t | Visible(win, t) ensures Rendered(win, t) {
      }
      var k := win.cells - 1;
      assert k * CELL_SIZE <= w.tiles - 1 + (w.minTile - w.minCell * CELL_SIZE);
      assert w.minTile - w.minCell * CELL_SIZE < CELL_SIZE;
      assert k * CELL_SIZE < w.tiles + CELL_SIZE - 1;
      assert w.tiles <= w.cells * CELL_SIZE;
      if k > w.cells {
        MulMono(w.cells + 1, k, CELL_SIZE);
      }
    }
  }

  /** The wrap mapping of lines 599-622 for an unwrapped cell coordinate
      `uc` of a universe `size` cells across: `None` where the loop skips the
      cell (`continue`), otherwise the coordinate used. Without wrap,
      coordinates past the far edge are kept, and rejected later by the
      range tests. */
  function WrapCell(uc: int, size: nat, wrap: bool): (r: Option<nat>)
    requires I32_MIN <= uc <= I32_MAX && size < U32_MODULUS
    ensures !wrap ==> (r.None? <==> uc < 0) && (r.Some? ==> r.value == uc)
    ensures wrap ==> r.Some?
  {
    if uc < 0 then
      if !wrap then None else Some(U32(uc + size))
    else if uc >= size then
      Some(if wrap then U32(uc - size) else uc)
    else
      Some(uc)
  }

  /** With wrap, a coordinate at most one universe off either side is
      brought back into the universe: it becomes its remainder modulo the
      size. */
  lemma WrapCellReduces(uc: int, size: nat)
    requires I32_MIN <= uc <= I32_MAX && 0 < size < U32_MODULUS
    requires 0 <= uc + size && uc < 2 * size
    ensures WrapCell(uc, size, true) == Some(uc % size)
  {
    if uc < 0 {
      DivUnique(uc, size, -1, uc + size);
    } else if uc >= size {
      DivUnique(uc, size, 1, uc - size);
    } else {
      DivUnique(uc, size, 0, uc);
    }
  }

  /** A JSON value, opaque to the model. */
  datatype JsonValue = JsonValue(id: nat)

  /** `dsk_realloc`: a fresh array of `size` slots starting with the
      contents of `src`. */
  method Reallocate(src: array<JsonValue>, size: nat) returns (grown: array<JsonValue>)
    requires src.Length <= size
    ensures fresh(grown) && grown.Length == size && grown[..src.Length] == src[..]
  {
    grown := new JsonValue[size];
    var i := 0;
    while i < src.Length
      invariant 0 <= i <= src.Length
      invariant grown[..i] == src[..i]
    {
      grown[i] := src[i];
      i := i + 1;
    }
  }

  /** The element array that `create_user_update` fills: `elements` with
      `alloced` slots, the first `n` in use. */
  class ElementArray {
    var elements: array<JsonValue>
    var n: nat
    var alloced: nat

    ghost predicate Valid()
      reads this
    {
      0 < alloced == elements.Length && n <= alloced
    }

    /** The values appended so far, in order. */
    ghost function Contents(): seq<JsonValue>
      requires Valid()
      reads this, elements
    {
      elements[..n]
    }

    /** Lines 582-584: 16 slots, none in use. */
    constructor ()
      ensures Valid() && n == 0 && alloced == 16 && fresh(elements)
    {
      elements := new JsonValue[16];
      n := 0;
      alloced := 16;
    }

    /** `append_element_json`: when every slot is in use, the buffer doubles
        (`dsk_realloc` keeps its contents); then the value goes into slot `n`. */
    method Append(value: JsonValue)
      requires Valid() && alloced < 0x8000_0000
      modifies this, elements
      ensures Valid()
      ensures n == old(n) + 1
      ensures Contents() == old(Contents()) + [value]
      ensures alloced == if old(n) == old(alloced) then 2 * old(alloced) else old(alloced)
      ensures elements == old(elements) || fresh(elements)
    {
      if n == alloced {
        alloced := alloced * 2;
        elements := Reallocate(elements, alloced);
      }
      elements[n] := value;
      n := n + 1;
    }
  }
}
