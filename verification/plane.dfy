/** Drawing a whole plane (src/sega/video/plane.cpp:48-90): every tile is scattered into a
    canvas of RGBA pixels. */
module PlaneDraw {
  import opened Words

  const VRAM_SIZE := 65536
  const TILE := 8
  const VRAM_BYTES_PER_TILE := 32
  const MAX_TILES := 4096
  const CANVAS_SIZE := MAX_TILES * 64 * 4

  datatype Color = Color(red: Byte, green: Byte, blue: Byte)

  /** A colour lookup: palette, then index. */
  type Colors = (nat, nat) -> Color

  /** An entry of a name table. */
  datatype Entry = Entry(tile: nat, flipX: bool, flipY: bool, palette: nat, priority: bool)

  function EntryOf(b0: Byte, b1: Byte): (e: Entry)
    ensures e.tile < 2048 && e.palette < 4
  {
    Entry(b0 % 8 * 0x100 + b1, b0 / 8 % 2 == 1, b0 / 0x10 % 2 == 1, b0 / 0x20 % 4, b0 / 0x80 == 1)
  }

  predicate TableInside(table: nat, w: nat, h: nat) {
    table + 2 * (w * h) <= VRAM_SIZE
  }

  /** Position of a tile in its table. */
  function TileIndex(w: nat, tx: nat, ty: nat): nat {
    ty * w + tx
  }

  lemma TileIndexBound(w: nat, h: nat, tx: nat, ty: nat)
    requires tx < w && ty < h
    ensures TileIndex(w, tx, ty) < w * h
  {
    MulBound(w, h - ty);
    assert w * (h - ty) == w * h - ty * w;
  }

  /** The entry of a tile lies in the video RAM. */
  predicate EntryInside(table: nat, w: nat, tx: nat, ty: nat) {
    table + 2 * TileIndex(w, tx, ty) + 1 < VRAM_SIZE
  }

  /** So does every entry of a table that does. */
  lemma EntryInTable(table: nat, w: nat, h: nat, tx: nat, ty: nat)
    requires TableInside(table, w, h) && tx < w && ty < h
    ensures EntryInside(table, w, tx, ty)
  {
    TileIndexBound(w, h, tx, ty);
  }

  function EntryAt(vram: seq<Byte>, table: nat, w: nat, tx: nat, ty: nat): Entry
    requires |vram| == VRAM_SIZE && EntryInside(table, w, tx, ty)
  {
    var at := table + 2 * TileIndex(w, tx, ty);
    EntryOf(vram[at], vram[at + 1])
  }

  /** The four bits of a pixel of a tile. */
  function TilePixel(vram: seq<Byte>, tile: nat, id: nat): (c: nat)
    requires |vram| == VRAM_SIZE && tile < 2048 && id < 64
    ensures c < 16
  {
    var b := vram[VRAM_BYTES_PER_TILE * tile + id / 2];
    if id % 2 == 0 then b / 0x10 else b % 0x10
  }

  function Flipped(flip: bool, i: nat): (r: nat)
    requires i < TILE
    ensures r < TILE
    ensures flip ==> r == 7 - i
  {
    if flip then TILE - i - 1 else i
  }

  /** The colour of a plane pixel, gathered: None for the transparent index. */
  function PlanePixel(vram: seq<Byte>, colors: Colors, table: nat, w: nat, px: nat, py: nat): Option<Color>
    requires |vram| == VRAM_SIZE && EntryInside(table, w, px / TILE, py / TILE)
  {
    var e := EntryAt(vram, table, w, px / TILE, py / TILE);
    var c := TilePixel(vram, e.tile, Flipped(e.flipY, py % TILE) * TILE + Flipped(e.flipX, px % TILE));
    if c == 0 then None else Some(colors(e.palette, c))
  }

  /** Red, green, blue and alpha; a transparent pixel is all zeros. */
  function Rgba(c: Option<Color>): (s: seq<Byte>)
    ensures |s| == 4
  {
    match c
    case Some(color) => [color.red, color.green, color.blue, 255]
    case None => [0, 0, 0, 0]
  }

  // ---------------------------------------------------------------- the drawing order

  /** A plane to draw: its table, its size in tiles and what it is drawn from. */
  datatype Plane = Plane(vram: seq<Byte>, colors: Colors, table: nat, w: nat, h: nat) {
    ghost predicate Valid() {
      |vram| == VRAM_SIZE && TableInside(table, w, h) && w * h <= MAX_TILES
    }

    /** Number of pixels in a row. */
    function Row(): nat {
      TILE * w
    }

    /** Column and line of the p-th pixel in raster order. */
    function X(p: nat): (x: nat)
      requires w > 0
      ensures x < TILE * w
    {
      p % Row()
    }

    function Y(p: nat): (y: nat)
      requires w > 0
    {
      p / Row()
    }

    ghost predicate InPlane(p: nat) {
      w > 0 && Y(p) < TILE * h
    }

    function EntryAtPixel(p: nat): Entry
      requires Valid() && InPlane(p)
    {
      EntryInTable(table, w, h, X(p) / TILE, Y(p) / TILE);
      EntryAt(vram, table, w, X(p) / TILE, Y(p) / TILE)
    }

    /** The colour of the p-th pixel. */
    ghost function Target(p: nat): seq<Byte>
      requires Valid() && InPlane(p)
    {
      EntryInTable(table, w, h, X(p) / TILE, Y(p) / TILE);
      Rgba(PlanePixel(vram, colors, table, w, X(p), Y(p)))
    }

    /** The step at which the p-th pixel is drawn: tile by tile, and inside a tile in the order
        of the video memory. */
    ghost function Order(p: nat): nat
      requires Valid() && InPlane(p)
    {
      var e := EntryAtPixel(p);
      64 * TileIndex(w, X(p) / TILE, Y(p) / TILE) + TILE * Flipped(e.flipY, Y(p) % TILE) + Flipped(e.flipX, X(p) % TILE)
    }
  }

  /** The pixel that step (i, j, ti, tj) draws. */
  function Drawn(pl: Plane, e: Entry, i: nat, j: nat, ti: nat, tj: nat): nat
    requires ti < TILE && tj < TILE
  {
    (j * TILE + Flipped(e.flipY, tj)) * pl.Row() + (i * TILE + Flipped(e.flipX, ti))
  }

  lemma FlipTwice(flip: bool, i: nat)
    requires i < TILE
    ensures Flipped(flip, Flipped(flip, i)) == i
  {
  }

  lemma Decompose(n: nat, m: nat, q: nat, r: nat)
    requires m > 0 && r < m && n == q * m + r
    ensures n / m == q && n % m == r
  {
    DivUnique(n, m, q, r);
  }

  /** Coordinates of the pixel that a step draws. */
  lemma DrawnCoordinates(pl: Plane, e: Entry, i: nat, j: nat, ti: nat, tj: nat)
    requires pl.Valid() && i < pl.w && j < pl.h && ti < TILE && tj < TILE
    ensures var p := Drawn(pl, e, i, j, ti, tj);
            && pl.Y(p) == j * TILE + Flipped(e.flipY, tj) && pl.X(p) == i * TILE + Flipped(e.flipX, ti)
            && pl.InPlane(p)
  {
    hide Plane.Row, Plane.Valid, Flipped;
    var x, y := Flipped(e.flipX, ti), Flipped(e.flipY, tj);
    RowHolds(pl, i, x);
    var line, column := j * TILE + y, i * TILE + x;
    Decompose(line * pl.Row() + column, pl.Row(), line, column);
  }

  lemma RowHolds(pl: Plane, i: nat, x: nat)
    requires i < pl.w && x < TILE
    ensures i * TILE + x < pl.Row()
  {
  }

  /** The step draws the pixel whose turn it is, with the right colour. */
  lemma DrawnInOrder(pl: Plane, i: nat, j: nat, ti: nat, tj: nat)
    requires pl.Valid() && i < pl.w && j < pl.h && ti < TILE && tj < TILE
    ensures EntryInside(pl.table, pl.w, i, j)
    ensures var e := EntryAt(pl.vram, pl.table, pl.w, i, j);
            var p := Drawn(pl, e, i, j, ti, tj);
            && pl.InPlane(p)
            && pl.Order(p) == 64 * TileIndex(pl.w, i, j) + TILE * tj + ti
            && pl.Target(p) == Rgba(Looked(pl, e, TilePixel(pl.vram, e.tile, tj * TILE + ti)))
  {
    EntryInTable(pl.table, pl.w, pl.h, i, j);
    var e := EntryAt(pl.vram, pl.table, pl.w, i, j);
    DrawnCoordinates(pl, e, i, j, ti, tj);
    FlipTwice(e.flipX, ti);
    FlipTwice(e.flipY, tj);
    hide *;
    AtCoordinates(pl, Drawn(pl, e, i, j, ti, tj), i, j, Flipped(e.flipX, ti), Flipped(e.flipY, tj));
  }

  /** Turn and colour of a pixel given by tile and position inside it. */
  lemma AtCoordinates(pl: Plane, p: nat, i: nat, j: nat, x: nat, y: nat)
    requires pl.Valid() && pl.InPlane(p) && i < pl.w && j < pl.h && x < TILE && y < TILE
    requires pl.X(p) == i * TILE + x && pl.Y(p) == j * TILE + y
    ensures EntryInside(pl.table, pl.w, i, j)
    ensures var e := EntryAt(pl.vram, pl.table, pl.w, i, j);
            && pl.Order(p) == 64 * TileIndex(pl.w, i, j) + TILE * Flipped(e.flipY, y) + Flipped(e.flipX, x)
            && pl.Target(p)
               == Rgba(Looked(pl, e, TilePixel(pl.vram, e.tile, Flipped(e.flipY, y) * TILE + Flipped(e.flipX, x))))
  {
    hide Flipped, EntryAt, TilePixel, TileIndex, Rgba, Plane.X, Plane.Y, Plane.Row, EntryInside, Plane.Valid;
    ValidEntry(pl, i, j);
    InTile(pl.X(p), i, x);
    InTile(pl.Y(p), j, y);
  }

  lemma ValidEntry(pl: Plane, i: nat, j: nat)
    requires pl.Valid() && i < pl.w && j < pl.h
    ensures |pl.vram| == VRAM_SIZE && EntryInside(pl.table, pl.w, i, j)
  {
    EntryInTable(pl.table, pl.w, pl.h, i, j);
  }

  lemma InTile(v: nat, i: nat, x: nat)
    requires v == i * TILE + x && x < TILE
    ensures v / TILE == i && v % TILE == x
  {
  }

  function Looked(pl: Plane, e: Entry, c: nat): Option<Color> {
    if c == 0 then None else Some(pl.colors(e.palette, c))
  }

  /** No two pixels have the same turn. */
  lemma OrderInjective(pl: Plane, p: nat, q: nat)
    requires pl.Valid() && pl.InPlane(p) && pl.InPlane(q) && pl.Order(p) == pl.Order(q)
    ensures p == q
  {
    hide *;
    InPlaneWidth(pl, p);
    OrderParts(pl, p);
    OrderParts(pl, q);
    TileParts(pl, p, q);
    FlipInjective(pl.EntryAtPixel(p), pl.X(p) % TILE, pl.X(q) % TILE, pl.Y(p) % TILE, pl.Y(q) % TILE);
    SameCoordinates(pl, p, q);
  }

  lemma InPlaneWidth(pl: Plane, p: nat)
    requires pl.InPlane(p)
    ensures pl.w > 0
  {
  }

  /** A turn determines the tile and the position in the tile's memory. */
  lemma OrderParts(pl: Plane, p: nat)
    requires pl.Valid() && pl.InPlane(p)
    ensures pl.Order(p) / 64 == TileIndex(pl.w, pl.X(p) / TILE, pl.Y(p) / TILE)
    ensures pl.Order(p) % 64 / TILE == Flipped(pl.EntryAtPixel(p).flipY, pl.Y(p) % TILE)
    ensures pl.Order(p) % 64 % TILE == Flipped(pl.EntryAtPixel(p).flipX, pl.X(p) % TILE)
  {
    hide Flipped, TileIndex, Plane.X, Plane.Y, Plane.EntryAtPixel;
  }

  lemma TileParts(pl: Plane, p: nat, q: nat)
    requires pl.Valid() && pl.InPlane(p) && pl.InPlane(q)
    requires TileIndex(pl.w, pl.X(p) / TILE, pl.Y(p) / TILE) == TileIndex(pl.w, pl.X(q) / TILE, pl.Y(q) / TILE)
    ensures pl.X(p) / TILE == pl.X(q) / TILE && pl.Y(p) / TILE == pl.Y(q) / TILE
    ensures pl.EntryAtPixel(p) == pl.EntryAtPixel(q)
  {
    hide Plane.X, Plane.Y, EntryAt;
    EuclidUnique(pl.w, pl.Y(p) / TILE, pl.X(p) / TILE, pl.Y(q) / TILE, pl.X(q) / TILE);
  }

  lemma FlipInjective(e: Entry, x: nat, x': nat, y: nat, y': nat)
    requires x < TILE && x' < TILE && y < TILE && y' < TILE
    ensures Flipped(e.flipX, x) == Flipped(e.flipX, x') ==> x == x'
    ensures Flipped(e.flipY, y) == Flipped(e.flipY, y') ==> y == y'
  {
  }

  lemma SameCoordinates(pl: Plane, p: nat, q: nat)
    requires pl.w > 0
    requires pl.X(p) / TILE == pl.X(q) / TILE && pl.X(p) % TILE == pl.X(q) % TILE
    requires pl.Y(p) / TILE == pl.Y(q) / TILE && pl.Y(p) % TILE == pl.Y(q) % TILE
    ensures p == q
  {
    var row := pl.Row();
    assert pl.X(p) == pl.X(q) && pl.Y(p) == pl.Y(q) by {
      hide Plane.X, Plane.Y;
    }
    assert p == row * (p / row) + p % row && q == row * (q / row) + q % row;
  }

  // ---------------------------------------------------------------- the loops

  /** The canvas after n steps: the pixels whose turn has come have their colour, every other
      byte is as before. */
  ghost predicate Progress(pl: Plane, before: seq<Byte>, now: seq<Byte>, n: nat)
    requires pl.Valid()
  {
    && |before| == |now| == CANVAS_SIZE
    && forall p :: 0 <= p < MAX_TILES * 64 ==>
         now[4 * p..4 * p + 4]
         == if pl.InPlane(p) && pl.Order(p) < n then pl.Target(p) else before[4 * p..4 * p + 4]
  }

  lemma PixelInCanvas(pl: Plane, p: nat)
    requires pl.Valid() && pl.InPlane(p)
    ensures p < MAX_TILES * 64
  {
    var row := pl.Row();
    assert p == row * pl.Y(p) + pl.X(p);
    MulBound(row, TILE * pl.h - pl.Y(p));
    assert row * (TILE * pl.h - pl.Y(p)) == row * (TILE * pl.h) - row * pl.Y(p);
    assert row * (TILE * pl.h) == 64 * (pl.w * pl.h);
  }

  /** Drawing the pixel whose turn it is makes one step of progress. */
  lemma OneStep(pl: Plane, before: seq<Byte>, now: seq<Byte>, n: nat, p: nat, next: seq<Byte>)
    requires pl.Valid() && pl.InPlane(p) && pl.Order(p) == n && p < MAX_TILES * 64
    requires Progress(pl, before, now, n)
    requires |next| == CANVAS_SIZE && next == now[..4 * p] + pl.Target(p) + now[4 * p + 4..]
    requires |pl.Target(p)| == 4
    ensures Progress(pl, before, next, n + 1)
  {
    hide Plane.Target, Plane.Order, Plane.InPlane;
    forall q | 0 <= q < MAX_TILES * 64
      ensures next[4 * q..4 * q + 4]
              == if pl.InPlane(q) && pl.Order(q) < n + 1 then pl.Target(q) else before[4 * q..4 * q + 4]
    {
      if q == p {
        assert next[4 * q..4 * q + 4] == pl.Target(p);
      } else {
        assert next[4 * q..4 * q + 4] == now[4 * q..4 * q + 4];
        if pl.InPlane(q) && pl.Order(q) == n {
          OrderInjective(pl, p, q);
        }
      }
    }
  }

  /** Write one pixel. */
  method PutPixel(canvas: array<Byte>, p: nat, color: Option<Color>)
    requires canvas.Length == CANVAS_SIZE && p < MAX_TILES * 64
    modifies canvas
    ensures canvas[..] == old(canvas[..])[..4 * p] + Rgba(color) + old(canvas[..])[4 * p + 4..]
  {
    var at := 4 * p;
    if color.None? {
      canvas[at], canvas[at + 1], canvas[at + 2], canvas[at + 3] := 0, 0, 0, 0;
    } else {
      var c := color.value;
      canvas[at], canvas[at + 1], canvas[at + 2], canvas[at + 3] := c.red, c.green, c.blue, 255;
    }
  }

  /** Draw one tile: the pointer into the video memory moves on after every second pixel. */
  method DrawTile(pl: Plane, canvas: array<Byte>, i: nat, j: nat, ghost before: seq<Byte>)
    requires pl.Valid() && canvas.Length == CANVAS_SIZE && i < pl.w && j < pl.h
    requires Progress(pl, before, canvas[..], 64 * TileIndex(pl.w, i, j))
    modifies canvas
    ensures Progress(pl, before, canvas[..], 64 * TileIndex(pl.w, i, j) + 64)
  {
    hide Progress, TilePixel, Rgba, TileIndex, Plane.Order, Plane.Target, Plane.InPlane;
    EntryInTable(pl.table, pl.w, pl.h, i, j);
    var entry := EntryAt(pl.vram, pl.table, pl.w, i, j);
    var vramPtr := VRAM_BYTES_PER_TILE * entry.tile;
    for tj := 0 to TILE
      invariant vramPtr == VRAM_BYTES_PER_TILE * entry.tile + 4 * tj
      invariant Progress(pl, before, canvas[..], 64 * TileIndex(pl.w, i, j) + TILE * tj)
    {
      for ti := 0 to TILE
        invariant vramPtr == VRAM_BYTES_PER_TILE * entry.tile + 4 * tj + ti / 2
        invariant Progress(pl, before, canvas[..], 64 * TileIndex(pl.w, i, j) + TILE * tj + ti)
      {
        var pixel := Drawn(pl, entry, i, j, ti, tj);
        DrawnInOrder(pl, i, j, ti, tj);
        PixelInCanvas(pl, pixel);
        var cramColor;
        PointerPixel(pl.vram, entry.tile, tj, ti);
        if ti % 2 == 0 {
          cramColor := pl.vram[vramPtr] / 0x10;
        } else {
          cramColor := pl.vram[vramPtr] % 0x10;
          vramPtr := vramPtr + 1;
        }
        ghost var now := canvas[..];
        PutPixel(canvas, pixel, Looked(pl, entry, cramColor));
        OneStep(pl, before, now, 64 * TileIndex(pl.w, i, j) + TILE * tj + ti, pixel, canvas[..]);
      }
    }
  }

  lemma PointerPixel(vram: seq<Byte>, tile: nat, tj: nat, ti: nat)
    requires |vram| == VRAM_SIZE && tile < 2048 && tj < TILE && ti < TILE
    ensures var at := VRAM_BYTES_PER_TILE * tile + 4 * tj + ti / 2;
            && at < VRAM_SIZE
            && TilePixel(vram, tile, tj * TILE + ti) == if ti % 2 == 0 then vram[at] / 0x10 else vram[at] % 0x10
  {
  }

  /** Draw the plane: afterwards every pixel of the plane has the colour that gathering gives
      it, and the rest of the canvas is untouched. */
  method DrawPlane(pl: Plane, canvas: array<Byte>)
    requires pl.Valid() && canvas.Length == CANVAS_SIZE
    modifies canvas
    ensures forall p :: 0 <= p < MAX_TILES * 64 ==>
              canvas[4 * p..4 * p + 4] == if pl.InPlane(p) then pl.Target(p) else old(canvas[4 * p..4 * p + 4])
  {
    hide Plane.Order, Plane.Target, Plane.InPlane;
    ghost var before := canvas[..];
    for j := 0 to pl.h
      invariant Progress(pl, before, canvas[..], 64 * TileIndex(pl.w, 0, j))
    {
      for i := 0 to pl.w
        invariant Progress(pl, before, canvas[..], 64 * TileIndex(pl.w, i, j))
      {
        DrawTile(pl, canvas, i, j, before);
      }
    }
    AllDrawn(pl);
    forall p | 0 <= p < MAX_TILES * 64
      ensures canvas[4 * p..4 * p + 4] == if pl.InPlane(p) then pl.Target(p) else old(canvas[4 * p..4 * p + 4])
    {
      assert canvas[..][4 * p..4 * p + 4] == canvas[4 * p..4 * p + 4];
      assert before[4 * p..4 * p + 4] == old(canvas[4 * p..4 * p + 4]);
    }
  }

  /** Every pixel of the plane has its turn before the end. */
  lemma AllDrawn(pl: Plane)
    requires pl.Valid()
    ensures forall p: nat :: pl.InPlane(p) ==> pl.Order(p) < 64 * TileIndex(pl.w, 0, pl.h)
  {
    forall p: nat | pl.InPlane(p)
      ensures pl.Order(p) < 64 * TileIndex(pl.w, 0, pl.h)
    {
      TurnBound(pl, p);
    }
  }

  lemma TurnBound(pl: Plane, p: nat)
    requires pl.Valid() && pl.InPlane(p)
    ensures pl.Order(p) < 64 * TileIndex(pl.w, 0, pl.h)
  {
    LastTile(pl.w, pl.h);
    TileIndexBound(pl.w, pl.h, pl.X(p) / TILE, pl.Y(p) / TILE);
    hide TileIndex, Flipped, Plane.X, Plane.Y, Plane.EntryAtPixel;
  }

  lemma LastTile(w: nat, h: nat)
    ensures TileIndex(w, 0, h) == w * h
  {
  }
}
