/** Composing the picture one pixel at a time (src/sega/video/video.cpp:20-220): scrolling, the
    window, the planes and the order of the layers. */
module Video {
  import opened Words
  import opened VdpRegisters
  import opened PlaneDraw
  import Vdp

  datatype Layer = PlaneA | PlaneB | Window

  /** What the renderer reads: the cached registers, two RAMs and the colours. */
  datatype Source = Source(settings: Settings, vram: seq<Byte>, vsram: seq<Byte>, colors: Colors) {
    function Table(layer: Layer): Word {
      match layer
      case PlaneA => settings.planeA
      case PlaneB => settings.planeB
      case Window => settings.window
    }

    /** The plane a layer shows, as a whole. */
    function WholePlane(layer: Layer): PlaneDraw.Plane {
      PlaneDraw.Plane(vram, colors, Table(layer), settings.planeSize.width, settings.planeSize.height)
    }

    predicate SizeSet() {
      settings.planeSize.width in {32, 64, 128} && settings.planeSize.height in {32, 64, 128}
    }

    /** What every reachable state of the processor gives; nothing about where tables lie. */
    predicate Valid() {
      && |vram| == PlaneDraw.VRAM_SIZE && |vsram| == 80
      && settings.hscroll <= 0xFC00
      && (settings.planeSize == INITIAL.planeSize || SizeSet())
    }
  }

  /** A big-endian word of a RAM. */
  function WordAt(ram: seq<Byte>, at: nat): Word
    requires at + 1 < |ram|
  {
    var high: int := ram[at];
    high * 0x100 + ram[at + 1]
  }

  const HSCROLL_INVALID := 1

  /** The scroll words of a line, for plane A or B. */
  function HorizontalScroll(src: Source, layer: Layer, y: nat): Word
    requires src.Valid() && y < 240
  {
    var second := if layer == PlaneA then 0 else 1;
    var index := if src.settings.mode3.horizontalScroll == 0 then second
                 else if src.settings.mode3.horizontalScroll == 2 then (y - y % 8) * 2 + second
                 else y * 2 + second;
    WordAt(src.vram, src.settings.hscroll + 2 * index)
  }

  function VerticalScroll(src: Source, layer: Layer, y: nat): Word
    requires src.Valid() && y < 240
  {
    var second := if layer == PlaneA then 0 else 1;
    WordAt(src.vsram, 2 * (if src.settings.mode3.verticalScroll == 0 then second else y / 16 * 2 + second))
  }

  /** Remainder with the sign of the divisor, as wrapping around a plane needs it. */
  function Wrapped(v: int, n: nat): nat
    requires n > 0
  {
    v % n
  }

  /** What a layer shows at a screen position, by coordinates wrapped around its plane; the
      priority is the one of the name table entry, which need not lie in the video RAM. */
  datatype Shown = Shown(color: Option<Color>, priority: bool)

  function ShownAt(src: Source, layer: Layer, planeX: int, planeY: int): Option<Shown>
    requires src.Valid() && src.SizeSet()
  {
    var w, h := src.settings.planeSize.width, src.settings.planeSize.height;
    var px, py := Wrapped(planeX, TILE * w), Wrapped(planeY, TILE * h);
    if EntryInside(src.Table(layer), w, px / TILE, py / TILE) then
      Some(Shown(PlanePixel(src.vram, src.colors, src.Table(layer), w, px, py),
                 EntryAt(src.vram, src.Table(layer), w, px / TILE, py / TILE).priority))
    else None
  }

  lemma WrappedInside(v: int, n: nat)
    requires n > 0
    ensures 0 <= Wrapped(v, TILE * n) < TILE * n
    ensures Wrapped(v, TILE * n) / TILE < n
  {
  }

  /** Inside the window region: either coordinate allows it. */
  predicate WindowAllows(s: Settings, x: int, y: int) {
    || (if s.windowX.far then x >= s.windowX.coordinate else x < s.windowX.coordinate)
    || (if s.windowY.far then y >= s.windowY.coordinate else y < s.windowY.coordinate)
  }

  /** The coordinates at which a layer's table is read: for the window two half lines per table
      line when its table is twice as wide as the screen. */
  function WindowCoordinates(s: Settings, layer: Layer, x: int, y: int): (int, int) {
    if layer == Window && s.planeSize.width == 64 && s.width == 32 then
      (x + (if y / TILE % 2 == 1 then 256 else 0), y / TILE / 2 * TILE + y % TILE)
    else (x, y)
  }

  /** The coordinates a layer shows at a screen position: scrolled for the planes, the screen's
      own for the window. */
  function PlaneCoordinates(src: Source, layer: Layer, x: nat, y: nat): (int, int)
    requires src.Valid() && y < 240
  {
    if layer == Window then WindowCoordinates(src.settings, layer, x, y)
    else (x - HorizontalScroll(src, layer, y), y + VerticalScroll(src, layer, y))
  }

  /** Undefined is a name table entry behind the end of the video RAM, which the source reads
      all the same. */
  datatype Attempt = Drawn(color: Color) | NotDrawn | Aborted | Undefined

  /** What an entry leads to. */
  function AttemptAt(shown: Option<Shown>, priority: bool): Attempt {
    if shown.None? then Undefined
    else if shown.value.priority == priority && shown.value.color.Some? then Drawn(shown.value.color.value)
    else NotDrawn
  }

  /** The specification of one attempt to draw a layer at a pixel. */
  function AttemptOf(src: Source, layer: Layer, x: nat, y: nat, priority: bool): Attempt
    requires src.Valid() && y < 240
  {
    if layer == Window && !WindowAllows(src.settings, x, y) then NotDrawn
    else if layer != Window && src.settings.mode3.horizontalScroll == HSCROLL_INVALID then Aborted
    else if !src.SizeSet() then NotDrawn
    else
      var (planeX, planeY) := PlaneCoordinates(src, layer, x, y);
      AttemptAt(ShownAt(src, layer, planeX, planeY), priority)
  }

  // ---------------------------------------------------------------- 64-bit coordinates

  /** A possibly negative coordinate divided and reduced as an unsigned 64-bit value gives the
      floor division and remainder, because every divisor is a power of two. */
  lemma UnsignedCoordinates(v: int, n: nat)
    requires -0x8000_0000 <= v < 0x8000_0000 && n in {32, 64, 128}
    ensures var raw := ToLongLong(v);
            && raw / TILE % n == Wrapped(v, TILE * n) / TILE
            && raw % TILE == Wrapped(v, TILE * n) % TILE
  {
    var raw := ToLongLong(v);
    var q := if v < 0 then LONGLONG_MODULUS / (8 * n) else 0;
    if v < 0 {
      assert raw == v + LONGLONG_MODULUS;
    }
    var k := v / (TILE * n);
    var r := v % (TILE * n);
    assert v == (TILE * n) * k + r;
    UnsignedOf(raw, n, k + q, r);
  }

  lemma UnsignedOf(raw: nat, n: nat, k: int, r: nat)
    requires n in {32, 64, 128} && r < TILE * n && raw == (TILE * n) * k + r
    ensures raw / TILE % n == r / TILE && raw % TILE == r % TILE
  {
    var t, u := r / TILE, r % TILE;
    assert (TILE * n) * k == TILE * (n * k);
    DivUnique(raw, TILE, n * k + t, u);
    DivUnique(n * k + t, n, k, t);
  }

  // ---------------------------------------------------------------- one attempt

  /** Apply the scrolling of plane A or B; None for the mode the source aborts on. */
  method Scroll(src: Source, layer: Layer, screenX: nat, screenY: nat) returns (r: Option<(int, int)>)
    requires src.Valid() && screenX < 320 && screenY < 240 && layer != Window
    ensures r == if src.settings.mode3.horizontalScroll == HSCROLL_INVALID then None
                 else Some(PlaneCoordinates(src, layer, screenX, screenY))
  {
    hide WordAt;
    var mode := src.settings.mode3;
    var x: int, y: int := screenX, screenY;
    var second := if layer == PlaneA then 0 else 1;
    if mode.horizontalScroll == 0 {
      x := x - WordAt(src.vram, src.settings.hscroll + 2 * second);
    } else if mode.horizontalScroll == HSCROLL_INVALID {
      return None;
    } else if mode.horizontalScroll == 2 {
      x := x - WordAt(src.vram, src.settings.hscroll + 2 * ((y - y % 8) * 2 + second));
    } else {
      x := x - WordAt(src.vram, src.settings.hscroll + 2 * (y * 2 + second));
    }
    if mode.verticalScroll == 0 {
      y := y + WordAt(src.vsram, 2 * second);
    } else {
      y := y + WordAt(src.vsram, 2 * (y / 16 * 2 + second));
    }
    r := Some((x, y));
  }

  /** Tile and position inside it, as the source computes them from 64-bit coordinates. */
  method Locate(s: Settings, layer: Layer, x: int, y: int)
    returns (tileX: nat, tileY: nat, insideX: nat, insideY: nat)
    requires -0x1_0000 <= x < 0x2_0000 && -0x1_0000 <= y < 0x2_0000
    requires layer == Window ==> x >= 0 && y >= 0
    requires s.planeSize.width in {32, 64, 128} && s.planeSize.height in {32, 64, 128}
    ensures var (px, py) := WindowCoordinates(s, layer, x, y);
            var (w, h) := (s.planeSize.width, s.planeSize.height);
            && tileX == Wrapped(px, TILE * w) / TILE && insideX == Wrapped(px, TILE * w) % TILE
            && tileY == Wrapped(py, TILE * h) / TILE && insideY == Wrapped(py, TILE * h) % TILE
  {
    var w, h := s.planeSize.width, s.planeSize.height;
    var rawTileX: nat, rawTileY: nat := ToLongLong(x) / TILE, ToLongLong(y) / TILE;
    if layer == Window && w == 64 && s.width == 32 {
      if rawTileY % 2 == 1 {
        rawTileX := rawTileX + 32;
      }
      rawTileY := rawTileY / 2;
    }
    tileX, tileY := rawTileX % w, rawTileY % h;
    insideX, insideY := ToLongLong(x) % TILE, ToLongLong(y) % TILE;
    var (px, py) := WindowCoordinates(s, layer, x, y);
    UnsignedCoordinates(px, w);
    UnsignedCoordinates(py, h);
    RemappedCoordinates(s, layer, x, y);
    hide Wrapped, ToLongLong, WindowCoordinates;
  }

  lemma RemappedCoordinates(s: Settings, layer: Layer, x: int, y: int)
    requires -0x1_0000 <= x < 0x2_0000 && -0x1_0000 <= y < 0x2_0000
    requires layer == Window ==> x >= 0 && y >= 0
    ensures var (px, py) := WindowCoordinates(s, layer, x, y);
            var halved := layer == Window && s.planeSize.width == 64 && s.width == 32;
            && ToLongLong(px) % TILE == ToLongLong(x) % TILE && ToLongLong(py) % TILE == ToLongLong(y) % TILE
            && ToLongLong(px) / TILE
               == ToLongLong(x) / TILE + (if halved && ToLongLong(y) / TILE % 2 == 1 then 32 else 0)
            && ToLongLong(py) / TILE == (if halved then ToLongLong(y) / TILE / 2 else ToLongLong(y) / TILE)
            && -0x8000_0000 <= px < 0x8000_0000 && -0x8000_0000 <= py < 0x8000_0000
  {
    if layer == Window {
      NonNegative(x);
      NonNegative(y);
      NonNegative(x + 256);
      NonNegative(y / TILE / 2 * TILE + y % TILE);
      hide ToLongLong;
      DivUnique(x + 256, TILE, x / TILE + 32, x % TILE);
      DivUnique(y / TILE / 2 * TILE + y % TILE, TILE, y / TILE / 2, y % TILE);
    }
  }

  lemma NonNegative(v: int)
    requires 0 <= v < 0x8000_0000
    ensures ToLongLong(v) == v
  {
  }

  lemma ShownParts(src: Source, layer: Layer, px: int, py: int, tileX: nat, tileY: nat, insideX: nat, insideY: nat)
    requires src.Valid() && src.SizeSet()
    requires tileX == Wrapped(px, TILE * src.settings.planeSize.width) / TILE < src.settings.planeSize.width
    requires tileY == Wrapped(py, TILE * src.settings.planeSize.height) / TILE < src.settings.planeSize.height
    requires insideX == Wrapped(px, TILE * src.settings.planeSize.width) % TILE
    requires insideY == Wrapped(py, TILE * src.settings.planeSize.height) % TILE
    ensures var w := src.settings.planeSize.width;
            ShownAt(src, layer, px, py)
            == if !EntryInside(src.Table(layer), w, tileX, tileY) then None
               else
                 var e := EntryAt(src.vram, src.Table(layer), w, tileX, tileY);
                 var c := TilePixel(src.vram, e.tile, Flipped(e.flipY, insideY) * TILE + Flipped(e.flipX, insideX));
                 Some(Shown(if c == 0 then None else Some(src.colors(e.palette, c)), e.priority))
  {
    hide EntryOf, TilePixel, Wrapped, Flipped;
  }

  /** Look up the entry, then the pixel. */
  method LookUp(src: Source, layer: Layer, x: int, y: int, priority: bool) returns (r: Attempt)
    requires src.Valid() && src.SizeSet()
    requires -0x1_0000 <= x < 0x2_0000 && -0x1_0000 <= y < 0x2_0000
    requires layer == Window ==> x >= 0 && y >= 0
    ensures var (px, py) := WindowCoordinates(src.settings, layer, x, y);
            r == AttemptAt(ShownAt(src, layer, px, py), priority)
  {
    hide Wrapped, EntryOf, TilePixel, WindowCoordinates, ShownAt;
    var w, h := src.settings.planeSize.width, src.settings.planeSize.height;
    var tileX, tileY, insideX, insideY := Locate(src.settings, layer, x, y);
    ghost var (px, py) := WindowCoordinates(src.settings, layer, x, y);
    WrappedInside(px, w);
    WrappedInside(py, h);
    ShownParts(src, layer, px, py, tileX, tileY, insideX, insideY);
    if !EntryInside(src.Table(layer), w, tileX, tileY) {
      return Undefined;
    }
    var entry := EntryAt(src.vram, src.Table(layer), w, tileX, tileY);
    if entry.priority != priority {
      return NotDrawn;
    }
    if entry.flipX {
      insideX := 7 - insideX;
    }
    if entry.flipY {
      insideY := 7 - insideY;
    }
    var cramColor := TilePixel(src.vram, entry.tile, insideY * TILE + insideX);
    if cramColor != 0 {
      return Drawn(src.colors(entry.palette, cramColor));
    }
    return NotDrawn;
  }

  /** Try to draw a layer at a pixel. */
  method TryDrawPlane(src: Source, layer: Layer, screenX: nat, screenY: nat, priority: bool) returns (r: Attempt)
    requires src.Valid() && screenX < 320 && screenY < 240
    ensures r == AttemptOf(src, layer, screenX, screenY, priority)
  {
    hide ShownAt, WordAt;
    var s := src.settings;
    var x: int, y: int := screenX, screenY;
    if layer == Window {
      var allowX := if s.windowX.far then x >= s.windowX.coordinate else x < s.windowX.coordinate;
      var allowY := if s.windowY.far then y >= s.windowY.coordinate else y < s.windowY.coordinate;
      if !allowX && !allowY {
        return NotDrawn;
      }
    } else {
      var scrolled := Scroll(src, layer, screenX, screenY);
      if scrolled.None? {
        return Aborted;
      }
      x, y := scrolled.value.0, scrolled.value.1;
    }
    if s.planeSize.width == 0 || s.planeSize.height == 0 {
      return NotDrawn;
    }
    r := LookUp(src, layer, x, y, priority);
  }

  // ---------------------------------------------------------------- the two renderers agree

  /** The position in its whole plane that a layer shows at a screen position. */
  function PlanePosition(src: Source, layer: Layer, x: nat, y: nat): (nat, nat)
    requires src.Valid() && src.SizeSet() && y < 240
  {
    var (planeX, planeY) := PlaneCoordinates(src, layer, x, y);
    (Wrapped(planeX, TILE * src.settings.planeSize.width), Wrapped(planeY, TILE * src.settings.planeSize.height))
  }

  /** The canvas as drawing the whole plane leaves it. */
  ghost predicate CanvasOf(pl: PlaneDraw.Plane, canvas: seq<Byte>) {
    pl.Valid() && |canvas| == CANVAS_SIZE
    && forall p :: 0 <= p < MAX_TILES * 64 && pl.InPlane(p) ==> canvas[4 * p..4 * p + 4] == pl.Target(p)
  }

  function RasterIndex(pl: PlaneDraw.Plane, px: nat, py: nat): nat {
    py * pl.Row() + px
  }

  predicate Shows(canvas: seq<Byte>, p: nat, c: Option<Color>) {
    4 * p + 4 <= |canvas| && canvas[4 * p..4 * p + 4] == Rgba(c)
  }

  /** The canvas shows, at the position scrolled modulo the plane size, the colour that one of
      the two attempts at a pixel draws, or transparency when neither draws. */
  predicate SameColor(src: Source, layer: Layer, canvas: seq<Byte>, x: nat, y: nat)
    requires src.Valid() && src.SizeSet() && y < 240
  {
    var (px, py) := PlanePosition(src, layer, x, y);
    var high, low := AttemptOf(src, layer, x, y, true), AttemptOf(src, layer, x, y, false);
    Shows(canvas, RasterIndex(src.WholePlane(layer), px, py),
          if high.Drawn? then Some(high.color) else if low.Drawn? then Some(low.color) else None)
  }

  /** For plane A and B, at every screen position the canvas drawn for the whole plane holds,
      at the position scrolled modulo the plane size, exactly the colour that one of the two
      attempts at that pixel draws, or a transparent pixel when neither draws. */
  lemma RenderersAgree(src: Source, layer: Layer, canvas: seq<Byte>, x: nat, y: nat)
    requires src.Valid() && src.SizeSet() && layer != Window && x < 320 && y < 240
    requires src.settings.mode3.horizontalScroll != HSCROLL_INVALID
    requires CanvasOf(src.WholePlane(layer), canvas)
    ensures SameColor(src, layer, canvas, x, y)
  {
    hide PlanePixel, EntryAt, WordAt, PlaneCoordinates, Rgba;
    var pl := src.WholePlane(layer);
    var (planeX, planeY) := PlaneCoordinates(src, layer, x, y);
    var (px, py) := PlanePosition(src, layer, x, y);
    WrappedInside(planeX, pl.w);
    WrappedInside(planeY, pl.h);
    DivUnique(py * pl.Row() + px, pl.Row(), py, px);
    assert pl.X(py * pl.Row() + px) == px && pl.Y(py * pl.Row() + px) == py;
    var p := py * pl.Row() + px;
    assert pl.InPlane(p);
    EntryInTable(pl.table, pl.w, pl.h, px / TILE, py / TILE);
    var shown := ShownAt(src, layer, planeX, planeY).value;
    assert shown.color == PlanePixel(src.vram, src.colors, pl.table, pl.w, px, py);
    assert AttemptOf(src, layer, x, y, shown.priority)
           == if shown.color.Some? then Drawn(shown.color.value) else NotDrawn;
    assert AttemptOf(src, layer, x, y, !shown.priority) == NotDrawn;
    assert pl.Target(p) == Rgba(shown.color);
    PixelInCanvas(pl, py * pl.Row() + px);
  }

  /** Draw the whole plane of a layer: its canvas then agrees with the other renderer at every
      screen position. */
  method DrawWholePlane(src: Source, layer: Layer, canvas: array<Byte>)
    requires src.Valid() && src.SizeSet() && layer != Window
    requires src.WholePlane(layer).Valid() && canvas.Length == CANVAS_SIZE
    modifies canvas
    ensures CanvasOf(src.WholePlane(layer), canvas[..])
    ensures src.settings.mode3.horizontalScroll != HSCROLL_INVALID ==>
              forall x: nat, y: nat :: x < 320 && y < 240 ==> SameColor(src, layer, canvas[..], x, y)
  {
    hide Plane.Target, Plane.InPlane, SameColor, AttemptOf;
    var pl := src.WholePlane(layer);
    DrawPlane(pl, canvas);
    forall p | 0 <= p < MAX_TILES * 64 && pl.InPlane(p)
      ensures canvas[..][4 * p..4 * p + 4] == pl.Target(p)
    {
      assert canvas[..][4 * p..4 * p + 4] == canvas[4 * p..4 * p + 4];
    }
    if src.settings.mode3.horizontalScroll != HSCROLL_INVALID {
      forall x: nat, y: nat | x < 320 && y < 240
        ensures SameColor(src, layer, canvas[..], x, y)
      {
        RenderersAgree(src, layer, canvas[..], x, y);
      }
    }
  }

  // ---------------------------------------------------------------- the layers

  /** The layers of one priority, front to back: the sprites (an input), the window, plane A,
      plane B. */
  type Sprites = (nat, nat, bool) -> Option<Color>

  /** The colour of a screen pixel: the first of the layers that draws, high priority first,
      else the background; None if an attempt aborts or is undefined before one draws. */
  function Composite(src: Source, sprites: Sprites, background: Color, x: nat, y: nat): Option<Color>
    requires src.Valid() && y < 240
  {
    FirstDrawn(Attempts(src, sprites, x, y), background)
  }

  function Attempts(src: Source, sprites: Sprites, x: nat, y: nat): (a: seq<Attempt>)
    requires src.Valid() && y < 240
    ensures |a| == 8
  {
    [SpriteAttempt(sprites(x, y, true)), AttemptOf(src, Window, x, y, true),
     AttemptOf(src, PlaneA, x, y, true), AttemptOf(src, PlaneB, x, y, true),
     SpriteAttempt(sprites(x, y, false)), AttemptOf(src, Window, x, y, false),
     AttemptOf(src, PlaneA, x, y, false), AttemptOf(src, PlaneB, x, y, false)]
  }

  function SpriteAttempt(c: Option<Color>): Attempt {
    if c.Some? then Drawn(c.value) else NotDrawn
  }

  function FirstDrawn(attempts: seq<Attempt>, background: Color): Option<Color> {
    if attempts == [] then Some(background)
    else match attempts[0]
      case Drawn(c) => Some(c)
      case NotDrawn => FirstDrawn(attempts[1..], background)
      case _ => None
  }

  lemma CompositeByPriority(src: Source, sprites: Sprites, background: Color, x: nat, y: nat, high: Attempt,
                            low: Attempt)
    requires src.Valid() && y < 240
    requires high == PriorityAttempt(src, sprites, x, y, true) && low == PriorityAttempt(src, sprites, x, y, false)
    ensures Composite(src, sprites, background, x, y)
            == match high
               case Drawn(c) => Some(c)
               case NotDrawn => (match low case Drawn(c) => Some(c) case NotDrawn => Some(background) case _ => None)
               case _ => None
  {
    hide AttemptOf;
    var attempts := Attempts(src, sprites, x, y);
    assert attempts[4..] == attempts[1..][1..][1..][1..];
    FirstOfFour(attempts, background);
    FirstOfFour(attempts[4..], background);
    assert attempts[4..][4..] == [];
  }

  lemma FirstOfFour(attempts: seq<Attempt>, background: Color)
    requires |attempts| >= 4
    ensures FirstDrawn(attempts, background)
            == match FirstOf(attempts[0], FirstOf(attempts[1], FirstOf(attempts[2], attempts[3])))
               case Drawn(c) => Some(c)
               case NotDrawn => FirstDrawn(attempts[4..], background)
               case _ => None
  {
    var a1 := attempts[1..];
    var a2 := a1[1..];
    var a3 := a2[1..];
    assert a3[1..] == attempts[4..];
    assert a1[0] == attempts[1] && a2[0] == attempts[2] && a3[0] == attempts[3];
    var rest := FirstDrawn(attempts[4..], background);
    assert FirstDrawn(a3, background) == Resolved(attempts[3], rest);
    assert FirstDrawn(a2, background) == Resolved(attempts[2], FirstDrawn(a3, background));
    assert FirstDrawn(a1, background) == Resolved(attempts[1], FirstDrawn(a2, background));
    assert FirstDrawn(attempts, background) == Resolved(attempts[0], FirstDrawn(a1, background));
  }

  function Resolved(a: Attempt, rest: Option<Color>): Option<Color> {
    match a
    case Drawn(c) => Some(c)
    case NotDrawn => rest
    case _ => None
  }

  function FirstOf(a: Attempt, b: Attempt): Attempt {
    if a != NotDrawn then a else b
  }

  function PriorityAttempt(src: Source, sprites: Sprites, x: nat, y: nat, priority: bool): Attempt
    requires src.Valid() && y < 240
  {
    FirstOf(SpriteAttempt(sprites(x, y, priority)),
            FirstOf(AttemptOf(src, Window, x, y, priority),
                    FirstOf(AttemptOf(src, PlaneA, x, y, priority), AttemptOf(src, PlaneB, x, y, priority))))
  }

  /** The four attempts of one priority. */
  method DrawPriority(src: Source, sprites: Sprites, x: nat, y: nat, priority: bool) returns (r: Attempt)
    requires src.Valid() && x < 320 && y < 240
    ensures r == PriorityAttempt(src, sprites, x, y, priority)
  {
    hide AttemptOf;
    var sprite := sprites(x, y, priority);
    if sprite.Some? {
      return Drawn(sprite.value);
    }
    r := TryDrawPlane(src, Window, x, y, priority);
    if r != NotDrawn {
      return;
    }
    r := TryDrawPlane(src, PlaneA, x, y, priority);
    if r != NotDrawn {
      return;
    }
    r := TryDrawPlane(src, PlaneB, x, y, priority);
  }

  /** The first n pixels in raster order have their colour. */
  ghost predicate ScreenFilled(src: Source, sprites: Sprites, background: Color, canvas: seq<Byte>, width: nat, n: nat)
    requires src.Valid()
  {
    && 4 * n <= |canvas|
    && forall p :: 0 <= p < n ==> PixelDone(src, sprites, background, canvas, width, p)
  }

  ghost predicate PixelDone(src: Source, sprites: Sprites, background: Color, canvas: seq<Byte>, width: nat, p: nat)
    requires src.Valid() && 4 * p + 4 <= |canvas|
  {
    && width > 0 && p / width < 240
    && Composite(src, sprites, background, p % width, p / width).Some?
    && canvas[4 * p..4 * p + 4] == Rgba(Composite(src, sprites, background, p % width, p / width))
  }

  /** The next pixel of line y is inside the canvas. */
  lemma PixelRoom(width: nat, height: nat, x: nat, y: nat, line: nat)
    requires x < width && y < height && line == y * width
    ensures line + x + 1 <= width * height
    ensures (line + x) / width == y && (line + x) % width == x
  {
    MulBound(width, height - y);
    assert width * (height - y) == width * height - y * width;
    DivUnique(line + x, width, y, x);
  }

  lemma FillOne(src: Source, sprites: Sprites, background: Color, before: seq<Byte>, after: seq<Byte>, width: nat,
                n: nat, color: Color)
    requires src.Valid() && |before| == |after| && 4 * n + 4 <= |after|
    requires ScreenFilled(src, sprites, background, before, width, n)
    requires width > 0 && n / width < 240
    requires Composite(src, sprites, background, n % width, n / width) == Some(color)
    requires after[..4 * n] == before[..4 * n] && after[4 * n..4 * n + 4] == Rgba(Some(color))
    ensures ScreenFilled(src, sprites, background, after, width, n + 1)
  {
    hide Composite, Rgba;
    forall p | 0 <= p < n
      ensures PixelDone(src, sprites, background, after, width, p)
    {
      assert PixelDone(src, sprites, background, before, width, p);
      PixelStays(before, after, n, p);
    }
    hide Source.Valid;
  }

  lemma PixelStays(before: seq<Byte>, after: seq<Byte>, n: nat, p: nat)
    requires 4 * n <= |before| == |after| && p < n && after[..4 * n] == before[..4 * n]
    ensures after[4 * p..4 * p + 4] == before[4 * p..4 * p + 4]
  {
    assert after[4 * p..4 * p + 4] == after[..4 * n][4 * p..4 * p + 4];
    assert before[4 * p..4 * p + 4] == before[..4 * n][4 * p..4 * p + 4];
  }

  /** The colour of one screen pixel, high priority first, then low, then the background. */
  method DrawPixel(src: Source, sprites: Sprites, background: Color, x: nat, y: nat) returns (r: Option<Color>)
    requires src.Valid() && x < 320 && y < 240
    ensures r == Composite(src, sprites, background, x, y)
  {
    hide AttemptOf, PriorityAttempt, Composite;
    CompositeByPriority(src, sprites, background, x, y,
                        PriorityAttempt(src, sprites, x, y, true), PriorityAttempt(src, sprites, x, y, false));
    var attempt := DrawPriority(src, sprites, x, y, true);
    if attempt == NotDrawn {
      attempt := DrawPriority(src, sprites, x, y, false);
    }
    match attempt
    case Drawn(c) => r := Some(c);
    case NotDrawn => r := Some(background);
    case _ => r := None;
  }

  /** Draw the screen line by line: afterwards every pixel, in raster order, has the colour of
      its first drawing layer.  False when the scroll mode makes the source abort, or a table
      reaches behind the video RAM at a pixel that gets that far. */
  method Update(src: Source, sprites: Sprites, background: Color, canvas: array<Byte>) returns (ok: bool)
    requires src.Valid() && src.settings.width <= 40 && src.settings.mode2.height <= 30
    requires canvas.Length == 4 * (TILE * src.settings.width * (TILE * src.settings.mode2.height))
    modifies canvas
    ensures ok ==> ScreenFilled(src, sprites, background, canvas[..], TILE * src.settings.width,
                                TILE * src.settings.width * (TILE * src.settings.mode2.height))
    ensures !ok ==> exists x, y :: 0 <= x < 320 && 0 <= y < 240 && Composite(src, sprites, background, x, y).None?
  {
    hide Composite, ScreenFilled;
    ok := DrawLines(src, sprites, background, canvas, TILE * src.settings.width, TILE * src.settings.mode2.height);
  }

  method DrawLines(src: Source, sprites: Sprites, background: Color, canvas: array<Byte>, width: nat, height: nat)
    returns (ok: bool)
    requires src.Valid() && width <= 320 && height <= 240 && canvas.Length == 4 * (width * height)
    modifies canvas
    ensures ok ==> ScreenFilled(src, sprites, background, canvas[..], width, width * height)
    ensures !ok ==> exists x, y :: 0 <= x < 320 && 0 <= y < 240 && Composite(src, sprites, background, x, y).None?
  {
    hide *;
    StartEmpty(src, sprites, background, canvas[..], width);
    for y := 0 to height
      invariant ScreenFilled(src, sprites, background, canvas[..], width, y * width)
    {
      ok := DrawLine(src, sprites, background, canvas, width, height, y);
      if !ok {
        return;
      }
    }
    ok := true;
  }

  method DrawLine(src: Source, sprites: Sprites, background: Color, canvas: array<Byte>, width: nat, height: nat,
                  y: nat)
    returns (ok: bool)
    requires src.Valid() && width <= 320 && y < height <= 240 && canvas.Length == 4 * (width * height)
    requires ScreenFilled(src, sprites, background, canvas[..], width, y * width)
    modifies canvas
    ensures ok ==> ScreenFilled(src, sprites, background, canvas[..], width, (y + 1) * width)
    ensures !ok ==> exists x, y :: 0 <= x < 320 && 0 <= y < 240 && Composite(src, sprites, background, x, y).None?
  {
    hide Composite, ScreenFilled;
    var line := y * width;
    ghost var size := width * height;
    assert (y + 1) * width == line + width;
    var canvasPtr := 4 * line;
    for x := 0 to width
      invariant canvasPtr == 4 * (line + x)
      invariant ScreenFilled(src, sprites, background, canvas[..], width, line + x)
    {
      PixelRoom(width, height, x, y, line);
      var pixel := DrawPixel(src, sprites, background, x, y);
      if pixel.None? {
        return false;
      }
      ghost var before := canvas[..];
      WritePixel(canvas, canvasPtr, pixel.value);
      FillOne(src, sprites, background, before, canvas[..], width, line + x, pixel.value);
      canvasPtr := canvasPtr + 4;
    }
    ok := true;
  }

  lemma StartEmpty(src: Source, sprites: Sprites, background: Color, canvas: seq<Byte>, width: nat)
    requires src.Valid()
    ensures ScreenFilled(src, sprites, background, canvas, width, 0)
  {
  }

  method WritePixel(canvas: array<Byte>, at: nat, color: Color)
    requires at + 4 <= canvas.Length
    modifies canvas
    ensures canvas[..at] == old(canvas[..at]) && canvas[at..at + 4] == Rgba(Some(color))
  {
    canvas[at] := color.red;
    canvas[at + 1] := color.green;
    canvas[at + 2] := color.blue;
    canvas[at + 3] := 255;
  }

  // ---------------------------------------------------------------- what the processor offers

  /** Every reachable state of the video processor gives the renderers a source they are
      defined on. */
  lemma ReachableSource(s: Vdp.State, colors: Colors)
    requires Vdp.Consistent(s)
    ensures Source(s.settings, s.vram, s.vsram, colors).Valid()
    ensures s.settings.width in {0, 32, 40} && s.settings.mode2.height in {0, 28, 30}
  {
    assert CachedAt(s.settings, HSCROLL, s.registers[HSCROLL]) || BlankAt(s.settings, HSCROLL, s.registers[HSCROLL]);
    assert CachedAt(s.settings, PLANE_SIZE, s.registers[PLANE_SIZE])
        || BlankAt(s.settings, PLANE_SIZE, s.registers[PLANE_SIZE]);
    assert CachedAt(s.settings, MODE_SET_2, s.registers[MODE_SET_2])
        || BlankAt(s.settings, MODE_SET_2, s.registers[MODE_SET_2]);
    assert CachedAt(s.settings, MODE_SET_4, s.registers[MODE_SET_4])
        || BlankAt(s.settings, MODE_SET_4, s.registers[MODE_SET_4]);
    ScrollTable(s.registers[HSCROLL]);
  }

  lemma ScrollTable(v: Byte)
    ensures TableAddress(v % 0x80, 0x400) <= 0xFC00
  {
    var k := v % 0x80 % 0x40;
    DivUnique(v % 0x80 * 0x400, 0x1_0000, v % 0x80 / 0x40, k * 0x400);
  }
}
