/** Pictures put into the video RAM and looked at: name table entries, tiles and scroll words as
    a program encodes them, and what the renderers show of them (src/sega/video/plane.h:19-32,
    src/sega/video/plane.cpp:50-86, src/sega/video/video.cpp:94-184). */
module Pictures {
  import opened Words
  import opened Ram
  import opened VdpRegisters
  import opened PlaneDraw
  import opened Video

  // ---------------------------------------------------------------- name table entries

  predicate IsEntry(e: Entry) {
    e.tile < 2048 && e.palette < 4
  }

  /** An entry as a big-endian word: tile, the two flips, palette, priority. */
  function EntryWord(e: Entry): Word
    requires IsEntry(e)
  {
    e.tile + 0x800 * B2I(e.flipX) + 0x1000 * B2I(e.flipY) + 0x2000 * e.palette + 0x8000 * B2I(e.priority)
  }

  /** An encoded entry reads back. */
  lemma EntryReadsBack(e: Entry)
    requires IsEntry(e)
    ensures EntryOf(EntryWord(e) / 0x100, EntryWord(e) % 0x100) == e
  {
    var high := e.tile / 0x100 + 8 * B2I(e.flipX) + 0x10 * B2I(e.flipY) + 0x20 * e.palette + 0x80 * B2I(e.priority);
    DivUnique(EntryWord(e), 0x100, high, e.tile % 0x100);
    HighFields(e.tile / 0x100, B2I(e.flipX), B2I(e.flipY), e.palette, B2I(e.priority));
    hide EntryWord;
  }

  lemma HighFields(tile: nat, flipX: nat, flipY: nat, palette: nat, priority: nat)
    requires tile < 8 && flipX < 2 && flipY < 2 && palette < 4 && priority < 2
    ensures var b := tile + 8 * flipX + 0x10 * flipY + 0x20 * palette + 0x80 * priority;
            && b % 8 == tile && b / 8 % 2 == flipX && b / 0x10 % 2 == flipY
            && b / 0x20 % 4 == palette && b / 0x80 == priority
  {
    var b := tile + 8 * flipX + 0x10 * flipY + 0x20 * palette + 0x80 * priority;
    DivUnique(b, 8, flipX + 2 * flipY + 4 * palette + 0x10 * priority, tile);
    DivUnique(b, 0x10, flipY + 2 * palette + 8 * priority, tile + 8 * flipX);
    DivUnique(b, 0x20, palette + 4 * priority, tile + 8 * flipX + 0x10 * flipY);
  }

  ghost predicate EntryStands(vram: seq<Byte>, at: nat, e: Entry) {
    IsEntry(e) && at + 2 <= |vram| && vram[at..at + 2] == WordBytes(EntryWord(e))
  }

  // ---------------------------------------------------------------- tiles

  /** Eight rows of eight colour indices. */
  type Tile = t: seq<nat> | |t| == 64 && forall i :: 0 <= i < 64 ==> t[i] < 16 witness seq(64, _ => 0)

  /** Two pixels to a byte, the left one in the high half. */
  function Packed(t: Tile): seq<Byte> {
    seq(32, k requires 0 <= k < 32 => 16 * t[2 * k] + t[2 * k + 1])
  }

  ghost predicate TileStands(vram: seq<Byte>, n: nat, t: Tile) {
    32 * n + 32 <= |vram| && vram[32 * n..32 * n + 32] == Packed(t)
  }

  lemma TileReadsBack(vram: seq<Byte>, n: nat, t: Tile, i: nat)
    requires |vram| == PlaneDraw.VRAM_SIZE && n < 2048 && i < 64 && TileStands(vram, n, t)
    ensures TilePixel(vram, n, i) == t[i]
  {
    var k := i / 2;
    assert vram[32 * n..32 * n + 32][k] == vram[32 * n + k];
    assert Packed(t)[k] == 16 * t[2 * k] + t[2 * k + 1];
    DivUnique(16 * t[2 * k] + t[2 * k + 1], 16, t[2 * k], t[2 * k + 1]);
  }

  // ---------------------------------------------------------------- what a plane shows

  /** Column or row of a tile that is seen at column or row i. */
  function Seen(flip: bool, i: nat): nat
    requires i < 8
  {
    if flip then 7 - i else i
  }

  function ColorOf(colors: Colors, e: Entry, t: Tile, x: nat, y: nat): Option<Color>
    requires x < 8 && y < 8
  {
    var c := t[8 * Seen(e.flipY, y) + Seen(e.flipX, x)];
    if c == 0 then None else Some(colors(e.palette, c))
  }

  /** Where the entry of the tile stands that covers a pixel of a plane w tiles wide. */
  function EntryAddress(table: nat, w: nat, px: nat, py: nat): nat {
    table + 2 * (py / 8 * w + px / 8)
  }

  lemma EntryStandsThere(vram: seq<Byte>, table: nat, w: nat, px: nat, py: nat, e: Entry)
    requires |vram| == PlaneDraw.VRAM_SIZE && EntryStands(vram, EntryAddress(table, w, px, py), e)
    ensures EntryInside(table, w, px / TILE, py / TILE)
    ensures EntryAt(vram, table, w, px / TILE, py / TILE) == e && IsEntry(e)
  {
    var at := EntryAddress(table, w, px, py);
    assert vram[at] == vram[at..at + 2][0] && vram[at + 1] == vram[at..at + 2][1];
    EntryReadsBack(e);
    hide EntryOf, EntryWord;
  }

  /** A plane pixel has the colour that the entry and the tile standing there give it. */
  lemma PlaneShows(vram: seq<Byte>, colors: Colors, table: nat, w: nat, px: nat, py: nat, e: Entry, t: Tile)
    requires |vram| == PlaneDraw.VRAM_SIZE
    requires EntryStands(vram, EntryAddress(table, w, px, py), e) && TileStands(vram, e.tile, t)
    ensures EntryInside(table, w, px / TILE, py / TILE)
    ensures EntryAt(vram, table, w, px / TILE, py / TILE) == e
    ensures PlanePixel(vram, colors, table, w, px, py) == ColorOf(colors, e, t, px % 8, py % 8)
  {
    EntryStandsThere(vram, table, w, px, py, e);
    hide EntryAt, EntryOf, EntryWord, EntryStands, EntryInside, TilePixel, TileStands;
    TileReadsBack(vram, e.tile, t, 8 * Seen(e.flipY, py % 8) + Seen(e.flipX, px % 8));
  }

  /** Setting the horizontal flip of an entry mirrors its tile's columns and keeps its rows. */
  lemma FlipMirrorsColumns(vram: seq<Byte>, vram': seq<Byte>, colors: Colors, table: nat, w: nat, px: nat, py: nat,
                           e: Entry, t: Tile)
    requires |vram| == |vram'| == PlaneDraw.VRAM_SIZE && !e.flipX
    requires EntryStands(vram, EntryAddress(table, w, px, py), e) && TileStands(vram, e.tile, t)
    requires TileStands(vram', e.tile, t)
    requires var at := EntryAddress(table, w, px, py);
             vram'[at..at + 2] == WordBytes(EntryWord(e) + 0x800)
    ensures PlanePixel(vram', colors, table, w, px, py)
            == PlanePixel(vram, colors, table, w, px / 8 * 8 + 7 - px % 8, py)
  {
    hide PlanePixel, EntryAt, ColorOf, TileStands;
    PlaneShows(vram', colors, table, w, px, py, e.(flipX := true), t);
    MirroredInTile(px);
    PlaneShows(vram, colors, table, w, px / 8 * 8 + 7 - px % 8, py, e, t);
    SeenFlipped(colors, e, t, px % 8, py % 8);
  }

  /** Setting the vertical flip mirrors its rows and keeps its columns. */
  lemma FlipMirrorsRows(vram: seq<Byte>, vram': seq<Byte>, colors: Colors, table: nat, w: nat, px: nat, py: nat,
                        e: Entry, t: Tile)
    requires |vram| == |vram'| == PlaneDraw.VRAM_SIZE && !e.flipY
    requires EntryStands(vram, EntryAddress(table, w, px, py), e) && TileStands(vram, e.tile, t)
    requires TileStands(vram', e.tile, t)
    requires var at := EntryAddress(table, w, px, py);
             vram'[at..at + 2] == WordBytes(EntryWord(e) + 0x1000)
    ensures PlanePixel(vram', colors, table, w, px, py)
            == PlanePixel(vram, colors, table, w, px, py / 8 * 8 + 7 - py % 8)
  {
    hide PlanePixel, EntryAt, ColorOf, TileStands;
    PlaneShows(vram', colors, table, w, px, py, e.(flipY := true), t);
    MirroredInTile(py);
    PlaneShows(vram, colors, table, w, px, py / 8 * 8 + 7 - py % 8, e, t);
    SeenFlipped(colors, e, t, px % 8, py % 8);
  }

  lemma MirroredInTile(i: nat)
    ensures var j := i / 8 * 8 + 7 - i % 8; j >= 0 && j / 8 == i / 8 && j % 8 == 7 - i % 8
  {
    DivUnique(i / 8 * 8 + 7 - i % 8, 8, i / 8, 7 - i % 8);
  }

  lemma SeenFlipped(colors: Colors, e: Entry, t: Tile, x: nat, y: nat)
    requires x < 8 && y < 8
    ensures !e.flipX ==> ColorOf(colors, e.(flipX := true), t, x, y) == ColorOf(colors, e, t, 7 - x, y)
    ensures !e.flipY ==> ColorOf(colors, e.(flipY := true), t, x, y) == ColorOf(colors, e, t, x, 7 - y)
  {
  }

  // ---------------------------------------------------------------- scroll words

  ghost predicate WordStands(ram: seq<Byte>, at: nat, v: Word) {
    at + 2 <= |ram| && ram[at..at + 2] == WordBytes(v)
  }

  /** Where the horizontal scroll word of a line stands: one pair for the whole screen, for each
      row of tiles, or for each line; plane A first. */
  function HorizontalWordAddress(s: Settings, layer: Layer, y: nat): nat {
    s.hscroll + (if layer == PlaneA then 0 else 2)
    + (if s.mode3.horizontalScroll == 0 then 0 else if s.mode3.horizontalScroll == 2 then 32 * (y / 8) else 4 * y)
  }

  /** The same for the vertical scroll words: one pair, or one for every sixteen lines. */
  function VerticalWordAddress(s: Settings, layer: Layer, y: nat): nat {
    (if layer == PlaneA then 0 else 2) + (if s.mode3.verticalScroll == 0 then 0 else 4 * (y / 16))
  }

  lemma WordReadsBack(ram: seq<Byte>, at: nat, v: Word)
    requires WordStands(ram, at, v)
    ensures WordAt(ram, at) == v
  {
    assert ram[at] == ram[at..at + 2][0] && ram[at + 1] == ram[at..at + 2][1];
  }

  /** A line is scrolled by the words that stand there. */
  lemma ScrollsBy(src: Source, layer: Layer, x: nat, y: nat, right: Word, down: Word)
    requires src.Valid() && y < 240 && layer != Window
    requires WordStands(src.vram, HorizontalWordAddress(src.settings, layer, y), right)
    requires WordStands(src.vsram, VerticalWordAddress(src.settings, layer, y), down)
    ensures PlaneCoordinates(src, layer, x, y) == (x - right, y + down)
  {
    assert y - y % 8 == y / 8 * 8;
    WordReadsBack(src.vram, HorizontalWordAddress(src.settings, layer, y), right);
    WordReadsBack(src.vsram, VerticalWordAddress(src.settings, layer, y), down);
    hide WordAt;
  }

  // ---------------------------------------------------------------- what the screen shows

  /** From the encoded picture to the screen: at screen position (x, y) plane A or B shows the
      pixel of its plane that lies right words to the left and down words below, around its
      edges, in the colour its entry and tile give it, when the entry's priority is asked for. */
  lemma ScreenShows(src: Source, layer: Layer, x: nat, y: nat, priority: bool, right: Word, down: Word,
                    px: nat, py: nat, e: Entry, t: Tile)
    requires src.Valid() && src.SizeSet() && x < 320 && y < 240 && layer != Window
    requires src.settings.mode3.horizontalScroll != HSCROLL_INVALID
    requires WordStands(src.vram, HorizontalWordAddress(src.settings, layer, y), right)
    requires WordStands(src.vsram, VerticalWordAddress(src.settings, layer, y), down)
    requires px == (x - right) % (8 * src.settings.planeSize.width)
    requires py == (y + down) % (8 * src.settings.planeSize.height)
    requires var table := if layer == PlaneA then src.settings.planeA else src.settings.planeB;
             EntryStands(src.vram, EntryAddress(table, src.settings.planeSize.width, px, py), e)
    requires TileStands(src.vram, e.tile, t)
    ensures AttemptOf(src, layer, x, y, priority)
            == var color := ColorOf(src.colors, e, t, px % 8, py % 8);
               if priority == e.priority && color.Some? then Drawn(color.value) else NotDrawn
  {
    hide PlaneCoordinates, PlanePixel, EntryAt, EntryInside, ColorOf, EntryStands, TileStands, WordStands;
    hide HorizontalWordAddress, VerticalWordAddress, EntryAddress;
    ScrollsBy(src, layer, x, y, right, down);
    var table := if layer == PlaneA then src.settings.planeA else src.settings.planeB;
    PlaneShows(src.vram, src.colors, table, src.settings.planeSize.width, px, py, e, t);
  }

  /** The window is not scrolled, and its table is as wide as the plane, but for a plane of 64
      tiles on a screen of 32, when it is as wide as the screen. */
  function WindowTableWidth(s: Settings): nat {
    if s.planeSize.width == 64 && s.width == 32 then 32 else s.planeSize.width
  }

  /** Inside the window's region the screen shows the pixel of the window's table there. */
  lemma WindowShows(src: Source, x: nat, y: nat, priority: bool, e: Entry, t: Tile)
    requires src.Valid() && src.SizeSet() && y < 240 && WindowAllows(src.settings, x, y)
    requires x < 8 * WindowTableWidth(src.settings)
    requires EntryStands(src.vram, EntryAddress(src.settings.window, WindowTableWidth(src.settings), x, y), e)
    requires TileStands(src.vram, e.tile, t)
    ensures AttemptOf(src, Window, x, y, priority)
            == var color := ColorOf(src.colors, e, t, x % 8, y % 8);
               if priority == e.priority && color.Some? then Drawn(color.value) else NotDrawn
  {
    hide PlanePixel, EntryAt, EntryInside, ColorOf;
    var s := src.settings;
    var (px, py) := WindowCoordinates(s, Window, x, y);
    if s.planeSize.width == 64 && s.width == 32 {
      var half := y / 8 % 2;
      DivUnique(x + 256 * half, 8, x / 8 + 32 * half, x % 8);
      DivUnique(y / 8 / 2 * 8 + y % 8, 8, y / 8 / 2, y % 8);
    }
    assert px % 8 == x % 8 && py % 8 == y % 8;
    assert EntryAddress(s.window, s.planeSize.width, px, py) == EntryAddress(s.window, WindowTableWidth(s), x, y);
    NotWrapped(px, s.planeSize.width);
    NotWrapped(py, s.planeSize.height);
    PlaneShows(src.vram, src.colors, s.window, s.planeSize.width, px, py, e, t);
    hide WindowAllows, WindowCoordinates, EntryStands, TileStands;
  }

  lemma NotWrapped(v: int, n: nat)
    requires 0 <= v < 8 * n
    ensures Wrapped(v, TILE * n) == v
  {
  }

  /** And on the canvas of the whole plane, the window's included. */
  lemma CanvasShows(src: Source, layer: Layer, canvas: seq<Byte>, px: nat, py: nat, e: Entry, t: Tile)
    requires src.Valid() && src.SizeSet() && CanvasOf(src.WholePlane(layer), canvas)
    requires px < 8 * src.settings.planeSize.width && py < 8 * src.settings.planeSize.height
    requires var table := match layer
                          case PlaneA => src.settings.planeA
                          case PlaneB => src.settings.planeB
                          case Window => src.settings.window;
             EntryStands(src.vram, EntryAddress(table, src.settings.planeSize.width, px, py), e)
    requires TileStands(src.vram, e.tile, t)
    ensures Shows(canvas, py * (8 * src.settings.planeSize.width) + px, ColorOf(src.colors, e, t, px % 8, py % 8))
  {
    hide PlanePixel, EntryAt, EntryInside, ColorOf, Rgba;
    var pl := src.WholePlane(layer);
    PlaneShows(src.vram, src.colors, pl.table, pl.w, px, py, e, t);
    var p := py * pl.Row() + px;
    DivUnique(p, pl.Row(), py, px);
    assert pl.X(p) == px && pl.Y(p) == py;
    assert pl.InPlane(p);
    PixelInCanvas(pl, p);
    assert canvas[4 * p..4 * p + 4] == pl.Target(p);
  }
}
