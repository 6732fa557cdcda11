/** The display sink: the draw callback the GIF decoder invokes once per
    decoded row (`GIFDraw` in src/main.cpp).

    A row arrives as a `Scanline`. The sink decides whether the row is drawn
    at all and, if so, into which one-pixel-high address window, and which
    RGB565 colours it streams into that window. The SPI transaction itself
    (`startWrite`, `setAddrWindow`, `writeColor`, `endWrite`) is represented
    only by its result: a `Write` of a window and a colour sequence. */
module Sink {
  import opened FixedWidth
  import opened Optional

  /** `TFT_BLACK`, painted in place of a transparent pixel. */
  const Black: uint16 := 0

  /** Number of entries in the decoder's palette (one per 8-bit index). */
  const PaletteSize := 256

  /** One decoded row as the decoder hands it over: the frame's offset on
      the canvas (`iX`, `iY`), the row number inside the frame (`y`), the
      frame width, the 8-bit pixel indices, the 256-entry palette and the
      graphic control extension's transparency flag and index. */
  datatype Scanline = Scanline(
    iX: int,
    iY: int,
    y: int,
    iWidth: int,
    pixels: seq<uint8>,
    palette: seq<uint16>,
    hasTransparency: bool,
    transparent: uint8)

  /** The address window `setAddrWindow(x, y, w, h)` opens. */
  datatype Window = Window(x: int, y: int, w: int, h: int)

  /** One SPI transaction: a window and the colours written into it, in order. */
  datatype Write = Write(window: Window, colours: seq<uint16>)

  // The sink's local variables, each narrowed to int16_t as in the source.
  function Col(s: Scanline): int16 { ToInt16(s.iX) }
  function Row(s: Scanline): int16 { ToInt16(s.iY + s.y) }
  function Width(s: Scanline): int16 { ToInt16(s.iWidth) }

  /** The bounds check: both the row and the row's first column on screen. */
  predicate OnScreen(s: Scanline, screenW: int16, screenH: int16) {
    0 <= Row(s) < screenH && 0 <= Col(s) < screenW
  }

  /** The width after the right edge is cut off; the left edge is never cut. */
  function ClippedWidth(s: Scanline, screenW: int16): int {
    if Col(s) as int + Width(s) as int > screenW as int
    then screenW as int - Col(s) as int
    else Width(s) as int
  }

  /** How many pixel indices the sink reads from the row's buffer. */
  function PixelsRead(s: Scanline, screenW: int16, screenH: int16): nat {
    if OnScreen(s, screenW, screenH) then Max(0, ClippedWidth(s, screenW)) else 0
  }

  /** What the decoder guarantees about a row it hands over: a full palette
      and a pixel buffer at least as long as the sink will read. */
  predicate WellFormed(s: Scanline, screenW: int16, screenH: int16) {
    |s.palette| == PaletteSize && |s.pixels| >= PixelsRead(s, screenW, screenH)
  }

  /** The colour written for pixel index `idx`. */
  function Colour(s: Scanline, idx: uint8): uint16
    requires |s.palette| == PaletteSize
  {
    if s.hasTransparency && idx == s.transparent then Black else s.palette[idx]
  }

  /** The colours of a run of pixel indices, one per index, in order. */
  function Resolve(s: Scanline, ps: seq<uint8>): (cs: seq<uint16>)
    requires |s.palette| == PaletteSize
    ensures |cs| == |ps|
    ensures forall i :: 0 <= i < |ps| ==> cs[i] == Colour(s, ps[i])
  {
    if ps == [] then [] else [Colour(s, ps[0])] + Resolve(s, ps[1..])
  }

  /** The draw callback: `None` when the row is skipped, otherwise the one
      transaction it performs. */
  function Draw(s: Scanline, screenW: int16, screenH: int16): (r: Option<Write>)
    requires WellFormed(s, screenW, screenH)
    ensures r.Some? <==> 0 <= Row(s) < screenH && 0 <= Col(s) < screenW
    ensures r.Some? ==>
      r.value.window == Window(Col(s) as int, Row(s) as int, Min(Width(s) as int, screenW as int - Col(s) as int), 1)
    ensures r.Some? ==> |r.value.colours| == Max(0, r.value.window.w)
    ensures r.Some? ==> forall i :: 0 <= i < |r.value.colours| ==>
      r.value.colours[i] ==
        (if s.hasTransparency && s.pixels[i] == s.transparent then Black else s.palette[s.pixels[i]])
  {
    if !OnScreen(s, screenW, screenH) then None
    else
      var w := ClippedWidth(s, screenW);
      Some(Write(Window(Col(s) as int, Row(s) as int, w, 1), Resolve(s, s.pixels[..Max(0, w)])))
  }

  /** The loop of the source, one `writeColor` per iteration, producing the
      same transaction as `Draw`. */
  method DrawRow(s: Scanline, screenW: int16, screenH: int16) returns (r: Option<Write>)
    requires WellFormed(s, screenW, screenH)
    ensures r == Draw(s, screenW, screenH)
  {
    var x := Col(s) as int;
    var y := Row(s) as int;
    var w := Width(s) as int;
    if y < 0 || y >= screenH as int {
      return None;
    }
    if x < 0 || x >= screenW as int {
      return None;
    }
    if x + w > screenW as int {
      w := screenW as int - x;
    }
    var colours: seq<uint16> := [];
    var i := 0;
    while i < w
      invariant 0 <= i <= Max(0, w)
      invariant |colours| == i
      invariant forall j :: 0 <= j < i ==> colours[j] == Colour(s, s.pixels[j])
    {
      var idx := s.pixels[i];
      var colour;
      if s.hasTransparency && idx == s.transparent {
        colour := Black;
      } else {
        colour := s.palette[idx];
      }
      colours := colours + [colour];
      i := i + 1;
    }
    assert colours == Resolve(s, s.pixels[..Max(0, w)]);
    r := Some(Write(Window(x, y, w, 1), colours));
  }

  /** Whether a transaction into window `wd` addresses screen pixel `p`. */
  predicate Addresses(wd: Window, p: (int, int)) {
    wd.x <= p.0 < wd.x + wd.w && wd.y <= p.1 < wd.y + wd.h
  }

  predicate InsideScreen(p: (int, int), screenW: int16, screenH: int16) {
    0 <= p.0 < screenW as int && 0 <= p.1 < screenH as int
  }

  /** The transactions produced for a sequence of rows, skipped rows omitted. */
  function DrawAll(rows: seq<Scanline>, screenW: int16, screenH: int16): (ws: seq<Write>)
    requires forall k :: 0 <= k < |rows| ==> WellFormed(rows[k], screenW, screenH)
    ensures |ws| <= |rows|
  {
    if rows == [] then []
    else
      var rest := DrawAll(rows[1..], screenW, screenH);
      match Draw(rows[0], screenW, screenH)
      case None => rest
      case Some(wr) => [wr] + rest
  }
}
