/** Properties of the display sink that relate several calls, or that
    restate its behaviour in terms of the decoder's raw row descriptor. */
module SinkProperties {
  import opened FixedWidth
  import opened Optional
  import opened Sink

  /** When the descriptor's values fit in 16 bits, no narrowing happens and
      the sink's decision reads directly off the raw coordinates: the row is
      drawn exactly when `iY + y` is in `[0, screenH)` and `iX` is in
      `[0, screenW)`, into the window `(iX, iY + y, min(iWidth, screenW - iX), 1)`. */
  lemma DrawOnRawCoordinates(s: Scanline, screenW: int16, screenH: int16)
    requires WellFormed(s, screenW, screenH)
    requires FitsInt16(s.iX) && FitsInt16(s.iY + s.y) && FitsInt16(s.iWidth)
    ensures Draw(s, screenW, screenH).Some? <==>
      0 <= s.iY + s.y < screenH as int && 0 <= s.iX < screenW as int
    ensures Draw(s, screenW, screenH).Some? ==>
      Draw(s, screenW, screenH).value.window ==
        Window(s.iX, s.iY + s.y, Min(s.iWidth, screenW as int - s.iX), 1)
  {
  }

  /** A row that starts left of the screen is dropped whole, even when part
      of it would be visible: the sink never clips on the left. */
  lemma LeftOverhangIsDropped(s: Scanline, screenW: int16, screenH: int16)
    requires WellFormed(s, screenW, screenH)
    requires Col(s) < 0
    ensures Draw(s, screenW, screenH) == None
  {
  }

  /** A drawn row with a non-negative width addresses only on-screen pixels
      of a single screen row, starting at its own first column. */
  lemma DrawnWindowIsOnScreen(s: Scanline, screenW: int16, screenH: int16)
    requires WellFormed(s, screenW, screenH)
    requires Draw(s, screenW, screenH).Some?
    ensures var wd := Draw(s, screenW, screenH).value.window;
      && wd.h == 1
      && wd.y == Row(s) as int
      && 0 <= wd.x
      && wd.x + wd.w <= screenW as int
      && (Width(s) >= 0 ==> wd.w >= 0)
      && forall p :: Addresses(wd, p) ==> InsideScreen(p, screenW, screenH)
  {
  }

  /** No transaction for any row of a frame addresses a pixel outside
      `[0, screenW) x [0, screenH)`, whatever the rows' offsets and widths. */
  lemma {:induction false} FrameStaysOnScreen(rows: seq<Scanline>, screenW: int16, screenH: int16)
    requires forall k :: 0 <= k < |rows| ==> WellFormed(rows[k], screenW, screenH)
    ensures forall k, p :: 0 <= k < |DrawAll(rows, screenW, screenH)| && Addresses(DrawAll(rows, screenW, screenH)[k].window, p) ==>
      InsideScreen(p, screenW, screenH)
  {
    if rows != [] {
      FrameStaysOnScreen(rows[1..], screenW, screenH);
      match Draw(rows[0], screenW, screenH)
      case None =>
      case Some(wr) =>
        DrawnWindowIsOnScreen(rows[0], screenW, screenH);
        var ws := DrawAll(rows, screenW, screenH);
        assert ws == [wr] + DrawAll(rows[1..], screenW, screenH);
        forall k, p | 0 <= k < |ws| && Addresses(ws[k].window, p)
          ensures InsideScreen(p, screenW, screenH)
        {
          if k > 0 {
            assert ws[k] == DrawAll(rows[1..], screenW, screenH)[k - 1];
          }
        }
    }
  }

  /** Exactly the visible rows of a frame produce a transaction each, in
      row order. */
  lemma {:induction false} FrameDrawsVisibleRows(rows: seq<Scanline>, screenW: int16, screenH: int16)
    requires forall k :: 0 <= k < |rows| ==> WellFormed(rows[k], screenW, screenH)
    ensures |DrawAll(rows, screenW, screenH)| == |VisibleRows(rows, screenW, screenH)|
    ensures forall k :: 0 <= k < |DrawAll(rows, screenW, screenH)| ==>
      Some(DrawAll(rows, screenW, screenH)[k]) == Draw(VisibleRows(rows, screenW, screenH)[k], screenW, screenH)
  {
    if rows != [] {
      FrameDrawsVisibleRows(rows[1..], screenW, screenH);
      var ws := DrawAll(rows, screenW, screenH);
      var vs := VisibleRows(rows, screenW, screenH);
      if OnScreen(rows[0], screenW, screenH) {
        forall k | 0 <= k < |ws|
          ensures Some(ws[k]) == Draw(vs[k], screenW, screenH)
        {
          if k > 0 {
            assert ws[k] == DrawAll(rows[1..], screenW, screenH)[k - 1];
            assert vs[k] == VisibleRows(rows[1..], screenW, screenH)[k - 1];
          }
        }
      }
    }
  }

  /** The rows of a frame that pass the sink's bounds check, in order. */
  function VisibleRows(rows: seq<Scanline>, screenW: int16, screenH: int16): (vs: seq<Scanline>)
    ensures |vs| <= |rows|
    ensures forall k :: 0 <= k < |vs| ==> OnScreen(vs[k], screenW, screenH) && vs[k] in rows
  {
    if rows == [] then []
    else if OnScreen(rows[0], screenW, screenH) then [rows[0]] + VisibleRows(rows[1..], screenW, screenH)
    else VisibleRows(rows[1..], screenW, screenH)
  }

  /** Only the pixel indices the sink reads matter: two rows that agree on
      everything but the unread tail of the buffer are drawn identically. */
  lemma UnreadPixelsAreIgnored(s: Scanline, ps: seq<uint8>, screenW: int16, screenH: int16)
    requires WellFormed(s, screenW, screenH)
    requires |ps| >= PixelsRead(s, screenW, screenH)
    requires ps[..PixelsRead(s, screenW, screenH)] == s.pixels[..PixelsRead(s, screenW, screenH)]
    ensures Draw(s.(pixels := ps), screenW, screenH) == Draw(s, screenW, screenH)
  {
    var t := s.(pixels := ps);
    if OnScreen(s, screenW, screenH) {
      var n := Max(0, ClippedWidth(s, screenW));
      assert n == PixelsRead(s, screenW, screenH);
      assert Resolve(t, t.pixels[..n]) == Resolve(s, s.pixels[..n]) by {
        assert t.pixels[..n] == s.pixels[..n];
      }
    }
  }

  /** With the transparency flag off every written colour is a plain palette
      lookup, including for the index named as transparent. */
  lemma OpaqueRowIsPaletteLookup(s: Scanline, screenW: int16, screenH: int16)
    requires WellFormed(s, screenW, screenH)
    requires !s.hasTransparency
    requires Draw(s, screenW, screenH).Some?
    ensures var cs := Draw(s, screenW, screenH).value.colours;
      forall i :: 0 <= i < |cs| ==> cs[i] == s.palette[s.pixels[i]]
  {
  }

  /** With the transparency flag on, a pixel whose index is the transparent
      index is written black, and every other pixel is its palette colour. */
  lemma TransparentPixelIsBlack(s: Scanline, screenW: int16, screenH: int16)
    requires WellFormed(s, screenW, screenH)
    requires s.hasTransparency
    requires Draw(s, screenW, screenH).Some?
    ensures var cs := Draw(s, screenW, screenH).value.colours;
      forall i :: 0 <= i < |cs| ==>
        (s.pixels[i] == s.transparent ==> cs[i] == Black) &&
        (s.pixels[i] != s.transparent ==> cs[i] == s.palette[s.pixels[i]])
  {
  }

  /** A row at column 0 that is at least as wide as the screen is cut to
      exactly the screen width. */
  lemma WideRowIsClippedToScreenWidth(s: Scanline, screenW: int16, screenH: int16)
    requires WellFormed(s, screenW, screenH)
    requires OnScreen(s, screenW, screenH)
    requires Col(s) == 0 && Width(s) >= screenW
    ensures Draw(s, screenW, screenH).value.window.w == screenW as int
    ensures |Draw(s, screenW, screenH).value.colours| == screenW as int
  {
  }

  /** The 16-bit narrowing of `iY + y`: moving a row down by 2^16 rows does
      not change what the sink draws. */
  lemma RowShiftedBy65536DrawsTheSame(s: Scanline, screenW: int16, screenH: int16)
    requires WellFormed(s, screenW, screenH)
    ensures WellFormed(s.(iY := s.iY + 0x1_0000), screenW, screenH)
    ensures Draw(s.(iY := s.iY + 0x1_0000), screenW, screenH) == Draw(s, screenW, screenH)
  {
    var t := s.(iY := s.iY + 0x1_0000);
    assert Row(t) == Row(s);
    if OnScreen(s, screenW, screenH) {
      var n := Max(0, ClippedWidth(s, screenW));
      var ps := s.pixels[..n];
      assert Resolve(t, ps) == Resolve(s, ps) by {
        forall i | 0 <= i < n
          ensures Colour(t, ps[i]) == Colour(s, ps[i])
        {
        }
      }
    }
  }

  /** An instance of the narrowing: a row whose absolute position is 65536
      lands on screen row 0 and is drawn there. */
  lemma RowBeyondInt16WrapsOntoScreen()
    ensures var s := Scanline(0, 0xFFFF, 1, 1, [7], seq(PaletteSize, _ => 0x1234), false, 0);
      && WellFormed(s, 240, 320)
      && Draw(s, 240, 320) == Some(Write(Window(0, 0, 1, 1), [0x1234]))
  {
    var s0 := Scanline(0, -1, 1, 1, [7], seq(PaletteSize, _ => 0x1234), false, 0);
    assert Row(s0) == 0;
    assert s0.pixels[..1] == [7];
    assert Resolve(s0, [7]) == [0x1234] by {
      assert Colour(s0, 7) == 0x1234;
    }
    RowShiftedBy65536DrawsTheSame(s0, 240, 320);
  }
}
