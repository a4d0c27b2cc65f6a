/** The decoder's line callback `GIFDraw` (src/gif.cpp): one row of palette
    indices becomes RGB565 `drawPixel` calls, after the optional
    "restore to background" rewrite of disposal method 2 (section 23 of the
    GIF89a specification, Graphic Control Extension). */
module GifDraw {
  import opened Storage
  import opened Display

  /** The length of the temporary colour buffer `usTemp`. */
  const TempWidth := 320

  /** The disposal method "restore to background colour". */
  const RestoreBackground := 2

  /** The fields of one `GIFDRAW` record that the callback reads: the row
      width, the frame's top (`iY`) and the line within it (`y`), the row
      bytes, the 256-entry palette and the transparency settings. */
  datatype Line = Line(iWidth: int, top: int, line: int, row: seq<byte>,
                       palette: seq<Colour>, transparent: byte, background: byte,
                       hasTransparency: byte, disposal: byte)

  /** What the decoding library hands over: a width that fits the row and the
      temporary buffer, and a full palette. */
  predicate WellFormed(l: Line) {
    0 <= l.iWidth <= TempWidth && l.iWidth <= |l.row| && |l.palette| == 256
  }

  /** Replace the transparent index by the background index below `w`. */
  function Disposed(row: seq<byte>, t: byte, bg: byte, w: int): (r: seq<byte>)
    ensures |r| == |row|
  {
    seq(|row|, i requires 0 <= i < |row| => if i < w && row[i] == t then bg else row[i])
  }

  /** The record after the disposal step, for a display `dispWidth` wide:
      method 2 rewrites the row below the clamped width and switches
      transparency off; every other method leaves the record alone. */
  function AfterDisposal(l: Line, dispWidth: int): Line {
    if l.disposal == RestoreBackground
    then l.(row := Disposed(l.row, l.transparent, l.background, Min(l.iWidth, dispWidth)),
            hasTransparency := 0)
    else l
  }

  /** The draw calls for the opaque positions below `n`, left to right. */
  function OpaquePlots(row: seq<byte>, t: byte, pal: seq<Colour>, y: int, n: int): seq<Plot>
    requires 0 <= n <= |row| && |pal| == 256
  {
    if n == 0 then []
    else if row[n - 1] != t then OpaquePlots(row, t, pal, y, n - 1) + [Plot(n - 1, y, pal[row[n - 1]])]
    else OpaquePlots(row, t, pal, y, n - 1)
  }

  /** The draw calls for every position below `n`, left to right. */
  function AllPlots(row: seq<byte>, pal: seq<Colour>, y: int, n: int): seq<Plot>
    requires 0 <= n <= |row| && |pal| == 256
  {
    if n == 0 then [] else AllPlots(row, pal, y, n - 1) + [Plot(n - 1, y, pal[row[n - 1]])]
  }

  /** The draw calls of one `GIFDraw` call: both draw paths walk the
      unclamped `iWidth` of the record, on line `iY + y`. */
  function RowPlots(l: Line, dispWidth: int): seq<Plot>
    requires WellFormed(l)
  {
    var a := AfterDisposal(l, dispWidth);
    if a.hasTransparency != 0
    then OpaquePlots(a.row, a.transparent, a.palette, l.top + l.line, l.iWidth)
    else AllPlots(a.row, a.palette, l.top + l.line, l.iWidth)
  }

  // ---------------------------------------------------------------------
  // What the draw calls mean

  /** The disposal rewrite changes exactly the transparent bytes below the
      clamped width, each to the background index. */
  lemma DisposedBytes(row: seq<byte>, t: byte, bg: byte, w: int)
    ensures |Disposed(row, t, bg, w)| == |row|
    ensures forall i :: 0 <= i < |row| && i < w && row[i] == t ==> Disposed(row, t, bg, w)[i] == bg
    ensures forall i :: 0 <= i < |row| && !(i < w && row[i] == t) ==> Disposed(row, t, bg, w)[i] == row[i]
    ensures t != bg ==> forall i :: 0 <= i < |row| && i < w ==> Disposed(row, t, bg, w)[i] != t
  {
  }

  /** Every opaque-path draw call is at an opaque position below `n` of line
      `y`, in that position's palette colour. */
  lemma {:induction false} OpaquePlotsSound(row: seq<byte>, t: byte, pal: seq<Colour>, y: int, n: int)
    requires 0 <= n <= |row| && |pal| == 256
    ensures forall k :: 0 <= k < |OpaquePlots(row, t, pal, y, n)| ==>
      var p := OpaquePlots(row, t, pal, y, n)[k];
      0 <= p.x < n && p.y == y && row[p.x] != t && p.colour == pal[row[p.x]]
  {
    if n > 0 {
      OpaquePlotsSound(row, t, pal, y, n - 1);
    }
  }

  /** The opaque path goes strictly left to right, so no position is drawn
      twice. */
  lemma {:induction false} OpaquePlotsOrdered(row: seq<byte>, t: byte, pal: seq<Colour>, y: int, n: int)
    requires 0 <= n <= |row| && |pal| == 256
    ensures forall k1, k2 :: 0 <= k1 < k2 < |OpaquePlots(row, t, pal, y, n)| ==>
      OpaquePlots(row, t, pal, y, n)[k1].x < OpaquePlots(row, t, pal, y, n)[k2].x
  {
    if n > 0 {
      OpaquePlotsOrdered(row, t, pal, y, n - 1);
      OpaquePlotsSound(row, t, pal, y, n - 1);
    }
  }

  /** Every opaque position below `n` is drawn. */
  lemma {:induction false} OpaquePlotsComplete(row: seq<byte>, t: byte, pal: seq<Colour>, y: int, n: int, x: int)
    requires 0 <= n <= |row| && |pal| == 256
    requires 0 <= x < n && row[x] != t
    ensures exists k :: 0 <= k < |OpaquePlots(row, t, pal, y, n)| && OpaquePlots(row, t, pal, y, n)[k].x == x
  {
    var ps := OpaquePlots(row, t, pal, y, n);
    if x == n - 1 {
      assert ps[|ps| - 1].x == x;
    } else {
      OpaquePlotsComplete(row, t, pal, y, n - 1, x);
      var prev := OpaquePlots(row, t, pal, y, n - 1);
      var k :| 0 <= k < |prev| && prev[k].x == x;
      assert ps[k] == prev[k];
    }
  }

  /** The plain path draws every position once, in order, with its colour. */
  lemma {:induction false} AllPlotsExact(row: seq<byte>, pal: seq<Colour>, y: int, n: int)
    requires 0 <= n <= |row| && |pal| == 256
    ensures |AllPlots(row, pal, y, n)| == n
    ensures forall x :: 0 <= x < n ==> AllPlots(row, pal, y, n)[x] == Plot(x, y, pal[row[x]])
  {
    if n > 0 {
      AllPlotsExact(row, pal, y, n - 1);
    }
  }

  /** The picture after the opaque path: opaque positions show their palette
      colour, transparent positions keep what was there. */
  lemma {:induction false} OpaquePicture(m: map<(int, int), Colour>, row: seq<byte>, t: byte,
                                         pal: seq<Colour>, y: int, n: int, x: int)
    requires 0 <= n <= |row| && |pal| == 256 && 0 <= x < n
    ensures var p := Apply(m, OpaquePlots(row, t, pal, y, n));
      (row[x] != t ==> (x, y) in p && p[(x, y)] == pal[row[x]]) &&
      (row[x] == t ==> ((x, y) in p) == ((x, y) in m) && ((x, y) in m ==> p[(x, y)] == m[(x, y)]))
  {
    var prev := OpaquePlots(row, t, pal, y, n - 1);
    if row[n - 1] != t {
      ApplySnoc(m, prev, Plot(n - 1, y, pal[row[n - 1]]));
    }
    if x < n - 1 {
      OpaquePicture(m, row, t, pal, y, n - 1, x);
    } else if row[x] == t {
      OpaquePlotsSound(row, t, pal, y, n - 1);
      ApplyUntouched(m, prev, (x, y));
    }
  }

  /** The picture after the plain path: every position shows its colour. */
  lemma {:induction false} AllPicture(m: map<(int, int), Colour>, row: seq<byte>, pal: seq<Colour>,
                                      y: int, n: int, x: int)
    requires 0 <= n <= |row| && |pal| == 256 && 0 <= x < n
    ensures var p := Apply(m, AllPlots(row, pal, y, n));
      (x, y) in p && p[(x, y)] == pal[row[x]]
  {
    ApplySnoc(m, AllPlots(row, pal, y, n - 1), Plot(n - 1, y, pal[row[n - 1]]));
    if x < n - 1 {
      AllPicture(m, row, pal, y, n - 1, x);
    }
  }

  /** A disposal-2 row is drawn in full: every position below `iWidth` gets a
      draw call, transparent positions below the clamped width in the
      background's colour, all others in their own. */
  lemma DisposalDrawsAll(l: Line, dispWidth: int)
    requires WellFormed(l) && l.disposal == RestoreBackground
    ensures var ps := RowPlots(l, dispWidth);
      |ps| == l.iWidth &&
      forall x :: 0 <= x < l.iWidth ==>
        ps[x].x == x && ps[x].y == l.top + l.line &&
        ps[x].colour == l.palette[if x < dispWidth && l.row[x] == l.transparent then l.background else l.row[x]]
  {
    var a := AfterDisposal(l, dispWidth);
    AllPlotsExact(a.row, a.palette, l.top + l.line, l.iWidth);
  }

  /** The panel after one `GIFDraw` call at a position of its line below
      `iWidth`: with disposal 2 the position shows its palette colour, the
      background's when it is transparent and below the clamped width;
      otherwise, with transparency on, an opaque position shows its colour
      and a transparent one keeps what the panel had; with it off, the
      position shows its colour. */
  lemma RowPictureOnLine(m: map<(int, int), Colour>, l: Line, dispWidth: int, x: int)
    requires WellFormed(l) && 0 <= x < l.iWidth
    ensures var p := Apply(m, RowPlots(l, dispWidth));
      var y := l.top + l.line;
      (l.disposal == RestoreBackground ==>
        (x, y) in p &&
        p[(x, y)] == l.palette[if x < dispWidth && l.row[x] == l.transparent then l.background else l.row[x]]) &&
      (l.disposal != RestoreBackground && (l.hasTransparency == 0 || l.row[x] != l.transparent) ==>
        (x, y) in p && p[(x, y)] == l.palette[l.row[x]]) &&
      (l.disposal != RestoreBackground && l.hasTransparency != 0 && l.row[x] == l.transparent ==>
        ((x, y) in p) == ((x, y) in m) && ((x, y) in m ==> p[(x, y)] == m[(x, y)]))
  {
    var a := AfterDisposal(l, dispWidth);
    var y := l.top + l.line;
    if l.disposal == RestoreBackground {
      AllPicture(m, a.row, a.palette, y, l.iWidth, x);
      DisposedBytes(l.row, l.transparent, l.background, Min(l.iWidth, dispWidth));
    } else if a.hasTransparency != 0 {
      OpaquePicture(m, a.row, a.transparent, a.palette, y, l.iWidth, x);
    } else {
      AllPicture(m, a.row, a.palette, y, l.iWidth, x);
    }
  }

  /** One `GIFDraw` call changes nothing off its line or at or past `iWidth`. */
  lemma RowPictureElsewhere(m: map<(int, int), Colour>, l: Line, dispWidth: int, x: int, y: int)
    requires WellFormed(l)
    requires y != l.top + l.line || x < 0 || l.iWidth <= x
    ensures var p := Apply(m, RowPlots(l, dispWidth));
      ((x, y) in p) == ((x, y) in m) && ((x, y) in m ==> p[(x, y)] == m[(x, y)])
  {
    RowPlotsStayOnLine(l, dispWidth);
    ApplyUntouched(m, RowPlots(l, dispWidth), (x, y));
  }

  /** Only the line `iY + y` is touched, and nothing at or past `iWidth`. */
  lemma RowPlotsStayOnLine(l: Line, dispWidth: int)
    requires WellFormed(l)
    ensures forall k :: 0 <= k < |RowPlots(l, dispWidth)| ==>
      RowPlots(l, dispWidth)[k].y == l.top + l.line && 0 <= RowPlots(l, dispWidth)[k].x < l.iWidth
  {
    var a := AfterDisposal(l, dispWidth);
    if a.hasTransparency != 0 {
      OpaquePlotsSound(a.row, a.transparent, a.palette, l.top + l.line, l.iWidth);
    } else {
      AllPlotsExact(a.row, a.palette, l.top + l.line, l.iWidth);
    }
  }

  lemma OpaqueSnocStep(row: seq<byte>, t: byte, pal: seq<Colour>, y: int, n: int)
    requires 0 <= n < |row| && |pal| == 256 && row[n] != t
    ensures OpaquePlots(row, t, pal, y, n + 1) == OpaquePlots(row, t, pal, y, n) + [Plot(n, y, pal[row[n]])]
  {
  }

  /** A run of transparent bytes adds no draw call. */
  lemma {:induction false} OpaqueSkip(row: seq<byte>, t: byte, pal: seq<Colour>, y: int, a: int, b: int)
    requires 0 <= a <= b <= |row| && |pal| == 256
    requires forall i :: a <= i < b ==> row[i] == t
    ensures OpaquePlots(row, t, pal, y, b) == OpaquePlots(row, t, pal, y, a)
  {
    if a < b {
      OpaqueSkip(row, t, pal, y, a, b - 1);
    }
  }

  // ---------------------------------------------------------------------
  // The callback

  /** A `GIFDRAW` record. The row buffer `pPixels` is rewritten in place. */
  class DrawRecord {
    const iWidth: int
    const iY: int
    const y: int
    const pixels: array<byte>
    const palette: seq<Colour>
    const transparent: byte
    const background: byte
    const disposal: byte
    var hasTransparency: byte

    constructor (w: int, top: int, line: int, row: array<byte>, pal: seq<Colour>,
                 t: byte, bg: byte, ht: byte, disp: byte)
      ensures iWidth == w && iY == top && y == line && pixels == row && palette == pal
      ensures transparent == t && background == bg && hasTransparency == ht && disposal == disp
    {
      iWidth := w;
      iY := top;
      y := line;
      pixels := row;
      palette := pal;
      transparent := t;
      background := bg;
      hasTransparency := ht;
      disposal := disp;
    }

    function Snapshot(): Line
      reads this, pixels
    {
      Line(iWidth, iY, y, pixels[..], palette, transparent, background, hasTransparency, disposal)
    }
  }

  /** `GIFDraw(pDraw)`, drawing on `panel`. */
  method Draw(d: DrawRecord, panel: Panel)
    requires WellFormed(d.Snapshot())
    modifies d, d.pixels, panel
    ensures d.Snapshot() == AfterDisposal(old(d.Snapshot()), panel.width)
    ensures panel.log == old(panel.log) + RowPlots(old(d.Snapshot()), panel.width)
    ensures panel.pixels == Apply(old(panel.pixels), RowPlots(old(d.Snapshot()), panel.width))
  {
    var iWidth := d.iWidth;
    if iWidth > panel.width {
      iWidth := panel.width;
    }
    var y := d.iY + d.y;
    if d.disposal == RestoreBackground {
      RestoreToBackground(d, iWidth);
    }
    if d.hasTransparency != 0 {
      DrawRuns(d.pixels, d.iWidth, d.transparent, d.palette, y, panel);
    } else {
      DrawPlain(d.pixels, d.iWidth, d.palette, y, panel);
    }
  }

  /** The disposal-2 step of `GIFDraw`: below the clamped width `iWidth`, the
      transparent index becomes the background index; then transparency is
      switched off. */
  method RestoreToBackground(d: DrawRecord, iWidth: int)
    requires 0 <= iWidth <= d.pixels.Length
    modifies d.pixels, d`hasTransparency
    ensures d.pixels[..] == Disposed(old(d.pixels[..]), d.transparent, d.background, iWidth)
    ensures d.hasTransparency == 0
  {
    var x := 0;
    while x < iWidth
      invariant 0 <= x <= iWidth
      invariant d.pixels[..] == Disposed(old(d.pixels[..]), d.transparent, d.background, x)
    {
      if d.pixels[x] == d.transparent {
        d.pixels[x] := d.background;
      }
      x := x + 1;
    }
    assert Disposed(old(d.pixels[..]), d.transparent, d.background, x) ==
      Disposed(old(d.pixels[..]), d.transparent, d.background, iWidth);
    d.hasTransparency := 0;
  }

  /** The transparency path of `GIFDraw`: alternately collects a run of opaque
      pixels into `usTemp` and draws it, then skips a run of transparent ones;
      `x` always equals the number of bytes consumed. */
  method DrawRuns(pixels: array<byte>, width: int, t: byte, usPalette: seq<Colour>, y: int, panel: Panel)
    requires 0 <= width <= TempWidth && width <= pixels.Length && |usPalette| == 256
    modifies panel
    ensures panel.log == old(panel.log) + OpaquePlots(pixels[..], t, usPalette, y, width)
    ensures panel.pixels == Apply(old(panel.pixels), OpaquePlots(pixels[..], t, usPalette, y, width))
  {
    ghost var m0 := panel.pixels;
    ghost var log0 := panel.log;
    var s := 0;
    var pEnd := width;
    var x := 0;
    var usTemp := new Colour[TempWidth];
    while x < width
      modifies panel, usTemp
      invariant 0 <= x <= pEnd && x == s
      invariant panel.log == log0 + OpaquePlots(pixels[..], t, usPalette, y, s)
      invariant panel.pixels == Apply(m0, OpaquePlots(pixels[..], t, usPalette, y, s))
      decreases pEnd - s
    {
      ghost var x0 := x;
      var iCount;
      s, iCount := CollectOpaque(pixels, s, pEnd, t, usPalette, usTemp);
      ghost var opaqueEnd := s;
      if iCount != 0 {
        DrawTemp(pixels, x, iCount, t, usPalette, usTemp, y, panel, m0, log0);
        x := x + iCount;
      }
      s, iCount := SkipTransparent(pixels, s, pEnd, t);
      OpaqueSkip(pixels[..], t, usPalette, y, x, s);
      assert opaqueEnd > x0 || pixels[x0] == t;
      assert s > x0;
      if iCount != 0 {
        x := x + iCount;  // skip these
      }
    }
  }

  /** The first inner loop of the transparency path: from `s`, copy the
      colours of opaque pixels into `usTemp` until a transparent pixel or
      `pEnd`; `c` starts as `ucTransparent - 1` (as `uint8_t`) so the loop is
      entered. */
  method CollectOpaque(pixels: array<byte>, s0: int, pEnd: int, t: byte, usPalette: seq<Colour>,
                       usTemp: array<Colour>) returns (s: int, iCount: int)
    requires 0 <= s0 <= pEnd <= pixels.Length && pEnd <= usTemp.Length && |usPalette| == 256
    modifies usTemp
    ensures s0 <= s <= pEnd && iCount == s - s0
    ensures forall i :: s0 <= i < s ==> pixels[i] != t
    ensures forall i :: 0 <= i < iCount ==> usTemp[i] == usPalette[pixels[s0 + i]]
    ensures s < pEnd ==> pixels[s] == t
  {
    s := s0;
    iCount := 0;
    var c: byte := if t == 0 then 255 else t - 1;
    while c != t && s < pEnd
      modifies usTemp
      invariant s0 <= s <= pEnd && iCount == s - s0
      invariant forall i :: s0 <= i < s ==> pixels[i] != t
      invariant forall i :: 0 <= i < iCount ==> usTemp[i] == usPalette[pixels[s0 + i]]
      invariant c == t ==> s < pEnd && pixels[s] == t
      decreases pEnd - s, if c == t then 0 else 1
    {
      c := pixels[s];
      s := s + 1;
      if c == t {
        s := s - 1;  // back up to treat it like transparent
      } else {
        usTemp[iCount] := usPalette[c];
        iCount := iCount + 1;
      }
    }
  }

  /** Draw the collected run `usTemp[0..iCount]` at positions `x..x+iCount`:
      the opaque path's draw calls grow from `x` to `x + iCount`. */
  method DrawTemp(pixels: array<byte>, x: int, iCount: int, t: byte, usPalette: seq<Colour>,
                  usTemp: array<Colour>, y: int, panel: Panel,
                  ghost m0: map<(int, int), Colour>, ghost log0: seq<Plot>)
    requires 0 <= x && 0 <= iCount <= usTemp.Length && x + iCount <= pixels.Length && |usPalette| == 256
    requires forall i :: x <= i < x + iCount ==> pixels[i] != t
    requires forall i :: 0 <= i < iCount ==> usTemp[i] == usPalette[pixels[x + i]]
    requires panel.log == log0 + OpaquePlots(pixels[..], t, usPalette, y, x)
    requires panel.pixels == Apply(m0, OpaquePlots(pixels[..], t, usPalette, y, x))
    modifies panel
    ensures panel.log == log0 + OpaquePlots(pixels[..], t, usPalette, y, x + iCount)
    ensures panel.pixels == Apply(m0, OpaquePlots(pixels[..], t, usPalette, y, x + iCount))
  {
    ghost var row := pixels[..];
    ghost var temp := usTemp[..];
    forall i | x <= i < x + iCount
      ensures row[i] != t
    {
      assert pixels[i] != t;
    }
    forall i | 0 <= i < iCount
      ensures temp[i] == usPalette[row[x + i]]
    {
      assert usTemp[i] == usPalette[pixels[x + i]];
    }
    var xOffset := 0;
    while xOffset < iCount
      modifies panel
      invariant 0 <= xOffset <= iCount
      invariant pixels[..] == row && usTemp[..] == temp
      invariant forall i :: x <= i < x + iCount ==> row[i] != t
      invariant forall i :: 0 <= i < iCount ==> temp[i] == usPalette[row[x + i]]
      invariant panel.log == log0 + OpaquePlots(row, t, usPalette, y, x + xOffset)
      invariant panel.pixels == Apply(m0, OpaquePlots(row, t, usPalette, y, x + xOffset))
    {
      assert row[x + xOffset] != t && temp[xOffset] == usPalette[row[x + xOffset]];
      assert usTemp[xOffset] == temp[xOffset];
      OpaqueSnocStep(row, t, usPalette, y, x + xOffset);
      ghost var before := OpaquePlots(row, t, usPalette, y, x + xOffset);
      assert log0 + before + [Plot(x + xOffset, y, usTemp[xOffset])] ==
        log0 + (before + [Plot(x + xOffset, y, usTemp[xOffset])]);
      ApplySnoc(m0, before, Plot(x + xOffset, y, usTemp[xOffset]));
      panel.DrawPixel(x + xOffset, y, usTemp[xOffset]);
      xOffset := xOffset + 1;
    }
  }

  /** The second inner loop: from `s`, count the transparent pixels up to the
      next opaque one or `pEnd`. */
  method SkipTransparent(pixels: array<byte>, s0: int, pEnd: int, t: byte) returns (s: int, iCount: int)
    requires 0 <= s0 <= pEnd <= pixels.Length
    ensures s0 <= s <= pEnd && iCount == s - s0
    ensures forall i :: s0 <= i < s ==> pixels[i] == t
    ensures s < pEnd ==> pixels[s] != t
  {
    s := s0;
    iCount := 0;
    var c := t;
    while c == t && s < pEnd
      invariant s0 <= s <= pEnd && iCount == s - s0
      invariant forall i :: s0 <= i < s ==> pixels[i] == t
      invariant c != t ==> s < pEnd && pixels[s] != t
      decreases pEnd - s, if c == t then 1 else 0
    {
      c := pixels[s];
      s := s + 1;
      if c == t {
        iCount := iCount + 1;
      } else {
        s := s - 1;
      }
    }
  }

  /** The path without transparency: every position below `width`, in order. */
  method DrawPlain(pixels: array<byte>, width: int, usPalette: seq<Colour>, y: int, panel: Panel)
    requires 0 <= width <= pixels.Length && |usPalette| == 256
    modifies panel
    ensures panel.log == old(panel.log) + AllPlots(pixels[..], usPalette, y, width)
    ensures panel.pixels == Apply(old(panel.pixels), AllPlots(pixels[..], usPalette, y, width))
  {
    var x := 0;
    while x < width
      invariant 0 <= x <= width
      invariant panel.log == old(panel.log) + AllPlots(pixels[..], usPalette, y, x)
      invariant panel.pixels == Apply(old(panel.pixels), AllPlots(pixels[..], usPalette, y, x))
    {
      ApplySnoc(old(panel.pixels), AllPlots(pixels[..], usPalette, y, x), Plot(x, y, usPalette[pixels[x]]));
      panel.DrawPixel(x, y, usPalette[pixels[x]]);
      x := x + 1;
    }
  }
}
