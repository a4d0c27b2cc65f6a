/** The file callbacks the decoder is opened with and the playback routine
    `ShowGIF` (src/gif.cpp). The decoding library itself is not part of this
    model: it is represented by the image it would decode from a file, a
    sequence of frames, each a sequence of `GIFDRAW` lines handed to the line
    callback. */
module Gif {
  import opened Storage
  import opened Display
  import opened GifDraw

  // ---------------------------------------------------------------------
  // File callbacks

  /** The byte count `GIFReadFile` asks the handle for: the request itself,
      or one byte less than what remains when the request would run past the
      end (the work-around that keeps the last byte unread, because seeking
      stops working once it has been read). A count of at most 0 reads
      nothing. */
  function ReadRequest(iSize: int, iPos: int, iLen: int): (n: int)
    ensures n <= iLen
    ensures iSize - iPos >= iLen ==> n == iLen
    ensures iSize - iPos < iLen ==> iPos + n == iSize - 1
  {
    if iSize - iPos < iLen then iSize - iPos - 1 else iLen
  }

  /** A request that would run past the end leaves the last byte unread. */
  lemma ReadStopsShort(iSize: int, iPos: int, iLen: int)
    requires iSize - iPos < iLen
    ensures iPos + ReadRequest(iSize, iPos, iLen) < iSize
    ensures ReadRequest(iSize, iPos, iLen) > 0 <==> iSize - iPos >= 2
  {
  }

  /** A request of exactly the remaining length is not cut, so it does read
      the last byte. */
  lemma ExactRequestReachesEnd(iSize: int, iPos: int)
    requires iPos < iSize
    ensures ReadRequest(iSize, iPos, iSize - iPos) == iSize - iPos
    ensures iPos + ReadRequest(iSize, iPos, iSize - iPos) == iSize
  {
  }

  /** The decoder's `GIFFILE` record: the handle returned by `GIFOpenFile`,
      the size it reported and the position the callbacks keep. */
  class GifFileRecord {
    const handle: FsFile
    var iSize: int
    var iPos: int

    constructor (h: FsFile, size: int)
      ensures handle == h && iSize == size && iPos == 0
    {
      handle := h;
      iSize := size;
      iPos := 0;
    }
  }

  /** `GIFReadFile(pFile, pBuf, iLen)`; `ioOk` is the card's answer to the
      read. The handle's -1 for a failed read is passed on to the decoder. */
  method ReadFile(pFile: GifFileRecord, pBuf: array<byte>, iLen: int, ioOk: bool) returns (r: int)
    requires pFile.handle.Valid() && iLen <= pBuf.Length
    modifies pFile`iPos, pFile.handle, pBuf
    ensures pFile.handle.Valid() && pFile.handle.data == old(pFile.handle.data)
    ensures pFile.handle.isOpen == old(pFile.handle.isOpen)
    ensures var n := ReadRequest(old(pFile.iSize), old(pFile.iPos), iLen);
      if n <= 0 then
        r == 0 && pFile.iPos == old(pFile.iPos) && pFile.handle.pos == old(pFile.handle.pos) &&
        pBuf[..] == old(pBuf[..])
      else if !(pFile.handle.isOpen && ioOk) then
        r == -1 && pFile.handle.pos == old(pFile.handle.pos) && pFile.iPos == pFile.handle.pos &&
        pBuf[..] == old(pBuf[..])
      else
        r == Min(n, |pFile.handle.data| - old(pFile.handle.pos)) &&
        pFile.handle.pos == old(pFile.handle.pos) + r && pFile.iPos == pFile.handle.pos &&
        pBuf[..r] == pFile.handle.data[old(pFile.handle.pos)..pFile.handle.pos] &&
        pBuf[r..] == old(pBuf[r..])
  {
    var iBytesRead := iLen;
    var fp := pFile.handle;
    if pFile.iSize - pFile.iPos < iLen {
      iBytesRead := pFile.iSize - pFile.iPos - 1;
    }
    if iBytesRead <= 0 {
      return 0;
    }
    iBytesRead := fp.Read(pBuf, iBytesRead, ioOk);
    pFile.iPos := fp.pos;
    return iBytesRead;
  }

  /** `GIFSeekFile(pFile, iPosition)`: the record follows the handle, whether
      or not the seek succeeded, and the new position is returned. */
  method SeekFile(pFile: GifFileRecord, iPosition: int) returns (r: int)
    requires pFile.handle.Valid()
    modifies pFile`iPos, pFile.handle
    ensures pFile.handle.Valid() && pFile.handle.data == old(pFile.handle.data)
    ensures pFile.handle.pos == if 0 <= iPosition <= |pFile.handle.data| then iPosition else old(pFile.handle.pos)
    ensures pFile.iPos == pFile.handle.pos && r == pFile.iPos
  {
    var fp := pFile.handle;
    var _ := fp.Seek(iPosition);
    pFile.iPos := fp.pos;
    return pFile.iPos;
  }

  // ---------------------------------------------------------------------
  // Globals of src/gif.cpp

  /** The globals `f`, `x_offset` and `y_offset`. */
  class GifGlobals {
    var f: FsFile
    var xOffset: int
    var yOffset: int

    constructor ()
      ensures !f.isOpen && xOffset == 0 && yOffset == 0
    {
      var closed := new FsFile([]);
      closed.Close();
      f := closed;
      xOffset := 0;
      yOffset := 0;
    }

    /** `GIFOpenFile(fname, pSize)` over the files `fs` of the storage: on
        success the global handle is the fresh open file, its size is
        reported and it is returned; otherwise the global holds a file that
        tests false, the size is left as it was and null is returned. */
    method OpenFile(fname: string, fs: map<string, seq<byte>>, pSize: int) returns (h: FsFile?, size: int)
      modifies this`f
      ensures fresh(f)
      ensures fname in fs ==> h == f && f.Valid() && f.isOpen && f.data == fs[fname] && f.pos == 0 &&
                              size == |fs[fname]|
      ensures fname !in fs ==> h == null && !f.isOpen && size == pSize
    {
      if fname in fs {
        f := new FsFile(fs[fname]);
      } else {
        f := new FsFile([]);
        f.Close();
      }
      size := pSize;
      if f.isOpen {
        size := |f.data|;
        return f, size;
      }
      return null, size;
    }
  }

  /** `GIFCloseFile(pHandle)`: closes the handle unless it is null. */
  method CloseFile(pHandle: FsFile?)
    modifies pHandle
    ensures pHandle != null ==> !pHandle.isOpen && pHandle.data == old(pHandle.data) &&
                                pHandle.pos == old(pHandle.pos)
  {
    if pHandle != null {
      pHandle.Close();
    }
  }

  // ---------------------------------------------------------------------
  // Playback

  /** C's `a / 2` on `int`, which truncates toward zero: the remainder
      `a - 2 * q` is 0 or has the sign of `a`. */
  function CHalf(a: int): (q: int)
    ensures a >= 0 ==> 0 <= a - 2 * q <= 1
    ensures a < 0 ==> -1 <= a - 2 * q <= 0
  {
    if a >= 0 then a / 2 else -((-a) / 2)
  }

  /** `(screen - canvas) / 2`, raised to 0 when negative: the offset that
      centres a canvas on the panel, rounding down. */
  function CentreOffset(screen: int, canvas: int): (r: int)
    ensures r >= 0
    ensures canvas <= screen ==> 2 * r <= screen - canvas <= 2 * r + 1
    ensures canvas > screen ==> r == 0
  {
    var o := CHalf(screen - canvas);
    if o < 0 then 0 else o
  }

  /** Because negative offsets are raised to 0, the rounding direction of the
      division does not change the result. */
  lemma CentreOffsetRounding(screen: int, canvas: int)
    ensures CentreOffset(screen, canvas) == if screen - canvas < 0 then 0 else (screen - canvas) / 2
  {
  }

  /** What the decoding library would produce for one file: the canvas size
      and, per frame, the lines it hands to the line callback. */
  datatype GifImage = GifImage(canvasWidth: int, canvasHeight: int, frames: seq<seq<Line>>)

  predicate Drawable(img: GifImage) {
    forall f, i :: 0 <= f < |img.frames| && 0 <= i < |img.frames[f]| ==> WellFormed(img.frames[f][i])
  }

  /** The draw calls for the lines of one frame, in order. */
  function FramePlots(lines: seq<Line>, dispWidth: int): seq<Plot>
    requires forall i :: 0 <= i < |lines| ==> WellFormed(lines[i])
  {
    if lines == [] then []
    else FramePlots(lines[..|lines| - 1], dispWidth) + RowPlots(lines[|lines| - 1], dispWidth)
  }

  /** The draw calls for the first `n` frames of an image. */
  function ImagePlots(img: GifImage, n: nat, dispWidth: int): seq<Plot>
    requires Drawable(img) && n <= |img.frames|
  {
    if n == 0 then [] else ImagePlots(img, n - 1, dispWidth) + FramePlots(img.frames[n - 1], dispWidth)
  }

  /** What happens to the decoder, in order. */
  datatype Event = Opened(name: string) | Played(frame: nat) | Closed

  /** The events of playing frames `0 .. n-1`. */
  function Plays(n: nat): (es: seq<Event>)
    ensures |es| == n
    ensures forall k :: 0 <= k < n ==> es[k] == Played(k)
  {
    if n == 0 then [] else Plays(n - 1) + [Played(n - 1)]
  }

  /** The global decoder object `gif`. */
  class Decoder {
    var image: GifImage
    var next: nat
    var isOpen: bool
    ghost var events: seq<Event>

    ghost predicate Valid()
      reads this
    {
      next <= |image.frames| && Drawable(image)
    }

    constructor ()
      ensures !isOpen && events == []
    {
      image := GifImage(0, 0, []);
      next := 0;
      isOpen := false;
      events := [];
    }

    /** `gif.open(name, ...)`, with `stream` what the file decodes to (None
        when it cannot be opened or is not a GIF). */
    method Open(name: string, stream: Option<GifImage>) returns (ok: bool)
      requires stream.Some? ==> Drawable(stream.value)
      modifies this
      ensures ok == stream.Some?
      ensures ok ==> Valid() && isOpen && image == stream.value && next == 0 &&
                     events == old(events) + [Opened(name)]
      ensures !ok ==> isOpen == old(isOpen) && image == old(image) && next == old(next) &&
                      events == old(events)
    {
      if stream.None? {
        return false;
      }
      image := stream.value;
      next := 0;
      isOpen := true;
      events := events + [Opened(name)];
      return true;
    }

    /** `gif.playFrame(true, NULL)`: draws the next frame line by line through
        the line callback and tells whether another frame follows. */
    method PlayFrame(panel: Panel) returns (more: bool)
      requires Valid() && isOpen
      modifies this`next, this`events, panel
      ensures Valid()
      ensures old(next) < |image.frames| ==>
        next == old(next) + 1 && events == old(events) + [Played(old(next))] &&
        panel.log == old(panel.log) + FramePlots(image.frames[old(next)], panel.width) &&
        panel.pixels == Apply(old(panel.pixels), FramePlots(image.frames[old(next)], panel.width))
      ensures old(next) == |image.frames| ==>
        next == old(next) && events == old(events) &&
        panel.log == old(panel.log) && panel.pixels == old(panel.pixels)
      ensures more == (next < |image.frames|)
    {
      if next == |image.frames| {
        return false;
      }
      DrawFrame(image.frames[next], panel);
      events := events + [Played(next)];
      next := next + 1;
      more := next < |image.frames|;
    }

    /** `gif.close()`. */
    method Close()
      modifies this`isOpen, this`events
      ensures !isOpen && events == old(events) + [Closed]
    {
      isOpen := false;
      events := events + [Closed];
    }
  }

  /** One more frame played: the draw calls, the picture and the events of
      the first `n + 1` frames in terms of those of the first `n`. */
  lemma ImageStep(img: GifImage, n: nat, w: int, m: map<(int, int), Colour>, log0: seq<Plot>, ev0: seq<Event>)
    requires Drawable(img) && n < |img.frames|
    ensures log0 + ImagePlots(img, n + 1, w) == log0 + ImagePlots(img, n, w) + FramePlots(img.frames[n], w)
    ensures Apply(m, ImagePlots(img, n + 1, w)) == Apply(Apply(m, ImagePlots(img, n, w)), FramePlots(img.frames[n], w))
    ensures ev0 + Plays(n + 1) == ev0 + Plays(n) + [Played(n)]
  {
    var before, frame := ImagePlots(img, n, w), FramePlots(img.frames[n], w);
    assert ImagePlots(img, n + 1, w) == before + frame;
    assert log0 + (before + frame) == log0 + before + frame;
    ApplyAppend(m, before, frame);
    assert Plays(n + 1) == Plays(n) + [Played(n)];
    assert ev0 + (Plays(n) + [Played(n)]) == ev0 + Plays(n) + [Played(n)];
  }

  /** The library drawing one frame: its lines, in order, each through the
      line callback. */
  method DrawFrame(lines: seq<Line>, panel: Panel)
    requires forall i :: 0 <= i < |lines| ==> WellFormed(lines[i])
    modifies panel
    ensures panel.log == old(panel.log) + FramePlots(lines, panel.width)
    ensures panel.pixels == Apply(old(panel.pixels), FramePlots(lines, panel.width))
  {
    var i := 0;
    while i < |lines|
      invariant 0 <= i <= |lines|
      invariant panel.log == old(panel.log) + FramePlots(lines[..i], panel.width)
      invariant panel.pixels == Apply(old(panel.pixels), FramePlots(lines[..i], panel.width))
    {
      FrameStep(lines, i, panel.width, old(panel.pixels), old(panel.log));
      DrawLine(lines[i], panel);
      i := i + 1;
    }
    assert lines[..i] == lines;
  }

  lemma FrameStep(lines: seq<Line>, i: nat, w: int, m: map<(int, int), Colour>, log0: seq<Plot>)
    requires i < |lines| && forall k :: 0 <= k < |lines| ==> WellFormed(lines[k])
    ensures log0 + FramePlots(lines[..i + 1], w) == log0 + FramePlots(lines[..i], w) + RowPlots(lines[i], w)
    ensures Apply(m, FramePlots(lines[..i + 1], w)) == Apply(Apply(m, FramePlots(lines[..i], w)), RowPlots(lines[i], w))
  {
    var p := lines[..i + 1];
    assert p[..|p| - 1] == lines[..i];
    assert p[|p| - 1] == lines[i];
    var before, row := FramePlots(lines[..i], w), RowPlots(lines[i], w);
    assert FramePlots(p, w) == before + row;
    assert log0 + (before + row) == log0 + before + row;
    ApplyAppend(m, before, row);
  }

  /** The library handing one line to `GIFDraw` in a fresh `GIFDRAW` record. */
  method DrawLine(l: Line, panel: Panel)
    requires WellFormed(l)
    modifies panel
    ensures panel.log == old(panel.log) + RowPlots(l, panel.width)
    ensures panel.pixels == Apply(old(panel.pixels), RowPlots(l, panel.width))
  {
    var buf := new byte[|l.row|](i requires 0 <= i < |l.row| => l.row[i]);
    assert buf[..] == l.row;
    var d := new DrawRecord(l.iWidth, l.top, l.line, buf, l.palette,
                            l.transparent, l.background, l.hasTransparency, l.disposal);
    assert d.Snapshot() == l;
    Draw(d, panel);
  }

  /** `while (gif.playFrame(true, NULL)) {}`: every frame of the open image,
      in order. */
  method PlayAll(dec: Decoder, panel: Panel)
    requires dec.Valid() && dec.isOpen && dec.next == 0
    modifies dec`next, dec`events, panel
    ensures dec.Valid() && dec.next == |dec.image.frames|
    ensures dec.events == old(dec.events) + Plays(|dec.image.frames|)
    ensures panel.log == old(panel.log) + ImagePlots(dec.image, |dec.image.frames|, panel.width)
    ensures panel.pixels == Apply(old(panel.pixels), ImagePlots(dec.image, |dec.image.frames|, panel.width))
  {
    ghost var m0 := panel.pixels;
    ghost var log0 := panel.log;
    ghost var ev0 := dec.events;
    ghost var img := dec.image;
    assert ev0 + Plays(0) == ev0 && log0 + ImagePlots(img, 0, panel.width) == log0;
    var more := PlayNext(dec, panel, img, m0, log0, ev0);
    while more
      invariant dec.image == img && dec.Valid() && dec.isOpen
      invariant more == (dec.next < |img.frames|)
      invariant dec.events == ev0 + Plays(dec.next)
      invariant panel.log == log0 + ImagePlots(img, dec.next, panel.width)
      invariant panel.pixels == Apply(m0, ImagePlots(img, dec.next, panel.width))
      decreases |img.frames| - dec.next
    {
      more := PlayNext(dec, panel, img, m0, log0, ev0);
    }
  }

  /** One `gif.playFrame(true, NULL)` call of the loop, stated against the
      image's draw calls and events since the loop started. */
  method PlayNext(dec: Decoder, panel: Panel, ghost img: GifImage, ghost m0: map<(int, int), Colour>,
                  ghost log0: seq<Plot>, ghost ev0: seq<Event>) returns (more: bool)
    requires dec.image == img && dec.Valid() && dec.isOpen
    requires dec.events == ev0 + Plays(dec.next)
    requires panel.log == log0 + ImagePlots(img, dec.next, panel.width)
    requires panel.pixels == Apply(m0, ImagePlots(img, dec.next, panel.width))
    modifies dec`next, dec`events, panel
    ensures dec.image == img && dec.Valid() && dec.isOpen
    ensures dec.next == if old(dec.next) < |img.frames| then old(dec.next) + 1 else old(dec.next)
    ensures more == (dec.next < |img.frames|)
    ensures dec.events == ev0 + Plays(dec.next)
    ensures panel.log == log0 + ImagePlots(img, dec.next, panel.width)
    ensures panel.pixels == Apply(m0, ImagePlots(img, dec.next, panel.width))
  {
    ghost var n := dec.next;
    more := dec.PlayFrame(panel);
    if n < |img.frames| {
      ImageStep(img, n, panel.width, m0, log0, ev0);
    }
  }

  /** `ShowGIF(name)`: when the decoder opens the file, centre the canvas,
      play every frame, and close the decoder once; otherwise nothing is
      played or closed. `stream` is what `name` decodes to. */
  method ShowGif(name: string, g: GifGlobals, dec: Decoder, panel: Panel, stream: Option<GifImage>)
    requires stream.Some? ==> Drawable(stream.value)
    modifies g`xOffset, g`yOffset, dec, panel
    ensures stream.None? ==>
      dec.events == old(dec.events) && g.xOffset == old(g.xOffset) && g.yOffset == old(g.yOffset) &&
      panel.log == old(panel.log) && panel.pixels == old(panel.pixels)
    ensures stream.Some? ==>
      var img := stream.value;
      g.xOffset == CentreOffset(panel.width, img.canvasWidth) &&
      g.yOffset == CentreOffset(panel.height, img.canvasHeight) &&
      dec.events == old(dec.events) + [Opened(name)] + Plays(|img.frames|) + [Closed] &&
      !dec.isOpen &&
      panel.log == old(panel.log) + ImagePlots(img, |img.frames|, panel.width) &&
      panel.pixels == Apply(old(panel.pixels), ImagePlots(img, |img.frames|, panel.width))
  {
    var ok := dec.Open(name, stream);
    if ok {
      g.xOffset := CHalf(panel.width - dec.image.canvasWidth);
      if g.xOffset < 0 {
        g.xOffset := 0;
      }
      g.yOffset := CHalf(panel.height - dec.image.canvasHeight);
      if g.yOffset < 0 {
        g.yOffset := 0;
      }
      PlayAll(dec, panel);
      dec.Close();
    }
  }
}
