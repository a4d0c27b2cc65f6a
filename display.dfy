/** The LED matrix as the decoder's draw callback sees it: a fixed width and
    height and a total map from coordinates to RGB565 colours. Clipping of
    coordinates outside the panel happens inside the display driver, which is
    not part of this model, so every plotted coordinate is kept. */
module Display {

  /** An RGB565 colour, as `uint16_t`. */
  type Colour = c: int | 0 <= c < 0x1_0000

  /** One `drawPixel(x, y, colour)` call. */
  datatype Plot = Plot(x: int, y: int, colour: Colour)

  /** The picture after the given draw calls, applied left to right. */
  function Apply(m: map<(int, int), Colour>, plots: seq<Plot>): map<(int, int), Colour>
  {
    if plots == [] then m
    else
      var last := plots[|plots| - 1];
      Apply(m, plots[..|plots| - 1])[(last.x, last.y) := last.colour]
  }

  /** The coordinates present afterwards are those present before plus the
      plotted ones. */
  lemma {:induction false} ApplyKeys(m: map<(int, int), Colour>, plots: seq<Plot>)
    ensures Apply(m, plots).Keys == m.Keys + set k | 0 <= k < |plots| :: (plots[k].x, plots[k].y)
  {
    if plots != [] {
      var last := plots[|plots| - 1];
      var init := plots[..|plots| - 1];
      ApplyKeys(m, init);
      assert (set k | 0 <= k < |plots| :: (plots[k].x, plots[k].y)) ==
        (set k | 0 <= k < |init| :: (init[k].x, init[k].y)) + {(last.x, last.y)};
    }
  }

  lemma ApplySnoc(m: map<(int, int), Colour>, plots: seq<Plot>, p: Plot)
    ensures Apply(m, plots + [p]) == Apply(m, plots)[(p.x, p.y) := p.colour]
  {
    assert (plots + [p])[..|plots|] == plots;
  }

  /** Drawing two lists of calls in turn is drawing their concatenation. */
  lemma {:induction false} ApplyAppend(m: map<(int, int), Colour>, a: seq<Plot>, b: seq<Plot>)
    ensures Apply(m, a + b) == Apply(Apply(m, a), b)
  {
    if b == [] {
      assert a + b == a;
    } else {
      var ab := a + b;
      var b' := b[..|b| - 1];
      assert ab[..|ab| - 1] == a + b';
      assert ab[|ab| - 1] == b[|b| - 1];
      ApplyAppend(m, a, b');
    }
  }

  /** Draw calls that touch a coordinate no later plot touches leave the
      earlier colour there; the last plot to a coordinate decides it. */
  lemma {:induction false} ApplyUntouched(m: map<(int, int), Colour>, plots: seq<Plot>, key: (int, int))
    requires forall k :: 0 <= k < |plots| ==> (plots[k].x, plots[k].y) != key
    ensures (key in Apply(m, plots)) == (key in m)
    ensures key in m ==> Apply(m, plots)[key] == m[key]
  {
    if plots != [] {
      ApplyUntouched(m, plots[..|plots| - 1], key);
    }
  }

  /** The panel (`dma_display`). `log` records every `drawPixel` call. */
  class Panel {
    const width: nat
    const height: nat
    var pixels: map<(int, int), Colour>
    ghost var log: seq<Plot>

    constructor (w: nat, h: nat)
      ensures width == w && height == h && pixels == map[] && log == []
    {
      width := w;
      height := h;
      pixels := map[];
      log := [];
    }

    method DrawPixel(x: int, y: int, c: Colour)
      modifies this
      ensures pixels == old(pixels)[(x, y) := c]
      ensures log == old(log) + [Plot(x, y, c)]
    {
      pixels := pixels[(x, y) := c];
      log := log + [Plot(x, y, c)];
    }
  }
}
