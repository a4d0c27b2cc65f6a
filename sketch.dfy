/** The flat-list playback variant (src/main.cpp): `setup` collects the path
    of every `.gif`/`.GIF` file of `/gifs` once, and `loop` plays the list in
    order, pass after pass. It is a variant of its own, unrelated to the
    batched catalogue of src/sdcard.cpp. */
module Sketch {
  import opened Strings
  import opened Storage
  import opened Display
  import Gif
  import SdCard

  /** The filter of `setup`: a file whose path ends in exactly ".gif" or
      exactly ".GIF". */
  predicate IsListedGif(e: Entry) {
    !e.isDir && (EndsWith(e.name, ".gif") || EndsWith(e.name, ".GIF"))
  }

  /** The paths `setup` keeps, in enumeration order. */
  function ListedPaths(dir: seq<Entry>): (ps: seq<string>)
    ensures |ps| <= |dir|
  {
    if dir == [] then []
    else ListedPaths(dir[..|dir| - 1]) + (if IsListedGif(dir[|dir| - 1]) then [dir[|dir| - 1].name] else [])
  }

  /** `passes` trips round the endless `while (true)` of `loop`. */
  function Repeat(paths: seq<string>, passes: nat): seq<string> {
    if passes == 0 then [] else Repeat(paths, passes - 1) + paths
  }

  /** The decoder events of playing one path: nothing at all when the file
      does not decode, else open, every frame, close. */
  function ShowEvents(name: string, decoded: map<string, Gif.GifImage>): seq<Gif.Event> {
    if name in decoded
    then [Gif.Opened(name)] + Gif.Plays(|decoded[name].frames|) + [Gif.Closed]
    else []
  }

  function Trace(names: seq<string>, decoded: map<string, Gif.GifImage>): seq<Gif.Event> {
    if names == [] then []
    else Trace(names[..|names| - 1], decoded) + ShowEvents(names[|names| - 1], decoded)
  }

  predicate AllDrawable(decoded: map<string, Gif.GifImage>) {
    forall n :: n in decoded ==> Gif.Drawable(decoded[n])
  }

  /** The draw calls of playing each path that decodes: every line of every
      frame of its image, on a panel of width `w`. */
  function Pictures(decoded: map<string, Gif.GifImage>, w: int): (pics: map<string, seq<Plot>>)
    requires AllDrawable(decoded)
    ensures pics.Keys == decoded.Keys
  {
    map n | n in decoded :: Gif.ImagePlots(decoded[n], |decoded[n].frames|, w)
  }

  /** The draw calls of playing one path: none when it does not decode. */
  function ShowPlots(name: string, pics: map<string, seq<Plot>>): seq<Plot> {
    if name in pics then pics[name] else []
  }

  /** The draw calls of playing a list of paths in order. */
  function Drawn(names: seq<string>, pics: map<string, seq<Plot>>): seq<Plot> {
    if names == [] then []
    else Drawn(names[..|names| - 1], pics) + ShowPlots(names[|names| - 1], pics)
  }

  // ---------------------------------------------------------------------
  // Properties

  /** Collecting over two parts of a listing is collecting over each in turn:
      paths are appended in enumeration order, none dropped or merged. */
  lemma {:induction false} ListedPathsAppend(a: seq<Entry>, b: seq<Entry>)
    ensures ListedPaths(a + b) == ListedPaths(a) + ListedPaths(b)
  {
    if b == [] {
      assert a + b == a;
    } else {
      var b' := b[..|b| - 1];
      assert (a + b)[..|a + b| - 1] == a + b';
      assert (a + b)[|a + b| - 1] == b[|b| - 1];
      ListedPathsAppend(a, b');
    }
  }

  /** One entry is kept, by its path, exactly when it passes the filter;
      directories never are, and ".Gif" is not accepted. */
  lemma ListedPathsSingle(e: Entry)
    ensures ListedPaths([e]) == if IsListedGif(e) then [e.name] else []
    ensures e.isDir ==> ListedPaths([e]) == []
    ensures ListedPaths([Entry(e.name + ".Gif", false)]) == []
  {
    assert [e][..0] == [];
    var m := e.name + ".Gif";
    assert [Entry(m, false)][..0] == [];
    assert m[|m| - 4..] == ".Gif";
  }

  /** Every path the flat list keeps is also a match of the batched
      catalogue's case-insensitive filter, but not the other way round. */
  lemma ListedIsCatalogueMatch(e: Entry)
    ensures IsListedGif(e) ==> SdCard.IsGifEntry(e)
    ensures SdCard.IsGifEntry(Entry("a.Gif", false)) && !IsListedGif(Entry("a.Gif", false))
  {
    LowerGifSuffix(e.name);
    var s := "a.Gif";
    LowerGifSuffix(s);
    assert s[|s| - 4..] == ".Gif";
  }

  /** Each pass plays every stored path exactly once, in list order: the
      trips before pass `p`, then the list, then the trips after it. */
  lemma RepeatPasses(paths: seq<string>, passes: nat)
    ensures |Repeat(paths, passes)| == passes * |paths|
    ensures forall p :: 0 <= p < passes ==>
      Repeat(paths, passes) == Repeat(paths, p) + paths + Repeat(paths, passes - 1 - p)
  {
    RepeatLength(paths, passes);
    assert Repeat(paths, 1) == paths by {
      assert Repeat(paths, 0) == [];
    }
    forall p | 0 <= p < passes
      ensures Repeat(paths, passes) == Repeat(paths, p) + paths + Repeat(paths, passes - 1 - p)
    {
      RepeatAppend(paths, p, passes - p);
      RepeatAppend(paths, 1, passes - 1 - p);
    }
  }

  lemma {:induction false} RepeatLength(paths: seq<string>, passes: nat)
    ensures |Repeat(paths, passes)| == passes * |paths|
  {
    if passes > 0 {
      RepeatLength(paths, passes - 1);
      assert passes * |paths| == (passes - 1) * |paths| + |paths|;
    }
  }

  /** `a` trips and then `b` more are `a + b` trips. */
  lemma {:induction false} RepeatAppend(paths: seq<string>, a: nat, b: nat)
    ensures Repeat(paths, a + b) == Repeat(paths, a) + Repeat(paths, b)
  {
    if b > 0 {
      RepeatAppend(paths, a, b - 1);
      assert Repeat(paths, a + b) == Repeat(paths, a + b - 1) + paths;
    } else {
      assert Repeat(paths, a) + [] == Repeat(paths, a);
    }
  }

  lemma TraceSnoc(names: seq<string>, n: string, decoded: map<string, Gif.GifImage>, ev0: seq<Gif.Event>)
    ensures ev0 + Trace(names + [n], decoded) == ev0 + Trace(names, decoded) + ShowEvents(n, decoded)
  {
    assert (names + [n])[..|names|] == names;
  }

  /** Playing two lists in turn gives the events of each in turn. */
  lemma {:induction false} TraceAppend(a: seq<string>, b: seq<string>, decoded: map<string, Gif.GifImage>)
    ensures Trace(a + b, decoded) == Trace(a, decoded) + Trace(b, decoded)
  {
    if b == [] {
      assert a + b == a;
    } else {
      var b', last := b[..|b| - 1], b[|b| - 1];
      var ab := a + b;
      assert ab[..|ab| - 1] == a + b';
      assert ab[|ab| - 1] == last;
      assert Trace(ab, decoded) == Trace(a + b', decoded) + ShowEvents(last, decoded);
      assert Trace(b, decoded) == Trace(b', decoded) + ShowEvents(last, decoded);
      TraceAppend(a, b', decoded);
    }
  }

  lemma ConcatAssoc<T>(a: seq<T>, b: seq<T>, c: seq<T>)
    ensures a + (b + c) == a + b + c
  {
  }

  lemma DrawnSnoc(names: seq<string>, n: string, pics: map<string, seq<Plot>>, log0: seq<Plot>)
    ensures log0 + Drawn(names + [n], pics) == log0 + Drawn(names, pics) + ShowPlots(n, pics)
  {
    assert (names + [n])[..|names|] == names;
  }

  /** Playing two lists in turn draws what each draws, in turn. */
  lemma {:induction false} DrawnAppend(a: seq<string>, b: seq<string>, pics: map<string, seq<Plot>>)
    ensures Drawn(a + b, pics) == Drawn(a, pics) + Drawn(b, pics)
  {
    if b == [] {
      assert a + b == a;
    } else {
      var b', last := b[..|b| - 1], b[|b| - 1];
      var ab := a + b;
      assert ab[..|ab| - 1] == a + b';
      assert ab[|ab| - 1] == last;
      assert Drawn(ab, pics) == Drawn(a + b', pics) + ShowPlots(last, pics);
      assert Drawn(b, pics) == Drawn(b', pics) + ShowPlots(last, pics);
      DrawnAppend(a, b', pics);
    }
  }

  // ---------------------------------------------------------------------
  // The sketch

  /** The global `gifFilePaths`, and a record of the paths handed to
      `ShowGIF`. */
  class Sketch {
    var gifFilePaths: seq<string>
    ghost var played: seq<string>

    constructor ()
      ensures gifFilePaths == [] && played == []
    {
      gifFilePaths := [];
      played := [];
    }

    /** The collection part of `setup`: `mounted` tells whether the file
        system mounted, `root` is the listing of `/gifs` (None when it does
        not open). */
    method Setup(mounted: bool, root: Option<seq<Entry>>)
      modifies this`gifFilePaths
      ensures !mounted || root.None? ==> gifFilePaths == old(gifFilePaths)
      ensures mounted && root.Some? ==> gifFilePaths == old(gifFilePaths) + ListedPaths(root.value)
    {
      if !mounted {
        return;
      }
      if root.None? {
        return;
      }
      var dir := root.value;
      var i := 0;
      while i < |dir|
        invariant 0 <= i <= |dir|
        invariant gifFilePaths == old(gifFilePaths) + ListedPaths(dir[..i])
      {
        var file := dir[i];
        assert dir[..i + 1][..i] == dir[..i];
        if !file.isDir {
          var filePath := file.name;
          if EndsWith(filePath, ".gif") || EndsWith(filePath, ".GIF") {
            gifFilePaths := gifFilePaths + [filePath];
          }
        }
        i := i + 1;
      }
      assert dir[..i] == dir;
    }

    /** `loop`, followed for `passes` trips round its endless `while (true)`;
        `decoded` is what each stored path decodes to (absent when it does
        not open). An empty list plays nothing. */
    method Loop(passes: nat, g: Gif.GifGlobals, dec: Gif.Decoder, panel: Panel,
                decoded: map<string, Gif.GifImage>)
      requires AllDrawable(decoded)
      modifies this`played, g`xOffset, g`yOffset, dec, panel
      ensures gifFilePaths == [] ==>
        played == old(played) && dec.events == old(dec.events) &&
        panel.log == old(panel.log) && panel.pixels == old(panel.pixels)
      ensures gifFilePaths != [] ==>
        played == old(played) + Repeat(gifFilePaths, passes) &&
        dec.events == old(dec.events) + Trace(Repeat(gifFilePaths, passes), decoded) &&
        panel.log == old(panel.log) + Drawn(Repeat(gifFilePaths, passes), Pictures(decoded, panel.width)) &&
        panel.pixels == Apply(old(panel.pixels), Drawn(Repeat(gifFilePaths, passes), Pictures(decoded, panel.width)))
    {
      if gifFilePaths == [] {
        return;
      }
      var pass := 0;
      while pass < passes
        invariant 0 <= pass <= passes
        invariant played == old(played) + Repeat(gifFilePaths, pass)
        invariant dec.events == old(dec.events) + Trace(Repeat(gifFilePaths, pass), decoded)
        invariant panel.log == old(panel.log) + Drawn(Repeat(gifFilePaths, pass), Pictures(decoded, panel.width))
        invariant panel.pixels == Apply(old(panel.pixels), Drawn(Repeat(gifFilePaths, pass), Pictures(decoded, panel.width)))
      {
        NextPass(Repeat(gifFilePaths, pass), g, dec, panel, decoded,
                 old(played), old(dec.events), old(panel.log), old(panel.pixels));
        assert Repeat(gifFilePaths, pass + 1) == Repeat(gifFilePaths, pass) + gifFilePaths;
        pass := pass + 1;
      }
    }

    /** One more trip after the trips `done`, starting from the state whose
        played paths, events, log and picture were `played0`, `ev0`, `log0`
        and `px0`. */
    method NextPass(ghost done: seq<string>, g: Gif.GifGlobals, dec: Gif.Decoder, panel: Panel,
                    decoded: map<string, Gif.GifImage>, ghost played0: seq<string>,
                    ghost ev0: seq<Gif.Event>, ghost log0: seq<Plot>, ghost px0: map<(int, int), Colour>)
      requires AllDrawable(decoded)
      requires played == played0 + done && dec.events == ev0 + Trace(done, decoded)
      requires panel.log == log0 + Drawn(done, Pictures(decoded, panel.width))
      requires panel.pixels == Apply(px0, Drawn(done, Pictures(decoded, panel.width)))
      modifies this`played, g`xOffset, g`yOffset, dec, panel
      ensures played == played0 + (done + gifFilePaths)
      ensures dec.events == ev0 + Trace(done + gifFilePaths, decoded)
      ensures panel.log == log0 + Drawn(done + gifFilePaths, Pictures(decoded, panel.width))
      ensures panel.pixels == Apply(px0, Drawn(done + gifFilePaths, Pictures(decoded, panel.width)))
    {
      ghost var pics := Pictures(decoded, panel.width);
      PlayPass(g, dec, panel, decoded);
      TraceAppend(done, gifFilePaths, decoded);
      DrawnAppend(done, gifFilePaths, pics);
      ApplyAppend(px0, Drawn(done, pics), Drawn(gifFilePaths, pics));
      ConcatAssoc(played0, done, gifFilePaths);
      ConcatAssoc(ev0, Trace(done, decoded), Trace(gifFilePaths, decoded));
      ConcatAssoc(log0, Drawn(done, pics), Drawn(gifFilePaths, pics));
    }

    /** One trip round `loop`'s `while (true)`: every stored path in order. */
    method PlayPass(g: Gif.GifGlobals, dec: Gif.Decoder, panel: Panel,
                    decoded: map<string, Gif.GifImage>)
      requires AllDrawable(decoded)
      modifies this`played, g`xOffset, g`yOffset, dec, panel
      ensures played == old(played) + gifFilePaths
      ensures dec.events == old(dec.events) + Trace(gifFilePaths, decoded)
      ensures panel.log == old(panel.log) + Drawn(gifFilePaths, Pictures(decoded, panel.width))
      ensures panel.pixels == Apply(old(panel.pixels), Drawn(gifFilePaths, Pictures(decoded, panel.width)))
    {
      var k := 0;
      assert gifFilePaths[..0] == [];
      while k < |gifFilePaths|
        invariant 0 <= k <= |gifFilePaths|
        invariant played == old(played) + gifFilePaths[..k]
        invariant dec.events == old(dec.events) + Trace(gifFilePaths[..k], decoded)
        invariant panel.log == old(panel.log) + Drawn(gifFilePaths[..k], Pictures(decoded, panel.width))
        invariant panel.pixels == Apply(old(panel.pixels), Drawn(gifFilePaths[..k], Pictures(decoded, panel.width)))
      {
        var path := gifFilePaths[k];
        ghost var pics := Pictures(decoded, panel.width);
        assert gifFilePaths[..k] + [path] == gifFilePaths[..k + 1];
        TraceSnoc(gifFilePaths[..k], path, decoded, old(dec.events));
        DrawnSnoc(gifFilePaths[..k], path, pics, old(panel.log));
        ApplyAppend(old(panel.pixels), Drawn(gifFilePaths[..k], pics), ShowPlots(path, pics));
        ConcatAssoc(old(played), gifFilePaths[..k], [path]);
        ShowPath(path, g, dec, panel, decoded);
        played := played + [path];
        k := k + 1;
      }
      assert gifFilePaths[..k] == gifFilePaths;
    }
  }

  /** `ShowGIF(path.c_str())` with the image the path decodes to. */
  method ShowPath(path: string, g: Gif.GifGlobals, dec: Gif.Decoder, panel: Panel,
                  decoded: map<string, Gif.GifImage>)
    requires AllDrawable(decoded)
    modifies g`xOffset, g`yOffset, dec, panel
    ensures dec.events == old(dec.events) + ShowEvents(path, decoded)
    ensures panel.log == old(panel.log) + ShowPlots(path, Pictures(decoded, panel.width))
    ensures panel.pixels == Apply(old(panel.pixels), ShowPlots(path, Pictures(decoded, panel.width)))
  {
    var stream: Option<Gif.GifImage> := if path in decoded then Some(decoded[path]) else None;
    ghost var pics := Pictures(decoded, panel.width);
    assert ShowPlots(path, pics) ==
      if path in decoded then Gif.ImagePlots(decoded[path], |decoded[path].frames|, panel.width) else [];
    Gif.ShowGif(path, g, dec, panel, stream);
  }
}
