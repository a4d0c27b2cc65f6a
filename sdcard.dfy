/** The batched GIF catalogue on the SD card (src/sdcard.cpp): count the GIF
    files of `/gifs` once, then hold the paths of one window of at most
    `BatchSize` of them at a time. */
module SdCard {
  import opened Strings
  import opened Storage

  const GifDir := "/gifs"
  const BatchSize := 10
  const MaxGifPathLen := 256

  function Max(a: int, b: int): int { if a >= b then a else b }

  /** The catalogue filter: a regular file whose lower-cased name ends in ".gif". */
  predicate IsGifEntry(e: Entry) {
    !e.isDir && EndsWith(ToLower(e.name), ".gif")
  }

  /** The names of the matching entries, in enumeration order: the logical
      catalogue that the batches are windows of. */
  function GifNames(dir: seq<Entry>): (r: seq<string>)
    ensures |r| <= |dir|
  {
    if dir == [] then []
    else GifNames(dir[..|dir| - 1]) + (if IsGifEntry(dir[|dir| - 1]) then [dir[|dir| - 1].name] else [])
  }

  /** The match indices `start <= i < start + BatchSize` of a catalogue. */
  function Window(names: seq<string>, start: nat): (w: seq<string>)
  {
    names[Min(start, |names|)..Min(start + BatchSize, |names|)]
  }

  function BatchNames(dir: seq<Entry>, start: nat): seq<string> {
    Window(GifNames(dir), start)
  }

  /** `snprintf(buf, MAX_GIF_PATH_LEN, "%s/%s", GIF_DIR, name)`. */
  function GifPath(name: string): (p: string)
    ensures |p| <= MaxGifPathLen - 1
    ensures StartsWith(p, GifDir + "/")
  {
    var full := GifDir + "/" + name;
    assert full[..6] == GifDir + "/";
    full[..Min(|full|, MaxGifPathLen - 1)]
  }

  function PathsOf(names: seq<string>): (ps: seq<string>)
    ensures |ps| == |names|
  {
    seq(|names|, i requires 0 <= i < |names| => GifPath(names[i]))
  }

  lemma PathsOfSnoc(names: seq<string>, n: string)
    ensures PathsOf(names + [n]) == PathsOf(names) + [GifPath(n)]
  {
    assert forall i :: 0 <= i < |names| ==> (names + [n])[i] == names[i];
  }

  /** Whether the k-th `new (std::nothrow) char[]` of a batch load succeeds:
      `alloc` lists the outcomes; allocations past its end succeed. */
  predicate AllocOk(alloc: seq<bool>, k: nat) {
    k >= |alloc| || alloc[k]
  }

  predicate AllocsSucceed(alloc: seq<bool>, n: nat) {
    forall k :: 0 <= k < n ==> AllocOk(alloc, k)
  }

  lemma AllocsSnoc(alloc: seq<bool>, n: nat)
    requires AllocsSucceed(alloc, n) && AllocOk(alloc, n)
    ensures AllocsSucceed(alloc, n + 1)
  {
  }

  /** The numbers of the progress label "Batch i/n". */
  function BatchLabel(start: nat, total: nat): (nat, nat) {
    (start / BatchSize + 1, (total + BatchSize - 1) / BatchSize)
  }

  // ---------------------------------------------------------------------
  // Properties of the catalogue and its windows

  lemma GifNamesSnoc(dir: seq<Entry>, j: nat)
    requires 0 < j <= |dir|
    ensures GifNames(dir[..j]) ==
      GifNames(dir[..j - 1]) + (if IsGifEntry(dir[j - 1]) then [dir[j - 1].name] else [])
  {
    assert dir[..j][..j - 1] == dir[..j - 1];
  }

  lemma {:induction false} GifNamesAppend(a: seq<Entry>, b: seq<Entry>)
    ensures GifNames(a + b) == GifNames(a) + GifNames(b)
  {
    if b == [] {
      assert a + b == a;
    } else {
      var b' := b[..|b| - 1];
      assert (a + b)[..|a + b| - 1] == a + b';
      assert (a + b)[|a + b| - 1] == b[|b| - 1];
      GifNamesAppend(a, b');
    }
  }

  /** One more enumerated entry: the catalogue and the window grow by that
      entry's name exactly when it matches (and, for the window, when its match
      index is inside the window). */
  lemma BatchStep(dir: seq<Entry>, j: nat, start: nat)
    requires 0 < j <= |dir|
    ensures var before := GifNames(dir[..j - 1]);
      var hit := IsGifEntry(dir[j - 1]);
      |GifNames(dir[..j])| == |before| + (if hit then 1 else 0) &&
      BatchNames(dir[..j], start) ==
        if hit && start <= |before| < start + BatchSize
        then BatchNames(dir[..j - 1], start) + [dir[j - 1].name]
        else BatchNames(dir[..j - 1], start)
  {
    GifNamesSnoc(dir, j);
    WindowSnoc(GifNames(dir[..j - 1]), dir[j - 1].name, start);
  }

  /** One step of the batch load, entry `dir[i]`, in terms of the stored
      paths. */
  lemma LoadStep(dir: seq<Entry>, i: nat, start: nat, paths: seq<string>)
    requires i < |dir|
    requires paths == PathsOf(BatchNames(dir[..i], start))
    ensures var idx := |GifNames(dir[..i])|;
      var hit := IsGifEntry(dir[i]);
      |GifNames(dir[..i + 1])| == idx + (if hit then 1 else 0) &&
      PathsOf(BatchNames(dir[..i + 1], start)) ==
        if hit && start <= idx < start + BatchSize then paths + [GifPath(dir[i].name)] else paths
  {
    BatchStep(dir, i + 1, start);
    PathsOfSnoc(BatchNames(dir[..i], start), dir[i].name);
  }

  /** A failed allocation for a match `dir[i]` inside the window means that
      not all of the window's allocations succeed. */
  lemma LoadFails(dir: seq<Entry>, i: nat, start: nat, alloc: seq<bool>)
    requires i < |dir|
    requires IsGifEntry(dir[i]) && start <= |GifNames(dir[..i])| < start + BatchSize
    requires !AllocOk(alloc, |BatchNames(dir[..i], start)|)
    ensures !AllocsSucceed(alloc, |BatchNames(dir, start)|)
  {
    BatchStep(dir, i + 1, start);
    WindowOfPrefix(dir, i + 1, start);
  }

  /** The size of a window: `min(BatchSize, max(0, N - start))`. */
  lemma WindowSize(names: seq<string>, start: nat)
    ensures |Window(names, start)| == Min(BatchSize, Max(0, |names| - start))
    ensures |Window(names, start)| <= BatchSize
  {
  }

  /** Adding one name to the catalogue adds it to the window exactly when its
      match index falls inside the window. */
  lemma WindowSnoc(names: seq<string>, n: string, start: nat)
    ensures Window(names + [n], start) ==
      if start <= |names| < start + BatchSize then Window(names, start) + [n] else Window(names, start)
  {
    var ns := names + [n];
    if start <= |names| < start + BatchSize {
      assert ns[start..|ns|] == ns[start..|names|] + [n];
      assert ns[start..|names|] == names[start..|names|];
    } else if |names| < start {
      assert Window(ns, start) == [];
    } else {
      assert ns[start..start + BatchSize] == names[start..start + BatchSize];
    }
  }

  /** A window can only grow as the enumeration goes on ... */
  lemma WindowOfPrefix(dir: seq<Entry>, j: nat, start: nat)
    requires j <= |dir|
    ensures |BatchNames(dir[..j], start)| <= |BatchNames(dir, start)|
    ensures |BatchNames(dir[..j], start)| == BatchSize ==> BatchNames(dir[..j], start) == BatchNames(dir, start)
  {
    assert dir == dir[..j] + dir[j..];
    GifNamesAppend(dir[..j], dir[j..]);
    var p := GifNames(dir[..j]);
    var all := GifNames(dir);
    assert all == p + GifNames(dir[j..]);
    if |Window(p, start)| == BatchSize {
      assert all[start..start + BatchSize] == p[start..start + BatchSize];
    }
  }

  /** Where each batch element comes from: the k-th path of a batch is the
      match with index `start + k`, and a matching entry is in the batch at
      position `m - start` exactly when its match index `m` (the number of
      matching entries before it) is in the window. Non-matching entries do
      not advance the index. */
  lemma {:induction false} BatchMembership(dir: seq<Entry>, start: nat, i: nat)
    requires i < |dir| && IsGifEntry(dir[i])
    ensures var m := |GifNames(dir[..i])|;
      m < |GifNames(dir)| && GifNames(dir)[m] == dir[i].name &&
      (start <= m < start + BatchSize <==>
         (start <= m && m - start < |BatchNames(dir, start)| && BatchNames(dir, start)[m - start] == dir[i].name))
  {
    var m := |GifNames(dir[..i])|;
    assert dir == dir[..i] + ([dir[i]] + dir[i + 1..]);
    GifNamesAppend(dir[..i], [dir[i]] + dir[i + 1..]);
    GifNamesAppend([dir[i]], dir[i + 1..]);
    assert GifNames([dir[i]]) == [dir[i].name] by {
      assert [dir[i]][..0] == [];
    }
    var all := GifNames(dir);
    assert all[m] == dir[i].name;
    WindowSize(all, start);
  }

  /** The batches at offsets 0, BatchSize, 2*BatchSize, ... concatenated. */
  function Batches(names: seq<string>, b: nat): seq<string> {
    if b == 0 then [] else Batches(names, b - 1) + Window(names, (b - 1) * BatchSize)
  }

  lemma {:induction false} BatchesArePrefix(names: seq<string>, b: nat)
    ensures Batches(names, b) == names[..Min(b * BatchSize, |names|)]
  {
    if b > 0 {
      BatchesArePrefix(names, b - 1);
      var lo := Min((b - 1) * BatchSize, |names|);
      var hi := Min(b * BatchSize, |names|);
      assert names[..hi] == names[..lo] + names[lo..hi];
    }
  }

  /** One full cycle: the `(N + BatchSize - 1) / BatchSize` batches that the
      progress label counts are all non-empty, the next one is empty, and
      together, in order, they are the whole catalogue exactly once. */
  lemma BatchCycle(names: seq<string>)
    ensures var count := BatchLabel(0, |names|).1;
      Batches(names, count) == names &&
      Window(names, count * BatchSize) == [] &&
      forall b :: 0 <= b < count ==> Window(names, b * BatchSize) != []
  {
    var count := BatchLabel(0, |names|).1;
    assert count * BatchSize >= |names|;
    BatchesArePrefix(names, count);
    forall b | 0 <= b < count ensures Window(names, b * BatchSize) != [] {
      assert b * BatchSize < |names|;
    }
  }

  /** The label of the batch at offset `b * BatchSize` reads "Batch (b+1)/n",
      and that batch is non-empty exactly when b + 1 <= n. */
  lemma BatchLabelNumbers(names: seq<string>, b: nat)
    ensures BatchLabel(b * BatchSize, |names|).0 == b + 1
    ensures Window(names, b * BatchSize) != [] <==> b + 1 <= BatchLabel(b * BatchSize, |names|).1
  {
  }

  /** Paths of names that fit keep the whole name, so the name can be read back. */
  lemma GifPathKeepsName(name: string)
    requires |name| <= MaxGifPathLen - 1 - |GifDir + "/"|
    ensures GifPath(name) == GifDir + "/" + name
    ensures GifPath(name)[|GifDir + "/"|..] == name
  {
  }

  /** ".GIF" and ".Gif" count; directories never do. */
  lemma FilterCases(name: string)
    ensures !IsGifEntry(Entry(name, true))
    ensures IsGifEntry(Entry(name + ".GIF", false)) && IsGifEntry(Entry(name + ".Gif", false))
    ensures IsGifEntry(Entry(name + ".gif", false))
  {
    LowerGifSuffix(name + ".GIF");
    LowerGifSuffix(name + ".Gif");
    LowerGifSuffix(name + ".gif");
  }

  // ---------------------------------------------------------------------
  // The catalogue state

  /** The globals `gifFilePaths`, `total_files`, `total_gifs_count` and
      `current_batch_start`. `liveBuffers` counts the path buffers allocated
      with `new[]` and not yet freed with `delete[]`. */
  class GifCatalog {
    var gifFilePaths: seq<string>
    var totalFiles: nat
    var totalGifsCount: nat
    var currentBatchStart: nat
    ghost var liveBuffers: nat

    /** Exactly the stored paths own a buffer, and never more than one batch. */
    ghost predicate Valid()
      reads this
    {
      liveBuffers == |gifFilePaths| <= BatchSize
    }

    constructor ()
      ensures Valid() && gifFilePaths == [] && liveBuffers == 0
      ensures totalFiles == 0 && totalGifsCount == 0 && currentBatchStart == 0
    {
      gifFilePaths := [];
      totalFiles := 0;
      totalGifsCount := 0;
      currentBatchStart := 0;
      liveBuffers := 0;
    }

    /** `clearGifFilePaths`: frees every path buffer, then empties the list.
        On an empty list it changes nothing. */
    method ClearGifFilePaths()
      requires Valid()
      modifies this`gifFilePaths, this`liveBuffers
      ensures Valid() && gifFilePaths == [] && liveBuffers == 0
    {
      var i := 0;
      while i < |gifFilePaths|
        invariant 0 <= i <= |gifFilePaths| == |old(gifFilePaths)|
        invariant liveBuffers == |gifFilePaths| - i
      {
        liveBuffers := liveBuffers - 1;  // delete[] gifFilePaths[i]
        i := i + 1;
      }
      gifFilePaths := [];
    }

    /** `countTotalGifs`, with `gifRoot` the listing of `/gifs` (None when the
        directory does not open). */
    method CountTotalGifs(gifRoot: Option<seq<Entry>>) returns (ok: bool)
      modifies this`totalGifsCount
      ensures gifRoot.None? ==> !ok && totalGifsCount == old(totalGifsCount)
      ensures gifRoot.Some? ==> totalGifsCount == |GifNames(gifRoot.value)| && ok == (totalGifsCount > 0)
    {
      if gifRoot.None? {
        return false;
      }
      var dir := gifRoot.value;
      totalGifsCount := 0;
      var j := 0;
      while j < |dir|
        invariant 0 <= j <= |dir|
        invariant totalGifsCount == |GifNames(dir[..j])|
      {
        var file := dir[j];
        j := j + 1;
        GifNamesSnoc(dir, j);
        if !file.isDir {
          var fileNameStr := ToLower(file.name);
          if EndsWith(fileNameStr, ".gif") {
            totalGifsCount := totalGifsCount + 1;
          }
        }
      }
      assert dir[..j] == dir;
      ok := totalGifsCount != 0;
    }

    /** `loadNextGifBatch`: frees the previous batch, then stores the paths of
        the matches whose index lies in
        `[currentBatchStart, currentBatchStart + BatchSize)`. */
    method LoadNextGifBatch(gifRoot: Option<seq<Entry>>, alloc: seq<bool>) returns (ok: bool)
      requires Valid()
      modifies this`gifFilePaths, this`liveBuffers, this`totalFiles
      ensures Valid()
      ensures gifRoot.None? ==> !ok && gifFilePaths == [] && totalFiles == old(totalFiles)
      ensures gifRoot.Some? && !AllocsSucceed(alloc, |BatchNames(gifRoot.value, currentBatchStart)|) ==>
        !ok && gifFilePaths == [] && totalFiles == old(totalFiles)
      ensures gifRoot.Some? && AllocsSucceed(alloc, |BatchNames(gifRoot.value, currentBatchStart)|) ==>
        gifFilePaths == PathsOf(BatchNames(gifRoot.value, currentBatchStart)) &&
        totalFiles == |gifFilePaths| && ok == (gifFilePaths != [])
    {
      ClearGifFilePaths();
      if gifRoot.None? {
        return false;
      }
      ok := LoadBatchFrom(gifRoot.value, alloc);
    }

    /** The enumeration loop of `loadNextGifBatch`, on the opened listing
        `dir` and an empty list of paths. */
    method LoadBatchFrom(dir: seq<Entry>, alloc: seq<bool>) returns (ok: bool)
      requires Valid() && gifFilePaths == []
      modifies this`gifFilePaths, this`liveBuffers, this`totalFiles
      ensures Valid()
      ensures !AllocsSucceed(alloc, |BatchNames(dir, currentBatchStart)|) ==>
        !ok && gifFilePaths == [] && totalFiles == old(totalFiles)
      ensures AllocsSucceed(alloc, |BatchNames(dir, currentBatchStart)|) ==>
        gifFilePaths == PathsOf(BatchNames(dir, currentBatchStart)) &&
        totalFiles == |gifFilePaths| && ok == (gifFilePaths != [])
    {
      var currentGifIndex := 0;
      var loadedInBatch := 0;
      var j := 0;
      assert dir[..0] == [];
      while j < |dir| && loadedInBatch < BatchSize
        invariant 0 <= j <= |dir|
        invariant Valid()
        invariant currentGifIndex == |GifNames(dir[..j])|
        invariant gifFilePaths == PathsOf(BatchNames(dir[..j], currentBatchStart))
        invariant loadedInBatch == |gifFilePaths|
        invariant AllocsSucceed(alloc, loadedInBatch)
        invariant totalFiles == old(totalFiles)
      {
        var stop;
        stop, currentGifIndex, loadedInBatch := VisitEntry(dir, j, alloc, currentGifIndex, loadedInBatch);
        if stop {
          return false;
        }
        j := j + 1;
      }
      WindowOfPrefix(dir, j, currentBatchStart);
      assert j == |dir| ==> dir[..j] == dir;
      totalFiles := |gifFilePaths|;
      ok := gifFilePaths != [];
    }

    /** One iteration of the enumeration loop: the entry `dir[j]` is stored
        when it matches and its match index is in the window; a failed
        allocation frees the batch and stops the load. */
    method VisitEntry(dir: seq<Entry>, j: nat, alloc: seq<bool>, currentGifIndex: int, loadedInBatch: int)
      returns (stop: bool, nextGifIndex: int, nextLoaded: int)
      requires j < |dir| && loadedInBatch < BatchSize && Valid()
      requires currentGifIndex == |GifNames(dir[..j])|
      requires gifFilePaths == PathsOf(BatchNames(dir[..j], currentBatchStart))
      requires loadedInBatch == |gifFilePaths| && AllocsSucceed(alloc, loadedInBatch)
      modifies this`gifFilePaths, this`liveBuffers
      ensures Valid()
      ensures stop ==> gifFilePaths == [] && !AllocsSucceed(alloc, |BatchNames(dir, currentBatchStart)|)
      ensures !stop ==>
        nextGifIndex == |GifNames(dir[..j + 1])| &&
        gifFilePaths == PathsOf(BatchNames(dir[..j + 1], currentBatchStart)) &&
        nextLoaded == |gifFilePaths| && AllocsSucceed(alloc, nextLoaded)
    {
      var file := dir[j];
      assert dir[..j + 1][..j] == dir[..j];
      LoadStep(dir, j, currentBatchStart, gifFilePaths);
      ghost var names := BatchNames(dir[..j], currentBatchStart);
      assert |names| == loadedInBatch;
      ghost var target := PathsOf(BatchNames(dir[..j + 1], currentBatchStart));
      ghost var hit := IsGifEntry(file);
      ghost var inWindow := currentBatchStart <= currentGifIndex < currentBatchStart + BatchSize;
      assert target == if hit && inWindow then gifFilePaths + [GifPath(file.name)] else gifFilePaths;
      stop, nextGifIndex, nextLoaded := false, currentGifIndex, loadedInBatch;
      if !file.isDir {
        var fileNameStr := ToLower(file.name);
        if EndsWith(fileNameStr, ".gif") {
          assert hit;
          if currentGifIndex >= currentBatchStart && currentGifIndex < currentBatchStart + BatchSize {
            if !AllocOk(alloc, loadedInBatch) {
              LoadFails(dir, j, currentBatchStart, alloc);
              ClearGifFilePaths();
              return true, nextGifIndex, nextLoaded;
            }
            AllocsSnoc(alloc, loadedInBatch);
            gifFilePaths := gifFilePaths + [GifPath(file.name)];
            liveBuffers := liveBuffers + 1;
            nextLoaded := loadedInBatch + 1;
          }
          nextGifIndex := currentGifIndex + 1;
        }
      }
    }
  }
}
