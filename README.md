# hub75matrix firmware: a Dafny model of its core

The firmware drives a HUB75 LED matrix from an ESP32. It plays animated GIFs
from an SD card and offers a web interface for brightness, uploads and file
management. This project models the parts of it that are sequential logic
and proves what they promise:

- **The batched GIF catalogue** (`src/sdcard.cpp`, module `SdCard`).
  - `countTotalGifs` counts the files of `/gifs` whose lower-cased name ends in ".gif".
  - `loadNextGifBatch` frees the previous batch. It then stores the path `"/gifs/" + name`, truncated to 255 characters (each character taken as one byte), of every match whose match index lies in `[current_batch_start, current_batch_start + 10)`, in enumeration order.
  - `clearGifFilePaths` frees and empties the list.
  - The class `GifCatalog` holds the globals.
  - The directory listing is a `seq<Entry>`. A failed open is `None`. The outcome of each `new (std::nothrow) char[]` is a sequence of booleans.
- **The GIF callbacks and playback** (`src/gif.cpp`, modules `GifDraw` and `Gif`).
  - `GIFDraw` does the disposal-2 "restore to background" rewrite of the row (section 23 of the GIF89a specification). It then follows either the run-walking transparent path or the plain path.
  - The display is a map from `(x, y)` to RGB565 colours, plus a log of the draw calls.
  - `GIFReadFile` and `GIFSeekFile` keep a `GIFFILE` record's position in step with an `FsFile` handle. `GIFReadFile` stops one byte short of the end.
  - `GIFOpenFile` and `GIFCloseFile` are modelled, and so are `ShowGIF`'s centring offsets and its open / play every frame / close discipline.
- **The flat-list variant** (`src/main.cpp`, module `Sketch`).
  - `setup` collects the paths ending in exactly ".gif" or ".GIF".
  - `loop` plays them in order, pass after pass.
  - It is a separate program from the batched catalogue. Its filter is case-sensitive.
- **The web front ends** (`src/portal.cpp`, module `Portal`, and `src/api.cpp`, module `Api`). Shared computations are in modules `Web` and `Upload`.
  - The two `getContentType` tables.
  - The path normalisation of `handleFileRead`.
  - Brightness increase, decrease and set on the global `brightness`.
  - The paths built by rename, move, create-folder and the general upload.
  - The `static` upload state. The synchronous server drives it with START / WRITE / END / ABORTED events; the asynchronous one with `(index, data, final)` chunks.

`src/api.cpp` repeats the brightness computations of `src/portal.cpp`:
src/api.cpp:228-287 computes the new brightness as src/portal.cpp:337-402
does. It differs only in logging, headers and how it sends the reply. It also
repeats the path building: src/api.cpp:383-385 and 460-462 is
src/portal.cpp:506-508, src/api.cpp:410-411 is src/portal.cpp:534-535, and
src/api.cpp:434-435 is src/portal.cpp:559-560. The members of module `Web`
model both copies; the table below cites the portal lines.

Collaborators the firmware calls but does not define are parameters of the model:

- the SD card's answers: directory listings, file contents, whether `open`, `mkdir`, `read` and `write` succeed
- the decoding library
- the display driver

## Model

| member | source | states |
|---|---|---|
| Strings.ToLower | src/sdcard.cpp:132 | Lower-casing keeps the length and maps every character through ASCII `tolower`. |
| Strings.LastIndexOf | src/portal.cpp:251 | The result is -1 exactly when the character is absent. Otherwise it is a position holding the character, with no later occurrence. |
| Strings.LowerGifSuffix | src/sdcard.cpp:131-133 | The lower-cased suffix test accepts exactly the names whose last four characters are '.', g/G, i/I, f/F. |
| Strings.LastIndexOfAppend | src/portal.cpp:507-508 | Appending text without a '/' does not move the last '/'. |
| Storage.FsFile.Read | src/gif.cpp:129 | On a closed handle or a failed transfer `read` returns -1 and changes neither the position nor the buffer. Otherwise it copies `min(n, remaining)` bytes from the position on and advances the position by that count. |
| Storage.FsFile.Seek | src/gif.cpp:138 | `seek` succeeds exactly for positions inside the file and leaves the position unchanged otherwise. |
| Storage.FsFile.Close | src/gif.cpp:116 | `close` closes the handle and keeps its contents and position. |
| Display.ApplyAppend | src/gif.cpp:68 | Drawing two lists of calls in turn gives the picture of drawing their concatenation. |
| Display.Panel.DrawPixel | src/gif.cpp:68 | One `drawPixel` sets that coordinate's colour and appends the call to the log. |
| SdCard.GifCatalog.ClearGifFilePaths | src/sdcard.cpp:29-34 | Every path buffer is freed and the list is empty afterwards. An already empty list stays as it is. |
| SdCard.GifCatalog.CountTotalGifs | src/sdcard.cpp:114-157 | An unopenable directory returns false and keeps the count. Otherwise the count is the number of matching files, and the result is true iff it is positive. |
| SdCard.GifCatalog.LoadNextGifBatch | src/sdcard.cpp:173-233 | The list is always emptied first. An open failure or a failed allocation returns false with an empty list and `total_files` unchanged. Otherwise the list is exactly the paths of the batch window, `total_files` is its size, and the result is true iff it is non-empty. |
| SdCard.GifCatalog.LoadBatchFrom | src/sdcard.cpp:180-233 | From an empty list, enumerating an opened directory stores exactly the window's paths when all its allocations succeed. It then sets `total_files` to their number and reports whether there are any. A failed allocation ends with an empty list and `total_files` unchanged. |
| SdCard.GifCatalog.VisitEntry | src/sdcard.cpp:188-218 | One entry: a file whose lower-cased name ends in ".gif" advances the match index, and inside the window its path is appended. A failed allocation there empties the list and means that the batch cannot be loaded. |
| SdCard.GifNamesAppend | src/sdcard.cpp:125-136 | The catalogue of two consecutive parts of a listing is the two catalogues concatenated. |
| SdCard.BatchStep | src/sdcard.cpp:187-216 | One more directory entry advances the match index only when it matches. It adds its name to the batch only when its index is in the window. |
| SdCard.LoadStep | src/sdcard.cpp:195-213 | The same step in terms of the stored paths: the new path `GifPath(name)` is appended exactly then. |
| SdCard.LoadFails | src/sdcard.cpp:199-207 | A failed allocation for a match inside the window means that not all allocations the whole batch needs succeed. |
| SdCard.WindowSize | src/sdcard.cpp:187-213 | For N matches and start s the batch holds `min(10, max(0, N - s))` paths, never more than 10. |
| SdCard.WindowSnoc | src/sdcard.cpp:197-215 | A new match joins the window exactly when its index lies in `[start, start + 10)`. |
| SdCard.WindowOfPrefix | src/sdcard.cpp:187 | Stopping the scan once 10 paths are loaded yields the same batch as scanning on. |
| SdCard.BatchMembership | src/sdcard.cpp:195-215 | A matching entry with match index m is in the batch, at position m - start, iff start <= m < start + 10. Non-matching entries do not advance the index. |
| SdCard.BatchesArePrefix | src/sdcard.cpp:197 | The batches at starts 0, 10, 20, ... concatenated are a prefix of the catalogue. |
| SdCard.BatchCycle | src/sdcard.cpp:164 | The `(N + 9) / 10` batches that the progress label counts are all non-empty and the next one is empty. In order, they are the whole catalogue exactly once. |
| SdCard.BatchLabelNumbers | src/sdcard.cpp:164 | The batch at start 10b is labelled b + 1, and it is non-empty iff b + 1 is at most the label's total. |
| SdCard.GifPath | src/sdcard.cpp:209 | A stored path is at most 255 characters and starts with "/gifs/". |
| SdCard.GifPathKeepsName | src/sdcard.cpp:209 | A name that fits is kept whole and in its original case after "/gifs/". |
| SdCard.FilterCases | src/sdcard.cpp:127-133 | Directories never match. ".gif", ".GIF" and ".Gif" all do. |
| GifDraw.DisposedBytes | src/gif.cpp:31-37 | Disposal 2 replaces exactly the transparent bytes below the clamped width by the background index and leaves all other bytes unchanged. |
| GifDraw.RestoreToBackground | src/gif.cpp:31-39 | The in-place rewrite leaves the row equal to `Disposed` of the old row and switches transparency off. |
| GifDraw.OpaquePlotsSound | src/gif.cpp:41-89 | The transparent path only draws opaque positions below `iWidth`, on line y, in their palette colour. |
| GifDraw.OpaquePlotsOrdered | src/gif.cpp:46-72 | The transparent path draws strictly left to right, so no position is drawn twice. |
| GifDraw.OpaquePlotsComplete | src/gif.cpp:48-72 | Every opaque position below `iWidth` is drawn. |
| GifDraw.OpaqueSkip | src/gif.cpp:74-87 | A run of transparent positions adds no draw call. |
| GifDraw.AllPlotsExact | src/gif.cpp:92-97 | The plain path draws every x in `[0, iWidth)` once, in order, at line y, with colour `usPalette[s[x]]`. |
| GifDraw.OpaquePicture | src/gif.cpp:41-89 | After the transparent path an opaque position shows its colour. A transparent one keeps what the panel had. |
| GifDraw.AllPicture | src/gif.cpp:90-97 | After the plain path every position below `iWidth` shows its palette colour. |
| GifDraw.DisposalDrawsAll | src/gif.cpp:31-39 | A disposal-2 row is drawn in full over the unclamped `iWidth`. Transparent positions below the clamped width take the background's colour. |
| GifDraw.RowPlotsStayOnLine | src/gif.cpp:28-97 | One call draws only on line `iY + y` and only below `iWidth`. |
| GifDraw.RowPictureOnLine | src/gif.cpp:23-97 | The colour of each position of the line after one call: disposal 2, an opaque position, a transparent position with transparency on, and transparency off. |
| GifDraw.RowPictureElsewhere | src/gif.cpp:45-97 | One call changes no coordinate off its line or at or past `iWidth`. |
| GifDraw.DrawRuns | src/gif.cpp:41-89 | The pointer walk, with `usTemp` and alternating opaque and transparent runs, issues exactly the opaque draw calls in order. `x` equals the bytes consumed, so the walk ends exactly at the end of the row, also when `ucTransparent` is 0. |
| GifDraw.CollectOpaque | src/gif.cpp:50-64 | The opaque scan stops at the first transparent byte or at the end of the row. `usTemp` then holds the palette colours of exactly the bytes it passed. |
| GifDraw.DrawTemp | src/gif.cpp:65-72 | Drawing `usTemp` issues the next `iCount` draw calls of the transparent path, so log and panel are those of the path up to `x + iCount`. |
| GifDraw.SkipTransparent | src/gif.cpp:74-87 | The transparent scan passes exactly the run of transparent bytes and stops at an opaque byte or at the end of the row. |
| GifDraw.DrawPlain | src/gif.cpp:90-98 | The plain loop issues exactly `AllPlots`. |
| GifDraw.Draw | src/gif.cpp:17-99 | The record after the call is the disposal rewrite of the old one. The panel receives exactly `RowPlots`: the clamped width is used only by the rewrite, and both draw paths walk the unclamped `iWidth`. |
| Gif.ReadRequest | src/gif.cpp:122-128 | The count asked for never exceeds `iLen`. It is `iLen` when enough remains, and ends one byte before the end otherwise. |
| Gif.ReadStopsShort | src/gif.cpp:124-126 | A request running past the end leaves the last byte unread. It reads anything iff at least two bytes remain. |
| Gif.ExactRequestReachesEnd | src/gif.cpp:125 | A request of exactly the remaining length is not cut and reaches the end. |
| Gif.ReadFile | src/gif.cpp:119-132 | A count of at most 0 returns 0 and touches nothing. A failed read returns the handle's -1, with the buffer and the position unchanged and `iPos` equal to the handle's position. Otherwise the bytes read land in the buffer and `iPos` follows the handle's position. |
| Gif.SeekFile | src/gif.cpp:134-143 | `iPos` becomes the handle's position after the seek, whether or not it succeeded, and is returned. |
| Gif.GifGlobals.OpenFile | src/gif.cpp:101-110 | On success the global `f` is the open file, the size is reported and `f` is returned. On failure null is returned and the size is left unchanged. |
| Gif.CloseFile | src/gif.cpp:112-117 | A non-null handle is closed. Null is ignored. |
| Gif.CentreOffset | src/gif.cpp:153-156 | The offset is never negative. It centres the canvas, rounding down, and is 0 when the canvas is larger than the panel. |
| Gif.CentreOffsetRounding | src/gif.cpp:153-156 | Because negative offsets are raised to 0, C's truncating division gives the same result as floor division. |
| Gif.Decoder.Open | src/gif.cpp:151 | Opening succeeds exactly when the file decodes, and then records the open. |
| Gif.Decoder.PlayFrame | src/gif.cpp:157 | Each call draws the next frame, line by line, and reports whether another follows. |
| Gif.Decoder.Close | src/gif.cpp:161 | Closing records the close. |
| Gif.PlayAll | src/gif.cpp:157-160 | The loop plays every frame once, in order, and draws exactly their lines. |
| Gif.PlayNext | src/gif.cpp:157 | One `playFrame` draws the next frame if there is one and advances the frame count by one. It reports whether another frame follows. Events and panel stay those of the frames played so far. |
| Gif.ShowGif | src/gif.cpp:147-165 | On a successful open the offsets are centred, then come one open, every frame in order, and one close. On failure nothing is played, closed or drawn and the offsets keep their values. |
| Sketch.Sketch.Setup | src/main.cpp:75-93 | A failed mount or open keeps the list. Otherwise the list gains `ListedPaths` of the listing. |
| Sketch.ListedPathsAppend | src/main.cpp:81-93 | Paths are appended in enumeration order, with no sorting or de-duplication. |
| Sketch.ListedPathsSingle | src/main.cpp:83-86 | An entry is kept, by its path, iff it is not a directory and ends in exactly ".gif" or ".GIF". ".Gif" is rejected. |
| Sketch.ListedIsCatalogueMatch | src/main.cpp:85 | Every path the flat list keeps would match the catalogue's case-insensitive filter, but "a.Gif" matches only the latter. |
| Sketch.RepeatPasses | src/main.cpp:111-118 | `passes` trips play `passes * N` paths. For every pass p the play order is the first p passes, then the whole list in list order, then the remaining passes. |
| Sketch.RepeatLength | src/main.cpp:111-118 | `passes` trips of the `while (true)` loop play `passes * N` paths. |
| Sketch.RepeatAppend | src/main.cpp:111-118 | a trips followed by b trips play what a + b trips play. |
| Sketch.DrawnAppend | src/main.cpp:113-116 | Showing two lists of paths one after the other draws what each draws, in that order. |
| Sketch.TraceAppend | src/main.cpp:113-116 | Showing two lists of paths one after the other yields the decoder events of both, in that order. |
| Sketch.Sketch.Loop | src/main.cpp:103-118 | An empty list plays and draws nothing. Otherwise `passes` trips play `Repeat(list, passes)`, each path by `ShowGIF`. The decoder receives those paths' events and the panel their draw calls, in play order. |
| Sketch.Sketch.NextPass | src/main.cpp:111-118 | One more trip after earlier ones extends the played paths, the events and the draw calls by those of the whole list. |
| Sketch.Sketch.PlayPass | src/main.cpp:113-116 | One pass of the `for` loop shows every stored path once, in list order. The decoder receives the events of those paths and the panel their draw calls, in order. |
| Sketch.ShowPath | src/main.cpp:114 | Showing a stored path yields the decoder events and draw calls of `ShowGIF` for its image, or none when it does not decode. |
| Web.Increased | src/portal.cpp:340 | Increase gives `min(255, b + 25)`: never above 255, exactly b + 25 below the clamp. |
| Web.Decreased | src/portal.cpp:358 | Decrease gives `max(10, b - 25)`: never below 10, exactly b - 25 above the clamp. |
| Web.BrightnessStaysInRange | src/portal.cpp:337-389 | From a value in [1, 255], increase and decrease stay in [1, 255]. |
| Web.BrightnessDirection | src/portal.cpp:355-358 | Increase never lowers the brightness. Decrease never raises it except from 1..9, which it raises to 10. |
| Web.BrightnessRoundTrip | src/portal.cpp:340-358 | Away from the clamps, one increase and one decrease undo each other. |
| Web.BrightnessControl.Increase | src/portal.cpp:337-353 | `brightness` becomes `Increased(old)`. The panel level is its low byte, the saved value equals it, and the old and new values are reported. |
| Web.BrightnessControl.Decrease | src/portal.cpp:355-371 | `brightness` becomes `Decreased(old)`, with the same panel, save and report. |
| Web.BrightnessControl.Set | src/portal.cpp:373-402 | A missing value or one outside [1, 255] is rejected and changes nothing. Otherwise the brightness becomes exactly the value. |
| Web.Absolute | src/portal.cpp:480 | The result always starts with "/". An absolute path is kept. Otherwise "/" is prefixed. |
| Web.AbsoluteIdempotent | src/portal.cpp:506 | Making a path absolute twice is making it absolute once. |
| Web.DirPart | src/portal.cpp:507-508 | The directory part is the prefix up to and including the last '/', or empty when there is none. |
| Web.BaseName | src/portal.cpp:507-508 | What follows the last '/' holds no '/', and the directory part followed by it is the path. |
| Web.RenameTarget | src/portal.cpp:504-508 | The rename target starts with "/" and ends with the new name. |
| Web.RenameKeepsParent | src/portal.cpp:586-588 | For a name without '/', the target has the same directory part and the new name as last component. Renaming back restores the path. |
| Web.MoveTargets | src/portal.cpp:532-535 | Both move paths are absolute, and absolute inputs are kept. |
| Web.FolderPath | src/portal.cpp:559-560 | The new folder is "/" + name, just below the root. |
| Web.ParentDir | src/portal.cpp:250-253 | A parent is computed iff a '/' occurs after position 0. It is then the prefix before the last '/'. |
| Web.ParentDirSplit | src/portal.cpp:250-253 | The parent, "/" and the last component give back the upload path. |
| Web.FirstMatchSpec | src/portal.cpp:13-23 | A suffix chain answers with the first entry whose suffix matches. |
| Web.FirstMatchNone | src/api.cpp:14-30 | A name matching no suffix gets "text/plain". |
| Web.FirstMatchPlain | src/api.cpp:17-29 | When no entry of a suffix table answers "text/plain", the lookup answers "text/plain" iff no suffix matches. |
| Upload.StartOutcome | src/portal.cpp:168-189 | START clears the error and sets it again iff the upload is refused: a non-".gif" name, an open failure, or for the general upload a parent that can be neither found nor made. An accepted upload has an open, empty file at its target. A refused name leaves the file untouched. |
| Upload.GifTargetShape | src/portal.cpp:172-177 | A GIF upload target is "/gifs/" + name and ends in ".gif". |
| Upload.ErrorIsSticky | src/portal.cpp:190-211 | Once the error is set, no WRITE, END or ABORTED writes a byte or clears it. |
| Upload.EndKeepsFailedFile | src/portal.cpp:201-205 | With the error set, END does not close the file. |
| Upload.FullWritesAppend | src/portal.cpp:190-200 | Full writes into an open, error-free file append their bytes in order. |
| Upload.CleanUpload | src/portal.cpp:168-294 | An accepted upload whose writes all succeed ends closed, without error, holding exactly the uploaded bytes at its target. |
| Upload.ChunkIsEvents | src/api.cpp:92-130 | A chunk does what a START (first chunk only), a WRITE (non-empty chunks only) and an END (last chunk only) do. The early return after a failed start changes nothing. |
| Portal.ContentType | src/portal.cpp:13-23 | "text/plain" iff no suffix of the table matches. |
| Portal.ContentTypeIsTable | src/portal.cpp:14-22 | The if-chain is the first-match lookup of the table .html, .css, .js, .json, .png, .jpg, .gif, .ico. |
| Portal.HandleFileRead | src/portal.cpp:35-72 | A file is served iff "/data" + the normalised path exists and opens. It is served with that file's content and the normalised path's content type, and templated iff the path ends in ".html". |
| Portal.NormalisedShape | src/portal.cpp:38-48 | The normalised path starts with "/", and a directory request gets "index.html". The lookup path starts with "/data/". |
| Portal.DirectoryRequestIsPage | src/portal.cpp:38-62 | A directory request is served as text/html with its placeholders substituted. |
| Portal.NormalisedIdempotent | src/portal.cpp:38-44 | Normalising a non-empty path twice changes nothing more. The empty path becomes "/" and then "/index.html". |
| Portal.HandleGifUpload | src/portal.cpp:163-212 | Each event changes the statics as `Step` for the GIF upload says. |
| Portal.HandleFileUpload | src/portal.cpp:236-301 | Each event changes the statics as `Step` for the general upload says. |
| Api.ContentType | src/api.cpp:14-30 | "text/plain" iff no suffix of the table matches. |
| Api.ContentTypeIsTable | src/api.cpp:17-29 | The chain is the first-match lookup of .html, .css, .js, .png, .gif, .jpg, .jpeg, .ico, .svg, .json. |
| Api.AgreesWithPortal | src/api.cpp:17-29 | No name ends in two of the suffixes, so the order does not matter. The two tables agree except on ".jpeg" and ".svg", which only this one knows. |
| Api.WriteAndFinish | src/api.cpp:115-130 | A non-empty chunk is written only into an open, error-free file, and a short write sets the error. On `final` the file is closed only without error. |
| Api.HandleGifChunk | src/api.cpp:87-131 | Each chunk changes the statics as `ChunkStep` for the GIF upload says. |
| Api.HandleFileChunk | src/api.cpp:153-211 | Each chunk changes the statics as `ChunkStep` for the general upload says. |

## Left out

- HTTP plumbing is not modelled: route registration, CORS headers, status codes, JSON text, `server.send`, and the POST completion handlers that only choose a response. The upload callback of POST /api/file/upload dereferences the "path" parameter without checking that it is present (src/api.cpp:163), which is a null dereference when it is missing; `Api.HandleFileChunk` receives the parameter as a string and cannot express its absence. WiFiManager, `ESP.restart`, `delay`, `millis`, `yield`, serial logging and `displayStatus` are left out too; they produce output or timing only.
- The status and file-listing endpoints are not modelled; they assemble JSON from the card and the network state. The delete and directory-delete endpoints share `Web.Absolute` with the others, and nothing else of them is modelled.
- Template substitution with `String::replace` is not modelled. `HandleFileRead` only says whether it applies.
- `toInt` parsing of the brightness value is not modelled: `BrightnessControl.Set` receives the parsed number, or None when the parameter is missing.
- Removing an existing file before an upload reopens it is not modelled. The model keeps the bytes written through the open handle, and the card's answers are given as an `SdReply`.
- The AnimatedGIF library is not part of this model (LZW decoding, `gif.open`, `gif.playFrame`, and how the library calls the file callbacks). An image is represented by its canvas size and its frames of `GIFDRAW` lines, which the library hands to `GIFDraw` in order (`Gif.DrawFrame`, `Gif.DrawLine`).
- The display driver's clipping of coordinates outside the panel is not modelled: the display is a total map.
- GifDraw.Draw: requires `iWidth <= 320` for the whole row. The `usTemp[320]` buffer overflows for a longer run of opaque pixels, and that overflow is not modelled.
- `x_offset` and `y_offset` are computed by `ShowGIF`, but `GIFDraw` never reads them, so the model does not use them to draw.
- The extra entry that `openNext` opens, and never closes, when a batch fills is a resource leak and is not modelled.
- No code shown here advances or wraps `current_batch_start` or checks the pause flag, so batch advance and pause are not modelled. The preferences storage (`src/settings.cpp`), the LittleFS wrappers (`src/filesystem.cpp`) and the browser and mock-server code are not part of this model.
- SdCard.GifPath: names are treated as sequences of one-byte characters. `getName` fills a 256-byte buffer and `snprintf` keeps at most 255 bytes, which can cut a multi-byte UTF-8 character in half; that byte-level truncation is not modelled.
- SdCard.GifPathKeepsName: "fits" is measured in characters for the same reason, so a name of multi-byte UTF-8 characters that fits in characters but not in bytes is not covered.
- Gif.ReadFile: 32-bit overflow of `iSize - iPos` in `GIFReadFile` is not modelled; integers are unbounded.
- Storage.FsFile.Read: SdFat's read is assumed to return -1 without moving the position or touching the buffer when it fails or the handle is closed. A read that fails part-way, having advanced the position and filled part of the buffer, is not modelled, and neither is what `position()` reports on a closed file. `Gif.ReadFile`'s failure case rests on the same assumption. The library's source is not part of this model.
- Storage.FsFile.Close: closing is assumed to keep the contents and the position. The library's source is not part of this model.
- Storage.FsFile.Seek: SdFat's seek is assumed to fail outside `[0, size]` and to keep the position then. The library's source is not part of this model.
- Sketch.Sketch.Loop: the `while (true)` of `loop` is endless; the model follows it for a given number of passes.
- Sketch.Sketch.Setup: the mount check and the `/gifs` listing are parameters. An entry's `name` stands for what `path()` returns, and `isFile()` is taken to be "not a directory".
