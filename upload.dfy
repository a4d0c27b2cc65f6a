/** The upload handlers' `static` state (`uploadFile`, `uploadFilename`,
    `uploadPath`, `uploadError`) and how each upload callback changes it. The
    synchronous handlers of src/portal.cpp receive one event per call (START,
    WRITE, END, ABORTED); the asynchronous ones of src/api.cpp receive chunks
    `(index, data, final)`. Both come in two kinds: the GIF upload, which
    writes `/gifs/<filename>` and accepts only ".gif" names, and the general
    upload, which writes the given path after making sure of its parent
    directory. */
module Upload {
  import opened Strings
  import opened Storage
  import Web

  /** What the SD card answers during a START: whether the parent directory
      exists, whether `mkdir` succeeds, and whether `open` succeeds. */
  datatype SdReply = SdReply(parentExists: bool, mkdirOk: bool, openOk: bool)

  /** The statics: whether `uploadFile` is an open file, the error flag, the
      name, the path the file was opened at, and the bytes written to it. */
  datatype UploadState = UploadState(fileOpen: bool, error: bool, filename: string,
                                     target: string, data: seq<byte>)

  datatype Kind = GifUpload | FileUpload

  /** One call of a synchronous handler. `path` is the request's "path"
      argument, read by the general upload only; `written` is what
      `uploadFile.write` returns (-1 on failure). */
  datatype UploadEvent =
    | Start(filename: string, path: string, reply: SdReply)
    | Write(buf: seq<byte>, written: int)
    | End
    | Aborted

  predicate WellFormedEvent(e: UploadEvent) {
    e.Write? ==> -1 <= e.written <= |e.buf|
  }

  /** `String("/gifs/") + uploadFilename`. */
  function GifTarget(name: string): string {
    "/gifs/" + name
  }

  /** `uploadFile = sd.open(path, O_WRONLY | O_CREAT | O_TRUNC)`: an empty open
      file, or a file that tests false and the error flag. */
  function OpenFor(st: UploadState, path: string, openOk: bool): UploadState {
    st.(target := path, fileOpen := openOk, data := [], error := !openOk)
  }

  /** START of the GIF upload. */
  function StartGif(st: UploadState, name: string, openOk: bool): UploadState {
    var s := st.(error := false, filename := name);
    if !EndsWith(name, ".gif") then s.(error := true)
    else OpenFor(s, GifTarget(name), openOk)
  }

  /** START of the general upload. */
  function StartFile(st: UploadState, name: string, path: string, r: SdReply): UploadState {
    var s := st.(error := false, filename := name, target := path);
    if Web.ParentDir(path).Some? && !r.parentExists && !r.mkdirOk then s.(error := true)
    else OpenFor(s, path, r.openOk)
  }

  function StartStep(k: Kind, st: UploadState, name: string, path: string, r: SdReply): UploadState {
    if k == GifUpload then StartGif(st, name, r.openOk) else StartFile(st, name, path, r)
  }

  /** A write into an open file with no error; a short write closes the file
      and sets the error. */
  function WriteStep(st: UploadState, buf: seq<byte>, written: int): UploadState
    requires -1 <= written <= |buf|
  {
    if st.fileOpen && !st.error then
      if written != |buf| then
        st.(fileOpen := false, error := true, data := st.data + buf[..if written < 0 then 0 else written])
      else st.(data := st.data + buf)
    else st
  }

  /** END closes the file only when no error is set. */
  function EndStep(st: UploadState): UploadState {
    if st.fileOpen && !st.error then st.(fileOpen := false) else st
  }

  /** ABORTED closes an open file whatever the error flag says. */
  function AbortStep(st: UploadState): UploadState {
    if st.fileOpen then st.(fileOpen := false) else st
  }

  function Step(k: Kind, st: UploadState, e: UploadEvent): UploadState
    requires WellFormedEvent(e)
  {
    match e
    case Start(name, path, r) => StartStep(k, st, name, path, r)
    case Write(buf, written) => WriteStep(st, buf, written)
    case End => EndStep(st)
    case Aborted => AbortStep(st)
  }

  function Run(k: Kind, st: UploadState, es: seq<UploadEvent>): UploadState
    requires forall i :: 0 <= i < |es| ==> WellFormedEvent(es[i])
  {
    if es == [] then st else Step(k, Run(k, st, es[..|es| - 1]), es[|es| - 1])
  }

  /** One chunk of an asynchronous handler: a START when `index` is 0 (whose
      failure returns at once), then a write when the file is open, no error
      is set and the chunk is not empty, then END when `final`. */
  function ChunkStep(k: Kind, st: UploadState, name: string, path: string, r: SdReply,
                     index: nat, data: seq<byte>, written: int, final: bool): UploadState
    requires -1 <= written <= |data|
  {
    var s1 := if index == 0 then StartStep(k, st, name, path, r) else st;
    if index == 0 && s1.error then s1
    else
      var s2 := if s1.fileOpen && !s1.error && |data| > 0 then WriteStep(s1, data, written) else s1;
      if final then EndStep(s2) else s2
  }

  // ---------------------------------------------------------------------
  // Properties

  /** Whether the START is accepted: a ".gif" name (GIF upload) or a parent
      directory that is not needed, exists or could be made (general
      upload), and an open that succeeds. */
  predicate Accepted(k: Kind, name: string, path: string, r: SdReply) {
    (if k == GifUpload then EndsWith(name, ".gif")
     else !(Web.ParentDir(path).Some? && !r.parentExists && !r.mkdirOk)) &&
    r.openOk
  }

  function TargetOf(k: Kind, name: string, path: string): string {
    if k == GifUpload then GifTarget(name) else path
  }

  /** START clears the error flag and sets it again exactly when the upload is
      refused; an accepted upload has an open, empty file at its target. */
  lemma StartOutcome(k: Kind, st: UploadState, name: string, path: string, r: SdReply)
    ensures var s := StartStep(k, st, name, path, r);
      s.filename == name &&
      (s.error <==> !Accepted(k, name, path, r)) &&
      (!s.error ==> s.fileOpen && s.data == [] && s.target == TargetOf(k, name, path)) &&
      (k == GifUpload && !EndsWith(name, ".gif") ==> s.fileOpen == st.fileOpen && s.data == st.data)
  {
  }

  /** A GIF upload target always lies in the GIF directory and ends in ".gif". */
  lemma GifTargetShape(name: string)
    requires EndsWith(name, ".gif")
    ensures StartsWith(GifTarget(name), "/gifs/") && EndsWith(GifTarget(name), ".gif")
    ensures GifTarget(name)[|"/gifs/"|..] == name
  {
    var t := GifTarget(name);
    assert t[|t| - 4..] == name[|name| - 4..];
  }

  /** Once the error flag is set, no later WRITE, END or ABORTED writes a
      byte or clears it. */
  lemma {:induction false} ErrorIsSticky(k: Kind, st: UploadState, es: seq<UploadEvent>)
    requires st.error
    requires forall i :: 0 <= i < |es| ==> WellFormedEvent(es[i]) && !es[i].Start?
    ensures Run(k, st, es).error && Run(k, st, es).data == st.data
    ensures Run(k, st, es).target == st.target
  {
    if es != [] {
      ErrorIsSticky(k, st, es[..|es| - 1]);
    }
  }

  /** An error set before END keeps the file as it was: END closes nothing. */
  lemma EndKeepsFailedFile(st: UploadState)
    requires st.error
    ensures EndStep(st) == st
  {
  }

  function FullWrites(bufs: seq<seq<byte>>): (es: seq<UploadEvent>)
    ensures |es| == |bufs|
    ensures forall i :: 0 <= i < |es| ==> es[i] == Write(bufs[i], |bufs[i]|)
  {
    if bufs == [] then [] else FullWrites(bufs[..|bufs| - 1]) + [Write(bufs[|bufs| - 1], |bufs[|bufs| - 1]|)]
  }

  function Concat(bufs: seq<seq<byte>>): seq<byte> {
    if bufs == [] then [] else Concat(bufs[..|bufs| - 1]) + bufs[|bufs| - 1]
  }

  /** An open, error-free file takes every full write in order. */
  lemma {:induction false} FullWritesAppend(k: Kind, st: UploadState, bufs: seq<seq<byte>>)
    requires st.fileOpen && !st.error
    ensures var s := Run(k, st, FullWrites(bufs));
      s.fileOpen && !s.error && s.data == st.data + Concat(bufs) && s.target == st.target
  {
    if bufs != [] {
      var init, last := bufs[..|bufs| - 1], bufs[|bufs| - 1];
      var ws := FullWrites(init);
      assert FullWrites(bufs) == ws + [Write(last, |last|)];
      RunSnoc(k, st, ws, Write(last, |last|));
      FullWritesAppend(k, st, init);
      assert Concat(bufs) == Concat(init) + last;
      assert st.data + Concat(init) + last == st.data + Concat(bufs);
    }
  }

  /** An accepted upload whose writes all succeed ends closed, without error,
      holding exactly the uploaded bytes at its target. */
  lemma CleanUpload(k: Kind, st: UploadState, name: string, path: string, r: SdReply,
                    bufs: seq<seq<byte>>)
    requires Accepted(k, name, path, r)
    ensures var es := [Start(name, path, r)] + FullWrites(bufs) + [End];
      (forall i :: 0 <= i < |es| ==> WellFormedEvent(es[i])) &&
      var s := Run(k, st, es);
      !s.fileOpen && !s.error && s.data == Concat(bufs) && s.target == TargetOf(k, name, path)
  {
    var s0 := StartStep(k, st, name, path, r);
    StartOutcome(k, st, name, path, r);
    var ws := FullWrites(bufs);
    var es := [Start(name, path, r)] + ws + [End];
    assert forall i :: 0 <= i < |es| ==> WellFormedEvent(es[i]);
    RunAppend(k, st, [Start(name, path, r)], ws);
    assert Run(k, st, [Start(name, path, r)]) == s0 by {
      assert [Start(name, path, r)][..0] == [];
    }
    FullWritesAppend(k, s0, bufs);
    assert es[..|es| - 1] == [Start(name, path, r)] + ws;
  }

  lemma {:induction false} RunAppend(k: Kind, st: UploadState, a: seq<UploadEvent>, b: seq<UploadEvent>)
    requires forall i :: 0 <= i < |a| ==> WellFormedEvent(a[i])
    requires forall i :: 0 <= i < |b| ==> WellFormedEvent(b[i])
    ensures forall i :: 0 <= i < |a + b| ==> WellFormedEvent((a + b)[i])
    ensures Run(k, st, a + b) == Run(k, Run(k, st, a), b)
  {
    assert forall i :: 0 <= i < |a + b| ==> WellFormedEvent((a + b)[i]) by {
      forall i | 0 <= i < |a + b| ensures WellFormedEvent((a + b)[i]) {
        if i < |a| { assert (a + b)[i] == a[i]; } else { assert (a + b)[i] == b[i - |a|]; }
      }
    }
    if b == [] {
      assert a + b == a;
    } else {
      var b' := b[..|b| - 1];
      assert (a + b)[..|a + b| - 1] == a + b';
      RunAppend(k, st, a, b');
    }
  }

  /** The events one asynchronous chunk stands for. */
  function ChunkEvents(name: string, path: string, r: SdReply, index: nat, data: seq<byte>,
                       written: int, final: bool): seq<UploadEvent>
  {
    (if index == 0 then [Start(name, path, r)] else []) +
    (if |data| > 0 then [Write(data, written)] else []) +
    (if final then [End] else [])
  }

  /** An asynchronous chunk does what the synchronous handler does with a
      START (first chunk only), a WRITE (non-empty chunks only) and an END
      (last chunk only), in that order: the early return after a failed
      START and the test on the chunk length change nothing. */
  lemma ChunkIsEvents(k: Kind, st: UploadState, name: string, path: string, r: SdReply,
                      index: nat, data: seq<byte>, written: int, final: bool)
    requires -1 <= written <= |data|
    ensures var es := ChunkEvents(name, path, r, index, data, written, final);
      (forall i :: 0 <= i < |es| ==> WellFormedEvent(es[i])) &&
      ChunkStep(k, st, name, path, r, index, data, written, final) == Run(k, st, es)
  {
    var a := [] + Maybe(index == 0, Start(name, path, r));
    RunMaybe(k, st, [], index == 0, Start(name, path, r));
    var ab := a + Maybe(|data| > 0, Write(data, written));
    RunMaybe(k, st, a, |data| > 0, Write(data, written));
    var abc := ab + Maybe(final, End);
    RunMaybe(k, st, ab, final, End);
    assert abc == ChunkEvents(name, path, r, index, data, written, final);
    ChunkStepIsSteps(k, st, name, path, r, index, data, written, final);
  }

  /** The event `e` when `cond` holds, nothing otherwise. */
  function Maybe(cond: bool, e: UploadEvent): (es: seq<UploadEvent>)
    ensures |es| <= 1
  {
    if cond then [e] else []
  }

  /** Running an event that may be absent. */
  lemma RunMaybe(k: Kind, st: UploadState, es: seq<UploadEvent>, cond: bool, e: UploadEvent)
    requires forall i :: 0 <= i < |es| ==> WellFormedEvent(es[i])
    requires WellFormedEvent(e)
    ensures forall i :: 0 <= i < |es + Maybe(cond, e)| ==> WellFormedEvent((es + Maybe(cond, e))[i])
    ensures Run(k, st, es + Maybe(cond, e)) == if cond then Step(k, Run(k, st, es), e) else Run(k, st, es)
  {
    if cond {
      RunSnoc(k, st, es, e);
    } else {
      assert es + Maybe(cond, e) == es;
    }
  }

  /** The early return after a failed START changes nothing: a state with the
      error flag ignores the write and the END that would follow. */
  lemma ChunkStepIsSteps(k: Kind, st: UploadState, name: string, path: string, r: SdReply,
                         index: nat, data: seq<byte>, written: int, final: bool)
    requires -1 <= written <= |data|
    ensures var s1 := if index == 0 then StartStep(k, st, name, path, r) else st;
      var s2 := if |data| > 0 then WriteStep(s1, data, written) else s1;
      ChunkStep(k, st, name, path, r, index, data, written, final) == if final then EndStep(s2) else s2
  {
  }

  /** Running one more event. */
  lemma RunSnoc(k: Kind, st: UploadState, es: seq<UploadEvent>, e: UploadEvent)
    requires forall i :: 0 <= i < |es| ==> WellFormedEvent(es[i])
    requires WellFormedEvent(e)
    ensures forall i :: 0 <= i < |es + [e]| ==> WellFormedEvent((es + [e])[i])
    ensures Run(k, st, es + [e]) == Step(k, Run(k, st, es), e)
  {
    assert (es + [e])[..|es|] == es;
    assert forall i :: 0 <= i < |es + [e]| ==> WellFormedEvent((es + [e])[i]) by {
      forall i | 0 <= i < |es + [e]| ensures WellFormedEvent((es + [e])[i]) {
        if i < |es| { assert (es + [e])[i] == es[i]; }
      }
    }
  }

  // ---------------------------------------------------------------------
  // The statics

  /** One handler's `static` variables. */
  class UploadStatics {
    var fileOpen: bool
    var error: bool
    var filename: string
    var target: string
    var data: seq<byte>

    constructor ()
      ensures !fileOpen && !error && filename == [] && target == [] && data == []
    {
      fileOpen := false;
      error := false;
      filename := [];
      target := [];
      data := [];
    }

    function State(): UploadState
      reads this
    {
      UploadState(fileOpen, error, filename, target, data)
    }
  }
}
