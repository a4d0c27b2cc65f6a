/** The asynchronous web front end (src/api.cpp): its longer content-type
    table and the two chunked upload handlers, called once per chunk
    `(index, data, final)`. The brightness and file-management path
    computations repeat those of src/portal.cpp and are in module Web. */
module Api {
  import opened Strings
  import opened Storage
  import Web
  import Portal
  import opened Upload

  // ---------------------------------------------------------------------
  // Content types

  /** `getContentType` of the asynchronous server. */
  function ContentType(filename: string): (r: string)
    ensures r == "text/plain" <==> forall j :: 0 <= j < |Table| ==> !EndsWith(filename, Table[j].0)
  {
    ContentTypeIsTable(filename);
    TableNotPlain();
    Web.FirstMatchPlain(Table, filename);
    if EndsWith(filename, ".html") then "text/html"
    else if EndsWith(filename, ".css") then "text/css"
    else if EndsWith(filename, ".js") then "application/javascript"
    else if EndsWith(filename, ".png") then "image/png"
    else if EndsWith(filename, ".gif") then "image/gif"
    else if EndsWith(filename, ".jpg") then "image/jpeg"
    else if EndsWith(filename, ".jpeg") then "image/jpeg"
    else if EndsWith(filename, ".ico") then "image/x-icon"
    else if EndsWith(filename, ".svg") then "image/svg+xml"
    else if EndsWith(filename, ".json") then "application/json"
    else "text/plain"
  }

  const Table: seq<(string, string)> := [
    (".html", "text/html"), (".css", "text/css"), (".js", "application/javascript"),
    (".png", "image/png"), (".gif", "image/gif"), (".jpg", "image/jpeg"),
    (".jpeg", "image/jpeg"), (".ico", "image/x-icon"), (".svg", "image/svg+xml"),
    (".json", "application/json")]

  /** No suffix of the table is served as plain text. */
  lemma TableNotPlain()
    ensures forall j :: 0 <= j < |Table| ==> Table[j].1 != "text/plain"
  {
  }

  /** The if-chain is the first-match lookup of its table. */
  lemma ContentTypeIsTable(filename: string)
    ensures Web.FirstMatch(Table, filename) ==
      if EndsWith(filename, ".html") then "text/html"
      else if EndsWith(filename, ".css") then "text/css"
      else if EndsWith(filename, ".js") then "application/javascript"
      else if EndsWith(filename, ".png") then "image/png"
      else if EndsWith(filename, ".gif") then "image/gif"
      else if EndsWith(filename, ".jpg") then "image/jpeg"
      else if EndsWith(filename, ".jpeg") then "image/jpeg"
      else if EndsWith(filename, ".ico") then "image/x-icon"
      else if EndsWith(filename, ".svg") then "image/svg+xml"
      else if EndsWith(filename, ".json") then "application/json"
      else "text/plain"
  {
    assert Table[0..] == Table;
    Web.FirstMatchFrom(Table, 0, filename);
    Web.FirstMatchFrom(Table, 1, filename);
    Web.FirstMatchFrom(Table, 2, filename);
    Web.FirstMatchFrom(Table, 3, filename);
    Web.FirstMatchFrom(Table, 4, filename);
    Web.FirstMatchFrom(Table, 5, filename);
    Web.FirstMatchFrom(Table, 6, filename);
    Web.FirstMatchFrom(Table, 7, filename);
    Web.FirstMatchFrom(Table, 8, filename);
    Web.FirstMatchFrom(Table, 9, filename);
  }

  /** No name ends with two of the table's suffixes, so the different orders
      of the two chains do not matter: the asynchronous server answers as
      the synchronous one does, and differs only for ".jpeg" and ".svg",
      which the synchronous server serves as plain text. */
  lemma AgreesWithPortal(filename: string)
    ensures !EndsWith(filename, ".jpeg") && !EndsWith(filename, ".svg") ==>
      ContentType(filename) == Portal.ContentType(filename)
    ensures EndsWith(filename, ".jpeg") ==>
      ContentType(filename) == "image/jpeg" && Portal.ContentType(filename) == "text/plain"
    ensures EndsWith(filename, ".svg") ==>
      ContentType(filename) == "image/svg+xml" && Portal.ContentType(filename) == "text/plain"
  {
    if EndsWith(filename, ".html") { EndsWithTail(filename, ".html"); }
    if EndsWith(filename, ".css") { EndsWithTail(filename, ".css"); }
    if EndsWith(filename, ".js") { EndsWithTail(filename, ".js"); }
    if EndsWith(filename, ".png") { EndsWithTail(filename, ".png"); }
    if EndsWith(filename, ".gif") { EndsWithTail(filename, ".gif"); }
    if EndsWith(filename, ".jpg") { EndsWithTail(filename, ".jpg"); }
    if EndsWith(filename, ".jpeg") { EndsWithTail(filename, ".jpeg"); }
    if EndsWith(filename, ".ico") { EndsWithTail(filename, ".ico"); }
    if EndsWith(filename, ".svg") { EndsWithTail(filename, ".svg"); }
    if EndsWith(filename, ".json") { EndsWithTail(filename, ".json"); }
  }

  // ---------------------------------------------------------------------
  // Chunked upload handlers

  /** The upload handler of POST /api/gif/upload: `written` is what
      `uploadFile.write(data, len)` returns, `reply` what the card answers
      when the first chunk opens the file. */
  method HandleGifChunk(h: UploadStatics, filename: string, index: nat, data: seq<byte>,
                        written: int, final: bool, reply: SdReply)
    requires -1 <= written <= |data|
    modifies h
    ensures h.State() == ChunkStep(GifUpload, old(h.State()), filename, "", reply, index, data, written, final)
  {
    if index == 0 {
      h.error := false;
      h.filename := filename;
      if !EndsWith(h.filename, ".gif") {
        h.error := true;
        return;
      }
      var path := GifTarget(h.filename);
      h.target := path;
      h.fileOpen := reply.openOk;
      h.data := [];
      if !h.fileOpen {
        h.error := true;
        return;
      }
    }
    WriteAndFinish(h, data, written, final);
  }

  /** The upload handler of POST /api/file/upload; `path` is the request's
      "path" parameter. */
  method HandleFileChunk(h: UploadStatics, filename: string, path: string, index: nat,
                         data: seq<byte>, written: int, final: bool, reply: SdReply)
    requires -1 <= written <= |data|
    modifies h
    ensures h.State() == ChunkStep(FileUpload, old(h.State()), filename, path, reply, index, data, written, final)
  {
    if index == 0 {
      h.error := false;
      h.filename := filename;
      h.target := path;
      var lastSlash := LastIndexOf(h.target, '/');
      if lastSlash > 0 {
        if !reply.parentExists {
          if !reply.mkdirOk {
            h.error := true;
            return;
          }
        }
      }
      h.fileOpen := reply.openOk;
      h.data := [];
      if !h.fileOpen {
        h.error := true;
        return;
      }
    }
    WriteAndFinish(h, data, written, final);
  }

  /** The tail both chunk handlers share: write a non-empty chunk into an
      open, error-free file, then close it on the last chunk unless an
      error is set. */
  method WriteAndFinish(h: UploadStatics, data: seq<byte>, written: int, final: bool)
    requires -1 <= written <= |data|
    modifies h
    ensures var s1 := old(h.State());
      var s2 := if s1.fileOpen && !s1.error && |data| > 0 then WriteStep(s1, data, written) else s1;
      h.State() == if final then EndStep(s2) else s2
  {
    if h.fileOpen && !h.error && |data| > 0 {
      if written != |data| {
        h.data := h.data + data[..if written < 0 then 0 else written];
        h.fileOpen := false;
        h.error := true;
      } else {
        h.data := h.data + data;
      }
    }
    if final {
      if h.fileOpen && !h.error {
        h.fileOpen := false;
      }
    }
  }
}
