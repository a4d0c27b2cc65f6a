/** The synchronous web front end (src/portal.cpp): the content-type table,
    the request-path normalisation of `handleFileRead`, and the two upload
    handlers, which receive one START / WRITE / END / ABORTED event per call.
    The brightness and file-management path computations it shares with
    src/api.cpp are in module Web. */
module Portal {
  import opened Strings
  import opened Storage
  import Web
  import opened Upload

  // ---------------------------------------------------------------------
  // Content types

  /** `getContentType`: the first suffix of the chain that matches decides. */
  function ContentType(filename: string): (r: string)
    ensures r == "text/plain" <==> forall j :: 0 <= j < |Table| ==> !EndsWith(filename, Table[j].0)
  {
    ContentTypeIsTable(filename);
    TableNotPlain();
    Web.FirstMatchPlain(Table, filename);
    if EndsWith(filename, ".html") then "text/html"
    else if EndsWith(filename, ".css") then "text/css"
    else if EndsWith(filename, ".js") then "application/javascript"
    else if EndsWith(filename, ".json") then "application/json"
    else if EndsWith(filename, ".png") then "image/png"
    else if EndsWith(filename, ".jpg") then "image/jpeg"
    else if EndsWith(filename, ".gif") then "image/gif"
    else if EndsWith(filename, ".ico") then "image/x-icon"
    else "text/plain"
  }

  /** The chain as a table, in the order it tests the suffixes. */
  const Table: seq<(string, string)> := [
    (".html", "text/html"), (".css", "text/css"), (".js", "application/javascript"),
    (".json", "application/json"), (".png", "image/png"), (".jpg", "image/jpeg"),
    (".gif", "image/gif"), (".ico", "image/x-icon")]

  /** No suffix of the table is served as plain text. */
  lemma TableNotPlain()
    ensures forall j :: 0 <= j < |Table| ==> Table[j].1 != "text/plain"
  {
  }

  /** The if-chain is the first-match lookup of its table. */
  lemma ContentTypeIsTable(filename: string)
    ensures Web.FirstMatch(Table, filename) ==
      if EndsWith(filename, ".html") then "text/html"
      else if EndsWith(filename, ".css") then "text/css"
      else if EndsWith(filename, ".js") then "application/javascript"
      else if EndsWith(filename, ".json") then "application/json"
      else if EndsWith(filename, ".png") then "image/png"
      else if EndsWith(filename, ".jpg") then "image/jpeg"
      else if EndsWith(filename, ".gif") then "image/gif"
      else if EndsWith(filename, ".ico") then "image/x-icon"
      else "text/plain"
  {
    assert Table[0..] == Table;
    Web.FirstMatchFrom(Table, 0, filename);
    Web.FirstMatchFrom(Table, 1, filename);
    Web.FirstMatchFrom(Table, 2, filename);
    Web.FirstMatchFrom(Table, 3, filename);
    Web.FirstMatchFrom(Table, 4, filename);
    Web.FirstMatchFrom(Table, 5, filename);
    Web.FirstMatchFrom(Table, 6, filename);
    Web.FirstMatchFrom(Table, 7, filename);
  }

  // ---------------------------------------------------------------------
  // Serving files

  /** The request path after `handleFileRead`'s two rewrites: a trailing '/'
      gets "index.html", then a leading '/' is added when missing. */
  function Normalised(p: string): string {
    Web.Absolute(if EndsWith(p, "/") then p + "index.html" else p)
  }

  /** Where the file is looked up: the web files live under "/data". */
  function DataPath(p: string): string {
    "/data" + Normalised(p)
  }

  /** A file that was found: its content type, its content, and whether the
      template placeholders are substituted in it. */
  datatype Served = Served(contentType: string, content: string, templated: bool)

  /** `handleFileRead(path)`, with `files` the readable files of the card by
      full path. */
  method HandleFileRead(requested: string, files: map<string, string>) returns (r: Option<Served>)
    ensures r.Some? <==> DataPath(requested) in files
    ensures r.Some? ==>
      r.value.content == files[DataPath(requested)] &&
      r.value.contentType == ContentType(Normalised(requested)) &&
      (r.value.templated <==> EndsWith(Normalised(requested), ".html"))
  {
    var path := requested;
    if EndsWith(path, "/") {
      path := path + "index.html";
    }
    if !StartsWith(path, "/") {
      path := "/" + path;
    }
    var contentType := ContentType(path);
    var fullPath := "/data" + path;
    if fullPath in files {
      var content := files[fullPath];
      var templated := EndsWith(path, ".html");
      return Some(Served(contentType, content, templated));
    }
    return None;
  }

  /** The normalised path is absolute, a directory request becomes its
      "index.html", and the lookup path lies under "/data/". */
  lemma NormalisedShape(p: string)
    ensures StartsWith(Normalised(p), "/")
    ensures StartsWith(DataPath(p), "/data/")
    ensures EndsWith(p, "/") ==> EndsWith(Normalised(p), "index.html")
    ensures EndsWith(p, "/") ==> Normalised(p) == Web.Absolute(p) + "index.html"
    ensures !EndsWith(p, "/") && StartsWith(p, "/") ==> Normalised(p) == p
  {
    var q := if EndsWith(p, "/") then p + "index.html" else p;
    if EndsWith(p, "/") {
      var h := "index.html";
      assert q[|q| - |h|..] == h;
      assert q[..1] == p[..1];
      if !StartsWith(p, "/") {
        assert "/" + q == ("/" + p) + h;
      }
    }
    var n := Normalised(p);
    assert DataPath(p)[..6] == "/data" + n[..1];
  }

  /** A directory request is served as an HTML page with its placeholders
      substituted. */
  lemma DirectoryRequestIsPage(p: string)
    requires EndsWith(p, "/")
    ensures ContentType(Normalised(p)) == "text/html"
    ensures EndsWith(Normalised(p), ".html")
  {
    NormalisedShape(p);
    var h := "index.html";
    assert h[|h| - 5..] == ".html";
    EndsWithAppend(Web.Absolute(p), h, ".html");
  }

  /** Normalising twice is normalising once, except for the empty path,
      which becomes "/" and then "/index.html". */
  lemma NormalisedIdempotent(p: string)
    requires p != []
    ensures Normalised(Normalised(p)) == Normalised(p)
    ensures Normalised("") == "/" && Normalised("/") == "/index.html"
  {
    NormalisedShape(p);
    var n := Normalised(p);
    if EndsWith(p, "/") {
      var h := "index.html";
      assert n[|n| - |h|..] == h;
      assert n[|n| - 1..] == "l";
    } else if StartsWith(p, "/") {
    } else {
      assert n == "/" + p;
      assert n[|n| - 1..] == p[|p| - 1..];
    }
    assert !EndsWith(n, "/");
    assert "/" + "index.html" == "/index.html";
  }

  // ---------------------------------------------------------------------
  // Upload handlers

  /** The upload handler of POST /api/gif/upload, called once per event. */
  method HandleGifUpload(h: UploadStatics, e: UploadEvent)
    requires WellFormedEvent(e)
    modifies h
    ensures h.State() == Step(GifUpload, old(h.State()), e)
  {
    match e
    case Start(name, _, reply) =>
      h.error := false;
      h.filename := name;
      if !EndsWith(h.filename, ".gif") {
        h.error := true;
        return;
      }
      var path := GifTarget(h.filename);
      h.target := path;
      h.fileOpen := reply.openOk;
      h.data := [];
      if !h.fileOpen {
        h.error := true;
        return;
      }
    case Write(buf, written) =>
      if h.fileOpen && !h.error {
        if written != |buf| {
          h.data := h.data + buf[..if written < 0 then 0 else written];
          h.fileOpen := false;
          h.error := true;
        } else {
          h.data := h.data + buf;
        }
      }
    case End =>
      if h.fileOpen && !h.error {
        h.fileOpen := false;
      }
    case Aborted =>
      if h.fileOpen {
        h.fileOpen := false;
      }
  }

  /** The upload handler of POST /api/file/upload, called once per event;
      `path` of a START is the request's "path" argument. */
  method HandleFileUpload(h: UploadStatics, e: UploadEvent)
    requires WellFormedEvent(e)
    modifies h
    ensures h.State() == Step(FileUpload, old(h.State()), e)
  {
    match e
    case Start(name, path, reply) =>
      h.error := false;
      h.filename := name;
      h.target := path;
      var parentDir := Web.ParentDir(h.target);
      if parentDir.Some? {
        if !reply.parentExists {
          if !reply.mkdirOk {
            h.error := true;
            return;
          }
        }
      }
      h.fileOpen := reply.openOk;
      h.data := [];
      if !h.fileOpen {
        h.error := true;
        return;
      }
    case Write(buf, written) =>
      if h.fileOpen && !h.error {
        if written != |buf| {
          h.data := h.data + buf[..if written < 0 then 0 else written];
          h.fileOpen := false;
          h.error := true;
        } else {
          h.data := h.data + buf;
        }
      }
    case End =>
      if h.fileOpen && !h.error {
        h.fileOpen := false;
      }
    case Aborted =>
      if h.fileOpen {
        h.fileOpen := false;
      }
  }
}
