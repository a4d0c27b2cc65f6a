/** Computations shared by the two web front ends, src/portal.cpp (the
    synchronous `WebServer`) and src/api.cpp (the `AsyncWebServer`), which
    repeat the same computations and differ in logging, headers and how they
    reply: brightness arithmetic on the global `brightness`, and the path
    building of the file-management endpoints. */
module Web {
  import opened Strings
  import opened Storage

  // ---------------------------------------------------------------------
  // Brightness

  const MaxBrightness := 255
  const MinDecreased := 10
  const Step := 25

  /** `min(255, brightness + 25)`. */
  function Increased(b: int): (r: int)
    ensures r <= MaxBrightness
    ensures r == b + Step || r == MaxBrightness
    ensures b <= MaxBrightness - Step ==> r == b + Step
  {
    if MaxBrightness <= b + Step then MaxBrightness else b + Step
  }

  /** `max(10, brightness - 25)`. */
  function Decreased(b: int): (r: int)
    ensures r >= MinDecreased
    ensures r == b - Step || r == MinDecreased
    ensures b >= MinDecreased + Step ==> r == b - Step
  {
    if MinDecreased >= b - Step then MinDecreased else b - Step
  }

  /** The range the set endpoint accepts. */
  predicate Settable(v: int) {
    1 <= v <= MaxBrightness
  }

  /** Starting from a settable value, every handler keeps the brightness
      settable. */
  lemma BrightnessStaysInRange(b: int)
    requires Settable(b)
    ensures Settable(Increased(b)) && Settable(Decreased(b))
  {
  }

  /** From a settable value, increase never lowers the brightness; decrease
      never raises it except from 1..9, which it raises to 10. */
  lemma BrightnessDirection(b: int)
    requires Settable(b)
    ensures Increased(b) >= b
    ensures Decreased(b) <= b <==> b >= MinDecreased
    ensures b < MinDecreased ==> Decreased(b) == MinDecreased
  {
  }

  /** Away from the clamps, one increase and one decrease undo each other. */
  lemma BrightnessRoundTrip(b: int)
    ensures MinDecreased <= b <= MaxBrightness - Step ==> Decreased(Increased(b)) == b
    ensures MinDecreased + Step <= b <= MaxBrightness ==> Increased(Decreased(b)) == b
  {
  }

  /** The global `brightness`, the level last handed to
      `setBrightness8(uint8_t)` and the value last saved to the preferences. */
  class BrightnessControl {
    var brightness: int
    var panelLevel: byte
    var saved: int

    constructor (initial: int)
      ensures brightness == initial && saved == initial && panelLevel == initial % 256
    {
      brightness := initial;
      saved := initial;
      panelLevel := initial % 256;
    }

    /** GET /api/brightness/increase; returns the old and new values it
        reports. */
    method Increase() returns (oldBrightness: int, newBrightness: int)
      modifies this
      ensures brightness == Increased(old(brightness))
      ensures panelLevel == brightness % 256 && saved == brightness
      ensures oldBrightness == old(brightness) && newBrightness == brightness
    {
      oldBrightness := brightness;
      brightness := if MaxBrightness < brightness + Step then MaxBrightness else brightness + Step;
      panelLevel := brightness % 256;
      saved := brightness;
      newBrightness := brightness;
    }

    /** GET /api/brightness/decrease. */
    method Decrease() returns (oldBrightness: int, newBrightness: int)
      modifies this
      ensures brightness == Decreased(old(brightness))
      ensures panelLevel == brightness % 256 && saved == brightness
      ensures oldBrightness == old(brightness) && newBrightness == brightness
    {
      oldBrightness := brightness;
      brightness := if MinDecreased > brightness - Step then MinDecreased else brightness - Step;
      panelLevel := brightness % 256;
      saved := brightness;
      newBrightness := brightness;
    }

    /** GET /api/brightness/set?value=v, with `value` the parsed parameter
        (None when it is missing). A missing or out-of-range value is
        rejected and nothing changes; otherwise the brightness becomes
        exactly the value. */
    method Set(value: Option<int>) returns (ok: bool)
      modifies this
      ensures ok == (value.Some? && Settable(value.value))
      ensures ok ==> brightness == value.value && panelLevel == brightness && saved == brightness
      ensures !ok ==> brightness == old(brightness) && panelLevel == old(panelLevel) && saved == old(saved)
    {
      if value.None? {
        return false;
      }
      var newBrightness := value.value;
      if newBrightness < 1 || newBrightness > 255 {
        return false;
      }
      brightness := newBrightness;
      panelLevel := brightness % 256;
      saved := brightness;
      return true;
    }
  }

  // ---------------------------------------------------------------------
  // Paths

  /** `if (!path.startsWith("/")) path = "/" + path;` */
  function Absolute(p: string): (r: string)
    ensures StartsWith(r, "/")
    ensures StartsWith(p, "/") ==> r == p
    ensures !StartsWith(p, "/") ==> r == "/" + p
  {
    if StartsWith(p, "/") then p else "/" + p
  }

  lemma AbsoluteIdempotent(p: string)
    ensures Absolute(Absolute(p)) == Absolute(p)
    ensures |Absolute(p)| <= |p| + 1
  {
  }

  /** The directory part of a path: everything up to and including its last
      '/'. */
  function DirPart(p: string): (d: string)
    ensures |d| <= |p| && d == p[..|d|]
    ensures '/' in p ==> d != [] && d[|d| - 1] == '/'
    ensures '/' !in p ==> d == []
  {
    p[..LastIndexOf(p, '/') + 1]
  }

  /** What follows the last '/'. */
  function BaseName(p: string): (b: string)
    ensures '/' !in b
    ensures DirPart(p) + b == p
  {
    var i := LastIndexOf(p, '/');
    NoSlashAfterLast(p);
    assert p[..i + 1] + p[i + 1..] == p;
    p[i + 1..]
  }

  lemma NoSlashAfterLast(p: string)
    ensures '/' !in p[LastIndexOf(p, '/') + 1..]
  {
    var i := LastIndexOf(p, '/');
    var t := p[i + 1..];
    forall j | 0 <= j < |t|
      ensures t[j] != '/'
    {
      assert t[j] == p[i + 1 + j];
    }
  }

  /** The target of the rename endpoints: the entry keeps its directory and
      takes `newName`. */
  function RenameTarget(path: string, newName: string): (r: string)
    ensures StartsWith(r, "/") && EndsWith(r, newName)
  {
    var p := Absolute(path);
    var lastSlash := LastIndexOf(p, '/');
    var d := p[..lastSlash + 1];
    assert p[0] == '/' by { assert p[..1][0] == p[0]; }
    assert 0 <= lastSlash;
    assert d[..1] == p[..1];
    RenameShape(d, newName);
    d + newName
  }

  lemma RenameShape(d: string, newName: string)
    requires StartsWith(d, "/")
    ensures StartsWith(d + newName, "/") && EndsWith(d + newName, newName)
  {
    var r := d + newName;
    assert r[|r| - |newName|..] == newName;
    assert r[..1] == d[..1];
  }

  /** A rename keeps the parent: for a name without '/', the renamed path has
      the same directory part and `newName` as its last component, and
      renaming back restores the original path. */
  lemma RenameKeepsParent(path: string, newName: string)
    requires '/' !in newName
    ensures DirPart(RenameTarget(path, newName)) == DirPart(Absolute(path))
    ensures BaseName(RenameTarget(path, newName)) == newName
    ensures RenameTarget(RenameTarget(path, newName), BaseName(Absolute(path))) == Absolute(path)
  {
    var p := Absolute(path);
    var d := DirPart(p);
    var r := RenameTarget(path, newName);
    assert '/' in p by { assert p[0] == '/'; }
    assert r == d + newName;
    LastIndexOfAppend(d, newName, '/');
    assert LastIndexOf(d, '/') == |d| - 1;
    assert DirPart(r) == d by {
      assert r[..|d|] == d;
    }
    var b := BaseName(p);
    assert RenameTarget(r, b) == d + b by {
      assert StartsWith(r, "/") by { assert r[..1] == d[..1]; assert d[..1] == p[..1]; }
    }
  }

  /** The endpoint for moves prefixes both paths. */
  function MoveTargets(path: string, newPath: string): (r: (string, string))
    ensures StartsWith(r.0, "/") && StartsWith(r.1, "/")
    ensures StartsWith(path, "/") ==> r.0 == path
    ensures StartsWith(newPath, "/") ==> r.1 == newPath
  {
    (Absolute(path), Absolute(newPath))
  }

  /** The folder the create-folder endpoint makes: always just below the
      root, whatever the name holds. */
  function FolderPath(name: string): (r: string)
    ensures StartsWith(r, "/") && r[1..] == name
  {
    "/" + name
  }

  /** The directory the general upload makes sure of: the prefix before the
      last '/', and only when that '/' is not the first character. */
  function ParentDir(uploadPath: string): (r: Option<string>)
    ensures r.None? <==> forall j :: 0 < j < |uploadPath| ==> uploadPath[j] != '/'
    ensures r.Some? ==> var i := |r.value|;
      0 < i < |uploadPath| && uploadPath[i] == '/' && r.value == uploadPath[..i] &&
      '/' !in uploadPath[i + 1..]
  {
    var lastSlash := LastIndexOf(uploadPath, '/');
    if lastSlash > 0 then
      NoSlashAfterLast(uploadPath);
      Some(uploadPath[..lastSlash])
    else
      None
  }

  /** A parent directory followed by '/' and the last component is the whole
      upload path again. */
  lemma ParentDirSplit(uploadPath: string)
    requires ParentDir(uploadPath).Some?
    ensures ParentDir(uploadPath).value + "/" + BaseName(uploadPath) == uploadPath
  {
    var i := LastIndexOf(uploadPath, '/');
    assert DirPart(uploadPath) == ParentDir(uploadPath).value + "/";
  }

  // ---------------------------------------------------------------------
  // Content types

  /** A `getContentType` if-chain as a table: the first suffix that the name
      ends with decides, "text/plain" when none does. */
  function FirstMatch(table: seq<(string, string)>, filename: string): string {
    if table == [] then "text/plain"
    else if EndsWith(filename, table[0].0) then table[0].1
    else FirstMatch(table[1..], filename)
  }

  /** The first matching entry decides, entries before it do not match, and
      "text/plain" means that no entry matches (or the matching one says
      "text/plain"). */
  lemma {:induction false} FirstMatchSpec(table: seq<(string, string)>, filename: string, k: nat)
    requires k < |table| && EndsWith(filename, table[k].0)
    requires forall j :: 0 <= j < k ==> !EndsWith(filename, table[j].0)
    ensures FirstMatch(table, filename) == table[k].1
  {
    if k > 0 {
      assert !EndsWith(filename, table[0].0);
      FirstMatchSpec(table[1..], filename, k - 1);
    }
  }

  lemma {:induction false} FirstMatchNone(table: seq<(string, string)>, filename: string)
    requires forall j :: 0 <= j < |table| ==> !EndsWith(filename, table[j].0)
    ensures FirstMatch(table, filename) == "text/plain"
  {
    if table != [] {
      assert !EndsWith(filename, table[0].0);
      FirstMatchNone(table[1..], filename);
    }
  }

  /** One step of the lookup from entry `k` on: that entry decides if it
      matches. */
  lemma FirstMatchFrom(table: seq<(string, string)>, k: nat, filename: string)
    requires k < |table|
    ensures FirstMatch(table[k..], filename) ==
      if EndsWith(filename, table[k].0) then table[k].1 else FirstMatch(table[k + 1..], filename)
  {
    assert table[k..][1..] == table[k + 1..];
  }

  /** When no entry's type is "text/plain", the lookup answers "text/plain"
      exactly when no suffix matches. */
  lemma {:induction false} FirstMatchPlain(table: seq<(string, string)>, filename: string)
    requires forall j :: 0 <= j < |table| ==> table[j].1 != "text/plain"
    ensures FirstMatch(table, filename) == "text/plain" <==>
      forall j :: 0 <= j < |table| ==> !EndsWith(filename, table[j].0)
  {
    if table != [] {
      var rest := table[1..];
      assert forall j :: 0 <= j < |rest| ==> rest[j] == table[j + 1];
      FirstMatchPlain(rest, filename);
      if FirstMatch(table, filename) == "text/plain" {
        forall j | 0 <= j < |table| ensures !EndsWith(filename, table[j].0) {
          if j > 0 {
            assert table[j] == rest[j - 1];
          }
        }
      }
    }
  }
}
