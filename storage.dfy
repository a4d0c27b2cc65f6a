/** The storage collaborator as the firmware sees it: entries of a directory
    listing, bytes, and an open file handle with a read/seek position. The
    SdFat and LittleFS libraries behind them are not part of this model; the
    contracts below are the assumptions the callbacks rely on. */
module Storage {

  type byte = b: int | 0 <= b < 256

  /** One entry produced by `openNext`/`openNextFile`. For the SD card variant
      `name` is what `getName` returns; for the flat-list variant it is what
      `path()` returns. `isFile()` is taken to be `!isDir`. */
  datatype Entry = Entry(name: string, isDir: bool)

  datatype Option<T> = None | Some(value: T)

  function Min(a: int, b: int): int { if a <= b then a else b }

  /** An open SdFat file (`FsFile`): its bytes and the current position. */
  class FsFile {
    var data: seq<byte>
    var pos: nat
    var isOpen: bool

    ghost predicate Valid()
      reads this
    {
      pos <= |data|
    }

    constructor (contents: seq<byte>)
      ensures Valid() && data == contents && pos == 0 && isOpen
    {
      data := contents;
      pos := 0;
      isOpen := true;
    }

    /** `read(buf, n)`: copies up to `n` bytes from the position on and
        advances it; stops at the end of the file. `ioOk` is the card's
        answer: a failed transfer, like a closed handle, returns -1 and
        moves nothing. */
    method Read(buf: array<byte>, n: int, ioOk: bool) returns (count: int)
      requires Valid() && 0 < n <= buf.Length
      modifies this, buf
      ensures Valid() && data == old(data) && isOpen == old(isOpen)
      ensures !(isOpen && ioOk) ==> count == -1 && pos == old(pos) && buf[..] == old(buf[..])
      ensures isOpen && ioOk ==>
        count == Min(n, |data| - old(pos)) && pos == old(pos) + count &&
        buf[..count] == data[old(pos)..pos] && buf[count..] == old(buf[count..])
    {
      if !isOpen || !ioOk {
        return -1;
      }
      count := Min(n, |data| - pos);
      var i := 0;
      while i < count
        invariant 0 <= i <= count
        invariant data == old(data) && pos == old(pos) && isOpen == old(isOpen)
        invariant buf[..i] == data[pos..pos + i]
        invariant buf[count..] == old(buf[count..])
      {
        buf[i] := data[pos + i];
        i := i + 1;
      }
      pos := pos + count;
    }

    /** `seek(p)`: moves to `p` when it lies inside the file, else fails and
        keeps the position. */
    method Seek(p: int) returns (ok: bool)
      requires Valid()
      modifies this
      ensures Valid() && data == old(data) && isOpen == old(isOpen)
      ensures ok == (0 <= p <= |data|)
      ensures pos == if ok then p else old(pos)
    {
      ok := 0 <= p <= |data|;
      if ok {
        pos := p;
      }
    }

    method Close()
      modifies this
      ensures !isOpen && data == old(data) && pos == old(pos)
    {
      isOpen := false;
    }
  }
}
