/** buffer_put.c: buffered output over a descriptor that may write less than it is asked to. */
module Buffer {
  import opened Bytes

  const BUFFER_OUTSIZE := 8192

  /** The contents of a file after `s` is written at offset `at`; a gap before `at` reads as zeros. */
  function Overwrite(f: bytes, at: nat, s: bytes): bytes {
    if s == [] then f
    else if at <= |f| then f[..at] + s + (if at + |s| <= |f| then f[at + |s|..] else [])
    else f + seq(at - |f|, _ => 0) + s
  }

  /** An open file. The operating system decides how much of each write it takes. */
  class File {
    // The contents at the last seek, where that seek went, and the bytes written since.
    var base: bytes
    var start: nat
    var log: bytes
    // How many more interrupted or empty writes the system will answer with: any number, but finite.
    var stalls: nat

    constructor (stalls: nat)
      ensures base == [] && start == 0 && log == []
    {
      base, start, log := [], 0, [];
      this.stalls := stalls;
    }

    function Contents(): bytes
      reads this
    {
      Overwrite(base, start, log)
    }

    /** write(2): takes a prefix of `s`, or fails, possibly only because of a signal. */
    method Write(s: bytes) returns (w: int, interrupted: bool)
      requires s != []
      modifies `log, `stalls
      ensures -1 <= w <= |s|
      ensures log == old(log) + (if w < 0 then [] else s[..w])
      ensures w == 0 || (w == -1 && interrupted) ==> stalls < old(stalls)
      ensures stalls <= old(stalls)
    {
      w, interrupted :| -1 <= w <= |s| && (w == 0 || (w == -1 && interrupted) ==> stalls > 0);
      if w > 0 {
        log := log + s[..w];
      } else if w == 0 || interrupted {
        stalls := stalls - 1;
      }
    }

    method Seek(pos: nat) returns (ok: bool)
      modifies `base, `start, `log
      ensures ok ==> base == old(Contents()) && start == pos && log == []
      ensures !ok ==> base == old(base) && start == old(start) && log == old(log)
    {
      ok := *;
      if ok {
        base, start, log := Contents(), pos, [];
      }
    }
  }

  /** allwrite: on success every byte has reached the file, in order, however the writes were split. */
  method AllWrite(f: File, s: bytes) returns (ok: bool)
    modifies f`log, f`stalls
    ensures ok ==> f.log == old(f.log) + s
    ensures old(f.log) <= f.log <= old(f.log) + s
  {
    var rest := s;
    while rest != []
      invariant f.log + rest == old(f.log) + s && old(f.log) <= f.log
      decreases |rest| + f.stalls
    {
      var w, interrupted := f.Write(rest);
      if w == -1 {
        if interrupted {
          continue;
        }
        return false;
      }
      rest := rest[w..];
    }
    return true;
  }

  /** struct buffer used for output: x[..p] holds what has been put but not yet written. */
  class OutBuffer {
    const file: File
    const x: array<byte>
    var p: nat

    constructor (file: File, size: nat)
      requires size > 0
      ensures Valid() && p == 0 && fresh(x) && this.file == file && x.Length == size
    {
      this.file := file;
      x := new byte[size];
      p := 0;
    }

    ghost predicate Valid()
      reads this
    {
      p <= x.Length && x.Length > 0
    }

    /** What has been written since the last seek, followed by what is held: the concatenation of all puts. */
    ghost function Stream(): bytes
      requires Valid()
      reads this, x, file
    {
      file.log + x[..p]
    }

    /** The bytes go behind those already held. */
    method Hold(s: bytes)
      requires Valid() && p + |s| <= x.Length
      modifies this, x
      ensures Valid() && p == old(p) + |s|
      ensures Stream() == old(Stream()) + s
    {
      for i := 0 to |s|
        invariant p == old(p) && x[..p] == old(x[..p])
        invariant x[p..p + i] == s[..i]
      {
        x[p + i] := s[i];
        assert x[p..p + i] == s[..i];
      }
      p := p + |s|;
      assert x[..p] == x[..old(p)] + x[old(p)..p];
    }

    method Flush() returns (ok: bool)
      requires Valid()
      modifies this, file`log, file`stalls
      ensures Valid() && p == 0
      ensures ok ==> file.log == Stream() == old(Stream())
      ensures old(file.log) <= file.log <= old(Stream())
    {
      var held := x[..p];
      if p == 0 {
        return true;
      }
      p := 0;
      ok := AllWrite(file, held);
    }

    /** buffer_putalign. */
    method PutAlign(s: bytes) returns (ok: bool)
      requires Valid()
      modifies this, x, file`log, file`stalls
      ensures Valid()
      ensures ok ==> Stream() == old(Stream()) + s
      ensures old(file.log) <= file.log <= old(Stream()) + s
    {
      var rest := s;
      while |rest| > x.Length - p
        invariant Valid() && Stream() + rest == old(Stream()) + s && old(file.log) <= file.log
        decreases |rest|, p
      {
        var n := x.Length - p;
        Hold(rest[..n]);
        rest := rest[n..];
        ok := Flush();
        if !ok {
          return;
        }
      }
      Hold(rest);
      return true;
    }

    /** buffer_put: large strings bypass the buffer; the effect is the same as buffer_putalign's. */
    method Put(s: bytes) returns (ok: bool)
      requires Valid()
      modifies this, x, file`log, file`stalls
      ensures Valid()
      ensures ok ==> Stream() == old(Stream()) + s
      ensures old(file.log) <= file.log <= old(Stream()) + s
    {
      var rest := s;
      var n := x.Length;
      if |rest| > n - p {
        ok := Flush();
        if !ok {
          return;
        }
        if n < BUFFER_OUTSIZE {
          n := BUFFER_OUTSIZE;
        }
        while |rest| > x.Length
          invariant Valid() && p == 0 && n > 0
          invariant Stream() + rest == old(Stream()) + s && old(file.log) <= file.log
        {
          if n > |rest| {
            n := |rest|;
          }
          ok := AllWrite(file, rest[..n]);
          if !ok {
            return;
          }
          rest := rest[n..];
        }
      }
      Hold(rest);
      return true;
    }

    /** buffer_putflush. */
    method PutFlush(s: bytes) returns (ok: bool)
      requires Valid()
      modifies this, file`log, file`stalls
      ensures Valid() && p == 0
      ensures ok ==> file.log == old(Stream()) + s
      ensures old(file.log) <= file.log <= old(Stream()) + s
    {
      ok := Flush();
      if ok {
        ok := AllWrite(file, s);
      }
    }
  }
}
