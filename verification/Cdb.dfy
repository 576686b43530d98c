/** cdb.c: searching the raw bytes of a mapped database, whatever they are. */
module Cdb {
  import opened Bytes
  import opened CdbFormat

  /** The return values -1, 0 and 1 of cdb_findnext. */
  datatype Outcome = Malformed | Absent | Present

  /** The search fields of struct cdb. */
  datatype Cursor = Cursor(loop: uint32, khash: uint32, kpos: uint32, hpos: uint32, hslots: uint32,
                           dpos: uint32, dlen: uint32)

  /** cdb_read in the mapped case: bytes outside the file are a format error. */
  function ReadAt(file: bytes, len: nat, pos: uint32): (r: Option<bytes>)
    ensures r.Some? ==> |r.value| == len
  {
    if pos > |file| || |file| - pos < len then None else Some(file[pos..pos + len])
  }

  /** match: compares the key with the file 32 bytes at a time; wraps round like the uint32 it is. */
  function MatchAt(file: bytes, key: bytes, pos: uint32): Outcome
    decreases |key|
  {
    if key == [] then Present
    else
      var n := if 32 > |key| then |key| else 32;
      match ReadAt(file, n, pos)
      case None => Malformed
      case Some(buf) => if buf != key[..n] then Absent else MatchAt(file, key[n..], W32(pos + n))
  }

  /** What a probed slot says about the search. */
  datatype Probe = Stop(r: Outcome) | Skip | Hit(dpos: uint32, dlen: uint32)

  /** The part of the search loop that decides about the slot holding (h, pos). */
  function ProbeAt(file: bytes, key: chunk, khash: uint32, h: uint32, pos: uint32): Probe {
    if h != khash then Skip
    else
      match ReadAt(file, 8, pos)
      case None => Stop(Malformed)
      case Some(buf) =>
        if Unpack(buf[..4]) != |key| then Skip
        else
          match MatchAt(file, key, W32(pos + 8))
          case Malformed => Stop(Malformed)
          case Absent => Skip
          case Present => Hit(W32(pos + 8 + |key|), Unpack(buf[4..]))
  }

  /** The cursor after the current slot has been read. */
  function Advance(c: Cursor): Cursor
    requires c.loop < c.hslots
  {
    var kpos := W32(c.kpos + 8);
    c.(loop := c.loop + 1, kpos := if kpos == W32(c.hpos + W32(c.hslots * 8)) then c.hpos else kpos)
  }

  /** The search loop of cdb_findnext. */
  function Search(file: bytes, key: chunk, c: Cursor): (Outcome, Cursor)
    decreases c.hslots - c.loop
  {
    if c.loop >= c.hslots then (Absent, c)
    else
      match ReadAt(file, 8, c.kpos)
      case None => (Malformed, c)
      case Some(buf) =>
        var pos := Unpack(buf[4..]);
        if pos == 0 then (Absent, c)
        else
          match ProbeAt(file, key, c.khash, Unpack(buf[..4]), pos)
          case Stop(r) => (r, Advance(c))
          case Skip => Search(file, key, Advance(c))
          case Hit(dpos, dlen) => (Present, Advance(c).(dpos := dpos, dlen := dlen))
  }

  /** The first call under a key: finds the table in the header. */
  function Begin(file: bytes, key: chunk, c: Cursor): (Outcome, Cursor) {
    var u := HashOf(key);
    match ReadAt(file, 8, W32(u * 8) % 2048)
    case None => (Malformed, c)
    case Some(buf) =>
      var hslots := Unpack(buf[4..]);
      if hslots == 0 then (Absent, c.(hslots := 0))
      else
        var hpos := Unpack(buf[..4]);
        (Present, c.(hslots := hslots, hpos := hpos, khash := u,
                     kpos := W32(hpos + W32(u / 256 % hslots * 8))))
  }

  /** cdb_findnext on the cursor as a value. */
  function Next(file: bytes, key: chunk, c: Cursor): (Outcome, Cursor) {
    if c.loop != 0 then Search(file, key, c)
    else
      var (r, c') := Begin(file, key, c);
      if r == Present then Search(file, key, c') else (r, c')
  }

  /** struct cdb with a map. */
  class Reader {
    const file: bytes
    var loop: uint32
    var khash: uint32
    var kpos: uint32
    var hpos: uint32
    var hslots: uint32
    var dpos: uint32
    var dlen: uint32

    /** cdb_init with a map. */
    constructor (contents: bytes)
      requires |contents| < TWO32
      ensures file == contents && loop == 0
    {
      file, loop := contents, 0;
      khash, kpos, hpos, hslots, dpos, dlen := 0, 0, 0, 0, 0, 0;
    }

    function State(): Cursor
      reads this
    {
      Cursor(loop, khash, kpos, hpos, hslots, dpos, dlen)
    }

    method FindStart()
      modifies `loop
      ensures loop == 0
    {
      loop := 0;
    }

    /** cdb_read: fails exactly if the range leaves the file, otherwise gives the bytes in it. */
    method Read(len: nat, pos: uint32) returns (r: Option<bytes>)
      ensures r == None <==> pos as nat + len > |file|
      ensures r.Some? ==> r.value == file[pos..pos as nat + len]
      ensures r == ReadAt(file, len, pos)
    {
      if pos > |file| || |file| - pos < len {
        return None;
      }
      return Some(file[pos..pos + len]);
    }

    /** match. */
    method Match(key: chunk, pos: uint32) returns (r: Outcome)
      ensures r == MatchAt(file, key, pos)
    {
      var rest: bytes, at: uint32 := key, pos;
      while rest != []
        invariant MatchAt(file, rest, at) == MatchAt(file, key, pos)
        decreases |rest|
      {
        var n := 32;
        if n > |rest| {
          n := |rest|;
        }
        var buf := Read(n, at);
        if buf == None {
          return Malformed;
        }
        if buf.value != rest[..n] {
          return Absent;
        }
        rest, at := rest[n..], W32(at + n);
      }
      return Present;
    }

    /** cdb_findnext. */
    method FindNext(key: chunk) returns (r: Outcome)
      modifies this
      ensures (r, State()) == Next(file, key, old(State()))
    {
      hide Unpack;
      if loop == 0 {
        var u := Hash(key);
        var buf := Read(8, W32(u * 8) % 2048);
        if buf == None {
          return Malformed;
        }
        hslots := Unpack(buf.value[4..]);
        if hslots == 0 {
          return Absent;
        }
        hpos := Unpack(buf.value[..4]);
        khash := u;
        kpos := W32(hpos + W32(u / 256 % hslots * 8));
      }
      r := SearchLoop(key);
    }

    /** The loop of cdb_findnext. */
    method SearchLoop(key: chunk) returns (r: Outcome)
      modifies this
      ensures (r, State()) == Search(file, key, old(State()))
    {
      hide Unpack, MatchAt, ReadAt;
      while loop < hslots
        invariant Search(file, key, State()) == Search(file, key, old(State()))
        decreases hslots - loop
      {
        var slot := Read(8, kpos);
        if slot == None {
          return Malformed;
        }
        var pos := Unpack(slot.value[4..]);
        if pos == 0 {
          return Absent;
        }
        ghost var before := State();
        loop := loop + 1;
        kpos := W32(kpos + 8);
        if kpos == W32(hpos + W32(hslots * 8)) {
          kpos := hpos;
        }
        assert State() == Advance(before);
        if Unpack(slot.value[..4]) == khash {
          var buf := Read(8, pos);
          if buf == None {
            return Malformed;
          }
          if Unpack(buf.value[..4]) == |key| {
            var m := Match(key, W32(pos + 8));
            if m == Malformed {
              return Malformed;
            }
            if m == Present {
              dlen := Unpack(buf.value[4..]);
              dpos := W32(pos + 8 + |key|);
              return Present;
            }
          }
        }
      }
      return Absent;
    }

    /** cdb_find. */
    method Find(key: chunk) returns (r: Outcome)
      modifies this
      ensures (r, State()) == Next(file, key, old(State()).(loop := 0))
    {
      FindStart();
      r := FindNext(key);
    }
  }
}
