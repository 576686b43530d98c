/** buffer_get.c: buffered input over a reader that delivers the data in pieces of its own choosing. */
module InBuffer {
  import opened Bytes

  /** Where the bytes come from: what is still to be read, in an order the reader cannot change. */
  class Source {
    var pending: bytes
    // How many more reads will be interrupted by a signal: any number, but finite.
    var stalls: nat

    constructor (data: bytes, stalls: nat)
      ensures pending == data
    {
      pending := data;
      this.stalls := stalls;
    }

    /** read(2): between one and len bytes, none at the end of the data, or a failure. */
    method Read(len: nat) returns (r: int, data: bytes, interrupted: bool)
      requires len > 0
      modifies this
      ensures -1 <= r <= len && |data| == (if r < 0 then 0 else r)
      ensures old(pending) == data + pending
      ensures r == 0 ==> pending == []
      ensures stalls <= old(stalls) && (r == -1 && interrupted ==> stalls < old(stalls))
    {
      r, interrupted :| -1 <= r <= len && r <= |pending| && (r == 0 ==> pending == [])
                        && (r == -1 && interrupted ==> stalls > 0);
      if r == -1 {
        data := [];
        if interrupted {
          stalls := stalls - 1;
        }
      } else {
        data, pending := pending[..r], pending[r..];
      }
    }
  }

  /** struct buffer used for input: the bytes x[n..n + p] have been read but not yet taken. */
  class InBuffer {
    const source: Source
    const x: array<byte>
    var p: nat
    var n: nat

    constructor (source: Source, size: nat)
      requires size > 0
      ensures Valid() && fresh(x) && this.source == source && x.Length == size
      ensures Rest() == source.pending
    {
      this.source := source;
      x := new byte[size];
      p, n := 0, size;
    }

    ghost predicate Valid()
      reads this
    {
      p + n == x.Length && x.Length > 0
    }

    /** All the bytes still to come: those held and those not yet read. */
    ghost function Rest(): bytes
      requires Valid()
      reads this, x, source
    {
      x[n..] + source.pending
    }

    /** oneread. */
    method OneRead(len: nat) returns (r: int, data: bytes)
      requires len > 0
      modifies source
      ensures -1 <= r <= len && |data| == (if r < 0 then 0 else r)
      ensures old(source.pending) == data + source.pending
      ensures r == 0 ==> source.pending == []
    {
      while true
        invariant source.pending == old(source.pending)
        decreases source.stalls
      {
        var interrupted;
        r, data, interrupted := source.Read(len);
        if r == -1 && interrupted {
          continue;
        }
        return;
      }
    }

    /** getthis. */
    method GetThis(len0: nat) returns (r: nat, data: bytes)
      requires Valid()
      modifies `p, `n
      ensures Valid() && r == (if len0 > old(p) then old(p) else len0) == |data|
      ensures old(Rest()) == data + Rest()
    {
      var len := if len0 > p then p else len0;
      p := p - len;
      data := x[n..n + len];
      n := n + len;
      return len, data;
    }

    /** buffer_feed: afterwards something is held, or there was a failure, or no byte is left. */
    method Feed() returns (r: int)
      requires Valid()
      modifies this, x, source
      ensures Valid() && Rest() == old(Rest())
      ensures r >= 0 ==> r == p && (r == 0 ==> Rest() == [])
      ensures r < 0 ==> p == 0
    {
      if p > 0 {
        return p;
      }
      var data;
      r, data := OneRead(n);
      if r <= 0 {
        return;
      }
      Store(data);
      p := r;
      n := n - r;
      if n > 0 {
        ShiftRight(n, r, data);
      }
    }

    /** What the read has done to the front of the buffer. */
    method Store(data: bytes)
      requires |data| <= x.Length
      modifies x
      ensures x[..|data|] == data
    {
      for i := 0 to |data|
        invariant x[..i] == data[..i]
      {
        x[i] := data[i];
        assert x[..i + 1] == x[..i] + [data[i]];
      }
    }

    /** byte_copyr: moves the first len bytes to the right, last byte first, as the parts may overlap. */
    method ShiftRight(to: nat, len: nat, ghost data: bytes)
      requires to + len == x.Length && x[..len] == data && |data| == len
      modifies x
      ensures x[to..] == data
    {
      var i: nat := len;
      while i > 0
        invariant i <= len && x[..i] == data[..i] && x[to + i..] == data[i..]
      {
        i := i - 1;
        assert x[..i + 1][i] == data[i];
        ghost var kept := x[to + i + 1..];
        x[to + i] := x[i];
        assert x[to + i..] == [data[i]] + kept;
        assert x[..i] == data[..i] by {
          assert to + i >= i;
        }
      }
    }

    /** buffer_get: takes up to len of the bytes to come, in order; none only if len is 0 or no byte is left. */
    method Get(len: nat) returns (r: int, data: bytes)
      requires Valid()
      modifies this, x, source
      ensures Valid() && old(Rest()) == data + Rest()
      ensures r <= len && |data| == (if r < 0 then 0 else r)
      ensures r == 0 ==> len == 0 || Rest() == []
      ensures old(p) > 0 ==> r == if len > old(p) then old(p) else len
    {
      if p > 0 {
        r, data := GetThis(len);
        return;
      }
      if n <= len {
        r, data := OneRead(len);
        return;
      }
      r := Feed();
      if r <= 0 {
        return r, [];
      }
      r, data := GetThis(len);
    }

    /** buffer_bget: the same, but it never asks the reader for more than a buffer full. */
    method BGet(len: nat) returns (r: int, data: bytes)
      requires Valid()
      modifies this, x, source
      ensures Valid() && old(Rest()) == data + Rest()
      ensures r <= len && |data| == (if r < 0 then 0 else r)
      ensures r == 0 ==> len == 0 || Rest() == []
    {
      if p > 0 {
        r, data := GetThis(len);
        return;
      }
      if n <= len {
        r, data := OneRead(n);
        return;
      }
      r := Feed();
      if r <= 0 {
        return r, [];
      }
      r, data := GetThis(len);
    }

    /** buffer_PEEK: where the held bytes begin, and those bytes. */
    method Peek() returns (at: nat, held: bytes)
      requires Valid()
      ensures at == n && at + p == x.Length && held == x[at..at + p]
      ensures |held| == p && held <= Rest()
    {
      at, held := n, x[n..n + p];
      assert held == x[n..];
    }

    /** buffer_seek: drops bytes that are held. */
    method Seek(len: nat)
      requires Valid() && len <= p
      modifies `p, `n
      ensures Valid() && Rest() == old(Rest())[len..]
      ensures n == old(n) + len
    {
      n := n + len;
      p := p - len;
    }
  }
}
