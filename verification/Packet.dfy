/** dns_packet.c: reading bytes and possibly compressed names from a packet (section 4.1.4 of RFC 1035). */
module Packet {
  import opened Bytes
  import opened Domain

  const MAXNAME := 255
  const MAXLOOP := 1000

  /** dns_packet_copy: the position after the bytes copied, or 0 when the packet is too short. */
  function CopyEnd(buf: bytes, pos: nat, outlen: nat): nat {
    if outlen == 0 || pos + outlen <= |buf| then pos + outlen else 0
  }

  method Copy(buf: bytes, pos: nat, outlen: nat) returns (next: nat, out: bytes)
    ensures next == CopyEnd(buf, pos, outlen)
    ensures outlen > 0 && next != 0 ==> out == buf[pos..pos + outlen]
    ensures outlen == 0 ==> out == []
  {
    next, out := pos, [];
    var left := outlen;
    while left > 0
      invariant 0 <= left <= outlen && next == pos + outlen - left
      invariant next > pos ==> next <= |buf|
      invariant out == if next == pos then [] else buf[pos..next]
    {
      if next >= |buf| {
        return 0, [];
      }
      out := out + [buf[next]];
      next := next + 1;
      left := left - 1;
    }
  }

  /** dns_packet_skipname: the position after the name at pos, or 0. */
  function SkipFrom(buf: bytes, pos: nat): nat
    decreases |buf| - pos
  {
    if pos >= |buf| then 0
    else
      var ch := buf[pos] as nat;
      if ch >= 192 then pos + 2
      else if ch >= 64 then 0
      else if ch == 0 then pos + 1
      else SkipFrom(buf, pos + 1 + ch)
  }

  method SkipName(buf: bytes, pos: nat) returns (next: nat)
    ensures next == SkipFrom(buf, pos)
  {
    next := pos;
    while true
      invariant SkipFrom(buf, next) == SkipFrom(buf, pos)
      decreases |buf| - next
    {
      if next >= |buf| {
        break;
      }
      var ch := buf[next] as nat;
      next := next + 1;
      if ch >= 192 {
        return next + 1;
      }
      if ch >= 64 {
        break;
      }
      if ch == 0 {
        return;
      }
      next := next + ch;
    }
    return 0;
  }

  /** Where a chain of compression pointers leads: the first byte that is not one. */
  datatype Jump = Bad | At(ch: byte, pos: nat, loop: nat, first: nat)

  /** The inner loop of dns_packet_getname, entered with `ch` just read. */
  function Follow(buf: bytes, ch: byte, pos: nat, loop: nat, first: nat): (j: Jump)
    requires loop < MAXLOOP
    ensures j.At? ==> j.ch < 192 && loop <= j.loop < MAXLOOP
    decreases MAXLOOP - loop
  {
    if ch < 192 then At(ch, pos, loop, first)
    else if pos >= |buf| then Bad
    else
      var first' := if first == 0 then pos + 1 else first;
      var target := (ch - 192) as nat * 256 + buf[pos];
      if target >= |buf| || loop + 1 >= MAXLOOP then Bad
      else Follow(buf, buf[target], target + 1, loop + 1, first')
  }

  /** dns_packet_getname from the middle: `state` bytes of a label are still to be copied. */
  function GetFrom(buf: bytes, pos: nat, loop: nat, state: nat, first: nat, name: bytes): Option<(bytes, nat)>
    decreases MAXLOOP - loop
  {
    if pos >= |buf| || loop + 1 >= MAXLOOP then None
    else if state > 0 then
      if |name| + 1 > MAXNAME then None
      else GetFrom(buf, pos + 1, loop + 1, state - 1, first, name + [buf[pos]])
    else
      match Follow(buf, buf[pos], pos + 1, loop + 1, first)
      case Bad => None
      case At(ch, pos', loop', first') =>
        if ch >= 64 || |name| + 1 > MAXNAME then None
        else if ch == 0 then Some((name + [ch], if first' != 0 then first' else pos'))
        else GetFrom(buf, pos', loop', ch, first', name + [ch])
  }

  /** The name at pos and the position after it. */
  function NameAt(buf: bytes, pos: nat): Option<(bytes, nat)> {
    GetFrom(buf, pos, 0, 0, 0, [])
  }

  /** dns_packet_getname. */
  method GetName(buf: bytes, start: nat) returns (r: Option<(bytes, nat)>)
    ensures r == NameAt(buf, start)
  {
    var loop, state, firstcompress, pos := 0, 0, 0, start;
    var name: bytes := [];
    while true
      invariant 0 <= loop < MAXLOOP && 0 <= state && 0 <= pos && 0 <= firstcompress
      invariant GetFrom(buf, pos, loop, state, firstcompress, name) == NameAt(buf, start)
      decreases MAXLOOP - loop
    {
      if pos >= |buf| {
        return None;
      }
      var ch := buf[pos];
      pos := pos + 1;
      loop := loop + 1;
      if loop >= MAXLOOP {
        return None;
      }
      if state > 0 {
        if |name| + 1 > MAXNAME {
          return None;
        }
        name := name + [ch];
        state := state - 1;
      } else {
        ghost var jump := Follow(buf, ch, pos, loop, firstcompress);
        while ch >= 192
          invariant 0 <= loop < MAXLOOP && 0 <= pos && 0 <= firstcompress
          invariant Follow(buf, ch, pos, loop, firstcompress) == jump
          decreases MAXLOOP - loop
        {
          var where := (ch - 192) as nat * 256;
          if pos >= |buf| {
            return None;
          }
          var low := buf[pos];
          pos := pos + 1;
          if firstcompress == 0 {
            firstcompress := pos;
          }
          pos := where + low;
          if pos >= |buf| {
            return None;
          }
          ch := buf[pos];
          pos := pos + 1;
          loop := loop + 1;
          if loop >= MAXLOOP {
            return None;
          }
        }
        if ch >= 64 {
          return None;
        }
        if |name| + 1 > MAXNAME {
          return None;
        }
        name := name + [ch];
        if ch == 0 {
          return Some((name, if firstcompress != 0 then firstcompress else pos));
        }
        state := ch;
      }
    }
  }

  // --- getname and skipname agree -----------------------------------------------------------------

  lemma FollowKeepsFirst(buf: bytes, ch: byte, pos: nat, loop: nat, first: nat)
    requires loop < MAXLOOP && first != 0
    ensures var j := Follow(buf, ch, pos, loop, first); j.At? ==> j.first == first
    decreases MAXLOOP - loop
  {
  }

  lemma {:induction false} FirstStays(buf: bytes, pos: nat, loop: nat, state: nat, first: nat, name: bytes)
    requires first != 0
    ensures var r := GetFrom(buf, pos, loop, state, first, name); r.Some? ==> r.value.1 == first
    decreases MAXLOOP - loop
  {
    hide Follow;
    if pos < |buf| && loop + 1 < MAXLOOP {
      if state > 0 {
        FirstStays(buf, pos + 1, loop + 1, state - 1, first, name + [buf[pos]]);
      } else {
        FollowKeepsFirst(buf, buf[pos], pos + 1, loop + 1, first);
        var j := Follow(buf, buf[pos], pos + 1, loop + 1, first);
        if j.At? && j.ch != 0 {
          FirstStays(buf, j.pos, j.loop, j.ch, first, name + [j.ch]);
        }
      }
    }
  }

  /** Before any pointer, the position getname reports is the one skipname finds by skipping whole labels. */
  lemma {:induction false} GetSkips(buf: bytes, pos: nat, loop: nat, state: nat, name: bytes)
    ensures var r := GetFrom(buf, pos, loop, state, 0, name);
            r.Some? ==> r.value.1 == SkipFrom(buf, pos + state) != 0
    decreases MAXLOOP - loop
  {
    hide Follow;
    if pos < |buf| && loop + 1 < MAXLOOP {
      if state > 0 {
        GetSkips(buf, pos + 1, loop + 1, state - 1, name + [buf[pos]]);
      } else if buf[pos] < 192 {
        FollowPlain(buf, buf[pos], pos + 1, loop + 1, 0);
        if 0 < buf[pos] < 64 {
          GetSkips(buf, pos + 1, loop + 1, buf[pos], name + [buf[pos]]);
        }
      } else {
        FollowSetsFirst(buf, buf[pos], pos + 1, loop + 1);
        var j := Follow(buf, buf[pos], pos + 1, loop + 1, 0);
        if j.At? && j.ch != 0 {
          FirstStays(buf, j.pos, j.loop, j.ch, j.first, name + [j.ch]);
        }
      }
    }
  }

  lemma FollowPlain(buf: bytes, ch: byte, pos: nat, loop: nat, first: nat)
    requires loop < MAXLOOP && ch < 192
    ensures Follow(buf, ch, pos, loop, first) == At(ch, pos, loop, first)
  {
  }

  lemma FollowSetsFirst(buf: bytes, ch: byte, pos: nat, loop: nat)
    requires loop < MAXLOOP && ch >= 192
    ensures var j := Follow(buf, ch, pos, loop, 0); j.At? ==> j.first == pos + 1
  {
    if pos < |buf| {
      var target := (ch - 192) as nat * 256 + buf[pos];
      if target < |buf| && loop + 1 < MAXLOOP {
        FollowKeepsFirst(buf, buf[target], target + 1, loop + 1, pos + 1);
      }
    }
  }

  /** The packet is n pointers, each to the next one, and then the root. */
  predicate PointerChain(buf: bytes, n: nat) {
    && |buf| == 2 * n + 1 && buf[2 * n] == 0
    && forall i :: 0 <= i < n ==> Points(buf, 2 * i, 2 * i + 2)
  }

  predicate Points(buf: bytes, p: nat, target: nat) {
    p + 1 < |buf| && buf[p] >= 192 && (buf[p] - 192) as nat * 256 + buf[p + 1] == target
  }

  lemma {:induction false} ChainFollowed(buf: bytes, n: nat, i: nat, loop: nat, first: nat)
    requires PointerChain(buf, n) && i <= n && loop < MAXLOOP
    ensures Follow(buf, buf[2 * i], 2 * i + 1, loop, first)
         == if loop + (n - i) < 1000 then
              At(0, 2 * n + 1, loop + (n - i), if first != 0 || i == n then first else 2 * i + 2)
            else Bad
    decreases n - i
  {
    if i < n {
      assert Points(buf, 2 * i, 2 * i + 2);
      if loop + 1 < MAXLOOP {
        ChainFollowed(buf, n, i + 1, loop + 1, if first == 0 then 2 * i + 2 else first);
      }
    }
  }

  /** Pointers may lead to pointers, but a name behind more than 998 of them cannot be read. */
  lemma ChainLimit(buf: bytes, n: nat)
    requires PointerChain(buf, n)
    ensures NameAt(buf, 0) == if n <= 998 then Some(([0], if n == 0 then 1 else 2)) else None
  {
    hide Follow;
    ChainFollowed(buf, n, 0, 1, 0);
    assert [] + [0 as byte] == [0];
  }

  /** Wherever dns_packet_getname succeeds, dns_packet_skipname returns the same next position. */
  lemma GetNameSkipName(buf: bytes, pos: nat)
    requires NameAt(buf, pos).Some?
    ensures SkipFrom(buf, pos) == NameAt(buf, pos).value.1 != 0
  {
    GetSkips(buf, pos, 0, 0, []);
  }

  // --- what getname returns is a name ------------------------------------------------------------

  /** The beginning of a name: whole labels, the last of which may still lack `state` bytes. */
  predicate Begun(name: bytes, state: nat)
    decreases |name|
  {
    if name == [] then state == 0
    else
      var n := name[0] as nat + 1;
      0 < name[0] < 64 && if |name| < n then |name| + state == n else Begun(name[n..], state)
  }

  lemma {:induction false} BegunMore(name: bytes, state: nat, ch: byte)
    requires Begun(name, state) && state > 0
    ensures Begun(name + [ch], state - 1)
    decreases |name|
  {
    var n := name[0] as nat + 1;
    if |name| >= n {
      BegunMore(name[n..], state, ch);
      assert (name + [ch])[n..] == name[n..] + [ch];
    } else if state == 1 {
      assert (name + [ch])[n..] == [];
    }
  }

  lemma {:induction false} BegunLabel(name: bytes, ch: byte)
    requires Begun(name, 0) && ch < 64
    ensures if ch == 0 then IsName(name + [ch]) else Begun(name + [ch], ch)
    decreases |name|
  {
    if name != [] {
      var n := name[0] as nat + 1;
      BegunLabel(name[n..], ch);
      assert (name + [ch])[n..] == name[n..] + [ch];
    }
  }

  lemma {:induction false} GetFromIsName(buf: bytes, pos: nat, loop: nat, state: nat, first: nat, name: bytes)
    requires Begun(name, state)
    ensures var r := GetFrom(buf, pos, loop, state, first, name);
            r.Some? ==> IsName(r.value.0) && |r.value.0| <= MAXNAME
    decreases MAXLOOP - loop
  {
    hide Follow, Begun, IsName;
    if pos < |buf| && loop + 1 < MAXLOOP {
      if state > 0 {
        BegunMore(name, state, buf[pos]);
        GetFromIsName(buf, pos + 1, loop + 1, state - 1, first, name + [buf[pos]]);
      } else {
        var j := Follow(buf, buf[pos], pos + 1, loop + 1, first);
        if j.At? && j.ch < 64 {
          BegunLabel(name, j.ch);
          if j.ch != 0 {
            GetFromIsName(buf, j.pos, j.loop, j.ch, j.first, name + [j.ch]);
          }
        }
      }
    }
  }

  /** On any packet whatever, a success of getname yields a well-formed name of at most 255 bytes. */
  lemma NameAtIsName(buf: bytes, pos: nat)
    requires NameAt(buf, pos).Some?
    ensures IsName(NameAt(buf, pos).value.0) && |NameAt(buf, pos).value.0| <= MAXNAME
  {
    GetFromIsName(buf, pos, 0, 0, 0, []);
  }

  // --- names written out in full ------------------------------------------------------------------

  lemma {:induction false} CopyLabel(buf: bytes, p: nat, loop: nat, n: nat, first: nat, name: bytes)
    requires p + n <= |buf| && loop + n < MAXLOOP - 1 && |name| + n <= MAXNAME
    ensures GetFrom(buf, p, loop, n, first, name) == GetFrom(buf, p + n, loop + n, 0, first, name + buf[p..p + n])
    decreases n
  {
    hide Follow;
    if n == 0 {
      assert name + buf[p..p] == name;
    } else {
      CopyLabel(buf, p + 1, loop + 1, n - 1, first, name + [buf[p]]);
      assert name + [buf[p]] + buf[p + 1..p + n] == name + buf[p..p + n];
    }
  }

  /** A name written out in full reads back as it is. */
  lemma {:induction false} PlainReads(buf: bytes, p: nat, d: bytes, loop: nat, name: bytes)
    requires IsName(d) && p + |d| <= |buf| && buf[p..p + |d|] == d
    requires |name| + |d| <= MAXNAME && loop + |d| < MAXLOOP
    ensures GetFrom(buf, p, loop, 0, 0, name) == Some((name + d, p + |d|))
    decreases |d|
  {
    hide Follow, GetFrom;
    var n := d[0] as nat;
    assert buf[p] == buf[p..p + |d|][0] == d[0];
    PlainFirst(buf, p, loop, name);
    if n == 0 {
      assert d == [0];
    } else {
      var q, lab := p + 1 + n, d[..n + 1];
      CopyLabel(buf, p + 1, loop + 1, n, 0, name + [buf[p]]);
      LabelHere(buf, p, d);
      assert name + [buf[p]] + buf[p + 1..q] == name + lab;
      PlainReads(buf, q, Parent(d), loop + 1 + n, name + lab);
      assert name + lab + Parent(d) == name + d;
    }
  }

  lemma LabelHere(buf: bytes, p: nat, d: bytes)
    requires d != [] && d[0] + 1 <= |d| && p + |d| <= |buf| && buf[p..p + |d|] == d
    ensures var q := p + d[0] as nat + 1;
            [buf[p]] + buf[p + 1..q] == d[..d[0] + 1] && buf[q..q + |Parent(d)|] == Parent(d)
  {
    var q, all := p + d[0] as nat + 1, buf[p..p + |d|];
    assert buf[q..q + |Parent(d)|] == all[d[0] + 1..];
    assert [buf[p]] + buf[p + 1..q] == buf[p..q] == all[..d[0] + 1];
  }

  /** Reading the first byte of a label. */
  lemma PlainFirst(buf: bytes, p: nat, loop: nat, name: bytes)
    requires p < |buf| && buf[p] < 64 && |name| < MAXNAME && loop + 1 < MAXLOOP
    ensures GetFrom(buf, p, loop, 0, 0, name)
         == if buf[p] == 0 then Some((name + [0], p + 1))
            else GetFrom(buf, p + 1, loop + 1, buf[p] as nat, 0, name + [buf[p]])
  {
    FollowPlain(buf, buf[p], p + 1, loop + 1, 0);
  }

  lemma PlainName(buf: bytes, p: nat, d: bytes)
    requires IsName(d) && |d| <= MAXNAME && p + |d| <= |buf| && buf[p..p + |d|] == d
    ensures NameAt(buf, p) == Some((d, p + |d|))
  {
    PlainReads(buf, p, d, 0, []);
    assert [] + d == d;
  }
}
