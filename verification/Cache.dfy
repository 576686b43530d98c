/** cache.c: cache_init, cache_get and cache_set on the byte array. */
module Cache {
  import opened Bytes
  import opened CdbFormat
  import opened CacheRing
  import opened CacheChains
  import opened CacheMemory

  // --- reading entries and following links --------------------------------------------------------

  /** The fields of an entry, read from the memory. */
  lemma BodyReads(x: bytes, e: Entry)
    requires BodyOk(x, e) && |x| < TWO32
    ensures Link(x, e.pos + 4) == |e.key| && Link(x, e.pos + 8) == |e.data|
    ensures x[e.pos + 12..e.pos + 20] == PackTai(e.expire)
    ensures x[e.pos + 20..e.pos + 20 + |e.key|] == e.key
    ensures x[e.pos + 20 + |e.key|..e.pos + EntryLen(e)] == e.data
  {
    hide Pack, Unpack, PackTai;
    var k, d, t := Pack(|e.key|), Pack(|e.data|), PackTai(e.expire);
    Halves(x, e.pos + 4, k + d + t + e.key, e.data);
    Halves(x, e.pos + 4, k + d + t, e.key);
    Halves(x, e.pos + 4, k + d, t);
    Halves(x, e.pos + 4, k, d);
    UnpackPack(|e.key|);
    UnpackPack(|e.data|);
  }

  /** Following a chain: combining a link with the item before gives the item after. */
  lemma NextItem(x: bytes, es: seq<Entry>, hsize: nat, k: nat)
    requires Consistent(x, es, hsize) && k < |es|
    ensures Xor(Up(es, hsize, k), Link(x, es[k].pos)) == Down(es, hsize, k)
  {
    hide Xor, Up, Down, Link, BodyOk, HeadOk;
    assert LinkOk(x, es, hsize, k);
    XorCancel(Up(es, hsize, k), Down(es, hsize, k));
  }

  /** The item before the next older entry is the entry just left. */
  lemma UpOfNext(es: seq<Entry>, hsize: nat, k: nat)
    requires HashSize(hsize) && k < |es|
    ensures var j := NewestIx(es, hsize, BucketPos(es[k].key, hsize), k);
            j >= 0 ==> Up(es, hsize, j) == es[k].pos
  {
    hide BucketPos, NewestIx, NearestIx;
    var b := BucketPos(es[k].key, hsize);
    assert InBucket(es[k], hsize, b);
    var j := NewestIx(es, hsize, b, k);
    if j >= 0 {
      assert InBucket(es[j], hsize, b);
      NearestIxIs(es, hsize, b, j + 1, k);
    }
  }

  lemma UnlinkedOldestBody(x: bytes, es: seq<Entry>, hsize: nat)
    requires Consistent(x, es, hsize) && es != []
    ensures BodyOk(Unlinked(x, es, hsize), es[0])
  {
    hide BucketPos, Xor, NearestIx, NewestIx, Link, Pack, Put, EntryBody;
    OldestLink(x, es, hsize);
    assert BodyOk(x, es[0]);
    var p := Up(es, hsize, 0);
    XorWord(Link(x, p), es[0].pos);
    BucketIsHead(es[0].key, hsize);
    var k := NearestIx(es, hsize, BucketPos(es[0].key, hsize), 1);
    if k < |es| {
      assert Apart(es[0], es[k]);
    }
    PutKeepsBody(x, p, Pack(Xor(Link(x, p), es[0].pos)), es[0]);
  }

  lemma ZeroLink(x: bytes, b: nat)
    requires b + 4 <= |x| && forall i :: 0 <= i < |x| ==> x[i] == 0
    ensures Link(x, b) == 0
  {
    assert x[b..b + 4] == [0, 0, 0, 0];
  }

  /** Freshly zeroed memory is consistent with having no entries. */
  lemma ZerosConsistent(x: bytes, hsize: nat)
    requires HashSize(hsize) && hsize <= |x| < TWO32
    requires forall i :: 0 <= i < |x| ==> x[i] == 0
    ensures Consistent(x, [], hsize)
  {
    hide Link;
    forall b: nat | IsHead(hsize, b)
      ensures HeadOk(x, [], hsize, b)
    {
      ZeroLink(x, b);
    }
  }

  function Bump(motion: uint64, n: nat): uint64 {
    (motion + n) % TWO64
  }

  lemma SuffixTail<T>(t: seq<T>, s: seq<T>)
    requires IsSuffix(t, s) && t != []
    ensures IsSuffix(t[1..], s)
  {
  }

  lemma SuffixGrows<T>(t: seq<T>, s: seq<T>, e: T)
    requires IsSuffix(t, s)
    ensures IsSuffix(t + [e], s + [e])
  {
  }

  /** The free space between writer and oldest is clear of every resident entry. */
  lemma NewcomerLaid(r: Ring, e: Entry, hsize: nat, size: nat)
    requires RingOk(r, hsize, size) && e.pos == r.writer && r.writer + EntryLen(e) <= r.oldest
    ensures Laid(Resident(r) + [e], hsize, size)
  {
    RingLaid(r, hsize, size);
    var es := Resident(r);
    forall i, j | 0 <= i < j < |es + [e]|
      ensures Apart((es + [e])[i], (es + [e])[j])
    {
      if j < |es| {
        assert Apart(es[i], es[j]);
      }
    }
  }

  /** The static variables of cache.c. */
  class State {
    var x: array?<byte>
    var size: uint32
    var hsize: uint32
    var writer: uint32
    var oldest: uint32
    var unused: uint32
    var motion: uint64
    ghost var ring: Ring
    ghost var history: seq<Entry>

    constructor ()
      ensures Valid() && x == null && history == []
    {
      x := null;
      size, hsize, writer, oldest, unused, motion := 0, 0, 0, 0, 0, 0;
      ring, history := Ring([], [], 0, 0, 0), [];
    }

    ghost predicate Shape()
      reads this, x
    {
      && x != null && x.Length == size && 100 <= size <= 1000000000
      && HashSize(hsize) && hsize <= size / 16
      && ring.writer == writer && ring.oldest == oldest && ring.unused == unused
      && RingOk(ring, hsize, size)
    }

    /** The comment at the top of cache.c, and that the residents are the most recent accepted sets. */
    ghost predicate Valid()
      reads this, x
    {
      x != null ==>
        && Shape()
        && (exists k :: hsize == Pow2(k))
        && Consistent(x[..], Resident(ring), hsize)
        && IsSuffix(Resident(ring), history)
    }

    /** get4; the position is never impossible. */
    method Get4(pos: nat) returns (u: uint32)
      requires x != null && x.Length == size && pos + 4 <= size
      ensures u == Link(x[..], pos)
    {
      if pos > size - 4 {
        assert false;
      }
      u := Unpack(x[pos..pos + 4]);
      assert x[pos..pos + 4] == x[..][pos..pos + 4];
    }

    /** Copies bytes into the array. */
    method Store(pos: nat, s: bytes)
      requires x != null && pos + |s| <= x.Length
      modifies x
      ensures x[..] == Put(old(x[..]), pos, s)
    {
      for i := 0 to |s|
        invariant x[..pos] == old(x[..pos]) && x[pos..pos + i] == s[..i]
        invariant x[pos + |s|..] == old(x[pos + |s|..])
      {
        x[pos + i] := s[i];
        assert x[pos..pos + i + 1] == x[pos..pos + i] + [s[i]];
      }
      assert x[..] == x[..pos] + x[pos..pos + |s|] + x[pos + |s|..];
    }

    /** set4; the position is never impossible. */
    method Set4(pos: nat, u: nat)
      requires x != null && x.Length == size && pos + 4 <= size && u < TWO32
      modifies x
      ensures x[..] == Put(old(x[..]), pos, Pack(u))
    {
      if pos > size - 4 {
        assert false;
      }
      Store(pos, Pack(u));
    }

    method Bucket(key: bytes) returns (b: uint32)
      requires HashSize(hsize)
      ensures b == BucketPos(key, hsize)
    {
      hide And;
      var h := Hash(key);
      h := W32(h as int * 4);
      AndWithin(h, hsize - 4);
      b := And(h, hsize - 4);
    }

    /** cache_init. */
    method Init(cachesize: uint32) returns (ok: bool)
      modifies this
      ensures Valid() && (ok <==> x != null)
      ensures ok ==> fresh(x) && history == [] && Resident(ring) == []
      ensures ok ==> size == if cachesize > 1000000000 then 1000000000 else if cachesize < 100 then 100 else cachesize
    {
      x := null;
      size := cachesize;
      if size > 1000000000 {
        size := 1000000000;
      }
      if size < 100 {
        size := 100;
      }
      hsize := 4;
      ghost var k: nat := 2;
      assert Pow2(2) == 4;
      while hsize <= size / 32
        invariant HashSize(hsize) && hsize <= size / 16 && hsize == Pow2(k) && 100 <= size <= 1000000000
        invariant x == null
        invariant size == if cachesize > 1000000000 then 1000000000 else if cachesize < 100 then 100 else cachesize
        decreases size - hsize
      {
        hsize := hsize * 2;
        k := k + 1;
      }
      var gotMemory: bool := *;
      if !gotMemory {
        return false;
      }
      x := new byte[size](_ => 0);
      writer, oldest, unused := hsize, size, size;
      ring, history := EmptyRing(hsize, size), [];
      ZerosConsistent(x[..], hsize);
      return true;
    }

    /** Whether the entry at pos is under the key: lengths first, then the bytes. */
    method KeyIs(pos: nat, key: bytes, ghost e: Entry) returns (same: bool)
      requires Shape() && e.pos == pos && BodyOk(x[..], e)
      ensures same <==> e.key == key
    {
      hide Link, EntryBody;
      BodyReads(x[..], e);
      var keylen := Get4(pos + 4);
      if keylen != |key| {
        return false;
      }
      assert x[pos + 20..pos + 20 + keylen] == x[..][pos + 20..pos + 20 + keylen];
      return x[pos + 20..pos + 20 + keylen] == key;
    }

    /** The position of the next older entry in the chain: the link, without the position come from. */
    method NextPos(prevpos: nat, pos: nat, ghost k: nat) returns (nextpos: nat)
      requires Shape() && Consistent(x[..], Resident(ring), hsize) && k < |Resident(ring)|
      requires pos == Resident(ring)[k].pos && prevpos == Up(Resident(ring), hsize, k)
      ensures var es := Resident(ring);
              var j := NewestIx(es, hsize, BucketPos(es[k].key, hsize), k);
              && nextpos == PosDown(es, j) && (nextpos == 0 <==> j < 0)
              && (j >= 0 ==> Up(es, hsize, j) == pos)
    {
      hide Xor, BucketPos, NewestIx, NearestIx, Up, Down, Link, EntryBody, Tiles, HeadOk, LinkOk, Laid;
      ghost var es := Resident(ring);
      assert BodyOk(x[..], es[k]);
      NextItem(x[..], es, hsize, k);
      UpOfNext(es, hsize, k);
      DownOf(es, hsize, k);
      PositionPositive(x[..], es, hsize, NewestIx(es, hsize, BucketPos(es[k].key, hsize), k));
      var link := Get4(pos);
      nextpos := Xor(prevpos, link);
    }

    /** The search loop of cache_get: the entry it stops at, or 0. */
    method FindEntry(key: bytes) returns (pos: nat)
      requires Valid() && x != null
      ensures match Visible(Resident(ring), hsize, key)
              case None => pos == 0
              case Some(e) => e.pos == pos != 0 && e.key == key && BodyOk(x[..], e)
    {
      hide Xor, BucketPos, NewestIx, NearestIx, Up, Down, Link, HeadLink, Scan, Tiles, Visible,
        HeadOk, LinkOk, BodyOk, Laid, Pow2, IsSuffix;
      ghost var es, b := Resident(ring), BucketPos(key, hsize);
      var prevpos: nat := Bucket(key);
      BucketIsHead(key, hsize);
      NewestItem(x[..], es, hsize, b);
      pos := Get4(prevpos);
      var loop := 0;
      ghost var k := NewestIx(es, hsize, b, |es|);
      ScanIsVisible(es, hsize, key);
      if k >= 0 {
        NewestHasHeadAbove(es, hsize, b);
      }
      while pos != 0
        invariant -1 <= k < |es| && pos == PosDown(es, k) && (pos == 0 <==> k < 0)
        invariant k >= 0 ==> InBucket(es[k], hsize, b) && prevpos == Up(es, hsize, k)
        invariant loop < MAXCHAIN && Scan(es, hsize, key, k, MAXCHAIN - loop) == Visible(es, hsize, key)
        decreases k
      {
        ScanStep(es, hsize, key, k, MAXCHAIN - loop);
        var same := KeyIs(pos, key, es[k]);
        if same {
          return;
        }
        var nextpos := NextPos(prevpos, pos, k);
        prevpos := pos;
        pos := nextpos;
        k := NewestIx(es, hsize, b, k);
        loop := loop + 1;
        if loop > 100 {
          ScanGivesUp(es, hsize, key, k);
          return 0;
        }
      }
      ScanEnds(es, hsize, key, MAXCHAIN - loop);
      return 0;
    }

    /** Takes the oldest entry's position out of the link of its newer neighbour. */
    method UnlinkOldest()
      requires Shape() && Consistent(x[..], Resident(ring), hsize) && ring.older != []
      modifies x
      ensures x[..] == Unlinked(old(x[..]), Resident(ring), hsize)
    {
      hide Xor, Link, Pack, Put, Tiles, Up, HeadOk, LinkOk, BodyOk;
      ghost var es := Resident(ring);
      OldestThere(ring, hsize, size);
      RingLaid(ring, hsize, size);
      OldestLink(x[..], es, hsize);
      var pos := Get4(oldest);
      var u := Get4(pos);
      XorWord(u, oldest);
      Set4(pos, Xor(u, oldest));
    }

    /** Dropping the oldest entry: its neighbour's link, then the position of the next oldest. */
    method EvictOldest()
      requires Valid() && x != null && ring.older != []
      modifies this, x
      ensures Valid() && x == old(x) && size == old(size) && hsize == old(hsize)
      ensures ring == Evict(old(ring), size) && history == old(history)
    {
      hide Link, EntryBody, Pow2, Tiles, Unlinked, HeadOk, LinkOk, Laid, IsSuffix;
      ghost var x0, es := x[..], Resident(ring);
      assert es[0] == ring.older[0];
      UnlinkOldest();
      UnlinkedConsistent(x0, es, hsize);
      UnlinkedOldestBody(x0, es, hsize);
      BodyReads(x[..], es[0]);
      OldestThere(ring, hsize, size);
      EvictOk(ring, hsize, size);
      SuffixTail(es, history);
      var keylen := Get4(oldest + 4);
      var datalen := Get4(oldest + 8);
      oldest := oldest + keylen + datalen + 20;
      if oldest > unused {
        assert false;
      }
      if oldest == unused {
        unused := size;
        oldest := size;
      }
      ring := Evict(ring, size);
    }

    /** The entry's bytes: link, lengths, expire time, key and data. */
    method WriteEntry(link: uint32, key: bytes, data: bytes, expire: uint64)
      requires x != null && x.Length == size && writer + 20 + |key| + |data| <= size
      requires |key| <= MAXKEYLEN && |data| <= MAXDATALEN
      modifies x
      ensures x[..] == Put(old(x[..]), writer, Pack(link) + EntryBody(Entry(writer, key, data, expire)))
    {
      hide Pack, Put, PackTai;
      ghost var x0 := x[..];
      Set4(writer, link);
      Set4(writer + 4, |key|);
      PutTwice(x0, writer, Pack(link), Pack(|key|));
      Set4(writer + 8, |data|);
      PutTwice(x0, writer, Pack(link) + Pack(|key|), Pack(|data|));
      ghost var s := Pack(link) + Pack(|key|) + Pack(|data|);
      Store(writer + 12, PackTai(expire));
      PutTwice(x0, writer, s, PackTai(expire));
      Store(writer + 20, key);
      PutTwice(x0, writer, s + PackTai(expire), key);
      Store(writer + 20 + |key|, data);
      PutTwice(x0, writer, s + PackTai(expire) + key, data);
      assert s + PackTai(expire) + key + data
          == Pack(link) + EntryBody(Entry(writer, key, data, expire));
    }

    /** The links and bytes of a new entry at writer. */
    method InsertBytes(key: bytes, data: bytes, expire: uint64, ghost e: Entry)
      requires Shape() && Consistent(x[..], Resident(ring), hsize)
      requires |key| <= MAXKEYLEN && |data| <= MAXDATALEN && e == Entry(writer, key, data, expire)
      requires Insertable(x[..], Resident(ring), hsize, e)
      modifies x
      ensures x[..] == Inserted(old(x[..]), Resident(ring), hsize, e)
    {
      hide Xor, BucketPos, NewestIx, Link, EntryBody, HeadLink, Pack, Put, RingOk, HeadOk, LinkOk, BodyOk;
      ghost var x0, es := x[..], Resident(ring);
      EntryFits(x0, es, hsize, e);
      BucketIsHead(key, hsize);
      NewestItem(x0, es, hsize, BucketPos(key, hsize));
      var keyhash := Bucket(key);
      var pos := Get4(keyhash);
      if pos != 0 {
        var u := Get4(pos);
        XorWord(u, keyhash);
        XorWord(Xor(u, keyhash), writer);
        Set4(pos, Xor(Xor(u, keyhash), writer));
      }
      assert x[..] == Relinked(x0, es, hsize, e);
      XorWord(pos, keyhash);
      WriteEntry(Xor(pos, keyhash), key, data, expire);
      Set4(keyhash, writer);
    }

    /** Making the entry at writer the newest of its bucket. */
    method InsertNewest(key: bytes, data: bytes, expire: uint64)
      requires Valid() && x != null && |key| <= MAXKEYLEN && |data| <= MAXDATALEN
      requires writer + 20 + |key| + |data| <= oldest
      modifies this, x
      ensures Valid() && x == old(x) && size == old(size) && hsize == old(hsize)
      ensures ring == Written(old(ring), key, data, expire)
      ensures var e := Entry(old(writer), key, data, expire);
              history == old(history) + [e] && Resident(ring) == old(Resident(ring)) + [e]
    {
      hide HeadOk, LinkOk, BodyOk, Inserted, Pow2, Tiles, IsSuffix, Laid;
      ghost var x0, es, e := x[..], Resident(ring), Entry(writer, key, data, expire);
      NewcomerLaid(ring, e, hsize, size);
      InsertBytes(key, data, expire, e);
      InsertedConsistent(x0, es, hsize, e);
      var entrylen := |key| + |data| + 20;
      writer := writer + entrylen;
      motion := Bump(motion, entrylen);
      TilesAppend(ring.newer, hsize, ring.writer, e);
      ring := Written(ring, key, data, expire);
      assert Resident(ring) == es + [e];
      SuffixGrows(es, history, e);
      history := history + [e];
    }

    /** The loop of cache_set: evicts until there is room in front of the oldest entry; false if nothing is left. */
    method EvictFor(entrylen: nat) returns (ok: bool)
      requires Valid() && x != null
      modifies this, x
      ensures Valid() && x == old(x) && size == old(size) && hsize == old(hsize) && history == old(history)
      ensures MakeRoom(old(ring), entrylen, hsize, size) == (if ok then Some(ring) else None, ring)
      ensures ok ==> writer + entrylen <= oldest
      ensures old(writer + entrylen <= oldest) ==> ok && ring == old(ring) && x[..] == old(x[..])
    {
      hide Consistent, Tiles, IsSuffix, Pow2;
      while writer + entrylen > oldest
        invariant x == old(x) && size == old(size) && hsize == old(hsize) && Valid() && history == old(history)
        invariant MakeRoom(ring, entrylen, hsize, size) == MakeRoom(old(ring), entrylen, hsize, size)
        invariant old(writer + entrylen <= oldest) ==> ring == old(ring) && x[..] == old(x[..])
        decreases |ring.older| + |ring.newer|
      {
        OldestThere(ring, hsize, size);
        if oldest == unused {
          if writer <= hsize {
            return false;
          }
          WrapOk(ring, hsize, size);
          unused := writer;
          oldest := hsize;
          writer := hsize;
          ring := Wrap(ring, hsize);
        }
        EvictOldest();
      }
      ok := true;
    }

    /** cache_set: the byte array does what the ring of entries does. */
    method Set(key: bytes, data: bytes, ttl: uint32, now: uint64)
      requires Valid()
      modifies this, x
      ensures Valid() && x == old(x) && size == old(size) && hsize == old(hsize)
      ensures x != null ==> ring == SetRing(old(ring), key, data, ttl, now, hsize, size)
      ensures if x != null && Accepted(key, data, ttl) && hsize as nat + 20 + |key| + |data| <= size
              then Resident(ring) != [] && history == old(history) + [Resident(ring)[|Resident(ring)| - 1]]
              else history == old(history)
    {
      hide Consistent, Tiles, Written, IsSuffix, Pow2, MakeRoom;
      if x == null || !Accepted(key, data, ttl) {
        return;
      }
      var entrylen := |key| + |data| + 20;
      MakeRoomOk(ring, entrylen, hsize, size);
      var ok := EvictFor(entrylen);
      if !ok { return; }
      InsertNewest(key, data, Expiry(ttl, now));
    }

    /** cache_get. */
    method Get(key: bytes, now: uint64) returns (r: Option<(bytes, uint32)>)
      requires Valid()
      ensures x == null || |key| > MAXKEYLEN ==> r == None
      ensures x != null && |key| <= MAXKEYLEN ==> r == Answer(Visible(Resident(ring), hsize, key), now)
    {
      hide Visible, Link, Consistent, EntryBody;
      if x == null || |key| > MAXKEYLEN {
        return None;
      }
      var pos := FindEntry(key);
      ghost var found := Visible(Resident(ring), hsize, key);
      if pos == 0 {
        return None;
      }
      ghost var e := found.value;
      BodyReads(x[..], e);
      UnpackPackTai(e.expire);
      assert x[pos + 12..pos + 20] == x[..][pos + 12..pos + 20];
      var expire := UnpackTai(x[pos + 12..pos + 20]);
      if expire < now {
        return None;
      }
      var ttl := if expire - now > MAXTTL then MAXTTL else expire - now;
      var u := Get4(pos + 8);
      var from := pos + 20 + |key|;
      if u as int > size as int - pos - 20 - |key| {
        assert false;
      }
      assert x[from..from + u] == x[..][from..from + u];
      return Some((x[from..from + u], ttl));
    }
  }

  // --- the search loop against the lookup specification ------------------------------------------

  lemma DownOf(es: seq<Entry>, hsize: nat, k: nat)
    requires HashSize(hsize) && k < |es|
    ensures Down(es, hsize, k) == PosDown(es, NewestIx(es, hsize, BucketPos(es[k].key, hsize), k))
  {
    hide BucketPos, NewestIx;
  }

  lemma PositionPositive(x: bytes, es: seq<Entry>, hsize: nat, k: int)
    requires Consistent(x, es, hsize) && -1 <= k < |es|
    ensures PosDown(es, k) == 0 <==> k < 0
  {
    hide HeadOk, LinkOk, BodyOk;
  }

  lemma ScanIsVisible(es: seq<Entry>, hsize: nat, key: bytes)
    requires HashSize(hsize)
    ensures Scan(es, hsize, key, NewestIx(es, hsize, BucketPos(key, hsize), |es|), MAXCHAIN)
         == Visible(es, hsize, key)
  {
    hide Scan, Crowd, NewestIx, NewestWith, BucketPos;
    ScanFinds(es, hsize, key, |es|, MAXCHAIN);
  }

  lemma ScanStep(es: seq<Entry>, hsize: nat, key: bytes, k: nat, fuel: nat)
    requires HashSize(hsize) && k < |es| && fuel > 0
    ensures Scan(es, hsize, key, k, fuel)
         == if es[k].key == key then Some(es[k])
            else Scan(es, hsize, key, NewestIx(es, hsize, BucketPos(key, hsize), k), fuel - 1)
  {
    hide BucketPos, NewestIx;
  }

  lemma ScanGivesUp(es: seq<Entry>, hsize: nat, key: bytes, k: int)
    requires HashSize(hsize) && -1 <= k < |es|
    ensures Scan(es, hsize, key, k, 0) == None
  {
  }

  lemma ScanEnds(es: seq<Entry>, hsize: nat, key: bytes, fuel: nat)
    requires HashSize(hsize)
    ensures Scan(es, hsize, key, -1, fuel) == None
  {
  }
}
