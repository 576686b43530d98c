/** The cache of cache.c seen without bytes: a ring of entries, evicted oldest first. */
module CacheRing {
  import opened Bytes
  import opened CdbFormat

  const MAXKEYLEN := 1000
  const MAXDATALEN := 1000000
  const MAXTTL := 604800

  /** The search loop gives up after this many entries of a bucket, to protect against hash flooding. */
  const MAXCHAIN := 101

  datatype Entry = Entry(pos: nat, key: bytes, data: bytes, expire: uint64)

  function EntryLen(e: Entry): (n: nat)
    ensures n >= 20
  {
    20 + |e.key| + |e.data|
  }

  /** The entries fill x[lo...hi-1] one after the other. */
  ghost predicate Tiles(es: seq<Entry>, lo: nat, hi: nat) {
    if es == [] then lo == hi
    else es[0].pos == lo && Tiles(es[1..], lo + EntryLen(es[0]), hi)
  }

  /** The three moving positions and the entries left of writer (newer) and right of oldest (older). */
  datatype Ring = Ring(older: seq<Entry>, newer: seq<Entry>, writer: nat, oldest: nat, unused: nat)

  /** The resident entries, oldest first. */
  function Resident(r: Ring): seq<Entry> {
    r.older + r.newer
  }

  /** The representation invariant stated at the top of cache.c. */
  ghost predicate RingOk(r: Ring, hsize: nat, size: nat) {
    && hsize <= r.writer <= r.oldest <= r.unused <= size
    && (r.oldest == r.unused ==> r.unused == size)
    && Tiles(r.newer, hsize, r.writer)
    && Tiles(r.older, r.oldest, r.unused)
  }

  function EmptyRing(hsize: nat, size: nat): Ring {
    Ring([], [], hsize, size, size)
  }

  /** The writer goes back to the beginning; what it leaves behind is unused. */
  function Wrap(r: Ring, hsize: nat): Ring {
    Ring(r.newer, [], hsize, hsize, r.writer)
  }

  /** Dropping the oldest entry. */
  function Evict(r: Ring, size: nat): Ring
    requires r.older != []
  {
    var oldest := r.oldest + EntryLen(r.older[0]);
    if oldest == r.unused then r.(older := r.older[1..], oldest := size, unused := size)
    else r.(older := r.older[1..], oldest := oldest)
  }

  lemma {:induction false} TilesBounds(es: seq<Entry>, lo: nat, hi: nat)
    requires Tiles(es, lo, hi)
    ensures lo + 20 * |es| <= hi
    ensures forall i :: 0 <= i < |es| ==> lo <= es[i].pos && es[i].pos + EntryLen(es[i]) <= hi
  {
    if es != [] {
      TilesBounds(es[1..], lo + EntryLen(es[0]), hi);
    }
  }

  lemma {:induction false} TilesAppend(es: seq<Entry>, lo: nat, hi: nat, e: Entry)
    requires Tiles(es, lo, hi) && e.pos == hi
    ensures Tiles(es + [e], lo, hi + EntryLen(e))
  {
    if es != [] {
      TilesAppend(es[1..], lo + EntryLen(es[0]), hi, e);
      assert (es + [e])[1..] == es[1..] + [e];
    } else {
      assert es + [e] == [e];
    }
  }

  /** Two entries of the ring never overlap. */
  ghost predicate Apart(d: Entry, e: Entry) {
    d.pos + EntryLen(d) <= e.pos || e.pos + EntryLen(e) <= d.pos
  }

  ghost predicate AllApart(es: seq<Entry>) {
    forall i, j :: 0 <= i < j < |es| ==> Apart(es[i], es[j])
  }

  lemma {:induction false} TilesApart(es: seq<Entry>, lo: nat, hi: nat)
    requires Tiles(es, lo, hi)
    ensures AllApart(es)
  {
    if es != [] {
      TilesApart(es[1..], lo + EntryLen(es[0]), hi);
      TilesBounds(es[1..], lo + EntryLen(es[0]), hi);
      forall i, j | 0 <= i < j < |es|
        ensures Apart(es[i], es[j])
      {
        if i == 0 {
          assert es[j] == es[1..][j - 1];
        } else {
          assert es[i] == es[1..][i - 1] && es[j] == es[1..][j - 1];
        }
      }
    }
  }

  /** Every resident entry lies between the hash table and the end, clear of every other. */
  ghost predicate Laid(es: seq<Entry>, hsize: nat, size: nat) {
    && AllApart(es)
    && forall i :: 0 <= i < |es| ==> hsize <= es[i].pos && es[i].pos + EntryLen(es[i]) <= size
  }

  lemma RingLaid(r: Ring, hsize: nat, size: nat)
    requires RingOk(r, hsize, size)
    ensures Laid(Resident(r), hsize, size)
    ensures forall i :: 0 <= i < |Resident(r)| ==>
              var e := Resident(r)[i]; e.pos + EntryLen(e) <= r.writer || r.oldest <= e.pos
  {
    TilesApart(r.older, r.oldest, r.unused);
    TilesApart(r.newer, hsize, r.writer);
    TilesBounds(r.older, r.oldest, r.unused);
    TilesBounds(r.newer, hsize, r.writer);
  }

  /** There is an oldest entry to evict exactly when oldest != unused. */
  lemma OldestThere(r: Ring, hsize: nat, size: nat)
    requires RingOk(r, hsize, size)
    ensures r.older == [] <==> r.oldest == r.unused
    ensures r.newer == [] <==> r.writer == hsize
    ensures r.older != [] ==> r.older[0].pos == r.oldest
                              && r.oldest + EntryLen(r.older[0]) <= r.unused
  {
    TilesBounds(r.older, r.oldest, r.unused);
    TilesBounds(r.newer, hsize, r.writer);
  }

  lemma EvictOk(r: Ring, hsize: nat, size: nat)
    requires RingOk(r, hsize, size) && r.older != []
    ensures RingOk(Evict(r, size), hsize, size)
    ensures Resident(Evict(r, size)) == Resident(r)[1..]
  {
    OldestThere(r, hsize, size);
    TilesBounds(r.older[1..], r.oldest + EntryLen(r.older[0]), r.unused);
  }

  lemma WrapOk(r: Ring, hsize: nat, size: nat)
    requires RingOk(r, hsize, size) && r.older == [] && r.newer != []
    ensures RingOk(Wrap(r, hsize), hsize, size)
    ensures Resident(Wrap(r, hsize)) == Resident(r)
  {
    OldestThere(r, hsize, size);
  }

  /** One round of the eviction loop: the oldest entry goes, behind a wrap if the writer is in the way. */
  function EvictNext(r: Ring, hsize: nat, size: nat): Ring
    requires Resident(r) != []
  {
    Evict(if r.older == [] then Wrap(r, hsize) else r, size)
  }

  /** The eviction loop of cache_set: None when the entry does not even fit into an empty ring. */
  function MakeRoom(r: Ring, n: nat, hsize: nat, size: nat): (Option<Ring>, Ring)
    decreases |r.older| + |r.newer|, |r.newer|
  {
    if r.writer + n <= r.oldest then (Some(r), r)
    else if r.older == [] && r.newer == [] then (None, r)
    else MakeRoom(EvictNext(r, hsize, size), n, hsize, size)
  }

  function Written(r: Ring, key: bytes, data: bytes, expire: uint64): Ring {
    var e := Entry(r.writer, key, data, expire);
    r.(newer := r.newer + [e], writer := r.writer + EntryLen(e))
  }

  function Expiry(ttl: uint32, now: uint64): uint64 {
    ((if ttl > MAXTTL then MAXTTL else ttl) + now) % TWO64
  }

  predicate Accepted(key: bytes, data: bytes, ttl: uint32) {
    |key| <= MAXKEYLEN && |data| <= MAXDATALEN && ttl != 0
  }

  /** cache_set on the ring. */
  function SetRing(r: Ring, key: bytes, data: bytes, ttl: uint32, now: uint64, hsize: nat, size: nat): Ring {
    if !Accepted(key, data, ttl) then r
    else
      match MakeRoom(r, 20 + |key| + |data|, hsize, size)
      case (None, r') => r'
      case (Some(r'), _) => Written(r', key, data, Expiry(ttl, now))
  }

  // --- what the ring guarantees -------------------------------------------------------------------

  predicate Holds(e: Entry, key: bytes, data: bytes, expire: uint64) {
    e.key == key && e.data == data && e.expire == expire
  }

  /** `t` is what is left of `s` after dropping some of its oldest elements. */
  predicate IsSuffix<T(==)>(t: seq<T>, s: seq<T>) {
    |t| <= |s| && s[|s| - |t|..] == t
  }

  lemma {:induction false} MakeRoomOk(r: Ring, n: nat, hsize: nat, size: nat)
    requires RingOk(r, hsize, size)
    ensures var (o, r') := MakeRoom(r, n, hsize, size);
            && RingOk(r', hsize, size) && IsSuffix(Resident(r'), Resident(r))
            && (o.Some? <==> hsize + n <= size)
            && (o.Some? ==> o.value == r' && r'.writer + n <= r'.oldest)
            && (o == None ==> Resident(r') == [])
    decreases |r.older| + |r.newer|
  {
    OldestThere(r, hsize, size);
    if r.writer + n > r.oldest && (r.older != [] || r.newer != []) {
      var w := if r.older == [] then Wrap(r, hsize) else r;
      if r.older == [] {
        WrapOk(r, hsize, size);
      }
      EvictOk(w, hsize, size);
      MakeRoomOk(Evict(w, size), n, hsize, size);
    }
  }

  /**
   * First in, first out: an accepted set evicts some of the oldest residents and becomes the newest one;
   * a set that could never fit empties the cache; any other set changes nothing.
   */
  lemma SetIsFifo(r: Ring, key: bytes, data: bytes, ttl: uint32, now: uint64, hsize: nat, size: nat)
    requires RingOk(r, hsize, size)
    ensures var r' := SetRing(r, key, data, ttl, now, hsize, size);
            && RingOk(r', hsize, size)
            && if !Accepted(key, data, ttl) then Resident(r') == Resident(r)
               else if hsize + 20 + |key| + |data| > size then Resident(r') == []
               else
                 && Resident(r') != []
                 && Holds(Resident(r')[|Resident(r')| - 1], key, data, Expiry(ttl, now))
                 && IsSuffix(Resident(r')[..|Resident(r')| - 1], Resident(r))
  {
    if Accepted(key, data, ttl) {
      var n := 20 + |key| + |data|;
      MakeRoomOk(r, n, hsize, size);
      var (o, r1) := MakeRoom(r, n, hsize, size);
      if o.Some? {
        var e := Entry(r1.writer, key, data, Expiry(ttl, now));
        TilesAppend(r1.newer, hsize, r1.writer, e);
        var r' := Written(r1, key, data, Expiry(ttl, now));
        assert Resident(r') == Resident(r1) + [e];
        assert Resident(r')[..|Resident(r')| - 1] == Resident(r1);
      }
    }
  }

  /** After k evictions. */
  function Evicted(r: Ring, k: nat, hsize: nat, size: nat): Ring
    decreases k
  {
    if k == 0 || Resident(r) == [] then r else Evicted(EvictNext(r, hsize, size), k - 1, hsize, size)
  }

  /** After k evictions the k oldest residents are gone, and no others. */
  lemma {:induction false} EvictedDrops(r: Ring, k: nat, hsize: nat, size: nat)
    requires RingOk(r, hsize, size) && k <= |Resident(r)|
    ensures RingOk(Evicted(r, k, hsize, size), hsize, size)
    ensures Resident(Evicted(r, k, hsize, size)) == Resident(r)[k..]
    decreases k
  {
    if k > 0 {
      var w := if r.older == [] then Wrap(r, hsize) else r;
      if r.older == [] {
        WrapOk(r, hsize, size);
      }
      EvictOk(w, hsize, size);
      EvictedDrops(EvictNext(r, hsize, size), k - 1, hsize, size);
      assert Resident(r)[1..][k - 1..] == Resident(r)[k..];
    }
  }

  /** There is room for n more bytes in front of the oldest entry. */
  predicate Room(r: Ring, n: nat) {
    r.writer + n <= r.oldest
  }

  /**
   * A set evicts only what it must: the k oldest residents, where none of the rings with fewer evictions has room for
   * the entry, and the one with k has, or nothing is left.
   */
  lemma {:induction false} EvictsOnlyAsNeeded(r: Ring, n: nat, hsize: nat, size: nat) returns (k: nat)
    requires RingOk(r, hsize, size)
    ensures k <= |Resident(r)| && MakeRoom(r, n, hsize, size).1 == Evicted(r, k, hsize, size)
    ensures forall i: nat :: i < k ==> !Room(Evicted(r, i, hsize, size), n)
    ensures Room(Evicted(r, k, hsize, size), n) || k == |Resident(r)|
    decreases |r.older| + |r.newer|
  {
    k := 0;
    if !Room(r, n) && Resident(r) != [] {
      var w, next := if r.older == [] then Wrap(r, hsize) else r, EvictNext(r, hsize, size);
      if r.older == [] {
        WrapOk(r, hsize, size);
      }
      EvictOk(w, hsize, size);
      var k' := EvictsOnlyAsNeeded(next, n, hsize, size);
      k := k' + 1;
      forall i: nat | i < k
        ensures !Room(Evicted(r, i, hsize, size), n)
      {
        if i > 0 {
          assert Evicted(r, i, hsize, size) == Evicted(next, i - 1, hsize, size);
        }
      }
    }
  }

  /**
   * What a set leaves: too long keys and data and a ttl of 0 change nothing; a set that could never fit empties the
   * cache; any other evicts the k oldest residents, none if there is room in front of them and never more than needed,
   * and becomes the newest one.
   */
  lemma SetKeeps(r: Ring, key: bytes, data: bytes, ttl: uint32, now: uint64, hsize: nat, size: nat) returns (k: nat)
    requires RingOk(r, hsize, size)
    ensures k <= |Resident(r)|
    ensures var n, r' := 20 + |key| + |data|, SetRing(r, key, data, ttl, now, hsize, size);
            && RingOk(r', hsize, size)
            && if |key| > 1000 || |data| > 1000000 || ttl == 0 then r' == r
               else if hsize + n > size then Resident(r') == []
               else
                 && (forall i: nat :: i < k ==> !Room(Evicted(r, i, hsize, size), n))
                 && Evicted(r, k, hsize, size).writer + n <= Evicted(r, k, hsize, size).oldest
                 && Resident(Evicted(r, k, hsize, size)) == Resident(r)[k..]
                 && Resident(r') != [] && Resident(r')[..|Resident(r')| - 1] == Resident(r)[k..]
                 && r'.writer == Evicted(r, k, hsize, size).writer + n
                 && r'.oldest == Evicted(r, k, hsize, size).oldest
                 && Holds(Resident(r')[|Resident(r')| - 1], key, data, Expiry(ttl, now))
                 && (r.writer + n <= r.oldest ==> k == 0)
  {
    hide Tiles;
    k := 0;
    SetIsFifo(r, key, data, ttl, now, hsize, size);
    if |key| <= 1000 && |data| <= 1000000 && ttl != 0 && hsize + 20 + |key| + |data| <= size {
      var n := 20 + |key| + |data|;
      MakeRoomOk(r, n, hsize, size);
      k := EvictsOnlyAsNeeded(r, n, hsize, size);
      EvictedDrops(r, k, hsize, size);
      var r1 := Evicted(r, k, hsize, size);
      var e := Entry(r1.writer, key, data, Expiry(ttl, now));
      assert Resident(SetRing(r, key, data, ttl, now, hsize, size)) == Resident(r1) + [e];
    }
  }
}
