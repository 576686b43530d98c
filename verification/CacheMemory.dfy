/** The byte array of cache.c: what the links and entries in it must say, and how each step keeps that true. */
module CacheMemory {
  import opened Bytes
  import opened CdbFormat
  import opened CacheRing
  import opened CacheChains

  /** The array after `s` has been copied to position p. */
  function Put(x: bytes, p: nat, s: bytes): (y: bytes)
    requires p + |s| <= |x|
    ensures |y| == |x|
  {
    x[..p] + s + x[p + |s|..]
  }

  /** get4. */
  function Link(x: bytes, p: nat): uint32
    requires p + 4 <= |x|
  {
    Unpack(x[p..p + 4])
  }

  lemma PutThere(x: bytes, p: nat, s: bytes)
    requires p + |s| <= |x|
    ensures Put(x, p, s)[p..p + |s|] == s
  {
  }

  lemma PutElsewhere(x: bytes, p: nat, s: bytes, q: nat, n: nat)
    requires p + |s| <= |x| && q + n <= |x|
    requires q + n <= p || p + |s| <= q
    ensures Put(x, p, s)[q..q + n] == x[q..q + n]
  {
  }

  lemma PutTwice(x: bytes, p: nat, s: bytes, t: bytes)
    requires p + |s| + |t| <= |x|
    ensures Put(Put(x, p, s), p + |s|, t) == Put(x, p, s + t)
  {
    var y := Put(x, p, s);
    assert y[..p + |s|] == x[..p] + s;
    assert y[p + |s| + |t|..] == x[p + |s| + |t|..];
  }

  /** The bytes of an entry after its link: lengths, expire time, key, data. */
  function EntryBody(e: Entry): (s: bytes)
    ensures |s| == EntryLen(e) - 4
  {
    Pack(|e.key|) + Pack(|e.data|) + PackTai(e.expire) + e.key + e.data
  }

  ghost predicate HeadOk(x: bytes, es: seq<Entry>, hsize: nat, b: nat)
    requires HashSize(hsize)
  {
    b + 4 <= |x| && Link(x, b) == HeadLink(es, hsize, b)
  }

  ghost predicate LinkOk(x: bytes, es: seq<Entry>, hsize: nat, i: nat)
    requires HashSize(hsize) && i < |es|
  {
    es[i].pos + 4 <= |x| && Link(x, es[i].pos) == EntryLink(es, hsize, i)
  }

  ghost predicate BodyOk(x: bytes, e: Entry) {
    && e.pos + EntryLen(e) <= |x|
    && x[e.pos + 4..e.pos + EntryLen(e)] == EntryBody(e)
  }

  predicate IsHead(hsize: nat, b: nat) {
    b + 4 <= hsize && b % 4 == 0
  }

  /** The memory holds exactly these entries, chained by bucket. */
  ghost predicate Consistent(x: bytes, es: seq<Entry>, hsize: nat) {
    && HashSize(hsize) && hsize <= |x| < TWO32
    && Laid(es, hsize, |x|)
    && (forall b: nat :: IsHead(hsize, b) ==> HeadOk(x, es, hsize, b))
    && (forall i: nat :: i < |es| ==> LinkOk(x, es, hsize, i))
    && (forall i: nat :: i < |es| ==> BodyOk(x, es[i]))
  }

  lemma BucketIsHead(key: bytes, hsize: nat)
    requires HashSize(hsize)
    ensures IsHead(hsize, BucketPos(key, hsize))
  {
  }

  /** Rewriting one link leaves the other links and all bodies alone. */
  lemma PutLinkElsewhere(x: bytes, p: nat, u: uint32, q: nat)
    requires p + 4 <= |x| && q + 4 <= |x| && (q + 4 <= p || p + 4 <= q)
    ensures Link(Put(x, p, Pack(u)), q) == Link(x, q)
  {
    hide Pack, Unpack, Put;
    PutElsewhere(x, p, Pack(u), q, 4);
  }

  lemma PutLinkThere(x: bytes, p: nat, u: uint32)
    requires p + 4 <= |x|
    ensures Link(Put(x, p, Pack(u)), p) == u
  {
    hide Pack, Unpack, Put;
    PutThere(x, p, Pack(u));
    UnpackPack(u);
  }

  lemma PutKeepsBody(x: bytes, p: nat, s: bytes, e: Entry)
    requires p + |s| <= |x| && BodyOk(x, e)
    requires p + |s| <= e.pos + 4 || e.pos + EntryLen(e) <= p
    ensures BodyOk(Put(x, p, s), e)
  {
    hide EntryBody, Put;
    PutElsewhere(x, p, s, e.pos + 4, EntryLen(e) - 4);
  }

  // --- evicting the oldest entry ------------------------------------------------------------------

  /** The link of the oldest entry is the position of its newer neighbour alone. */
  lemma OldestLink(x: bytes, es: seq<Entry>, hsize: nat)
    requires Consistent(x, es, hsize) && es != []
    ensures Link(x, es[0].pos) == Up(es, hsize, 0)
    ensures Up(es, hsize, 0) + 4 <= |x|
  {
    hide BucketPos, Xor, NearestIx, Unpack;
    assert LinkOk(x, es, hsize, 0);
    XorZero(Up(es, hsize, 0));
    BucketIsHead(es[0].key, hsize);
  }

  /** Who the newer neighbour of the oldest entry is. */
  lemma NeighbourOfOldest(es: seq<Entry>, hsize: nat, i: nat)
    requires HashSize(hsize) && es != [] && 0 < i < |es|
    ensures NewestIx(es, hsize, BucketPos(es[i].key, hsize), i) == 0
       <==> NearestIx(es, hsize, BucketPos(es[0].key, hsize), 1) == i
  {
    hide BucketPos;
    var b0, b := BucketPos(es[0].key, hsize), BucketPos(es[i].key, hsize);
    assert InBucket(es[0], hsize, b0) && InBucket(es[i], hsize, b);
    var k := NearestIx(es, hsize, b0, 1);
    if NewestIx(es, hsize, b, i) == 0 {
      NearestIxIs(es, hsize, b0, 1, i);
    } else if k == i {
      NewestIxIs(es, hsize, b, i, 0);
    }
  }

  lemma HeadOfOldest(es: seq<Entry>, hsize: nat, b: nat)
    requires HashSize(hsize) && es != []
    ensures NewestIx(es, hsize, b, |es|) == 0
       <==> b == BucketPos(es[0].key, hsize) && NearestIx(es, hsize, b, 1) == |es|
  {
    hide BucketPos;
    var b0 := BucketPos(es[0].key, hsize);
    assert InBucket(es[0], hsize, b0);
    if NewestIx(es, hsize, b, |es|) == 0 {
      NearestIxIs(es, hsize, b, 1, |es|);
    }
  }

  /** The oldest entry's position is taken out of the link of its newer neighbour. */
  function Unlinked(x: bytes, es: seq<Entry>, hsize: nat): bytes
    requires Consistent(x, es, hsize) && es != []
  {
    OldestLink(x, es, hsize);
    var p := Link(x, es[0].pos);
    Put(x, p, Pack(Xor(Link(x, p), es[0].pos)))
  }

  lemma UnlinkedHead(x: bytes, es: seq<Entry>, hsize: nat, b: nat)
    requires Consistent(x, es, hsize) && es != [] && IsHead(hsize, b)
    ensures HeadOk(Unlinked(x, es, hsize), es[1..], hsize, b)
  {
    hide BucketPos, Xor, NearestIx, NewestIx, HeadLink, Link, Pack, Put;
    OldestLink(x, es, hsize);
    HeadLinkAfterDrop(es, hsize, b);
    HeadOfOldest(es, hsize, b);
    assert HeadOk(x, es, hsize, b);
    var p := Up(es, hsize, 0);
    XorWord(Link(x, p), es[0].pos);
    var u := Xor(Link(x, p), es[0].pos);
    if NewestIx(es, hsize, b, |es|) == 0 {
      assert p == b;
      HeadLinkOf(es, hsize, b);
      XorSelf(es[0].pos);
      PutLinkThere(x, p, u);
    } else {
      HeadsApart(es, hsize, |x|, b);
      PutLinkElsewhere(x, p, u, b);
    }
  }

  lemma HeadLinkOf(es: seq<Entry>, hsize: nat, b: nat)
    requires HashSize(hsize) && es != [] && NewestIx(es, hsize, b, |es|) == 0
    ensures HeadLink(es, hsize, b) == es[0].pos
  {
  }

  /** The newer neighbour of the oldest entry is not at head b, unless the oldest is alone in bucket b. */
  lemma HeadsApart(es: seq<Entry>, hsize: nat, size: nat, b: nat)
    requires HashSize(hsize) && es != [] && Laid(es, hsize, size) && IsHead(hsize, b)
    requires NewestIx(es, hsize, b, |es|) != 0
    ensures var p := Up(es, hsize, 0); b + 4 <= p || p + 4 <= b
  {
    hide BucketPos, NearestIx, NewestIx;
    HeadOfOldest(es, hsize, b);
    BucketIsHead(es[0].key, hsize);
  }

  lemma UnlinkedLink(x: bytes, es: seq<Entry>, hsize: nat, i: nat)
    requires Consistent(x, es, hsize) && 0 < i < |es|
    ensures LinkOk(Unlinked(x, es, hsize), es[1..], hsize, i - 1)
  {
    hide BucketPos, Xor, NearestIx, NewestIx, Link, Pack, Put, Up;
    OldestLink(x, es, hsize);
    EntryLinkAfterDrop(es, hsize, i);
    assert es[1..][i - 1] == es[i];
    assert LinkOk(x, es, hsize, i);
    var p := Up(es, hsize, 0);
    XorWord(Link(x, p), es[0].pos);
    var u := Xor(Link(x, p), es[0].pos);
    NeighbourIsUp(es, hsize, |x|, i);
    if NewestIx(es, hsize, BucketPos(es[i].key, hsize), i) == 0 {
      assert p == es[i].pos;
      assert Link(x, p) == Xor(Up(es, hsize, i), es[0].pos);
      XorCancel(es[0].pos, Up(es, hsize, i));
      XorZero(Up(es, hsize, i));
      PutLinkThere(x, p, u);
    } else {
      PutLinkElsewhere(x, p, u, es[i].pos);
    }
  }

  /** Entry i is the newer neighbour of the oldest, or its link lies clear of that neighbour's. */
  lemma NeighbourIsUp(es: seq<Entry>, hsize: nat, size: nat, i: nat)
    requires HashSize(hsize) && Laid(es, hsize, size) && 0 < i < |es|
    ensures var p := Up(es, hsize, 0);
            if NewestIx(es, hsize, BucketPos(es[i].key, hsize), i) == 0
            then p == es[i].pos && Down(es, hsize, i) == es[0].pos
            else es[i].pos + 4 <= p || p + 4 <= es[i].pos
  {
    hide BucketPos, NearestIx, NewestIx;
    NeighbourOfOldest(es, hsize, i);
    BucketIsHead(es[0].key, hsize);
    var k := NearestIx(es, hsize, BucketPos(es[0].key, hsize), 1);
    if k < |es| && k != i {
      assert Apart(es[if k < i then k else i], es[if k < i then i else k]);
    }
  }

  lemma UnlinkedBody(x: bytes, es: seq<Entry>, hsize: nat, i: nat)
    requires Consistent(x, es, hsize) && 0 < i < |es|
    ensures BodyOk(Unlinked(x, es, hsize), es[i])
  {
    hide BucketPos, Xor, NearestIx, NewestIx, Link, Pack, Put, EntryBody;
    OldestLink(x, es, hsize);
    assert BodyOk(x, es[i]);
    var p := Up(es, hsize, 0);
    XorWord(Link(x, p), es[0].pos);
    BucketIsHead(es[0].key, hsize);
    var k := NearestIx(es, hsize, BucketPos(es[0].key, hsize), 1);
    if k < |es| && k != i {
      assert Apart(es[if k < i then k else i], es[if k < i then i else k]);
    }
    PutKeepsBody(x, p, Pack(Xor(Link(x, p), es[0].pos)), es[i]);
  }

  /** Unlinking the oldest entry leaves the memory consistent with the others. */
  lemma UnlinkedConsistent(x: bytes, es: seq<Entry>, hsize: nat)
    requires Consistent(x, es, hsize) && es != []
    ensures Consistent(Unlinked(x, es, hsize), es[1..], hsize)
  {
    hide Unlinked, HeadOk, LinkOk, BodyOk;
    var y, ds := Unlinked(x, es, hsize), es[1..];
    UnlinkedSize(x, es, hsize);
    forall b: nat | IsHead(hsize, b)
      ensures HeadOk(y, ds, hsize, b)
    {
      UnlinkedHead(x, es, hsize, b);
    }
    forall i: nat | i < |ds|
      ensures LinkOk(y, ds, hsize, i) && BodyOk(y, ds[i])
    {
      UnlinkedLink(x, es, hsize, i + 1);
      UnlinkedBody(x, es, hsize, i + 1);
    }
  }

  lemma UnlinkedSize(x: bytes, es: seq<Entry>, hsize: nat)
    requires Consistent(x, es, hsize) && es != []
    ensures |Unlinked(x, es, hsize)| == |x|
  {
  }

  // --- inserting a new entry ----------------------------------------------------------------------

  /** A new entry may be written at its position: it clashes with nothing. */
  ghost predicate Insertable(x: bytes, es: seq<Entry>, hsize: nat, e: Entry) {
    Consistent(x, es, hsize) && Laid(es + [e], hsize, |x|)
  }

  lemma NewestItem(x: bytes, es: seq<Entry>, hsize: nat, b: nat)
    requires Consistent(x, es, hsize) && IsHead(hsize, b)
    ensures b + 4 <= |x| && Link(x, b) == HeadLink(es, hsize, b)
    ensures var k := NewestIx(es, hsize, b, |es|);
            if k < 0 then Link(x, b) == 0
            else Link(x, b) == es[k].pos >= hsize && es[k].pos + 20 <= |x|
  {
    hide Link, NewestIx;
    assert HeadOk(x, es, hsize, b);
  }

  /** In the link of the bucket's newest entry, if there is one, the new entry takes the place of the bucket's head. */
  function Relinked(x: bytes, es: seq<Entry>, hsize: nat, e: Entry): (y: bytes)
    requires Insertable(x, es, hsize, e)
    ensures |y| == |x|
  {
    var b := BucketPos(e.key, hsize);
    BucketIsHead(e.key, hsize);
    NewestItem(x, es, hsize, b);
    var pos := Link(x, b);
    if pos == 0 then x else Put(x, pos, Pack(Xor(Xor(Link(x, pos), b), e.pos)))
  }

  lemma EntryFits(x: bytes, es: seq<Entry>, hsize: nat, e: Entry)
    requires Insertable(x, es, hsize, e)
    ensures hsize <= e.pos && e.pos + EntryLen(e) <= |x|
    ensures forall i :: 0 <= i < |es| ==> Apart(es[i], e)
  {
    assert (es + [e])[|es|] == e;
    forall i | 0 <= i < |es|
      ensures Apart(es[i], e)
    {
      assert (es + [e])[i] == es[i];
    }
  }

  /** The memory after cache_set has written entry e and made it the newest of its bucket. */
  function Inserted(x: bytes, es: seq<Entry>, hsize: nat, e: Entry): (y: bytes)
    requires Insertable(x, es, hsize, e)
    ensures |y| == |x|
  {
    var b := BucketPos(e.key, hsize);
    EntryFits(x, es, hsize, e);
    Put(Put(Relinked(x, es, hsize, e), e.pos, Pack(Xor(Link(x, b), b)) + EntryBody(e)), b, Pack(e.pos))
  }

  ghost predicate Clear(p: nat, m: nat, q: nat, n: nat) {
    q + n <= p || p + m <= q
  }

  lemma InsertedElsewhere(x: bytes, es: seq<Entry>, hsize: nat, e: Entry, q: nat, n: nat)
    requires Insertable(x, es, hsize, e) && q + n <= |x|
    requires Clear(BucketPos(e.key, hsize), 4, q, n) && Clear(e.pos, EntryLen(e), q, n)
    requires var k := NewestIx(es, hsize, BucketPos(e.key, hsize), |es|); k >= 0 ==> Clear(es[k].pos, 4, q, n)
    ensures Inserted(x, es, hsize, e)[q..q + n] == x[q..q + n]
  {
    hide BucketPos, Pack, Put, EntryBody, NewestIx, Xor, HeadOk, LinkOk, BodyOk, Laid, Unpack;
    var b := BucketPos(e.key, hsize);
    EntryFits(x, es, hsize, e);
    BucketIsHead(e.key, hsize);
    NewestItem(x, es, hsize, b);
    var y := Relinked(x, es, hsize, e);
    if Link(x, b) != 0 {
      PutElsewhere(x, Link(x, b), Pack(Xor(Xor(Link(x, Link(x, b)), b), e.pos)), q, n);
    }
    var s := Pack(Xor(Link(x, b), b)) + EntryBody(e);
    PutElsewhere(y, e.pos, s, q, n);
    PutElsewhere(Put(y, e.pos, s), b, Pack(e.pos), q, n);
  }

  lemma InsertedHead(x: bytes, es: seq<Entry>, hsize: nat, e: Entry, b: nat)
    requires Insertable(x, es, hsize, e) && IsHead(hsize, b)
    ensures HeadOk(Inserted(x, es, hsize, e), es + [e], hsize, b)
  {
    hide BucketPos, Pack, Put, EntryBody, NewestIx, Xor, HeadLink, Unpack, Relinked;
    var c := BucketPos(e.key, hsize);
    BucketIsHead(e.key, hsize);
    NewestItem(x, es, hsize, b);
    NewestItem(x, es, hsize, c);
    EntryFits(x, es, hsize, e);
    HeadLinkAfterAppend(es, e, hsize, b);
    if b == c {
      var y := Put(Relinked(x, es, hsize, e), e.pos, Pack(Xor(Link(x, c), c)) + EntryBody(e));
      PutLinkThere(y, c, e.pos);
    } else {
      InsertedElsewhere(x, es, hsize, e, b, 4);
    }
  }

  lemma InsertedOwn(x: bytes, es: seq<Entry>, hsize: nat, e: Entry)
    requires Insertable(x, es, hsize, e)
    ensures LinkOk(Inserted(x, es, hsize, e), es + [e], hsize, |es|)
    ensures BodyOk(Inserted(x, es, hsize, e), e)
  {
    hide BucketPos, Put, EntryBody, NewestIx, HeadLink, Relinked, Pack, Unpack, EntryLink, Xor;
    var b := BucketPos(e.key, hsize);
    BucketIsHead(e.key, hsize);
    NewestItem(x, es, hsize, b);
    EntryFits(x, es, hsize, e);
    NewEntryLink(es, e, hsize);
    var r, u, body := Relinked(x, es, hsize, e), Xor(Link(x, b), b), EntryBody(e);
    XorCommutes(Link(x, b), b);
    XorWord(Link(x, b), b);
    var y := Put(r, e.pos, Pack(u) + body);
    PutThere(r, e.pos, Pack(u) + body);
    var n := EntryLen(e);
    Halves(y, e.pos, Pack(u), body);
    PutElsewhere(y, b, Pack(e.pos), e.pos, 4);
    PutElsewhere(y, b, Pack(e.pos), e.pos + 4, n - 4);
    UnpackPack(u);
    assert (es + [e])[|es|] == e;
  }

  lemma Halves(y: bytes, p: nat, s: bytes, t: bytes)
    requires p + |s| + |t| <= |y| && y[p..p + |s + t|] == s + t
    ensures y[p..p + |s|] == s && y[p + |s|..p + |s| + |t|] == t
  {
    var w := y[p..p + |s + t|];
    assert w[..|s|] == s && w[|s|..] == t;
    assert y[p..p + |s|] == w[..|s|];
    assert y[p + |s|..p + |s| + |t|] == w[|s|..];
  }

  lemma InsertedLink(x: bytes, es: seq<Entry>, hsize: nat, e: Entry, i: nat)
    requires Insertable(x, es, hsize, e) && i < |es|
    ensures LinkOk(Inserted(x, es, hsize, e), es + [e], hsize, i)
  {
    hide BucketPos, Put, EntryBody, NewestIx, HeadLink, Pack, Unpack, EntryLink, Xor, Inserted, Relinked, Link;
    var b := BucketPos(e.key, hsize);
    EntryFits(x, es, hsize, e);
    BucketIsHead(e.key, hsize);
    EntryLinkAfterAppend(es, e, hsize, i);
    assert (es + [e])[i] == es[i];
    assert LinkOk(x, es, hsize, i);
    var k := NewestIx(es, hsize, b, |es|);
    if k == i {
      InsertedNeighbour(x, es, hsize, e);
    } else {
      if k >= 0 {
        assert Apart(es[if k < i then k else i], es[if k < i then i else k]);
      }
      assert Apart(es[i], e);
      InsertedElsewhere(x, es, hsize, e, es[i].pos, 4);
      LinkSame(x, Inserted(x, es, hsize, e), es[i].pos);
    }
  }

  lemma LinkSame(x: bytes, y: bytes, p: nat)
    requires p + 4 <= |x| == |y| && x[p..p + 4] == y[p..p + 4]
    ensures Link(x, p) == Link(y, p)
  {
  }

  /** The entry that was newest in the bucket now has the new entry before it instead of the head. */
  lemma InsertedNeighbour(x: bytes, es: seq<Entry>, hsize: nat, e: Entry)
    requires Insertable(x, es, hsize, e)
    requires NewestIx(es, hsize, BucketPos(e.key, hsize), |es|) >= 0
    ensures var i := NewestIx(es, hsize, BucketPos(e.key, hsize), |es|);
            && es[i].pos + 4 <= |x|
            && Link(Inserted(x, es, hsize, e), es[i].pos) == Xor(e.pos, Down(es, hsize, i))
  {
    hide Put, EntryBody, Pack, Unpack, Xor, Link, NewestIx, NearestIx, BucketPos;
    var b := BucketPos(e.key, hsize);
    var i := NewestIx(es, hsize, b, |es|);
    EntryFits(x, es, hsize, e);
    BucketIsHead(e.key, hsize);
    NewestItem(x, es, hsize, b);
    assert Apart(es[i], e);
    RelinkedValue(x, es, hsize, b, e.pos);
    PutLinkThere(x, es[i].pos, Xor(Xor(Link(x, es[i].pos), b), e.pos));
    var y, s := Relinked(x, es, hsize, e), Pack(Xor(Link(x, b), b)) + EntryBody(e);
    PutElsewhere(y, e.pos, s, es[i].pos, 4);
    LinkSame(y, Put(y, e.pos, s), es[i].pos);
    PutElsewhere(Put(y, e.pos, s), b, Pack(e.pos), es[i].pos, 4);
    LinkSame(Put(y, e.pos, s), Inserted(x, es, hsize, e), es[i].pos);
  }

  /** The new link has the writer in place of the head among its neighbours. */
  lemma RelinkedValue(x: bytes, es: seq<Entry>, hsize: nat, b: nat, w: uint32)
    requires Consistent(x, es, hsize) && IsHead(hsize, b) && NewestIx(es, hsize, b, |es|) >= 0
    ensures var i := NewestIx(es, hsize, b, |es|);
            es[i].pos + 4 <= |x|
            && Xor(Xor(Link(x, es[i].pos), b), w) == Xor(w, Down(es, hsize, i)) < TWO32
  {
    hide Xor, Link, NewestIx, NearestIx, BucketPos;
    var i := NewestIx(es, hsize, b, |es|);
    assert LinkOk(x, es, hsize, i);
    NewestHasHeadAbove(es, hsize, b);
    var down := Down(es, hsize, i);
    XorCommutes(b, down);
    XorCancel(b, down);
    XorCommutes(w, down);
    DownIsWord(x, es, hsize, i);
    XorWord(down, w);
  }

  lemma NewestHasHeadAbove(es: seq<Entry>, hsize: nat, b: nat)
    requires HashSize(hsize) && NewestIx(es, hsize, b, |es|) >= 0
    ensures Up(es, hsize, NewestIx(es, hsize, b, |es|)) == b
  {
    hide BucketPos;
    var i := NewestIx(es, hsize, b, |es|);
    assert InBucket(es[i], hsize, b);
    NearestIxIs(es, hsize, b, i + 1, |es|);
  }

  lemma DownIsWord(x: bytes, es: seq<Entry>, hsize: nat, i: nat)
    requires Consistent(x, es, hsize) && i < |es|
    ensures Down(es, hsize, i) < TWO32
  {
    hide BucketPos, NewestIx;
  }

  lemma InsertedBody(x: bytes, es: seq<Entry>, hsize: nat, e: Entry, i: nat)
    requires Insertable(x, es, hsize, e) && i < |es|
    ensures BodyOk(Inserted(x, es, hsize, e), es[i])
  {
    hide BucketPos, Put, EntryBody, NewestIx, Pack, Inserted, Xor, Link;
    EntryFits(x, es, hsize, e);
    BucketIsHead(e.key, hsize);
    assert BodyOk(x, es[i]) && Apart(es[i], e);
    var k := NewestIx(es, hsize, BucketPos(e.key, hsize), |es|);
    if k >= 0 && k != i {
      assert Apart(es[if k < i then k else i], es[if k < i then i else k]);
    }
    InsertedElsewhere(x, es, hsize, e, es[i].pos + 4, EntryLen(es[i]) - 4);
  }

  /** Writing the new entry and its links leaves the memory consistent with one more entry. */
  lemma InsertedConsistent(x: bytes, es: seq<Entry>, hsize: nat, e: Entry)
    requires Insertable(x, es, hsize, e)
    ensures Consistent(Inserted(x, es, hsize, e), es + [e], hsize)
  {
    hide Inserted, HeadOk, LinkOk, BodyOk, Laid;
    var y, ds := Inserted(x, es, hsize, e), es + [e];
    forall b: nat | IsHead(hsize, b)
      ensures HeadOk(y, ds, hsize, b)
    {
      InsertedHead(x, es, hsize, e, b);
    }
    forall i: nat | i < |ds|
      ensures LinkOk(y, ds, hsize, i) && BodyOk(y, ds[i])
    {
      if i < |es| {
        InsertedLink(x, es, hsize, e, i);
        InsertedBody(x, es, hsize, e, i);
      } else {
        InsertedOwn(x, es, hsize, e);
      }
    }
  }
}
