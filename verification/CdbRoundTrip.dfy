/** What cdb_make.c stores is exactly what cdb.c finds, in insertion order. */
module CdbRoundTrip {
  import opened Bytes
  import opened Buffer
  import opened CdbFormat
  import opened CdbProbe
  import opened CdbMake
  import opened Cdb

  /** The record whose bytes begin at file position `p`. */
  function RecordAt(rs: seq<Rec>, p: uint32): Option<Rec> {
    if rs == [] then None
    else
      var init := rs[..|rs| - 1];
      if EndOf(init) == p then Some(rs[|rs| - 1]) else RecordAt(init, p)
  }

  /** The data under `key` among the records that the entries `ws` point to. */
  function Pick(rs: seq<Rec>, ws: seq<Hp>, key: bytes): seq<bytes> {
    if ws == [] then []
    else Pick(rs, ws[..|ws| - 1], key) + PickOne(rs, ws[|ws| - 1], key)
  }

  function PickOne(rs: seq<Rec>, w: Hp, key: bytes): seq<bytes> {
    match RecordAt(rs, w.p)
    case None => []
    case Some(r) => if r.key == key then [r.data] else []
  }

  lemma {:induction false} PickConcat(rs: seq<Rec>, ws: seq<Hp>, xs: seq<Hp>, key: bytes)
    ensures Pick(rs, ws + xs, key) == Pick(rs, ws, key) + Pick(rs, xs, key)
  {
    hide RecordAt;
    if xs == [] {
      assert ws + xs == ws;
    } else {
      var init := xs[..|xs| - 1];
      assert (ws + xs)[..|ws + xs| - 1] == ws + init;
      PickConcat(rs, ws, init, key);
    }
  }

  // --- the entries and the records they point to ------------------------------------------------

  lemma {:induction false} EntriesBelowEnd(rs: seq<Rec>, i: nat)
    requires i < |rs| && EndOf(rs) < TWO32
    ensures Entries(rs)[i].p < EndOf(rs)
  {
    hide Pack;
    if i < |rs| - 1 {
      EntriesBelowEnd(rs[..|rs| - 1], i);
    }
  }

  /** Each entry points to its record, and carries the hash of that record's key. */
  lemma {:induction false} EntryHasRecord(rs: seq<Rec>, i: nat)
    requires i < |rs| && EndOf(rs) < TWO32
    ensures RecordAt(rs, Entries(rs)[i].p) == Some(rs[i])
    ensures Entries(rs)[i].h == HashOf(rs[i].key)
  {
    hide Pack, HashFrom;
    if i < |rs| - 1 {
      var init := rs[..|rs| - 1];
      EntryHasRecord(init, i);
      EntriesBelowEnd(init, i);
    }
  }

  lemma {:induction false} PickBelow(rs: seq<Rec>, r: Rec, ws: seq<Hp>, key: bytes)
    requires forall i :: 0 <= i < |ws| ==> ws[i].p < EndOf(rs)
    ensures Pick(rs + [r], ws, key) == Pick(rs, ws, key)
  {
    hide RecordBytes;
    if ws != [] {
      PickBelow(rs, r, ws[..|ws| - 1], key);
      assert (rs + [r])[..|rs|] == rs;
    }
  }

  lemma {:induction false} WithHashFrom(e: seq<Hp>, h: uint32, w: Hp)
    requires w in WithHash(e, h)
    ensures w in e && w.h == h
  {
    if e != [] && !(e[|e| - 1].h == h && w == e[|e| - 1]) {
      WithHashFrom(e[..|e| - 1], h, w);
    }
  }

  lemma WithHashBelow(rs: seq<Rec>, h: uint32)
    requires EndOf(rs) < TWO32
    ensures var ws := WithHash(Entries(rs), h); forall i :: 0 <= i < |ws| ==> ws[i].p < EndOf(rs)
  {
    hide Entries, EndOf;
    var e := Entries(rs);
    var ws := WithHash(e, h);
    forall i | 0 <= i < |ws|
      ensures ws[i].p < EndOf(rs)
    {
      WithHashFrom(e, h, ws[i]);
      var j :| 0 <= j < |e| && e[j] == ws[i];
      EntriesBelowEnd(rs, j);
    }
  }

  lemma NewestRecord(rs: seq<Rec>, r: Rec)
    requires EndOf(rs) < TWO32
    ensures RecordAt(rs + [r], W32(EndOf(rs))) == Some(r)
  {
    hide RecordBytes;
    assert (rs + [r])[..|rs|] == rs;
  }

  lemma WithHashAdded(rs: seq<Rec>, r: Rec, h: uint32)
    ensures WithHash(Entries(rs + [r]), h)
         == WithHash(Entries(rs), h) + (if HashOf(r.key) == h then [Hp(h, W32(EndOf(rs)))] else [])
  {
    hide Entries, EndOf, HashOf;
    RecordAdded(rs, r);
    var x := Hp(HashOf(r.key), W32(EndOf(rs)));
    assert (Entries(rs) + [x])[..|rs|] == Entries(rs);
  }

  lemma DataUnderAdded(rs: seq<Rec>, r: Rec, key: bytes)
    ensures DataUnder(rs + [r], key) == DataUnder(rs, key) + (if r.key == key then [r.data] else [])
  {
    assert (rs + [r])[..|rs|] == rs;
  }

  /** Following the entries with the hash of `key` and comparing keys gives the data under `key`. */
  lemma {:induction false} PickIsDataUnder(rs: seq<Rec>, key: bytes)
    requires EndOf(rs) < TWO32
    ensures Pick(rs, WithHash(Entries(rs), HashOf(key)), key) == DataUnder(rs, key)
  {
    hide Pack, HashOf, RecordAt;
    if rs != [] {
      hide Entries, DataUnder, WithHash, RecordBytes;
      var init, r, h := rs[..|rs| - 1], rs[|rs| - 1], HashOf(key);
      assert rs == init + [r];
      assert EndOf(init) <= EndOf(rs) by {
        RecordAdded(init, r);
      }
      PickIsDataUnder(init, key);
      var ws := WithHash(Entries(init), h);
      WithHashBelow(init, h);
      WithHashAdded(init, r, h);
      DataUnderAdded(init, r, key);
      PickBelow(init, r, ws, key);
      if HashOf(r.key) == h {
        PickLast(init, r, ws, key);
      } else {
        assert ws + [] == ws;
        assert DataUnder(init, key) + [] == DataUnder(init, key);
      }
    }
  }

  lemma PickLast(rs: seq<Rec>, r: Rec, ws: seq<Hp>, key: bytes)
    requires EndOf(rs) < TWO32 && HashOf(r.key) == HashOf(key)
    ensures Pick(rs + [r], ws + [Hp(HashOf(key), W32(EndOf(rs)))], key)
         == Pick(rs + [r], ws, key) + (if r.key == key then [r.data] else [])
  {
    hide RecordAt, EndOf, HashOf;
    var x := Hp(HashOf(key), W32(EndOf(rs)));
    NewestRecord(rs, r);
    assert (ws + [x])[..|ws|] == ws;
  }

  // --- reading the image --------------------------------------------------------------------------

  lemma {:induction false} SlotAt(t: seq<Hp>, j: nat)
    requires j < |t|
    ensures SlotBytes(t)[8 * j..8 * j + 8] == Pack(t[j].h) + Pack(t[j].p)
  {
    hide Pack;
    var init := t[..|t| - 1];
    if j < |init| {
      SlotAt(init, j);
      assert SlotBytes(t)[8 * j..8 * j + 8] == SlotBytes(init)[8 * j..8 * j + 8];
    }
  }

  lemma {:induction false} HeaderAt(e: seq<Hp>, base: nat, n: nat, b: nat)
    requires b < n
    ensures HeaderBytes(e, base, n)[8 * b..8 * b + 8]
         == Pack(base + |TableBytes(e, b)|) + Pack(2 * |Bucket(e, b)|)
    decreases n
  {
    hide Pack, Bucket, TableBytes;
    if b < n - 1 {
      HeaderAt(e, base, n - 1, b);
      assert HeaderBytes(e, base, n)[8 * b..8 * b + 8] == HeaderBytes(e, base, n - 1)[8 * b..8 * b + 8];
    }
  }

  lemma {:induction false} TableInside(e: seq<Hp>, n: nat, b: nat)
    requires b < n
    ensures var t, at := SlotBytes(TableOf(Bucket(e, b))), |TableBytes(e, b)|;
            at + |t| <= |TableBytes(e, n)| && TableBytes(e, n)[at..at + |t|] == t
    decreases n
  {
    hide Bucket, SlotBytes, TableOf;
    if b < n - 1 {
      TableInside(e, n - 1, b);
      var t, at := SlotBytes(TableOf(Bucket(e, b))), |TableBytes(e, b)|;
      assert TableBytes(e, n)[at..at + |t|] == TableBytes(e, n - 1)[at..at + |t|];
    }
  }

  /** The bytes of a record, found through its position. */
  lemma {:induction false} RecordInside(rs: seq<Rec>, p: uint32)
    requires RecordAt(rs, p).Some?
    ensures var s, at := RecBytes(RecordAt(rs, p).value), p - HEADER_SIZE;
            0 <= at && at + |s| <= |RecordBytes(rs)| && RecordBytes(rs)[at..at + |s|] == s
  {
    hide RecBytes;
    var init := rs[..|rs| - 1];
    if EndOf(init) != p {
      RecordInside(init, p);
      var s, at := RecBytes(RecordAt(rs, p).value), p - HEADER_SIZE;
      assert RecordBytes(rs)[at..at + |s|] == RecordBytes(init)[at..at + |s|];
    } else {
      assert RecordBytes(rs)[|RecordBytes(init)|..] == RecBytes(rs[|rs| - 1]);
    }
  }

  lemma SliceOfSlice(s: bytes, a: nat, b: nat, c: nat, d: nat)
    requires a <= b <= |s| && c <= d <= b - a
    ensures s[a..b][c..d] == s[a + c..a + d]
  {
    forall i | 0 <= i < d - c
      ensures s[a..b][c..d][i] == s[a + c..a + d][i]
    {
    }
  }

  /** Reading a slot of bucket b's table. */
  lemma ReadSlot(rs: seq<Rec>, b: nat, j: nat)
    requires b < 256 && |Image(rs)| < TWO32 && j < 2 * |Bucket(Entries(rs), b)|
    ensures var e := Entries(rs);
            var t, hpos := TableOf(Bucket(e, b)), EndOf(rs) + |TableBytes(e, b)|;
            hpos + 8 * |t| <= |Image(rs)|
            && ReadAt(Image(rs), 8, hpos + 8 * j) == Some(Pack(t[j].h) + Pack(t[j].p))
  {
    hide Pack, Bucket, SlotBytes, InsertAll, TableBytes, HeaderBytes, RecordBytes, Entries;
    var e := Entries(rs);
    var t, at := TableOf(Bucket(e, b)), |TableBytes(e, b)|;
    var tables, front := TableBytes(e, 256), HeaderBytes(e, EndOf(rs), 256) + RecordBytes(rs);
    TableInside(e, 256, b);
    SlotAt(t, j);
    SliceOfSlice(tables, at, at + |SlotBytes(t)|, 8 * j, 8 * j + 8);
    var hpos := EndOf(rs) + at;
    assert Image(rs) == front + tables;
    assert |front| == EndOf(rs);
    assert (front + tables)[hpos + 8 * j..hpos + 8 * j + 8] == tables[at + 8 * j..at + 8 * j + 8];
  }

  lemma ReadHeader(rs: seq<Rec>, b: nat)
    requires b < 256 && |Image(rs)| < TWO32
    ensures var e := Entries(rs);
            ReadAt(Image(rs), 8, 8 * b)
            == Some(Pack(EndOf(rs) + |TableBytes(e, b)|) + Pack(2 * |Bucket(e, b)|))
  {
    hide Pack, Bucket, TableBytes, HeaderBytes, RecordBytes, Entries;
    var e := Entries(rs);
    HeaderAt(e, EndOf(rs), 256, b);
    assert Image(rs)[8 * b..8 * b + 8] == HeaderBytes(e, EndOf(rs), 256)[8 * b..8 * b + 8];
  }

  lemma EqualInParts(s: bytes, t: bytes, n: nat)
    requires n <= |s| == |t|
    ensures s == t <==> s[..n] == t[..n] && s[n..] == t[n..]
  {
    assert s == s[..n] + s[n..] && t == t[..n] + t[n..];
  }

  /** Comparing a key with file bytes that all exist says exactly whether they are equal. */
  lemma {:induction false} MatchDecides(file: bytes, key: bytes, pos: uint32)
    requires pos + |key| <= |file| < TWO32
    ensures MatchAt(file, key, pos) == if file[pos..pos + |key|] == key then Present else Absent
    decreases |key|
  {
    if key != [] {
      var n := if 32 > |key| then |key| else 32;
      MatchDecides(file, key[n..], pos + n);
      var s := file[pos..pos + |key|];
      EqualInParts(s, key, n);
      SliceOfSlice(file, pos, pos + |key|, 0, n);
      SliceOfSlice(file, pos, pos + |key|, n, |key|);
      assert W32(pos + n) == pos + n;
    }
  }

  /** The bytes of a record within the whole file. */
  lemma RecordInImage(rs: seq<Rec>, p: uint32)
    requires RecordAt(rs, p).Some? && |Image(rs)| < TWO32
    ensures var r := RecordAt(rs, p).value;
            var k := p + 8 + |r.key|;
            && k + |r.data| <= |Image(rs)|
            && Image(rs)[p..p + 8] == Pack(|r.key|) + Pack(|r.data|)
            && Image(rs)[p + 8..k] == r.key
            && Image(rs)[k..k + |r.data|] == r.data
  {
    hide Pack, TableBytes, HeaderBytes, RecordBytes, Entries;
    RecordInside(rs, p);
    var e, r := Entries(rs), RecordAt(rs, p).value;
    var s, at := RecBytes(r), p - HEADER_SIZE;
    var header, tables := HeaderBytes(e, EndOf(rs), 256), TableBytes(e, 256);
    assert Image(rs) == header + RecordBytes(rs) + tables;
    var whole := Image(rs)[p..p + |s|];
    assert whole == RecordBytes(rs)[at..at + |s|] == s;
    var k := 8 + |r.key|;
    assert s[..8] == Pack(|r.key|) + Pack(|r.data|) && s[8..k] == r.key && s[k..] == r.data;
    SliceOfSlice(Image(rs), p, p + |s|, 0, 8);
    SliceOfSlice(Image(rs), p, p + |s|, 8, k);
    SliceOfSlice(Image(rs), p, p + |s|, k, |s|);
  }

  lemma UnpackPair(u: uint32, v: uint32)
    ensures Unpack((Pack(u) + Pack(v))[..4]) == u && Unpack((Pack(u) + Pack(v))[4..]) == v
  {
    var s := Pack(u) + Pack(v);
    assert s[..4] == Pack(u) && s[4..] == Pack(v);
    UnpackPack(u);
    UnpackPack(v);
  }

  /** The reader's decision about an occupied slot: a hit exactly when its record has the key. */
  lemma ProbeDecides(rs: seq<Rec>, key: chunk, w: Hp)
    requires |Image(rs)| < TWO32 && RecordAt(rs, w.p).Some?
    requires w.h == HashOf(RecordAt(rs, w.p).value.key)
    ensures var r := RecordAt(rs, w.p).value;
            ProbeAt(Image(rs), key, HashOf(key), w.h, w.p)
            == if r.key == key then Hit(W32(w.p + 8 + |key|), |r.data|) else Skip
  {
    hide Pack, Unpack, HashFrom, RecordAt, Image, MatchAt;
    var r := RecordAt(rs, w.p).value;
    RecordInImage(rs, w.p);
    UnpackPair(|r.key|, |r.data|);
    if w.h == HashOf(key) && |r.key| == |key| {
      MatchDecides(Image(rs), key, w.p + 8);
    }
  }

  // --- the search ---------------------------------------------------------------------------------

  /** Every entry in the table leads to a record with its hash. */
  ghost predicate Sound(rs: seq<Rec>, t: seq<Hp>) {
    forall j :: 0 <= j < |t| && t[j].p != 0 ==> SoundEntry(rs, t[j])
  }

  ghost predicate SoundEntry(rs: seq<Rec>, w: Hp) {
    RecordAt(rs, w.p).Some? && w.h == HashOf(RecordAt(rs, w.p).value.key)
  }

  lemma {:induction false} InsertAllSound(rs: seq<Rec>, t: seq<Hp>, xs: seq<Hp>)
    requires Sound(rs, t) && forall i :: 0 <= i < |xs| ==> SoundEntry(rs, xs[i])
    ensures Sound(rs, InsertAll(t, xs))
  {
    hide RecordAt, HashFrom;
    if xs != [] {
      InsertAllSound(rs, t, xs[..|xs| - 1]);
    }
  }

  lemma {:induction false} BucketFrom(e: seq<Hp>, b: nat, i: nat)
    requires i < |Bucket(e, b)|
    ensures Bucket(e, b)[i] in e
  {
    if i < |Bucket(e[..|e| - 1], b)| {
      BucketFrom(e[..|e| - 1], b, i);
    }
  }

  lemma TableSound(rs: seq<Rec>, b: nat)
    requires EndOf(rs) < TWO32
    ensures Sound(rs, TableOf(Bucket(Entries(rs), b)))
  {
    hide Entries, Bucket, RecordAt, HashFrom, EndOf;
    var e := Entries(rs);
    var xs := Bucket(e, b);
    forall i | 0 <= i < |xs|
      ensures SoundEntry(rs, xs[i])
    {
      BucketFrom(e, b, i);
      var j :| 0 <= j < |e| && e[j] == xs[i];
      EntryHasRecord(rs, j);
    }
    InsertAllSound(rs, EmptyTable(2 * |xs|), xs);
  }

  /** The data still to be found under `key` when `k` slots have been tried. */
  function Remaining(rs: seq<Rec>, t: seq<Hp>, k: nat, key: bytes): seq<bytes>
    requires t != []
  {
    Pick(rs, Walk(t, Home(HashOf(key), |t|), k, HashOf(key)), key)
  }

  /** One more slot: its record's data comes first if the key is right. */
  lemma RemainingStep(rs: seq<Rec>, t: seq<Hp>, k: nat, key: bytes)
    requires k < |t| && Sound(rs, t)
    ensures var w := At(t, Home(HashOf(key), |t|), k);
            Remaining(rs, t, k, key)
            == if w.p == 0 then []
               else
                 assert SoundEntry(rs, w);
                 (if RecordAt(rs, w.p).value.key == key then [RecordAt(rs, w.p).value.data] else [])
                 + Remaining(rs, t, k + 1, key)
  {
    hide RecordAt, HashFrom, HashOf;
    var h := HashOf(key);
    var s := Home(h, |t|);
    var w := At(t, s, k);
    if w.p != 0 {
      assert SoundEntry(rs, w);
      if w.h == h {
        PickConcat(rs, [w], Walk(t, s, k + 1, h), key);
        assert [w][..0] == [];
      } else {
        assert Walk(t, s, k, h) == Walk(t, s, k + 1, h);
        assert [] + Remaining(rs, t, k + 1, key) == Remaining(rs, t, k + 1, key);
      }
    }
  }

  function TableFor(rs: seq<Rec>, key: bytes): seq<Hp> {
    TableOf(Bucket(Entries(rs), BucketOf(HashOf(key))))
  }

  function TablePosition(rs: seq<Rec>, key: bytes): nat {
    EndOf(rs) + |TableBytes(Entries(rs), BucketOf(HashOf(key)))|
  }

  /** The cursor is part-way along the probe path of `key`. */
  ghost predicate Searching(rs: seq<Rec>, key: bytes, c: Cursor) {
    var t, h := TableFor(rs, key), HashOf(key);
    && t != [] && c.hslots == |t| && c.loop <= |t| && c.khash == h
    && c.hpos == TablePosition(rs, key)
    && (c.loop < |t| ==> c.kpos == c.hpos + 8 * Slot(Home(h, |t|), c.loop, |t|))
  }

  // The reader's 32-bit address arithmetic does not wrap inside a table that lies in the file.

  lemma HeaderOffset(u: uint32)
    ensures W32(u * 8) % HEADER_SIZE == 8 * BucketOf(u)
  {
    var r, q := u % 256, u / 256;
    var lo, hi := q % 0x20_0000, q / 0x20_0000;
    assert u * 8 == TWO32 * hi + (2048 * lo + 8 * r);
    LowPart(hi, 2048 * lo + 8 * r);
  }

  lemma LowPart(hi: nat, x: uint32)
    ensures W32(TWO32 * hi + x) == x
  {
  }

  lemma SlotAddress(hpos: nat, j: nat, n: nat)
    requires j < n && hpos + 8 * n < TWO32
    ensures W32(hpos + W32(j * 8)) == hpos + 8 * j
  {
  }

  lemma NextAddress(hpos: nat, j: nat, n: nat)
    requires j < n && hpos + 8 * n < TWO32
    ensures W32(hpos + 8 * j + 8) == hpos + 8 * (j + 1)
    ensures W32(hpos + 8 * j + 8) == W32(hpos + W32(n * 8)) <==> j + 1 == n
  {
  }

  lemma SearchingAdvances(rs: seq<Rec>, key: bytes, c: Cursor)
    requires |Image(rs)| < TWO32 && Searching(rs, key, c) && c.loop < c.hslots
    ensures Searching(rs, key, Advance(c))
  {
    hide Image, TableOf, TableBytes, EndOf, HashOf, Bucket, Pack, W32, Home, Entries;
    var t, h := TableFor(rs, key), HashOf(key);
    ReadSlot(rs, BucketOf(h), 0);
    var j := Slot(Home(h, |t|), c.loop, |t|);
    NextAddress(c.hpos, j, |t|);
  }

  /** What the slot under the cursor holds. */
  lemma SlotUnderCursor(rs: seq<Rec>, key: bytes, c: Cursor)
    requires |Image(rs)| < TWO32 && Searching(rs, key, c) && c.loop < c.hslots
    ensures var w := At(TableFor(rs, key), Home(HashOf(key), c.hslots), c.loop);
            var buf := ReadAt(Image(rs), 8, c.kpos);
            buf.Some? && Unpack(buf.value[..4]) == w.h && Unpack(buf.value[4..]) == w.p
  {
    hide Image, TableOf, TableBytes, EndOf, HashOf, Bucket, Pack, Unpack, ReadAt;
    var t, h := TableFor(rs, key), HashOf(key);
    var j := Slot(Home(h, |t|), c.loop, |t|);
    ReadSlot(rs, BucketOf(h), j);
    UnpackPair(t[j].h, t[j].p);
  }

  /** The results still to come: all of them when no search has begun, else what is left of the path. */
  ghost predicate ToCome(rs: seq<Rec>, key: bytes, c: Cursor, ds: seq<bytes>) {
    if c.loop == 0 then ds == DataUnder(rs, key)
    else Searching(rs, key, c) && ds == Remaining(rs, TableFor(rs, key), c.loop, key)
  }

  /** The cursor points to `d` in the file. */
  predicate PointsTo(file: bytes, c: Cursor, d: bytes) {
    c.dpos + c.dlen <= |file| && file[c.dpos..c.dpos + c.dlen] == d
  }

  lemma SearchingShape(rs: seq<Rec>, key: bytes, c: Cursor)
    requires Searching(rs, key, c)
    ensures c.hslots == |TableFor(rs, key)| > 0 && c.loop <= c.hslots && c.khash == HashOf(key)
  {
    hide TableFor, HashOf, TablePosition;
  }

  lemma SearchingIgnoresData(rs: seq<Rec>, key: bytes, c: Cursor, dpos: uint32, dlen: uint32)
    requires Searching(rs, key, c)
    ensures Searching(rs, key, c.(dpos := dpos, dlen := dlen))
  {
    hide TableFor, HashOf, TablePosition;
  }

  lemma EntriesInTableSound(rs: seq<Rec>, key: bytes, k: nat)
    requires |Image(rs)| < TWO32 && k < |TableFor(rs, key)|
    ensures var t := TableFor(rs, key);
            var w := At(t, Home(HashOf(key), |t|), k);
            Sound(rs, t) && (w.p != 0 ==> SoundEntry(rs, w))
  {
    hide TableOf, Bucket, Entries, HashOf, SoundEntry, TableBytes, HeaderBytes, RecordBytes;
    TableSound(rs, BucketOf(HashOf(key)));
  }

  lemma NothingLeft(rs: seq<Rec>, t: seq<Hp>, key: bytes)
    requires t != []
    ensures Remaining(rs, t, |t|, key) == []
  {
  }

  /** The search loop delivers the first of the remaining results, or reports that there are none. */
  lemma {:induction false} SearchFinds(rs: seq<Rec>, key: chunk, c: Cursor)
    requires |Image(rs)| < TWO32 && Searching(rs, key, c)
    ensures var (r, c') := Search(Image(rs), key, c);
            var ds := Remaining(rs, TableFor(rs, key), c.loop, key);
            && Searching(rs, key, c')
            && (if ds == [] then
                  r == Absent && Remaining(rs, TableFor(rs, key), c'.loop, key) == []
                else
                  r == Present && PointsTo(Image(rs), c', ds[0]) && c'.loop > 0
                  && Remaining(rs, TableFor(rs, key), c'.loop, key) == ds[1..])
    decreases c.hslots - c.loop
  {
    hide Image, TableFor, Remaining, HashOf, Unpack, ReadAt, ProbeAt;
    hide Searching, RecordAt, At, Sound, Advance, PointsTo, W32;
    var t, h := TableFor(rs, key), HashOf(key);
    SearchingShape(rs, key, c);
    if c.loop < |t| {
      SlotUnderCursor(rs, key, c);
      SearchingAdvances(rs, key, c);
      EntriesInTableSound(rs, key, c.loop);
      RemainingStep(rs, t, c.loop, key);
      AdvanceCounts(c);
      var w := At(t, Home(h, |t|), c.loop);
      if w.p != 0 {
        ProbeDecides(rs, key, w);
        var r := RecordAt(rs, w.p).value;
        if r.key == key {
          HitDelivers(rs, key, Advance(c), w.p);
        } else {
          SearchFinds(rs, key, Advance(c));
        }
      }
    } else {
      NothingLeft(rs, t, key);
    }
  }

  /** A hit on the record at `p` makes the cursor point to its data. */
  lemma HitDelivers(rs: seq<Rec>, key: chunk, c: Cursor, p: uint32)
    requires |Image(rs)| < TWO32 && Searching(rs, key, c)
    requires RecordAt(rs, p).Some? && RecordAt(rs, p).value.key == key
    ensures var r := RecordAt(rs, p).value;
            var c' := c.(dpos := W32(p + 8 + |key|), dlen := |r.data|);
            PointsTo(Image(rs), c', r.data) && Searching(rs, key, c')
  {
    hide Image, RecordAt, Searching, Pack;
    RecordInImage(rs, p);
    SearchingIgnoresData(rs, key, c, W32(p + 8 + |key|), |RecordAt(rs, p).value.data|);
  }

  lemma AdvanceCounts(c: Cursor)
    requires c.loop < c.hslots
    ensures Advance(c).loop == c.loop + 1 && Advance(c).hslots == c.hslots
  {
  }

  /** The first call finds the table, or that the bucket is empty. */
  lemma BeginFinds(rs: seq<Rec>, key: chunk, c: Cursor)
    requires |Image(rs)| < TWO32 && c.loop == 0
    ensures var (r, c') := Begin(Image(rs), key, c);
            c'.loop == 0
            && if TableFor(rs, key) == [] then r == Absent else r == Present && Searching(rs, key, c')
  {
    hide Image, HashOf, TableOf, Entries, Bucket, Pack, Unpack, ReadAt, EndOf, TableBytes, W32, BucketOf;
    var b, e := BucketOf(HashOf(key)), Entries(rs);
    BucketRange(HashOf(key));
    HeaderOffset(HashOf(key));
    ReadHeader(rs, b);
    HeaderInRange(rs, b);
    UnpackPair(EndOf(rs) + |TableBytes(e, b)|, 2 * |Bucket(e, b)|);
    if TableFor(rs, key) != [] {
      ReadSlot(rs, b, 0);
      var n := |TableFor(rs, key)|;
      SlotAddress(TablePosition(rs, key), Home(HashOf(key), n), n);
    }
  }

  lemma BucketRange(h: uint32)
    ensures BucketOf(h) < 256
  {
  }

  lemma HeaderInRange(rs: seq<Rec>, b: nat)
    requires b < 256 && |Image(rs)| < TWO32
    ensures EndOf(rs) + |TableBytes(Entries(rs), b)| + 2 * |Bucket(Entries(rs), b)| < TWO32
  {
    hide Bucket, TableBytes, HeaderBytes, RecordBytes, Entries, InsertAll, SlotBytes;
    TableInside(Entries(rs), 256, b);
  }

  /** Without any entry in its bucket, a key has no data. */
  lemma EmptyBucketNoData(rs: seq<Rec>, key: bytes)
    requires EndOf(rs) < TWO32 && TableFor(rs, key) == []
    ensures DataUnder(rs, key) == []
  {
    hide Entries, InsertAll, EndOf, HashOf, DataUnder, RecordAt;
    var e, h := Entries(rs), HashOf(key);
    PickIsDataUnder(rs, key);
    BucketKeepsHash(e, h);
    assert Bucket(e, BucketOf(h)) == [];
  }

  /** At the start of the path everything stored under the key is still to come. */
  lemma AllRemainAtFirst(rs: seq<Rec>, key: bytes)
    requires EndOf(rs) < TWO32 && TableFor(rs, key) != []
    ensures Remaining(rs, TableFor(rs, key), 0, key) == DataUnder(rs, key)
  {
    hide Entries, EndOf, HashOf, DataUnder, RecordAt, Walk, InsertAll, WithHash, Bucket;
    EntriesStored(rs);
    LookupFindsAll(Entries(rs), HashOf(key));
    PickIsDataUnder(rs, key);
  }

  /** cdb_findnext on the image of `rs` delivers the results to come one by one, and then 0 for ever. */
  lemma NextFinds(rs: seq<Rec>, key: chunk, c: Cursor, ds: seq<bytes>)
    requires |Image(rs)| < TWO32 && ToCome(rs, key, c, ds)
    ensures var (r, c') := Next(Image(rs), key, c);
            if ds == [] then r == Absent && ToCome(rs, key, c', [])
            else r == Present && PointsTo(Image(rs), c', ds[0]) && ToCome(rs, key, c', ds[1..])
  {
    hide Image, Begin, Search, Searching, TableFor, HashOf, Remaining, DataUnder, EndOf;
    EndInRange(rs);
    if c.loop != 0 {
      SearchFinds(rs, key, c);
      var (r, c') := Search(Image(rs), key, c);
      SearchCounts(Image(rs), key, c);
    } else {
      BeginFinds(rs, key, c);
      var (r, c') := Begin(Image(rs), key, c);
      if TableFor(rs, key) == [] {
        EmptyBucketNoData(rs, key);
      } else {
        AllRemainAtFirst(rs, key);
        SearchFinds(rs, key, c');
      }
    }
  }

  lemma EndInRange(rs: seq<Rec>)
    ensures EndOf(rs) <= |Image(rs)|
  {
    hide TableBytes, HeaderBytes, RecordBytes, Entries;
  }

  lemma {:induction false} SearchCounts(file: bytes, key: chunk, c: Cursor)
    ensures Search(file, key, c).1.loop >= c.loop
    decreases c.hslots - c.loop
  {
    hide ReadAt, ProbeAt, Unpack;
    if c.loop < c.hslots {
      SearchCounts(file, key, Advance(c));
    }
  }

  // --- whole runs ---------------------------------------------------------------------------------

  /** cdb_findstart and repeated cdb_findnext: collects everything found under the key. */
  method FetchAll(reader: Reader, key: chunk, ghost rs: seq<Rec>) returns (found: seq<bytes>)
    requires reader.file == Image(rs) && |Image(rs)| < TWO32
    modifies reader
    ensures found == DataUnder(rs, key)
  {
    hide Image, Next, DataUnder, ToCome;
    reader.FindStart();
    found := [];
    ghost var ds := DataUnder(rs, key);
    NothingFoundYet(rs, key, reader.State());
    while true
      invariant found + ds == DataUnder(rs, key)
      invariant ToCome(rs, key, reader.State(), ds)
      decreases |ds|
    {
      NextFinds(rs, key, reader.State(), ds);
      var r := reader.FindNext(key);
      if r != Present {
        return;
      }
      found := found + [reader.file[reader.dpos..reader.dpos + reader.dlen]];
      ds := ds[1..];
    }
  }

  lemma NothingFoundYet(rs: seq<Rec>, key: bytes, c: Cursor)
    requires c.loop == 0
    ensures ToCome(rs, key, c, DataUnder(rs, key))
  {
  }

  /** Writes a database and then looks a key up in it: what was added is what is found, in order. */
  method StoreAndFetch(rs: seq<Rec>, key: chunk, stalls: nat) returns (ok: bool, found: seq<bytes>)
    ensures ok ==> found == DataUnder(rs, key)
  {
    hide Image, DataUnder;
    found := [];
    var file := new File(stalls);
    var maker;
    ok, maker := Maker.Start(file);
    if !ok { return; }
    for i := 0 to |rs|
      invariant maker.Valid() && maker.records == rs[..i]
      invariant fresh(file) && fresh(maker) && fresh(maker.b) && fresh(maker.b.x) && maker.file == file
    {
      ok := maker.Add(rs[i]);
      if !ok { return; }
      assert rs[..i + 1] == rs[..i] + [rs[i]];
    }
    assert rs[..|rs|] == rs;
    ok := maker.Finish();
    if !ok { return; }
    var reader := new Reader(file.Contents());
    found := FetchAll(reader, key, rs);
  }
}
