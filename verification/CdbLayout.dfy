/** The bytes of a finished database as any reader of the format finds them, whoever wrote them. */
module CdbLayout {
  import opened Bytes
  import opened CdbFormat
  import opened CdbProbe
  import opened Cdb
  import opened CdbRoundTrip
  import opened CdbMake

  /** The number that four bytes of the file stand for, least significant first. */
  function Number(file: bytes, p: nat): uint32
    requires p + 4 <= |file|
  {
    file[p] as nat + 256 * file[p + 1] as nat + 65536 * file[p + 2] as nat + 16777216 * file[p + 3] as nat
  }

  lemma NumbersRead(file: bytes, p: uint32, u: uint32, v: uint32)
    requires ReadAt(file, 8, p) == Some(Pack(u) + Pack(v))
    ensures p + 8 <= |file| && Number(file, p) == u && Number(file, p + 4) == v
  {
    hide Pack;
    UnpackPair(u, v);
    var s := file[p..p + 8];
    assert s[..4] == file[p..p + 4] && s[4..] == file[p + 4..p + 8];
  }

  // --- the hash -----------------------------------------------------------------------------------

  lemma {:induction false} HashSnoc(h: uint32, s: bytes, c: byte)
    ensures HashFrom(h, s + [c]) == HashAdd(HashFrom(h, s), c)
    decreases |s|
  {
    hide HashAdd;
    if s == [] {
      assert (s + [c])[1..] == [];
    } else {
      assert (s + [c])[1..] == s[1..] + [c];
      HashSnoc(HashAdd(h, s[0]), s[1..], c);
    }
  }

  /** The hash begins at 5381 and is multiplied by 33 before each byte is combined with it. */
  lemma HashSteps(s: bytes, c: byte)
    ensures HashOf([]) == 5381 && HashOf(s + [c]) == Xor(33 * HashOf(s) % 0x1_0000_0000, c)
  {
    hide HashFrom, Xor;
    HashSnoc(CDB_HASHSTART, s, c);
    ThirtyThree(HashOf(s));
    assert HashFrom(CDB_HASHSTART, []) == CDB_HASHSTART by { HashNothing(CDB_HASHSTART); }
  }

  lemma HashNothing(h: uint32)
    ensures HashFrom(h, []) == h
  {
  }

  lemma ThirtyThree(h: uint32)
    ensures W32(h + W32(h * 32)) == 33 * h % 0x1_0000_0000
  {
    var q, r := h * 32 / TWO32, h * 32 % TWO32;
    assert 33 * h == TWO32 * q + (h + r);
  }

  // --- the tables ---------------------------------------------------------------------------------

  /** The number of records whose hash is b modulo 256. */
  function Sharing(rs: seq<Rec>, b: nat): nat {
    if rs == [] then 0
    else Sharing(rs[..|rs| - 1], b) + if HashOf(rs[|rs| - 1].key) % 256 == b then 1 else 0
  }

  lemma {:induction false} SharingIsBucket(rs: seq<Rec>, b: nat)
    ensures Sharing(rs, b) == |Bucket(Entries(rs), b)|
  {
    hide HashOf, EndOf;
    if rs != [] {
      SharingIsBucket(rs[..|rs| - 1], b);
      var e := Entries(rs);
      assert e[..|rs| - 1] == Entries(rs[..|rs| - 1]);
    }
  }

  /** Every bucket has its place in the header: where its table is, and twice as many slots as it has records. */
  lemma TableOnDisk(rs: seq<Rec>, b: nat)
    requires b < 256 && |Image(rs)| < TWO32
    ensures var file := Image(rs);
            |file| >= 2048 && var hpos, n := Number(file, 8 * b), Number(file, 8 * b + 4);
            && n == 2 * Sharing(rs, b) && hpos + 8 * n <= |file|
            && hpos == EndOf(rs) + |TableBytes(Entries(rs), b)|
  {
    hide Image, Pack, Bucket, TableOf, TableBytes, EndOf, Entries, ReadAt, Number;
    var e := Entries(rs);
    ImageLong(rs);
    ReadHeader(rs, b);
    HeaderInRange(rs, b);
    NumbersRead(Image(rs), 8 * b, EndOf(rs) + |TableBytes(e, b)|, 2 * |Bucket(e, b)|);
    SharingIsBucket(rs, b);
    if Bucket(e, b) != [] {
      ReadSlot(rs, b, 0);
    } else {
      TableFits(rs, b);
    }
  }

  lemma ImageLong(rs: seq<Rec>)
    ensures |Image(rs)| >= 2048
  {
    hide TableBytes, RecordBytes, Entries, HeaderBytes;
  }

  lemma TableFits(rs: seq<Rec>, b: nat)
    requires b < 256
    ensures EndOf(rs) + |TableBytes(Entries(rs), b)| <= |Image(rs)|
  {
    hide Bucket, TableBytes, HeaderBytes, RecordBytes, Entries, InsertAll, SlotBytes;
    TableInside(Entries(rs), 256, b);
  }

  lemma {:induction false} HashListed(e: seq<Hp>, h: uint32, i: nat)
    requires i < |e| && e[i].h == h
    ensures e[i] in WithHash(e, h)
  {
    if i < |e| - 1 {
      HashListed(e[..|e| - 1], h, i);
    }
  }

  /** An entry met on the way is in a slot, and no slot before it is free. */
  lemma {:induction false} WalkMeets(t: seq<Hp>, s: nat, k: nat, h: uint32, w: Hp) returns (j: nat)
    requires s < |t| && w in Walk(t, s, k, h)
    ensures k <= j < |t| && At(t, s, j) == w && w.h == h
    ensures forall i :: k <= i <= j ==> At(t, s, i).p != 0
    decreases |t| - k
  {
    hide At;
    if At(t, s, k) == w && w.h == h {
      j := k;
    } else {
      j := WalkMeets(t, s, k + 1, h, w);
    }
  }

  lemma SlotModulo(h: uint32, k: nat, n: nat)
    requires 0 < n && k < n
    ensures Slot(Home(h, n), k, n) == (h / 256 + k) % n
  {
    var q, r := h / 256 / n, h / 256 % n;
    assert h / 256 == n * q + r;
    if r + k < n {
      RemainderIs(n, q, r + k);
    } else {
      assert n * q + (r + k) == n * (q + 1) + (r + k - n);
      RemainderIs(n, q + 1, r + k - n);
    }
  }

  /** Where the k-th slot tried for the hash lies in the file, if the table is at hpos and has n slots. */
  function Tried(h: uint32, hpos: nat, n: nat, k: nat): (at: nat)
    requires n > 0
    ensures hpos <= at && at + 8 <= hpos + 8 * n
  {
    hpos + 8 * ((h / 256 + k) % n)
  }

  /** The k-th slot tried for the hash: the hash and the position that stand there. */
  function SlotRead(file: bytes, h: uint32, hpos: nat, n: nat, k: nat): Hp
    requires n > 0 && hpos + 8 * n <= |file|
  {
    Hp(Number(file, Tried(h, hpos, n, k)), Number(file, Tried(h, hpos, n, k) + 4))
  }

  /** At position p the file has the lengths of the key and of the data, the key and the data. */
  predicate RecordRead(file: bytes, p: nat, r: Rec) {
    && p + 8 + |r.key| + |r.data| <= |file|
    && Number(file, p) == |r.key| && Number(file, p + 4) == |r.data|
    && file[p + 8..p + 8 + |r.key|] == r.key
    && file[p + 8 + |r.key|..p + 8 + |r.key| + |r.data|] == r.data
  }

  lemma SlotOnDisk(rs: seq<Rec>, h: uint32, k: nat)
    requires |Image(rs)| < TWO32
    requires var t := TableOf(Bucket(Entries(rs), BucketOf(h))); k < |t|
    ensures var b := BucketOf(h);
            var t, hpos := TableOf(Bucket(Entries(rs), b)), EndOf(rs) + |TableBytes(Entries(rs), b)|;
            && hpos + 8 * |t| <= |Image(rs)|
            && SlotRead(Image(rs), h, hpos, |t|, k) == At(t, Home(h, |t|), k)
  {
    hide Image, TableOf, Bucket, Entries, TableBytes, EndOf, Number, Pack, ReadAt, Home;
    var b := BucketOf(h);
    var t, hpos := TableOf(Bucket(Entries(rs), b)), EndOf(rs) + |TableBytes(Entries(rs), b)|;
    var j := Slot(Home(h, |t|), k, |t|);
    SlotModulo(h, k, |t|);
    ReadSlot(rs, b, j);
    NumbersRead(Image(rs), hpos + 8 * j, t[j].h, t[j].p);
  }

  /**
   * Every record is found in the file by the rules of the format: with h the hash of its key, the table is that of
   * bucket h modulo 256; its slots are tried from number h / 256 on, round and round; none of them is empty before
   * the one that holds h and the position of the record; and at that position are the lengths, the key and the data.
   */
  lemma RecordOnDisk(rs: seq<Rec>, i: nat) returns (k: nat)
    requires i < |rs| && |Image(rs)| < TWO32
    ensures var file, r, h := Image(rs), rs[i], HashOf(rs[i].key);
            |file| >= 2048 && var hpos, n := Number(file, 8 * (h % 256)), Number(file, 8 * (h % 256) + 4);
            && k < n && hpos + 8 * n <= |file|
            && (forall j :: 0 <= j <= k ==> SlotRead(file, h, hpos, n, j).p != 0)
            && SlotRead(file, h, hpos, n, k).h == h && RecordRead(file, SlotRead(file, h, hpos, n, k).p, r)
  {
    hide Image, TableOf, Bucket, Entries, TableBytes, EndOf, Number, HashOf, WithHash, Walk, Home, SlotRead, At;
    hide RecordRead;
    var e, h := Entries(rs), HashOf(rs[i].key);
    var b := BucketOf(h);
    EndInRange(rs);
    EntryHasRecord(rs, i);
    EntriesStored(rs);
    HashListed(e, h, i);
    BucketKeepsHash(e, h);
    BucketNotEmpty(e, h, i);
    LookupFindsAll(e, h);
    var t := TableOf(Bucket(e, b));
    k := WalkMeets(t, Home(h, |t|), 0, h, e[i]);
    TableOnDisk(rs, b);
    SharingIsBucket(rs, b);
    forall j | 0 <= j <= k
      ensures var hpos := Number(Image(rs), 8 * b);
              SlotRead(Image(rs), h, hpos, |t|, j).p != 0
    {
      SlotOnDisk(rs, h, j);
    }
    SlotOnDisk(rs, h, k);
    RecordThere(rs, e[i].p, rs[i]);
  }

  lemma BucketNotEmpty(e: seq<Hp>, h: uint32, i: nat)
    requires i < |e| && e[i] in WithHash(e, h)
    ensures Bucket(e, BucketOf(h)) != []
  {
    hide Bucket;
    BucketKeepsHash(e, h);
    assert WithHash([], h) == [];
  }

  lemma RecordThere(rs: seq<Rec>, p: uint32, r: Rec)
    requires RecordAt(rs, p) == Some(r) && |Image(rs)| < TWO32
    ensures RecordRead(Image(rs), p, r)
  {
    hide Image, Pack, Number, RecordAt;
    RecordInImage(rs, p);
    NumbersRead(Image(rs), p, |r.key|, |r.data|);
  }
}
