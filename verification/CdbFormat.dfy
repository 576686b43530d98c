/** The constant-database format shared by cdb_make.c and cdb.c: hash, buckets, probe tables, file image. */
module CdbFormat {
  import opened Bytes

  const CDB_HASHSTART: uint32 := 5381
  const HEADER_SIZE := 2048

  /** cdb_hashadd: 33 times the hash so far, exclusive-or the byte, in 32 bits. */
  function HashAdd(h: uint32, c: byte): uint32 {
    Xor32(W32(h + W32(h * 32)), c)
  }

  function HashFrom(h: uint32, s: bytes): uint32
    decreases |s|
  {
    if s == [] then h else HashFrom(HashAdd(h, s[0]), s[1..])
  }

  function HashOf(s: bytes): uint32 {
    HashFrom(CDB_HASHSTART, s)
  }

  /** cdb_hash. */
  method Hash(s: bytes) returns (h: uint32)
    ensures h == HashOf(s)
  {
    h := CDB_HASHSTART;
    var rest := s;
    while rest != []
      invariant HashFrom(h, rest) == HashOf(s)
    {
      h := HashAdd(h, rest[0]);
      rest := rest[1..];
    }
  }

  /** A record as handed to cdb_make_add. */
  datatype Rec = Rec(key: chunk, data: chunk)

  /** struct cdb_hp: the hash of a key and the position of its record. Position 0 marks a free slot. */
  datatype Hp = Hp(h: uint32, p: uint32)

  const FREE := Hp(0, 0)

  function RecBytes(r: Rec): bytes {
    Pack(|r.key|) + Pack(|r.data|) + r.key + r.data
  }

  function RecordBytes(rs: seq<Rec>): bytes {
    if rs == [] then [] else RecordBytes(rs[..|rs| - 1]) + RecBytes(rs[|rs| - 1])
  }

  /** Where the record area of `rs` ends, which is where the next record or the tables begin. */
  function EndOf(rs: seq<Rec>): nat {
    HEADER_SIZE + |RecordBytes(rs)|
  }

  /** The (hash, position) pairs of the records, in insertion order. */
  function Entries(rs: seq<Rec>): (e: seq<Hp>)
    ensures |e| == |rs|
  {
    if rs == [] then []
    else
      var init := rs[..|rs| - 1];
      Entries(init) + [Hp(HashOf(rs[|rs| - 1].key), W32(EndOf(init)))]
  }

  function BucketOf(h: uint32): (b: nat)
    ensures b < 256
  {
    h % 256
  }

  /** The entries of bucket `b`, in order. */
  function Bucket(e: seq<Hp>, b: nat): seq<Hp> {
    if e == [] then []
    else Bucket(e[..|e| - 1], b) + (if BucketOf(e[|e| - 1].h) == b then [e[|e| - 1]] else [])
  }

  /** The entries whose hash is exactly `h`, in order. */
  function WithHash(e: seq<Hp>, h: uint32): seq<Hp> {
    if e == [] then []
    else WithHash(e[..|e| - 1], h) + (if e[|e| - 1].h == h then [e[|e| - 1]] else [])
  }

  // --- linear probing ---------------------------------------------------------------------------

  /** The first slot tried for hash `h` in a table of `n` slots. */
  function Home(h: uint32, n: nat): nat
    requires n > 0
    ensures Home(h, n) < n
  {
    h / 256 % n
  }

  /** The slot tried after `k` steps from slot `s`, wrapping round at the end of the table. */
  function Slot(s: nat, k: nat, n: nat): (r: nat)
    requires s < n && k < n
    ensures r < n
  {
    if s + k < n then s + k else s + k - n
  }

  /** The table entry `k` steps from `s`. */
  function At(t: seq<Hp>, s: nat, k: nat): Hp
    requires s < |t| && k < |t|
  {
    t[Slot(s, k, |t|)]
  }

  /** The number of steps, from `k` on, to a free slot; |t| when there is none. */
  function FreeStep(t: seq<Hp>, s: nat, k: nat): (f: nat)
    requires s < |t| && k <= |t|
    ensures k <= f <= |t|
    ensures f < |t| ==> At(t, s, f).p == 0
    ensures forall i :: k <= i < f ==> At(t, s, i).p != 0
    decreases |t| - k
  {
    if k == |t| || At(t, s, k).p == 0 then k else FreeStep(t, s, k + 1)
  }

  /** Puts `x` into the first free slot on its probe path. */
  function Insert(t: seq<Hp>, x: Hp): (t': seq<Hp>)
    ensures |t'| == |t|
  {
    if t == [] then t
    else
      var s := Home(x.h, |t|);
      var f := FreeStep(t, s, 0);
      if f == |t| then t else t[Slot(s, f, |t|) := x]
  }

  function InsertAll(t: seq<Hp>, xs: seq<Hp>): (t': seq<Hp>)
    ensures |t'| == |t|
  {
    if xs == [] then t else Insert(InsertAll(t, xs[..|xs| - 1]), xs[|xs| - 1])
  }

  function EmptyTable(n: nat): (t: seq<Hp>)
    ensures |t| == n && forall i :: 0 <= i < n ==> t[i] == FREE
  {
    seq(n, _ => FREE)
  }

  /** The half-full table of a bucket. */
  function TableOf(xs: seq<Hp>): (t: seq<Hp>)
    ensures |t| == 2 * |xs|
  {
    InsertAll(EmptyTable(2 * |xs|), xs)
  }

  // --- the file ---------------------------------------------------------------------------------

  function SlotBytes(t: seq<Hp>): (s: bytes)
    ensures |s| == 8 * |t|
  {
    if t == [] then []
    else SlotBytes(t[..|t| - 1]) + (Pack(t[|t| - 1].h) + Pack(t[|t| - 1].p))
  }

  /** The tables of the first `b` buckets. */
  function TableBytes(e: seq<Hp>, b: nat): bytes {
    if b == 0 then [] else TableBytes(e, b - 1) + SlotBytes(TableOf(Bucket(e, b - 1)))
  }

  /** The header entries of the first `b` buckets: table position and number of slots. */
  function HeaderBytes(e: seq<Hp>, base: nat, b: nat): (s: bytes)
    ensures |s| == 8 * b
  {
    if b == 0 then []
    else
      HeaderBytes(e, base, b - 1)
      + (Pack(base + |TableBytes(e, b - 1)|) + Pack(2 * |Bucket(e, b - 1)|))
  }

  /** The whole file for the records `rs`. */
  function Image(rs: seq<Rec>): bytes {
    var e := Entries(rs);
    HeaderBytes(e, EndOf(rs), 256) + RecordBytes(rs) + TableBytes(e, 256)
  }

  /** What a lookup must deliver: the data of the records under `key`, in insertion order. */
  function DataUnder(rs: seq<Rec>, key: bytes): seq<bytes> {
    if rs == [] then []
    else
      DataUnder(rs[..|rs| - 1], key)
      + (if rs[|rs| - 1].key == key then [rs[|rs| - 1].data] else [])
  }
}
