/** cdb_make.c: collecting records, then writing the hash tables and the header. */
module CdbMake {
  import opened Bytes
  import opened Buffer
  import opened CdbFormat
  import opened CdbProbe

  const CDB_HPLIST := 1000
  const BSPACE := 8192

  // --- facts about the collected entries ----------------------------------------------------------

  /** The entries held by a newest-first list of blocks, in insertion order. */
  function Flat(head: seq<seq<Hp>>): seq<Hp> {
    if head == [] then [] else Flat(head[1..]) + head[0]
  }

  /** The entries still to be visited when block `x` is being read backwards and `i` of it are left. */
  function Unseen(head: seq<seq<Hp>>, x: nat, i: nat): seq<Hp>
    requires x < |head| && i <= |head[x]|
  {
    Flat(head[x + 1..]) + head[x][..i]
  }

  /** Visiting one entry of a block, and moving from one block to the next. */
  lemma UnseenLast(head: seq<seq<Hp>>, x: nat, i: nat, e: seq<Hp>, m: nat)
    requires x < |head| && 0 < i <= |head[x]| && m <= |e| && e[..m] == Unseen(head, x, i)
    ensures 0 < m && head[x][i - 1] == e[m - 1] && e[..m - 1] == Unseen(head, x, i - 1)
  {
    hide Flat;
    assert e[..m][m - 1] == head[x][i - 1];
    assert e[..m - 1] == e[..m][..m - 1];
  }

  lemma UnseenBlock(head: seq<seq<Hp>>, x: nat)
    requires x < |head|
    ensures Flat(head[x..]) == Unseen(head, x, |head[x]|) && Unseen(head, x, 0) == Flat(head[x + 1..])
  {
    assert head[x..][1..] == head[x + 1..];
  }

  lemma {:induction false} BucketConcat(e: seq<Hp>, f: seq<Hp>, b: nat)
    ensures Bucket(e + f, b) == Bucket(e, b) + Bucket(f, b)
  {
    if f == [] {
      assert e + f == e;
    } else {
      var init := f[..|f| - 1];
      assert (e + f)[..|e + f| - 1] == e + init;
      BucketConcat(e, init, b);
    }
  }

  /** Splitting off the last entry of a prefix prepends it to its bucket of the rest. */
  lemma BucketStep(e: seq<Hp>, m: nat, b: nat)
    requires 0 < m <= |e|
    ensures Bucket(e[m - 1..], b)
         == (if BucketOf(e[m - 1].h) == b then [e[m - 1]] else []) + Bucket(e[m..], b)
  {
    assert e[m - 1..] == [e[m - 1]] + e[m..];
    BucketConcat([e[m - 1]], e[m..], b);
    assert [e[m - 1]][..0] == [];
  }

  lemma BucketSuffix(e: seq<Hp>, m: nat, b: nat)
    requires m <= |e|
    ensures |Bucket(e[m..], b)| <= |Bucket(e, b)|
  {
    assert e == e[..m] + e[m..];
    BucketConcat(e[..m], e[m..], b);
  }

  lemma {:induction false} BucketLength(e: seq<Hp>, b: nat)
    ensures |Bucket(e, b)| <= |e|
  {
    if e != [] {
      BucketLength(e[..|e| - 1], b);
    }
  }

  /** The number of entries in the buckets below `b`. */
  function Below(e: seq<Hp>, b: nat): nat {
    if b == 0 then 0 else Below(e, b - 1) + |Bucket(e, b - 1)|
  }

  lemma {:induction false} BelowMonotone(e: seq<Hp>, a: nat, b: nat)
    requires a <= b
    ensures Below(e, a) <= Below(e, b)
    decreases b
  {
    if a < b {
      BelowMonotone(e, a, b - 1);
    }
  }

  lemma {:induction false} BelowSnoc(e: seq<Hp>, x: Hp, b: nat)
    ensures Below(e + [x], b) == Below(e, b) + (if BucketOf(x.h) < b then 1 else 0)
  {
    if b != 0 {
      BelowSnoc(e, x, b - 1);
      assert (e + [x])[..|e|] == e;
    }
  }

  /** The buckets together hold every entry once. */
  lemma {:induction false} BelowAll(e: seq<Hp>)
    ensures Below(e, 256) == |e|
  {
    if e == [] {
      BelowNone(256);
    } else {
      var init := e[..|e| - 1];
      BelowAll(init);
      assert e == init + [e[|e| - 1]];
      BelowSnoc(init, e[|e| - 1], 256);
    }
  }

  lemma {:induction false} BelowNone(b: nat)
    ensures Below([], b) == 0
  {
    if b != 0 {
      BelowNone(b - 1);
    }
  }

  // --- the passes of cdb_make_finish ---------------------------------------------------------------

  lemma NoBuckets(e: seq<Hp>)
    ensures forall b: nat :: Bucket(e[|e|..], b) == []
  {
    assert e[|e|..] == [];
  }

  lemma NothingUnseen(head: seq<seq<Hp>>)
    ensures Flat(head[|head|..]) == []
  {
    assert head[|head|..] == [];
  }

  /** Counts the entries of each bucket. */
  method CountBuckets(head: seq<seq<Hp>>, ghost e: seq<Hp>) returns (count: array<uint32>)
    requires Flat(head) == e && |e| < TWO32
    ensures fresh(count) && count.Length == 256
    ensures forall b :: 0 <= b < 256 ==> count[b] == |Bucket(e, b)|
  {
    hide Flat, Unseen, Bucket, BucketOf;
    count := new uint32[256](_ => 0);
    ghost var m: nat := |e|;
    NoBuckets(e);
    assert head[0..] == head && e[..m] == e;
    for x := 0 to |head|
      invariant m <= |e| && e[..m] == Flat(head[x..])
      invariant forall b: nat :: b < 256 ==> count[b] == |Bucket(e[m..], b)|
    {
      var i: nat := |head[x]|;
      UnseenBlock(head, x);
      while i > 0
        invariant i <= |head[x]| && m <= |e| && e[..m] == Unseen(head, x, i)
        invariant forall b: nat :: b < 256 ==> count[b] == |Bucket(e[m..], b)|
      {
        UnseenLast(head, x, i, e, m);
        i := i - 1;
        CountStep(e, m);
        var bucket := BucketOf(head[x][i].h);
        count[bucket] := count[bucket] + 1;
        m := m - 1;
      }
    }
    NothingUnseen(head);
    assert e[m..] == e;
  }

  /** Visiting the entry before e[m..] adds one to the count of its bucket. */
  lemma CountStep(e: seq<Hp>, m: nat)
    requires 0 < m <= |e| < TWO32
    ensures var c := BucketOf(e[m - 1].h);
            |Bucket(e[m..], c)| < TWO32 - 1
            && forall b: nat :: b < 256 ==> |Bucket(e[m - 1..], b)| == |Bucket(e[m..], b)| + (if c == b then 1 else 0)
  {
    hide Bucket, BucketOf;
    BucketLength(e[m..], BucketOf(e[m - 1].h));
    forall b: nat | b < 256
      ensures |Bucket(e[m - 1..], b)| == |Bucket(e[m..], b)| + (if BucketOf(e[m - 1].h) == b then 1 else 0)
    {
      BucketStep(e, m, b);
    }
  }

  /** The number of slots needed for the sorted entries and the largest table. */
  method MemSize(count: array<uint32>, numentries: uint32) returns (memsize: int)
    requires count.Length == 256
    requires numentries < TWO32 / 8
    requires forall b :: 0 <= b < 256 ==> count[b] <= numentries
    ensures memsize >= numentries && memsize < TWO32
    ensures forall b :: 0 <= b < 256 ==> numentries + 2 * count[b] <= memsize
  {
    memsize := 1;
    for i := 0 to 256
      invariant 1 <= memsize < TWO32 / 2
      invariant forall b :: 0 <= b < i ==> 2 * count[b] <= memsize
    {
      var u := count[i] as int * 2;
      if u > memsize {
        memsize := u;
      }
    }
    memsize := memsize + numentries;
  }

  /** start[b] := the end of bucket b's part of the sorted entries. */
  method Ends(count: array<uint32>, ghost e: seq<Hp>) returns (start: array<uint32>)
    requires count.Length == 256 && |e| < TWO32
    requires forall b :: 0 <= b < 256 ==> count[b] == |Bucket(e, b)|
    ensures fresh(start) && start.Length == 256
    ensures forall b :: 0 <= b < 256 ==> start[b] == Below(e, b + 1)
  {
    start := new uint32[256](_ => 0);
    BelowAll(e);
    var u: uint32 := 0;
    for i := 0 to 256
      invariant u == Below(e, i)
      invariant forall b :: 0 <= b < i ==> start[b] == Below(e, b + 1)
    {
      BelowMonotone(e, i + 1, 256);
      u := u + count[i];
      start[i] := u;
    }
  }

  /** What the backward pass has done for bucket `b` once only e[..m] is left: its part is filled from the end. */
  ghost predicate PlacedIn(split: seq<Hp>, start: seq<uint32>, e: seq<Hp>, m: nat, b: nat)
    requires |start| == 256 && m <= |e| <= |split| && b < 256
  {
    && start[b] + |Bucket(e[m..], b)| == Below(e, b + 1)
    && Below(e, b + 1) <= |e|
    && split[start[b]..Below(e, b + 1)] == Bucket(e[m..], b)
  }

  ghost predicate Placed(split: seq<Hp>, start: seq<uint32>, e: seq<Hp>, m: nat)
    requires |start| == 256 && m <= |e| <= |split|
  {
    forall b: nat :: b < 256 ==> PlacedIn(split, start, e, m, b)
  }

  /** The slot for the last unseen entry lies inside its bucket's part. */
  lemma PlaceInRange(split: seq<Hp>, start: seq<uint32>, e: seq<Hp>, m: nat)
    requires |start| == 256 && 0 < m <= |e| <= |split|
    requires PlacedIn(split, start, e, m, BucketOf(e[m - 1].h))
    ensures var c := BucketOf(e[m - 1].h); Below(e, c) < start[c] <= Below(e, c + 1)
  {
    hide Bucket, BucketOf, Below, PlacedIn;
    var c := BucketOf(e[m - 1].h);
    PlacedStart(split, start, e, m, c);
    BelowNext(e, c);
    BucketStep(e, m, c);
    BucketSuffix(e, m - 1, c);
  }

  lemma PlacedStart(split: seq<Hp>, start: seq<uint32>, e: seq<Hp>, m: nat, b: nat)
    requires |start| == 256 && m <= |e| <= |split| && b < 256 && PlacedIn(split, start, e, m, b)
    ensures start[b] as nat + |Bucket(e[m..], b)| == Below(e, b + 1)
  {
    hide Bucket, Below;
  }

  lemma BelowNext(e: seq<Hp>, b: nat)
    ensures Below(e, b + 1) == Below(e, b) + |Bucket(e, b)|
  {
    hide Bucket;
  }

  /** Storing the last unseen entry just before its bucket's filled part extends that part. */
  lemma PlaceOneOwn(split: seq<Hp>, start: seq<uint32>, e: seq<Hp>, m: nat)
    requires |start| == 256 && 0 < m <= |e| <= |split|
    requires PlacedIn(split, start, e, m, BucketOf(e[m - 1].h))
    ensures var c := BucketOf(e[m - 1].h);
            0 < start[c] <= |e|
            && PlacedIn(split[start[c] - 1 := e[m - 1]], start[c := start[c] - 1], e, m - 1, c)
  {
    var c := BucketOf(e[m - 1].h);
    PlaceInRange(split, start, e, m);
    BucketStep(e, m, c);
    var split' := split[start[c] - 1 := e[m - 1]];
    assert split'[start[c] - 1..Below(e, c + 1)] == [e[m - 1]] + split[start[c]..Below(e, c + 1)];
  }

  /** ... and leaves the parts of the other buckets alone. */
  lemma PlaceOneOther(split: seq<Hp>, start: seq<uint32>, e: seq<Hp>, m: nat, b: nat)
    requires |start| == 256 && 0 < m <= |e| <= |split| && b < 256 && b != BucketOf(e[m - 1].h)
    requires PlacedIn(split, start, e, m, BucketOf(e[m - 1].h)) && PlacedIn(split, start, e, m, b)
    ensures var c := BucketOf(e[m - 1].h);
            0 < start[c] <= |e|
            && PlacedIn(split[start[c] - 1 := e[m - 1]], start[c := start[c] - 1], e, m - 1, b)
  {
    hide Bucket;
    var c := BucketOf(e[m - 1].h);
    PlaceInRange(split, start, e, m);
    assert Bucket(e[m - 1..], b) == Bucket(e[m..], b) by {
      BucketStep(e, m, b);
    }
    assert Below(e, b + 1) < start[c] || start[c] <= start[b] by {
      if b < c {
        BelowMonotone(e, b + 1, c);
      } else {
        BelowMonotone(e, c + 1, b);
        BucketSuffix(e, m, b);
      }
    }
    var split' := split[start[c] - 1 := e[m - 1]];
    assert split'[start[b]..Below(e, b + 1)] == split[start[b]..Below(e, b + 1)];
  }

  lemma PlaceOne(split: seq<Hp>, start: seq<uint32>, e: seq<Hp>, m: nat)
    requires |start| == 256 && 0 < m <= |e| <= |split| && Placed(split, start, e, m)
    ensures var c := BucketOf(e[m - 1].h);
            0 < start[c] <= |e|
            && Placed(split[start[c] - 1 := e[m - 1]], start[c := start[c] - 1], e, m - 1)
  {
    var c := BucketOf(e[m - 1].h);
    PlaceOneOwn(split, start, e, m);
    var split', start', m' := split[start[c] - 1 := e[m - 1]], start[c := start[c] - 1], m - 1;
    forall b: nat | b < 256
      ensures PlacedIn(split', start', e, m', b)
    {
      if b != c {
        PlaceOneOther(split, start, e, m, b);
      }
    }
  }

  lemma PlacedAtFirst(split: seq<Hp>, start: seq<uint32>, e: seq<Hp>)
    requires |start| == 256 && |e| <= |split|
    requires forall b :: 0 <= b < 256 ==> start[b] == Below(e, b + 1)
    ensures Placed(split, start, e, |e|)
  {
    var m := |e|;
    assert e[m..] == [];
    forall b: nat | b < 256
      ensures PlacedIn(split, start, e, m, b)
    {
      BelowMonotone(e, b + 1, 256);
      BelowAll(e);
      assert Bucket(e[m..], b) == [];
      assert start[b] == Below(e, b + 1);
      assert split[start[b]..Below(e, b + 1)] == [];
    }
  }

  /** split[start[b]..] begins with the entries of bucket b, in insertion order. */
  ghost predicate Sorted(split: seq<Hp>, start: seq<uint32>, e: seq<Hp>)
    requires |start| == 256 && |e| <= |split|
  {
    forall b :: 0 <= b < 256 ==>
      start[b] == Below(e, b) && Below(e, b) + |Bucket(e, b)| <= |e|
      && split[start[b]..start[b] + |Bucket(e, b)|] == Bucket(e, b)
  }

  lemma SortedPart(split: seq<Hp>, start: seq<uint32>, e: seq<Hp>, b: nat)
    requires |start| == 256 && |e| <= |split| && b < 256 && Sorted(split, start, e)
    ensures start[b] as nat + |Bucket(e, b)| <= |e|
    ensures split[start[b]..start[b] as nat + |Bucket(e, b)|] == Bucket(e, b)
  {
    hide Bucket, Below;
  }

  lemma NoTables(e: seq<Hp>, base: nat)
    ensures TableBytes(e, 0) == [] && HeaderBytes(e, base, 0) == []
  {
    hide Bucket;
  }

  lemma PlacedAtLast(split: seq<Hp>, start: seq<uint32>, e: seq<Hp>)
    requires |start| == 256 && |e| <= |split|
    requires Placed(split, start, e, 0)
    ensures Sorted(split, start, e)
  {
    assert e[0..] == e;
    forall b | 0 <= b < 256
      ensures start[b] == Below(e, b) && Below(e, b) + |Bucket(e, b)| <= |e|
      ensures split[start[b]..start[b] + |Bucket(e, b)|] == Bucket(e, b)
    {
      assert PlacedIn(split, start, e, 0, b);
    }
  }

  /** The counting sort: afterwards each bucket's part of `split` holds its entries in insertion order. */
  method Distribute(head: seq<seq<Hp>>, start: array<uint32>, split: array<Hp>, ghost e: seq<Hp>)
    requires Flat(head) == e && |e| <= split.Length && start.Length == 256
    requires forall b :: 0 <= b < 256 ==> start[b] == Below(e, b + 1)
    modifies start, split
    ensures Sorted(split[..], start[..], e)
  {
    hide Bucket, Below, PlacedIn, Placed, Flat, Unseen, BucketOf, Sorted;
    ghost var m: nat := |e|;
    assert head[0..] == head && e[..m] == e;
    PlacedAtFirst(split[..], start[..], e);
    for x := 0 to |head|
      invariant m <= |e| && e[..m] == Flat(head[x..])
      invariant Placed(split[..], start[..], e, m)
    {
      var i: nat := |head[x]|;
      UnseenBlock(head, x);
      while i > 0
        invariant i <= |head[x]| && m <= |e| && e[..m] == Unseen(head, x, i)
        invariant Placed(split[..], start[..], e, m)
      {
        UnseenLast(head, x, i, e, m);
        i := i - 1;
        PlaceOne(split[..], start[..], e, m);
        var bucket := BucketOf(head[x][i].h);
        ghost var at := start[bucket] - 1;
        ghost var split', start' := split[..][at := e[m - 1]], start[..][bucket := at];
        start[bucket] := start[bucket] - 1;
        split[start[bucket]] := head[x][i];
        assert split[..] == split' && start[..] == start';
        m := m - 1;
      }
    }
    NothingUnseen(head);
    PlacedAtLast(split[..], start[..], e);
  }

  /** Stores `hp` in the first free slot from its home in the table mem[n..n + len]. */
  method InsertEntry(mem: array<Hp>, n: nat, len: nat, hp: Hp)
    requires 0 < len < TWO32 && n + len <= mem.Length
    requires FreeStep(mem[n..n + len], Home(hp.h, len), 0) < len
    modifies mem
    ensures mem[..n] == old(mem[..n])
    ensures mem[n..n + len] == Insert(old(mem[n..n + len]), hp)
  {
    ghost var t := mem[n..n + len];
    var where := hp.h / 256 % len;
    ghost var s, k := Home(hp.h, len), 0;
    ghost var f := FreeStep(t, s, 0);
    while mem[n + where].p != 0
      invariant k <= f && where == Slot(s, k, len)
      decreases f - k
    {
      assert mem[n + where] == At(t, s, k);
      where := where + 1;
      if where == len {
        where := 0;
      }
      k := k + 1;
    }
    assert mem[n + where] == At(t, s, k);
    mem[n + where] := hp;
    assert mem[n..n + len] == t[where := hp];
  }

  /** Builds the table of one bucket in the scratch part of `mem`, which begins at `n`. */
  method FillTable(mem: array<Hp>, n: nat, from: nat, count: nat, ghost xs: seq<Hp>)
    requires from + count <= n && n + 2 * count <= mem.Length && 2 * count < TWO32
    requires mem[from..from + count] == xs && Stored(xs)
    modifies mem
    ensures mem[..n] == old(mem[..n])
    ensures mem[n..n + 2 * count] == TableOf(xs)
  {
    var len := count + count;
    for u := 0 to len
      invariant mem[..n] == old(mem[..n])
      invariant forall j :: n <= j < n + u ==> mem[j] == FREE
    {
      mem[n + u] := FREE;
    }
    assert mem[n..n + len] == EmptyTable(len) == InsertAll(EmptyTable(len), xs[..0]);
    for u := 0 to count
      invariant mem[..n] == old(mem[..n])
      invariant mem[n..n + len] == InsertAll(EmptyTable(len), xs[..u])
    {
      assert mem[from + u] == mem[..n][from + u] == old(mem[..n])[from + u] == xs[u];
      BuildLeavesFree(len, xs[..u], Home(mem[from + u].h, len));
      assert xs[..u + 1][..u] == xs[..u];
      InsertEntry(mem, n, len, mem[from + u]);
    }
    assert xs[..count] == xs;
  }

  /** uint32_pack into an array. */
  method PackInto(a: array<byte>, at: nat, u: int)
    requires at + 4 <= a.Length
    modifies a
    ensures a[..at] == old(a[..at]) && a[at..at + 4] == Pack(u)
    ensures a[at + 4..] == old(a[at + 4..])
  {
    var s := Pack(u);
    a[at], a[at + 1], a[at + 2], a[at + 3] := s[0], s[1], s[2], s[3];
  }

  method PackPair(a: array<byte>, at: nat, u: int, v: int)
    requires at + 8 <= a.Length
    modifies a
    ensures a[..at + 8] == old(a[..at]) + (Pack(u) + Pack(v))
  {
    hide Pack;
    PackInto(a, at, u);
    ghost var half := a[..at + 4];
    assert half == a[..at] + a[at..at + 4];
    PackInto(a, at + 4, v);
    assert a[..at + 8] == half + a[at + 4..at + 8];
  }

  /** A body written behind a hole of header size, and then the header. */
  lemma HeaderFillsHole(header: bytes, body: bytes)
    requires |header| == HEADER_SIZE
    ensures Overwrite(Overwrite([], HEADER_SIZE, body), 0, header) == header + body
  {
    if body != [] {
      assert Overwrite([], HEADER_SIZE, body)[HEADER_SIZE..] == body;
    }
  }

  lemma {:induction false} SlotBytesPrefix(t: seq<Hp>, u: nat)
    requires u < |t|
    ensures SlotBytes(t[..u + 1]) == SlotBytes(t[..u]) + (Pack(t[u].h) + Pack(t[u].p))
  {
    assert t[..u + 1][..u] == t[..u];
  }

  lemma {:induction false} EntriesStored(rs: seq<Rec>)
    requires EndOf(rs) < TWO32
    ensures Stored(Entries(rs))
  {
    hide RecBytes;
    if rs != [] {
      EntriesStored(rs[..|rs| - 1]);
    }
  }

  /** Every record takes at least eight bytes, so their number stays far below 2^32. */
  lemma {:induction false} RecordsTakeRoom(rs: seq<Rec>)
    ensures EndOf(rs) >= HEADER_SIZE + 8 * |rs|
  {
    if rs != [] {
      RecordsTakeRoom(rs[..|rs| - 1]);
    }
  }

  lemma NextBucket(e: seq<Hp>, base: nat, i: nat)
    ensures TableBytes(e, i + 1) == TableBytes(e, i) + SlotBytes(TableOf(Bucket(e, i)))
    ensures HeaderBytes(e, base, i + 1)
         == HeaderBytes(e, base, i) + (Pack(base + |TableBytes(e, i)|) + Pack(2 * |Bucket(e, i)|))
  {
    hide Pack, Bucket, InsertAll, SlotBytes;
  }

  lemma PartKept(s: seq<Hp>, t: seq<Hp>, n: nat, from: nat, to: nat)
    requires from <= to <= n <= |s| == |t| && s[..n] == t[..n]
    ensures s[from..to] == t[from..to]
  {
    assert s[from..to] == s[..n][from..to];
    assert t[from..to] == t[..n][from..to];
  }

  lemma RecordAdded(rs: seq<Rec>, r: Rec)
    ensures RecordBytes(rs + [r]) == RecordBytes(rs) + RecBytes(r)
    ensures EndOf(rs + [r]) == EndOf(rs) + 8 + |r.key| + |r.data|
    ensures Entries(rs + [r]) == Entries(rs) + [Hp(HashOf(r.key), W32(EndOf(rs)))]
  {
    assert (rs + [r])[..|rs|] == rs;
  }

  /** struct cdb_make. */
  class Maker {
    const file: File
    const b: OutBuffer
    var head: seq<seq<Hp>>
    var numentries: uint32
    var pos: uint32
    ghost var records: seq<Rec>

    /** The fields as cdb_make_start sets them. */
    constructor (file: File)
      ensures this.file == file && b.file == file && fresh(b) && fresh(b.x) && b.Valid() && b.p == 0
      ensures head == [] && numentries == 0 && pos == HEADER_SIZE && records == []
    {
      this.file := file;
      b := new OutBuffer(file, BSPACE);
      head, numentries, pos := [], 0, HEADER_SIZE;
      records := [];
    }

    /** cdb_make_start. */
    static method Start(file: File) returns (ok: bool, c: Maker)
      requires file.Contents() == []
      modifies file
      ensures fresh(c) && fresh(c.b) && fresh(c.b.x) && c.file == file
      ensures ok ==> c.Valid() && c.records == []
    {
      c := new Maker(file);
      ok := file.Seek(HEADER_SIZE);
    }

    /** Everything up to now has gone well: the file ends in `body`, and pos is where it ends. */
    ghost predicate Written(body: bytes)
      reads this, b, b.x, file
    {
      && b.Valid() && b.file == file
      && file.base == [] && file.start == HEADER_SIZE && b.Stream() == body
      && pos == HEADER_SIZE + |body|
    }

    ghost predicate Valid()
      reads this, b, b.x, file
    {
      && Written(RecordBytes(records))
      && Flat(head) == Entries(records)
      && numentries == |records|
    }

    /** posplus: fails exactly when the file position would pass 2^32. */
    method PosPlus(len: uint32) returns (ok: bool)
      modifies `pos
      ensures ok <==> old(pos) + len < TWO32
      ensures pos == if ok then old(pos) + len else old(pos)
    {
      var newpos := W32(pos + len);
      if newpos < len {
        return false;
      }
      pos := newpos;
      return true;
    }

    /** cdb_make_add. */
    method Add(r: Rec) returns (ok: bool)
      requires Valid()
      modifies this, b, b.x, file`log, file`stalls
      ensures records == old(records) + [r]
      ensures ok ==> Valid()
    {
      hide Pack, RecBytes, RecordBytes, Entries, HashFrom;
      ghost var rs := records;
      records := records + [r];
      RecordsTakeRoom(rs);
      RecordAdded(rs, r);
      ok := PutRecord(r, RecordBytes(rs));
      if !ok { return; }
      var h := Hash(r.key);
      ok := AddEnd(|r.key|, |r.data|, h);
    }

    /** cdb_make_addbegin and the two puts after it: lengths, key and data. */
    method PutRecord(r: Rec, ghost body: bytes) returns (ok: bool)
      requires b.Valid() && b.file == file
      requires b.Stream() == body
      modifies b, b.x, file`log, file`stalls
      ensures b.Valid()
      ensures ok ==> b.Stream() == body + RecBytes(r)
    {
      var lengths := Pack(|r.key|) + Pack(|r.data|);
      ok := b.PutAlign(lengths);
      if !ok { return; }
      ok := b.PutAlign(r.key);
      if !ok { return; }
      ok := b.PutAlign(r.data);
      assert body + lengths + r.key + r.data == body + RecBytes(r);
    }

    /** cdb_make_addend: notes the record's hash and position, and moves past it. */
    method AddEnd(keylen: uint32, datalen: uint32, h: uint32) returns (ok: bool)
      requires numentries < TWO32 - 1
      modifies `head, `numentries, `pos
      ensures ok ==> Flat(head) == Flat(old(head)) + [Hp(h, old(pos))]
      ensures ok ==> numentries == old(numentries) + 1 && pos == old(pos) + 8 + keylen + datalen
    {
      if head == [] || |head[0]| >= CDB_HPLIST {
        var gotMemory: bool := *;
        if !gotMemory {
          return false;
        }
        head := [[]] + head;
      }
      head := [head[0] + [Hp(h, pos)]] + head[1..];
      numentries := numentries + 1;
      ok := PosPlus(8);
      if !ok { return; }
      ok := PosPlus(keylen);
      if !ok { return; }
      ok := PosPlus(datalen);
    }

    /** Writes the slots of the table t. */
    method WriteTable(mem: array<Hp>, n: nat, len: nat, ghost body: bytes) returns (ok: bool)
      requires n + len <= mem.Length && Written(body)
      modifies `pos, b, b.x, file`log, file`stalls
      ensures ok ==> Written(body + SlotBytes(mem[n..n + len]))
    {
      ghost var t := mem[n..n + len];
      ghost var soFar := body;
      for u := 0 to len
        invariant soFar == body + SlotBytes(t[..u]) && Written(soFar)
        invariant mem[n..n + len] == t
      {
        var hp := mem[n + u];
        assert hp == t[u];
        var buf := Pack(hp.h) + Pack(hp.p);
        ok := b.PutAlign(buf);
        if !ok { return; }
        SlotBytesPrefix(t, u);
        soFar := soFar + buf;
        ok := PosPlus(8);
        if !ok { return; }
      }
      assert t[..len] == t;
      return true;
    }

    /** One round of the last loop of cdb_make_finish: header entry and table of bucket `i`. */
    method WriteBucket(i: nat, count: nat, start: nat, mem: array<Hp>, final: array<byte>,
                       ghost e: seq<Hp>, ghost body: bytes) returns (ok: bool)
      requires i < 256 && final.Length == HEADER_SIZE && final != b.x
      requires Stored(e) && count == |Bucket(e, i)| && 2 * count < TWO32
      requires start + count <= numentries && numentries + 2 * count <= mem.Length
      requires mem[start..start + count] == Bucket(e, i)
      requires Written(body + TableBytes(e, i))
      requires final[..8 * i] == HeaderBytes(e, HEADER_SIZE + |body|, i)
      modifies `pos, b, b.x, file`log, file`stalls, mem, final
      ensures mem[..numentries] == old(mem[..numentries])
      ensures ok ==> Written(body + TableBytes(e, i + 1))
      ensures ok ==> final[..8 * (i + 1)] == HeaderBytes(e, HEADER_SIZE + |body|, i + 1)
    {
      hide Pack, Bucket, InsertAll, SlotBytes, HeaderBytes, TableBytes;
      var len := count + count;
      ghost var xs := Bucket(e, i);
      NextBucket(e, HEADER_SIZE + |body|, i);
      PackPair(final, 8 * i, pos, len);
      BucketStored(e, i);
      FillTable(mem, numentries, start, count, xs);
      ok := WriteTable(mem, numentries, len, body + TableBytes(e, i));
      assert body + TableBytes(e, i) + SlotBytes(TableOf(xs)) == body + TableBytes(e, i + 1);
    }

    /** The last loop of cdb_make_finish. */
    method WriteTables(count: array<uint32>, start: array<uint32>, mem: array<Hp>, final: array<byte>,
                       ghost e: seq<Hp>) returns (ok: bool)
      requires count.Length == 256 && start.Length == 256 && final.Length == HEADER_SIZE && final != b.x
      requires Stored(e) && |e| == numentries < TWO32 / 8 && |e| <= mem.Length
      requires forall i: nat :: i < 256 ==> count[i] == |Bucket(e, i)| && |e| + 2 * count[i] as int <= mem.Length
      requires Sorted(mem[..], start[..], e)
      requires Written(RecordBytes(records))
      modifies `pos, b, b.x, file`log, file`stalls, mem, final
      ensures ok ==> Written(RecordBytes(records) + TableBytes(e, 256))
      ensures ok ==> final[..] == HeaderBytes(e, EndOf(records), 256)
    {
      hide RecordBytes, Entries, Bucket, Below, Stored, TableBytes, HeaderBytes, Sorted;
      ghost var body, split := RecordBytes(records), mem[..numentries];
      NoTables(e, HEADER_SIZE + |body|);
      assert body + TableBytes(e, 0) == body;
      for i := 0 to 256
        invariant mem[..numentries] == split
        invariant Written(body + TableBytes(e, i))
        invariant final[..8 * i] == HeaderBytes(e, HEADER_SIZE + |body|, i)
      {
        BucketLength(e, i);
        SortedPart(old(mem[..]), start[..], e, i);
        assert split == old(mem[..])[..numentries];
        PartKept(mem[..], old(mem[..]), numentries, start[i], start[i] + count[i] as nat);
        ok := WriteBucket(i, count[i], start[i], mem, final, e, body);
        if !ok { return; }
      }
      assert final[..] == final[..8 * 256];
      return true;
    }

    /** cdb_make_finish: on success the file is the image of the records. */
    method Finish() returns (ok: bool)
      requires Valid()
      modifies this, b, b.x, file
      ensures records == old(records)
      ensures ok ==> file.Contents() == Image(records) && |Image(records)| < TWO32
    {
      hide Pack, RecordBytes, TableBytes, HeaderBytes, Entries, Bucket, Below, Overwrite;
      ghost var e := Entries(records);
      RecordsTakeRoom(records);
      EntriesStored(records);
      var count := CountBuckets(head, e);
      forall i: nat | i < 256
        ensures count[i] <= numentries
      {
        BucketLength(e, i);
      }
      var memsize := MemSize(count, numentries);
      if memsize > (TWO32 - 1) / 8 {
        return false;
      }
      var gotMemory: bool := *;
      if !gotMemory {
        return false;
      }
      var mem := new Hp[memsize](_ => FREE);
      var start := Ends(count, e);
      Distribute(head, start, mem, e);

      var final := new byte[HEADER_SIZE](_ => 0);
      ok := WriteTables(count, start, mem, final, e);
      if !ok { return; }
      ghost var body := RecordBytes(records) + TableBytes(e, 256);
      ok := WriteHeader(final[..], body);
      assert final[..] + body == Image(records);
    }

    /** The end of cdb_make_finish: the header goes to the front of the file. */
    method WriteHeader(final: bytes, ghost body: bytes) returns (ok: bool)
      requires |final| == HEADER_SIZE && Written(body)
      modifies this, b, b.x, file
      ensures records == old(records) && pos == old(pos)
      ensures ok ==> file.Contents() == final + body
    {
      hide Overwrite;
      ok := b.Flush();
      if !ok { return; }
      ok := file.Seek(0);
      if !ok { return; }
      ok := b.PutFlush(final);
      if !ok { return; }
      HeaderFillsHole(final, body);
      assert file.log == final;
    }
  }
}
