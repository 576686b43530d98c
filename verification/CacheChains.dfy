/** The hash buckets of cache.c over the entries' order of insertion: neighbours, searches, lookups. */
module CacheChains {
  import opened Bytes
  import opened CdbFormat
  import opened CacheRing

  /** hash: the position of the head link of the key's bucket. The hash is the one cdb_hash computes. */
  function BucketPos(key: bytes, hsize: nat): (b: nat)
    requires hsize >= 4 && hsize % 4 == 0
    ensures b <= hsize - 4 && b % 4 == 0
  {
    var h := W32(HashOf(key) * 4);
    AndWithin(h, hsize - 4);
    AndWordAligned(h, hsize - 4);
    And(h, hsize - 4)
  }

  predicate HashSize(hsize: nat) {
    hsize >= 4 && hsize % 4 == 0
  }

  /** The head link is one of hsize / 4, chosen by the low bits of the hash. */
  lemma BucketIs(key: bytes, n: nat)
    requires 2 <= n <= 32
    ensures Pow2(n) >= 4 && Pow2(n) % 4 == 0 && BucketPos(key, Pow2(n)) == 4 * HashOf(key) % Pow2(n)
  {
    hide And, HashOf, Pow2, W32;
    Pow2Step(n);
    Pow2Step(n - 1);
    FourDivides(HashOf(key));
    AndMaskFour(W32(HashOf(key) * 4), n);
    RemainderOfWord(HashOf(key) * 4, n);
  }

  lemma FourDivides(h: uint32)
    ensures W32(h * 4) % 4 == 0
  {
  }

  predicate InBucket(e: Entry, hsize: nat, b: nat)
    requires HashSize(hsize)
  {
    BucketPos(e.key, hsize) == b
  }

  /** The index of the newest entry of bucket b among es[..n], or -1. */
  function NewestIx(es: seq<Entry>, hsize: nat, b: nat, n: nat): (k: int)
    requires HashSize(hsize) && n <= |es|
    ensures -1 <= k < n
    ensures k >= 0 ==> InBucket(es[k], hsize, b)
    ensures forall i :: k < i < n ==> !InBucket(es[i], hsize, b)
  {
    if n == 0 then -1
    else if InBucket(es[n - 1], hsize, b) then n - 1
    else NewestIx(es, hsize, b, n - 1)
  }

  /** The index of the oldest entry of bucket b in es[n..], or |es|. */
  function NearestIx(es: seq<Entry>, hsize: nat, b: nat, n: nat): (k: nat)
    requires HashSize(hsize) && n <= |es|
    ensures n <= k <= |es|
    ensures k < |es| ==> InBucket(es[k], hsize, b)
    ensures forall i :: n <= i < k ==> !InBucket(es[i], hsize, b)
    decreases |es| - n
  {
    if n == |es| || InBucket(es[n], hsize, b) then n
    else NearestIx(es, hsize, b, n + 1)
  }

  lemma NewestIxIs(es: seq<Entry>, hsize: nat, b: nat, n: nat, k: int)
    requires HashSize(hsize) && n <= |es| && -1 <= k < n
    requires k >= 0 ==> InBucket(es[k], hsize, b)
    requires forall i :: k < i < n ==> !InBucket(es[i], hsize, b)
    ensures NewestIx(es, hsize, b, n) == k
  {
  }

  lemma NearestIxIs(es: seq<Entry>, hsize: nat, b: nat, n: nat, k: nat)
    requires HashSize(hsize) && n <= k <= |es|
    requires k < |es| ==> InBucket(es[k], hsize, b)
    requires forall i :: n <= i < k ==> !InBucket(es[i], hsize, b)
    ensures NearestIx(es, hsize, b, n) == k
  {
  }

  /** Position of an older neighbour; 0 marks the end of the chain. */
  function PosDown(es: seq<Entry>, k: int): nat
    requires -1 <= k < |es|
  {
    if k < 0 then 0 else es[k].pos
  }

  /** Position of a newer neighbour; the newest entry's newer neighbour is the head link at b. */
  function PosUp(es: seq<Entry>, b: nat, k: nat): nat
    requires k <= |es|
  {
    if k == |es| then b else es[k].pos
  }

  /** What the head link of bucket b holds: the position of the newest entry. */
  function HeadLink(es: seq<Entry>, hsize: nat, b: nat): nat
    requires HashSize(hsize)
  {
    PosDown(es, NewestIx(es, hsize, b, |es|))
  }

  /** The position of the item before entry i in its chain: the next newer entry, or the head link. */
  function Up(es: seq<Entry>, hsize: nat, i: nat): nat
    requires HashSize(hsize) && i < |es|
  {
    var b := BucketPos(es[i].key, hsize);
    PosUp(es, b, NearestIx(es, hsize, b, i + 1))
  }

  /** The position of the item after entry i in its chain: the next older entry, or 0. */
  function Down(es: seq<Entry>, hsize: nat, i: nat): nat
    requires HashSize(hsize) && i < |es|
  {
    PosDown(es, NewestIx(es, hsize, BucketPos(es[i].key, hsize), i))
  }

  /** What the link of entry i holds: the exclusive or of the positions of its neighbours. */
  function EntryLink(es: seq<Entry>, hsize: nat, i: nat): nat
    requires HashSize(hsize) && i < |es|
  {
    Xor(Up(es, hsize, i), Down(es, hsize, i))
  }

  // --- how the links change -----------------------------------------------------------------------

  /** Dropping the oldest entry shifts every index by one. */
  lemma NewestAfterDrop(es: seq<Entry>, hsize: nat, b: nat, n: nat)
    requires HashSize(hsize) && n < |es|
    ensures var k := NewestIx(es, hsize, b, n + 1);
            NewestIx(es[1..], hsize, b, n) == if k <= 0 then -1 else k - 1
  {
    var k := NewestIx(es, hsize, b, n + 1);
    NewestIxIs(es[1..], hsize, b, n, if k <= 0 then -1 else k - 1);
  }

  lemma NearestAfterDrop(es: seq<Entry>, hsize: nat, b: nat, n: nat)
    requires HashSize(hsize) && n < |es|
    ensures NearestIx(es, hsize, b, n + 1) >= 1
    ensures NearestIx(es[1..], hsize, b, n) == NearestIx(es, hsize, b, n + 1) - 1
  {
    var k := NearestIx(es, hsize, b, n + 1);
    NearestIxIs(es[1..], hsize, b, n, k - 1);
  }

  /** Only the newer neighbour of the dropped entry notices: its older neighbour becomes the end mark. */
  lemma HeadLinkAfterDrop(es: seq<Entry>, hsize: nat, b: nat)
    requires HashSize(hsize) && es != []
    ensures HeadLink(es[1..], hsize, b)
         == if NewestIx(es, hsize, b, |es|) == 0 then 0 else HeadLink(es, hsize, b)
  {
    NewestAfterDrop(es, hsize, b, |es| - 1);
  }

  lemma UpAfterDrop(es: seq<Entry>, hsize: nat, i: nat)
    requires HashSize(hsize) && 0 < i < |es|
    ensures Up(es[1..], hsize, i - 1) == Up(es, hsize, i)
  {
    hide BucketPos, NearestIx;
    var b := BucketPos(es[i].key, hsize);
    NearestAfterDrop(es, hsize, b, i);
  }

  lemma DownAfterDrop(es: seq<Entry>, hsize: nat, i: nat)
    requires HashSize(hsize) && 0 < i < |es|
    ensures Down(es[1..], hsize, i - 1)
         == if NewestIx(es, hsize, BucketPos(es[i].key, hsize), i) == 0 then 0 else Down(es, hsize, i)
  {
    hide BucketPos, NewestIx;
    var b := BucketPos(es[i].key, hsize);
    NewestAfterDrop(es, hsize, b, i - 1);
  }

  lemma EntryLinkAfterDrop(es: seq<Entry>, hsize: nat, i: nat)
    requires HashSize(hsize) && 0 < i < |es|
    ensures EntryLink(es[1..], hsize, i - 1)
         == if NewestIx(es, hsize, BucketPos(es[i].key, hsize), i) == 0 then Xor(Up(es, hsize, i), 0)
            else EntryLink(es, hsize, i)
  {
    hide Xor, BucketPos, NewestIx, NearestIx, Up, Down;
    UpAfterDrop(es, hsize, i);
    DownAfterDrop(es, hsize, i);
  }

  lemma NewestAfterAppend(es: seq<Entry>, e: Entry, hsize: nat, b: nat, n: nat)
    requires HashSize(hsize) && n <= |es|
    ensures NewestIx(es + [e], hsize, b, n) == NewestIx(es, hsize, b, n)
  {
    NewestIxIs(es + [e], hsize, b, n, NewestIx(es, hsize, b, n));
  }

  lemma NearestAfterAppend(es: seq<Entry>, e: Entry, hsize: nat, b: nat, n: nat)
    requires HashSize(hsize) && n <= |es|
    ensures var k := NearestIx(es, hsize, b, n);
            NearestIx(es + [e], hsize, b, n)
            == if k < |es| then k else if InBucket(e, hsize, b) then |es| else |es| + 1
  {
    var k := NearestIx(es, hsize, b, n);
    NearestIxIs(es + [e], hsize, b, n,
                if k < |es| then k else if InBucket(e, hsize, b) then |es| else |es| + 1);
  }

  /** Appending an entry moves the head link of its bucket to it and no other head link. */
  lemma HeadLinkAfterAppend(es: seq<Entry>, e: Entry, hsize: nat, b: nat)
    requires HashSize(hsize)
    ensures HeadLink(es + [e], hsize, b) == if InBucket(e, hsize, b) then e.pos else HeadLink(es, hsize, b)
  {
    hide BucketPos;
    if !InBucket(e, hsize, b) {
      NewestAfterAppend(es, e, hsize, b, |es|);
    }
  }

  /** ... and puts it between the head and the entry that was newest in its bucket. */
  lemma EntryLinkAfterAppend(es: seq<Entry>, e: Entry, hsize: nat, i: nat)
    requires HashSize(hsize) && i < |es|
    ensures var b := BucketPos(es[i].key, hsize);
            EntryLink(es + [e], hsize, i)
            == if InBucket(e, hsize, b) && NewestIx(es, hsize, b, |es|) == i
               then Xor(e.pos, PosDown(es, NewestIx(es, hsize, b, i)))
               else EntryLink(es, hsize, i)
  {
    hide Xor, BucketPos;
    var b := BucketPos(es[i].key, hsize);
    assert (es + [e])[i] == es[i];
    assert InBucket(es[i], hsize, b);
    NewestAfterAppend(es, e, hsize, b, i);
    NearestAfterAppend(es, e, hsize, b, i + 1);
    var k := NearestIx(es, hsize, b, i + 1);
    if NewestIx(es, hsize, b, |es|) == i {
      assert k == |es|;
    }
  }

  lemma NewEntryLink(es: seq<Entry>, e: Entry, hsize: nat)
    requires HashSize(hsize)
    ensures var b := BucketPos(e.key, hsize);
            EntryLink(es + [e], hsize, |es|) == Xor(b, HeadLink(es, hsize, b))
  {
    hide Xor, BucketPos;
    NewestAfterAppend(es, e, hsize, BucketPos(e.key, hsize), |es|);
  }

  // --- looking up ---------------------------------------------------------------------------------

  /** The index of the newest entry under exactly this key, or -1. */
  function NewestWith(es: seq<Entry>, key: bytes, n: nat): (k: int)
    requires n <= |es|
    ensures -1 <= k < n
    ensures k >= 0 ==> es[k].key == key
    ensures forall i :: k < i < n ==> es[i].key != key
  {
    if n == 0 then -1 else if es[n - 1].key == key then n - 1 else NewestWith(es, key, n - 1)
  }

  /** How many entries of bucket b there are in es[lo..hi]. */
  function Crowd(es: seq<Entry>, hsize: nat, b: nat, lo: nat, hi: nat): nat
    requires HashSize(hsize) && lo <= hi <= |es|
    decreases hi
  {
    if lo == hi then 0
    else Crowd(es, hsize, b, lo, hi - 1) + (if InBucket(es[hi - 1], hsize, b) then 1 else 0)
  }

  /** The entry a lookup answers from: the newest under the key, unless 101 newer ones share its bucket. */
  function Visible(es: seq<Entry>, hsize: nat, key: bytes): Option<Entry>
    requires HashSize(hsize)
  {
    var j := NewestWith(es, key, |es|);
    if j < 0 || Crowd(es, hsize, BucketPos(key, hsize), j + 1, |es|) >= MAXCHAIN then None
    else Some(es[j])
  }

  /** What cache_get makes of that entry: nothing once it has expired, else its data and remaining ttl. */
  function Answer(o: Option<Entry>, now: uint64): Option<(bytes, uint32)> {
    match o
    case None => None
    case Some(e) =>
      if e.expire < now then None
      else Some((e.data, if e.expire - now > MAXTTL then MAXTTL else e.expire - now))
  }

  lemma {:induction false} CrowdSkips(es: seq<Entry>, hsize: nat, b: nat, lo: nat, mid: nat, hi: nat)
    requires HashSize(hsize) && lo <= mid <= hi <= |es|
    requires forall i :: mid <= i < hi ==> !InBucket(es[i], hsize, b)
    ensures Crowd(es, hsize, b, lo, hi) == Crowd(es, hsize, b, lo, mid)
    decreases hi
  {
    hide BucketPos;
    if mid < hi {
      CrowdSkips(es, hsize, b, lo, mid, hi - 1);
    }
  }

  /** Walking down a chain one entry at a time, giving up after `fuel` entries. */
  function Scan(es: seq<Entry>, hsize: nat, key: bytes, k: int, fuel: nat): Option<Entry>
    requires HashSize(hsize) && -1 <= k < |es|
    decreases k + 1
  {
    if k < 0 || fuel == 0 then None
    else if es[k].key == key then Some(es[k])
    else Scan(es, hsize, key, NewestIx(es, hsize, BucketPos(key, hsize), k), fuel - 1)
  }

  /** The walk finds the newest entry under the key unless too many entries are in front of it. */
  lemma {:induction false} ScanFinds(es: seq<Entry>, hsize: nat, key: bytes, n: nat, fuel: nat)
    requires HashSize(hsize) && n <= |es|
    ensures var b, j := BucketPos(key, hsize), NewestWith(es, key, n);
            Scan(es, hsize, key, NewestIx(es, hsize, b, n), fuel)
            == if j < 0 || Crowd(es, hsize, b, j + 1, n) >= fuel then None else Some(es[j])
    decreases n
  {
    hide BucketPos;
    var b, j := BucketPos(key, hsize), NewestWith(es, key, n);
    var k := NewestIx(es, hsize, b, n);
    assert j >= 0 ==> InBucket(es[j], hsize, b);
    assert j <= k;
    if k >= 0 {
      if j >= 0 {
        CrowdSkips(es, hsize, b, j + 1, k + 1, n);
      }
      if k != j && fuel > 0 {
        assert NewestWith(es, key, k) == j;
        ScanFinds(es, hsize, key, k, fuel - 1);
      }
    }
  }

  /** The data of a set at `now` and the seconds it has left at `later`, of at most 604800; nothing once it is over. */
  function Left(data: bytes, ttl: uint32, now: uint64, later: uint64): Option<(bytes, uint32)> {
    var end := now + if ttl > 604800 then 604800 else ttl;
    if later > end then None else Some((data, if end - later > 604800 then 604800 else end - later))
  }

  /** An entry whose time was computed without overflow. */
  lemma AnswerIsLeft(e: Entry, data: bytes, ttl: uint32, now: uint64, later: uint64)
    requires now + 604800 < TWO64 && e.data == data && e.expire == Expiry(ttl, now)
    ensures Answer(Some(e), later) == Left(data, ttl, now, later)
  {
  }

  /** After a set that fits, a get answers with that very data until its time has run out. */
  lemma SetThenGet(r: Ring, key: bytes, data: bytes, ttl: uint32, now: uint64, hsize: nat, size: nat, later: uint64)
    requires HashSize(hsize) && RingOk(r, hsize, size) && now + 604800 < TWO64
    requires |key| <= 1000 && |data| <= 1000000 && ttl != 0 && hsize + 20 + |key| + |data| <= size
    ensures var es := Resident(SetRing(r, key, data, ttl, now, hsize, size));
            Answer(Visible(es, hsize, key), later) == Left(data, ttl, now, later)
  {
    hide BucketPos, SetRing, RingOk, Expiry, Left, Answer;
    SetIsFifo(r, key, data, ttl, now, hsize, size);
    var es := Resident(SetRing(r, key, data, ttl, now, hsize, size));
    AnswerIsLeft(es[|es| - 1], data, ttl, now, later);
  }

  // --- runs ---------------------------------------------------------------------------------------

  /** One call of cache_set that is not refused. */
  datatype Call = Call(key: bytes, data: bytes, ttl: uint32, now: uint64)

  predicate CallOk(c: Call) {
    |c.key| <= 1000 && |c.data| <= 1000000 && c.ttl != 0 && c.now + 604800 < TWO64
  }

  predicate CallsOk(calls: seq<Call>) {
    forall i :: 0 <= i < |calls| ==> CallOk(calls[i])
  }

  /** The bytes that the entries of these calls take. */
  function Total(calls: seq<Call>): nat {
    if calls == [] then 0
    else Total(calls[..|calls| - 1]) + 20 + |calls[|calls| - 1].key| + |calls[|calls| - 1].data|
  }

  /** The cache after these calls, from an empty one. */
  function SetAll(calls: seq<Call>, hsize: nat, size: nat): Ring {
    if calls == [] then EmptyRing(hsize, size)
    else
      var c := calls[|calls| - 1];
      SetRing(SetAll(calls[..|calls| - 1], hsize, size), c.key, c.data, c.ttl, c.now, hsize, size)
  }

  predicate Made(e: Entry, c: Call) {
    Holds(e, c.key, c.data, Expiry(c.ttl, c.now))
  }

  /** As long as all entries fit next to one another, none is evicted. */
  lemma {:induction false} KeepsAll(calls: seq<Call>, hsize: nat, size: nat)
    requires CallsOk(calls) && hsize + Total(calls) <= size
    ensures var r := SetAll(calls, hsize, size);
            && RingOk(r, hsize, size) && r.writer == hsize + Total(calls) && r.oldest == size
            && |Resident(r)| == |calls| && forall i :: 0 <= i < |calls| ==> Made(Resident(r)[i], calls[i])
  {
    hide RingOk, SetRing, Made;
    if calls == [] {
      NothingYet(hsize, size);
    } else {
      var init, c := calls[..|calls| - 1], calls[|calls| - 1];
      KeepsAll(init, hsize, size);
      var r := SetAll(init, hsize, size);
      var k := SetKeeps(r, c.key, c.data, c.ttl, c.now, hsize, size);
      var es := Resident(SetAll(calls, hsize, size));
      assert k == 0 && es[..|es| - 1] == Resident(r);
      LastMade(es[|es| - 1], c);
      forall i | 0 <= i < |calls|
        ensures Made(es[i], calls[i])
      {
        if i < |init| {
          assert es[i] == Resident(r)[i] && calls[i] == init[i];
        }
      }
    }
  }

  lemma LastMade(e: Entry, c: Call)
    requires Holds(e, c.key, c.data, Expiry(c.ttl, c.now))
    ensures Made(e, c)
  {
  }

  lemma NothingYet(hsize: nat, size: nat)
    requires hsize <= size
    ensures RingOk(EmptyRing(hsize, size), hsize, size)
  {
  }

  /** How many of the calls after number j, the last of them being number n - 1, have its bucket. */
  function Ahead(calls: seq<Call>, j: nat, n: nat, hsize: nat): nat
    requires hsize > 0 && j < n <= |calls|
  {
    if n == j + 1 then 0
    else
      Ahead(calls, j, n - 1, hsize)
      + if 4 * HashOf(calls[n - 1].key) % hsize == 4 * HashOf(calls[j].key) % hsize then 1 else 0
  }

  /**
   * Of a number of sets that all fit next to one another each is still answered, as long as no later one has its key,
   * if and only if at most 100 later ones are in its bucket: then the search gives up.
   */
  lemma EarlierIsAnswered(calls: seq<Call>, j: nat, k: nat, size: nat, later: uint64)
    requires 2 <= k <= 32 && CallsOk(calls) && Pow2(k) + Total(calls) <= size
    requires j < |calls| && forall i :: j < i < |calls| ==> calls[i].key != calls[j].key
    ensures HashSize(Pow2(k))
    ensures var c := calls[j];
            Answer(Visible(Resident(SetAll(calls, Pow2(k), size)), Pow2(k), c.key), later)
            == if Ahead(calls, j, |calls|, Pow2(k)) <= 100 then Left(c.data, c.ttl, c.now, later) else None
  {
    hide SetAll, Expiry, Answer, Left, RingOk, BucketPos, Total, Crowd, NewestWith, Ahead, Pow2, HashOf;
    var hsize := Pow2(k);
    var es, c := Resident(SetAll(calls, hsize, size)), calls[j];
    BucketIs(c.key, k);
    KeepsAll(calls, hsize, size);
    forall i | 0 <= i < |es|
      ensures es[i].key == calls[i].key && (i == j ==> es[i].data == c.data && es[i].expire == Expiry(c.ttl, c.now))
    {
      assert Made(es[i], calls[i]);
    }
    NewestWithIs(es, c.key, |es|, j);
    CrowdIsAhead(es, calls, j, |es|, k);
    AnswerIsLeft(es[j], c.data, c.ttl, c.now, later);
    NoAnswer(later);
  }

  lemma NoAnswer(later: uint64)
    ensures Answer(None, later) == None
  {
  }

  lemma {:induction false} CrowdIsAhead(es: seq<Entry>, calls: seq<Call>, j: nat, n: nat, k: nat)
    requires 2 <= k <= 32 && HashSize(Pow2(k)) && j < n <= |calls| == |es|
    requires forall i :: 0 <= i < |es| ==> es[i].key == calls[i].key
    ensures Crowd(es, Pow2(k), BucketPos(calls[j].key, Pow2(k)), j + 1, n) == Ahead(calls, j, n, Pow2(k))
    decreases n
  {
    hide BucketPos, Pow2, HashOf;
    if n > j + 1 {
      CrowdIsAhead(es, calls, j, n - 1, k);
      BucketIs(calls[n - 1].key, k);
      BucketIs(calls[j].key, k);
    }
  }

  lemma {:induction false} NewestWithIs(es: seq<Entry>, key: bytes, n: nat, j: nat)
    requires j < n <= |es| && es[j].key == key && forall i :: j < i < n ==> es[i].key != key
    ensures NewestWith(es, key, n) == j
    decreases n
  {
    if n - 1 > j {
      NewestWithIs(es, key, n - 1, j);
    }
  }
}
