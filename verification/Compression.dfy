/** Name compression in response.c and why dns_packet_getname undoes it. */
module Compression {
  import opened Bytes
  import opened Domain
  import opened Packet

  const RESPONSE_SIZE := 65535
  const NAMES := 100
  const NAME_STORED := 128

  /** The first pointer value that does not fit the 14 bits of a compression pointer. */
  const PTR_LIMIT := 16384

  /** A row of the suffix table: name[i] and name_ptr[i]. */
  datatype Known = Known(name: bytes, ptr: nat)

  /** uint16_pack_big. */
  function Big16(u: nat): (s: bytes)
    ensures |s| == 2
  {
    [u / 256 % 256, u % 256]
  }

  /** The first row whose name is `d` up to case, or |t|. */
  function Matching(t: seq<Known>, d: bytes): (i: nat)
    ensures i <= |t|
    ensures i < |t| ==> Same(d, t[i].name)
    ensures forall j :: 0 <= j < i ==> !Same(d, t[j].name)
  {
    if t == [] then 0
    else
      var i := Matching(t[..|t| - 1], d);
      if i < |t| - 1 then i else if Same(d, t[|t| - 1].name) then |t| - 1 else |t|
  }

  /** The table after a name about to be written at position p has been recorded, if there is room. */
  function Record(t: seq<Known>, d: bytes, p: nat): seq<Known> {
    if |d| <= NAME_STORED && |t| < NAMES then t + [Known(d, p)] else t
  }

  /** response_addname: whether it succeeds, the bytes afterwards, the table afterwards. */
  function AddName(buf: bytes, t: seq<Known>, d: bytes): (bool, bytes, seq<Known>)
    requires IsName(d)
    decreases |d|
  {
    if d[0] == 0 then AddLast(buf, t, [0])
    else
      var i := Matching(t, d);
      if i < |t| then AddLast(buf, t, Big16(49152 + t[i].ptr))
      else
        var t' := Record(t, d, |buf|);
        var n := d[0] + 1;
        if n > RESPONSE_SIZE - |buf| then (false, buf, t')
        else AddName(buf + d[..n], t', Parent(d))
  }

  function AddLast(buf: bytes, t: seq<Known>, s: bytes): (bool, bytes, seq<Known>) {
    if |s| > RESPONSE_SIZE - |buf| then (false, buf, t) else (true, buf + s, t)
  }

  /** The guard the code lacks: the pointer that writing `d` would use, if any, fits in 14 bits. */
  predicate Clean(t: seq<Known>, d: bytes)
    requires IsName(d)
    decreases |d|
  {
    d[0] == 0 ||
    var i := Matching(t, d);
    if i < |t| then t[i].ptr < PTR_LIMIT else Clean(t, Parent(d))
  }

  // --- encoded names ------------------------------------------------------------------------------

  /** All of [p..p + n) is frozen: it will never be overwritten. */
  ghost predicate Frozen(buf: bytes, fz: set<nat>, p: nat, n: nat) {
    p + n <= |buf| && forall q: nat :: p <= q < p + n ==> q in fz
  }

  /** At p there is a label of `d` itself (or the final zero), followed by an encoding of the rest. */
  ghost predicate Direct(buf: bytes, fz: set<nat>, p: nat, d: bytes)
    requires IsName(d)
    decreases |d|, 0
  {
    && Frozen(buf, fz, p, d[0] as nat + 1)
    && buf[p] == d[0] && Same(buf[p..p + d[0] as nat + 1], d[..d[0] + 1])
    && (d[0] != 0 ==> Encoded(buf, fz, p + d[0] as nat + 1, Parent(d)))
  }

  /** At p there is a pointer to a direct encoding of `d`. */
  ghost predicate Pointed(buf: bytes, fz: set<nat>, p: nat, d: bytes)
    requires IsName(d)
    decreases |d|, 1
  {
    && Frozen(buf, fz, p, 2) && buf[p] >= 192
    && d[0] != 0 && Direct(buf, fz, (buf[p] - 192) as nat * 256 + buf[p + 1], d)
  }

  ghost predicate Encoded(buf: bytes, fz: set<nat>, p: nat, d: bytes)
    requires IsName(d)
    decreases |d|, 2
  {
    Direct(buf, fz, p, d) || Pointed(buf, fz, p, d)
  }

  /** Where the encoding of `d` at p ends. */
  function EncodedEnd(buf: bytes, p: nat, d: bytes): nat
    requires IsName(d)
    decreases |d|
  {
    if d[0] == 0 then p + 1
    else if p < |buf| && buf[p] >= 192 then p + 2
    else EncodedEnd(buf, p + d[0] as nat + 1, Parent(d))
  }

  /** buf' extends the frozen part of buf. */
  ghost predicate Keeps(buf: bytes, fz: set<nat>, buf': bytes, fz': set<nat>) {
    && fz <= fz'
    && |buf| <= |buf'|
    && forall p: nat :: p in fz && p < |buf| ==> buf'[p] == buf[p]
  }

  lemma FrozenKept(buf: bytes, fz: set<nat>, buf': bytes, fz': set<nat>, p: nat, n: nat)
    requires Keeps(buf, fz, buf', fz') && Frozen(buf, fz, p, n)
    ensures Frozen(buf', fz', p, n) && buf'[p..p + n] == buf[p..p + n]
  {
  }

  lemma {:induction false} DirectKept(buf: bytes, fz: set<nat>, buf': bytes, fz': set<nat>, p: nat, d: bytes)
    requires IsName(d) && Keeps(buf, fz, buf', fz') && Direct(buf, fz, p, d)
    ensures Direct(buf', fz', p, d) && EncodedEnd(buf', p, d) == EncodedEnd(buf, p, d)
    decreases |d|, 0
  {
    hide Frozen, Same;
    FrozenKept(buf, fz, buf', fz', p, d[0] as nat + 1);
    FrozenBound(buf, fz, p, d[0] as nat + 1);
    FrozenBound(buf', fz', p, d[0] as nat + 1);
    assert buf'[p] == buf'[p..p + d[0] as nat + 1][0];
    assert buf[p] == buf[p..p + d[0] as nat + 1][0];
    if d[0] != 0 {
      EncodedKept(buf, fz, buf', fz', p + d[0] as nat + 1, Parent(d));
    }
  }

  lemma FrozenBound(buf: bytes, fz: set<nat>, p: nat, n: nat)
    requires Frozen(buf, fz, p, n)
    ensures p + n <= |buf|
  {
  }

  lemma DirectBound(buf: bytes, fz: set<nat>, p: nat, d: bytes)
    requires IsName(d) && Direct(buf, fz, p, d)
    ensures p + d[0] as nat + 1 <= |buf| && buf[p] == d[0]
  {
    hide Encoded;
  }

  /** Bytes written later do not disturb an encoded name. */
  lemma {:induction false} EncodedKept(buf: bytes, fz: set<nat>, buf': bytes, fz': set<nat>, p: nat, d: bytes)
    requires IsName(d) && Keeps(buf, fz, buf', fz') && Encoded(buf, fz, p, d)
    ensures Encoded(buf', fz', p, d) && EncodedEnd(buf', p, d) == EncodedEnd(buf, p, d)
    decreases |d|, 2
  {
    hide Frozen, Same, Keeps, Direct;
    if Direct(buf, fz, p, d) {
      DirectKept(buf, fz, buf', fz', p, d);
    } else {
      FrozenKept(buf, fz, buf', fz', p, 2);
      FrozenBound(buf, fz, p, 2);
      FrozenBound(buf', fz', p, 2);
      assert buf'[p] == buf'[p..p + 2][0] && buf'[p + 1] == buf'[p..p + 2][1];
      DirectKept(buf, fz, buf', fz', (buf[p] - 192) as nat * 256 + buf[p + 1], d);
    }
  }

  // --- decoding -----------------------------------------------------------------------------------

  /** What is decoded for `d` when `name` has been collected: `d` up to case, and the right next position. */
  ghost predicate Decoded(r: Option<(bytes, nat)>, name: bytes, d: bytes, next: nat) {
    && r.Some? && |r.value.0| == |name| + |d| && r.value.0[..|name|] == name
    && Same(r.value.0[|name|..], d) && r.value.1 == next
  }

  /** Decoding after the byte at a direct encoding has been read as `ch`: a length, or the final zero. */
  function AfterByte(buf: bytes, p: nat, loop: nat, first: nat, name: bytes, ch: byte): Option<(bytes, nat)>
    requires ch < 64
  {
    if |name| + 1 > MAXNAME then None
    else if ch == 0 then Some((name + [ch], if first != 0 then first else p))
    else GetFrom(buf, p, loop, ch, first, name + [ch])
  }

  lemma SameJoin(s: bytes, s': bytes, t: bytes, t': bytes)
    requires Same(s, s') && Same(t, t')
    ensures Same(s + t, s' + t')
  {
    assert LowerAll(s + t) == LowerAll(s) + LowerAll(t);
    assert LowerAll(s' + t') == LowerAll(s') + LowerAll(t');
  }

  lemma DecodedJoin(r: Option<(bytes, nat)>, name: bytes, lab: bytes, d: bytes, next: nat)
    requires IsName(d) && |lab| == d[0] as nat + 1 && Same(lab, d[..d[0] + 1]) && d[0] != 0
    requires Decoded(r, name + lab, Parent(d), next)
    ensures Decoded(r, name, d, next)
  {
    hide Same;
    var out := r.value.0;
    var n := |name| + |lab|;
    assert out[..n] == name + lab;
    assert out[|name|..n] == (name + lab)[|name|..] == lab;
    assert out[|name|..] == lab + out[n..];
    assert d == d[..d[0] + 1] + Parent(d);
    SameJoin(lab, d[..d[0] + 1], out[n..], Parent(d));
    assert out[..|name|] == (name + lab)[..|name|] == name;
  }

  lemma RootDecodes(buf: bytes, p: nat, loop: nat, first: nat, name: bytes)
    requires |name| + 1 <= MAXNAME
    ensures Decoded(AfterByte(buf, p, loop, first, name, 0), name, [0], if first != 0 then first else p)
  {
    var out := name + [0];
    assert out[..|name|] == name && out[|name|..] == [0];
  }

  lemma {:induction false} DirectDecodes(buf: bytes, fz: set<nat>, p: nat, d: bytes, loop: nat, first: nat, name: bytes)
    requires IsName(d) && Direct(buf, fz, p, d)
    requires |name| + |d| <= MAXNAME && 0 < loop && loop + 2 * |d| <= MAXLOOP
    ensures buf[p] < 64
    ensures Decoded(AfterByte(buf, p + 1, loop, first, name, buf[p]), name, d,
                    if first != 0 then first else EncodedEnd(buf, p, d))
    decreases |d|, 0
  {
    hide Follow, Frozen, Encoded, Same;
    var n := d[0] as nat;
    FrozenBound(buf, fz, p, n + 1);
    if n == 0 {
      assert d == [0];
      RootDecodes(buf, p + 1, loop, first, name);
    } else {
      hide Decoded;
      var lab := buf[p..p + n + 1];
      assert lab == [buf[p]] + buf[p + 1..p + 1 + n];
      CopyLabel(buf, p + 1, loop, n, first, name + [buf[p]]);
      assert name + [buf[p]] + buf[p + 1..p + 1 + n] == name + lab;
      EncodedDecodes(buf, fz, p + n + 1, Parent(d), loop + n, first, name + lab);
      var next := if first != 0 then first else EncodedEnd(buf, p, d);
      DecodedJoin(GetFrom(buf, p + n + 1, loop + n, 0, first, name + lab), name, lab, d, next);
    }
  }

  /** dns_packet_getname decodes an encoded name, without hitting its step or length limits. */
  lemma {:induction false} EncodedDecodes(buf: bytes, fz: set<nat>, p: nat, d: bytes, loop: nat, first: nat,
                                          name: bytes)
    requires IsName(d) && Encoded(buf, fz, p, d)
    requires |name| + |d| <= MAXNAME && loop + 1 + 2 * |d| < MAXLOOP
    ensures Decoded(GetFrom(buf, p, loop, 0, first, name), name, d,
                    if first != 0 then first else EncodedEnd(buf, p, d))
    decreases |d|, 2
  {
    hide Frozen, Decoded;
    if Direct(buf, fz, p, d) {
      FrozenBound(buf, fz, p, d[0] as nat + 1);
      DirectDecodes(buf, fz, p, d, loop + 1, first, name);
      FollowPlain(buf, buf[p], p + 1, loop + 1, first);
    } else {
      FrozenBound(buf, fz, p, 2);
      var q := (buf[p] - 192) as nat * 256 + buf[p + 1];
      DirectBound(buf, fz, q, d);
      var first' := if first == 0 then p + 2 else first;
      DirectDecodes(buf, fz, q, d, loop + 2, first', name);
      FollowPlain(buf, buf[q], q + 1, loop + 2, first');
    }
  }

  /** Skipping an encoded name, of whatever length, ends where it ends. */
  lemma {:induction false} EncodedSkips(buf: bytes, fz: set<nat>, p: nat, d: bytes)
    requires IsName(d) && Encoded(buf, fz, p, d)
    ensures SkipFrom(buf, p) == EncodedEnd(buf, p, d)
    decreases |d|
  {
    hide Frozen, Same;
    if Direct(buf, fz, p, d) {
      FrozenBound(buf, fz, p, d[0] as nat + 1);
      if d[0] != 0 {
        EncodedSkips(buf, fz, p + d[0] as nat + 1, Parent(d));
      }
    } else {
      FrozenBound(buf, fz, p, 2);
    }
  }

  /** dns_packet_getname at p gives `d` up to case, and the position `next` just past what was written. */
  predicate ReadsBack(buf: bytes, p: nat, d: bytes, next: nat) {
    var r := NameAt(buf, p);
    r.Some? && Same(r.value.0, d) && r.value.1 == next
  }

  /** An encoded name reads back as itself up to case, exactly if it has at most 255 bytes. */
  lemma EncodedReads(buf: bytes, fz: set<nat>, p: nat, d: bytes)
    requires IsName(d) && Encoded(buf, fz, p, d)
    ensures ReadsBack(buf, p, d, EncodedEnd(buf, p, d)) <==> |d| <= MAXNAME
  {
    hide Encoded, GetFrom, SkipFrom;
    if |d| <= MAXNAME {
      EncodedDecodes(buf, fz, p, d, 0, 0, []);
      var out := NameAt(buf, p).value.0;
      assert out[0..] == out;
    } else if NameAt(buf, p).Some? {
      NameAtIsName(buf, p);
      assert |LowerAll(NameAt(buf, p).value.0)| < |LowerAll(d)|;
    }
  }

  // --- encoding -----------------------------------------------------------------------------------

  /** A row is right: its name is encoded at its position, if a compression pointer can reach it. */
  ghost predicate RowOk(buf: bytes, fz: set<nat>, k: Known) {
    && IsName(k.name) && k.name[0] != 0 && k.ptr < |buf|
    && (k.ptr < PTR_LIMIT ==> Direct(buf, fz, k.ptr, k.name))
  }

  ghost predicate RowsOk(buf: bytes, fz: set<nat>, t: seq<Known>) {
    forall i :: 0 <= i < |t| ==> RowOk(buf, fz, t[i])
  }

  lemma RowsKept(buf: bytes, fz: set<nat>, buf': bytes, fz': set<nat>, t: seq<Known>)
    requires Keeps(buf, fz, buf', fz') && RowsOk(buf, fz, t)
    ensures RowsOk(buf', fz', t)
  {
    hide Direct;
    forall i | 0 <= i < |t|
      ensures RowOk(buf', fz', t[i])
    {
      assert RowOk(buf, fz, t[i]);
      if t[i].ptr < PTR_LIMIT {
        DirectKept(buf, fz, buf', fz', t[i].ptr, t[i].name);
      }
    }
  }

  /** The frozen positions once the bytes between two lengths are frozen too. */
  function Freeze(fz: set<nat>, lo: nat, hi: nat): set<nat> {
    fz + Range(lo, hi)
  }

  function Range(lo: nat, hi: nat): (r: set<nat>)
    ensures forall p: nat :: p in r <==> lo <= p < hi
    decreases hi
  {
    if lo >= hi then {} else Range(lo, hi - 1) + {hi - 1}
  }

  lemma {:induction false} MatchingLonger(t: seq<Known>, k: Known, d: bytes)
    requires !Same(d, k.name)
    ensures var i := Matching(t, d); Matching(t + [k], d) == if i < |t| then i else |t| + 1
  {
    assert (t + [k])[..|t|] == t;
  }

  /** Recording a longer name does not change what will be written for `d`. */
  lemma {:induction false} CleanLonger(t: seq<Known>, k: Known, d: bytes)
    requires IsName(d) && |k.name| > |d|
    ensures Clean(t + [k], d) <==> Clean(t, d)
    decreases |d|
  {
    hide Same, Matching;
    LongerDiffers(k.name, d);
    MatchingLonger(t, k, d);
    if d[0] != 0 {
      CleanLonger(t, k, Parent(d));
    }
  }

  lemma LongerDiffers(e: bytes, d: bytes)
    requires |e| != |d|
    ensures !Same(d, e)
  {
    assert |LowerAll(d)| != |LowerAll(e)|;
  }

  lemma {:induction false} AddNameGrows(buf: bytes, t: seq<Known>, d: bytes)
    requires IsName(d)
    ensures var (ok, buf', t') := AddName(buf, t, d);
            buf <= buf' && t <= t' && (|buf| <= RESPONSE_SIZE ==> |buf'| <= RESPONSE_SIZE)
    ensures AddName(buf, t, d).0 ==> |AddName(buf, t, d).1| > |buf|
    decreases |d|
  {
    hide Matching, Same;
    if d[0] != 0 && Matching(t, d) == |t| && d[0] + 1 <= RESPONSE_SIZE - |buf| {
      AddNameGrows(buf + d[..d[0] + 1], Record(t, d, |buf|), Parent(d));
    }
  }

  lemma PointerBytes(p: nat)
    requires p < PTR_LIMIT
    ensures var s := Big16(49152 + p); s[0] >= 192 && (s[0] - 192) as nat * 256 + s[1] == p
  {
  }

  /** Writing the final zero or a pointer. */
  lemma LastEncoded(buf: bytes, fz: set<nat>, t: seq<Known>, d: bytes)
    requires IsName(d) && RowsOkShort(buf, fz, t, |d|) && Clean(t, d)
    requires d[0] == 0 || Matching(t, d) < |t|
    ensures var buf' := AddName(buf, t, d).1;
            AddName(buf, t, d).0 ==>
              && Encoded(buf', Freeze(fz, |buf|, |buf'|), |buf|, d)
              && EncodedEnd(buf', |buf|, d) == |buf'|
  {
    hide Big16, Direct, Matching, Same, RowsOkShort, Range;
    var (ok, buf', t') := AddName(buf, t, d);
    var fz' := Freeze(fz, |buf|, |buf'|);
    if ok {
      if d[0] == 0 {
        RootDirect(buf', fz', |buf|, d);
      } else {
        var k := t[Matching(t, d)];
        PointerBytes(k.ptr);
        RowMatches(buf, fz, t, d);
        DirectKept(buf, fz, buf', fz', k.ptr, k.name);
        DirectSame(buf', fz', k.ptr, k.name, d);
      }
    }
  }

  lemma RootDirect(buf: bytes, fz: set<nat>, p: nat, d: bytes)
    requires IsName(d) && d[0] == 0 && p < |buf| && p in fz && buf[p] == 0
    ensures Direct(buf, fz, p, d)
  {
    assert buf[p..p + 1] == [0] == d[..1];
  }

  /** The rows of names no longer than n are right; longer ones may still be under construction. */
  ghost predicate RowsOkShort(buf: bytes, fz: set<nat>, t: seq<Known>, n: nat) {
    forall i :: 0 <= i < |t| && |t[i].name| <= n ==> RowOk(buf, fz, t[i])
  }

  lemma RowMatches(buf: bytes, fz: set<nat>, t: seq<Known>, d: bytes)
    requires IsName(d) && RowsOkShort(buf, fz, t, |d|) && Matching(t, d) < |t|
    ensures RowOk(buf, fz, t[Matching(t, d)])
  {
    var k := t[Matching(t, d)];
    assert |LowerAll(d)| == |LowerAll(k.name)|;
  }

  lemma SameTransitive(a: bytes, b: bytes, c: bytes)
    requires Same(a, b) && Same(b, c)
    ensures Same(a, c) && Same(b, a)
  {
  }

  /** An encoding of a name is an encoding of every name that equals it up to case. */
  lemma {:induction false} DirectSame(buf: bytes, fz: set<nat>, p: nat, e: bytes, d: bytes)
    requires IsName(e) && IsName(d) && Same(d, e) && Direct(buf, fz, p, e)
    ensures Direct(buf, fz, p, d)
    decreases |e|, 0
  {
    hide Frozen, Same;
    SameParents(d, e);
    FrozenBound(buf, fz, p, d[0] as nat + 1);
    SameTransitive(d[..d[0] + 1], e[..d[0] + 1], e[..d[0] + 1]);
    SameTransitive(buf[p..p + d[0] as nat + 1], e[..d[0] + 1], d[..d[0] + 1]);
    if e[0] != 0 {
      EncodedSame(buf, fz, p + d[0] as nat + 1, Parent(e), Parent(d));
    }
  }

  lemma {:induction false} EncodedSame(buf: bytes, fz: set<nat>, p: nat, e: bytes, d: bytes)
    requires IsName(e) && IsName(d) && Same(d, e) && Encoded(buf, fz, p, e)
    ensures Encoded(buf, fz, p, d)
    decreases |e|, 2
  {
    hide Frozen, Same, Direct;
    if Direct(buf, fz, p, e) {
      DirectSame(buf, fz, p, e, d);
    } else {
      SameParents(d, e);
      FrozenBound(buf, fz, p, 2);
      DirectSame(buf, fz, (buf[p] - 192) as nat * 256 + buf[p + 1], e, d);
    }
  }

  ghost predicate PointersBelow(t: seq<Known>, limit: nat) {
    forall i :: 0 <= i < |t| ==> t[i].ptr < limit
  }

  /** A pointer that does not fit comes from a row recorded far into the response. */
  lemma {:induction false} DirtyIsFar(t: seq<Known>, d: bytes, limit: nat)
    requires IsName(d) && PointersBelow(t, limit) && !Clean(t, d)
    ensures limit > PTR_LIMIT
    decreases |d|
  {
    hide Matching, Same;
    if Matching(t, d) == |t| {
      DirtyIsFar(t, Parent(d), limit);
    }
  }

  lemma FreezeTwice(fz: set<nat>, a: nat, b: nat, c: nat)
    requires a <= b <= c
    ensures Freeze(Freeze(fz, a, b), b, c) == Freeze(fz, a, c)
  {
    hide Range;
  }

  lemma ShortRowsKept(buf: bytes, fz: set<nat>, buf': bytes, fz': set<nat>, t: seq<Known>, n: nat, n': nat)
    requires Keeps(buf, fz, buf', fz') && RowsOkShort(buf, fz, t, n) && n' <= n
    ensures RowsOkShort(buf', fz', t, n')
  {
    hide Direct, Keeps;
    forall i | 0 <= i < |t| && |t[i].name| <= n'
      ensures RowOk(buf', fz', t[i])
    {
      assert RowOk(buf, fz, t[i]);
      KeepsLength(buf, fz, buf', fz');
      if t[i].ptr < PTR_LIMIT {
        DirectKept(buf, fz, buf', fz', t[i].ptr, t[i].name);
      }
    }
  }

  lemma KeepsLength(buf: bytes, fz: set<nat>, buf': bytes, fz': set<nat>)
    requires Keeps(buf, fz, buf', fz')
    ensures |buf| <= |buf'|
  {
  }

  lemma AppendKeeps(buf: bytes, fz: set<nat>, buf': bytes)
    requires buf <= buf'
    ensures Keeps(buf, fz, buf', Freeze(fz, |buf|, |buf'|))
  {
    hide Range;
  }

  /** A label written at the end, and an encoding of the rest right behind it, encode the whole name. */
  lemma LabelDirect(buf: bytes, buf': bytes, fz: set<nat>, d: bytes)
    requires IsName(d) && d[0] != 0 && buf + d[..d[0] + 1] <= buf'
    requires forall p: nat :: |buf| <= p < |buf'| ==> p in fz
    requires Encoded(buf', fz, |buf| + d[0] as nat + 1, Parent(d))
    ensures Direct(buf', fz, |buf|, d)
    ensures EncodedEnd(buf', |buf|, d) == EncodedEnd(buf', |buf| + d[0] as nat + 1, Parent(d))
  {
    hide Encoded;
    var n := d[0] as nat + 1;
    assert buf'[|buf|..|buf| + n] == d[..n];
    assert buf'[|buf|] == d[..n][0];
  }

  /** The rows added while `d` is written are right afterwards. */
  ghost predicate NewRowsOk(buf: bytes, fz: set<nat>, t: seq<Known>, from: nat) {
    forall i :: from <= i < |t| ==> RowOk(buf, fz, t[i])
  }

  /**
   * response_addname writes an encoding of its argument, provided the pointer it uses fits, and every row it
   * adds to the table is right.
   */
  lemma {:induction false} AddNameEncodes(buf: bytes, fz: set<nat>, t: seq<Known>, d: bytes)
    requires IsName(d) && RowsOkShort(buf, fz, t, |d|) && PointersBelow(t, |buf|) && AddName(buf, t, d).0
    ensures var (_, buf', t') := AddName(buf, t, d);
            var fz' := Freeze(fz, |buf|, |buf'|);
            && (Clean(t, d) ==> Encoded(buf', fz', |buf|, d) && EncodedEnd(buf', |buf|, d) == |buf'|)
            && NewRowsOk(buf', fz', t', |t|)
    decreases |d|
  {
    hide Matching, Same, RowsOkShort, PointersBelow, Freeze, Encoded, Big16;
    if d[0] == 0 || Matching(t, d) < |t| {
      if Clean(t, d) {
        LastEncoded(buf, fz, t, d);
      }
    } else {
      var n := d[0] as nat + 1;
      var buf1, t1 := buf + d[..n], Record(t, d, |buf|);
      var fz1 := Freeze(fz, |buf|, |buf1|);
      var rest := Parent(d);
      var (_, buf', t') := AddName(buf1, t1, rest);
      AddNameGrows(buf1, t1, rest);
      AppendKeeps(buf, fz, buf1);
      ShortRowsKept(buf, fz, buf1, fz1, t, |d|, |rest|);
      RecordPending(buf1, fz1, t, d, |buf|, |buf1|, |rest|);
      CleanRecorded(t, d, |buf|, rest);
      AddNameEncodes(buf1, fz1, t1, rest);
      FreezeTwice(fz, |buf|, |buf1|, |buf'|);
      var fz' := Freeze(fz, |buf|, |buf'|);
      Freezes(fz, |buf|, |buf'|);
      if Clean(t, rest) {
        LabelDirect(buf, buf', fz', d);
        DirectEncoded(buf', fz', |buf|, d);
      } else {
        DirtyIsFar(t, rest, |buf|);
      }
      NewRowsJoin(buf', fz', t, t1, t', Known(d, |buf|));
    }
  }

  lemma DirectEncoded(buf: bytes, fz: set<nat>, p: nat, d: bytes)
    requires IsName(d) && Direct(buf, fz, p, d)
    ensures Encoded(buf, fz, p, d)
  {
  }

  lemma Freezes(fz: set<nat>, lo: nat, hi: nat)
    ensures forall p: nat :: lo <= p < hi ==> p in Freeze(fz, lo, hi)
  {
  }

  lemma RecordPending(buf: bytes, fz: set<nat>, t: seq<Known>, d: bytes, p: nat, limit: nat, n: nat)
    requires RowsOkShort(buf, fz, t, n) && PointersBelow(t, p) && |d| > n && p < limit
    ensures RowsOkShort(buf, fz, Record(t, d, p), n) && PointersBelow(Record(t, d, p), limit)
  {
    hide RowOk;
  }

  lemma CleanRecorded(t: seq<Known>, d: bytes, p: nat, rest: bytes)
    requires IsName(rest) && |d| > |rest|
    ensures Clean(Record(t, d, p), rest) <==> Clean(t, rest)
  {
    hide Clean;
    CleanLonger(t, Known(d, p), rest);
  }

  lemma NewRowsJoin(buf: bytes, fz: set<nat>, t: seq<Known>, t1: seq<Known>, t': seq<Known>, k: Known)
    requires t1 <= t' && NewRowsOk(buf, fz, t', |t1|) && (t1 == t || (t1 == t + [k] && RowOk(buf, fz, k)))
    ensures NewRowsOk(buf, fz, t', |t|)
  {
    hide RowOk;
  }

  // --- when the pointer does not fit --------------------------------------------------------------

  /** Past 14 bits the pointer wraps round and loses its mark: its first byte is below 192. */
  lemma PointerWraps(p: nat)
    requires PTR_LIMIT <= p < RESPONSE_SIZE
    ensures Big16(49152 + p)[0] < 192
  {
    assert (49152 + p) / 256 == 192 + p / 256;
    assert 256 <= 192 + p / 256 < 448;
  }

  lemma {:induction false} CopyLabelOrFail(buf: bytes, p: nat, loop: nat, n: nat, first: nat, name: bytes)
    requires p + n <= |buf|
    ensures var r := GetFrom(buf, p, loop, n, first, name);
            r.Some? ==> r == GetFrom(buf, p + n, loop + n, 0, first, name + buf[p..p + n])
    decreases n
  {
    hide Follow;
    if n == 0 {
      assert name + buf[p..p] == name;
    } else if loop + 1 < MAXLOOP && |name| + 1 <= MAXNAME {
      CopyLabelOrFail(buf, p + 1, loop + 1, n - 1, first, name + [buf[p]]);
      assert name + [buf[p]] + buf[p + 1..p + n] == name + buf[p..p + n];
    }
  }

  /** Reading the two bytes of a pointer that has lost its mark stops before the end, or fails. */
  lemma WrappedPointerReads(buf: bytes, p: nat, loop: nat, name: bytes)
    requires |buf| == p + 2 && buf[p] < 192
    ensures var r := GetFrom(buf, p, loop, 0, 0, name); r.Some? ==> r.value.1 < |buf|
  {
    if loop + 1 < MAXLOOP {
      FollowPlain(buf, buf[p], p + 1, loop + 1, 0);
      if 0 < buf[p] < 64 && |name| + 1 <= MAXNAME {
        var r := GetFrom(buf, p + 1, loop + 1, buf[p], 0, name + [buf[p]]);
        assert GetFrom(buf, p + 2, loop + 2, buf[p] - 1, 0, name + [buf[p]] + [buf[p + 1]]) == None;
      }
    }
  }

  lemma {:induction false} DirtyReads(buf: bytes, t: seq<Known>, d: bytes, loop: nat, name: bytes)
    requires IsName(d) && PointersBelow(t, RESPONSE_SIZE) && |buf| < RESPONSE_SIZE
    requires AddName(buf, t, d).0 && !Clean(t, d)
    ensures var buf' := AddName(buf, t, d).1;
            var r := GetFrom(buf', |buf|, loop, 0, 0, name);
            r.Some? ==> r.value.1 < |buf'|
    decreases |d|
  {
    hide Matching, Same, Big16, GetFrom, PointersBelow;
    var buf' := AddName(buf, t, d).1;
    var i := Matching(t, d);
    if i < |t| {
      var p := t[i].ptr;
      PointerBelow(t, i, RESPONSE_SIZE);
      PointerWraps(p);
      assert buf'[|buf|] == Big16(49152 + p)[0];
      WrappedPointerReads(buf', |buf|, loop, name);
    } else {
      var n := d[0] as nat + 1;
      var buf1, t1, rest := buf + d[..n], Record(t, d, |buf|), Parent(d);
      CleanRecorded(t, d, |buf|, rest);
      AddNameGrows(buf1, t1, rest);
      RecordBelow(t, d, |buf|);
      assert buf'[|buf|] == buf1[|buf|] == d[0];
      ReadLabelOrFail(buf', |buf|, loop, name);
      DirtyReads(buf1, t1, rest, loop + n, name + buf'[|buf|..|buf| + n]);
    }
  }

  lemma ReadLabelOrFail(buf: bytes, p: nat, loop: nat, name: bytes)
    requires p < |buf| && 0 < buf[p] < 64 && p + 1 + buf[p] as nat <= |buf|
    ensures var n := buf[p] as nat + 1;
            var r := GetFrom(buf, p, loop, 0, 0, name);
            r.Some? ==> r == GetFrom(buf, p + n, loop + n, 0, 0, name + buf[p..p + n])
  {
    if loop + 1 < MAXLOOP {
      var n := buf[p] as nat + 1;
      FollowPlain(buf, buf[p], p + 1, loop + 1, 0);
      CopyLabelOrFail(buf, p + 1, loop + 1, buf[p] as nat, 0, name + [buf[p]]);
      assert name + [buf[p]] + buf[p + 1..p + n] == name + buf[p..p + n];
    }
  }

  lemma PointerBelow(t: seq<Known>, i: nat, limit: nat)
    requires PointersBelow(t, limit) && i < |t|
    ensures t[i].ptr < limit
  {
  }

  lemma RecordBelow(t: seq<Known>, d: bytes, p: nat)
    requires PointersBelow(t, RESPONSE_SIZE) && p < RESPONSE_SIZE
    ensures PointersBelow(Record(t, d, p), RESPONSE_SIZE)
  {
  }

  // --- the exact condition ------------------------------------------------------------------------

  /** The state of a response under construction: every recorded name can be read back. */
  ghost predicate Good(buf: bytes, fz: set<nat>, t: seq<Known>) {
    |buf| <= RESPONSE_SIZE && RowsOk(buf, fz, t)
  }

  lemma GoodRows(buf: bytes, fz: set<nat>, t: seq<Known>, n: nat)
    requires Good(buf, fz, t)
    ensures RowsOkShort(buf, fz, t, n) && PointersBelow(t, |buf|) && PointersBelow(t, RESPONSE_SIZE)
  {
    hide Direct;
    forall i | 0 <= i < |t|
      ensures t[i].ptr < |buf|
    {
      assert RowOk(buf, fz, t[i]);
    }
  }

  lemma GoodAfter(buf: bytes, fz: set<nat>, t: seq<Known>, d: bytes)
    requires IsName(d) && Good(buf, fz, t) && AddName(buf, t, d).0
    ensures var (_, buf', t') := AddName(buf, t, d); Good(buf', Freeze(fz, |buf|, |buf'|), t')
  {
    hide Freeze, RowOk, Clean, Encoded;
    var (_, buf', t') := AddName(buf, t, d);
    GoodRows(buf, fz, t, |d|);
    AddNameEncodes(buf, fz, t, d);
    AddNameGrows(buf, t, d);
    AppendKeeps(buf, fz, buf');
    RowsKept(buf, fz, buf', Freeze(fz, |buf|, |buf'|), t);
    forall i | 0 <= i < |t'|
      ensures RowOk(buf', Freeze(fz, |buf|, |buf'|), t'[i])
    {
      if i < |t| {
        assert t'[i] == t[i];
      }
    }
  }

  /**
   * A name written by response_addname reads back, just past the bytes written, if and only if it has at most 255
   * bytes and the pointer it ends with (if any) is below 16384. The code declares that second bound for name_ptr but
   * never checks it.
   */
  lemma RoundTripExactly(buf: bytes, fz: set<nat>, t: seq<Known>, d: bytes)
    requires IsName(d) && Good(buf, fz, t) && AddName(buf, t, d).0
    ensures var buf' := AddName(buf, t, d).1;
            ReadsBack(buf', |buf|, d, |buf'|) <==> Clean(t, d) && |d| <= MAXNAME
  {
    hide Encoded, AddName, Clean, Good, Freeze;
    GoodRows(buf, fz, t, |d|);
    var buf' := AddName(buf, t, d).1;
    AddNameGrows(buf, t, d);
    GoodLength(buf, fz, t);
    if Clean(t, d) {
      AddNameEncodes(buf, fz, t, d);
      EncodedReads(buf', Freeze(fz, |buf|, |buf'|), |buf|, d);
    } else {
      DirtyReads(buf, t, d, 0, []);
    }
  }

  lemma GoodLength(buf: bytes, fz: set<nat>, t: seq<Known>)
    requires Good(buf, fz, t)
    ensures |buf| <= RESPONSE_SIZE
  {
  }

  /**
   * The failure is real: a name first written at position 16384 reads back, but writing the same name again
   * uses that position as a pointer, and the second copy does not read back.
   */
  lemma SecondCopyBeyondLimit()
    ensures var d: bytes, buf: bytes := [1, 97, 0], seq(PTR_LIMIT, _ => 0);
            var (ok1, buf1, t1) := AddName(buf, [], d);
            var (ok2, buf2, _) := AddName(buf1, t1, d);
            && ok1 && ReadsBack(buf1, |buf|, d, |buf1|)
            && ok2 && !ReadsBack(buf2, |buf1|, d, |buf2|)
  {
    var d: bytes, buf: bytes := [1, 97, 0], seq(PTR_LIMIT, _ => 0);
    assert Parent(d) == [0];
    var (ok1, buf1, t1) := AddName(buf, [], d);
    assert Clean([], d);
    assert Good(buf, {}, []);
    RoundTripExactly(buf, {}, [], d);
    GoodAfter(buf, {}, [], d);
    assert t1 == [Known(d, PTR_LIMIT)];
    assert Matching(t1, d) == 0;
    RoundTripExactly(buf1, Freeze({}, |buf|, |buf1|), t1, d);
  }

  // --- how short it becomes -----------------------------------------------------------------------

  /** No row of the table is for this name. */
  predicate Unknown(t: seq<Known>, d: bytes) {
    forall j :: 0 <= j < |t| ==> LowerAll(t[j].name) != LowerAll(d)
  }

  /** The two bytes at position p point to where the first row for this name says that it was written. */
  predicate PointsBack(buf: bytes, p: nat, t: seq<Known>, d: bytes)
    requires p + 1 < |buf|
  {
    exists j :: 0 <= j < |t| && LowerAll(t[j].name) == LowerAll(d) && Unknown(t[..j], d)
                && Word16(buf, p) == (49152 + t[j].ptr) % 65536
  }

  lemma UnknownMeans(t: seq<Known>, d: bytes)
    ensures Unknown(t, d) <==> Matching(t, d) == |t|
    ensures var j := Matching(t, d); j < |t| ==> LowerAll(t[j].name) == LowerAll(d) && Unknown(t[..j], d)
  {
    hide LowerAll;
  }

  /** Recording a longer name changes nothing for the shorter ones. */
  lemma PointsIrrelevant(t: seq<Known>, d: bytes, p: nat, e: bytes, buf: bytes, q: nat)
    requires |e| < |d| && q + 1 < |buf| && PointsBack(buf, q, Record(t, d, p), e)
    ensures PointsBack(buf, q, t, e)
  {
    hide LowerAll, Unknown, Word16;
    LengthsDiffer(d, e);
    var t' := Record(t, d, p);
    var j :| 0 <= j < |t'| && LowerAll(t'[j].name) == LowerAll(e) && Unknown(t'[..j], e)
              && Word16(buf, q) == (49152 + t'[j].ptr) % 65536;
    assert j < |t| && t'[..j] == t[..j] && t'[j] == t[j];
  }

  lemma LengthsDiffer(d: bytes, e: bytes)
    requires |d| != |e|
    ensures LowerAll(d) != LowerAll(e)
  {
    assert |LowerAll(d)| == |d| && |LowerAll(e)| == |e|;
  }

  lemma RecordUnknown(t: seq<Known>, d: bytes, p: nat, e: bytes)
    requires LowerAll(d) != LowerAll(e)
    ensures Unknown(Record(t, d, p), e) <==> Unknown(t, e)
  {
    hide LowerAll;
    var t' := Record(t, d, p);
    assert forall j :: 0 <= j < |t| ==> t'[j] == t[j];
  }

  /**
   * What has been appended is the name up to its first suffix that the table has, at position k, and from there on a
   * pointer to where that suffix was written; or all of the name, if the table has no suffix of it.
   */
  ghost predicate Shortened(buf: bytes, t: seq<Known>, d: bytes, k: nat, buf': bytes) {
    FirstSuffix(t, d, k) && CutOff(buf, t, d, k, buf')
  }

  /** A label begins at position k, and the table has no longer suffix than the one from there on. */
  ghost predicate FirstSuffix(t: seq<Known>, d: bytes, k: nat) {
    Boundary(d, k) && forall i: nat :: i < k && Boundary(d, i) ==> Unknown(t, d[i..])
  }

  /** The name is written out up to position k, and the rest is a pointer; the root is written out, too. */
  ghost predicate CutOff(buf: bytes, t: seq<Known>, d: bytes, k: nat, buf': bytes)
  {
    k < |d| &&
    if d[k] == 0 then buf' == buf + d
    else
      && |buf'| == |buf| + k + 2 && buf'[..|buf| + k] == buf + d[..k]
      && PointsBack(buf', |buf| + k, t, d[k..])
  }

  /** Names are written as short as the table allows, and their own suffixes are recorded as far as it can hold them. */
  lemma {:induction false} AddNameShortest(buf: bytes, t: seq<Known>, d: bytes) returns (k: nat)
    requires IsName(d) && AddName(buf, t, d).0
    ensures Shortened(buf, t, d, k, AddName(buf, t, d).1)
    ensures RowsFor(t, AddName(buf, t, d).2, d, k, |buf|)
    decreases |d|
  {
    hide IsName, Matching, Unknown, Record, Shortened, Boundary, RowsFor;
    NoRowsYet(t, d, |buf|);
    NameShape(d);
    if d[0] == 0 {
      k := 0;
      RootShortened(buf, t, d);
    } else if Matching(t, d) < |t| {
      k := 0;
      PointerWritten(buf, t, d);
    } else {
      var n := d[0] as nat + 1;
      var k' := AddNameShortest(buf + d[..n], Record(t, d, |buf|), Parent(d));
      k := n + k';
      SpelledOut(buf, t, d, k', AddName(buf, t, d).1);
      RowsStep(t, AddName(buf, t, d).2, d, k', |buf|);
    }
  }

  lemma NoRowsYet(t: seq<Known>, d: bytes, p: nat)
    ensures RowsFor(t, t, d, 0, p)
  {
  }

  lemma RootShortened(buf: bytes, t: seq<Known>, d: bytes)
    requires IsName(d) && d[0] == 0
    ensures Shortened(buf, t, d, 0, buf + [0])
  {
    BoundaryFirst(d, 0);
    assert d == [0];
  }

  lemma PointerWritten(buf: bytes, t: seq<Known>, d: bytes)
    requires IsName(d) && d[0] != 0 && Matching(t, d) < |t| && AddName(buf, t, d).0
    ensures Shortened(buf, t, d, 0, AddName(buf, t, d).1)
  {
    hide Matching, LowerAll;
    UnknownMeans(t, d);
    BoundaryFirst(d, 0);
    assert d[0..] == d;
    var j, buf' := Matching(t, d), AddName(buf, t, d).1;
    assert buf' == buf + Big16(49152 + t[j].ptr);
    PointerWord(49152 + t[j].ptr);
    assert Word16(buf', |buf|) == (49152 + t[j].ptr) % 65536;
  }

  lemma PointerWord(u: nat)
    ensures Big16(u)[0] as nat * 256 + Big16(u)[1] == u % 65536
  {
    var c, e, b := u / 256 / 256, u / 256 % 256, u % 256;
    assert u == 65536 * c + (256 * e + b);
    RemainderIs(65536, c, 256 * e + b);
  }

  /** One label written out in front of the rest of the name. */
  lemma SpelledOut(buf: bytes, t: seq<Known>, d: bytes, k: nat, buf': bytes)
    requires IsName(d) && d[0] != 0 && Matching(t, d) == |t|
    requires Shortened(buf + d[..d[0] as nat + 1], Record(t, d, |buf|), Parent(d), k, buf')
    ensures Shortened(buf, t, d, d[0] as nat + 1 + k, buf')
  {
    hide IsName, Matching, Record, FirstSuffix, CutOff;
    NameShape(d);
    AllUnknown(t, d, |buf|, k);
    SpelledBytes(buf, t, d, d[0] as nat + 1, k, buf');
  }

  lemma SpelledBytes(buf: bytes, t: seq<Known>, d: bytes, n: nat, k: nat, buf': bytes)
    requires 0 < n && n + k < |d| && CutOff(buf + d[..n], Record(t, d, |buf|), d[n..], k, buf')
    ensures CutOff(buf, t, d, n + k, buf')
  {
    hide PointsBack, Record;
    var rest := d[n..];
    assert d == d[..n] + rest && d[..n + k] == d[..n] + rest[..k];
    if rest[k] != 0 {
      assert rest[k..] == d[n + k..];
      PointsIrrelevant(t, d, |buf|, rest[k..], buf', |buf| + n + k);
    }
  }

  lemma AllUnknown(t: seq<Known>, d: bytes, p: nat, k: nat)
    requires IsName(d) && d[0] != 0 && Matching(t, d) == |t|
    requires FirstSuffix(Record(t, d, p), Parent(d), k)
    ensures k < |Parent(d)| && FirstSuffix(t, d, d[0] as nat + 1 + k)
  {
    hide IsName, Matching, Unknown, Record, HasSuffix;
    NameShape(d);
    BoundaryStep(d, d[0] as nat + 1 + k);
    forall i: nat | i < d[0] as nat + 1 + k && Boundary(d, i)
      ensures Unknown(t, d[i..])
    {
      OneUnknown(t, d, p, k, i);
    }
  }

  lemma OneUnknown(t: seq<Known>, d: bytes, p: nat, k: nat, i: nat)
    requires IsName(d) && d[0] != 0 && Matching(t, d) == |t|
    requires FirstSuffix(Record(t, d, p), Parent(d), k) && i < d[0] as nat + 1 + k && Boundary(d, i)
    ensures Unknown(t, d[i..])
  {
    hide IsName, Matching, Unknown, Record;
    BoundaryFirst(d, i);
    if i == 0 {
      assert d[0..] == d;
      UnknownMeans(t, d);
    } else {
      NameShape(d);
      BoundaryStep(d, i);
      var e := Parent(d)[i - d[0] as nat - 1..];
      assert d[i..] == e;
      LengthsDiffer(d, e);
      RecordUnknown(t, d, p, e);
    }
  }

  /** The row says that the name from position i on, of at most 128 bytes, has been written at p + i. */
  ghost predicate RowFor(row: Known, d: bytes, i: nat, p: nat) {
    Boundary(d, i) && |d| - i <= 128 && row == Known(d[i..], p + i)
  }

  ghost predicate IsRow(row: Known, d: bytes, k: nat, p: nat) {
    exists i: nat :: i < k && RowFor(row, d, i, p)
  }

  ghost predicate AddsRow(t: seq<Known>, t': seq<Known>, d: bytes, i: nat, p: nat) {
    exists j :: |t| <= j < |t'| && RowFor(t'[j], d, i, p)
  }

  /** The rows that writing the first k bytes of a name at position p adds: one a label, while there are below 100. */
  ghost predicate RowsFor(t: seq<Known>, t': seq<Known>, d: bytes, k: nat, p: nat) {
    && t <= t'
    && (|t'| > |t| ==> |t'| <= 100) && (forall j :: |t| <= j < |t'| ==> IsRow(t'[j], d, k, p))
    && forall i: nat :: i < k && Boundary(d, i) && |d| - i <= 128 ==>
         |t'| >= 100 || AddsRow(t, t', d, i, p)
  }

  lemma RowsStep(t: seq<Known>, t': seq<Known>, d: bytes, k: nat, p: nat)
    requires IsName(d) && d[0] != 0
    requires RowsFor(Record(t, d, p), t', Parent(d), k, p + d[0] as nat + 1)
    ensures RowsFor(t, t', d, d[0] as nat + 1 + k, p)
  {
    hide IsName, RowFor, Boundary;
    NameShape(d);
    RecordRow(t, d, p);
    var t1, n := Record(t, d, p), d[0] as nat + 1;
    forall j | |t| <= j < |t'|
      ensures IsRow(t'[j], d, n + k, p)
    {
      if j < |t1| {
        assert t'[j] == t1[j];
      } else {
        var i := NewRow(t1, t', Parent(d), k, p + n, j);
        RowAbove(t'[j], d, n + i, p);
      }
    }
    forall i: nat | i < n + k && Boundary(d, i) && |d| - i <= 128
      ensures |t'| >= 100 || AddsRow(t, t', d, i, p)
    {
      if |t'| < 100 {
        var j := FindRow(t, t', d, k, p, i);
      }
    }
  }

  lemma NewRow(t: seq<Known>, t': seq<Known>, d: bytes, k: nat, p: nat, j: nat) returns (i: nat)
    requires RowsFor(t, t', d, k, p) && |t| <= j < |t'|
    ensures i < k && RowFor(t'[j], d, i, p)
  {
    hide RowFor;
    assert IsRow(t'[j], d, k, p);
    i :| i < k && RowFor(t'[j], d, i, p);
  }

  lemma RecordRow(t: seq<Known>, d: bytes, p: nat)
    requires IsName(d)
    ensures var t1 := Record(t, d, p);
            && t <= t1 && |t1| <= |t| + 1
            && (|t1| > |t| ==> |t| < 100 && RowFor(t1[|t|], d, 0, p))
            && (|d| <= 128 && |t| < 100 ==> |t1| > |t|)
  {
    hide IsName, Boundary;
    BoundaryFirst(d, 0);
    assert d[0..] == d;
  }

  lemma FindRow(t: seq<Known>, t': seq<Known>, d: bytes, k: nat, p: nat, i: nat) returns (j: nat)
    requires IsName(d) && d[0] != 0
    requires RowsFor(Record(t, d, p), t', Parent(d), k, p + d[0] as nat + 1)
    requires i < d[0] as nat + 1 + k && Boundary(d, i) && |d| - i <= 128 && |t'| < 100
    ensures |t| <= j < |t'| && RowFor(t'[j], d, i, p)
  {
    hide IsName, RowFor, Boundary, RowsFor;
    NameShape(d);
    BoundaryFirst(d, i);
    RecordRow(t, d, p);
    var t1, n := Record(t, d, p), d[0] as nat + 1;
    RowsGrow(t1, t', Parent(d), k, p + n);
    if i == 0 {
      j := |t|;
      assert t'[j] == t1[j];
    } else {
      BoundaryStep(d, i);
      j := OldRow(t1, t', Parent(d), k, p + n, i - n);
      RowAbove(t'[j], d, i, p);
    }
  }

  lemma RowsGrow(t: seq<Known>, t': seq<Known>, d: bytes, k: nat, p: nat)
    requires RowsFor(t, t', d, k, p)
    ensures t <= t'
  {
  }

  lemma OldRow(t: seq<Known>, t': seq<Known>, d: bytes, k: nat, p: nat, i: nat) returns (j: nat)
    requires RowsFor(t, t', d, k, p) && i < k && Boundary(d, i) && |d| - i <= 128 && |t'| < 100
    ensures |t| <= j < |t'| && RowFor(t'[j], d, i, p)
  {
    hide RowFor, Boundary;
    assert AddsRow(t, t', d, i, p);
    j :| |t| <= j < |t'| && RowFor(t'[j], d, i, p);
  }

  lemma RowAbove(row: Known, d: bytes, i: nat, p: nat)
    requires IsName(d) && d[0] != 0 && i > d[0] as nat
    ensures RowFor(row, d, i, p) <==> RowFor(row, Parent(d), i - d[0] as nat - 1, p + d[0] as nat + 1)
  {
    hide IsName;
    NameShape(d);
    BoundaryStep(d, i);
    if i <= |d| {
      assert d[i..] == Parent(d)[i - d[0] as nat - 1..];
    }
  }

  /** Writing a name succeeds exactly if what is written out, and the pointer, fit below 65535 bytes. */
  lemma {:induction false} AddNameFits(buf: bytes, t: seq<Known>, d: bytes) returns (k: nat)
    requires IsName(d) && |buf| <= 65535
    ensures k < |d| && FirstSuffix(t, d, k) && (d[k] != 0 ==> !Unknown(t, d[k..]))
    ensures AddName(buf, t, d).0 <==> |buf| + (if d[k] == 0 then |d| else k + 2) <= 65535
    decreases |d|
  {
    hide IsName, Matching, Unknown, Record, FirstSuffix;
    NameShape(d);
    if d[0] == 0 {
      k := 0;
      RootShortened(buf, t, d);
    } else if Matching(t, d) < |t| {
      k := 0;
      KnownAtOnce(t, d);
    } else {
      var n, rest, t' := d[0] as nat + 1, Parent(d), Record(t, d, |buf|);
      if |buf| + n > 65535 {
        k := AddNameFits([], t', rest);
        RestFirst(t, d, |buf|, k);
        k := n + k;
      } else {
        k := AddNameFits(buf + d[..n], t', rest);
        RestFirst(t, d, |buf|, k);
        k := n + k;
      }
    }
  }

  lemma KnownAtOnce(t: seq<Known>, d: bytes)
    requires IsName(d) && Matching(t, d) < |t|
    ensures FirstSuffix(t, d, 0) && !Unknown(t, d[0..])
  {
    hide Matching, LowerAll;
    UnknownMeans(t, d);
    BoundaryFirst(d, 0);
    assert d[0..] == d;
  }

  lemma RestFirst(t: seq<Known>, d: bytes, p: nat, k: nat)
    requires IsName(d) && d[0] != 0 && Matching(t, d) == |t|
    requires FirstSuffix(Record(t, d, p), Parent(d), k) && k < |Parent(d)|
    requires Parent(d)[k] != 0 ==> !Unknown(Record(t, d, p), Parent(d)[k..])
    ensures var n := d[0] as nat + 1;
            FirstSuffix(t, d, n + k) && d[n + k] == Parent(d)[k] && (d[n + k] != 0 ==> !Unknown(t, d[n + k..]))
  {
    hide IsName, Matching, Unknown, Record, FirstSuffix;
    AllUnknown(t, d, p, k);
    NameShape(d);
    var e := Parent(d)[k..];
    assert d[d[0] as nat + 1 + k..] == e;
    LengthsDiffer(d, e);
    RecordUnknown(t, d, p, e);
  }
}
