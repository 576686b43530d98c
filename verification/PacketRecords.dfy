/** query.c: collecting, sorting and grouping the records of a packet. */
module PacketRecords {
  import opened Bytes
  import opened Domain
  import opened Packet
  import opened Heapsort

  /** A record as the code reads it: owner, type and class, ttl, data length, and the position after the owner. */
  datatype Parsed = Parsed(owner: bytes, head: bytes, ttl: uint32, after: nat, datalen: nat)

  /** dns_packet_getname and dns_packet_copy of ten bytes. */
  function Parse(buf: bytes, pos: nat): (r: Option<Parsed>)
    ensures r.Some? ==> |r.value.head| == 4
  {
    match NameAt(buf, pos)
    case None => None
    case Some((name, next)) =>
      if CopyEnd(buf, next, 10) == 0 then None
      else
        var fixed := buf[next..next + 10];
        Some(Parsed(name, fixed[..4], UnpackBig(fixed[4..8]), next, fixed[8] as nat * 256 + fixed[9]))
  }

  /** The first four bytes: type and class. */
  function Head(buf: bytes, pos: nat): bytes {
    match Parse(buf, pos) case None => [] case Some(p) => p.head
  }

  function Owner(buf: bytes, pos: nat): bytes {
    match Parse(buf, pos) case None => [] case Some(p) => p.owner
  }

  function After(buf: bytes, pos: nat): nat {
    match Parse(buf, pos) case None => 0 case Some(p) => p.after
  }

  lemma ParseShape(buf: bytes, pos: nat)
    requires Parse(buf, pos).Some?
    ensures |Head(buf, pos)| == 4 && IsName(Owner(buf, pos)) && After(buf, pos) > pos
    ensures var p := Parse(buf, pos).value; p.head == Head(buf, pos) && p.owner == Owner(buf, pos)
  {
    hide NameAt, GetFrom;
    NameAtIsName(buf, pos);
    GetNameSkipName(buf, pos);
    SkipAdvances(buf, pos);
  }

  lemma ParsedAfter(buf: bytes, pos: nat)
    requires Parse(buf, pos).Some?
    ensures After(buf, pos) == Parse(buf, pos).value.after && DataLength(buf, pos) == Parse(buf, pos).value.datalen
  {
  }

  lemma {:induction false} SkipAdvances(buf: bytes, pos: nat)
    ensures SkipFrom(buf, pos) != 0 ==> SkipFrom(buf, pos) > pos
    decreases |buf| - pos
  {
    if pos < |buf| && 0 < buf[pos] < 64 {
      SkipAdvances(buf, pos + 1 + buf[pos] as nat);
    }
  }

  /** The sign of byte_diff. */
  function ByteDiff(s: bytes, t: bytes): int
    requires |s| == |t|
    decreases |s|
  {
    if s == [] then 0 else if s[0] != t[0] then s[0] as int - t[0] as int else ByteDiff(s[1..], t[1..])
  }

  lemma {:induction false} ByteDiffSwap(s: bytes, t: bytes)
    requires |s| == |t|
    ensures ByteDiff(s, t) == -ByteDiff(t, s) && (ByteDiff(s, t) == 0 <==> s == t)
    decreases |s|
  {
    if s != [] {
      ByteDiffSwap(s[1..], t[1..]);
      assert s == [s[0]] + s[1..] && t == [t[0]] + t[1..];
    }
  }

  lemma {:induction false} ByteDiffTransitive(s: bytes, t: bytes, u: bytes)
    requires |s| == |t| == |u| && ByteDiff(s, t) <= 0 && ByteDiff(t, u) <= 0
    ensures ByteDiff(s, u) <= 0
    ensures ByteDiff(s, u) == 0 ==> ByteDiff(s, t) == 0 && ByteDiff(t, u) == 0
    decreases |s|
  {
    if s != [] && s[0] == t[0] == u[0] {
      ByteDiffTransitive(s[1..], t[1..], u[1..]);
    }
  }

  /** The parts of smaller's comparison that decide about groups: type and class, then the owner. */
  function KindDiff(h1: bytes, n1: bytes, h2: bytes, n2: bytes): int {
    if |h1| != |h2| then |h1| - |h2|
    else if ByteDiff(h1, h2) != 0 then ByteDiff(h1, h2)
    else if |n1| != |n2| then |n1| - |n2|
    else CaseDiff(n1, n2)
  }

  lemma KindSwap(h1: bytes, n1: bytes, h2: bytes, n2: bytes)
    ensures KindDiff(h1, n1, h2, n2) == -KindDiff(h2, n2, h1, n1)
    ensures KindDiff(h1, n1, h2, n2) == 0 <==> h1 == h2 && Same(n1, n2)
  {
    if |h1| == |h2| {
      ByteDiffSwap(h1, h2);
      if |n1| == |n2| {
        CaseDiffSwap(n1, n2);
        CaseDiffZero(n1, n2);
      } else {
        assert |LowerAll(n1)| != |LowerAll(n2)|;
      }
    }
  }

  lemma KindTransitive(h1: bytes, n1: bytes, h2: bytes, n2: bytes, h3: bytes, n3: bytes)
    requires KindDiff(h1, n1, h2, n2) <= 0 && KindDiff(h2, n2, h3, n3) <= 0
    ensures KindDiff(h1, n1, h3, n3) <= 0
    ensures KindDiff(h1, n1, h3, n3) == 0 ==> KindDiff(h1, n1, h2, n2) == 0 && KindDiff(h2, n2, h3, n3) == 0
  {
    if |h1| == |h2| == |h3| && ByteDiff(h1, h2) <= 0 && ByteDiff(h2, h3) <= 0 {
      ByteDiffTransitive(h1, h2, h3);
      ByteDiffSwap(h1, h2);
      ByteDiffSwap(h2, h3);
      ByteDiffSwap(h1, h3);
      if |n1| == |n2| == |n3| && CaseDiff(n1, n2) <= 0 && CaseDiff(n2, n3) <= 0 {
        CaseDiffTransitive(n1, n2, n3);
      }
    }
  }

  function Kind(buf: bytes, p: nat, q: nat): int {
    KindDiff(Head(buf, p), Owner(buf, p), Head(buf, q), Owner(buf, q))
  }

  /** smaller: type and class, owner, and among equals the position in the packet. */
  predicate Smaller(buf: bytes, p: nat, q: nat) {
    var d := Kind(buf, p, q);
    d < 0 || (d == 0 && After(buf, p) < After(buf, q))
  }

  lemma SmallerOrders(buf: bytes)
    ensures Orders((p: nat, q: nat) => Smaller(buf, p, q))
  {
    hide KindDiff, Head, Owner, After;
    var less := (p: nat, q: nat) => Smaller(buf, p, q);
    forall p: nat, q: nat | less(p, q)
      ensures AtMost(less, p, q)
    {
      KindSwap(Head(buf, p), Owner(buf, p), Head(buf, q), Owner(buf, q));
    }
    forall p: nat, q: nat, r: nat | AtMost(less, p, q) && AtMost(less, q, r)
      ensures AtMost(less, p, r)
    {
      KindSwap(Head(buf, p), Owner(buf, p), Head(buf, q), Owner(buf, q));
      KindSwap(Head(buf, q), Owner(buf, q), Head(buf, r), Owner(buf, r));
      KindSwap(Head(buf, p), Owner(buf, p), Head(buf, r), Owner(buf, r));
      KindTransitive(Head(buf, p), Owner(buf, p), Head(buf, q), Owner(buf, q), Head(buf, r), Owner(buf, r));
    }
  }

  /** All records can be read, and they are at different places, in packet order or not. */
  ghost predicate Readable(buf: bytes, records: seq<nat>) {
    forall x :: 0 <= x < |records| ==> Parse(buf, records[x]).Some?
  }

  ghost predicate InPacketOrder(buf: bytes, records: seq<nat>) {
    forall x, y :: 0 <= x < y < |records| ==> After(buf, records[x]) < After(buf, records[y])
  }

  function DataLength(buf: bytes, pos: nat): nat {
    match Parse(buf, pos) case None => 0 case Some(p) => p.datalen
  }

  /** Each record begins where the data of the one before ends. */
  ghost predicate Chained(buf: bytes, records: seq<nat>) {
    forall x :: 0 < x < |records| ==>
      records[x] == After(buf, records[x - 1]) + 10 + DataLength(buf, records[x - 1])
  }

  /** Where the record behind the one at pos begins. */
  function Next(buf: bytes, pos: nat): nat {
    After(buf, pos) + 10 + DataLength(buf, pos)
  }

  /** k records can be read from pos on. */
  predicate AllThere(buf: bytes, pos: nat, k: nat)
    decreases k
  {
    k == 0 || (Parse(buf, pos).Some? && AllThere(buf, Next(buf, pos), k - 1))
  }

  /** Where the k records from pos on begin. */
  function Places(buf: bytes, pos: nat, k: nat): (s: seq<nat>)
    ensures |s| == k
    decreases k
  {
    if k == 0 then [] else [pos] + Places(buf, Next(buf, pos), k - 1)
  }

  /** Where the k records from pos on end. */
  function EndOf(buf: bytes, pos: nat, k: nat): nat
    decreases k
  {
    if k == 0 then pos else EndOf(buf, Next(buf, pos), k - 1)
  }

  /** A reader of the k records from pos on has crossed j of them and is at `at`. */
  ghost predicate Reached(buf: bytes, pos: nat, k: nat, j: nat, at: nat) {
    && j <= k && Places(buf, pos, k)[j..] == Places(buf, at, k - j)
    && AllThere(buf, pos, k) == AllThere(buf, at, k - j)
    && EndOf(buf, pos, k) == EndOf(buf, at, k - j)
  }

  lemma ReachedFirst(buf: bytes, pos: nat, k: nat)
    ensures Reached(buf, pos, k, 0, pos)
  {
    hide Parse, Next;
  }

  lemma ReachedNext(buf: bytes, pos: nat, k: nat, j: nat, at: nat)
    requires Reached(buf, pos, k, j, at) && j < k
    ensures Places(buf, pos, k)[j] == at
    ensures match Parse(buf, at)
            case None => !AllThere(buf, pos, k)
            case Some(p) => Reached(buf, pos, k, j + 1, p.after + 10 + p.datalen)
  {
    hide NameAt;
    var s, t := Places(buf, pos, k), Places(buf, at, k - j);
    assert s[j] == s[j..][0] == t[0] && s[j + 1..] == s[j..][1..] == t[1..];
  }

  lemma ReachedLast(buf: bytes, pos: nat, k: nat, at: nat)
    requires Reached(buf, pos, k, k, at)
    ensures AllThere(buf, pos, k) && at == EndOf(buf, pos, k)
  {
    hide Parse, Next;
  }

  lemma {:induction false} PlacesInOrder(buf: bytes, pos: nat, k: nat)
    requires AllThere(buf, pos, k)
    ensures var s := Places(buf, pos, k);
            && Readable(buf, s) && InPacketOrder(buf, s) && Chained(buf, s) && (k > 0 ==> s[0] == pos)
            && forall x :: 0 <= x < k ==> After(buf, s[x]) > pos
    decreases k
  {
    hide Parse, After, DataLength, Readable, InPacketOrder, Chained;
    if k > 0 {
      ParseShape(buf, pos);
      PlacesInOrder(buf, Next(buf, pos), k - 1);
      OneInFront(buf, pos, Places(buf, Next(buf, pos), k - 1));
    } else {
      NoRecords(buf);
    }
  }

  lemma NoRecords(buf: bytes)
    ensures Readable(buf, []) && InPacketOrder(buf, []) && Chained(buf, [])
  {
  }

  lemma OneInFront(buf: bytes, pos: nat, rest: seq<nat>)
    requires Parse(buf, pos).Some? && Readable(buf, rest) && InPacketOrder(buf, rest) && Chained(buf, rest)
    requires rest != [] ==> rest[0] == Next(buf, pos)
    requires forall x :: 0 <= x < |rest| ==> After(buf, rest[x]) > Next(buf, pos)
    ensures var s := [pos] + rest; Readable(buf, s) && InPacketOrder(buf, s) && Chained(buf, s)
  {
    hide Parse, After, DataLength;
    var s := [pos] + rest;
    assert forall x :: 0 < x < |s| ==> s[x] == rest[x - 1];
  }

  /** The loop that notes where the k records from pos on begin. */
  method Collect(buf: bytes, pos: nat, k: nat) returns (ok: bool, records: array<nat>)
    ensures fresh(records) && records.Length == k
    ensures ok <==> AllThere(buf, pos, k)
    ensures ok ==> records[..] == Places(buf, pos, k)
  {
    hide Parse, AllThere, Places, EndOf, Reached;
    ReachedFirst(buf, pos, k);
    records := new nat[k];
    var at: nat := pos;
    for j := 0 to k
      invariant Reached(buf, pos, k, j, at) && records[..j] == Places(buf, pos, k)[..j]
    {
      ReachedNext(buf, pos, k, j, at);
      records[j] := at;
      var p := ReadRecord(buf, at);
      if p == None {
        return false, records;
      }
      assert records[..j + 1] == records[..j] + [at];
      at := p.value.after + 10 + p.value.datalen;
    }
    ReachedLast(buf, pos, k, at);
    assert records[..k] == records[..];
    return true, records;
  }

  /** dns_packet_getname, and dns_packet_copy of the ten bytes after the name. */
  method ReadRecord(buf: bytes, pos: nat) returns (r: Option<Parsed>)
    ensures r == Parse(buf, pos)
  {
    hide NameAt;
    var name := GetName(buf, pos);
    if name == None {
      return None;
    }
    var next, fixed := Copy(buf, name.value.1, 10);
    if next == 0 {
      return None;
    }
    return Some(Parsed(name.value.0, fixed[..4], UnpackBig(fixed[4..8]), name.value.1,
                       fixed[8] as nat * 256 + fixed[9]));
  }

  /** The sort of the records by smaller. */
  method SortRecords(buf: bytes, records: array<nat>)
    modifies records
    ensures Sorted((p: nat, q: nat) => Smaller(buf, p, q), records[..])
    ensures multiset(records[..]) == multiset(old(records[..]))
  {
    SmallerOrders(buf);
    Sort(records, (p: nat, q: nat) => Smaller(buf, p, q));
  }

  // --- grouping -----------------------------------------------------------------------------------

  predicate ClassIn(buf: bytes, p: nat) {
    |Head(buf, p)| == 4 && Head(buf, p)[2..] == [0, 1]
  }

  ghost predicate SortedRecords(buf: bytes, s: seq<nat>) {
    forall x, y :: 0 <= x < y < |s| ==> !Smaller(buf, s[y], s[x])
  }

  /** Different records are at different places. */
  ghost predicate Distinct(buf: bytes, s: seq<nat>) {
    forall x, y :: 0 <= x < y < |s| ==> After(buf, s[x]) != After(buf, s[y])
  }

  lemma CountTwice(s: seq<nat>, x: nat, y: nat)
    requires x < y < |s| && s[x] == s[y]
    ensures multiset(s)[s[x]] >= 2
  {
    assert s == s[..x + 1] + s[x + 1..];
    assert s[x] in multiset(s[..x + 1]) && s[y] in multiset(s[x + 1..]) by {
      assert s[..x + 1][x] == s[x] && s[x + 1..][y - x - 1] == s[y];
    }
  }

  lemma {:induction false} CountOnce(buf: bytes, s: seq<nat>, v: nat)
    requires InPacketOrder(buf, s)
    ensures multiset(s)[v] <= 1
  {
    hide After;
    if s != [] {
      var init, last := s[..|s| - 1], s[|s| - 1];
      assert s == init + [last];
      CountOnce(buf, init, v);
      forall x | 0 <= x < |init|
        ensures init[x] != last
      {
        assert After(buf, s[x]) < After(buf, s[|s| - 1]);
      }
      assert last !in multiset(init);
    }
  }

  /** Sorting keeps the records at different places. */
  lemma SortKeepsDistinct(buf: bytes, s: seq<nat>, t: seq<nat>)
    requires InPacketOrder(buf, s) && multiset(s) == multiset(t)
    ensures Distinct(buf, t)
  {
    hide After;
    forall x, y | 0 <= x < y < |t|
      ensures After(buf, t[x]) != After(buf, t[y])
    {
      if t[x] == t[y] {
        CountTwice(t, x, y);
        CountOnce(buf, s, t[x]);
      } else {
        assert t[x] in multiset(t) && t[y] in multiset(t);
        var a :| 0 <= a < |s| && s[a] == t[x];
        var b :| 0 <= b < |s| && s[b] == t[y];
      }
    }
  }

  /** The run i..j the grouping loop finds: same kind as record i, and it cannot be extended. */
  ghost predicate Run(buf: bytes, s: seq<nat>, i: nat, j: nat) {
    && i < j <= |s|
    && (forall x :: i <= x < j ==> Kind(buf, s[i], s[x]) == 0)
    && (i > 0 ==> Kind(buf, s[i - 1], s[i]) != 0)
    && (j < |s| ==> Kind(buf, s[i], s[j]) != 0)
  }

  lemma KindOf(buf: bytes, p: nat, q: nat, r: nat)
    ensures Kind(buf, p, q) == -Kind(buf, q, p)
    ensures Kind(buf, p, q) <= 0 && Kind(buf, q, r) <= 0 ==> Kind(buf, p, r) <= 0
    ensures Kind(buf, p, q) <= 0 && Kind(buf, q, r) <= 0 && Kind(buf, p, r) == 0
            ==> Kind(buf, p, q) == 0 && Kind(buf, q, r) == 0
    ensures Kind(buf, p, q) == 0 && Kind(buf, q, r) == 0 ==> Kind(buf, p, r) == 0
  {
    hide KindDiff, Head, Owner;
    KindSwap(Head(buf, p), Owner(buf, p), Head(buf, q), Owner(buf, q));
    KindSwap(Head(buf, q), Owner(buf, q), Head(buf, r), Owner(buf, r));
    KindSwap(Head(buf, p), Owner(buf, p), Head(buf, r), Owner(buf, r));
    if Kind(buf, p, q) <= 0 && Kind(buf, q, r) <= 0 {
      KindTransitive(Head(buf, p), Owner(buf, p), Head(buf, q), Owner(buf, q), Head(buf, r), Owner(buf, r));
    }
    if Kind(buf, p, q) == 0 && Kind(buf, q, r) == 0 {
      KindTransitive(Head(buf, r), Owner(buf, r), Head(buf, q), Owner(buf, q), Head(buf, p), Owner(buf, p));
    }
  }

  lemma SortedKinds(buf: bytes, s: seq<nat>, x: nat, y: nat)
    requires SortedRecords(buf, s) && x <= y < |s|
    ensures Kind(buf, s[x], s[y]) <= 0
    ensures x < y && Kind(buf, s[x], s[y]) == 0 ==> After(buf, s[x]) <= After(buf, s[y])
  {
    hide Kind, After;
    KindOf(buf, s[x], s[y], s[y]);
    KindOf(buf, s[x], s[x], s[y]);
    if x < y {
      assert !Smaller(buf, s[y], s[x]);
    }
  }

  /** A run in the sorted records holds exactly the records of its kind. */
  lemma RunIsComplete(buf: bytes, s: seq<nat>, i: nat, j: nat, k: nat)
    requires SortedRecords(buf, s) && Run(buf, s, i, j) && k < |s|
    ensures Kind(buf, s[i], s[k]) == 0 <==> i <= k < j
  {
    hide Kind, Smaller, SortedRecords;
    if Kind(buf, s[i], s[k]) == 0 {
      if k < i {
        SortedKinds(buf, s, k, i - 1);
        SortedKinds(buf, s, i - 1, i);
        KindOf(buf, s[k], s[i - 1], s[i]);
        KindOf(buf, s[i], s[k], s[k]);
      } else if k > j {
        SortedKinds(buf, s, i, j);
        SortedKinds(buf, s, j, k);
        KindOf(buf, s[i], s[j], s[k]);
      }
    }
  }

  /** A group: all records of class IN of one kind, in packet order. */
  ghost predicate GroupOk(buf: bytes, s: seq<nat>, g: seq<nat>) {
    && g != [] && InPacketOrder(buf, g)
    && (forall r :: r in g <==> r in s && ClassIn(buf, r) && Kind(buf, g[0], r) == 0)
  }

  lemma RunGroup(buf: bytes, s: seq<nat>, i: nat, j: nat)
    requires SortedRecords(buf, s) && Distinct(buf, s) && Run(buf, s, i, j) && ClassIn(buf, s[i])
    ensures GroupOk(buf, s, s[i..j])
  {
    hide Kind, After, SortedRecords, Distinct, Head, InPacketOrder;
    RunMembers(buf, s, i, j);
    RunOrder(buf, s, i, j);
  }

  lemma RunMembers(buf: bytes, s: seq<nat>, i: nat, j: nat)
    requires SortedRecords(buf, s) && Run(buf, s, i, j) && ClassIn(buf, s[i])
    ensures forall r :: r in s[i..j] <==> r in s && ClassIn(buf, r) && Kind(buf, s[i], r) == 0
  {
    hide Kind, SortedRecords, Head;
    var g := s[i..j];
    forall r
      ensures r in g <==> r in s && ClassIn(buf, r) && Kind(buf, s[i], r) == 0
    {
      if r in g {
        var x :| 0 <= x < |g| && g[x] == r;
        assert s[i + x] == r;
        SameKindSameClass(buf, s[i], r);
      }
      if r in s && Kind(buf, s[i], r) == 0 {
        var k :| 0 <= k < |s| && s[k] == r;
        RunIsComplete(buf, s, i, j, k);
        assert g[k - i] == r;
      }
    }
  }

  lemma RunOrder(buf: bytes, s: seq<nat>, i: nat, j: nat)
    requires SortedRecords(buf, s) && Distinct(buf, s) && Run(buf, s, i, j)
    ensures InPacketOrder(buf, s[i..j])
  {
    hide Kind, After, SortedRecords;
    var g := s[i..j];
    forall x, y | 0 <= x < y < |g|
      ensures After(buf, g[x]) < After(buf, g[y])
    {
      SortedKinds(buf, s, i + x, i + y);
      KindOf(buf, s[i + x], s[i], s[i + y]);
      KindOf(buf, s[i], s[i + x], s[i]);
    }
  }

  lemma SameKindSameClass(buf: bytes, p: nat, q: nat)
    requires Kind(buf, p, q) == 0
    ensures ClassIn(buf, p) <==> ClassIn(buf, q)
  {
    hide KindDiff, Head, Owner;
    KindSwap(Head(buf, p), Owner(buf, p), Head(buf, q), Owner(buf, q));
  }

  /** The groups found in s[..upto]: right, of different kinds, and missing no record of class IN. */
  ghost predicate GroupsOk(buf: bytes, s: seq<nat>, groups: seq<seq<nat>>, upto: nat)
    requires upto <= |s|
  {
    && (forall m :: 0 <= m < |groups| ==> GroupOk(buf, s, groups[m]))
    && (forall m :: 0 <= m < |groups| ==> groups[m][0] in s[..upto])
    && (forall m, n :: 0 <= m < n < |groups| ==> Kind(buf, groups[m][0], groups[n][0]) != 0)
    && (forall k :: 0 <= k < upto && ClassIn(buf, s[k]) ==> exists m :: 0 <= m < |groups| && s[k] in groups[m])
  }

  lemma NoGroups(buf: bytes, s: seq<nat>)
    ensures GroupsOk(buf, s, [], 0)
  {
  }

  lemma SkipOne(buf: bytes, s: seq<nat>, groups: seq<seq<nat>>, i: nat)
    requires i < |s| && GroupsOk(buf, s, groups, i) && !ClassIn(buf, s[i])
    ensures GroupsOk(buf, s, groups, i + 1)
  {
    hide GroupOk, Kind, Head;
    assert s[..i + 1] == s[..i] + [s[i]];
  }

  lemma AddGroup(buf: bytes, s: seq<nat>, groups: seq<seq<nat>>, i: nat, j: nat)
    requires SortedRecords(buf, s) && Distinct(buf, s) && Run(buf, s, i, j) && ClassIn(buf, s[i])
    requires GroupsOk(buf, s, groups, i)
    ensures GroupsOk(buf, s, groups + [s[i..j]], j)
  {
    hide Kind, SortedRecords, Distinct, Head, GroupOk;
    RunGroup(buf, s, i, j);
    var g, gs := s[i..j], groups + [s[i..j]];
    forall m | 0 <= m < |gs|
      ensures gs[m] != [] && gs[m][0] in s[..j]
    {
      GroupNotEmpty(buf, s, gs[m]);
      if m == |groups| {
        assert s[..j][i] == g[0];
      } else {
        assert gs[m][0] in s[..i];
        var k :| 0 <= k < i && s[k] == gs[m][0];
        assert s[..j][k] == gs[m][0];
      }
    }
    forall m, n | 0 <= m < n < |gs|
      ensures Kind(buf, gs[m][0], gs[n][0]) != 0
    {
      if n == |groups| {
        var k :| 0 <= k < i && s[k] == groups[m][0];
        RunIsComplete(buf, s, i, j, k);
        KindOf(buf, s[k], s[i], s[i]);
      }
    }
    forall k | 0 <= k < j && ClassIn(buf, s[k])
      ensures exists m :: 0 <= m < |gs| && s[k] in gs[m]
    {
      if k < i {
        var m :| 0 <= m < |groups| && s[k] in groups[m];
        assert gs[m] == groups[m];
      } else {
        assert gs[|groups|] == g && g[k - i] == s[k];
      }
    }
  }

  lemma GroupNotEmpty(buf: bytes, s: seq<nat>, g: seq<nat>)
    requires GroupOk(buf, s, g)
    ensures g != []
  {
  }

  lemma SameKindIff(buf: bytes, p: nat, q: nat)
    requires Parse(buf, p).Some? && Parse(buf, q).Some? && ClassIn(buf, p)
    ensures Kind(buf, p, q) == 0
       <==> Same(Owner(buf, p), Owner(buf, q)) && Head(buf, q)[..2] == Head(buf, p)[..2] && ClassIn(buf, q)
  {
    hide KindDiff, Owner, Parse, Same;
    KindSwap(Head(buf, p), Owner(buf, p), Head(buf, q), Owner(buf, q));
    ParseShape(buf, q);
    var h, h' := Head(buf, p), Head(buf, q);
    assert h == h[..2] + h[2..] && h' == h'[..2] + h'[2..];
  }

  /** The grouping loop over the sorted records. */
  method GroupRecords(buf: bytes, s: seq<nat>) returns (groups: seq<seq<nat>>)
    requires Readable(buf, s) && SortedRecords(buf, s) && Distinct(buf, s)
    ensures GroupsOk(buf, s, groups, |s|)
  {
    hide Kind, SortedRecords, Distinct, GroupsOk, NameAt, Owner, Head, Same;
    groups := [];
    NoGroups(buf, s);
    var i := 0;
    while i < |s|
      invariant i <= |s| && GroupsOk(buf, s, groups, i)
      invariant 0 < i < |s| ==> Kind(buf, s[i - 1], s[i]) != 0 || !ClassIn(buf, s[i - 1])
    {
      var read := ReadRecord(buf, s[i]);
      ParseShape(buf, s[i]);
      var p := read.value;
      if p.head[2..] != [0, 1] {
        SkipOne(buf, s, groups, i);
        i := i + 1;
        continue;
      }
      KindOf(buf, s[i], s[i], s[i]);
      var j := i + 1;
      while j < |s|
        invariant i < j <= |s| && forall x :: i <= x < j ==> Kind(buf, s[i], s[x]) == 0
      {
        read := ReadRecord(buf, s[j]);
        ParseShape(buf, s[j]);
        var p' := read.value;
        SameKindIff(buf, s[i], s[j]);
        var same := Equal(p.owner, p'.owner);
        if !same || p'.head[..2] != p.head[..2] || p'.head[2..] != [0, 1] {
          break;
        }
        j := j + 1;
      }
      if i > 0 && Kind(buf, s[i - 1], s[i]) == 0 {
        SameKindSameClass(buf, s[i - 1], s[i]);
      }
      AddGroup(buf, s, groups, i, j);
      if j < |s| {
        KindOf(buf, s[i], s[j - 1], s[j]);
      }
      groups := groups + [s[i..j]];
      i := j;
    }
  }

  /**
   * Collecting, sorting and grouping the k records from pos on: every record of class IN lands in exactly one
   * group; a group is all the records of its type and owner (up to case), in packet order. It fails only if a
   * record cannot be read.
   */
  method GroupPacket(buf: bytes, pos: nat, k: nat) returns (ok: bool, groups: seq<seq<nat>>, records: seq<nat>)
    ensures ok <==> AllThere(buf, pos, k)
    ensures ok ==> records == Places(buf, pos, k) && GroupsOk(buf, records, groups, k)
    ensures ok ==> Readable(buf, records) && InPacketOrder(buf, records) && Chained(buf, records)
  {
    hide AllThere, Places, Readable, InPacketOrder, Chained, Distinct, GroupsOk, SortedRecords, Sorted;
    groups := [];
    var a;
    ok, a := Collect(buf, pos, k);
    records := a[..];
    if !ok { return; }
    PlacesInOrder(buf, pos, k);
    SortRecords(buf, a);
    SortKeepsDistinct(buf, records, a[..]);
    SortKeepsReadable(buf, records, a[..]);
    SortedMeans(buf, a[..]);
    groups := GroupRecords(buf, a[..]);
    GroupsOfPermutation(buf, a[..], records, groups);
  }

  lemma SortKeepsReadable(buf: bytes, s: seq<nat>, t: seq<nat>)
    requires Readable(buf, s) && multiset(s) == multiset(t)
    ensures Readable(buf, t)
  {
    hide Parse;
    forall x | 0 <= x < |t|
      ensures Parse(buf, t[x]).Some?
    {
      assert t[x] in multiset(t);
      var y :| 0 <= y < |s| && s[y] == t[x];
    }
  }

  lemma SortedMeans(buf: bytes, s: seq<nat>)
    requires Sorted((p: nat, q: nat) => Smaller(buf, p, q), s)
    ensures SortedRecords(buf, s)
  {
    hide Smaller;
    var less := (p: nat, q: nat) => Smaller(buf, p, q);
    forall x, y | 0 <= x < y < |s|
      ensures !Smaller(buf, s[y], s[x])
    {
      assert AtMost(less, s[x], s[y]);
    }
  }

  lemma SameMembers(s: seq<nat>, t: seq<nat>)
    requires multiset(s) == multiset(t)
    ensures |s| == |t| && forall r :: r in s <==> r in t
  {
    assert |s| == |multiset(s)| == |multiset(t)| == |t|;
    forall r
      ensures r in s <==> r in t
    {
      assert r in s <==> r in multiset(s);
      assert r in t <==> r in multiset(t);
    }
  }

  /** Whether groups are right depends only on which records there are. */
  lemma GroupsOfPermutation(buf: bytes, s: seq<nat>, t: seq<nat>, groups: seq<seq<nat>>)
    requires multiset(s) == multiset(t) && GroupsOk(buf, s, groups, |s|)
    ensures |s| == |t| && GroupsOk(buf, t, groups, |t|)
  {
    hide Kind, Head, InPacketOrder;
    SameMembers(s, t);
    assert s[..|s|] == s && t[..|t|] == t;
    forall m | 0 <= m < |groups|
      ensures GroupOk(buf, t, groups[m]) && groups[m][0] in t[..|t|]
    {
      assert GroupOk(buf, s, groups[m]);
    }
    forall k | 0 <= k < |t| && ClassIn(buf, t[k])
      ensures exists m :: 0 <= m < |groups| && t[k] in groups[m]
    {
      assert t[k] in s;
      var x :| 0 <= x < |s| && s[x] == t[k];
    }
  }
}
