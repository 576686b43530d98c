/** query.c: the recursive resolution of one query, as the machine of labels and gotos that doit is. */
module Resolver {
  import opened Bytes
  import opened Domain
  import opened Packet
  import opened QueryData
  import opened Transmit
  import PacketCache
  import PacketRecords

  const MAXLEVEL := 5
  const MAXALIAS := 16
  const MAXTURNS := 100

  const NO_SERVERS: bytes := seq(64, _ => 0)

  /** Servers of one zone: configured addresses, cached data with their names, or nothing. */
  datatype Zone = Unknown | Configured(ips: bytes) | Delegated(data: bytes)

  /** What is known about the zones that begin at each offset of a name. */
  type Knowledge = seq<Zone>

  predicate Sensible(known: Knowledge) {
    forall o :: 0 <= o < |known| ==>
      match known[o]
      case Configured(ips) => |ips| == 64
      case Delegated(data) => data != []
      case Unknown => true
  }

  /** The first zone, going up from offset o, whose servers are known; cached names count only if they may be used. */
  function ZoneFrom(d: bytes, o: nat, known: Knowledge, mayUse: bool): Option<nat>
    requires o < |d| == |known| && IsName(d[o..])
    decreases |d| - o
  {
    if known[o].Configured? || (mayUse && |d| - o < 255 && known[o].Delegated?) then Some(o)
    else if d[o] == 0 then None
    else
      NextSuffix(d, o);
      ZoneFrom(d, o + 1 + d[o] as nat, known, mayUse)
  }

  /** A name short enough for its length computations not to overflow. */
  predicate Storable(d: bytes) {
    IsName(d) && |d| + 18 < TWO32
  }

  type Names = seq<Option<bytes>>

  /** How many of the pointers are allocated. */
  function Live(s: Names): nat {
    if s == [] then 0 else Live(s[..|s| - 1]) + Count(s[|s| - 1])
  }

  lemma {:induction false} LiveUpdate(s: Names, i: nat, x: Option<bytes>)
    requires i < |s|
    ensures Live(s[i := x]) + Count(s[i]) == Live(s) + Count(x)
  {
    var t, n := s[i := x], |s| - 1;
    if i < n {
      LiveUpdate(s[..n], i, x);
      assert t[..n] == s[..n][i := x];
    } else {
      assert t[..n] == s[..n];
    }
  }

  lemma {:induction false} LiveNone(s: Names)
    requires forall i :: 0 <= i < |s| ==> s[i] == None
    ensures Live(s) == 0
  {
    if s != [] {
      LiveNone(s[..|s| - 1]);
    }
  }

  lemma {:induction false} LivePushed(s: Names, x: Option<bytes>)
    ensures Live([x] + s) == Count(x) + Live(s)
    decreases |s|
  {
    var t := [x] + s;
    if s == [] {
      assert t[..0] == [];
    } else {
      LivePushed(s[..|s| - 1], x);
      assert t[..|s|] == [x] + s[..|s| - 1];
    }
  }

  /** The server names of one level. */
  function Row(ns: Names, l: nat): (row: Names)
    requires |ns| == MAXLEVEL * MAXNS && l < MAXLEVEL
    ensures |row| == MAXNS
  {
    ns[MAXNS * l..MAXNS * l + MAXNS]
  }

  /** A row that holds the first 16 of these names. */
  function RowOf(found: seq<bytes>): (row: Names)
    ensures |row| == MAXNS
  {
    seq(MAXNS, j requires 0 <= j < MAXNS => if j < |found| then Some(found[j]) else None)
  }

  function FirstKnown(row: Names): Option<bytes> {
    if row == [] then None else if row[0].Some? then row[0] else FirstKnown(row[1..])
  }

  lemma {:induction false} FirstKnownAt(row: Names, j: nat)
    requires j < |row| && row[j].Some? && forall k :: 0 <= k < j ==> row[k] == None
    ensures FirstKnown(row) == row[j]
    decreases j
  {
    if j > 0 {
      FirstKnownAt(row[1..], j - 1);
    }
  }

  lemma {:induction false} NoneFirst(row: Names)
    requires forall k :: 0 <= k < |row| ==> row[k] == None
    ensures FirstKnown(row) == None
  {
    if row != [] {
      NoneFirst(row[1..]);
    }
  }

  lemma RowEntry(ns: Names, l: nat, j: nat, x: Option<bytes>)
    requires |ns| == MAXLEVEL * MAXNS && l < MAXLEVEL && j < MAXNS
    ensures Row(ns, l)[j] == ns[MAXNS * l + j] && Row(ns[MAXNS * l + j := x], l) == Row(ns, l)[j := x]
  {
  }

  lemma OneMoreFound(found: seq<bytes>, d: bytes)
    requires |found| < MAXNS
    ensures RowOf(found + [d]) == RowOf(found)[|found| := Some(d)]
  {
  }

  lemma RowFull(found: seq<bytes>, d: bytes)
    requires MAXNS <= |found|
    ensures RowOf(found + [d]) == RowOf(found)
  {
  }

  /** Why a query is given up. */
  datatype Reason =
      NoMemory
    | NoRoom
    | NoTurns
    | NoAlias
    | NoZone(d: bytes, known: Knowledge, mayUse: bool)
    | NotSent(servers: bytes, net: Net, gotMemory: bool, a: nat, b: nat)
    | BadCache(data: bytes)
    | Unreadable(buf: bytes, d: bytes, dtype: bytes)
    | Unlearnable(buf: bytes, control: bytes, sameRoots: set<bytes>)
    | BadRecord(buf: bytes, d: bytes, dtype: bytes)
    | CutAddress(buf: bytes, d: bytes)
    | OffPath(d: bytes, zone: bytes)
    | BadServer(buf: bytes, zone: bytes)

  /** What is the case if a query is given up for one of the reasons that lie in what has been read. */
  ghost predicate Justified(why: Reason) {
    match why
    case NoZone(d, known, mayUse) => NowhereKnown(d, known, mayUse)
    case NotSent(servers, net, gotMemory, a, b) =>
      |servers| == 64 && a <= b <= ATTEMPTS && !(gotMemory && GetsThrough(servers, net, a, b))
    case BadCache(data) => StringsIn(data) == None
    case Unreadable(buf, d, dtype) => !Complete(buf, d, dtype)
    case Unlearnable(buf, control, sameRoots) => |buf| >= 12 && !Learnable(buf, control, sameRoots)
    case BadRecord(buf, d, dtype) => |buf| >= 12 && Given(buf, Answers(buf), d, dtype) == None
    case CutAddress(buf, d) => |buf| >= 12 && AnyCut(buf, Answers(buf), d)
    case OffPath(d, zone) => IsName(d) && !HasSuffix(d, zone)
    case BadServer(buf, zone) => |buf| >= 12 && ServersOf(buf, Authority(buf), zone) == None
    case _ => true
  }

  /** What an answer rests on. */
  datatype Basis =
      LocalName
    | CachedAlias(v: CacheView)
    | CacheData(v: CacheView)
    | PacketData(buf: bytes)
    | CacheDenies(v: CacheView)
    | PacketDenies(buf: bytes)
    | NoneLeft(slots: bytes)
    | NotReached

  /** A name that is not looked up. */
  predicate Local(d: bytes)
    requires IsName(d)
  {
    AddressOf(d).Some? || Same(d, LOCALHOST_PTR)
  }

  /** The basis is there for the name d and the type wanted. */
  ghost predicate Grounded(b: Basis, d: bytes, dtype: bytes) {
    IsName(d)
    && match b
       case LocalName => Local(d)
       case CachedAlias(v) =>
         !Local(d) && |d| <= 255 && !v.nxdomain && v.cname.Some? && TypeMatch(T_CNAME, dtype)
       case CacheData(v) =>
         !Local(d) && |d| <= 255 && !v.nxdomain && v.cname == None && Hit(v, dtype).Some?
       case CacheDenies(v) => !Local(d) && |d| <= 255 && v.nxdomain
       case PacketData(buf) =>
         && RepliesAbout(buf, d, dtype) && Complete(buf, d, dtype)
         && var scan := ScanOf(buf, d, dtype);
            scan.alias == None && scan.rcode == 0 && (scan.flagout || scan.flagsoa || scan.referral == None)
       case PacketDenies(buf) =>
         && RepliesAbout(buf, d, dtype) && Complete(buf, d, dtype)
         && ScanOf(buf, d, dtype).alias == None && ScanOf(buf, d, dtype).rcode == 3
       case NoneLeft(slots) => |slots| == 64 && forall k :: 0 <= k < 16 ==> slots[4 * k..4 * k + 4] == [0, 0, 0, 0]
       case NotReached => true
  }

  /**
   * What is said about the name d behind the preface: its own records for a name that is not looked up, the records of
   * the cache or of a packet, that there is no such name if the cache or a packet denies it, or that it cannot be found
   * out if no server is left or none can be reached.
   */
  ghost predicate Told(b: Basis, d: bytes, dtype: bytes, records: seq<Event>) {
    && Grounded(b, d, dtype)
    && match b
       case LocalName =>
         records == (match AddressOf(d)
                     case Some(ip) => LocalAnswer(d, T_A, dtype, Raw(ip))
                     case None => LocalAnswer(d, T_PTR, dtype, Name(LOCALHOST)))
       case CachedAlias(v) => records == [Alias(d, v.cname.value, v.cnameTtl)]
       case CacheData(v) => CachedRecords(v, d, Hit(v, dtype).value) == Some(records)
       case PacketData(buf) => Given(buf, Answers(buf), d, dtype) == Some(records)
       case CacheDenies(_) => records == [NoSuchName]
       case PacketDenies(_) => records == [NoSuchName]
       case NoneLeft(_) => records == [Failure]
       case NotReached => records == [Failure]
  }

  /** What a step from a name to its alias rests on. */
  datatype Link = FromCache(v: CacheView) | FromPacket(buf: bytes)

  /** The cache or a packet says that d is an alias of the target, which is followed for queries of this type. */
  ghost predicate Leads(l: Link, d: bytes, dtype: bytes, target: bytes, ttl: uint32) {
    IsName(d)
    && match l
       case FromCache(v) =>
         && !Local(d) && |d| <= 255 && !v.nxdomain && v.cname == Some(target) && v.cnameTtl == ttl
         && !TypeMatch(T_CNAME, dtype)
       case FromPacket(buf) =>
         RepliesAbout(buf, d, dtype) && Complete(buf, d, dtype) && ScanOf(buf, d, dtype).alias == Some((target, ttl))
  }

  /** It is among what the cache and the network have said. */
  ghost predicate Heard(l: Link, views: seq<CacheView>, packets: seq<bytes>) {
    match l case FromCache(v) => v in views case FromPacket(buf) => buf in packets
  }

  /** Each step of the chain has something to rest on. */
  ghost predicate Rests(chain: seq<bytes>, ttls: seq<uint32>, links: seq<Link>, qtype: bytes) {
    && |links| == |ttls| && |chain| == |ttls| + 1
    && forall i :: 0 <= i < |links| ==> Leads(links[i], chain[i], qtype, chain[i + 1], ttls[i])
  }

  lemma RestsMore(chain: seq<bytes>, ttls: seq<uint32>, links: seq<Link>, qtype: bytes, d: bytes, ttl: uint32, l: Link)
    requires Rests(chain, ttls, links, qtype) && Leads(l, chain[|ttls|], qtype, d, ttl)
    ensures Rests(chain + [d], ttls + [ttl], links + [l], qtype)
  {
    hide Leads;
  }

  // When each of these reasons may be given.

  lemma MayNoZone(d: bytes, known: Knowledge, mayUse: bool)
    requires NowhereKnown(d, known, mayUse)
    ensures Justified(NoZone(d, known, mayUse))
  {
  }

  lemma MayNotSent(servers: bytes, net: Net, gotMemory: bool, a: nat, b: nat)
    requires |servers| == 64 && a <= b <= ATTEMPTS && !(gotMemory && GetsThrough(servers, net, a, b))
    ensures Justified(NotSent(servers, net, gotMemory, a, b))
  {
  }

  lemma MayBadCache(data: bytes)
    requires StringsIn(data) == None
    ensures Justified(BadCache(data))
  {
  }

  lemma MayUnreadable(buf: bytes, d: bytes, dtype: bytes)
    requires !Complete(buf, d, dtype)
    ensures Justified(Unreadable(buf, d, dtype))
  {
  }

  lemma MayUnlearnable(buf: bytes, control: bytes, sameRoots: set<bytes>)
    requires |buf| >= 12 && !Learnable(buf, control, sameRoots)
    ensures Justified(Unlearnable(buf, control, sameRoots))
  {
  }

  lemma MayBadRecord(buf: bytes, d: bytes, dtype: bytes)
    requires |buf| >= 12 && Given(buf, Answers(buf), d, dtype) == None
    ensures Justified(BadRecord(buf, d, dtype))
  {
  }

  lemma MayCutAddress(buf: bytes, d: bytes)
    requires |buf| >= 12 && AnyCut(buf, Answers(buf), d)
    ensures Justified(CutAddress(buf, d))
  {
  }

  lemma MayOffPath(d: bytes, zone: bytes)
    requires IsName(d) && !HasSuffix(d, zone)
    ensures Justified(OffPath(d, zone))
  {
  }

  lemma MayBadServer(buf: bytes, zone: bytes)
    requires |buf| >= 12 && ServersOf(buf, Authority(buf), zone) == None
    ensures Justified(BadServer(buf, zone))
  {
  }

  lemma MayNoneLeft(slots: bytes, d: bytes, dtype: bytes)
    requires IsName(d) && |slots| == 64 && NoneKnown(slots)
    ensures Grounded(NoneLeft(slots), d, dtype)
  {
    forall k | 0 <= k < 16
      ensures slots[4 * k..4 * k + 4] == [0, 0, 0, 0]
    {
      assert Ip(slots, k) == [0, 0, 0, 0];
    }
  }

  lemma MayNotReached(d: bytes, dtype: bytes)
    requires IsName(d)
    ensures Grounded(NotReached, d, dtype)
  {
  }

  // When an answer tells what its basis gives.

  lemma TellsCached(v: CacheView, d: bytes, dtype: bytes, records: seq<Event>)
    requires Grounded(CacheData(v), d, dtype) && CachedRecords(v, d, Hit(v, dtype).value) == Some(records)
    ensures Told(CacheData(v), d, dtype, records)
  {
    hide CachedRecords;
  }

  lemma TellsPacket(buf: bytes, d: bytes, dtype: bytes, records: seq<Event>)
    requires Grounded(PacketData(buf), d, dtype) && |buf| >= 12 && Given(buf, Answers(buf), d, dtype) == Some(records)
    ensures Told(PacketData(buf), d, dtype, records)
  {
    hide Given, Complete, ScanOf;
  }

  /** Neither the configuration nor the cache knows servers of the name or of any zone around it. */
  predicate NowhereKnown(d: bytes, known: Knowledge, mayUse: bool) {
    0 < |d| == |known| && IsName(d[0..]) && ZoneFrom(d, 0, known, mayUse) == None
  }

  /** All records can be collected, and those that are believed can be read. */
  ghost predicate Learnable(buf: bytes, control: bytes, sameRoots: set<bytes>)
    requires |buf| >= 12
  {
    var pos, k := AnswerStart(buf), Word16(buf, 6) + Word16(buf, 8) + Word16(buf, 10);
    && PacketRecords.AllThere(buf, pos, k)
    && forall groups :: PacketRecords.GroupsOk(buf, PacketRecords.Places(buf, pos, k), groups, k) ==>
         PacketCache.LearntFrom(buf, groups, control, sameRoots).Some?
  }

  ghost predicate AnyCut(buf: bytes, s: seq<nat>, d: bytes) {
    exists i :: 0 <= i < |s| && AddressCut(buf, s[i], d)
  }

  /** The labels of doit; Done is its return. */
  datatype Pc = NewName | HaveNs | LowerLevel | HavePacket | Cname(cname: bytes, ttl: uint32, link: Link)
              | NxDomain(basis: Basis) | ServFail(basis: Basis) | Die(why: Reason) | Done(r: int)

  /** How far a run is: still going, about to be given up, or over. */
  function Phase(pc: Pc): nat {
    if pc.Done? then 0 else if pc.Die? then 1 else 2
  }

  /** What becomes of an answer: it is given, unless there is no room for it. */
  predicate Answered(pc: Pc) {
    pc == Die(NoRoom) || pc == Done(1)
  }

  /** The value z->loop has, or will have at the next label that increments it. */
  function Turn(pc: Pc, loop: nat): nat {
    if pc.NewName? || pc.HavePacket? || pc.Cname? then loop + 1 else loop
  }

  /** The order of the labels within a turn and a level. */
  function Rank(pc: Pc): nat {
    match pc
    case HaveNs => 3
    case NxDomain(_) => 2
    case ServFail(_) => 2
    case LowerLevel => 1
    case NewName => 4
    case _ => 5
  }

  /** One goto: the run ends, or a new turn begins, or the level falls, or control moves to a later label. */
  predicate Advances(pc: Pc, loop: nat, level: nat, pc': Pc, loop': nat, level': nat) {
    var t, t' := Turn(pc, loop), Turn(pc', loop');
    && loop' >= loop
    && (Phase(pc') < Phase(pc)
        || (Phase(pc') == Phase(pc) == 2
            && (t' > t || (t' == t && (level' < level || (level' == level && Rank(pc') < Rank(pc)))))))
  }

  /** What a run of the machine from loop0 and level0 has achieved: it is over, or a turn or a level further on. */
  predicate Further(pc: Pc, loop: nat, level: nat, loop0: nat, level0: nat) {
    && loop >= loop0
    && (pc == Done(0) ==> loop > loop0 || level < level0)
    && (Phase(pc) == 2 ==>
          Turn(pc, loop) > loop0
          || (Turn(pc, loop) == loop0 && (level < level0 || (level == level0 && Rank(pc) <= 2))))
  }

  /** The machine's order is well founded, and a step along it is further on. */
  lemma GoesOn(pc: Pc, loop: nat, level: nat, pc': Pc, loop': nat, level': nat, loop0: nat, level0: nat)
    requires Advances(pc, loop, level, pc', loop', level') && Further(pc, loop, level, loop0, level0)
    requires pc' == Done(0) ==> pc == HaveNs && loop' == loop && level' == level
    ensures Further(pc', loop', level', loop0, level0)
    ensures Phase(pc') < Phase(pc)
            || (Phase(pc') == Phase(pc)
                && (Turn(pc', loop') > Turn(pc, loop)
                    || (Turn(pc', loop') == Turn(pc, loop)
                        && (level' < level || (level' == level && Rank(pc') < Rank(pc))))))
  {
  }

  /** How every answer begins: the question, and the aliases that led from it to the name resolved. */
  function Preface(chain: seq<bytes>, ttls: seq<uint32>): seq<Event>
    requires |chain| == |ttls| + 1
  {
    var n := |ttls|;
    if n == 0 then [Asked(chain[0])]
    else Preface(chain[..n], ttls[..n - 1]) + [Alias(chain[n - 1], chain[n], ttls[n - 1])]
  }

  /** The aliases that led to `last` are the chain of names before it, latest first. */
  predicate IsChain(last: bytes, alias: Names, aliasttl: seq<uint32>, chain: seq<bytes>, ttls: seq<uint32>) {
    var n := |ttls|;
    && |chain| == n + 1 <= MAXALIAS + 1 && |alias| == |aliasttl| == MAXALIAS && chain[n] == last
    && (forall k :: 0 <= k < n ==> alias[k] == Some(chain[n - 1 - k]) && aliasttl[k] == ttls[n - 1 - k])
    && (forall k :: n <= k < MAXALIAS ==> alias[k] == None)
  }

  lemma ChainGrows(last: bytes, alias: Names, aliasttl: seq<uint32>, chain: seq<bytes>, ttls: seq<uint32>,
                   next: bytes, ttl: uint32)
    requires IsChain(last, alias, aliasttl, chain, ttls) && alias[MAXALIAS - 1] == None
    ensures IsChain(next, [Some(last)] + alias[..MAXALIAS - 1], [ttl] + aliasttl[..MAXALIAS - 1],
                    chain + [next], ttls + [ttl])
  {
    var n := |ttls|;
    assert forall k :: 0 <= k < n ==> alias[k].Some?;
  }

  /** struct query, with the static variable records. */
  class Query {
    const heap: Os
    const dt: Transmit
    const flagforwardonly: bool

    var loop: nat
    var level: nat
    var name: Names
    // Where in name[l] the zone under control begins.
    var control: seq<nat>
    // The name of server j of level l is ns[16 * l + j].
    var ns: Names
    var servers: seq<bytes>
    var alias: Names
    var aliasttl: seq<uint32>
    var localip: bytes
    var qtype: bytes
    var records: bool
    var response: seq<Event>

    // What has been put into the cache.
    var learnt: seq<PacketCache.Saved>

    // Whether a response has been full, and why the last query was given up.
    ghost var full: bool
    ghost var why: Reason
    // What the last answer rests on.
    ghost var basis: Basis
    // The name asked for, its aliases in turn, and the ttl of each step.
    ghost var chain: seq<bytes>
    ghost var ttls: seq<uint32>
    // What each step rests on, and all that the cache and the network have said during the query.
    ghost var links: seq<Link>
    ghost var views: seq<CacheView>
    ghost var packets: seq<bytes>

    constructor (heap: Os, dt: Transmit, flagforwardonly: bool)
      requires heap != dt.os && heap.live == 0 && dt.Owned() && dt.Released()
      ensures this.heap == heap && this.dt == dt && this.flagforwardonly == flagforwardonly
      ensures Valid() && Clean()
    {
      this.heap, this.dt, this.flagforwardonly := heap, dt, flagforwardonly;
      name, ns, alias := seq(5, _ => None), seq(80, _ => None), seq(16, _ => None);
      control, servers, aliasttl := seq(5, _ => 0), seq(5, _ => NO_SERVERS), seq(16, _ => 0);
      loop, level, records, response := 0, 0, false, [];
      localip, qtype, learnt := [0, 0, 0, 0], T_A, [];
      full, why, basis, links, views, packets := false, NoMemory, NotReached, [], [], [];
      new;
      LiveNone(name);
      LiveNone(ns);
      LiveNone(alias);
    }

    /** Every allocation is the one of some field. */
    ghost predicate Counted()
      reads `name, `ns, `alias, `records, heap`live
    {
      && |name| == MAXLEVEL && |ns| == MAXLEVEL * MAXNS && |alias| == MAXALIAS
      && heap.live == Live(name) + Live(ns) + Live(alias) + if records then 1 else 0
    }

    ghost predicate Shaped()
      reads `control, `servers, `aliasttl, `localip, `qtype, `level, `loop
    {
      && |control| == |servers| == MAXLEVEL && |aliasttl| == MAXALIAS && |localip| == 4 && |qtype| == 2
      && (forall l :: 0 <= l < MAXLEVEL ==> |servers[l]| == 64)
      && level < MAXLEVEL && loop <= MAXTURNS
    }

    ghost predicate Valid()
      reads `name, `ns, `alias, `records, heap`live, `control, `servers, `aliasttl, `localip, `qtype, `level, `loop
      reads dt`s1, dt`query, dt`packet, dt.os`open, dt.os`live
    {
      heap != dt.os && Counted() && Shaped() && dt.Owned()
    }

    /** No name, name server, alias or transmission is left. */
    ghost predicate Emptied()
      reads `name, `ns, `alias, dt`query, dt`packet, dt`s1
    {
      && (forall l :: 0 <= l < |name| ==> name[l] == None)
      && (forall i :: 0 <= i < |ns| ==> ns[i] == None)
      && (forall k :: 0 <= k < |alias| ==> alias[k] == None)
      && dt.Released()
    }

    /** Nothing at all is left. */
    ghost predicate Clean()
      reads `name, `ns, `alias, `records, dt`query, dt`packet, dt`s1
    {
      Emptied() && !records
    }

    /** There is a name at this level and at every level below, and nowhere else. */
    ghost predicate Named()
      reads `name, `level, `ns
    {
      && |name| == MAXLEVEL
      && (forall l :: 0 <= l < MAXLEVEL ==> (name[l].Some? <==> l <= level))
      && (forall l :: 0 <= l < MAXLEVEL && name[l].Some? ==> Storable(name[l].value))
      && (forall i :: 0 <= i < |ns| && ns[i].Some? ==> Storable(ns[i].value))
    }

    /** The alias array is the chain of names so far, latest first. */
    ghost predicate Chained()
      reads `name, `alias, `aliasttl, `chain, `ttls
    {
      |name| > 0 && name[0].Some? && IsChain(name[0].value, alias, aliasttl, chain, ttls)
    }

    /** The zones under control at the levels below n lie inside the names of those levels. */
    ghost predicate Controls(n: nat)
      reads `name, `control
    {
      forall l :: 0 <= l < n && l < |name| && l < |control| ==>
        name[l].Some? && control[l] < |name[l].value| && IsName(name[l].value[control[l]..])
    }

    /** A transmission is under way for the name of this level. */
    ghost predicate Waiting()
      reads `loop, `level, `name, `control, `ns, `servers, `alias, `aliasttl, `localip, `qtype, `records
      reads `full, `chain, `ttls, dt, dt.os, heap`live, heap`failed
    {
      && Valid() && Named() && Chained() && Controls(level + 1) && !records && loop < MAXTURNS
      && dt.Waiting() && dt.name == name[level].value && dt.qtype == WantedType() && Sound()
      && dt.servers == servers[level] && dt.recursive == flagforwardonly
    }

    /** dtype: only the name asked for is looked up with the type asked for. */
    function WantedType(): bytes
      reads `level, `qtype
    {
      if level > 0 then T_A else qtype
    }

    /** Nothing has failed since the query was started. */
    ghost predicate Sound()
      reads heap`failed, `full
    {
      !heap.failed && !full
    }

    /** The transmission was given up: a socket or memory was not to be had, or no attempt was left. */
    ghost predicate Lost()
      reads dt`servers, dt`attempts, dt`from, dt`udpEnd, dt`tcpEnd, dt.os`contacted, dt.os`failed
    {
      dt.os.failed || (dt.Traced() && dt.Exhausted())
    }

    /** The response is the preface and what is told about the name it leads to. */
    ghost predicate Tells()
      reads `response, `chain, `ttls, `qtype, `basis
      reads dt`servers, dt`attempts, dt`from, dt`udpEnd, dt`tcpEnd, dt.os`contacted, dt.os`failed
    {
      && |chain| == |ttls| + 1
      && Preface(chain, ttls) <= response
      && Told(basis, chain[|ttls|], qtype, response[|Preface(chain, ttls)|..])
      && (basis.NotReached? ==> Lost())
    }

    /** The name of this level is denied. */
    ghost predicate Denied(b: Basis)
      reads `name, `level, `qtype
    {
      && (b.CacheDenies? || b.PacketDenies?)
      && level < |name| && name[level].Some? && Grounded(b, name[level].value, WantedType())
    }

    /** Nobody can be asked about the name of this level. */
    ghost predicate Unanswered(b: Basis)
      reads `name, `level, `qtype
      reads dt`servers, dt`attempts, dt`from, dt`udpEnd, dt`tcpEnd, dt.os`contacted, dt.os`failed
    {
      && (b.NoneLeft? || (b.NotReached? && Lost()))
      && level < |name| && name[level].Some? && Grounded(b, name[level].value, WantedType())
    }

    /** The reason holds. */
    ghost predicate Because(why: Reason)
      reads heap`failed, `full, `loop, `ttls
    {
      match why
      case NoMemory => heap.failed
      case NoRoom => full
      case NoTurns => loop == 100
      case NoAlias => |ttls| == 16
      case _ => Justified(why)
    }

    /** Nothing has failed, or the query is being given up or has been given up for a reason. */
    ghost predicate Explained(pc: Pc)
      reads heap`failed, `full, `loop, `ttls, `why
    {
      if pc.Die? then Because(pc.why) else if pc == Done(-1) then Because(why) else Sound()
    }

    /** What holds at each label. */
    ghost predicate At(pc: Pc)
      reads `loop, `level, `name, `control, `ns, `servers, `alias, `aliasttl, `localip, `qtype, `records, `response
      reads `full, `why, `basis, `chain, `ttls, dt, dt.os, heap`live, heap`failed
    {
      && Valid() && Explained(pc)
      && match pc
         case Die(_) => true
         case Done(r) =>
           if r == 0 then Waiting()
           else Clean() && (r == -1 || (r == 1 && Tells()))
         case HaveNs => Named() && Chained() && Controls(level + 1) && !records && loop < MAXTURNS
         case HavePacket =>
           && Named() && Chained() && Controls(level + 1) && !records && loop < MAXTURNS && dt.curserver < SERVERS
           && dt.packet.Some? && HeaderOk(dt.packet.value)
           && RepliesAbout(dt.packet.value, name[level].value, WantedType())
         case LowerLevel => Named() && Chained() && Controls(level) && !records && loop < MAXTURNS && level > 0
         case Cname(d, ttl, link) =>
           && Named() && Chained() && Controls(level) && !records && loop < MAXTURNS && Storable(d)
           && Leads(link, name[level].value, WantedType(), d, ttl)
         case NxDomain(b) =>
           Named() && Chained() && Controls(level) && !records && loop < MAXTURNS && Denied(b)
         case ServFail(b) =>
           Named() && Chained() && Controls(level) && !records && loop < MAXTURNS && Unanswered(b)
         case NewName => Named() && Chained() && Controls(level) && !records && loop < MAXTURNS
    }

    ghost predicate HeardBasis(b: Basis)
      reads `views, `packets
    {
      match b
      case CachedAlias(v) => v in views
      case CacheData(v) => v in views
      case CacheDenies(v) => v in views
      case PacketData(buf) => buf in packets
      case PacketDenies(buf) => buf in packets
      case _ => true
    }

    /** Each step of the chain rests on what has been heard about the name before it. */
    ghost predicate Linked()
      reads `chain, `ttls, `links, `qtype, `views, `packets
    {
      Rests(chain, ttls, links, qtype) && forall i :: 0 <= i < |links| ==> Heard(links[i], views, packets)
    }

    /** So does what is to be done next, and the answer. */
    ghost predicate Trail(pc: Pc)
      reads `chain, `ttls, `links, `qtype, `views, `packets, `basis, dt`packet
    {
      && Linked()
      && match pc
         case Cname(_, _, link) => Heard(link, views, packets)
         case NxDomain(b) => HeardBasis(b)
         case ServFail(b) => HeardBasis(b)
         case HavePacket => dt.packet.Some? && dt.packet.value in packets
         case Done(r) => r == 1 ==> HeardBasis(basis)
         case _ => true
    }

    // --- names ------------------------------------------------------------------------------------

    /** Frees the name of level l. */
    method FreeName(l: nat)
      requires Counted() && l < MAXLEVEL
      modifies `name, heap`live
      ensures Counted() && name == old(name)[l := None]
    {
      LiveUpdate(name, l, None);
      hide Live;
      if name[l].Some? {
        heap.Free();
        name := name[l := None];
      }
    }

    method FreeNs(i: nat)
      requires Counted() && i < MAXLEVEL * MAXNS
      modifies `ns, heap`live
      ensures Counted() && ns == old(ns)[i := None]
    {
      LiveUpdate(ns, i, None);
      hide Live;
      if ns[i].Some? {
        heap.Free();
        ns := ns[i := None];
      }
    }

    method FreeAlias(k: nat)
      requires Counted() && k < MAXALIAS
      modifies `alias, heap`live
      ensures Counted() && alias == old(alias)[k := None]
    {
      LiveUpdate(alias, k, None);
      hide Live;
      if alias[k].Some? {
        heap.Free();
        alias := alias[k := None];
      }
    }

    /** Gives level l a copy of d; the old name is freed only when there is memory for the new one. */
    method CopyName(l: nat, d: bytes) returns (ok: bool)
      requires Counted() && l < MAXLEVEL
      modifies `name, heap`live, heap`failed
      ensures Counted() && name == if ok then old(name)[l := Some(d)] else old(name)
      ensures heap.failed == (old(heap.failed) || !ok)
    {
      LiveUpdate(name, l, Some(d));
      hide Live;
      ok := *;
      heap.Alloc(ok);
      if ok {
        if name[l].Some? { heap.Free(); }
        name := name[l := Some(d)];
      }
    }

    method CopyNs(i: nat, d: bytes) returns (ok: bool)
      requires Counted() && i < MAXLEVEL * MAXNS
      modifies `ns, heap`live, heap`failed
      ensures Counted() && ns == if ok then old(ns)[i := Some(d)] else old(ns)
      ensures heap.failed == (old(heap.failed) || !ok)
    {
      LiveUpdate(ns, i, Some(d));
      hide Live;
      ok := *;
      heap.Alloc(ok);
      if ok {
        if ns[i].Some? { heap.Free(); }
        ns := ns[i := Some(d)];
      }
    }

    /** Frees the server names of level l, one after the other. */
    method FreeRow(l: nat)
      requires Counted() && l < MAXLEVEL
      modifies `ns, heap`live
      ensures Counted() && Row(ns, l) == RowOf([])
      ensures forall i :: 0 <= i < |ns| ==> ns[i] == if l * MAXNS <= i < (l + 1) * MAXNS then None else old(ns)[i]
    {
      for j := 0 to MAXNS
        invariant Counted()
        invariant forall i :: 0 <= i < |ns| ==> ns[i] == if l * MAXNS <= i < l * MAXNS + j then None else old(ns)[i]
      {
        hide Live;
        FreeNs(l * MAXNS + j);
      }
    }

    /** cleanup. */
    method Cleanup()
      requires Counted() && dt.Owned() && heap != dt.os
      modifies `name, `ns, `alias, heap`live
      modifies dt`query, dt`packet, dt`s1, dt.os`open, dt.os`live
      ensures Counted() && dt.Owned()
      ensures Emptied() && heap.live == if records then 1 else 0
    {
      hide Live;
      dt.Free();
      for j := 0 to MAXALIAS
        invariant Counted() && dt.Owned() && dt.Released()
        invariant forall k :: 0 <= k < j ==> alias[k] == None
      {
        FreeAlias(j);
      }
      for j := 0 to MAXLEVEL
        invariant Counted() && dt.Owned() && dt.Released()
        invariant forall k :: 0 <= k < MAXALIAS ==> alias[k] == None
        invariant forall l :: 0 <= l < j ==> name[l] == None
        invariant forall i :: 0 <= i < j * MAXNS ==> ns[i] == None
      {
        FreeName(j);
        FreeRow(j);
      }
      LiveNone(alias);
      LiveNone(name);
      LiveNone(ns);
    }

    // --- answers ----------------------------------------------------------------------------------

    /** One call of response.c, which fails when the response is full. */
    method Respond(e: Event) returns (ok: bool)
      modifies `response, `full
      ensures response == old(response) + (if ok then [e] else []) && full == (old(full) || !ok)
    {
      ok := *;
      if ok {
        response := response + [e];
      } else {
        full := true;
      }
    }

    /** rqa: the question that was asked, then one CNAME record for each step from there to name[0]. */
    method Rqa() returns (ok: bool)
      requires Chained()
      modifies `response, `full
      ensures ok ==> response == Preface(chain, ttls)
      ensures full == (old(full) || !ok)
    {
      response := [];
      ghost var n := |ttls|;
      var i := MAXALIAS - 1;
      while i >= 0
        invariant -1 <= i < MAXALIAS && n <= i + 1 && response == [] && full == old(full)
      {
        if alias[i].Some? {
          assert n == i + 1;
          ok := Respond(Asked(alias[i].value));
          if !ok { return; }
          assert chain[..1] == [chain[0]] && ttls[..0] == [];
          while i > 0
            invariant 0 <= i < n && response == Preface(chain[..n - i], ttls[..n - 1 - i]) && full == old(full)
          {
            ok := Respond(Alias(alias[i].value, alias[i - 1].value, aliasttl[i]));
            if !ok { return; }
            PrefaceStep(chain, ttls, n - i);
            i := i - 1;
          }
          ok := Respond(Alias(alias[0].value, name[0].value, aliasttl[0]));
          PrefaceStep(chain, ttls, n);
          return;
        }
        i := i - 1;
      }
      ok := Respond(Asked(name[0].value));
    }

    /** Ends a run that has an answer. */
    method Close(ghost b: Basis) returns (pc: Pc)
      requires Valid() && Sound() && !records && |chain| == |ttls| + 1 && Preface(chain, ttls) <= response
      requires Told(b, chain[|ttls|], qtype, response[|Preface(chain, ttls)|..]) && (b.NotReached? ==> Lost())
      modifies `name, `ns, `alias, `basis, heap`live
      modifies dt`query, dt`packet, dt`s1, dt.os`open, dt.os`live
      ensures At(pc) && pc == Done(1) && basis == b
    {
      hide Live, Preface, Justified, IsChain, Told, Leads;
      Cleanup();
      basis := b;
      return Done(1);
    }

    /** An answer of at most one record, and perhaps a response code. */
    method Answer(answer: seq<Event>, code: seq<Event>, ghost b: Basis) returns (pc: Pc)
      requires Valid() && Sound() && Chained() && level == 0 && !records && |answer| <= 1
      requires Told(b, name[0].value, qtype, answer + code) && (b.NotReached? ==> Lost())
      modifies `name, `ns, `alias, `response, `full, `basis, heap`live
      modifies dt`query, dt`packet, dt`s1, dt.os`open, dt.os`live
      ensures At(pc) && AnsweredWith(pc, answer + code, b)
    {
      hide Live, Preface, Justified, IsChain, Told, Leads;
      hide Transmit.Owned, Transmit.Waiting;
      ChainSizes(name[0].value, alias, aliasttl, chain, ttls);
      var ok := RespondAll(answer, code);
      if !ok { return Die(NoRoom); }
      BehindPreface(chain, ttls, answer + code);
      pc := Close(b);
    }

    method RespondAll(answer: seq<Event>, code: seq<Event>) returns (ok: bool)
      requires Chained() && |answer| <= 1 && |chain| == |ttls| + 1
      modifies `response, `full
      ensures full == (old(full) || !ok)
      ensures ok ==> response == Preface(chain, ttls) + (answer + code)
    {
      hide Preface, IsChain;
      ok := Rqa();
      if ok && |answer| == 1 { ok := Respond(answer[0]); }
      if ok {
        response := response + code;
        assert Preface(chain, ttls) + answer + code == Preface(chain, ttls) + (answer + code);
      }
    }

    /** A record for each name in cached data. */
    method RespondNames(d: bytes, rtype: bytes, e: Datum) returns (ok: bool)
      modifies `response, `full
      ensures full == (old(full) || !ok)
      ensures ok ==> response == old(response) + Records(d, rtype, e.ttl, NameData(NamesIn(e.data, 0)))
    {
      hide NameAt, Records, NameData;
      ghost var done := [];
      var pos: nat := 0;
      RecordsMore(d, rtype, e.ttl, [], []);
      NameDataMore([], []);
      while true
        invariant response == old(response) + Records(d, rtype, e.ttl, NameData(done))
        invariant full == old(full)
        invariant done + NamesIn(e.data, pos) == NamesIn(e.data, 0)
        decreases |e.data| - pos
      {
        var t2 := GetName(e.data, pos);
        if t2 == None {
          assert done + [] == done;
          return true;
        }
        NameAhead(e.data, pos);
        ok := Respond(Record(d, rtype, e.ttl, [Name(t2.value.0)]));
        if !ok { return; }
        NameDataMore(done, t2.value.0);
        RecordsMore(d, rtype, e.ttl, NameData(done), [Name(t2.value.0)]);
        done, pos := done + [t2.value.0], t2.value.1;
      }
    }

    /** A record for each preference and name in cached data. */
    method RespondExchanges(d: bytes, e: Datum) returns (ok: bool)
      modifies `response, `full
      ensures full == (old(full) || !ok)
      ensures ok ==> response == old(response) + Records(d, T_MX, e.ttl, ExchangesIn(e.data, 0))
    {
      hide NameAt, Records;
      ghost var done := [];
      var pos: nat := 0;
      RecordsMore(d, T_MX, e.ttl, [], []);
      while true
        invariant response == old(response) + Records(d, T_MX, e.ttl, done)
        invariant full == old(full)
        invariant done + ExchangesIn(e.data, pos) == ExchangesIn(e.data, 0)
        decreases |e.data| - pos
      {
        var next, misc := Copy(e.data, pos, 2);
        if next == 0 {
          assert done + [] == done;
          return true;
        }
        var t2 := GetName(e.data, next);
        if t2 == None {
          assert done + [] == done;
          return true;
        }
        NameAhead(e.data, next);
        var data := [Raw(misc), Name(t2.value.0)];
        ok := Respond(Record(d, T_MX, e.ttl, data));
        if !ok { return; }
        RecordsMore(d, T_MX, e.ttl, done, data);
        done, pos := done + [data], t2.value.1;
      }
    }

    /** A record for each address in cached data. */
    method RespondAddresses(d: bytes, e: Datum) returns (ok: bool)
      modifies `response, `full
      ensures full == (old(full) || !ok)
      ensures ok ==> response == old(response) + Records(d, T_A, e.ttl, RawData(AddressesIn(e.data)))
    {
      hide Records, RawData;
      ghost var done := [];
      var rest := e.data;
      RecordsMore(d, T_A, e.ttl, [], []);
      RawDataMore([], []);
      while |rest| >= 4
        invariant response == old(response) + Records(d, T_A, e.ttl, RawData(done))
        invariant full == old(full)
        invariant done + AddressesIn(rest) == AddressesIn(e.data)
      {
        ok := Respond(Record(d, T_A, e.ttl, [Raw(rest[..4])]));
        if !ok { return; }
        RawDataMore(done, rest[..4]);
        RecordsMore(d, T_A, e.ttl, RawData(done), [Raw(rest[..4])]);
        done, rest := done + [rest[..4]], rest[4..];
      }
      assert done + [] == done;
      ok := true;
    }

    /** A record for each string in cached data. */
    method RespondStrings(d: bytes, rtype: bytes, e: Datum) returns (ok: bool, bad: bool)
      modifies `response, `full
      ensures full == (old(full) || !(ok || bad))
      ensures bad ==> !ok && StringsIn(e.data) == None
      ensures ok ==>
                StringsIn(e.data).Some?
                && response == old(response) + Records(d, rtype, e.ttl, RawData(StringsIn(e.data).value))
    {
      hide Records, RawData;
      bad := false;
      ghost var done := [];
      var rest := e.data;
      RecordsMore(d, rtype, e.ttl, [], []);
      RawDataMore([], []);
      if StringsIn(rest).Some? {
        assert done + StringsIn(rest).value == StringsIn(rest).value;
      }
      while |rest| >= 2
        invariant response == old(response) + Records(d, rtype, e.ttl, RawData(done))
        invariant full == old(full) && !bad
        invariant StringsIn(e.data) == None <==> StringsIn(rest) == None
        invariant StringsIn(rest).Some? ==> StringsIn(e.data).value == done + StringsIn(rest).value
        decreases |rest|
      {
        var datalen := rest[0] as nat * 256 + rest[1];
        if datalen > |rest| - 2 { return false, true; }
        var s := rest[2..2 + datalen];
        ok := Respond(Record(d, rtype, e.ttl, [Raw(s)]));
        if !ok { return; }
        RawDataMore(done, s);
        RecordsMore(d, rtype, e.ttl, RawData(done), [Raw(s)]);
        StringsStep(done, rest);
        done, rest := done + [s], rest[2 + datalen..];
      }
      assert done + [] == done;
      ok := true;
    }

    /** The answer from cached data of type rtype. */
    method AnswerCached(v: CacheView, rtype: bytes) returns (pc: Pc)
      requires Valid() && Sound() && Chained() && level == 0 && !records && Hit(v, qtype) == Some(rtype)
      requires Grounded(CacheData(v), name[0].value, qtype)
      modifies `name, `ns, `alias, `response, `full, `basis, heap`live
      modifies dt`query, dt`packet, dt`s1, dt.os`open, dt.os`live
      ensures At(pc) && CachedAnswer(pc, v, old(name)[0].value, rtype)
    {
      hide Live, Preface, Justified, IsChain, CachedRecords, StringsIn, Grounded, Told, Leads;
      hide Transmit.Owned, Transmit.Waiting;
      hide Query.Tells, Query.Denied, Query.Unanswered;
      ChainSizes(name[0].value, alias, aliasttl, chain, ttls);
      var ok := Rqa();
      if !ok { return Die(NoRoom); }
      var bad;
      ok, bad := RespondCached(v, rtype, name[0].value);
      if bad {
        MayBadCache(v.other.value.data);
        return Die(BadCache(v.other.value.data));
      }
      if !ok { return Die(NoRoom); }
      ghost var d, records := name[0].value, CachedRecords(v, name[0].value, rtype).value;
      TellsCached(v, d, qtype, records);
      BehindPreface(chain, ttls, records);
      pc := Close(CacheData(v));
    }

    /** The answer is what the cached data stands for; it is given up for want of room, or if the data is damaged. */
    ghost predicate CachedAnswer(pc: Pc, v: CacheView, d: bytes, rtype: bytes)
      reads `response, `chain, `ttls, `basis
    {
      match CachedRecords(v, d, rtype)
      case Some(records) => AnsweredWith(pc, records, CacheData(v))
      case None => pc == Die(NoRoom) || (v.other.Some? && pc == Die(BadCache(v.other.value.data)))
    }

    method RespondCached(v: CacheView, rtype: bytes, d: bytes) returns (ok: bool, bad: bool)
      requires Hit(v, qtype) == Some(rtype)
      modifies `response, `full
      ensures ok ==> var records := CachedRecords(v, d, rtype);
                     records.Some? && response == old(response) + records.value
      ensures full == (old(full) || !(ok || bad))
      ensures bad ==> !ok && v.other.Some? && StringsIn(v.other.value.data) == None
      ensures bad ==> CachedRecords(v, d, rtype) == None
    {
      hide Records, NameData, RawData;
      bad := false;
      if rtype == T_NS {
        ok := RespondNames(d, T_NS, v.ns.value);
      } else if rtype == T_PTR {
        ok := RespondNames(d, T_PTR, v.ptr.value);
      } else if rtype == T_MX {
        ok := RespondExchanges(d, v.mx.value);
      } else if rtype == T_A {
        ok := RespondAddresses(d, v.a.value);
      } else {
        ok, bad := RespondStrings(d, rtype, v.other.value);
      }
    }

    /** The answer from a packet: the records asked for, in packet order. */
    method AnswerPacket(buf: bytes) returns (pc: Pc)
      requires Valid() && Sound() && Chained() && Named() && level == 0 && !records && |buf| >= 12
      requires PacketRecords.AllThere(buf, AnswerStart(buf), Word16(buf, 6))
      requires Grounded(PacketData(buf), name[0].value, qtype)
      modifies `name, `ns, `alias, `response, `full, `basis, heap`live
      modifies dt`query, dt`packet, dt`s1, dt.os`open, dt.os`live
      ensures At(pc) && (pc == Done(1) || pc.Die?) && PacketAnswer(pc, buf, old(name)[0].value)
    {
      hide Live, Preface, Justified, IsChain, Grounded, Told, Given, AnswerStart, Word16, Leads;
      hide Transmit.Owned, Transmit.Waiting;
      hide Query.Tells, Query.Denied, Query.Unanswered;
      hide PacketRecords.AllThere, PacketRecords.Places;
      ChainSizes(name[0].value, alias, aliasttl, chain, ttls);
      var ok := Rqa();
      if !ok { return Die(NoRoom); }
      var bad;
      ok, bad := RespondGiven(buf, AnswerStart(buf), Word16(buf, 6), name[0].value, qtype);
      if bad {
        MayBadRecord(buf, name[0].value, qtype);
        return Die(BadRecord(buf, name[0].value, qtype));
      }
      if !ok { return Die(NoRoom); }
      ghost var d, given := name[0].value, Given(buf, Answers(buf), name[0].value, qtype).value;
      TellsPacket(buf, d, qtype, given);
      BehindPreface(chain, ttls, given);
      pc := Close(PacketData(buf));
    }

    /** The answer is what the packet gives; it is given up for want of room, or if a record cannot be read. */
    ghost predicate PacketAnswer(pc: Pc, buf: bytes, d: bytes)
      requires |buf| >= 12
      reads `response, `chain, `ttls, `qtype, `basis
    {
      match Given(buf, Answers(buf), d, qtype)
      case Some(records) => AnsweredWith(pc, records, PacketData(buf))
      case None => pc == Die(NoRoom) || pc == Die(BadRecord(buf, d, qtype))
    }

    method RespondGiven(buf: bytes, pos: nat, n: nat, d: bytes, dtype: bytes) returns (ok: bool, bad: bool)
      requires IsName(d) && PacketRecords.AllThere(buf, pos, n)
      modifies `response, `full
      ensures var given := Given(buf, PacketRecords.Places(buf, pos, n), d, dtype);
              if bad then !ok && given == None else ok ==> given.Some? && response == old(response) + given.value
      ensures full == (old(full) || !(ok || bad))
    {
      hide Given, DataOf, Same, PacketRecords.Parse, PacketRecords.Places, PacketRecords.Reached;
      hide PacketRecords.AllThere;
      ghost var s := PacketRecords.Places(buf, pos, n);
      var at: nat := pos;
      bad := false;
      PacketRecords.ReachedFirst(buf, pos, n);
      NothingGiven(buf, s, d, dtype);
      for j := 0 to n
        invariant PacketRecords.Reached(buf, pos, n, j, at) && Given(buf, s[..j], d, dtype).Some?
        invariant response == old(response) + Given(buf, s[..j], d, dtype).value && full == old(full) && !bad
      {
        PacketRecords.ReachedNext(buf, pos, n, j, at);
        OneMoreGiven(buf, s, j, d, dtype);
        var read := PacketRecords.ReadRecord(buf, at);
        PacketRecords.ParseShape(buf, at);
        var r := read.value;
        var same := Equal(r.owner, d);
        if same && r.head[2..] == IN && TypeMatch(r.head[..2], dtype) {
          var data := ReadData(buf, r.head[..2], r.after + 10, r.datalen);
          if data == None {
            GivenStop(buf, s, j + 1, d, dtype);
            return false, true;
          }
          ok := Respond(Record(r.owner, r.head[..2], Ttl(r.ttl), data.value));
          if !ok { return; }
        }
        at := r.after + 10 + r.datalen;
      }
      assert s[..n] == s;
      ok := true;
    }

    /** NXDOMAIN: the name asked for is denied; above level 0 the level below goes on. */
    method StepNxDomain(b: Basis) returns (pc: Pc)
      requires At(NxDomain(b))
      modifies `name, `ns, `alias, `response, `full, `basis, heap`live
      modifies dt`query, dt`packet, dt`s1, dt.os`open, dt.os`live
      ensures At(pc) && Advances(NxDomain(b), loop, level, pc, loop, level)
      ensures if level > 0 then pc == LowerLevel else AnsweredWith(pc, [NoSuchName], b)
    {
      hide Live, Preface, Justified, IsChain, Grounded, Leads;
      if level > 0 { return LowerLevel; }
      assert [] + [NoSuchName] == [NoSuchName];
      pc := Answer([], [NoSuchName], b);
    }

    /** SERVFAIL: nothing can be found out about the name asked for; above level 0 the level below goes on. */
    method StepServFail(b: Basis) returns (pc: Pc)
      requires At(ServFail(b))
      modifies `name, `ns, `alias, `response, `full, `basis, heap`live
      modifies dt`query, dt`packet, dt`s1, dt.os`open, dt.os`live
      ensures At(pc) && Advances(ServFail(b), loop, level, pc, loop, level)
      ensures if level > 0 then pc == LowerLevel else AnsweredWith(pc, [Failure], b)
    {
      hide Live, Preface, Justified, IsChain, Grounded, Leads;
      if level > 0 { return LowerLevel; }
      assert [] + [Failure] == [Failure];
      pc := Answer([], [Failure], b);
    }

    /** LOWERLEVEL: this level's names are gone, and the servers found for the level below are used. */
    method StepLowerLevel() returns (pc: Pc)
      requires At(LowerLevel)
      modifies `level, `name, `ns, heap`live
      ensures At(pc) && Advances(LowerLevel, loop, old(level), pc, loop, level)
      ensures pc == HaveNs && level == old(level) - 1 && name == old(name)[old(level) := None]
      ensures Row(ns, old(level)) == RowOf([]) && Row(ns, level) == old(Row(ns, level - 1))
    {
      hide Live, Preface, Justified, IsName, IsChain, Row, RowOf, Leads;
      hide Query.At, Query.Sound;
      hide Transmit.Owned;
      AboveLowest();
      FreeName(level);
      OtherRow(level);
      level := level - 1;
      BackDown();
      return HaveNs;
    }

    lemma AboveLowest()
      requires At(LowerLevel)
      ensures heap != dt.os && Counted() && Shaped() && dt.Owned() && Sound()
      ensures Named() && Chained() && Controls(level) && !records && loop < MAXTURNS && 0 < level < MAXLEVEL
    {
      hide Live, Preface, Justified, IsName, IsChain;
    }

    lemma BackDown()
      requires heap != dt.os && Counted() && dt.Owned() && Sound()
      requires |control| == |servers| == MAXLEVEL && |aliasttl| == MAXALIAS && |localip| == 4 && |qtype| == 2
      requires (forall l :: 0 <= l < MAXLEVEL ==> |servers[l]| == 64) && level < MAXLEVEL
      requires Named() && Chained() && Controls(level + 1) && !records && loop < MAXTURNS
      ensures At(HaveNs)
    {
      hide Live, Preface, Justified, IsName, IsChain;
    }

    /** Frees one row and says that the row before it stays. */
    method OtherRow(l: nat)
      requires Counted() && 0 < l < MAXLEVEL
      modifies `ns, heap`live
      ensures Counted() && Row(ns, l) == RowOf([]) && Row(ns, l - 1) == old(Row(ns, l - 1))
      ensures forall i :: 0 <= i < |ns| && ns[i].Some? ==> ns[i] == old(ns)[i]
    {
      FreeRow(l);
    }

    /** CNAME: at level 0 the current name becomes the latest alias, of at most 16. */
    method StepCname(cname: bytes, ttl: uint32, link: Link) returns (pc: Pc)
      requires At(Cname(cname, ttl, link))
      modifies `name, `alias, `aliasttl, `chain, `ttls, `links, heap`live, heap`failed
      ensures At(pc) && Advances(Cname(cname, ttl, link), loop, level, pc, loop, level)
      ensures if level == 0 && |old(ttls)| == 16 then pc == Die(NoAlias)
              else pc == Die(NoMemory) || (pc == NewName && name == old(name)[level := Some(cname)])
      ensures if pc == NewName && level == 0 then
                chain == old(chain) + [cname] && ttls == old(ttls) + [ttl] && links == old(links) + [link]
              else chain == old(chain) && ttls == old(ttls) && links == old(links)
    {
      hide Query.At;
      hide Advances;
      if level > 0 {
        pc := ReplaceName(cname, ttl, link);
      } else {
        pc := AddAlias(cname, ttl, link);
      }
    }

    /** The alias takes the place of the name of a server. */
    method ReplaceName(cname: bytes, ttl: uint32, link: Link) returns (pc: Pc)
      requires At(Cname(cname, ttl, link)) && level > 0
      modifies `name, heap`live, heap`failed
      ensures At(pc) && Advances(Cname(cname, ttl, link), loop, level, pc, loop, level)
      ensures pc == Die(NoMemory) || (pc == NewName && name == old(name)[level := Some(cname)])
    {
      hide Live, Preface, Justified, IsName, IsChain, Leads;
      hide Query.Tells, Query.Denied, Query.Unanswered;
      hide Transmit.Owned, Transmit.Waiting;
      var ok := CopyName(level, cname);
      return if ok then NewName else Die(NoMemory);
    }

    /** The alias becomes the name asked for, if there is room for one more. */
    method AddAlias(cname: bytes, ttl: uint32, link: Link) returns (pc: Pc)
      requires At(Cname(cname, ttl, link)) && level == 0
      modifies `name, `alias, `aliasttl, `chain, `ttls, `links, heap`live, heap`failed
      ensures At(pc) && Advances(Cname(cname, ttl, link), loop, level, pc, loop, level)
      ensures if |old(ttls)| == 16 then pc == Die(NoAlias)
              else pc == Die(NoMemory) || (pc == NewName && name == old(name)[0 := Some(cname)])
      ensures if pc == NewName then
                chain == old(chain) + [cname] && ttls == old(ttls) + [ttl] && links == old(links) + [link]
              else chain == old(chain) && ttls == old(ttls) && links == old(links)
    {
      hide Live, Preface, Justified, IsName, IsChain, Leads;
      hide Query.Tells, Query.Denied, Query.Unanswered;
      hide Transmit.Owned, Transmit.Waiting;
      AliasesFull(name[0].value, alias, aliasttl, chain, ttls);
      if alias[MAXALIAS - 1].Some? { return Die(NoAlias); }
      var ok := FollowAlias(cname, ttl);
      if ok { links := links + [link]; }
      return if ok then NewName else Die(NoMemory);
    }

    /** The part of CNAME that is for level 0, where there is room for an alias. */
    method FollowAlias(cname: bytes, ttl: uint32) returns (ok: bool)
      requires Counted() && Chained() && |alias| == MAXALIAS && alias[MAXALIAS - 1] == None
      modifies `alias, `aliasttl, `name, `chain, `ttls, heap`live, heap`failed
      ensures Counted() && |aliasttl| == MAXALIAS && heap.failed == (old(heap.failed) || !ok)
      ensures ok ==> Chained() && chain == old(chain) + [cname] && ttls == old(ttls) + [ttl]
      ensures ok ==> name == old(name)[0 := Some(cname)]
      ensures !ok ==> chain == old(chain) && ttls == old(ttls)
    {
      hide Live, IsChain;
      ChainSizes(name[0].value, alias, aliasttl, chain, ttls);
      ChainGrows(name[0].value, alias, aliasttl, chain, ttls, cname, ttl);
      PushAlias(ttl);
      ok := CopyName(0, cname);
      if ok {
        chain, ttls := chain + [cname], ttls + [ttl];
      }
    }

    /** Moves the aliases up and the name asked for at present into the first place. */
    method PushAlias(ttl: uint32)
      requires Counted() && alias[MAXALIAS - 1] == None && |aliasttl| == MAXALIAS
      modifies `alias, `aliasttl, `name
      ensures Counted() && name == old(name)[0 := None]
      ensures alias == [old(name)[0]] + old(alias)[..MAXALIAS - 1]
      ensures aliasttl == [ttl] + old(aliasttl)[..MAXALIAS - 1]
    {
      hide Live;
      ghost var was := alias;
      var j := MAXALIAS - 1;
      while j > 0
        invariant 0 <= j < MAXALIAS == |alias| && aliasttl == old(aliasttl) && name == old(name)
        invariant forall k :: 0 <= k <= j ==> alias[k] == was[k]
        invariant forall k :: j < k < MAXALIAS ==> alias[k] == was[k - 1]
      {
        alias := alias[j := alias[j - 1]];
        j := j - 1;
      }
      j := MAXALIAS - 1;
      while j > 0
        invariant 0 <= j < MAXALIAS == |aliasttl| && name == old(name)
        invariant |alias| == MAXALIAS && forall k :: 0 < k < MAXALIAS ==> alias[k] == was[k - 1]
        invariant forall k :: 0 <= k <= j ==> aliasttl[k] == old(aliasttl)[k]
        invariant forall k :: j < k < MAXALIAS ==> aliasttl[k] == old(aliasttl)[k - 1]
      {
        aliasttl := aliasttl[j := aliasttl[j - 1]];
        j := j - 1;
      }
      alias, aliasttl := alias[0 := name[0]], aliasttl[0 := ttl];
      assert alias == [name[0]] + was[..MAXALIAS - 1];
      LastIsNone(was);
      LivePushed(was[..MAXALIAS - 1], name[0]);
      LiveUpdate(name, 0, None);
      name := name[0 := None];
    }

    /** DIE. */
    method StepDie(why: Reason) returns (pc: Pc)
      requires At(Die(why))
      modifies `name, `ns, `alias, `records, `why, heap`live
      modifies dt`query, dt`packet, dt`s1, dt.os`open, dt.os`live
      ensures At(pc) && Advances(Die(why), loop, level, pc, loop, level)
      ensures pc == Done(-1) && this.why == why
    {
      hide Live, Preface, Justified, Leads;
      hide Transmit.Waiting;
      Cleanup();
      if records {
        heap.Free();
        records := false;
      }
      this.why := why;
      return Done(-1);
    }

    // --- name servers -----------------------------------------------------------------------------

    /** Puts an address into the first empty slot of level l, if there is one. */
    method AddServer(l: nat, ip: bytes)
      requires Shaped() && l < MAXLEVEL && |ip| == 4
      modifies `servers
      ensures Shaped() && servers == old(servers)[l := Added(old(servers)[l], ip, 0)]
    {
      hide Ip;
      for k := 0 to SERVERS
        invariant servers == old(servers) && Added(servers[l], ip, 0) == Added(servers[l], ip, k)
      {
        if Ip(servers[l], k) == [0, 0, 0, 0] {
          servers := servers[l := servers[l][..4 * k] + ip + servers[l][4 * k + 4..]];
          return;
        }
      }
    }

    /** The addresses of a cached answer go to the level below. */
    method AddServers(data: bytes)
      requires Shaped() && level > 0
      modifies `servers
      ensures Shaped()
      ensures servers == old(servers)[level - 1 := AddedAll(old(servers)[level - 1], AddressesIn(data))]
    {
      hide Added, AddedAll, AddressesIn;
      ghost var done: seq<Ip4> := [];
      var rest := data;
      OneMoreAdded(servers[level - 1], [], [0, 0, 0, 0]);
      assert done + AddressesIn(rest) == AddressesIn(data);
      while |rest| >= 4
        invariant Shaped() && done + AddressesIn(rest) == AddressesIn(data)
        invariant servers == old(servers)[level - 1 := AddedAll(old(servers)[level - 1], done)]
      {
        AddServer(level - 1, rest[..4]);
        OneMoreAdded(old(servers)[level - 1], done, rest[..4]);
        TakeAddress(done, rest);
        done, rest := done + [rest[..4]], rest[4..];
      }
      LastAddress(done, rest);
    }

    /** Copies an address out of a packet into the first empty slot of the level below. */
    method AddAnswer(buf: bytes, at: nat) returns (ok: bool)
      requires Shaped() && level > 0
      modifies `servers
      ensures Shaped()
      ensures if at + 4 <= |buf| then
                ok && servers == old(servers)[level - 1 := Added(old(servers)[level - 1], buf[at..at + 4], 0)]
              else ok ==> servers == old(servers)
    {
      hide Ip, Added;
      if at + 4 <= |buf| {
        AddServer(level - 1, buf[at..at + 4]);
        return true;
      }
      ok := true;
      for k := 0 to SERVERS
        invariant ok
      {
        if Ip(servers[level - 1], k) == [0, 0, 0, 0] { return false; }
      }
    }

    /** The addresses in a packet go to the level below; false if one that is needed is cut off. */
    method AddAnswers(buf: bytes, pos: nat, n: nat, d: bytes) returns (ok: bool)
      requires Shaped() && level > 0 && IsName(d) && PacketRecords.AllThere(buf, pos, n)
      modifies `servers
      ensures Shaped()
      ensures var ips := Addresses(buf, PacketRecords.Places(buf, pos, n), d);
              ok ==> servers == old(servers)[level - 1 := AddedAll(old(servers)[level - 1], ips)]
      ensures !ok ==> AnyCut(buf, PacketRecords.Places(buf, pos, n), d)
    {
      hide Added, AddedAll, Addresses, Same, PacketRecords.Parse, PacketRecords.Places, PacketRecords.Reached;
      hide PacketRecords.AllThere;
      ghost var s := PacketRecords.Places(buf, pos, n);
      var at: nat := pos;
      PacketRecords.ReachedFirst(buf, pos, n);
      NoAddresses(buf, s, d);
      OneMoreAdded(servers[level - 1], [], [0, 0, 0, 0]);
      for j := 0 to n
        invariant Shaped() && PacketRecords.Reached(buf, pos, n, j, at)
        invariant servers == old(servers)[level - 1 := AddedAll(old(servers)[level - 1], Addresses(buf, s[..j], d))]
      {
        PacketRecords.ReachedNext(buf, pos, n, j, at);
        OneMoreAddress(buf, s, j, d);
        var read := PacketRecords.ReadRecord(buf, at);
        PacketRecords.ParseShape(buf, at);
        var r := read.value;
        var same := Equal(r.owner, d);
        if same && r.head[..2] == T_A && r.head[2..] == IN && r.datalen == 4 {
          ok := AddAnswer(buf, r.after + 10);
          if !ok {
            assert AddressCut(buf, s[j], d);
            return;
          }
          if r.after + 14 <= |buf| {
            OneMoreAdded(old(servers)[level - 1], Addresses(buf, s[..j], d), buf[r.after + 10..r.after + 14]);
          } else {
            assert Addresses(buf, s[..j], d) + [] == Addresses(buf, s[..j], d);
          }
        } else {
          assert Addresses(buf, s[..j], d) + [] == Addresses(buf, s[..j], d);
        }
        at := r.after + 10 + r.datalen;
      }
      assert s[..n] == s;
      ok := true;
    }

    /** HAVENS: resolves the next name server's name one level up, or asks the servers known. */
    method StepHaveNs() returns (pc: Pc)
      requires At(HaveNs)
      modifies `loop, `level, `name, `control, `ns, `servers, `alias, `aliasttl, `records, `response
      modifies heap, dt, dt.os
      ensures At(pc) && Advances(HaveNs, old(loop), old(level), pc, loop, level)
      ensures pc == Done(0) ==> loop == old(loop) && level == old(level)
      ensures var server := FirstKnown(Row(old(ns), old(level)));
              if server.Some? && old(level) + 1 < 5 then
                pc == Die(NoMemory) || (pc == NewName && level == old(level) + 1 && name == old(name)[level := server])
              else if NoneKnown(old(servers)[level]) then
                pc == ServFail(NoneLeft(old(servers)[level])) && servers == old(servers) && level == old(level)
              else
                && (pc == Done(0) || Unsent(pc)) && level == old(level) && RowIs([]) && name == old(name)
                && multiset(Slots(servers[level])) == multiset(Slots(old(servers)[level]))
    {
      hide Live, Preface, Justified, IsName, IsChain, Row, RowOf, Slots, FirstKnown, NoneKnown, Leads;
      hide Query.At;
      var found;
      found, pc := NextServerName();
      if found { return; }
      var none := NoServer();
      if none {
        NobodyLeft();
        return ServFail(NoneLeft(servers[level]));
      }
      ShuffleServers();
      pc := PutQuestion();
    }

    /** The second loop of HAVENS. */
    method NoServer() returns (none: bool)
      requires At(HaveNs)
      ensures level < |servers| && |servers[level]| == 64 && (none <==> NoneKnown(servers[level]))
    {
      NameOfLevel();
      hide Query.At;
      var j := 0;
      while j < SERVERS && Ip(servers[level], j) == [0, 0, 0, 0]
        invariant j <= SERVERS && forall k :: 0 <= k < j ==> Ip(servers[level], k) == [0, 0, 0, 0]
      {
        j := j + 1;
      }
      none := j == SERVERS;
    }

    lemma NobodyLeft()
      requires At(HaveNs) && level < |servers| && |servers[level]| == 64 && NoneKnown(servers[level])
      ensures At(ServFail(NoneLeft(servers[level])))
    {
      hide Live, Preface, Justified, IsName, IsChain, Grounded, Leads;
      NameOfLevel();
      MayNoneLeft(servers[level], name[level].value, WantedType());
    }

    /** dns_sortip on the servers of this level. */
    method ShuffleServers()
      requires At(HaveNs) && level < |servers| && |servers[level]| == 64
      modifies `servers
      ensures At(HaveNs) && level < |servers| && |servers[level]| == 64
      ensures multiset(Slots(servers[level])) == multiset(Slots(old(servers)[level]))
    {
      hide Live, Preface, Justified, IsName, IsChain, Slots, Leads;
      var sorted := SortIp(servers[level]);
      servers := servers[level := sorted];
    }

    /** The first loop of HAVENS. */
    method NextServerName() returns (found: bool, pc: Pc)
      requires At(HaveNs)
      modifies `name, `ns, `level, heap`live, heap`failed
      ensures var server := FirstKnown(Row(old(ns), old(level)));
              && (found <==> server.Some? && old(level) + 1 < MAXLEVEL)
              && (found ==> At(pc)
                            && (pc == Die(NoMemory)
                                || (pc == NewName && level == old(level) + 1 && name == old(name)[level := server])))
      ensures !found ==> At(HaveNs) && level == old(level) && name == old(name) && RowIs([])
    {
      hide Live, Preface, Justified, IsName, IsChain, Leads;
      hide Transmit.Owned, Transmit.Waiting;
      hide Query.Tells, Query.Denied, Query.Unanswered;
      pc := HaveNs;
      for j := 0 to MAXNS
        invariant At(HaveNs) && level == old(level) && name == old(name) && pc == HaveNs
        invariant forall k :: 0 <= k < j ==> Row(ns, level)[k] == None
        invariant level + 1 < MAXLEVEL ==> ns == old(ns)
      {
        var i := MAXNS * level + j;
        RowEntry(ns, level, j, None);
        if ns[i].Some? {
          FirstKnownAt(Row(ns, level), j);
          if level + 1 < MAXLEVEL {
            var ok := Climb(i);
            return true, if ok then NewName else Die(NoMemory);
          }
          FreeNs(i);
        }
      }
      if level + 1 < MAXLEVEL {
        NoneFirst(Row(ns, level));
      }
      found := false;
    }

    /** Moves the name of a server to the next level. */
    method Climb(i: nat) returns (ok: bool)
      requires At(HaveNs) && i < |ns| && ns[i].Some? && level + 1 < MAXLEVEL
      modifies `name, `ns, `level, heap`live, heap`failed
      ensures ok ==> At(NewName) && level == old(level) + 1 && name == old(name)[level := old(ns)[i]]
      ensures !ok ==> At(Die(NoMemory))
    {
      hide Live, Preface, Justified, IsName, IsChain, Leads;
      hide Transmit.Owned, Transmit.Waiting;
      hide Query.Tells, Query.Denied, Query.Unanswered;
      ok := CopyName(level + 1, ns[i].value);
      if ok {
        FreeNs(i);
        level := level + 1;
      }
    }

    /** The query could not be sent to any of the servers of this level. */
    ghost predicate Unsent(pc: Pc)
      reads `level, `name, `servers
    {
      && pc.Die? && pc.why.NotSent? && level < |name| && name[level].Some? && level < |servers|
      && pc.why.servers == servers[level]
      && (pc.why.a, pc.why.b) == Range(|name[level].value|, flagforwardonly)
    }

    /** The end of HAVENS: the query for this level's name goes out. */
    method PutQuestion() returns (pc: Pc)
      requires At(HaveNs)
      modifies dt, dt.os
      ensures At(pc) && (pc == Done(0) || Unsent(pc))
    {
      hide Live, Preface, Justified, IsName, IsChain, GetsThrough, IsQuery, Known, Relevant, Leads;
      hide Query.At, Query.Named, Query.Counted, Query.Shaped, Query.Controls, Query.Chained, Query.Sound;
      hide Transmit.Waiting, Transmit.Owned, Transmit.SentFrom, Transmit.ConnectedFrom, Transmit.Traced;
      hide Transmit.Exhausted, Transmit.Released;
      NameOfLevel();
      ReadyToAsk();
      var gotMemory: bool, net: Net := *, *;
      var r := dt.Start(servers[level], flagforwardonly, name[level].value, WantedType(), localip, gotMemory, net);
      var (a, b) := Range(|name[level].value|, flagforwardonly);
      if r == -1 {
        MayNotSent(servers[level], net, gotMemory, a, b);
        NotAsked(NotSent(servers[level], net, gotMemory, a, b));
        return Die(NotSent(servers[level], net, gotMemory, a, b));
      }
      NowWaiting();
      return Done(0);
    }

    /** What is there while a question may be asked. */
    lemma ReadyToAsk()
      requires At(HaveNs)
      ensures heap != dt.os && Counted() && Shaped() && dt.Owned() && Sound()
      ensures Named() && Chained() && Controls(level + 1) && !records && loop < MAXTURNS
      ensures |localip| == 4 && |WantedType()| == 2
    {
      hide Live, Preface, Justified, IsName, IsChain, Leads;
    }

    lemma NotAsked(why: Reason)
      requires heap != dt.os && Counted() && Shaped() && dt.Owned() && Sound() && why.NotSent? && Justified(why)
      ensures At(Die(why))
    {
      hide Live, Preface, Justified, IsName, IsChain, Leads;
    }

    lemma NowWaiting()
      requires heap != dt.os && Counted() && Shaped() && dt.Owned() && Sound()
      requires Named() && Chained() && Controls(level + 1) && !records && loop < MAXTURNS
      requires dt.Waiting() && level < |name| && name[level].Some? && level < |servers|
      requires dt.name == name[level].value && dt.qtype == WantedType()
      requires dt.servers == servers[level] && dt.recursive == flagforwardonly
      ensures At(Done(0))
    {
      hide Live, Preface, Justified, IsName, IsChain, Leads;
    }

    // --- the beginning of a turn ------------------------------------------------------------------

    /**
     * NEWNAME: a name that stands for an address is not looked up; then the cache is asked, and then the closest zone
     * around the name whose servers are known.
     */
    method StepNewName(v: CacheView, gotMemory: bool, known: Knowledge) returns (pc: Pc)
      requires At(NewName) && (v.cname.Some? ==> Storable(v.cname.value))
      requires |known| == |name[level].value| && Sensible(known)
      modifies `loop, `servers, `control, `name, `ns, `alias, `response, `full, `basis, heap`live, heap`failed
      modifies dt`query, dt`packet, dt`s1, dt.os`open, dt.os`live
      ensures At(pc) && Advances(NewName, old(loop), level, pc, loop, level)
      ensures pc.Done? ==> pc == Done(1) && level == 0
      ensures if old(loop) + 1 == 100 then pc == Die(NoTurns)
              else LooksUp(pc, v, gotMemory, known, old(name)[level].value, old(servers))
    {
      hide Live, Preface, Justified, IsName, IsChain, Leads;
      hide Query.Named, Query.Chained, Query.Controls, Query.Counted, Query.Emptied, Query.LooksUp;
      loop := loop + 1;
      if loop == MAXTURNS { return Die(NoTurns); }
      pc := LookUp(v, gotMemory, known);
    }

    /** What becomes of the name d of this level. */
    ghost predicate LooksUp(pc: Pc, v: CacheView, gotMemory: bool, known: Knowledge, d: bytes, servers0: seq<bytes>)
      reads `level, `qtype, `servers, `response, `chain, `ttls, `control, `ns, `basis
    {
      IsName(d)
      && if Local(d) then IsLocal(pc, d, servers0)
         else if InCache(v, d, WantedType()) then IsCached(pc, v, gotMemory, d, servers0)
         else IsZoned(pc, known, d)
    }

    /** NEWNAME after its first line. */
    method LookUp(v: CacheView, gotMemory: bool, known: Knowledge) returns (pc: Pc)
      requires At(NewName) && (v.cname.Some? ==> Storable(v.cname.value))
      requires |known| == |name[level].value| && Sensible(known)
      modifies `servers, `control, `name, `ns, `alias, `response, `full, `basis, heap`live, heap`failed
      modifies dt`query, dt`packet, dt`s1, dt.os`open, dt.os`live
      ensures At(pc) && AfterName(pc, level)
      ensures LooksUp(pc, v, gotMemory, known, old(name)[level].value, old(servers))
    {
      hide Live, Preface, Justified, IsName, IsChain, InCache, Same, Leads;
      hide Transmit.Owned, Transmit.Waiting;
      hide Query.Tells, Query.Denied, Query.Unanswered;
      hide Query.Named, Query.Chained, Query.Controls, Query.Counted, Query.Emptied, Query.WantedType;
      hide Query.IsLocal, Query.IsCached, Query.IsZoned;
      NameHere();
      var found;
      found, pc := Literal();
      if found { return; }
      found, pc := Cached(v, gotMemory);
      if found { return; }
      pc := FindZone(known);
    }

    lemma NameHere()
      requires At(NewName)
      ensures level < MAXLEVEL == |name| && name[level].Some? && Storable(name[level].value)
    {
      hide Live, Preface, Justified, IsName, IsChain, Leads;
    }

    /** What the cache holds for a name is arbitrary. */
    method AnyView() returns (v: CacheView)
      modifies `views
      ensures views == old(views) + [v] && (v.cname.Some? ==> Storable(v.cname.value))
    {
      var cname := AnyName();
      var nx: bool, ttl: uint32, ns: Option<Datum>, ptr: Option<Datum>, mx: Option<Datum> := *, *, *, *, *;
      var a: Option<Datum>, other: Option<Datum> := *, *;
      v := CacheView(nx, cname, ttl, ns, ptr, mx, a, other);
      views := views + [v];
    }

    /** A name that stands for an address, or the name of 127.0.0.1. */
    ghost predicate IsLocal(pc: Pc, d: bytes, servers0: seq<bytes>)
      requires IsName(d)
      reads `level, `servers, `qtype, `response, `chain, `ttls, `basis
    {
      var ip := AddressOf(d);
      if level == 0 then
        AnsweredWith(pc, if ip.Some? then LocalAnswer(d, T_A, qtype, Raw(ip.value))
                         else LocalAnswer(d, T_PTR, qtype, Name(LOCALHOST)), LocalName)
      else
        && pc == LowerLevel && level <= |servers0| && |servers0[level - 1]| == 64
        && servers == match ip
                      case None => servers0
                      case Some(x) => servers0[level - 1 := Added(servers0[level - 1], x, 0)]
    }

    /** Names that stand for addresses, and the name of 127.0.0.1, need no asking. */
    method Literal() returns (found: bool, pc: Pc)
      requires At(NewName)
      modifies `servers, `name, `ns, `alias, `response, `full, `basis, heap`live
      modifies dt`query, dt`packet, dt`s1, dt.os`open, dt.os`live
      ensures var d := old(name)[level].value;
              && (found <==> Local(d))
              && (found ==> At(pc) && AfterName(pc, level) && IsLocal(pc, d, old(servers)))
      ensures !found ==> At(NewName) && name == old(name) && servers == old(servers)
    {
      hide Live, Preface, Justified, IsName, IsChain, NameOf, Same, Added, DottedFrom, Leads;
      hide Transmit.Owned, Transmit.Waiting;
      hide Query.Tells, Query.Denied, Query.Unanswered;
      pc := NewName;
      var d := name[level].value;
      var ip := GlobalIp(d);
      if ip.Some? {
        if level > 0 {
          AddServer(level - 1, ip.value);
          return true, LowerLevel;
        }
        pc := AnswerLocal(LocalAnswer(d, T_A, qtype, Raw(ip.value)), LocalName);
        return true, pc;
      }
      found := Equal(d, LOCALHOST_PTR);
      if found {
        if level > 0 { return true, LowerLevel; }
        pc := AnswerLocal(LocalAnswer(d, T_PTR, qtype, Name(LOCALHOST)), LocalName);
      }
    }

    method AnswerLocal(answer: seq<Event>, ghost b: Basis) returns (pc: Pc)
      requires At(NewName) && level == 0 && |answer| <= 1
      requires Told(b, name[0].value, qtype, answer) && !b.NotReached?
      modifies `name, `ns, `alias, `response, `full, `basis, heap`live
      modifies dt`query, dt`packet, dt`s1, dt.os`open, dt.os`live
      ensures At(pc) && AnsweredWith(pc, answer, b)
    {
      hide Live, Preface, Justified, IsName, IsChain, Leads;
      assert answer + [] == answer;
      pc := Answer(answer, [], b);
    }

    /** The cache decides: a denial first, then an alias, then data of a type asked for. */
    ghost predicate IsCached(pc: Pc, v: CacheView, gotMemory: bool, d: bytes, servers0: seq<bytes>)
      reads `level, `servers, `qtype, `response, `chain, `ttls, `basis
    {
      if v.nxdomain then pc == NxDomain(CacheDenies(v))
      else if v.cname.Some? then
        if TypeMatch(T_CNAME, WantedType()) then AnsweredWith(pc, [Alias(d, v.cname.value, v.cnameTtl)], CachedAlias(v))
        else pc == if gotMemory then Cname(v.cname.value, v.cnameTtl, FromCache(v)) else Die(NoMemory)
      else if level == 0 then Hit(v, qtype).Some? && CachedAnswer(pc, v, d, Hit(v, qtype).value)
      else
        && pc == LowerLevel && level <= |servers0| && |servers0[level - 1]| == 64 && v.a.Some?
        && servers == servers0[level - 1 := AddedAll(servers0[level - 1], AddressesIn(v.a.value.data))]
    }

    /** The cache's answers, in the order in which they are looked for. */
    method Cached(v: CacheView, gotMemory: bool) returns (found: bool, pc: Pc)
      requires At(NewName) && (v.cname.Some? ==> Storable(v.cname.value))
      requires !Local(name[level].value)
      modifies `servers, `name, `ns, `alias, `response, `full, `basis, heap`live, heap`failed
      modifies dt`query, dt`packet, dt`s1, dt.os`open, dt.os`live
      ensures var d := old(name)[level].value;
              && (found <==> InCache(v, d, WantedType()))
              && (found ==> At(pc) && AfterName(pc, level) && IsCached(pc, v, gotMemory, d, old(servers)))
      ensures !found ==> At(NewName) && name == old(name) && servers == old(servers)
    {
      hide Live, Preface, Justified, IsName, IsChain, CachedRecords, Leads;
      hide Transmit.Owned, Transmit.Waiting;
      hide Query.Tells, Query.Unanswered;
      pc := NewName;
      if |name[level].value| > 255 { return false, pc; }
      if v.nxdomain { return true, NxDomain(CacheDenies(v)); }
      if v.cname.Some? {
        if TypeMatch(T_CNAME, WantedType()) {
          pc := AnswerLocal([Alias(name[level].value, v.cname.value, v.cnameTtl)], CachedAlias(v));
          return true, pc;
        }
        pc := FollowCached(v, gotMemory);
        return true, pc;
      }
      found, pc := CachedData(v);
    }

    /** A cached alias that is not itself asked for. */
    method FollowCached(v: CacheView, gotMemory: bool) returns (pc: Pc)
      requires At(NewName) && v.cname.Some? && Storable(v.cname.value) && !v.nxdomain
      requires !Local(name[level].value) && |name[level].value| <= 255 && !TypeMatch(T_CNAME, WantedType())
      modifies heap`live, heap`failed
      ensures At(pc) && pc == if gotMemory then Cname(v.cname.value, v.cnameTtl, FromCache(v)) else Die(NoMemory)
    {
      hide Live, Preface, Justified, IsName, IsChain;
      hide Transmit.Owned, Transmit.Waiting;
      hide Query.Tells, Query.Denied, Query.Unanswered;
      if !gotMemory { heap.Alloc(false); }
      return if gotMemory then Cname(v.cname.value, v.cnameTtl, FromCache(v)) else Die(NoMemory);
    }

    /** The part of the lookup that is for data. */
    method CachedData(v: CacheView) returns (found: bool, pc: Pc)
      requires At(NewName)
      requires !Local(name[level].value) && |name[level].value| <= 255 && !v.nxdomain && v.cname == None
      modifies `servers, `name, `ns, `alias, `response, `full, `basis, heap`live
      modifies dt`query, dt`packet, dt`s1, dt.os`open, dt.os`live
      ensures found <==> Hit(v, WantedType()).Some?
      ensures found && level == 0 ==> At(pc) && CachedAnswer(pc, v, old(name)[0].value, Hit(v, qtype).value)
      ensures found && level > 0 ==>
                && At(pc) && pc == LowerLevel && v.a.Some?
                && servers == old(servers)[level - 1 := AddedAll(old(servers)[level - 1], AddressesIn(v.a.value.data))]
      ensures !found ==> At(NewName) && name == old(name) && servers == old(servers)
    {
      hide Live, Preface, Justified, IsName, IsChain, CachedRecords, AddedAll, AddressesIn, Leads;
      hide Transmit.Owned, Transmit.Waiting;
      hide Query.Tells, Query.Denied, Query.Unanswered;
      hide Query.CachedAnswer;
      pc := NewName;
      var dtype := WantedType();
      if TypeMatch(T_NS, dtype) {
        if Usable(v.ns, dtype) {
          pc := AnswerCached(v, T_NS);
          return true, pc;
        }
      }
      if TypeMatch(T_PTR, dtype) {
        if Usable(v.ptr, dtype) {
          pc := AnswerCached(v, T_PTR);
          return true, pc;
        }
      }
      if TypeMatch(T_MX, dtype) {
        if Usable(v.mx, dtype) {
          pc := AnswerCached(v, T_MX);
          return true, pc;
        }
      }
      if TypeMatch(T_A, dtype) {
        if Usable(v.a, dtype) {
          if level > 0 {
            AddServers(v.a.value.data);
            return true, LowerLevel;
          }
          pc := AnswerCached(v, T_A);
          return true, pc;
        }
      }
      if dtype !in KNOWN_TYPES {
        if Usable(v.other, dtype) {
          pc := AnswerCached(v, dtype);
          return true, pc;
        }
      }
      found := false;
    }

    /** The run ends with these records behind the preface, unless there is no room for them. */
    ghost predicate AnsweredWith(pc: Pc, records: seq<Event>, b: Basis)
      reads `response, `chain, `ttls, `basis
    {
      && Answered(pc)
      && (pc == Done(1) ==> |chain| == |ttls| + 1 && response == Preface(chain, ttls) + records && basis == b)
    }

    /** A name from the cache, if there is one. */
    method AnyName() returns (d: Option<bytes>)
      ensures d.Some? ==> Storable(d.value)
    {
      var present: bool := *;
      if !present { return None; }
      assert Storable(ROOT);
      var e: bytes :| Storable(e);
      return Some(e);
    }

    /** What the configuration and the cache know about a name and its ancestors is arbitrary. */
    method AnyKnowledge(n: nat) returns (known: Knowledge)
      ensures |known| == n && Sensible(known)
    {
      known := seq(n, _ => Unknown);
      for o := 0 to n
        invariant |known| == n && Sensible(known)
      {
        var roots: bool, cached: bool := *, *;
        if roots {
          var ips: bytes := *;
          if |ips| == 64 { known := known[o := Configured(ips)]; }
        } else if cached {
          var data: bytes := *;
          if data != [] { known := known[o := Delegated(data)]; }
        }
      }
    }

    /** Whether cached servers may be used at this level. */
    function MayUse(): bool
      reads `level
    {
      !flagforwardonly && level < 2
    }

    /**
     * The closest zone around d whose servers are known has come under control: its configured addresses, or the
     * names in the cache; if there is none the query is given up.
     */
    ghost predicate IsZoned(pc: Pc, known: Knowledge, d: bytes)
      reads `level, `control, `servers, `ns
    {
      var mayUse := !flagforwardonly && level < 2;
      if NowhereKnown(d, known, mayUse) then pc == Die(NoZone(d, known, mayUse))
      else
        && 0 < |d| == |known| && IsName(d[0..])
        && var o := ZoneFrom(d, 0, known, mayUse).value;
           o < |known|
           && match known[o]
              case Configured(ips) => pc == HaveNs && ZoneIs(o, ips, [])
              case Delegated(data) =>
                pc == Die(NoMemory) || (pc == HaveNs && ZoneIs(o, seq(64, _ => 0), NamesIn(data, 0)))
              case Unknown => false
    }

    /** The zone under control, its addresses, and the names of its servers. */
    ghost predicate ZoneIs(o: nat, ips: bytes, found: seq<bytes>)
      reads `level, `control, `servers, `ns
    {
      level < |control| && level < |servers| && control[level] == o && servers[level] == ips && RowIs(found)
    }

    method FindZone(known: Knowledge) returns (pc: Pc)
      requires At(NewName) && |known| == |name[level].value| && Sensible(known)
      modifies `servers, `control, `ns, heap`live, heap`failed
      ensures At(pc) && AfterName(pc, level) && name == old(name)
      ensures IsZoned(pc, known, name[level].value)
    {
      hide Justified, IsName;
      hide Query.At, Query.RowIs;
      NameHere();
      var d, o, dlen := name[level].value, 0, |name[level].value|;
      assert d[0..] == d;
      NotEmpty(d);
      while true
        invariant At(NewName) && name == old(name) && o < |d| && IsName(d[o..]) && dlen == |d| - o
        invariant ZoneFrom(d, o, known, MayUse()) == ZoneFrom(d, 0, known, MayUse())
        decreases |d| - o
      {
        if known[o].Configured? {
          SetZone(o, known[o].ips);
          return HaveNs;
        }
        if !flagforwardonly && level < 2 && dlen < 255 {
          if known[o].Delegated? {
            SetZone(o, NO_SERVERS);
            var ok := FillRow(known[o].data);
            return if ok then HaveNs else Die(NoMemory);
          }
        }
        if d[o] == 0 {
          MayNoZone(d, known, MayUse());
          DiesNew(NoZone(d, known, MayUse()));
          return Die(NoZone(d, known, MayUse()));
        }
        var j := 1 + d[o] as nat;
        NextSuffix(d, o);
        dlen := dlen - j;
        o := o + j;
      }
    }

    lemma DiesNew(why: Reason)
      requires At(NewName) && Because(why)
      ensures At(Die(why))
    {
      hide Live, Preface, Justified, IsName, IsChain, Leads;
    }

    /** The zone under control begins at offset o of the name; its servers are new. */
    method SetZone(o: nat, ips: bytes)
      requires At(NewName) && o < |name[level].value| && IsName(name[level].value[o..]) && |ips| == 64
      modifies `servers, `control, `ns, heap`live
      ensures At(HaveNs) && control == old(control)[level := o] && servers == old(servers)[level := ips] && RowIs([])
      ensures level < |control| == |old(control)| && level < |servers| == |old(servers)|
    {
      hide Live, Preface, Justified, IsName, IsChain, Leads;
      hide Transmit.Owned, Transmit.Waiting;
      hide Query.Tells, Query.Denied, Query.Unanswered;
      FreeRow(level);
      control := control[level := o];
      servers := servers[level := ips];
    }

    /** This level's row holds the first 16 of the names, and nothing else. */
    ghost predicate RowIs(found: seq<bytes>)
      reads `ns, `level
    {
      level < MAXLEVEL && |ns| == MAXLEVEL * MAXNS && Row(ns, level) == RowOf(found)
    }

    /** Copies up to 16 names of servers from cached data into this level's row. */
    method FillRow(data: bytes) returns (ok: bool)
      requires At(HaveNs) && RowIs([])
      modifies `ns, heap`live, heap`failed
      ensures if ok then At(HaveNs) && RowIs(NamesIn(data, 0)) else At(Die(NoMemory))
    {
      hide NameAt, Storable, RowOf;
      hide Query.At, Query.RowIs;
      ghost var found := [];
      var pos: nat, j := 0, 0;
      while true
        invariant At(HaveNs) && RowIs(found) && j == (if |found| < MAXNS then |found| else MAXNS)
        invariant found + NamesIn(data, pos) == NamesIn(data, 0)
        decreases |data| - pos
      {
        var t1 := GetName(data, pos);
        if t1 == None {
          assert found + [] == found;
          return true;
        }
        NameAhead(data, pos);
        ReadStorable(data, pos);
        ok := AddToRow(found, t1.value.0, j);
        if !ok { return; }
        if j < MAXNS { j := j + 1; }
        found, pos := found + [t1.value.0], t1.value.1;
      }
    }

    /** Puts one more name into this level's row, unless it is full. */
    method AddToRow(ghost found: seq<bytes>, d: bytes, j: nat) returns (ok: bool)
      requires At(HaveNs) && RowIs(found) && j == (if |found| < MAXNS then |found| else MAXNS) && Storable(d)
      modifies `ns, heap`live, heap`failed
      ensures if ok then At(HaveNs) && RowIs(found + [d]) else At(Die(NoMemory))
    {
      hide Live, Preface, Justified, IsName, IsChain, Leads;
      hide Query.Tells, Query.Denied, Query.Unanswered;
      hide Row, RowOf;
      if j < MAXNS {
        RowEntry(ns, level, j, Some(d));
        OneMoreFound(found, d);
        ok := CopyNs(MAXNS * level + j, d);
        if !ok { return; }
      } else {
        RowFull(found, d);
      }
      ok := true;
    }

    // --- a packet ---------------------------------------------------------------------------------

    /**
     * HAVEPACKET. An alias is followed, a denial passed on, data used, and a referral followed if it leads strictly
     * down from the zone under control; otherwise the server is struck off and the others are asked again. Each is
     * decided by the bytes of the packet, as is giving up, but for the number of turns, memory and room.
     */
    method StepHavePacket(sameRoots: set<bytes>) returns (pc: Pc)
      requires At(HavePacket)
      modifies `loop, `servers, `name, `control, `ns, `alias, `response, `full, `basis, `learnt, `records
      modifies heap`live, heap`failed, dt`query, dt`packet, dt`s1, dt.os`open, dt.os`live
      ensures At(pc) && Advances(HavePacket, old(loop), level, pc, loop, level)
      ensures pc.Done? ==> pc == Done(1) && level == 0
      ensures pc == HaveNs ==> name == old(name)
      ensures if old(loop) + 1 == 100 then pc == Die(NoTurns)
              else Handles(pc, old(dt.packet.value), sameRoots, old(name)[level].value, old(servers), old(control),
                           old(Zone()))
      ensures !pc.Die? ==>
                var buf, d, dtype := old(dt.packet.value), old(name)[level].value, WantedType();
                && Complete(buf, d, dtype)
                && var scan := ScanOf(buf, d, dtype);
                   if OnlyReferral(scan) && !LeadsDown(scan.referral.value, old(Zone())) then learnt == old(learnt)
                   else Learns(buf, old(Zone()), sameRoots, old(learnt), learnt)
      ensures pc.Die? || StaysWithin(old(Zone()), sameRoots, old(learnt), learnt)
    {
      hide HasSuffix, Same, HeaderOk, Complete, ScanOf, Advances, Learns, StaysWithin, LeadsDown, RepliesAbout;
      hide Query.At, Query.Uses, Query.Zone;
      TakeTurn();
      AnotherTurn(Die(NoTurns), old(loop), level);
      if loop == MAXTURNS { return Die(NoTurns); }
      var buf := dt.packet.value;
      var scan, why := ScanReply();
      AnotherTurn(Die(why), old(loop), level);
      if scan == None { return Die(why); }
      pc := UseScan(buf, scan.value, sameRoots);
      AnotherTurn(pc, old(loop), level);
    }

    /** The first line of HAVEPACKET. */
    method TakeTurn()
      requires At(HavePacket)
      modifies `loop
      ensures loop == old(loop) + 1 && At(if loop == MAXTURNS then Die(NoTurns) else HaveNs)
      ensures dt.packet.Some? && dt.curserver < SERVERS && level < |name| && name[level].Some?
      ensures RepliesAbout(dt.packet.value, name[level].value, WantedType())
    {
      hide Live, Preface, Justified, IsName, IsChain, HeaderOk, RepliesAbout, Leads;
      loop := loop + 1;
    }

    /** Reads the answer and authority sections of the reply. */
    method ScanReply() returns (scan: Option<Scan>, why: Reason)
      requires At(HaveNs) && dt.packet.Some?
      modifies heap`live, heap`failed
      ensures level < MAXLEVEL == |name| && name[level].Some?
      ensures var buf, d, dtype := dt.packet.value, name[level].value, WantedType();
              if scan.Some? then At(HaveNs) && Complete(buf, d, dtype) && scan.value == ScanOf(buf, d, dtype)
              else At(Die(why))
                   && (why == NoMemory || (why == Unreadable(buf, d, dtype) && !Complete(buf, d, dtype)))
    {
      hide Live, Preface, Justified, IsName, IsChain, Complete, ScanOf, Leads;
      hide Query.Named, Query.Chained, Query.Controls, Query.Counted;
      NameOfLevel();
      var gotMemory: bool := *;
      var noMemory;
      scan, noMemory := ScanPacket(dt.packet.value, name[level].value, WantedType(), gotMemory);
      why := NoMemory;
      if scan == None {
        if noMemory {
          heap.Alloc(false);
        } else {
          why := Unreadable(dt.packet.value, name[level].value, WantedType());
          MayUnreadable(dt.packet.value, name[level].value, WantedType());
        }
      }
    }

    /** HAVEPACKET once the answer and authority sections have been read. */
    method UseScan(buf: bytes, scan: Scan, sameRoots: set<bytes>) returns (pc: Pc)
      requires At(HaveNs) && dt.curserver < SERVERS && Complete(buf, name[level].value, WantedType())
      requires RepliesAbout(buf, name[level].value, WantedType())
      requires scan == ScanOf(buf, name[level].value, WantedType())
      modifies `servers, `name, `control, `ns, `alias, `response, `full, `basis, `learnt, `records
      modifies heap`live, heap`failed, dt`query, dt`packet, dt`s1, dt.os`open, dt.os`live
      ensures At(pc) && AfterPacket(pc, level) && (pc == HaveNs ==> name == old(name))
      ensures Uses(pc, scan, buf, sameRoots, old(name)[level].value, old(servers), old(control), old(Zone()))
      ensures if OnlyReferral(scan) && !LeadsDown(scan.referral.value, old(Zone())) then learnt == old(learnt)
              else !pc.Die? ==> Learns(buf, old(Zone()), sameRoots, old(learnt), learnt)
      ensures pc.Die? || StaysWithin(old(Zone()), sameRoots, old(learnt), learnt)
    {
      hide IsName, HasSuffix, Same, Cleared, LeadsDown, Complete, ScanOf, Learns, StaysWithin, RepliesAbout;
      hide Query.At, Query.Settles, Query.Zone;
      NameOfLevel();
      ScanNames(buf, name[level].value, WantedType());
      if scan.alias == None && scan.rcode == 0 && !scan.flagout && scan.referral.Some? && !scan.flagsoa {
        var lame := IsLame(scan.referral.value);
        if lame {
          NothingAdded(Zone(), sameRoots, learnt);
          StrikeOff();
          return HaveNs;
        }
      }
      var why := TakeRecords(buf, sameRoots);
      if why.Some? { return Die(why.value); }
      pc := Conclude(buf, scan);
    }

    lemma NameOfLevel()
      requires At(HaveNs)
      ensures level < MAXLEVEL == |name| && name[level].Some? && Storable(name[level].value)
      ensures |servers| == MAXLEVEL && |servers[level]| == 64
    {
      hide Live, Preface, Justified, IsName, IsChain, Leads;
    }

    /** Where a packet leads: it is unreadable, or what can be read of it decides. */
    ghost predicate Handles(pc: Pc, buf: bytes, sameRoots: set<bytes>, d: bytes, servers0: seq<bytes>,
                            control0: seq<nat>, zone0: bytes)
      reads `level, `servers, `response, `chain, `ttls, `name, `control, `ns, `qtype, `basis, dt`curserver
    {
      if !Complete(buf, d, WantedType()) then pc == Die(NoMemory) || pc == Die(Unreadable(buf, d, WantedType()))
      else pc == Die(NoMemory)
           || Uses(pc, ScanOf(buf, d, WantedType()), buf, sameRoots, d, servers0, control0, zone0)
    }

    /** A lame server is struck off; otherwise the records are put into the cache, and the packet settles the rest. */
    ghost predicate Uses(pc: Pc, scan: Scan, buf: bytes, sameRoots: set<bytes>, d: bytes, servers0: seq<bytes>,
                         control0: seq<nat>, zone0: bytes)
      requires |buf| >= 12
      reads `level, `servers, `response, `chain, `ttls, `name, `control, `ns, `qtype, `basis, dt`curserver
    {
      if OnlyReferral(scan) && !LeadsDown(scan.referral.value, zone0) then
        && pc == HaveNs && control == control0 && dt.curserver < SERVERS
        && level < |servers0| && |servers0[level]| == 64
        && servers == servers0[level := Cleared(servers0[level], dt.curserver)]
      else
        || pc == Die(NoMemory) || pc == Die(Unlearnable(buf, zone0, sameRoots))
        || Settles(pc, scan, buf, d, servers0, control0)
    }

    /** The zone under control. */
    function Zone(): bytes
      reads `name, `control, `level
    {
      if level < |name| && level < |control| && name[level].Some? && control[level] < |name[level].value| then
        name[level].value[control[level]..]
      else []
    }

    /** What the packet decides when it is not from a lame server. */
    ghost predicate Settles(pc: Pc, scan: Scan, buf: bytes, d: bytes, servers0: seq<bytes>, control0: seq<nat>)
      requires |buf| >= 12
      reads `level, `servers, `response, `chain, `ttls, `name, `control, `ns, `qtype, `basis
    {
      if scan.alias.Some? then pc == Cname(scan.alias.value.0, scan.alias.value.1, FromPacket(buf))
      else if scan.rcode == 3 then pc == NxDomain(PacketDenies(buf))
      else if scan.flagout || scan.flagsoa || scan.referral == None then
        if level == 0 then PacketAnswer(pc, buf, d)
        else
          || pc == Die(CutAddress(buf, d))
          || (pc == LowerLevel && level <= |servers0| && |servers0[level - 1]| == 64
              && servers == servers0[level - 1 := AddedAll(servers0[level - 1], Addresses(buf, Answers(buf), d))])
      else Refers(pc, scan.referral.value, buf, d, control0)
    }

    /** The referral is followed to exactly the servers that the packet names for it. */
    ghost predicate Refers(pc: Pc, referral: bytes, buf: bytes, d: bytes, control0: seq<nat>)
      requires |buf| >= 12
      reads `level, `servers, `name, `control, `ns
    {
      IsName(d)
      && if !HasSuffix(d, referral) then pc == Die(OffPath(d, referral))
         else
           match ServersOf(buf, Authority(buf), referral)
           case None => pc == Die(NoMemory) || pc == Die(BadServer(buf, referral))
           case Some(found) =>
             || pc == Die(NoMemory)
             || (pc == HaveNs && level < |control0| && level < |control| && control[level] < control0[level]
                 && Same(Zone(), referral) && ZoneIs(control[level], seq(64, _ => 0), found))
    }

    /** The server that replied is struck off. */
    method StrikeOff()
      requires At(HaveNs) && dt.curserver < SERVERS
      modifies `servers
      ensures At(HaveNs) && servers == old(servers)[level := Cleared(old(servers)[level], dt.curserver)]
    {
      hide Live, Preface, Justified, IsName, IsChain, Cleared, Leads;
      servers := servers[level := Cleared(servers[level], dt.curserver)];
    }

    /** Whether a referral fails to lead strictly down from the zone under control. */
    method IsLame(referral: bytes) returns (lame: bool)
      requires At(HaveNs) && IsName(referral)
      ensures lame <==> !LeadsDown(referral, Zone())
    {
      hide Live, Preface, Justified, IsName, IsChain, HasSuffix, Same, Leads;
      var zone := name[level].value[control[level]..];
      var same := Equal(referral, zone);
      var below := Suffix(referral, zone);
      lame := same || !below;
    }

    /** The branches at the end of HAVEPACKET. */
    method Conclude(buf: bytes, scan: Scan) returns (pc: Pc)
      requires At(HaveNs) && Complete(buf, name[level].value, WantedType())
      requires RepliesAbout(buf, name[level].value, WantedType())
      requires scan == ScanOf(buf, name[level].value, WantedType())
      requires OnlyReferral(scan) ==> LeadsDown(scan.referral.value, Zone())
      modifies `servers, `name, `control, `ns, `alias, `response, `full, `basis, heap`live, heap`failed
      modifies dt`query, dt`packet, dt`s1, dt.os`open, dt.os`live
      ensures At(pc) && AfterPacket(pc, level) && (pc == HaveNs ==> name == old(name))
      ensures Settles(pc, scan, buf, old(name)[level].value, old(servers), old(control))
    {
      hide Live, Preface, Justified, IsName, IsChain, HasSuffix, Same, LeadsDown, RepliesAbout;
      hide Transmit.Owned, Transmit.Waiting;
      hide Query.Tells, Query.Unanswered;
      hide Given, Addresses, ServersOf, AddedAll, AnyCut;
      hide PacketRecords.AllThere, PacketRecords.Places, PacketRecords.EndOf, ScanOf, TargetsOk, SkipFrom;
      hide Query.Zone, Query.PacketAnswer, Query.Refers;
      ScanNames(buf, name[level].value, WantedType());
      if scan.alias.Some? { return Cname(scan.alias.value.0, scan.alias.value.1, FromPacket(buf)); }
      if scan.rcode == 3 { return NxDomain(PacketDenies(buf)); }
      if scan.flagout || scan.flagsoa || scan.referral == None {
        if level > 0 {
          var ok := AddAnswers(buf, AnswerStart(buf), Word16(buf, 6), name[level].value);
          if ok { return LowerLevel; }
          MayCutAddress(buf, name[level].value);
          return Die(CutAddress(buf, name[level].value));
        }
        pc := AnswerPacket(buf);
        return;
      }
      pc := Refer(buf, scan.referral.value);
    }

    /** The records are collected, sorted and put into the cache group by group. */
    method LearnRecords(buf: bytes, control: bytes, sameRoots: set<bytes>) returns (ok: bool)
      requires |buf| >= 12 && IsName(control)
      modifies `learnt
      ensures if ok then Learns(buf, control, sameRoots, old(learnt), learnt)
                         && StaysWithin(control, sameRoots, old(learnt), learnt)
              else !Learnable(buf, control, sameRoots) && learnt == old(learnt)
    {
      hide PacketRecords.AllThere, PacketRecords.GroupsOk, PacketRecords.Places, PacketCache.LearntFrom;
      hide AnswerStart, Word16, IsName;
      var saved, groups;
      var k := Word16(buf, 6) + Word16(buf, 8) + Word16(buf, 10);
      ok, saved, groups := PacketCache.LearnPacket(buf, AnswerStart(buf), k, control, sameRoots);
      if ok {
        learnt := learnt + saved;
        PacketCache.LearntInZone(buf, groups, control, sameRoots);
        AddedWithin(control, sameRoots, old(learnt), saved);
      }
    }

    /** The list of record positions is allocated, used and freed. */
    method TakeRecords(buf: bytes, sameRoots: set<bytes>) returns (why: Option<Reason>)
      requires At(HaveNs) && |buf| >= 12
      modifies `records, `learnt, heap`live, heap`failed
      ensures match why
              case None =>
                At(HaveNs) && Learns(buf, Zone(), sameRoots, old(learnt), learnt)
                && StaysWithin(Zone(), sameRoots, old(learnt), learnt)
              case Some(reason) =>
                At(Die(reason)) && learnt == old(learnt)
                && (reason == NoMemory || reason == Unlearnable(buf, Zone(), sameRoots))
    {
      hide Justified, Learns, StaysWithin, Learnable, Query.At, Query.Listing, Query.Zone;
      ZoneName();
      var ok := AllocRecords();
      if !ok { return Some(NoMemory); }
      ok := LearnRecords(buf, Zone(), sameRoots);
      if !ok {
        MayUnlearnable(buf, Zone(), sameRoots);
        DiesListing(Unlearnable(buf, Zone(), sameRoots));
        return Some(Unlearnable(buf, Zone(), sameRoots));
      }
      FreeRecords();
      return None;
    }

    /** The list of record positions is allocated. */
    ghost predicate Listing()
      reads `loop, `level, `name, `control, `ns, `servers, `alias, `aliasttl, `localip, `qtype, `records, `chain, `ttls
      reads `full, heap`live, heap`failed, dt`s1, dt`query, dt`packet, dt.os`open, dt.os`live
    {
      Valid() && Sound() && Named() && Chained() && Controls(level + 1) && records && loop < MAXTURNS
    }

    method AllocRecords() returns (ok: bool)
      requires At(HaveNs)
      modifies `records, heap`live, heap`failed
      ensures if ok then Listing() else At(Die(NoMemory))
    {
      hide Live, Preface, Justified, IsName, IsChain, Leads;
      hide Query.Tells, Query.Denied, Query.Unanswered;
      hide Query.Named, Query.Chained, Query.Controls;
      ok := *;
      heap.Alloc(ok);
      if ok { records := true; }
    }

    method FreeRecords()
      requires Listing()
      modifies `records, heap`live
      ensures At(HaveNs)
    {
      hide Live, Preface, Justified, IsName, IsChain, Leads;
      hide Query.Tells, Query.Denied, Query.Unanswered;
      hide Query.Named, Query.Chained, Query.Controls;
      heap.Free();
      records := false;
    }

    lemma DiesListing(why: Reason)
      requires Listing() && Because(why)
      ensures At(Die(why))
    {
      hide Live, Preface, Justified, IsName, IsChain, Leads;
    }

    lemma ZoneName()
      requires At(HaveNs)
      ensures IsName(Zone())
    {
      hide Live, Preface, Justified, IsName, IsChain, Leads;
    }

    lemma ZoneFacts()
      requires At(HaveNs)
      ensures At(NewName) && level < |name| && name[level].Some? && IsName(name[level].value) && level < |control|
      ensures control[level] < |name[level].value| && IsName(name[level].value[control[level]..])
    {
      hide Live, Preface, Justified, IsName, IsChain, Leads;
    }

    /** The end of HAVEPACKET: a referral becomes the zone under control. */
    method Refer(buf: bytes, referral: bytes) returns (pc: Pc)
      requires At(HaveNs) && LeadsDown(referral, Zone()) && |buf| >= 12
      requires PacketRecords.AllThere(buf, AuthorityStart(buf), Word16(buf, 8))
      modifies `control, `servers, `ns, heap`live, heap`failed
      ensures At(pc) && (pc.Die? || pc == HaveNs)
      ensures Refers(pc, referral, buf, name[level].value, old(control))
    {
      hide Justified, IsName, HasSuffix, Same;
      hide PacketRecords.AllThere, PacketRecords.Places, PacketRecords.EndOf, ServersOf;
      hide Query.At, Query.RowIs;
      ZoneFacts();
      var d, was := name[level].value, control[level];
      var below := Suffix(d, referral);
      if !below {
        MayOffPath(d, referral);
        Dies(OffPath(d, referral));
        return Die(OffPath(d, referral));
      }
      var pos := SuffixPos(d, referral);
      SuffixLonger(referral, d[was..]);
      SameLength(d[pos..], referral);
      SetZone(pos, NO_SERVERS);
      var why := FillFromPacket(buf, referral);
      return if why == None then HaveNs else Die(why.value);
    }

    /** Copies up to 16 names of servers of this zone from a packet into this level's row. */
    method FillFromPacket(buf: bytes, zone: bytes) returns (why: Option<Reason>)
      requires At(HaveNs) && RowIs([]) && IsName(zone) && |buf| >= 12
      requires PacketRecords.AllThere(buf, AuthorityStart(buf), Word16(buf, 8))
      modifies `ns, heap`live, heap`failed
      ensures var found := ServersOf(buf, Authority(buf), zone);
              match why
              case None => At(HaveNs) && found.Some? && RowIs(found.value)
              case Some(reason) =>
                At(Die(reason)) && (reason == NoMemory || (reason == BadServer(buf, zone) && found == None))
    {
      hide IsName, NameAt, Storable, Same, RowOf, Query.At, Query.RowIs, AuthorityStart, Word16;
      hide ServersOf, PacketRecords.Parse, PacketRecords.Places, PacketRecords.Reached, PacketRecords.AllThere;
      var pos, n := AuthorityStart(buf), Word16(buf, 8);
      ghost var s := Authority(buf);
      ghost var found: seq<bytes> := [];
      var at: nat, k := pos, 0;
      PacketRecords.ReachedFirst(buf, pos, n);
      NoServers(buf, s, zone);
      for j := 0 to n
        invariant At(HaveNs) && PacketRecords.Reached(buf, pos, n, j, at)
        invariant ServersOf(buf, s[..j], zone) == Some(found) && RowIs(found) && k == |found| <= MAXNS
      {
        PacketRecords.ReachedNext(buf, pos, n, j, at);
        OneMoreServer(buf, s, j, zone);
        var read := PacketRecords.ReadRecord(buf, at);
        PacketRecords.ParseShape(buf, at);
        var r := read.value;
        var same := Equal(zone, r.owner);
        SameSymmetric(zone, r.owner);
        if same && r.head[..2] == T_NS && r.head[2..] == IN && k < MAXNS {
          var t := GetName(buf, r.after + 10);
          if t == None {
            ServersStop(buf, s, j + 1, zone);
            MayBadServer(buf, zone);
            Dies(BadServer(buf, zone));
            return Some(BadServer(buf, zone));
          }
          ReadStorable(buf, r.after + 10);
          var ok := AddToRow(found, t.value.0, k);
          if !ok { return Some(NoMemory); }
          found, k := found + [t.value.0], k + 1;
        }
        at := r.after + 10 + r.datalen;
      }
      assert s[..n] == s;
      return None;
    }

    lemma Dies(why: Reason)
      requires At(HaveNs) && Because(why)
      ensures At(Die(why))
    {
      hide Live, Preface, Justified, IsName, IsChain, Leads;
    }

    // --- runs -------------------------------------------------------------------------------------

    /** One goto, whatever the cache, the configuration and the memory are like. */
    method Step(pc0: Pc) returns (pc: Pc)
      requires At(pc0) && Trail(pc0) && !pc0.Done?
      modifies `loop, `level, `name, `control, `ns, `servers, `alias, `aliasttl, `records, `response, `chain, `ttls
      modifies `links, `views, `full, `why, `basis, `learnt, heap, dt, dt.os
      ensures At(pc) && Advances(pc0, old(loop), old(level), pc, loop, level) && old(chain) <= chain
      ensures Trail(pc) && old(views) <= views
      ensures pc == Done(0) ==> pc0 == HaveNs && loop == old(loop) && level == old(level)
      ensures pc == Done(-1) ==> pc0 == Die(why)
    {
      hide Live, Preface, Justified, IsName, IsChain, Advances, Same, Leads;
      hide Query.At, Query.LooksUp, Query.Handles, Query.Linked;
      match pc0 {
        case NewName => pc := FromView();
        case HaveNs => pc := StepHaveNs();
        case LowerLevel => pc := StepLowerLevel();
        case HavePacket => pc := FromReply();
        case Cname(cname, ttl, link) => pc := LinkAlias(cname, ttl, link);
        case NxDomain(b) => pc := StepNxDomain(b);
        case ServFail(b) => pc := StepServFail(b);
        case Die(why) => pc := StepDie(why);
      }
    }

    /** NEWNAME with what the cache happens to hold. */
    method FromView() returns (pc: Pc)
      requires At(NewName) && Linked()
      modifies `loop, `servers, `control, `name, `ns, `alias, `response, `full, `basis, `views, heap`live, heap`failed
      modifies dt`query, dt`packet, dt`s1, dt.os`open, dt.os`live
      ensures At(pc) && Advances(NewName, old(loop), level, pc, loop, level)
      ensures pc.Done? ==> pc == Done(1)
      ensures Trail(pc) && old(views) <= views
    {
      hide Live, Preface, Justified, IsName, IsChain, Advances, Same, Leads;
      hide Rests;
      hide Query.At, Query.LooksUp;
      NameHere();
      var v := AnyView();
      var gotMemory: bool := *;
      var known := AnyKnowledge(|name[level].value|);
      ghost var d, servers0 := name[level].value, servers;
      pc := StepNewName(v, gotMemory, known);
      if pc != Die(NoTurns) {
        LooksUpRests(pc, v, gotMemory, known, d, servers0);
      }
    }

    /** HAVEPACKET with the packet that has come. */
    method FromReply() returns (pc: Pc)
      requires At(HavePacket) && Trail(HavePacket)
      modifies `loop, `servers, `name, `control, `ns, `alias, `response, `full, `basis, `learnt, `records
      modifies heap`live, heap`failed, dt`query, dt`packet, dt`s1, dt.os`open, dt.os`live
      ensures At(pc) && Advances(HavePacket, old(loop), level, pc, loop, level)
      ensures pc.Done? ==> pc == Done(1)
      ensures Trail(pc)
    {
      hide Live, Preface, Justified, IsName, IsChain, Advances, Same, Leads;
      hide Query.At, Query.Handles, Query.Linked;
      var sameRoots: set<bytes> := *;
      PacketName();
      ghost var buf, d, servers0, control0, zone0 := dt.packet.value, name[level].value, servers, control, Zone();
      pc := StepHavePacket(sameRoots);
      if pc != Die(NoTurns) {
        HandlesRests(pc, buf, sameRoots, d, servers0, control0, zone0);
      }
    }

    lemma PacketName()
      requires At(HavePacket)
      ensures level < |name| && name[level].Some? && dt.packet.Some?
    {
      hide Live, Preface, Justified, IsName, IsChain, Leads;
    }

    /** CNAME, which at level 0 adds a step to the chain. */
    method LinkAlias(cname: bytes, ttl: uint32, link: Link) returns (pc: Pc)
      requires At(Cname(cname, ttl, link)) && Linked() && Heard(link, views, packets)
      modifies `name, `alias, `aliasttl, `chain, `ttls, `links, heap`live, heap`failed
      ensures At(pc) && Advances(Cname(cname, ttl, link), loop, level, pc, loop, level)
      ensures (pc == NewName || pc.Die?) && Linked() && old(chain) <= chain
    {
      hide Live, Preface, Justified, IsName, IsChain, Advances, Leads, Rests;
      hide Query.At;
      LinkHere(cname, ttl, link);
      if level == 0 {
        RestsMore(chain, ttls, links, qtype, cname, ttl, link);
      }
      pc := StepCname(cname, ttl, link);
    }

    lemma LinkHere(cname: bytes, ttl: uint32, link: Link)
      requires At(Cname(cname, ttl, link))
      ensures level == 0 ==> |chain| == |ttls| + 1 && Leads(link, chain[|ttls|], qtype, cname, ttl)
    {
      hide Live, Preface, Justified, IsName, Leads;
    }

    lemma LooksUpRests(pc: Pc, v: CacheView, gotMemory: bool, known: Knowledge, d: bytes, servers0: seq<bytes>)
      requires LooksUp(pc, v, gotMemory, known, d, servers0) && v in views && Linked()
      ensures Trail(pc)
    {
      hide IsName, Local, InCache, Leads, Preface, CachedRecords, ZoneFrom;
      hide Query.Linked;
    }

    lemma HandlesRests(pc: Pc, buf: bytes, sameRoots: set<bytes>, d: bytes, servers0: seq<bytes>, control0: seq<nat>,
                       zone0: bytes)
      requires Handles(pc, buf, sameRoots, d, servers0, control0, zone0) && buf in packets && Linked()
      ensures Trail(pc)
    {
      hide IsName, Complete, ScanOf, Leads, Preface, HasSuffix, LeadsDown, Given;
      hide Query.Linked;
    }

    /**
     * doit, which always comes to an end: with 0 it waits for a reply and the pair (100 - loop, level) has become
     * smaller; with 1 there is an answer that begins with the question asked; with -1 there is a reason; 1 and -1
     * leave nothing allocated.
     */
    method Doit(state: int) returns (r: int)
      requires state == 0 || state == 1 || state == -1
      requires var pc0 := if state == 1 then HavePacket else if state == -1 then ServFail(NotReached) else NewName;
               At(pc0) && Trail(pc0)
      modifies `loop, `level, `name, `control, `ns, `servers, `alias, `aliasttl, `records, `response, `chain, `ttls
      modifies `links, `views, `full, `why, `basis, `learnt, heap, dt, dt.os
      ensures At(Done(r)) && Trail(Done(r)) && -1 <= r <= 1
      ensures r == 0 ==> loop > old(loop) || (loop == old(loop) && level < old(level))
      ensures old(chain) <= chain
    {
      hide Live, Preface, Justified, IsName, IsChain, Leads;
      hide Query.At, Query.Trail;
      hide Advances;
      var pc := if state == 1 then HavePacket else if state == -1 then ServFail(NotReached) else NewName;
      Bounds(pc);
      while !pc.Done?
        invariant At(pc) && Trail(pc) && Further(pc, loop, level, old(loop), old(level)) && old(chain) <= chain
        invariant Phase(pc) == 2 ==> loop < MAXTURNS
        invariant loop <= MAXTURNS && (pc.Done? ==> -1 <= pc.r <= 1)
        decreases Phase(pc), MAXTURNS - Turn(pc, loop), level, Rank(pc)
      {
        ghost var pc0, loop0, level0 := pc, loop, level;
        pc := Step(pc);
        GoesOn(pc0, loop0, level0, pc, loop, level, old(loop), old(level));
        Bounds(pc);
      }
      r := pc.r;
    }

    lemma Bounds(pc: Pc)
      requires At(pc)
      ensures loop <= MAXTURNS && (Phase(pc) == 2 ==> loop < MAXTURNS)
      ensures pc.Done? ==> -1 <= pc.r <= 1
    {
      hide Live, Preface, Justified, IsName, IsChain, Leads;
    }

    /** query_start. */
    method Start(dn: bytes, qtype: bytes, localip: bytes) returns (r: int)
      requires Valid() && !records && Storable(dn) && |qtype| == 2 && |localip| == 4
      modifies this, heap, dt, dt.os
      ensures qtype == T_AXFR ==> r == -1 && unchanged(this, heap, dt, dt.os)
      ensures qtype != T_AXFR ==> At(Done(r)) && Trail(Done(r)) && -1 <= r <= 1
      ensures qtype != T_AXFR && r >= 0 ==> chain != [] && chain[0] == dn && this.qtype == qtype
      ensures r == 0 ==> loop > 0
    {
      hide Live, Preface, Justified, IsName, IsChain, Leads;
      if qtype == T_AXFR { return -1; }
      var ok := Begin(dn, qtype, localip);
      if !ok { return -1; }
      r := Doit(0);
    }

    /** query_start before its call of doit. */
    method Begin(dn: bytes, qtype: bytes, localip: bytes) returns (ok: bool)
      requires Valid() && !records && Storable(dn) && |qtype| == 2 && |localip| == 4
      modifies `level, `loop, `name, `ns, `alias, `qtype, `localip, `chain, `ttls, `full, `why, heap`live, heap`failed
      modifies `links, `views, `packets, dt`query, dt`packet, dt`s1, dt.os`open, dt.os`live
      ensures if ok then At(NewName) && chain == [dn] && this.qtype == qtype && loop == level == 0 else At(Done(-1))
      ensures Linked() && views == [] && packets == []
    {
      hide Live, Preface, Justified, IsName, IsChain, Leads;
      hide Transmit.Waiting;
      hide Query.Named, Query.Counted;
      heap.failed, full, why := false, false, NoMemory;
      ok := FirstName(dn);
      if ok { NoteQuestion(dn, qtype, localip); }
      Forget(dn);
    }

    /** Nothing has been heard yet. */
    ghost method Forget(dn: bytes)
      modifies `chain, `ttls, `links, `views, `packets
      ensures chain == [dn] && ttls == [] && Linked() && views == [] && packets == []
    {
      chain, ttls, links, views, packets := [dn], [], [], [], [];
    }

    method NoteQuestion(dn: bytes, qtype: bytes, localip: bytes)
      requires Valid() && Sound() && Named() && !records && loop == level == 0 && |qtype| == 2 && |localip| == 4
      requires |name| > 0 && name[0] == Some(dn) && |alias| == MAXALIAS
      requires forall k :: 0 <= k < MAXALIAS ==> alias[k] == None
      modifies `qtype, `localip, `chain, `ttls
      ensures At(NewName) && chain == [dn] && ttls == [] && this.qtype == qtype
    {
      hide Live, Preface, Justified, IsName, IsChain, Leads;
      hide Transmit.Owned, Transmit.Waiting;
      hide Query.Tells, Query.Denied, Query.Unanswered;
      hide Query.Named, Query.Counted;
      this.qtype, this.localip := qtype, localip;
      chain, ttls := [dn], [];
      NewChain(dn, alias, aliasttl);
    }

    method FirstName(dn: bytes) returns (ok: bool)
      requires Valid() && !records && Storable(dn)
      modifies `level, `loop, `name, `ns, `alias, heap`live, heap`failed
      modifies dt`query, dt`packet, dt`s1, dt.os`open, dt.os`live
      ensures Valid() && !records && loop == level == 0 && |alias| == MAXALIAS
      ensures heap.failed == (old(heap.failed) || !ok)
      ensures !ok ==> Clean()
      ensures ok ==> Named() && |name| > 0 && name[0] == Some(dn) && forall k :: 0 <= k < MAXALIAS ==> alias[k] == None
    {
      hide Live, Preface, Justified, IsName, IsChain, Leads;
      Cleanup();
      level, loop := 0, 0;
      ok := CopyName(0, dn);
    }

    /** One event of the transmission: a packet, the end of all attempts, or waiting on. */
    method TakeEvent(revents: bool, stamp: int) returns (t: int)
      requires Waiting()
      modifies dt, dt.os
      ensures -1 <= t <= 1
      ensures t == 1 ==> At(HavePacket) && dt.packet.Some?
      ensures t == -1 ==> At(ServFail(NotReached))
      ensures t == 0 ==> Waiting() && dt.Number() >= old(dt.Number())
                         && (!revents && stamp >= old(dt.deadline) ==> dt.Number() > old(dt.Number()))
    {
      hide Live, Preface, Justified, IsName, IsChain, HeaderOk, Relevant, Acceptable, Grounded, Told, RepliesAbout;
      hide Leads;
      hide Query.Tells, Query.Denied, Query.Named, Query.Chained, Query.Counted;
      NameWaiting();
      MayNotReached(name[level].value, WantedType());
      ghost var asked := dt.query;
      t := dt.Get(revents, stamp);
      if t == 1 {
        AcceptedHeader(asked.value, dt.qtype, dt.packet.value);
        AcceptedAbout(asked.value, dt.recursive, dt.name, dt.qtype, dt.packet.value);
      }
    }

    lemma NameWaiting()
      requires Waiting()
      ensures level < |name| && name[level].Some? && IsName(name[level].value)
    {
      hide Live, Preface, IsName, IsChain;
    }

    /** query_get: passes on what the transmission has come to. */
    method Get(revents: bool, stamp: int) returns (r: int)
      requires Waiting() && Linked()
      modifies `loop, `level, `name, `control, `ns, `servers, `alias, `aliasttl, `records, `response, `chain, `ttls
      modifies `links, `views, `packets, `full, `why, `basis, `learnt, heap, dt, dt.os
      ensures At(Done(r)) && Trail(Done(r)) && -1 <= r <= 1 && old(chain) <= chain
      ensures r == 0 ==>
                || loop > old(loop) || (loop == old(loop) && level < old(level))
                || (loop == old(loop) && level == old(level) && dt.Number() >= old(dt.Number())
                    && (!revents && stamp >= old(dt.deadline) ==> dt.Number() > old(dt.Number())))
    {
      hide Rests;
      hide Query.At, Query.Waiting;
      var t := TakeEvent(revents, stamp);
      if t == 1 {
        packets := packets + [dt.packet.value];
        r := Doit(1);
      } else if t == -1 {
        r := Doit(-1);
      } else {
        StillWaiting();
        r := 0;
      }
    }

    lemma StillWaiting()
      requires Waiting()
      ensures At(Done(0))
    {
      hide Live, Preface, Justified, IsName, IsChain, Told, Leads;
    }

    /**
     * A whole query, as a server drives it, for any sequence of wake-ups, until it ends or there are no more. An answer
     * begins with the question asked, followed by the chain of aliases from it; a failure has a reason; both leave
     * nothing open or allocated. Whatever the wake-ups, there are fewer than 40500 timeouts before the end.
     */
    method Run(dn: bytes, qtype: bytes, localip: bytes, wakeups: seq<Wakeup>) returns (r: int, ghost timeouts: nat)
      requires Valid() && !records && Storable(dn) && |qtype| == 2 && |localip| == 4 && qtype != T_AXFR
      modifies this, heap, dt, dt.os
      ensures -1 <= r <= 1
      ensures r != 0 ==> Clean() && heap.live == 0 && dt.os.open == {} && dt.os.live == 0
      ensures r == 1 ==> Tells() && chain[0] == dn && this.qtype == qtype && Linked() && HeardBasis(basis)
      ensures r == 1 && (basis.CacheDenies? || basis.PacketDenies?) ==>
                response == Preface(chain, ttls) + [NoSuchName]
      ensures r == 1 && (basis.NoneLeft? || basis.NotReached?) ==> response == Preface(chain, ttls) + [Failure]
      ensures r == -1 ==> Because(why)
      ensures r == 0 ==> Waiting() && timeouts < MAXTURNS * MAXLEVEL * 81
    {
      hide Query.At, Query.Waiting, Query.Tells, Query.Linked;
      timeouts := 0;
      r := Start(dn, qtype, localip);
      if r == 0 { NumberBound(); }
      for j := 0 to |wakeups|
        invariant At(Done(r)) && Trail(Done(r)) && -1 <= r <= 1
        invariant r >= 0 ==> chain != [] && chain[0] == dn && this.qtype == qtype
        invariant r == 0 ==> timeouts + Left() < MAXTURNS * MAXLEVEL * 81
      {
        if r != 0 { break; }
        NumberBound();
        RunEnds(0);
        ghost var late := !wakeups[j].revents && wakeups[j].stamp >= dt.deadline;
        r := Get(wakeups[j].revents, wakeups[j].stamp);
        if r == 0 { NumberBound(); }
        if late { timeouts := timeouts + 1; }
      }
      RunEnds(r);
      if r == 0 { NumberBound(); }
    }

    /** What there is when a call of doit has returned. */
    lemma RunEnds(r: int)
      requires At(Done(r)) && -1 <= r <= 1
      ensures if r == 0 then Waiting()
              else Clean() && heap.live == 0 && dt.os.open == {} && dt.os.live == 0
      ensures r == 1 ==> Tells()
      ensures r == 1 && (basis.CacheDenies? || basis.PacketDenies?) ==> response == Preface(chain, ttls) + [NoSuchName]
      ensures r == 1 && (basis.NoneLeft? || basis.NotReached?) ==> response == Preface(chain, ttls) + [Failure]
      ensures r == -1 ==> Because(why)
    {
      hide Live, Preface, Justified, IsName, IsChain, Grounded, Leads;
      if r != 0 { NothingLive(); }
      if r == 1 {
        assert response == Preface(chain, ttls) + response[|Preface(chain, ttls)|..];
      }
    }

    /** How many timeouts a waiting query can still have. */
    ghost function Left(): int
      reads `loop, `level, dt`tcpstate, dt`udploop, dt`curserver
    {
      ((MAXTURNS - loop) * MAXLEVEL + level) * 81 + 80 - dt.Number()
    }

    lemma NumberBound()
      requires At(Done(0))
      ensures 0 <= dt.Number() < 80 && loop < MAXTURNS && level < MAXLEVEL
    {
      hide Live, Preface, Justified, IsName, IsChain, Leads;
    }

    lemma NothingLive()
      requires Valid() && Clean()
      ensures heap.live == 0 && dt.os.open == {} && dt.os.live == 0
    {
      LiveNone(name);
      LiveNone(ns);
      LiveNone(alias);
    }
  }

  /** The address that a name stands for without being looked up. */
  function AddressOf(d: bytes): Option<bytes>
    requires IsName(d)
  {
    if Same(d, LOCALHOST) then Some(LOOPBACK) else DottedFrom(d, 4)
  }

  /** globalip. */
  method GlobalIp(d: bytes) returns (ip: Option<bytes>)
    requires IsName(d)
    ensures ip == AddressOf(d) && (ip.Some? ==> |ip.value| == 4)
  {
    hide NameOf, DottedFrom, Same;
    var same := Equal(d, LOCALHOST);
    if same { return Some(LOOPBACK); }
    ip := Dd(d);
  }

  /** A record with a ttl of a week and a bit, if this type is wanted. */
  function LocalAnswer(d: bytes, rtype: bytes, dtype: bytes, data: Part): (r: seq<Event>)
    ensures |r| <= 1
  {
    if TypeMatch(rtype, dtype) then [Record(d, rtype, LOCAL_TTL, [data])] else []
  }

  /** The attempts that a query for a name of this length may use at once. */
  function Range(len: nat, recursive: bool): (nat, nat) {
    if len + 16 > 512 then (64, ATTEMPTS) else (if recursive then 16 else 0, 64)
  }

  lemma NotEmpty(d: bytes)
    requires IsName(d)
    ensures d != []
  {
  }

  lemma NextSuffix(d: bytes, o: nat)
    requires o < |d| && IsName(d[o..]) && d[o] != 0
    ensures o + 1 + d[o] as nat < |d| && IsName(d[o + 1 + d[o] as nat..])
  {
    assert Parent(d[o..]) == d[o + 1 + d[o] as nat..];
    NotEmpty(Parent(d[o..]));
  }

  /** The cache has a denial, an alias or data for the name. */
  predicate InCache(v: CacheView, d: bytes, dtype: bytes) {
    |d| <= 255 && (v.nxdomain || v.cname.Some? || Hit(v, dtype).Some?)
  }

  /** How the beginning of a turn can end. */
  predicate AfterName(pc: Pc, level: nat) {
    pc.Cname? || pc.NxDomain? || pc == HaveNs || pc.Die? || pc == if level > 0 then LowerLevel else Done(1)
  }

  /** How the handling of a packet can end. */
  predicate AfterPacket(pc: Pc, level: nat) {
    pc.Cname? || pc.NxDomain? || pc == HaveNs || pc.Die? || pc == if level > 0 then LowerLevel else Done(1)
  }

  lemma AnotherTurn(pc: Pc, loop: nat, level: nat)
    requires AfterPacket(pc, level)
    ensures Advances(HavePacket, loop, level, pc, loop + 1, level)
    ensures pc.Done? ==> pc == Done(1) && level == 0
  {
  }

  /** The records of a packet that are believed have been put into the cache, group by group. */
  ghost predicate Learns(buf: bytes, control: bytes, sameRoots: set<bytes>, before: seq<PacketCache.Saved>,
                         after: seq<PacketCache.Saved>)
    requires |buf| >= 12
  {
    var pos, k := AnswerStart(buf), Word16(buf, 6) + Word16(buf, 8) + Word16(buf, 10);
    && PacketRecords.AllThere(buf, pos, k)
    && exists groups, saved ::
         && PacketRecords.GroupsOk(buf, PacketRecords.Places(buf, pos, k), groups, k)
         && PacketCache.LearntFrom(buf, groups, control, sameRoots) == Some(saved) && after == before + saved
  }

  /** Whatever has been added is owned by a name in the zone, or below it, that is served by the same servers. */
  ghost predicate StaysWithin(zone: bytes, sameRoots: set<bytes>, before: seq<PacketCache.Saved>,
                              after: seq<PacketCache.Saved>)
  {
    && before <= after
    && forall i :: |before| <= i < |after| ==>
         IsName(after[i].owner) && HasSuffix(after[i].owner, zone) && after[i].owner in sameRoots
  }

  lemma AddedWithin(zone: bytes, sameRoots: set<bytes>, before: seq<PacketCache.Saved>, saved: seq<PacketCache.Saved>)
    requires forall s :: s in saved ==> IsName(s.owner) && HasSuffix(s.owner, zone) && s.owner in sameRoots
    ensures StaysWithin(zone, sameRoots, before, before + saved)
  {
    hide IsName, HasSuffix;
    var after := before + saved;
    forall i | |before| <= i < |after|
      ensures IsName(after[i].owner) && HasSuffix(after[i].owner, zone) && after[i].owner in sameRoots
    {
      assert after[i] == saved[i - |before|];
    }
  }

  lemma NothingAdded(zone: bytes, sameRoots: set<bytes>, learnt: seq<PacketCache.Saved>)
    ensures StaysWithin(zone, sameRoots, learnt, learnt)
  {
    assert learnt <= learnt;
  }

  /** The packet holds nothing but a referral. */
  predicate OnlyReferral(scan: Scan) {
    scan.alias == None && scan.rcode == 0 && !scan.flagout && scan.referral.Some? && !scan.flagsoa
  }

  /** A referral to a zone strictly below this one. */
  predicate LeadsDown(referral: bytes, zone: bytes) {
    IsName(referral) && HasSuffix(referral, zone) && !Same(referral, zone)
  }

  /** A name that has been read is short enough to be stored. */
  lemma ReadStorable(buf: bytes, pos: nat)
    requires NameAt(buf, pos).Some?
    ensures Storable(NameAt(buf, pos).value.0)
  {
    NameAtIsName(buf, pos);
  }

  /** The checks made on a reply leave no other response codes and a question; the code says as much. */
  lemma AcceptedHeader(query: bytes, qtype: bytes, buf: bytes)
    requires |query| >= 18 && Acceptable(query, qtype, buf)
    ensures HeaderOk(buf)
  {
    hide NameAt, SkipFrom, Same;
    GetNameSkipName(buf, 12);
  }

  /** The names found in a packet are short enough to be stored. */
  lemma ScanNames(buf: bytes, d: bytes, dtype: bytes)
    requires Complete(buf, d, dtype)
    ensures |buf| >= 12
    ensures var scan := ScanOf(buf, d, dtype);
            && (scan.rcode == 0 || scan.rcode == 3)
            && (scan.alias.Some? ==> Storable(scan.alias.value.0))
            && (scan.referral.Some? ==> Storable(scan.referral.value))
  {
    LastAliasStorable(buf, Answers(buf), d, dtype);
    LastZoneStorable(buf, Authority(buf));
  }

  lemma {:induction false} LastAliasStorable(buf: bytes, s: seq<nat>, d: bytes, dtype: bytes)
    ensures var alias := LastAlias(buf, s, d, dtype); alias.Some? ==> Storable(alias.value.0)
  {
    hide Storable, NameAt, Aliases;
    if s != [] {
      var p := s[|s| - 1];
      if Target(buf, p).Some? {
        ReadStorable(buf, PacketRecords.After(buf, p) + 10);
      }
      LastAliasStorable(buf, s[..|s| - 1], d, dtype);
    }
  }

  lemma {:induction false} LastZoneStorable(buf: bytes, s: seq<nat>)
    ensures var zone := LastZone(buf, s); zone.Some? ==> Storable(zone.value)
  {
    hide Storable, NameAt;
    if s != [] {
      var p := s[|s| - 1];
      if HasType(buf, p, T_NS) {
        ReadStorable(buf, p);
      }
      LastZoneStorable(buf, s[..|s| - 1]);
    }
  }

  lemma SameSymmetric(d: bytes, e: bytes)
    ensures Same(d, e) <==> Same(e, d)
  {
  }

  /** Slot k is emptied. */
  function Cleared(s: bytes, k: nat): (r: bytes)
    requires |s| == 64 && k < SERVERS
    ensures |r| == 64
  {
    s[..4 * k] + [0, 0, 0, 0] + s[4 * k + 4..]
  }

  lemma SameLength(d: bytes, e: bytes)
    requires Same(d, e)
    ensures |d| == |e|
  {
    assert |LowerAll(d)| == |LowerAll(e)|;
  }

  /** A name is longer than its proper ancestors. */
  lemma {:induction false} SuffixLonger(big: bytes, little: bytes)
    requires IsName(big) && HasSuffix(big, little)
    ensures |big| >= |little| && (!Same(big, little) ==> |big| > |little|)
    decreases |big|
  {
    if Same(big, little) {
      SameLength(big, little);
    } else {
      SuffixLonger(Parent(big), little);
    }
  }

  lemma NewChain(d: bytes, alias: Names, aliasttl: seq<uint32>)
    requires |alias| == |aliasttl| == MAXALIAS && forall k :: 0 <= k < MAXALIAS ==> alias[k] == None
    ensures IsChain(d, alias, aliasttl, [d], [])
  {
  }

  /** The first empty slot from number k on is filled. */
  function Added(s: bytes, ip: bytes, k: nat): (r: bytes)
    requires |s| == 64 && |ip| == 4 && k <= SERVERS
    ensures |r| == 64
    decreases SERVERS - k
  {
    if k == SERVERS then s
    else if Ip(s, k) == [0, 0, 0, 0] then s[..4 * k] + ip + s[4 * k + 4..]
    else Added(s, ip, k + 1)
  }

  /** One address after the other goes into the first empty slot. */
  function AddedAll(s: bytes, ips: seq<Ip4>): (r: bytes)
    requires |s| == 64
    ensures |r| == 64
  {
    if ips == [] then s else Added(AddedAll(s, ips[..|ips| - 1]), ips[|ips| - 1], 0)
  }

  lemma OneMoreAdded(s: bytes, ips: seq<Ip4>, ip: Ip4)
    requires |s| == 64
    ensures AddedAll(s, ips + [ip]) == Added(AddedAll(s, ips), ip, 0) && AddedAll(s, []) == s
  {
    hide Added;
    assert (ips + [ip])[..|ips|] == ips;
  }

  lemma TakeAddress(done: seq<Ip4>, rest: bytes)
    requires |rest| >= 4
    ensures done + [rest[..4]] + AddressesIn(rest[4..]) == done + AddressesIn(rest)
  {
  }

  lemma LastAddress(done: seq<Ip4>, rest: bytes)
    requires |rest| < 4
    ensures done + AddressesIn(rest) == done
  {
  }

  function Slots(s: bytes): (r: seq<bytes>)
    requires |s| == 64
    ensures |r| == SERVERS && forall k :: 0 <= k < SERVERS ==> r[k] == Ip(s, k)
  {
    seq(SERVERS, k requires 0 <= k < SERVERS => Ip(s, k))
  }

  /** Every slot is empty. */
  predicate NoneKnown(s: bytes)
    requires |s| == 64
  {
    forall k :: 0 <= k < SERVERS ==> Ip(s, k) == [0, 0, 0, 0]
  }

  /** Slots i and j exchanged, byte by byte. */
  function SwapSlots(s: bytes, i: nat, j: nat): (r: bytes)
    requires |s| == 64 && i <= j < SERVERS
    ensures |r| == 64
  {
    seq(64, b requires 0 <= b < 64 => s[if b / 4 == i then 4 * j + b % 4 else if b / 4 == j then 4 * i + b % 4 else b])
  }

  lemma SwapKeepsSlots(s: bytes, i: nat, j: nat)
    requires |s| == 64 && i <= j < SERVERS
    ensures multiset(Slots(SwapSlots(s, i, j))) == multiset(Slots(s))
  {
    var p, q := Slots(s), Slots(SwapSlots(s, i, j));
    forall k | 0 <= k < SERVERS
      ensures q[k] == p[i := p[j]][j := p[i]][k]
    {
      SwappedSlot(s, i, j, k);
    }
    assert q == p[i := p[j]][j := p[i]];
  }

  lemma SwappedSlot(s: bytes, i: nat, j: nat, k: nat)
    requires |s| == 64 && i <= j < SERVERS && k < SERVERS
    ensures Ip(SwapSlots(s, i, j), k) == if k == i then Ip(s, j) else if k == j then Ip(s, i) else Ip(s, k)
  {
    hide SwapSlots;
    var from := if k == i then j else if k == j then i else k;
    SwappedByte(s, i, j, k, 0);
    SwappedByte(s, i, j, k, 1);
    SwappedByte(s, i, j, k, 2);
    SwappedByte(s, i, j, k, 3);
    FourBytes(SwapSlots(s, i, j), 4 * k, s, 4 * from);
  }

  lemma FourBytes(a: bytes, p: nat, b: bytes, q: nat)
    requires p + 4 <= |a| && q + 4 <= |b|
    requires a[p] == b[q] && a[p + 1] == b[q + 1] && a[p + 2] == b[q + 2] && a[p + 3] == b[q + 3]
    ensures a[p..p + 4] == b[q..q + 4]
  {
  }

  lemma SwappedByte(s: bytes, i: nat, j: nat, k: nat, c: nat)
    requires |s| == 64 && i <= j < SERVERS && k < SERVERS && c < 4
    ensures SwapSlots(s, i, j)[4 * k + c] == s[4 * (if k == i then j else if k == j then i else k) + c]
  {
    assert (4 * k + c) / 4 == k && (4 * k + c) % 4 == c;
  }

  /** dns_sortip: a random order of the same addresses. */
  method SortIp(s: bytes) returns (r: bytes)
    requires |s| == 64
    ensures |r| == 64 && multiset(Slots(r)) == multiset(Slots(s))
  {
    hide Slots, SwapSlots;
    r := s;
    var n := SERVERS;
    while n > 1
      invariant 1 <= n <= SERVERS && |r| == 64 && multiset(Slots(r)) == multiset(Slots(s))
    {
      var i: nat :| i < n;
      n := n - 1;
      SwapKeepsSlots(r, i, n);
      r := SwapSlots(r, i, n);
    }
  }

  lemma ChainSizes(last: bytes, alias: Names, aliasttl: seq<uint32>, chain: seq<bytes>, ttls: seq<uint32>)
    requires IsChain(last, alias, aliasttl, chain, ttls)
    ensures |chain| == |ttls| + 1 && |alias| == |aliasttl| == MAXALIAS && chain[|ttls|] == last
  {
  }

  lemma AliasesFull(last: bytes, alias: Names, aliasttl: seq<uint32>, chain: seq<bytes>, ttls: seq<uint32>)
    requires IsChain(last, alias, aliasttl, chain, ttls)
    ensures |alias| == MAXALIAS && (alias[MAXALIAS - 1].Some? <==> |ttls| == MAXALIAS)
  {
  }

  lemma LastIsNone(s: Names)
    requires s != [] && s[|s| - 1] == None
    ensures Live(s) == Live(s[..|s| - 1])
  {
  }

  lemma BehindPreface(chain: seq<bytes>, ttls: seq<uint32>, records: seq<Event>)
    requires |chain| == |ttls| + 1
    ensures (Preface(chain, ttls) + records)[|Preface(chain, ttls)|..] == records
  {
    hide Preface;
  }

  lemma PrefaceStep(chain: seq<bytes>, ttls: seq<uint32>, m: nat)
    requires |chain| == |ttls| + 1 && 0 < m <= |ttls|
    ensures Preface(chain[..m + 1], ttls[..m])
         == Preface(chain[..m], ttls[..m - 1]) + [Alias(chain[m - 1], chain[m], ttls[m - 1])]
    ensures m == |ttls| ==> chain[..m + 1] == chain && ttls[..m] == ttls
  {
    assert chain[..m + 1][..m] == chain[..m] && ttls[..m][..m - 1] == ttls[..m - 1];
  }
}
