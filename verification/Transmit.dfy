/** dns_transmit.c: one question put to up to 16 servers, over UDP in several rounds and over TCP. */
module Transmit {
  import opened Bytes
  import opened Domain
  import opened Packet

  const SERVERS := 16
  const TIMEOUTS: seq<nat> := [1, 3, 11, 45]

  // --- messages -----------------------------------------------------------------------------------

  /** The query with the TCP length in front; id is the pair of bytes drawn anew for every attempt. */
  function QueryBytes(id: bytes, recursive: bool, q: bytes, qtype: bytes): (s: bytes)
    requires |id| == 2 && |qtype| == 2
    ensures |s| == |q| + 18 && s[2..4] == id && s[14..|s| - 4] == q
  {
    var len := |q| + 16;
    [len / 256 % 256, len % 256] + id + [if recursive then 1 else 0, 0, 0, 1, 0, 0, 0, 0, 0, 0] + q + qtype + [0, 1]
  }

  /** A well-formed query for q, whatever its id. */
  predicate IsQuery(s: bytes, recursive: bool, q: bytes, qtype: bytes)
    requires |qtype| == 2
  {
    |s| == |q| + 18 && s == QueryBytes(s[2..4], recursive, q, qtype)
  }

  lemma NewId(s: bytes, recursive: bool, q: bytes, qtype: bytes, a: byte, b: byte)
    requires |qtype| == 2 && IsQuery(s, recursive, q, qtype)
    ensures IsQuery(s[2 := a][3 := b], recursive, q, qtype)
  {
    var t := s[2 := a][3 := b];
    assert t[2..4] == [a, b] && t == s[..2] + [a, b] + s[4..];
  }

  lemma FirstQuery(recursive: bool, q: bytes, qtype: bytes)
    requires |qtype| == 2
    ensures IsQuery(QueryBytes([0, 0], recursive, q, qtype), recursive, q, qtype)
  {
  }

  lemma QuestionOf(s: bytes, recursive: bool, q: bytes, qtype: bytes)
    requires |qtype| == 2 && IsQuery(s, recursive, q, qtype)
    ensures |s| >= 18 && s[14..|s| - 4] == q
  {
  }

  /** serverwantstcp: the truncation bit. */
  predicate WantsTcp(buf: bytes) {
    |buf| < 12 || buf[2] / 2 % 2 == 1
  }

  /** serverfailed: a response code other than 0 and 3. */
  predicate ServerFailed(buf: bytes) {
    |buf| < 12 || (buf[3] % 16 != 0 && buf[3] % 16 != 3)
  }

  /** The packet repeats the query's id and its one question, name compared up to case. */
  predicate Relevant(query: bytes, qtype: bytes, buf: bytes)
    requires |query| >= 18
  {
    && |buf| >= 12 && buf[..2] == query[2..4] && buf[4] == 0 && buf[5] == 1
    && match NameAt(buf, 12)
       case None => false
       case Some((dn, pos)) =>
         Same(dn, query[14..|query| - 4]) && pos + 4 <= |buf| && buf[pos..pos + 2] == qtype
         && buf[pos + 2..pos + 4] == [0, 1]
  }

  /** The packet answers the query completely and without a failure code. */
  predicate Acceptable(query: bytes, qtype: bytes, buf: bytes)
    requires |query| >= 18
  {
    Relevant(query, qtype, buf) && !WantsTcp(buf) && !ServerFailed(buf)
  }

  /**
   * The message m behind the length is a query as a reader of messages sees it (section 4.1 of RFC 1035): an ordinary
   * question that asks for recursion or not, and nothing else.
   */
  predicate AsksFor(m: bytes, recursive: bool, q: bytes, qtype: bytes) {
    && |m| == |q| + 16 && (m[2] == 1 <==> recursive) && m[2] / 2 == 0 && m[3] == 0
    && Word16(m, 4) == 1 && Word16(m, 6) == Word16(m, 8) == Word16(m, 10) == 0
    && m[12..12 + |q|] == q && m[12 + |q|..14 + |q|] == qtype && m[14 + |q|..] == [0, 1]
    && (|q| <= 255 ==> NameAt(m, 12) == Some((q, 12 + |q|)))
  }

  /** The query sent is the length and the message, and a server that gave it back would be found to answer it. */
  lemma QueryReads(s: bytes, recursive: bool, q: bytes, qtype: bytes)
    requires |qtype| == 2 && IsName(q) && IsQuery(s, recursive, q, qtype)
    ensures AsksFor(s[2..], recursive, q, qtype) && Word16(s, 0) == |s[2..]| % 65536
    ensures |q| <= 255 ==> Relevant(s, qtype, s[2..])
  {
    hide NameAt, IsName, IsQuery, Relevant, Word16;
    QueryFields(s, recursive, q, qtype);
    QueryWords(s, |q| + 16);
    if |q| <= 255 {
      PlainName(s[2..], 12, q);
      EchoAnswers(s, q, qtype);
    }
  }

  lemma QueryWords(s: bytes, len: nat)
    requires |s| == len + 2 >= 18 && s[0] == len / 256 % 256 && s[1] == len % 256
    requires s[5] == s[6] == 0 && s[7] == 1 && s[8] == s[9] == s[10] == s[11] == s[12] == s[13] == 0
    ensures Word16(s, 0) == len % 65536
    ensures Word16(s[2..], 4) == 1 && Word16(s[2..], 6) == Word16(s[2..], 8) == Word16(s[2..], 10) == 0
    ensures s[2..][3] == 0
  {
    assert len % 65536 / 256 == len / 256 % 256 && len % 65536 % 256 == len % 256;
  }

  lemma EchoAnswers(s: bytes, q: bytes, qtype: bytes)
    requires |s| == |q| + 18 && |qtype| == 2 && s[14..14 + |q|] == q && NameAt(s[2..], 12) == Some((q, 12 + |q|))
    requires Word16(s[2..], 4) == 1
    requires s[2..][12 + |q|..14 + |q|] == qtype && s[2..][14 + |q|..] == [0, 1]
    ensures Relevant(s, qtype, s[2..])
  {
    hide NameAt, Same;
    var m := s[2..];
    assert m[..2] == s[2..4] && m[14 + |q|..16 + |q|] == m[14 + |q|..];
    SameItself(q);
  }

  lemma SameItself(q: bytes)
    ensures Same(q, q)
  {
  }

  /** The parts of the query, one behind the other. */
  lemma QueryFields(s: bytes, recursive: bool, q: bytes, qtype: bytes)
    requires |qtype| == 2 && IsQuery(s, recursive, q, qtype)
    ensures |s| == |q| + 18 && s[0] == (|q| + 16) / 256 % 256 && s[1] == (|q| + 16) % 256
    ensures s[4] == if recursive then 1 else 0
    ensures s[5] == s[6] == 0 && s[7] == 1 && s[8] == s[9] == s[10] == s[11] == s[12] == s[13] == 0
    ensures s[14..14 + |q|] == s[2..][12..12 + |q|] == q
    ensures s[2..][12 + |q|..14 + |q|] == qtype && s[2..][14 + |q|..] == [0, 1]
  {
    var n := |q|;
    assert s[14..14 + n] == q && s[14 + n..16 + n] == qtype && s[16 + n..] == [0, 1];
    assert s[2..][12..12 + n] == s[14..14 + n] && s[2..][12 + n..14 + n] == s[14 + n..16 + n];
    assert s[2..][14 + n..] == s[16 + n..];
  }

  /** The question of a message: the name in lower case, the type and the class (section 4.1.2 of RFC 1035). */
  function Question(m: bytes): Option<(bytes, bytes, bytes)> {
    if |m| < 12 then None
    else
      match NameAt(m, 12)
      case None => None
      case Some((d, pos)) =>
        if pos + 4 > |m| then None else Some((LowerAll(d), m[pos..pos + 2], m[pos + 2..pos + 4]))
  }

  /** The message r is about the same question as the message m, and has its id. */
  predicate Echoes(m: bytes, r: bytes)
    requires |m| >= 12
  {
    && |r| >= 12 && r[..2] == m[..2] && Word16(r, 4) == 1
    && Question(r).Some? && Question(r) == Question(m)
  }

  /** It is moreover not truncated, and its response code says that there was no failure. */
  predicate Replies(m: bytes, r: bytes)
    requires |m| >= 12
  {
    Echoes(m, r) && r[2] / 2 % 2 == 0 && (r[3] % 16 == 0 || r[3] % 16 == 3)
  }

  /** A packet is taken for one about the query exactly if a reader of messages finds the same question in both. */
  lemma RelevantExactly(s: bytes, recursive: bool, q: bytes, qtype: bytes, r: bytes)
    requires |qtype| == 2 && IsName(q) && |q| <= 255 && IsQuery(s, recursive, q, qtype)
    ensures |s| >= 18
    ensures Relevant(s, qtype, r) <==> Echoes(s[2..], r)
    ensures Acceptable(s, qtype, r) <==> Replies(s[2..], r)
  {
    hide NameAt, IsName, IsQuery;
    QueryFields(s, recursive, q, qtype);
    PlainName(s[2..], 12, q);
    var m := s[2..];
    assert m[..2] == s[2..4] && m[14 + |q|..16 + |q|] == m[14 + |q|..];
    assert Question(m) == Some((LowerAll(q), qtype, [0, 1]));
    assert s[14..|s| - 4] == q;
    if |r| >= 12 {
      assert Word16(r, 4) == 1 <==> r[4] == 0 && r[5] == 1;
    }
  }

  /** The message replies to a question for this name and type, without being cut off and without a failure. */
  predicate RepliesAbout(r: bytes, d: bytes, dtype: bytes) {
    && Question(r) == Some((LowerAll(d), dtype, [0, 1]))
    && |r| >= 12 && r[2] / 2 % 2 == 0 && (r[3] % 16 == 0 || r[3] % 16 == 3)
  }

  /** What is accepted as an answer repeats the question that was to be asked. */
  lemma AcceptedAbout(s: bytes, recursive: bool, q: bytes, qtype: bytes, r: bytes)
    requires |qtype| == 2 && IsName(q) && IsQuery(s, recursive, q, qtype) && |s| >= 18 && Acceptable(s, qtype, r)
    ensures |q| <= 255 && RepliesAbout(r, q, qtype)
  {
    hide IsName, IsQuery, Relevant, NameAt;
    if |q| > 255 {
      NeverRelevant(s, recursive, q, qtype, r);
    } else {
      RelevantExactly(s, recursive, q, qtype, r);
      QueryFields(s, recursive, q, qtype);
      PlainName(s[2..], 12, q);
      var m := s[2..];
      assert m[14 + |q|..16 + |q|] == m[14 + |q|..];
      assert Question(m) == Some((LowerAll(q), qtype, [0, 1]));
    }
  }

  /** A query for a name that is too long for any packet is never answered. */
  lemma NeverRelevant(s: bytes, recursive: bool, q: bytes, qtype: bytes, r: bytes)
    requires |qtype| == 2 && IsName(q) && |q| > 255 && IsQuery(s, recursive, q, qtype)
    ensures |s| >= 18 && !Relevant(s, qtype, r)
  {
    hide NameAt, IsName, IsQuery;
    QueryFields(s, recursive, q, qtype);
    assert s[14..|s| - 4] == q;
    if |r| >= 12 && NameAt(r, 12).Some? {
      NameAtIsName(r, 12);
      assert |LowerAll(NameAt(r, 12).value.0)| <= 255 < |LowerAll(q)|;
    }
  }

  lemma RepliesTo(s: bytes, q: bytes, qtype: bytes, r: bytes)
    requires |qtype| == 2 && IsName(q) && IsQuery(s, true, q, qtype) && |s| >= 18 && Acceptable(s, qtype, r)
    ensures |q| <= 255 && Replies(s[2..], r)
  {
    hide IsName, IsQuery, Relevant, Replies;
    if |q| > 255 {
      NeverRelevant(s, true, q, qtype, r);
    } else {
      RelevantExactly(s, true, q, qtype, r);
    }
  }

  /** What is done about the result of recv on the UDP socket. */
  datatype Reaction = Ignore | NextServer | SwitchToTcp | Keep

  /**
   * A failure or a packet with a failure code leads to the next server, except that in round 2 the others get their
   * time; a packet that fills the buffer or does not answer the query is ignored; a truncated answer leads to TCP.
   */
  function UdpReaction(query: bytes, qtype: bytes, udploop: nat, received: bytes, refused: bool,
                       gotMemory: bool): Reaction
    requires |query| >= 18
  {
    if received == [] then if refused && udploop == 2 then Ignore else NextServer
    else if |received| >= 513 || !gotMemory || !Relevant(query, qtype, received) then Ignore
    else if WantsTcp(received) then SwitchToTcp
    else if ServerFailed(received) then if udploop == 2 then Ignore else NextServer
    else Keep
  }

  /** What is done depends only on what a reader of messages finds in the query and in the packet received. */
  lemma ReactionMeans(s: bytes, recursive: bool, q: bytes, qtype: bytes, udploop: nat, received: bytes, refused: bool,
                      gotMemory: bool)
    requires |qtype| == 2 && IsName(q) && |q| <= 255 && IsQuery(s, recursive, q, qtype)
    ensures |s| >= 18
    ensures var done := UdpReaction(s, qtype, udploop, received, refused, gotMemory);
            var read := 0 < |received| <= 512 && gotMemory && Echoes(s[2..], received);
            && (done == Keep <==> read && Replies(s[2..], received))
            && (done == SwitchToTcp <==> read && received[2] / 2 % 2 == 1)
            && (done == NextServer <==>
                  if received == [] then !(refused && udploop == 2)
                  else read && received[2] / 2 % 2 == 0 && received[3] % 16 !in {0, 3} && udploop != 2)
  {
    hide IsName, IsQuery, Relevant, Question;
    RelevantExactly(s, recursive, q, qtype, received);
  }

  // --- the plan of attempts -----------------------------------------------------------------------

  // Attempt number 16 * loop + server is the UDP attempt at a server in one of four rounds; attempt number
  // 64 + server is the TCP attempt. The server of attempt n is always n % 16.

  function Ip(servers: bytes, server: nat): bytes
    requires |servers| == 64 && server < SERVERS
  {
    servers[4 * server..4 * server + 4]
  }

  /** The server's slot is in use. */
  predicate Known(servers: bytes, n: nat)
    requires |servers| == 64
  {
    Ip(servers, n % SERVERS) != [0, 0, 0, 0]
  }

  /** The attempts at known servers numbered a to b - 1, in order. */
  function Plan(servers: bytes, a: nat, b: nat): seq<nat>
    requires |servers| == 64
  {
    if a >= b then [] else Plan(servers, a, b - 1) + (if Known(servers, b - 1) then [b - 1] else [])
  }

  /** A plan holds each known attempt in its range, once, in increasing order. */
  lemma {:induction false} PlanExact(servers: bytes, a: nat, b: nat)
    requires |servers| == 64
    ensures var p := Plan(servers, a, b);
            && (forall n :: n in p <==> a <= n < b && Known(servers, n))
            && forall i, j :: 0 <= i < j < |p| ==> p[i] < p[j]
    decreases b
  {
    hide Known;
    if a < b {
      PlanExact(servers, a, b - 1);
      OneMoreIncreasing(Plan(servers, a, b - 1), b - 1);
    }
  }

  lemma OneMoreIncreasing(s: seq<nat>, last: nat)
    requires forall n :: n in s ==> n < last
    requires forall i, j :: 0 <= i < j < |s| ==> s[i] < s[j]
    ensures forall n :: n in s + [last] <==> n in s || n == last
    ensures forall i, j :: 0 <= i < j < |s + [last]| ==> (s + [last])[i] < (s + [last])[j]
    ensures s + [] == s
  {
    assert forall i :: 0 <= i < |s| ==> s[i] in s;
  }

  /** Any run of attempts: a plan of UDP attempts, then perhaps a plan of TCP attempts. */
  predicate IsRun(servers: bytes, attempts: seq<nat>, from: nat, udpEnd: nat, tcpEnd: nat)
    requires |servers| == 64
  {
    && from <= udpEnd <= 64 <= tcpEnd <= 80
    && attempts == Plan(servers, from, udpEnd) + Plan(servers, 64, tcpEnd)
  }

  /** In a run no attempt is made twice, no known server is passed over, and no UDP attempt follows a TCP attempt. */
  lemma RunIsOrdered(servers: bytes, attempts: seq<nat>, from: nat, udpEnd: nat, tcpEnd: nat)
    requires |servers| == 64 && IsRun(servers, attempts, from, udpEnd, tcpEnd)
    ensures forall i, j :: 0 <= i < j < |attempts| ==> attempts[i] < attempts[j] < 80
    ensures forall n :: n in attempts <==> (from <= n < udpEnd || 64 <= n < tcpEnd) && Known(servers, n)
    ensures |attempts| <= 80 - from
  {
    hide Known;
    PlanExact(servers, from, udpEnd);
    PlanExact(servers, 64, tcpEnd);
    var p, q := Plan(servers, from, udpEnd), Plan(servers, 64, tcpEnd);
    assert forall n :: n in attempts <==> n in p || n in q;
    JoinIncreasing(p, q, 64);
    assert forall n :: n in attempts ==> from <= n < 80;
    IncreasingRoom(attempts, from, 80);
    assert forall j :: 0 <= j < |attempts| ==> attempts[j] in attempts;
  }

  lemma JoinIncreasing(p: seq<nat>, q: seq<nat>, m: nat)
    requires (forall n :: n in p ==> n < m) && (forall n :: n in q ==> m <= n)
    requires forall i, j :: 0 <= i < j < |p| ==> p[i] < p[j]
    requires forall i, j :: 0 <= i < j < |q| ==> q[i] < q[j]
    ensures forall i, j :: 0 <= i < j < |p + q| ==> (p + q)[i] < (p + q)[j]
  {
    assert forall i :: 0 <= i < |p| ==> p[i] in p;
    assert forall i :: 0 <= i < |q| ==> q[i] in q;
  }

  lemma {:induction false} IncreasingRoom(s: seq<nat>, lo: nat, hi: nat)
    requires lo <= hi && (forall n :: n in s ==> lo <= n < hi)
    requires forall i, j :: 0 <= i < j < |s| ==> s[i] < s[j]
    ensures |s| <= hi - lo
    decreases |s|
  {
    if s != [] {
      var last, init := s[|s| - 1], s[..|s| - 1];
      assert last in s;
      assert forall i :: 0 <= i < |init| ==> init[i] in s && init[i] == s[i] < last;
      IncreasingRoom(init, lo, last);
    }
  }

  /** What iopause has found: an event on the socket, or only the time. */
  datatype Wakeup = Wakeup(revents: bool, stamp: int)

  /** What the system makes of one attempt: a socket, how many ports are refused, and the connection. */
  datatype Outcome = Outcome(socket: bool, refusals: nat, made: bool, inProgress: bool) {
    predicate Opened() {
      socket && refusals <= 10
    }
  }

  const ATTEMPTS := 80

  /** The outcome of every attempt that may be made. */
  type Net = net: seq<Outcome> | |net| == ATTEMPTS witness seq(ATTEMPTS, _ => Outcome(false, 0, false, false))

  /** Attempt n is passed over: the slot is empty, or the socket was there but the connection was not. */
  predicate Skipped(servers: bytes, net: Net, n: nat)
    requires |servers| == 64 && n < ATTEMPTS
  {
    !Known(servers, n) || (net[n].Opened() && !net[n].made && !(n >= 64 && net[n].inProgress))
  }

  /** The first attempt from number a on that is not passed over, or b. */
  function Stop(servers: bytes, net: Net, a: nat, b: nat): (n: nat)
    requires |servers| == 64 && a <= b <= ATTEMPTS
    ensures a <= n <= b
    decreases b - a
  {
    if a == b then b else if Skipped(servers, net, a) then Stop(servers, net, a + 1, b) else a
  }

  /** One of the attempts a to b - 1 gets through: the first that is not passed over has its socket. */
  predicate GetsThrough(servers: bytes, net: Net, a: nat, b: nat)
    requires |servers| == 64 && a <= b <= ATTEMPTS
  {
    var n := Stop(servers, net, a, b);
    n < b && net[n].Opened()
  }

  // --- the system ---------------------------------------------------------------------------------

  lemma {:induction false} SomeUnused(used: set<nat>)
    ensures exists n: nat :: n !in used
  {
    var top := Above(used);
    assert top !in used;
  }

  ghost function Above(used: set<nat>): (m: nat)
    ensures forall n :: n in used ==> n < m
    decreases used
  {
    if used == {} then 0
    else
      var x :| x in used;
      var m := Above(used - {x});
      assert forall n :: n in used ==> n == x || n in used - {x};
      if x < m then m else x + 1
  }

  /** One connection asked for: the kind of socket and the server's address. */
  datatype Contact = Contact(tcp: bool, ip: bytes)

  /** The connections that a sequence of attempts asks for. */
  function Contacts(servers: bytes, attempts: seq<nat>): seq<Contact>
    requires |servers| == 64
  {
    if attempts == [] then []
    else
      var n := attempts[|attempts| - 1];
      Contacts(servers, attempts[..|attempts| - 1]) + [Contact(n >= 64, Ip(servers, n % SERVERS))]
  }

  lemma NextContact(servers: bytes, attempts: seq<nat>, n: nat)
    requires |servers| == 64
    ensures Contacts(servers, attempts + [n])
         == Contacts(servers, attempts) + [Contact(n >= 64, Ip(servers, n % SERVERS))]
  {
    hide Ip;
    assert (attempts + [n])[..|attempts|] == attempts;
  }

  lemma {:induction false} ContactsAre(servers: bytes, attempts: seq<nat>)
    requires |servers| == 64
    ensures |Contacts(servers, attempts)| == |attempts|
    ensures forall i :: 0 <= i < |attempts| ==>
              var k := attempts[i] % 16;
              Contacts(servers, attempts)[i] == Contact(attempts[i] >= 64, servers[4 * k..4 * k + 4])
  {
    if attempts != [] {
      ContactsAre(servers, attempts[..|attempts| - 1]);
    }
  }

  /**
   * The connections of a run: over UDP and then over TCP, to the servers in the order of their slots, round after
   * round, and to no slot that is empty.
   */
  lemma RunContacts(servers: bytes, attempts: seq<nat>, from: nat, udpEnd: nat, tcpEnd: nat)
    requires |servers| == 64 && IsRun(servers, attempts, from, udpEnd, tcpEnd)
    ensures var contacts := Contacts(servers, attempts);
            |contacts| == |attempts| && forall i :: 0 <= i < |attempts| ==>
              var k := attempts[i] % 16;
              && contacts[i].ip == servers[4 * k..4 * k + 4] && contacts[i].ip != [0, 0, 0, 0]
              && (contacts[i].tcp <==> attempts[i] >= 64)
    ensures forall n: nat :: (from <= n < udpEnd || 64 <= n < tcpEnd) ==>
              (n in attempts <==> servers[4 * (n % 16)..4 * (n % 16) + 4] != [0, 0, 0, 0])
  {
    hide IsRun;
    ContactsAre(servers, attempts);
    RunIsOrdered(servers, attempts, from, udpEnd, tcpEnd);
    assert forall i :: 0 <= i < |attempts| ==> attempts[i] in attempts;
  }

  /** The descriptors and allocations of one dns_transmit, and the results of its system calls. */
  class Os {
    var open: set<nat>
    var live: nat
    // Whether a socket, bind or allocation has failed.
    ghost var failed: bool
    // The connections asked for, in order.
    ghost var contacted: seq<Contact>
    // The time of the last taia_now.
    var clock: int

    constructor ()
      ensures open == {} && live == 0 && !failed && contacted == []
    {
      open, live, failed, clock, contacted := {}, 0, false, 0, [];
    }

    method Socket(ok: bool) returns (fd: int)
      modifies `open, `failed
      ensures fd >= -1 && (fd >= 0 <==> ok)
      ensures fd == -1 ==> open == old(open) && failed
      ensures fd >= 0 ==> fd !in old(open) && open == old(open) + {fd} && failed == old(failed)
    {
      if !ok {
        failed := true;
        return -1;
      }
      SomeUnused(open);
      var unused: nat :| unused !in open;
      open := open + {unused};
      return unused;
    }

    method Close(fd: nat)
      requires fd in open
      modifies `open
      ensures open == old(open) - {fd}
    {
      open := open - {fd};
    }

    /** An allocation, which succeeds or not. */
    method Alloc(ok: bool)
      modifies `live, `failed
      ensures live == old(live) + if ok then 1 else 0
      ensures failed == (old(failed) || !ok)
    {
      if ok {
        live := live + 1;
      } else {
        failed := true;
      }
    }

    method Free()
      requires live > 0
      modifies `live
      ensures live == old(live) - 1
    {
      live := live - 1;
    }

    /** socket_bind4, refused for the first ports tried. */
    method Bind(fd: nat, port: nat, before: nat, refusals: nat) returns (ok: bool)
      requires fd in open && port < 0x1_0000
      ensures ok <==> before >= refusals
    {
      ok := before >= refusals;
    }

    /** socket_connect4, for a UDP socket followed by a send. */
    method Connect(fd: nat, ip: bytes, tcp: bool)
      requires fd in open
      modifies `contacted
      ensures contacted == old(contacted) + [Contact(tcp, ip)]
    {
      contacted := contacted + [Contact(tcp, ip)];
    }

    method Now()
      modifies `clock
    {
      clock := *;
    }
  }

  function Count<T>(p: Option<T>): nat {
    if p.Some? then 1 else 0
  }

  /** struct dns_transmit. */
  class Transmit {
    const os: Os
    var query: Option<bytes>
    var querylen: nat
    var packet: Option<bytes>
    var packetlen: nat
    // 0, or 1 + an open descriptor
    var s1: nat
    var tcpstate: nat
    var udploop: nat
    var curserver: nat
    var deadline: int
    var pos: uint32
    var servers: bytes
    var qtype: bytes
    var localip: bytes

    // The question, and the attempts made so far.
    ghost var name: bytes
    ghost var recursive: bool
    ghost var attempts: seq<nat>
    ghost var from: nat
    ghost var udpEnd: nat
    ghost var tcpEnd: nat
    // On a TCP connection: what has been written, and where in the query the writing began.
    ghost var sent: bytes
    ghost var begun: nat
    // What has been read of the packet on a TCP connection.
    ghost var received: bytes

    constructor (os: Os)
      requires os.open == {} && os.live == 0
      ensures this.os == os && Owned() && Released()
    {
      this.os := os;
      query, packet, s1 := None, None, 0;
      servers, qtype, localip, name := [], [], [], [];
    }

    /** Nothing is open or allocated except what the fields refer to. */
    ghost predicate Owned()
      reads `s1, `query, `packet, os`open, os`live
    {
      && (s1 == 0 ==> os.open == {}) && (s1 > 0 ==> os.open == {s1 - 1})
      && os.live == Count(query) + Count(packet)
    }

    ghost predicate Released()
      reads `query, `packet, `s1
    {
      query.None? && packet.None? && s1 == 0
    }

    ghost predicate Asking()
      reads `query, `querylen, `name, `recursive, `qtype, `servers, `localip
    {
      && query.Some? && querylen == |query.value| == |name| + 18 < TWO32 && IsName(name)
      && |qtype| == 2 && |servers| == 64 && |localip| == 4
      && IsQuery(query.value, recursive, name, qtype)
    }

    /** The number of the attempt under way. */
    ghost function Number(): nat
      reads `tcpstate, `udploop, `curserver
    {
      if tcpstate == 0 then 16 * udploop + curserver else 64 + curserver
    }

    /** The connections asked for so far are exactly those of a run. */
    ghost predicate Traced()
      reads `servers, `attempts, `from, `udpEnd, `tcpEnd, os`contacted
    {
      && |servers| == 64 && IsRun(servers, attempts, from, udpEnd, tcpEnd)
      && os.contacted == Contacts(servers, attempts)
    }

    /** All UDP attempts before number n have been made, and nothing else. */
    ghost predicate UdpBefore(n: nat)
      reads `servers, `attempts, `from, `udpEnd, `tcpEnd, os`contacted
    {
      Traced() && udpEnd == n && tcpEnd == 64
    }

    /** After some UDP attempts, the TCP attempts at all servers before `server` have been made. */
    ghost predicate TcpBefore(server: nat)
      reads `servers, `attempts, `from, `udpEnd, `tcpEnd, os`contacted
    {
      Traced() && tcpEnd == 64 + server
    }

    ghost predicate OnTrack()
      reads `tcpstate, `udploop, `curserver, `servers, `attempts, `from, `udpEnd, `tcpEnd, os`contacted
    {
      if tcpstate == 0 then UdpBefore(Number() + 1) else TcpBefore(curserver + 1)
    }

    /** Where writing that began at `begun` ends; beyond the query the position has to wrap round first. */
    ghost function WriteEnd(): nat
      reads `querylen, `begun
    {
      if begun <= querylen then querylen else TWO32 + querylen
    }

    /** What has been written on a TCP connection; `begun` is 0 unless the connection was made at once. */
    ghost predicate Sending()
      requires query.Some? && querylen == |query.value|
      reads `query, `querylen, `tcpstate, `begun, `pos, `sent
    {
      tcpstate >= 2 ==>
        && begun < TWO32 && begun + |sent| <= WriteEnd()
        && (tcpstate == 2 ==> pos == W32(begun + |sent|))
        && (tcpstate > 2 ==> begun + |sent| == WriteEnd())
        && (begun <= querylen ==> sent == query.value[begun..begun + |sent|])
    }

    /** What has been received on a TCP connection. */
    ghost predicate Receiving()
      reads `packet, `packetlen, `tcpstate, `pos, `received
    {
      && (packet.Some? <==> tcpstate == 5)
      && (tcpstate == 4 ==> packetlen < 256)
      && (tcpstate == 5 ==>
            |packet.value| == packetlen < 0x1_0000 && pos as nat <= packetlen && received == packet.value[..pos])
    }

    /** An attempt is under way. */
    ghost predicate Waiting()
      reads this, os
    {
      && Owned() && Asking() && s1 > 0 && tcpstate <= 5 && udploop <= 4 && curserver < SERVERS
      && (tcpstate == 0 ==> udploop < 4) && Known(servers, curserver)
      && OnTrack() && Sending() && Receiving()
    }

    method PacketFree()
      requires Owned()
      modifies `packet, os`open, os`live
      ensures Owned() && packet == None && os.failed == old(os.failed) && os.open == old(os.open)
    {
      if packet.Some? {
        os.Free();
        packet := None;
      }
    }

    method QueryFree()
      requires Owned()
      modifies `query, os`open, os`live
      ensures Owned() && query == None && os.failed == old(os.failed) && os.open == old(os.open)
    {
      if query.Some? {
        os.Free();
        query := None;
      }
    }

    method SocketFree()
      requires Owned()
      modifies `s1, os`open, os`live
      ensures Owned() && s1 == 0 && os.failed == old(os.failed) && os.live == old(os.live)
    {
      if s1 != 0 {
        os.Close(s1 - 1);
        s1 := 0;
      }
    }

    /** dns_transmit_free. */
    method Free()
      requires Owned()
      modifies `query, `packet, `s1, os`open, os`live
      ensures Owned() && Released() && os.failed == old(os.failed)
    {
      QueryFree();
      SocketFree();
      PacketFree();
    }

    /** randombind: ten random ports, then any port. */
    method RandomBind(refusals: nat) returns (ok: bool)
      requires Owned() && s1 > 0
      modifies os`failed
      ensures ok <==> refusals <= 10
      ensures os.failed == (old(os.failed) || !ok)
    {
      for j := 0 to 10
        invariant os.failed == old(os.failed) && j <= refusals
      {
        var random: nat :| random < 64510;
        ok := os.Bind(s1 - 1, 1025 + random, j, refusals);
        if ok { return; }
      }
      ok := os.Bind(s1 - 1, 0, 10, refusals);
      if !ok { os.failed := true; }
    }

    /** The two bytes of the query's id are drawn anew. */
    method DrawId()
      requires Asking() && Owned()
      modifies `query
      ensures Asking() && Owned()
    {
      hide IsQuery, IsName;
      var a: byte, b: byte :| 0 <= a < 256 && 0 <= b < 256;
      NewId(query.value, recursive, name, qtype, a, b);
      query := Some(query.value[2 := a][3 := b]);
    }

    /** Opens and binds the socket of an attempt; on failure everything is released. */
    method OpenSocket(outcome: Outcome) returns (ok: bool)
      requires Owned() && Asking() && s1 == 0
      modifies `query, `packet, `s1, os`open, os`live, os`failed
      ensures Owned() && (ok <==> outcome.Opened()) && (ok ==> Asking() && s1 > 0)
      ensures ok ==> query == old(query) && packet == old(packet) && os.failed == old(os.failed)
      ensures !ok ==> Released() && os.failed
    {
      var fd := os.Socket(outcome.socket);
      s1 := fd + 1;
      if s1 == 0 {
        Free();
        return false;
      }
      ok := RandomBind(outcome.refusals);
      if !ok {
        Free();
      }
    }

    /** The state between attempts: nothing is open, and the next UDP attempt is at curserver. */
    ghost predicate ReadyUdp()
      reads this, os
    {
      && Owned() && Asking() && packet == None && s1 == 0 && udploop <= 4 && curserver <= SERVERS
      && (udploop == 4 ==> curserver == 0) && UdpBefore(16 * udploop + curserver) && |servers| == 64
    }

    /** Connects the UDP socket and sends the query. */
    method ConnectUdp(ip: bytes, made: bool) returns (ok: bool)
      requires Owned() && s1 > 0 && UdpBefore(16 * udploop + curserver) && udploop < 4 && curserver < SERVERS
      requires ip == Ip(servers, curserver) != [0, 0, 0, 0]
      requires query.Some? && querylen == |query.value| && packet == None
      modifies `deadline, `tcpstate, `attempts, `udpEnd, `tcpEnd, os`clock, os`contacted
      ensures old(os.contacted) <= os.contacted
      ensures UdpBefore(16 * udploop + curserver + 1) && ok == made
      ensures ok ==> tcpstate == 0 && Sending() && Receiving() && deadline == os.clock + TIMEOUTS[udploop] as int
    {
      hide IsRun, Contacts, Ip;
      os.Connect(s1 - 1, ip, false);
      NoteUdp(ip);
      ok := made;
      if ok {
        os.Now();
        deadline := os.clock + TIMEOUTS[udploop] as int;
        tcpstate := 0;
      }
    }

    /** The loop body of thisudp: 0 if the query has been sent, 1 to go on with the next server. */
    method TryUdp(net: Net) returns (r: int)
      requires ReadyUdp() && udploop < 4 && curserver < SERVERS
      modifies `query, `packet, `s1, `tcpstate, `udploop, `curserver, `deadline, `attempts, `udpEnd, `tcpEnd,
               `sent, `begun, os
      ensures old(os.contacted) <= os.contacted
      ensures udploop == old(udploop) && curserver == old(curserver)
      ensures var n := 16 * udploop + curserver;
              r == if Skipped(servers, net, n) then 1 else if net[n].Opened() then 0 else -1
      ensures Owned()
      ensures r == 1 ==> Asking() && packet == None && s1 == 0 && UdpBefore(16 * udploop + curserver + 1)
      ensures r == 0 ==> Waiting() && tcpstate == 0 && deadline == os.clock + TIMEOUTS[udploop] as int
      ensures r == -1 ==> Released() && os.failed && UdpBefore(16 * udploop + curserver)
    {
      hide IsRun, Known, IsQuery, IsName, Contacts, Ip;
      hide Transmit.UdpBefore;
      hide Transmit.Owned;
      hide Transmit.Sending, Transmit.Receiving;
      var ip, outcome := Ip(servers, curserver), net[16 * udploop + curserver];
      KnownHere(servers, curserver);
      SameServer(servers, 16 * udploop + curserver, curserver);
      if ip != [0, 0, 0, 0] {
        DrawId();
        var ok := OpenSocket(outcome);
        if !ok { return -1; }
        ok := ConnectUdp(ip, outcome.made);
        if ok { return 0; }
        SocketFree();
      } else {
        PassUdp(ip);
      }
      return 1;
    }

    /** The rest of one round of thisudp: 0 if a query has been sent, 1 at the end of the round. */
    method ThisRound(net: Net) returns (r: int)
      requires ReadyUdp() && udploop < 4
      modifies `query, `packet, `s1, `tcpstate, `udploop, `curserver, `deadline, `attempts, `udpEnd, `tcpEnd,
               `sent, `begun, os
      ensures old(os.contacted) <= os.contacted
      ensures udploop == old(udploop) && Owned() && Traced() && tcpEnd == 64
      ensures r == 1 ==> ReadyUdp() && curserver == SERVERS
                         && Stop(servers, net, 16 * udploop + old(curserver), 64) == Stop(servers, net, udpEnd, 64)
      ensures r != 1 ==> SentFrom(r, net, 16 * udploop + old(curserver))
      ensures r == 0 ==> Waiting() && deadline == os.clock + TIMEOUTS[udploop] as int
      ensures r == -1 ==> Released() && os.failed
    {
      hide IsRun, Known, IsQuery, IsName, Contacts, Skipped;
      hide Transmit.Owned;
      hide Transmit.Sending, Transmit.Receiving, Transmit.Asking;
      while curserver < SERVERS
        invariant ReadyUdp() && udploop == old(udploop) && old(os.contacted) <= os.contacted
        invariant Stop(servers, net, 16 * udploop + curserver, 64)
               == Stop(servers, net, 16 * udploop + old(curserver), 64)
        decreases SERVERS - curserver
      {
        r := TryUdp(net);
        if r != 1 { return; }
        curserver := curserver + 1;
      }
      return 1;
    }

    /** The remaining rounds of thisudp: 1 when all of them are over. */
    method Rounds(net: Net) returns (r: int)
      requires ReadyUdp()
      modifies `query, `packet, `s1, `tcpstate, `udploop, `curserver, `deadline, `attempts, `udpEnd, `tcpEnd,
               `sent, `begun, os
      ensures old(os.contacted) <= os.contacted
      ensures Owned() && Traced() && tcpEnd == 64
      ensures r == 1 ==> ReadyUdp() && udploop == 4
                         && Stop(servers, net, old(16 * udploop + curserver), 64) == Stop(servers, net, 64, 64)
      ensures r != 1 ==> SentFrom(r, net, old(16 * udploop + curserver))
      ensures r == 0 ==> Waiting() && deadline == os.clock + TIMEOUTS[udploop] as int
      ensures r == -1 ==> Released() && os.failed
    {
      hide IsRun, Known, IsQuery, IsName, Contacts, Skipped;
      hide Transmit.Owned;
      hide Transmit.Sending, Transmit.Receiving, Transmit.Asking;
      while udploop < 4
        invariant ReadyUdp() && old(os.contacted) <= os.contacted
        invariant Stop(servers, net, 16 * udploop + curserver, 64)
               == Stop(servers, net, old(16 * udploop + curserver), 64)
        decreases 4 - udploop
      {
        r := ThisRound(net);
        if r != 1 { return; }
        udploop := udploop + 1;
        curserver := 0;
      }
      return 1;
    }

    /** thisudp: makes the remaining UDP attempts in order until one is sent, or a socket cannot be had. */
    method ThisUdp(net: Net) returns (r: int)
      requires Owned() && Asking() && packet == None && udploop <= 4 && curserver <= SERVERS
      requires (udploop == 4 ==> curserver == 0) && UdpBefore(16 * udploop + curserver)
      modifies `query, `packet, `s1, `tcpstate, `udploop, `curserver, `deadline, `attempts, `udpEnd, `tcpEnd,
               `sent, `begun, os
      ensures old(os.contacted) <= os.contacted
      ensures Owned()
      ensures Traced() && tcpEnd == 64
      ensures SentFrom(r, net, old(16 * udploop + curserver))
      ensures r == 0 ==> Waiting() && udploop < 4 && deadline - os.clock
                           == if udploop == 0 then 1 else if udploop == 1 then 3 else if udploop == 2 then 11 else 45
      ensures r == -1 ==> Released() && (os.failed || udpEnd == 64)
    {
      hide IsRun, Known, IsQuery, IsName, Contacts, Skipped;
      hide Transmit.Owned;
      hide Transmit.Sending, Transmit.Receiving, Transmit.Asking;
      SocketFree();
      r := Rounds(net);
      if r == 1 {
        Free();
        r := -1;
      }
    }

    /** The state between attempts: nothing is open, and the next TCP attempt is at curserver. */
    ghost predicate ReadyTcp()
      reads this, os
    {
      && Owned() && Asking() && packet == None && s1 == 0 && udploop <= 4 && curserver <= SERVERS
      && TcpBefore(curserver) && |servers| == 64
    }

    /** A connection made at once is written on from pos on; one under way is waited for. */
    ghost predicate ConnectedAs(outcome: Outcome)
      reads `tcpstate, `sent, `begun, `pos
    {
      if outcome.made then tcpstate == 2 && sent == [] && begun == pos else tcpstate == 1
    }

    /** The result of going on with attempt a over UDP: the first attempt not passed over decides. */
    ghost predicate SentFrom(r: int, net: Net, a: nat)
      requires |servers| == 64 && a <= 64
      reads `servers, `tcpstate, `udploop, `curserver
    {
      var n := Stop(servers, net, a, 64);
      if n < 64 && net[n].Opened() then r == 0 && tcpstate == 0 && Number() == n else r == -1
    }

    /** The same over TCP. */
    ghost predicate ConnectedFrom(r: int, net: Net, a: nat)
      requires |servers| == 64 && 64 <= a <= ATTEMPTS
      reads `servers, `tcpstate, `curserver, `sent, `begun, `pos
    {
      var n := Stop(servers, net, a, ATTEMPTS);
      if n < ATTEMPTS && net[n].Opened() then r == 0 && curserver == n - 64 && ConnectedAs(net[n]) else r == -1
    }

    /** Begins a connection, which may be made at once; then pos stays as it was. */
    method Connect(ip: bytes, made: bool, inProgress: bool) returns (ok: bool)
      requires Owned() && query.Some? && querylen == |query.value| && packet == None && s1 > 0
      requires TcpBefore(curserver) && curserver < SERVERS && ip == Ip(servers, curserver) != [0, 0, 0, 0]
      modifies `deadline, `sent, `begun, `tcpstate, `attempts, `tcpEnd, os`clock, os`contacted
      ensures old(os.contacted) <= os.contacted
      ensures TcpBefore(curserver + 1) && (ok <==> made || inProgress)
      ensures ok ==> Sending() && Receiving() && deadline == os.clock + 10
      ensures ok ==> if made then tcpstate == 2 && sent == [] && begun == pos else tcpstate == 1
    {
      hide IsRun, Contacts, Ip;
      os.Now();
      deadline := os.clock + 10;
      os.Connect(s1 - 1, ip, true);
      NoteTcp(ip);
      ok := made || inProgress;
      if made {
        sent, begun := [], pos;
        tcpstate := 2;
        NothingSent(query.value, pos);
        SmallWord(pos);
      } else if inProgress {
        tcpstate := 1;
      }
    }

    /** The loop body of thistcp. */
    method TryTcp(net: Net) returns (r: int)
      requires ReadyTcp() && curserver < SERVERS
      modifies `query, `packet, `s1, `tcpstate, `udploop, `curserver, `deadline, `attempts, `udpEnd, `tcpEnd,
               `sent, `begun, os
      ensures old(os.contacted) <= os.contacted
      ensures udpEnd == old(udpEnd) && curserver == old(curserver) && udploop == old(udploop)
      ensures var n := 64 + curserver;
              r == if Skipped(servers, net, n) then 1 else if net[n].Opened() then 0 else -1
      ensures Owned()
      ensures r == 1 ==> Asking() && packet == None && s1 == 0 && TcpBefore(curserver + 1)
      ensures r == 0 ==> Waiting() && deadline == os.clock + 10
      ensures r == 0 ==> if net[64 + curserver].made then tcpstate == 2 && sent == [] && begun == pos else tcpstate == 1
      ensures r == -1 ==> Released() && os.failed && TcpBefore(curserver)
    {
      hide IsRun, Known, IsQuery, IsName, Contacts, Ip;
      hide Transmit.TcpBefore;
      hide Transmit.Owned;
      hide Transmit.Sending;
      var ip, outcome := Ip(servers, curserver), net[64 + curserver];
      KnownHere(servers, curserver);
      SameServer(servers, 64 + curserver, curserver);
      if ip != [0, 0, 0, 0] {
        DrawId();
        var ok := OpenSocket(outcome);
        if !ok { return -1; }
        ok := Connect(ip, outcome.made, outcome.inProgress);
        if ok { return 0; }
        SocketFree();
      } else {
        PassTcp(ip);
      }
      return 1;
    }

    /** The loop of thistcp: 1 when no server is left. */
    method Connections(net: Net) returns (r: int)
      requires ReadyTcp()
      modifies `query, `packet, `s1, `tcpstate, `udploop, `curserver, `deadline, `attempts, `udpEnd, `tcpEnd,
               `sent, `begun, os
      ensures old(os.contacted) <= os.contacted
      ensures Owned() && Traced() && udpEnd == old(udpEnd)
      ensures r == 1 ==> ReadyTcp() && tcpEnd == 80
                         && Stop(servers, net, 64 + old(curserver), ATTEMPTS) == Stop(servers, net, 80, ATTEMPTS)
      ensures r != 1 ==> ConnectedFrom(r, net, 64 + old(curserver))
      ensures r == 0 ==> Waiting() && tcpstate > 0 && deadline == os.clock + 10
      ensures r == -1 ==> Released() && os.failed
    {
      hide IsRun, Known, IsQuery, IsName, Contacts, Skipped;
      hide Transmit.Owned;
      hide Transmit.Sending, Transmit.Receiving, Transmit.Asking;
      while curserver < SERVERS
        invariant ReadyTcp() && udpEnd == old(udpEnd) && old(os.contacted) <= os.contacted
        invariant Stop(servers, net, 64 + curserver, ATTEMPTS) == Stop(servers, net, 64 + old(curserver), ATTEMPTS)
        decreases SERVERS - curserver
      {
        r := TryTcp(net);
        if r != 1 { return; }
        curserver := curserver + 1;
      }
      return 1;
    }

    /**
     * thistcp: makes the remaining TCP attempts in order until a connection is on its way, or a socket cannot be had.
     * A connection that is made at once leaves pos as it was, wherever that is.
     */
    method ThisTcp(net: Net) returns (r: int)
      requires Owned() && Asking() && udploop <= 4 && curserver <= SERVERS && TcpBefore(curserver)
      modifies `query, `packet, `s1, `tcpstate, `udploop, `curserver, `deadline, `attempts, `udpEnd, `tcpEnd,
               `sent, `begun, os
      ensures old(os.contacted) <= os.contacted
      ensures Owned() && udpEnd == old(udpEnd)
      ensures Traced()
      ensures ConnectedFrom(r, net, 64 + old(curserver))
      ensures r == 0 ==> Waiting() && tcpstate > 0 && deadline == os.clock + 10
      ensures r == -1 ==> Released() && (os.failed || tcpEnd == 80)
    {
      hide IsRun, Known, IsQuery, IsName, Contacts, Skipped;
      hide Transmit.Owned;
      hide Transmit.Sending, Transmit.Receiving, Transmit.Asking;
      SocketFree();
      PacketFree();
      r := Connections(net);
      if r == 1 {
        Free();
        r := -1;
      }
    }

    /** Notes the UDP attempt just made, or passed over because the server's slot is empty. */
    ghost method NoteUdp(ip: bytes)
      requires |servers| == 64 && curserver < SERVERS && ip == Ip(servers, curserver) && udploop < 4
      requires IsRun(servers, attempts, from, 16 * udploop + curserver, 64)
      requires os.contacted == Contacts(servers, attempts)
                               + if ip == [0, 0, 0, 0] then [] else [Contact(false, ip)]
      modifies `attempts, `udpEnd, `tcpEnd
      ensures UdpBefore(16 * udploop + curserver + 1)
    {
      hide IsRun, Contacts, Ip;
      var n := 16 * udploop + curserver;
      NextInRun(servers, attempts, from, n, 64);
      NextContact(servers, attempts, n);
      assert n % SERVERS == curserver;
      if Known(servers, n) {
        attempts := attempts + [n];
      } else {
        assert attempts + [] == attempts && Contacts(servers, attempts) + [] == Contacts(servers, attempts);
      }
      udpEnd, tcpEnd := n + 1, 64;
    }

    ghost method PassUdp(ip: bytes)
      requires UdpBefore(16 * udploop + curserver) && udploop < 4 && curserver < SERVERS
      requires ip == Ip(servers, curserver) == [0, 0, 0, 0]
      modifies `attempts, `udpEnd, `tcpEnd
      ensures UdpBefore(16 * udploop + curserver + 1)
    {
      hide IsRun, Contacts, Ip;
      NoteUdp(ip);
    }

    ghost method PassTcp(ip: bytes)
      requires TcpBefore(curserver) && curserver < SERVERS && ip == Ip(servers, curserver) == [0, 0, 0, 0]
      modifies `attempts, `tcpEnd
      ensures TcpBefore(curserver + 1)
    {
      hide IsRun, Contacts, Ip;
      NoteTcp(ip);
    }

    /** The same for a TCP attempt. */
    ghost method NoteTcp(ip: bytes)
      requires |servers| == 64 && curserver < SERVERS && ip == Ip(servers, curserver)
      requires IsRun(servers, attempts, from, udpEnd, 64 + curserver)
      requires os.contacted == Contacts(servers, attempts)
                               + if ip == [0, 0, 0, 0] then [] else [Contact(true, ip)]
      modifies `attempts, `tcpEnd
      ensures TcpBefore(curserver + 1)
    {
      hide IsRun, Contacts, Ip;
      var n := 64 + curserver;
      NextInRun(servers, attempts, from, udpEnd, n);
      NextContact(servers, attempts, n);
      assert n % SERVERS == curserver;
      if Known(servers, n) {
        attempts := attempts + [n];
      } else {
        assert attempts + [] == attempts && Contacts(servers, attempts) + [] == Contacts(servers, attempts);
      }
      tcpEnd := n + 1;
    }

    /** No known server is left to try. */
    ghost predicate Exhausted()
      reads `udpEnd, `tcpEnd
    {
      (udpEnd == 64 && tcpEnd == 64) || tcpEnd == 80
    }

    method NextUdp(net: Net) returns (r: int)
      requires Waiting() && tcpstate == 0
      modifies `query, `packet, `s1, `tcpstate, `udploop, `curserver, `deadline, `attempts, `udpEnd, `tcpEnd,
               `sent, `begun, os
      ensures old(os.contacted) <= os.contacted
      ensures Owned() && Traced()
      ensures SentFrom(r, net, old(Number()) + 1)
      ensures r == 0 ==> Waiting() && tcpstate == 0
      ensures r == -1 ==> Released() && (os.failed || Exhausted())
    {
      hide IsRun, Known, IsQuery, IsName, Contacts;
      hide Transmit.Owned;
      hide Transmit.Sending, Transmit.Asking;
      curserver := curserver + 1;
      r := ThisUdp(net);
    }

    method FirstTcp(net: Net) returns (r: int)
      requires Owned() && Asking() && udploop <= 4 && UdpBefore(udpEnd)
      modifies `query, `packet, `s1, `tcpstate, `udploop, `curserver, `deadline, `attempts, `udpEnd, `tcpEnd,
               `sent, `begun, os
      ensures old(os.contacted) <= os.contacted
      ensures Owned() && Traced()
      ensures ConnectedFrom(r, net, 64 + 0)
      ensures r == 0 ==> Waiting() && tcpstate > 0 && udpEnd == old(udpEnd)
      ensures r == -1 ==> Released() && (os.failed || Exhausted())
    {
      hide IsRun, Known, IsQuery, IsName, Contacts;
      hide Transmit.Owned;
      hide Transmit.Sending, Transmit.Receiving, Transmit.Asking;
      curserver := 0;
      r := ThisTcp(net);
    }

    method NextTcp(net: Net) returns (r: int)
      requires Owned() && Asking() && udploop <= 4 && curserver < SERVERS && TcpBefore(curserver + 1)
      modifies `query, `packet, `s1, `tcpstate, `udploop, `curserver, `deadline, `attempts, `udpEnd, `tcpEnd,
               `sent, `begun, os
      ensures old(os.contacted) <= os.contacted
      ensures Owned() && Traced()
      ensures udpEnd == old(udpEnd)
      ensures ConnectedFrom(r, net, 64 + old(curserver) + 1)
      ensures r == 0 ==> Waiting() && tcpstate > 0
      ensures r == -1 ==> Released() && (os.failed || Exhausted())
    {
      hide IsRun, Known, IsQuery, IsName, Contacts;
      hide Transmit.Owned;
      hide Transmit.Sending, Transmit.Receiving, Transmit.Asking;
      curserver := curserver + 1;
      r := ThisTcp(net);
    }

    /** Allocates the query and fills it in, with id 0. */
    method Compose(servers: bytes, flagrecursive: bool, q: bytes, qtype: bytes, localip: bytes, gotMemory: bool)
      requires Owned() && Released()
      requires IsName(q) && |q| + 18 < TWO32 && |servers| == 64 && |qtype| == 2 && |localip| == 4
      modifies `query, `querylen, `name, `recursive, `qtype, `servers, `localip, os
      ensures Owned() && packet == None
      ensures gotMemory ==> Asking() && name == q && recursive == flagrecursive
      ensures gotMemory ==> this.servers == servers && this.qtype == qtype
      ensures !gotMemory ==> Released() && os.failed
    {
      hide IsName;
      var len := Length(q);
      querylen := len + 18;
      os.Alloc(gotMemory);
      if !gotMemory { return; }
      query := Some(QueryBytes([0, 0], flagrecursive, q, qtype));
      FirstQuery(flagrecursive, q, qtype);
      this.qtype, this.servers, this.localip := qtype, servers, localip;
      name, recursive := q, flagrecursive;
    }

    /** A recursive query skips the first round of UDP attempts. */
    method FirstRound(flagrecursive: bool)
      requires |servers| == 64
      modifies `udploop, `curserver, `attempts, `from, `udpEnd, `tcpEnd, os`contacted
      ensures udploop == (if flagrecursive then 1 else 0) && curserver == 0 && from == udpEnd == 16 * udploop
      ensures UdpBefore(16 * udploop) && UdpBefore(udpEnd)
    {
      hide IsRun;
      udploop := if flagrecursive then 1 else 0;
      curserver := 0;
      attempts, from, udpEnd, tcpEnd := [], 16 * udploop, 16 * udploop, 64;
      os.contacted := [];
      NothingTried(servers, from);
    }

    /** dns_transmit_start before its last branch. */
    method Prepare(servers: bytes, flagrecursive: bool, q: bytes, qtype: bytes, localip: bytes, gotMemory: bool)
      requires Owned() && IsName(q) && |q| + 18 < TWO32
      requires |servers| == 64 && |qtype| == 2 && |localip| == 4
      modifies this, os
      ensures Owned() && packet == None
      ensures gotMemory ==>
                && Asking() && name == q && recursive == flagrecursive && this.servers == servers && this.qtype == qtype
                && udploop == (if flagrecursive then 1 else 0) && curserver == 0 && from == udpEnd == 16 * udploop
                && UdpBefore(16 * udploop) && UdpBefore(udpEnd)
      ensures !gotMemory ==> Released() && os.failed
    {
      hide IsRun, Known, IsQuery, IsName, Contacts;
      hide Transmit.Sending, Transmit.Receiving, Transmit.Asking, Transmit.Owned;
      hide Transmit.UdpBefore, Transmit.TcpBefore;
      os.failed := false;
      Free();
      Compose(servers, flagrecursive, q, qtype, localip, gotMemory);
      if !gotMemory { return; }
      FirstRound(flagrecursive);
    }

    /** dns_transmit_start. */
    method Start(servers: bytes, flagrecursive: bool, q: bytes, qtype: bytes, localip: bytes, gotMemory: bool,
                 net: Net) returns (r: int)
      requires Owned() && IsName(q) && |q| + 18 < TWO32
      requires |servers| == 64 && |qtype| == 2 && |localip| == 4
      modifies this, os
      ensures Owned() && (r == 0 || r == -1)
      ensures r == 0 ==> Waiting() && name == q && recursive == flagrecursive && this.servers == servers
      ensures r == 0 ==> this.qtype == qtype && from == (if flagrecursive then 16 else 0)
      ensures r == 0 ==> (tcpstate == 0 <==> |q| + 16 <= 512) && (tcpstate > 0 ==> udpEnd == from)
      ensures if !gotMemory then r == -1
              else this.servers == servers
                   && if |q| + 16 > 512 then ConnectedFrom(r, net, 64)
                      else SentFrom(r, net, if flagrecursive then 16 else 0)
      ensures r == -1 ==> Released() && (os.failed || (Traced() && Exhausted()))
      ensures r == 0 <==> gotMemory && if |q| + 16 > 512 then GetsThrough(servers, net, 64, ATTEMPTS)
                                       else GetsThrough(servers, net, if flagrecursive then 16 else 0, 64)
    {
      hide IsRun, Known, IsQuery, IsName, Contacts;
      hide Transmit.Sending, Transmit.Receiving, Transmit.Asking, Transmit.Owned;
      hide Transmit.UdpBefore, Transmit.TcpBefore;
      var len := Length(q);
      Prepare(servers, flagrecursive, q, qtype, localip, gotMemory);
      if !gotMemory { return -1; }
      if len + 16 > 512 {
        r := FirstTcp(net);
      } else {
        r := ThisUdp(net);
      }
    }

    /** irrelevant. It also gives up on a packet when there is no memory for the name in it. */
    method Irrelevant(buf: bytes, gotMemory: bool) returns (b: bool)
      requires Asking()
      ensures b <==> !(gotMemory && Relevant(query.value, qtype, buf))
    {
      hide IsQuery, IsName, NameAt, Same;
      QuestionOf(query.value, recursive, name, qtype);
      var pos, out := Copy(buf, 0, 12);
      if pos == 0 { return true; }
      if out[..2] != query.value[2..4] { return true; }
      if out[4] != 0 { return true; }
      if out[5] != 1 { return true; }
      var dn := GetName(buf, pos);
      if dn == None { return true; }
      if !gotMemory { return true; }
      NameAtIsName(buf, pos);
      var same := Equal(dn.value.0, query.value[14..querylen - 4]);
      if !same { return true; }
      pos, out := Copy(buf, dn.value.1, 4);
      if pos == 0 { return true; }
      if out[..2] != qtype { return true; }
      if out[2..] != [0, 1] { return true; }
      return false;
    }

    /** The packet held answers the query that was sent last, completely and without a failure code. */
    ghost predicate Answered(asked: Option<bytes>)
      reads `query, `packet, `packetlen, `s1, `qtype, `curserver
    {
      && query == None && s1 == 0 && curserver < SERVERS && packet.Some? && packetlen == |packet.value|
      && asked.Some? && |asked.value| >= 18 && Acceptable(asked.value, qtype, packet.value)
    }

    /** serverwantstcp and serverfailed read the header only. */
    method ServerWantsTcp(buf: bytes) returns (b: bool)
      ensures b == WantsTcp(buf)
    {
      var pos, out := Copy(buf, 0, 12);
      if pos == 0 { return true; }
      return out[2] / 2 % 2 == 1;
    }

    method HasFailed(buf: bytes) returns (b: bool)
      ensures b == ServerFailed(buf)
    {
      var pos, out := Copy(buf, 0, 12);
      if pos == 0 { return true; }
      var rcode := out[3] % 16;
      return rcode != 0 && rcode != 3;
    }

    /** What recv has brought is handled: a packet, or nothing after a failure. */
    method GetUdp(udpbuf: bytes, refused: bool, gotMemory: bool, kept: bool, net: Net) returns (r: int)
      requires Waiting() && tcpstate == 0
      modifies `query, `packet, `s1, `tcpstate, `udploop, `curserver, `deadline, `attempts, `udpEnd, `tcpEnd,
               `sent, `begun, `pos, `packetlen, `received, os
      ensures old(os.contacted) <= os.contacted
      ensures Owned() && Traced() && -1 <= r <= 1
      ensures r == 0 ==> Waiting() && Number() >= old(Number())
      ensures r == 1 ==> Answered(old(query))
      ensures r == -1 ==> Released() && (os.failed || Exhausted())
      ensures match UdpReaction(old(query).value, qtype, old(udploop), udpbuf, refused, gotMemory)
              case Ignore => r == 0 && tcpstate == 0 && Number() == old(Number()) && query == old(query)
              case NextServer => SentFrom(r, net, old(Number()) + 1)
              case SwitchToTcp => ConnectedFrom(r, net, 64)
              case Keep => if kept then r == 1 && packet == Some(udpbuf) else r == -1
    {
      hide IsRun, Known, IsQuery, IsName, Relevant, Contacts;
      if udpbuf == [] {
        if refused && udploop == 2 { return 0; }
        r := NextUdp(net);
        return;
      }
      if |udpbuf| + 1 > 513 { return 0; }
      var irrelevant := Irrelevant(udpbuf, gotMemory);
      if irrelevant { return 0; }
      var wantsTcp := ServerWantsTcp(udpbuf);
      if wantsTcp {
        r := FirstTcp(net);
        return;
      }
      var failed := HasFailed(udpbuf);
      if failed {
        if udploop == 2 { return 0; }
        r := NextUdp(net);
        return;
      }
      r := Accept(udpbuf, kept);
    }

    /** Keeps the UDP packet: the socket and the query are no longer needed. */
    method Accept(udpbuf: bytes, kept: bool) returns (r: int)
      requires Owned() && Asking() && packet == None && Traced() && curserver < SERVERS
      requires Acceptable(query.value, qtype, udpbuf)
      modifies `query, `packet, `s1, `tcpstate, `udploop, `curserver, `deadline, `attempts, `udpEnd, `tcpEnd,
               `sent, `begun, `pos, `packetlen, `received, os
      ensures old(os.contacted) <= os.contacted
      ensures Owned() && Traced() && r == (if kept then 1 else -1)
      ensures r == 1 ==> Answered(old(query)) && packet == Some(udpbuf)
      ensures r == -1 ==> Released() && os.failed
    {
      hide IsRun, Acceptable, IsName, IsQuery, Contacts;
      SocketFree();
      packetlen := |udpbuf|;
      os.Alloc(kept);
      if !kept {
        Free();
        return -1;
      }
      packet := Some(udpbuf);
      QueryFree();
      return 1;
    }

    /** State 1: the connection attempt has come to an end. */
    method GetConnected(connected: bool, net: Net) returns (r: int)
      requires Waiting() && tcpstate == 1
      modifies `query, `packet, `s1, `tcpstate, `udploop, `curserver, `deadline, `attempts, `udpEnd, `tcpEnd,
               `sent, `begun, `pos, `packetlen, `received, os
      ensures old(os.contacted) <= os.contacted
      ensures udpEnd == old(udpEnd)
      ensures Owned() && Traced() && -1 <= r <= 1
      ensures r == 0 ==> Waiting() && Number() >= old(Number())
      ensures r == 1 ==> Answered(old(query))
      ensures r == -1 ==> Released() && (os.failed || Exhausted())
      ensures if connected then r == 0 && Number() == old(Number()) && tcpstate == 2 && pos == begun == 0
              else ConnectedFrom(r, net, 64 + old(curserver) + 1)
    {
      hide IsRun, Known, IsQuery, IsName, Contacts;
      if !connected {
        r := NextTcp(net);
        return;
      }
      pos := 0;
      sent, begun := [], 0;
      tcpstate := 2;
      NothingSent(query.value, 0);
      SmallWord(0);
      return 0;
    }

    /** n more bytes have gone out: those of the query at pos, or whatever lies beyond it. */
    method WriteQuery(n: nat)
      requires Waiting() && tcpstate == 2 && 0 < n <= W32(querylen - pos as nat)
      modifies `sent, `pos, `tcpstate, `deadline, os`clock
      ensures Sending() && old(sent) <= sent && |sent| == |old(sent)| + n
      ensures tcpstate == if begun + |sent| == WriteEnd() then 3 else 2
    {
      hide IsRun, Known, IsQuery, IsName, Contacts, W32;
      var stray: bytes :| |stray| == n by {
        assert |seq(n, _ => 0)| == n;
      }
      var data := if pos as nat + n <= querylen then query.value[pos..pos as nat + n] else stray;
      WritesOn(query.value, begun, sent, pos, data);
      sent := sent + data;
      pos := W32(pos as nat + n);
      if pos as nat == querylen {
        os.Now();
        deadline := os.clock + 10;
        tcpstate := 3;
      }
    }

    /** State 2: n more bytes can be written, or the connection has failed. */
    method GetWritable(n: int, net: Net) returns (r: int)
      requires Waiting() && tcpstate == 2 && n <= W32(querylen - pos as nat)
      modifies `query, `packet, `s1, `tcpstate, `udploop, `curserver, `deadline, `attempts, `udpEnd, `tcpEnd,
               `sent, `begun, `pos, `packetlen, `received, os
      ensures old(os.contacted) <= os.contacted
      ensures udpEnd == old(udpEnd)
      ensures Owned() && Traced() && -1 <= r <= 1
      ensures r == 0 ==> Waiting() && Number() >= old(Number())
      ensures r == 1 ==> Answered(old(query))
      ensures r == -1 ==> Released() && (os.failed || Exhausted())
      ensures n > 0 ==>
                && r == 0 && Number() == old(Number()) && begun == old(begun) && query == old(query)
                && old(sent) <= sent && |sent| == |old(sent)| + n
                && tcpstate == if begun + |sent| == WriteEnd() then 3 else 2
      ensures n <= 0 ==> ConnectedFrom(r, net, 64 + old(curserver) + 1)
    {
      hide IsRun, Known, IsQuery, IsName, Contacts, W32;
      hide Transmit.Sending;
      if n <= 0 {
        r := NextTcp(net);
        return;
      }
      WriteQuery(n);
      return 0;
    }

    /** States 3 and 4: one byte of the packet's length, or the end of the connection. */
    method GetLength(ch: Option<byte>, gotMemory: bool, net: Net) returns (r: int)
      requires Waiting() && (tcpstate == 3 || tcpstate == 4)
      modifies `query, `packet, `s1, `tcpstate, `udploop, `curserver, `deadline, `attempts, `udpEnd, `tcpEnd,
               `sent, `begun, `pos, `packetlen, `received, os
      ensures old(os.contacted) <= os.contacted
      ensures udpEnd == old(udpEnd)
      ensures Owned() && Traced() && -1 <= r <= 1
      ensures r == 0 ==> Waiting() && Number() >= old(Number())
      ensures r == 1 ==> Answered(old(query))
      ensures r == -1 ==> Released() && (os.failed || Exhausted())
      ensures if ch == None then ConnectedFrom(r, net, 64 + old(curserver) + 1)
              else if old(tcpstate) == 4 && !gotMemory then r == -1
              else
                && r == 0 && Number() == old(Number()) && tcpstate == old(tcpstate) + 1
                && packetlen == (if old(tcpstate) == 3 then ch.value else old(packetlen) * 256 + ch.value)
                && (tcpstate == 5 ==> pos == 0)
    {
      hide IsRun, Known, IsQuery, IsName, Contacts;
      if ch == None {
        r := NextTcp(net);
        return;
      }
      if tcpstate == 3 {
        packetlen := ch.value;
        tcpstate := 4;
        return 0;
      }
      packetlen := packetlen * 256 + ch.value;
      r := StartPacket(gotMemory);
    }

    method StartPacket(gotMemory: bool) returns (r: int)
      requires Owned() && Asking() && packet == None && s1 > 0 && tcpstate == 4 && packetlen < 0x1_0000
      requires Sending()
      modifies `query, `s1, `pos, `tcpstate, `packet, `received, os`open, os`live, os`failed
      ensures Owned() && r == (if gotMemory then 0 else -1)
      ensures r == 0 ==> Asking() && Sending() && Receiving() && tcpstate == 5 && s1 == old(s1) && pos == 0
      ensures r == -1 ==> Released() && os.failed
    {
      hide IsQuery, IsName;
      tcpstate := 5;
      pos := 0;
      os.Alloc(gotMemory);
      if !gotMemory {
        Free();
        return -1;
      }
      packet := Some(seq(packetlen, _ => 0));
      received := [];
      NothingSent(packet.value, 0);
      return 0;
    }

    /** The bytes read go into the packet at pos. */
    method StoreRead(data: bytes)
      requires packet.Some? && tcpstate == 5 && Receiving() && pos as nat + |data| <= packetlen
      modifies `packet, `received, `pos
      ensures packet.Some? && |packet.value| == packetlen && pos as nat == old(pos) as nat + |data|
      ensures received == old(received) + data == packet.value[..pos]
    {
      var was, next := packet.value, pos as nat + |data|;
      packet := Some(was[..pos] + data + was[next..]);
      received := received + data;
      assert packet.value[..next] == was[..pos] + data;
      pos := next;
    }

    /** State 5: part of the packet has been read, or nothing at the end of the connection. */
    method GetReadable(data: bytes, gotMemory: bool, net: Net) returns (r: int)
      requires Waiting() && tcpstate == 5 && pos as nat + |data| <= packetlen
      modifies `query, `packet, `s1, `tcpstate, `udploop, `curserver, `deadline, `attempts, `udpEnd, `tcpEnd,
               `sent, `begun, `pos, `packetlen, `received, os
      ensures old(os.contacted) <= os.contacted
      ensures udpEnd == old(udpEnd)
      ensures Owned() && Traced() && -1 <= r <= 1
      ensures r == 0 ==> Waiting() && Number() >= old(Number())
      ensures r == 1 ==> Answered(old(query))
      ensures r == -1 ==> Released() && (os.failed || Exhausted())
      ensures var whole := old(received) + data;
              if data == [] then r != 1 && (r == 0 ==> Number() > old(Number()))
              else if |whole| < old(packetlen) then
                r == 0 && Number() == old(Number()) && tcpstate == 5 && received == whole && query == old(query)
              else if gotMemory && Acceptable(old(query).value, qtype, whole) then r == 1 && packet == Some(whole)
              else r != 1 && (r == 0 ==> Number() > old(Number()))
    {
      hide IsRun, Known, IsQuery, IsName, Acceptable, Contacts;
      if data == [] {
        r := NextTcp(net);
        return;
      }
      StoreRead(data);
      if pos as nat < packetlen { return 0; }
      assert received == packet.value[..pos] == packet.value;
      r := Finish(gotMemory, net);
    }

    /** The whole packet is there. */
    method Finish(gotMemory: bool, net: Net) returns (r: int)
      requires Owned() && Asking() && udploop <= 4 && curserver < SERVERS && TcpBefore(curserver + 1)
      requires tcpstate > 0 && packet.Some? && |packet.value| == packetlen
      modifies `query, `packet, `s1, `tcpstate, `udploop, `curserver, `deadline, `attempts, `udpEnd, `tcpEnd,
               `sent, `begun, `pos, `packetlen, `received, os
      ensures old(os.contacted) <= os.contacted
      ensures udpEnd == old(udpEnd)
      ensures Owned() && Traced() && -1 <= r <= 1
      ensures r == 0 ==> Waiting() && Number() > old(Number())
      ensures r == 1 ==> Answered(old(query)) && packet == old(packet)
      ensures r == 1 <==> gotMemory && Acceptable(old(query).value, qtype, old(packet).value)
      ensures r == -1 ==> Released() && (os.failed || Exhausted())
    {
      hide IsRun, Known, IsQuery, IsName, Relevant, Contacts;
      SocketFree();
      var irrelevant := Irrelevant(packet.value, gotMemory);
      if irrelevant {
        r := NextTcp(net);
        return;
      }
      var wantsTcp := ServerWantsTcp(packet.value);
      if wantsTcp {
        r := NextTcp(net);
        return;
      }
      var failed := HasFailed(packet.value);
      if failed {
        r := NextTcp(net);
        return;
      }
      QueryFree();
      return 1;
    }

    /** The attempt's time is up. */
    method Timeout(net: Net) returns (r: int)
      requires Waiting()
      modifies `query, `packet, `s1, `tcpstate, `udploop, `curserver, `deadline, `attempts, `udpEnd, `tcpEnd,
               `sent, `begun, os
      ensures old(os.contacted) <= os.contacted
      ensures old(tcpstate) > 0 ==> udpEnd == old(udpEnd)
      ensures Owned() && Traced()
      ensures r == 0 ==> Waiting() && (tcpstate == 0 <==> old(tcpstate) == 0)
      ensures r == -1 ==> Released() && (os.failed || Exhausted())
      ensures if old(tcpstate) == 0 then SentFrom(r, net, old(Number()) + 1)
              else ConnectedFrom(r, net, old(Number()) + 1)
    {
      hide IsRun, Known, IsQuery, IsName, Contacts;
      hide Transmit.Sending, Transmit.Asking;
      if tcpstate == 0 {
        r := NextUdp(net);
      } else {
        r := NextTcp(net);
      }
    }

    /**
     * dns_transmit_get. While it returns 0 the attempt number never decreases, and each timeout increases it;
     * 1 leaves only an answer to the question, -1 leaves nothing.
     */
    method Get(revents: bool, when: int) returns (r: int)
      requires Waiting()
      modifies `query, `packet, `s1, `tcpstate, `udploop, `curserver, `deadline, `attempts, `udpEnd, `tcpEnd,
               `sent, `begun, `pos, `packetlen, `received, os
      ensures old(os.contacted) <= os.contacted
      ensures old(tcpstate) > 0 ==> udpEnd == old(udpEnd)
      ensures Owned() && Traced() && -1 <= r <= 1
      ensures r == 0 ==> Waiting() && Number() >= old(Number())
      ensures r == 1 ==> Answered(old(query))
      ensures r == -1 ==> Released() && (os.failed || Exhausted())
      ensures r == 0 && old(tcpstate) > 0 ==> tcpstate > 0
      ensures !revents && when < old(deadline) ==>
                r == 0 && Number() == old(Number()) && tcpstate == old(tcpstate) && deadline == old(deadline)
      ensures !revents && when >= old(deadline) ==> r != 1 && (r == 0 ==> Number() > old(Number()))
    {
      hide IsRun, Known, IsQuery, IsName, Relevant, Contacts;
      var net: Net := *;
      if !revents {
        if when < deadline { return 0; }
        r := Timeout(net);
        return;
      }
      var flag: bool, gotMemory: bool := *, *;
      if tcpstate == 0 {
        var udpbuf: bytes := *;
        var kept: bool := *;
        r := GetUdp(udpbuf, flag, gotMemory, kept, net);
      } else if tcpstate == 1 {
        r := GetConnected(flag, net);
      } else if tcpstate == 2 {
        var n: int :| n <= W32(querylen - pos as nat) && n < 0x8000_0000 by {
          assert -1 <= W32(querylen - pos as nat);
        }
        r := GetWritable(n, net);
      } else if tcpstate <= 4 {
        var ch: byte := *;
        r := GetLength(if flag then Some(ch) else None, gotMemory, net);
      } else {
        var data: bytes :| |data| <= packetlen - pos as nat;
        r := GetReadable(data, gotMemory, net);
      }
    }

    /**
     * dns_resolve, with the servers that dns_resolvconfip has found, for any sequence of wake-ups, until it ends or
     * there are no more: 0 with an answer, -1 without, 1 if it still waits. The 64th timeout at the latest is the end.
     */
    method Resolve(q: bytes, qtype: bytes, servers: bytes, wakeups: seq<Wakeup>)
        returns (r: int, ghost asked: Option<bytes>, ghost timeouts: nat)
      requires Owned() && IsName(q) && |q| + 18 < TWO32 && |qtype| == 2 && |servers| == 64
      modifies this, os
      ensures Owned() && -1 <= r <= 1
      ensures r == 0 ==> Answered(asked) && AsksFor(asked.value[2..], true, q, qtype)
                         && |q| <= 255 && Replies(asked.value[2..], packet.value)
      ensures r == -1 ==> Released()
      ensures r == 1 ==> Waiting() && timeouts < 64
    {
      hide IsRun, Known, IsQuery, IsName, Relevant, Contacts;
      hide Transmit.Sending, Transmit.Receiving, Transmit.OnTrack, Transmit.Owned;
      asked, timeouts := None, 0;
      var gotMemory: bool, net: Net := *, *;
      r := Start(servers, true, q, qtype, [0, 0, 0, 0], gotMemory, net);
      if r == -1 { return; }
      for j := 0 to |wakeups|
        invariant Waiting() && Owned() && name == q && recursive && this.qtype == qtype
        invariant 16 + timeouts <= Number() < 80
      {
        ghost var late := !wakeups[j].revents && wakeups[j].stamp >= deadline;
        asked := query;
        r := Get(wakeups[j].revents, wakeups[j].stamp);
        if r == -1 { return; }
        if r == 1 {
          QueryReads(asked.value, true, q, qtype);
          RepliesTo(asked.value, q, qtype, packet.value);
          return 0, asked, timeouts;
        }
        if late { timeouts := timeouts + 1; }
      }
      r := 1;
    }
  }

  /**
   * In every state in which a reply is awaited on a TCP connection: the bytes written are the whole query exactly if
   * writing began at its first byte, which a connection that is made at once does not see to.
   */
  lemma WholeQuerySent(t: Transmit)
    requires t.Waiting() && t.tcpstate > 2
    ensures t.sent == t.query.value <==> t.begun == 0
    ensures |t.sent| == W32(t.querylen - t.begun)
    ensures if t.begun <= t.querylen then t.sent == t.query.value[t.begun..] else |t.sent| > t.querylen
  {
    hide IsRun, Known, IsQuery, IsName, Contacts;
    assert t.query.value[0..] == t.query.value;
  }

  /** Whenever a reply is awaited, the query asks for just what was to be asked, and an echo of it would answer it. */
  lemma AskedRight(t: Transmit)
    requires t.Waiting()
    ensures AsksFor(t.query.value[2..], t.recursive, t.name, t.qtype)
    ensures Word16(t.query.value, 0) == |t.query.value[2..]| % 65536
    ensures |t.name| <= 255 ==> Relevant(t.query.value, t.qtype, t.query.value[2..])
  {
    hide IsRun, Known, IsQuery, IsName, Contacts, Relevant, AsksFor;
    hide Transmit.Sending, Transmit.Receiving, Transmit.OnTrack, Transmit.Owned;
    QueryReads(t.query.value, t.recursive, t.name, t.qtype);
  }

  /** The servers 10.0.0.1 and 10.0.0.2. */
  const TWO_SERVERS: bytes := [10, 0, 0, 1, 10, 0, 0, 2] + seq(56, _ => 0)

  lemma TwoKnown()
    ensures |TWO_SERVERS| == 64 && Known(TWO_SERVERS, 0) && Known(TWO_SERVERS, 64) && Known(TWO_SERVERS, 65)
  {
    assert Ip(TWO_SERVERS, 0)[0] == 10 && Ip(TWO_SERVERS, 1)[0] == 10;
  }

  /** A network in which every socket can be had, and the connection of attempt n is as given. */
  function NetWith(n: nat, made: bool, inProgress: bool): (net: Net)
    requires n < ATTEMPTS
    ensures net[n] == Outcome(true, 0, made, inProgress)
  {
    seq(ATTEMPTS, _ => Outcome(true, 0, false, false))[n := Outcome(true, 0, made, inProgress)]
  }

  lemma StopsAt(servers: bytes, n: nat, made: bool, inProgress: bool, b: nat)
    requires |servers| == 64 && Known(servers, n) && n < b <= ATTEMPTS && (made || (n >= 64 && inProgress))
    ensures Stop(servers, NetWith(n, made, inProgress), n, b) == n
  {
  }

  lemma RootAt(buf: bytes, pos: nat)
    requires pos < |buf| && buf[pos] == 0
    ensures NameAt(buf, pos) == Some(([0], pos + 1))
  {
    FollowPlain(buf, 0, pos + 1, 1, 0);
    assert [] + [buf[pos]] == [0];
  }

  /** The reply to a query about the root, cut off after the question. */
  function CutOff(query: bytes): (buf: bytes)
    requires IsQuery(query, false, [0], [0, 1])
    ensures Relevant(query, [0, 1], buf) && WantsTcp(buf) && |buf| == 17
  {
    hide NameAt;
    var buf := query[2..4] + [130, 0, 0, 1, 0, 0, 0, 0, 0, 0, 0, 0, 1, 0, 1];
    RootAt(buf, 12);
    assert query[14..|query| - 4] == [0] && Same([0], [0]);
    assert buf[13..15] == [0, 1] && buf[15..17] == [0, 1];
    buf
  }

  /**
   * A run in which the query is not written from its first byte. A truncated UDP reply leads to TCP; k bytes of the
   * query are written to the first server, which then times out; the second connection is made at once, and the
   * reply is awaited after the remaining bytes alone.
   */
  method StaleRun(k: nat) returns (t: Transmit)
    requires 0 < k < 19
    ensures t.Waiting() && t.tcpstate == 3 && t.begun == k && t.querylen == 19
    ensures t.sent == t.query.value[k..] != t.query.value
  {
    hide Transmit.Sending, Transmit.Receiving, Transmit.OnTrack, Transmit.Traced, Transmit.Owned;
    var os := new Os();
    t := new Transmit(os);
    StaleStart(t);
    StaleReply(t);
    StaleWriting(t, k);
  }

  method StaleStart(t: Transmit)
    requires t.Owned()
    modifies t, t.os
    ensures t.Waiting() && t.tcpstate == 0 && t.servers == TWO_SERVERS && t.qtype == [0, 1]
    ensures !t.recursive && t.name == [0]
  {
    assert IsName([0]);
    hide IsRun, Known, IsQuery, IsName, Contacts, Skipped, Stop, NetWith;
    hide Transmit.Sending, Transmit.Receiving, Transmit.OnTrack, Transmit.Traced, Transmit.Owned;
    TwoKnown();
    StopsAt(TWO_SERVERS, 0, true, false, 64);
    var r := t.Start(TWO_SERVERS, false, [0], [0, 1], [0, 0, 0, 0], true, NetWith(0, true, false));
  }

  method StaleReply(t: Transmit)
    requires t.Waiting() && t.tcpstate == 0 && t.servers == TWO_SERVERS && t.qtype == [0, 1]
    requires !t.recursive && t.name == [0]
    modifies t, t.os
    ensures t.Waiting() && t.tcpstate == 1 && t.curserver == 0 && t.querylen == 19 && t.servers == TWO_SERVERS
  {
    hide IsRun, Known, IsQuery, IsName, Contacts, Skipped, Stop, NetWith, Relevant, WantsTcp, CutOff;
    hide Transmit.Sending, Transmit.Receiving, Transmit.OnTrack, Transmit.Traced, Transmit.Owned;
    TwoKnown();
    StopsAt(TWO_SERVERS, 64, false, true, ATTEMPTS);
    var r := t.GetUdp(CutOff(t.query.value), false, true, true, NetWith(64, false, true));
  }

  method StaleWriting(t: Transmit, k: nat)
    requires t.Waiting() && t.tcpstate == 1 && t.curserver == 0 && t.querylen == 19 && t.servers == TWO_SERVERS
    requires 0 < k < 19
    modifies t, t.os
    ensures t.Waiting() && t.tcpstate == 3 && t.begun == k && t.querylen == 19
    ensures t.sent == t.query.value[k..] != t.query.value
  {
    hide IsRun, Known, IsQuery, IsName, Contacts, Skipped, Stop, NetWith;
    hide Transmit.Receiving, Transmit.OnTrack, Transmit.Traced, Transmit.Owned;
    TwoKnown();
    var net := NetWith(65, true, false);
    var r := t.GetConnected(true, net);
    r := t.GetWritable(k, net);
    StopsAt(TWO_SERVERS, 65, true, false, ATTEMPTS);
    r := t.Timeout(net);
    StaleEnd(t, k, net);
  }

  method StaleEnd(t: Transmit, k: nat, net: Net)
    requires t.Waiting() && t.tcpstate == 2 && t.querylen == 19 && t.sent == [] && t.pos as nat == t.begun == k
    requires 0 < k < 19
    modifies t, t.os
    ensures t.Waiting() && t.tcpstate == 3 && t.begun == k && t.querylen == 19
    ensures t.sent == t.query.value[k..] != t.query.value
  {
    hide IsRun, Known, IsQuery, IsName, Contacts, Skipped, Stop;
    hide Transmit.Receiving, Transmit.OnTrack, Transmit.Traced, Transmit.Owned;
    var r := t.GetWritable(19 - k, net);
    WholeQuerySent(t);
  }

  /**
   * A run in which writing begins beyond the query: the first server sends m bytes of a longer reply and times out,
   * and the second connection is made at once.
   */
  method StaleBeyond(m: nat) returns (t: Transmit)
    requires 19 < m < 255
    ensures t.Waiting() && t.tcpstate == 2 && t.begun == m > t.querylen
  {
    hide Transmit.Sending, Transmit.Receiving, Transmit.OnTrack, Transmit.Traced, Transmit.Owned;
    var os := new Os();
    t := new Transmit(os);
    StaleStart(t);
    StaleReply(t);
    StaleLength(t);
    StaleReading(t, m);
  }

  method StaleLength(t: Transmit)
    requires t.Waiting() && t.tcpstate == 1 && t.curserver == 0 && t.querylen == 19 && t.servers == TWO_SERVERS
    modifies t, t.os
    ensures t.Waiting() && t.tcpstate == 4 && t.packetlen == 0
    ensures t.curserver == 0 && t.querylen == 19 && t.servers == TWO_SERVERS
  {
    hide IsRun, Known, IsQuery, IsName, Contacts, Skipped, Stop, NetWith;
    hide Transmit.Receiving, Transmit.OnTrack, Transmit.Traced, Transmit.Owned;
    TwoKnown();
    var net := NetWith(65, true, false);
    var r := t.GetConnected(true, net);
    r := t.GetWritable(19, net);
    r := t.GetLength(Some(0), true, net);
  }

  method StaleReading(t: Transmit, m: nat)
    requires t.Waiting() && t.tcpstate == 4 && t.packetlen == 0
    requires t.curserver == 0 && t.querylen == 19 && t.servers == TWO_SERVERS && 19 < m < 255
    modifies t, t.os
    ensures t.Waiting() && t.tcpstate == 2 && t.begun == m > t.querylen
  {
    hide IsRun, Known, IsQuery, IsName, Contacts, Skipped, Stop, NetWith, Acceptable;
    hide Transmit.Sending, Transmit.OnTrack, Transmit.Traced, Transmit.Owned;
    TwoKnown();
    var net := NetWith(65, true, false);
    var r := t.GetLength(Some(255), true, net);
    r := t.GetReadable(seq(m, _ => 0), true, net);
    assert t.pos as nat == |t.packet.value[..t.pos]| == m;
    StopsAt(TWO_SERVERS, 65, true, false, ATTEMPTS);
    r := t.Timeout(net);
  }

  /** More bytes written from a position that may have passed the query. */
  lemma WritesOn(query: bytes, begun: nat, sent: bytes, pos: uint32, data: bytes)
    requires |query| < TWO32 && begun < TWO32 && 0 < |data| <= W32(|query| - pos as nat)
    requires begun + |sent| <= (if begun <= |query| then |query| else TWO32 + |query|) && pos == W32(begun + |sent|)
    requires begun <= |query| ==> sent == query[begun..begun + |sent|]
    requires pos as nat + |data| <= |query| ==> data == query[pos..pos as nat + |data|]
    ensures var end, all := if begun <= |query| then |query| else TWO32 + |query|, sent + data;
            && begun + |all| <= end && W32(pos as nat + |data|) == W32(begun + |all|)
            && (W32(begun + |all|) == |query| <==> begun + |all| == end)
            && (begun <= |query| ==> all == query[begun..begun + |all|])
  {
    hide W32;
    RoomLeft(|query|, begun, |sent|);
    Arrived(|query|, begun, |sent| + |data|);
    NextPosition(begun, |sent|, |data|);
    if begun <= |query| {
      SmallWord(begun + |sent|);
      SliceGrows(query, begun, pos, |data|);
    }
  }

  /** What is left to write is what W32 makes of the difference, even when the position has passed the query. */
  lemma RoomLeft(querylen: nat, begun: nat, len: nat)
    requires querylen < TWO32 && begun < TWO32
    requires begun + len <= if begun <= querylen then querylen else TWO32 + querylen
    ensures W32(querylen - W32(begun + len))
         == (if begun <= querylen then querylen else TWO32 + querylen) - (begun + len)
  {
  }

  lemma Arrived(querylen: nat, begun: nat, len: nat)
    requires querylen < TWO32 && begun < TWO32 && len > 0
    ensures var end := if begun <= querylen then querylen else TWO32 + querylen;
            begun + len <= end ==> (W32(begun + len) == querylen <==> begun + len == end)
  {
  }

  lemma SliceGrows(s: bytes, a: nat, b: nat, n: nat)
    requires a <= b && b + n <= |s|
    ensures s[a..b] + s[b..b + n] == s[a..b + n]
  {
  }

  lemma NextPosition(begun: nat, len: nat, n: nat)
    ensures W32(W32(begun + len) + n) == W32(begun + (len + n))
  {
  }

  lemma SmallWord(x: nat)
    requires x < TWO32
    ensures W32(x) == x
  {
  }

  lemma SameServer(servers: bytes, n: nat, m: nat)
    requires |servers| == 64 && n % SERVERS == m % SERVERS
    ensures Known(servers, n) == Known(servers, m)
  {
  }

  lemma KnownHere(servers: bytes, server: nat)
    requires |servers| == 64 && server < SERVERS
    ensures Known(servers, server) <==> Ip(servers, server) != [0, 0, 0, 0]
  {
  }

  lemma NothingTried(servers: bytes, from: nat)
    requires |servers| == 64 && from <= 64
    ensures IsRun(servers, [], from, from, 64)
  {
    assert Plan(servers, from, from) == [] && Plan(servers, 64, 64) == [];
  }

  lemma NothingSent(query: bytes, pos: nat)
    ensures pos <= |query| ==> query[pos..pos] == []
  {
  }

  /** Making the next known attempt, or passing over an empty slot, continues a run. */
  lemma NextInRun(servers: bytes, attempts: seq<nat>, from: nat, udpEnd: nat, tcpEnd: nat)
    requires |servers| == 64 && IsRun(servers, attempts, from, udpEnd, tcpEnd)
    ensures udpEnd < 64 && tcpEnd == 64 ==>
              IsRun(servers, attempts + (if Known(servers, udpEnd) then [udpEnd] else []), from, udpEnd + 1, 64)
    ensures tcpEnd < 80 ==>
              IsRun(servers, attempts + (if Known(servers, tcpEnd) then [tcpEnd] else []), from, udpEnd, tcpEnd + 1)
  {
    hide Known;
    var p, q := Plan(servers, from, udpEnd), Plan(servers, 64, tcpEnd);
    assert Plan(servers, from, udpEnd + 1) == p + (if Known(servers, udpEnd) then [udpEnd] else []);
    assert Plan(servers, 64, tcpEnd + 1) == q + (if Known(servers, tcpEnd) then [tcpEnd] else []);
    assert tcpEnd == 64 ==> q == [];
  }

}
