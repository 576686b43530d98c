/** query.c and dd.c: what doit reads out of names, cached data and packets, and the records it answers with. */
module QueryData {
  import opened Bytes
  import opened Domain
  import opened Packet
  import opened PacketRecords
  import DotText

  const T_A: bytes := [0, 1]
  const T_NS: bytes := [0, 2]
  const T_CNAME: bytes := [0, 5]
  const T_SOA: bytes := [0, 6]
  const T_PTR: bytes := [0, 12]
  const T_MX: bytes := [0, 15]
  const T_AXFR: bytes := [0, 252]
  const T_ANY: bytes := [0, 255]
  const KNOWN_TYPES: seq<bytes> := [T_ANY, T_AXFR, T_CNAME, T_NS, T_PTR, T_A, T_MX]
  const IN: bytes := [0, 1]
  const MAXNS := 16

  /** The four bytes of an address. */
  type Ip4 = ip: bytes | |ip| == 4 witness [0, 0, 0, 0]

  predicate TypeMatch(rtype: bytes, qtype: bytes) {
    qtype == rtype || qtype == T_ANY
  }

  /** A part of a record's data: bytes as they are, or a name. */
  datatype Part = Raw(s: bytes) | Name(d: bytes)

  /** What goes into the response. */
  datatype Event = Asked(d: bytes) | Alias(d: bytes, target: bytes, ttl: uint32)
                 | Record(owner: bytes, rtype: bytes, ttl: uint32, data: seq<Part>)
                 | NoSuchName | Failure

  // --- names that stand for addresses -------------------------------------------------------------

  /** The wire form of a name with these labels. */
  function NameOf(labels: seq<bytes>): (d: bytes)
    requires DotText.Short(labels)
    ensures IsName(d)
  {
    DotText.EncodeIsName(labels);
    DotText.Encode(labels) + [0]
  }

  const LOCALHOST: bytes := NameOf([[108, 111, 99, 97, 108, 104, 111, 115, 116]])
  const LOOPBACK: bytes := [127, 0, 0, 1]
  // 1.0.0.127.in-addr.arpa
  const LOCALHOST_PTR: bytes :=
    NameOf([[49], [48], [48], [49, 50, 55], [105, 110, 45, 97, 100, 100, 114], [97, 114, 112, 97]])
  const LOCAL_TTL: uint32 := 655360

  function Decimal(x: byte): (s: bytes)
    ensures 1 <= |s| <= 3
  {
    if x < 10 then [48 + x] else if x < 100 then [48 + x / 10, 48 + x % 10]
    else [48 + x / 100, 48 + x / 10 % 10, 48 + x % 10]
  }

  /** The name whose labels are these numbers in decimal. */
  function DottedName(ip: bytes): bytes {
    if ip == [] then [0] else [|Decimal(ip[0])|] + Decimal(ip[0]) + DottedName(ip[1..])
  }

  /** The number below 256 that a label is in decimal, without leading zeros. */
  function Octet(s: bytes): Option<byte> {
    if s == [] || |s| > 3 || !(48 <= s[0] <= 57) then None
    else if |s| == 1 then Some(s[0] - 48)
    else if s[0] == 48 || !(48 <= s[1] <= 57) then None
    else if |s| == 2 then Some((s[0] as int - 48) * 10 + s[1] as int - 48)
    else
      var x := (s[0] as int - 48) * 100 + (s[1] as int - 48) * 10 + s[2] as int - 48;
      if !(48 <= s[2] <= 57) || x > 255 then None else Some(x)
  }

  lemma OctetRead(s: bytes)
    requires Octet(s).Some?
    ensures s == Decimal(Octet(s).value)
  {
    var x := Octet(s).value as int;
    if |s| == 3 {
      assert x / 100 == s[0] as int - 48 && x / 10 == (s[0] as int - 48) * 10 + s[1] as int - 48;
    } else if |s| == 2 {
      assert x / 10 == s[0] as int - 48;
    }
  }

  lemma OctetWritten(x: byte)
    ensures Octet(Decimal(x)) == Some(x)
  {
    var a, b, c := x / 100, x / 10 % 10, x % 10;
    assert 0 <= a <= 2 && 0 <= b <= 9 && 0 <= c <= 9 && x == a * 100 + b * 10 + c;
    if x >= 100 {
      assert Decimal(x) == [48 + a, 48 + b, 48 + c] && a >= 1;
    } else if x >= 10 {
      assert Decimal(x) == [48 + b, 48 + c] && b >= 1;
    }
  }

  /** dd with an empty base, as query.c uses it. */
  function DottedFrom(d: bytes, left: nat): Option<bytes>
    requires IsName(d)
    decreases left
  {
    if d[0] == 0 then if left == 0 then Some([]) else None
    else if left == 0 || Octet(d[1..d[0] + 1]) == None then None
    else
      match DottedFrom(Parent(d), left - 1)
      case None => None
      case Some(rest) => Some([Octet(d[1..d[0] + 1]).value] + rest)
  }

  lemma {:induction false} DottedRead(d: bytes, left: nat)
    requires IsName(d) && DottedFrom(d, left).Some?
    ensures |DottedFrom(d, left).value| == left && d == DottedName(DottedFrom(d, left).value)
    decreases left
  {
    hide Octet, Decimal;
    if d[0] != 0 {
      OctetRead(d[1..d[0] + 1]);
      DottedRead(Parent(d), left - 1);
      assert d == [d[0]] + d[1..d[0] + 1] + Parent(d);
      assert DottedFrom(d, left).value[1..] == DottedFrom(Parent(d), left - 1).value;
    }
  }

  lemma {:induction false} DottedWritten(ip: bytes)
    ensures IsName(DottedName(ip)) && DottedFrom(DottedName(ip), |ip|) == Some(ip)
    decreases |ip|
  {
    hide Octet, Decimal;
    if ip != [] {
      DottedWritten(ip[1..]);
      OctetWritten(ip[0]);
      var d := DottedName(ip);
      assert Parent(d) == DottedName(ip[1..]) && d[1..d[0] + 1] == Decimal(ip[0]);
      assert [ip[0]] + ip[1..] == ip;
    }
  }

  /** A name is read as an address exactly if it is the address written out. */
  lemma DottedExact(d: bytes, ip: bytes)
    requires IsName(d)
    ensures DottedFrom(d, |ip|) == Some(ip) <==> d == DottedName(ip)
  {
    DottedWritten(ip);
    if DottedFrom(d, |ip|) == Some(ip) {
      DottedRead(d, |ip|);
    }
  }

  function Joined(read: bytes, rest: Option<bytes>): Option<bytes> {
    if rest == None then None else Some(read + rest.value)
  }

  lemma JoinedNothing(rest: Option<bytes>)
    ensures Joined([], rest) == rest
  {
    if rest.Some? {
      assert [] + rest.value == rest.value;
    }
  }

  lemma JoinedStep(q: bytes, read: bytes, left: nat)
    requires IsName(q) && q[0] != 0 && left > 0
    ensures Joined(read, DottedFrom(q, left))
         == match Octet(q[1..q[0] + 1])
            case None => None
            case Some(x) => Joined(read + [x], DottedFrom(Parent(q), left - 1))
  {
    hide Octet;
    var x, rest := Octet(q[1..q[0] + 1]), DottedFrom(Parent(q), left - 1);
    if x.Some? && rest.Some? {
      assert read + ([x.value] + rest.value) == read + [x.value] + rest.value;
    }
  }

  /** dd on a name, with an empty base; the caller accepts four numbers. */
  method Dd(d: bytes) returns (ip: Option<bytes>)
    requires IsName(d)
    ensures ip == DottedFrom(d, 4)
    ensures ip.Some? ==> |ip.value| == 4
  {
    hide Octet, Joined;
    var q, read, j := d, [], 0;
    JoinedNothing(DottedFrom(d, 4));
    while true
      invariant IsName(q) && j <= 4 && |read| == j
      invariant DottedFrom(d, 4) == Joined(read, DottedFrom(q, 4 - j))
      decreases |q|
    {
      RootOnly(q);
      var done := Equal(q, ROOT);
      if done {
        JoinedEnd(read);
        return if j == 4 then Some(read) else None;
      }
      if j >= 4 {
        JoinedEnd(read);
        return None;
      }
      JoinedStep(q, read, 4 - j);
      var x := DdOctet(q);
      if x == None {
        return None;
      }
      read, q, j := read + [x.value], Parent(q), j + 1;
    }
  }

  lemma JoinedEnd(read: bytes)
    ensures Joined(read, Some([])) == Some(read) && Joined(read, None) == None
  {
    assert read + [] == read;
  }

  /** The loop body of dd: the number that the first label of q is. */
  method DdOctet(q: bytes) returns (r: Option<byte>)
    requires IsName(q) && q[0] != 0
    ensures r == Octet(q[1..q[0] + 1])
  {
    if q[0] >= 4 { return None; }
    if q[1] < 48 || q[1] > 57 { return None; }
    var x := q[1] as int - 48;
    if q[0] == 1 { return Some(x); }
    if x == 0 { return None; }
    if q[2] < 48 || q[2] > 57 { return None; }
    x := x * 10 + (q[2] as int - 48);
    if q[0] == 2 { return Some(x); }
    if q[3] < 48 || q[3] > 57 { return None; }
    x := x * 10 + (q[3] as int - 48);
    if x > 255 { return None; }
    return Some(x);
  }

  lemma RootOnly(d: bytes)
    requires IsName(d)
    ensures Same(d, ROOT) <==> d[0] == 0
  {
    assert LowerAll(ROOT) == [0];
    if d[0] == 0 {
      assert d == ROOT;
    } else {
      assert |LowerAll(d)| == |d| > 1;
    }
  }

  // --- cached data --------------------------------------------------------------------------------

  datatype Datum = Datum(data: bytes, ttl: uint32)

  /** What the cache holds for a name: a denial, an alias, or data of the types asked for. */
  datatype CacheView = CacheView(nxdomain: bool, cname: Option<bytes>, cnameTtl: uint32, ns: Option<Datum>,
                                 ptr: Option<Datum>, mx: Option<Datum>, a: Option<Datum>, other: Option<Datum>)

  /** An empty answer is of no use to a query for any type. */
  predicate Usable(cached: Option<Datum>, dtype: bytes) {
    cached.Some? && (cached.value.data != [] || dtype != T_ANY)
  }

  /** The first kind of cached data that answers a query for this type. */
  function Hit(v: CacheView, dtype: bytes): Option<bytes> {
    if TypeMatch(T_NS, dtype) && Usable(v.ns, dtype) then Some(T_NS)
    else if TypeMatch(T_PTR, dtype) && Usable(v.ptr, dtype) then Some(T_PTR)
    else if TypeMatch(T_MX, dtype) && Usable(v.mx, dtype) then Some(T_MX)
    else if TypeMatch(T_A, dtype) && Usable(v.a, dtype) then Some(T_A)
    else if dtype !in KNOWN_TYPES && Usable(v.other, dtype) then Some(dtype)
    else None
  }

  /** A name that has been read lies before the position after it. */
  lemma NameAhead(buf: bytes, pos: nat)
    requires NameAt(buf, pos).Some?
    ensures pos < NameAt(buf, pos).value.1 && pos < |buf|
  {
    hide GetFrom;
    GetNameSkipName(buf, pos);
    SkipAdvances(buf, pos);
    assert pos < |buf| by {
      GetFromInside(buf, pos);
    }
  }

  lemma GetFromInside(buf: bytes, pos: nat)
    requires GetFrom(buf, pos, 0, 0, 0, []).Some?
    ensures pos < |buf|
  {
  }

  /** The names in cached data, up to the first that cannot be read. */
  function NamesIn(data: bytes, pos: nat): seq<bytes>
    decreases |data| - pos
  {
    if NameAt(data, pos) == None then []
    else
      NameAhead(data, pos);
      [NameAt(data, pos).value.0] + NamesIn(data, NameAt(data, pos).value.1)
  }

  /** The preferences and names in cached data, up to the first that cannot be read. */
  function ExchangesIn(data: bytes, pos: nat): seq<seq<Part>>
    decreases |data| - pos
  {
    if pos + 2 > |data| || NameAt(data, pos + 2) == None then []
    else
      NameAhead(data, pos + 2);
      var (d, next) := NameAt(data, pos + 2).value;
      [[Raw(data[pos..pos + 2]), Name(d)]] + ExchangesIn(data, next)
  }

  /** The addresses in cached data. */
  function AddressesIn(data: bytes): seq<Ip4>
    decreases |data|
  {
    if |data| < 4 then [] else [data[..4]] + AddressesIn(data[4..])
  }

  /** Data in front of which its length stands. */
  function StringsIn(data: bytes): Option<seq<bytes>>
    decreases |data|
  {
    if |data| < 2 then Some([])
    else
      var n := data[0] as nat * 256 + data[1];
      if n > |data| - 2 then None
      else
        match StringsIn(data[2 + n..])
        case None => None
        case Some(rest) => Some([data[2..2 + n]] + rest)
  }

  /** Records with these data. */
  function Records(d: bytes, rtype: bytes, ttl: uint32, datas: seq<seq<Part>>): seq<Event> {
    seq(|datas|, i requires 0 <= i < |datas| => Record(d, rtype, ttl, datas[i]))
  }

  function NameData(names: seq<bytes>): seq<seq<Part>> {
    seq(|names|, i requires 0 <= i < |names| => [Name(names[i])])
  }

  function RawData(strings: seq<bytes>): seq<seq<Part>> {
    seq(|strings|, i requires 0 <= i < |strings| => [Raw(strings[i])])
  }

  lemma RecordsMore(d: bytes, rtype: bytes, ttl: uint32, datas: seq<seq<Part>>, data: seq<Part>)
    ensures Records(d, rtype, ttl, datas + [data]) == Records(d, rtype, ttl, datas) + [Record(d, rtype, ttl, data)]
    ensures Records(d, rtype, ttl, []) == []
  {
  }

  lemma NameDataMore(names: seq<bytes>, d: bytes)
    ensures NameData(names + [d]) == NameData(names) + [[Name(d)]] && NameData([]) == []
  {
  }

  lemma RawDataMore(strings: seq<bytes>, s: bytes)
    ensures RawData(strings + [s]) == RawData(strings) + [[Raw(s)]] && RawData([]) == []
  {
  }

  lemma StringsStep(done: seq<bytes>, rest: bytes)
    requires |rest| >= 2 && rest[0] as nat * 256 + rest[1] <= |rest| - 2
    ensures var n := rest[0] as nat * 256 + rest[1];
            var (whole, more) := (StringsIn(rest), StringsIn(rest[2 + n..]));
            && (whole == None <==> more == None)
            && (more.Some? ==> done + whole.value == done + [rest[2..2 + n]] + more.value)
  {
  }

  /** The data of the records of this type that a string in the cache stands for, unless it is damaged. */
  function StoredData(rtype: bytes, data: bytes): Option<seq<seq<Part>>> {
    if rtype == T_NS || rtype == T_PTR then Some(NameData(NamesIn(data, 0)))
    else if rtype == T_MX then Some(ExchangesIn(data, 0))
    else if rtype == T_A then Some(RawData(AddressesIn(data)))
    else match StringsIn(data) case None => None case Some(strings) => Some(RawData(strings))
  }

  function Entry(v: CacheView, rtype: bytes): Option<Datum> {
    if rtype == T_NS then v.ns else if rtype == T_PTR then v.ptr else if rtype == T_MX then v.mx
    else if rtype == T_A then v.a else v.other
  }

  /** The records that the cache's data of this type stands for, unless it is damaged. */
  function CachedRecords(v: CacheView, d: bytes, rtype: bytes): Option<seq<Event>> {
    match Entry(v, rtype)
    case None => None
    case Some(e) =>
      match StoredData(rtype, e.data)
      case None => None
      case Some(datas) => Some(Records(d, rtype, e.ttl, datas))
  }

  // --- packets ------------------------------------------------------------------------------------

  /** ttlget: absurd values become 0 and long ones a week. */
  function Ttl(ttl: uint32): uint32 {
    if ttl > 1000000000 then 0 else if ttl > 604800 then 604800 else ttl
  }

  /** A header with a harmless response code, and a question. */
  predicate HeaderOk(buf: bytes) {
    |buf| >= 12 && SkipFrom(buf, 12) != 0 && (buf[3] % 16 == 0 || buf[3] % 16 == 3)
  }

  function AnswerStart(buf: bytes): nat {
    SkipFrom(buf, 12) + 4
  }

  /** Where the records of the answer section begin. */
  function Answers(buf: bytes): seq<nat>
    requires |buf| >= 12
  {
    Places(buf, AnswerStart(buf), Word16(buf, 6))
  }

  function AuthorityStart(buf: bytes): nat
    requires |buf| >= 12
  {
    EndOf(buf, AnswerStart(buf), Word16(buf, 6))
  }

  /** Where the records of the authority section begin. */
  function Authority(buf: bytes): seq<nat>
    requires |buf| >= 12
  {
    Places(buf, AuthorityStart(buf), Word16(buf, 8))
  }

  /** The record is about d and of class IN. */
  predicate About(p: Parsed, d: bytes)
    requires |p.head| == 4
  {
    Same(p.owner, d) && p.head[2..] == IN
  }

  /** The record at p is one that the query asks for. */
  predicate Gives(buf: bytes, p: nat, d: bytes, dtype: bytes) {
    match Parse(buf, p)
    case None => false
    case Some(r) => About(r, d) && TypeMatch(r.head[..2], dtype)
  }

  /** The record at p is an alias of d, which was not itself asked for. */
  predicate Aliases(buf: bytes, p: nat, d: bytes, dtype: bytes) {
    match Parse(buf, p)
    case None => false
    case Some(r) => About(r, d) && !TypeMatch(r.head[..2], dtype) && r.head[..2] == T_CNAME
  }

  predicate HasType(buf: bytes, p: nat, rtype: bytes) {
    match Parse(buf, p) case None => false case Some(r) => r.head[..2] == rtype
  }

  /** The name that the data of the record at p begins with. */
  function Target(buf: bytes, p: nat): Option<bytes> {
    match NameAt(buf, After(buf, p) + 10) case None => None case Some((d, _)) => Some(d)
  }

  function TtlAt(buf: bytes, p: nat): uint32 {
    match Parse(buf, p) case None => 0 case Some(r) => Ttl(r.ttl)
  }

  ghost predicate AnyGives(buf: bytes, s: seq<nat>, d: bytes, dtype: bytes) {
    exists i :: 0 <= i < |s| && Gives(buf, s[i], d, dtype)
  }

  ghost predicate AnyHasType(buf: bytes, s: seq<nat>, rtype: bytes) {
    exists i :: 0 <= i < |s| && HasType(buf, s[i], rtype)
  }

  /** Every alias has a readable target. */
  ghost predicate TargetsOk(buf: bytes, s: seq<nat>, d: bytes, dtype: bytes) {
    forall i :: 0 <= i < |s| && Aliases(buf, s[i], d, dtype) ==> Target(buf, s[i]).Some?
  }

  /** Where the last alias leads, and its ttl. */
  function LastAlias(buf: bytes, s: seq<nat>, d: bytes, dtype: bytes): Option<(bytes, uint32)> {
    if s == [] then None
    else
      var p := s[|s| - 1];
      if Aliases(buf, p, d, dtype) && Target(buf, p).Some? then Some((Target(buf, p).value, TtlAt(buf, p)))
      else LastAlias(buf, s[..|s| - 1], d, dtype)
  }

  /** The owner of the last NS record. */
  function LastZone(buf: bytes, s: seq<nat>): Option<bytes> {
    if s == [] then None
    else if HasType(buf, s[|s| - 1], T_NS) then Some(Owner(buf, s[|s| - 1]))
    else LastZone(buf, s[..|s| - 1])
  }

  /** The parts of a packet that decide how doit goes on. */
  datatype Scan = Scan(rcode: nat, flagout: bool, alias: Option<(bytes, uint32)>, referral: Option<bytes>,
                       flagsoa: bool)

  /** The packet can be read as far as HAVEPACKET reads it. */
  ghost predicate Complete(buf: bytes, d: bytes, dtype: bytes) {
    && HeaderOk(buf) && AllThere(buf, AnswerStart(buf), Word16(buf, 6)) && TargetsOk(buf, Answers(buf), d, dtype)
    && AllThere(buf, AuthorityStart(buf), Word16(buf, 8))
  }

  ghost function ScanOf(buf: bytes, d: bytes, dtype: bytes): Scan
    requires |buf| >= 12
  {
    Scan((buf[3] % 16) as nat, AnyGives(buf, Answers(buf), d, dtype), LastAlias(buf, Answers(buf), d, dtype),
         LastZone(buf, Authority(buf)), AnyHasType(buf, Authority(buf), T_SOA))
  }

  // What one more record does to each of these.

  lemma OneMoreAnswer(buf: bytes, s: seq<nat>, j: nat, d: bytes, dtype: bytes)
    requires j < |s|
    ensures AnyGives(buf, s[..j + 1], d, dtype) <==> AnyGives(buf, s[..j], d, dtype) || Gives(buf, s[j], d, dtype)
    ensures TargetsOk(buf, s[..j + 1], d, dtype)
            <==> TargetsOk(buf, s[..j], d, dtype) && (Aliases(buf, s[j], d, dtype) ==> Target(buf, s[j]).Some?)
    ensures LastAlias(buf, s[..j + 1], d, dtype)
         == if Aliases(buf, s[j], d, dtype) && Target(buf, s[j]).Some? then
              Some((Target(buf, s[j]).value, TtlAt(buf, s[j])))
            else LastAlias(buf, s[..j], d, dtype)
  {
    hide Gives, Aliases, Target, TtlAt;
    var t := s[..j + 1];
    assert t[..j] == s[..j] && t[j] == s[j];
    assert forall i :: 0 <= i < j ==> t[i] == s[..j][i];
  }

  lemma OneMoreAuthority(buf: bytes, s: seq<nat>, j: nat)
    requires j < |s|
    ensures AnyHasType(buf, s[..j + 1], T_SOA) <==> AnyHasType(buf, s[..j], T_SOA) || HasType(buf, s[j], T_SOA)
    ensures LastZone(buf, s[..j + 1])
         == if HasType(buf, s[j], T_NS) then Some(Owner(buf, s[j])) else LastZone(buf, s[..j])
  {
    hide HasType, Owner;
    var t := s[..j + 1];
    assert t[..j] == s[..j] && t[j] == s[j];
    assert forall i :: 0 <= i < j ==> t[i] == s[..j][i];
  }

  lemma TargetsPrefix(buf: bytes, s: seq<nat>, j: nat, d: bytes, dtype: bytes)
    requires j < |s| && Aliases(buf, s[j], d, dtype) && Target(buf, s[j]) == None
    ensures !TargetsOk(buf, s, d, dtype)
  {
  }

  /** The loop over the answer section. */
  method ScanAnswers(buf: bytes, pos: nat, n: nat, d: bytes, dtype: bytes)
      returns (ok: bool, flagout: bool, alias: Option<(bytes, uint32)>, end: nat)
    requires IsName(d)
    ensures ok <==> AllThere(buf, pos, n) && TargetsOk(buf, Places(buf, pos, n), d, dtype)
    ensures ok ==> flagout == AnyGives(buf, Places(buf, pos, n), d, dtype)
                   && alias == LastAlias(buf, Places(buf, pos, n), d, dtype) && end == EndOf(buf, pos, n)
  {
    hide Parse, NameAt, AllThere, Places, EndOf, Reached, AnyGives, LastAlias, TargetsOk, Same;
    ghost var s := Places(buf, pos, n);
    flagout, alias, end := false, None, pos;
    ReachedFirst(buf, pos, n);
    NoAnswers(buf, d, dtype);
    assert s[..0] == [];
    for j := 0 to n
      invariant Reached(buf, pos, n, j, end) && TargetsOk(buf, s[..j], d, dtype)
      invariant flagout == AnyGives(buf, s[..j], d, dtype) && alias == LastAlias(buf, s[..j], d, dtype)
    {
      ReachedNext(buf, pos, n, j, end);
      OneMoreAnswer(buf, s, j, d, dtype);
      var r := ReadRecord(buf, end);
      if r == None { return false, false, None, 0; }
      ParseShape(buf, end);
      var same := Equal(r.value.owner, d);
      if same && r.value.head[2..] == IN {
        if TypeMatch(r.value.head[..2], dtype) {
          flagout := true;
        } else if r.value.head[..2] == T_CNAME {
          var target := GetName(buf, r.value.after + 10);
          if target == None {
            TargetsPrefix(buf, s, j, d, dtype);
            return false, false, None, 0;
          }
          alias := Some((target.value.0, Ttl(r.value.ttl)));
        }
      }
      end := r.value.after + 10 + r.value.datalen;
    }
    assert s[..n] == s;
    ReachedLast(buf, pos, n, end);
    ok := true;
  }

  lemma NoAnswers(buf: bytes, d: bytes, dtype: bytes)
    ensures !AnyGives(buf, [], d, dtype) && TargetsOk(buf, [], d, dtype) && LastAlias(buf, [], d, dtype) == None
  {
  }

  lemma NoAuthority(buf: bytes)
    ensures !AnyHasType(buf, [], T_SOA) && LastZone(buf, []) == None
  {
  }

  /** The loop over the authority section, which copies the owner of each NS record. */
  method ScanAuthority(buf: bytes, pos: nat, n: nat, gotMemory: bool)
      returns (ok: bool, noMemory: bool, referral: Option<bytes>, flagsoa: bool)
    ensures if noMemory then !ok && !gotMemory else ok <==> AllThere(buf, pos, n)
    ensures ok ==> AllThere(buf, pos, n)
    ensures ok ==> referral == LastZone(buf, Places(buf, pos, n))
                   && flagsoa == AnyHasType(buf, Places(buf, pos, n), T_SOA)
  {
    hide Parse, NameAt, AllThere, Places, EndOf, Reached, AnyHasType, LastZone, Owner;
    ghost var s := Places(buf, pos, n);
    noMemory, referral, flagsoa := false, None, false;
    var at: nat := pos;
    ReachedFirst(buf, pos, n);
    NoAuthority(buf);
    assert s[..0] == [];
    for j := 0 to n
      invariant Reached(buf, pos, n, j, at)
      invariant referral == LastZone(buf, s[..j]) && flagsoa == AnyHasType(buf, s[..j], T_SOA)
    {
      ReachedNext(buf, pos, n, j, at);
      OneMoreAuthority(buf, s, j);
      var r := ReadRecord(buf, at);
      if r == None { return false, false, None, false; }
      ParseShape(buf, at);
      if r.value.head[..2] == T_SOA {
        flagsoa := true;
      } else if r.value.head[..2] == T_NS {
        var copied: bool := *;
        if !copied && !gotMemory { return false, true, None, false; }
        referral := Some(r.value.owner);
      }
      at := r.value.after + 10 + r.value.datalen;
    }
    assert s[..n] == s;
    ReachedLast(buf, pos, n, at);
    ok := true;
  }

  /** HAVEPACKET up to the end of the authority section; it fails exactly for want of memory or of readable bytes. */
  method ScanPacket(buf: bytes, d: bytes, dtype: bytes, gotMemory: bool) returns (r: Option<Scan>, noMemory: bool)
    requires IsName(d)
    ensures r.Some? ==> Complete(buf, d, dtype) && r.value == ScanOf(buf, d, dtype)
    ensures r == None ==> if noMemory then !gotMemory else !Complete(buf, d, dtype)
  {
    hide AllThere, Places, EndOf, AnyGives, LastAlias, TargetsOk, AnyHasType, LastZone, SkipFrom;
    noMemory := false;
    var pos, header := Copy(buf, 0, 12);
    if pos == 0 { return None, false; }
    pos := SkipName(buf, pos);
    if pos == 0 { return None, false; }
    var rcode := header[3] % 16;
    if rcode != 0 && rcode != 3 { return None, false; }
    var numanswers, numauthority := header[6] as nat * 256 + header[7], header[8] as nat * 256 + header[9];
    var ok, flagout, alias, posauthority := ScanAnswers(buf, pos + 4, numanswers, d, dtype);
    if !ok { return None, false; }
    var referral, flagsoa;
    ok, noMemory, referral, flagsoa := ScanAuthority(buf, posauthority, numauthority, gotMemory);
    if !ok { return None, noMemory; }
    return Some(Scan(rcode as nat, flagout, alias, referral, flagsoa)), false;
  }

  // --- the records of an answer -------------------------------------------------------------------

  /** The data of a record, with the names in it in full. */
  function DataOf(buf: bytes, rtype: bytes, at: nat, datalen: nat): Option<seq<Part>> {
    if rtype == T_NS || rtype == T_CNAME || rtype == T_PTR then
      match NameAt(buf, at) case None => None case Some((d, _)) => Some([Name(d)])
    else if rtype == T_MX then
      if at + 2 > |buf| then None
      else match NameAt(buf, at + 2) case None => None case Some((d, _)) => Some([Raw(buf[at..at + 2]), Name(d)])
    else if rtype == T_SOA then
      match NameAt(buf, at)
      case None => None
      case Some((d, next)) =>
        match NameAt(buf, next)
        case None => None
        case Some((e, last)) => if last + 20 > |buf| then None else Some([Name(d), Name(e), Raw(buf[last..last + 20])])
    else if at + datalen > |buf| then None
    else Some([Raw(buf[at..at + datalen])])
  }

  /** The parts that the data of a record of this type and length consists of. */
  predicate ShapeOf(rtype: bytes, datalen: nat, parts: seq<Part>) {
    if rtype == T_NS || rtype == T_CNAME || rtype == T_PTR then |parts| == 1 && parts[0].Name?
    else if rtype == T_MX then |parts| == 2 && parts[0].Raw? && |parts[0].s| == 2 && parts[1].Name?
    else if rtype == T_SOA then
      |parts| == 3 && parts[0].Name? && parts[1].Name? && parts[2].Raw? && |parts[2].s| == 20
    else |parts| == 1 && parts[0].Raw? && |parts[0].s| == datalen
  }

  /** The length of data that is one piece of bytes. */
  function RawLength(parts: seq<Part>): nat {
    if |parts| == 1 && parts[0].Raw? then |parts[0].s| else 0
  }

  /** Where these parts end if they are what can be read from position `at` on. */
  function Laid(buf: bytes, parts: seq<Part>, at: nat): Option<nat> {
    if parts == [] then Some(at)
    else
      match parts[0]
      case Raw(s) =>
        if at + |s| <= |buf| && buf[at..at + |s|] == s then Laid(buf, parts[1..], at + |s|) else None
      case Name(d) =>
        match NameAt(buf, at)
        case None => None
        case Some((e, next)) => if d == e then Laid(buf, parts[1..], next) else None
  }

  lemma LaidOne(buf: bytes, parts: seq<Part>, at: nat)
    requires |parts| == 1
    ensures Laid(buf, parts, at).Some?
            <==> match parts[0]
                 case Raw(s) => at + |s| <= |buf| && buf[at..at + |s|] == s
                 case Name(d) => NameAt(buf, at).Some? && NameAt(buf, at).value.0 == d
  {
    hide NameAt;
    assert parts[1..] == [];
  }

  lemma LaidName(buf: bytes, parts: seq<Part>, at: nat)
    requires parts != [] && parts[0].Name?
    ensures Laid(buf, parts, at)
         == if NameAt(buf, at).Some? && NameAt(buf, at).value.0 == parts[0].d then
              Laid(buf, parts[1..], NameAt(buf, at).value.1)
            else None
  {
    hide NameAt;
  }

  lemma LaidRaw(buf: bytes, parts: seq<Part>, at: nat)
    requires parts != [] && parts[0].Raw?
    ensures var s := parts[0].s;
            Laid(buf, parts, at)
            == (if at + |s| <= |buf| && buf[at..at + |s|] == s then Laid(buf, parts[1..], at + |s|) else None)
  {
    hide NameAt;
  }

  /** The data read is what lies there in the shape of its type; and where there is such data, it is read. */
  lemma DataExactly(buf: bytes, rtype: bytes, at: nat, datalen: nat, parts: seq<Part>)
    ensures DataOf(buf, rtype, at, datalen) == Some(parts)
            <==> ShapeOf(rtype, datalen, parts) && Laid(buf, parts, at).Some?
  {
    hide NameAt, Laid;
    if rtype == T_MX {
      if ShapeOf(rtype, datalen, parts) {
        LaidRaw(buf, parts, at);
        LaidOne(buf, parts[1..], at + 2);
        assert parts == [parts[0], parts[1]];
      }
    } else if rtype == T_SOA {
      if ShapeOf(rtype, datalen, parts) {
        LaidName(buf, parts, at);
        if NameAt(buf, at).Some? {
          var next := NameAt(buf, at).value.1;
          LaidName(buf, parts[1..], next);
          if NameAt(buf, next).Some? { LaidOne(buf, parts[1..][1..], NameAt(buf, next).value.1); }
        }
        assert parts == [parts[0], parts[1], parts[2]];
      }
    } else if |parts| == 1 {
      LaidOne(buf, parts, at);
      assert parts == [parts[0]];
    }
  }

  /** The record at p as it goes into the response. */
  function RecordAt(buf: bytes, p: nat): Option<Event> {
    match Parse(buf, p)
    case None => None
    case Some(r) =>
      match DataOf(buf, r.head[..2], r.after + 10, r.datalen)
      case None => None
      case Some(data) => Some(Record(r.owner, r.head[..2], Ttl(r.ttl), data))
  }

  /** The records asked for, in packet order; nothing if one of them cannot be read. */
  function Given(buf: bytes, s: seq<nat>, d: bytes, dtype: bytes): Option<seq<Event>> {
    if s == [] then Some([])
    else
      var p := s[|s| - 1];
      match Given(buf, s[..|s| - 1], d, dtype)
      case None => None
      case Some(before) =>
        if !Gives(buf, p, d, dtype) then Some(before)
        else match RecordAt(buf, p) case None => None case Some(r) => Some(before + [r])
  }

  lemma OneMoreGiven(buf: bytes, s: seq<nat>, j: nat, d: bytes, dtype: bytes)
    requires j < |s| && Given(buf, s[..j], d, dtype).Some?
    ensures Given(buf, s[..j + 1], d, dtype)
         == if !Gives(buf, s[j], d, dtype) then Given(buf, s[..j], d, dtype)
            else match RecordAt(buf, s[j])
                 case None => None
                 case Some(r) => Some(Given(buf, s[..j], d, dtype).value + [r])
  {
    hide Gives, RecordAt;
    var t := s[..j + 1];
    assert t[..j] == s[..j] && t[j] == s[j];
  }

  /** Once a record asked for cannot be read the rest does not matter. */
  lemma {:induction false} GivenStop(buf: bytes, s: seq<nat>, j: nat, d: bytes, dtype: bytes)
    requires j <= |s| && Given(buf, s[..j], d, dtype) == None
    ensures Given(buf, s, d, dtype) == None
    decreases |s| - j
  {
    hide Gives, RecordAt;
    if j == |s| {
      assert s[..j] == s;
    } else {
      assert s[..j + 1][..j] == s[..j];
      GivenStop(buf, s, j + 1, d, dtype);
    }
  }

  lemma NothingGiven(buf: bytes, s: seq<nat>, d: bytes, dtype: bytes)
    ensures Given(buf, s[..0], d, dtype) == Some([])
  {
  }

  /** Reads the data of a record. */
  method ReadData(buf: bytes, rtype: bytes, at: nat, datalen: nat) returns (r: Option<seq<Part>>)
    ensures r == DataOf(buf, rtype, at, datalen)
  {
    hide NameAt;
    if rtype == T_NS || rtype == T_CNAME || rtype == T_PTR {
      var t2 := GetName(buf, at);
      return if t2 == None then None else Some([Name(t2.value.0)]);
    }
    if rtype == T_MX {
      var pos2, misc := Copy(buf, at, 2);
      if pos2 == 0 { return None; }
      var t2 := GetName(buf, pos2);
      return if t2 == None then None else Some([Raw(misc), Name(t2.value.0)]);
    }
    if rtype == T_SOA {
      var t2 := GetName(buf, at);
      if t2 == None { return None; }
      var t3 := GetName(buf, t2.value.1);
      if t3 == None { return None; }
      var pos2, misc := Copy(buf, t3.value.1, 20);
      return if pos2 == 0 then None else Some([Name(t2.value.0), Name(t3.value.0), Raw(misc)]);
    }
    return if at + datalen > |buf| then None else Some([Raw(buf[at..at + datalen])]);
  }

  // --- addresses and name servers in a packet -----------------------------------------------------

  /** The address in the record at p, if it is one of d and all there. */
  function AddressAt(buf: bytes, p: nat, d: bytes): Option<Ip4> {
    match Parse(buf, p)
    case None => None
    case Some(r) =>
      if About(r, d) && r.head[..2] == T_A && r.datalen == 4 && r.after + 14 <= |buf| then
        Some(buf[r.after + 10..r.after + 14])
      else None
  }

  /** The record at p is an address of d, but the packet ends inside it. */
  predicate AddressCut(buf: bytes, p: nat, d: bytes) {
    match Parse(buf, p)
    case None => false
    case Some(r) => About(r, d) && r.head[..2] == T_A && r.datalen == 4 && r.after + 14 > |buf|
  }

  /** The addresses of d among these records. */
  function Addresses(buf: bytes, s: seq<nat>, d: bytes): seq<Ip4> {
    if s == [] then []
    else
      var before := Addresses(buf, s[..|s| - 1], d);
      match AddressAt(buf, s[|s| - 1], d) case None => before case Some(ip) => before + [ip]
  }

  lemma OneMoreAddress(buf: bytes, s: seq<nat>, j: nat, d: bytes)
    requires j < |s|
    ensures Addresses(buf, s[..j + 1], d)
         == Addresses(buf, s[..j], d) + match AddressAt(buf, s[j], d) case None => [] case Some(ip) => [ip]
  {
    hide AddressAt;
    var t := s[..j + 1];
    assert t[..j] == s[..j] && t[j] == s[j];
  }

  lemma NoAddresses(buf: bytes, s: seq<nat>, d: bytes)
    ensures Addresses(buf, s[..0], d) == []
  {
  }

  /** The record at p names a server of this zone. */
  predicate NamesServer(buf: bytes, p: nat, zone: bytes) {
    match Parse(buf, p)
    case None => false
    case Some(r) => About(r, zone) && r.head[..2] == T_NS
  }

  /** The first 16 servers of this zone that these records name; nothing if one of them cannot be read. */
  function ServersOf(buf: bytes, s: seq<nat>, zone: bytes): Option<seq<bytes>> {
    if s == [] then Some([])
    else
      match ServersOf(buf, s[..|s| - 1], zone)
      case None => None
      case Some(before) =>
        if |before| >= MAXNS || !NamesServer(buf, s[|s| - 1], zone) then Some(before)
        else match Target(buf, s[|s| - 1]) case None => None case Some(t) => Some(before + [t])
  }

  /** Once a server named in a record cannot be read the rest does not matter. */
  lemma {:induction false} ServersStop(buf: bytes, s: seq<nat>, j: nat, zone: bytes)
    requires j <= |s| && ServersOf(buf, s[..j], zone) == None
    ensures ServersOf(buf, s, zone) == None
    decreases |s| - j
  {
    hide NamesServer, Target;
    if j == |s| {
      assert s[..j] == s;
    } else {
      assert s[..j + 1][..j] == s[..j];
      ServersStop(buf, s, j + 1, zone);
    }
  }

  lemma NoServers(buf: bytes, s: seq<nat>, zone: bytes)
    ensures ServersOf(buf, s[..0], zone) == Some([])
  {
  }

  lemma OneMoreServer(buf: bytes, s: seq<nat>, j: nat, zone: bytes)
    requires j < |s| && ServersOf(buf, s[..j], zone).Some?
    ensures var before := ServersOf(buf, s[..j], zone).value;
            ServersOf(buf, s[..j + 1], zone)
            == (if |before| >= MAXNS || !NamesServer(buf, s[j], zone) then Some(before)
                else match Target(buf, s[j]) case None => None case Some(t) => Some(before + [t]))
  {
    hide NamesServer, Target;
    var t := s[..j + 1];
    assert t[..j] == s[..j] && t[j] == s[j];
  }

  // --- what is read out of a packet, record by record ---------------------------------------------

  /** The record at p is about d, of class IN and of this type. */
  predicate RecordFor(buf: bytes, p: nat, d: bytes, rtype: bytes) {
    && Parse(buf, p).Some?
    && LowerAll(Parse(buf, p).value.owner) == LowerAll(d) && Parse(buf, p).value.head == rtype + [0, 1]
  }

  /** The record at p is about d, of class IN, and of the type asked for, if not everything was. */
  predicate AskedFor(buf: bytes, p: nat, d: bytes, dtype: bytes) {
    && Parse(buf, p).Some?
    && RecordFor(buf, p, d, if dtype == [0, 255] then Parse(buf, p).value.head[..2] else dtype)
  }

  /** The record at p is an alias of d, and neither aliases nor everything was asked for. */
  predicate AliasFor(buf: bytes, p: nat, d: bytes, dtype: bytes) {
    RecordFor(buf, p, d, [0, 5]) && dtype != [0, 5] && dtype != [0, 255]
  }

  /** The record at p is of this type, whatever it is about. */
  predicate OfType(buf: bytes, p: nat, rtype: bytes) {
    Parse(buf, p).Some? && Parse(buf, p).value.head[..2] == rtype
  }

  lemma GivesMeans(buf: bytes, p: nat, d: bytes, dtype: bytes)
    requires |dtype| == 2
    ensures Gives(buf, p, d, dtype) <==> AskedFor(buf, p, d, dtype)
    ensures Aliases(buf, p, d, dtype) <==> AliasFor(buf, p, d, dtype)
  {
    hide Parse, LowerAll;
    if Parse(buf, p).Some? {
      var head := Parse(buf, p).value.head;
      assert head == head[..2] + head[2..];
    }
  }

  /** Where the alias at p leads, and for how long: absurd times are 0, and none is longer than a week. */
  function AliasAt(buf: bytes, p: nat, d: bytes, dtype: bytes): Option<(bytes, uint32)> {
    if !AliasFor(buf, p, d, dtype) || NameAt(buf, Parse(buf, p).value.after + 10) == None then None
    else
      var ttl := Parse(buf, p).value.ttl;
      Some((NameAt(buf, Parse(buf, p).value.after + 10).value.0,
            if ttl > 1000000000 then 0 else if ttl > 604800 then 604800 else ttl))
  }

  /** The alias found is the last one that can be read. */
  lemma {:induction false} LastAliasIs(buf: bytes, s: seq<nat>, d: bytes, dtype: bytes)
    requires |dtype| == 2
    ensures match LastAlias(buf, s, d, dtype)
            case None => forall i :: 0 <= i < |s| ==> AliasAt(buf, s[i], d, dtype) == None
            case Some(a) =>
              exists i :: 0 <= i < |s| && AliasAt(buf, s[i], d, dtype) == Some(a)
                          && forall j :: i < j < |s| ==> AliasAt(buf, s[j], d, dtype) == None
  {
    hide Parse, NameAt, Aliases, AliasFor;
    if s != [] {
      var init, p := s[..|s| - 1], s[|s| - 1];
      LastAliasIs(buf, init, d, dtype);
      GivesMeans(buf, p, d, dtype);
      assert LastAlias(buf, s, d, dtype)
          == if AliasAt(buf, p, d, dtype).Some? then AliasAt(buf, p, d, dtype) else LastAlias(buf, init, d, dtype)
        by { AliasParses(buf, p, d, dtype); }
      assert forall i :: 0 <= i < |init| ==> init[i] == s[i];
    }
  }

  lemma AliasParses(buf: bytes, p: nat, d: bytes, dtype: bytes)
    requires |dtype| == 2
    ensures AliasAt(buf, p, d, dtype)
         == if Aliases(buf, p, d, dtype) && Target(buf, p).Some? then Some((Target(buf, p).value, TtlAt(buf, p)))
            else None
  {
    hide NameAt;
    GivesMeans(buf, p, d, dtype);
  }

  /** The referral found is to the owner of the last NS record. */
  lemma {:induction false} LastZoneIs(buf: bytes, s: seq<nat>)
    ensures match LastZone(buf, s)
            case None => forall i :: 0 <= i < |s| ==> !OfType(buf, s[i], [0, 2])
            case Some(zone) =>
              exists i :: 0 <= i < |s| && OfType(buf, s[i], [0, 2]) && Parse(buf, s[i]).value.owner == zone
                          && forall j :: i < j < |s| ==> !OfType(buf, s[j], [0, 2])
  {
    hide Parse;
    if s != [] {
      var init, p := s[..|s| - 1], s[|s| - 1];
      LastZoneIs(buf, init);
      assert forall i :: 0 <= i < |init| ==> init[i] == s[i];
    }
  }

  /** What doit goes by is what the records of the packet say, each read by itself. */
  lemma ScanMeans(buf: bytes, d: bytes, dtype: bytes)
    requires |dtype| == 2 && Complete(buf, d, dtype)
    ensures var scan, s, t := ScanOf(buf, d, dtype), Answers(buf), Authority(buf);
            && scan.rcode == (buf[3] % 16) as nat && (scan.rcode == 0 || scan.rcode == 3)
            && (scan.flagout <==> exists i :: 0 <= i < |s| && AskedFor(buf, s[i], d, dtype))
            && (scan.flagsoa <==> exists i :: 0 <= i < |t| && OfType(buf, t[i], [0, 6]))
            && (scan.alias == None <==> forall i :: 0 <= i < |s| ==> !AliasFor(buf, s[i], d, dtype))
            && (scan.referral == None <==> forall i :: 0 <= i < |t| ==> !OfType(buf, t[i], [0, 2]))
  {
    hide Parse, NameAt, LastAlias, LastZone, AllThere, Places, EndOf, Gives, AskedFor, AliasFor;
    var s, t := Answers(buf), Authority(buf);
    forall i | 0 <= i < |s|
      ensures Gives(buf, s[i], d, dtype) <==> AskedFor(buf, s[i], d, dtype)
      ensures AliasFor(buf, s[i], d, dtype) <==> AliasAt(buf, s[i], d, dtype).Some?
    {
      GivesMeans(buf, s[i], d, dtype);
      AliasParses(buf, s[i], d, dtype);
    }
    LastAliasIs(buf, s, d, dtype);
    LastZoneIs(buf, t);
    assert forall i :: 0 <= i < |t| ==> (HasType(buf, t[i], T_SOA) <==> OfType(buf, t[i], [0, 6]));
  }

  /** The addresses taken over are those in complete address records of four bytes about d, and no others. */
  lemma {:induction false} AddressesExactly(buf: bytes, s: seq<nat>, d: bytes, ip: bytes)
    ensures ip in Addresses(buf, s, d)
            <==> exists i :: 0 <= i < |s| && RecordFor(buf, s[i], d, [0, 1]) && Parse(buf, s[i]).value.datalen == 4
                   && var p := Parse(buf, s[i]).value.after + 10; p + 4 <= |buf| && ip == buf[p..p + 4]
  {
    hide Parse, LowerAll;
    if s != [] {
      var init, p := s[..|s| - 1], s[|s| - 1];
      AddressesExactly(buf, init, d, ip);
      assert forall i :: 0 <= i < |init| ==> init[i] == s[i];
      if Parse(buf, p).Some? {
        var head := Parse(buf, p).value.head;
        assert head == head[..2] + head[2..];
      }
    }
  }

  /** The servers taken over are those that NS records of the zone name, up to 16, and none is left out before that. */
  lemma {:induction false} ServersExactly(buf: bytes, s: seq<nat>, zone: bytes, server: bytes)
    requires ServersOf(buf, s, zone).Some?
    ensures var servers := ServersOf(buf, s, zone).value;
            && |servers| <= 16
            && (server in servers ==> NamedIn(buf, s, zone, server))
            && (|servers| < 16 && NamedIn(buf, s, zone, server) ==> server in servers)
  {
    hide Parse, LowerAll, NameAt;
    if s != [] {
      var init, p := s[..|s| - 1], s[|s| - 1];
      ServersExactly(buf, init, zone, server);
      NamedLast(buf, s, zone, server);
    }
  }

  /** One of these records is an NS record of the zone and names the server. */
  ghost predicate NamedIn(buf: bytes, s: seq<nat>, zone: bytes, server: bytes) {
    exists i :: 0 <= i < |s| && Names(buf, s[i], zone, server)
  }

  predicate Names(buf: bytes, p: nat, zone: bytes, server: bytes) {
    && RecordFor(buf, p, zone, [0, 2])
    && NameAt(buf, Parse(buf, p).value.after + 10).Some?
    && NameAt(buf, Parse(buf, p).value.after + 10).value.0 == server
  }

  lemma NamedLast(buf: bytes, s: seq<nat>, zone: bytes, server: bytes)
    requires s != []
    ensures var p := s[|s| - 1];
            NamedIn(buf, s, zone, server)
            <==> NamedIn(buf, s[..|s| - 1], zone, server)
                 || (NamesServer(buf, p, zone) && Target(buf, p) == Some(server))
  {
    hide Parse, LowerAll, NameAt;
    var init, p := s[..|s| - 1], s[|s| - 1];
    assert forall i :: 0 <= i < |init| ==> init[i] == s[i];
    if Parse(buf, p).Some? {
      var head := Parse(buf, p).value.head;
      assert head == head[..2] + head[2..];
    }
    assert Names(buf, p, zone, server) <==> NamesServer(buf, p, zone) && Target(buf, p) == Some(server);
  }
}
