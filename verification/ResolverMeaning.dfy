/** What the notions that Resolver is stated with come to, each by itself. */
module ResolverMeaning {
  import opened Bytes
  import opened Domain
  import opened Packet
  import opened QueryData
  import DotText
  import opened Transmit
  import opened PacketCache
  import opened Resolver

  // --- answers ------------------------------------------------------------------------------------

  /** An answer begins with the question and goes on with one alias for each step of the chain. */
  lemma {:induction false} PrefaceIs(chain: seq<bytes>, ttls: seq<uint32>)
    requires |chain| == |ttls| + 1
    ensures var p := Preface(chain, ttls);
            && |p| == |ttls| + 1 && p[0] == Asked(chain[0])
            && forall i :: 0 <= i < |ttls| ==> p[i + 1] == Alias(chain[i], chain[i + 1], ttls[i])
    decreases |ttls|
  {
    var n := |ttls|;
    if n > 0 {
      PrefaceIs(chain[..n], ttls[..n - 1]);
    }
  }

  /** The name localhost in wire form, ... */
  const LOCAL: bytes := [9, 108, 111, 99, 97, 108, 104, 111, 115, 116, 0]
  /** ... and the name 1.0.0.127.in-addr.arpa. */
  const REVERSE: bytes :=
    [1, 49, 1, 48, 1, 48, 3, 49, 50, 55, 7, 105, 110, 45, 97, 100, 100, 114, 4, 97, 114, 112, 97, 0]

  lemma NameFront(l: bytes, ls: seq<bytes>, all: seq<bytes>, d: bytes)
    requires 1 <= |l| < 64 && all == [l] + ls && DotText.Short(ls) && NameOf(ls) == d
    ensures DotText.Short(all) && NameOf(all) == [|l|] + l + d
  {
    hide IsName;
    assert all[0] == l && all[1..] == ls;
    assert DotText.Encode(all) == [|l|] + l + DotText.Encode(ls);
  }

  lemma NameEnd()
    ensures DotText.Short([]) && NameOf([]) == [0]
  {
  }

  lemma LocalWritten()
    ensures LOCALHOST == LOCAL
  {
    hide NameOf, DotText.Short;
    var l: bytes := [108, 111, 99, 97, 108, 104, 111, 115, 116];
    NameEnd();
    NameFront(l, [], [l], [0]);
    assert [9] + l + [0] == LOCAL;
  }

  /** in-addr.arpa. */
  const REVERSE_ZONE: bytes := [7, 105, 110, 45, 97, 100, 100, 114, 4, 97, 114, 112, 97, 0]

  lemma ZoneWritten(addr: bytes, arpa: bytes)
    requires addr == [105, 110, 45, 97, 100, 100, 114] && arpa == [97, 114, 112, 97]
    ensures DotText.Short([addr, arpa]) && NameOf([addr, arpa]) == REVERSE_ZONE
  {
    hide NameOf, DotText.Short;
    NameEnd();
    NameFront(arpa, [], [arpa], [0]);
    NameFront(addr, [arpa], [addr, arpa], [4] + arpa + [0]);
  }

  lemma ReverseWritten()
    ensures LOCALHOST_PTR == REVERSE
  {
    hide NameOf, DotText.Short;
    var arpa: bytes, addr: bytes, net: bytes := [97, 114, 112, 97], [105, 110, 45, 97, 100, 100, 114], [49, 50, 55];
    ZoneWritten(addr, arpa);
    ReverseFront(net, addr, arpa, REVERSE_ZONE);
    AddressFront(net);
  }

  lemma AddressFront(net: bytes)
    requires net == [49, 50, 55]
    ensures [1] + [49] + ([1] + [48] + ([1] + [48] + ([3] + net + REVERSE_ZONE))) == REVERSE
  {
  }

  lemma ReverseFront(net: bytes, addr: bytes, arpa: bytes, d: bytes)
    requires |net| == 3 && DotText.Short([addr, arpa]) && NameOf([addr, arpa]) == d
    ensures DotText.Short([[49], [48], [48], net, addr, arpa])
    ensures NameOf([[49], [48], [48], net, addr, arpa]) == [1] + [49] + ([1] + [48] + ([1] + [48] + ([3] + net + d)))
  {
    hide NameOf, DotText.Short;
    NameFront(net, [addr, arpa], [net, addr, arpa], d);
    NameFront([48], [net, addr, arpa], [[48], net, addr, arpa], [3] + net + d);
    NameFront([48], [[48], net, addr, arpa], [[48], [48], net, addr, arpa], [1] + [48] + ([3] + net + d));
    NameFront([49], [[48], [48], net, addr, arpa], [[49], [48], [48], net, addr, arpa],
              [1] + [48] + ([1] + [48] + ([3] + net + d)));
  }

  /** Answers for names that are not looked up: localhost, addresses in decimal, and the name of 127.0.0.1. */
  lemma LocalMeans(d: bytes, dtype: bytes, records: seq<Event>)
    requires IsName(d) && Told(LocalName, d, dtype, records)
    ensures LowerAll(d) == LOCAL ==> records == AddressRecord(d, dtype, [127, 0, 0, 1])
    ensures LowerAll(d) != LOCAL ==>
              || (exists ip: bytes :: |ip| == 4 && d == DottedName(ip) && records == AddressRecord(d, dtype, ip))
              || (LowerAll(d) == REVERSE
                  && records == if dtype == [0, 12] || dtype == [0, 255]
                                then [Record(d, [0, 12], 655360, [Name(LOCAL)])] else [])
  {
    hide IsName, DottedFrom, LowerAll;
    LocalWritten();
    ReverseWritten();
    SmallAlready();
    if LowerAll(d) != LOCAL && DottedFrom(d, 4).Some? {
      var ip := DottedFrom(d, 4).value;
      DottedRead(d, 4);
      DottedExact(d, ip);
    }
  }

  lemma SmallAlready()
    ensures LowerAll(LOCAL) == LOCAL && LowerAll(REVERSE) == REVERSE
  {
  }

  /** One address record with a ttl of 655360, if addresses or everything are asked for. */
  function AddressRecord(d: bytes, dtype: bytes, ip: bytes): seq<Event> {
    if dtype == [0, 1] || dtype == [0, 255] then [Record(d, [0, 1], 655360, [Raw(ip)])] else []
  }

  // --- zones and servers --------------------------------------------------------------------------

  /** The zone that begins at offset o of the name may be used. */
  predicate Usable(d: bytes, o: nat, known: Knowledge, mayUse: bool)
    requires o < |d| == |known|
  {
    known[o].Configured? || (mayUse && |d| - o < 255 && known[o].Delegated?)
  }

  /** The zone chosen is the closest around the name that is known: the first, label by label, that may be used. */
  lemma {:induction false} ClosestZone(d: bytes, o: nat, known: Knowledge, mayUse: bool)
    requires o < |d| == |known| && IsName(d[o..])
    ensures match ZoneFrom(d, o, known, mayUse)
            case None => forall k: nat :: k < |d| - o && Boundary(d[o..], k) ==> !Usable(d, o + k, known, mayUse)
            case Some(z) =>
              && o <= z < |d| && Boundary(d[o..], z - o) && Usable(d, z, known, mayUse)
              && forall k: nat :: k < z - o && Boundary(d[o..], k) ==> !Usable(d, o + k, known, mayUse)
    decreases |d| - o
  {
    hide IsName, Boundary;
    var rest := d[o..];
    BoundaryFirst(rest, 0);
    NameShape(rest);
    if !Usable(d, o, known, mayUse) {
      if d[o] == 0 {
        assert |rest| == 1;
      } else {
        var n := d[o] as nat + 1;
        NextSuffix(d, o);
        assert Parent(rest) == d[o + n..];
        ClosestZone(d, o + n, known, mayUse);
        forall k: nat | 0 < k < |d| - o && Boundary(rest, k)
          ensures k >= n && Boundary(d[o + n..], k - n)
        {
          BoundaryFirst(rest, k);
          BoundaryStep(rest, k);
        }
        if ZoneFrom(d, o + n, known, mayUse).Some? {
          BoundaryStep(rest, ZoneFrom(d, o + n, known, mayUse).value - o);
        }
      }
    }
  }

  predicate Empty(s: bytes, k: nat)
    requires |s| == 64 && k < 16
  {
    s[4 * k..4 * k + 4] == [0, 0, 0, 0]
  }

  /** A new address goes into slot j, the first that is empty; if there is none, nothing changes. */
  lemma {:induction false} AddedFirst(s: bytes, ip: bytes, k: nat) returns (j: nat)
    requires |s| == 64 && |ip| == 4 && k <= 16
    ensures k <= j <= 16 && (forall i: nat :: k <= i < j ==> !Empty(s, i)) && (j < 16 ==> Empty(s, j))
    ensures Added(s, ip, k) == if j < 16 then s[..4 * j] + ip + s[4 * j + 4..] else s
    decreases 16 - k
  {
    hide Empty, Ip;
    j := k;
    if k < 16 {
      EmptyIp(s, k);
      if !Empty(s, k) {
        j := AddedFirst(s, ip, k + 1);
      }
    }
  }

  lemma EmptyIp(s: bytes, k: nat)
    requires |s| == 64 && k < 16
    ensures Empty(s, k) <==> Ip(s, k) == [0, 0, 0, 0]
  {
  }

  /** A server that has been struck off leaves its slot empty, and no other. */
  lemma ClearedOnly(s: bytes, k: nat)
    requires |s| == 64 && k < 16
    ensures forall i :: 0 <= i < 16 ==>
              Cleared(s, k)[4 * i..4 * i + 4] == if i == k then [0, 0, 0, 0] else s[4 * i..4 * i + 4]
  {
    var r := Cleared(s, k);
    forall i | 0 <= i < 16
      ensures r[4 * i..4 * i + 4] == if i == k then [0, 0, 0, 0] else s[4 * i..4 * i + 4]
    {
      if i != k {
        FourBytes(r, 4 * i, s, 4 * i);
      }
    }
  }

  /**
   * Whenever a query waits for a reply, its message asks for just the name of its level: with the type asked for at
   * level 0, and for addresses above; and it is put to the servers of that level.
   */
  lemma WaitsFor(z: Query)
    requires z.Waiting()
    ensures z.level < |z.name| && z.name[z.level].Some? && z.level < |z.servers| && z.dt.query.Some?
    ensures AsksFor(z.dt.query.value[2..], z.flagforwardonly, z.name[z.level].value,
                    if z.level > 0 then [0, 1] else z.qtype)
    ensures z.dt.servers == z.servers[z.level]
  {
    hide Live, Preface, IsChain, AsksFor;
    hide Transmit.Sending, Transmit.Receiving, Transmit.OnTrack, Transmit.Owned;
    AskedRight(z.dt);
  }

  // --- cached data --------------------------------------------------------------------------------

  /**
   * Cached data of just the type asked for is used, whatever it is; if everything is asked for, data of one of four
   * types that are not empty.
   */
  lemma HitMeans(v: CacheView, dtype: bytes)
    requires |dtype| == 2
    ensures var hit := Hit(v, dtype);
            if dtype == [0, 255] then
              match hit
              case None => forall t :: t in [[0, 2], [0, 12], [0, 15], [0, 1]] ==> !HasSome(v, t)
              case Some(t) => t in [[0, 2], [0, 12], [0, 15], [0, 1]] && HasSome(v, t)
            else if dtype in [[0, 5], [0, 252]] || KeptIn(v, dtype, None) then hit == None
            else hit == Some(dtype)
  {
  }

  /** The cache has data of this type, and not just that there is none. */
  ghost predicate HasSome(v: CacheView, t: bytes) {
    exists x :: KeptIn(v, t, Some(x)) && x.data != []
  }
}
