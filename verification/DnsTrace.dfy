/** dnstrace.c: three lists and the work list that is kept equal to their join. */
module DnsTrace {
  import opened Bytes
  import opened Domain

  datatype Query = Query(owner: bytes, qtype: bytes)
  datatype Ns = Ns(owner: bytes, server: bytes)
  datatype Address = Address(owner: bytes, ip: bytes)
  datatype Qt = Qt(owner: bytes, qtype: bytes, control: bytes, ip: bytes)

  const DNS_T_A: bytes := [0, 1]

  predicate QueryOk(q: Query) { IsName(q.owner) }
  predicate NsOk(n: Ns) { IsName(n.owner) && IsName(n.server) }
  predicate AddressOk(a: Address) { IsName(a.owner) }
  predicate QtOk(t: Qt) { IsName(t.owner) && IsName(t.control) }

  /** Equal as far as qt_add is concerned: names up to case. */
  predicate SameQt(t: Qt, u: Qt) {
    Same(t.owner, u.owner) && Same(t.control, u.control) && t.qtype == u.qtype && t.ip == u.ip
  }

  predicate SameQuery(q: Query, r: Query) {
    Same(q.owner, r.owner) && q.qtype == r.qtype
  }

  predicate SameNs(m: Ns, n: Ns) {
    Same(m.owner, n.owner) && Same(m.server, n.server)
  }

  predicate SameAddress(a: Address, b: Address) {
    Same(a.owner, b.owner) && a.ip == b.ip
  }

  /** The query may be sent to the address: the server of a zone around the queried name has it. */
  predicate Matches(q: Query, n: Ns, a: Address)
    requires QueryOk(q)
  {
    HasSuffix(q.owner, n.owner) && Same(n.server, a.owner)
  }

  function Row(q: Query, n: Ns, a: Address): Qt {
    Qt(q.owner, q.qtype, n.owner, a.ip)
  }

  /** The work list holds the row, up to case. */
  ghost predicate Has(qt: seq<Qt>, t: Qt) {
    exists i :: 0 <= i < |qt| && SameQt(qt[i], t)
  }

  /** The row comes from a matching query, server and address. The root's own host is never asked about. */
  ghost predicate Joined(query: seq<Query>, ns: seq<Ns>, address: seq<Address>, t: Qt)
    requires forall i :: 0 <= i < |query| ==> QueryOk(query[i])
  {
    exists i, j, k :: 0 <= i < |query| && 0 <= j < |ns| && 0 <= k < |address|
      && Matches(query[i], ns[j], address[k]) && query[i].owner != ROOT
      && SameQt(Row(query[i], ns[j], address[k]), t)
  }

  /** If query, server and address match, their row is in the list. */
  ghost predicate Covered(qt: seq<Qt>, q: Query, n: Ns, a: Address)
    requires QueryOk(q)
  {
    Matches(q, n, a) && q.owner != ROOT ==> Has(qt, Row(q, n, a))
  }

  ghost predicate WellFormed(query: seq<Query>, ns: seq<Ns>, address: seq<Address>, qt: seq<Qt>) {
    && (forall i :: 0 <= i < |query| ==> QueryOk(query[i]))
    && (forall i :: 0 <= i < |ns| ==> NsOk(ns[i]))
    && (forall i :: 0 <= i < |address| ==> AddressOk(address[i]))
    && (forall i :: 0 <= i < |qt| ==> QtOk(qt[i]))
  }

  /** Every row comes from the join. */
  ghost predicate Sound(query: seq<Query>, ns: seq<Ns>, address: seq<Address>, qt: seq<Qt>)
    requires forall i :: 0 <= i < |query| ==> QueryOk(query[i])
  {
    forall m :: 0 <= m < |qt| ==> Joined(query, ns, address, qt[m])
  }

  /** Every match has its row. */
  ghost predicate Complete(query: seq<Query>, ns: seq<Ns>, address: seq<Address>, qt: seq<Qt>)
    requires forall i :: 0 <= i < |query| ==> QueryOk(query[i])
  {
    forall i, j, k :: 0 <= i < |query| && 0 <= j < |ns| && 0 <= k < |address|
      ==> Covered(qt, query[i], ns[j], address[k])
  }

  ghost predicate NoRepeats(qt: seq<Qt>) {
    forall m, n :: 0 <= m < n < |qt| ==> !SameQt(qt[m], qt[n])
  }

  lemma SameQtChain(t: Qt, u: Qt, v: Qt)
    requires SameQt(t, u) && SameQt(u, v)
    ensures SameQt(t, v) && SameQt(u, t)
  {
  }

  lemma HasIsJoined(query: seq<Query>, ns: seq<Ns>, address: seq<Address>, qt: seq<Qt>, t: Qt)
    requires forall i :: 0 <= i < |query| ==> QueryOk(query[i])
    requires Sound(query, ns, address, qt) && Has(qt, t)
    ensures Joined(query, ns, address, t)
  {
    hide Matches, SameQt, Joined;
    var m :| 0 <= m < |qt| && SameQt(qt[m], t);
    JoinedUpToCase(query, ns, address, qt[m], t);
  }

  lemma JoinedUpToCase(query: seq<Query>, ns: seq<Ns>, address: seq<Address>, t: Qt, u: Qt)
    requires forall i :: 0 <= i < |query| ==> QueryOk(query[i])
    requires Joined(query, ns, address, t) && SameQt(t, u)
    ensures Joined(query, ns, address, u)
  {
    hide Matches, SameQt;
    var i, j, k :| 0 <= i < |query| && 0 <= j < |ns| && 0 <= k < |address|
      && Matches(query[i], ns[j], address[k]) && query[i].owner != ROOT
      && SameQt(Row(query[i], ns[j], address[k]), t);
    SameQtChain(Row(query[i], ns[j], address[k]), t, u);
  }

  lemma JoinedIsHeld(query: seq<Query>, ns: seq<Ns>, address: seq<Address>, qt: seq<Qt>, t: Qt)
    requires forall i :: 0 <= i < |query| ==> QueryOk(query[i])
    requires Complete(query, ns, address, qt) && Joined(query, ns, address, t)
    ensures Has(qt, t)
  {
    hide Matches, SameQt;
    var i, j, k :| 0 <= i < |query| && 0 <= j < |ns| && 0 <= k < |address|
      && Matches(query[i], ns[j], address[k]) && query[i].owner != ROOT
      && SameQt(Row(query[i], ns[j], address[k]), t);
    assert Covered(qt, query[i], ns[j], address[k]);
    var m :| 0 <= m < |qt| && SameQt(qt[m], Row(query[i], ns[j], address[k]));
    SameQtChain(qt[m], Row(query[i], ns[j], address[k]), t);
  }

  /** The work list is the join: a row is in it, up to case, if and only if it comes from a match. */
  lemma WorkListIsJoin(query: seq<Query>, ns: seq<Ns>, address: seq<Address>, qt: seq<Qt>, t: Qt)
    requires WellFormed(query, ns, address, qt)
    requires Sound(query, ns, address, qt) && Complete(query, ns, address, qt)
    ensures Has(qt, t) <==> Joined(query, ns, address, t)
  {
    hide Sound, Complete, Has, Joined;
    if Has(qt, t) {
      HasIsJoined(query, ns, address, qt, t);
    }
    if Joined(query, ns, address, t) {
      JoinedIsHeld(query, ns, address, qt, t);
    }
  }

  /** Matching does not depend on the case of the names. */
  lemma MatchesUpToCase(q: Query, q': Query, n: Ns, n': Ns, a: Address, a': Address)
    requires QueryOk(q) && QueryOk(q') && SameQuery(q, q') && SameNs(n, n') && SameAddress(a, a')
    ensures Matches(q, n, a) <==> Matches(q', n', a')
    ensures SameQt(Row(q, n, a), Row(q', n', a'))
  {
    SuffixRespectsCase(q.owner, q'.owner, n.owner, n'.owner);
  }

  ghost predicate HasQuery(query: seq<Query>, q: Query) {
    exists x :: x in query && SameQuery(x, q)
  }

  ghost predicate HasNs(ns: seq<Ns>, n: Ns) {
    exists x :: x in ns && SameNs(x, n)
  }

  ghost predicate HasAddress(address: seq<Address>, a: Address) {
    exists x :: x in address && SameAddress(x, a)
  }

  /** The join depends on the members of the three lists up to case only. */
  lemma JoinedByMembers(query: seq<Query>, ns: seq<Ns>, address: seq<Address>,
                        query': seq<Query>, ns': seq<Ns>, address': seq<Address>, t: Qt)
    requires forall i :: 0 <= i < |query| ==> QueryOk(query[i])
    requires forall i :: 0 <= i < |query'| ==> QueryOk(query'[i])
    requires (forall q :: q in query ==> HasQuery(query', q)) && (forall n :: n in ns ==> HasNs(ns', n))
    requires forall a :: a in address ==> HasAddress(address', a)
    requires Joined(query, ns, address, t)
    ensures Joined(query', ns', address', t)
  {
    hide Matches, SameQt, SameQuery, SameNs, SameAddress, IsName;
    var i, j, k :| 0 <= i < |query| && 0 <= j < |ns| && 0 <= k < |address|
      && Matches(query[i], ns[j], address[k]) && query[i].owner != ROOT
      && SameQt(Row(query[i], ns[j], address[k]), t);
    assert query[i] in query && ns[j] in ns && address[k] in address;
    var q :| q in query' && SameQuery(q, query[i]);
    var n :| n in ns' && SameNs(n, ns[j]);
    var a :| a in address' && SameAddress(a, address[k]);
    var i' :| 0 <= i' < |query'| && query'[i'] == q;
    var j' :| 0 <= j' < |ns'| && ns'[j'] == n;
    var k' :| 0 <= k' < |address'| && address'[k'] == a;
    assert QueryOk(query'[i']);
    MatchesUpToCase(q, query[i], n, ns[j], a, address[k]);
    SameQtChain(Row(q, n, a), Row(query[i], ns[j], address[k]), t);
    RootUpToCase(q, query[i]);
  }

  lemma RootUpToCase(q: Query, r: Query)
    requires SameQuery(q, r)
    ensures q.owner == ROOT <==> r.owner == ROOT
  {
    assert LowerAll(ROOT) == ROOT;
    assert |LowerAll(q.owner)| == |q.owner| && |LowerAll(r.owner)| == |r.owner|;
    if |q.owner| == 1 {
      assert LowerAll(q.owner)[0] == LowerAll(r.owner)[0];
    }
  }

  lemma HasGrows(qt: seq<Qt>, qt': seq<Qt>, t: Qt)
    requires qt <= qt' && Has(qt, t)
    ensures Has(qt', t)
  {
    hide SameQt;
    var i :| 0 <= i < |qt| && SameQt(qt[i], t);
    assert qt'[i] == qt[i];
  }

  lemma CoveredGrows(qt: seq<Qt>, qt': seq<Qt>, q: Query, n: Ns, a: Address)
    requires QueryOk(q) && qt <= qt' && Covered(qt, q, n, a)
    ensures Covered(qt', q, n, a)
  {
    hide Matches, Has;
    if Matches(q, n, a) && q.owner != ROOT {
      HasGrows(qt, qt', Row(q, n, a));
    }
  }

  lemma JoinedGrows(query: seq<Query>, ns: seq<Ns>, address: seq<Address>,
                    query': seq<Query>, ns': seq<Ns>, address': seq<Address>, t: Qt)
    requires forall i :: 0 <= i < |query'| ==> QueryOk(query'[i])
    requires query <= query' && ns <= ns' && address <= address'
    requires (forall i :: 0 <= i < |query| ==> QueryOk(query[i])) && Joined(query, ns, address, t)
    ensures Joined(query', ns', address', t)
  {
    hide Matches, SameQt;
    var i, j, k :| 0 <= i < |query| && 0 <= j < |ns| && 0 <= k < |address|
      && Matches(query[i], ns[j], address[k]) && query[i].owner != ROOT
      && SameQt(Row(query[i], ns[j], address[k]), t);
    assert query'[i] == query[i] && ns'[j] == ns[j] && address'[k] == address[k];
  }

  lemma RowJoined(query: seq<Query>, ns: seq<Ns>, address: seq<Address>, i: nat, j: nat, k: nat)
    requires forall x :: 0 <= x < |query| ==> QueryOk(query[x])
    requires i < |query| && j < |ns| && k < |address|
    requires Matches(query[i], ns[j], address[k]) && query[i].owner != ROOT
    ensures Joined(query, ns, address, Row(query[i], ns[j], address[k]))
  {
    hide Matches;
  }

  /** The static lists of dnstrace.c. */
  class Lists {
    var query: seq<Query>
    var ns: seq<Ns>
    var address: seq<Address>
    var qt: seq<Qt>

    constructor ()
      ensures Valid() && query == [] && ns == [] && address == [] && qt == []
    {
      query, ns, address, qt := [], [], [], [];
    }

    ghost predicate Names()
      reads this
    {
      WellFormed(query, ns, address, qt) && NoRepeats(qt) && Sound(query, ns, address, qt)
    }

    /** The work list is exactly the join of the other three, without repetitions. */
    ghost predicate Valid()
      reads this
    {
      Names() && Complete(query, ns, address, qt)
    }

    /** qt_add. */
    method QtAdd(t: Qt)
      requires WellFormed(query, ns, address, qt) && NoRepeats(qt) && QtOk(t)
      modifies `qt
      ensures WellFormed(query, ns, address, qt) && NoRepeats(qt)
      ensures qt == if t.owner == ROOT || Has(old(qt), t) then old(qt) else old(qt) + [t]
      ensures t.owner != ROOT ==> Has(qt, t)
    {
      hide Same;
      RootShape(t.owner);
      if t.owner[0] == 0 {
        return;
      }
      for i := 0 to |qt|
        invariant qt == old(qt) && forall m :: 0 <= m < i ==> !SameQt(qt[m], t)
      {
        var same := Equal(qt[i].owner, t.owner);
        if same {
          same := Equal(qt[i].control, t.control);
          if same && qt[i].qtype == t.qtype && qt[i].ip == t.ip {
            return;
          }
        }
      }
      SameItself(t);
      qt := qt + [t];
      assert SameQt(qt[|qt| - 1], t);
    }

    /** The body of the innermost loops: qt_add for one match. */
    method AddMatch(i: nat, j: nat, k: nat)
      requires Names() && i < |query| && j < |ns| && k < |address|
      requires Matches(query[i], ns[j], address[k])
      modifies `qt
      ensures Names() && old(qt) <= qt && Covered(qt, query[i], ns[j], address[k])
    {
      hide Matches, SameQt, Joined;
      QtAdd(Row(query[i], ns[j], address[k]));
      if query[i].owner != ROOT {
        RowJoined(query, ns, address, i, j, k);
      }
    }

    /** query_add. */
    method QueryAdd(owner: bytes, qtype: bytes)
      requires Valid() && IsName(owner)
      modifies `query, `qt
      ensures Valid() && old(query) <= query && old(qt) <= qt
      ensures if exists q :: q in old(query) && SameQuery(q, Query(owner, qtype)) then query == old(query)
              else query == old(query) + [Query(owner, qtype)]
    {
      hide Matches, Same, Has, Joined;
      var x := Query(owner, qtype);
      for i := 0 to |query|
        invariant query == old(query) && qt == old(qt)
        invariant forall m :: 0 <= m < i ==> !SameQuery(query[m], x)
      {
        var same := Equal(query[i].owner, owner);
        if same && query[i].qtype == qtype {
          assert query[i] in query;
          return;
        }
      }
      ghost var query0 := query;
      query := query + [x];
      SoundGrows(query0, ns, address, query, ns, address, qt);
      for i := 0 to |ns|
        invariant Names() && old(qt) <= qt && query == query0 + [x]
        invariant forall j, k :: 0 <= j < i && 0 <= k < |address| ==> Covered(qt, x, ns[j], address[k])
      {
        ghost var qt0 := qt;
        var around := Suffix(owner, ns[i].owner);
        if around {
          for j := 0 to |address|
            invariant Names() && qt0 <= qt && query == query0 + [x]
            invariant forall k :: 0 <= k < j ==> Covered(qt, x, ns[i], address[k])
          {
            ghost var qt1 := qt;
            var same := Equal(ns[i].server, address[j].owner);
            MatchesIf(x, ns[i], address[j], around, same);
            if same {
              AddMatch(|query| - 1, i, j);
            }
            AllCoveredGrow(qt1, qt, x, ns[i], address[..j]);
            assert forall k :: 0 <= k < j ==> address[..j][k] == address[k];
          }
        } else {
          NotAround(x, ns[i], address, qt);
        }
        BlockGrows(qt0, qt, x, ns, i, address);
      }
      CompleteWithQuery(query0, ns, address, old(qt), qt, x);
    }

    /** ns_add: asks for the server's address too. */
    method NsAdd(owner: bytes, server: bytes)
      requires Valid() && IsName(owner) && IsName(server)
      modifies this
      ensures Valid() && old(query) <= query && old(qt) <= qt && address == old(address)
      ensures if exists n :: n in old(ns) && SameNs(n, Ns(owner, server)) then ns == old(ns) && query == old(query)
              else ns == old(ns) + [Ns(owner, server)]
                   && query == if exists q :: q in old(query) && SameQuery(q, Query(server, DNS_T_A)) then old(query)
                               else old(query) + [Query(server, DNS_T_A)]
    {
      hide Matches, Same, Has, Joined;
      var x := Ns(owner, server);
      for i := 0 to |ns|
        invariant query == old(query) && ns == old(ns) && address == old(address) && qt == old(qt)
        invariant forall m :: 0 <= m < i ==> !SameNs(ns[m], x)
      {
        var same := Equal(ns[i].owner, owner);
        if same {
          same := Equal(ns[i].server, server);
          if same {
            assert ns[i] in ns;
            return;
          }
        }
      }
      QueryAdd(server, DNS_T_A);
      NsExtend(x);
    }

    /** The second half of ns_add: appending the server and every match it takes part in. */
    method NsExtend(x: Ns)
      requires Valid() && NsOk(x)
      modifies `ns, `qt
      ensures Valid() && old(qt) <= qt && ns == old(ns) + [x]
    {
      hide Matches, Same, Has, Joined;
      ghost var ns0, qt0 := ns, qt;
      ns := ns + [x];
      SoundGrows(query, ns0, address, query, ns, address, qt);
      for i := 0 to |query|
        invariant Names() && qt0 <= qt && ns == ns0 + [x]
        invariant forall j, k :: 0 <= j < i && 0 <= k < |address| ==> Covered(qt, query[j], x, address[k])
      {
        ghost var qt1 := qt;
        var around := Suffix(query[i].owner, x.owner);
        if around {
          for j := 0 to |address|
            invariant Names() && qt1 <= qt && ns == ns0 + [x]
            invariant forall k :: 0 <= k < j ==> Covered(qt, query[i], x, address[k])
          {
            ghost var qt2 := qt;
            var same := Equal(x.server, address[j].owner);
            MatchesIf(query[i], x, address[j], around, same);
            if same {
              AddMatch(i, |ns| - 1, j);
            }
            AllCoveredGrow(qt2, qt, query[i], x, address[..j]);
            assert forall k :: 0 <= k < j ==> address[..j][k] == address[k];
          }
        } else {
          NotAround(query[i], x, address, qt);
        }
        NsBlockGrows(qt1, qt, query, i, x, address);
      }
      CompleteWithNs(query, ns0, address, qt0, qt, x);
    }

    /** address_add. */
    method AddressAdd(owner: bytes, ip: bytes)
      requires Valid() && IsName(owner)
      modifies `address, `qt
      ensures Valid() && old(qt) <= qt
      ensures if exists a :: a in old(address) && SameAddress(a, Address(owner, ip)) then address == old(address)
              else address == old(address) + [Address(owner, ip)]
    {
      hide Matches, Same, Has, Joined;
      var x := Address(owner, ip);
      for i := 0 to |address|
        invariant address == old(address) && qt == old(qt)
        invariant forall m :: 0 <= m < i ==> !SameAddress(address[m], x)
      {
        var same := Equal(address[i].owner, owner);
        if same && address[i].ip == ip {
          assert address[i] in address;
          return;
        }
      }
      ghost var address0 := address;
      address := address + [x];
      SoundGrows(query, ns, address0, query, ns, address, qt);
      for i := 0 to |ns|
        invariant Names() && old(qt) <= qt && address == address0 + [x]
        invariant forall j, k :: 0 <= j < i && 0 <= k < |query| ==> Covered(qt, query[k], ns[j], x)
      {
        ghost var qt1 := qt;
        var same := Equal(ns[i].server, owner);
        if same {
          for j := 0 to |query|
            invariant Names() && qt1 <= qt && address == address0 + [x]
            invariant forall k :: 0 <= k < j ==> Covered(qt, query[k], ns[i], x)
          {
            ghost var qt2 := qt;
            var around := Suffix(query[j].owner, ns[i].owner);
            MatchesIf(query[j], ns[i], x, around, same);
            if around {
              AddMatch(j, i, |address| - 1);
            }
            QueriesCoveredGrow(qt2, qt, query, j, ns[i], x);
          }
        } else {
          NotServing(query, ns[i], x, qt);
        }
        AddressBlockGrows(qt1, qt, query, ns, i, x);
      }
      CompleteWithAddress(query, ns, address0, old(qt), qt, x);
    }
  }

  lemma RootShape(d: bytes)
    requires IsName(d)
    ensures d[0] == 0 <==> d == ROOT
  {
  }

  lemma SameItself(t: Qt)
    ensures SameQt(t, t)
  {
  }

  lemma SoundGrows(query: seq<Query>, ns: seq<Ns>, address: seq<Address>,
                   query': seq<Query>, ns': seq<Ns>, address': seq<Address>, qt: seq<Qt>)
    requires forall i :: 0 <= i < |query'| ==> QueryOk(query'[i])
    requires query <= query' && ns <= ns' && address <= address'
    requires (forall i :: 0 <= i < |query| ==> QueryOk(query[i])) && Sound(query, ns, address, qt)
    ensures Sound(query', ns', address', qt)
  {
    hide Joined;
    forall m | 0 <= m < |qt|
      ensures Joined(query', ns', address', qt[m])
    {
      JoinedGrows(query, ns, address, query', ns', address', qt[m]);
    }
  }

  lemma MatchesIf(q: Query, n: Ns, a: Address, around: bool, same: bool)
    requires QueryOk(q)
    requires (around <==> HasSuffix(q.owner, n.owner)) && (same <==> Same(n.server, a.owner))
    ensures Matches(q, n, a) <==> around && same
  {
  }

  lemma NotAround(q: Query, n: Ns, address: seq<Address>, qt: seq<Qt>)
    requires QueryOk(q) && !HasSuffix(q.owner, n.owner)
    ensures forall k :: 0 <= k < |address| ==> Covered(qt, q, n, address[k])
  {
  }

  lemma AllCoveredGrow(qt: seq<Qt>, qt': seq<Qt>, q: Query, n: Ns, address: seq<Address>)
    requires QueryOk(q) && qt <= qt' && forall k :: 0 <= k < |address| ==> Covered(qt, q, n, address[k])
    ensures forall k :: 0 <= k < |address| ==> Covered(qt', q, n, address[k])
  {
    hide Covered;
    forall k | 0 <= k < |address|
      ensures Covered(qt', q, n, address[k])
    {
      CoveredGrows(qt, qt', q, n, address[k]);
    }
  }

  lemma BlockGrows(qt: seq<Qt>, qt': seq<Qt>, q: Query, ns: seq<Ns>, i: nat, address: seq<Address>)
    requires QueryOk(q) && qt <= qt' && i <= |ns|
    requires forall j, k :: 0 <= j < i && 0 <= k < |address| ==> Covered(qt, q, ns[j], address[k])
    ensures forall j, k :: 0 <= j < i && 0 <= k < |address| ==> Covered(qt', q, ns[j], address[k])
  {
    hide Covered;
    forall j, k | 0 <= j < i && 0 <= k < |address|
      ensures Covered(qt', q, ns[j], address[k])
    {
      CoveredGrows(qt, qt', q, ns[j], address[k]);
    }
  }

  lemma CompleteWithQuery(query: seq<Query>, ns: seq<Ns>, address: seq<Address>, qt: seq<Qt>, qt': seq<Qt>, x: Query)
    requires (forall i :: 0 <= i < |query| ==> QueryOk(query[i])) && QueryOk(x)
    requires qt <= qt' && Complete(query, ns, address, qt)
    requires forall j, k :: 0 <= j < |ns| && 0 <= k < |address| ==> Covered(qt', x, ns[j], address[k])
    ensures Complete(query + [x], ns, address, qt')
  {
    hide Covered;
    var query' := query + [x];
    forall i, j, k | 0 <= i < |query'| && 0 <= j < |ns| && 0 <= k < |address|
      ensures Covered(qt', query'[i], ns[j], address[k])
    {
      if i < |query| {
        CoveredGrows(qt, qt', query[i], ns[j], address[k]);
      }
    }
  }

  lemma NsBlockGrows(qt: seq<Qt>, qt': seq<Qt>, query: seq<Query>, i: nat, n: Ns, address: seq<Address>)
    requires (forall j :: 0 <= j < |query| ==> QueryOk(query[j])) && qt <= qt' && i <= |query|
    requires forall j, k :: 0 <= j < i && 0 <= k < |address| ==> Covered(qt, query[j], n, address[k])
    ensures forall j, k :: 0 <= j < i && 0 <= k < |address| ==> Covered(qt', query[j], n, address[k])
  {
    hide Covered;
    forall j, k | 0 <= j < i && 0 <= k < |address|
      ensures Covered(qt', query[j], n, address[k])
    {
      CoveredGrows(qt, qt', query[j], n, address[k]);
    }
  }

  lemma CompleteWithNs(query: seq<Query>, ns: seq<Ns>, address: seq<Address>, qt: seq<Qt>, qt': seq<Qt>, x: Ns)
    requires forall i :: 0 <= i < |query| ==> QueryOk(query[i])
    requires qt <= qt' && Complete(query, ns, address, qt)
    requires forall i, k :: 0 <= i < |query| && 0 <= k < |address| ==> Covered(qt', query[i], x, address[k])
    ensures Complete(query, ns + [x], address, qt')
  {
    hide Covered;
    var ns' := ns + [x];
    forall i, j, k | 0 <= i < |query| && 0 <= j < |ns'| && 0 <= k < |address|
      ensures Covered(qt', query[i], ns'[j], address[k])
    {
      if j < |ns| {
        CoveredGrows(qt, qt', query[i], ns[j], address[k]);
      }
    }
  }

  lemma QueriesCoveredGrow(qt: seq<Qt>, qt': seq<Qt>, query: seq<Query>, i: nat, n: Ns, a: Address)
    requires (forall j :: 0 <= j < |query| ==> QueryOk(query[j])) && qt <= qt' && i <= |query|
    requires forall k :: 0 <= k < i ==> Covered(qt, query[k], n, a)
    ensures forall k :: 0 <= k < i ==> Covered(qt', query[k], n, a)
  {
    hide Covered;
    forall k | 0 <= k < i
      ensures Covered(qt', query[k], n, a)
    {
      CoveredGrows(qt, qt', query[k], n, a);
    }
  }

  lemma NotServing(query: seq<Query>, n: Ns, a: Address, qt: seq<Qt>)
    requires (forall j :: 0 <= j < |query| ==> QueryOk(query[j])) && !Same(n.server, a.owner)
    ensures forall k :: 0 <= k < |query| ==> Covered(qt, query[k], n, a)
  {
  }

  lemma AddressBlockGrows(qt: seq<Qt>, qt': seq<Qt>, query: seq<Query>, ns: seq<Ns>, i: nat, a: Address)
    requires (forall j :: 0 <= j < |query| ==> QueryOk(query[j])) && qt <= qt' && i <= |ns|
    requires forall j, k :: 0 <= j < i && 0 <= k < |query| ==> Covered(qt, query[k], ns[j], a)
    ensures forall j, k :: 0 <= j < i && 0 <= k < |query| ==> Covered(qt', query[k], ns[j], a)
  {
    hide Covered;
    forall j, k | 0 <= j < i && 0 <= k < |query|
      ensures Covered(qt', query[k], ns[j], a)
    {
      CoveredGrows(qt, qt', query[k], ns[j], a);
    }
  }

  lemma CompleteWithAddress(query: seq<Query>, ns: seq<Ns>, address: seq<Address>, qt: seq<Qt>, qt': seq<Qt>,
                            x: Address)
    requires forall i :: 0 <= i < |query| ==> QueryOk(query[i])
    requires qt <= qt' && Complete(query, ns, address, qt)
    requires forall j, i :: 0 <= j < |ns| && 0 <= i < |query| ==> Covered(qt', query[i], ns[j], x)
    ensures Complete(query, ns, address + [x], qt')
  {
    hide Covered;
    var address' := address + [x];
    forall i, j, k | 0 <= i < |query| && 0 <= j < |ns| && 0 <= k < |address'|
      ensures Covered(qt', query[i], ns[j], address'[k])
    {
      if k < |address| {
        CoveredGrows(qt, qt', query[i], ns[j], address[k]);
      }
    }
  }

  // --- the order of the calls ---------------------------------------------------------------------

  datatype Call = AddQuery(q: Query) | AddNs(n: Ns) | AddAddress(a: Address)

  predicate CallOk(c: Call) {
    match c
    case AddQuery(q) => QueryOk(q)
    case AddNs(n) => NsOk(n)
    case AddAddress(a) => AddressOk(a)
  }

  /** The call asks for the query: by itself, or for the address of a server. */
  predicate Asks(c: Call, q: Query) {
    (c.AddQuery? && SameQuery(c.q, q)) || (c.AddNs? && SameQuery(Query(c.n.server, DNS_T_A), q))
  }

  ghost predicate Asked(calls: seq<Call>, q: Query) {
    exists c :: c in calls && Asks(c, q)
  }

  ghost predicate Served(calls: seq<Call>, n: Ns) {
    exists c :: c in calls && c.AddNs? && SameNs(c.n, n)
  }

  ghost predicate Addressed(calls: seq<Call>, a: Address) {
    exists c :: c in calls && c.AddAddress? && SameAddress(c.a, a)
  }

  /** The three lists hold, up to case, exactly what the calls have brought. */
  ghost predicate Reached(query: seq<Query>, ns: seq<Ns>, address: seq<Address>, calls: seq<Call>) {
    && (forall q :: HasQuery(query, q) <==> Asked(calls, q))
    && (forall n :: HasNs(ns, n) <==> Served(calls, n))
    && (forall a :: HasAddress(address, a) <==> Addressed(calls, a))
  }

  /** Appending what is not there yet, up to case. */
  lemma QueryAdded(query: seq<Query>, query': seq<Query>, x: Query)
    requires query' == if HasQuery(query, x) then query else query + [x]
    ensures forall q :: HasQuery(query', q) <==> HasQuery(query, q) || SameQuery(x, q)
  {
    hide LowerAll;
    assert forall q :: q in query + [x] <==> q in query || q == x;
    assert SameQuery(x, x);
  }

  lemma NsAdded(ns: seq<Ns>, ns': seq<Ns>, x: Ns)
    requires ns' == if HasNs(ns, x) then ns else ns + [x]
    ensures forall n :: HasNs(ns', n) <==> HasNs(ns, n) || SameNs(x, n)
  {
    hide LowerAll;
    assert forall n :: n in ns + [x] <==> n in ns || n == x;
    assert SameNs(x, x);
  }

  lemma AddressAdded(address: seq<Address>, address': seq<Address>, x: Address)
    requires address' == if HasAddress(address, x) then address else address + [x]
    ensures forall a :: HasAddress(address', a) <==> HasAddress(address, a) || SameAddress(x, a)
  {
    hide LowerAll;
    assert forall a :: a in address + [x] <==> a in address || a == x;
    assert SameAddress(x, x);
  }

  lemma OneMoreCall(calls: seq<Call>, c: Call)
    ensures forall q :: Asked(calls + [c], q) <==> Asked(calls, q) || Asks(c, q)
    ensures forall n :: Served(calls + [c], n) <==> Served(calls, n) || (c.AddNs? && SameNs(c.n, n))
    ensures forall a :: Addressed(calls + [c], a) <==> Addressed(calls, a) || (c.AddAddress? && SameAddress(c.a, a))
  {
    hide Same, Asks;
    assert forall d :: d in calls + [c] <==> d in calls || d == c;
  }

  /** A known server's address has been asked for. */
  lemma ServerAsked(query: seq<Query>, ns: seq<Ns>, address: seq<Address>, calls: seq<Call>, n: Ns)
    requires Reached(query, ns, address, calls) && HasNs(ns, n)
    ensures HasQuery(query, Query(n.server, DNS_T_A))
  {
    hide HasQuery, Same;
    assert Served(calls, n);
    var c :| c in calls && c.AddNs? && SameNs(c.n, n);
    assert SameQuery(Query(c.n.server, DNS_T_A), Query(n.server, DNS_T_A));
    assert Asks(c, Query(n.server, DNS_T_A));
  }

  /** A call asks for the query, or names a server whose address it asks for. */
  ghost predicate Wanted(calls: seq<Call>, q: Query) {
    AddQuery(q) in calls || (q.qtype == [0, 1] && exists zone :: AddNs(Ns(zone, q.owner)) in calls)
  }

  /**
   * The row says what is to be asked of an address: a query is wanted, below the root; a server of a zone around its
   * name is known, and the address is one of that server.
   */
  ghost predicate Brought(calls: seq<Call>, t: Qt) {
    exists q, n, a :: Wanted(calls, q) && AddNs(n) in calls && AddAddress(a) in calls
      && IsName(q.owner) && q.owner != [0] && HasSuffix(q.owner, n.owner) && LowerAll(n.server) == LowerAll(a.owner)
      && LowerAll(t.owner) == LowerAll(q.owner) && t.qtype == q.qtype
      && LowerAll(t.control) == LowerAll(n.owner) && t.ip == a.ip
  }

  /** The list has this row, its names in upper or lower case. */
  ghost predicate Listed(qt: seq<Qt>, t: Qt) {
    exists u :: u in qt && LowerAll(u.owner) == LowerAll(t.owner) && u.qtype == t.qtype
                && LowerAll(u.control) == LowerAll(t.control) && u.ip == t.ip
  }

  lemma ListedIsHas(qt: seq<Qt>, t: Qt)
    ensures Listed(qt, t) <==> Has(qt, t)
  {
    hide LowerAll;
  }

  /** The work list that the calls lead to holds each row that they bring, and no other. */
  lemma WorkListIsBrought(query: seq<Query>, ns: seq<Ns>, address: seq<Address>, qt: seq<Qt>, calls: seq<Call>, t: Qt)
    requires (forall c :: c in calls ==> CallOk(c)) && WellFormed(query, ns, address, qt)
    requires Sound(query, ns, address, qt) && Complete(query, ns, address, qt) && Reached(query, ns, address, calls)
    ensures Listed(qt, t) <==> Brought(calls, t)
  {
    hide Sound, Complete, Has, Listed, Brought, Reached, Joined, IsName;
    ListedIsHas(qt, t);
    WorkListIsJoin(query, ns, address, qt, t);
    if Brought(calls, t) {
      BroughtJoins(query, ns, address, calls, t);
    }
    if Joined(query, ns, address, t) {
      JoinedBrought(query, ns, address, calls, t);
    }
  }

  lemma BroughtJoins(query: seq<Query>, ns: seq<Ns>, address: seq<Address>, calls: seq<Call>, t: Qt)
    requires (forall i :: 0 <= i < |query| ==> QueryOk(query[i])) && Reached(query, ns, address, calls)
    requires Brought(calls, t)
    ensures Joined(query, ns, address, t)
  {
    hide LowerAll, HasSuffix, IsName, Joined, HasQuery, HasNs, HasAddress;
    var q, n, a :| Wanted(calls, q) && AddNs(n) in calls && AddAddress(a) in calls
      && IsName(q.owner) && q.owner != [0] && HasSuffix(q.owner, n.owner) && LowerAll(n.server) == LowerAll(a.owner)
      && LowerAll(t.owner) == LowerAll(q.owner) && t.qtype == q.qtype
      && LowerAll(t.control) == LowerAll(n.owner) && t.ip == a.ip;
    WantedAsked(calls, q);
    assert SameNs(AddNs(n).n, n) && SameAddress(AddAddress(a).a, a);
    assert Served(calls, n) && Addressed(calls, a);
    assert Matches(q, n, a) && SameQt(Row(q, n, a), t);
    JoinedOne(q, n, a, t);
    JoinedByMembers([q], [n], [a], query, ns, address, t);
  }

  lemma JoinedOne(q: Query, n: Ns, a: Address, t: Qt)
    requires QueryOk(q) && Matches(q, n, a) && q.owner != ROOT && SameQt(Row(q, n, a), t)
    ensures Joined([q], [n], [a], t)
  {
    hide Matches, SameQt, IsName, Row;
    assert [q][0] == q && [n][0] == n && [a][0] == a;
  }

  lemma WantedAsked(calls: seq<Call>, q: Query)
    requires Wanted(calls, q)
    ensures Asked(calls, q)
  {
    hide LowerAll;
    if AddQuery(q) in calls {
      assert Asks(AddQuery(q), q);
    } else {
      var zone :| AddNs(Ns(zone, q.owner)) in calls;
      assert Asks(AddNs(Ns(zone, q.owner)), q);
    }
  }

  lemma JoinedBrought(query: seq<Query>, ns: seq<Ns>, address: seq<Address>, calls: seq<Call>, t: Qt)
    requires (forall i :: 0 <= i < |query| ==> QueryOk(query[i])) && (forall c :: c in calls ==> CallOk(c))
    requires Reached(query, ns, address, calls) && Joined(query, ns, address, t)
    ensures Brought(calls, t)
  {
    hide LowerAll, HasSuffix, IsName, Matches, Brought;
    var i, j, k :| 0 <= i < |query| && 0 <= j < |ns| && 0 <= k < |address|
      && Matches(query[i], ns[j], address[k]) && query[i].owner != ROOT
      && SameQt(Row(query[i], ns[j], address[k]), t);
    var q, n, a := query[i], ns[j], address[k];
    MembersHeld(query, ns, address, q, n, a);
    var q' := WhoAsked(calls, q);
    var c :| c in calls && c.AddNs? && SameNs(c.n, n);
    var d :| d in calls && d.AddAddress? && SameAddress(d.a, a);
    MatchesUpToCase(q', q, c.n, n, d.a, a);
    RootUpToCase(q', q);
    BroughtBy(calls, q', c, d, t);
  }

  lemma MembersHeld(query: seq<Query>, ns: seq<Ns>, address: seq<Address>, q: Query, n: Ns, a: Address)
    ensures q in query ==> HasQuery(query, q)
    ensures n in ns ==> HasNs(ns, n)
    ensures a in address ==> HasAddress(address, a)
  {
    hide LowerAll;
    assert SameQuery(q, q) && SameNs(n, n) && SameAddress(a, a);
  }

  lemma BroughtBy(calls: seq<Call>, q: Query, c: Call, d: Call, t: Qt)
    requires Wanted(calls, q) && c in calls && c.AddNs? && d in calls && d.AddAddress?
    requires QueryOk(q) && Matches(q, c.n, d.a) && q.owner != ROOT && SameQt(Row(q, c.n, d.a), t)
    ensures Brought(calls, t)
  {
    hide LowerAll, HasSuffix, IsName, Wanted;
    assert c == AddNs(c.n) && d == AddAddress(d.a);
  }

  /** The query that a call asks for, as the call spells it. */
  lemma WhoAsked(calls: seq<Call>, q: Query) returns (q': Query)
    requires (forall c :: c in calls ==> CallOk(c)) && Asked(calls, q)
    ensures Wanted(calls, q') && QueryOk(q') && SameQuery(q', q)
  {
    hide LowerAll, IsName;
    var c :| c in calls && Asks(c, q);
    if c.AddQuery? && SameQuery(c.q, q) {
      q' := c.q;
      assert c == AddQuery(q');
    } else {
      q' := Query(c.n.server, DNS_T_A);
      assert c == AddNs(Ns(c.n.owner, q'.owner));
    }
  }

  /** Makes the calls one after the other. */
  method Replay(calls: seq<Call>) returns (l: Lists)
    requires forall c :: c in calls ==> CallOk(c)
    ensures fresh(l) && l.Valid() && Reached(l.query, l.ns, l.address, calls)
    ensures forall t :: Listed(l.qt, t) <==> Brought(calls, t)
  {
    hide Reached, Listed, Brought;
    l := new Lists();
    NothingReached();
    for i := 0 to |calls|
      invariant fresh(l) && l.Valid() && Reached(l.query, l.ns, l.address, calls[..i])
    {
      assert calls[i] in calls;
      Make(l, calls[i], calls[..i]);
      assert calls[..i + 1] == calls[..i] + [calls[i]];
    }
    assert calls[..|calls|] == calls;
    forall t
      ensures Listed(l.qt, t) <==> Brought(calls, t)
    {
      WorkListIsBrought(l.query, l.ns, l.address, l.qt, calls, t);
    }
  }

  lemma NothingReached()
    ensures Reached([], [], [], [])
  {
  }

  method Make(l: Lists, c: Call, ghost before: seq<Call>)
    requires l.Valid() && CallOk(c) && Reached(l.query, l.ns, l.address, before)
    modifies l
    ensures l.Valid() && Reached(l.query, l.ns, l.address, before + [c])
  {
    hide Same, IsName, Has, Joined;
    hide Lists.Valid;
    OneMoreCall(before, c);
    ghost var query, ns, address := l.query, l.ns, l.address;
    match c {
      case AddQuery(q) =>
        l.QueryAdd(q.owner, q.qtype);
        QueryAdded(query, l.query, q);
      case AddNs(n) =>
        if HasNs(ns, n) {
          ServerAsked(query, ns, address, before, n);
        }
        l.NsAdd(n.owner, n.server);
        NsAdded(ns, l.ns, n);
        QueryAdded(query, l.query, Query(n.server, DNS_T_A));
      case AddAddress(a) =>
        l.AddressAdd(a.owner, a.ip);
        AddressAdded(address, l.address, a);
    }
  }

  /** The same calls in any order, and any number of times each, lead to the same work list up to case. */
  lemma OrderDoesNotMatter(a: Lists, calls: seq<Call>, b: Lists, calls': seq<Call>, t: Qt)
    requires a.Valid() && Reached(a.query, a.ns, a.address, calls)
    requires b.Valid() && Reached(b.query, b.ns, b.address, calls')
    requires forall c :: c in calls <==> c in calls'
    ensures Has(a.qt, t) <==> Has(b.qt, t)
  {
    hide Joined, Has, Complete, Sound, NoRepeats;
    WorkListIsJoin(a.query, a.ns, a.address, a.qt, t);
    WorkListIsJoin(b.query, b.ns, b.address, b.qt, t);
    SameMembers(a.query, a.ns, a.address, calls, b.query, b.ns, b.address, calls');
    SameMembers(b.query, b.ns, b.address, calls', a.query, a.ns, a.address, calls);
    if Joined(a.query, a.ns, a.address, t) {
      JoinedByMembers(a.query, a.ns, a.address, b.query, b.ns, b.address, t);
    }
    if Joined(b.query, b.ns, b.address, t) {
      JoinedByMembers(b.query, b.ns, b.address, a.query, a.ns, a.address, t);
    }
  }

  lemma SameMembers(query: seq<Query>, ns: seq<Ns>, address: seq<Address>, calls: seq<Call>,
                    query': seq<Query>, ns': seq<Ns>, address': seq<Address>, calls': seq<Call>)
    requires Reached(query, ns, address, calls) && Reached(query', ns', address', calls')
    requires forall c :: c in calls <==> c in calls'
    ensures (forall q :: q in query ==> HasQuery(query', q)) && (forall n :: n in ns ==> HasNs(ns', n))
    ensures forall a :: a in address ==> HasAddress(address', a)
  {
    hide LowerAll, Asks;
    forall q | q in query
      ensures HasQuery(query', q)
    {
      assert SameQuery(q, q);
      assert HasQuery(query, q) && Asked(calls, q) && Asked(calls', q);
    }
    forall n | n in ns
      ensures HasNs(ns', n)
    {
      assert SameNs(n, n);
      assert HasNs(ns, n) && Served(calls, n) && Served(calls', n);
    }
    forall a | a in address
      ensures HasAddress(address', a)
    {
      assert SameAddress(a, a);
      assert HasAddress(address, a) && Addressed(calls, a) && Addressed(calls', a);
    }
  }
}
