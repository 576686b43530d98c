/** query.c: what HAVEPACKET puts into the cache, and why it is answered from there as it came. */
module PacketCache {
  import opened Bytes
  import opened Domain
  import opened Packet
  import opened PacketRecords
  import opened QueryData

  // --- strings in the cache -----------------------------------------------------------------------

  /** The bytes that save_data appends for a record of this type with these data. */
  function Stored(rtype: bytes, parts: seq<Part>): bytes {
    if rtype == T_NS || rtype == T_PTR || rtype == T_CNAME then
      if |parts| == 1 && parts[0].Name? then parts[0].d else []
    else if rtype == T_MX then
      if |parts| == 2 && parts[0].Raw? && parts[1].Name? then parts[0].s + parts[1].d else []
    else if rtype == T_A then if |parts| == 1 && parts[0].Raw? then parts[0].s else []
    else if |parts| == 1 && parts[0].Raw? then [|parts[0].s| / 256 % 256, |parts[0].s| % 256] + parts[0].s
    else []
  }

  function StoredAll(rtype: bytes, datas: seq<seq<Part>>): bytes {
    if datas == [] then [] else Stored(rtype, datas[0]) + StoredAll(rtype, datas[1..])
  }

  lemma {:induction false} StoredMore(rtype: bytes, datas: seq<seq<Part>>, parts: seq<Part>)
    ensures StoredAll(rtype, datas + [parts]) == StoredAll(rtype, datas) + Stored(rtype, parts)
    decreases |datas|
  {
    hide Stored;
    if datas == [] {
      assert [parts][1..] == [];
    } else {
      StoredMore(rtype, datas[1..], parts);
      assert (datas + [parts])[1..] == datas[1..] + [parts];
    }
  }

  /** Data of this type as they are read from a packet. */
  predicate Fit(rtype: bytes, parts: seq<Part>) {
    && (forall i :: 0 <= i < |parts| ==>
          match parts[i]
          case Raw(s) => |s| < 65536
          case Name(d) => IsName(d) && |d| <= MAXNAME)
    && ShapeOf(rtype, RawLength(parts), parts) && (rtype == T_A ==> RawLength(parts) == 4)
  }

  predicate AllFit(rtype: bytes, datas: seq<seq<Part>>) {
    forall i :: 0 <= i < |datas| ==> Fit(rtype, datas[i])
  }

  lemma FirstOf(datas: seq<seq<Part>>)
    requires datas != []
    ensures datas == [datas[0]] + datas[1..]
  {
  }

  lemma NameForm(rtype: bytes, parts: seq<Part>)
    requires Fit(rtype, parts) && (rtype == T_NS || rtype == T_PTR)
    ensures |parts| == 1 && parts[0].Name? && parts == [Name(parts[0].d)] && Stored(rtype, parts) == parts[0].d
    ensures IsName(parts[0].d) && |parts[0].d| <= MAXNAME
  {
    hide IsName;
  }

  lemma ExchangeForm(parts: seq<Part>)
    requires Fit(T_MX, parts)
    ensures |parts| == 2 && parts[0].Raw? && parts[1].Name? && parts == [Raw(parts[0].s), Name(parts[1].d)]
    ensures Stored(T_MX, parts) == parts[0].s + parts[1].d && |parts[0].s| == 2
    ensures IsName(parts[1].d) && |parts[1].d| <= MAXNAME
  {
    hide IsName;
  }

  lemma RawForm(rtype: bytes, parts: seq<Part>)
    requires Fit(rtype, parts) && (rtype == T_A || Plain(rtype))
    ensures |parts| == 1 && parts[0].Raw? && parts == [Raw(parts[0].s)] && |parts[0].s| < 65536
    ensures var s := parts[0].s;
            if rtype == T_A then |s| == 4 && Stored(rtype, parts) == s
            else Stored(rtype, parts) == [|s| / 256, |s| % 256] + s
  {
    hide IsName;
  }

  /** What is stored begins with the first data, and the rest is what the others are stored as. */
  lemma StoredFirst(rtype: bytes, datas: seq<seq<Part>>, data: bytes, pos: nat)
    requires datas != [] && pos <= |data| && data[pos..] == StoredAll(rtype, datas)
    ensures var s := Stored(rtype, datas[0]);
            && pos + |s| <= |data| && data[pos..pos + |s|] == s
            && data[pos + |s|..] == StoredAll(rtype, datas[1..])
  {
    hide Stored;
    var s := Stored(rtype, datas[0]);
    assert |data[pos..]| == |s| + |StoredAll(rtype, datas[1..])|;
    assert data[pos..][..|s|] == s && data[pos..][|s|..] == data[pos + |s|..];
  }

  lemma {:induction false} NamesBack(rtype: bytes, datas: seq<seq<Part>>, data: bytes, pos: nat)
    requires (rtype == T_NS || rtype == T_PTR) && AllFit(rtype, datas)
    requires pos <= |data| && data[pos..] == StoredAll(rtype, datas)
    ensures NameData(NamesIn(data, pos)) == datas
    decreases |datas|
  {
    hide NameAt, IsName, Fit, Stored, StoredAll;
    if datas == [] {
      NothingStored(rtype, data, pos);
    } else {
      NameForm(rtype, datas[0]);
      var d := datas[0][0].d;
      StoredFirst(rtype, datas, data, pos);
      PlainName(data, pos, d);
      NamesBack(rtype, datas[1..], data, pos + |d|);
      FirstOf(datas);
      NameDataFirst(d, NamesIn(data, pos + |d|));
    }
  }

  lemma NameDataFirst(d: bytes, names: seq<bytes>)
    ensures NameData([d] + names) == [[Name(d)]] + NameData(names)
  {
  }

  lemma RawDataFirst(s: bytes, strings: seq<bytes>)
    ensures RawData([s] + strings) == [[Raw(s)]] + RawData(strings)
  {
  }

  lemma NothingStored(rtype: bytes, data: bytes, pos: nat)
    requires pos <= |data| && data[pos..] == StoredAll(rtype, [])
    ensures pos == |data| && NameAt(data, pos) == None && NameAt(data, pos + 2) == None
  {
  }

  lemma {:induction false} ExchangesBack(datas: seq<seq<Part>>, data: bytes, pos: nat)
    requires AllFit(T_MX, datas) && pos <= |data| && data[pos..] == StoredAll(T_MX, datas)
    ensures ExchangesIn(data, pos) == datas
    decreases |datas|
  {
    hide NameAt, IsName, Fit, Stored, StoredAll;
    if datas == [] {
      NothingStored(T_MX, data, pos);
    } else {
      ExchangeForm(datas[0]);
      var s, d := datas[0][0].s, datas[0][1].d;
      StoredFirst(T_MX, datas, data, pos);
      var next := pos + |s + d|;
      assert data[pos..pos + 2] == data[pos..next][..2] == s;
      assert data[pos + 2..next] == data[pos..next][2..] == d;
      PlainName(data, pos + 2, d);
      ExchangesBack(datas[1..], data, next);
      FirstOf(datas);
    }
  }

  lemma {:induction false} AddressesBack(datas: seq<seq<Part>>, data: bytes)
    requires AllFit(T_A, datas) && data == StoredAll(T_A, datas)
    ensures RawData(AddressesIn(data)) == datas
    decreases |datas|
  {
    hide Fit, Stored;
    if datas != [] {
      RawForm(T_A, datas[0]);
      var s := datas[0][0].s;
      assert data[..4] == s && data[4..] == StoredAll(T_A, datas[1..]);
      AddressesBack(datas[1..], data[4..]);
      FirstOf(datas);
      RawDataFirst(s, AddressesIn(data[4..]));
    }
  }

  /** Types whose data are kept as strings, each after its length. */
  predicate Plain(rtype: bytes) {
    rtype !in [T_NS, T_PTR, T_CNAME, T_MX, T_A, T_SOA, T_ANY, T_AXFR]
  }

  lemma {:induction false} StringsBack(rtype: bytes, datas: seq<seq<Part>>, data: bytes)
    requires Plain(rtype) && AllFit(rtype, datas) && data == StoredAll(rtype, datas)
    ensures StringsIn(data).Some? && RawData(StringsIn(data).value) == datas
    decreases |datas|
  {
    hide Fit, Stored, Plain;
    if datas != [] {
      RawForm(rtype, datas[0]);
      var s, rest := datas[0][0].s, StoredAll(rtype, datas[1..]);
      NotAddress(rtype);
      LengthInFront(s, rest);
      assert data == [|s| / 256, |s| % 256] + s + rest;
      StringsBack(rtype, datas[1..], rest);
      FirstOf(datas);
      RawDataFirst(s, StringsIn(rest).value);
    }
  }

  lemma NotAddress(rtype: bytes)
    requires Plain(rtype)
    ensures rtype != T_A
  {
  }

  lemma LengthInFront(s: bytes, rest: bytes)
    requires |s| < 65536
    ensures var data := [|s| / 256, |s| % 256] + s + rest;
            StringsIn(data) == match StringsIn(rest) case None => None case Some(more) => Some([s] + more)
  {
    var data := [|s| / 256, |s| % 256] + s + rest;
    assert data[2..2 + |s|] == s && data[2 + |s|..] == rest;
  }

  /** Data kept in the cache are given out as they came. */
  lemma StoredBack(rtype: bytes, datas: seq<seq<Part>>)
    requires rtype !in [T_CNAME, T_SOA, T_ANY, T_AXFR] && AllFit(rtype, datas)
    ensures StoredData(rtype, StoredAll(rtype, datas)) == Some(datas)
  {
    var data := StoredAll(rtype, datas);
    assert data[0..] == data;
    if rtype == T_NS || rtype == T_PTR {
      NamesBack(rtype, datas, data, 0);
    } else if rtype == T_MX {
      ExchangesBack(datas, data, 0);
    } else if rtype == T_A {
      AddressesBack(datas, data);
    } else {
      StringsBack(rtype, datas, data);
    }
  }

  // --- what is learnt from a packet ---------------------------------------------------------------

  const SAVE_SIZE := 8192

  /** One call of cache_set: type, owner, data and ttl. */
  datatype Saved = Saved(rtype: bytes, owner: bytes, data: bytes, ttl: uint32)

  /** Whether the record at p contributes data to a group of this type: addresses of another length do not. */
  predicate Contributes(buf: bytes, rtype: bytes, p: nat) {
    rtype != T_ANY && rtype != T_AXFR && (rtype == T_A ==> DataLength(buf, p) == 4)
  }

  function DataHere(buf: bytes, rtype: bytes, p: nat): Option<seq<Part>> {
    DataOf(buf, rtype, After(buf, p) + 10, DataLength(buf, p))
  }

  /** The data of the records that contribute, in order; nothing if some cannot be read. */
  function Datas(buf: bytes, rtype: bytes, s: seq<nat>): Option<seq<seq<Part>>> {
    if s == [] then Some([])
    else
      var p := s[|s| - 1];
      match Datas(buf, rtype, s[..|s| - 1])
      case None => None
      case Some(before) =>
        if !Contributes(buf, rtype, p) then Some(before)
        else match DataHere(buf, rtype, p) case None => None case Some(parts) => Some(before + [parts])
  }

  lemma OneMoreData(buf: bytes, rtype: bytes, s: seq<nat>, j: nat)
    requires j < |s|
    ensures Datas(buf, rtype, s[..j + 1])
         == match Datas(buf, rtype, s[..j])
            case None => None
            case Some(before) =>
              if !Contributes(buf, rtype, s[j]) then Some(before)
              else match DataHere(buf, rtype, s[j]) case None => None case Some(parts) => Some(before + [parts])
  {
    hide Contributes, DataHere;
    assert s[..j + 1][..j] == s[..j];
  }

  /** What one group of records puts into the cache; nothing at all if a record that is needed cannot be read. */
  function Learnt(buf: bytes, g: seq<nat>): Option<seq<Saved>> {
    if g == [] || Parse(buf, g[0]) == None then None
    else
      var r := Parse(buf, g[0]).value;
      var rtype := r.head[..2];
      // Of several aliases only the last is looked at.
      match Datas(buf, rtype, if rtype == T_CNAME then g[|g| - 1..] else g)
      case None => None
      case Some(datas) =>
        var data := StoredAll(rtype, datas);
        if rtype == T_SOA || rtype == T_ANY || rtype == T_AXFR || (rtype != T_CNAME && |data| > SAVE_SIZE) then Some([])
        else Some([Saved(rtype, r.owner, data, Ttl(r.ttl))])
  }

  /** Only records of the zone under control that the configuration lets its servers speak for are believed. */
  predicate Believed(buf: bytes, g: seq<nat>, control: bytes, sameRoots: set<bytes>) {
    g != [] && Parse(buf, g[0]).Some? && IsName(Owner(buf, g[0])) && HasSuffix(Owner(buf, g[0]), control)
    && Owner(buf, g[0]) in sameRoots
  }

  /** What all groups together put into the cache. */
  function LearntFrom(buf: bytes, groups: seq<seq<nat>>, control: bytes, sameRoots: set<bytes>): Option<seq<Saved>> {
    if groups == [] then Some([])
    else
      var g := groups[|groups| - 1];
      match LearntFrom(buf, groups[..|groups| - 1], control, sameRoots)
      case None => None
      case Some(before) =>
        if !Believed(buf, g, control, sameRoots) then Some(before)
        else match Learnt(buf, g) case None => None case Some(more) => Some(before + more)
  }

  lemma OneMoreGroup(buf: bytes, groups: seq<seq<nat>>, j: nat, control: bytes, sameRoots: set<bytes>)
    requires j < |groups|
    ensures LearntFrom(buf, groups[..j + 1], control, sameRoots)
         == match LearntFrom(buf, groups[..j], control, sameRoots)
            case None => None
            case Some(before) =>
              if !Believed(buf, groups[j], control, sameRoots) then Some(before)
              else match Learnt(buf, groups[j]) case None => None case Some(more) => Some(before + more)
  {
    hide Believed, Learnt;
    assert groups[..j + 1][..j] == groups[..j];
  }

  /** The data of one record, if it contributes any. */
  method ReadContribution(buf: bytes, rtype: bytes, p: nat) returns (ok: bool, parts: Option<seq<Part>>)
    requires Parse(buf, p).Some?
    ensures parts.Some? ==> ok && Contributes(buf, rtype, p) && parts == DataHere(buf, rtype, p)
    ensures ok && parts == None ==> !Contributes(buf, rtype, p)
    ensures !ok ==> Contributes(buf, rtype, p) && DataHere(buf, rtype, p) == None
  {
    hide NameAt, DataOf;
    var r := ReadRecord(buf, p);
    if rtype == T_ANY || rtype == T_AXFR || (rtype == T_A && r.value.datalen != 4) { return true, None; }
    parts := ReadData(buf, rtype, r.value.after + 10, r.value.datalen);
    ok := parts.Some?;
  }

  /** The loops over one group: what is saved goes into a buffer of 8192 bytes, and nothing if it does not fit. */
  method SaveAll(buf: bytes, rtype: bytes, s: seq<nat>) returns (ok: bool, saveOk: bool, save: bytes)
    requires forall i :: 0 <= i < |s| ==> Parse(buf, s[i]).Some?
    ensures ok <==> Datas(buf, rtype, s).Some?
    ensures ok ==> var data := StoredAll(rtype, Datas(buf, rtype, s).value);
                   saveOk == (|data| <= SAVE_SIZE) && (saveOk ==> save == data)
  {
    hide Parse, Datas, DataHere, Contributes, Stored, StoredAll;
    saveOk, save := true, [];
    NoDatas(buf, rtype, s);
    ghost var datas: seq<seq<Part>> := [];
    for j := 0 to |s|
      invariant Datas(buf, rtype, s[..j]) == Some(datas)
      invariant saveOk == (|StoredAll(rtype, datas)| <= SAVE_SIZE) && (saveOk ==> save == StoredAll(rtype, datas))
    {
      OneMoreData(buf, rtype, s, j);
      var parts;
      ok, parts := ReadContribution(buf, rtype, s[j]);
      if !ok {
        DatasStop(buf, rtype, s, j + 1);
        return;
      }
      if parts.Some? {
        StoredMore(rtype, datas, parts.value);
        datas := datas + [parts.value];
        var more := Stored(rtype, parts.value);
        if saveOk {
          if |more| > SAVE_SIZE - |save| { saveOk := false; } else { save := save + more; }
        }
      }
    }
    assert s[..|s|] == s;
    ok := true;
  }

  lemma NoDatas(buf: bytes, rtype: bytes, s: seq<nat>)
    ensures Datas(buf, rtype, s[..0]) == Some([]) && StoredAll(rtype, []) == []
  {
  }

  /** Once a record cannot be read the rest does not matter. */
  lemma {:induction false} DatasStop(buf: bytes, rtype: bytes, s: seq<nat>, j: nat)
    requires j <= |s| && Datas(buf, rtype, s[..j]) == None
    ensures Datas(buf, rtype, s) == None
    decreases |s| - j
  {
    hide Contributes, DataHere, Datas;
    if j == |s| {
      assert s[..j] == s;
    } else {
      OneMoreData(buf, rtype, s, j);
      DatasStop(buf, rtype, s, j + 1);
    }
  }

  /** What one group puts into the cache. */
  method Learn(buf: bytes, g: seq<nat>) returns (saved: Option<seq<Saved>>)
    requires g != [] && forall i :: 0 <= i < |g| ==> Parse(buf, g[i]).Some?
    ensures saved == Learnt(buf, g)
  {
    hide Datas, StoredAll, Parse;
    var r := ReadRecord(buf, g[0]);
    var rtype := r.value.head[..2];
    var ok, saveOk, save;
    if rtype == T_CNAME {
      ok, saveOk, save := SaveAll(buf, rtype, g[|g| - 1..]);
      assert g[|g| - 1..] == [g[|g| - 1]];
      if ok { AliasStored(buf, g[|g| - 1]); }
    } else {
      ok, saveOk, save := SaveAll(buf, rtype, g);
    }
    if !ok { return None; }
    if rtype == T_SOA || rtype == T_ANY || rtype == T_AXFR || !saveOk { return Some([]); }
    return Some([Saved(rtype, r.value.owner, save, Ttl(r.value.ttl))]);
  }

  lemma AliasData(buf: bytes, p: nat)
    ensures Datas(buf, T_CNAME, [p]).Some? <==> Target(buf, p).Some?
  {
    hide NameAt, After, DataLength;
    assert [p][..0] == [] && [p][..1] == [p];
    OneMoreData(buf, T_CNAME, [p], 0);
    NoDatas(buf, T_CNAME, [p]);
  }

  /** A single alias is kept as its target, which is short. */
  lemma AliasStored(buf: bytes, p: nat)
    requires Datas(buf, T_CNAME, [p]).Some?
    ensures Target(buf, p).Some? && |Target(buf, p).value| <= MAXNAME
    ensures StoredAll(T_CNAME, Datas(buf, T_CNAME, [p]).value) == Target(buf, p).value
  {
    hide NameAt, After, DataLength;
    assert [p][..0] == [] && [p][..1] == [p];
    OneMoreData(buf, T_CNAME, [p], 0);
    NoDatas(buf, T_CNAME, [p]);
    var parts := DataHere(buf, T_CNAME, p).value;
    NameAtIsName(buf, After(buf, p) + 10);
    assert Datas(buf, T_CNAME, [p]).value == [parts];
    assert [parts][1..] == [];
    assert StoredAll(T_CNAME, [parts]) == Stored(T_CNAME, parts) + StoredAll(T_CNAME, []) == Stored(T_CNAME, parts);
  }

  /**
   * The records of a packet are collected, sorted and grouped, and the groups that are believed go into the cache. It
   * fails exactly if a record cannot be collected or one that is needed cannot be read.
   */
  method LearnPacket(buf: bytes, pos: nat, k: nat, control: bytes, sameRoots: set<bytes>)
      returns (ok: bool, saved: seq<Saved>, groups: seq<seq<nat>>)
    requires IsName(control)
    ensures ok ==> AllThere(buf, pos, k) && GroupsOk(buf, Places(buf, pos, k), groups, k)
                   && LearntFrom(buf, groups, control, sameRoots) == Some(saved)
    ensures !ok ==> !AllThere(buf, pos, k)
                    || (GroupsOk(buf, Places(buf, pos, k), groups, k)
                        && LearntFrom(buf, groups, control, sameRoots) == None)
  {
    hide AllThere, Places, GroupsOk, InPacketOrder, Chained, Parse, Learnt, LearntFrom, IsName, HasSuffix;
    saved := [];
    var places;
    ok, groups, places := GroupPacket(buf, pos, k);
    if !ok { return; }
    NothingLearnt(buf, groups, control, sameRoots);
    for j := 0 to |groups|
      invariant LearntFrom(buf, groups[..j], control, sameRoots) == Some(saved)
    {
      OneMoreGroup(buf, groups, j, control, sameRoots);
      GroupReadable(buf, places, groups, k, j);
      var r := ReadRecord(buf, groups[j][0]);
      ParseShape(buf, groups[j][0]);
      var below := Suffix(r.value.owner, control);
      if below && r.value.owner in sameRoots {
        var more := Learn(buf, groups[j]);
        if more == None {
          LearntStop(buf, groups, j + 1, control, sameRoots);
          return false, saved, groups;
        }
        saved := saved + more.value;
      }
    }
    assert groups[..|groups|] == groups;
  }

  lemma NothingLearnt(buf: bytes, groups: seq<seq<nat>>, control: bytes, sameRoots: set<bytes>)
    ensures LearntFrom(buf, groups[..0], control, sameRoots) == Some([])
  {
  }

  lemma {:induction false} LearntStop(buf: bytes, groups: seq<seq<nat>>, j: nat, control: bytes, sameRoots: set<bytes>)
    requires j <= |groups| && LearntFrom(buf, groups[..j], control, sameRoots) == None
    ensures LearntFrom(buf, groups, control, sameRoots) == None
    decreases |groups| - j
  {
    hide Believed, Learnt, LearntFrom;
    if j == |groups| {
      assert groups[..j] == groups;
    } else {
      OneMoreGroup(buf, groups, j, control, sameRoots);
      LearntStop(buf, groups, j + 1, control, sameRoots);
    }
  }

  lemma GroupReadable(buf: bytes, s: seq<nat>, groups: seq<seq<nat>>, k: nat, j: nat)
    requires Readable(buf, s) && k == |s| && GroupsOk(buf, s, groups, k) && j < |groups|
    ensures groups[j] != [] && forall i :: 0 <= i < |groups[j]| ==> Parse(buf, groups[j][i]).Some?
  {
    hide Parse, Kind, ClassIn, InPacketOrder;
    var g := groups[j];
    assert GroupOk(buf, s, g);
    forall i | 0 <= i < |g|
      ensures Parse(buf, g[i]).Some?
    {
      assert g[i] in g && g[i] in s;
    }
  }

  // --- what is learnt, and from whom --------------------------------------------------------------

  /** One of the groups is of this owner, inside the zone under control, and gives this data. */
  ghost predicate ComesFrom(buf: bytes, g: seq<nat>, control: bytes, sameRoots: set<bytes>, s: Saved) {
    && g != [] && Parse(buf, g[0]).Some? && s.rtype == Head(buf, g[0])[..2]
    && s.owner == Owner(buf, g[0]) && IsName(s.owner) && HasSuffix(s.owner, control) && s.owner in sameRoots
    && s.rtype !in [T_SOA, T_ANY, T_AXFR] && s.ttl == TtlAt(buf, g[0])
    && if s.rtype == T_CNAME then Target(buf, g[|g| - 1]) == Some(s.data)
       else
         && Datas(buf, s.rtype, g).Some? && s.data == StoredAll(s.rtype, Datas(buf, s.rtype, g).value)
         && |s.data| <= 8192
  }

  lemma LearntMeans(buf: bytes, g: seq<nat>, control: bytes, sameRoots: set<bytes>, s: Saved)
    requires Believed(buf, g, control, sameRoots) && Learnt(buf, g).Some?
    ensures s in Learnt(buf, g).value <==> ComesFrom(buf, g, control, sameRoots, s)
  {
    hide Datas, StoredAll, NameAt, HasSuffix, IsName, Target, DataOf;
    ParseShape(buf, g[0]);
    var rtype := Head(buf, g[0])[..2];
    if rtype == T_CNAME {
      assert g[|g| - 1..] == [g[|g| - 1]];
      AliasStored(buf, g[|g| - 1]);
    }
  }

  lemma ComesBelieved(buf: bytes, g: seq<nat>, control: bytes, sameRoots: set<bytes>, s: Saved)
    requires ComesFrom(buf, g, control, sameRoots, s)
    ensures Believed(buf, g, control, sameRoots)
  {
    hide Datas, StoredAll, Parse, HasSuffix, IsName, Target;
  }

  /**
   * What is learnt is exactly the data of the groups whose owners lie in the zone under control and are served by the
   * same servers: each with its own type, owner and data, and the ttl of its first record.
   */
  lemma {:induction false} LearntExactly(buf: bytes, groups: seq<seq<nat>>, control: bytes, sameRoots: set<bytes>,
                                         s: Saved)
    requires LearntFrom(buf, groups, control, sameRoots).Some?
    ensures s in LearntFrom(buf, groups, control, sameRoots).value
            <==> exists i :: 0 <= i < |groups| && ComesFrom(buf, groups[i], control, sameRoots, s)
  {
    hide Believed, Learnt, ComesFrom;
    if groups != [] {
      var init, g := groups[..|groups| - 1], groups[|groups| - 1];
      LearntExactly(buf, init, control, sameRoots, s);
      if Believed(buf, g, control, sameRoots) {
        LearntMeans(buf, g, control, sameRoots, s);
      } else if ComesFrom(buf, g, control, sameRoots, s) {
        ComesBelieved(buf, g, control, sameRoots, s);
      }
      assert forall i :: 0 <= i < |init| ==> init[i] == groups[i];
      if exists i :: 0 <= i < |groups| && ComesFrom(buf, groups[i], control, sameRoots, s) {
        var i :| 0 <= i < |groups| && ComesFrom(buf, groups[i], control, sameRoots, s);
        assert i < |init| ==> ComesFrom(buf, init[i], control, sameRoots, s);
      }
    }
  }

  /** A believed group with a record that is needed and cannot be read. */
  ghost predicate Spoils(buf: bytes, g: seq<nat>, control: bytes, sameRoots: set<bytes>) {
    && g != [] && Parse(buf, g[0]).Some?
    && IsName(Owner(buf, g[0])) && HasSuffix(Owner(buf, g[0]), control) && Owner(buf, g[0]) in sameRoots
    && var rtype := Head(buf, g[0])[..2];
       if rtype == T_CNAME then Target(buf, g[|g| - 1]) == None else Datas(buf, rtype, g) == None
  }

  /** Learning fails exactly for such a group. */
  lemma {:induction false} LearntUnless(buf: bytes, groups: seq<seq<nat>>, control: bytes, sameRoots: set<bytes>)
    ensures LearntFrom(buf, groups, control, sameRoots) == None
            <==> exists i :: 0 <= i < |groups| && Spoils(buf, groups[i], control, sameRoots)
  {
    hide Spoils, Believed, Learnt;
    if groups != [] {
      var init, g := groups[..|groups| - 1], groups[|groups| - 1];
      LearntUnless(buf, init, control, sameRoots);
      SpoilsMeans(buf, g, control, sameRoots);
      assert forall i :: 0 <= i < |init| ==> init[i] == groups[i];
      if exists i :: 0 <= i < |groups| && Spoils(buf, groups[i], control, sameRoots) {
        var i :| 0 <= i < |groups| && Spoils(buf, groups[i], control, sameRoots);
        assert i < |init| ==> Spoils(buf, init[i], control, sameRoots);
      }
    }
  }

  lemma SpoilsMeans(buf: bytes, g: seq<nat>, control: bytes, sameRoots: set<bytes>)
    ensures Spoils(buf, g, control, sameRoots)
            <==> Believed(buf, g, control, sameRoots) && Learnt(buf, g) == None
  {
    hide Datas, StoredAll, NameAt, HasSuffix, IsName, Target;
    if g != [] && Parse(buf, g[0]).Some? {
      ParseShape(buf, g[0]);
      assert g[|g| - 1..] == [g[|g| - 1]];
      AliasData(buf, g[|g| - 1]);
    }
  }

  /** Nothing outside the zone under control is learnt. */
  lemma LearntInZone(buf: bytes, groups: seq<seq<nat>>, control: bytes, sameRoots: set<bytes>)
    requires LearntFrom(buf, groups, control, sameRoots).Some?
    ensures forall s :: s in LearntFrom(buf, groups, control, sameRoots).value ==>
              IsName(s.owner) && HasSuffix(s.owner, control) && s.owner in sameRoots
  {
    hide LearntFrom, Datas, StoredAll, Parse, HasSuffix, IsName, Target;
    forall s | s in LearntFrom(buf, groups, control, sameRoots).value
      ensures IsName(s.owner) && HasSuffix(s.owner, control) && s.owner in sameRoots
    {
      LearntExactly(buf, groups, control, sameRoots, s);
    }
  }

  /** Every record of the group gives its data, except that addresses of other lengths than four are passed over. */
  lemma {:induction false} DatasEach(buf: bytes, rtype: bytes, s: seq<nat>)
    requires rtype != T_ANY && rtype != T_AXFR && Datas(buf, rtype, s).Some?
    requires forall i :: 0 <= i < |s| ==> rtype == T_A ==> DataLength(buf, s[i]) == 4
    ensures var datas := Datas(buf, rtype, s).value;
            |datas| == |s| && forall i :: 0 <= i < |s| ==>
              DataOf(buf, rtype, After(buf, s[i]) + 10, DataLength(buf, s[i])) == Some(datas[i])
  {
    hide DataOf, After, DataLength;
    if s != [] {
      DatasEach(buf, rtype, s[..|s| - 1]);
    }
  }

  lemma ShortAddress(buf: bytes, s: seq<nat>, p: nat)
    requires DataLength(buf, p) != 4
    ensures Datas(buf, T_A, s + [p]) == Datas(buf, T_A, s)
  {
    hide DataOf, After, DataLength;
    assert (s + [p])[..|s|] == s;
  }

  // --- why it is answered as it came --------------------------------------------------------------

  lemma DataFits(buf: bytes, rtype: bytes, at: nat, n: nat, parts: seq<Part>)
    requires DataOf(buf, rtype, at, n) == Some(parts) && n < 65536 && (rtype == T_A ==> n == 4)
    ensures Fit(rtype, parts)
  {
    hide NameAt;
    if NameAt(buf, at).Some? {
      NameAtIsName(buf, at);
      if NameAt(buf, NameAt(buf, at).value.1).Some? { NameAtIsName(buf, NameAt(buf, at).value.1); }
    }
    if NameAt(buf, at + 2).Some? { NameAtIsName(buf, at + 2); }
  }

  lemma LengthBound(buf: bytes, p: nat)
    ensures DataLength(buf, p) < 65536
  {
    hide NameAt;
  }

  lemma {:induction false} DatasFit(buf: bytes, rtype: bytes, s: seq<nat>)
    requires Datas(buf, rtype, s).Some?
    ensures AllFit(rtype, Datas(buf, rtype, s).value)
  {
    hide Fit, DataOf, Parse;
    if s != [] {
      var p := s[|s| - 1];
      DatasFit(buf, rtype, s[..|s| - 1]);
      if Contributes(buf, rtype, p) {
        LengthBound(buf, p);
        DataFits(buf, rtype, After(buf, p) + 10, DataLength(buf, p), DataHere(buf, rtype, p).value);
      }
    }
  }

  /** This is what the cache holds for the type. */
  predicate KeptIn(v: CacheView, rtype: bytes, datum: Option<Datum>) {
    && (rtype == [0, 2] ==> v.ns == datum) && (rtype == [0, 12] ==> v.ptr == datum)
    && (rtype == [0, 15] ==> v.mx == datum) && (rtype == [0, 1] ==> v.a == datum)
    && (rtype !in {[0, 1], [0, 2], [0, 12], [0, 15]} ==> v.other == datum)
  }

  /**
   * What is learnt from a packet is what is answered from the cache: a query that finds the data kept for a group of
   * records gets one record for each of them, in packet order, with the same data and the ttl kept.
   */
  lemma LearntIsAnswered(buf: bytes, g: seq<nat>, saved: Saved, v: CacheView, d: bytes)
    requires Learnt(buf, g) == Some([saved]) && saved.rtype != T_CNAME
    requires KeptIn(v, saved.rtype, Some(Datum(saved.data, saved.ttl)))
    ensures Datas(buf, saved.rtype, g).Some?
    ensures CachedRecords(v, d, saved.rtype)
         == Some(Records(d, saved.rtype, saved.ttl, Datas(buf, saved.rtype, g).value))
  {
    hide Datas, StoredData, Records, Parse;
    DatasFit(buf, saved.rtype, g);
    StoredBack(saved.rtype, Datas(buf, saved.rtype, g).value);
  }

  /** The same for an alias: the cache holds the target of the last one. */
  lemma AliasLearnt(buf: bytes, g: seq<nat>, saved: Saved)
    requires Learnt(buf, g) == Some([saved]) && saved.rtype == T_CNAME
    ensures Target(buf, g[|g| - 1]) == Some(saved.data)
  {
    hide NameAt, Parse, Datas, StoredAll;
    assert g[|g| - 1..] == [g[|g| - 1]];
    AliasStored(buf, g[|g| - 1]);
  }
}
