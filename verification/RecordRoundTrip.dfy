/** Records written with response.c, as the end of query.c's doit does, and read again as its HAVEPACKET does. */
module RecordRoundTrip {
  import opened Bytes
  import opened Domain
  import opened Packet
  import opened Compression
  import opened Response
  import opened QueryData
  import PacketRecords

  // --- writing ------------------------------------------------------------------------------------

  /** The parts of a record's data appended: whether they fit, the bytes, the table, and whether all pointers fit. */
  datatype Added = Added(ok: bool, buf: bytes, names: seq<Known>, clean: bool)

  predicate NamesOk(parts: seq<Part>) {
    forall i :: 0 <= i < |parts| && parts[i].Name? ==> IsName(parts[i].d)
  }

  function AddPart(a: Added, p: Part): (r: Added)
    requires p.Name? ==> IsName(p.d)
    ensures a.buf <= r.buf
  {
    match p
    case Raw(s) =>
      var (ok, buf, names) := AddLast(a.buf, a.names, s);
      Added(ok, buf, names, a.clean)
    case Name(d) =>
      AddNameGrows(a.buf, a.names, d);
      var (ok, buf, names) := AddName(a.buf, a.names, d);
      Added(ok, buf, names, a.clean && Clean(a.names, d))
  }

  function AddParts(a: Added, parts: seq<Part>): (r: Added)
    requires NamesOk(parts)
    ensures a.buf <= r.buf && (r.clean ==> a.clean)
    decreases |parts|
  {
    if parts == [] || !a.ok then a else AddParts(AddPart(a, parts[0]), parts[1..])
  }

  /** The owner name and the ten bytes after it. */
  function Heading(a: Added, e: Event, ttl: uint32): (r: Added)
    requires e.Record? && IsName(e.owner) && |e.rtype| == 2
    ensures a.buf <= r.buf && |r.buf| >= |a.buf| + 10 && (r.clean ==> a.clean)
  {
    AddNameGrows(a.buf, a.names, e.owner);
    var (named, owner, names) := AddName(a.buf, a.names, e.owner);
    var buf := owner + e.rtype + IN + PackBig(ttl) + [0, 0];
    Added(named && |buf| <= RESPONSE_SIZE, buf, names, a.clean && Clean(a.names, e.owner))
  }

  predicate RecordOk(e: Event) {
    e.Record? && IsName(e.owner) && |e.rtype| == 2 && NamesOk(e.data)
  }

  /** A whole record in the answer section. */
  function AddRecord(a: Added, e: Event, ttl: uint32): (r: Added)
    requires RecordOk(e) && |a.buf| >= 12
    ensures |r.buf| >= |a.buf| && (r.clean ==> a.clean)
  {
    var h := Heading(a, e, ttl);
    if !h.ok then Added(false, h.buf, h.names, h.clean)
    else
      var d := AddParts(h, e.data);
      if !d.ok then d else Added(true, Finished(d.buf, |h.buf|, RESPONSE_ANSWER), d.names, d.clean)
  }

  /** A part lies between lo and hi; a name among those that have been written. */
  ghost predicate PartAt(buf: bytes, ws: seq<Written>, p: Part, lo: nat, hi: nat) {
    lo <= hi <= |buf| && match p case Raw(s) => buf[lo..hi] == s case Name(d) => Written(lo, d, hi) in ws
  }

  ghost predicate PartsAt(buf: bytes, ws: seq<Written>, parts: seq<Part>, cuts: seq<nat>) {
    && |cuts| == |parts| + 1 && cuts[|parts|] <= |buf|
    && forall i :: 0 <= i < |parts| ==> PartAt(buf, ws, parts[i], cuts[i], cuts[i + 1])
  }

  lemma PartsKept(buf: bytes, ws: seq<Written>, buf': bytes, ws': seq<Written>, parts: seq<Part>, cuts: seq<nat>)
    requires PartsAt(buf, ws, parts, cuts) && 12 <= cuts[0]
    requires |buf| <= |buf'| && (forall i :: cuts[0] <= i < |buf| ==> buf'[i] == buf[i]) && ws <= ws'
    requires forall i :: 0 <= i <= |parts| ==> cuts[0] <= cuts[i]
    ensures PartsAt(buf', ws', parts, cuts)
  {
    forall i | 0 <= i < |parts|
      ensures PartAt(buf', ws', parts[i], cuts[i], cuts[i + 1])
    {
      assert PartAt(buf, ws, parts[i], cuts[i], cuts[i + 1]);
      assert buf'[cuts[i]..cuts[i + 1]] == buf[cuts[i]..cuts[i + 1]];
    }
  }

  lemma {:induction false} CutsAscend(buf: bytes, ws: seq<Written>, parts: seq<Part>, cuts: seq<nat>, i: nat)
    requires PartsAt(buf, ws, parts, cuts) && i <= |parts|
    ensures cuts[0] <= cuts[i] <= cuts[|parts|]
    decreases |parts| - i
  {
    if i < |parts| {
      assert PartAt(buf, ws, parts[i], cuts[i], cuts[i + 1]);
      CutsAscend(buf, ws, parts, cuts, i + 1);
      CutsRise(buf, ws, parts, cuts, i);
    } else {
      CutsRise(buf, ws, parts, cuts, i);
    }
  }

  lemma {:induction false} CutsRise(buf: bytes, ws: seq<Written>, parts: seq<Part>, cuts: seq<nat>, i: nat)
    requires PartsAt(buf, ws, parts, cuts) && i <= |parts|
    ensures cuts[0] <= cuts[i]
  {
    if i > 0 {
      assert PartAt(buf, ws, parts[i - 1], cuts[i - 1], cuts[i - 1 + 1]);
      CutsRise(buf, ws, parts, cuts, i - 1);
    }
  }

  /** One part of the data. */
  method PutPart(b: Builder, p: Part) returns (ok: bool)
    requires b.InRecord() && (p.Name? ==> IsName(p.d))
    modifies b.response, b`len, b`names, b`frozen, b`written
    ensures b.len <= RESPONSE_SIZE
    ensures var a := AddPart(Added(true, old(b.Contents()), old(b.names), true), p);
            && ok == a.ok && (ok ==> b.Contents() == a.buf && b.names == a.names)
            && (ok ==> b.InRecord() && b.written == old(b.written)
                       + if a.clean && p.Name? then [Written(old(b.len), p.d, b.len)] else [])
  {
    hide AddName, Clean, CountsOk;
    hide Builder.Records;
    match p {
      case Raw(s) => ok := b.PutBytes(s);
      case Name(d) => ok := b.PutName(d);
    }
  }

  /** What a part adds does not depend on what has been clean so far. */
  lemma AddPartAnyway(a: Added, p: Part)
    requires p.Name? ==> IsName(p.d)
    ensures var r := AddPart(a.(clean := true), p); AddPart(a, p) == r.(clean := a.clean && r.clean)
  {
    hide AddName, Clean;
  }

  lemma OnePartMore(buf: bytes, ws: seq<Written>, buf': bytes, ws': seq<Written>, parts: seq<Part>, j: nat,
                    cuts: seq<nat>)
    requires j < |parts| && PartsAt(buf, ws, parts[..j], cuts) && buf <= buf' && ws <= ws' && cuts[j] == |buf|
    requires match parts[j]
             case Raw(s) => buf' == buf + s
             case Name(d) => Written(|buf|, d, |buf'|) in ws'
    ensures PartsAt(buf', ws', parts[..j + 1], cuts + [|buf'|])
  {
    forall i | 0 <= i <= j
      ensures PartAt(buf', ws', parts[i], cuts[i], (cuts + [|buf'|])[i + 1])
    {
      if i < j {
        assert PartAt(buf, ws, parts[..j][i], cuts[i], cuts[i + 1]);
        assert buf'[cuts[i]..cuts[i + 1]] == buf[cuts[i]..cuts[i + 1]];
      } else if parts[j].Raw? {
        assert buf'[|buf|..] == parts[j].s;
      }
    }
  }

  /** The parts one after the other. */
  method PutParts(b: Builder, parts: seq<Part>) returns (ok: bool, ghost cuts: seq<nat>)
    requires b.InRecord() && NamesOk(parts)
    modifies b.response, b`len, b`names, b`frozen, b`written
    ensures b.len <= RESPONSE_SIZE
    ensures var a := AddParts(Added(true, old(b.Contents()), old(b.names), true), parts);
            && ok == a.ok && (ok ==> b.InRecord() && b.Contents() == a.buf && b.names == a.names)
            && (ok ==> old(b.written) <= b.written)
            && (ok && a.clean ==> PartsAt(b.Contents(), b.written, parts, cuts)
                                  && cuts[0] == old(b.len) && cuts[|parts|] == b.len)
  {
    hide AddName, Clean, CountsOk, Good, FrozenRange, AllWrittenOk, WrittenOk, PartsAt;
    hide Builder.Records;
    ghost var first := Added(true, b.Contents(), b.names, true);
    ghost var a := first;
    cuts := [b.len];
    assert PartsAt(b.Contents(), b.written, parts[..0], cuts) by { NoParts(b.Contents(), b.written, parts, b.len); }
    assert parts[0..] == parts;
    ok := true;
    for j := 0 to |parts|
      invariant a.ok && ok && b.InRecord() && b.Contents() == a.buf && b.names == a.names
      invariant AddParts(first, parts) == AddParts(a, parts[j..])
      invariant old(b.written) <= b.written && |cuts| == j + 1 && cuts[0] == old(b.len) && cuts[j] == b.len
      invariant a.clean ==> PartsAt(b.Contents(), b.written, parts[..j], cuts)
    {
      ghost var buf, ws := b.Contents(), b.written;
      assert parts[j..][0] == parts[j] && parts[j..][1..] == parts[j + 1..];
      AddPartAnyway(a, parts[j]);
      ok := PutPart(b, parts[j]);
      a := AddPart(a, parts[j]);
      if !ok { return; }
      if a.clean { OnePartMore(buf, ws, b.Contents(), b.written, parts, j, cuts); }
      cuts := cuts + [b.len];
    }
    assert parts[..|parts|] == parts;
  }

  lemma NoParts(buf: bytes, ws: seq<Written>, parts: seq<Part>, at: nat)
    requires at <= |buf|
    ensures PartsAt(buf, ws, parts[..0], [at])
  {
  }

  /** A record as it has been written: its owner, what was meant, the ttl used, and where its parts begin and end. */
  datatype Filed = Filed(owner: Written, event: Event, ttl: uint32, cuts: seq<nat>)

  ghost predicate FiledOk(buf: bytes, ws: seq<Written>, f: Filed) {
    && RecordOk(f.event) && f.owner in ws && f.owner.name == f.event.owner && 12 <= f.owner.pos < f.owner.end
    && PartsAt(buf, ws, f.event.data, f.cuts) && f.cuts[0] == f.owner.end + 10 <= |buf| <= RESPONSE_SIZE
    && buf[f.owner.end..f.owner.end + 8] == f.event.rtype + IN + PackBig(f.ttl)
    && FiledEnd(f) >= f.cuts[0] && buf[f.owner.end + 8..f.cuts[0]] == Big16(FiledEnd(f) - f.cuts[0])
  }

  function FiledEnd(f: Filed): nat {
    if f.cuts == [] then 0 else f.cuts[|f.cuts| - 1]
  }

  /** What is written later leaves the bytes behind the header alone. */
  predicate Behind(buf: bytes, buf': bytes) {
    |buf| <= |buf'| && forall i :: 12 <= i < |buf| ==> buf'[i] == buf[i]
  }

  lemma FiledKept(buf: bytes, ws: seq<Written>, buf': bytes, ws': seq<Written>, f: Filed)
    requires FiledOk(buf, ws, f) && Behind(buf, buf') && ws <= ws' && |buf'| <= RESPONSE_SIZE
    ensures FiledOk(buf', ws', f)
  {
    hide PartsAt, Big16, PackBig;
    PartsFacts(buf, ws, f.event.data, f.cuts);
    PartsKept(buf, ws, buf', ws', f.event.data, f.cuts);
    assert buf'[f.owner.end..f.owner.end + 8] == buf[f.owner.end..f.owner.end + 8];
    assert buf'[f.owner.end + 8..f.cuts[0]] == buf[f.owner.end + 8..f.cuts[0]];
  }

  lemma PartsFacts(buf: bytes, ws: seq<Written>, parts: seq<Part>, cuts: seq<nat>)
    requires PartsAt(buf, ws, parts, cuts)
    ensures |cuts| == |parts| + 1 && cuts[0] <= cuts[|parts|] <= |buf|
    ensures forall i :: 0 <= i <= |parts| ==> cuts[0] <= cuts[i]
  {
    forall i | 0 <= i <= |parts|
      ensures cuts[0] <= cuts[i] <= cuts[|parts|]
    {
      CutsAscend(buf, ws, parts, cuts, i);
    }
  }

  /** The record is complete once its length has been filled in. */
  lemma FiledNow(head: bytes, buf: bytes, ws: seq<Written>, f: Filed)
    requires 12 <= f.owner.pos < f.owner.end && f.owner.end + 10 == |head| && head <= buf && |buf| <= RESPONSE_SIZE
    requires RecordOk(f.event) && f.owner in ws && f.owner.name == f.event.owner
    requires head[f.owner.end..f.owner.end + 8] == f.event.rtype + IN + PackBig(f.ttl)
    requires PartsAt(buf, ws, f.event.data, f.cuts) && f.cuts[0] == |head| && FiledEnd(f) == |buf|
    ensures FiledOk(Finished(buf, |head|, RESPONSE_ANSWER), ws, f)
  {
    hide PartsAt, Big16, PackBig;
    var all := Finished(buf, |head|, RESPONSE_ANSWER);
    FinishedBytes(buf, |head|);
    PartsFacts(buf, ws, f.event.data, f.cuts);
    PartsKept(buf, ws, all, ws, f.event.data, f.cuts);
    assert all[f.owner.end..f.owner.end + 8] == head[f.owner.end..f.owner.end + 8];
  }

  lemma FinishedBytes(buf: bytes, dpos: nat)
    requires 14 <= dpos <= |buf|
    ensures var all := Finished(buf, dpos, RESPONSE_ANSWER);
            && |all| == |buf| && all[dpos - 2..dpos] == Big16(|buf| - dpos)
            && forall i :: 12 <= i < |buf| && i != dpos - 2 && i != dpos - 1 ==> all[i] == buf[i]
  {
    hide Big16;
  }

  lemma {:induction false} AddPartsAnyway(a: Added, parts: seq<Part>)
    requires NamesOk(parts)
    ensures var r := AddParts(a.(clean := true), parts); AddParts(a, parts) == r.(clean := a.clean && r.clean)
    decreases |parts|
  {
    hide AddPart;
    if parts != [] && a.ok {
      AddPartAnyway(a, parts[0]);
      var first, c := AddPart(a, parts[0]), AddPart(a.(clean := true), parts[0]);
      AddPartsAnyway(first, parts[1..]);
      AddPartsAnyway(c, parts[1..]);
      assert c.(clean := true) == first.(clean := true);
    }
  }

  /** Starting, filling and finishing a record is AddRecord. */
  lemma RecordAdded(a: Added, e: Event, ttl: uint32)
    requires RecordOk(e) && |a.buf| >= 12
    ensures var h := Heading(a, e, ttl);
            var d := AddParts(Added(true, h.buf, h.names, true), e.data);
            && h.buf <= d.buf
            && AddRecord(a, e, ttl).ok == (h.ok && d.ok)
            && (h.ok && d.ok ==>
                  AddRecord(a, e, ttl)
                  == Added(true, Finished(d.buf, |h.buf|, RESPONSE_ANSWER), d.names, h.clean && d.clean))
  {
    hide Heading, AddParts, Finished;
    var h := Heading(a, e, ttl);
    if h.ok {
      AddPartsAnyway(h, e.data);
      assert h.(clean := true) == Added(true, h.buf, h.names, true);
    }
  }

  lemma BehindFinished(buf: bytes, head: bytes, whole: bytes)
    requires 14 <= |head| && |buf| + 10 <= |head| && buf <= head <= whole
    ensures Behind(buf, Finished(whole, |head|, RESPONSE_ANSWER))
  {
    hide Finished;
    FinishedBytes(whole, |head|);
  }

  lemma HeadingFixed(a: Added, e: Event, ttl: uint32)
    requires RecordOk(e)
    ensures var h := Heading(a, e, ttl).buf; h[|h| - 10..|h| - 2] == e.rtype + IN + PackBig(ttl)
  {
    hide AddName, Clean, PackBig;
    AddNameGrows(a.buf, a.names, e.owner);
    var owner := AddName(a.buf, a.names, e.owner).1;
    assert Heading(a, e, ttl).buf == owner + (e.rtype + IN + PackBig(ttl)) + [0, 0];
  }

  /** response_rstart, as Heading has it. */
  method BeginRecord(b: Builder, e: Event) returns (ok: bool, ghost w: Written)
    requires b.Valid() && RecordOk(e)
    modifies b.response, b`len, b`names, b`dpos, b`frozen, b`written, b`open, b`clean
    ensures ok ==> b.InRecord() && b.open == Some(w) && b.len == b.dpos == w.end + 10 && w.pos < w.end
    ensures var h := Heading(Added(true, old(b.Contents()), old(b.names), true), e, if b.hidettl then 0 else e.ttl);
            && ok == h.ok && b.clean == (old(b.clean) && h.clean)
            && (ok ==> b.Contents() == h.buf && b.names == h.names && (h.clean ==> w in b.written))
    ensures w.pos == old(b.len) && w.name == e.owner
    ensures ok ==> old(b.written) <= b.written
  {
    hide AddName, Clean, CountsOk, PackBig, Good, FrozenRange, AllWrittenOk;
    hide Builder.Records;
    AddNameGrows(b.Contents(), b.names, e.owner);
    w := Written(b.len, e.owner, 0);
    ok := b.RStart(e.owner, e.rtype, e.ttl);
    if ok {
      w := b.open.value;
      assert b.written != [] ==> b.written[|b.written| - 1] in b.written;
    }
  }

  /** response_rstart, the parts, response_rfinish. */
  method WriteRecord(b: Builder, e: Event) returns (ok: bool, ghost f: Filed)
    requires b.Valid() && RecordOk(e)
    modifies b, b.response
    ensures var a := AddRecord(Added(true, old(b.Contents()), old(b.names), true), e, if b.hidettl then 0 else e.ttl);
            && ok == a.ok
            && (ok ==> b.Valid() && b.Contents() == a.buf && b.names == a.names)
            && (ok && a.clean ==> FiledOk(b.Contents(), b.written, f) && FiledEnd(f) == b.len)
    ensures ok ==> f.owner.pos == old(b.len) && f.event == e && f.ttl == if b.hidettl then 0 else e.ttl
    ensures ok ==> b.groups == old(b.groups) + [Group(f.owner, b.len, RESPONSE_ANSWER)]
    ensures ok ==> Behind(old(b.Contents()), b.Contents()) && old(b.written) <= b.written
    ensures b.clean == (old(b.clean) && Clean(old(b.names), e.owner))
    ensures b.tctarget == old(b.tctarget) && b.hidettl == old(b.hidettl)
  {
    hide AddName, AddParts, AddRecord, Finished, Clean, CountsOk, PackBig, Good, FrozenRange, AllWrittenOk;
    hide PartsAt, FiledOk, Behind;
    hide Builder.Records;
    ghost var first, ttl := Added(true, b.Contents(), b.names, true), if b.hidettl then 0 else e.ttl;
    RecordAdded(first, e, ttl);
    ghost var w, h := Written(0, [], 0), Heading(first, e, ttl);
    f := Filed(w, e, ttl, []);
    ok, w := BeginRecord(b, e);
    if !ok { return; }
    ghost var cuts;
    ok, cuts := PutParts(b, e.data);
    if !ok { return; }
    ghost var d, whole := AddParts(Added(true, h.buf, h.names, true), e.data), b.Contents();
    f := Filed(w, e, ttl, cuts);
    BehindFinished(first.buf, h.buf, whole);
    if h.clean && d.clean {
      PartsFacts(whole, b.written, e.data, cuts);
      HeadingFixed(first, e, ttl);
      FiledNow(h.buf, whole, b.written, f);
    }
    b.RFinish(RESPONSE_ANSWER);
  }

  // --- reading ------------------------------------------------------------------------------------

  /** Equal up to the case of names. */
  predicate SamePart(p: Part, q: Part) {
    match (p, q)
    case (Raw(s), Raw(t)) => s == t
    case (Name(d), Name(e)) => Same(d, e)
    case _ => false
  }

  predicate SameParts(ps: seq<Part>, qs: seq<Part>) {
    |ps| == |qs| && forall i :: 0 <= i < |ps| ==> SamePart(ps[i], qs[i])
  }

  /** The record r is what e becomes when it is written with this ttl and read again. */
  predicate SameRecord(r: Event, e: Event, ttl: uint32) {
    && r.Record? && e.Record? && Same(r.owner, e.owner) && r.rtype == e.rtype && SameParts(r.data, e.data)
    && r.ttl == (if ttl > 1000000000 then 0 else if ttl > 604800 then 604800 else ttl)
  }

  predicate NamesShort(parts: seq<Part>) {
    forall i :: 0 <= i < |parts| && parts[i].Name? ==> |parts[i].d| <= MAXNAME
  }

  /** A record whose data has the shape of its type, with names of at most 255 bytes. */
  predicate Proper(e: Event) {
    && RecordOk(e) && |e.owner| <= MAXNAME && NamesShort(e.data)
    && ShapeOf(e.rtype, RawLength(e.data), e.data)
  }

  function ReadPart(buf: bytes, p: Part, at: nat): Part {
    if p.Name? && NameAt(buf, at).Some? then Name(NameAt(buf, at).value.0) else p
  }

  function ReadParts(buf: bytes, parts: seq<Part>, cuts: seq<nat>): seq<Part>
    requires |cuts| == |parts| + 1
  {
    seq(|parts|, i requires 0 <= i < |parts| => ReadPart(buf, parts[i], cuts[i]))
  }

  lemma WrittenReads(buf: bytes, fz: set<nat>, ws: seq<Written>, w: Written)
    requires AllWrittenOk(buf, fz, ws) && w in ws && |w.name| <= MAXNAME
    ensures ReadsBack(buf, w.pos, w.name, w.end)
  {
    hide Encoded, ReadsBack;
    var i :| 0 <= i < |ws| && ws[i] == w;
    assert WrittenOk(buf, fz, ws[i]);
    EncodedReads(buf, fz, w.pos, w.name);
  }

  /** A part reads back as itself, up to case, and the next one begins where it ends. */
  lemma PartReads(buf: bytes, fz: set<nat>, ws: seq<Written>, p: Part, lo: nat, hi: nat)
    requires AllWrittenOk(buf, fz, ws) && PartAt(buf, ws, p, lo, hi) && (p.Name? ==> |p.d| <= MAXNAME)
    ensures SamePart(ReadPart(buf, p, lo), p)
    ensures match ReadPart(buf, p, lo)
            case Raw(s) => lo + |s| == hi <= |buf| && buf[lo..hi] == s
            case Name(d) => NameAt(buf, lo) == Some((d, hi))
  {
    hide Same, NameAt;
    if p.Name? {
      WrittenReads(buf, fz, ws, Written(lo, p.d, hi));
    }
  }

  lemma {:induction false} PartsLaid(buf: bytes, fz: set<nat>, ws: seq<Written>, parts: seq<Part>, cuts: seq<nat>,
                                     j: nat)
    requires AllWrittenOk(buf, fz, ws) && PartsAt(buf, ws, parts, cuts) && NamesShort(parts) && j <= |parts|
    ensures Laid(buf, ReadParts(buf, parts, cuts)[j..], cuts[j]) == Some(cuts[|parts|])
    decreases |parts| - j
  {
    hide NameAt, Same, AllWrittenOk, ReadPart;
    var read := ReadParts(buf, parts, cuts);
    if j < |parts| {
      assert PartAt(buf, ws, parts[j], cuts[j], cuts[j + 1]);
      PartReads(buf, fz, ws, parts[j], cuts[j], cuts[j + 1]);
      PartsLaid(buf, fz, ws, parts, cuts, j + 1);
      assert read[j..][0] == read[j] && read[j..][1..] == read[j + 1..];
    }
  }

  lemma PartsSame(buf: bytes, fz: set<nat>, ws: seq<Written>, parts: seq<Part>, cuts: seq<nat>)
    requires AllWrittenOk(buf, fz, ws) && PartsAt(buf, ws, parts, cuts) && NamesShort(parts)
    ensures SameParts(ReadParts(buf, parts, cuts), parts)
  {
    hide AllWrittenOk, ReadPart, SamePart;
    forall i | 0 <= i < |parts|
      ensures SamePart(ReadParts(buf, parts, cuts)[i], parts[i])
    {
      assert PartAt(buf, ws, parts[i], cuts[i], cuts[i + 1]);
      PartReads(buf, fz, ws, parts[i], cuts[i], cuts[i + 1]);
    }
  }

  lemma SameShape(rtype: bytes, n: nat, ps: seq<Part>, qs: seq<Part>)
    requires SameParts(ps, qs)
    ensures ShapeOf(rtype, n, ps) <==> ShapeOf(rtype, n, qs)
  {
    hide Same;
    assert |ps| >= 1 ==> SamePart(ps[0], qs[0]);
    assert |ps| >= 2 ==> SamePart(ps[1], qs[1]);
    assert |ps| >= 3 ==> SamePart(ps[2], qs[2]);
  }

  /** The data of a record in place is read as what was meant, up to the case of names. */
  lemma DataReads(buf: bytes, fz: set<nat>, ws: seq<Written>, e: Event, cuts: seq<nat>)
    requires AllWrittenOk(buf, fz, ws) && Proper(e) && PartsAt(buf, ws, e.data, cuts) && cuts[0] <= cuts[|e.data|]
    ensures var data := DataOf(buf, e.rtype, cuts[0], cuts[|e.data|] - cuts[0]);
            data.Some? && SameParts(data.value, e.data)
  {
    hide AllWrittenOk, NameAt, SameParts, Laid, ShapeOf, DataOf, ReadPart;
    var read, n := ReadParts(buf, e.data, cuts), cuts[|e.data|] - cuts[0];
    PartsLaid(buf, fz, ws, e.data, cuts, 0);
    PartsSame(buf, fz, ws, e.data, cuts);
    assert read[0..] == read;
    ShapeLength(buf, ws, e, cuts);
    SameShape(e.rtype, n, read, e.data);
    DataExactly(buf, e.rtype, cuts[0], n, read);
  }

  lemma ShapeLength(buf: bytes, ws: seq<Written>, e: Event, cuts: seq<nat>)
    requires Proper(e) && PartsAt(buf, ws, e.data, cuts) && cuts[0] <= cuts[|e.data|]
    ensures ShapeOf(e.rtype, cuts[|e.data|] - cuts[0], e.data)
  {
    if |e.data| == 1 {
      assert PartAt(buf, ws, e.data[0], cuts[0], cuts[0 + 1]);
    }
  }

  /** A record in place is read as what was meant, and the next one begins where it ends. */
  lemma FiledReads(buf: bytes, fz: set<nat>, ws: seq<Written>, f: Filed)
    requires AllWrittenOk(buf, fz, ws) && FiledOk(buf, ws, f) && Proper(f.event)
    ensures var p := PacketRecords.Parse(buf, f.owner.pos);
            p.Some? && Same(p.value.owner, f.event.owner) && p.value.head == f.event.rtype + IN
    ensures PacketRecords.Next(buf, f.owner.pos) == FiledEnd(f)
    ensures var r := RecordAt(buf, f.owner.pos); r.Some? && SameRecord(r.value, f.event, f.ttl)
  {
    hide AllWrittenOk, NameAt, SameParts, DataOf, PartsAt, Same, Proper, Big16, PackBig, UnpackBig;
    ShortOwner(f.event);
    WrittenReads(buf, fz, ws, f.owner);
    PartsFacts(buf, ws, f.event.data, f.cuts);
    FixedReads(buf, f.event, f.ttl, f.owner.end, FiledEnd(f) - f.cuts[0]);
    DataReads(buf, fz, ws, f.event, f.cuts);
  }

  lemma ShortOwner(e: Event)
    requires Proper(e)
    ensures |e.owner| <= MAXNAME
  {
  }

  lemma FixedReads(buf: bytes, e: Event, ttl: uint32, at: nat, n: nat)
    requires RecordOk(e) && at + 10 <= |buf| && n < 65536
    requires buf[at..at + 8] == e.rtype + IN + PackBig(ttl) && buf[at + 8..at + 10] == Big16(n)
    ensures var fixed := buf[at..at + 10];
            fixed[..4] == e.rtype + IN && UnpackBig(fixed[4..8]) == ttl && fixed[8] as nat * 256 + fixed[9] == n
  {
    hide PackBig, UnpackBig, Big16;
    var fixed := buf[at..at + 10];
    assert fixed[..8] == buf[at..at + 8] && fixed[4..8] == fixed[..8][4..8] == PackBig(ttl);
    assert fixed[..4] == fixed[..8][..4] == e.rtype + IN;
    assert fixed[8] == buf[at + 8..at + 10][0] && fixed[9] == buf[at + 8..at + 10][1];
    UnpackPackBig(ttl);
    Big16Value(n);
  }

  // --- whole answers ------------------------------------------------------------------------------

  function TtlOf(e: Event, hidettl: bool): uint32
    requires e.Record?
  {
    if hidettl then 0 else e.ttl
  }

  predicate RecordsOk(es: seq<Event>) {
    forall i :: 0 <= i < |es| ==> RecordOk(es[i])
  }

  function AddRecords(a: Added, es: seq<Event>, hidettl: bool): (r: Added)
    requires RecordsOk(es) && |a.buf| >= 12
    ensures r.clean ==> a.clean
    decreases |es|
  {
    if es == [] || !a.ok then a
    else AddRecords(AddRecord(a, es[0], TtlOf(es[0], hidettl)), es[1..], hidettl)
  }

  /** The answer to the question q with these records. */
  function AnswerOf(q: bytes, qtype: bytes, qclass: bytes, es: seq<Event>, hidettl: bool): Added
    requires IsName(q) && |qtype| == |qclass| == 2 && RecordsOk(es)
  {
    AddNameGrows(HEADER, [], q);
    var (named, question, names) := AddName(HEADER, [], q);
    var buf := question + qtype + qclass;
    AddRecords(Added(named && |buf| <= RESPONSE_SIZE, buf, names, true), es, hidettl)
  }

  lemma RecordFlags(a: Added, e: Event, ttl: uint32)
    requires RecordOk(e) && |a.buf| >= 12
    ensures AddRecord(a, e, ttl).buf[..6] == a.buf[..6]
  {
    hide Heading, AddParts, Finished;
    var h := Heading(a, e, ttl);
    if h.ok {
      var d := AddParts(h, e.data);
      FinishedFlags(d.buf, |h.buf|, RESPONSE_ANSWER);
    }
  }

  /** Records leave the id and the flags as they were. */
  lemma {:induction false} RecordsFlags(a: Added, es: seq<Event>, hidettl: bool)
    requires RecordsOk(es) && |a.buf| >= 12
    ensures |AddRecords(a, es, hidettl).buf| >= 12 && AddRecords(a, es, hidettl).buf[..6] == a.buf[..6]
    decreases |es|
  {
    hide AddRecord;
    if es != [] && a.ok {
      RecordFlags(a, es[0], TtlOf(es[0], hidettl));
      RecordsFlags(AddRecord(a, es[0], TtlOf(es[0], hidettl)), es[1..], hidettl);
    }
  }

  lemma AnswerIsReply(q: bytes, qtype: bytes, qclass: bytes, es: seq<Event>, hidettl: bool)
    requires IsName(q) && |qtype| == |qclass| == 2 && RecordsOk(es)
    ensures IsReply(AnswerOf(q, qtype, qclass, es, hidettl).buf)
  {
    hide AddName, AddRecords;
    AddNameGrows(HEADER, [], q);
    var (named, question, names) := AddName(HEADER, [], q);
    var buf := question + qtype + qclass;
    QuestionFlags(buf);
    RecordsFlags(Added(named && |buf| <= RESPONSE_SIZE, buf, names, true), es, hidettl);
    SameFlags(buf, AnswerOf(q, qtype, qclass, es, hidettl).buf);
  }

  /** Whether it is a reply depends on the flags. */
  lemma SameFlags(buf: bytes, buf': bytes)
    requires |buf| >= 12 && |buf'| >= 12 && buf[..6] == buf'[..6]
    ensures IsReply(buf) <==> IsReply(buf')
  {
    assert buf[2] == buf[..6][2] && buf[3] == buf[..6][3] && buf'[2] == buf'[..6][2] && buf'[3] == buf'[..6][3];
    assert buf[0] == buf[..6][0] && buf[1] == buf[..6][1] && buf'[0] == buf'[..6][0] && buf'[1] == buf'[..6][1];
  }

  /** The message has this question and no other. */
  predicate Repeats(buf: bytes, q: bytes, qtype: bytes, qclass: bytes) {
    && |buf| >= 16 + |q| && Word16(buf, 4) == 1
    && buf[12..12 + |q|] == q && buf[12 + |q|..14 + |q|] == qtype && buf[14 + |q|..16 + |q|] == qclass
    && (|q| <= 255 ==> NameAt(buf, 12) == Some((q, 12 + |q|)))
  }

  lemma QuestionInFull(q: bytes, qtype: bytes, qclass: bytes)
    requires IsName(q) && |qtype| == |qclass| == 2 && AddName(HEADER, [], q).0
    ensures Repeats(AddName(HEADER, [], q).1 + qtype + qclass, q, qtype, qclass)
  {
    hide AddName, NameAt, IsName;
    var k := AddNameShortest(HEADER, [], q);
    var buf := HEADER + q + qtype + qclass;
    var n := |q|;
    assert buf[..12] == HEADER && buf[4] == HEADER[4] && buf[5] == HEADER[5];
    assert buf[12..12 + n] == q && buf[12 + n..14 + n] == qtype && buf[14 + n..16 + n] == qclass;
    if n <= 255 {
      PlainName(buf, 12, q);
    }
  }

  lemma RepeatsKept(buf: bytes, buf': bytes, q: bytes, qtype: bytes, qclass: bytes)
    requires IsName(q) && |qtype| == |qclass| == 2 && Repeats(buf, q, qtype, qclass) && Behind(buf, buf')
    requires buf'[4] == buf[4] && buf'[5] == buf[5]
    ensures Repeats(buf', q, qtype, qclass)
  {
    hide NameAt, IsName;
    var n := |q|;
    assert buf'[12..12 + n] == buf[12..12 + n] && buf'[12 + n..14 + n] == buf[12 + n..14 + n];
    assert buf'[14 + n..16 + n] == buf[14 + n..16 + n];
    if n <= 255 {
      PlainName(buf', 12, q);
    }
  }

  lemma RecordBehind(a: Added, e: Event, ttl: uint32)
    requires RecordOk(e) && |a.buf| >= 12
    ensures AddRecord(a, e, ttl).ok ==> Behind(a.buf, AddRecord(a, e, ttl).buf)
  {
    hide Heading, AddParts, Finished, Behind;
    var h := Heading(a, e, ttl);
    if h.ok {
      BehindFinished(a.buf, h.buf, AddParts(h, e.data).buf);
    }
  }

  lemma {:induction false} RecordsBehind(a: Added, es: seq<Event>, hidettl: bool)
    requires RecordsOk(es) && |a.buf| >= 12
    ensures AddRecords(a, es, hidettl).ok ==> Behind(a.buf, AddRecords(a, es, hidettl).buf)
    decreases |es|
  {
    hide AddRecord;
    if es != [] && a.ok {
      RecordBehind(a, es[0], TtlOf(es[0], hidettl));
      var first := AddRecord(a, es[0], TtlOf(es[0], hidettl));
      RecordsBehind(first, es[1..], hidettl);
      if !first.ok {
        StopsAtOnce(first, es[1..], hidettl);
      }
    }
  }

  lemma StopsAtOnce(a: Added, es: seq<Event>, hidettl: bool)
    requires RecordsOk(es) && |a.buf| >= 12 && !a.ok
    ensures !AddRecords(a, es, hidettl).ok
  {
  }

  /** An answer that fits repeats the question. */
  lemma AnswerRepeats(q: bytes, qtype: bytes, qclass: bytes, es: seq<Event>, hidettl: bool)
    requires IsName(q) && |qtype| == |qclass| == 2 && RecordsOk(es) && AnswerOf(q, qtype, qclass, es, hidettl).ok
    ensures Repeats(AnswerOf(q, qtype, qclass, es, hidettl).buf, q, qtype, qclass)
  {
    hide AddName, AddRecords, Repeats, IsName, Behind;
    AddNameGrows(HEADER, [], q);
    var (named, question, names) := AddName(HEADER, [], q);
    var first := Added(named && |question + qtype + qclass| <= RESPONSE_SIZE, question + qtype + qclass, names, true);
    if !first.ok {
      StopsAtOnce(first, es, hidettl);
    } else {
      QuestionInFull(q, qtype, qclass);
      RecordsBehind(first, es, hidettl);
      RecordsFlags(first, es, hidettl);
      var buf := AddRecords(first, es, hidettl).buf;
      assert buf[4] == buf[..6][4] && buf[5] == buf[..6][5];
      RepeatsKept(first.buf, buf, q, qtype, qclass);
    }
  }

  lemma AddRecordAnyway(a: Added, e: Event, ttl: uint32)
    requires RecordOk(e) && |a.buf| >= 12
    ensures var (r, c) := (AddRecord(a, e, ttl), AddRecord(a.(clean := true), e, ttl));
            && r.ok == c.ok && (r.ok ==> r == c.(clean := a.clean && c.clean))
  {
    hide Heading, AddParts, Finished;
    var first := a.(clean := true);
    HeadingAnyway(a, e, ttl);
    RecordAdded(a, e, ttl);
    RecordAdded(first, e, ttl);
  }

  lemma HeadingAnyway(a: Added, e: Event, ttl: uint32)
    requires RecordOk(e)
    ensures var h := Heading(a.(clean := true), e, ttl); Heading(a, e, ttl) == h.(clean := a.clean && h.clean)
  {
    hide AddName, Clean, PackBig;
  }

  /** These records are in place one behind the other from lo to hi. */
  ghost predicate AllFiled(buf: bytes, ws: seq<Written>, fs: seq<Filed>, lo: nat, hi: nat) {
    && (forall i :: 0 <= i < |fs| ==> FiledOk(buf, ws, fs[i]))
    && (forall i :: 0 <= i < |fs| ==> fs[i].owner.pos == StartOf(fs, i, lo))
    && hi == StartOf(fs, |fs|, lo)
  }

  function StartOf(fs: seq<Filed>, i: nat, lo: nat): nat
    requires i <= |fs|
  {
    if i == 0 then lo else FiledEnd(fs[i - 1])
  }

  /** Those are the records meant. */
  predicate Means(fs: seq<Filed>, es: seq<Event>, hidettl: bool) {
    |fs| == |es| && forall i :: 0 <= i < |fs| ==>
                      es[i].Record? && fs[i].event == es[i] && fs[i].ttl == TtlOf(es[i], hidettl)
  }

  lemma OneMoreFiled(buf: bytes, ws: seq<Written>, buf': bytes, ws': seq<Written>, fs: seq<Filed>, lo: nat, f: Filed)
    requires AllFiled(buf, ws, fs, lo, |buf|) && Behind(buf, buf') && ws <= ws' && |buf'| <= RESPONSE_SIZE
    requires FiledOk(buf', ws', f) && f.owner.pos == |buf| && FiledEnd(f) == |buf'|
    ensures AllFiled(buf', ws', fs + [f], lo, |buf'|)
  {
    hide FiledOk, Behind, FiledEnd;
    var gs := fs + [f];
    forall i | 0 <= i < |gs|
      ensures FiledOk(buf', ws', gs[i]) && gs[i].owner.pos == StartOf(gs, i, lo)
    {
      if i < |fs| {
        assert FiledOk(buf, ws, fs[i]);
        FiledKept(buf, ws, buf', ws', fs[i]);
      }
      assert i > 0 ==> gs[i - 1] == fs[i - 1];
    }
  }

  /** One more record, behind those already in place. */
  method PutRecordNext(b: Builder, ghost a: Added, ghost fs: seq<Filed>, e: Event) returns (ok: bool, ghost f: Filed)
    requires b.Valid() && RecordOk(e) && a.ok && b.Contents() == a.buf && b.names == a.names
    requires a.clean ==> b.clean && AllFiled(b.Contents(), b.written, fs, b.tctarget, b.len)
    modifies b, b.response
    ensures var c := AddRecord(a, e, TtlOf(e, b.hidettl));
            && ok == c.ok && (ok ==> b.Valid() && b.Contents() == c.buf && b.names == c.names)
            && (ok && c.clean ==> b.clean && AllFiled(b.Contents(), b.written, fs + [f], b.tctarget, b.len))
    ensures ok ==> f.event == e && f.ttl == TtlOf(e, b.hidettl) && old(b.written) <= b.written
    ensures ok ==> |b.groups| == |old(b.groups)| + 1
                   && CountIn(b.groups, RESPONSE_ANSWER) == CountIn(old(b.groups), RESPONSE_ANSWER) + 1
    ensures b.tctarget == old(b.tctarget) && b.hidettl == old(b.hidettl)
  {
    hide AddName, AddRecord, Clean, CountsOk, Good, FrozenRange, AllWrittenOk, FiledOk, Behind, AllFiled;
    hide Builder.Records;
    ghost var buf, ws, gs := b.Contents(), b.written, b.groups;
    AddRecordAnyway(a, e, TtlOf(e, b.hidettl));
    AddRecordClean(a, e, TtlOf(e, b.hidettl));
    ok, f := WriteRecord(b, e);
    if ok {
      OneMoreCounted(gs, Group(f.owner, b.len, RESPONSE_ANSWER));
      if AddRecord(a, e, TtlOf(e, b.hidettl)).clean {
        OneMoreFiled(buf, ws, b.Contents(), b.written, fs, b.tctarget, f);
      }
    }
  }

  lemma AddRecordClean(a: Added, e: Event, ttl: uint32)
    requires RecordOk(e) && |a.buf| >= 12
    ensures AddRecord(a, e, ttl).clean ==> Clean(a.names, e.owner)
  {
    hide AddName, Clean, PackBig, Finished;
  }

  /** response_query, and the records one after the other. */
  method WriteAnswer(b: Builder, q: bytes, qtype: bytes, qclass: bytes, es: seq<Event>)
      returns (ok: bool, ghost fs: seq<Filed>)
    requires b.response.Length == RESPONSE_SIZE && IsName(q) && |qtype| == |qclass| == 2 && RecordsOk(es)
    modifies b, b.response
    ensures ok ==> b.Valid() && |b.groups| == CountIn(b.groups, RESPONSE_ANSWER) == |es|
    ensures var a := AnswerOf(q, qtype, qclass, es, b.hidettl);
            && ok == a.ok && (ok ==> b.Contents() == a.buf)
            && (ok && a.clean ==> b.clean && AllFiled(b.Contents(), b.written, fs, b.tctarget, b.len))
    ensures ok ==> Means(fs, es, b.hidettl) && b.tctarget >= 16 && Written(12, q, b.tctarget - 4) in b.written
    ensures b.hidettl == old(b.hidettl)
  {
    hide AddName, AddRecord, Clean, CountsOk, Good, FrozenRange, AllWrittenOk, AllFiled, CountIn;
    hide Builder.Records;
    fs := [];
    ghost var a;
    ok, a := StartAnswer(b, q, qtype, qclass, es);
    if !ok { return; }
    assert es[0..] == es;
    for j := 0 to |es|
      invariant a.ok && ok && b.Valid() && b.Contents() == a.buf && b.names == a.names
      invariant AnswerOf(q, qtype, qclass, es, b.hidettl) == AddRecords(a, es[j..], b.hidettl)
      invariant b.hidettl == old(b.hidettl) && b.tctarget >= 16 && Written(12, q, b.tctarget - 4) in b.written
      invariant |b.groups| == CountIn(b.groups, RESPONSE_ANSWER) == j && Means(fs, es[..j], b.hidettl)
      invariant a.clean ==> b.clean && AllFiled(b.Contents(), b.written, fs, b.tctarget, b.len)
    {
      assert es[j..][0] == es[j] && es[j..][1..] == es[j + 1..] && es[..j + 1] == es[..j] + [es[j]];
      ghost var f, c := Filed(Written(0, [], 0), es[j], 0, []), AddRecord(a, es[j], TtlOf(es[j], b.hidettl));
      ok, f := PutRecordNext(b, a, fs, es[j]);
      a := c;
      if !ok { return; }
      fs := fs + [f];
    }
    assert es[..|es|] == es;
  }

  method StartAnswer(b: Builder, q: bytes, qtype: bytes, qclass: bytes, ghost es: seq<Event>)
      returns (ok: bool, ghost a: Added)
    requires b.response.Length == RESPONSE_SIZE && IsName(q) && |qtype| == |qclass| == 2 && RecordsOk(es)
    modifies b, b.response
    ensures if ok then |a.buf| >= 12 && AnswerOf(q, qtype, qclass, es, b.hidettl) == AddRecords(a, es, b.hidettl)
            else !AnswerOf(q, qtype, qclass, es, b.hidettl).ok
    ensures ok ==> a.ok && b.Valid() && b.Contents() == a.buf && b.names == a.names && b.clean
    ensures ok ==> b.tctarget >= 16 && Written(12, q, b.tctarget - 4) in b.written
    ensures ok ==> |b.groups| == CountIn(b.groups, RESPONSE_ANSWER) == 0
                   && AllFiled(b.Contents(), b.written, [], b.tctarget, b.len)
    ensures b.hidettl == old(b.hidettl)
  {
    hide AddName, AddRecord, Clean, CountsOk, Good, FrozenRange, AllWrittenOk, AllFiled, CountIn;
    hide Builder.Records;
    AddNameGrows(HEADER, [], q);
    ok := b.Query(q, qtype, qclass);
    a := Added(ok, [], [], true);
    if !ok { return; }
    a := Added(true, b.Contents(), b.names, true);
    NoneFiled(b.Contents(), b.written, b.tctarget);
    NoneCounted([]);
    assert b.written[0] == Written(12, q, b.tctarget - 4);
  }

  lemma NoneFiled(buf: bytes, ws: seq<Written>, at: nat)
    ensures AllFiled(buf, ws, [], at, at)
  {
  }

  lemma OneMoreCounted(gs: seq<Group>, g: Group)
    ensures CountIn(gs + [g], g.section) == CountIn(gs, g.section) + 1
  {
    assert (gs + [g])[..|gs|] == gs;
  }

  predicate ProperRecords(es: seq<Event>) {
    RecordsOk(es) && forall i :: 0 <= i < |es| ==> Proper(es[i])
  }

  predicate AllProper(fs: seq<Filed>) {
    forall i :: 0 <= i < |fs| ==> Proper(fs[i].event)
  }

  /** A reader of the section finds exactly the records in place. */
  lemma {:induction false} PlacesFiled(buf: bytes, fz: set<nat>, ws: seq<Written>, fs: seq<Filed>, lo: nat, hi: nat,
                                       j: nat)
    requires AllWrittenOk(buf, fz, ws) && AllFiled(buf, ws, fs, lo, hi) && AllProper(fs) && j <= |fs|
    ensures var at := StartOf(fs, j, lo);
            && PacketRecords.AllThere(buf, at, |fs| - j)
            && PacketRecords.Places(buf, at, |fs| - j) == Positions(fs)[j..]
    decreases |fs| - j
  {
    hide AllWrittenOk, FiledOk, Proper, FiledEnd, PacketRecords.Parse, PacketRecords.Next;
    if j < |fs| {
      FiledReads(buf, fz, ws, fs[j]);
      PlacesFiled(buf, fz, ws, fs, lo, hi, j + 1);
      assert Positions(fs)[j..] == [fs[j].owner.pos] + Positions(fs)[j + 1..];
    }
  }

  function Positions(fs: seq<Filed>): seq<nat> {
    seq(|fs|, i requires 0 <= i < |fs| => fs[i].owner.pos)
  }

  /** The records among these about d and of the type asked for. */
  function Wanted(es: seq<Event>, d: bytes, dtype: bytes): seq<Event>
    requires RecordsOk(es)
  {
    if es == [] then []
    else
      var e := es[|es| - 1];
      Wanted(es[..|es| - 1], d, dtype) + if Same(e.owner, d) && TypeMatch(e.rtype, dtype) then [e] else []
  }

  /** The records read are those meant, in order, with their ttls clamped. */
  predicate SameRecords(rs: seq<Event>, es: seq<Event>, hidettl: bool) {
    |rs| == |es| && forall i :: 0 <= i < |rs| ==> es[i].Record? && SameRecord(rs[i], es[i], TtlOf(es[i], hidettl))
  }

  /** Whether a record in place is wanted can be read from the bytes. */
  lemma GivesFiled(buf: bytes, fz: set<nat>, ws: seq<Written>, f: Filed, d: bytes, dtype: bytes)
    requires AllWrittenOk(buf, fz, ws) && FiledOk(buf, ws, f) && Proper(f.event)
    ensures Gives(buf, f.owner.pos, d, dtype) <==> Same(f.event.owner, d) && TypeMatch(f.event.rtype, dtype)
  {
    hide AllWrittenOk, FiledOk, PacketRecords.Parse, RecordAt, TypeMatch;
    FiledReads(buf, fz, ws, f);
    var r := PacketRecords.Parse(buf, f.owner.pos).value;
    assert r.head[..2] == f.event.rtype && r.head[2..] == IN;
  }

  /** The resolver's reader takes out exactly the wanted records among those written. */
  lemma {:induction false} GivenFiled(buf: bytes, fz: set<nat>, ws: seq<Written>, fs: seq<Filed>, lo: nat, hi: nat,
                                      es: seq<Event>, hidettl: bool, d: bytes, dtype: bytes, j: nat)
    requires AllWrittenOk(buf, fz, ws) && AllFiled(buf, ws, fs, lo, hi) && AllProper(fs) && j <= |fs|
    requires RecordsOk(es) && Means(fs, es, hidettl)
    ensures var given := Given(buf, Positions(fs)[..j], d, dtype);
            given.Some? && SameRecords(given.value, Wanted(es[..j], d, dtype), hidettl)
  {
    hide AllWrittenOk, AllFiled, AllProper, Gives, RecordAt, SameRecord, TypeMatch, Same, RecordOk;
    hide SameRecords, Wanted, Given, Means, Positions;
    assert |es| == |fs| == |Positions(fs)| by { SameNumber(fs, es, hidettl); }
    if j == 0 {
      NothingGiven(buf, Positions(fs), d, dtype);
      NothingWanted(es, hidettl, d, dtype);
    } else {
      var s := Positions(fs);
      GivenFiled(buf, fz, ws, fs, lo, hi, es, hidettl, d, dtype, j - 1);
      OneMoreGiven(buf, s, j - 1, d, dtype);
      OneMoreWanted(es, j - 1, d, dtype);
      OneFiled(buf, fz, ws, fs, lo, hi, es, hidettl, d, dtype, j - 1);
      var before := Given(buf, s[..j - 1], d, dtype).value;
      OneMoreSame(before, Wanted(es[..j - 1], d, dtype), RecordAt(buf, s[j - 1]).value, es[j - 1], hidettl);
    }
  }

  lemma SameNumber(fs: seq<Filed>, es: seq<Event>, hidettl: bool)
    requires Means(fs, es, hidettl)
    ensures |es| == |fs| == |Positions(fs)|
  {
  }

  /** One of the records in place. */
  lemma OneFiled(buf: bytes, fz: set<nat>, ws: seq<Written>, fs: seq<Filed>, lo: nat, hi: nat, es: seq<Event>,
                 hidettl: bool, d: bytes, dtype: bytes, j: nat)
    requires AllWrittenOk(buf, fz, ws) && AllFiled(buf, ws, fs, lo, hi) && AllProper(fs) && j < |fs|
    requires RecordsOk(es) && Means(fs, es, hidettl)
    ensures es[j].Record? && |es| == |fs| == |Positions(fs)|
    ensures var p := Positions(fs)[j];
            && (Gives(buf, p, d, dtype) <==> Same(es[j].owner, d) && TypeMatch(es[j].rtype, dtype))
            && RecordAt(buf, p).Some? && SameRecord(RecordAt(buf, p).value, es[j], TtlOf(es[j], hidettl))
  {
    hide AllWrittenOk, FiledOk, Proper, FiledEnd, Gives, RecordAt, SameRecord, TypeMatch, Same, RecordOk;
    FiledReads(buf, fz, ws, fs[j]);
    GivesFiled(buf, fz, ws, fs[j], d, dtype);
  }

  lemma NothingWanted(es: seq<Event>, hidettl: bool, d: bytes, dtype: bytes)
    requires RecordsOk(es)
    ensures SameRecords([], Wanted(es[..0], d, dtype), hidettl)
  {
  }

  lemma OneMoreWanted(es: seq<Event>, j: nat, d: bytes, dtype: bytes)
    requires j < |es| && RecordsOk(es)
    ensures Wanted(es[..j + 1], d, dtype)
         == Wanted(es[..j], d, dtype)
            + if Same(es[j].owner, d) && TypeMatch(es[j].rtype, dtype) then [es[j]] else []
  {
    hide Same, TypeMatch;
    assert es[..j + 1][..j] == es[..j];
  }

  lemma OneMoreSame(rs: seq<Event>, es: seq<Event>, r: Event, e: Event, hidettl: bool)
    requires SameRecords(rs, es, hidettl) && e.Record? && SameRecord(r, e, TtlOf(e, hidettl))
    ensures SameRecords(rs + [r], es + [e], hidettl) && es + [] == es
  {
    hide SameRecord;
  }

  // --- what a reader makes of an answer -----------------------------------------------------------

  /** An alias of d, where aliases were not what was asked for. */
  predicate LeadsOn(e: Event, d: bytes, dtype: bytes) {
    e.Record? && Same(e.owner, d) && !TypeMatch(e.rtype, dtype) && e.rtype == T_CNAME
  }

  /** The last of the aliases of d. */
  function LastOn(es: seq<Event>, d: bytes, dtype: bytes): Option<Event> {
    if es == [] then None
    else if LeadsOn(es[|es| - 1], d, dtype) then Some(es[|es| - 1])
    else LastOn(es[..|es| - 1], d, dtype)
  }

  /** An alias found by the reader is the one meant: its target, up to case, and its ttl. */
  predicate SameAlias(found: Option<(bytes, uint32)>, e: Option<Event>, hidettl: bool) {
    match e
    case None => found == None
    case Some(x) =>
      && x.Record? && found.Some? && |x.data| == 1 && x.data[0].Name? && Same(found.value.0, x.data[0].d)
      && found.value.1 == Ttl(TtlOf(x, hidettl))
  }

  /** Whether a record in place is an alias, and where it leads, can be read from the bytes. */
  lemma AliasFiled(buf: bytes, fz: set<nat>, ws: seq<Written>, f: Filed, d: bytes, dtype: bytes)
    requires AllWrittenOk(buf, fz, ws) && FiledOk(buf, ws, f) && Proper(f.event)
    ensures Aliases(buf, f.owner.pos, d, dtype) <==> LeadsOn(f.event, d, dtype)
    ensures LeadsOn(f.event, d, dtype) ==>
              && |f.event.data| == 1 && f.event.data[0].Name? && Target(buf, f.owner.pos).Some?
              && Same(Target(buf, f.owner.pos).value, f.event.data[0].d)
              && TtlAt(buf, f.owner.pos) == Ttl(f.ttl)
  {
    hide AllWrittenOk, FiledOk, PacketRecords.Parse, TypeMatch, NameAt, RecordAt, Target, TtlAt, Proper;
    FiledReads(buf, fz, ws, f);
    var r := PacketRecords.Parse(buf, f.owner.pos).value;
    assert r.head[..2] == f.event.rtype && r.head[2..] == IN;
    if f.event.rtype == T_CNAME {
      AliasShape(f.event);
      AliasRead(buf, f.owner.pos, f.event, f.ttl);
    }
  }

  lemma AliasShape(e: Event)
    requires Proper(e) && e.rtype == T_CNAME
    ensures |e.data| == 1 && e.data[0].Name?
  {
  }

  lemma AliasRead(buf: bytes, p: nat, e: Event, ttl: uint32)
    requires PacketRecords.Parse(buf, p).Some? && PacketRecords.Parse(buf, p).value.head == T_CNAME + IN
    requires RecordAt(buf, p).Some? && SameRecord(RecordAt(buf, p).value, e, ttl)
    requires |e.data| == 1 && e.data[0].Name?
    ensures Target(buf, p).Some? && Same(Target(buf, p).value, e.data[0].d) && TtlAt(buf, p) == Ttl(ttl)
  {
    hide PacketRecords.Parse, Same, NameAt;
    var r := PacketRecords.Parse(buf, p).value;
    assert r.head[..2] == T_CNAME;
    PacketRecords.ParsedAfter(buf, p);
    var data := RecordAt(buf, p).value.data;
    assert SamePart(data[0], e.data[0]);
  }

  /** The flags a reader finds are those of the records in place. */
  lemma {:induction false} FlagsFiled(buf: bytes, fz: set<nat>, ws: seq<Written>, fs: seq<Filed>, lo: nat, hi: nat,
                                      es: seq<Event>, hidettl: bool, d: bytes, dtype: bytes, j: nat)
    requires AllWrittenOk(buf, fz, ws) && AllFiled(buf, ws, fs, lo, hi) && AllProper(fs) && j <= |fs|
    requires RecordsOk(es) && Means(fs, es, hidettl)
    ensures |es| == |fs| == |Positions(fs)|
    ensures var s := Positions(fs)[..j];
            && (AnyGives(buf, s, d, dtype) <==> Wanted(es[..j], d, dtype) != []) && TargetsOk(buf, s, d, dtype)
            && SameAlias(LastAlias(buf, s, d, dtype), LastOn(es[..j], d, dtype), hidettl)
  {
    hide AllWrittenOk, AllFiled, AllProper, Gives, Aliases, Target, TtlAt, RecordAt, SameRecord, TypeMatch, Same;
    hide RecordOk, Wanted, Means, Positions, AnyGives, TargetsOk, LastAlias, Ttl, LeadsOn;
    SameNumber(fs, es, hidettl);
    if j == 0 {
      NoAnswers(buf, d, dtype);
      NothingWanted(es, hidettl, d, dtype);
      assert Positions(fs)[..0] == [] && es[..0] == [];
    } else {
      FlagsFiled(buf, fz, ws, fs, lo, hi, es, hidettl, d, dtype, j - 1);
      OneMoreAnswer(buf, Positions(fs), j - 1, d, dtype);
      OneMoreWanted(es, j - 1, d, dtype);
      OneFiled(buf, fz, ws, fs, lo, hi, es, hidettl, d, dtype, j - 1);
      OneAlias(buf, fz, ws, fs, lo, hi, es, hidettl, d, dtype, j - 1);
      assert es[..j][..j - 1] == es[..j - 1] && es[..j][j - 1] == es[j - 1];
    }
  }

  lemma OneAlias(buf: bytes, fz: set<nat>, ws: seq<Written>, fs: seq<Filed>, lo: nat, hi: nat, es: seq<Event>,
                 hidettl: bool, d: bytes, dtype: bytes, j: nat)
    requires AllWrittenOk(buf, fz, ws) && AllFiled(buf, ws, fs, lo, hi) && AllProper(fs) && j < |fs|
    requires RecordsOk(es) && Means(fs, es, hidettl)
    ensures es[j].Record? && |es| == |fs| == |Positions(fs)|
    ensures var p := Positions(fs)[j];
            && (Aliases(buf, p, d, dtype) <==> LeadsOn(es[j], d, dtype))
            && (LeadsOn(es[j], d, dtype) ==>
                  && |es[j].data| == 1 && es[j].data[0].Name? && Target(buf, p).Some?
                  && Same(Target(buf, p).value, es[j].data[0].d) && TtlAt(buf, p) == Ttl(TtlOf(es[j], hidettl)))
  {
    hide AllWrittenOk, FiledOk, Proper, FiledEnd, Aliases, Target, TtlAt, TypeMatch, Same, RecordOk, Ttl, LeadsOn;
    AliasFiled(buf, fz, ws, fs[j], d, dtype);
  }

  /**
   * What a server writes is what a resolver reads. An answer is written exactly if it fits; if all its pointers fit as
   * well, then the resolver's reader finds, for any name and type, exactly the records about them that were written, in
   * order, equal up to the case of names, with their data in full; and it draws the conclusions meant: an answer if
   * there is such a record, the last alias otherwise, a denial or a failure exactly if the code says so, and never a
   * referral. The guard on pointers is the one of response.c.
   */
  method AnswerRoundTrip(b: Builder, q: bytes, qtype: bytes, qclass: bytes, es: seq<Event>, code: Code, d: bytes,
                         dtype: bytes) returns (ok: bool)
    requires b.response.Length == RESPONSE_SIZE && IsName(q) && |qtype| == |qclass| == 2 && ProperRecords(es)
    modifies b, b.response
    ensures var a := AnswerOf(q, qtype, qclass, es, b.hidettl);
            && ok == a.ok
            && (ok ==> b.response.Length == RESPONSE_SIZE && b.len == |a.buf| <= RESPONSE_SIZE
                       && forall i :: 0 <= i < b.len && i != 2 && i != 3 ==> b.response[i] == a.buf[i])
            && (ok && a.clean ==> ReadsAs(b.Contents(), es, code, b.hidettl, d, dtype))
    ensures ok ==> Repeats(b.Contents(), q, qtype, qclass)
  {
    hide AnswerOf, Proper, Good, FrozenRange, AllWrittenOk, AllFiled, CountIn, Given, Wanted, IsReply, ReadsAs;
    hide Repeats, IsName, Behind;
    hide Builder.Records;
    ghost var fs;
    ok, fs := WriteAnswer(b, q, qtype, qclass, es);
    if !ok { return; }
    AnswerIsReply(q, qtype, qclass, es, b.hidettl);
    AnswerRepeats(q, qtype, qclass, es, b.hidettl);
    ghost var buf := b.Contents();
    PutCode(b, code);
    RepeatsKept(buf, b.Contents(), q, qtype, qclass);
    if AnswerOf(q, qtype, qclass, es, b.hidettl).clean {
      AllFiledKept(buf, b.Contents(), b.written, fs, b.tctarget);
      AnswerReads(b.Contents(), b.frozen, b.written, fs, es, b.groups, q, b.tctarget, code, b.hidettl, d, dtype);
    }
  }

  /** What the response says besides its records. */
  datatype Code = NoCode | Denial | Failed

  function CodeByte(code: Code): byte {
    match code
    case NoCode => 0
    case Denial => 3
    case Failed => 2
  }

  /** response_nxdomain, response_servfail, or neither. */
  method PutCode(b: Builder, code: Code)
    requires b.Valid() && IsReply(b.Contents())
    modifies b.response
    ensures b.Valid() && b.Contents()[3] % 16 == CodeByte(code) && Behind(old(b.Contents()), b.Contents())
    ensures b.Contents()[2] / 128 == 1 && b.Contents()[2] / 2 % 2 == 0
    ensures forall i :: 0 <= i < b.len && i != 2 && i != 3 ==> b.response[i] == old(b.response[i])
    ensures b.Contents()[4] == old(b.Contents())[4] && b.Contents()[5] == old(b.Contents())[5]
  {
    hide Builder.Records, CountsOk, GroupsOk, Consecutive, Good, FrozenRange, AllWrittenOk;
    ghost var buf := b.Contents();
    FlagBytes(buf);
    if code == Denial {
      b.NxDomain();
    } else if code == Failed {
      b.ServFail();
    }
    assert b.response[2] == b.Contents()[2] && b.response[3] == b.Contents()[3];
  }

  lemma FlagBytes(buf: bytes)
    requires IsReply(buf)
    ensures |buf| >= 12 && buf[2] == 129 && buf[3] % 16 == 0
  {
  }

  lemma AllFiledKept(buf: bytes, buf': bytes, ws: seq<Written>, fs: seq<Filed>, lo: nat)
    requires AllFiled(buf, ws, fs, lo, |buf|) && Behind(buf, buf') && |buf| == |buf'| <= RESPONSE_SIZE
    ensures AllFiled(buf', ws, fs, lo, |buf'|)
  {
    hide FiledOk, Behind, FiledEnd;
    forall i | 0 <= i < |fs|
      ensures FiledOk(buf', ws, fs[i])
    {
      FiledKept(buf, ws, buf', ws, fs[i]);
    }
  }

  /** What can be read from the answer section, and the conclusions from it, are those of these records. */
  ghost predicate ReadsAs(buf: bytes, es: seq<Event>, code: Code, hidettl: bool, d: bytes, dtype: bytes)
    requires RecordsOk(es)
  {
    && |buf| >= 12 && buf[2] / 128 == 1 && buf[2] / 2 % 2 == 0 && SkipFrom(buf, 12) != 0
    && PacketRecords.AllThere(buf, AnswerStart(buf), Word16(buf, 6))
    && (var given := Given(buf, Answers(buf), d, dtype);
        given.Some? && SameRecords(given.value, Wanted(es, d, dtype), hidettl))
    && var scan := ScanOf(buf, d, dtype);
       && scan.rcode == CodeByte(code) as nat && (scan.flagout <==> Wanted(es, d, dtype) != [])
       && SameAlias(scan.alias, LastOn(es, d, dtype), hidettl) && scan.referral == None && !scan.flagsoa
       && (code != Failed ==> Complete(buf, d, dtype))
  }

  lemma {:induction false} AnswerReads(buf: bytes, fz: set<nat>, ws: seq<Written>, fs: seq<Filed>, es: seq<Event>,
                                       gs: seq<Group>, q: bytes, lo: nat, code: Code, hidettl: bool, d: bytes,
                                       dtype: bytes)
    requires AllWrittenOk(buf, fz, ws) && AllFiled(buf, ws, fs, lo, |buf|)
    requires ProperRecords(es) && Means(fs, es, hidettl)
    requires lo >= 16 && Written(12, q, lo - 4) in ws && |buf| <= RESPONSE_SIZE
    requires CountsOk(buf, gs) && CountIn(gs, RESPONSE_ANSWER) == |es| == |gs|
    requires buf[2] / 128 == 1 && buf[2] / 2 % 2 == 0 && buf[3] % 16 == CodeByte(code)
    ensures ReadsAs(buf, es, code, hidettl, d, dtype)
  {
    hide FiledOk, Proper, FiledEnd, Gives, RecordAt, SameRecord, TypeMatch, Same, RecordOk, Given, Wanted, Encoded;
    hide PacketRecords.AllThere, PacketRecords.Places, SkipFrom, AllFiled, AnyGives, TargetsOk, LastAlias, SameAlias;
    hide LastOn, Means;
    var k :| 0 <= k < |ws| && ws[k] == Written(12, q, lo - 4);
    assert WrittenOk(buf, fz, ws[k]);
    NameSkipped(buf, fz, ws[k]);
    assert AllProper(fs) by { AllMeant(fs, es, hidettl); }
    PlacesFiled(buf, fz, ws, fs, lo, |buf|, 0);
    GivenFiled(buf, fz, ws, fs, lo, |buf|, es, hidettl, d, dtype, |fs|);
    FlagsFiled(buf, fz, ws, fs, lo, |buf|, es, hidettl, d, dtype, |fs|);
    assert Positions(fs)[..|fs|] == Positions(fs) == Positions(fs)[0..] && es[..|fs|] == es;
    OnlyAnswers(gs);
    NoAuthorityRecords(buf, AuthorityStart(buf));
  }

  lemma AllMeant(fs: seq<Filed>, es: seq<Event>, hidettl: bool)
    requires ProperRecords(es) && Means(fs, es, hidettl)
    ensures AllProper(fs)
  {
    hide Proper;
  }

  /** If all records are answers there are no others. */
  lemma {:induction false} OnlyAnswers(gs: seq<Group>)
    ensures CountIn(gs, RESPONSE_ANSWER) <= |gs|
    ensures CountIn(gs, RESPONSE_ANSWER) == |gs| ==> CountIn(gs, RESPONSE_AUTHORITY) == 0
  {
    if gs != [] {
      OnlyAnswers(gs[..|gs| - 1]);
    }
  }

  lemma NoAuthorityRecords(buf: bytes, pos: nat)
    ensures PacketRecords.AllThere(buf, pos, 0) && PacketRecords.Places(buf, pos, 0) == []
    ensures LastZone(buf, []) == None && !AnyHasType(buf, [], T_SOA)
  {
  }
}
