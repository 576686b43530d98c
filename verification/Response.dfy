/** response.c: building a response in one buffer, and what a reader of that buffer will find. */
module Response {
  import opened Bytes
  import opened Domain
  import opened Packet
  import opened Compression

  const RESPONSE_ANSWER := 6
  const RESPONSE_AUTHORITY := 8
  const RESPONSE_ADDITIONAL := 10

  type Section = x: nat | x == RESPONSE_ANSWER || x == RESPONSE_AUTHORITY || x == RESPONSE_ADDITIONAL
    witness RESPONSE_ANSWER

  /** Flags and one question (section 4.1.1 of RFC 1035). */
  const HEADER: bytes := [0, 0, 129, 128, 0, 1, 0, 0, 0, 0, 0, 0]

  /** A name written at pos, and where its encoding ends. */
  datatype Written = Written(pos: nat, name: bytes, end: nat)

  ghost predicate WrittenOk(buf: bytes, fz: set<nat>, w: Written) {
    IsName(w.name) && Encoded(buf, fz, w.pos, w.name) && EncodedEnd(buf, w.pos, w.name) == w.end
  }

  ghost predicate AllWrittenOk(buf: bytes, fz: set<nat>, ws: seq<Written>) {
    forall i :: 0 <= i < |ws| ==> WrittenOk(buf, fz, ws[i])
  }

  lemma WrittenKept(buf: bytes, fz: set<nat>, buf': bytes, fz': set<nat>, ws: seq<Written>)
    requires Keeps(buf, fz, buf', fz') && AllWrittenOk(buf, fz, ws)
    ensures AllWrittenOk(buf', fz', ws)
  {
    hide Encoded, Keeps;
    forall i | 0 <= i < |ws|
      ensures WrittenOk(buf', fz', ws[i])
    {
      assert WrittenOk(buf, fz, ws[i]);
      EncodedKept(buf, fz, buf', fz', ws[i].pos, ws[i].name);
    }
  }

  /** A complete record: owner name, ten bytes ending in the data length, data; and its section. */
  datatype Group = Group(owner: Written, end: nat, section: Section)

  ghost predicate GroupOk(buf: bytes, fz: set<nat>, g: Group) {
    && WrittenOk(buf, fz, g.owner)
    && g.owner.pos < g.owner.end && g.owner.end + 10 <= g.end <= |buf|
    && Frozen(buf, fz, g.owner.end + 8, 2)
    && buf[g.owner.end + 8..g.owner.end + 10] == Big16(g.end - g.owner.end - 10)
  }

  ghost predicate GroupsOk(buf: bytes, fz: set<nat>, gs: seq<Group>) {
    forall i :: 0 <= i < |gs| ==> GroupOk(buf, fz, gs[i])
  }

  /** The records follow one another from lo to hi. */
  predicate Consecutive(gs: seq<Group>, lo: nat, hi: nat) {
    if gs == [] then lo == hi
    else gs[|gs| - 1].end == hi && Consecutive(gs[..|gs| - 1], lo, gs[|gs| - 1].owner.pos)
  }

  function CountIn(gs: seq<Group>, section: nat): nat {
    if gs == [] then 0
    else CountIn(gs[..|gs| - 1], section) + (if gs[|gs| - 1].section == section then 1 else 0)
  }

  lemma {:induction false} CountBound(gs: seq<Group>, section: nat)
    ensures CountIn(gs, section) <= |gs|
  {
    if gs != [] {
      CountBound(gs[..|gs| - 1], section);
    }
  }

  lemma GroupsKept(buf: bytes, fz: set<nat>, buf': bytes, fz': set<nat>, gs: seq<Group>)
    requires Keeps(buf, fz, buf', fz') && GroupsOk(buf, fz, gs)
    ensures GroupsOk(buf', fz', gs)
  {
    hide Encoded, Frozen, Keeps, WrittenOk;
    forall i | 0 <= i < |gs|
      ensures GroupOk(buf', fz', gs[i])
    {
      var g := gs[i];
      assert GroupOk(buf, fz, g);
      WrittenKept(buf, fz, buf', fz', [g.owner]);
      assert WrittenOk(buf', fz', [g.owner][0]);
      FrozenKept(buf, fz, buf', fz', g.owner.end + 8, 2);
      KeepsLength(buf, fz, buf', fz');
    }
  }

  // --- walking the records ------------------------------------------------------------------------

  /** The positions visited by a reader that skips a name, ten bytes and the data, until `end`. */
  function Walk(buf: bytes, pos: nat, end: nat): Option<seq<nat>>
    decreases end - pos
  {
    if pos == end then Some([])
    else
      var name := SkipFrom(buf, pos);
      if pos > end || name <= pos || name + 10 > |buf| then None
      else
        match Walk(buf, name + 10 + buf[name + 8] as nat * 256 + buf[name + 9], end)
        case None => None
        case Some(rest) => Some([pos] + rest)
  }

  function Starts(gs: seq<Group>): seq<nat> {
    seq(|gs|, i requires 0 <= i < |gs| => gs[i].owner.pos)
  }

  lemma Big16Value(u: nat)
    requires u < 65536
    ensures Big16(u)[0] as nat * 256 + Big16(u)[1] == u
  {
  }

  /** A walk that has visited these positions goes on like this. */
  function Onward(visited: seq<nat>, rest: Option<seq<nat>>): Option<seq<nat>> {
    if rest == None then None else Some(visited + rest.value)
  }

  lemma NameSkipped(buf: bytes, fz: set<nat>, w: Written)
    requires WrittenOk(buf, fz, w) && |buf| <= RESPONSE_SIZE
    ensures SkipFrom(buf, w.pos) == w.end
  {
    hide SkipFrom, Encoded, EncodedEnd;
    EncodedSkips(buf, fz, w.pos, w.name);
  }

  lemma LengthRead(buf: bytes, p: nat, u: nat)
    requires p + 2 <= |buf| && u < 65536 && buf[p..p + 2] == Big16(u)
    ensures buf[p] as nat * 256 + buf[p + 1] == u
  {
    hide Big16;
    Big16Value(u);
    assert buf[p..p + 2][0] == buf[p] && buf[p..p + 2][1] == buf[p + 1];
  }

  /** One step of the walk crosses one record. */
  lemma WalkOne(buf: bytes, fz: set<nat>, g: Group, end: nat)
    requires GroupOk(buf, fz, g) && g.end <= end && |buf| <= RESPONSE_SIZE
    ensures Walk(buf, g.owner.pos, end) == Onward([g.owner.pos], Walk(buf, g.end, end))
    ensures g.owner.pos <= g.end
  {
    hide WrittenOk, Big16, SkipFrom, Frozen;
    NameSkipped(buf, fz, g.owner);
    LengthRead(buf, g.owner.end + 8, g.end - g.owner.end - 10);
  }

  lemma {:induction false} WalkSteps(buf: bytes, fz: set<nat>, gs: seq<Group>, lo: nat, hi: nat, end: nat)
    requires GroupsOk(buf, fz, gs) && Consecutive(gs, lo, hi) && hi <= end && |buf| <= RESPONSE_SIZE
    ensures Walk(buf, lo, end) == Onward(Starts(gs), Walk(buf, hi, end))
    decreases |gs|
  {
    hide Walk, GroupOk;
    var rest := Walk(buf, hi, end);
    if gs == [] {
      assert Starts(gs) == [] && (rest.Some? ==> [] + rest.value == rest.value);
    } else {
      var init, g := gs[..|gs| - 1], gs[|gs| - 1];
      assert GroupOk(buf, fz, g);
      WalkOne(buf, fz, g, end);
      WalkSteps(buf, fz, init, lo, g.owner.pos, end);
      assert Starts(gs) == Starts(init) + [g.owner.pos];
      if rest.Some? {
        assert Starts(init) + ([g.owner.pos] + rest.value) == Starts(gs) + rest.value;
      }
    }
  }

  /** A reader visits each record once, in order, and ends exactly at the end of the response. */
  lemma WalkVisitsAll(buf: bytes, fz: set<nat>, gs: seq<Group>, lo: nat)
    requires GroupsOk(buf, fz, gs) && Consecutive(gs, lo, |buf|) && |buf| <= RESPONSE_SIZE
    ensures Walk(buf, lo, |buf|) == Some(Starts(gs))
  {
    WalkSteps(buf, fz, gs, lo, |buf|, |buf|);
    assert Starts(gs) + [] == Starts(gs);
  }

  // --- section counts -----------------------------------------------------------------------------

  /** Adds 1, with carry, to the two bytes at x. */
  function Incremented(buf: bytes, x: nat): (r: bytes)
    requires x + 1 < |buf|
    ensures |r| == |buf|
  {
    var low := (buf[x + 1] as nat + 1) % 256;
    var b := buf[x + 1 := low];
    if low == 0 then b[x := (buf[x] as nat + 1) % 256] else b
  }

  lemma IncrementedCounts(buf: bytes, x: nat)
    requires x + 1 < |buf| && Word16(buf, x) < 65535
    ensures Word16(Incremented(buf, x), x) == Word16(buf, x) + 1
    ensures forall i :: 0 <= i < |buf| && i != x && i != x + 1 ==> Incremented(buf, x)[i] == buf[i]
  {
  }

  ghost predicate CountsOk(buf: bytes, gs: seq<Group>) {
    && |buf| >= 12
    && Word16(buf, 4) == 1
    && Word16(buf, RESPONSE_ANSWER) == CountIn(gs, RESPONSE_ANSWER)
    && Word16(buf, RESPONSE_AUTHORITY) == CountIn(gs, RESPONSE_AUTHORITY)
    && Word16(buf, RESPONSE_ADDITIONAL) == CountIn(gs, RESPONSE_ADDITIONAL)
  }

  /** Everything after the header that is frozen lies in the buffer; the header itself stays open. */
  ghost predicate FrozenRange(buf: bytes, fz: set<nat>) {
    forall p: nat :: p in fz ==> 12 <= p < |buf|
  }

  /** The two bytes of a record's data length, and the new count of its section, written by response_rfinish. */
  function Finished(buf: bytes, dpos: nat, x: nat): (r: bytes)
    requires 2 <= dpos <= |buf| && x + 1 < |buf|
    ensures |r| == |buf|
  {
    Incremented(buf[dpos - 2 := Big16(|buf| - dpos)[0]][dpos - 1 := Big16(|buf| - dpos)[1]], x)
  }

  /** A record leaves the id and the flags as they were. */
  lemma FinishedFlags(buf: bytes, dpos: nat, x: Section)
    requires 14 <= dpos <= |buf|
    ensures Finished(buf, dpos, x)[..6] == buf[..6]
  {
    hide Big16;
  }

  lemma FinishedKeeps(buf: bytes, fz: set<nat>, dpos: nat, x: nat)
    requires 14 <= dpos <= |buf| && x + 1 < 12 && FrozenRange(buf, fz)
    requires dpos - 2 !in fz && dpos - 1 !in fz
    ensures Keeps(buf, fz, Finished(buf, dpos, x), Freeze(fz, dpos - 2, dpos))
    ensures FrozenRange(Finished(buf, dpos, x), Freeze(fz, dpos - 2, dpos))
    ensures Finished(buf, dpos, x)[dpos - 2..dpos] == Big16(|buf| - dpos)
  {
    hide Big16, Range;
  }

  lemma FinishedCounts(buf: bytes, gs: seq<Group>, dpos: nat, x: Section, g: Group)
    requires 14 <= dpos <= |buf| && CountsOk(buf, gs) && |gs| < 65535
    requires g.section == x
    ensures CountsOk(Finished(buf, dpos, x), gs + [g])
  {
    hide Big16;
    var b := buf[dpos - 2 := Big16(|buf| - dpos)[0]][dpos - 1 := Big16(|buf| - dpos)[1]];
    CountBound(gs, x);
    assert Word16(b, x) == Word16(buf, x);
    IncrementedCounts(b, x);
    assert (gs + [g])[..|gs|] == gs;
  }

  // --- the builder --------------------------------------------------------------------------------

  // A byte with the bit of weight 1, 2 or 4 set.

  function WithOne(b: byte): byte {
    if b % 2 == 1 then b else b + 1
  }

  function WithTwo(b: byte): byte {
    if b / 2 % 2 == 1 then b else b + 2
  }

  function WithFour(b: byte): byte {
    if b / 4 % 2 == 1 then b else b + 4
  }

  /** The global variables of response.c. */
  class Builder {
    const response: array<byte>
    var len: nat
    var names: seq<Known>
    var tctarget: nat
    var dpos: nat
    var hidettl: bool

    // What has been promised: frozen bytes, names written, complete records, the owner of an open record,
    // and whether every owner name written so far was readable.
    ghost var frozen: set<nat>
    ghost var written: seq<Written>
    ghost var groups: seq<Group>
    ghost var open: Option<Written>
    ghost var clean: bool

    constructor ()
      ensures fresh(response) && response.Length == RESPONSE_SIZE && len == 0 && !hidettl
    {
      response := new byte[RESPONSE_SIZE](_ => 0);
      len, names, tctarget, dpos, hidettl := 0, [], 0, 0, false;
      frozen, written, groups, open, clean := {}, [], [], None, true;
    }

    function Contents(): bytes
      requires response.Length == RESPONSE_SIZE && len <= RESPONSE_SIZE
      reads this, response
    {
      response[..len]
    }

    /** The names in the buffer are in order: each one written can be read back, now and later. */
    ghost predicate Core()
      reads this, response
    {
      && response.Length == RESPONSE_SIZE && len <= RESPONSE_SIZE
      && Good(Contents(), frozen, names)
      && FrozenRange(Contents(), frozen)
      && AllWrittenOk(Contents(), frozen, written)
    }

    /** The records are in order; `at` is where the last complete one ends. */
    ghost predicate Records(at: nat)
      requires response.Length == RESPONSE_SIZE && len <= RESPONSE_SIZE
      reads this, response
    {
      GroupsOk(Contents(), frozen, groups) && Consecutive(groups, tctarget, at)
    }

    /** Between records. */
    ghost predicate Valid()
      reads this, response
    {
      && Core() && 12 <= tctarget <= len && open == None
      && CountsOk(Contents(), groups) && 11 * |groups| <= len
      && (clean ==> Records(len))
    }

    /** Inside a record: its owner name and fixed fields are written, its data length is not yet. */
    ghost predicate InRecord()
      reads this, response
    {
      && Core() && 12 <= tctarget <= len && open.Some?
      && 14 <= dpos <= len && dpos - 2 !in frozen && dpos - 1 !in frozen
      && CountsOk(Contents(), groups) && 11 * |groups| + 11 <= len
      && (clean ==>
            && Records(open.value.pos)
            && WrittenOk(Contents(), frozen, open.value) && open.value.pos < open.value.end
            && open.value.end + 10 == dpos)
    }

    /** response_addbytes. */
    method AddBytes(s: bytes) returns (ok: bool)
      requires response.Length == RESPONSE_SIZE && len <= RESPONSE_SIZE
      modifies response, `len
      ensures ok <==> |s| <= RESPONSE_SIZE - old(len)
      ensures len <= RESPONSE_SIZE
      ensures Contents() == if ok then old(Contents()) + s else old(Contents())
    {
      if |s| > RESPONSE_SIZE - len {
        return false;
      }
      for i := 0 to |s|
        invariant len == old(len)
        invariant response[..len] == old(response[..len]) && response[len..len + i] == s[..i]
      {
        response[len + i] := s[i];
        assert response[len..len + i + 1] == response[len..len + i] + [s[i]];
      }
      assert response[..len + |s|] == response[..len] + response[len..len + |s|];
      len := len + |s|;
      return true;
    }

    /** The search loop of response_addname. */
    method FindName(d: bytes) returns (i: nat)
      requires IsName(d) && forall j :: 0 <= j < |names| ==> IsName(names[j].name)
      ensures i == Matching(names, d)
    {
      i := 0;
      while i < |names|
        invariant i <= |names| && forall j :: 0 <= j < i ==> !Same(d, names[j].name)
      {
        var same := Equal(d, names[i].name);
        if same {
          break;
        }
        i := i + 1;
      }
      MatchingIs(names, d, i);
    }

    /** response_addname. */
    method AddNameBytes(name: bytes) returns (ok: bool)
      requires response.Length == RESPONSE_SIZE && len <= RESPONSE_SIZE && IsName(name)
      requires forall j :: 0 <= j < |names| ==> IsName(names[j].name)
      modifies response, `len, `names
      ensures len <= RESPONSE_SIZE
      ensures (ok, Contents(), names) == AddName(old(Contents()), old(names), name)
    {
      hide Matching, Same, Big16;
      var d := name;
      var dlen := Length(d);
      while d[0] != 0
        invariant IsName(d) && dlen == |d| && len <= RESPONSE_SIZE
        invariant forall j :: 0 <= j < |names| ==> IsName(names[j].name)
        invariant AddName(Contents(), names, d) == AddName(old(Contents()), old(names), name)
        decreases |d|
      {
        var i := FindName(d);
        if i < |names| {
          ok := AddBytes(Big16(49152 + names[i].ptr));
          return;
        }
        if dlen <= NAME_STORED {
          if |names| < NAMES {
            names := names + [Known(d, len)];
          }
        }
        var n := d[0] as nat + 1;
        ok := AddBytes(d[..n]);
        if !ok {
          return;
        }
        d := Parent(d);
        dlen := dlen - n;
      }
      ok := AddBytes([0]);
    }

    /** response_addbytes, with the promises already made. */
    method PutBytes(s: bytes) returns (ok: bool)
      requires Core()
      modifies response, `len
      ensures ok <==> |s| <= RESPONSE_SIZE - old(len)
      ensures ok ==> Core() && Contents() == old(Contents()) + s
      ensures ok && old(InRecord()) ==> InRecord()
      ensures len <= RESPONSE_SIZE
    {
      hide Good, AllWrittenOk, GroupsOk, WrittenOk, Consecutive, CountsOk;
      ghost var buf := Contents();
      ok := AddBytes(s);
      if ok {
        ghost var buf' := Contents();
        SameFrozenKeeps(buf, frozen, buf');
        CoreGrows(buf, frozen, buf', frozen, names, written);
        if old(InRecord()) { CountsGrow(buf, buf', groups); }
        if clean && old(InRecord()) {
          GroupsKept(buf, frozen, buf', frozen, groups);
          OneWrittenKept(buf, frozen, buf', frozen, open.value);
        }
      }
    }

    /** response_addname, with the promises already made. */
    method PutName(d: bytes) returns (ok: bool)
      requires Core() && IsName(d) && len >= 12
      modifies response, `len, `names, `frozen, `written
      ensures len <= RESPONSE_SIZE
      ensures (ok, Contents(), names) == AddName(old(Contents()), old(names), d)
      ensures ok ==> Core() && frozen == Freeze(old(frozen), old(len), len) && len > old(len)
      ensures ok ==> written == old(written) + if Clean(old(names), d) then [Written(old(len), d, len)] else []
      ensures ok && old(InRecord()) ==> InRecord()
    {
      hide AllWrittenOk, GroupsOk, WrittenOk, Consecutive, AddName, Clean, Freeze, RowOk, CountsOk;
      ghost var buf, fz, t := Contents(), frozen, names;
      NamesAreNames(buf, fz, t);
      ok := AddNameBytes(d);
      if ok {
        ghost var buf' := Contents();
        frozen := Freeze(fz, |buf|, |buf'|);
        AddNameGrows(buf, t, d);
        AppendKeeps(buf, fz, buf');
        GoodAfter(buf, fz, t, d);
        FreezeRange(buf, fz, buf');
        WrittenKept(buf, fz, buf', frozen, written);
        if Clean(t, d) {
          NameWritten(buf, fz, t, d);
          AppendWritten(buf', frozen, written, Written(|buf|, d, len));
          written := written + [Written(|buf|, d, len)];
        }
        if old(InRecord()) { CountsGrow(buf, buf', groups); }
        if clean && old(InRecord()) {
          GroupsKept(buf, fz, buf', frozen, groups);
          OneWrittenKept(buf, fz, buf', frozen, open.value);
        }
      }
    }

    /** The first part of response_query: an empty response with a header. */
    method PutHeader() returns (ok: bool)
      requires response.Length == RESPONSE_SIZE
      modifies response, `len, `names, `frozen, `written, `groups, `open, `clean
      ensures ok && Core() && Contents() == HEADER && names == [] && frozen == {} && written == []
      ensures groups == [] && open == None && clean
    {
      len := 0;
      names := [];
      frozen, written, groups, open, clean := {}, [], [], None, true;
      ok := AddBytes(HEADER);
      assert Contents() == HEADER;
    }

    /** response_query: starts a new response with one question. */
    method Query(q: bytes, qtype: bytes, qclass: bytes) returns (ok: bool)
      requires response.Length == RESPONSE_SIZE && IsName(q)
      modifies response, `len, `names, `tctarget, `frozen, `written, `groups, `open, `clean
      ensures len <= RESPONSE_SIZE
      ensures var (named, question, t) := AddName(HEADER, [], q);
              && (ok <==> named && |question| + |qtype| + |qclass| <= RESPONSE_SIZE)
              && (ok ==> Contents() == question + qtype + qclass && names == t)
      ensures ok ==> Valid() && groups == [] && clean && tctarget == len && IsReply(Contents())
      ensures ok ==> written == [Written(12, q, len - |qtype| - |qclass|)]
    {
      hide AddName, Clean, WrittenOk, Freeze, RowOk, InRecord, CountIn, CountsOk, Good, FrozenRange, AllWrittenOk;
      ok := PutHeader();
      if !ok { return; }
      CleanAtFirst(q);
      ok := PutName(q);
      if !ok { return; }
      AddNameGrows(HEADER, [], q);
      ok := PutBytes(qtype);
      if !ok { return; }
      ok := PutBytes(qclass);
      if !ok { return; }
      tctarget := len;
      QuestionCounts(Contents());
      QuestionFlags(Contents());
    }

    method HideTtl()
      modifies `hidettl
      ensures hidettl
    {
      hidettl := true;
    }

    /** Type, class IN, ttl, and an empty data length. */
    method PutFixed(rtype: bytes, ttl: uint32) returns (ok: bool)
      requires Core() && |rtype| == 2
      modifies response, `len
      ensures ok <==> 10 <= RESPONSE_SIZE - old(len)
      ensures ok ==> Core() && len == old(len) + 10
      ensures ok ==> Contents() == old(Contents()) + rtype + [0, 1] + PackBig(ttl) + [0, 0]
    {
      hide Good, AllWrittenOk, PackBig, InRecord, FrozenRange;
      ok := PutBytes(rtype);
      if !ok { return; }
      ok := PutBytes([0, 1]);
      if !ok { return; }
      ok := PutBytes(PackBig(ttl));
      if !ok { return; }
      ok := PutBytes([0, 0]);
    }

    /** response_rstart: owner name and fixed fields; the data length stays zero until response_rfinish. */
    method RStart(d: bytes, rtype: bytes, ttl: uint32) returns (ok: bool)
      requires Valid() && IsName(d) && |rtype| == 2
      modifies response, `len, `names, `dpos, `frozen, `written, `open, `clean
      ensures ok ==> InRecord() && len == dpos
      ensures ok ==> open == Some(Written(old(len), d, len - 10))
      ensures var (named, owner, t) := AddName(old(Contents()), old(names), d);
              && (ok <==> named && |owner| + 10 <= RESPONSE_SIZE)
              && (ok ==> names == t && len == |owner| + 10
                         && Contents() == owner + rtype + [0, 1] + PackBig(if hidettl then 0 else ttl) + [0, 0])
      ensures clean == (old(clean) && Clean(old(names), d))
      ensures ok ==> written == old(written) + if Clean(old(names), d) then [Written(old(len), d, len - 10)] else []
    {
      hide Good, AllWrittenOk, GroupsOk, WrittenOk, Consecutive, AddName, Clean, PackBig, Freeze, CountsOk;
      hide FrozenRange, Keeps;
      ghost var buf, fz := Contents(), frozen;
      clean := clean && Clean(names, d);
      ok := PutName(d);
      if !ok { return; }
      ghost var w := Written(|buf|, d, len);
      assert 12 <= |buf| < len;
      ghost var mid, fz' := Contents(), frozen;
      AddNameGrows(buf, old(names), d);
      AppendKeeps(buf, fz, mid);
      if clean { LastWritten(mid, fz', written); }
      ok := PutFixed(rtype, if hidettl then 0 else ttl);
      if !ok { return; }
      dpos := len;
      open := Some(w);
      NotFrozen(mid, fz', dpos - 2);
      NotFrozen(mid, fz', dpos - 1);
      CountsGrow(buf, Contents(), groups);
      if clean { RecordBegun(buf, fz, mid, fz', Contents(), groups, w); }
    }

    /** Fills in the data length and adds 1, with carry, to the section's count. */
    method PatchRecord(x: nat)
      requires response.Length == RESPONSE_SIZE && 14 <= dpos <= len <= RESPONSE_SIZE && x + 1 < 12
      modifies response
      ensures Contents() == Finished(old(Contents()), dpos, x)
    {
      hide Big16;
      var length := Big16(len - dpos);
      response[dpos - 2], response[dpos - 1] := length[0], length[1];
      response[x + 1] := (response[x + 1] as nat + 1) % 256;
      if response[x + 1] == 0 {
        response[x] := (response[x] as nat + 1) % 256;
      }
    }

    /** response_rfinish: the data length, and one more record in section x. */
    method RFinish(x: Section)
      requires InRecord()
      modifies response, `frozen, `groups, `open
      ensures Valid() && len == old(len)
      ensures Contents() == Finished(old(Contents()), dpos, x) && Contents()[..6] == old(Contents()[..6])
      ensures groups == old(groups) + [Group(old(open).value, len, x)]
    {
      hide Good, AllWrittenOk, GroupsOk, WrittenOk, Freeze, CountsOk, Finished;
      ghost var buf, fz := Contents(), frozen;
      PatchRecord(x);
      frozen := Freeze(fz, dpos - 2, dpos);
      FinishedKeeps(buf, fz, dpos, x);
      FinishedFlags(buf, dpos, x);
      CoreGrows(buf, fz, Contents(), frozen, names, written);
      ghost var g := Group(open.value, len, x);
      FinishedCounts(buf, groups, dpos, x, g);
      if clean {
        GroupFinished(buf, fz, dpos, x, groups, g);
      }
      groups := groups + [g];
      open := None;
    }

    /** response_cname. */
    method CName(c: bytes, d: bytes, ttl: uint32) returns (ok: bool)
      requires Valid() && IsName(c) && IsName(d)
      modifies response, `len, `names, `dpos, `frozen, `written, `groups, `open, `clean
      ensures ok ==> Valid() && clean == (old(clean) && Clean(old(names), c))
      ensures ok ==> dpos >= 12
      ensures ok ==> groups == old(groups) + [Group(Written(old(len), c, dpos - 10), len, RESPONSE_ANSWER)]
      ensures var (named, owner, t) := AddName(old(Contents()), old(names), c);
              var fixed := owner + [0, 5] + [0, 1] + PackBig(if hidettl then 0 else ttl) + [0, 0];
              var (all, target, _) := AddName(fixed, t, d);
              && (ok <==> named && |fixed| <= RESPONSE_SIZE && all)
              && (ok ==> 12 <= |fixed| == dpos <= |target| && Contents() == Finished(target, dpos, RESPONSE_ANSWER))
              && (ok ==> written == old(written)
                                    + (if Clean(old(names), c) then [Written(old(len), c, dpos - 10)] else [])
                                    + (if Clean(t, d) then [Written(dpos, d, len)] else []))
    {
      hide Core, Records, AddName, PackBig, Clean, Finished, CountsOk;
      ok := RStart(c, [0, 5], ttl);
      if !ok { return; }
      CoreOf();
      ok := PutName(d);
      if !ok { return; }
      RFinish(RESPONSE_ANSWER);
    }

    lemma CoreOf()
      requires InRecord()
      ensures Core() && len >= 12
    {
    }

    /** response_nxdomain: response code 3, authoritative; nothing else changes. */
    method NxDomain()
      requires Valid()
      modifies response
      ensures Valid() && len == old(len)
      ensures forall i :: 0 <= i < len && i != 2 && i != 3 ==> response[i] == old(response[i])
      ensures response[3] % 4 == 3 && response[3] / 4 == old(response[3]) / 4
      ensures response[2] / 4 % 2 == 1 && response[2] % 4 == old(response[2]) % 4
      ensures response[2] / 8 == old(response[2]) / 8
    {
      hide Good, AllWrittenOk, GroupsOk, WrittenOk;
      ghost var buf := Contents();
      response[3] := WithTwo(WithOne(response[3]));
      response[2] := WithFour(response[2]);
      HeaderEdited(buf, frozen, Contents(), names, written, groups);
    }

    /** response_servfail: response code 2; nothing else changes. */
    method ServFail()
      requires Valid()
      modifies response
      ensures Valid() && len == old(len)
      ensures forall i :: 0 <= i < len && i != 3 ==> response[i] == old(response[i])
      ensures response[3] / 2 % 2 == 1 && response[3] % 2 == old(response[3]) % 2
      ensures response[3] / 4 == old(response[3]) / 4
    {
      hide Good, AllWrittenOk, GroupsOk, WrittenOk;
      ghost var buf := Contents();
      response[3] := WithTwo(response[3]);
      HeaderEdited(buf, frozen, Contents(), names, written, groups);
    }

    /**
     * response_tc: the truncation bit is set and everything after the question is cut off. The counts stay, so that
     * they are right exactly if there was no record.
     */
    method Tc()
      requires Valid()
      modifies response, `len
      ensures response.Length == RESPONSE_SIZE && len == tctarget <= RESPONSE_SIZE
      ensures forall i :: 0 <= i < len && i != 2 ==> response[i] == old(response[i])
      ensures response[2] / 2 % 2 == 1 && response[2] % 2 == old(response[2]) % 2
      ensures response[2] / 4 == old(response[2]) / 4
      ensures CountsOk(Contents(), groups) && (CountsOk(Contents(), []) <==> groups == [])
      ensures Walk(Contents(), tctarget, len) == Some([])
    {
      hide Good, AllWrittenOk, GroupsOk, WrittenOk;
      response[2] := WithTwo(response[2]);
      len := tctarget;
      NoneCounted(groups);
    }

    /** response_id. */
    method Id(id: bytes)
      requires Valid() && |id| == 2
      modifies response
      ensures Valid() && Contents() == id + old(Contents())[2..]
    {
      hide Good, AllWrittenOk, GroupsOk, WrittenOk;
      ghost var buf := Contents();
      response[0], response[1] := id[0], id[1];
      HeaderEdited(buf, frozen, Contents(), names, written, groups);
    }
  }

  /**
   * Whatever has been done: a name written with a pointer that fits, or none, reads back exactly if it has at most 255
   * bytes; the counts are those of the records; and if every owner name is such a name, of whatever length, a reader
   * visits the records exactly.
   */
  lemma BuilderReads(b: Builder)
    requires b.Valid()
    ensures forall i :: 0 <= i < |b.written| ==>
              (ReadsBack(b.Contents(), b.written[i].pos, b.written[i].name, b.written[i].end)
               <==> |b.written[i].name| <= MAXNAME)
    ensures CountsOk(b.Contents(), b.groups)
    ensures b.clean ==> Walk(b.Contents(), b.tctarget, b.len) == Some(Starts(b.groups))
  {
    hide Encoded, Good, ReadsBack, GroupsOk, Walk, Consecutive, CountsOk;
    forall i | 0 <= i < |b.written|
      ensures ReadsBack(b.Contents(), b.written[i].pos, b.written[i].name, b.written[i].end)
              <==> |b.written[i].name| <= MAXNAME
    {
      assert WrittenOk(b.Contents(), b.frozen, b.written[i]);
      EncodedReads(b.Contents(), b.frozen, b.written[i].pos, b.written[i].name);
    }
    if b.clean {
      WalkVisitsAll(b.Contents(), b.frozen, b.groups, b.tctarget);
    }
  }

  /** A response without a record is one in which every section has none. */
  lemma NoneCounted(gs: seq<Group>)
    ensures gs == [] <==>
              CountIn(gs, RESPONSE_ANSWER) == CountIn(gs, RESPONSE_AUTHORITY) == CountIn(gs, RESPONSE_ADDITIONAL) == 0
  {
  }

  // --- owner names whose pointers do not fit ----------------------------------------------------------

  /** What is left of a response is crossed in one step exactly if the name and the data length, as read, fill it. */
  lemma LastStep(buf: bytes, p: nat)
    requires p < |buf|
    ensures var n := SkipFrom(buf, p);
            Walk(buf, p, |buf|) == Some([p])
            <==> n > p && n + 10 <= |buf| && n + 10 + Word16(buf, n + 8) == |buf|
  {
    hide SkipFrom;
    var n := SkipFrom(buf, p);
    if n > p && n + 10 <= |buf| {
      var next := n + 10 + buf[n + 8] as nat * 256 + buf[n + 9];
      assert next == n + 10 + Word16(buf, n + 8);
      var rest := Walk(buf, next, |buf|);
      assert Walk(buf, p, |buf|) == Onward([p], rest);
      if next == |buf| {
        assert rest == Some([]) && [p] + [] == [p];
      } else if rest.Some? {
        assert |[p] + rest.value| > 1;
      }
    } else {
      assert Walk(buf, p, |buf|) == None;
    }
  }

  /** The same behind complete records. */
  lemma LastRecordWalks(buf: bytes, fz: set<nat>, gs: seq<Group>, lo: nat, p: nat)
    requires GroupsOk(buf, fz, gs) && Consecutive(gs, lo, p) && p < |buf| <= RESPONSE_SIZE
    ensures var n := SkipFrom(buf, p);
            Walk(buf, lo, |buf|) == Some(Starts(gs) + [p])
            <==> n > p && n + 10 <= |buf| && n + 10 + Word16(buf, n + 8) == |buf|
  {
    hide GroupsOk, Consecutive, SkipFrom, Walk;
    WalkSteps(buf, fz, gs, lo, p, |buf|);
    LastStep(buf, p);
    var before, rest := Starts(gs), Walk(buf, p, |buf|);
    if rest.Some? {
      assert (before + rest.value)[|before|..] == rest.value && (before + [p])[|before|..] == [p];
    }
  }

  /** A record with the owner name d, as response.c's callers write it. */
  method PutRecord(b: Builder, d: bytes, ttl: uint32, data: bytes) returns (ok: bool)
    requires b.Valid() && IsName(d)
    modifies b, b.response
    ensures var (named, owner, t) := AddName(old(b.Contents()), old(b.names), d);
            var fixed := owner + [0, 16] + [0, 1] + PackBig(if b.hidettl then 0 else ttl) + [0, 0];
            && (ok <==> named && |fixed| + |data| <= RESPONSE_SIZE)
            && (ok ==> b.Valid() && |fixed| >= 14 && b.Contents() == Finished(fixed + data, |fixed|, RESPONSE_ANSWER)
                       && b.names == t)
    ensures ok ==> |b.groups| == |old(b.groups)| + 1 && b.groups[..|old(b.groups)|] == old(b.groups)
                   && b.groups[|old(b.groups)|].owner.pos == old(b.len)
    ensures b.clean == (old(b.clean) && Clean(old(b.names), d)) && b.tctarget == old(b.tctarget)
    ensures b.hidettl == old(b.hidettl)
  {
    hide AddName, PackBig, Finished, Clean, CountsOk;
    hide Builder.Records;
    ok := b.RStart(d, [0, 16], ttl);
    if !ok { return; }
    ok := b.PutBytes(data);
    if !ok { return; }
    b.RFinish(RESPONSE_ANSWER);
  }

  /** The bytes a reader sees when the owner name is a pointer to position `ptr`. */
  lemma FarBytes(buf: bytes, ptr: nat, ttl: uint32, data: bytes)
    requires 12 <= |buf| && |buf| + 12 + |data| <= RESPONSE_SIZE && PTR_LIMIT <= ptr < RESPONSE_SIZE
    ensures var fixed := buf + Big16(49152 + ptr) + [0, 16] + [0, 1] + PackBig(ttl) + [0, 0];
            var all := Finished(fixed + data, |fixed|, RESPONSE_ANSWER);
            && |fixed| == |buf| + 12 && |all| == |fixed| + |data|
            && (forall q :: 12 <= q < |buf| ==> all[q] == buf[q])
            && all[|buf|] as nat == (ptr - PTR_LIMIT) / 256
            && Word16(all, |buf| + 9) == ttl % 256 * 256 + |data| / 256
  {
    var p := |buf|;
    var fixed := buf + Big16(49152 + ptr) + [0, 16] + [0, 1] + PackBig(ttl) + [0, 0];
    var whole := fixed + data;
    assert whole[p + 9] == PackBig(ttl)[3];
    assert whole[p] == Big16(49152 + ptr)[0];
    var all := Finished(whole, |fixed|, RESPONSE_ANSWER);
    assert all[p + 10] == Big16(|data|)[0];
  }

  /** With complete records in front, and an owner name that is a pointer to a far position. */
  lemma FarWalk(buf: bytes, fz: set<nat>, gs: seq<Group>, lo: nat, ptr: nat, ttl: uint32, data: bytes, all: bytes)
    requires GroupsOk(buf, fz, gs) && Consecutive(gs, lo, |buf|) && FrozenRange(buf, fz)
    requires 12 <= |buf| && |buf| + 12 + |data| <= RESPONSE_SIZE && PTR_LIMIT <= ptr < RESPONSE_SIZE
    requires var fixed := buf + Big16(49152 + ptr) + [0, 16] + [0, 1] + PackBig(ttl) + [0, 0];
             all == Finished(fixed + data, |fixed|, RESPONSE_ANSWER)
    ensures var walks := Walk(all, lo, |all|) == Some(Starts(gs) + [|buf|]);
            && (ptr < PTR_LIMIT + 256 ==> (walks <==> ttl % 256 * 256 + |data| / 256 == |data| + 1))
            && (ptr >= PTR_LIMIT + 64 * 256 ==> !walks)
  {
    FarBytes(buf, ptr, ttl, data);
    hide GroupsOk, Consecutive, Walk, Finished, Big16, PackBig;
    GroupsKept(buf, fz, all, fz, gs);
    LastRecordWalks(all, fz, gs, lo, |buf|);
  }

  /**
   * A record whose owner name is written as a pointer to 16384 or beyond, behind records that are all in order: a
   * reader still finds every record in the first 256 of these positions if the ttl and the data length happen to
   * agree, and from 32768 on never.
   */
  method FarRecord(b: Builder, d: bytes, ttl: uint32, data: bytes) returns (ok: bool)
    requires b.Valid() && b.clean && !b.hidettl && IsName(d) && d[0] != 0
    requires Matching(b.names, d) < |b.names| && b.names[Matching(b.names, d)].ptr >= PTR_LIMIT
    modifies b, b.response
    ensures ok <==> old(b.len) + 12 + |data| <= RESPONSE_SIZE
    ensures ok ==> b.Valid() && !b.clean && |b.groups| == |old(b.groups)| + 1
    ensures ok ==>
              var ptr := old(b.names)[Matching(old(b.names), d)].ptr;
              var walks := Walk(b.Contents(), b.tctarget, b.len) == Some(Starts(b.groups));
              && (ptr < PTR_LIMIT + 256 ==> (walks <==> ttl % 256 * 256 + |data| / 256 == |data| + 1))
              && (ptr >= PTR_LIMIT + 64 * 256 ==> !walks)
  {
    hide Matching, Same, Clean, GroupsOk, Consecutive, CountsOk, Walk, Finished, Big16, PackBig, AllWrittenOk, Good;
    hide AddName, Starts;
    ghost var buf, fz, gs, t := b.Contents(), b.frozen, b.groups, b.names;
    FarName(buf, fz, t, d);
    ok := PutRecord(b, d, ttl, data);
    if ok {
      FarWalk(buf, fz, gs, b.tctarget, t[Matching(t, d)].ptr, ttl, data, b.Contents());
      StartsGrow(gs, b.groups);
    }
  }

  lemma FarName(buf: bytes, fz: set<nat>, t: seq<Known>, d: bytes)
    requires Good(buf, fz, t) && IsName(d) && d[0] != 0
    requires Matching(t, d) < |t| && t[Matching(t, d)].ptr >= PTR_LIMIT
    ensures var ptr := t[Matching(t, d)].ptr;
            && ptr < RESPONSE_SIZE
            && AddName(buf, t, d)
               == if |buf| + 2 <= RESPONSE_SIZE then (true, buf + Big16(49152 + ptr), t) else (false, buf, t)
    ensures !Clean(t, d)
  {
    hide Matching, Same, Big16;
    GoodRows(buf, fz, t, |d|);
  }

  lemma StartsGrow(gs: seq<Group>, gs': seq<Group>)
    requires |gs'| == |gs| + 1 && gs'[..|gs|] == gs
    ensures Starts(gs') == Starts(gs) + [gs'[|gs|].owner.pos]
  {
  }

  /**
   * A response that its reader gets wrong: the name of its second record, at 16384, owns the third record too. The
   * reader finds the three records only if the last one's ttl and data length happen to agree.
   */
  method FarOwner(ttl: uint32, data: bytes) returns (b: Builder)
    requires |data| <= 40000
    ensures b.Valid() && !b.clean && |b.groups| == 3
    ensures Walk(b.Contents(), b.tctarget, b.len) == Some(Starts(b.groups))
            <==> ttl % 256 * 256 + |data| / 256 == |data| + 1
  {
    hide Matching, Same, Clean, GroupsOk, Consecutive, CountsOk, Walk, Finished, Big16, PackBig, AllWrittenOk, Good;
    hide AddName, Starts;
    var d: bytes := [1, 97, 0];
    b := new Builder();
    RootName(HEADER);
    var ok := b.Query([0], [0, 1], [0, 1]);
    RootName(b.Contents());
    ok := PutRecord(b, [0], 0, seq(16356, _ => 0));
    NewName(b.Contents(), d);
    ok := PutRecord(b, d, 0, []);
    ok := FarRecord(b, d, ttl, data);
  }

  lemma RootName(buf: bytes)
    requires |buf| < RESPONSE_SIZE
    ensures IsName([0]) && AddName(buf, [], [0]) == (true, buf + [0], []) && Clean([], [0])
  {
  }

  lemma NewName(buf: bytes, d: bytes)
    requires d == [1, 97, 0] && |buf| + 3 <= RESPONSE_SIZE
    ensures IsName(d) && Clean([], d) && Matching([Known(d, |buf|)], d) == 0
    ensures AddName(buf, [], d) == (true, buf + [1, 97] + [0], [Known(d, |buf|)])
  {
    assert Parent(d) == [0] && d[..2] == [1, 97];
    CleanAtFirst(d);
    var t := Record([], d, |buf|);
    assert t == [Known(d, |buf|)];
    assert AddName(buf + d[..2], t, [0]) == AddLast(buf + d[..2], t, [0]);
    assert AddName(buf, [], d) == AddName(buf + d[..2], t, [0]);
  }

  // --- how each operation keeps the promises ------------------------------------------------------

  /**
   * A reply to an ordinary query (section 4.1.1 of RFC 1035), before it has been given an id: recursion was desired
   * and is available, the answer is not authoritative and not cut off, and the response code is 0.
   */
  predicate IsReply(buf: bytes) {
    && |buf| >= 12 && buf[0] == 0 && buf[1] == 0
    && buf[2] / 128 == 1 && buf[2] / 8 % 16 == 0 && buf[2] / 4 % 2 == 0 && buf[2] / 2 % 2 == 0 && buf[2] % 2 == 1
    && buf[3] / 128 == 1 && buf[3] % 16 == 0
  }

  lemma QuestionFlags(buf: bytes)
    requires HEADER <= buf
    ensures IsReply(buf)
  {
    assert buf[0] == HEADER[0] && buf[1] == HEADER[1] && buf[2] == HEADER[2] && buf[3] == HEADER[3];
  }

  /** After the question there is one question and no record. */
  lemma QuestionCounts(buf: bytes)
    requires HEADER <= buf
    ensures CountsOk(buf, [])
  {
    assert buf[..12] == HEADER;
    forall i | 0 <= i < 12
      ensures buf[i] == HEADER[i]
    {
      assert buf[..12][i] == buf[i];
    }
  }

  lemma SameFrozenKeeps(buf: bytes, fz: set<nat>, buf': bytes)
    requires buf <= buf'
    ensures Keeps(buf, fz, buf', fz)
  {
  }

  lemma CoreGrows(buf: bytes, fz: set<nat>, buf': bytes, fz': set<nat>, t: seq<Known>, ws: seq<Written>)
    requires Keeps(buf, fz, buf', fz') && Good(buf, fz, t) && AllWrittenOk(buf, fz, ws) && |buf'| <= RESPONSE_SIZE
    ensures Good(buf', fz', t) && AllWrittenOk(buf', fz', ws)
  {
    hide RowsOk, AllWrittenOk;
    RowsKept(buf, fz, buf', fz', t);
    WrittenKept(buf, fz, buf', fz', ws);
  }

  lemma CountsGrow(buf: bytes, buf': bytes, gs: seq<Group>)
    requires buf <= buf' && CountsOk(buf, gs)
    ensures CountsOk(buf', gs)
  {
  }

  lemma OneWrittenKept(buf: bytes, fz: set<nat>, buf': bytes, fz': set<nat>, w: Written)
    requires Keeps(buf, fz, buf', fz') && WrittenOk(buf, fz, w)
    ensures WrittenOk(buf', fz', w)
  {
    hide Encoded, Keeps;
    EncodedKept(buf, fz, buf', fz', w.pos, w.name);
  }

  /** What comes behind an owner name disturbs neither it nor the records in front. */
  lemma RecordBegun(buf: bytes, fz: set<nat>, mid: bytes, fz': set<nat>, last: bytes, gs: seq<Group>, w: Written)
    requires Keeps(buf, fz, mid, fz') && mid <= last && GroupsOk(buf, fz, gs) && WrittenOk(mid, fz', w)
    ensures GroupsOk(last, fz', gs) && WrittenOk(last, fz', w)
  {
    hide Keeps, GroupsOk, WrittenOk;
    GroupsKept(buf, fz, mid, fz', gs);
    SameFrozenKeeps(mid, fz', last);
    GroupsKept(mid, fz', last, fz', gs);
    OneWrittenKept(mid, fz', last, fz', w);
  }

  lemma NamesAreNames(buf: bytes, fz: set<nat>, t: seq<Known>)
    requires Good(buf, fz, t)
    ensures forall j :: 0 <= j < |t| ==> IsName(t[j].name)
  {
    hide Direct;
    forall j | 0 <= j < |t|
      ensures IsName(t[j].name)
    {
      assert RowOk(buf, fz, t[j]);
    }
  }

  lemma FreezeRange(buf: bytes, fz: set<nat>, buf': bytes)
    requires FrozenRange(buf, fz) && buf <= buf' && |buf| >= 12
    ensures FrozenRange(buf', Freeze(fz, |buf|, |buf'|))
    ensures forall p: nat :: p < |buf| ==> (p in Freeze(fz, |buf|, |buf'|) <==> p in fz)
  {
    hide Range;
  }

  lemma NotFrozen(buf: bytes, fz: set<nat>, p: nat)
    requires FrozenRange(buf, fz) && p >= |buf|
    ensures p !in fz
  {
  }

  lemma NameWritten(buf: bytes, fz: set<nat>, t: seq<Known>, d: bytes)
    requires IsName(d) && Good(buf, fz, t) && AddName(buf, t, d).0 && Clean(t, d)
    ensures var buf' := AddName(buf, t, d).1;
            WrittenOk(buf', Freeze(fz, |buf|, |buf'|), Written(|buf|, d, |buf'|))
  {
    hide Encoded, AddName, Clean, Good, Freeze;
    GoodRows(buf, fz, t, |d|);
    AddNameEncodes(buf, fz, t, d);
  }

  lemma AppendWritten(buf: bytes, fz: set<nat>, ws: seq<Written>, w: Written)
    requires AllWrittenOk(buf, fz, ws) && WrittenOk(buf, fz, w)
    ensures AllWrittenOk(buf, fz, ws + [w])
  {
    hide WrittenOk;
  }

  lemma LastWritten(buf: bytes, fz: set<nat>, ws: seq<Written>)
    requires AllWrittenOk(buf, fz, ws) && ws != []
    ensures WrittenOk(buf, fz, ws[|ws| - 1])
  {
    hide WrittenOk;
  }

  /** With an empty table no pointer is needed: the name's own suffixes all differ in length. */
  lemma {:induction false} CleanAtFirst(d: bytes)
    requires IsName(d)
    ensures Clean([], d)
    decreases |d|
  {
    if d[0] != 0 {
      CleanAtFirst(Parent(d));
    }
  }

  lemma GroupFinished(buf: bytes, fz: set<nat>, dpos: nat, x: nat, gs: seq<Group>, g: Group)
    requires 14 <= dpos <= |buf| && x + 1 < 12 && FrozenRange(buf, fz)
    requires dpos - 2 !in fz && dpos - 1 !in fz
    requires GroupsOk(buf, fz, gs) && WrittenOk(buf, fz, g.owner)
    requires g.owner.pos < g.owner.end && g.owner.end + 10 == dpos && g.end == |buf|
    ensures GroupsOk(Finished(buf, dpos, x), Freeze(fz, dpos - 2, dpos), gs + [g])
  {
    hide GroupsOk, WrittenOk, Finished, Big16, Freeze;
    var buf', fz' := Finished(buf, dpos, x), Freeze(fz, dpos - 2, dpos);
    FinishedKeeps(buf, fz, dpos, x);
    GroupsKept(buf, fz, buf', fz', gs);
    OneWrittenKept(buf, fz, buf', fz', g.owner);
    Freezes(fz, dpos - 2, dpos);
    GroupsAppend(buf', fz', gs, g);
  }

  lemma GroupsAppend(buf: bytes, fz: set<nat>, gs: seq<Group>, g: Group)
    requires GroupsOk(buf, fz, gs) && GroupOk(buf, fz, g)
    ensures GroupsOk(buf, fz, gs + [g])
  {
    hide GroupOk;
  }

  /** Changing the first four bytes disturbs nothing. */
  lemma HeaderEdited(buf: bytes, fz: set<nat>, buf': bytes, t: seq<Known>, ws: seq<Written>, gs: seq<Group>)
    requires |buf| == |buf'| >= 12 && buf[4..] == buf'[4..] && FrozenRange(buf, fz)
    requires Good(buf, fz, t) && AllWrittenOk(buf, fz, ws)
    ensures Good(buf', fz, t) && AllWrittenOk(buf', fz, ws) && FrozenRange(buf', fz)
    ensures GroupsOk(buf, fz, gs) ==> GroupsOk(buf', fz, gs)
    ensures CountsOk(buf, gs) ==> CountsOk(buf', gs)
  {
    hide Good, AllWrittenOk, GroupsOk;
    forall p: nat | 4 <= p < |buf|
      ensures buf'[p] == buf[p]
    {
      assert buf[4..][p - 4] == buf'[4..][p - 4];
    }
    GoodLength(buf, fz, t);
    CoreGrows(buf, fz, buf', fz, t, ws);
    if GroupsOk(buf, fz, gs) {
      GroupsKept(buf, fz, buf', fz, gs);
    }
  }

  lemma {:induction false} MatchingIs(t: seq<Known>, d: bytes, i: nat)
    requires i <= |t| && (forall j :: 0 <= j < i ==> !Same(d, t[j].name))
    requires i < |t| ==> Same(d, t[i].name)
    ensures Matching(t, d) == i
  {
  }
}
