/** tinydns-data.c (rr_start .. rr_finish) and tdlookup.c (find): records written into and read from a database. */
module TinyDns {
  import opened Bytes
  import opened Domain
  import opened Buffer
  import opened CdbFormat
  import opened CdbMake
  import opened Cdb
  import opened CdbRoundTrip

  const DATA_SIZE := 32767

  /** A record as tinydns-data knows it. A zero ttd means no time stamp, a zero loc every location. */
  datatype RR = RR(owner: bytes, rtype: bytes, ttl: nat, ttd: bytes, loc: bytes, rdata: bytes)

  predicate RROk(r: RR) {
    && IsName(r.owner) && |r.owner| < TWO32
    && |r.rtype| == 2 && |r.ttd| == 8 && |r.loc| == 2 && |r.rdata| + 32 < TWO32
  }

  /** "\1*": the owner begins with the wildcard label. */
  predicate IsWild(owner: bytes) {
    |owner| >= 2 && owner[0] == 1 && owner[1] == 42
  }

  /** The key a record is stored under: its lower-cased owner without the wildcard label. */
  function KeyOf(owner: bytes): bytes {
    LowerAll(if IsWild(owner) then owner[2..] else owner)
  }

  /** What rr_start has written. */
  function Start(r: RR): bytes
    requires RROk(r)
  {
    r.rtype + (if r.loc == [0, 0] then [61] else [62] + r.loc) + PackBig(W32(r.ttl)) + r.ttd
  }

  /** The stored data: "=" becomes "*" and ">" becomes "+" for a wildcard. */
  function DataOf(r: RR): bytes
    requires RROk(r)
  {
    var s := Start(r) + r.rdata;
    if IsWild(r.owner) then s[2 := s[2] - 19] else s
  }

  /** The record the lookup must deliver: type, ttl and data. */
  datatype Answer = Answer(rtype: bytes, ttl: uint32, rdata: bytes)

  /** One record inspected by find: unreadable, not wanted, or found. */
  datatype Verdict = Unreadable | Unwanted | Found(a: Answer)

  /** Remaining seconds until the cutoff, clamped to 2..3600. */
  function Remaining(cutoff: uint64, now: uint64): uint32
    requires now <= cutoff
  {
    if cutoff - now <= 2 then 2 else if cutoff - now >= 3600 then 3600 else cutoff - now
  }

  /** The body of the loop in find, applied to the data of one record. */
  function Inspect(data: bytes, flagwild: bool, clientloc: bytes, now: uint64): Verdict {
    if |data| > DATA_SIZE || |data| < 3 then Unreadable
    else
      var located := data[2] == 62 || data[2] == 43;
      var ch: int := if located then data[2] as int - 1 else data[2] as int;
      var pos := if located then 5 else 3;
      if located && |data| < 5 then Unreadable
      else if located && data[3..5] != clientloc then Unwanted
      else if flagwild != (ch == 42) then Unwanted
      else if |data| < pos + 12 then Unreadable
      else
        var ttl := UnpackBig(data[pos..pos + 4]);
        var ttd := data[pos + 4..pos + 12];
        var rest := data[pos + 12..];
        if ttd == [0, 0, 0, 0, 0, 0, 0, 0] then Found(Answer(data[..2], ttl, rest))
        else
          var cutoff := UnpackTai(ttd);
          if ttl == 0 then
            if cutoff < now then Unwanted else Found(Answer(data[..2], Remaining(cutoff, now), rest))
          else if cutoff >= now then Unwanted else Found(Answer(data[..2], ttl, rest))
  }

  // --- what was written is what is inspected ------------------------------------------------------

  /** The client may see the record: it has no location or the client's. */
  predicate InLocation(r: RR, clientloc: bytes) {
    r.loc == [0, 0] || r.loc == clientloc
  }

  predicate NoStamp(r: RR) {
    r.ttd == [0, 0, 0, 0, 0, 0, 0, 0]
  }

  /** The time window: with ttl 0 the record ends at its time stamp, otherwise it begins there. */
  predicate InTime(r: RR, now: uint64)
    requires RROk(r)
  {
    NoStamp(r) || if W32(r.ttl) == 0 then now <= UnpackTai(r.ttd) else UnpackTai(r.ttd) < now
  }

  function TtlOf(r: RR, now: uint64): uint32
    requires RROk(r) && InTime(r, now)
  {
    if W32(r.ttl) == 0 && !NoStamp(r) then Remaining(UnpackTai(r.ttd), now) else W32(r.ttl)
  }

  /** What find makes of a record that rr_start .. rr_finish wrote. */
  function Expected(r: RR, flagwild: bool, clientloc: bytes, now: uint64): Verdict
    requires RROk(r)
  {
    if |DataOf(r)| > 32767 then Unreadable
    else if InLocation(r, clientloc) && flagwild == IsWild(r.owner) && InTime(r, now)
    then Found(Answer(r.rtype, TtlOf(r, now), r.rdata))
    else Unwanted
  }

  lemma DataParts(r: RR)
    requires RROk(r)
    ensures var d, pos := DataOf(r), if r.loc == [0, 0] then 3 else 5;
            && |d| == pos + 12 + |r.rdata| && d[..2] == r.rtype
            && d[2] == (if r.loc == [0, 0] then 61 else 62) - (if IsWild(r.owner) then 19 else 0)
            && (r.loc != [0, 0] ==> d[3..5] == r.loc)
            && d[pos..pos + 4] == PackBig(W32(r.ttl)) && d[pos + 4..pos + 12] == r.ttd
            && d[pos + 12..] == r.rdata
  {
    hide PackBig, W32;
  }

  /** The ttl of an answer: the record's own, or what is left until its time stamp, at least 2 and at most 3600. */
  predicate RightTtl(r: RR, now: uint64, ttl: uint32)
    requires |r.ttd| == 8
  {
    if r.ttl % 0x1_0000_0000 != 0 || r.ttd == [0, 0, 0, 0, 0, 0, 0, 0] then ttl == r.ttl % 0x1_0000_0000
    else
      var left := StampOf(r.ttd) - now;
      && left >= 0 && 2 <= ttl <= 3600
      && (2 <= left <= 3600 ==> ttl == left) && (left < 2 ==> ttl == 2) && (left > 3600 ==> ttl == 3600)
  }

  /** A time stamp is a number of eight digits to the base 256. */
  function StampOf(ttd: bytes): int {
    if ttd == [] then 0 else StampOf(ttd[..|ttd| - 1]) * 256 + ttd[|ttd| - 1]
  }

  lemma StampRead(ttd: bytes)
    requires |ttd| == 8
    ensures StampOf(ttd) == UnpackTai(ttd)
  {
    assert StampOf([]) == 0;
    forall k | 0 <= k < 8
      ensures StampOf(ttd[..k + 1]) == StampOf(ttd[..k]) * 256 + ttd[k]
    {
      assert ttd[..k + 1][..k] == ttd[..k];
    }
    assert ttd[..8] == ttd;
  }

  /**
   * Decoding inverts encoding, and filters exactly by location, wildcard flag and time window. A record that is found
   * has the right ttl.
   */
  lemma InspectWritten(r: RR, flagwild: bool, clientloc: bytes, now: uint64)
    requires RROk(r) && |clientloc| == 2
    ensures Inspect(DataOf(r), flagwild, clientloc, now) == Expected(r, flagwild, clientloc, now)
    ensures var v := Inspect(DataOf(r), flagwild, clientloc, now); v.Found? ==> RightTtl(r, now, v.a.ttl)
  {
    StampRead(r.ttd);
    InspectEncoded(r, flagwild, clientloc, now);
    hide Inspect, DataOf, StampOf, UnpackTai;
  }

  lemma InspectEncoded(r: RR, flagwild: bool, clientloc: bytes, now: uint64)
    requires RROk(r) && |clientloc| == 2
    ensures Inspect(DataOf(r), flagwild, clientloc, now) == Expected(r, flagwild, clientloc, now)
  {
    hide PackBig, UnpackBig, W32, DataOf, UnpackTai, Remaining;
    DataParts(r);
    UnpackPackBig(W32(r.ttl));
  }

  /** The database record of a tinydns record. */
  function RecOf(r: RR): Rec
    requires RROk(r)
  {
    Rec(KeyOf(r.owner), DataOf(r))
  }

  /** The records of a data file, in order. */
  function RecsOf(rs: seq<RR>): seq<Rec>
    requires forall i :: 0 <= i < |rs| ==> RROk(rs[i])
  {
    if rs == [] then [] else RecsOf(rs[..|rs| - 1]) + [RecOf(rs[|rs| - 1])]
  }

  /** The static variables of tinydns-data.c around one database. */
  class Compiler {
    const cdb: Maker
    var key: bytes
    var result: bytes

    constructor (cdb: Maker)
      ensures this.cdb == cdb
    {
      this.cdb := cdb;
      key, result := [], [];
    }

    method RrAdd(buf: bytes)
      modifies `result
      ensures result == old(result) + buf
    {
      result := result + buf;
    }

    method RrAddName(d: bytes)
      requires IsName(d)
      modifies `result
      ensures result == old(result) + d
    {
      var len := Length(d);
      RrAdd(d[..len]);
    }

    method RrStart(rtype: bytes, ttl: nat, ttd: bytes, loc: bytes)
      requires |rtype| == 2 && |loc| == 2
      modifies `result
      ensures result == rtype + (if loc == [0, 0] then [61] else [62] + loc) + PackBig(W32(ttl)) + ttd
    {
      hide PackBig;
      result := rtype;
      if loc == [0, 0] {
        RrAdd([61]);
      } else {
        RrAdd([62]);
        RrAdd(loc);
      }
      var buf := PackBig(W32(ttl));
      RrAdd(buf);
      RrAdd(ttd);
    }

    /** rr_finish, called with the whole record in result. */
    method RrFinish(owner: bytes, ghost r: RR) returns (ok: bool)
      requires RROk(r) && r.owner == owner && result == Start(r) + r.rdata && cdb.Valid()
      modifies this, cdb, cdb.b, cdb.b.x, cdb.file`log, cdb.file`stalls
      ensures ok ==> cdb.Valid()
      ensures cdb.records == old(cdb.records) + [RecOf(r)]
    {
      hide PackBig;
      var name := owner;
      StartLength(r);
      if IsWild(name) {
        WildParent(name);
        name := name[2..];
        result := result[2 := result[2] - 19];
      }
      var len := Length(name);
      key := LowerAll(name[..len]);
      assert name[..len] == name;
      ok := cdb.Add(Rec(key, result));
    }

    /** All of one line: rr_start, the data, rr_finish. */
    method Compile(r: RR) returns (ok: bool)
      requires RROk(r) && cdb.Valid()
      modifies this, cdb, cdb.b, cdb.b.x, cdb.file`log, cdb.file`stalls
      ensures ok ==> cdb.Valid()
      ensures cdb.records == old(cdb.records) + [RecOf(r)]
    {
      RrStart(r.rtype, r.ttl, r.ttd, r.loc);
      RrAdd(r.rdata);
      ok := RrFinish(r.owner, r);
    }
  }

  lemma StartLength(r: RR)
    requires RROk(r)
    ensures 15 <= |Start(r)| <= 17 && (Start(r)[2] == 61 || Start(r)[2] == 62)
    ensures |Start(r) + r.rdata| < TWO32
  {
    hide PackBig, W32;
  }

  lemma WildParent(d: bytes)
    requires IsName(d) && IsWild(d)
    ensures IsName(d[2..])
  {
    assert Parent(d) == d[2..];
  }

  // --- looking up ---------------------------------------------------------------------------------

  /** find on the data still to come: its return value, its answer, and what then remains. */
  datatype Lookup = Failed | NoMore | Answered(a: Answer, rest: seq<bytes>)

  function FindIn(ds: seq<bytes>, flagwild: bool, clientloc: bytes, now: uint64): Lookup {
    if ds == [] then NoMore
    else
      match Inspect(ds[0], flagwild, clientloc, now)
      case Unreadable => Failed
      case Unwanted => FindIn(ds[1..], flagwild, clientloc, now)
      case Found(a) => Answered(a, ds[1..])
  }

  /** find: r < 0 for failure, 0 for no more records, 1 for a record. */
  method Find(c: Reader, d: chunk, flagwild: bool, clientloc: bytes, now: uint64,
              ghost rs: seq<Rec>, ghost ds: seq<bytes>) returns (r: int, a: Answer, ghost rest: seq<bytes>)
    requires |clientloc| == 2 && c.file == Image(rs) && |Image(rs)| < TWO32 && ToCome(rs, d, c.State(), ds)
    modifies c
    ensures ToCome(rs, d, c.State(), rest) && |rest| <= |ds|
    ensures match FindIn(ds, flagwild, clientloc, now)
            case Failed => r == -1
            case NoMore => r == 0
            case Answered(b, ds') => r == 1 && a == b && rest == ds'
  {
    hide Image, ToCome, Next, Inspect;
    rest := ds;
    a := Answer([], 0, []);
    while true
      invariant ToCome(rs, d, c.State(), rest) && |rest| <= |ds|
      invariant FindIn(rest, flagwild, clientloc, now) == FindIn(ds, flagwild, clientloc, now)
      decreases |rest|
    {
      NextFinds(rs, d, c.State(), rest);
      var found := c.FindNext(d);
      if found != Present {
        r := 0;
        return;
      }
      ghost var data := rest[0];
      rest := rest[1..];
      if c.dlen > DATA_SIZE {
        DataTooLong(data, flagwild, clientloc, now);
        r := -1;
        return;
      }
      var buf := c.Read(c.dlen, c.dpos);
      PointedRead(c.file, c.State(), data);
      var verdict := InspectData(buf.value, flagwild, clientloc, now);
      match verdict
      case Unreadable =>
        r := -1;
        return;
      case Unwanted =>
      case Found(b) =>
        r, a := 1, b;
        return;
    }
  }

  lemma DataTooLong(data: bytes, flagwild: bool, clientloc: bytes, now: uint64)
    requires |data| > DATA_SIZE
    ensures Inspect(data, flagwild, clientloc, now) == Unreadable
  {
  }

  lemma PointedRead(file: bytes, c: Cursor, d: bytes)
    requires PointsTo(file, c, d)
    ensures ReadAt(file, c.dlen, c.dpos) == Some(d) && |d| == c.dlen
  {
  }

  /** The decoding steps of find, one dns_packet_copy after the other. */
  method InspectData(data: bytes, flagwild: bool, clientloc: bytes, now: uint64) returns (v: Verdict)
    requires |data| <= DATA_SIZE && |clientloc| == 2
    ensures v == Inspect(data, flagwild, clientloc, now)
  {
    hide UnpackBig, UnpackTai;
    if 2 > |data| { return Unreadable; }
    var rtype := data[..2];
    if 3 > |data| { return Unreadable; }
    var ch: int := data[2];
    var dpos := 3;
    if ch == 61 + 1 || ch == 42 + 1 {
      ch := ch - 1;
      if dpos + 2 > |data| { return Unreadable; }
      var recordloc := data[dpos..dpos + 2];
      dpos := dpos + 2;
      if recordloc != clientloc { return Unwanted; }
    }
    if flagwild != (ch == 42) { return Unwanted; }
    if dpos + 4 > |data| { return Unreadable; }
    var ttl := UnpackBig(data[dpos..dpos + 4]);
    dpos := dpos + 4;
    if dpos + 8 > |data| { return Unreadable; }
    var ttd := data[dpos..dpos + 8];
    dpos := dpos + 8;
    if ttd != [0, 0, 0, 0, 0, 0, 0, 0] {
      var cutoff := UnpackTai(ttd);
      if ttl == 0 {
        if cutoff < now { return Unwanted; }
        ttl := Remaining(cutoff, now);
      } else {
        if cutoff >= now { return Unwanted; }
      }
    }
    return Found(Answer(rtype, ttl, data[dpos..]));
  }

  // --- a whole data file --------------------------------------------------------------------------

  /** All answers that calling find until it returns 0 gives. */
  function AnswersIn(ds: seq<bytes>, flagwild: bool, clientloc: bytes, now: uint64): seq<Answer>
    decreases |ds|
  {
    match FindIn(ds, flagwild, clientloc, now)
    case Answered(a, rest) =>
      FindShrinks(ds, flagwild, clientloc, now);
      [a] + AnswersIn(rest, flagwild, clientloc, now)
    case _ => []
  }

  lemma {:induction false} FindShrinks(ds: seq<bytes>, flagwild: bool, clientloc: bytes, now: uint64)
    ensures var l := FindIn(ds, flagwild, clientloc, now); l.Answered? ==> |l.rest| < |ds|
  {
    hide Inspect;
    if ds != [] && Inspect(ds[0], flagwild, clientloc, now) == Unwanted {
      FindShrinks(ds[1..], flagwild, clientloc, now);
    }
  }

  /** The records of the file that a query for d must be answered with, in file order. */
  function AnswersFor(rs: seq<RR>, d: bytes, flagwild: bool, clientloc: bytes, now: uint64): seq<Answer>
    requires forall i :: 0 <= i < |rs| ==> RROk(rs[i])
  {
    if rs == [] then []
    else
      var r := rs[|rs| - 1];
      AnswersFor(rs[..|rs| - 1], d, flagwild, clientloc, now)
      + (if KeyOf(r.owner) == d && InLocation(r, clientloc) && flagwild == IsWild(r.owner) && InTime(r, now)
         then [Answer(r.rtype, TtlOf(r, now), r.rdata)] else [])
  }

  /** No record under d is too long for the lookup's buffer. */
  predicate Fits(rs: seq<RR>, d: bytes)
    requires forall i :: 0 <= i < |rs| ==> RROk(rs[i])
  {
    forall i :: 0 <= i < |rs| && KeyOf(rs[i].owner) == d ==> |DataOf(rs[i])| <= 32767
  }

  /** How many records of the file come before the first one under d that is too long. */
  function Reach(rs: seq<RR>, d: bytes): (k: nat)
    requires forall i :: 0 <= i < |rs| ==> RROk(rs[i])
    ensures k <= |rs|
  {
    if rs == [] then 0
    else
      var init, r := rs[..|rs| - 1], rs[|rs| - 1];
      var k := Reach(init, d);
      if k == |init| && !TooLong(r, d) then |rs| else k
  }

  predicate TooLong(r: RR, d: bytes)
    requires RROk(r)
  {
    KeyOf(r.owner) == d && |DataOf(r)| > 32767
  }

  /** All of the file is reached exactly if no record under d is too long. */
  lemma {:induction false} ReachAll(rs: seq<RR>, d: bytes)
    requires forall i :: 0 <= i < |rs| ==> RROk(rs[i])
    ensures Reach(rs, d) == |rs| <==> Fits(rs, d)
  {
    hide RROk, KeyOf, DataOf;
    if rs != [] {
      var init, r := rs[..|rs| - 1], rs[|rs| - 1];
      ReachAll(init, d);
      assert forall i :: 0 <= i < |init| ==> init[i] == rs[i];
      assert rs[|init|] == r;
    }
  }

  /** None of the data makes find fail. */
  predicate AllReadable(ds: seq<bytes>, flagwild: bool, clientloc: bytes, now: uint64) {
    forall i :: 0 <= i < |ds| ==> Inspect(ds[i], flagwild, clientloc, now) != Unreadable
  }

  function AnswerOf(v: Verdict): seq<Answer> {
    match v case Found(a) => [a] case _ => []
  }

  lemma {:induction false} AnswersStep(ds: seq<bytes>, flagwild: bool, clientloc: bytes, now: uint64)
    requires ds != []
    ensures AnswersIn(ds, flagwild, clientloc, now)
         == if Inspect(ds[0], flagwild, clientloc, now) == Unreadable then []
            else AnswerOf(Inspect(ds[0], flagwild, clientloc, now)) + AnswersIn(ds[1..], flagwild, clientloc, now)
  {
    hide Inspect;
    if Inspect(ds[0], flagwild, clientloc, now) == Unwanted {
      assert [] + AnswersIn(ds[1..], flagwild, clientloc, now) == AnswersIn(ds[1..], flagwild, clientloc, now);
    }
  }

  /** One more datum counts only if find gets as far as it. */
  lemma {:induction false} AnswersSnoc(ds: seq<bytes>, x: bytes, flagwild: bool, clientloc: bytes, now: uint64)
    ensures AnswersIn(ds + [x], flagwild, clientloc, now)
         == AnswersIn(ds, flagwild, clientloc, now)
            + if AllReadable(ds, flagwild, clientloc, now) then AnswerOf(Inspect(x, flagwild, clientloc, now)) else []
    decreases |ds|
  {
    hide Inspect, AnswersIn;
    var all := ds + [x];
    AnswersStep(all, flagwild, clientloc, now);
    if ds == [] {
      assert all[1..] == [];
      NoAnswers(flagwild, clientloc, now);
    } else {
      assert all[1..] == ds[1..] + [x];
      AnswersStep(ds, flagwild, clientloc, now);
      AnswersSnoc(ds[1..], x, flagwild, clientloc, now);
      ReadableFirst(ds, flagwild, clientloc, now);
    }
  }

  lemma ReadableFirst(ds: seq<bytes>, flagwild: bool, clientloc: bytes, now: uint64)
    requires ds != []
    ensures AllReadable(ds, flagwild, clientloc, now)
       <==> Inspect(ds[0], flagwild, clientloc, now) != Unreadable && AllReadable(ds[1..], flagwild, clientloc, now)
  {
    hide Inspect;
    assert ds == [ds[0]] + ds[1..];
  }

  lemma NoAnswers(flagwild: bool, clientloc: bytes, now: uint64)
    ensures AnswersIn([], flagwild, clientloc, now) == []
  {
  }

  /**
   * Looking a name up in the compiled file gives exactly the records that the file has for it before the first one
   * that is too long, and fails if and only if there is such a record.
   */
  lemma {:induction false} CompiledAnswers(rs: seq<RR>, d: bytes, flagwild: bool, clientloc: bytes, now: uint64)
    requires (forall i :: 0 <= i < |rs| ==> RROk(rs[i])) && |clientloc| == 2
    ensures var ds := DataUnder(RecsOf(rs), d);
            && (AllReadable(ds, flagwild, clientloc, now) <==> Fits(rs, d))
            && AnswersIn(ds, flagwild, clientloc, now) == AnswersFor(rs[..Reach(rs, d)], d, flagwild, clientloc, now)
  {
    hide Inspect, KeyOf, DataOf, TtlOf, InTime, AnswersIn, RROk, Fits, AllReadable, DataUnder;
    ReachAll(rs, d);
    if rs == [] {
      NoneCompiled(d, flagwild, clientloc, now);
    } else {
      var init, r := rs[..|rs| - 1], rs[|rs| - 1];
      CompiledAnswers(init, d, flagwild, clientloc, now);
      ReachAll(init, d);
      DataUnderAdded(RecsOf(init), RecOf(r), d);
      InspectWritten(r, flagwild, clientloc, now);
      var ds := DataUnder(RecsOf(init), d);
      assert rs[..Reach(rs, d)] == if Reach(rs, d) == |rs| then rs else init[..Reach(init, d)];
      assert init[..|init|] == init;
      if KeyOf(r.owner) == d {
        AllReadableSnoc(ds, DataOf(r), flagwild, clientloc, now);
        AnswersSnoc(ds, DataOf(r), flagwild, clientloc, now);
      } else {
        assert ds + [] == ds;
      }
    }
  }

  lemma NoneCompiled(d: bytes, flagwild: bool, clientloc: bytes, now: uint64)
    ensures DataUnder(RecsOf([]), d) == [] && AllReadable([], flagwild, clientloc, now)
    ensures AnswersIn([], flagwild, clientloc, now) == AnswersFor([], d, flagwild, clientloc, now) == []
  {
    NoAnswers(flagwild, clientloc, now);
  }

  lemma AllReadableSnoc(ds: seq<bytes>, x: bytes, flagwild: bool, clientloc: bytes, now: uint64)
    ensures AllReadable(ds + [x], flagwild, clientloc, now)
       <==> AllReadable(ds, flagwild, clientloc, now) && Inspect(x, flagwild, clientloc, now) != Unreadable
  {
    hide Inspect;
    var all := ds + [x];
    assert all[|ds|] == x && forall i :: 0 <= i < |ds| ==> all[i] == ds[i];
  }

  /** An address record for "a" with 32767 bytes of data. tinydns-data stores it. */
  const LONG: RR := RR([1, 97, 0], [0, 1], 0, [0, 0, 0, 0, 0, 0, 0, 0], [0, 0], seq(32767, _ => 0))

  /** It makes every lookup of its name fail at once, whatever the file has for the name after it. */
  lemma LongRecordFails(ds: seq<bytes>, flagwild: bool, clientloc: bytes, now: uint64)
    ensures RROk(LONG) && !Fits([LONG], KeyOf(LONG.owner))
    ensures FindIn([DataOf(LONG)] + ds, flagwild, clientloc, now) == Failed
  {
    assert Parent(LONG.owner) == [0];
    assert [LONG][0] == LONG;
    DataParts(LONG);
    DataTooLong(DataOf(LONG), flagwild, clientloc, now);
    assert ([DataOf(LONG)] + ds)[0] == DataOf(LONG);
  }

  /** The client sees this record: it is in its location and in its time. */
  predicate Seen(r: RR, clientloc: bytes, now: uint64)
    requires |r.ttd| == 8
  {
    && (r.loc == [0, 0] || r.loc == clientloc)
    && (r.ttd == [0, 0, 0, 0, 0, 0, 0, 0]
        || if r.ttl % 0x1_0000_0000 == 0 then now <= StampOf(r.ttd) else StampOf(r.ttd) < now)
  }

  /** The record is owned by d itself, or by all names under d. */
  ghost predicate Under(r: RR, d: bytes, flagwild: bool) {
    if flagwild then exists e :: r.owner == [1, 42] + e && LowerAll(e) == d
    else LowerAll(r.owner) == d && !([1, 42] <= r.owner)
  }

  /** One more record adds its type, ttl and data to the answers, if it is one to answer with, and nothing else. */
  lemma OneMoreAnswered(rs: seq<RR>, r: RR, d: bytes, flagwild: bool, clientloc: bytes, now: uint64)
    requires (forall i :: 0 <= i < |rs + [r]| ==> RROk((rs + [r])[i])) && RROk(r)
    requires forall i :: 0 <= i < |rs| ==> RROk(rs[i])
    ensures var before, after := AnswersFor(rs, d, flagwild, clientloc, now),
                                 AnswersFor(rs + [r], d, flagwild, clientloc, now);
            if Under(r, d, flagwild) && Seen(r, clientloc, now) then
              exists ttl: uint32 :: RightTtl(r, now, ttl) && after == before + [Answer(r.rtype, ttl, r.rdata)]
            else after == before
  {
    hide StampOf, UnpackTai;
    StampRead(r.ttd);
    assert (rs + [r])[..|rs|] == rs;
    UnderMeans(r, d, flagwild);
    if Under(r, d, flagwild) && Seen(r, clientloc, now) {
      assert RightTtl(r, now, TtlOf(r, now));
    }
  }

  lemma UnderMeans(r: RR, d: bytes, flagwild: bool)
    requires RROk(r)
    ensures Under(r, d, flagwild) <==> KeyOf(r.owner) == d && flagwild == IsWild(r.owner)
  {
    if IsWild(r.owner) {
      assert r.owner == [1, 42] + r.owner[2..];
    }
    forall e | r.owner == [1, 42] + e
      ensures e == r.owner[2..]
    {
    }
  }

  /** Compiles a data file, one line after the other. */
  method CompileAll(rs: seq<RR>, stalls: nat) returns (ok: bool, image: bytes)
    requires forall i :: 0 <= i < |rs| ==> RROk(rs[i])
    ensures ok ==> image == Image(RecsOf(rs)) && |image| < TWO32
  {
    hide Image, RROk, RecOf, DataOf, RecsOf;
    image := [];
    var file := new File(stalls);
    var maker;
    ok, maker := Maker.Start(file);
    if !ok { return; }
    var compiler := new Compiler(maker);
    NoRecs();
    for i := 0 to |rs|
      invariant maker.Valid() && maker.records == RecsOf(rs[..i])
      invariant fresh(file) && fresh(maker) && fresh(maker.b) && fresh(maker.b.x) && maker.file == file
      invariant fresh(compiler) && compiler.cdb == maker
    {
      ok := compiler.Compile(rs[i]);
      if !ok { return; }
      RecsOfSnoc(rs, i);
    }
    assert rs[..|rs|] == rs;
    ok := maker.Finish();
    if ok { image := file.Contents(); }
  }

  lemma NoRecs()
    ensures RecsOf([]) == []
  {
  }

  lemma RecsOfSnoc(rs: seq<RR>, i: nat)
    requires i < |rs| && forall i :: 0 <= i < |rs| ==> RROk(rs[i])
    ensures RecsOf(rs[..i + 1]) == RecsOf(rs[..i]) + [RecOf(rs[i])]
  {
    assert rs[..i + 1][..i] == rs[..i];
  }

  /**
   * Compiles a data file and looks a name up. The lookup succeeds if and only if no record under the name is too
   * long; the answers are the file's records for that name (or wildcard), location and time, in file order, up to the
   * first record that is too long.
   */
  method CompileAndFind(rs: seq<RR>, d: chunk, flagwild: bool, clientloc: bytes, now: uint64, stalls: nat)
    returns (compiled: bool, ok: bool, found: seq<Answer>)
    requires (forall i :: 0 <= i < |rs| ==> RROk(rs[i])) && |clientloc| == 2
    ensures compiled ==> (ok <==> Fits(rs, d))
    ensures compiled ==> found == AnswersFor(rs[..Reach(rs, d)], d, flagwild, clientloc, now)
  {
    hide Image, RROk, DataUnder, AnswersIn, Fits, AnswersFor, AllReadable, Reach;
    ok, found := false, [];
    var image;
    compiled, image := CompileAll(rs, stalls);
    if !compiled { return; }
    ok, found := FindAll(image, RecsOf(rs), d, flagwild, clientloc, now);
    CompiledAnswers(rs, d, flagwild, clientloc, now);
  }

  /** cdb_findstart and find until it returns 0. */
  method FindAll(image: bytes, ghost recs: seq<Rec>, d: chunk, flagwild: bool, clientloc: bytes, now: uint64)
    returns (ok: bool, found: seq<Answer>)
    requires image == Image(recs) && |image| < TWO32 && |clientloc| == 2
    ensures found == AnswersIn(DataUnder(recs, d), flagwild, clientloc, now)
    ensures ok <==> AllReadable(DataUnder(recs, d), flagwild, clientloc, now)
  {
    hide Image, DataUnder, ToCome, FindIn, AnswersIn, AllReadable;
    found := [];
    var reader := new Reader(image);
    reader.FindStart();
    ghost var ds := DataUnder(recs, d);
    NothingFoundYet(recs, d, reader.State());
    while true
      invariant reader.file == image && fresh(reader) && ToCome(recs, d, reader.State(), ds)
      invariant found + AnswersIn(ds, flagwild, clientloc, now)
             == AnswersIn(DataUnder(recs, d), flagwild, clientloc, now)
      invariant AllReadable(DataUnder(recs, d), flagwild, clientloc, now) <==> AllReadable(ds, flagwild, clientloc, now)
      decreases |ds|
    {
      FindShrinks(ds, flagwild, clientloc, now);
      AnswersUnfold(ds, flagwild, clientloc, now);
      ReadableNext(ds, flagwild, clientloc, now);
      var r, a;
      ghost var rest;
      r, a, rest := Find(reader, d, flagwild, clientloc, now, recs, ds);
      if r != 1 {
        ok := r == 0;
        return;
      }
      found := found + [a];
      ds := rest;
    }
  }

  lemma {:induction false} ReadableNext(ds: seq<bytes>, flagwild: bool, clientloc: bytes, now: uint64)
    ensures AllReadable(ds, flagwild, clientloc, now) <==>
              match FindIn(ds, flagwild, clientloc, now)
              case Failed => false
              case NoMore => true
              case Answered(a, rest) => AllReadable(rest, flagwild, clientloc, now)
  {
    hide Inspect;
    if ds != [] {
      ReadableFirst(ds, flagwild, clientloc, now);
      ReadableNext(ds[1..], flagwild, clientloc, now);
    }
  }

  lemma AnswersUnfold(ds: seq<bytes>, flagwild: bool, clientloc: bytes, now: uint64)
    ensures match FindIn(ds, flagwild, clientloc, now)
            case Answered(a, rest) =>
              AnswersIn(ds, flagwild, clientloc, now) == [a] + AnswersIn(rest, flagwild, clientloc, now)
            case _ => AnswersIn(ds, flagwild, clientloc, now) == []
  {
    hide FindIn;
  }
}
