/** getln2.c and getln.c: lines from buffered input. */
module Getln {
  import opened Bytes
  import opened InBuffer
  import opened StrAlloc

  /** byte_chr: the position of the first sep, or the length. */
  method ByteChr(s: bytes, sep: byte) returns (i: nat)
    ensures i <= |s| && sep !in s[..i] && (i < |s| ==> s[i] == sep)
  {
    i := 0;
    while i < |s| && s[i] != sep
      invariant i <= |s| && sep !in s[..i]
    {
      i := i + 1;
    }
  }

  /** The first line of the data, with its separator if it has one. */
  function FirstLine(s: bytes, sep: byte): (line: bytes)
    ensures line <= s && (s != [] ==> line != [])
  {
    if s == [] then [] else if s[0] == sep then [sep] else [s[0]] + FirstLine(s[1..], sep)
  }

  lemma {:induction false} FirstLineAt(s: bytes, sep: byte, i: nat)
    requires i <= |s| && sep !in s[..i]
    ensures FirstLine(s, sep) == if i == |s| then s else if s[i] == sep then s[..i + 1] else FirstLine(s, sep)
    decreases i
  {
    if i > 0 {
      assert s[..i][0] == s[0];
      assert forall c :: c in s[1..][..i - 1] ==> c in s[..i];
      FirstLineAt(s[1..], sep, i - 1);
      assert [s[0]] + s[1..] == s;
      if i < |s| {
        assert s[1..][..i] == s[1..i + 1];
        assert [s[0]] + s[1..i + 1] == s[..i + 1];
      }
    }
  }

  /** Part of the first line of `all` has been read, without a separator. */
  ghost predicate Begun(all: bytes, begun: bytes, rest: bytes, sep: byte) {
    all == begun + rest && sep !in begun
  }

  /** All of the first line of `all` has been read, in two parts; the second is empty if there is no separator. */
  ghost predicate Done(all: bytes, begun: bytes, tail: bytes, rest: bytes, sep: byte) {
    && all == begun + tail + rest && FirstLine(all, sep) == begun + tail
    && (tail != [] <==> sep in begun + tail)
  }

  lemma SeparatorFound(all: bytes, begun: bytes, rest: bytes, clen: nat, sep: byte)
    requires Begun(all, begun, rest, sep)
    requires 0 < clen <= |rest| && sep !in rest[..clen - 1] && rest[clen - 1] == sep
    ensures Done(all, begun, rest[..clen], rest[clen..], sep)
  {
    hide FirstLine;
    var k := |begun| + clen - 1;
    assert all[..k] == begun + rest[..clen - 1] && all[k] == rest[clen - 1] && all[..k + 1] == begun + rest[..clen];
    FirstLineAt(all, sep, k);
    assert (begun + rest[..clen])[k] == sep;
    assert all == all[..k + 1] + rest[clen..];
  }

  lemma NothingLeft(all: bytes, begun: bytes, sep: byte)
    requires Begun(all, begun, [], sep)
    ensures Done(all, begun, [], [], sep)
  {
    hide FirstLine;
    assert begun + [] == all;
    FirstLineAt(all, sep, |all|);
  }

  lemma NextPart(all: bytes, begun: bytes, rest: bytes, data: bytes, rest': bytes, sep: byte)
    requires Begun(all, begun, rest, sep) && rest == data + rest' && sep !in rest[..|data|]
    ensures Begun(all, begun + data, rest', sep)
  {
    assert rest[..|data|] == data;
  }

  /** Looks for sep in what is held. If it is there, everything up to it is taken, at offset cont. */
  method Scan(ss: InBuffer, sep: byte) returns (cont: nat, clen: nat)
    requires ss.Valid() && ss.p > 0
    modifies ss`p, ss`n
    ensures ss.Valid() && ss.p <= old(ss.p) <= |old(ss.Rest())|
    ensures clen == 0 ==> ss.p == old(ss.p) && ss.Rest() == old(ss.Rest()) && sep !in ss.Rest()[..ss.p]
    ensures clen > 0 ==> cont + clen <= ss.x.Length && clen <= |old(ss.Rest())|
    ensures clen > 0 ==> ss.x[cont..cont + clen] == old(ss.Rest())[..clen] && ss.Rest() == old(ss.Rest())[clen..]
    ensures clen > 0 ==> sep !in old(ss.Rest())[..clen - 1] && old(ss.Rest())[clen - 1] == sep
  {
    hide InBuffer.Rest;
    ghost var rest := ss.Rest();
    var x, held := ss.Peek();
    var i := ByteChr(held, sep);
    assert held[..i] == rest[..i];
    if i == |held| {
      return x, 0;
    }
    ss.Seek(i + 1);
    assert held[..i + 1] == ss.x[x..x + (i + 1)] == rest[..i + 1];
    return x, i + 1;
  }

  /**
   * getln2: the beginning of the line goes to sa, the end stays in the buffer at offset cont.
   * With clen == 0 there was no separator and sa holds everything that was left.
   */
  method Getln2(ss: InBuffer, sa: StrAlloc, sep: byte) returns (ok: bool, cont: nat, clen: nat)
    requires ss.Valid()
    modifies ss, ss.x, ss.source, sa
    ensures ss.Valid()
    ensures !ok ==> ss.Rest() == old(ss.Rest()) || Begun(old(ss.Rest()), sa.s, ss.Rest(), sep)
    ensures ok ==> cont + clen <= ss.x.Length
    ensures ok ==> Done(old(ss.Rest()), sa.s, ss.x[cont..cont + clen], ss.Rest(), sep)
  {
    hide FirstLine, Begun, Done;
    hide InBuffer.Rest;
    ghost var all := ss.Rest();
    cont, clen := 0, 0;
    ok := *;
    if !ok { return; }
    sa.s := [];
    assert Begun(all, [], all, sep) by {
      JustBegun(all, sep);
    }
    while true
      invariant ss.Valid() && Begun(all, sa.s, ss.Rest(), sep)
      decreases |ss.Rest()|
    {
      var n := ss.Feed();
      if n < 0 { return false, 0, 0; }
      if n == 0 {
        NothingLeft(all, sa.s, sep);
        return true, 0, 0;
      }
      ghost var rest := ss.Rest();
      cont, clen := Scan(ss, sep);
      if clen > 0 {
        SeparatorFound(all, sa.s, rest, clen, sep);
        return;
      }
      var gotMemory: bool := *;
      if !gotMemory { return false, 0, 0; }
      var r, data := ss.Get(n);
      NextPart(all, sa.s, rest, data, ss.Rest(), sep);
      sa.s := sa.s + data;
    }
  }

  lemma JustBegun(all: bytes, sep: byte)
    ensures Begun(all, [], all, sep)
  {
  }

  /** getln: the next line, or what is left if there is no separator, however the reader delivers the data. */
  method NextLine(ss: InBuffer, sa: StrAlloc, sep: byte) returns (ok: bool, matched: bool)
    requires ss.Valid()
    modifies ss, ss.x, ss.source, sa
    ensures ss.Valid()
    ensures ok ==> sa.s == FirstLine(old(ss.Rest()), sep) && old(ss.Rest()) == sa.s + ss.Rest()
    ensures ok ==> (matched <==> sep in sa.s)
    ensures ok && !matched ==> ss.Rest() == []
  {
    var cont, clen;
    matched := false;
    ok, cont, clen := Getln2(ss, sa, sep);
    if !ok { return; }
    if clen == 0 {
      NoSeparator(old(ss.Rest()), sep);
      return;
    }
    ok := sa.Append(ss.x[cont..cont + clen]);
    if !ok { return; }
    return true, true;
  }

  lemma {:induction false} NoSeparator(s: bytes, sep: byte)
    requires sep !in FirstLine(s, sep)
    ensures FirstLine(s, sep) == s
  {
    if s != [] {
      assert FirstLine(s, sep) == [s[0]] + FirstLine(s[1..], sep);
      NoSeparator(s[1..], sep);
    }
  }

  /** The lines of the data; only the last one may lack its separator, and it may be empty. */
  function Lines(s: bytes, sep: byte): seq<bytes>
    decreases |s|
  {
    var line := FirstLine(s, sep);
    if sep in line then [line] + Lines(s[|line|..], sep) else [line]
  }

  function Concat(ls: seq<bytes>): bytes {
    if ls == [] then [] else ls[0] + Concat(ls[1..])
  }

  /** The lines are the data, cut after each separator and nowhere else. */
  lemma {:induction false} LinesAreData(s: bytes, sep: byte)
    ensures var ls := Lines(s, sep);
            && ls != [] && Concat(ls) == s && sep !in ls[|ls| - 1]
            && forall i :: 0 <= i < |ls| - 1 ==>
                 ls[i] != [] && ls[i][|ls[i]| - 1] == sep && sep !in ls[i][..|ls[i]| - 1]
    decreases |s|
  {
    hide FirstLine;
    var line := FirstLine(s, sep);
    if sep in line {
      OneSeparator(s, sep);
      LinesAreData(s[|line|..], sep);
      assert Lines(s, sep)[1..] == Lines(s[|line|..], sep);
    } else {
      NoSeparator(s, sep);
      assert Lines(s, sep)[1..] == [];
    }
  }

  lemma {:induction false} OneSeparator(s: bytes, sep: byte)
    requires sep in FirstLine(s, sep)
    ensures var line := FirstLine(s, sep); line[|line| - 1] == sep && sep !in line[..|line| - 1]
  {
    var line := FirstLine(s, sep);
    if s[0] == sep {
      assert line[..0] == [];
    } else {
      OneSeparator(s[1..], sep);
      var tail := FirstLine(s[1..], sep);
      assert line == [s[0]] + tail && line[..|line| - 1] == [s[0]] + tail[..|tail| - 1];
    }
  }

  /** Reads until there is no more separator, as tinydns-data and its kin do. */
  method ReadLines(ss: InBuffer, sep: byte) returns (ok: bool, lines: seq<bytes>)
    requires ss.Valid()
    modifies ss, ss.x, ss.source
    ensures ok ==> lines == Lines(old(ss.Rest()), sep)
  {
    hide FirstLine;
    hide InBuffer.Rest;
    lines := [];
    var sa := new StrAlloc();
    var more := true;
    while more
      invariant ss.Valid() && fresh(sa)
      invariant if more then lines + Lines(ss.Rest(), sep) == Lines(old(ss.Rest()), sep)
                else lines == Lines(old(ss.Rest()), sep)
      decreases more, |ss.Rest()|
    {
      ok, more := NextLine(ss, sa, sep);
      if !ok { return; }
      lines := lines + [sa.s];
    }
    ok := true;
  }
}
