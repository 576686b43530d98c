/** dns_dfd.c and dns_dtda.c: domain names as dotted text, in both directions. */
module DotText {
  import opened Bytes
  import opened Domain
  import opened StrAlloc

  const DOT: byte := 46
  const BACKSLASH: byte := 92

  predicate IsOctal(c: byte) {
    48 <= c <= 55
  }

  // --- what a text means --------------------------------------------------------------------------

  /** A text is a sequence of dots and of label bytes, some of which are escaped. */
  datatype Token = Dot | Char(c: byte)

  /** The number of digits, at most three, of the octal escape that begins at s[1]. */
  function Digits(s: bytes): (k: nat)
    ensures k <= 3 && k < |s| + 1 && (k > 0 ==> k < |s|)
  {
    if |s| < 2 || !IsOctal(s[1]) then 0
    else if |s| < 3 || !IsOctal(s[2]) then 1
    else if |s| < 4 || !IsOctal(s[3]) then 2
    else 3
  }

  /** The byte that a backslash sequence of s stands for; octal values are taken modulo 256. */
  function Escaped(s: bytes): byte
    requires |s| >= 2
  {
    var k := Digits(s);
    if k == 0 then s[1]
    else if k == 1 then s[1] - 48
    else if k == 2 then 8 * (s[1] as int - 48) + (s[2] - 48)
    else (64 * (s[1] as int - 48) + 8 * (s[2] as int - 48) + (s[3] as int - 48)) % 256
  }

  /** How many bytes of the text the first token takes. */
  function Width(s: bytes): (w: nat)
    requires s != []
    ensures 0 < w <= |s|
  {
    if s[0] != BACKSLASH || |s| == 1 then 1 else if Digits(s) == 0 then 2 else 1 + Digits(s)
  }

  /** The tokens of a text. A lone backslash at the end is dropped. */
  function Tokens(s: bytes): seq<Token>
    decreases |s|
  {
    if s == [] || s == [BACKSLASH] then []
    else [if s[0] == DOT then Dot else Char(if s[0] == BACKSLASH then Escaped(s) else s[0])] + Tokens(s[Width(s)..])
  }

  function Closed(part: bytes): seq<bytes> {
    if part == [] then [] else [part]
  }

  /** The non-empty labels between the dots, when `part` of one has been read already. */
  function LabelsFrom(part: bytes, ts: seq<Token>): seq<bytes>
    decreases |ts|
  {
    if ts == [] then Closed(part)
    else
      match ts[0]
      case Dot => Closed(part) + LabelsFrom([], ts[1..])
      case Char(c) => LabelsFrom(part + [c], ts[1..])
  }

  /** The labels of a text. */
  function Labels(s: bytes): seq<bytes> {
    LabelsFrom([], Tokens(s))
  }

  /** The labels in wire form, without the final zero byte. */
  function Encode(ls: seq<bytes>): bytes
    requires Short(ls)
  {
    if ls == [] then [] else [|ls[0]|] + ls[0] + Encode(ls[1..])
  }

  /** Every label has 1 to 63 bytes (section 2.3.4 of RFC 1035). */
  predicate Short(ls: seq<bytes>) {
    forall l :: l in ls ==> 1 <= |l| < 64
  }

  /** What dns_domain_fromdot makes of a text when there is memory. */
  function Parsed(s: bytes): Option<bytes> {
    var ls := Labels(s);
    if Short(ls) && |Encode(ls)| + 1 <= 255 then Some(Encode(ls) + [0]) else None
  }

  // --- dns_domain_fromdot ---------------------------------------------------------------------------

  lemma ShortTail(ls: seq<bytes>)
    requires Short(ls) && ls != []
    ensures 1 <= |ls[0]| < 64 && Short(ls[1..])
  {
    assert ls[0] in ls && forall l :: l in ls[1..] ==> l in ls;
  }

  lemma ShortConcat(a: seq<bytes>, b: seq<bytes>)
    ensures Short(a + b) <==> Short(a) && Short(b)
  {
    assert forall l :: l in a + b <==> l in a || l in b;
  }

  lemma EncodeStep(ls: seq<bytes>)
    requires Short(ls) && ls != []
    ensures Short(ls[1..]) && |ls[0]| < 64 && Encode(ls) == [|ls[0]|] + ls[0] + Encode(ls[1..])
  {
    ShortTail(ls);
  }

  lemma {:induction false} EncodeConcat(a: seq<bytes>, b: seq<bytes>)
    requires Short(a) && Short(b)
    ensures Short(a + b) && Encode(a + b) == Encode(a) + Encode(b)
    decreases |a|
  {
    hide Short, Encode;
    ShortConcat(a, b);
    if a == [] {
      assert a + b == b;
      EncodeNone();
    } else {
      EncodeStep(a);
      EncodeStep(a + b);
      EncodeConcat(a[1..], b);
      assert (a + b)[1..] == a[1..] + b;
    }
  }

  lemma EncodeNone()
    ensures Short([]) && Encode([]) == []
  {
  }

  /** A label under way is the beginning of the first label. */
  lemma {:induction false} LabelGrows(part: bytes, ts: seq<Token>)
    requires part != []
    ensures LabelsFrom(part, ts) != [] && part <= LabelsFrom(part, ts)[0]
    decreases |ts|
  {
    if ts != [] && ts[0].Char? {
      LabelGrows(part + [ts[0].c], ts[1..]);
    }
  }

  /** The state of the loop: the labels finished, the one under way, and what the rest of the text adds. */
  ghost predicate Reading(s: bytes, done: seq<bytes>, part: bytes, pos: nat) {
    pos <= |s| && Labels(s) == done + LabelsFrom(part, Tokens(s[pos..]))
  }

  lemma ReadDot(s: bytes, done: seq<bytes>, part: bytes, pos: nat)
    requires Reading(s, done, part, pos) && pos < |s| && s[pos] == DOT
    ensures Reading(s, done + Closed(part), [], pos + 1)
  {
    var rest := s[pos..];
    assert rest[1..] == s[pos + 1..];
    assert Tokens(rest) == [Dot] + Tokens(s[pos + 1..]);
  }

  lemma ReadChar(s: bytes, done: seq<bytes>, part: bytes, pos: nat, c: byte)
    requires Reading(s, done, part, pos) && pos < |s| && s[pos] != DOT && s[pos..] != [BACKSLASH]
    requires c == if s[pos] == BACKSLASH then Escaped(s[pos..]) else s[pos]
    ensures Reading(s, done, part + [c], pos + Width(s[pos..]))
  {
    hide Escaped, Width;
    var rest := s[pos..];
    assert rest[Width(rest)..] == s[pos + Width(rest)..];
    assert Tokens(rest) == [Char(c)] + Tokens(rest[Width(rest)..]);
  }

  lemma ReadEnd(s: bytes, done: seq<bytes>, part: bytes, pos: nat)
    requires Reading(s, done, part, pos) && (pos == |s| || s[pos..] == [BACKSLASH])
    ensures Labels(s) == done + Closed(part)
  {
  }

  /** A label of 64 bytes cannot be stored. */
  lemma LabelTooLong(s: bytes, done: seq<bytes>, part: bytes, pos: nat)
    requires Reading(s, done, part, pos) && |part| >= 64
    ensures Parsed(s) == None
  {
    LabelGrows(part, Tokens(s[pos..]));
    var l := LabelsFrom(part, Tokens(s[pos..]))[0];
    assert l in Labels(s) && |l| >= 64;
  }

  /** A name that is too long after some of its labels remains so. */
  lemma NameTooLong(s: bytes, done: seq<bytes>, part: bytes, pos: nat)
    requires Reading(s, done, part, pos) && Short(done) && |part| < 64
    requires |Encode(done)| + |Closed(part)| + |part| + 1 > 255
    ensures Parsed(s) == None
  {
    hide Encode;
    var ls := LabelsFrom(part, Tokens(s[pos..]));
    if Short(Labels(s)) {
      assert forall l :: l in ls ==> l in Labels(s);
      EncodeConcat(done, ls);
      if part != [] {
        LabelGrows(part, Tokens(s[pos..]));
        EncodeFirst(ls);
      }
    }
  }

  lemma EncodeFirst(ls: seq<bytes>)
    requires Short(ls) && ls != []
    ensures |Encode(ls)| >= |ls[0]| + 1
  {
    EncodeStep(ls);
  }

  /** The octal digits after a backslash: the byte, and the position after it. */
  method ReadEscape(s: bytes, start: nat) returns (c: byte, pos: nat)
    requires start + 1 < |s| && s[start] == BACKSLASH
    ensures c == Escaped(s[start..]) && pos == start + Width(s[start..])
  {
    hide Escaped, Width, Digits;
    EscapeHere(s, start);
    pos := start + 1;
    var ch: int := s[pos];
    pos := pos + 1;
    if IsOctal(ch) {
      ch := ch - 48;
      if pos < |s| && IsOctal(s[pos]) {
        ch := Shift(ch, s[pos]);
        pos := pos + 1;
        if pos < |s| && IsOctal(s[pos]) {
          ch := Shift(ch, s[pos]);
          pos := pos + 1;
        }
      }
    }
    c := ch;
  }

  /** One more octal digit on a char. */
  function Shift(ch: byte, digit: byte): byte
    requires IsOctal(digit)
  {
    (ch as int * 8 % 256 + (digit as int - 48)) % 256
  }

  lemma ShiftTwice(a: byte, b: byte, c: byte)
    requires IsOctal(a) && IsOctal(b) && IsOctal(c)
    ensures Shift(a - 48, b) as int == 8 * (a as int - 48) + (b as int - 48)
    ensures Shift(Shift(a - 48, b), c) as int
         == (64 * (a as int - 48) + 8 * (b as int - 48) + (c as int - 48)) % 256
  {
    var x: int, y: int, z: int := a as int - 48, b as int - 48, c as int - 48;
    assert x * 8 % 256 == x * 8;
    WrapOnce(8 * x + y, z);
  }

  lemma WrapOnce(e: int, z: int)
    requires 0 <= e < 64 && 0 <= z < 8
    ensures (e * 8 % 256 + z) % 256 == (8 * e + z) % 256
  {
    if e < 32 {
      assert e * 8 % 256 == e * 8;
    } else {
      assert e * 8 % 256 == e * 8 - 256;
    }
  }

  /** The escape at `start` in terms of the text's own positions. */
  lemma EscapeHere(s: bytes, start: nat)
    requires start + 1 < |s| && s[start] == BACKSLASH
    ensures var rest, n := s[start..], start + 1;
            if !IsOctal(s[n]) then Escaped(rest) == s[n] && Width(rest) == 2
            else if |s| <= n + 1 || !IsOctal(s[n + 1]) then Escaped(rest) == s[n] - 48 && Width(rest) == 2
            else if |s| <= n + 2 || !IsOctal(s[n + 2]) then
              Escaped(rest) == Shift(s[n] - 48, s[n + 1]) && Width(rest) == 3
            else Escaped(rest) == Shift(Shift(s[n] - 48, s[n + 1]), s[n + 2]) && Width(rest) == 4
  {
    hide Shift;
    var n := start + 1;
    var k := Digits(s[start..]);
    if k == 2 {
      ShiftTwice(s[n], s[n + 1], 48);
    } else if k == 3 {
      ShiftTwice(s[n], s[n + 1], s[n + 2]);
    }
  }

  /** The end of a label: its length and its bytes go to the name, unless the name becomes too long. */
  method CloseLabel(name: bytes, part: bytes, ghost s: bytes, ghost done: seq<bytes>, ghost pos: nat)
    returns (ok: bool, name': bytes)
    requires Reading(s, done, part, pos) && Short(done) && name == Encode(done) && |part| < 64
    ensures ok ==> Short(done + Closed(part)) && name' == Encode(done + Closed(part))
    ensures !ok ==> Parsed(s) == None
  {
    hide Reading, Parsed;
    name' := name;
    if part != [] {
      if |name| + |part| + 1 > 255 {
        NameTooLong(s, done, part, pos);
        return false, name;
      }
      name' := name + [|part|] + part;
      EncodeConcat(done, [part]);
      assert Encode([part]) == [|part|] + part;
    } else {
      assert done + [] == done;
    }
    ok := true;
  }

  /** dns_domain_fromdot up to its allocation: the parse of the text, or failure. */
  method ParseText(s: bytes) returns (r: Option<bytes>)
    ensures r == Parsed(s)
  {
    hide Reading, Parsed, Escaped, Width, Encode, Labels;
    var pos := 0;
    var part: bytes, name: bytes := [], [];
    ghost var done: seq<bytes> := [];
    ReadStart(s);
    var ok;
    while pos < |s|
      invariant pos <= |s| && Reading(s, done, part, pos)
      invariant Short(done) && name == Encode(done) && |part| < 64
    {
      var ch := s[pos];
      if ch == DOT {
        ok, name := CloseLabel(name, part, s, done, pos);
        if !ok { return None; }
        ReadDot(s, done, part, pos);
        done, part, pos := done + Closed(part), [], pos + 1;
        continue;
      }
      var next := pos + 1;
      if ch == BACKSLASH {
        if next == |s| {
          assert s[pos..] == [BACKSLASH];
          break;
        }
        ch, next := ReadEscape(s, pos);
      } else {
        PlainWidth(s[pos..]);
      }
      ReadChar(s, done, part, pos, ch);
      if |part| >= 63 {
        LabelTooLong(s, done, part + [ch], next);
        return None;
      }
      part, pos := part + [ch], next;
    }
    assert pos == |s| || s[pos..] == [BACKSLASH];
    ok, name := CloseLabel(name, part, s, done, pos);
    if !ok { return None; }
    ReadEnd(s, done, part, pos);
    ParsedLabels(s);
    if |name| + 1 > 255 {
      return None;
    }
    return Some(name + [0]);
  }

  lemma ReadStart(s: bytes)
    ensures Reading(s, [], [], 0) && Encode([]) == []
  {
    assert s[0..] == s && [] + Labels(s) == Labels(s);
  }

  lemma PlainWidth(s: bytes)
    requires s != [] && s[0] != BACKSLASH
    ensures Width(s) == 1
  {
  }

  lemma ParsedLabels(s: bytes)
    ensures Parsed(s)
         == if Short(Labels(s)) && |Encode(Labels(s))| + 1 <= 255 then Some(Encode(Labels(s)) + [0]) else None
  {
  }

  /** dns_domain_fromdot: the parse, unless there is no memory for its result. */
  method FromDot(s: bytes, gotMemory: bool) returns (r: Option<bytes>)
    ensures r == if gotMemory then Parsed(s) else None
    ensures r.Some? ==> IsName(r.value) && |r.value| <= 255
  {
    hide Parsed;
    r := ParseText(s);
    ParsedIsName(s);
    if r.Some? && !gotMemory {
      r := None;
    }
  }

  /** Whatever the text, a successful parse is a well-formed name of at most 255 bytes. */
  lemma ParsedIsName(s: bytes)
    ensures Parsed(s).Some? ==> IsName(Parsed(s).value) && |Parsed(s).value| <= 255
  {
    if Parsed(s).Some? {
      EncodeIsName(Labels(s));
    }
  }

  lemma {:induction false} EncodeIsName(ls: seq<bytes>)
    requires Short(ls)
    ensures IsName(Encode(ls) + [0])
    decreases |ls|
  {
    hide Short, Encode;
    if ls == [] {
      EncodeNone();
    } else {
      var d := Encode(ls) + [0];
      ShortTail(ls);
      EncodeStep(ls);
      EncodeIsName(ls[1..]);
      assert Parent(d) == Encode(ls[1..]) + [0];
    }
  }

  // --- dns_domain_todot_cat -------------------------------------------------------------------------

  /** Letters, digits, hyphens and underscores are written as they are, in lower case. */
  predicate IsPlain(c: byte) {
    97 <= c <= 122 || 48 <= c <= 57 || c == 45 || c == 95
  }

  /** The text of one byte of a label. */
  function Escape(c: byte): bytes {
    var l := Lower(c);
    if IsPlain(l) then [l] else [BACKSLASH, 48 + l / 64 % 8, 48 + l / 8 % 8, 48 + l % 8]
  }

  function EscapeAll(s: bytes): bytes {
    if s == [] then [] else Escape(s[0]) + EscapeAll(s[1..])
  }

  function FirstLabel(d: bytes): bytes
    requires d != [] && d[0] + 1 <= |d|
  {
    d[1..d[0] + 1]
  }

  /** The text of a name other than the root: its labels, separated by dots. */
  function LabelsText(d: bytes): bytes
    requires IsName(d) && d[0] != 0
    decreases |d|
  {
    EscapeAll(FirstLabel(d)) + if Parent(d)[0] == 0 then [] else [DOT] + LabelsText(Parent(d))
  }

  function TextOf(d: bytes): bytes
    requires IsName(d)
  {
    if d[0] == 0 then [DOT] else LabelsText(d)
  }

  /** Appends the text of one label. */
  method LabelCat(out: StrAlloc, part: bytes) returns (ok: bool)
    modifies out
    ensures ok ==> out.s == old(out.s) + EscapeAll(part)
  {
    hide Escape;
    for i := 0 to |part|
      invariant out.s + EscapeAll(part[i..]) == old(out.s) + EscapeAll(part)
    {
      var text := EscapeByte(part[i]);
      assert part[i..][1..] == part[i + 1..];
      ok := out.Append(text);
      if !ok { return; }
    }
    ok := true;
  }

  /** The octal digits, last one first. */
  method EscapeByte(c: byte) returns (text: bytes)
    ensures text == Escape(c)
  {
    var ch2: byte := c;
    if 65 <= ch2 <= 90 { ch2 := ch2 + 32; }
    if IsPlain(ch2) {
      return [ch2];
    }
    var ch3: int := ch2;
    var third := 48 + ch3 % 8;
    ch3 := ch3 / 8;
    var second := 48 + ch3 % 8;
    ch3 := ch3 / 8;
    OctalDigits(ch2);
    return [BACKSLASH, 48 + ch3 % 8, second, third];
  }

  /** dns_domain_todot_cat. */
  method ToDotCat(out: StrAlloc, d: bytes) returns (ok: bool)
    requires IsName(d)
    modifies out
    ensures ok ==> out.s == old(out.s) + TextOf(d)
  {
    hide EscapeAll;
    if d[0] == 0 {
      ok := out.Append([DOT]);
      return;
    }
    var rest := d;
    while true
      invariant IsName(rest) && rest[0] != 0 && out.s + LabelsText(rest) == old(out.s) + TextOf(d)
      decreases |rest|
    {
      ghost var text := out.s + LabelsText(rest);
      ok := LabelCat(out, FirstLabel(rest));
      if !ok { return; }
      rest := Parent(rest);
      if rest[0] == 0 {
        assert out.s == text;
        return true;
      }
      ok := out.Append([DOT]);
      if !ok { return; }
      assert out.s + LabelsText(rest) == text;
    }
  }

  // --- the round trip -----------------------------------------------------------------------------

  function Chars(s: bytes): seq<Token> {
    seq(|s|, i requires 0 <= i < |s| => Char(s[i]))
  }

  /** Reading back the text of one byte. */
  lemma TokensEscape(c: byte, rest: bytes)
    ensures Tokens(Escape(c) + rest) == [Char(Lower(c))] + Tokens(rest)
  {
    hide Lower, Tokens, Digits, Escaped, Width;
    var l := Lower(c);
    var s := Escape(c) + rest;
    TokensFirst(s);
    if IsPlain(l) {
      PlainWidth(s);
      assert s[1..] == rest;
    } else {
      OctalDigits(l);
      ThreeDigits(l as int / 64 % 8, l as int / 8 % 8, l as int % 8, rest);
    }
  }

  lemma OctalDigits(l: byte)
    ensures l as int == 64 * (l as int / 64 % 8) + 8 * (l as int / 8 % 8) + l as int % 8
  {
    assert l as int / 64 == l as int / 8 / 8;
  }

  lemma ThreeDigits(a: int, b: int, o: int, rest: bytes)
    requires 0 <= a < 8 && 0 <= b < 8 && 0 <= o < 8 && 64 * a + 8 * b + o < 256
    ensures var s := [BACKSLASH, 48 + a, 48 + b, 48 + o] + rest;
            Width(s) == 4 && s[4..] == rest && Escaped(s) as int == 64 * a + 8 * b + o
  {
    var s := [BACKSLASH, 48 + a, 48 + b, 48 + o] + rest;
    assert s[1] == 48 + a && s[2] == 48 + b && s[3] == 48 + o;
    assert Digits(s) == 3;
  }

  lemma TokensFirst(s: bytes)
    requires s != [] && s != [BACKSLASH]
    ensures Tokens(s) == [if s[0] == DOT then Dot else Char(if s[0] == BACKSLASH then Escaped(s) else s[0])]
                         + Tokens(s[Width(s)..])
  {
  }

  lemma {:induction false} TokensEscapeAll(part: bytes, rest: bytes)
    ensures Tokens(EscapeAll(part) + rest) == Chars(LowerAll(part)) + Tokens(rest)
    decreases |part|
  {
    hide Tokens, Escape;
    if part == [] {
      assert EscapeAll(part) + rest == rest;
    } else {
      var tail := part[1..];
      TokensEscapeAll(tail, rest);
      TokensEscape(part[0], EscapeAll(tail) + rest);
      assert EscapeAll(part) + rest == Escape(part[0]) + (EscapeAll(tail) + rest);
      assert Chars(LowerAll(part)) == [Char(Lower(part[0]))] + Chars(LowerAll(tail));
    }
  }

  lemma {:induction false} LabelsFromChars(part: bytes, cs: bytes, ts: seq<Token>)
    ensures LabelsFrom(part, Chars(cs) + ts) == LabelsFrom(part + cs, ts)
    decreases |cs|
  {
    if cs == [] {
      assert Chars(cs) + ts == ts && part + cs == part;
    } else {
      LabelsFromChars(part + [cs[0]], cs[1..], ts);
      assert (Chars(cs) + ts)[1..] == Chars(cs[1..]) + ts;
      assert part + [cs[0]] + cs[1..] == part + cs;
    }
  }

  /** The labels of a name, in lower case. */
  function LowerLabels(d: bytes): seq<bytes>
    requires IsName(d)
    decreases |d|
  {
    if d[0] == 0 then [] else [LowerAll(FirstLabel(d))] + LowerLabels(Parent(d))
  }

  lemma {:induction false} LabelsOfText(d: bytes)
    requires IsName(d) && d[0] != 0
    ensures Labels(LabelsText(d)) == LowerLabels(d)
    decreases |d|
  {
    hide Tokens, EscapeAll;
    var l, p := FirstLabel(d), Parent(d);
    var rest := if p[0] == 0 then [] else [DOT] + LabelsText(p);
    TokensEscapeAll(l, rest);
    LabelsFromChars([], LowerAll(l), Tokens(rest));
    assert [] + LowerAll(l) == LowerAll(l);
    if p[0] == 0 {
      TokensEmpty();
    } else {
      LabelsOfText(p);
      TokensFirst(rest);
      assert rest[1..] == LabelsText(p);
    }
  }

  lemma TokensEmpty()
    ensures Tokens([]) == [] && Tokens([DOT]) == [Dot]
  {
  }

  lemma {:induction false} EncodeLowerLabels(d: bytes)
    requires IsName(d)
    ensures Short(LowerLabels(d)) && Encode(LowerLabels(d)) + [0] == LowerAll(d)
    decreases |d|
  {
    hide Short, Encode;
    if d[0] == 0 {
      EncodeNone();
    } else {
      var l, p := FirstLabel(d), Parent(d);
      EncodeLowerLabels(p);
      LowerParts(d);
      var ls := LowerLabels(d);
      assert ls[1..] == LowerLabels(p);
      OneShort(LowerAll(l));
      ShortConcat([LowerAll(l)], LowerLabels(p));
      EncodeStep(ls);
    }
  }

  lemma OneShort(l: bytes)
    requires 1 <= |l| < 64
    ensures Short([l])
  {
  }

  /** Lower-casing a name leaves its length bytes alone. */
  lemma LowerParts(d: bytes)
    requires IsName(d) && d[0] != 0
    ensures LowerAll(d) == [d[0]] + LowerAll(FirstLabel(d)) + LowerAll(Parent(d))
    ensures 1 <= |FirstLabel(d)| == d[0] < 64
  {
    hide Lower;
    assert Lower(d[0]) == d[0] by {
      LowerLength(d[0]);
    }
  }

  lemma LowerLength(c: byte)
    requires c < 64
    ensures Lower(c) == c
  {
  }

  /** Text that was written from a name reads back as that name in lower case, exactly if it has at most 255 bytes. */
  lemma DotRoundTrip(d: bytes)
    requires IsName(d)
    ensures Parsed(TextOf(d)) == if |d| <= 255 then Some(LowerAll(d)) else None
  {
    hide LabelsText, Tokens, Encode, Short;
    EncodeLowerLabels(d);
    if d[0] == 0 {
      TokensEmpty();
      assert Labels(TextOf(d)) == LabelsFrom([], [Dot]) == LabelsFrom([], []) == LowerLabels(d);
    } else {
      LabelsOfText(d);
    }
  }

  // --- what the text looks like -------------------------------------------------------------------

  /** A text byte that may stand in a log as it is: a small letter, a digit, one of - _ . or a backslash. */
  predicate Printable(c: byte) {
    97 <= c <= 122 || 48 <= c <= 57 || c in {45, 95, 46, 92}
  }

  predicate AllPrintable(s: bytes) {
    forall i :: 0 <= i < |s| ==> Printable(s[i])
  }

  lemma PrintableConcat(s: bytes, t: bytes)
    requires AllPrintable(s) && AllPrintable(t)
    ensures AllPrintable(s + t)
  {
    hide Printable;
  }

  lemma EscapePrintable(c: byte)
    ensures AllPrintable(Escape(c))
  {
    var l := Lower(c);
    assert 48 <= 48 + l as int / 64 % 8 <= 55 && 48 <= 48 + l as int / 8 % 8 <= 55 && 48 <= 48 + l as int % 8 <= 55;
  }

  lemma {:induction false} EscapeAllPrintable(s: bytes)
    ensures AllPrintable(EscapeAll(s))
    decreases |s|
  {
    hide Escape, AllPrintable;
    if s == [] {
      NothingPrintable();
    } else {
      EscapePrintable(s[0]);
      EscapeAllPrintable(s[1..]);
      PrintableConcat(Escape(s[0]), EscapeAll(s[1..]));
    }
  }

  lemma NothingPrintable()
    ensures AllPrintable([]) && AllPrintable([DOT])
  {
  }

  /** Whatever bytes a name has, its text is printable. */
  lemma {:induction false} TextPrintable(d: bytes)
    requires IsName(d)
    ensures AllPrintable(TextOf(d))
    decreases |d|
  {
    hide EscapeAll, AllPrintable;
    NothingPrintable();
    if d[0] != 0 {
      var text, p := EscapeAll(FirstLabel(d)), Parent(d);
      EscapeAllPrintable(FirstLabel(d));
      if p[0] == 0 {
        assert LabelsText(d) == text + [] == text;
      } else {
        TextPrintable(p);
        PrintableConcat([DOT], LabelsText(p));
        PrintableConcat(text, [DOT] + LabelsText(p));
      }
    }
  }

  /** Only letters, digits, hyphens and underscores. */
  predicate AllPlain(s: bytes) {
    forall i :: 0 <= i < |s| ==>
      65 <= s[i] <= 90 || 97 <= s[i] <= 122 || 48 <= s[i] <= 57 || s[i] == 45 || s[i] == 95
  }

  predicate PlainLabels(d: bytes)
    requires IsName(d)
    decreases |d|
  {
    d[0] == 0 || (AllPlain(FirstLabel(d)) && PlainLabels(Parent(d)))
  }

  /** The labels with dots between them. */
  function Dotted(ls: seq<bytes>): bytes {
    if ls == [] then [] else if |ls| == 1 then ls[0] else ls[0] + [46] + Dotted(ls[1..])
  }

  lemma {:induction false} EscapePlain(s: bytes)
    requires AllPlain(s)
    ensures EscapeAll(s) == LowerAll(s)
    decreases |s|
  {
    if s != [] {
      EscapePlain(s[1..]);
      assert LowerAll(s) == [Lower(s[0])] + LowerAll(s[1..]);
    }
  }

  /** The text of an ordinary name is its labels in lower case with dots between them, and nothing is escaped. */
  lemma {:induction false} TextOfPlain(d: bytes)
    requires IsName(d) && d[0] != 0 && PlainLabels(d)
    ensures TextOf(d) == Dotted(LowerLabels(d))
    decreases |d|
  {
    hide EscapeAll, AllPlain, LowerAll;
    EscapePlain(FirstLabel(d));
    var p := Parent(d);
    if p[0] == 0 {
      assert LowerLabels(d) == [LowerAll(FirstLabel(d))];
    } else {
      TextOfPlain(p);
      assert LowerLabels(d)[1..] == LowerLabels(p) && LowerLabels(p) != [];
    }
  }

  // --- how a text is read -------------------------------------------------------------------------

  /** A byte is an octal digit of this value. */
  predicate Octal(s: bytes, i: nat, v: int) {
    i < |s| && 0 <= v < 8 && s[i] as int == 48 + v
  }

  predicate NoDigit(s: bytes, i: nat) {
    i >= |s| || s[i] < 48 || s[i] > 55
  }

  /** A backslash stands before one, two or three octal digits, or before another byte, which it protects. */
  lemma EscapesMean(s: bytes, a: int, b: int, c: int)
    requires |s| >= 2 && s[0] == 92
    ensures NoDigit(s, 1) ==> Tokens(s) == [Char(s[1])] + Tokens(s[2..])
    ensures Octal(s, 1, a) && NoDigit(s, 2) ==> Tokens(s) == [Char(a)] + Tokens(s[2..])
    ensures Octal(s, 1, a) && Octal(s, 2, b) && NoDigit(s, 3) ==> Tokens(s) == [Char(8 * a + b)] + Tokens(s[3..])
    ensures Octal(s, 1, a) && Octal(s, 2, b) && Octal(s, 3, c) ==>
              Tokens(s) == [Char((64 * a + 8 * b + c) % 256)] + Tokens(s[4..])
  {
    hide Tokens;
    TokensFirst(s);
  }

  /** Dots stand between labels, and empty labels do not count. */
  lemma {:induction false} LabelsBetweenDots(part: bytes, s: bytes, rest: bytes)
    requires forall i :: 0 <= i < |s| ==> s[i] != 46 && s[i] != 92
    ensures LabelsFrom(part, Tokens(s)) == if part + s == [] then [] else [part + s]
    ensures LabelsFrom(part, Tokens(s + [46] + rest)) == LabelsFrom(part, Tokens(s)) + Labels(rest)
    decreases |s|
  {
    hide Tokens, Width;
    TokensEmpty();
    if s == [] {
      assert ([DOT] + rest)[0] == DOT != BACKSLASH;
      TokensFirst([DOT] + rest);
      PlainWidth([DOT] + rest);
      assert ([DOT] + rest)[1..] == rest && s + [46] + rest == [DOT] + rest && part + s == part;
    } else {
      var all := s + [46] + rest;
      assert s[0] != BACKSLASH && all[0] == s[0];
      TokensFirst(s);
      TokensFirst(all);
      PlainWidth(s);
      PlainWidth(all);
      assert all[1..] == s[1..] + [46] + rest && part + s == part + [s[0]] + s[1..];
      LabelsBetweenDots(part + [s[0]], s[1..], rest);
    }
  }
}
