/** dns_domain.c and case_diffb.c: domain names in wire form, compared without regard to case. */
module Domain {
  import opened Bytes

  /** A wire-form name: labels of 1 to 63 bytes, each after its length, and a zero byte (section 3.1 of RFC 1035). */
  predicate IsName(d: bytes)
    decreases |d|
  {
    d != [] && if d[0] == 0 then |d| == 1 else d[0] < 64 && d[0] + 1 < |d| && IsName(Parent(d))
  }

  /** The name without its first label. */
  function Parent(d: bytes): bytes
    requires d != [] && d[0] + 1 <= |d|
  {
    d[d[0] + 1..]
  }

  const ROOT: bytes := [0]

  /** dns_domain_length: for a name, the number of its bytes. */
  method Length(d: bytes) returns (len: nat)
    requires IsName(d)
    ensures len == |d|
  {
    var x := 0;
    while d[x] != 0
      invariant x < |d| && IsName(d[x..])
      decreases |d| - x
    {
      assert Parent(d[x..]) == d[x + 1 + d[x]..];
      x := x + 1 + d[x];
    }
    return x + 1;
  }

  /** case_diffb's folding of one byte. */
  function Lower(c: byte): byte {
    if 65 <= c <= 90 then c + 32 else c
  }

  /** The same in the code's unsigned arithmetic: distance from A, then the letter at that distance from a. */
  function Fold(c: byte): (r: byte)
    ensures r == Lower(c)
  {
    var x := (c as int + 191) % 256;
    if x <= 25 then x + 97 else (x + 65) % 256
  }

  function LowerAll(s: bytes): (t: bytes)
    ensures |t| == |s| && forall i :: 0 <= i < |s| ==> t[i] == Lower(s[i])
  {
    seq(|s|, i requires 0 <= i < |s| => Lower(s[i]))
  }

  /** The value of case_diffb on two strings of the same length. */
  function CaseDiff(s: bytes, t: bytes): int
    requires |s| == |t|
    decreases |s|
  {
    if s == [] then 0
    else if Lower(s[0]) != Lower(t[0]) then Lower(s[0]) as int - Lower(t[0]) as int
    else CaseDiff(s[1..], t[1..])
  }

  /** case_diffb. */
  method CaseDiffB(s: bytes, t: bytes) returns (r: int)
    requires |s| == |t|
    ensures r == CaseDiff(s, t)
  {
    hide Fold;
    var i := 0;
    while i < |s|
      invariant i <= |s| && CaseDiff(s[i..], t[i..]) == CaseDiff(s, t)
    {
      var x, y := Fold(s[i]), Fold(t[i]);
      if x != y {
        return x as int - y as int;
      }
      i := i + 1;
    }
    return 0;
  }

  /** Zero means equal up to case. */
  lemma {:induction false} CaseDiffZero(s: bytes, t: bytes)
    requires |s| == |t|
    ensures CaseDiff(s, t) == 0 <==> LowerAll(s) == LowerAll(t)
    decreases |s|
  {
    if s != [] {
      CaseDiffZero(s[1..], t[1..]);
      assert LowerAll(s) == [Lower(s[0])] + LowerAll(s[1..]);
      assert LowerAll(t) == [Lower(t[0])] + LowerAll(t[1..]);
      assert LowerAll(s)[1..] == LowerAll(s[1..]) && LowerAll(t)[1..] == LowerAll(t[1..]);
    }
  }

  /** Swapping the strings changes the sign. */
  lemma {:induction false} CaseDiffSwap(s: bytes, t: bytes)
    requires |s| == |t|
    ensures CaseDiff(s, t) == -CaseDiff(t, s)
    decreases |s|
  {
    if s != [] {
      CaseDiffSwap(s[1..], t[1..]);
    }
  }

  /** The sign is transitive: case_diffb orders strings of one length. */
  lemma {:induction false} CaseDiffTransitive(s: bytes, t: bytes, u: bytes)
    requires |s| == |t| == |u| && CaseDiff(s, t) <= 0 && CaseDiff(t, u) <= 0
    ensures CaseDiff(s, u) <= 0
    ensures CaseDiff(s, u) == 0 ==> CaseDiff(s, t) == 0 && CaseDiff(t, u) == 0
    decreases |s|
  {
    if s != [] && Lower(s[0]) == Lower(t[0]) == Lower(u[0]) {
      CaseDiffTransitive(s[1..], t[1..], u[1..]);
    }
  }

  /** Equal up to case; the meaning of dns_domain_equal. */
  predicate Same(d: bytes, e: bytes) {
    LowerAll(d) == LowerAll(e)
  }

  /** dns_domain_equal. */
  method Equal(d: bytes, e: bytes) returns (r: bool)
    requires IsName(d) && IsName(e)
    ensures r <==> Same(d, e)
  {
    var len := Length(d);
    var len2 := Length(e);
    if len != len2 {
      assert |LowerAll(d)| != |LowerAll(e)|;
      return false;
    }
    var diff := CaseDiffB(d, e);
    CaseDiffZero(d, e);
    return diff == 0;
  }

  /** Length bytes are below 'A', so names that are equal up to case have the same labels up to case. */
  lemma SameParents(d: bytes, e: bytes)
    requires IsName(d) && IsName(e) && Same(d, e)
    ensures |d| == |e| && d[0] == e[0] && Same(d[..d[0] + 1], e[..d[0] + 1])
    ensures d[0] != 0 ==> Same(Parent(d), Parent(e))
  {
    assert |LowerAll(d)| == |LowerAll(e)| && LowerAll(d)[0] == LowerAll(e)[0];
    var n := d[0] + 1;
    assert LowerAll(d[..n]) == LowerAll(d)[..n] && LowerAll(e[..n]) == LowerAll(e)[..n];
    assert LowerAll(d[n..]) == LowerAll(d)[n..] && LowerAll(e[n..]) == LowerAll(e)[n..];
  }

  /** Whether `little` is `big` or one of its ancestors. */
  predicate HasSuffix(big: bytes, little: bytes)
    requires IsName(big)
    decreases |big|
  {
    Same(big, little) || (big[0] != 0 && HasSuffix(Parent(big), little))
  }

  /** dns_domain_suffix. */
  method Suffix(big: bytes, little: bytes) returns (r: bool)
    requires IsName(big) && IsName(little)
    ensures r <==> HasSuffix(big, little)
  {
    var rest := big;
    while true
      invariant IsName(rest) && (HasSuffix(rest, little) <==> HasSuffix(big, little))
      decreases |rest|
    {
      var same := Equal(rest, little);
      if same {
        return true;
      }
      if rest[0] == 0 {
        return false;
      }
      rest := Parent(rest);
    }
  }

  /** dns_domain_suffixpos: where in `big` the first suffix equal to `little` begins; 0 if there is none. */
  method SuffixPos(big: bytes, little: bytes) returns (pos: nat)
    requires IsName(big) && IsName(little)
    ensures pos < |big|
    ensures HasSuffix(big, little) ==> IsName(big[pos..]) && Same(big[pos..], little)
    ensures !HasSuffix(big, little) ==> pos == 0
  {
    hide Same;
    pos := 0;
    ghost var rest := big;
    while true
      invariant pos < |big| && rest == big[pos..] && IsName(rest)
      invariant HasSuffix(rest, little) <==> HasSuffix(big, little)
      decreases |big| - pos
    {
      var same := Equal(big[pos..], little);
      if same {
        return;
      }
      if big[pos] == 0 {
        return 0;
      }
      rest := Parent(rest);
      pos := pos + 1 + big[pos];
    }
  }

  /** Suffixes respect equality up to case on both sides. */
  lemma {:induction false} SuffixRespectsCase(big: bytes, big': bytes, little: bytes, little': bytes)
    requires IsName(big) && IsName(big') && Same(big, big') && Same(little, little')
    ensures HasSuffix(big, little) <==> HasSuffix(big', little')
    decreases |big|
  {
    SameParents(big, big');
    if big[0] != 0 {
      SuffixRespectsCase(Parent(big), Parent(big'), little, little');
    }
  }

  /** Position k of a name is where one of its labels begins, the final empty one included. */
  predicate Boundary(d: bytes, k: nat) {
    k < |d| && IsName(d[..k] + [0]) && IsName(d[k..])
  }

  /** One label further on. */
  lemma BoundaryStep(d: bytes, k: nat)
    requires IsName(d) && d[0] != 0 && k > d[0] as nat
    ensures Boundary(d, k) <==> Boundary(Parent(d), k - d[0] as nat - 1)
  {
    hide IsName;
    NameShape(d);
    var n := d[0] as nat + 1;
    if k < |d| {
      var front := d[..k] + [0];
      assert d[k..] == Parent(d)[k - n..];
      assert front[0] == d[0] && Parent(front) == Parent(d)[..k - n] + [0];
      NameUnfold(front);
    }
  }

  lemma NameUnfold(d: bytes)
    requires d != [] && d[0] != 0 && d[0] as nat + 1 < |d|
    ensures IsName(d) <==> d[0] < 64 && IsName(Parent(d))
  {
  }

  lemma BoundaryFirst(d: bytes, k: nat)
    requires IsName(d)
    ensures Boundary(d, 0)
    ensures 0 < k <= d[0] as nat ==> !Boundary(d, k)
  {
    assert d[..0] + [0] == [0] && d[0..] == d;
  }

  /** A name has a suffix exactly if the labels from one of them on are that suffix, up to case. */
  lemma {:induction false} SuffixExactly(big: bytes, little: bytes)
    requires IsName(big)
    ensures HasSuffix(big, little) <==> exists k: nat :: SuffixAt(big, little, k)
    decreases |big|
  {
    hide IsName, LowerAll, Boundary;
    BoundaryFirst(big, 0);
    NameShape(big);
    assert SuffixAt(big, little, 0) <==> Same(big, little) by { assert big[0..] == big; }
    if big[0] != 0 {
      SuffixExactly(Parent(big), little);
      if HasSuffix(Parent(big), little) {
        var k: nat :| SuffixAt(Parent(big), little, k);
        SuffixAbove(big, little, big[0] as nat + 1 + k);
      }
      if k: nat :| k > 0 && SuffixAt(big, little, k) {
        BoundaryFirst(big, k);
        SuffixAbove(big, little, k);
      }
    } else if k: nat :| k > 0 && SuffixAt(big, little, k) {
      BoundaryInside(big, k);
    }
  }

  /** The labels of big from position k on are little, up to case. */
  predicate SuffixAt(big: bytes, little: bytes, k: nat) {
    Boundary(big, k) && k < |big| && LowerAll(big[k..]) == LowerAll(little)
  }

  lemma SuffixAbove(big: bytes, little: bytes, k: nat)
    requires IsName(big) && big[0] != 0 && k > big[0] as nat
    ensures SuffixAt(big, little, k) <==> SuffixAt(Parent(big), little, k - big[0] as nat - 1)
  {
    hide IsName, LowerAll, Boundary;
    NameShape(big);
    BoundaryStep(big, k);
    if k < |big| {
      assert big[k..] == Parent(big)[k - big[0] as nat - 1..];
    }
  }

  lemma BoundaryInside(d: bytes, k: nat)
    requires Boundary(d, k)
    ensures k < |d|
  {
  }

  lemma NameShape(d: bytes)
    requires IsName(d)
    ensures |d| >= 1 && (d[0] == 0 ==> |d| == 1)
    ensures d[0] != 0 ==> d[0] < 64 && d[0] as nat + 1 < |d| && IsName(Parent(d))
  {
  }
}
