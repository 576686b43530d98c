/** random-ip.c: a counter turned into IP addresses by a shuffled table and a hundred mixing rounds. */
module RandomIp {
  import opened Bytes

  /** A table in which every byte occurs exactly once. */
  predicate IsPermutation(tab: bytes) {
    && |tab| == 256
    && (forall i, j :: 0 <= i < j < 256 ==> tab[i] != tab[j])
    && (forall v: byte :: v in tab)
  }

  function Swapped(s: bytes, i: nat, j: nat): bytes
    requires i < |s| && j < |s|
  {
    s[i := s[j]][j := s[i]]
  }

  lemma SwapKeepsPermutation(s: bytes, i: nat, j: nat)
    requires IsPermutation(s) && i < 256 && j < 256
    ensures IsPermutation(Swapped(s, i, j))
  {
    var t := Swapped(s, i, j);
    forall v: byte
      ensures v in t
    {
      assert v in s;
      var k :| 0 <= k < |s| && s[k] == v;
      assert t[if k == i then j else if k == j then i else k] == v;
    }
  }

  /** The shuffle at the start of main, for every outcome of dns_random. */
  method Shuffle() returns (tab: array<byte>)
    ensures fresh(tab) && IsPermutation(tab[..])
  {
    tab := new byte[256](i => if 0 <= i < 256 then i else 0);
    forall v: byte
      ensures v in tab[..]
    {
      assert tab[..][v] == v;
    }
    var j := 256;
    while j > 0
      invariant 0 <= j <= 256 && IsPermutation(tab[..])
    {
      var i: nat :| i < j;
      SwapKeepsPermutation(tab[..], i, j - 1);
      ghost var s := Swapped(tab[..], i, j - 1);
      var c := tab[j - 1];
      tab[j - 1] := tab[i];
      tab[i] := c;
      assert tab[..] == s;
      j := j - 1;
    }
  }

  // --- spreading the counter over the free bytes --------------------------------------------------

  /** The counter's bytes, least significant first, in ip[i..4]. */
  function Spread(ip: bytes, i: nat, u: nat): (r: bytes)
    requires |ip| == 4 && i <= 4
    ensures |r| == 4 && r[..i] == ip[..i]
    decreases 4 - i
  {
    if i == 4 then ip else Spread(ip[i := u % 256], i + 1, u / 256)
  }

  /** How many different settings ip[i..4] has. */
  function Room(i: nat): (n: nat)
    requires i <= 4
    ensures n > 0
  {
    [0x1_0000_0000, 0x100_0000, 0x1_0000, 0x100, 1][i]
  }

  function ValueOf(ip: bytes, i: nat): nat
    requires |ip| == 4 && i <= 4
    decreases 4 - i
  {
    if i == 4 then 0 else ip[i] + 256 * ValueOf(ip, i + 1)
  }

  lemma {:induction false} SpreadValue(ip: bytes, i: nat, u: nat)
    requires |ip| == 4 && i <= 4
    ensures ValueOf(Spread(ip, i, u), i) == u % Room(i)
    decreases 4 - i
  {
    if i < 4 {
      var next := ip[i := u % 256];
      SpreadValue(next, i + 1, u / 256);
      assert Spread(next, i + 1, u / 256)[..i + 1][i] == u % 256;
      RoomStep(i, u);
    }
  }

  lemma RoomStep(i: nat, u: nat)
    requires i < 4
    ensures u % Room(i) == u % 256 + 256 * (u / 256 % Room(i + 1))
  {
    var m := Room(i + 1);
    assert Room(i) == 256 * m;
    var q := u / 256;
    LowByteAside(u, q / m, q % m, u % 256, m);
    ModUnique(u, 256 * m, q / m, u % 256 + 256 * (q % m));
  }

  lemma LowByteAside(u: nat, s: nat, t: nat, r: nat, m: nat)
    requires u == 256 * (m * s + t) + r && r < 256 && t < m
    ensures u == 256 * m * s + (r + 256 * t) && r + 256 * t < 256 * m
  {
  }

  lemma {:induction false} ValueDetermines(a: bytes, b: bytes, i: nat)
    requires |a| == |b| == 4 && i <= 4 && a[..i] == b[..i] && ValueOf(a, i) == ValueOf(b, i)
    ensures a == b
    decreases 4 - i
  {
    if i < 4 {
      var x: int, y: int := a[i] as int, b[i] as int;
      assert x + 256 * ValueOf(a, i + 1) == y + 256 * ValueOf(b, i + 1);
      assert a[..i + 1] == a[..i] + [a[i]] && b[..i + 1] == b[..i] + [b[i]];
      ValueDetermines(a, b, i + 1);
    } else {
      assert a == a[..4] && b == b[..4];
    }
  }

  /** Counters give the same free bytes exactly when they agree in the bits that fit. */
  lemma SpreadEqual(ip: bytes, ip': bytes, i: nat, u: nat, v: nat)
    requires |ip| == |ip'| == 4 && i <= 4 && ip[..i] == ip'[..i]
    ensures Spread(ip, i, u) == Spread(ip', i, v) <==> u % Room(i) == v % Room(i)
  {
    hide Spread, ValueOf, Room;
    SpreadValue(ip, i, u);
    SpreadValue(ip', i, v);
    if u % Room(i) == v % Room(i) {
      ValueDetermines(Spread(ip, i, u), Spread(ip', i, v), i);
    }
  }

  // --- mixing -------------------------------------------------------------------------------------

  /** One step of the mixer: the carry is combined with a byte by exclusive or and looked up. */
  function Step(tab: bytes, c: byte, x: byte): byte
    requires |tab| == 256
  {
    XorByte(c, x);
    tab[Xor(c, x)]
  }

  /** One pass of the mixer over ip[i..4], entered with carry c. */
  function Pass(tab: bytes, ip: bytes, i: nat, c: byte): (r: bytes)
    requires |tab| == 256 && |ip| == 4 && i <= 4
    ensures |r| == 4 && r[..i] == ip[..i]
    decreases 4 - i
  {
    if i == 4 then ip else var x := Step(tab, c, ip[i]); Pass(tab, ip[i := x], i + 1, x)
  }

  /** n passes; the carry into the next pass is the byte stored last. */
  function Passes(tab: bytes, ip: bytes, i: nat, c: byte, n: nat): (r: bytes)
    requires |tab| == 256 && |ip| == 4 && i < 4
    ensures |r| == 4 && r[..i] == ip[..i]
    decreases n
  {
    if n == 0 then ip else var ip' := Pass(tab, ip, i, c); Passes(tab, ip', i, ip'[3], n - 1)
  }

  lemma SamePlace(tab: bytes, a: byte, b: byte)
    requires IsPermutation(tab) && tab[a] == tab[b]
    ensures a == b
  {
  }

  lemma StepInjective(tab: bytes, c: byte, x: byte, y: byte)
    requires IsPermutation(tab) && Step(tab, c, x) == Step(tab, c, y)
    ensures x == y
  {
    XorByte(c, x);
    XorByte(c, y);
    var a, b := Xor(c, x), Xor(c, y);
    SamePlace(tab, a, b);
    XorCancel(c, x);
    XorCancel(c, y);
  }

  /** A pass with a known carry can be undone. */
  lemma {:induction false} PassInjective(tab: bytes, a: bytes, b: bytes, i: nat, c: byte)
    requires IsPermutation(tab) && |a| == |b| == 4 && i <= 4 && Pass(tab, a, i, c) == Pass(tab, b, i, c)
    ensures a == b
    decreases 4 - i
  {
    hide IsPermutation, Step;
    PermutationSize(tab);
    if i < 4 {
      var x, y := Step(tab, c, a[i]), Step(tab, c, b[i]);
      assert Pass(tab, a[i := x], i + 1, x)[..i + 1][i] == x;
      assert Pass(tab, b[i := y], i + 1, y)[..i + 1][i] == y;
      StepInjective(tab, c, a[i], b[i]);
      PassInjective(tab, a[i := x], b[i := y], i + 1, x);
      assert a == a[i := x][i := a[i]] && b == b[i := y][i := b[i]];
    }
  }

  lemma PermutationSize(tab: bytes)
    requires IsPermutation(tab)
    ensures |tab| == 256
  {
  }

  /** With two or more free bytes the last input byte shows in the last two output bytes. */
  lemma {:induction false} PassLast(tab: bytes, ip: bytes, i: nat, c: byte)
    requires |tab| == 256 && |ip| == 4 && i <= 2
    ensures Pass(tab, ip, i, c)[3] == Step(tab, Pass(tab, ip, i, c)[2], ip[3])
    decreases 4 - i
  {
    hide Step;
    var x := Step(tab, c, ip[i]);
    if i < 2 {
      PassLast(tab, ip[i := x], i + 1, x);
    } else {
      var y := Step(tab, x, ip[3]);
      assert Pass(tab, ip[2 := x], 3, x) == Pass(tab, ip[2 := x][3 := y], 4, y) == ip[2 := x][3 := y];
    }
  }

  /** A pass whose carry is the last input byte can be undone as well. */
  lemma ChainedPassInjective(tab: bytes, a: bytes, b: bytes, i: nat)
    requires IsPermutation(tab) && |a| == |b| == 4 && i <= 2
    requires Pass(tab, a, i, a[3]) == Pass(tab, b, i, b[3])
    ensures a == b
  {
    hide IsPermutation, Step, Pass;
    PermutationSize(tab);
    PassLast(tab, a, i, a[3]);
    PassLast(tab, b, i, b[3]);
    StepInjective(tab, Pass(tab, a, i, a[3])[2], a[3], b[3]);
    PassInjective(tab, a, b, i, a[3]);
  }

  lemma {:induction false} ChainedPassesInjective(tab: bytes, a: bytes, b: bytes, i: nat, n: nat)
    requires IsPermutation(tab) && |a| == |b| == 4 && i <= 2
    requires Passes(tab, a, i, a[3], n) == Passes(tab, b, i, b[3], n)
    ensures a == b
    decreases n
  {
    hide IsPermutation, Step, Pass;
    PermutationSize(tab);
    if n > 0 {
      ChainedPassesInjective(tab, Pass(tab, a, i, a[3]), Pass(tab, b, i, b[3]), i, n - 1);
      ChainedPassInjective(tab, a, b, i);
    }
  }

  /** All the passes of one address, the first of which is entered with carry 0. */
  lemma PassesInjective(tab: bytes, a: bytes, b: bytes, i: nat, n: nat)
    requires IsPermutation(tab) && |a| == |b| == 4 && i <= 2
    requires Passes(tab, a, i, 0, n) == Passes(tab, b, i, 0, n)
    ensures a == b
  {
    hide IsPermutation, Step, Pass;
    PermutationSize(tab);
    if n > 0 {
      ChainedPassesInjective(tab, Pass(tab, a, i, 0), Pass(tab, b, i, 0), i, n - 1);
      PassInjective(tab, a, b, i, 0);
    }
  }

  // --- the addresses ------------------------------------------------------------------------------

  /** The address for counter u when the first `fixed` bytes of ip are given. */
  function Address(tab: bytes, ip: bytes, fixed: nat, u: nat): (r: bytes)
    requires |tab| == 256 && |ip| == 4 && fixed <= 4
    ensures |r| == 4 && r[..fixed] == ip[..fixed]
  {
    var s := Spread(ip, fixed, u);
    if fixed == 4 then s
    else if fixed == 3 then s[3 := tab[s[3]]]
    else Passes(tab, s, fixed, 0, 100)
  }

  /** Two counters give the same address exactly when they agree modulo the number of free settings. */
  lemma SameAddress(tab: bytes, ip: bytes, fixed: nat, u: nat, v: nat)
    requires IsPermutation(tab) && |ip| == 4 && fixed <= 4
    ensures |tab| == 256
    ensures Address(tab, ip, fixed, u) == Address(tab, ip, fixed, v) <==> u % Room(fixed) == v % Room(fixed)
  {
    hide Spread, Passes, Room;
    PermutationSize(tab);
    SpreadEqual(ip, ip, fixed, u, v);
    var s, t := Spread(ip, fixed, u), Spread(ip, fixed, v);
    if Address(tab, ip, fixed, u) == Address(tab, ip, fixed, v) {
      if fixed == 3 {
        LastByteMapped(tab, s, t);
      } else if fixed < 3 {
        PassesInjective(tab, s, t, fixed, 100);
      }
    }
  }

  lemma LastByteMapped(tab: bytes, s: bytes, t: bytes)
    requires IsPermutation(tab) && |s| == |t| == 4 && s[3 := tab[s[3]]] == t[3 := tab[t[3]]]
    ensures s == t
  {
    var a, b := s[3], t[3];
    assert s[3 := tab[a]][3] == t[3 := tab[b]][3];
    SamePlace(tab, a, b);
    assert s == s[3 := tab[a]][3 := a] && t == t[3 := tab[b]][3 := b];
  }

  /** The bytes from number `fixed` on take the digits of the counter, lowest first. */
  method SpreadCounter(ip: array<byte>, fixed: nat, u0: nat)
    requires ip.Length == 4 && fixed <= 4
    modifies ip
    ensures ip[..] == Spread(old(ip[..]), fixed, u0)
  {
    var u := u0;
    for i := fixed to 4
      invariant Spread(ip[..], i, u) == Spread(old(ip[..]), fixed, u0)
    {
      ghost var was := ip[..];
      ip[i] := u % 256;
      assert ip[..] == was[i := u % 256];
      u := u / 256;
    }
  }

  /** The mixing loops of main. */
  method Mix(tab: array<byte>, ip: array<byte>, fixed: nat)
    requires tab.Length == 256 && ip.Length == 4 && fixed < 3 && tab != ip
    modifies ip
    ensures ip[..] == Passes(tab[..], old(ip[..]), fixed, 0, 100)
  {
    hide Step;
    ghost var t := tab[..];
    var c: byte := 0;
    for j := 0 to 100
      invariant tab[..] == t
      invariant Passes(t, ip[..], fixed, c, 100 - j) == Passes(t, old(ip[..]), fixed, 0, 100)
    {
      ghost var before, carry := ip[..], c;
      for i := fixed to 4
        invariant tab[..] == t && (i == 4 ==> c == ip[3])
        invariant Pass(t, ip[..], i, c) == Pass(t, before, fixed, carry)
      {
        ghost var was := ip[..];
        c := StepByte(tab, c, ip[i]);
        ip[i] := c;
        assert ip[..] == was[i := c];
      }
    }
  }

  method StepByte(tab: array<byte>, c: byte, x: byte) returns (r: byte)
    requires tab.Length == 256
    ensures r == Step(tab[..], c, x)
  {
    XorByte(c, x);
    var mixed := Xor(c, x);
    r := tab[mixed];
  }

  /** The clamping of the -loops argument by the number of fixed bytes; without fixed bytes there is none. */
  function Clamped(fixed: nat, loops: nat): nat
    requires fixed <= 4
  {
    if fixed >= 1 && loops > Room(fixed) then Room(fixed) else loops
  }

  /** The four clamping statements, one after the other. */
  method Clamp(fixed: nat, loops: nat) returns (r: nat)
    requires fixed <= 4
    ensures r == Clamped(fixed, loops)
  {
    r := loops;
    if fixed >= 1 { if r > 16777216 { r := 16777216; } }
    if fixed >= 2 { if r > 65536 { r := 65536; } }
    if fixed >= 3 { if r > 256 { r := 256; } }
    if fixed >= 4 { if r > 1 { r := 1; } }
  }

  /**
   * main: the addresses in the order they are printed. None is printed twice, except when no byte is fixed and
   * more than 2^32 addresses are asked for.
   */
  method Addresses(given: bytes, loops0: nat, tab: array<byte>) returns (out: seq<bytes>)
    requires |given| <= 4 && IsPermutation(tab[..])
    ensures |out| == Clamped(|given|, loops0) && forall k :: 0 <= k < |out| ==> |out[k]| == 4 && given <= out[k]
    ensures (forall j, k :: 0 <= j < k < |out| ==> out[j] != out[k]) <==> (given != [] || loops0 <= 0x1_0000_0000)
  {
    hide Passes, Spread, IsPermutation, Address;
    PermutationSize(tab[..]);
    var fixed := |given|;
    var ip := new byte[4](_ => 0);
    for i := 0 to fixed
      invariant ip[..i] == given[..i]
    {
      ip[i] := given[i];
      assert ip[..i + 1] == ip[..i] + [given[i]];
    }
    ghost var base, t := ip[..], tab[..];
    var loops: nat := Clamp(fixed, loops0);
    ghost var n: nat := loops;
    out := [];
    while loops > 0
      invariant loops <= n && |out| == n - loops && tab[..] == t && ip[..fixed] == base[..fixed]
      invariant forall k :: 0 <= k < |out| ==> out[k] == Address(t, base, fixed, n - 1 - k)
    {
      loops := loops - 1;
      SpreadEqual(ip[..], base, fixed, loops, loops);
      SpreadCounter(ip, fixed, loops);
      MixCounter(tab, ip, fixed);
      AddressOfSpread(t, base, fixed, loops);
      out := out + [ip[..]];
    }
    NoneTwice(t, base, fixed, n, out);
    assert base[..fixed] == given;
  }

  /** The branches on ipfixed in main. */
  method MixCounter(tab: array<byte>, ip: array<byte>, fixed: nat)
    requires tab.Length == 256 && ip.Length == 4 && fixed <= 4 && tab != ip
    modifies ip
    ensures ip[..] == Mixed(tab[..], old(ip[..]), fixed)
  {
    hide Passes;
    if fixed == 3 {
      var c := ip[3];
      ip[3] := tab[c];
    } else if fixed < 3 {
      Mix(tab, ip, fixed);
    }
  }

  function Mixed(tab: bytes, s: bytes, fixed: nat): bytes
    requires |tab| == 256 && |s| == 4 && fixed <= 4
  {
    if fixed == 4 then s else if fixed == 3 then s[3 := tab[s[3]]] else Passes(tab, s, fixed, 0, 100)
  }

  lemma AddressOfSpread(tab: bytes, ip: bytes, fixed: nat, u: nat)
    requires |tab| == 256 && |ip| == 4 && fixed <= 4
    ensures Mixed(tab, Spread(ip, fixed, u), fixed) == Address(tab, ip, fixed, u)
  {
    hide Passes, Spread;
  }

  lemma NoneTwice(tab: bytes, ip: bytes, fixed: nat, n: nat, out: seq<bytes>)
    requires IsPermutation(tab) && |tab| == 256 && |ip| == 4 && fixed <= 4 && |out| == n
    requires forall k :: 0 <= k < n ==> out[k] == Address(tab, ip, fixed, n - 1 - k)
    ensures (forall j, k :: 0 <= j < k < n ==> out[j] != out[k]) <==> n <= Room(fixed)
  {
    hide IsPermutation, Address, Room;
    if n <= Room(fixed) {
      forall j, k | 0 <= j < k < n
        ensures out[j] != out[k]
      {
        SameAddress(tab, ip, fixed, n - 1 - j, n - 1 - k);
        SmallMod(n - 1 - j, Room(fixed));
        SmallMod(n - 1 - k, Room(fixed));
      }
    } else {
      var k := Room(fixed);
      SameAddress(tab, ip, fixed, n - 1, n - 1 - k);
      ModPeriod(n - 1 - k, k);
      assert out[0] == out[k];
    }
  }

  lemma SmallMod(u: nat, m: nat)
    requires u < m
    ensures u % m == u
  {
  }

  lemma ModPeriod(u: nat, m: nat)
    requires m > 0
    ensures (u + m) % m == u % m
  {
    assert u == m * (u / m) + u % m;
    assert u + m == m * (u / m + 1) + u % m;
    ModUnique(u + m, m, u / m + 1, u % m);
  }

  lemma ModUnique(x: int, m: nat, q: int, r: nat)
    requires m > 0 && r < m && x == m * q + r
    ensures x % m == r
  {
    var d := x / m - q;
    assert m * d + x % m == r;
    TooFar(m, d, x % m, r);
  }

  lemma TooFar(m: nat, d: int, a: nat, r: nat)
    requires a < m && r < m && m * d + a == r
    ensures d == 0
  {
    assert d >= 1 ==> m * d >= m;
    assert d <= -1 ==> m * d + m <= 0;
  }
}
