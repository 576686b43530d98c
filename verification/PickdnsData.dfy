/** pickdns-data.c: sorting the addresses and writing one record per location and name. */
module PickdnsData {
  import opened Bytes
  import opened Domain
  import opened Heapsort

  /** struct address; the name is a lower-cased wire-form name, the location two bytes. */
  datatype Address = Address(name: bytes, ip: bytes, loc0: byte, loc1: byte)

  /** address_diff: location, then length of the name, then the name. */
  function AddressDiff(p: Address, q: Address): int {
    if p.loc0 != q.loc0 then (if p.loc0 < q.loc0 then -1 else 1)
    else if p.loc1 != q.loc1 then (if p.loc1 < q.loc1 then -1 else 1)
    else if |p.name| < |q.name| then -1
    else if |p.name| > |q.name| then 1
    else CaseDiff(p.name, q.name)
  }

  predicate AddressLess(p: Address, q: Address) {
    AddressDiff(p, q) < 0
  }

  /** Swapping the addresses changes the sign, so the two tests in the sort agree. */
  lemma AddressDiffSwap(p: Address, q: Address)
    ensures AddressDiff(p, q) == -AddressDiff(q, p)
  {
    if |p.name| == |q.name| {
      CaseDiffSwap(p.name, q.name);
    }
  }

  lemma AddressTransitive(p: Address, q: Address, r: Address)
    requires AddressDiff(p, q) <= 0 && AddressDiff(q, r) <= 0
    ensures AddressDiff(p, r) <= 0
  {
    if |p.name| == |q.name| == |r.name| {
      if CaseDiff(p.name, q.name) <= 0 && CaseDiff(q.name, r.name) <= 0 {
        CaseDiffTransitive(p.name, q.name, r.name);
      }
    }
  }

  lemma AddressOrders()
    ensures Orders(AddressLess)
  {
    hide AddressDiff;
    forall p: Address, q: Address | AddressLess(p, q)
      ensures AtMost(AddressLess, p, q)
    {
      AddressDiffSwap(p, q);
    }
    forall p: Address, q: Address, r: Address | AtMost(AddressLess, p, q) && AtMost(AddressLess, q, r)
      ensures AtMost(AddressLess, p, r)
    {
      AddressDiffSwap(p, q);
      AddressDiffSwap(q, r);
      AddressDiffSwap(p, r);
      AddressTransitive(p, q, r);
    }
  }

  /** Equal for address_diff: the same location, and the same name up to case. */
  lemma AddressDiffZero(p: Address, q: Address)
    ensures AddressDiff(p, q) == 0 <==> p.loc0 == q.loc0 && p.loc1 == q.loc1 && Same(p.name, q.name)
  {
    if |p.name| == |q.name| {
      CaseDiffZero(p.name, q.name);
    } else {
      assert |LowerAll(p.name)| != |LowerAll(q.name)|;
    }
  }

  /** address_sort. */
  method AddressSort(z: array<Address>)
    modifies z
    ensures Sorted(AddressLess, z[..])
    ensures multiset(z[..]) == multiset(old(z[..]))
  {
    AddressOrders();
    Sort(z, AddressLess);
  }

  /** In a sorted sequence, a maximal run of equal elements holds every element equal to its first. */
  lemma RunIsComplete(s: seq<Address>, i: nat, j: nat, k: nat)
    requires Sorted(AddressLess, s) && i < j <= |s| && k < |s|
    requires forall x :: i <= x < j ==> AddressDiff(s[i], s[x]) == 0
    requires i > 0 ==> AddressDiff(s[i - 1], s[i]) != 0
    requires j < |s| ==> AddressDiff(s[i], s[j]) != 0
    ensures AddressDiff(s[i], s[k]) == 0 <==> i <= k < j
  {
    hide AddressDiff;
    if k < i && AddressDiff(s[i], s[k]) == 0 {
      AddressDiffSwap(s[i], s[k]);
      Between(s, k, i - 1, i);
    } else if k > j && AddressDiff(s[i], s[k]) == 0 {
      Between(s, i, j, k);
    }
  }

  /** Between two equal elements of a sorted sequence everything is equal. */
  lemma Between(s: seq<Address>, x: nat, y: nat, z: nat)
    requires Sorted(AddressLess, s) && x <= y < z < |s| && AddressDiff(s[x], s[z]) == 0
    ensures AddressDiff(s[x], s[y]) == 0 && AddressDiff(s[y], s[z]) == 0
  {
    hide AddressDiff;
    AddressDiffSwap(s[x], s[y]);
    AddressDiffSwap(s[y], s[z]);
    AddressDiffSwap(s[x], s[z]);
    assert AtMost(AddressLess, s[y], s[z]);
    assert x < y ==> AtMost(AddressLess, s[x], s[y]);
    if x < y {
      AddressTransitive(s[z], s[x], s[y]);
      AddressTransitive(s[y], s[z], s[x]);
    }
  }

  /** The record of one location and name: the key, and the addresses. */
  datatype Entry = Entry(key: bytes, data: bytes)

  /** "+", location, name. */
  function KeyOf(a: Address): bytes {
    [43, a.loc0, a.loc1] + a.name
  }

  /** The addresses among s that have a's location and name, one after the other. */
  function IpsOf(s: seq<Address>, a: Address): bytes {
    if s == [] then []
    else IpsOf(s[..|s| - 1], a) + (if AddressDiff(a, s[|s| - 1]) == 0 then s[|s| - 1].ip else [])
  }

  lemma {:induction false} IpsOfSkip(s: seq<Address>, a: Address, lo: nat, hi: nat)
    requires lo <= hi <= |s|
    requires forall k :: lo <= k < hi ==> AddressDiff(a, s[k]) != 0
    ensures IpsOf(s[..hi], a) == IpsOf(s[..lo], a)
    decreases hi
  {
    hide AddressDiff;
    if lo < hi {
      IpsOfSkip(s, a, lo, hi - 1);
      assert s[..hi][..hi - 1] == s[..hi - 1];
    }
  }

  /** The record that the run beginning at i must give: all addresses equal to s[i], wherever they are. */
  function EntryFor(s: seq<Address>, i: nat): Entry
    requires i < |s|
  {
    Entry(KeyOf(s[i]), IpsOf(s, s[i]))
  }

  /** Where runs begin: each address is equal to exactly one of these. */
  ghost predicate Begins(s: seq<Address>, first: seq<nat>, upto: nat)
    requires upto <= |s|
  {
    && (forall m :: 0 <= m < |first| ==> first[m] < upto)
    && (forall m, n :: 0 <= m < n < |first| ==> AddressDiff(s[first[m]], s[first[n]]) != 0)
    && (forall k: nat :: k < upto ==> exists m :: 0 <= m < |first| && AddressDiff(s[first[m]], s[k]) == 0)
  }

  /**
   * The loop after the sort: one record per location and name, with every address that belongs to it. The second
   * result says which address began each record.
   */
  method GroupRecords(s: seq<Address>) returns (recs: seq<Entry>, first: seq<nat>)
    requires Sorted(AddressLess, s)
    ensures |recs| == |first| && Begins(s, first, |s|)
    ensures forall m :: 0 <= m < |recs| ==> recs[m] == EntryFor(s, first[m])
  {
    hide AddressDiff, IpsOf, Sorted, Begins;
    recs, first := [], [];
    var i := 0;
    NothingBegun(s);
    while i < |s|
      invariant i <= |s| && |recs| == |first| && Begins(s, first, i)
      invariant forall m :: 0 <= m < |first| ==> first[m] < |s|
      invariant forall m :: 0 <= m < |recs| ==> recs[m] == EntryFor(s, first[m])
      invariant 0 < i < |s| ==> AddressDiff(s[i - 1], s[i]) != 0
    {
      var j := i + 1;
      AddressDiffSwap(s[i], s[i]);
      while j < |s|
        invariant i < j <= |s| && forall x :: i <= x < j ==> AddressDiff(s[i], s[x]) == 0
      {
        if AddressDiff(s[i], s[j]) != 0 {
          break;
        }
        j := j + 1;
      }
      var key, result := [43, s[i].loc0, s[i].loc1] + s[i].name, [];
      var from := i;
      IpsBefore(s, from, j);
      while i < j
        invariant from <= i <= j && result == IpsOf(s[..i], s[from])
      {
        IpsNext(s, s[from], i);
        result := result + s[i].ip;
        i := i + 1;
      }
      IpsAfter(s, from, j);
      RunBegins(s, first, from, j);
      recs, first := recs + [Entry(key, result)], first + [from];
      if j < |s| {
        RunEnds(s, from, j);
      }
    }
  }

  lemma NothingBegun(s: seq<Address>)
    ensures Begins(s, [], 0)
  {
  }

  /** A maximal run i..j, as the loop finds it. */
  ghost predicate Run(s: seq<Address>, i: nat, j: nat) {
    && i < j <= |s|
    && (forall x :: i <= x < j ==> AddressDiff(s[i], s[x]) == 0)
    && (i > 0 ==> AddressDiff(s[i - 1], s[i]) != 0)
    && (j < |s| ==> AddressDiff(s[i], s[j]) != 0)
  }

  lemma IpsBefore(s: seq<Address>, i: nat, j: nat)
    requires Sorted(AddressLess, s) && Run(s, i, j)
    ensures IpsOf(s[..i], s[i]) == []
  {
    hide AddressDiff;
    forall k | 0 <= k < i
      ensures AddressDiff(s[i], s[k]) != 0
    {
      RunIsComplete(s, i, j, k);
    }
    IpsOfSkip(s, s[i], 0, i);
  }

  lemma IpsNext(s: seq<Address>, a: Address, i: nat)
    requires i < |s| && AddressDiff(a, s[i]) == 0
    ensures IpsOf(s[..i + 1], a) == IpsOf(s[..i], a) + s[i].ip
  {
    hide AddressDiff;
    assert s[..i + 1][..i] == s[..i];
  }

  lemma IpsAfter(s: seq<Address>, i: nat, j: nat)
    requires Sorted(AddressLess, s) && Run(s, i, j)
    ensures IpsOf(s[..j], s[i]) == IpsOf(s, s[i])
  {
    hide AddressDiff;
    forall k | j <= k < |s|
      ensures AddressDiff(s[i], s[k]) != 0
    {
      RunIsComplete(s, i, j, k);
    }
    IpsOfSkip(s, s[i], j, |s|);
    assert s[..|s|] == s;
  }

  ghost predicate Apart(s: seq<Address>, first: seq<nat>) {
    && (forall m :: 0 <= m < |first| ==> first[m] < |s|)
    && (forall m, n :: 0 <= m < n < |first| ==> AddressDiff(s[first[m]], s[first[n]]) != 0)
  }

  lemma NewBeginning(s: seq<Address>, first: seq<nat>, i: nat, j: nat)
    requires Sorted(AddressLess, s) && Run(s, i, j) && Apart(s, first)
    requires forall m :: 0 <= m < |first| ==> first[m] < i
    ensures Apart(s, first + [i])
  {
    hide AddressDiff, Sorted, Run;
    var f := first + [i];
    RunInside(s, i, j);
    forall m, n | 0 <= m < n < |f|
      ensures AddressDiff(s[f[m]], s[f[n]]) != 0
    {
      if n == |first| {
        NotInRun(s, i, j, first[m]);
      }
    }
  }

  lemma RunInside(s: seq<Address>, i: nat, j: nat)
    requires Run(s, i, j)
    ensures i < j <= |s|
  {
    hide AddressDiff;
  }

  lemma NotInRun(s: seq<Address>, i: nat, j: nat, k: nat)
    requires Sorted(AddressLess, s) && Run(s, i, j) && k < i
    ensures AddressDiff(s[k], s[i]) != 0
  {
    hide AddressDiff, Sorted;
    RunIsComplete(s, i, j, k);
    AddressDiffSwap(s[i], s[k]);
  }

  lemma RunBegins(s: seq<Address>, first: seq<nat>, i: nat, j: nat)
    requires Sorted(AddressLess, s) && Run(s, i, j) && Begins(s, first, i)
    ensures Begins(s, first + [i], j)
  {
    hide AddressDiff, Sorted;
    var f := first + [i];
    NewBeginning(s, first, i, j);
    forall k: nat | k < j
      ensures exists m :: 0 <= m < |f| && AddressDiff(s[f[m]], s[k]) == 0
    {
      if k < i {
        var m :| 0 <= m < |first| && AddressDiff(s[first[m]], s[k]) == 0;
        assert f[m] == first[m];
      } else {
        assert f[|first|] == i;
      }
    }
  }

  lemma RunEnds(s: seq<Address>, i: nat, j: nat)
    requires Sorted(AddressLess, s) && Run(s, i, j) && j < |s|
    ensures AddressDiff(s[j - 1], s[j]) != 0
  {
    hide AddressDiff, Sorted;
    if AddressDiff(s[j - 1], s[j]) == 0 {
      AddressDiffTransitiveZero(s[i], s[j - 1], s[j]);
    }
  }

  lemma AddressDiffTransitiveZero(p: Address, q: Address, r: Address)
    requires AddressDiff(p, q) == 0 && AddressDiff(q, r) == 0
    ensures AddressDiff(p, r) == 0
  {
    hide AddressDiff;
    AddressTransitive(p, q, r);
    AddressDiffSwap(p, q);
    AddressDiffSwap(q, r);
    AddressTransitive(r, q, p);
    AddressDiffSwap(p, r);
  }
}
