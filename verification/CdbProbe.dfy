/** Why probing a half-full table finds exactly the entries of a hash, in insertion order. */
module CdbProbe {
  import opened Bytes
  import opened CdbFormat

  /** The entries with hash `h` met on the probe path from `s`, from step `k` to the first free slot. */
  function Walk(t: seq<Hp>, s: nat, k: nat, h: uint32): seq<Hp>
    requires s < |t|
    decreases |t| - k
  {
    if k >= |t| || At(t, s, k).p == 0 then []
    else (if At(t, s, k).h == h then [At(t, s, k)] else []) + Walk(t, s, k + 1, h)
  }

  /** No free slot separates an entry from its home. */
  ghost predicate Reachable(t: seq<Hp>) {
    forall h: uint32, k: nat ::
      k < |t| && At(t, Home(h, |t|), k).p != 0 && At(t, Home(h, |t|), k).h == h
      ==> k < FreeStep(t, Home(h, |t|), 0)
  }

  ghost predicate Stored(xs: seq<Hp>) {
    forall i :: 0 <= i < |xs| ==> xs[i].p != 0
  }

  function Occupied(t: seq<Hp>): (c: nat)
    ensures c <= |t|
  {
    if t == [] then 0 else Occupied(t[..|t| - 1]) + (if t[|t| - 1].p != 0 then 1 else 0)
  }

  lemma {:induction false} OccupiedFull(t: seq<Hp>)
    requires Stored(t)
    ensures Occupied(t) == |t|
  {
    if t != [] {
      OccupiedFull(t[..|t| - 1]);
    }
  }

  lemma {:induction false} OccupiedEmpty(t: seq<Hp>)
    requires forall i :: 0 <= i < |t| ==> t[i] == FREE
    ensures Occupied(t) == 0
  {
    if t != [] {
      OccupiedEmpty(t[..|t| - 1]);
    }
  }

  lemma {:induction false} OccupiedUpdate(t: seq<Hp>, i: nat, x: Hp)
    requires i < |t|
    ensures Occupied(t[i := x]) <= Occupied(t) + 1
  {
    var n := |t| - 1;
    if i < n {
      assert t[i := x][..n] == t[..n][i := x];
      OccupiedUpdate(t[..n], i, x);
    } else {
      assert t[i := x][..n] == t[..n];
    }
  }

  /** A table that is not full has a free slot on every probe path. */
  lemma SomeSlotFree(t: seq<Hp>, s: nat)
    requires s < |t| && Occupied(t) < |t|
    ensures FreeStep(t, s, 0) < |t|
  {
    if FreeStep(t, s, 0) == |t| {
      forall j | 0 <= j < |t|
        ensures t[j].p != 0
      {
        var k := if s <= j then j - s else j - s + |t|;
        assert At(t, s, k) == t[j];
      }
      OccupiedFull(t);
    }
  }

  lemma {:induction false} OccupiedInsertAll(t: seq<Hp>, xs: seq<Hp>)
    ensures Occupied(InsertAll(t, xs)) <= Occupied(t) + |xs|
  {
    if xs != [] {
      var x := xs[|xs| - 1];
      var u := InsertAll(t, xs[..|xs| - 1]);
      OccupiedInsertAll(t, xs[..|xs| - 1]);
      if u != [] {
        var s := Home(x.h, |u|);
        var f := FreeStep(u, s, 0);
        if f < |u| {
          OccupiedUpdate(u, Slot(s, f, |u|), x);
        }
      }
    }
  }

  /** Fewer insertions than slots leave a free slot on every path. */
  lemma BuildLeavesFree(n: nat, xs: seq<Hp>, s: nat)
    requires |xs| < n && s < n
    ensures FreeStep(InsertAll(EmptyTable(n), xs), s, 0) < n
  {
    OccupiedInsertAll(EmptyTable(n), xs);
    OccupiedEmpty(EmptyTable(n));
    SomeSlotFree(InsertAll(EmptyTable(n), xs), s);
  }

  lemma {:induction false} FreeStepAtLeast(t: seq<Hp>, s: nat, k: nat, m: nat)
    requires s < |t| && k <= m <= |t|
    requires forall i :: k <= i < m ==> At(t, s, i).p != 0
    ensures FreeStep(t, s, k) >= m
    decreases m - k
  {
    if k < m {
      FreeStepAtLeast(t, s, k + 1, m);
    }
  }

  lemma SlotInjective(s: nat, i: nat, j: nat, n: nat)
    requires s < n && i < n && j < n && Slot(s, i, n) == Slot(s, j, n)
    ensures i == j
  {
  }

  lemma InsertKeepsReachable(t: seq<Hp>, x: Hp)
    requires t != [] && Reachable(t) && x.p != 0
    requires FreeStep(t, Home(x.h, |t|), 0) < |t|
    ensures Reachable(Insert(t, x))
  {
    var n, t' := |t|, Insert(t, x);
    var f := FreeStep(t, Home(x.h, n), 0);
    var w := Slot(Home(x.h, n), f, n);
    forall h: uint32, k: nat | k < n && At(t', Home(h, n), k).p != 0 && At(t', Home(h, n), k).h == h
      ensures k < FreeStep(t', Home(h, n), 0)
    {
      var s := Home(h, n);
      if Slot(s, k, n) == w {
        SlotInjective(s, k, f, n);
      } else {
        assert At(t, s, k) == At(t', s, k);
      }
      forall i | 0 <= i < k
        ensures At(t', s, i).p != 0
      {
        if Slot(s, i, n) != w {
          assert At(t, s, i) == At(t', s, i);
        }
      }
      FreeStepAtLeast(t', s, 0, k + 1);
    }
  }

  lemma {:induction false} WalkNothing(t: seq<Hp>, s: nat, k: nat, h: uint32)
    requires s < |t|
    requires forall i :: k <= i < |t| ==> At(t, s, i).p == 0 || At(t, s, i).h != h
    ensures Walk(t, s, k, h) == []
    decreases |t| - k
  {
    if k < |t| {
      WalkNothing(t, s, k + 1, h);
    }
  }

  /** Inserting `x` appends it to the walk of its own hash and changes no other walk. */
  lemma {:induction false} WalkInsert(t: seq<Hp>, x: Hp, h: uint32, k: nat)
    requires t != [] && Reachable(t) && x.p != 0
    requires FreeStep(t, Home(x.h, |t|), 0) < |t|
    requires k <= FreeStep(t, Home(h, |t|), 0)
    ensures Walk(Insert(t, x), Home(h, |t|), k, h)
         == Walk(t, Home(h, |t|), k, h) + (if x.h == h then [x] else [])
    decreases |t| - k
  {
    var n, t', s := |t|, Insert(t, x), Home(h, |t|);
    var f := FreeStep(t, Home(x.h, n), 0);
    var w := Slot(Home(x.h, n), f, n);
    var g := FreeStep(t, s, 0);
    if k < g {
      assert At(t, s, k).p != 0;
      assert At(t', s, k) == At(t, s, k);
      WalkInsert(t, x, h, k + 1);
    } else if k < n {
      if Slot(s, k, n) == w {
        forall i | k + 1 <= i < n
          ensures At(t', s, i).p == 0 || At(t', s, i).h != h
        {
          if Slot(s, i, n) == w {
            SlotInjective(s, i, k, n);
          }
          assert At(t', s, i) == At(t, s, i);
        }
        WalkNothing(t', s, k + 1, h);
      } else {
        assert At(t', s, k) == At(t, s, k);
      }
    }
  }

  /** The table built from `xs`: walking from the home of `h` meets the entries of `h` in order. */
  lemma {:induction false} WalkBuild(n: nat, xs: seq<Hp>, h: uint32)
    requires |xs| < n && Stored(xs)
    ensures Reachable(InsertAll(EmptyTable(n), xs))
    ensures Walk(InsertAll(EmptyTable(n), xs), Home(h, n), 0, h) == WithHash(xs, h)
  {
    if xs == [] {
      forall s: nat, k: nat | s < n && k < n
        ensures At(EmptyTable(n), s, k).p == 0
      {
      }
      assert InsertAll(EmptyTable(n), xs) == EmptyTable(n);
    } else {
      var init, x := xs[..|xs| - 1], xs[|xs| - 1];
      var t := InsertAll(EmptyTable(n), init);
      WalkBuild(n, init, h);
      BuildLeavesFree(n, init, Home(x.h, n));
      InsertKeepsReachable(t, x);
      WalkInsert(t, x, h, 0);
    }
  }

  lemma {:induction false} BucketKeepsHash(e: seq<Hp>, h: uint32)
    ensures WithHash(Bucket(e, BucketOf(h)), h) == WithHash(e, h)
  {
    if e != [] {
      var init, x := e[..|e| - 1], e[|e| - 1];
      BucketKeepsHash(init, h);
      var rest := Bucket(init, BucketOf(h));
      if BucketOf(x.h) == BucketOf(h) {
        assert (rest + [x])[..|rest|] == rest;
      } else {
        assert Bucket(e, BucketOf(h)) == rest;
      }
    }
  }

  lemma {:induction false} BucketStored(e: seq<Hp>, b: nat)
    requires Stored(e)
    ensures Stored(Bucket(e, b))
  {
    if e != [] {
      BucketStored(e[..|e| - 1], b);
    }
  }

  /** Looking up `h` in the table of its bucket meets all entries with that hash, in insertion order. */
  lemma LookupFindsAll(e: seq<Hp>, h: uint32)
    requires Stored(e) && Bucket(e, BucketOf(h)) != []
    ensures var t := TableOf(Bucket(e, BucketOf(h)));
            Walk(t, Home(h, |t|), 0, h) == WithHash(e, h)
  {
    var xs := Bucket(e, BucketOf(h));
    BucketStored(e, BucketOf(h));
    WalkBuild(2 * |xs|, xs, h);
    BucketKeepsHash(e, h);
  }
}
