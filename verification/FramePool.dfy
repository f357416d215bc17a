/**
 The reference-counted buffer pool of src/media/frame_pool.c. A frame is named by its
 index in the pool's frame table.
 */
module FramePool {
  import opened Bytes

  // -------------------------------------------------------------------------
  // The pool as a value
  // -------------------------------------------------------------------------

  /** Reference counts and pool indices by frame, and the stack of free frames. */
  datatype Pool = Pool(refcount: seq<int>, poolIndex: seq<int>, free: seq<int>)

  predicate Sized(p: Pool) {
    |p.poolIndex| == |p.refcount| && forall k :: 0 <= k < |p.free| ==> 0 <= p.free[k] < |p.refcount|
  }

  /** The locked part of frame_pool_acquire: the top of the free stack. */
  function Pop(p: Pool): (r: (Pool, Option<int>)) {
    if p.free == [] then (p, None)
    else (p.(free := p.free[..|p.free| - 1]), Some(p.free[|p.free| - 1]))
  }

  /** The rest of frame_pool_acquire: the header is cleared and one reference held. */
  function Init(p: Pool, f: nat): (r: Pool)
    requires Sized(p) && f < |p.refcount|
  {
    p.(refcount := p.refcount[f := 1], poolIndex := p.poolIndex[f := f])
  }

  /** frame_ref. */
  function Ref(p: Pool, f: nat): (r: Pool)
    requires Sized(p) && f < |p.refcount|
  {
    p.(refcount := p.refcount[f := p.refcount[f] + 1])
  }

  /** The outcomes of frame_unref; the last two are the error messages of the source. */
  datatype Outcome = Kept | Returned | DoubleUnref | FreeListOverflow

  function Unref(p: Pool, f: nat): (r: (Pool, Outcome))
    requires Sized(p) && f < |p.refcount|
  {
    if p.refcount[f] <= 0 then (p, DoubleUnref)
    else
      var q := p.(refcount := p.refcount[f := p.refcount[f] - 1]);
      if q.refcount[f] <= 0 && p.poolIndex[f] >= 0 then
        if |p.free| >= |p.refcount| then (q.(poolIndex := p.poolIndex[f := -1]), FreeListOverflow)
        else (q.(poolIndex := p.poolIndex[f := -1], free := p.free + [p.poolIndex[f]]), Returned)
      else (q, Kept)
  }

  predicate Distinct(s: seq<int>) {
    forall i, j :: 0 <= i < j < |s| ==> s[i] != s[j]
  }

  /** The pool agrees with a count of owners per frame. A popped frame has left the free
      list but holds no reference yet. */
  ghost predicate Exact(p: Pool, owners: seq<int>, popped: Option<int>) {
    && Sized(p) && |owners| == |p.refcount|
    && Distinct(p.free)
    && (forall f :: 0 <= f < |owners| ==> 0 <= owners[f] == p.refcount[f])
    && (forall f :: 0 <= f < |owners| ==> (f in p.free <==> owners[f] == 0 && popped != Some(f)))
    && (forall f :: 0 <= f < |owners| && owners[f] > 0 ==> p.poolIndex[f] == f)
    && (popped.Some? ==> 0 <= popped.value < |owners| && owners[popped.value] == 0)
  }

  lemma PopExact(p: Pool, owners: seq<int>)
    requires Exact(p, owners, None)
    ensures var (q, f) := Pop(p); Exact(q, owners, f) && (f.None? <==> forall g :: 0 <= g < |owners| ==> owners[g] > 0)
  {
    var (q, f) := Pop(p);
    if f.Some? {
      var k := |p.free| - 1;
      assert p.free == q.free + [p.free[k]];
      assert owners[f.value] == 0 by {
        assert f.value in p.free;
      }
      forall g | 0 <= g < |owners|
        ensures g in q.free <==> owners[g] == 0 && f != Some(g)
      {
        if g in q.free {
          assert g in p.free;
        }
      }
    }
  }

  lemma InitExact(p: Pool, owners: seq<int>, f: nat)
    requires Exact(p, owners, Some(f))
    ensures Exact(Init(p, f), owners[f := 1], None)
  {
  }

  lemma RefExact(p: Pool, owners: seq<int>, f: nat)
    requires Exact(p, owners, None) && f < |owners| && owners[f] > 0
    ensures Exact(Ref(p, f), owners[f := owners[f] + 1], None)
  {
  }

  /** The frames of a pool of n. */
  function Frames(n: nat): (r: set<int>)
    ensures |r| == n
    ensures forall k :: k in r <==> 0 <= k < n
  {
    if n == 0 then {} else Frames(n - 1) + {n - 1}
  }

  function Elements(s: seq<int>): (r: set<int>)
    ensures forall x :: x in r <==> x in s
    ensures |r| <= |s|
    ensures Distinct(s) ==> |r| == |s|
  {
    if s == [] then {}
    else
      var k := |s| - 1;
      assert s == s[..k] + [s[k]];
      Elements(s[..k]) + {s[k]}
  }

  lemma {:induction false} SubsetSize<T>(a: set<T>, b: set<T>)
    requires a <= b
    ensures |a| <= |b|
    decreases |a|
  {
    if |a| > 0 {
      var x :| x in a;
      SubsetSize(a - {x}, b - {x});
    }
  }

  /** A stack of distinct frames that misses one of them is not full. */
  lemma Room(s: seq<int>, n: nat, f: int)
    requires Distinct(s) && (forall k :: 0 <= k < |s| ==> 0 <= s[k] < n) && 0 <= f < n && f !in s
    ensures |s| < n
  {
    SubsetSize(Elements(s), Frames(n) - {f});
  }

  /** Giving up a reference that is held: neither error message can appear. */
  lemma UnrefExact(p: Pool, owners: seq<int>, popped: Option<int>, f: nat)
    requires Exact(p, owners, popped) && f < |owners| && owners[f] > 0
    ensures var (q, outcome) := Unref(p, f);
            && Exact(q, owners[f := owners[f] - 1], popped)
            && outcome == if owners[f] == 1 then Returned else Kept
  {
    if owners[f] == 1 {
      assert f !in p.free;
      Room(p.free, |owners|, f);
      var q := Unref(p, f).0;
      assert q.free == p.free + [f];
    }
  }

  // -------------------------------------------------------------------------
  // The pool itself
  // -------------------------------------------------------------------------

  class FramePool {
    const refcount: array<int>
    const poolIndex: array<int>
    const freeList: array<int>
    const count: nat
    var freeCount: nat

    ghost predicate Valid()
      reads this, refcount, poolIndex, freeList
    {
      && refcount.Length == poolIndex.Length == freeList.Length == count
      && refcount != poolIndex && refcount != freeList && poolIndex != freeList
      && freeCount <= count
      && (forall k :: 0 <= k < freeCount ==> 0 <= freeList[k] < count)
      && forall k :: 0 <= k < count ==> poolIndex[k] == k || poolIndex[k] == -1
    }

    ghost function View(): Pool
      reads this, refcount, poolIndex, freeList
      requires Valid()
    {
      Pool(refcount[..], poolIndex[..], freeList[..freeCount])
    }

    ghost function Parts(): set<object> {
      {this, refcount, poolIndex, freeList}
    }

    /** frame_pool_create, for a count the source accepts: every frame starts free. */
    constructor (n: nat)
      requires n > 0
      ensures Valid() && count == n && fresh(Parts())
      ensures Exact(View(), seq(n, i => 0), None)
    {
      refcount := new int[n](i => 0);
      poolIndex := new int[n](i => i);
      freeList := new int[n](i => i);
      count := n;
      freeCount := n;
      new;
      assert freeList[..n] == freeList[..];
      forall f | 0 <= f < n
        ensures f in View().free
      {
        assert View().free[f] == f;
      }
    }

    /** frame_pool_acquire: None when the pool is momentarily empty. */
    method Acquire() returns (f: Option<int>)
      requires Valid()
      modifies this`freeCount, refcount, poolIndex
      ensures Valid()
      ensures var (p, g) := Pop(old(View()));
              f == g && View() == if g.Some? then Init(p, g.value) else p
    {
      if freeCount == 0 {
        return None;
      }
      freeCount := freeCount - 1;
      var index := freeList[freeCount];
      refcount[index] := 1;
      poolIndex[index] := index;
      f := Some(index);
    }

    /** frame_ref. */
    method AddRef(f: nat)
      requires Valid() && f < count
      modifies refcount
      ensures Valid() && View() == Ref(old(View()), f)
    {
      refcount[f] := refcount[f] + 1;
    }

    /** frame_unref. */
    method Release(f: nat) returns (outcome: Outcome)
      requires Valid() && f < count
      modifies this`freeCount, refcount, poolIndex, freeList
      ensures Valid() && (View(), outcome) == Unref(old(View()), f)
    {
      if refcount[f] <= 0 {
        return DoubleUnref;
      }
      refcount[f] := refcount[f] - 1;
      outcome := Kept;
      if refcount[f] <= 0 && poolIndex[f] >= 0 {
        if freeCount >= count {
          outcome := FreeListOverflow;
        } else {
          freeList[freeCount] := poolIndex[f];
          freeCount := freeCount + 1;
          assert freeList[..freeCount] == old(freeList[..freeCount]) + [poolIndex[f]];
          outcome := Returned;
        }
        poolIndex[f] := -1;
      }
    }
  }
}
