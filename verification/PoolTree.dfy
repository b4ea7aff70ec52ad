/**
 * The tree of pools and the handles listed in them (handles.c). A pool's two
 * queues are kept as sequences here; TailQueue shows that the linked queues
 * behave as these.
 */
module PoolTree {

  datatype HandleType = Invalid | Pool | Other(code: nat)
  datatype Message = Close | Clear | Command(code: nat)

  class Handle {
    var dwType: HandleType
    /** For a pool, how many handles and pools it lists. */
    var dwSize: int
    const hPool: Handle?
    var lHandles: seq<Handle>
    var lPools: seq<Handle>
    /** Pools are numbered as they are created. */
    ghost const serial: nat
    /** Listed pools that dwSize does not count because it was set to zero. */
    ghost var forgotten: nat

    constructor (dwType: HandleType, hPool: Handle?, ghost serial: nat)
      ensures this.dwType == dwType && this.hPool == hPool && this.serial == serial
      ensures dwSize == 0 && forgotten == 0 && lHandles == [] && lPools == []
    {
      this.dwType, this.hPool, this.serial := dwType, hPool, serial;
      dwSize, forgotten, lHandles, lPools := 0, 0, [], [];
    }
  }

  ghost predicate NoRepeats<T>(s: seq<T>) {
    forall i, j :: 0 <= i < j < |s| ==> s[i] != s[j]
  }

  lemma NoRepeatsCons<T>(x: T, s: seq<T>)
    ensures NoRepeats([x] + s) <==> x !in s && NoRepeats(s)
  {
    var t := [x] + s;
    assert forall i :: 0 <= i < |s| ==> t[i + 1] == s[i];
    if NoRepeats(t) {
      forall i | 0 <= i < |s|
        ensures s[i] != x
      {
        assert t[0] != t[i + 1];
      }
      forall i, j | 0 <= i < j < |s|
        ensures s[i] != s[j]
      {
        assert t[i + 1] != t[j + 1];
      }
    }
  }

  function Without<T(==)>(s: seq<T>, x: T): seq<T> {
    if s == [] then []
    else if s[0] == x then Without(s[1..], x)
    else [s[0]] + Without(s[1..], x)
  }

  lemma {:induction false} WithoutOne<T>(s: seq<T>, x: T)
    requires NoRepeats(s)
    ensures NoRepeats(Without(s, x))
    ensures forall y :: y in Without(s, x) <==> y in s && y != x
    ensures |Without(s, x)| == if x in s then |s| - 1 else |s|
  {
    if s != [] {
      assert s == [s[0]] + s[1..];
      NoRepeatsCons(s[0], s[1..]);
      WithoutOne(s[1..], x);
      NoRepeatsCons(s[0], Without(s[1..], x));
    }
  }

  /** What stands around the element stays, in its order. */
  lemma {:induction false} WithoutIs<T>(a: seq<T>, x: T, b: seq<T>)
    requires x !in a && x !in b
    ensures Without(a + [x] + b, x) == a + b
    decreases |a|
  {
    var s := a + [x] + b;
    if a == [] {
      assert s[1..] == b && a + b == b;
      WithoutAbsent(b, x);
    } else {
      assert s[1..] == a[1..] + [x] + b && a + b == [a[0]] + (a[1..] + b);
      WithoutIs(a[1..], x, b);
    }
  }

  lemma {:induction false} WithoutAbsent<T>(b: seq<T>, x: T)
    requires x !in b
    ensures Without(b, x) == b
  {
    if b != [] {
      WithoutAbsent(b[1..], x);
    }
  }

  // ----- The tree -----

  /** The pool is p or lies below it in the tree. */
  ghost predicate Below(q: Handle?, p: Handle)
    decreases if q == null then 0 else q.serial + 1
  {
    q != null && (q == p || (q.hPool != null && q.hPool.serial < q.serial && Below(q.hPool, p)))
  }

  ghost predicate BelowSome(q: Handle, subs: seq<Handle>, n: nat)
    requires n <= |subs|
  {
    exists j :: 0 <= j < n && Below(q, subs[j])
  }

  lemma BelowSomeNext(q: Handle, subs: seq<Handle>, n: nat)
    requires n < |subs|
    ensures BelowSome(q, subs, n + 1) <==> BelowSome(q, subs, n) || Below(q, subs[n])
  {
  }

  lemma {:induction false} BelowParent(q: Handle, c: Handle, p: Handle)
    requires Below(q, c) && c.hPool == p && p.serial < c.serial
    ensures Below(q, p) && q != p && q.serial >= c.serial
    decreases q.serial
  {
    if q != c {
      BelowParent(q.hPool, c, p);
    } else {
      assert Below(p, p);
    }
  }

  class Manager {
    const sysPool: Handle
    /** The pools and the other handles that exist and are not closed. */
    ghost var pools: set<Handle>
    ghost var handles: set<Handle>
    ghost var serials: nat

    /** A pool's size counts what it lists; everything listed is alive, once, and knows its pool. */
    ghost predicate PoolOk(p: Handle)
      reads this, p, handles, pools
    {
      && p.dwType == Pool && p.serial < serials
      && NoRepeats(p.lHandles) && NoRepeats(p.lPools)
      && p.forgotten <= |p.lPools|
      && p.dwSize + p.forgotten == |p.lHandles| + |p.lPools|
      && (forall h :: h in p.lHandles ==> h in handles && h.hPool == p)
      && (forall q :: q in p.lPools ==> q in pools && q != sysPool && q.hPool == p)
    }

    /** A handle is neither invalid nor a pool, and stands in its pool's list. */
    ghost predicate HandleOk(h: Handle)
      reads this, h, pools
    {
      && h.dwType != Invalid && h.dwType != Pool
      && h.hPool != null && h.hPool in pools && h in h.hPool.lHandles
    }

    /** A pool other than the system pool stands in the list of an older pool. */
    ghost predicate SubpoolOk(q: Handle)
      reads this, q, pools
    {
      q.hPool != null && q.hPool in pools && q in q.hPool.lPools && q.hPool.serial < q.serial
    }

    ghost predicate Valid()
      reads this, pools, handles
    {
      && sysPool in pools && pools !! handles && sysPool.hPool == null
      && (forall p :: p in pools ==> PoolOk(p))
      && (forall h :: h in handles ==> HandleOk(h))
      && (forall q :: q in pools && q != sysPool ==> SubpoolOk(q))
    }

    constructor ()
      ensures Valid() && AllCounted() && pools == {sysPool} && handles == {} && fresh(sysPool) && sysPool.dwSize == 0
    {
      sysPool := new Handle(Pool, null, 0);
      handles, serials := {}, 1;
      new;
      pools := {sysPool};
    }

    /** Where a null handle stands for the system pool. */
    function PoolOr(h: Handle?): Handle {
      if h == null then sysPool else h
    }

    ghost predicate Known(h: Handle?)
      reads this
    {
      h != null ==> h in pools || h in handles
    }

    /** Nothing about these pools has changed but possibly this one. */
    twostate predicate OthersKept(p: Handle)
      reads this, pools
    {
      forall q :: q in old(pools) && q != p ==>
        q in pools && q.lHandles == old(q.lHandles) && q.lPools == old(q.lPools) && q.dwSize == old(q.dwSize)
        && q.forgotten == old(q.forgotten)
    }

    /** The pool's size is the number of handles and pools that it lists. */
    predicate SizeIsExact(p: Handle)
      reads p
    {
      p.dwSize == |p.lHandles| + |p.lPools|
    }

    /** No pool's size has been set to zero behind its list's back. */
    ghost predicate AllCounted()
      reads this, pools
    {
      forall p :: p in pools ==> p.forgotten == 0
    }

    /** Then every size is exact. */
    lemma SizesAreExact()
      requires Valid() && AllCounted()
      ensures forall p :: p in pools ==> SizeIsExact(p)
    {
      forall p | p in pools
        ensures SizeIsExact(p)
      {
        assert PoolOk(p);
      }
    }

    /** apxHandleCreate: a handle of no type yet, at the head of its pool's list; null if hPool is no pool. */
    method CreateHandle(hPool: Handle?) returns (h: Handle?)
      requires Valid() && Known(hPool)
      modifies this`handles, PoolOr(hPool)
      ensures Valid()
      ensures h == null <==> hPool != null && hPool in old(handles)
      ensures old(AllCounted()) ==> AllCounted()
      ensures h == null ==> handles == old(handles) && OthersKept(sysPool)
      ensures h != null ==>
        var p := PoolOr(hPool);
        && fresh(h) && handles == old(handles) + {h} && h.hPool == p && h.dwType == Other(0)
        && p.lHandles == [h] + old(p.lHandles) && p.lPools == old(p.lPools)
        && p.dwSize == old(p.dwSize) + 1 && p.forgotten == old(p.forgotten) && OthersKept(p)
    {
      var p := PoolOr(hPool);
      if p.dwType != Pool {
        return null;
      }
      h := new Handle(Other(0), p, serials);
      ListHandle(p, h);
    }

    /** TAILQ_INSERT_HEAD on the pool's handles, and the count. */
    method ListHandle(p: Handle, h: Handle)
      requires Valid() && p in pools && h !in pools && h !in handles
      requires h.hPool == p && h.dwType != Invalid && h.dwType != Pool
      modifies this`handles, p`lHandles, p`dwSize
      ensures Valid() && handles == old(handles) + {h}
      ensures p.lHandles == [h] + old(p.lHandles) && p.dwSize == old(p.dwSize) + 1
    {
      assert PoolOk(p);
      assert h !in p.lHandles;
      NoRepeatsCons(h, p.lHandles);
      p.lHandles := [h] + p.lHandles;
      p.dwSize := p.dwSize + 1;
      handles := handles + {h};
      forall q | q in pools
        ensures PoolOk(q)
      {
        assert old(PoolOk(q));
      }
      forall g | g in handles
        ensures HandleOk(g)
      {
        assert g != h ==> old(HandleOk(g));
      }
      forall q | q in pools && q != sysPool
        ensures SubpoolOk(q)
      {
        assert old(SubpoolOk(q));
      }
    }

    /** apxPoolCreate: a pool without content, at the head of its parent's list of pools. */
    method CreatePool(hParent: Handle?) returns (h: Handle?)
      requires Valid() && Known(hParent)
      modifies this`pools, this`serials, PoolOr(hParent)
      ensures Valid() && handles == old(handles)
      ensures h == null <==> hParent != null && hParent in old(handles)
      ensures old(AllCounted()) ==> AllCounted()
      ensures h == null ==> pools == old(pools) && OthersKept(sysPool)
      ensures h != null ==>
        var p := PoolOr(hParent);
        && fresh(h) && pools == old(pools) + {h} && h.hPool == p && h.dwSize == 0 && h.lHandles == [] && h.lPools == []
        && p.lPools == [h] + old(p.lPools) && p.lHandles == old(p.lHandles)
        && p.dwSize == old(p.dwSize) + 1 && p.forgotten == old(p.forgotten) && OthersKept(p)
    {
      var p := PoolOr(hParent);
      if p.dwType != Pool {
        return null;
      }
      h := new Handle(Pool, p, serials);
      ListPool(p, h);
    }

    /** TAILQ_INSERT_HEAD on the pool's pools, and the count. */
    method ListPool(p: Handle, h: Handle)
      requires Valid() && p in pools && h !in pools && h !in handles
      requires h.hPool == p && h.dwType == Pool && h.serial == serials
      requires h.dwSize == 0 && h.forgotten == 0 && h.lHandles == [] && h.lPools == []
      modifies this`pools, this`serials, p`lPools, p`dwSize
      ensures Valid() && pools == old(pools) + {h}
      ensures p.lPools == [h] + old(p.lPools) && p.dwSize == old(p.dwSize) + 1
    {
      assert PoolOk(p);
      assert h !in p.lPools;
      NoRepeatsCons(h, p.lPools);
      serials := serials + 1;
      p.lPools := [h] + p.lPools;
      p.dwSize := p.dwSize + 1;
      pools := pools + {h};
      forall q | q in pools
        ensures PoolOk(q)
      {
        assert q != h ==> old(PoolOk(q));
      }
      forall g | g in handles
        ensures HandleOk(g)
      {
        assert old(HandleOk(g));
      }
      forall q | q in pools && q != sysPool
        ensures SubpoolOk(q)
      {
        assert q != h ==> old(SubpoolOk(q));
      }
    }

    /** apxCloseHandle of a handle that is not a pool; FALSE if there is none or it is closed already. */
    method CloseHandle(hObject: Handle?) returns (rv: bool)
      requires Valid() && (hObject != null && hObject.dwType != Invalid ==> hObject in handles)
      modifies this`handles, if hObject != null then {hObject, hObject.hPool} else {}
      ensures Valid() && pools == old(pools)
      ensures rv <==> hObject != null && old(hObject.dwType) != Invalid
      ensures old(AllCounted()) ==> AllCounted()
      ensures !rv ==> handles == old(handles) && OthersKept(sysPool) && sysPool.lHandles == old(sysPool.lHandles)
      ensures rv ==>
        var p := hObject.hPool;
        && hObject.dwType == Invalid && handles == old(handles) - {hObject}
        && p.lHandles == Without<Handle>(old(p.lHandles), hObject) && p.lPools == old(p.lPools)
        && p.dwSize == old(p.dwSize) - 1 && p.forgotten == old(p.forgotten) && OthersKept(p)
    {
      if hObject == null || hObject.dwType == Invalid {
        return false;
      }
      assert HandleOk(hObject);
      hObject.dwType := Invalid;
      if hObject.hPool != null {
        UnlistHandle(hObject.hPool, hObject);
      }
      return true;
    }

    /** TAILQ_REMOVE from the pool's handles, and the count; the handle is not alive any more. */
    method UnlistHandle(p: Handle, h: Handle)
      requires sysPool in pools && pools !! handles && sysPool.hPool == null
      requires p in pools && h in handles && h.hPool == p && h in p.lHandles
      requires forall q :: q in pools ==> PoolOk(q)
      requires forall g :: g in handles && g != h ==> HandleOk(g)
      requires forall q :: q in pools && q != sysPool ==> SubpoolOk(q)
      modifies this`handles, p`lHandles, p`dwSize
      ensures Valid() && handles == old(handles) - {h}
      ensures p.lHandles == Without(old(p.lHandles), h) && p.dwSize == old(p.dwSize) - 1
    {
      assert PoolOk(p);
      WithoutOne(p.lHandles, h);
      p.lHandles := Without(p.lHandles, h);
      p.dwSize := p.dwSize - 1;
      handles := handles - {h};
      forall q | q in pools
        ensures PoolOk(q)
      {
        assert old(PoolOk(q));
      }
      forall g | g in handles
        ensures HandleOk(g)
      {
        assert old(HandleOk(g));
      }
      forall q | q in pools && q != sysPool
        ensures SubpoolOk(q)
      {
        assert old(SubpoolOk(q));
      }
    }

    /** What the callback leaves of a pool that it reaches, and of one that it does not reach. */
    twostate predicate Drained(q: Handle, reached: bool, uMsg: Message)
      reads q
    {
      && q.lPools == old(q.lPools)
      && q.lHandles == (if reached then [] else old(q.lHandles))
      && (!reached ==> q.dwSize == old(q.dwSize) && q.forgotten == old(q.forgotten))
      && (reached && (uMsg == Close || uMsg == Clear) ==> q.dwSize == 0 && q.forgotten == |q.lPools|)
      && (reached && uMsg != Close && uMsg != Clear ==> q.forgotten == old(q.forgotten))
    }

    /** __apxPoolCallback: closes every handle of the pool and of all pools below it. */
    method PoolCallback(hObject: Handle, uMsg: Message) returns (rv: bool)
      requires Valid() && Known(hObject)
      modifies this`handles, pools, handles
      ensures Valid() && pools == old(pools)
      ensures rv <==> hObject in pools
      ensures !rv ==> handles == old(handles) && OthersKept(hObject)
      ensures rv ==> forall q :: q in pools ==> Drained(q, Below(q, hObject), uMsg)
      ensures rv ==> forall q :: q in pools ==>
        q.lPools == old(q.lPools) && q.lHandles == if Below(q, hObject) then [] else old(q.lHandles)
      ensures rv && uMsg != Close && uMsg != Clear ==> forall q :: q in pools ==> q.forgotten == old(q.forgotten)
      ensures handles <= old(handles)
      ensures rv ==> forall h :: h in old(handles) ==> (h in handles <==> !Below(h.hPool, hObject))
      ensures rv && (uMsg == Close || uMsg == Clear) ==>
        forall q :: q in pools && Below(q, hObject) ==> (SizeIsExact(q) <==> q.lPools == [])
      decreases serials - hObject.serial, 1
    {
      assert hObject in handles ==> HandleOk(hObject);
      assert hObject in pools ==> PoolOk(hObject);
      if hObject.dwType != Pool {
        return false;
      }
      DrainSubpools(hObject, uMsg);
      DrainHandles(hObject);
      if uMsg == Close || uMsg == Clear {
        ForgetSize(hObject);
      }
      forall q | q in pools
        ensures Drained(q, Below(q, hObject), uMsg)
      {
        BelowOneOf(q, hObject);
      }
      forall h | h in old(handles)
        ensures h in handles <==> !Below(h.hPool, hObject)
      {
        assert old(HandleOk(h));
        assert PoolOk(h.hPool) && Drained(h.hPool, Below(h.hPool, hObject), uMsg);
        assert h in handles ==> HandleOk(h);
      }
      return true;
    }

    /** The loop over the pools listed in p. */
    method DrainSubpools(p: Handle, uMsg: Message)
      requires Valid() && p in pools
      modifies this`handles, pools, handles
      ensures Valid() && pools == old(pools) && handles <= old(handles)
      ensures forall q :: q in pools ==> Drained(q, BelowSome(q, p.lPools, |p.lPools|), uMsg)
      decreases serials - p.serial, 0
    {
      assert PoolOk(p);
      ghost var subs := p.lPools;
      for i := 0 to |p.lPools|
        invariant Valid() && pools == old(pools) && handles <= old(handles) && p.lPools == subs
        invariant forall q :: q in pools ==> Drained(q, BelowSome(q, subs, i), uMsg)
      {
        var sub := p.lPools[i];
        assert PoolOk(p) && sub in pools && PoolOk(sub) && SubpoolOk(sub);
        label L:
        var _ := PoolCallback(sub, uMsg);
        forall q | q in pools
          ensures Drained(q, BelowSome(q, subs, i + 1), uMsg)
        {
          BelowSomeNext(q, subs, i);
          assert Drained@L(q, Below(q, sub), uMsg);
        }
      }
    }

    /** The loop that closes the first handle of the pool until there is none. */
    method DrainHandles(p: Handle)
      requires Valid() && p in pools
      modifies this`handles, p, handles
      ensures Valid() && p.lHandles == [] && p.lPools == old(p.lPools) && p.forgotten == old(p.forgotten)
      ensures handles <= old(handles) && OthersKept(p)
    {
      while |p.lHandles| > 0
        invariant Valid() && p.lPools == old(p.lPools) && p.forgotten == old(p.forgotten)
        invariant handles <= old(handles) && OthersKept(p)
        decreases |p.lHandles|
      {
        assert PoolOk(p);
        var hCur := p.lHandles[0];
        assert hCur in p.lHandles;
        WithoutOne(p.lHandles, hCur);
        var _ := CloseHandle(hCur);
      }
    }

    /** dwSize is set to zero, whatever pools are still listed. */
    method ForgetSize(p: Handle)
      requires Valid() && p in pools && p.lHandles == []
      modifies p`dwSize, p`forgotten
      ensures Valid() && p.dwSize == 0 && p.forgotten == |p.lPools|
    {
      assert PoolOk(p);
      p.dwSize := 0;
      p.forgotten := |p.lPools|;
      forall q | q in pools
        ensures PoolOk(q)
      {
        assert old(PoolOk(q));
      }
      forall g | g in handles
        ensures HandleOk(g)
      {
        assert old(HandleOk(g));
      }
      forall q | q in pools && q != sysPool
        ensures SubpoolOk(q)
      {
        assert old(SubpoolOk(q));
      }
    }

    /** A pool below p is p, or lies below one of the pools listed in p. */
    lemma {:induction false} BelowOneOf(q: Handle, p: Handle)
      requires Valid() && q in pools && p in pools
      ensures Below(q, p) <==> q == p || BelowSome(q, p.lPools, |p.lPools|)
      decreases q.serial
    {
      if q != p && Below(q, p) {
        BelowTrans(q, p);
      }
      if BelowSome(q, p.lPools, |p.lPools|) {
        var j :| 0 <= j < |p.lPools| && Below(q, p.lPools[j]);
        assert PoolOk(p) && p.lPools[j] in p.lPools && SubpoolOk(p.lPools[j]);
        BelowParent(q, p.lPools[j], p);
      }
    }

    lemma {:induction false} BelowTrans(q: Handle, p: Handle)
      requires Valid() && q in pools && p in pools && q != p && Below(q, p)
      ensures BelowSome(q, p.lPools, |p.lPools|)
      decreases q.serial
    {
      assert q != sysPool ==> SubpoolOk(q);
      var k: nat;
      if q.hPool == p {
        k :| k < |p.lPools| && p.lPools[k] == q;
      } else {
        BelowTrans(q.hPool, p);
        k :| k < |p.lPools| && Below(q.hPool, p.lPools[k]);
      }
      assert Below(q, p.lPools[k]);
    }
  }

  /** A pool with one subpool that is cleared: it still lists the subpool, and says that it lists nothing. */
  method SubpoolForgotten() returns (m: Manager)
    ensures fresh(m) && m.Valid() && |m.sysPool.lPools| == 1 && m.sysPool.dwSize == 0
  {
    m := new Manager();
    var sub := m.CreatePool(null);
    assert Below(m.sysPool, m.sysPool);
    var rv := m.PoolCallback(m.sysPool, Clear);
  }
}
