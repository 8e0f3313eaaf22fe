/**
 * The mark-sweep garbage collector `tb_gc`.
 *
 * The collector keeps a root set and a mark stack in two fixed arrays of 1024
 * entries, and threads every object it allocated onto the `all_objects` list.
 * `gc_collect_full` marks from the roots with an explicit stack and then
 * sweeps the list, freeing every unmarked object and clearing the marks of
 * the rest.
 *
 * Objects are named by their header address (`ObjectGraph.Ptr`).  The map
 * `objects` holds the header fields that describe the graph (`size` and the
 * child slots); the set `marked` holds the addresses whose mark byte is 1; the
 * sequence `allObjects` is the `all_objects` list, head first.  `marked` may
 * also hold addresses that are not allocated objects: the overflow branch of
 * `push_mark_stack` sets the mark byte of any non-null child without asking
 * whether it is tracked.
 */
module GarbageCollector {
  import opened ObjectGraph
  import opened Collections

  const MAX_ROOTS: nat := 1024
  const MARK_STACK_SIZE: nat := 1024
  /** `sizeof(object_t)` and `sizeof(object_t *)` on a 64-bit target. */
  const OBJECT_HEADER_SIZE: nat := 40
  const PTR_SIZE: nat := 8

  /** The number of bytes `gc_alloc` asks the allocator for. */
  function RequestSize(size: nat, childSlots: nat): nat
  {
    OBJECT_HEADER_SIZE + PTR_SIZE * childSlots + size
  }

  /** `extract_object`: the header address behind a user pointer. */
  function ExtractObject(userPtr: Ptr, childSlots: nat): int
  {
    userPtr - OBJECT_HEADER_SIZE - PTR_SIZE * childSlots
  }

  /** The user pointer `gc_alloc` returns: just past the header and the child
      slots, and `extract_object` leads back to the header. */
  function PayloadAddress(obj: Ptr, childSlots: nat): (p: Ptr)
    ensures p >= obj + OBJECT_HEADER_SIZE
    ensures ExtractObject(p, childSlots) == obj
  {
    obj + OBJECT_HEADER_SIZE + PTR_SIZE * childSlots
  }

  /** The payload of `size` bytes ends exactly where the requested block ends. */
  lemma PayloadFillsRequest(obj: Ptr, size: nat, childSlots: nat)
    ensures PayloadAddress(obj, childSlots) + size == obj + RequestSize(size, childSlots)
  {
  }

  /** A cleared child-slot array. */
  function NullSlots(n: nat): (s: seq<Ptr>)
    ensures |s| == n && forall k :: 0 <= k < n ==> s[k] == NULL
  {
    seq(n, _ => NULL)
  }

  /** The object after `parent->children[slot] = child`. */
  function SetChild(o: Object, slot: nat, child: Ptr): (r: Object)
    requires slot < |o.children|
    ensures r.size == o.size && |r.children| == |o.children|
    ensures r.children[slot] == child
    ensures forall k :: 0 <= k < |o.children| && k != slot ==> r.children[k] == o.children[k]
  {
    o.(children := o.children[slot := child])
  }

  /* ---------------------------------------------------------------- roots */

  /** `gc_remove_root` on a root set `s` whose entry `i` goes: the last entry
      moves into slot `i` and the set shrinks by one. */
  function SwapRemove(s: seq<Ptr>, i: nat): seq<Ptr>
    requires i < |s|
  {
    if i == |s| - 1 then s[..i] else s[..|s| - 1][i := s[|s| - 1]]
  }

  /** Removing a root removes exactly one occurrence of it. */
  lemma SwapRemoveRemovesOne(s: seq<Ptr>, i: nat)
    requires i < |s|
    ensures |SwapRemove(s, i)| == |s| - 1
    ensures multiset(SwapRemove(s, i)) == multiset(s) - multiset{s[i]}
  {
    var n := |s| - 1;
    if i < n {
      assert s == s[..i] + [s[i]] + s[i + 1..n] + [s[n]];
      assert SwapRemove(s, i) == s[..i] + [s[n]] + s[i + 1..n];
    } else {
      assert s == s[..i] + [s[i]];
    }
  }


  /* -------------------------------------------------------------- marking */

  /** The non-null entries of a child-slot array. */
  ghost function NonNull(cs: seq<Ptr>): set<Ptr>
  {
    set c | c in cs && c != NULL
  }

  /** Every non-null child of the objects in `s`: what the overflow branch of
      `push_mark_stack` marks for the bottom half of the stack. */
  ghost function ChildrenOf(h: Heap, s: seq<Ptr>): set<Ptr>
  {
    if s == [] then {}
    else ChildrenOf(h, s[..|s| - 1]) + (if s[|s| - 1] in h then NonNull(h[s[|s| - 1]].children) else {})
  }

  lemma {:induction false} ChildrenOfParent(h: Heap, s: seq<Ptr>, c: Ptr)
    requires c in ChildrenOf(h, s)
    ensures exists k :: 0 <= k < |s| && s[k] in h && c in h[s[k]].children && c != NULL
  {
    var n := |s| - 1;
    if c in ChildrenOf(h, s[..n]) {
      ChildrenOfParent(h, s[..n], c);
      var k :| 0 <= k < n && s[..n][k] in h && c in h[s[..n][k]].children && c != NULL;
      assert s[k] == s[..n][k];
    } else {
      assert s[n] in h && c in h[s[n]].children && c != NULL;
    }
  }

  ghost function Unmarked(h: Heap, m: set<Ptr>): set<Ptr>
  {
    set x | x in h && x !in m
  }

  /**
   * The effect of `mark_object(obj)` on the mark bits `m` and the mark stack
   * `st`: nothing for NULL, an already marked or an untracked object;
   * otherwise mark it and push it.  A push onto a full stack first marks the
   * children of the bottom half, then keeps only that half.
   */
  ghost predicate MarkEffect(h: Heap, m: set<Ptr>, st: seq<Ptr>, obj: Ptr, m': set<Ptr>, st': seq<Ptr>)
    requires |st| <= MARK_STACK_SIZE
  {
    if obj == NULL || obj in m || obj !in h then
      m' == m && st' == st
    else if |st| < MARK_STACK_SIZE then
      m' == m + {obj} && st' == st + [obj]
    else
      && m' == m + {obj} + ChildrenOf(h, st[..MARK_STACK_SIZE / 2])
      && st' == st[..MARK_STACK_SIZE / 2] + [obj]
  }

  /** Every marked object the heap holds is reachable. */
  ghost predicate SoundMarks(h: Heap, roots: seq<Ptr>, m: set<Ptr>)
  {
    forall x :: x in h && x in m ==> Reachable(h, roots, x)
  }

  /** Every marked object that is not waiting in `pending` has its allocated
      children marked. */
  ghost predicate ClosedOutside(h: Heap, m: set<Ptr>, pending: seq<Ptr>)
  {
    forall x, c :: x in h && x in m && x !in pending && c in h[x].children && c in h ==> c in m
  }

  /**
   * The invariant of the mark phase.  The first `rootsDone` roots have been
   * handed to `mark_object`, and `extra` holds the popped object whose
   * children are being scanned.  Marks are sound; stacked objects are
   * tracked and marked; each push used up one unmarked object, so the stack
   * never outgrows the unmarked objects; and as long as the heap has no more
   * objects than the stack has slots, the stack never overflows and every
   * marked object off the stack has its children marked.
   */
  ghost predicate MarkInvariant(h: Heap, roots: seq<Ptr>, m: set<Ptr>, st: seq<Ptr>, extra: seq<Ptr>, rootsDone: nat)
  {
    && NULL !in h
    && rootsDone <= |roots|
    && SoundMarks(h, roots, m)
    && (forall k :: 0 <= k < |st| ==> st[k] in h && st[k] in m)
    && (forall k :: 0 <= k < |extra| ==> extra[k] in h && extra[k] in m)
    && |st| <= MARK_STACK_SIZE
    && |st| + |Unmarked(h, m)| <= |h|
    && (forall k :: 0 <= k < rootsDone && roots[k] in h ==> roots[k] in m)
    && (|h| <= MARK_STACK_SIZE ==> ClosedOutside(h, m, st + extra))
  }

  /** The first `j` child slots of `obj` hold only marked or untracked pointers. */
  ghost predicate Scanned(h: Heap, m: set<Ptr>, obj: Ptr, j: nat)
  {
    && obj in h
    && j <= |h[obj].children|
    && forall k :: 0 <= k < j && h[obj].children[k] in h ==> h[obj].children[k] in m
  }

  /** One `mark_object` call on a reachable (or untracked) pointer keeps the
      mark-phase invariant, never unmarks, marks a tracked pointer, and either
      marks a new object or leaves the stack as it was. */
  lemma {:induction false} MarkStep(h: Heap, roots: seq<Ptr>, m: set<Ptr>, st: seq<Ptr>, extra: seq<Ptr>,
                                    done: nat, obj: Ptr, m': set<Ptr>, st': seq<Ptr>)
    requires MarkInvariant(h, roots, m, st, extra, done)
    requires obj in h ==> Reachable(h, roots, obj)
    requires MarkEffect(h, m, st, obj, m', st')
    ensures MarkInvariant(h, roots, m', st', extra, done)
    ensures m <= m'
    ensures obj in h ==> obj in m'
    ensures |Unmarked(h, m')| <= |Unmarked(h, m)|
    ensures |Unmarked(h, m')| < |Unmarked(h, m)| || st' == st
  {
    if obj == NULL || obj in m || obj !in h {
      return;
    }
    UnmarkedDrops(h, m, obj, m');
    if |st| < MARK_STACK_SIZE {
      PushKeepsInvariant(h, roots, m, st, extra, done, obj);
    } else {
      OverflowKeepsInvariant(h, roots, m, st, extra, done, obj);
    }
  }

  /** Marking a tracked, unmarked object uses up one unmarked object. */
  lemma UnmarkedDrops(h: Heap, m: set<Ptr>, obj: Ptr, m': set<Ptr>)
    requires obj in h && obj !in m && m + {obj} <= m'
    ensures |Unmarked(h, m')| < |Unmarked(h, m)| <= |h|
  {
    var u, u' := Unmarked(h, m), Unmarked(h, m');
    assert obj in u;
    assert u' <= u - {obj};
    SubsetSize(u', u - {obj});
    SubsetSize(u, h.Keys);
  }

  /** A push onto a stack with room keeps the invariant. */
  lemma PushKeepsInvariant(h: Heap, roots: seq<Ptr>, m: set<Ptr>, st: seq<Ptr>, extra: seq<Ptr>,
                           done: nat, obj: Ptr)
    requires MarkInvariant(h, roots, m, st, extra, done)
    requires obj in h && obj !in m && Reachable(h, roots, obj) && |st| < MARK_STACK_SIZE
    requires |Unmarked(h, m + {obj})| < |Unmarked(h, m)|
    ensures MarkInvariant(h, roots, m + {obj}, st + [obj], extra, done)
  {
    var m', st' := m + {obj}, st + [obj];
    assert forall k :: 0 <= k < |st| ==> st'[k] == st[k];
    if |h| <= MARK_STACK_SIZE {
      forall x, c | x in h && x in m' && x !in st' + extra && c in h[x].children && c in h
        ensures c in m'
      {
        assert x != obj;
        assert x !in st + extra;
      }
    }
  }

  /** A push onto a full stack marks the children of its bottom half, which
      are reachable, and keeps the invariant. */
  lemma OverflowKeepsInvariant(h: Heap, roots: seq<Ptr>, m: set<Ptr>, st: seq<Ptr>, extra: seq<Ptr>,
                               done: nat, obj: Ptr)
    requires MarkInvariant(h, roots, m, st, extra, done)
    requires obj in h && obj !in m && Reachable(h, roots, obj) && |st| == MARK_STACK_SIZE
    requires |Unmarked(h, m + {obj} + ChildrenOf(h, st[..MARK_STACK_SIZE / 2]))| < |Unmarked(h, m)|
    ensures MarkInvariant(h, roots, m + {obj} + ChildrenOf(h, st[..MARK_STACK_SIZE / 2]),
                          st[..MARK_STACK_SIZE / 2] + [obj], extra, done)
  {
    var half := st[..MARK_STACK_SIZE / 2];
    var st' := half + [obj];
    forall c | c in h && c in ChildrenOf(h, half)
      ensures Reachable(h, roots, c)
    {
      ChildrenOfParent(h, half, c);
      var k :| 0 <= k < |half| && half[k] in h && c in h[half[k]].children && c != NULL;
      ChildIsReachable(h, roots, half[k], c);
    }
    assert forall k :: 0 <= k < |half| ==> st'[k] == st[k];
  }

  /** Before the first root is marked no tracked object is marked. */
  lemma MarkStart(h: Heap, roots: seq<Ptr>, m: set<Ptr>)
    requires NULL !in h
    requires forall x :: x in h ==> x !in m
    ensures MarkInvariant(h, roots, m, [], [], 0)
  {
    assert Unmarked(h, m) == h.Keys;
  }

  /** Marking root `i` counts it as done. */
  lemma RootStep(h: Heap, roots: seq<Ptr>, m: set<Ptr>, st: seq<Ptr>, i: nat, m': set<Ptr>, st': seq<Ptr>)
    requires MarkInvariant(h, roots, m, st, [], i) && i < |roots|
    requires MarkEffect(h, m, st, roots[i], m', st')
    ensures MarkInvariant(h, roots, m', st', [], i + 1)
  {
    if roots[i] in h {
      RootIsReachable(h, roots, roots[i]);
    }
    MarkStep(h, roots, m, st, [], i, roots[i], m', st');
  }

  /** The popped object becomes the one being scanned. */
  lemma PopStep(h: Heap, roots: seq<Ptr>, m: set<Ptr>, st: seq<Ptr>)
    requires MarkInvariant(h, roots, m, st, [], |roots|) && |st| > 0
    ensures MarkInvariant(h, roots, m, st[..|st| - 1], [st[|st| - 1]], |roots|)
    ensures Scanned(h, m, st[|st| - 1], 0)
  {
    assert st[..|st| - 1] + [st[|st| - 1]] == st;
  }

  /** Marking child `j` of the scanned object counts that slot as scanned. */
  lemma ScanStep(h: Heap, roots: seq<Ptr>, m: set<Ptr>, st: seq<Ptr>, obj: Ptr, j: nat, m': set<Ptr>, st': seq<Ptr>)
    requires obj in h
    requires MarkInvariant(h, roots, m, st, [obj], |roots|) && Scanned(h, m, obj, j)
    requires j < |h[obj].children|
    requires MarkEffect(h, m, st, h[obj].children[j], m', st')
    ensures MarkInvariant(h, roots, m', st', [obj], |roots|) && Scanned(h, m', obj, j + 1)
    ensures |Unmarked(h, m')| <= |Unmarked(h, m)|
    ensures |Unmarked(h, m')| < |Unmarked(h, m)| || st' == st
  {
    var c := h[obj].children[j];
    if c in h {
      ChildIsReachable(h, roots, obj, c);
    }
    MarkStep(h, roots, m, st, [obj], |roots|, c, m', st');
  }

  /** A fully scanned object is no longer pending. */
  lemma ScanDone(h: Heap, roots: seq<Ptr>, m: set<Ptr>, st: seq<Ptr>, obj: Ptr)
    requires obj in h
    requires MarkInvariant(h, roots, m, st, [obj], |roots|) && Scanned(h, m, obj, |h[obj].children|)
    ensures MarkInvariant(h, roots, m, st, [], |roots|)
  {
    assert st + [] == st;
  }

  /** An exhausted stack leaves sound marks, and complete ones when the stack
      could not overflow. */
  lemma MarkDone(h: Heap, roots: seq<Ptr>, m: set<Ptr>)
    requires MarkInvariant(h, roots, m, [], [], |roots|)
    ensures forall x :: x in h && x in m ==> Reachable(h, roots, x)
    ensures |h| <= MARK_STACK_SIZE ==> forall x :: x in h && Reachable(h, roots, x) ==> x in m
  {
    if |h| <= MARK_STACK_SIZE {
      var none: seq<Ptr> := [];
      assert none + none == none;
      forall r | r in roots && r in h
        ensures r in m
      {
        var k :| 0 <= k < |roots| && roots[k] == r;
      }
      forall x | x in h && Reachable(h, roots, x)
        ensures x in m
      {
        ClosedSetHoldsReachable(h, roots, m, x);
      }
    }
  }

  /* -------------------------------------------------------------- sweeping */

  /** The `all_objects` list holds every allocated object exactly once. */
  ghost predicate Tracks(h: Heap, l: seq<Ptr>)
  {
    && NULL !in h
    && (forall x :: x in l <==> x in h)
    && (forall i, j :: 0 <= i < j < |l| ==> l[i] != l[j])
  }

  /** The objects of the list `s` whose mark is in `m`, in list order. */
  ghost function Survivors(s: seq<Ptr>, m: set<Ptr>): seq<Ptr>
  {
    if s == [] then []
    else Survivors(s[..|s| - 1], m) + (if s[|s| - 1] in m then [s[|s| - 1]] else [])
  }

  lemma {:induction false} SurvivorsMembers(s: seq<Ptr>, m: set<Ptr>, x: Ptr)
    ensures x in Survivors(s, m) <==> x in s && x in m
  {
    if s != [] {
      var n := |s| - 1;
      SurvivorsMembers(s[..n], m, x);
      assert s == s[..n] + [s[n]];
    }
  }

  /** The survivors of a list only depend on the marks of its members. */
  lemma {:induction false} SurvivorsAgree(s: seq<Ptr>, m1: set<Ptr>, m2: set<Ptr>)
    requires forall x :: x in s ==> (x in m1 <==> x in m2)
    ensures Survivors(s, m1) == Survivors(s, m2)
  {
    if s != [] {
      var n := |s| - 1;
      assert forall x :: x in s[..n] ==> x in s;
      SurvivorsAgree(s[..n], m1, m2);
    }
  }

  /**
   * The state of `sweep_phase` after it visited the first `j` objects of the
   * original list `l0`, of which the first `i` entries of the current list
   * `l` are the survivors; the rest of `l` is the unvisited rest of `l0`.
   */
  ghost predicate SweepInvariant(h0: Heap, l0: seq<Ptr>, m0: set<Ptr>, h: Heap, l: seq<Ptr>, m: set<Ptr>, i: nat, j: nat)
  {
    && Tracks(h0, l0) && Tracks(h, l)
    && i <= |l| && j <= |l0|
    && l[..i] == Survivors(l0[..j], m0)
    && l[i..] == l0[j..]
    && (forall x :: x in h ==> x in h0 && h[x] == h0[x])
    && (forall x :: x in m <==> x in m0 && x !in l0[..j])
  }

  /** One step of the sweep: unlink and free an unmarked object, or clear the
      mark of a marked one and move past it. */
  lemma SweepStep(h0: Heap, l0: seq<Ptr>, m0: set<Ptr>, h: Heap, l: seq<Ptr>, m: set<Ptr>, i: nat, j: nat)
    requires SweepInvariant(h0, l0, m0, h, l, m, i, j) && i < |l|
    ensures l[i] !in m ==> SweepInvariant(h0, l0, m0, h - {l[i]}, l[..i] + l[i + 1..], m, i, j + 1)
    ensures l[i] in m ==> SweepInvariant(h0, l0, m0, h, l, m - {l[i]}, i + 1, j + 1)
  {
    var curr := l[i];
    assert l[i..][0] == l0[j..][0];
    assert j < |l0| && curr == l0[j];
    assert curr !in l0[..j];
    assert l0[..j + 1] == l0[..j] + [curr];
    assert l0[j + 1..] == l0[j..][1..];
    if curr !in m {
      var l' := l[..i] + l[i + 1..];
      assert l'[..i] == l[..i];
      assert l'[i..] == l[i..][1..];
      UnlinkKeepsTracks(h, l, i);
    } else {
      assert l[..i + 1] == l[..i] + [curr];
      assert l[i + 1..] == l[i..][1..];
    }
  }

  /** Unlinking and freeing the `i`-th object of the list keeps the list in
      step with the heap. */
  lemma UnlinkKeepsTracks(h: Heap, l: seq<Ptr>, i: nat)
    requires Tracks(h, l) && i < |l|
    ensures Tracks(h - {l[i]}, l[..i] + l[i + 1..])
  {
    var l' := l[..i] + l[i + 1..];
    forall a, b | 0 <= a < b < |l'|
      ensures l'[a] != l'[b]
    {
      var a' := if a < i then a else a + 1;
      var b' := if b < i then b else b + 1;
      assert l'[a] == l[a'] && l'[b] == l[b'];
    }
    forall x
      ensures x in l' <==> x in h - {l[i]}
    {
      if x in l' {
        var k :| 0 <= k < |l'| && l'[k] == x;
        assert x == l[if k < i then k else k + 1];
      }
    }
  }

  /** When the walk reaches the end of the list, the sweep is complete. */
  lemma SweepDone(h0: Heap, l0: seq<Ptr>, m0: set<Ptr>, h: Heap, l: seq<Ptr>, m: set<Ptr>, i: nat, j: nat)
    requires SweepInvariant(h0, l0, m0, h, l, m, i, j) && i == |l|
    ensures l == Survivors(l0, m0)
    ensures h == Restrict(h0, m0)
    ensures m == m0 - h0.Keys
  {
    assert l0[j..] == l[i..] == [];
    assert l0[..j] == l0 && l[..i] == l;
    forall x
      ensures x in h <==> x in h0 && x in m0
    {
      SurvivorsMembers(l0, m0, x);
    }
    assert h.Keys == Restrict(h0, m0).Keys;
  }

  /** A sweep after a sound mark phase keeps only reachable objects; after a
      complete one it keeps exactly the reachable objects. */
  lemma CollectOutcome(h0: Heap, r0: seq<Ptr>, l0: seq<Ptr>, m1: set<Ptr>)
    requires Tracks(h0, l0)
    requires forall x :: x in h0 && x in m1 ==> Reachable(h0, r0, x)
    requires |h0| <= MARK_STACK_SIZE ==> forall x :: x in h0 && Reachable(h0, r0, x) ==> x in m1
    ensures forall x :: x in Restrict(h0, m1) ==> Reachable(h0, r0, x)
    ensures |h0| <= MARK_STACK_SIZE ==>
              && Restrict(h0, m1) == Restrict(h0, ReachableSet(h0, r0))
              && Survivors(l0, m1) == Survivors(l0, ReachableSet(h0, r0))
  {
    if |h0| <= MARK_STACK_SIZE {
      var live := ReachableSet(h0, r0);
      assert forall x :: x in l0 ==> (x in m1 <==> x in live);
      SurvivorsAgree(l0, m1, live);
      assert Restrict(h0, m1).Keys == Restrict(h0, live).Keys;
    }
  }

  /* ------------------------------------------------------------- collector */

  class Collector {
    var objects: Heap
    var marked: set<Ptr>
    var allObjects: seq<Ptr>
    const rootSet: array<Ptr>
    var rootCount: nat
    const markStack: array<Ptr>
    var markTop: nat
    var inProgress: bool

    ghost predicate Valid()
      reads this, markStack
    {
      && rootSet.Length == MAX_ROOTS && markStack.Length == MARK_STACK_SIZE && rootSet != markStack
      && rootCount <= MAX_ROOTS && markTop <= MARK_STACK_SIZE
      && Tracks(objects, allObjects)
      && (forall k :: 0 <= k < markTop ==> markStack[k] in objects)
    }

    /** No collection is running: the stack is empty and no object is marked. */
    ghost predicate Idle()
      reads this`inProgress, this`markTop, this`objects, this`marked
    {
      !inProgress && markTop == 0 && forall x :: x in objects ==> x !in marked
    }

    ghost function Roots(): seq<Ptr>
      requires rootCount <= rootSet.Length
      reads this`rootCount, rootSet
    {
      rootSet[..rootCount]
    }

    ghost function Stack(): seq<Ptr>
      requires markTop <= markStack.Length
      reads this`markTop, markStack
    {
      markStack[..markTop]
    }

    /** `gc_init` on fresh static storage. */
    constructor ()
      ensures Valid() && Idle()
      ensures objects == map[] && allObjects == [] && Roots() == [] && marked == {}
    {
      objects := map[];
      marked := {};
      allObjects := [];
      rootSet := new Ptr[MAX_ROOTS];
      rootCount := 0;
      markStack := new Ptr[MARK_STACK_SIZE];
      markTop := 0;
      inProgress := false;
    }

    /** `gc_add_root`: NULL is ignored, and so is a root that does not fit. */
    method AddRoot(obj: Ptr)
      requires Valid()
      modifies this`rootCount, rootSet
      ensures Valid()
      ensures Roots() == if obj != NULL && old(rootCount) < MAX_ROOTS then old(Roots()) + [obj] else old(Roots())
    {
      if obj == NULL {
        return;
      }
      if rootCount < MAX_ROOTS {
        rootSet[rootCount] := obj;
        rootCount := rootCount + 1;
      }
    }

    /** `gc_remove_root`: the first occurrence of `obj` is overwritten by the
        last root; a pointer that is not a root changes nothing. */
    method RemoveRoot(obj: Ptr)
      requires Valid()
      modifies this`rootCount, rootSet
      ensures Valid()
      ensures obj == NULL || obj !in old(Roots()) ==> Roots() == old(Roots())
      ensures obj != NULL && obj in old(Roots()) ==>
                Roots() == SwapRemove(old(Roots()), FirstIndex(old(Roots()), obj))
    {
      if obj == NULL {
        return;
      }
      var i := 0;
      while i < rootCount
        invariant 0 <= i <= rootCount == old(rootCount)
        invariant rootSet[..] == old(rootSet[..])
        invariant forall k :: 0 <= k < i ==> rootSet[k] != obj
      {
        if rootSet[i] == obj {
          ghost var s := Roots();
          assert s[..i] == rootSet[..i];
          assert FirstIndex(s, obj) == i;
          rootCount := rootCount - 1;
          rootSet[i] := rootSet[rootCount];
          assert Roots() == SwapRemove(s, i);
          return;
        }
        i := i + 1;
      }
      assert obj !in old(Roots());
    }

    /**
     * `gc_alloc`.  `block` is what the allocator returned for
     * `RequestSize(size, childSlots)` bytes: NULL on failure, otherwise an
     * address that holds no live object.  The new object is unmarked, has
     * `childSlots` null children, and goes to the front of the list.
     */
    method Alloc(size: nat, childSlots: nat, block: Ptr) returns (payload: Ptr)
      requires Valid()
      requires block !in objects
      modifies this`objects, this`marked, this`allObjects
      ensures Valid()
      ensures block == NULL ==>
                payload == NULL && objects == old(objects) && allObjects == old(allObjects) && marked == old(marked)
      ensures block != NULL ==>
                && payload == PayloadAddress(block, childSlots)
                && objects == old(objects)[block := Object(size, NullSlots(childSlots))]
                && allObjects == [block] + old(allObjects)
                && marked == old(marked) - {block}
    {
      if block == NULL {
        return NULL;
      }
      objects := objects[block := Object(size, NullSlots(childSlots))];
      marked := marked - {block};
      allObjects := [block] + allObjects;
      payload := PayloadAddress(block, childSlots);
    }

    /** `is_tracked_object`: a walk of the `all_objects` list. */
    method IsTracked(obj: Ptr) returns (tracked: bool)
      requires Valid()
      ensures tracked <==> obj in objects
    {
      var i := 0;
      while i < |allObjects|
        invariant 0 <= i <= |allObjects|
        invariant forall k :: 0 <= k < i ==> allObjects[k] != obj
      {
        if allObjects[i] == obj {
          return true;
        }
        i := i + 1;
      }
      return false;
    }

    /** `findObj`: 1 when `ptr` is an allocated object, 0 otherwise. */
    method FindObj(ptr: Ptr) returns (found: int)
      requires Valid()
      ensures found == 1 <==> ptr in objects
      ensures found == 0 <==> ptr !in objects
    {
      var tracked := IsTracked(ptr);
      found := if tracked then 1 else 0;
    }

    /** `push_mark_stack`. */
    method PushMarkStack(obj: Ptr)
      requires Valid() && obj in objects
      modifies this`markTop, this`marked, markStack
      ensures Valid()
      ensures old(markTop) < MARK_STACK_SIZE ==> Stack() == old(Stack()) + [obj] && marked == old(marked)
      ensures old(markTop) == MARK_STACK_SIZE ==>
                && Stack() == old(Stack())[..MARK_STACK_SIZE / 2] + [obj]
                && marked == old(marked) + ChildrenOf(objects, old(Stack())[..MARK_STACK_SIZE / 2])
    {
      if markTop < MARK_STACK_SIZE {
        markStack[markTop] := obj;
        markTop := markTop + 1;
        assert Stack() == old(Stack()) + [obj];
        return;
      }
      var i := 0;
      while i < markTop / 2
        invariant markTop == old(markTop) && markStack[..] == old(markStack[..])
        invariant 0 <= i <= markTop / 2
        invariant marked == old(marked) + ChildrenOf(objects, markStack[..i])
      {
        var toProcess := markStack[i];
        MarkSlots(objects[toProcess].children);
        assert markStack[..i + 1][..i] == markStack[..i];
        i := i + 1;
      }
      assert markStack[..i] == old(Stack())[..MARK_STACK_SIZE / 2];
      markTop := markTop / 2;
      markStack[markTop] := obj;
      markTop := markTop + 1;
      assert Stack() == old(Stack())[..MARK_STACK_SIZE / 2] + [obj];
    }

    /** The inner loop of the overflow branch of `push_mark_stack`: mark
        every non-null child slot. */
    method MarkSlots(children: seq<Ptr>)
      modifies this`marked
      ensures marked == old(marked) + NonNull(children)
    {
      var j := 0;
      while j < |children|
        invariant 0 <= j <= |children|
        invariant marked == old(marked) + NonNull(children[..j])
      {
        if children[j] != NULL && children[j] !in marked {
          marked := marked + {children[j]};
        }
        assert children[..j + 1] == children[..j] + [children[j]];
        j := j + 1;
      }
      assert children[..j] == children;
    }

    /** `pop_mark_stack`: NULL on an empty stack. */
    method PopMarkStack() returns (obj: Ptr)
      requires Valid()
      modifies this`markTop
      ensures Valid()
      ensures old(markTop) == 0 ==> obj == NULL && markTop == 0
      ensures old(markTop) > 0 ==>
                obj == old(Stack())[old(markTop) - 1] && Stack() == old(Stack())[..old(markTop) - 1]
    {
      if markTop == 0 {
        return NULL;
      }
      markTop := markTop - 1;
      obj := markStack[markTop];
    }

    /** `mark_object`. */
    method MarkObject(obj: Ptr)
      requires Valid()
      modifies this`markTop, this`marked, markStack
      ensures Valid()
      ensures MarkEffect(objects, old(marked), old(Stack()), obj, marked, Stack())
    {
      if obj == NULL || obj in marked {
        return;
      }
      var tracked := IsTracked(obj);
      if !tracked {
        return;
      }
      marked := marked + {obj};
      PushMarkStack(obj);
    }

    /**
     * `mark_phase`: mark from every root, then drain the stack, marking the
     * children of each popped object.  Every marked object is reachable.
     * When there are no more objects than stack slots the stack cannot
     * overflow, and every reachable object is marked.
     */
    method MarkPhase()
      requires Valid() && Idle()
      modifies this`markTop, this`marked, this`inProgress, markStack
      ensures Valid() && inProgress && markTop == 0
      ensures forall x :: x in objects && x in marked ==> Reachable(objects, Roots(), x)
      ensures |objects| <= MARK_STACK_SIZE ==>
                forall x :: x in objects && Reachable(objects, Roots(), x) ==> x in marked
    {
      inProgress := true;
      MarkStart(objects, Roots(), marked);
      assert Stack() == [];
      MarkRoots();
      DrainMarkStack();
      MarkDone(objects, Roots(), marked);
    }

    /** The first loop of `mark_phase`: `mark_object` on every root. */
    method MarkRoots()
      requires Valid() && MarkInvariant(objects, Roots(), marked, Stack(), [], 0)
      modifies this`markTop, this`marked, markStack
      ensures Valid() && MarkInvariant(objects, Roots(), marked, Stack(), [], |Roots()|)
    {
      ghost var h, roots := objects, Roots();
      var i := 0;
      while i < rootCount
        invariant Valid() && 0 <= i <= rootCount
        invariant MarkInvariant(h, roots, marked, Stack(), [], i)
      {
        ghost var m0, st0 := marked, Stack();
        assert rootSet[i] == roots[i];
        MarkObject(rootSet[i]);
        RootStep(h, roots, m0, st0, i, marked, Stack());
        i := i + 1;
      }
    }

    /** The second loop of `mark_phase`: pop objects and mark their children
        until the stack is empty. */
    method DrainMarkStack()
      requires Valid() && MarkInvariant(objects, Roots(), marked, Stack(), [], |Roots()|)
      modifies this`markTop, this`marked, markStack
      ensures Valid() && markTop == 0
      ensures MarkInvariant(objects, Roots(), marked, [], [], |Roots()|)
    {
      ghost var h, roots := objects, Roots();
      while markTop > 0
        invariant Valid() && objects == h && Roots() == roots
        invariant MarkInvariant(h, roots, marked, Stack(), [], |roots|)
        decreases |Unmarked(h, marked)|, markTop
      {
        ghost var st := Stack();
        var obj := PopMarkStack();
        PopStep(h, roots, marked, st);
        MarkChildren(obj);
      }
      assert Stack() == [];
    }

    /** The body of the drain loop: `mark_object` on every child slot of the
        popped object `obj`, after which it is no longer pending.  Either an
        object got marked or the stack is as it was. */
    method MarkChildren(obj: Ptr)
      requires Valid() && obj in objects
      requires MarkInvariant(objects, Roots(), marked, Stack(), [obj], |Roots()|) && Scanned(objects, marked, obj, 0)
      modifies this`markTop, this`marked, markStack
      ensures Valid() && MarkInvariant(objects, Roots(), marked, Stack(), [], |Roots()|)
      ensures |Unmarked(objects, marked)| <= |Unmarked(objects, old(marked))|
      ensures |Unmarked(objects, marked)| == |Unmarked(objects, old(marked))| ==> Stack() == old(Stack())
    {
      ghost var h, roots, u0, st1 := objects, Roots(), |Unmarked(objects, marked)|, Stack();
      var j := 0;
      while j < |objects[obj].children|
        invariant Valid() && objects == h && Roots() == roots
        invariant MarkInvariant(h, roots, marked, Stack(), [obj], |roots|)
        invariant Scanned(h, marked, obj, j)
        invariant |Unmarked(h, marked)| <= u0
        invariant |Unmarked(h, marked)| == u0 ==> Stack() == st1
      {
        ghost var m0, st0 := marked, Stack();
        MarkObject(objects[obj].children[j]);
        ScanStep(h, roots, m0, st0, obj, j, marked, Stack());
        j := j + 1;
      }
      ScanDone(h, roots, marked, Stack(), obj);
    }

    /**
     * `sweep_phase`: unlink and free every unmarked object, clear the marks
     * of the others, keep their list order, and end the collection.
     */
    method SweepPhase()
      requires Valid() && markTop == 0
      modifies this`objects, this`marked, this`allObjects, this`inProgress
      ensures Valid() && !inProgress
      ensures allObjects == Survivors(old(allObjects), old(marked))
      ensures objects == Restrict(old(objects), old(marked))
      ensures marked == old(marked) - old(objects).Keys
    {
      ghost var h0, l0, m0 := objects, allObjects, marked;
      var i := 0;
      ghost var j := 0;
      while i < |allObjects|
        invariant SweepInvariant(h0, l0, m0, objects, allObjects, marked, i, j)
        decreases |allObjects| - i
      {
        SweepStep(h0, l0, m0, objects, allObjects, marked, i, j);
        var curr := allObjects[i];
        if curr !in marked {
          allObjects := allObjects[..i] + allObjects[i + 1..];
          objects := objects - {curr};
        } else {
          marked := marked - {curr};
          i := i + 1;
        }
        j := j + 1;
      }
      SweepDone(h0, l0, m0, objects, allObjects, marked, i, j);
      inProgress := false;
    }

    /**
     * `gc_collect_full`: a mark phase and a sweep phase.  Only reachable
     * objects survive, unchanged, and the collector is idle again.  With at
     * most 1024 objects the survivors are exactly the reachable objects,
     * cycles included, in their old list order.
     */
    method CollectFull()
      requires Valid() && Idle()
      modifies this`markTop, this`marked, this`inProgress, markStack, this`objects, this`allObjects
      ensures Valid() && Idle()
      ensures Roots() == old(Roots())
      ensures forall x :: x in objects ==>
                x in old(objects) && objects[x] == old(objects)[x] && Reachable(old(objects), old(Roots()), x)
      ensures |old(objects)| <= MARK_STACK_SIZE ==>
                && objects == Restrict(old(objects), ReachableSet(old(objects), old(Roots())))
                && allObjects == Survivors(old(allObjects), ReachableSet(old(objects), old(Roots())))
    {
      ghost var h0, r0, l0 := objects, Roots(), allObjects;
      MarkPhase();
      ghost var m1 := marked;
      SweepPhase();
      CollectOutcome(h0, r0, l0, m1);
    }

    /**
     * `gc_write_barrier`: store `child` into slot `slot` of `parent` (nothing
     * for NULL or an out-of-range slot); while a collection is in progress,
     * a store of an unmarked child into a marked parent marks the child.
     */
    method WriteBarrier(parent: Ptr, slot: nat, child: Ptr)
      requires Valid()
      requires parent == NULL || parent in objects
      modifies this`objects, this`markTop, this`marked, markStack
      ensures Valid()
      ensures parent == NULL || slot >= |old(objects)[parent].children| ==>
                objects == old(objects) && marked == old(marked) && Stack() == old(Stack())
      ensures parent != NULL && slot < |old(objects)[parent].children| ==>
                && objects == old(objects)[parent := SetChild(old(objects)[parent], slot, child)]
                && if inProgress && parent in old(marked) && child != NULL && child !in old(marked) then
                     MarkEffect(objects, old(marked), old(Stack()), child, marked, Stack())
                   else
                     marked == old(marked) && Stack() == old(Stack())
    {
      if parent == NULL || slot >= |objects[parent].children| {
        return;
      }
      objects := objects[parent := SetChild(objects[parent], slot, child)];
      if inProgress && parent in marked && child != NULL && child !in marked {
        MarkObject(child);
      }
    }
  }
}
