/**
 * The object graph of the mark-sweep collector, as values.
 *
 * An object is identified by the address of its `object_t` header; address 0
 * is NULL.  `Heap` maps every allocated object to its payload size and its
 * child slots (`child_count` is the number of slots).  An object is reachable
 * when a chain of child links leads to it from a root and every object on
 * that chain is allocated: the collector only follows objects it tracks.
 */
module ObjectGraph {

  type Ptr = nat

  const NULL: Ptr := 0

  datatype Object = Object(size: nat, children: seq<Ptr>)

  type Heap = map<Ptr, Object>

  /** `p` is a chain of allocated objects, each a child of the one before. */
  ghost predicate IsPath(h: Heap, p: seq<Ptr>)
  {
    && |p| > 0
    && (forall k :: 0 <= k < |p| ==> p[k] in h)
    && (forall k :: 0 <= k < |p| - 1 ==> p[k + 1] in h[p[k]].children)
  }

  ghost predicate Reachable(h: Heap, roots: seq<Ptr>, x: Ptr)
  {
    exists p :: IsPath(h, p) && p[0] in roots && p[|p| - 1] == x
  }

  /** The set of objects whose mark bit a mark phase must set. */
  ghost function ReachableSet(h: Heap, roots: seq<Ptr>): set<Ptr>
  {
    set x | x in h && Reachable(h, roots, x)
  }

  /** Every object a root names and the heap holds is reachable. */
  lemma RootIsReachable(h: Heap, roots: seq<Ptr>, x: Ptr)
    requires x in roots && x in h
    ensures Reachable(h, roots, x)
  {
    assert IsPath(h, [x]);
  }

  /** An allocated child of a reachable object is reachable. */
  lemma ChildIsReachable(h: Heap, roots: seq<Ptr>, x: Ptr, c: Ptr)
    requires Reachable(h, roots, x)
    requires x in h && c in h[x].children && c in h
    ensures Reachable(h, roots, c)
  {
    var p :| IsPath(h, p) && p[0] in roots && p[|p| - 1] == x;
    var q := p + [c];
    assert q[|q| - 2] == x;
    assert IsPath(h, q);
  }

  /** Every prefix of a path is a path. */
  lemma PrefixIsPath(h: Heap, p: seq<Ptr>, n: nat)
    requires IsPath(h, p) && 0 < n <= |p|
    ensures IsPath(h, p[..n])
  {
  }

  /**
   * A set of marks that holds every allocated root and is closed under the
   * allocated children of its allocated members holds every reachable
   * object.  This is what an exhausted mark stack leaves behind.
   */
  lemma {:induction false} ClosedSetHoldsReachable(h: Heap, roots: seq<Ptr>, m: set<Ptr>, x: Ptr)
    requires forall r :: r in roots && r in h ==> r in m
    requires forall y, c :: y in m && y in h && c in h[y].children && c in h ==> c in m
    requires Reachable(h, roots, x)
    ensures x in m
  {
    var p :| IsPath(h, p) && p[0] in roots && p[|p| - 1] == x;
    ClosedPathMarked(h, roots, m, p);
  }

  lemma {:induction false} ClosedPathMarked(h: Heap, roots: seq<Ptr>, m: set<Ptr>, p: seq<Ptr>)
    requires forall r :: r in roots && r in h ==> r in m
    requires forall y, c :: y in m && y in h && c in h[y].children && c in h ==> c in m
    requires IsPath(h, p) && p[0] in roots
    ensures p[|p| - 1] in m
  {
    if |p| > 1 {
      var q := p[..|p| - 1];
      PrefixIsPath(h, p, |p| - 1);
      ClosedPathMarked(h, roots, m, q);
      assert q[|q| - 1] == p[|p| - 2];
    }
  }

  /** The heap restricted to the objects in `keep`. */
  function Restrict(h: Heap, keep: set<Ptr>): (r: Heap)
    ensures r.Keys == h.Keys * keep
    ensures forall x :: x in r ==> r[x] == h[x]
  {
    map x | x in h && x in keep :: h[x]
  }

  /**
   * Collection is idempotent: once the heap holds only the objects that were
   * reachable, every object it holds is still reachable from the same roots,
   * so a second collection frees nothing.
   */
  lemma {:induction false} SurvivorsStayReachable(h: Heap, roots: seq<Ptr>, x: Ptr)
    requires x in h && Reachable(h, roots, x)
    ensures Reachable(Restrict(h, ReachableSet(h, roots)), roots, x)
  {
    var h' := Restrict(h, ReachableSet(h, roots));
    var p :| IsPath(h, p) && p[0] in roots && p[|p| - 1] == x;
    forall k | 0 <= k < |p|
      ensures p[k] in h'
    {
      PrefixIsPath(h, p, k + 1);
      assert p[..k + 1][0] == p[0] && p[..k + 1][k] == p[k];
    }
    assert IsPath(h', p);
  }
}
