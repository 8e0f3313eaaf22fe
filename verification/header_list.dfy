/**
 * The block list of the first-fit allocator drafts, as values.
 *
 * Memory is addressed by `nat` (0 is NULL).  Every block starts with a
 * `header_t` of `HEADER_SIZE` bytes holding `size`, `is_free` and `next`; a
 * `Memory` maps the address of every header ever written to its content.  A
 * list is the sequence of header addresses met by following `next` from the
 * first one.  The functions here describe what the allocator's operations do
 * to a memory and a list; the lemmas say which properties they keep.
 */
module HeaderList {
  import opened Collections
  import opened Layout

  type Addr = nat

  const NULL: Addr := 0

  datatype Header = Header(size: nat, isFree: bool, next: Addr)

  type Memory = map<Addr, Header>

  /* ----------------------------------------------------- the block list */

  /** Every `next` link leads to a written header at a higher address, so no
      chain of links, on the list or off it, can come back to itself. */
  ghost predicate WellLinked(mem: Memory)
  {
    && NULL !in mem
    && forall a {:trigger mem[a]} :: a in mem ==> mem[a].next == NULL || (mem[a].next in mem && mem[a].next > a)
  }

  /** `bs` is the list that starts at `bs[0]`: each header links to the one
      after it and the last link is NULL. */
  ghost predicate Chained(mem: Memory, bs: seq<Addr>)
  {
    && (forall k :: 0 <= k < |bs| ==> bs[k] in mem)
    && (forall k {:trigger mem[bs[k]]} :: 0 <= k < |bs| - 1 ==> mem[bs[k]].next == bs[k + 1])
    && (|bs| > 0 ==> mem[bs[|bs| - 1]].next == NULL)
  }

  /** Links only lead upwards, so a list is sorted by address and holds no
      header twice. */
  lemma {:induction false} ChainOrdered(mem: Memory, bs: seq<Addr>, j: nat, k: nat)
    requires WellLinked(mem) && Chained(mem, bs) && j < k < |bs|
    ensures bs[j] < bs[k]
    decreases k - j
  {
    assert mem[bs[j]].next == bs[j + 1];
    if j + 1 < k {
      ChainOrdered(mem, bs, j + 1, k);
    }
  }

  predicate Fits(h: Header, size: nat)
  {
    h.isFree && h.size >= size
  }

  /** The position of the first free header of at least `size` bytes, or the
      length of the list when there is none. */
  function FirstFitIndex(mem: Memory, bs: seq<Addr>, size: nat): (i: nat)
    requires forall k :: 0 <= k < |bs| ==> bs[k] in mem
    ensures i <= |bs|
    ensures i < |bs| ==> Fits(mem[bs[i]], size)
    ensures forall j :: 0 <= j < i ==> !Fits(mem[bs[j]], size)
  {
    if bs == [] then 0
    else if Fits(mem[bs[0]], size) then 0
    else 1 + FirstFitIndex(mem, bs[1..], size)
  }

  /** The first fitting position is the one before which nothing fits. */
  lemma FirstFitIndexIs(mem: Memory, bs: seq<Addr>, size: nat, i: nat)
    requires forall k :: 0 <= k < |bs| ==> bs[k] in mem
    requires i <= |bs| && (i < |bs| ==> Fits(mem[bs[i]], size))
    requires forall j :: 0 <= j < i ==> !Fits(mem[bs[j]], size)
    ensures FirstFitIndex(mem, bs, size) == i
  {
  }

  /** The header first fit picks, or NULL. */
  function FirstFit(mem: Memory, bs: seq<Addr>, size: nat): Addr
    requires forall k :: 0 <= k < |bs| ==> bs[k] in mem
  {
    var i := FirstFitIndex(mem, bs, size);
    if i < |bs| then bs[i] else NULL
  }

  /** The memory after `block->s.is_free = 0`. */
  function Taken(mem: Memory, b: Addr): Memory
    requires b in mem
  {
    mem[b := mem[b].(isFree := false)]
  }

  /** The memory after `tb_request_memory` wrote a header of `size` bytes at
      `hdr` and linked it behind `tail`. */
  function Appended(mem: Memory, tail: Addr, hdr: Addr, size: nat): Memory
    requires tail != NULL ==> tail in mem
  {
    var m := mem[hdr := Header(size, false, NULL)];
    if tail == NULL then m else m[tail := mem[tail].(next := hdr)]
  }

  /** A freshly appended header is already in use. */
  lemma TakeFresh(mem: Memory, tail: Addr, hdr: Addr, size: nat)
    requires tail != NULL ==> tail in mem
    requires hdr !in mem
    ensures hdr in Appended(mem, tail, hdr, size)
    ensures Taken(Appended(mem, tail, hdr, size), hdr) == Appended(mem, tail, hdr, size)
  {
    var a := Appended(mem, tail, hdr, size);
    assert a[hdr] == Header(size, false, NULL);
    assert Taken(a, hdr) == a;
  }

  /** Freeing `hdr` merges it with its successor. */
  ghost predicate Absorbs(mem: Memory, hdr: Addr)
    requires WellLinked(mem) && hdr in mem
  {
    mem[hdr].next != NULL && mem[mem[hdr].next].isFree
  }

  /** The memory after `tb_free` of the block at `hdr`: marked free and, when
      its successor is free, grown over it. */
  ghost function Released(mem: Memory, hdr: Addr): Memory
    requires WellLinked(mem) && hdr in mem
  {
    var h := mem[hdr];
    if Absorbs(mem, hdr) then
      var n := mem[h.next];
      mem[hdr := Header(h.size + HEADER_SIZE + n.size, true, n.next)]
    else
      mem[hdr := h.(isFree := true)]
  }

  /** The list after `tb_free` of the block at `hdr`: an absorbed successor
      drops out of it. */
  ghost function Unlinked(mem: Memory, bs: seq<Addr>, hdr: Addr): seq<Addr>
    requires WellLinked(mem) && Chained(mem, bs) && hdr in mem
  {
    if hdr in bs && Absorbs(mem, hdr) then
      RemoveAt(bs, FirstIndex(bs, hdr) + 1)
    else bs
  }

  /* ------------------------------------------------ bytes on the list */

  /** The sum of `HEADER_SIZE + size` over the headers of `bs`. */
  function Footprint(mem: Memory, bs: seq<Addr>): nat
    requires forall k :: 0 <= k < |bs| ==> bs[k] in mem
  {
    if bs == [] then 0 else HEADER_SIZE + mem[bs[0]].size + Footprint(mem, bs[1..])
  }

  lemma {:induction false} FootprintConcat(mem: Memory, a: seq<Addr>, b: seq<Addr>)
    requires forall k :: 0 <= k < |a| ==> a[k] in mem
    requires forall k :: 0 <= k < |b| ==> b[k] in mem
    ensures Footprint(mem, a + b) == Footprint(mem, a) + Footprint(mem, b)
  {
    if a == [] {
      assert a + b == b;
    } else {
      assert (a + b)[1..] == a[1..] + b;
      FootprintConcat(mem, a[1..], b);
    }
  }

  lemma FootprintSingle(mem: Memory, h: Addr)
    requires h in mem
    ensures Footprint(mem, [h]) == HEADER_SIZE + mem[h].size
  {
    assert [h][1..] == [];
  }

  lemma FootprintPair(mem: Memory, h: Addr, n: Addr)
    requires h in mem && n in mem
    ensures Footprint(mem, [h, n]) == 2 * HEADER_SIZE + mem[h].size + mem[n].size
  {
    assert [h, n][1..] == [n];
    FootprintSingle(mem, n);
  }

  /** The footprint only reads the sizes of the listed headers. */
  lemma {:induction false} FootprintFrame(mem: Memory, mem': Memory, bs: seq<Addr>)
    requires forall k :: 0 <= k < |bs| ==> bs[k] in mem && bs[k] in mem'
    requires forall k :: 0 <= k < |bs| ==> mem[bs[k]].size == mem'[bs[k]].size
    ensures Footprint(mem, bs) == Footprint(mem', bs)
  {
    if bs != [] {
      FootprintFrame(mem, mem', bs[1..]);
    }
  }

  /** Rewriting headers without touching their links keeps the list. */
  lemma SameLinksKeepChain(mem: Memory, mem': Memory, bs: seq<Addr>)
    requires Chained(mem, bs)
    requires forall k :: 0 <= k < |bs| ==> bs[k] in mem' && mem'[bs[k]].next == mem[bs[k]].next
    ensures Chained(mem', bs)
  {
  }

  lemma ReleaseKeepsLinks(mem: Memory, hdr: Addr)
    requires WellLinked(mem) && hdr in mem
    ensures Released(mem, hdr).Keys == mem.Keys
    ensures WellLinked(Released(mem, hdr))
  {
    var mem' := Released(mem, hdr);
    forall a | a in mem'
      ensures mem'[a].next == NULL || (mem'[a].next in mem' && mem'[a].next > a)
    {
      if a == hdr && Absorbs(mem, hdr) {
        assert mem[hdr].next > hdr;
      }
    }
  }

  /** After a free the list still runs from `head` to a NULL link. */
  lemma ReleaseKeepsChain(mem: Memory, bs: seq<Addr>, hdr: Addr)
    requires WellLinked(mem) && Chained(mem, bs) && hdr in mem
    ensures Chained(Released(mem, hdr), Unlinked(mem, bs, hdr))
  {
    var mem' := Released(mem, hdr);
    if hdr in bs && Absorbs(mem, hdr) {
      AbsorbKeepsChain(mem, bs, FirstIndex(bs, hdr));
    } else {
      forall k | 0 <= k < |bs|
        ensures bs[k] in mem' && mem'[bs[k]].next == mem[bs[k]].next
      {
      }
      SameLinksKeepChain(mem, mem', bs);
    }
  }

  lemma AbsorbKeepsChain(mem: Memory, bs: seq<Addr>, i: nat)
    requires WellLinked(mem) && Chained(mem, bs)
    requires i < |bs| && Absorbs(mem, bs[i])
    ensures i + 1 < |bs|
    ensures Chained(Released(mem, bs[i]), RemoveAt(bs, i + 1))
  {
    var hdr := bs[i];
    var mem', bs' := Released(mem, hdr), RemoveAt(bs, i + 1);
    assert i + 1 < |bs| && bs[i + 1] == mem[hdr].next;
    forall k | 0 <= k < |bs'| - 1
      ensures mem'[bs'[k]].next == bs'[k + 1]
    {
      if k < i {
        ChainOrdered(mem, bs, k, i);
      } else if k > i {
        ChainOrdered(mem, bs, i, k + 1);
      }
    }
    if i + 2 < |bs| {
      ChainOrdered(mem, bs, i, |bs| - 1);
      assert bs'[|bs'| - 1] == bs[|bs| - 1];
    }
  }

  /** Merging `h` with its successor `n` on a list `a + [h, n] + b` keeps the
      footprint when `h` grows by the successor's header and size. */
  lemma MergedFootprint(mem: Memory, mem': Memory, a: seq<Addr>, h: Addr, n: Addr, b: seq<Addr>)
    requires forall k :: 0 <= k < |a| ==> a[k] in mem && a[k] in mem' && mem'[a[k]].size == mem[a[k]].size
    requires forall k :: 0 <= k < |b| ==> b[k] in mem && b[k] in mem' && mem'[b[k]].size == mem[b[k]].size
    requires h in mem && n in mem && h in mem'
    requires mem'[h].size == mem[h].size + HEADER_SIZE + mem[n].size
    ensures Footprint(mem', a + [h] + b) == Footprint(mem, a + [h, n] + b)
  {
    FootprintConcat(mem, a + [h, n], b);
    FootprintConcat(mem, a, [h, n]);
    FootprintConcat(mem', a + [h], b);
    FootprintConcat(mem', a, [h]);
    FootprintFrame(mem, mem', a);
    FootprintFrame(mem, mem', b);
    FootprintPair(mem, h, n);
    FootprintSingle(mem', h);
  }

  /** Absorbing the successor of the `i`-th block moves the successor's
      header and bytes into the size of that block. */
  lemma AbsorbKeepsFootprint(mem: Memory, bs: seq<Addr>, i: nat)
    requires WellLinked(mem) && Chained(mem, bs)
    requires i < |bs| && Absorbs(mem, bs[i])
    ensures i + 1 < |bs|
    ensures Footprint(Released(mem, bs[i]), RemoveAt(bs, i + 1)) == Footprint(mem, bs)
  {
    var hdr := bs[i];
    var mem' := Released(mem, hdr);
    assert i + 1 < |bs| && bs[i + 1] == mem[hdr].next;
    var n := bs[i + 1];
    var a, b := bs[..i], bs[i + 2..];
    assert bs == a + [hdr, n] + b;
    assert RemoveAt(bs, i + 1) == a + [hdr] + b;
    BeforeUntouched(mem, bs, i);
    AfterUntouched(mem, bs, i);
    MergedFootprint(mem, mem', a, hdr, n, b);
  }

  /** The blocks before the `i`-th keep their sizes when it absorbs its
      successor. */
  lemma BeforeUntouched(mem: Memory, bs: seq<Addr>, i: nat)
    requires WellLinked(mem) && Chained(mem, bs)
    requires i < |bs| && Absorbs(mem, bs[i])
    ensures forall k :: 0 <= k < i ==>
              bs[k] in mem && bs[k] in Released(mem, bs[i]) && Released(mem, bs[i])[bs[k]].size == mem[bs[k]].size
  {
    forall k | 0 <= k < i
      ensures bs[k] in Released(mem, bs[i]) && Released(mem, bs[i])[bs[k]].size == mem[bs[k]].size
    {
      ChainOrdered(mem, bs, k, i);
    }
  }

  /** The blocks after the absorbed successor keep their sizes. */
  lemma AfterUntouched(mem: Memory, bs: seq<Addr>, i: nat)
    requires WellLinked(mem) && Chained(mem, bs)
    requires i < |bs| && Absorbs(mem, bs[i])
    ensures forall k :: i + 2 <= k < |bs| ==>
              bs[k] in mem && bs[k] in Released(mem, bs[i]) && Released(mem, bs[i])[bs[k]].size == mem[bs[k]].size
  {
    forall k | i + 2 <= k < |bs|
      ensures bs[k] in Released(mem, bs[i]) && Released(mem, bs[i])[bs[k]].size == mem[bs[k]].size
    {
      ChainOrdered(mem, bs, i, k);
    }
  }

  /**
   * Freeing keeps the sum of `HEADER_SIZE + size` over the list: coalescing
   * moves the absorbed block's header and bytes into the size of the block
   * before it.
   */
  lemma ReleaseKeepsFootprint(mem: Memory, bs: seq<Addr>, hdr: Addr)
    requires WellLinked(mem) && Chained(mem, bs) && hdr in mem
    ensures Chained(Released(mem, hdr), Unlinked(mem, bs, hdr))
    ensures Footprint(Released(mem, hdr), Unlinked(mem, bs, hdr)) == Footprint(mem, bs)
  {
    ReleaseKeepsChain(mem, bs, hdr);
    if hdr in bs && Absorbs(mem, hdr) {
      AbsorbKeepsFootprint(mem, bs, FirstIndex(bs, hdr));
    } else {
      FootprintFrame(mem, Released(mem, hdr), bs);
    }
  }

  /**
   * Coalescing overstates the merged block by one header: when the successor
   * starts right where `hdr` ends, the merged size ends HEADER_SIZE bytes
   * past the end of the successor, because the successor's size already
   * counts its header.
   */
  lemma AbsorbOverstatesBlock(mem: Memory, hdr: Addr)
    requires WellLinked(mem) && hdr in mem && Absorbs(mem, hdr)
    requires hdr + mem[hdr].size == mem[hdr].next
    ensures var n := mem[hdr].next;
            hdr + Released(mem, hdr)[hdr].size == n + mem[n].size + HEADER_SIZE
  {
  }

  /** `a % 16`, by taking 16 away until less is left. */
  function Phase(a: nat): (r: nat)
    decreases a
  {
    if a < 16 then a else Phase(a - 16)
  }

  lemma {:induction false} PhaseIsRemainder(a: nat)
    ensures Phase(a) == a % 16
    decreases a
  {
    if a >= 16 {
      PhaseIsRemainder(a - 16);
    }
  }

  /** Moving by a multiple of 16 keeps the phase. */
  lemma PhaseShift(a: nat, d: nat)
    requires d % 16 == 0
    ensures Phase(a + d) == Phase(a)
  {
    PhaseIsRemainder(a);
    PhaseIsRemainder(a + d);
  }

  /** A header on the 16-byte phase of `base` puts its payload on it too:
      the payload sits a multiple of 16 bytes past `base`. */
  lemma PayloadAligned(base: Addr, block: Addr)
    requires base <= block && Phase(block) == Phase(base)
    ensures Phase(block + HEADER_SIZE) == Phase(base)
    ensures (block + HEADER_SIZE - base) % 16 == 0
  {
    PhaseShift(block, HEADER_SIZE);
    PhaseIsRemainder(block);
    PhaseIsRemainder(base);
    var q := block / 16 - base / 16;
    assert block - base == 16 * q;
    assert block + HEADER_SIZE - base == 16 * (q + 2);
  }

  /* ---------------------------------------------------- allocator state */

  /**
   * The shape of the allocator's globals: headers lie between the initial
   * break and the current one on the same 16-byte phase, `head` starts the
   * list `bs`, and `tail` is NULL exactly when the list is empty, otherwise a
   * written header that, when it is on the list, is the last one.
   */
  ghost predicate Shape(base: Addr, brk: Addr, head: Addr, tail: Addr, mem: Memory, bs: seq<Addr>)
  {
    && 0 < base <= brk && Phase(brk) == Phase(base)
    && (forall a :: a in mem ==> base <= a < brk && Phase(a) == Phase(base))
    && WellLinked(mem)
    && Chained(mem, bs)
    && head == (if bs == [] then NULL else bs[0])
    && (bs == [] <==> tail == NULL)
    && (tail != NULL ==> tail in mem)
    && (tail in bs ==> tail == bs[|bs| - 1])
  }

  /** `tail` is the last block of the list, or the list is empty. */
  ghost predicate TailOnList(tail: Addr, bs: seq<Addr>)
  {
    bs == [] || tail == bs[|bs| - 1]
  }

  lemma TakeKeepsShape(base: Addr, brk: Addr, head: Addr, tail: Addr, mem: Memory, bs: seq<Addr>, b: Addr)
    requires Shape(base, brk, head, tail, mem, bs) && b in mem
    ensures Shape(base, brk, head, tail, Taken(mem, b), bs)
  {
    SameLinksKeepChain(mem, Taken(mem, b), bs);
  }

  /** Appending at the break keeps the shape; the new header joins the list
      only when `tail` is on it. */
  lemma AppendKeepsShape(base: Addr, brk: Addr, head: Addr, tail: Addr, mem: Memory, bs: seq<Addr>, size: nat)
    requires Shape(base, brk, head, tail, mem, bs) && size > 0 && size % 16 == 0
    ensures Shape(base, brk + size, if head == NULL then brk else head, brk,
                  Appended(mem, tail, brk, size),
                  if TailOnList(tail, bs) then bs + [brk] else bs)
  {
    var mem' := Appended(mem, tail, brk, size);
    assert brk !in mem;
    PhaseShift(brk, size);
    if TailOnList(tail, bs) {
      var bs' := bs + [brk];
      forall k | 0 <= k < |bs'| - 1
        ensures mem'[bs'[k]].next == bs'[k + 1]
      {
        if k < |bs| - 1 {
          ChainOrdered(mem, bs, k, |bs| - 1);
        }
      }
      assert Chained(mem', bs');
    } else {
      SameLinksKeepChain(mem, mem', bs);
    }
  }

  lemma ReleaseKeepsShape(base: Addr, brk: Addr, head: Addr, tail: Addr, mem: Memory, bs: seq<Addr>, hdr: Addr)
    requires Shape(base, brk, head, tail, mem, bs) && hdr in mem
    ensures Shape(base, brk, head, tail, Released(mem, hdr), Unlinked(mem, bs, hdr))
  {
    ReleaseKeepsLinks(mem, hdr);
    ReleaseKeepsChain(mem, bs, hdr);
    var bs' := Unlinked(mem, bs, hdr);
    if hdr in bs && Absorbs(mem, hdr) {
      var i := FirstIndex(bs, hdr);
      assert bs'[0] == bs[0];
      assert forall k :: 0 <= k < |bs'| ==> bs'[k] in bs;
      if i + 2 < |bs| {
        assert bs'[|bs'| - 1] == bs[|bs| - 1];
      } else {
        // the absorbed block was the last one: every block left lies below it
        forall k | 0 <= k < |bs'|
          ensures bs'[k] != tail
        {
          assert bs'[k] == bs[k];
          ChainOrdered(mem, bs, k, |bs| - 1);
        }
      }
    }
  }
}
