/**
 * The first-fit header-list allocator drafts `src/tb_allocator.c` and
 * `test/allocator.c`.
 *
 * The map `headers` is the content of every header ever written, indexed by
 * its address (see `HeaderList`).  The globals `head` and `tail` delimit the
 * singly linked block list, and `brk` is the program break that `sbrk`
 * moves.  The ghost sequence `blocks` lists the headers reachable from
 * `head`, in list order.
 *
 * `size` is the whole block, header included, when `tb_request_memory`
 * writes it, while the coalescing in `tb_free` adds a header's worth on top
 * of the successor's size.  When coalescing absorbs the block `tail` points
 * at, `tail` is left on the absorbed header (a "stale" tail): the next
 * appended block is then linked behind that header and never enters the
 * list.  Both behaviours are kept as written.
 */
module FirstFit {
  import opened Layout
  import opened HeaderList

  /** What the `tb_malloc` of `test/allocator.c` hands back: a pointer, or no
      value at all (its fresh-block path ends in a bare `return;`). */
  datatype Returned = Pointer(addr: Addr) | NoValue

  /* ------------------------------------------------------- the allocator */

  class Allocator {
    /** The program break when the allocator started. */
    const base: Addr
    var brk: Addr
    var head: Addr
    var tail: Addr
    var headers: Memory
    ghost var blocks: seq<Addr>

    ghost predicate Valid()
      reads this
    {
      Shape(base, brk, head, tail, headers, blocks)
    }

    /** An allocator whose program break starts at `start`, with an empty
        block list. */
    constructor (start: Addr)
      requires start > 0
      ensures Valid() && base == start && brk == start
      ensures head == NULL && tail == NULL && headers == map[] && blocks == []
    {
      base, brk := start, start;
      head, tail := NULL, NULL;
      headers := map[];
      blocks := [];
    }

    /** `tb_find_free_block`: walk the list from `head` and return the first
        free header of at least `size` bytes, or NULL. */
    method FindFreeBlock(size: nat) returns (found: Addr)
      requires Valid()
      ensures found == FirstFit(headers, blocks, size)
      ensures found != NULL ==> found in blocks && Fits(headers[found], size)
    {
      var curr := head;
      ghost var k := 0;
      while curr != NULL
        invariant k <= |blocks|
        invariant curr == if k < |blocks| then blocks[k] else NULL
        invariant forall j :: 0 <= j < k ==> !Fits(headers[blocks[j]], size)
        decreases |blocks| - k
      {
        if headers[curr].isFree && headers[curr].size >= size {
          FirstFitIndexIs(headers, blocks, size, k);
          return curr;
        }
        curr := headers[curr].next;
        k := k + 1;
      }
      FirstFitIndexIs(headers, blocks, size, k);
      return NULL;
    }

    /** `tb_request_memory`: move the break by `size` bytes (`grow` says
        whether `sbrk` succeeds), write an in-use header at the old break and
        link it behind `tail`.  Behind a stale tail the new header stays off
        the list. */
    method RequestMemory(size: nat, grow: bool) returns (hdr: Addr)
      requires Valid() && size >= HEADER_SIZE && size % 16 == 0
      modifies this`brk, this`head, this`tail, this`headers, this`blocks
      ensures Valid()
      ensures !grow ==> hdr == NULL && headers == old(headers) && blocks == old(blocks)
                        && brk == old(brk) && tail == old(tail)
      ensures grow ==> && hdr == old(brk) && brk == old(brk) + size
                       && headers == Appended(old(headers), old(tail), hdr, size)
                       && tail == hdr
                       && blocks == if TailOnList(old(tail), old(blocks)) then old(blocks) + [hdr] else old(blocks)
    {
      if !grow {
        return NULL;
      }
      ghost var b0, h0, t0, m0, bs0 := brk, head, tail, headers, blocks;
      hdr := brk;
      brk := brk + size;
      headers := headers[hdr := Header(size, false, NULL)];
      if head == NULL {
        head := hdr;
      }
      if tail != NULL {
        headers := headers[tail := headers[tail].(next := hdr)];
      }
      if TailOnList(tail, blocks) {
        blocks := blocks + [hdr];
      }
      tail := hdr;
      AppendedValid(b0, h0, t0, m0, bs0, size);
    }

    lemma AppendedValid(b0: Addr, h0: Addr, t0: Addr, m0: Memory, bs0: seq<Addr>, size: nat)
      requires Shape(base, b0, h0, t0, m0, bs0) && size > 0 && size % 16 == 0
      requires brk == b0 + size && head == (if h0 == NULL then b0 else h0) && tail == b0
      requires headers == Appended(m0, t0, b0, size)
      requires blocks == if TailOnList(t0, bs0) then bs0 + [b0] else bs0
      ensures Valid()
    {
      AppendKeepsShape(base, b0, h0, t0, m0, bs0, size);
    }

    /** `p` points one header past an in-use block with room for `size`
        bytes, on the 16-byte phase of the initial break. */
    ghost predicate Serves(p: Addr, size: nat)
      reads this
    {
      && p >= HEADER_SIZE && p - HEADER_SIZE in headers
      && !headers[p - HEADER_SIZE].isFree
      && headers[p - HEADER_SIZE].size >= size + HEADER_SIZE
      && Phase(p) == Phase(base)
    }

    lemma TakenServes(block: Addr, size: nat)
      requires Valid() && block in headers && !headers[block].isFree
      requires headers[block].size >= RoundRequest(size)
      ensures Serves(block + HEADER_SIZE, size)
    {
      assert base <= block && Phase(block) == Phase(base);
      PayloadAligned(base, block);
    }

    /** `block->s.is_free = 0` on a block from the list. */
    method Take(block: Addr)
      requires Valid() && block in headers
      modifies this`headers
      ensures Valid() && headers == Taken(old(headers), block)
    {
      TakeKeepsShape(base, brk, head, tail, headers, blocks, block);
      headers := headers[block := headers[block].(isFree := false)];
    }

    /** The reuse path shared by both `tb_malloc` drafts: round the request,
        look for the first fitting free block and mark it in use. */
    method TakeFirstFit(size: nat) returns (block: Addr)
      requires Valid()
      modifies this`headers
      ensures Valid()
      ensures block == FirstFit(old(headers), blocks, RoundRequest(size))
      ensures block != NULL ==> headers == Taken(old(headers), block) && Serves(block + HEADER_SIZE, size)
      ensures block == NULL ==> headers == old(headers)
    {
      block := FindFreeBlock(RoundRequest(size));
      if block != NULL {
        Take(block);
        TakenServes(block, size);
      }
    }

    /** `tb_malloc` of `src/tb_allocator.c`.  A zero request gets NULL; any
        other is rounded, served by the first fitting free block (marked in
        use, neither split nor moved), else by a fresh block at the break. */
    method Malloc(size: nat, grow: bool) returns (p: Addr)
      requires Valid()
      modifies this`brk, this`head, this`tail, this`headers, this`blocks
      ensures Valid()
      ensures p != NULL ==> Serves(p, size)
      ensures size == 0 ==> p == NULL && headers == old(headers) && blocks == old(blocks)
                            && brk == old(brk) && tail == old(tail)
      ensures size > 0 && FirstFit(old(headers), old(blocks), RoundRequest(size)) != NULL ==>
                var b := FirstFit(old(headers), old(blocks), RoundRequest(size));
                && p == b + HEADER_SIZE && headers == Taken(old(headers), b)
                && blocks == old(blocks) && brk == old(brk) && tail == old(tail)
      ensures size > 0 && FirstFit(old(headers), old(blocks), RoundRequest(size)) == NULL ==>
                if grow then
                  && p == old(brk) + HEADER_SIZE && brk == old(brk) + RoundRequest(size)
                  && headers == Appended(old(headers), old(tail), old(brk), RoundRequest(size))
                  && tail == old(brk)
                  && blocks == if TailOnList(old(tail), old(blocks)) then old(blocks) + [old(brk)] else old(blocks)
                else
                  && p == NULL && headers == old(headers) && blocks == old(blocks)
                  && brk == old(brk) && tail == old(tail)
    {
      if size == 0 {
        return NULL;
      }
      ghost var mem, last := headers, tail;
      var block := TakeFirstFit(size);
      if block != NULL {
        return block + HEADER_SIZE;
      }
      assert headers == mem && tail == last && brk == old(brk) && blocks == old(blocks);
      var total := RoundRequest(size);
      block := RequestMemory(total, grow);
      if block == NULL {
        return NULL;
      }
      // the fresh header is already in use; the source clears the flag again
      assert block !in mem;
      TakeFresh(mem, last, block, total);
      Take(block);
      TakenServes(block, size);
      p := block + HEADER_SIZE;
    }

    /** `tb_malloc` of `test/allocator.c`: the same rounding and reuse path,
        but after asking for a fresh block it returns no value, whether or
        not `sbrk` succeeded. */
    method MallocDraft(size: nat, grow: bool) returns (r: Returned)
      requires Valid()
      modifies this`brk, this`head, this`tail, this`headers, this`blocks
      ensures Valid()
      ensures r.Pointer? && r.addr != NULL ==> Serves(r.addr, size)
      ensures size == 0 ==> r == Pointer(NULL) && headers == old(headers) && blocks == old(blocks)
                            && brk == old(brk) && tail == old(tail)
      ensures size > 0 && FirstFit(old(headers), old(blocks), RoundRequest(size)) != NULL ==>
                var b := FirstFit(old(headers), old(blocks), RoundRequest(size));
                && r == Pointer(b + HEADER_SIZE) && headers == Taken(old(headers), b)
                && blocks == old(blocks) && brk == old(brk) && tail == old(tail)
      ensures size > 0 && FirstFit(old(headers), old(blocks), RoundRequest(size)) == NULL ==>
                && r == NoValue
                && (grow ==> && brk == old(brk) + RoundRequest(size)
                             && headers == Appended(old(headers), old(tail), old(brk), RoundRequest(size))
                             && blocks == if TailOnList(old(tail), old(blocks)) then old(blocks) + [old(brk)] else old(blocks))
                && (!grow ==> headers == old(headers) && blocks == old(blocks) && brk == old(brk))
    {
      if size == 0 {
        return Pointer(NULL);
      }
      ghost var mem := headers;
      var block := TakeFirstFit(size);
      if block != NULL {
        assert Serves(block + HEADER_SIZE, size);
        return Pointer(block + HEADER_SIZE);
      }
      assert headers == mem;
      block := RequestMemory(RoundRequest(size), grow);
      r := NoValue;
    }

    /** `tb_free`: ignore NULL, otherwise release the block whose header
        sits just below `ptr`. */
    method Free(ptr: Addr)
      requires Valid()
      requires ptr == NULL || (ptr >= HEADER_SIZE && ptr - HEADER_SIZE in headers)
      modifies this`headers, this`blocks
      ensures Valid()
      ensures ptr == NULL ==> headers == old(headers) && blocks == old(blocks)
      ensures ptr != NULL ==>
                && headers == Released(old(headers), ptr - HEADER_SIZE)
                && blocks == Unlinked(old(headers), old(blocks), ptr - HEADER_SIZE)
      ensures Footprint(headers, blocks) == Footprint(old(headers), old(blocks))
    {
      if ptr != NULL {
        Release(ptr - HEADER_SIZE);
      }
    }

    /** The body of `tb_free` past its NULL check: mark the block free and,
        when its successor is free, grow it over the successor.  Only that
        successor leaves the list; no other header changes. */
    method Release(hdr: Addr)
      requires Valid() && hdr in headers
      modifies this`headers, this`blocks
      ensures Valid()
      ensures headers == Released(old(headers), hdr)
      ensures blocks == Unlinked(old(headers), old(blocks), hdr)
      ensures Footprint(headers, blocks) == Footprint(old(headers), old(blocks))
    {
      ghost var mem, bs := headers, blocks;
      headers := headers[hdr := headers[hdr].(isFree := true)];
      var next := headers[hdr].next;
      if next != NULL && headers[next].isFree {
        assert next != hdr && headers[next] == mem[next];
        headers := headers[hdr := headers[hdr].(size := headers[hdr].size + HEADER_SIZE + headers[next].size,
                                                next := headers[next].next)];
        assert headers == Released(mem, hdr) by {
          assert Absorbs(mem, hdr);
        }
      } else {
        assert headers == Released(mem, hdr) by {
          assert !Absorbs(mem, hdr);
        }
      }
      blocks := Unlinked(mem, bs, hdr);
      ReleasedValid(mem, bs, hdr);
    }

    lemma ReleasedValid(mem: Memory, bs: seq<Addr>, hdr: Addr)
      requires Shape(base, brk, head, tail, mem, bs) && hdr in mem
      requires headers == Released(mem, hdr) && blocks == Unlinked(mem, bs, hdr)
      ensures Valid() && Footprint(headers, blocks) == Footprint(mem, bs)
    {
      ReleaseKeepsShape(base, brk, head, tail, mem, bs, hdr);
      ReleaseKeepsFootprint(mem, bs, hdr);
    }
  }
}
