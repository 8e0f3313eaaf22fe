/**
 * The buddy allocator of `src/tb_allocator.h` as the program runs it: the
 * arena's headers are written in place and the free lists sit in a fixed
 * array of `LEVELS` entries.  Every method is proved to do to `State()`
 * exactly what the matching function of `BuddyArena` says.
 */
module BuddyAllocator {
  import opened Layout
  import opened BuddyArena

  /**
   * `size_to_level`: round `size` plus a header up to 16 bytes, then double
   * a block size from the smallest level until it covers that total or the
   * top level is reached.
   */
  method SizeToLevel(size: nat) returns (level: nat)
    ensures level == LevelFor(size)
  {
    var total := (size + HEADER_SIZE + 15) / 16 * 16;
    var blockSize := MIN_BLOCK_SIZE;
    level := 0;
    while blockSize < total && level < TOP_LEVEL
      invariant level <= TOP_LEVEL
      invariant blockSize == LevelToSize(level)
      invariant CoverFrom(total, level) == LevelFor(size)
      decreases TOP_LEVEL - level
    {
      blockSize := blockSize * 2;
      level := level + 1;
    }
  }

  class BuddyHeap {
    /** The header written at each offset of the arena. */
    var headers: Headers
    /** `free_list`: one list of block offsets per level. */
    const freeLists: array<seq<nat>>

    ghost function State(): Arena
      reads this, freeLists
    {
      Arena(headers, freeLists[..])
    }

    ghost predicate Valid()
      reads this, freeLists
    {
      WellFormed(State())
    }

    /** `tb_initialize_allocator`: one free header at offset 0 for the
        whole arena, on the top level's list. */
    constructor ()
      ensures Valid() && State() == Initial()
    {
      headers := map[0 := BlockHeader(HEAP_SIZE - HEADER_SIZE, true)];
      freeLists := new seq<nat>[LEVELS](l => if l == TOP_LEVEL then [0] else []);
      new;
      assert freeLists[..] == Initial().lists;
    }

    /** `tb_find_free_block(level)`: walk the level's list and return the
        first block whose header is free. */
    method FindFreeBlock(level: nat) returns (block: Option<nat>)
      requires freeLists.Length == LEVELS && level < LEVELS
      ensures block == FirstFree(headers, freeLists[level])
    {
      var list := freeLists[level];
      var i := 0;
      while i < |list|
        invariant i <= |list|
        invariant forall j :: 0 <= j < i ==> !HeaderAt(headers, list[j]).isFree
      {
        if HeaderAt(headers, list[i]).isFree {
          return Some(list[i]);
        }
        i := i + 1;
      }
      return None;
    }

    /** `free_list_remove(block)`: unlink the first occurrence of `block`
        from the list of the level its header's size maps to. */
    method FreeListRemove(block: nat)
      requires freeLists.Length == LEVELS
      modifies freeLists
      ensures headers == old(headers)
      ensures freeLists[..] == Removed(old(State()), block).lists
    {
      var level := SizeToLevel(HeaderAt(headers, block).size);
      var list := freeLists[level];
      var i := 0;
      while i < |list|
        invariant i <= |list|
        invariant block !in list[..i]
      {
        if list[i] == block {
          assert list[..i + 1] == list[..i] + [block];
          freeLists[level] := list[..i] + list[i + 1..];
          return;
        }
        assert list[..i + 1] == list[..i] + [list[i]];
        i := i + 1;
      }
      assert list[..i] == list;
    }

    /** `free_list_add(block)` (assumed): put `block` at the front of the
        list of the level its header's size maps to. */
    method FreeListAdd(block: nat)
      requires freeLists.Length == LEVELS
      modifies freeLists
      ensures headers == old(headers)
      ensures freeLists[..] == Added(old(State()), block).lists
    {
      var level := SizeToLevel(HeaderAt(headers, block).size);
      freeLists[level] := [block] + freeLists[level];
    }

    /** The body of one round of `split_larger_block` on `block`, found
        free on the list of `level`. */
    method HalveBlock(block: nat, level: nat)
      requires Valid() && 0 < level <= TOP_LEVEL
      modifies this, freeLists
      ensures Valid()
      ensures headers == Halved(old(State()), block, level).headers
      ensures freeLists[..] == Halved(old(State()), block, level).lists
    {
      ghost var a := State();
      HalvedKeepsWellFormed(a, block, level);
      FreeListRemove(block);
      var half := LevelToSize(level - 1);
      headers := headers[block := HeaderAt(headers, block).(size := half)];
      headers := headers[block + half := BlockHeader(half, true)];
      FreeListAdd(block + half);
    }

    /** The search of `split_larger_block(target)`: the first level above
        `target` whose list holds a free block, and that block. */
    method FindLargerBlock(target: nat) returns (level: nat, larger: Option<nat>)
      requires freeLists.Length == LEVELS
      ensures level == FreeLevel(State(), target + 1)
      ensures larger.None? <==> level == LEVELS
      ensures level < LEVELS ==> larger == FirstFree(headers, freeLists[level])
    {
      level := target + 1;
      while level < LEVELS
        invariant target + 1 <= level
        invariant FreeLevel(State(), target + 1) == FreeLevel(State(), level)
        decreases LEVELS - level
      {
        larger := FindFreeBlock(level);
        if larger.Some? {
          return;
        }
        level := level + 1;
      }
      level, larger := LEVELS, None;
    }

    /**
     * `split_larger_block(target)`: search the levels above `target` for a
     * free block, halve the first one found, and return its lower half
     * once it has reached `target`; otherwise search again.  A search
     * again costs one unit of `fuel`.
     */
    method SplitLargerBlock(target: nat, fuel: nat) returns (r: Run<Option<nat>>)
      requires Valid()
      modifies this, freeLists
      ensures Valid()
      ensures var sp := SplitOff(old(State()), target, fuel);
              r == sp.1 && headers == sp.0.headers && freeLists[..] == sp.0.lists
      decreases fuel
    {
      ghost var a := State();
      var current, larger := FindLargerBlock(target);
      assert headers == a.headers && freeLists[..] == a.lists;
      if larger.None? {
        return Done(None);
      }
      var block := larger.value;
      HalveBlock(block, current);
      if current - 1 == target {
        return Done(Some(block));
      }
      if fuel == 0 {
        return OutOfFuel;
      }
      r := SplitLargerBlock(target, fuel - 1);
    }

    /**
     * `merge_buddies(block)`: while the block is free and so is its buddy
     * with the same size, unlink both, double the lower one, list it and
     * carry on from it.  Returns the survivor.
     */
    method MergeBuddies(block: nat) returns (merged: nat)
      requires Valid()
      modifies this, freeLists
      ensures Valid()
      ensures merged == Coalesced(old(State()), block).1
      ensures headers == Coalesced(old(State()), block).0.headers
      ensures freeLists[..] == Coalesced(old(State()), block).0.lists
      decreases |Bigger(headers, block)|
    {
      ghost var a := State();
      if !HeaderAt(headers, block).isFree {
        return block;
      }
      var level := SizeToLevel(HeaderAt(headers, block).size);
      var buddy := BuddyOf(block, level);
      if buddy.Some? && HeaderAt(headers, buddy.value).isFree
         && HeaderAt(headers, buddy.value).size == HeaderAt(headers, block).size
      {
        JoinedMerges(a, block);
        JoinedShrinks(a, block);
        FreeListRemove(block);
        FreeListRemove(buddy.value);
        var left := if block < buddy.value then block else buddy.value;
        headers := headers[left := BlockHeader(2 * HeaderAt(headers, left).size, true)];
        FreeListAdd(left);
        merged := MergeBuddies(left);
      } else {
        merged := block;
      }
    }

    /**
     * `tb_malloc(size)`: NULL for zero bytes; otherwise reuse the first free
     * block on the list of `size_to_level(size + HEADER_SIZE)`, else split
     * one off a higher level, mark it in use and return the address one
     * header past it, which is one header past NULL when nothing was found.
     */
    method Malloc(size: nat, fuel: nat) returns (p: Run<Pointer>)
      requires Valid()
      modifies this, freeLists
      ensures Valid()
      ensures p == Allocated(old(State()), size, fuel).1
      ensures headers == Allocated(old(State()), size, fuel).0.headers
      ensures freeLists[..] == Allocated(old(State()), size, fuel).0.lists
    {
      ghost var a := State();
      AllocatedKeepsWellFormed(a, size, fuel);
      if size == 0 {
        return Done(NullPointer);
      }
      var total := TotalSize(size);
      var level := SizeToLevel(total);
      var found := FindFreeBlock(level);
      if found.Some? {
        ghost var r := Taken(a, found.value);
        headers := headers[found.value := HeaderAt(headers, found.value).(isFree := false)];
        assert headers == r.headers && freeLists[..] == r.lists;
        return Done(Payload(found.value + HEADER_SIZE));
      }
      assert FirstFree(a.headers, a.lists[level]).None?;
      var s := SplitLargerBlock(level, fuel);
      ghost var split := SplitOff(a, level, fuel);
      assert headers == split.0.headers && freeLists[..] == split.0.lists;
      ghost var g := Granted(split.0, s);
      assert Allocated(a, size, fuel).1 == g.1;
      match s
      case OutOfFuel =>
        p := OutOfFuel;
        assert p == g.1;
      case Done(None) =>
        p := Done(PastNull);
        assert p == g.1;
      case Done(Some(block)) =>
        GrantedBlock(split.0, block);
        headers := headers[block := HeaderAt(headers, block).(isFree := false)];
        assert headers == g.0.headers;
        p := Done(Payload(block + HEADER_SIZE));
        assert p == g.1;
    }

    /** `tb_free(ptr)`: ignore NULL; otherwise mark the block behind `ptr`
        free, coalesce it and list the survivor. */
    method Free(ptr: Option<nat>)
      requires Valid()
      requires ptr.Some? ==> ptr.value >= HEADER_SIZE && ptr.value - HEADER_SIZE in headers
      modifies this, freeLists
      ensures Valid()
      ensures headers == Freed(old(State()), ptr).headers
      ensures freeLists[..] == Freed(old(State()), ptr).lists
    {
      if ptr.None? {
        return;
      }
      var block := ptr.value - HEADER_SIZE;
      ghost var a := State();
      FreedKeepsWellFormed(a, ptr);
      RewriteKeepsWellFormed(a, block, headers[block].(isFree := true));
      headers := headers[block := headers[block].(isFree := true)];
      ghost var a1 := Released(a, block);
      assert headers == a1.headers;
      assert freeLists[..] == a1.lists;
      assert State() == a1;
      var merged := MergeBuddies(block);
      ghost var m := Coalesced(a1, block);
      assert merged == m.1;
      assert headers == m.0.headers && freeLists[..] == m.0.lists;
      FreeListAdd(merged);
      ghost var r := Added(m.0, m.1);
      assert headers == r.headers;
      assert freeLists[..] == r.lists;
      FreedUnfolds(a, ptr);
    }
  }
}
