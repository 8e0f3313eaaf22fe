/**
 * The buddy allocator of `src/tb_allocator.h`, as values.
 *
 * The heap is a 1 MiB arena named by offsets from its start.  A block is
 * named by the offset of its header, and `Headers` maps every offset at
 * which a header was written to its `size` and `is_free` fields; a header
 * never written reads as zeros, since the arena is an anonymous mapping.
 * Offsets past the arena are kept: the splitting code does write there.
 * The free list of each level is a sequence of block offsets, front first.
 *
 * Two helpers the allocator calls are defined nowhere in the source and
 * are modelled by assumption: `free_list_add` prepends a block to the list
 * of the level `size_to_level` gives its size (the same level
 * `free_list_remove` searches), and `get_buddy` is the standard buddy
 * rule, the offset XOR the level's block size, with no buddy outside the
 * arena.
 *
 * The functions below say what each operation does to an `Arena`; the
 * imperative `BuddyAllocator.BuddyHeap` is proved to follow them.
 */
module BuddyArena {
  import opened Collections
  import opened Layout

  datatype Option<T> = None | Some(value: T)

  /** A recursion that ran out of fuel, or the value it returned. */
  datatype Run<T> = Done(value: T) | OutOfFuel

  const HEAP_SIZE: nat := 0x10_0000
  const MIN_BLOCK_SIZE: nat := 32
  /** The highest level: a block of this level spans the whole arena. */
  const TOP_LEVEL: nat := 15
  /** The number of free lists, one per level. */
  const LEVELS: nat := 16

  /* ------------------------------------------------------------- levels */

  function Pow2(n: nat): (r: nat)
    ensures r >= 1
  {
    if n == 0 then 1 else 2 * Pow2(n - 1)
  }

  /** `level_to_size`: `MIN_BLOCK_SIZE << level`, one doubling per level. */
  function LevelToSize(level: nat): (size: nat)
    ensures size >= MIN_BLOCK_SIZE
  {
    if level == 0 then MIN_BLOCK_SIZE else 2 * LevelToSize(level - 1)
  }

  /** `level_to_size(level)` is `32 << level`: level 0 holds 32-byte blocks,
      level 1 64-byte ones, and the top level spans the arena. */
  lemma {:induction false} LevelSizes(level: nat)
    ensures LevelToSize(level) == MIN_BLOCK_SIZE * Pow2(level)
    ensures LevelToSize(0) == 32 && LevelToSize(1) == 64
    ensures LevelToSize(TOP_LEVEL) == HEAP_SIZE
  {
    if level > 0 {
      LevelSizes(level - 1);
    }
    assert LevelToSize(TOP_LEVEL) == 0x10_0000;
  }

  /** Every block size is a multiple of 16 bytes. */
  lemma {:induction false} LevelAligned(level: nat)
    ensures LevelToSize(level) % 16 == 0
  {
    if level > 0 {
      LevelAligned(level - 1);
      var q := LevelToSize(level - 1) / 16;
      assert LevelToSize(level) == 16 * (2 * q);
    }
  }

  /** Block sizes strictly grow with the level. */
  lemma {:induction false} LevelToSizeGrows(l: nat, m: nat)
    requires l < m
    ensures LevelToSize(l) < LevelToSize(m)
    decreases m - l
  {
    if l < m - 1 {
      LevelToSizeGrows(l, m - 1);
    }
  }

  /** Blocks of `level` are too small for `total` bytes. */
  predicate Short(level: nat, total: nat)
  {
    LevelToSize(level) < total
  }

  /** The `while` loop of `size_to_level` from `level` on: the least level
      whose block size covers `total`, stopping at TOP_LEVEL. */
  function CoverFrom(total: nat, level: nat): (r: nat)
    requires level <= TOP_LEVEL
    ensures level <= r <= TOP_LEVEL
    decreases TOP_LEVEL - level
  {
    if LevelToSize(level) < total && level < TOP_LEVEL then CoverFrom(total, level + 1) else level
  }

  /** The search stops at the first level from `level` whose blocks cover
      `total`, or at the top. */
  lemma {:induction false} CoverFromLeast(total: nat, level: nat)
    requires level <= TOP_LEVEL
    ensures var r := CoverFrom(total, level);
            && (r == TOP_LEVEL || total <= LevelToSize(r))
            && (forall l :: level <= l < r ==> Short(l, total))
    decreases TOP_LEVEL - level
  {
    if LevelToSize(level) < total && level < TOP_LEVEL {
      CoverFromLeast(total, level + 1);
    }
  }

  /** `size_to_level`: the level whose blocks hold `size` plus a header
      rounded up to 16 bytes (see `LevelForLeast`). */
  function LevelFor(size: nat): (level: nat)
    ensures level <= TOP_LEVEL
  {
    CoverFrom(RoundRequest(size), 0)
  }

  /** `size_to_level` picks the least level whose blocks hold the rounded
      request, or TOP_LEVEL when none does. */
  lemma LevelForLeast(size: nat)
    ensures var level := LevelFor(size);
            && (level == TOP_LEVEL || RoundRequest(size) <= LevelToSize(level))
            && (forall l: nat :: l < level ==> Short(l, RoundRequest(size)))
  {
    CoverFromLeast(RoundRequest(size), 0);
  }

  /** Whenever the rounded request fits in the arena, the chosen level's
      blocks cover it. */
  lemma LevelForFits(size: nat)
    requires RoundRequest(size) <= HEAP_SIZE
    ensures RoundRequest(size) <= LevelToSize(LevelFor(size))
  {
    LevelForLeast(size);
    LevelSizes(TOP_LEVEL);
  }

  /**
   * A header whose `size` is a whole block of level `k` (as a split writes
   * it) is filed one level up: `size_to_level` adds a header's worth to a
   * size that already counts the header.
   */
  lemma WholeBlockLevel(k: nat)
    requires k < TOP_LEVEL
    ensures LevelFor(LevelToSize(k)) == k + 1
  {
    var x := LevelToSize(k);
    LevelAligned(k);
    RoundAligned(x);
    assert LevelToSize(k + 1) == 2 * x;
    var r := LevelFor(x);
    LevelForLeast(x);
    assert !Short(k + 1, x + HEADER_SIZE);
    assert r <= k + 1;
    if r < k {
      LevelToSizeGrows(r, k);
    }
    assert r >= k + 1;
  }

  /** The payload size the initial header records files the arena on the
      top list. */
  lemma InitialLevel()
    ensures LevelFor(HEAP_SIZE - HEADER_SIZE) == TOP_LEVEL
  {
    LevelSizes(TOP_LEVEL);
    WholeBlockLevel(TOP_LEVEL - 1);
    LevelForLeast(HEAP_SIZE - HEADER_SIZE);
  }

  /* -------------------------------------------------------------- buddies */

  /** Bitwise exclusive or of two naturals. */
  function Xor(a: nat, b: nat): (r: nat)
    decreases a + b
  {
    if a == 0 then b
    else if b == 0 then a
    else 2 * Xor(a / 2, b / 2) + (if a % 2 == b % 2 then 0 else 1)
  }

  /** Flipping a set bit moves the offset. */
  lemma {:induction false} XorMoves(a: nat, b: nat)
    requires b > 0
    ensures Xor(a, b) != a
    decreases a + b
  {
    if a != 0 {
      var x := Xor(a / 2, b / 2);
      if b / 2 > 0 {
        XorMoves(a / 2, b / 2);
      }
    }
  }

  /** `get_buddy` (assumed): the block whose offset differs from `block`'s
      in the bit of the level's block size; none outside the arena. */
  function BuddyOf(block: nat, level: nat): (r: Option<nat>)
    ensures r.Some? ==> r.value < HEAP_SIZE && r.value != block
  {
    XorMoves(block, LevelToSize(level));
    var b := Xor(block, LevelToSize(level));
    if b < HEAP_SIZE then Some(b) else None
  }

  /* ---------------------------------------------------------- the arena */

  datatype BlockHeader = BlockHeader(size: nat, isFree: bool)

  type Headers = map<nat, BlockHeader>

  /** The header at `b`; one never written reads as zeros. */
  function HeaderAt(mem: Headers, b: nat): BlockHeader
  {
    if b in mem then mem[b] else BlockHeader(0, false)
  }

  /** The headers and the free lists, level 0 first. */
  datatype Arena = Arena(headers: Headers, lists: seq<seq<nat>>)

  /** One list per level, every listed block has a header, and every header
      has a positive size. */
  ghost predicate WellFormed(a: Arena)
  {
    && |a.lists| == LEVELS
    && (forall l :: 0 <= l < LEVELS ==> forall b :: b in a.lists[l] ==> b in a.headers)
    && (forall b :: b in a.headers ==> a.headers[b].size > 0)
  }

  /** `tb_initialize_allocator`: one free block at offset 0 whose header
      records the arena less the header, filed on the top list. */
  function Initial(): (a: Arena)
    ensures WellFormed(a)
    ensures 0 in a.headers && a.lists[LevelFor(a.headers[0].size)] == [0]
  {
    InitialLevel();
    Arena(map[0 := BlockHeader(HEAP_SIZE - HEADER_SIZE, true)],
          seq(LEVELS, l => if l == TOP_LEVEL then [0] else []))
  }

  /* --------------------------------------------------------- free lists */

  /** The position of the first listed block whose header is free. */
  function FirstFreeIndex(mem: Headers, list: seq<nat>): (i: nat)
    ensures i <= |list|
    ensures i < |list| ==> HeaderAt(mem, list[i]).isFree
    ensures forall j :: 0 <= j < i ==> !HeaderAt(mem, list[j]).isFree
  {
    if list == [] then 0
    else if HeaderAt(mem, list[0]).isFree then 0
    else 1 + FirstFreeIndex(mem, list[1..])
  }

  /** `tb_find_free_block` on one list: its first free block, if any. */
  function FirstFree(mem: Headers, list: seq<nat>): (r: Option<nat>)
    ensures r.Some? ==> r.value in list && HeaderAt(mem, r.value).isFree
    ensures list != [] && HeaderAt(mem, list[0]).isFree ==> r == Some(list[0])
  {
    var i := FirstFreeIndex(mem, list);
    if i < |list| then Some(list[i]) else None
  }

  /** The first level from `level` up whose list holds a free block, or
      LEVELS when there is none. */
  function FreeLevel(a: Arena, level: nat): (r: nat)
    requires |a.lists| == LEVELS
    ensures r == LEVELS || (level <= r < LEVELS && FirstFree(a.headers, a.lists[r]).Some?)
    ensures forall l :: level <= l < r && l < LEVELS ==> FirstFree(a.headers, a.lists[l]).None?
    decreases LEVELS - level
  {
    if level >= LEVELS then LEVELS
    else if FirstFree(a.headers, a.lists[level]).Some? then level
    else FreeLevel(a, level + 1)
  }

  /** `free_list_remove`: the first occurrence of `b` leaves the list of the
      level its header's size maps to. */
  function Removed(a: Arena, b: nat): (r: Arena)
    requires |a.lists| == LEVELS
    ensures |r.lists| == LEVELS && r.headers == a.headers
  {
    var l := LevelFor(HeaderAt(a.headers, b).size);
    a.(lists := a.lists[l := RemoveFirst(a.lists[l], b)])
  }

  /** `free_list_add` (assumed): `b` goes to the front of the list of the
      level its header's size maps to. */
  function Added(a: Arena, b: nat): (r: Arena)
    requires |a.lists| == LEVELS
    ensures |r.lists| == LEVELS && r.headers == a.headers
  {
    var l := LevelFor(HeaderAt(a.headers, b).size);
    a.(lists := a.lists[l := [b] + a.lists[l]])
  }

  /** `free_list_remove` takes out exactly the first occurrence of the block,
      keeps every other entry in order, and changes nothing else. */
  lemma RemovedUnlinksFirst(a: Arena, b: nat)
    requires |a.lists| == LEVELS
    ensures var r := Removed(a, b); var l := LevelFor(HeaderAt(a.headers, b).size);
            && r.headers == a.headers
            && (forall k :: 0 <= k < LEVELS && k != l ==> r.lists[k] == a.lists[k])
            && (b !in a.lists[l] ==> r == a)
            && (b in a.lists[l] ==> var i := FirstIndex(a.lists[l], b);
                  a.lists[l] == r.lists[l][..i] + [b] + r.lists[l][i..])
  {
    var l := LevelFor(HeaderAt(a.headers, b).size);
    RemoveFirstSplits(a.lists[l], b);
  }

  lemma RemovedKeepsWellFormed(a: Arena, b: nat)
    requires WellFormed(a)
    ensures WellFormed(Removed(a, b))
  {
    var l := LevelFor(HeaderAt(a.headers, b).size);
    var r := Removed(a, b);
    forall k | 0 <= k < LEVELS
      ensures forall x :: x in r.lists[k] ==> x in r.headers
    {
      if k == l {
        assert forall x :: x in r.lists[k] ==> x in a.lists[l];
      } else {
        assert r.lists[k] == a.lists[k];
      }
    }
  }

  lemma AddedKeepsWellFormed(a: Arena, b: nat)
    requires WellFormed(a) && b in a.headers
    ensures WellFormed(Added(a, b))
  {
    var l := LevelFor(HeaderAt(a.headers, b).size);
    var r := Added(a, b);
    forall k | 0 <= k < LEVELS
      ensures forall x :: x in r.lists[k] ==> x in r.headers
    {
      if k != l {
        assert r.lists[k] == a.lists[k];
      }
    }
  }

  /** A header rewritten in place (same key, positive size) keeps the arena
      well formed. */
  lemma RewriteKeepsWellFormed(a: Arena, b: nat, h: BlockHeader)
    requires WellFormed(a) && h.size > 0
    ensures WellFormed(a.(headers := a.headers[b := h]))
  {
    var r := a.(headers := a.headers[b := h]);
    forall k | 0 <= k < LEVELS
      ensures forall x :: x in r.lists[k] ==> x in r.headers
    {
      assert r.lists[k] == a.lists[k];
    }
  }

  /* ---------------------------------------------------------- splitting */

  /** The header writes of one split round: `b` shrinks to `half` bytes and
      a free header of `half` bytes appears at `b + half`. */
  function Halves(mem: Headers, b: nat, half: nat): Headers
  {
    mem[b := HeaderAt(mem, b).(size := half)][b + half := BlockHeader(half, true)]
  }

  lemma HalvesWrites(mem: Headers, b: nat, half: nat)
    requires half > 0
    ensures var m := Halves(mem, b, half);
            && b in m && m[b] == HeaderAt(mem, b).(size := half)
            && b + half in m && m[b + half] == BlockHeader(half, true)
            && (forall x :: x in mem ==> x in m)
            && (forall x :: x in m && x != b && x != b + half ==> x in mem && m[x] == mem[x])
  {
  }

  /** One round of `split_larger_block` on `b`, found free on list
      `level`: unlink it, shrink its header to a block of the level below,
      write a free header of that size at `b` plus that size, and list it. */
  function Halved(a: Arena, b: nat, level: nat): (r: Arena)
    requires |a.lists| == LEVELS && 0 < level
    ensures |r.lists| == LEVELS
    ensures r.headers == Halves(a.headers, b, LevelToSize(level - 1))
  {
    var half := LevelToSize(level - 1);
    Added(Arena(Halves(a.headers, b, half), Removed(a, b).lists), b + half)
  }

  /** A round puts the free upper half at the front of the very list the
      block came from, and changes no other list beyond the unlinking. */
  lemma HalvedLists(a: Arena, b: nat, level: nat)
    requires |a.lists| == LEVELS && 0 < level <= TOP_LEVEL
    ensures var half := LevelToSize(level - 1); var removed := Removed(a, b).lists;
            Halved(a, b, level).lists == removed[level := [b + half] + removed[level]]
  {
    var half := LevelToSize(level - 1);
    HalfLevel(a.headers, b, level);
    AddedAt(Arena(Halves(a.headers, b, half), Removed(a, b).lists), b + half, level);
  }

  /** The free upper half written by a round is filed on the list of the
      level the whole block came from. */
  lemma HalfLevel(mem: Headers, b: nat, level: nat)
    requires 0 < level <= TOP_LEVEL
    ensures var half := LevelToSize(level - 1);
            LevelFor(HeaderAt(Halves(mem, b, half), b + half).size) == level
  {
    WholeBlockLevel(level - 1);
    HalvesWrites(mem, b, LevelToSize(level - 1));
  }

  lemma AddedAt(a: Arena, b: nat, level: nat)
    requires |a.lists| == LEVELS && LevelFor(HeaderAt(a.headers, b).size) == level
    ensures Added(a, b).lists == a.lists[level := [b] + a.lists[level]]
  {
  }

  lemma HalvedKeepsWellFormed(a: Arena, b: nat, level: nat)
    requires WellFormed(a) && 0 < level <= TOP_LEVEL
    ensures WellFormed(Halved(a, b, level))
  {
    var half := LevelToSize(level - 1);
    var a1 := Removed(a, b);
    RemovedKeepsWellFormed(a, b);
    HalvesWrites(a.headers, b, half);
    var a3 := Arena(Halves(a.headers, b, half), a1.lists);
    assert WellFormed(a3) by {
      forall k | 0 <= k < LEVELS
        ensures forall x :: x in a3.lists[k] ==> x in a3.headers
      {
        assert a3.lists[k] == a1.lists[k];
      }
    }
    AddedKeepsWellFormed(a3, b + half);
  }

  /** `b` heads a block of level `target` whose upper half is a free block
      of the same size. */
  ghost predicate Carves(a: Arena, b: nat, target: nat)
  {
    var half := LevelToSize(target);
    && b in a.headers && a.headers[b].size == half
    && b + half in a.headers && a.headers[b + half] == BlockHeader(half, true)
  }

  /**
   * `split_larger_block(target)`: find the first level above `target`
   * holding a free block and halve that block; stop with it when it has
   * reached `target`, otherwise search again from the start.  Each search
   * again uses up one unit of `fuel`.
   */
  function SplitOff(a: Arena, target: nat, fuel: nat): (r: (Arena, Run<Option<nat>>))
    requires |a.lists| == LEVELS
    ensures |r.0.lists| == LEVELS
    ensures r.1.Done? && r.1.value.Some? ==> Carves(r.0, r.1.value.value, target)
    decreases fuel
  {
    var c := FreeLevel(a, target + 1);
    if c == LEVELS then (a, Done(None))
    else
      var b := FirstFree(a.headers, a.lists[c]).value;
      var a' := Halved(a, b, c);
      if c - 1 == target then HalvedCarves(a, b, c); (a', Done(Some(b)))
      else if fuel == 0 then (a', OutOfFuel)
      else SplitOff(a', target, fuel - 1)
  }

  lemma {:induction false} SplitOffKeepsWellFormed(a: Arena, target: nat, fuel: nat)
    requires WellFormed(a)
    ensures WellFormed(SplitOff(a, target, fuel).0)
    decreases fuel
  {
    var c := FreeLevel(a, target + 1);
    if c < LEVELS {
      var b := FirstFree(a.headers, a.lists[c]).value;
      HalvedKeepsWellFormed(a, b, c);
      if c - 1 != target && fuel > 0 {
        SplitOffKeepsWellFormed(Halved(a, b, c), target, fuel - 1);
      }
    }
  }

  /** After a round the upper half is free at the front of the list the
      block came from. */
  lemma HalvedRelists(a: Arena, b: nat, level: nat)
    requires |a.lists| == LEVELS && 0 < level <= TOP_LEVEL
    ensures FirstFree(Halved(a, b, level).headers, Halved(a, b, level).lists[level]).Some?
  {
    HalvedLists(a, b, level);
    HalvesWrites(a.headers, b, LevelToSize(level - 1));
  }

  /** `split_larger_block` returns NULL exactly when no level above the
      target holds a free block, and then changes nothing: once a round has
      halved a block, its free upper half is there to be found again. */
  lemma {:induction false} SplitOffFails(a: Arena, target: nat, fuel: nat)
    requires |a.lists| == LEVELS
    ensures SplitOff(a, target, fuel).1 == Done(None) <==> FreeLevel(a, target + 1) == LEVELS
    ensures SplitOff(a, target, fuel).1 == Done(None) ==> SplitOff(a, target, fuel).0 == a
    decreases fuel
  {
    var c := FreeLevel(a, target + 1);
    if c < LEVELS {
      var b := FirstFree(a.headers, a.lists[c]).value;
      var a' := Halved(a, b, c);
      if c - 1 != target && fuel > 0 {
        assert FreeLevel(a', target + 1) < LEVELS by {
          HalvedRelists(a, b, c);
        }
        SplitOffFails(a', target, fuel - 1);
      }
    }
  }

  /** A round leaves `b` heading a block of the level below, whose upper
      half is free. */
  lemma HalvedCarves(a: Arena, b: nat, level: nat)
    requires |a.lists| == LEVELS && 0 < level
    ensures Carves(Halved(a, b, level), b, level - 1)
  {
    HalvesWrites(a.headers, b, LevelToSize(level - 1));
  }

  /** The first level from `from` holding a free block is `c` when every
      list in between is empty. */
  lemma FreeLevelIs(a: Arena, from: nat, c: nat)
    requires |a.lists| == LEVELS && from <= c < LEVELS
    requires forall l :: from <= l < c ==> a.lists[l] == []
    requires FirstFree(a.headers, a.lists[c]).Some?
    ensures FreeLevel(a, from) == c
  {
  }

  /**
   * When the first level above `target` holding a free block is not the
   * next one up and every level between is empty, `split_larger_block`
   * never returns: each round halves the block it finds, files the upper
   * half back on the same list and starts over, walking upward through
   * memory and past the arena.
   */
  lemma {:induction false} SplitDiverges(a: Arena, target: nat, fuel: nat)
    requires |a.lists| == LEVELS
    requires target + 1 < FreeLevel(a, target + 1) < LEVELS
    requires forall l :: target < l < FreeLevel(a, target + 1) ==> a.lists[l] == []
    ensures SplitOff(a, target, fuel).1 == OutOfFuel
    decreases fuel
  {
    var c := FreeLevel(a, target + 1);
    var b := FirstFree(a.headers, a.lists[c]).value;
    if fuel > 0 {
      var a' := Halved(a, b, c);
      HalvedKeepsGap(a, b, target, c);
      SplitDiverges(a', target, fuel - 1);
      assert SplitOff(a, target, fuel).1 == SplitOff(a', target, fuel - 1).1;
    }
  }

  /** A round on the block found at level `c` leaves every list between
      `target` and `c` empty, so the next search finds level `c` again. */
  lemma HalvedKeepsGap(a: Arena, b: nat, target: nat, c: nat)
    requires |a.lists| == LEVELS && target + 1 < c < LEVELS
    requires forall l :: target < l < c ==> a.lists[l] == []
    ensures var a' := Halved(a, b, c);
            && (forall l :: target < l < c ==> a'.lists[l] == [])
            && FreeLevel(a', target + 1) == c
  {
    var a' := Halved(a, b, c);
    HalvedLists(a, b, c);
    RemovedUnlinksFirst(a, b);
    forall l | target < l < c
      ensures a'.lists[l] == []
    {
      assert a'.lists[l] == Removed(a, b).lists[l];
    }
    HalvedRelists(a, b, c);
    FreeLevelIs(a', target + 1, c);
  }

  /* ---------------------------------------------------------- coalescing */

  /** The buddy `merge_buddies` looks for: `get_buddy` at the level the
      block's size maps to. */
  function BuddyFor(a: Arena, b: nat): Option<nat>
  {
    BuddyOf(b, LevelFor(HeaderAt(a.headers, b).size))
  }

  /** The test `merge_buddies` makes before merging: the block is free and
      so is its buddy, with the same size. */
  predicate Mergeable(a: Arena, b: nat)
  {
    && HeaderAt(a.headers, b).isFree
    && var buddy := BuddyFor(a, b);
    && buddy.Some?
    && HeaderAt(a.headers, buddy.value).isFree
    && HeaderAt(a.headers, buddy.value).size == HeaderAt(a.headers, b).size
  }

  /** One merge: unlink both blocks, double the lower one's size, mark it
      free and list it. */
  function Joined(a: Arena, b: nat, buddy: nat): (r: Arena)
    requires |a.lists| == LEVELS
    ensures |r.lists| == LEVELS
  {
    var a1 := Removed(Removed(a, b), buddy);
    var left := Lower(b, buddy);
    var a2 := a1.(headers := a1.headers[left := BlockHeader(2 * HeaderAt(a1.headers, left).size, true)]);
    Added(a2, left)
  }

  /** The headers other than `b` at least as large as `b`'s. */
  ghost function Bigger(mem: Headers, b: nat): set<nat>
  {
    set x | x in mem && x != b && mem[x].size >= HeaderAt(mem, b).size
  }

  /** The lower of a block and its buddy. */
  function Lower(b: nat, buddy: nat): nat
  {
    if b < buddy then b else buddy
  }

  /** A merge keeps the arena well formed, leaves a free survivor of twice
      the size, and lists it at the front of its level. */
  lemma JoinedMerges(a: Arena, b: nat)
    requires WellFormed(a) && Mergeable(a, b)
    ensures var buddy := BuddyFor(a, b).value; var left := Lower(b, buddy);
            var r := Joined(a, b, buddy);
            && WellFormed(r)
            && r.headers == a.headers[left := BlockHeader(2 * a.headers[b].size, true)]
            && r.lists[LevelFor(2 * a.headers[b].size)] != []
            && r.lists[LevelFor(2 * a.headers[b].size)][0] == left
  {
    var buddy := BuddyFor(a, b).value;
    var left := Lower(b, buddy);
    var a0 := Removed(a, b);
    RemovedKeepsWellFormed(a, b);
    var a1 := Removed(a0, buddy);
    RemovedKeepsWellFormed(a0, buddy);
    RewriteKeepsWellFormed(a1, left, BlockHeader(2 * a.headers[b].size, true));
  }

  /** After a merge fewer headers are at least as large as the survivor, so
      merging cannot go on forever. */
  lemma JoinedShrinks(a: Arena, b: nat)
    requires WellFormed(a) && Mergeable(a, b)
    ensures var buddy := BuddyFor(a, b).value;
            |Bigger(Joined(a, b, buddy).headers, Lower(b, buddy))| < |Bigger(a.headers, b)|
  {
    var buddy := BuddyFor(a, b).value;
    var left := Lower(b, buddy);
    var mem := Joined(a, b, buddy).headers;
    assert mem == a.headers[left := BlockHeader(2 * a.headers[b].size, true)];
    var big, big' := Bigger(a.headers, b), Bigger(mem, left);
    assert big' <= big - {buddy} by {
      forall x | x in big'
        ensures x in big - {buddy}
      {
        assert mem[x] == a.headers[x];
      }
    }
    assert buddy in big;
    SubsetSize(big', big - {buddy});
  }

  /**
   * `merge_buddies(block)`: while the block is mergeable, merge it with its
   * buddy and carry on from the survivor, the lower of the two.
   */
  function Coalesced(a: Arena, b: nat): (r: (Arena, nat))
    requires WellFormed(a)
    ensures |r.0.lists| == LEVELS
    ensures r.1 <= b
    decreases |Bigger(a.headers, b)|
  {
    if Mergeable(a, b) then
      var buddy := BuddyFor(a, b).value;
      JoinedMerges(a, b);
      JoinedShrinks(a, b);
      Coalesced(Joined(a, b, buddy), Lower(b, buddy))
    else (a, b)
  }

  lemma {:induction false} CoalescedKeepsWellFormed(a: Arena, b: nat)
    requires WellFormed(a)
    ensures WellFormed(Coalesced(a, b).0)
    decreases |Bigger(a.headers, b)|
  {
    if Mergeable(a, b) {
      var buddy := BuddyFor(a, b).value;
      JoinedMerges(a, b);
      JoinedShrinks(a, b);
      CoalescedKeepsWellFormed(Joined(a, b, buddy), Lower(b, buddy));
    }
  }

  /** Without a mergeable buddy `merge_buddies` changes nothing and
      returns the block itself; after at least one merge the survivor is
      free, at least twice the size, and at the front of its level's
      list. */
  lemma {:induction false} CoalescedSurvivor(a: Arena, b: nat)
    requires WellFormed(a)
    ensures var r := Coalesced(a, b);
            && (!Mergeable(a, b) ==> r.1 == b && r.0.headers == a.headers && r.0.lists == a.lists)
            && (Mergeable(a, b) ==>
                  && r.1 in r.0.headers && r.0.headers[r.1].isFree
                  && r.0.headers[r.1].size >= 2 * a.headers[b].size
                  && var l := LevelFor(r.0.headers[r.1].size);
                  && r.0.lists[l] != [] && r.0.lists[l][0] == r.1)
    decreases |Bigger(a.headers, b)|
  {
    if Mergeable(a, b) {
      var buddy := BuddyFor(a, b).value;
      var left := Lower(b, buddy);
      var j := Joined(a, b, buddy);
      JoinedMerges(a, b);
      JoinedShrinks(a, b);
      CoalescedSurvivor(j, left);
      assert j.headers[left].size == 2 * a.headers[b].size;
    }
  }

  /* -------------------------------------------------- malloc and free */

  /** What `tb_malloc` hands back: NULL, the address one header past NULL
      (its result when no block can be found), or a payload offset. */
  datatype Pointer = NullPointer | PastNull | Payload(offset: nat)

  /** `block->s.is_free = 0`. */
  function Taken(a: Arena, b: nat): (r: Arena)
  {
    a.(headers := a.headers[b := HeaderAt(a.headers, b).(isFree := false)])
  }

  /** `p` lies one header past a block that is now in use. */
  ghost predicate Serves(a: Arena, p: nat)
  {
    p >= HEADER_SIZE && p - HEADER_SIZE in a.headers && !a.headers[p - HEADER_SIZE].isFree
  }

  /** `calculate_total_size(size)`: the request plus one header. */
  function TotalSize(size: nat): nat
  {
    HEADER_SIZE + size
  }

  /**
   * `tb_malloc(size)`: NULL for zero bytes; otherwise take the level of
   * `TotalSize(size)` (whose own header `size_to_level` adds again),
   * reuse the first free block on its list, else split one off a higher
   * level.  A reused block is marked in use but left on its list.
   */
  function Allocated(a: Arena, size: nat, fuel: nat): (r: (Arena, Run<Pointer>))
    requires |a.lists| == LEVELS
    ensures |r.0.lists| == LEVELS
  {
    if size == 0 then (a, Done(NullPointer))
    else
      var level := LevelFor(TotalSize(size));
      var found := FirstFree(a.headers, a.lists[level]);
      if found.Some? then (Taken(a, found.value), Done(Payload(found.value + HEADER_SIZE)))
      else
        var (a', s) := SplitOff(a, level, fuel);
        Granted(a', s)
  }

  /** What `tb_malloc` makes of the outcome `s` of a split that left `a`:
      a split-off block is marked in use and its payload returned. */
  function Granted(a: Arena, s: Run<Option<nat>>): (r: (Arena, Run<Pointer>))
    ensures r.0.lists == a.lists
  {
    match s
    case OutOfFuel => (a, OutOfFuel)
    case Done(None) => (a, Done(PastNull))
    case Done(Some(b)) => (Taken(a, b), Done(Payload(b + HEADER_SIZE)))
  }

  /** A block the split carved off is handed out as its payload and marked
      in use, on the lists the split left. */
  lemma GrantedBlock(a: Arena, b: nat)
    ensures Granted(a, Done(Some(b))).1 == Done(Payload(b + HEADER_SIZE))
    ensures Granted(a, Done(Some(b))).0.headers == Taken(a, b).headers
  {
  }

  lemma AllocatedKeepsWellFormed(a: Arena, size: nat, fuel: nat)
    requires WellFormed(a)
    ensures WellFormed(Allocated(a, size, fuel).0)
  {
    if size > 0 {
      var level := LevelFor(TotalSize(size));
      var found := FirstFree(a.headers, a.lists[level]);
      if found.Some? {
        RewriteKeepsWellFormed(a, found.value, HeaderAt(a.headers, found.value).(isFree := false));
      } else {
        SplitOffKeepsWellFormed(a, level, fuel);
        var (a', s) := SplitOff(a, level, fuel);
        if s.Done? && s.value.Some? {
          RewriteKeepsWellFormed(a', s.value.value, HeaderAt(a'.headers, s.value.value).(isFree := false));
        }
      }
    }
  }

  /** `tb_malloc` returns NULL exactly for a zero request, and the address
      one header past NULL exactly when neither the request's level nor any
      level above holds a free block. */
  lemma AllocatedFails(a: Arena, size: nat, fuel: nat)
    requires |a.lists| == LEVELS
    ensures var r := Allocated(a, size, fuel); var level := LevelFor(TotalSize(size));
            && (r.1 == Done(NullPointer) <==> size == 0)
            && (r.1 == Done(PastNull) <==>
                  size > 0 && FirstFree(a.headers, a.lists[level]).None? && FreeLevel(a, level + 1) == LEVELS)
  {
    if size > 0 {
      SplitOffFails(a, LevelFor(TotalSize(size)), fuel);
    }
  }

  /** A payload pointer `tb_malloc` returns lies one header past a block
      that is now in use. */
  lemma AllocatedServes(a: Arena, size: nat, fuel: nat)
    requires |a.lists| == LEVELS
    ensures var r := Allocated(a, size, fuel);
            r.1.Done? && r.1.value.Payload? ==> Serves(r.0, r.1.value.offset)
  {
    if size > 0 {
      var level := LevelFor(TotalSize(size));
      var found := FirstFree(a.headers, a.lists[level]);
      if found.Some? {
        TakenServes(a, found.value);
      } else {
        var split := SplitOff(a, level, fuel);
        if split.1.Done? && split.1.value.Some? {
          TakenServes(split.0, split.1.value.value);
        }
      }
    }
  }

  lemma TakenServes(a: Arena, b: nat)
    ensures Serves(Taken(a, b), b + HEADER_SIZE)
  {
  }

  /** A block found on the request's own list is the first free one there;
      it is marked in use and left on its list, and no list changes. */
  lemma AllocatedReuses(a: Arena, size: nat, fuel: nat)
    requires |a.lists| == LEVELS
    requires size > 0 && FirstFree(a.headers, a.lists[LevelFor(TotalSize(size))]).Some?
    ensures var r := Allocated(a, size, fuel);
            var b := FirstFree(a.headers, a.lists[LevelFor(TotalSize(size))]).value;
            && r.1 == Done(Payload(b + HEADER_SIZE))
            && r.0.lists == a.lists
            && b in r.0.headers && !r.0.headers[b].isFree
  {
  }

  /** `block->s.is_free = 1` on the block behind a payload pointer. */
  function Released(a: Arena, b: nat): (r: Arena)
    requires b in a.headers
  {
    a.(headers := a.headers[b := a.headers[b].(isFree := true)])
  }

  /**
   * `tb_free(ptr)`: nothing for NULL; otherwise mark the block free,
   * coalesce it, and list the survivor.  After a merge the survivor is
   * already listed, and is listed a second time.
   */
  function Freed(a: Arena, ptr: Option<nat>): (r: Arena)
    requires WellFormed(a)
    requires ptr.Some? ==> ptr.value >= HEADER_SIZE && ptr.value - HEADER_SIZE in a.headers
    ensures |r.lists| == LEVELS
  {
    if ptr.None? then a
    else
      var b := ptr.value - HEADER_SIZE;
      RewriteKeepsWellFormed(a, b, a.headers[b].(isFree := true));
      var m := Coalesced(Released(a, b), b);
      Added(m.0, m.1)
  }

  /** For a pointer, `Freed` is the listing of the survivor of coalescing
      the released block. */
  lemma FreedUnfolds(a: Arena, ptr: Option<nat>)
    requires WellFormed(a)
    requires ptr.Some? && ptr.value >= HEADER_SIZE && ptr.value - HEADER_SIZE in a.headers
    ensures var b := ptr.value - HEADER_SIZE;
            var a1 := Released(a, b);
            WellFormed(a1) &&
            var m := Coalesced(a1, b);
            && Freed(a, ptr).headers == m.0.headers
            && Freed(a, ptr).lists == Added(m.0, m.1).lists
  {
    var b := ptr.value - HEADER_SIZE;
    RewriteKeepsWellFormed(a, b, a.headers[b].(isFree := true));
  }

  lemma FreedKeepsWellFormed(a: Arena, ptr: Option<nat>)
    requires WellFormed(a)
    requires ptr.Some? ==> ptr.value >= HEADER_SIZE && ptr.value - HEADER_SIZE in a.headers
    ensures WellFormed(Freed(a, ptr))
  {
    if ptr.Some? {
      var b := ptr.value - HEADER_SIZE;
      var a1 := Released(a, b);
      RewriteKeepsWellFormed(a, b, a.headers[b].(isFree := true));
      var m := Coalesced(a1, b);
      assert WellFormed(Added(m.0, m.1)) by {
        CoalescedKeepsWellFormed(a1, b);
        CoalescedSurvivor(a1, b);
        AddedKeepsWellFormed(m.0, m.1);
      }
      FreedUnfolds(a, ptr);
    }
  }

  /** `tb_free` ignores NULL; otherwise the survivor of coalescing lies at
      or below the freed block, is free, and heads its level's list. */
  lemma FreedListsSurvivor(a: Arena, ptr: Option<nat>)
    requires WellFormed(a)
    requires ptr.Some? ==> ptr.value >= HEADER_SIZE && ptr.value - HEADER_SIZE in a.headers
    ensures ptr.None? ==> Freed(a, ptr) == a
    ensures ptr.Some? ==>
              var r := Freed(a, ptr);
              var m := Coalesced(Released(a, ptr.value - HEADER_SIZE), ptr.value - HEADER_SIZE);
              && m.1 <= ptr.value - HEADER_SIZE
              && m.1 in r.headers && r.headers[m.1].isFree
              && var l := LevelFor(r.headers[m.1].size);
              && r.lists[l] != [] && r.lists[l][0] == m.1
  {
    if ptr.Some? {
      var b := ptr.value - HEADER_SIZE;
      var a1 := Released(a, b);
      FreedUnfolds(a, ptr);
      var m := Coalesced(a1, b);
      assert m.1 in m.0.headers && m.0.headers[m.1].isFree by {
        CoalescedSurvivor(a1, b);
      }
      var l := LevelFor(m.0.headers[m.1].size);
      assert Added(m.0, m.1).lists[l] == [m.1] + m.0.lists[l];
    }
  }

  /** After at least one merge the survivor is listed twice: `merge_buddies`
      already put it at the front of its level's list, and `tb_free` puts it
      there again. */
  lemma FreedListsTwice(a: Arena, b: nat)
    requires WellFormed(a) && b in a.headers
    requires Mergeable(Released(a, b), b)
    ensures var m := Coalesced(Released(a, b), b);
            var r := Freed(a, Some(b + HEADER_SIZE));
            && m.1 in r.headers
            && var l := LevelFor(r.headers[m.1].size);
            && |r.lists[l]| >= 2 && r.lists[l][0] == m.1 && r.lists[l][1] == m.1
  {
    var a1 := Released(a, b);
    FreedUnfolds(a, Some(b + HEADER_SIZE));
    CoalescedSurvivor(a1, b);
    var m := Coalesced(a1, b);
    var l := LevelFor(m.0.headers[m.1].size);
    assert Added(m.0, m.1).lists[l] == [m.1] + m.0.lists[l];
  }
}
