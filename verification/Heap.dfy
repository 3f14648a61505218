/**
 The pooled heap of allocator.cpp: a list of fixed-size slots carved, in address order, out
 of one malloc'd region.  Addresses are natural numbers; 0 is the null pointer.

 This module gives the meaning of each operation on a value, `State`; `HeapObject.dfy` holds
 the class whose methods update the list in place and are proved against these functions.
*/
module Heap {
  import opened Wrappers
  import opened Words

  const NULL: nat := 0
  /** The mark of a slot that was freed and handed out again. */
  const REUSED: nat := 1
  /** `(byte*)-1`, which `alloc` skips when it looks for a freed slot. */
  const MINUS_ONE: nat := TWO_TO_64 - 1

  /** A marked slot: `first` is null when freed, `REUSED` when handed out again and the carving
      pointer when first handed out; `second` is the aligned address given to the caller. */
  datatype Block = Block(first: nat, second: nat)

  /** The fields of a heap that never change; `max` counts bytes from `memory` onward. */
  datatype Region = Region(size: nat, memory: nat, align: nat, max: int)

  /** `counter` is the field `allocated` of the source, a reserved word here. */
  datatype State = State(counter: int, blocks: seq<Block>)

  datatype Op = Alloc | Free(block: nat) | FreeAll

  /** What `registerUse` hands to the constructor: an aligned start and room for one slot.
      The last byte of the address space is never part of an object. */
  ghost predicate ValidRegion(r: Region) {
    && 0 < r.size <= r.max
    && 0 < r.align
    && 0 < r.memory
    && r.memory % r.align == 0
    && r.memory + r.max <= MINUS_ONE
  }

  /** The least multiple of `a` that is not below `p`. */
  function RoundUp(p: nat, a: nat): (q: nat)
    requires 0 < a
    ensures q % a == 0 && p <= q < p + a
  {
    RoundUpAligned(p, a);
    if p % a == 0 then p else p + (a - p % a)
  }

  lemma RoundUpAligned(p: nat, a: nat)
    requires 0 < a
    ensures (p + (a - p % a)) % a == 0
  {
    assert p + (a - p % a) == (p / a + 1) * a;
    MultipleMod(p / a + 1, a);
  }

  lemma MultipleMod(k: nat, a: nat)
    requires 0 < a
    ensures k * a % a == 0
  {
    assert k * a == a * k + 0;
    DivModUnique(k * a, a, k, 0);
  }

  lemma DivModUnique(n: int, a: int, q: int, d: int)
    requires 0 < a && 0 <= d < a && n == a * q + d
    ensures n / a == q && n % a == d
  {
    var q', d' := n / a, n % a;
    assert n == a * q' + d';
    assert a * (q - q') == a * q - a * q';
    SmallMultiple(a, q - q');
  }

  lemma SmallMultiple(a: nat, k: int)
    requires 0 < a + a * k && a * k < a
    ensures k == 0
  {
    if k >= 1 {
      MulMono(1, k, a);
    } else if k <= -1 {
      MulMono(1, -k, a);
    }
  }

  lemma MulMono(a: int, b: int, c: nat)
    requires a <= b
    ensures a * c <= b * c
  {
    assert (b - a) * c >= 0;
    assert b * c == a * c + (b - a) * c;
  }

  /** `std::align`: round the pointer up if the padding and the object fit in the space. */
  function StdAlign(align: nat, size: nat, ptr: nat, space: nat): Option<nat>
    requires 0 < align
  {
    var q := RoundUp(ptr, align);
    if q - ptr + size <= space then Some(q) else None
  }

  predicate Aligned(x: nat, a: nat)
    requires 0 < a
  {
    x % a == 0
  }

  lemma RoundUpLeast(p: nat, a: nat, x: nat)
    requires 0 < a && p <= x && Aligned(x, a)
    ensures RoundUp(p, a) <= x
  {
    if x < RoundUp(p, a) {
      MultipleInWindow(x, RoundUp(p, a), p, a);
    }
  }

  /** The lowest aligned address at which the object lies inside the space; none if no aligned
      address will do. */
  lemma StdAlignFits(align: nat, size: nat, ptr: nat, space: nat)
    requires 0 < align
    ensures match StdAlign(align, size, ptr, space)
            case Some(q) =>
              && Aligned(q, align) && ptr <= q && q + size <= ptr + space
              && forall x :: ptr <= x && Aligned(x, align) ==> q <= x
            case None => forall x :: ptr <= x && Aligned(x, align) ==> ptr + space < x + size
  {
    forall x | ptr <= x && Aligned(x, align) ensures RoundUp(ptr, align) <= x {
      RoundUpLeast(ptr, align, x);
    }
  }

  /** The distance between consecutive slots. */
  function Stride(r: Region): (s: nat)
    requires 0 < r.align
    ensures r.size <= s < r.size + r.align
  {
    RoundUp(r.size, r.align)
  }

  /** Where the `k`-th carved slot lies. */
  function SlotAt(r: Region, k: nat): (x: nat)
    requires 0 < r.align
    ensures r.memory <= x
  {
    if k == 0 then r.memory else SlotAt(r, k - 1) + Stride(r)
  }

  lemma {:induction false} SlotClosedForm(r: Region, k: nat)
    requires 0 < r.align
    ensures SlotAt(r, k) == r.memory + k * Stride(r)
  {
    if k > 0 {
      SlotClosedForm(r, k - 1);
      assert k * Stride(r) == (k - 1) * Stride(r) + Stride(r);
    }
  }

  predicate Freed(b: Block) {
    b.second != MINUS_ONE && b.first == NULL
  }

  /** Where the scan of `alloc` for a freed slot stops: `|blocks|` stands for `end()`. */
  function FirstFreed(blocks: seq<Block>): (i: nat)
    ensures i <= |blocks|
    ensures forall j :: 0 <= j < i ==> !Freed(blocks[j])
    ensures i < |blocks| ==> Freed(blocks[i])
  {
    if blocks == [] then 0
    else if Freed(blocks[0]) then 0
    else 1 + FirstFreed(blocks[1..])
  }

  /** Where the scan of `free` for a live slot at that address stops. */
  function FirstLiveAt(blocks: seq<Block>, block: nat): (i: nat)
    ensures i <= |blocks|
    ensures forall j :: 0 <= j < i ==> !(blocks[j].second == block && blocks[j].first != NULL)
    ensures i < |blocks| ==> blocks[i].second == block && blocks[i].first != NULL
  {
    if blocks == [] then 0
    else if blocks[0].second == block && blocks[0].first != NULL then 0
    else 1 + FirstLiveAt(blocks[1..], block)
  }

  /** The addresses handed out and not given back. */
  function LiveSet(blocks: seq<Block>): set<nat> {
    set k | 0 <= k < |blocks| && blocks[k].first != NULL :: blocks[k].second
  }

  /** The addresses given back and not handed out again. */
  function FreedSet(blocks: seq<Block>): set<nat> {
    set k | 0 <= k < |blocks| && blocks[k].first == NULL :: blocks[k].second
  }

  /** The invariant of a heap: slots sit at multiples of the stride from `memory`, the last one
      ends inside the region, and the counter is never below the number of live slots.  An empty
      list means that nothing was ever counted, so the pointer computation of `alloc` never
      looks at the last element of an empty list. */
  ghost predicate Inv(r: Region, s: State) {
    && ValidRegion(r)
    && Placed(r, s.blocks)
    && |LiveSet(s.blocks)| <= s.counter
    && (s.blocks == [] ==> s.counter == 0)
  }

  ghost predicate Placed(r: Region, blocks: seq<Block>)
    requires 0 < r.align
  {
    && (forall k :: 0 <= k < |blocks| ==> blocks[k].second == SlotAt(r, k))
    && (blocks != [] ==> blocks[|blocks| - 1].second + r.size <= r.memory + r.max)
  }

  ghost predicate Increasing(blocks: seq<Block>) {
    forall j, k :: 0 <= j < k < |blocks| ==> blocks[j].second < blocks[k].second
  }

  /** `max - distance(memory, back + size)` as a `size_t`.  The source evaluates it on an empty
      list too, where reading `back()` is undefined; the value meant there is `max`. */
  function Remaining(r: Region, blocks: seq<Block>): nat {
    if blocks == [] then r.max % TWO_TO_64
    else (r.max - (blocks[|blocks| - 1].second + r.size - r.memory)) % TWO_TO_64
  }

  const INIT := State(0, [])

  /** `heap_t::alloc`.  The `do`/`while` of the source returns on its first pass, so `total`
      bounds nothing and does not appear here. */
  function AllocStep(r: Region, s: State): (State, nat)
    requires 0 < r.align && (s.counter != 0 ==> s.blocks != [])
  {
    var i := FirstFreed(s.blocks);
    if i < |s.blocks| then
      (State(s.counter + 1, s.blocks[i := s.blocks[i].(first := REUSED)]), s.blocks[i].second)
    else
      var ptr := if s.counter == 0 then r.memory else s.blocks[|s.blocks| - 1].second + r.size;
      match StdAlign(r.align, r.size, ptr, Remaining(r, s.blocks))
      case Some(alptr) => (State(s.counter + 1, s.blocks + [Block(ptr, alptr)]), alptr)
      case None => (State(s.counter + 1, s.blocks), NULL)
  }

  /** `heap_t::free`: an address that is not live is reported and nothing changes. */
  function FreeStep(s: State, block: nat): State {
    var i := FirstLiveAt(s.blocks, block);
    if i < |s.blocks| then State(s.counter - 1, s.blocks[i := s.blocks[i].(first := NULL)])
    else s
  }

  /** `heap_t::freeAll`: every mark becomes null; the counter is left alone. */
  function FreeAllStep(s: State): State {
    s.(blocks := Cleared(s.blocks))
  }

  function Cleared(blocks: seq<Block>): seq<Block> {
    seq(|blocks|, k requires 0 <= k < |blocks| => blocks[k].(first := NULL))
  }

  /** One call: the new state and the value returned (0 for `free`). */
  function Step(r: Region, s: State, op: Op): (State, nat)
    requires 0 < r.align && (s.counter != 0 ==> s.blocks != [])
  {
    match op
    case Alloc => AllocStep(r, s)
    case Free(b) => (FreeStep(s, b), 0)
    case FreeAll => (FreeAllStep(s), |LiveSet(s.blocks)|)
  }

  // ---------- layout ----------

  /** Slot addresses are distinct and in order. */
  lemma {:induction false} SlotsApart(r: Region, j: nat, k: nat)
    requires 0 < r.align && j < k
    ensures SlotAt(r, j) + Stride(r) <= SlotAt(r, k)
    decreases k
  {
    if j < k - 1 {
      SlotsApart(r, j, k - 1);
    }
  }

  /** Slots are in increasing order and disjoint over `size` bytes, aligned and inside the region,
      and the subtraction for `remaining` does not wrap. */
  ghost predicate LaidOut(r: Region, blocks: seq<Block>)
    requires 0 < r.align
  {
    && (forall j, k :: 0 <= j < k < |blocks| ==> blocks[j].second + r.size <= blocks[k].second)
    && (forall k :: 0 <= k < |blocks| ==>
          && blocks[k].second % r.align == 0
          && r.memory <= blocks[k].second
          && blocks[k].second + r.size <= r.memory + r.max)
    && Remaining(r, blocks) == r.memory + r.max -
                               (if blocks == [] then r.memory else blocks[|blocks| - 1].second + r.size)
  }

  /** What the invariant means for memory. */
  lemma Layout(r: Region, s: State)
    requires Inv(r, s)
    ensures Increasing(s.blocks) && LaidOut(r, s.blocks)
  {
    PlacedApart(r, s.blocks);
    PlacedInside(r, s.blocks);
    NeverWraps(r, s.blocks);
  }

  lemma NeverWraps(r: Region, blocks: seq<Block>)
    requires ValidRegion(r)
    requires blocks != [] ==> r.memory <= blocks[|blocks| - 1].second
    requires blocks != [] ==> blocks[|blocks| - 1].second + r.size <= r.memory + r.max
    ensures Remaining(r, blocks) == r.memory + r.max -
                                    (if blocks == [] then r.memory else blocks[|blocks| - 1].second + r.size)
  {}

  lemma PlacedApart(r: Region, blocks: seq<Block>)
    requires 0 < r.size && 0 < r.align && Placed(r, blocks)
    ensures Increasing(blocks)
    ensures forall j, k :: 0 <= j < k < |blocks| ==> blocks[j].second + r.size <= blocks[k].second
  {
    forall j, k | 0 <= j < k < |blocks| ensures blocks[j].second + r.size <= blocks[k].second {
      SlotsApart(r, j, k);
    }
  }

  lemma PlacedInside(r: Region, blocks: seq<Block>)
    requires ValidRegion(r) && Placed(r, blocks)
    ensures forall k :: 0 <= k < |blocks| ==>
              && blocks[k].second % r.align == 0
              && r.memory <= blocks[k].second
              && blocks[k].second + r.size <= r.memory + r.max
  {
    forall k | 0 <= k < |blocks|
      ensures blocks[k].second % r.align == 0 && blocks[k].second + r.size <= r.memory + r.max
    {
      SlotAligned(r, k);
      if k < |blocks| - 1 {
        SlotsApart(r, k, |blocks| - 1);
      }
    }
  }

  lemma {:induction false} SlotAligned(r: Region, k: nat)
    requires ValidRegion(r)
    ensures SlotAt(r, k) % r.align == 0
  {
    if k > 0 {
      SlotAligned(r, k - 1);
      SumAligned(SlotAt(r, k - 1), Stride(r), r.align);
    }
  }

  lemma SumAligned(x: nat, y: nat, a: nat)
    requires 0 < a && x % a == 0 && y % a == 0
    ensures (x + y) % a == 0
  {
    assert x + y == (x / a + y / a) * a;
    MultipleMod(x / a + y / a, a);
  }

  /** Rounding up past an aligned slot adds exactly one stride. */
  lemma NextSlot(r: Region, k: nat)
    requires ValidRegion(r)
    ensures RoundUp(SlotAt(r, k) + r.size, r.align) == SlotAt(r, k + 1)
  {
    SlotAligned(r, k);
    SlotAligned(r, k + 1);
    MultipleInWindow(RoundUp(SlotAt(r, k) + r.size, r.align), SlotAt(r, k + 1), SlotAt(r, k) + r.size, r.align);
  }

  /** At most one multiple of `a` lies in a window of length `a`. */
  lemma MultipleInWindow(x: nat, y: nat, lo: nat, a: nat)
    requires 0 < a && x % a == 0 && y % a == 0
    requires lo <= x < lo + a && lo <= y < lo + a
    ensures x == y
  {
    assert x == a * (x / a) && y == a * (y / a);
    assert a * (x / a - y / a) == x - y;
    SmallMultiple(a, x / a - y / a);
  }

  // ---------- preservation ----------

  lemma LiveOfAppend(blocks: seq<Block>, b: Block)
    requires b.first != NULL
    ensures LiveSet(blocks + [b]) == LiveSet(blocks) + {b.second}
    ensures FreedSet(blocks + [b]) == FreedSet(blocks)
  {
    var c := blocks + [b];
    assert c[|blocks|] == b;
    forall x | x in LiveSet(blocks) ensures x in LiveSet(c) {
      var k :| 0 <= k < |blocks| && blocks[k].first != NULL && blocks[k].second == x;
      assert c[k] == blocks[k];
    }
    forall x | x in FreedSet(blocks) ensures x in FreedSet(c) {
      var k :| 0 <= k < |blocks| && blocks[k].first == NULL && blocks[k].second == x;
      assert c[k] == blocks[k];
    }
  }

  /** Changing one mark moves exactly one address between the two sets. */
  lemma LiveOfUpdate(blocks: seq<Block>, i: nat, mark: nat)
    requires Increasing(blocks) && i < |blocks|
    ensures var x, blocks' := blocks[i].second, blocks[i := blocks[i].(first := mark)];
            if mark != NULL
            then LiveSet(blocks') == LiveSet(blocks) + {x} && FreedSet(blocks') == FreedSet(blocks) - {x}
            else LiveSet(blocks') == LiveSet(blocks) - {x} && FreedSet(blocks') == FreedSet(blocks) + {x}
  {
    var x, blocks' := blocks[i].second, blocks[i := blocks[i].(first := mark)];
    assert blocks'[i] == Block(mark, x);
    forall k | 0 <= k < |blocks| && k != i ensures blocks'[k] == blocks[k] && blocks[k].second != x {
      if k < i {
        assert blocks[k].second < blocks[i].second;
      } else {
        assert blocks[i].second < blocks[k].second;
      }
    }
    forall y | y != x
      ensures y in LiveSet(blocks') <==> y in LiveSet(blocks)
      ensures y in FreedSet(blocks') <==> y in FreedSet(blocks)
    {
      Elsewhere(blocks, blocks', i, y);
    }
  }

  lemma Elsewhere(blocks: seq<Block>, blocks': seq<Block>, i: nat, y: nat)
    requires |blocks| == |blocks'| && i < |blocks|
    requires forall k :: 0 <= k < |blocks| && k != i ==> blocks'[k] == blocks[k]
    requires blocks[i].second != y && blocks'[i].second != y
    ensures y in LiveSet(blocks') <==> y in LiveSet(blocks)
    ensures y in FreedSet(blocks') <==> y in FreedSet(blocks)
  {
    forall k | 0 <= k < |blocks| && (blocks'[k].second == y || blocks[k].second == y)
      ensures blocks'[k] == blocks[k]
    {}
  }

  /** The two sets partition the slots. */
  lemma LiveOrFreed(blocks: seq<Block>, k: nat)
    requires Increasing(blocks) && k < |blocks|
    ensures blocks[k].second in LiveSet(blocks) <==> blocks[k].first != NULL
    ensures blocks[k].second in FreedSet(blocks) <==> blocks[k].first == NULL
  {
    forall j | 0 <= j < |blocks| && blocks[j].second == blocks[k].second ensures j == k {}
  }

  /** Where a block lies does not depend on its mark. */
  lemma MarksDoNotMove(r: Region, blocks: seq<Block>, blocks': seq<Block>)
    requires 0 < r.align && Placed(r, blocks) && |blocks'| == |blocks|
    requires forall k :: 0 <= k < |blocks| ==> blocks'[k].second == blocks[k].second
    ensures Placed(r, blocks')
  {}

  /** With no freed slot, every slot is live and the live addresses are as many as the slots. */
  lemma {:induction false} AllLiveCount(blocks: seq<Block>)
    requires forall k :: 0 <= k < |blocks| ==> blocks[k].first != NULL
    requires Increasing(blocks)
    ensures |LiveSet(blocks)| == |blocks|
  {
    if blocks != [] {
      var n := |blocks| - 1;
      AllLiveCount(blocks[..n]);
      assert blocks == blocks[..n] + [blocks[n]];
      LiveOfAppend(blocks[..n], blocks[n]);
    }
  }

  lemma NoneFreed(r: Region, s: State)
    requires Inv(r, s) && FirstFreed(s.blocks) == |s.blocks|
    ensures FreedSet(s.blocks) == {} && |LiveSet(s.blocks)| == |s.blocks|
    ensures s.counter == 0 <==> s.blocks == []
  {
    Layout(r, s);
    assert forall k :: 0 <= k < |s.blocks| ==> !Freed(s.blocks[k]) && s.blocks[k].second < MINUS_ONE;
    AllLiveCount(s.blocks);
  }

  /** What is left of the region past the last slot does not wrap around. */
  lemma LeftOver(r: Region, s: State)
    requires Inv(r, s) && s.blocks != []
    ensures var back := s.blocks[|s.blocks| - 1].second;
            r.memory <= back && Remaining(r, s.blocks) == r.memory + r.max - (back + r.size)
  {
    Layout(r, s);
  }

  /** Where carving starts, and what rounding up from there gives. */
  lemma CarvePointer(r: Region, s: State)
    requires Inv(r, s) && FirstFreed(s.blocks) == |s.blocks|
    ensures var n, ptr := |s.blocks|, if s.counter == 0 then r.memory else s.blocks[|s.blocks| - 1].second + r.size;
            && RoundUp(ptr, r.align) == SlotAt(r, n) && 0 < ptr
            && Remaining(r, s.blocks) == r.memory + r.max - ptr
  {
    NoneFreed(r, s);
    if s.counter != 0 {
      LeftOver(r, s);
      NextSlot(r, |s.blocks| - 1);
    }
  }

  /** When nothing is freed, `alloc` carves the next slot if it fits and otherwise only counts. */
  lemma CarveStep(r: Region, s: State)
    requires Inv(r, s) && FirstFreed(s.blocks) == |s.blocks|
    ensures var n, st := |s.blocks|, Stride(r);
            var (s', p) := AllocStep(r, s);
            if n * st + r.size <= r.max
            then p == SlotAt(r, n) && exists m :: m != NULL && s' == State(s.counter + 1, s.blocks + [Block(m, p)])
            else p == NULL && s' == State(s.counter + 1, s.blocks) && s.blocks != []
  {
    NoneFreed(r, s);
    CarvePointer(r, s);
    var n, st := |s.blocks|, Stride(r);
    SlotClosedForm(r, n);
    var (s', p) := AllocStep(r, s);
    if n * st + r.size <= r.max {
      assert s' == State(s.counter + 1, s.blocks + [s'.blocks[n]]);
    }
  }

  /** Reuse hands out the slot at the scan's index and changes only its mark. */
  lemma ReuseStep(r: Region, s: State)
    requires Inv(r, s) && FirstFreed(s.blocks) < |s.blocks|
    ensures var i := FirstFreed(s.blocks);
            var (s', p) := AllocStep(r, s);
            && p == s.blocks[i].second && p in FreedSet(s.blocks)
            && (forall x :: x in FreedSet(s.blocks) ==> p <= x)
            && LiveSet(s'.blocks) == LiveSet(s.blocks) + {p}
            && FreedSet(s'.blocks) == FreedSet(s.blocks) - {p}
  {
    var i := FirstFreed(s.blocks);
    Layout(r, s);
    LiveOfUpdate(s.blocks, i, REUSED);
    FirstFreedLowest(s.blocks);
  }

  lemma FirstFreedLowest(blocks: seq<Block>)
    requires Increasing(blocks) && FirstFreed(blocks) < |blocks|
    requires forall k :: 0 <= k < |blocks| ==> blocks[k].second < MINUS_ONE
    ensures forall x :: x in FreedSet(blocks) ==> blocks[FirstFreed(blocks)].second <= x
  {
    var i := FirstFreed(blocks);
    forall x | x in FreedSet(blocks) ensures blocks[i].second <= x {
      var k :| 0 <= k < |blocks| && blocks[k].first == NULL && blocks[k].second == x;
      assert Freed(blocks[k]);
      if i < k {
        assert blocks[i].second < blocks[k].second;
      }
    }
  }

  lemma AllocKeeps(r: Region, s: State)
    requires Inv(r, s)
    ensures Inv(r, AllocStep(r, s).0)
  {
    var s' := AllocStep(r, s).0;
    if FirstFreed(s.blocks) < |s.blocks| {
      ReuseStep(r, s);
      MarksDoNotMove(r, s.blocks, s'.blocks);
    } else {
      CarveStep(r, s);
      if s'.blocks != s.blocks {
        var b := s'.blocks[|s.blocks|];
        assert s'.blocks == s.blocks + [b];
        LiveOfAppend(s.blocks, b);
        SlotClosedForm(r, |s.blocks|);
        OneMorePlaced(r, s.blocks, b);
      }
    }
  }

  lemma OneMorePlaced(r: Region, blocks: seq<Block>, b: Block)
    requires 0 < r.align && Placed(r, blocks)
    requires b.second == SlotAt(r, |blocks|) && b.second + r.size <= r.memory + r.max
    ensures Placed(r, blocks + [b])
  {}

  lemma UnmarkKeeps(r: Region, s: State, i: nat)
    requires Inv(r, s) && i < |s.blocks| && s.blocks[i].first != NULL
    ensures Inv(r, State(s.counter - 1, s.blocks[i := s.blocks[i].(first := NULL)]))
  {
    var blocks' := s.blocks[i := s.blocks[i].(first := NULL)];
    PlacedApart(r, s.blocks);
    LiveOfUpdate(s.blocks, i, NULL);
    assert s.blocks[i].second in LiveSet(s.blocks);
    assert |LiveSet(blocks')| == |LiveSet(s.blocks)| - 1;
    MarksDoNotMove(r, s.blocks, blocks');
  }

  lemma FreeKeeps(r: Region, s: State, block: nat)
    requires Inv(r, s)
    ensures Inv(r, FreeStep(s, block))
  {
    var i := FirstLiveAt(s.blocks, block);
    if i < |s.blocks| {
      UnmarkKeeps(r, s, i);
    }
  }

  lemma ClearedSets(blocks: seq<Block>)
    ensures LiveSet(Cleared(blocks)) == {}
    ensures FreedSet(Cleared(blocks)) == LiveSet(blocks) + FreedSet(blocks)
  {
    forall x | x in LiveSet(blocks) + FreedSet(blocks) ensures x in FreedSet(Cleared(blocks)) {
      var k :| 0 <= k < |blocks| && blocks[k].second == x;
      assert Cleared(blocks)[k].second == x;
    }
  }

  lemma FreeAllKeeps(r: Region, s: State)
    requires Inv(r, s)
    ensures Inv(r, FreeAllStep(s))
    ensures LiveSet(FreeAllStep(s).blocks) == {}
    ensures FreedSet(FreeAllStep(s).blocks) == LiveSet(s.blocks) + FreedSet(s.blocks)
  {
    ClearedSets(s.blocks);
    MarksDoNotMove(r, s.blocks, Cleared(s.blocks));
  }

  lemma StepKeeps(r: Region, s: State, op: Op)
    requires Inv(r, s)
    ensures Inv(r, Step(r, s, op).0)
  {
    match op
    case Alloc => AllocKeeps(r, s);
    case Free(b) => FreeKeeps(r, s, b);
    case FreeAll => FreeAllKeeps(r, s);
  }
}
