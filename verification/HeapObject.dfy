/**
 `heap_t` and `Allocator` as the source has them: objects whose methods scan and mark the slot
 list in place.  Each method is proved against the step function of module `Heap`.
*/
module HeapObject {
  import opened Wrappers
  import opened Words
  import opened Heap
  import Capacity

  class HeapT {
    const size: nat
    const memory: nat
    const align: nat
    const max: int
    var counter: int
    var blocks: seq<Block>

    ghost function Shape(): Region {
      Region(size, memory, align, max)
    }

    ghost function View(): State
      reads this
    {
      State(counter, blocks)
    }

    ghost predicate Valid()
      reads this
    {
      Inv(Shape(), View())
    }

    constructor (r: Region)
      ensures Shape() == r && View() == INIT
      ensures ValidRegion(r) ==> Valid()
    {
      size, memory, align, max := r.size, r.memory, r.align, r.max;
      counter, blocks := 0, [];
      new;
      assert LiveSet([]) == {};
    }

    /** The `find_if` of `alloc`. */
    method ScanFreed() returns (i: nat)
      ensures i == FirstFreed(blocks)
    {
      i := 0;
      while i < |blocks| && !Freed(blocks[i])
        invariant i <= |blocks|
        invariant FirstFreed(blocks) == i + FirstFreed(blocks[i..])
      {
        assert blocks[i..][1..] == blocks[i + 1..];
        i := i + 1;
      }
    }

    /** The `find_if` of `free`. */
    method ScanLive(block: nat) returns (i: nat)
      ensures i == FirstLiveAt(blocks, block)
    {
      i := 0;
      while i < |blocks| && !(blocks[i].second == block && blocks[i].first != NULL)
        invariant i <= |blocks|
        invariant FirstLiveAt(blocks, block) == i + FirstLiveAt(blocks[i..], block)
      {
        assert blocks[i..][1..] == blocks[i + 1..];
        i := i + 1;
      }
    }

    /** `heap_t::alloc`: reuse the first freed slot, otherwise carve after the last one. */
    method Alloc() returns (ptr: nat)
      requires Valid()
      modifies this
      ensures Valid()
      ensures (View(), ptr) == AllocStep(Shape(), old(View()))
    {
      ghost var before := View();
      AllocKeeps(Shape(), before);
      NoEmptyBack(Shape(), before);
      var i := ScanFreed();
      if i < |blocks| {
        blocks := blocks[i := blocks[i].(first := REUSED)];
        counter := counter + 1;
        return blocks[i].second;
      }
      var start := if counter == 0 then memory else blocks[|blocks| - 1].second + size;
      var remaining := Remaining(Region(size, memory, align, max), blocks);
      counter := counter + 1;
      var aligned := StdAlign(align, size, start, remaining);
      if aligned.Some? {
        blocks := blocks + [Block(start, aligned.value)];
        return aligned.value;
      }
      return NULL;
    }

    /** `heap_t::free`: clear the mark of the live slot at that address, if there is one. */
    method Free(block: nat)
      requires Valid()
      modifies this
      ensures Valid()
      ensures View() == FreeStep(old(View()), block)
    {
      FreeKeeps(Shape(), View(), block);
      var i := ScanLive(block);
      if i < |blocks| {
        counter := counter - 1;
        blocks := blocks[i := blocks[i].(first := NULL)];
      }
    }

    /** `heap_t::freeAll`: clear every mark, counting those that were set. */
    method FreeAll() returns (n: nat)
      requires Valid()
      modifies this`blocks
      ensures Valid()
      ensures View() == FreeAllStep(old(View()))
      ensures n == |LiveSet(old(blocks))|
    {
      FreeAllKeeps(Shape(), View());
      Layout(Shape(), View());
      n := ClearMarks();
    }

    /** The `for_each` of `freeAll`. */
    method ClearMarks() returns (n: nat)
      requires Increasing(blocks)
      modifies this`blocks
      ensures blocks == Cleared(old(blocks))
      ensures n == |LiveSet(old(blocks))|
    {
      ghost var was := blocks;
      n := 0;
      var i := 0;
      NoneLive(was);
      while i < |blocks|
        invariant i <= |blocks| && ClearedUpTo(was, i, blocks)
        invariant n == |LiveSet(was[..i])|
      {
        CountNext(was, i);
        ClearNext(was, i, blocks);
        if blocks[i].first != NULL {
          n := n + 1;
          blocks := blocks[i := blocks[i].(first := NULL)];
        }
        i := i + 1;
      }
      assert was[..|was|] == was;
    }
  }

  lemma CountNext(blocks: seq<Block>, i: nat)
    requires Increasing(blocks) && i < |blocks|
    ensures |LiveSet(blocks[..i + 1])| == |LiveSet(blocks[..i])| + if blocks[i].first != NULL then 1 else 0
  {
    assert blocks[..i + 1] == blocks[..i] + [blocks[i]];
    if blocks[i].first != NULL {
      LiveOfAppend(blocks[..i], blocks[i]);
      assert blocks[i].second !in LiveSet(blocks[..i]);
    } else {
      SkipFreed(blocks[..i], blocks[i]);
    }
  }

  lemma NoneLive(blocks: seq<Block>)
    ensures |LiveSet(blocks[..0])| == 0
  {
    assert LiveSet(blocks[..0]) == {};
  }

  /** The marks before `i` are cleared and the rest is as it was. */
  ghost predicate ClearedUpTo(was: seq<Block>, i: nat, now: seq<Block>) {
    i <= |was| && now == Cleared(was[..i]) + was[i..]
  }

  lemma ClearNext(was: seq<Block>, i: nat, now: seq<Block>)
    requires i < |was| && ClearedUpTo(was, i, now)
    ensures now[i] == was[i]
    ensures ClearedUpTo(was, i + 1, if now[i].first != NULL then now[i := now[i].(first := NULL)] else now)
  {
    var next := Cleared(was[..i + 1]) + was[i + 1..];
    assert |next| == |now|;
    forall k | 0 <= k < |now| ensures next[k] == if k == i then was[k].(first := NULL) else now[k] {}
  }

  /** The heaps in use, by the user they were registered for. */
  class Allocator {
    var heaps: map<nat, HeapT>

    constructor ()
      ensures heaps == map[]
    {
      heaps := map[];
    }

    /** `registerUse`; `base` is malloc's answer.  A second registration of a user gets a heap of its
        own, but `insert` keeps the first one in the map. */
    method RegisterUse(user: nat, sz: nat, n: nat, align: nat, base: nat)
        returns (r: Result<HeapT, Capacity.Error>)
      requires Capacity.PowerOfTwo(align)
      modifies this
      ensures match Capacity.RegisterUse(sz, n, align, base)
              case Failure(e) => r == Failure(e) && heaps == old(heaps)
              case Success(region) =>
                && r.Success? && fresh(r.value) && (ValidRegion(region) ==> r.value.Valid())
                && r.value.Shape() == region && r.value.View() == INIT
                && heaps == if user in old(heaps) then old(heaps) else old(heaps)[user := r.value]
    {
      var m := (sz + 8) * n % TWO_TO_64;
      var tmp := m / Capacity.PAGE;
      m := (1 + tmp) * Capacity.PAGE % TWO_TO_64;
      if base == NULL {
        return Failure(Capacity.NoMemory);
      }
      var mem := StdAlign(align, sz, base, m);
      if mem.None? {
        return Failure(Capacity.NoAlign);
      }
      m := m - (mem.value - base);
      var heap := new HeapT(Region(sz, mem.value, align, ToInt32(m)));
      if user !in heaps {
        heaps := heaps[user := heap];
      }
      return Success(heap);
    }
  }

  lemma NoEmptyBack(r: Region, s: State)
    requires Inv(r, s)
    ensures 0 < r.align && (s.counter != 0 ==> s.blocks != [])
  {}

  lemma SkipFreed(blocks: seq<Block>, b: Block)
    requires b.first == NULL
    ensures LiveSet(blocks + [b]) == LiveSet(blocks)
  {
    var c := blocks + [b];
    forall x | x in LiveSet(blocks) ensures x in LiveSet(c) {
      var k :| 0 <= k < |blocks| && blocks[k].first != NULL && blocks[k].second == x;
      assert c[k] == blocks[k];
    }
  }
}
