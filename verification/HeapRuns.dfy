/**
 Whole runs of a pooled heap: what any sequence of alloc, free and freeAll calls keeps, counts
 and returns.
*/
module HeapRuns {
  import opened Heap

  /** The state after a sequence of calls on a fresh heap. */
  function Exec(r: Region, ops: seq<Op>): (s: State)
    requires ValidRegion(r)
    ensures Inv(r, s)
  {
    if ops == [] then
      assert LiveSet([]) == {};
      INIT
    else
      var s := Exec(r, ops[..|ops| - 1]);
      StepKeeps(r, s, ops[|ops| - 1]);
      Step(r, s, ops[|ops| - 1]).0
  }

  /** What the next call returns after a sequence of calls. */
  function Returned(r: Region, ops: seq<Op>, op: Op): nat
    requires ValidRegion(r)
  {
    Step(r, Exec(r, ops), op).1
  }

  lemma ExecSnoc(r: Region, ops: seq<Op>, op: Op)
    requires ValidRegion(r)
    ensures Exec(r, ops + [op]) == Step(r, Exec(r, ops), op).0
  {
    assert (ops + [op])[..|ops|] == ops;
  }

  function Live(r: Region, ops: seq<Op>): set<nat>
    requires ValidRegion(r)
  {
    LiveSet(Exec(r, ops).blocks)
  }

  // ---------- safety of memory ----------

  /** In every reachable heap the slots are in strictly increasing address order, aligned, inside
      the region and disjoint over `size` bytes, and `remaining` never wraps around. */
  lemma ReachableLayout(r: Region, ops: seq<Op>)
    requires ValidRegion(r)
    ensures Increasing(Exec(r, ops).blocks) && LaidOut(r, Exec(r, ops).blocks)
  {
    Layout(r, Exec(r, ops));
  }

  lemma LiveIndex(blocks: seq<Block>, x: nat) returns (k: nat)
    requires x in LiveSet(blocks)
    ensures k < |blocks| && blocks[k].second == x
  {
    k :| 0 <= k < |blocks| && blocks[k].first != NULL && blocks[k].second == x;
  }

  /** No two addresses that are live at the same time overlap, and none leaves the region. */
  lemma LiveBlocksDisjoint(r: Region, ops: seq<Op>, x: nat, y: nat)
    requires ValidRegion(r) && x in Live(r, ops) && y in Live(r, ops) && x != y
    ensures x + r.size <= y || y + r.size <= x
    ensures x % r.align == 0 && r.memory <= x && x + r.size <= r.memory + r.max
  {
    var s := Exec(r, ops);
    Layout(r, s);
    var j := LiveIndex(s.blocks, x);
    var k := LiveIndex(s.blocks, y);
    if j < k {
      assert s.blocks[j].second + r.size <= s.blocks[k].second;
    } else {
      assert k < j;
      assert s.blocks[k].second + r.size <= s.blocks[j].second;
    }
  }

  // ---------- refinement ----------

  /** The abstract pool: which addresses are handed out and which wait to be handed out again. */
  datatype Pool = Pool(live: set<nat>, freed: set<nat>)

  ghost function Abs(s: State): Pool {
    Pool(LiveSet(s.blocks), FreedSet(s.blocks))
  }

  /** The contract of one call, in terms of the pool alone. */
  ghost predicate PoolStep(r: Region, p: Pool, op: Op, p': Pool, out: nat)
    requires 0 < r.align
  {
    match op
    case Alloc =>
      if p.freed != {} then
        // the lowest freed address comes back
        && out in p.freed && (forall x :: x in p.freed ==> out <= x)
        && p' == Pool(p.live + {out}, p.freed - {out})
      else if |p.live| * Stride(r) + r.size <= r.max then
        // a new address, above every other
        && out != NULL && out !in p.live && (forall x :: x in p.live ==> x + r.size <= out)
        && p' == Pool(p.live + {out}, {})
      else
        out == NULL && p' == p
    case Free(b) =>
      out == 0 && p' == if b in p.live then Pool(p.live - {b}, p.freed + {b}) else p
    case FreeAll =>
      out == |p.live| && p' == Pool({}, p.live + p.freed)
  }

  /** The heap refines the pool: every call, made in any reachable state, is a pool step. */
  lemma RefinesPool(r: Region, ops: seq<Op>, op: Op)
    requires ValidRegion(r)
    ensures PoolStep(r, Abs(Exec(r, ops)), op, Abs(Exec(r, ops + [op])), Returned(r, ops, op))
    ensures Abs(Exec(r, ops)).live !! Abs(Exec(r, ops)).freed
  {
    var s := Exec(r, ops);
    ExecSnoc(r, ops, op);
    Partition(r, s);
    match op
    case Alloc => AllocRefines(r, s);
    case Free(b) => FreeRefines(r, s, b);
    case FreeAll => FreeAllKeeps(r, s);
  }

  lemma Partition(r: Region, s: State)
    requires Inv(r, s)
    ensures LiveSet(s.blocks) !! FreedSet(s.blocks)
  {
    Layout(r, s);
    forall k | 0 <= k < |s.blocks|
      ensures s.blocks[k].second in LiveSet(s.blocks) <==> s.blocks[k].first != NULL
    {
      LiveOrFreed(s.blocks, k);
    }
  }

  lemma AllocRefines(r: Region, s: State)
    requires Inv(r, s)
    ensures PoolStep(r, Abs(s), Alloc, Abs(AllocStep(r, s).0), AllocStep(r, s).1)
  {
    Layout(r, s);
    if FirstFreed(s.blocks) < |s.blocks| {
      ReuseStep(r, s);
    } else {
      NoneFreed(r, s);
      CarveStep(r, s);
      var (s', p) := AllocStep(r, s);
      if p != NULL {
        LiveOfAppend(s.blocks, s'.blocks[|s.blocks|]);
        forall x | x in LiveSet(s.blocks) ensures x + r.size <= p {
          var k :| 0 <= k < |s.blocks| && s.blocks[k].second == x;
          SlotsApart(r, k, |s.blocks|);
        }
      }
    }
  }

  lemma FreeRefines(r: Region, s: State, b: nat)
    requires Inv(r, s)
    ensures PoolStep(r, Abs(s), Free(b), Abs(FreeStep(s, b)), 0)
  {
    var i := FirstLiveAt(s.blocks, b);
    if i < |s.blocks| {
      Layout(r, s);
      LiveOfUpdate(s.blocks, i, NULL);
      LiveOrFreed(s.blocks, i);
    } else {
      assert b !in LiveSet(s.blocks);
    }
  }

  /** A run of the pool, from the empty one: every call takes one pool to the next. */
  ghost predicate PoolRun(r: Region, ops: seq<Op>, outs: seq<nat>, pools: seq<Pool>)
    requires 0 < r.align
  {
    var n := |ops| - 1;
    && |outs| == n + 1 && |pools| == n + 2
    && if ops == [] then pools == [Pool({}, {})]
       else
         && PoolRun(r, ops[..n], outs[..n], pools[..n + 1])
         && PoolStep(r, pools[n], ops[n], pools[n + 1], outs[n])
  }

  /** The values the calls of a run return. */
  function Outs(r: Region, ops: seq<Op>): (outs: seq<nat>)
    requires ValidRegion(r)
    ensures |outs| == |ops|
  {
    if ops == [] then []
    else Outs(r, ops[..|ops| - 1]) + [Returned(r, ops[..|ops| - 1], ops[|ops| - 1])]
  }

  /** The pools a run of the heap passes through. */
  ghost function Pools(r: Region, ops: seq<Op>): (pools: seq<Pool>)
    requires ValidRegion(r)
    ensures |pools| == |ops| + 1 && pools[|ops|] == Abs(Exec(r, ops))
  {
    (if ops == [] then [] else Pools(r, ops[..|ops| - 1])) + [Abs(Exec(r, ops))]
  }

  lemma RunRefinesEmpty(r: Region)
    requires ValidRegion(r)
    ensures PoolRun(r, [], Outs(r, []), Pools(r, []))
  {
    assert LiveSet([]) == {} && FreedSet([]) == {};
    assert Pools(r, []) == [Pool({}, {})];
  }

  /** One more call takes a run of the pool to the next. */
  lemma PoolRunSnoc(r: Region, ops: seq<Op>, op: Op, outs: seq<nat>, out: nat, pools: seq<Pool>, p: Pool)
    requires 0 < r.align && PoolRun(r, ops, outs, pools) && PoolStep(r, pools[|ops|], op, p, out)
    ensures PoolRun(r, ops + [op], outs + [out], pools + [p])
  {
    assert (ops + [op])[..|ops|] == ops;
    assert (outs + [out])[..|ops|] == outs;
    assert (pools + [p])[..|ops| + 1] == pools;
  }

  lemma PoolStepTaken(r: Region, ops: seq<Op>, op: Op)
    requires ValidRegion(r)
    ensures PoolStep(r, Pools(r, ops)[|ops|], op, Abs(Exec(r, ops + [op])), Returned(r, ops, op))
  {
    RefinesPool(r, ops, op);
  }

  lemma RunRefinesNext(r: Region, ops: seq<Op>, op: Op)
    requires ValidRegion(r) && PoolRun(r, ops, Outs(r, ops), Pools(r, ops))
    ensures PoolRun(r, ops + [op], Outs(r, ops + [op]), Pools(r, ops + [op]))
  {
    PoolStepTaken(r, ops, op);
    PoolRunSnoc(r, ops, op, Outs(r, ops), Returned(r, ops, op), Pools(r, ops), Abs(Exec(r, ops + [op])));
    assert (ops + [op])[..|ops|] == ops;
  }

  /** Every run of the heap, with its results, is a run of the pool. */
  lemma {:induction false} RunRefinesPool(r: Region, ops: seq<Op>)
    requires ValidRegion(r)
    ensures PoolRun(r, ops, Outs(r, ops), Pools(r, ops))
  {
    if ops == [] {
      RunRefinesEmpty(r);
    } else {
      var before, op := ops[..|ops| - 1], ops[|ops| - 1];
      assert ops == before + [op];
      RunRefinesPool(r, before);
      RunRefinesNext(r, before, op);
    }
  }

  // ---------- accounting ----------

  /** How many `alloc` calls of the run returned null. */
  function FailedCarves(r: Region, ops: seq<Op>): nat
    requires ValidRegion(r)
  {
    if ops == [] then 0
    else
      var n := |ops| - 1;
      FailedCarves(r, ops[..n]) + if ops[n].Alloc? && Returned(r, ops[..n], ops[n]) == NULL then 1 else 0
  }

  /** How many blocks the `freeAll` calls of the run released. */
  function Released(r: Region, ops: seq<Op>): nat
    requires ValidRegion(r)
  {
    if ops == [] then 0
    else
      var n := |ops| - 1;
      Released(r, ops[..n]) + if ops[n].FreeAll? then |Live(r, ops[..n])| else 0
  }

  /** The counter is the number of live blocks, plus the failed carves it also counted, plus the
      blocks `freeAll` released without uncounting them. */
  lemma {:induction false} ExactAccounting(r: Region, ops: seq<Op>)
    requires ValidRegion(r)
    ensures Exec(r, ops).counter == |Live(r, ops)| + FailedCarves(r, ops) + Released(r, ops)
  {
    if ops == [] {
      assert Live(r, []) == {};
    } else {
      var n := |ops| - 1;
      ExactAccounting(r, ops[..n]);
      StepAccounting(r, Exec(r, ops[..n]), ops[n]);
    }
  }

  /** One call changes the counter and the number of live blocks alike, but for a failed carve
      and for `freeAll`. */
  lemma StepAccounting(r: Region, s: State, op: Op)
    requires Inv(r, s)
    ensures var (s', out) := Step(r, s, op);
            s'.counter - |LiveSet(s'.blocks)| == s.counter - |LiveSet(s.blocks)|
              + (if op.Alloc? && out == NULL then 1 else 0)
              + (if op.FreeAll? then |LiveSet(s.blocks)| else 0)
  {
    match op
    case Alloc =>
      AllocCounts(r, s);
    case Free(b) =>
      FreeRefines(r, s, b);
      LiveUncounted(r, s, b);
    case FreeAll =>
      FreeAllKeeps(r, s);
  }

  lemma AllocCounts(r: Region, s: State)
    requires Inv(r, s)
    ensures var (s', out) := AllocStep(r, s);
            && s'.counter == s.counter + 1
            && |LiveSet(s'.blocks)| == |LiveSet(s.blocks)| + (if out == NULL then 0 else 1)
  {
    Partition(r, s);
    FreedNonNull(r, s);
    if FirstFreed(s.blocks) < |s.blocks| {
      ReuseStep(r, s);
    } else {
      CarveStep(r, s);
      AllocRefines(r, s);
    }
  }

  lemma LiveUncounted(r: Region, s: State, b: nat)
    requires Inv(r, s)
    ensures FreeStep(s, b).counter == s.counter - (if b in LiveSet(s.blocks) then 1 else 0)
  {
    var i := FirstLiveAt(s.blocks, b);
    if i < |s.blocks| {
      Layout(r, s);
      LiveOrFreed(s.blocks, i);
    } else {
      assert b !in LiveSet(s.blocks);
    }
  }

  /** When `alloc` finds no freed slot and a zero counter, no slot was ever carved, so starting
      again at `memory` cannot overlap one. */
  lemma RestartIsFirst(r: Region, ops: seq<Op>)
    requires ValidRegion(r)
    requires FirstFreed(Exec(r, ops).blocks) == |Exec(r, ops).blocks|
    ensures Exec(r, ops).counter == 0 <==> Exec(r, ops).blocks == []
    ensures Exec(r, ops).counter == 0 <==> forall k :: 0 <= k <= |ops| ==> Exec(r, ops[..k]).blocks == []
  {
    NoneFreed(r, Exec(r, ops));
    assert ops[..|ops|] == ops;
    if Exec(r, ops).blocks == [] {
      forall k | 0 <= k <= |ops| ensures Exec(r, ops[..k]).blocks == [] {
        SlotsOnlyGrow(r, ops, k);
      }
    }
  }

  /** Slots are never dropped or moved: an earlier list of addresses is a prefix of a later one. */
  lemma {:induction false} SlotsOnlyGrow(r: Region, ops: seq<Op>, k: nat)
    requires ValidRegion(r) && k <= |ops|
    ensures |Exec(r, ops[..k]).blocks| <= |Exec(r, ops).blocks|
    ensures forall i :: 0 <= i < |Exec(r, ops[..k]).blocks| ==>
              Exec(r, ops[..k]).blocks[i].second == Exec(r, ops).blocks[i].second
    decreases |ops|
  {
    if k == |ops| {
      assert ops[..k] == ops;
    } else {
      var pre, op := ops[..|ops| - 1], ops[|ops| - 1];
      SlotsOnlyGrow(r, pre, k);
      assert pre[..k] == ops[..k];
      StepGrows(r, Exec(r, pre), op);
    }
  }

  lemma StepGrows(r: Region, s: State, op: Op)
    requires Inv(r, s)
    ensures var s' := Step(r, s, op).0;
            && |s.blocks| <= |s'.blocks|
            && forall i :: 0 <= i < |s.blocks| ==> s'.blocks[i].second == s.blocks[i].second
  {
    StepKeeps(r, s, op);
  }

  // ---------- high-water mark ----------

  /** The largest number of blocks live at once, over the whole history. */
  function Peak(r: Region, ops: seq<Op>): nat
    requires ValidRegion(r)
  {
    var here := |Live(r, ops)|;
    if ops == [] then here
    else
      var before := Peak(r, ops[..|ops| - 1]);
      if here < before then before else here
  }

  /** Carving happens only when every slot is live, so after it every slot is live again. */
  lemma CarvedAllLive(r: Region, s: State)
    requires Inv(r, s) && |AllocStep(r, s).0.blocks| > |s.blocks|
    ensures var s' := AllocStep(r, s).0; |s'.blocks| == |s.blocks| + 1 && |LiveSet(s'.blocks)| == |s'.blocks|
  {
    AllocKeeps(r, s);
    AllocCounts(r, s);
    NoneFreed(r, s);
    CarveStep(r, s);
  }

  /** One call on slots as many as were ever live. */
  lemma HighWaterStep(r: Region, s: State, op: Op)
    requires Inv(r, s)
    ensures var s' := Step(r, s, op).0;
            && |s.blocks| <= |s'.blocks| && |LiveSet(s'.blocks)| <= |s'.blocks|
            && (|s'.blocks| == |s.blocks| || |LiveSet(s'.blocks)| == |s'.blocks|)
  {
    StepGrows(r, s, op);
    AtMostSlots(Step(r, s, op).0.blocks);
    if op.Alloc? && |AllocStep(r, s).0.blocks| > |s.blocks| {
      CarvedAllLive(r, s);
    }
  }

  /** The number of slots ever carved is exactly the largest number ever live at once. */
  lemma {:induction false} HighWaterMark(r: Region, ops: seq<Op>)
    requires ValidRegion(r)
    ensures |Exec(r, ops).blocks| == Peak(r, ops)
  {
    if ops == [] {
      assert Live(r, []) == {};
    } else {
      var before, op := ops[..|ops| - 1], ops[|ops| - 1];
      HighWaterMark(r, before);
      HighWaterStep(r, Exec(r, before), op);
    }
  }

  lemma {:induction false} AtMostSlots(blocks: seq<Block>)
    ensures |LiveSet(blocks)| <= |blocks|
  {
    if blocks != [] {
      var n := |blocks| - 1;
      AtMostSlots(blocks[..n]);
      assert LiveSet(blocks) <= LiveSet(blocks[..n]) + {blocks[n].second};
      Smaller(LiveSet(blocks), LiveSet(blocks[..n]) + {blocks[n].second});
    }
  }

  lemma Smaller(a: set<nat>, b: set<nat>)
    requires a <= b
    ensures |a| <= |b|
  {
    assert b == a + (b - a);
    assert |b| == |a| + |b - a|;
  }

  // ---------- capacity ----------

  /** Room for `n` slots: the condition a caller can check before using the heap. */
  predicate RoomFor(r: Region, n: nat)
    requires 0 < r.align && 0 < n
  {
    (n - 1) * Stride(r) + r.size <= r.max
  }

  /** With room for `n` slots, `alloc` succeeds in every run whenever fewer than `n` are live. */
  lemma RoomSuffices(r: Region, n: nat, ops: seq<Op>)
    requires ValidRegion(r) && 0 < n && RoomFor(r, n)
    requires |Live(r, ops)| < n
    ensures Returned(r, ops, Alloc) != NULL
  {
    RefinesPool(r, ops, Alloc);
    var p := Abs(Exec(r, ops));
    MulMono(|p.live|, n - 1, Stride(r));
    FreedNonNull(r, Exec(r, ops));
  }

  lemma FreedNonNull(r: Region, s: State)
    requires Inv(r, s)
    ensures NULL !in FreedSet(s.blocks) && NULL !in LiveSet(s.blocks)
  {
    Layout(r, s);
  }

  function Allocs(k: nat): seq<Op> {
    seq(k, i => Alloc)
  }

  lemma NothingToReuse(blocks: seq<Block>)
    requires FreedSet(blocks) == {}
    ensures FirstFreed(blocks) == |blocks|
  {
    assert forall k :: 0 <= k < |blocks| && blocks[k].first == NULL ==> blocks[k].second in FreedSet(blocks);
  }

  lemma CarvesNext(r: Region, s: State)
    requires Inv(r, s) && FreedSet(s.blocks) == {} && |s.blocks| * Stride(r) + r.size <= r.max
    ensures var s' := AllocStep(r, s).0;
            |s'.blocks| == |s.blocks| + 1 && FreedSet(s'.blocks) == {}
  {
    NothingToReuse(s.blocks);
    CarveStep(r, s);
    var s' := AllocStep(r, s).0;
    LiveOfAppend(s.blocks, s'.blocks[|s.blocks|]);
  }

  lemma RoomForFewer(r: Region, k: nat)
    requires ValidRegion(r) && k > 1 && RoomFor(r, k)
    ensures RoomFor(r, k - 1)
  {
    MulMono(k - 2, k - 1, Stride(r));
  }

  /** Allocating without freeing carves one slot a call for as long as they fit. */
  lemma {:induction false} AllocsCarve(r: Region, k: nat)
    requires ValidRegion(r) && (k > 0 ==> RoomFor(r, k))
    ensures |Live(r, Allocs(k))| == |Exec(r, Allocs(k)).blocks| == k
    ensures FreedSet(Exec(r, Allocs(k)).blocks) == {}
  {
    if k == 0 {
      assert Allocs(0) == [];
      assert LiveSet([]) == {} && FreedSet([]) == {};
    } else {
      if k > 1 {
        RoomForFewer(r, k);
      }
      AllocsCarve(r, k - 1);
      assert Allocs(k) == Allocs(k - 1) + [Alloc];
      CarvesNext(r, Exec(r, Allocs(k - 1)));
      ExecSnoc(r, Allocs(k - 1), Alloc);
      NothingToReuse(Exec(r, Allocs(k)).blocks);
      NoneFreed(r, Exec(r, Allocs(k)));
    }
  }

  lemma OneFits(r: Region)
    requires ValidRegion(r)
    ensures RoomFor(r, 1)
  {
    assert (1 - 1) * Stride(r) == 0;
  }

  /** Without that room some run fails early: the least `k` for which slot `k` does not fit. */
  lemma {:induction false} RoomNecessary(r: Region, n: nat) returns (ops: seq<Op>)
    requires ValidRegion(r) && 0 < n && !RoomFor(r, n)
    ensures |Live(r, ops)| < n && Returned(r, ops, Alloc) == NULL
  {
    OneFits(r);
    if RoomFor(r, n - 1) {
      ops := Allocs(n - 1);
      AllocsCarve(r, n - 1);
      RefinesPool(r, ops, Alloc);
    } else {
      ops := RoomNecessary(r, n - 1);
    }
  }

  /** Capacity, exactly: `alloc` succeeds in every run with fewer than `n` live blocks if and
      only if `n` slots fit. */
  lemma CapacityExact(r: Region, n: nat)
    requires ValidRegion(r) && 0 < n
    ensures (forall ops :: |Live(r, ops)| < n ==> Returned(r, ops, Alloc) != NULL) <==> RoomFor(r, n)
  {
    if RoomFor(r, n) {
      forall ops | |Live(r, ops)| < n ensures Returned(r, ops, Alloc) != NULL {
        RoomSuffices(r, n, ops);
      }
    } else {
      var ops := RoomNecessary(r, n);
    }
  }
}
