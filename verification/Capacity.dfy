/**
 How `Allocator::registerUse` sizes a region, and why the region is big enough: every run of a
 heap it makes can keep as many blocks live as the queue it was sized for.
*/
module Capacity {
  import opened Wrappers
  import opened Words
  import opened Heap
  import HeapRuns

  const PAGE: nat := 4096
  datatype Error = NoMemory | NoAlign

  predicate PowerOfTwo(a: nat) {
    a == 1 || (a > 1 && a % 2 == 0 && PowerOfTwo(a / 2))
  }

  /** The bytes asked of malloc, in 64-bit arithmetic.  The quotient is an integer before `ceil`
      sees it, so it is rounded down. */
  function MallocSize(sz: nat, n: nat): nat {
    (1 + (sz + 8) * n % TWO_TO_64 / PAGE) * PAGE % TWO_TO_64
  }

  /** `registerUse` for slots of `sz` bytes, a queue of `n`, an alignment and malloc's answer. */
  function RegisterUse(sz: nat, n: nat, align: nat, base: nat): Result<Region, Error>
    requires PowerOfTwo(align)
  {
    RegisterIn(sz, align, base, MallocSize(sz, n))
  }

  /** The part after malloc: `std::align` both moves the start and takes the padding off the size. */
  function RegisterIn(sz: nat, align: nat, base: nat, m: nat): Result<Region, Error>
    requires PowerOfTwo(align)
  {
    if base == NULL then Failure(NoMemory)
    else
      match StdAlign(align, sz, base, m)
      case None => Failure(NoAlign)
      case Some(memory) => Success(Region(sz, memory, align, ToInt32(m - (memory - base))))
  }

  /** The bytes to be reserved, with a page to spare, are representable as an `int`. */
  predicate NoOverflow(sz: nat, n: nat) {
    (sz + 8) * n + PAGE < TWO_TO_31
  }

  /** What malloc promises: a non-null block that lies inside the address space. */
  predicate Malloced(base: nat, m: nat) {
    0 < base && base + m <= MINUS_ONE
  }

  /** What malloc is asked for: the product, in 64 bits, rounded down to a page of 4096 bytes, and a
      page more, again in 64 bits. */
  lemma MallocSizeIs(sz: nat, n: nat)
    ensures var x := (sz + 8) * n % 0x1_0000_0000_0000_0000;
            MallocSize(sz, n) == (x - x % 4096 + 4096) % 0x1_0000_0000_0000_0000
  {
    var x := (sz + 8) * n % TWO_TO_64;
    assert x == PAGE * (x / PAGE) + x % PAGE;
    assert (1 + x / PAGE) * PAGE == PAGE + PAGE * (x / PAGE);
  }

  lemma MallocSizeBounds(sz: nat, n: nat)
    requires NoOverflow(sz, n)
    ensures (sz + 8) * n < MallocSize(sz, n) <= (sz + 8) * n + 4096
  {
    MallocSizeIs(sz, n);
    assert (sz + 8) * n % TWO_TO_64 == (sz + 8) * n;
  }

  /** The arithmetic at the centre: eight spare bytes a slot and one page pay for the padding of
      every slot and of the start, for alignments of at most eight. */
  lemma PaddingPaid(sz: nat, n: nat, a: nat, stride: nat, m: nat)
    requires 0 < n && 1 <= a <= 8 && stride < sz + a && (sz + 8) * n < m
    ensures stride * (n - 1) + sz <= m - (a - 1)
  {
    MulMono(stride, sz + 7, n - 1);
    OneMoreEach(sz + 7, n - 1);
  }

  lemma OneMoreEach(x: int, k: int)
    ensures (x + 1) * (k + 1) == x * k + x + k + 1
  {}

  /** `registerUse` fails exactly when malloc does or the padding of the start leaves no room for a
      slot; otherwise it stores what is left. */
  lemma RegisterUseExactly(sz: nat, n: nat, align: nat, base: nat)
    requires PowerOfTwo(align) && NoOverflow(sz, n)
    ensures var memory, m := RoundUp(base, align), MallocSize(sz, n);
            RegisterUse(sz, n, align, base) ==
            if base == NULL then Failure(NoMemory)
            else if m < memory - base + sz then Failure(NoAlign)
            else Success(Region(sz, memory, align, base + m - memory))
  {
    MallocSizeBounds(sz, n);
    RegisteredIn(sz, align, base, MallocSize(sz, n));
  }

  /** For alignments up to eight only malloc can fail. */
  lemma RegisterUseSucceeds(sz: nat, n: nat, align: nat, base: nat)
    requires 0 < n && PowerOfTwo(align) && align <= 8 && NoOverflow(sz, n)
    ensures RegisterUse(sz, n, align, base).Success? <==> base != NULL
  {
    OneSlotFits(sz, n);
    RegisteredIn(sz, align, base, MallocSize(sz, n));
  }

  lemma OneSlotFits(sz: nat, n: nat)
    requires 0 < n && NoOverflow(sz, n)
    ensures sz + 8 < MallocSize(sz, n) < TWO_TO_31
  {
    MallocSizeBounds(sz, n);
    MulMono(1, n, sz + 8);
    assert (sz + 8) * n == n * (sz + 8);
  }

  lemma RegisteredIn(sz: nat, align: nat, base: nat, m: nat)
    requires PowerOfTwo(align) && m < TWO_TO_31
    ensures var memory := RoundUp(base, align);
            RegisterIn(sz, align, base, m) ==
            if base == NULL then Failure(NoMemory)
            else if m < memory - base + sz then Failure(NoAlign)
            else Success(Region(sz, memory, align, base + m - memory))
  {
    if RoundUp(base, align) - base <= m {
      StoredExactly(base + m - RoundUp(base, align));
    }
  }

  /** The region registered is valid and has room for the whole queue. */
  lemma RegisterUseRoom(sz: nat, n: nat, align: nat, base: nat)
    requires 0 < sz && 0 < n && PowerOfTwo(align) && align <= 8 && NoOverflow(sz, n)
    requires Malloced(base, MallocSize(sz, n))
    ensures RegisterUse(sz, n, align, base).Success?
    ensures var r := RegisterUse(sz, n, align, base).value;
            && ValidRegion(r) && r.size == sz && r.align == align
            && base <= r.memory && r.memory + r.max == base + MallocSize(sz, n)
            && HeapRuns.RoomFor(r, n)
  {
    RegisterUseExactly(sz, n, align, base);
    RegisterUseSucceeds(sz, n, align, base);
    MallocSizeBounds(sz, n);
    var r := RegisterUse(sz, n, align, base).value;
    PaddingPaid(sz, n, align, Stride(r), MallocSize(sz, n));
    MulMono(1, n, sz + 8);
  }

  /** Capacity: in every run of a heap made by `registerUse`, an `alloc` made while fewer blocks
      are live than the queue is long returns a block that was not live. */
  lemma QueueNeverStarved(sz: nat, n: nat, align: nat, base: nat, ops: seq<Op>)
    requires 0 < sz && 0 < n && PowerOfTwo(align) && align <= 8 && NoOverflow(sz, n)
    requires Malloced(base, MallocSize(sz, n))
    ensures RegisterUse(sz, n, align, base).Success?
    ensures var r := RegisterUse(sz, n, align, base).value;
            ValidRegion(r) && (|HeapRuns.Live(r, ops)| < n ==>
              && HeapRuns.Returned(r, ops, Alloc) != NULL
              && HeapRuns.Returned(r, ops, Alloc) !in HeapRuns.Live(r, ops)
              && base <= HeapRuns.Returned(r, ops, Alloc)
              && HeapRuns.Returned(r, ops, Alloc) + sz <= base + MallocSize(sz, n))
  {
    RegisterUseRoom(sz, n, align, base);
    var r := RegisterUse(sz, n, align, base).value;
    if |HeapRuns.Live(r, ops)| < n {
      HeapRuns.RoomSuffices(r, n, ops);
      HeapRuns.RefinesPool(r, ops, Alloc);
      HeapRuns.ExecSnoc(r, ops, Alloc);
      InRegion(r, ops + [Alloc], HeapRuns.Returned(r, ops, Alloc));
    }
  }

  lemma InRegion(r: Region, ops: seq<Op>, x: nat)
    requires ValidRegion(r) && x in HeapRuns.Live(r, ops)
    ensures r.memory <= x && x + r.size <= r.memory + r.max
  {
    Layout(r, HeapRuns.Exec(r, ops));
  }

  /** Capacity for any alignment: no run of the heap starves early if and only if the padding of the
      start and `n` strides, less the padding of the last, fit in what malloc was asked for. */
  lemma StarvedExactly(sz: nat, n: nat, align: nat, base: nat)
    requires 0 < sz && 0 < n && PowerOfTwo(align) && NoOverflow(sz, n)
    requires Malloced(base, MallocSize(sz, n)) && RegisterUse(sz, n, align, base).Success?
    ensures var r := RegisterUse(sz, n, align, base).value;
            ValidRegion(r) &&
            ((forall ops :: |HeapRuns.Live(r, ops)| < n ==> HeapRuns.Returned(r, ops, Alloc) != NULL) <==>
             RoundUp(base, align) - base + (n - 1) * RoundUp(sz, align) + sz <= MallocSize(sz, n))
  {
    RegisterUseExactly(sz, n, align, base);
    HeapRuns.CapacityExact(RegisterUse(sz, n, align, base).value, n);
  }

  /** The bound on the alignment is needed: with sixteen, a queue of a thousand one-byte slots
      runs out of room early. */
  lemma SixteenStarves() returns (ops: seq<Op>)
    ensures PowerOfTwo(16) && NoOverflow(1, 1000) && Malloced(16, MallocSize(1, 1000))
    ensures var res := RegisterUse(1, 1000, 16, 16);
            && res.Success? && ValidRegion(res.value)
            && |HeapRuns.Live(res.value, ops)| < 1000
            && HeapRuns.Returned(res.value, ops, Alloc) == NULL
  {
    var r := Region(1, 16, 16, 12288);
    SixteenRegion();
    ops := HeapRuns.RoomNecessary(r, 1000);
  }

  lemma SixteenRegion()
    ensures PowerOfTwo(16) && NoOverflow(1, 1000) && MallocSize(1, 1000) == 12288
    ensures RegisterUse(1, 1000, 16, 16) == Success(Region(1, 16, 16, 12288))
    ensures ValidRegion(Region(1, 16, 16, 12288)) && !HeapRuns.RoomFor(Region(1, 16, 16, 12288), 1000)
  {
    Powers();
    SixteenSize();
    RegionOf(1, 1000, 16, 16);
    MultipleInWindow(Stride(Region(1, 16, 16, 12288)), 16, 1, 16);
  }

  lemma SixteenSize()
    ensures MallocSize(1, 1000) == 12288
  {
    assert 9000 / PAGE == 2;
  }

  /** A region whose start malloc already aligned. */
  lemma RegionOf(sz: nat, n: nat, align: nat, base: nat)
    requires PowerOfTwo(align) && 0 < base && base % align == 0 && sz <= MallocSize(sz, n)
    ensures RegisterUse(sz, n, align, base) == Success(Region(sz, base, align, ToInt32(MallocSize(sz, n))))
  {
    MultipleInWindow(RoundUp(base, align), base, base, align);
  }

  lemma Powers()
    ensures PowerOfTwo(1) && PowerOfTwo(2) && PowerOfTwo(4) && PowerOfTwo(8) && PowerOfTwo(16)
  {
    assert PowerOfTwo(4);
    assert PowerOfTwo(8);
  }

  /** The bound on the size is needed: past it, the `int` the constructor stores can be negative,
      and then the region describes no memory at all. */
  lemma OverflowLosesRegion()
    ensures PowerOfTwo(8) && !NoOverflow(2040, 0x10_0000)
    ensures var res := RegisterUse(2040, 0x10_0000, 8, 8);
            res.Success? && res.value.max < 0 && !ValidRegion(res.value)
  {
    OverflowRegion();
  }

  lemma OverflowRegion()
    ensures PowerOfTwo(8) && RegisterUse(2040, 0x10_0000, 8, 8) == Success(Region(2040, 8, 8, -0x7FFF_F000))
  {
    Powers();
    OverflowSize();
    RegionOf(2040, 0x10_0000, 8, 8);
  }

  lemma OverflowSize()
    ensures MallocSize(2040, 0x10_0000) == 0x8000_1000
  {
    assert 0x8000_0000 / PAGE == 0x8_0000;
  }

  /** Exactly when the stored size is the real one. */
  lemma StoredSizeExact(sz: nat, n: nat, align: nat, base: nat)
    requires PowerOfTwo(align) && RegisterUse(sz, n, align, base).Success?
    ensures var r := RegisterUse(sz, n, align, base).value;
            r.memory + r.max == base + MallocSize(sz, n) <==>
            base + MallocSize(sz, n) - r.memory < 0x8000_0000
  {
    StoredExactly(MallocSize(sz, n) - (RegisterUse(sz, n, align, base).value.memory - base));
  }
}
