/**
 `BufferCache` as the source has it: lists that are pushed to and erased from in place, over heaps
 shared with their users.  Each method is proved against the value model of module `Cache`.
*/
module BufferCache {
  import opened Heap
  import opened HeapObject
  import opened Cache

  datatype Entry = Entry(ident: UseIdent, heap: HeapT)

  function Addresses(blocks: seq<Block>): seq<nat> {
    seq(|blocks|, k requires 0 <= k < |blocks| => blocks[k].second)
  }

  ghost function HeapsOf(entries: seq<Entry>): set<HeapT> {
    set e | e in entries :: e.heap
  }

  ghost predicate AllValid(heaps: set<HeapT>)
    reads heaps
  {
    forall h :: h in heaps ==> h.Valid()
  }

  ghost function Snap(e: Entry): Cached
    reads e.heap`blocks
  {
    Cached(e.ident, e.heap, Addresses(e.heap.blocks))
  }

  /** The entries with the block addresses their heaps have now. */
  ghost function Snapshot(entries: seq<Entry>): (r: seq<Cached>)
    reads HeapsOf(entries)`blocks
  {
    if entries == [] then []
    else
      var n := |entries| - 1;
      assert HeapsOf(entries[..n]) <= HeapsOf(entries);
      Snapshot(entries[..n]) + [Snap(entries[n])]
  }

  // ---------- entries ----------

  /** Equality of list elements: equal identities and the same heap. */
  predicate EqualEntries(a: Entry, b: Entry) {
    Same(a.ident, b.ident) && a.heap == b.heap
  }

  /** The entries a filter does not match, in order. */
  function Kept(entries: seq<Entry>, f: Filter): seq<Entry> {
    if entries == [] then []
    else
      var n := |entries| - 1;
      Kept(entries[..n], f) + if f(entries[n].ident) then [] else [entries[n]]
  }

  /** `erase(remove(...))`: the entries different from one given value. */
  function RemoveEqual(entries: seq<Entry>, it: Entry): seq<Entry> {
    if entries == [] then []
    else
      var n := |entries| - 1;
      RemoveEqual(entries[..n], it) + if EqualEntries(entries[n], it) then [] else [entries[n]]
  }

  predicate Unlike(e: Entry, pairs: seq<Entry>) {
    forall p :: p in pairs ==> !EqualEntries(e, p)
  }

  ghost function AllUnlike(entries: seq<Entry>, pairs: seq<Entry>): seq<Entry> {
    if entries == [] then []
    else
      var n := |entries| - 1;
      AllUnlike(entries[..n], pairs) + if Unlike(entries[n], pairs) then [entries[n]] else []
  }

  lemma {:induction false} RemoveOneMore(entries: seq<Entry>, pairs: seq<Entry>, p: Entry)
    ensures RemoveEqual(AllUnlike(entries, pairs), p) == AllUnlike(entries, pairs + [p])
  {
    if entries != [] {
      var n := |entries| - 1;
      var e, front := entries[n], AllUnlike(entries[..n], pairs);
      RemoveOneMore(entries[..n], pairs, p);
      assert (front + [e])[..|front|] == front;
      if Unlike(e, pairs) {
        assert AllUnlike(entries, pairs) == front + [e];
        assert Unlike(e, pairs + [p]) <==> !EqualEntries(e, p) by {
          assert p in pairs + [p];
        }
      } else {
        var q :| q in pairs && EqualEntries(e, q);
        assert q in pairs + [p];
        assert !Unlike(e, pairs + [p]);
        assert AllUnlike(entries, pairs) == front;
      }
    }
  }

  lemma {:induction false} UnlikeNothing(entries: seq<Entry>)
    ensures AllUnlike(entries, []) == entries
  {
    if entries != [] {
      UnlikeNothing(entries[..|entries| - 1]);
    }
  }

  /** The entries a filter matches, in order. */
  function Matching(entries: seq<Entry>, f: Filter): seq<Entry> {
    if entries == [] then []
    else
      var n := |entries| - 1;
      Matching(entries[..n], f) + if f(entries[n].ident) then [entries[n]] else []
  }

  lemma MatchingNext(entries: seq<Entry>, e: Entry, f: Filter)
    ensures Matching(entries + [e], f) == Matching(entries, f) + if f(e.ident) then [e] else []
  {
    assert (entries + [e])[..|entries|] == entries;
  }

  lemma {:induction false} MatchingAre(entries: seq<Entry>, f: Filter)
    ensures forall e :: e in Matching(entries, f) <==> e in entries && f(e.ident)
  {
    if entries != [] {
      var n := |entries| - 1;
      assert entries == entries[..n] + [entries[n]];
      MatchingAre(entries[..n], f);
    }
  }

  /** An entry that the filter does not match equals one that it does. */
  predicate Clash(a: Entry, b: Entry, f: Filter) {
    f(a.ident) && !f(b.ident) && EqualEntries(b, a)
  }

  ghost predicate Separates(entries: seq<Entry>, f: Filter) {
    forall a, b {:trigger Clash(a, b, f)} :: a in entries && b in entries ==> !Clash(a, b, f)
  }

  /** Erasing by value never keeps more than the unmatched entries, and keeps all of them if and only
      if none equals an erased value. */
  lemma {:induction false} ErasedAtMost(entries: seq<Entry>, pairs: seq<Entry>, f: Filter)
    requires forall e :: e in entries && f(e.ident) ==> e in pairs
    ensures |AllUnlike(entries, pairs)| <= |Kept(entries, f)|
    ensures AllUnlike(entries, pairs) == Kept(entries, f) <==>
            forall e :: e in entries && !f(e.ident) ==> Unlike(e, pairs)
  {
    if entries != [] {
      var before, e := entries[..|entries| - 1], entries[|entries| - 1];
      assert entries == before + [e];
      ErasedAtMost(before, pairs, f);
      assert forall x :: x in entries <==> x in before || x == e;
      if f(e.ident) {
        assert e in pairs && EqualEntries(e, e);
        assert AllUnlike(entries, pairs) == AllUnlike(before, pairs) && Kept(entries, f) == Kept(before, f);
      } else if Unlike(e, pairs) {
        SameLast(AllUnlike(before, pairs), Kept(before, f), e);
      } else {
        assert |Kept(entries, f)| == |Kept(before, f)| + 1;
      }
    }
  }

  lemma SameLast(a: seq<Entry>, b: seq<Entry>, e: Entry)
    ensures a + [e] == b + [e] <==> a == b
  {
    assert a + [e] == b + [e] ==> a == (a + [e])[..|a|] == (b + [e])[..|b|] == b;
  }

  /** Erasing by value every entry the filter matched leaves the others, in order, if and only if no
      unmatched entry equals a matched one; duplicates do no harm. */
  lemma ErasedByValue(entries: seq<Entry>, f: Filter)
    ensures AllUnlike(entries, Matching(entries, f)) == Kept(entries, f) <==> Separates(entries, f)
  {
    MatchingAre(entries, f);
    ErasedAtMost(entries, Matching(entries, f), f);
    assert forall b, a :: b in entries && !f(b.ident) && a in Matching(entries, f) ==>
                            (Clash(a, b, f) <==> EqualEntries(b, a));
  }

  /** With a filter that respects `operator==` none ever does. */
  lemma RespectfulErases(entries: seq<Entry>, f: Filter)
    requires Respects(f)
    ensures AllUnlike(entries, Matching(entries, f)) == Kept(entries, f)
  {
    ErasedByValue(entries, f);
  }

  /** Some matched entry has the same heap and the same source, tick and specification. */
  ghost predicate Doubled(entries: seq<Entry>, f: Filter, e: Entry) {
    exists m :: m in entries && f(m.ident) && m.heap == e.heap && m.ident.source == e.ident.source &&
                m.ident.tick == e.ident.tick && m.ident.specification == e.ident.specification
  }

  lemma {:induction false} UnlikeAre(entries: seq<Entry>, pairs: seq<Entry>)
    ensures forall e :: e in AllUnlike(entries, pairs) <==> e in entries && Unlike(e, pairs)
  {
    if entries != [] {
      var n := |entries| - 1;
      UnlikeAre(entries[..n], pairs);
      assert entries == entries[..n] + [entries[n]];
    }
  }

  /** Field by field: an entry stays if and only if the filter does not match it and no matched entry
      has its heap, source, tick and specification, whatever their names. */
  lemma StaysExactly(entries: seq<Entry>, f: Filter, e: Entry)
    requires e in entries
    ensures e in AllUnlike(entries, Matching(entries, f)) <==> !f(e.ident) && !Doubled(entries, f, e)
  {
    MatchingAre(entries, f);
    UnlikeAre(entries, Matching(entries, f));
    if f(e.ident) {
      assert EqualEntries(e, e);
    }
    if Doubled(entries, f, e) {
      var m :| m in entries && f(m.ident) && m.heap == e.heap && m.ident.source == e.ident.source &&
               m.ident.tick == e.ident.tick && m.ident.specification == e.ident.specification;
      assert m in Matching(entries, f) && EqualEntries(e, m);
    } else if !Unlike(e, Matching(entries, f)) {
      NotUnlike(entries, f, e);
    }
  }

  lemma NotUnlike(entries: seq<Entry>, f: Filter, e: Entry)
    requires !Unlike(e, Matching(entries, f))
    ensures Doubled(entries, f, e)
  {
    MatchingAre(entries, f);
    var m :| m in Matching(entries, f) && EqualEntries(e, m);
    assert m in entries && f(m.ident);
  }

  lemma StayExactly(entries: seq<Entry>, f: Filter)
    ensures forall e :: e in AllUnlike(entries, Matching(entries, f)) <==>
                        e in entries && !f(e.ident) && !Doubled(entries, f, e)
  {
    UnlikeAre(entries, Matching(entries, f));
    forall e | e in entries
      ensures e in AllUnlike(entries, Matching(entries, f)) <==> !f(e.ident) && !Doubled(entries, f, e)
    {
      StaysExactly(entries, f, e);
    }
  }

  /** A filter on the tick takes no unmatched entry with it, and neither does one on the source or on
      the specification. */
  lemma TickErases(entries: seq<Entry>, g: nat -> bool)
    ensures var f := (id: UseIdent) => g(id.tick); AllUnlike(entries, Matching(entries, f)) == Kept(entries, f)
  {
    RespectfulErases(entries, (id: UseIdent) => g(id.tick));
  }

  lemma SourceErases(entries: seq<Entry>, g: nat -> bool)
    ensures var f := (id: UseIdent) => g(id.source); AllUnlike(entries, Matching(entries, f)) == Kept(entries, f)
  {
    RespectfulErases(entries, (id: UseIdent) => g(id.source));
  }

  lemma SpecificationErases(entries: seq<Entry>, g: seq<string> -> bool)
    ensures var f := (id: UseIdent) => g(id.specification);
            AllUnlike(entries, Matching(entries, f)) == Kept(entries, f)
  {
    RespectfulErases(entries, (id: UseIdent) => g(id.specification));
  }

  const HERE := UseIdent(1, "here", [], 0)
  const THERE := UseIdent(1, "there", [], 0)

  /** A filter on the source's name, which `operator==` does not look at, can take an entry with it
      that it does not match. */
  lemma NameErases(heap: HeapT)
    ensures var entries, f := [Entry(HERE, heap), Entry(THERE, heap)], (id: UseIdent) => id.name == HERE.name;
            && AllUnlike(entries, Matching(entries, f)) == []
            && Kept(entries, f) == [Entry(THERE, heap)]
  {
    var a, b := Entry(HERE, heap), Entry(THERE, heap);
    var f := (id: UseIdent) => id.name == HERE.name;
    MatchingAre([a, b], f);
    assert EqualEntries(a, a) && EqualEntries(b, a);
    assert [a, b][..1] == [a] && HERE.name[0] != THERE.name[0];
    assert Kept([a], f) == [];
    assert a in Matching([a, b], f);
    assert AllUnlike([a], Matching([a, b], f)) == [];
  }

  lemma {:induction false} KeptSnapshot(entries: seq<Entry>, f: Filter)
    ensures Snapshot(Kept(entries, f)) == Rejected(Snapshot(entries), f)
  {
    if entries != [] {
      var n := |entries| - 1;
      KeptSnapshot(entries[..n], f);
      var front := Kept(entries[..n], f);
      assert Snapshot(entries) == Snapshot(entries[..n]) + [Snap(entries[n])];
      SnapshotAt(entries[..n]);
      assert Snapshot(entries)[..n] == Snapshot(entries[..n]);
      assert Rejected(Snapshot(entries), f) ==
             Rejected(Snapshot(entries[..n]), f) + if f(entries[n].ident) then [] else [Snap(entries[n])];
      if f(entries[n].ident) {
        assert Kept(entries, f) == front;
      } else {
        assert Kept(entries, f) == front + [entries[n]];
        assert (front + [entries[n]])[..|front|] == front;
      }
    }
  }

  lemma {:induction false} SnapshotAt(entries: seq<Entry>)
    ensures |Snapshot(entries)| == |entries|
    ensures forall i :: 0 <= i < |entries| ==> Snapshot(entries)[i] == Snap(entries[i])
  {
    if entries != [] {
      SnapshotAt(entries[..|entries| - 1]);
    }
  }

  /** Marking slots does not change the addresses a snapshot shows. */
  twostate lemma SnapshotKept(entries: seq<Entry>)
    requires forall e :: e in entries ==> Addresses(e.heap.blocks) == old(Addresses(e.heap.blocks))
    ensures Snapshot(entries) == old(Snapshot(entries))
  {
    if entries != [] {
      SnapshotKept(entries[..|entries| - 1]);
    }
  }

  /** `alloc` either leaves the addresses alone or adds the one it returns. */
  lemma AllocAddresses(r: Region, s: Heap.State)
    requires Inv(r, s)
    ensures 0 < r.align && (s.counter != 0 ==> s.blocks != [])
    ensures var (s', p) := AllocStep(r, s);
            Addresses(s'.blocks) == Addresses(s.blocks) + if |s'.blocks| > |s.blocks| then [p] else []
  {
    if FirstFreed(s.blocks) < |s.blocks| {
      ReuseStep(r, s);
    } else {
      CarveStep(r, s);
    }
  }

  /** What entries show after an allocation. */
  method AllocSeen(heap: HeapT, ghost entries: seq<Entry>) returns (ptr: nat)
    requires heap.Valid() && AllValid(HeapsOf(entries))
    modifies heap
    ensures AllValid(HeapsOf(entries))
    ensures heap.Valid() && (heap.View(), ptr) == AllocStep(heap.Shape(), old(heap.View()))
    ensures Snapshot(entries) == if |heap.blocks| > |old(heap.blocks)| then Carved(old(Snapshot(entries)), heap, ptr)
                                 else old(Snapshot(entries))
  {
    ghost var lists: Lists := map h | h in HeapsOf(entries) + {heap} :: Addresses(h.blocks);
    SnapshotIs(entries, lists);
    ptr := AllocShown(heap, HeapsOf(entries));
    ghost var now := if |heap.blocks| > |old(heap.blocks)| then lists[heap := lists[heap] + [ptr]] else lists;
    SnapWithCarved(entries, lists, heap, ptr);
    forall h | h in now ensures Addresses(h.blocks) == now[h] {
      assert h != heap ==> h.blocks == old(h.blocks);
    }
    SnapshotIs(entries, now);
  }

  method AllocShown(heap: HeapT, ghost heaps: set<HeapT>) returns (ptr: nat)
    requires heap.Valid() && AllValid(heaps)
    modifies heap
    ensures AllValid(heaps)
    ensures heap.Valid() && (heap.View(), ptr) == AllocStep(heap.Shape(), old(heap.View()))
    ensures Addresses(heap.blocks) ==
            old(Addresses(heap.blocks)) + if |heap.blocks| > |old(heap.blocks)| then [ptr] else []
  {
    AllocAddresses(heap.Shape(), heap.View());
    ptr := heap.Alloc();
  }

  /** The addresses of the blocks of some heaps at one moment. */
  type Lists = map<HeapT, seq<nat>>

  /** What entries show of heaps with these lists. */
  ghost function SnapWith(entries: seq<Entry>, lists: Lists): seq<Cached>
    requires forall e :: e in entries ==> e.heap in lists
  {
    if entries == [] then []
    else
      var e := entries[|entries| - 1];
      SnapWith(entries[..|entries| - 1], lists) + [Cached(e.ident, e.heap, lists[e.heap])]
  }

  lemma {:induction false} SnapshotIs(entries: seq<Entry>, lists: Lists)
    requires forall e :: e in entries ==> e.heap in lists
    requires forall h :: h in lists ==> Addresses(h.blocks) == lists[h]
    ensures Snapshot(entries) == SnapWith(entries, lists)
  {
    if entries != [] {
      SnapshotIs(entries[..|entries| - 1], lists);
    }
  }

  /** A slot carved in one heap shows in every entry that holds it. */
  lemma {:induction false} SnapWithCarved(entries: seq<Entry>, lists: Lists, heap: HeapT, block: nat)
    requires heap in lists && forall e :: e in entries ==> e.heap in lists
    ensures SnapWith(entries, lists[heap := lists[heap] + [block]]) == Carved(SnapWith(entries, lists), heap, block)
  {
    if entries != [] {
      var n := |entries| - 1;
      SnapWithCarved(entries[..n], lists, heap, block);
      SnapWithLength(entries[..n], lists);
    }
  }

  lemma {:induction false} SnapWithLength(entries: seq<Entry>, lists: Lists)
    requires forall e :: e in entries ==> e.heap in lists
    ensures |SnapWith(entries, lists)| == |entries|
  {
    if entries != [] {
      SnapWithLength(entries[..|entries| - 1], lists);
    }
  }

  // ---------- heaps ----------

  ghost function MatchingHeaps(entries: seq<Entry>, f: Filter): set<HeapT> {
    set e | e in entries && f(e.ident) :: e.heap
  }

  /** The heaps of the matching entries, each once, in order of first appearance. */
  ghost function DistinctHeaps(entries: seq<Entry>, f: Filter): (r: seq<HeapT>)
    ensures (set h | h in r) == MatchingHeaps(entries, f)
    ensures forall i, j :: 0 <= i < j < |r| ==> r[i] != r[j]
  {
    if entries == [] then []
    else
      var n := |entries| - 1;
      assert entries == entries[..n] + [entries[n]];
      assert MatchingHeaps(entries, f) ==
             MatchingHeaps(entries[..n], f) + if f(entries[n].ident) then {entries[n].heap} else {};
      var r := DistinctHeaps(entries[..n], f);
      assert entries[n].heap in r <==> entries[n].heap in MatchingHeaps(entries[..n], f);
      if f(entries[n].ident) && entries[n].heap !in r then r + [entries[n].heap] else r
  }

  /** The live blocks of some heaps, taken together. */
  ghost function TotalLive(heaps: seq<HeapT>): nat
    reads heaps
  {
    if heaps == [] then 0
    else
      var n := |heaps| - 1;
      TotalLive(heaps[..n]) + |LiveSet(heaps[n].blocks)|
  }

  /** The live blocks of these heaps. */
  ghost function LiveBlocks(heaps: set<HeapT>): set<(HeapT, nat)>
    reads heaps
  {
    set h, x | h in heaps && x in LiveSet(h.blocks) :: (h, x)
  }

  ghost function Pairs(h: HeapT, s: set<nat>): set<(HeapT, nat)> {
    set x | x in s :: (h, x)
  }

  lemma {:induction false} PairCount(h: HeapT, s: set<nat>)
    ensures |Pairs(h, s)| == |s|
  {
    if s == {} {
      assert Pairs(h, s) == {};
    } else {
      var y :| y in s;
      PairCount(h, s - {y});
      assert Pairs(h, s) == Pairs(h, s - {y}) + {(h, y)};
      assert (h, y) !in Pairs(h, s - {y});
      assert |s| == |s - {y}| + 1;
    }
  }

  lemma OneHeapMore(heaps: set<HeapT>, h: HeapT)
    requires h !in heaps
    ensures |LiveBlocks(heaps + {h})| == |LiveBlocks(heaps)| + |LiveSet(h.blocks)|
  {
    var own := Pairs(h, LiveSet(h.blocks));
    PairCount(h, LiveSet(h.blocks));
    assert LiveBlocks(heaps + {h}) == LiveBlocks(heaps) + own;
    assert LiveBlocks(heaps) !! own;
  }

  lemma {:induction false} TotalCounts(heaps: seq<HeapT>)
    requires forall i, j :: 0 <= i < j < |heaps| ==> heaps[i] != heaps[j]
    ensures TotalLive(heaps) == |LiveBlocks((set h | h in heaps))|
  {
    if heaps == [] {
      assert (set h | h in heaps) == {};
    } else {
      var n := |heaps| - 1;
      TotalCounts(heaps[..n]);
      assert heaps == heaps[..n] + [heaps[n]];
      assert (set h | h in heaps) == (set h | h in heaps[..n]) + {heaps[n]};
      OneHeapMore((set h | h in heaps[..n]), heaps[n]);
    }
  }

  /** The states of some heaps at one moment. */
  type Views = map<HeapT, Heap.State>

  ghost function TotalWas(heaps: seq<HeapT>, was: Views): nat
    requires forall h :: h in heaps ==> h in was
  {
    if heaps == [] then 0
    else
      var n := |heaps| - 1;
      TotalWas(heaps[..n], was) + |LiveSet(was[heaps[n]].blocks)|
  }

  lemma {:induction false} TotalNow(heaps: seq<HeapT>, was: Views)
    requires forall h :: h in heaps ==> h in was && was[h] == h.View()
    ensures TotalWas(heaps, was) == TotalLive(heaps)
  {
    if heaps != [] {
      TotalNow(heaps[..|heaps| - 1], was);
    }
  }

  /** The heaps of the matching entries among these have been released, and no others. */
  ghost predicate Released(was: Views, done: seq<Entry>, f: Filter)
    reads was.Keys
  {
    forall h :: h in was ==>
      h.Valid() && h.View() == if h in MatchingHeaps(done, f) then FreeAllStep(was[h]) else was[h]
  }

  lemma MatchingLast(done: seq<Entry>, e: Entry, f: Filter)
    requires f(e.ident)
    ensures MatchingHeaps(done + [e], f) == MatchingHeaps(done, f) + {e.heap}
  {}

  /** The live blocks of the distinct matching heaps have been counted. */
  ghost predicate Tallied(was: Views, done: seq<Entry>, f: Filter, n: nat) {
    && HeapsOf(done) <= was.Keys
    && (forall h :: h in DistinctHeaps(done, f) ==> h in was)
    && n == TotalWas(DistinctHeaps(done, f), was)
  }

  /** So far the matching heaps are released and their live blocks counted. */
  ghost predicate Counted(was: Views, done: seq<Entry>, f: Filter, n: nat)
    reads was.Keys
  {
    Tallied(was, done, f, n) && Released(was, done, f)
  }

  /** Releasing the heap of one more matching entry; a heap released before has nothing left. */
  method ReleaseOne(ghost was: Views, ghost done: seq<Entry>, e: Entry, f: Filter) returns (n: nat)
    requires Released(was, done, f) && e.heap in was && f(e.ident) && Inv(e.heap.Shape(), was[e.heap])
    modifies e.heap`blocks
    ensures Released(was, done + [e], f)
    ensures n == if e.heap in MatchingHeaps(done, f) then 0 else |LiveSet(was[e.heap].blocks)|
  {
    MatchingLast(done, e, f);
    FreedTwice(e.heap.Shape(), was[e.heap]);
    n := e.heap.FreeAll();
  }

  lemma NotMatching(done: seq<Entry>, e: Entry, f: Filter)
    requires !f(e.ident)
    ensures MatchingHeaps(done + [e], f) == MatchingHeaps(done, f)
    ensures DistinctHeaps(done + [e], f) == DistinctHeaps(done, f)
  {
    assert (done + [e])[..|done|] == done;
  }

  lemma DistinctLast(done: seq<Entry>, e: Entry, f: Filter)
    requires f(e.ident)
    ensures var r := DistinctHeaps(done, f);
            DistinctHeaps(done + [e], f) == if e.heap in MatchingHeaps(done, f) then r else r + [e.heap]
  {
    assert (done + [e])[..|done|] == done;
    assert e.heap in DistinctHeaps(done, f) <==> e.heap in MatchingHeaps(done, f);
  }

  /** One more matching entry adds the live blocks of its heap if the heap is new. */
  lemma TalliedNext(was: Views, done: seq<Entry>, e: Entry, f: Filter, n: nat, freed: nat)
    requires e.heap in was && Tallied(was, done, f, n)
    requires freed == if !f(e.ident) || e.heap in MatchingHeaps(done, f) then 0 else |LiveSet(was[e.heap].blocks)|
    ensures Tallied(was, done + [e], f, n + freed)
  {
    assert HeapsOf(done + [e]) == HeapsOf(done) + {e.heap};
    if f(e.ident) {
      DistinctLast(done, e, f);
    } else {
      NotMatching(done, e, f);
    }
    TotalNext(DistinctHeaps(done, f), DistinctHeaps(done + [e], f), e.heap, was, freed);
  }

  lemma TotalNext(heaps: seq<HeapT>, heaps': seq<HeapT>, h: HeapT, was: Views, freed: nat)
    requires h in was && forall x :: x in heaps ==> x in was
    requires (heaps' == heaps && freed == 0) || (heaps' == heaps + [h] && freed == |LiveSet(was[h].blocks)|)
    ensures forall x :: x in heaps' ==> x in was
    ensures TotalWas(heaps', was) == TotalWas(heaps, was) + freed
  {
    assert heaps' == heaps + [h] ==> heaps'[..|heaps|] == heaps;
  }

  lemma HeapsAmong(entries: seq<Entry>, f: Filter)
    ensures forall h :: h in DistinctHeaps(entries, f) ==> h in HeapsOf(entries)
  {
    forall h | h in DistinctHeaps(entries, f) ensures h in HeapsOf(entries) {
      assert h in (set x | x in DistinctHeaps(entries, f));
    }
  }

  /** One turn: release the heap of the entry if it matches, and count. */
  method ReleaseNext(ghost was: Views, ghost done: seq<Entry>, e: Entry, f: Filter, n: nat) returns (n': nat)
    requires Counted(was, done, f, n) && e.heap in was && Inv(e.heap.Shape(), was[e.heap])
    modifies e.heap`blocks
    ensures Counted(was, done + [e], f, n')
  {
    var freed := 0;
    if f(e.ident) {
      freed := ReleaseOne(was, done, e, f);
    } else {
      NotMatching(done, e, f);
    }
    TalliedNext(was, done, e, f, n, freed);
    n' := n + freed;
  }

  lemma HeapsMember(entries: seq<Entry>, i: nat)
    requires i < |entries|
    ensures entries[i].heap in HeapsOf(entries) && entries[..i + 1] == entries[..i] + [entries[i]]
  {
    assert entries[i] in entries;
  }

  /** The first loop of `clearAllocated`. */
  method ReleaseEach(ghost was: Views, entries: seq<Entry>, f: Filter) returns (n: nat, pairs: seq<Entry>)
    requires HeapsOf(entries) == was.Keys && Counted(was, [], f, 0)
    requires forall h :: h in was ==> Inv(h.Shape(), was[h])
    modifies was.Keys`blocks
    ensures Counted(was, entries, f, n) && pairs == Matching(entries, f)
  {
    n := 0;
    pairs := [];
    var i := 0;
    ghost var done := [];
    while i < |entries|
      invariant i <= |entries| && done == entries[..i]
      invariant pairs == Matching(done, f)
      invariant Counted(was, done, f, n)
    {
      var e := entries[i];
      HeapsMember(entries, i);
      n := ReleaseNext(was, done, e, f, n);
      MatchingNext(done, e, f);
      if f(e.ident) {
        pairs := pairs + [e];
      }
      done := done + [e];
      i := i + 1;
    }
    assert done == entries;
  }

  // ---------- subscriptions ----------

  /** Erasing one list node. */
  function EraseTicket(subs: seq<Subscription>, ticket: nat): seq<Subscription> {
    if subs == [] then []
    else
      var n := |subs| - 1;
      EraseTicket(subs[..n], ticket) + if subs[n].ticket == ticket then [] else [subs[n]]
  }

  ghost function NotAmong(subs: seq<Subscription>, tickets: seq<nat>): seq<Subscription> {
    if subs == [] then []
    else
      var n := |subs| - 1;
      NotAmong(subs[..n], tickets) + if subs[n].ticket in tickets then [] else [subs[n]]
  }

  lemma {:induction false} EraseOneMore(subs: seq<Subscription>, tickets: seq<nat>, t: nat)
    ensures EraseTicket(NotAmong(subs, tickets), t) == NotAmong(subs, tickets + [t])
  {
    if subs != [] {
      var n := |subs| - 1;
      var front := NotAmong(subs[..n], tickets);
      EraseOneMore(subs[..n], tickets, t);
      assert (front + [subs[n]])[..|front|] == front;
      assert subs[n].ticket in tickets + [t] <==> subs[n].ticket in tickets || subs[n].ticket == t;
      if subs[n].ticket !in tickets {
        assert NotAmong(subs, tickets) == front + [subs[n]];
      } else {
        assert NotAmong(subs, tickets) == front;
      }
    }
  }

  lemma {:induction false} NotAmongNone(subs: seq<Subscription>)
    ensures NotAmong(subs, []) == subs
  {
    if subs != [] {
      NotAmongNone(subs[..|subs| - 1]);
    }
  }

  /** The tickets of one acceptor's subscriptions, in order. */
  function TicketsOf(subs: seq<Subscription>, acceptor: nat): seq<nat> {
    if subs == [] then []
    else
      var n := |subs| - 1;
      TicketsOf(subs[..n], acceptor) + if subs[n].acceptor == acceptor then [subs[n].ticket] else []
  }

  lemma {:induction false} ErasedNodes(subs: seq<Subscription>, all: seq<Subscription>, acceptor: nat, issued: nat)
    requires Ordered(all, issued) && subs <= all
    ensures NotAmong(subs, TicketsOf(all, acceptor)) == Without(subs, acceptor)
  {
    if subs != [] {
      var n := |subs| - 1;
      ErasedNodes(subs[..n], all, acceptor, issued);
      TicketsOfIff(all, acceptor, issued, n);
    }
  }

  lemma {:induction false} TicketsOfIff(subs: seq<Subscription>, acceptor: nat, issued: nat, i: nat)
    requires Ordered(subs, issued) && i < |subs|
    ensures subs[i].ticket in TicketsOf(subs, acceptor) <==> subs[i].acceptor == acceptor
  {
    var n := |subs| - 1;
    if i < n {
      TicketsOfIff(subs[..n], acceptor, issued, i);
    } else {
      TicketsBelow(subs[..n], acceptor, subs[n].ticket);
    }
  }

  lemma {:induction false} TicketsBelow(subs: seq<Subscription>, acceptor: nat, t: nat)
    requires forall i :: 0 <= i < |subs| ==> subs[i].ticket < t
    ensures t !in TicketsOf(subs, acceptor)
  {
    if subs != [] {
      TicketsBelow(subs[..|subs| - 1], acceptor, t);
    }
  }

  /** The acceptor's nodes and those of the others are all of them. */
  lemma {:induction false} OwnAndOthers(subs: seq<Subscription>, acceptor: nat)
    ensures |TicketsOf(subs, acceptor)| + |Without(subs, acceptor)| == |subs|
  {
    if subs != [] {
      OwnAndOthers(subs[..|subs| - 1], acceptor);
    }
  }

  lemma AcceptorErased(subs: seq<Subscription>, acceptor: nat, issued: nat)
    requires Ordered(subs, issued)
    ensures NotAmong(subs, TicketsOf(subs, acceptor)) == Without(subs, acceptor)
    ensures Ordered(Without(subs, acceptor), issued)
  {
    ErasedNodes(subs, subs, acceptor, issued);
    WithoutOrdered(subs, acceptor, issued);
  }

  class Buffers {
    /** What memory holds now: the identity `getUseIdent` reads from each buffer. */
    var idents: Idents
    var buffers: seq<Entry>
    var subscriptions: seq<Subscription>
    /** The calls made to acceptors, in order. */
    var sent: seq<Delivery>
    /** The number of subscriptions ever made. */
    var issued: nat

    ghost function View(): Cache.State
      reads this, HeapsOf(buffers)`blocks
    {
      Cache.State(Snapshot(buffers), subscriptions, sent, issued)
    }

    ghost predicate Valid()
      reads this, HeapsOf(buffers)
    {
      && Ordered(subscriptions, issued)
      && AllValid(HeapsOf(buffers))
    }

    constructor (idents: Idents)
      ensures Valid() && View() == Cache.State([], [], [], 0) && this.idents == idents
    {
      this.idents := idents;
      buffers, subscriptions, sent, issued := [], [], [], 0;
    }

    /** `publish`: call every acceptor whose filter accepts the buffer. */
    method Publish(buffer: nat) returns (c: nat)
      modifies this`sent
      ensures sent == old(sent) + Cache.Publish(subscriptions, idents, buffer)
      ensures c == |Cache.Publish(subscriptions, idents, buffer)|
      ensures View() == Cache.Step(old(View()), PublishOne(buffer, idents))
    {
      c := 0;
      var i := 0;
      while i < |subscriptions|
        invariant i <= |subscriptions|
        invariant sent == old(sent) + Cache.Publish(subscriptions[..i], idents, buffer)
        invariant c == |Cache.Publish(subscriptions[..i], idents, buffer)|
      {
        var sub := subscriptions[i];
        assert subscriptions[..i + 1][..i] == subscriptions[..i];
        if sub.filter(idents(buffer)) {
          sent := sent + [Delivery(sub.ticket, sub.acceptor, buffer)];
          c := c + 1;
        }
        i := i + 1;
      }
      assert subscriptions[..i] == subscriptions;
      SnapshotKept(buffers);
    }

    /** The constructor of a buffer in a slot, new or used again: memory holds its identity from then
        on, and the cache does not change. */
    method Construct(buffer: nat, ident: UseIdent)
      modifies this`idents
      ensures idents(buffer) == ident && forall b :: b != buffer ==> idents(b) == old(idents)(b)
      ensures View() == old(View())
    {
      var before := idents;
      idents := (b: nat) => if b == buffer then ident else before(b);
      SnapshotKept(buffers);
    }

    /** A user of a heap, cached or not, allocates from it: the cache sees a carved slot and does not
        see one that is used again. */
    method AllocFrom(heap: HeapT) returns (ptr: nat)
      requires Valid() && heap.Valid()
      modifies heap
      ensures Valid() && heap.Valid()
      ensures (heap.View(), ptr) == AllocStep(heap.Shape(), old(heap.View()))
      ensures View() == if |heap.blocks| > |old(heap.blocks)| then Cache.Step(old(View()), Carve(heap, ptr))
                        else old(View())
    {
      ptr := AllocSeen(heap, buffers);
    }

    /** `addAllocated`: cache the entry, then publish each of its blocks. */
    method AddAllocated(e: Entry) returns (n: nat)
      requires Valid() && e.heap.Valid()
      modifies this`buffers, this`sent
      ensures Valid()
      ensures View() == Cache.Step(old(View()), Add(Snap(e), idents))
      ensures n == |e.heap.blocks|
    {
      buffers := buffers + [e];
      assert HeapsOf(buffers) == HeapsOf(old(buffers)) + {e.heap};
      assert buffers[..|buffers| - 1] == old(buffers);
      n := PublishBlocks(e.heap);
      SnapshotKept(old(buffers));
    }

    /** The loop of `addAllocated`. */
    method PublishBlocks(heap: HeapT) returns (n: nat)
      modifies this`sent
      ensures sent == old(sent) + PublishAll(subscriptions, idents, Addresses(heap.blocks))
      ensures n == |heap.blocks|
    {
      n := 0;
      ghost var blocks := Addresses(heap.blocks);
      while n < |heap.blocks|
        invariant n <= |heap.blocks|
        invariant sent == old(sent) + PublishAll(subscriptions, idents, blocks[..n])
      {
        var c := Publish(heap.blocks[n].second);
        assert blocks[..n + 1][..n] == blocks[..n];
        n := n + 1;
      }
      assert blocks[..n] == blocks;
    }

    /** `findRelevant`: gather the blocks of every matching entry. */
    method FindRelevant(f: Filter) returns (relevant: seq<nat>)
      requires Valid()
      ensures relevant == Relevant(View().buffers, f)
    {
      relevant := [];
      ghost var snaps := Snapshot(buffers);
      SnapshotAt(buffers);
      var i := 0;
      while i < |buffers|
        invariant i <= |buffers| == |snaps|
        invariant relevant == Relevant(snaps[..i], f)
      {
        assert snaps[..i + 1][..i] == snaps[..i];
        if f(buffers[i].ident) {
          relevant := relevant + Addresses(buffers[i].heap.blocks);
        }
        i := i + 1;
      }
      assert snaps[..i] == snaps;
    }

    /** `subscribe`: record the subscription and replay what is cached. */
    method Subscribe(filter: Filter, acceptor: nat) returns (replay: seq<nat>)
      requires Valid()
      modifies this`subscriptions, this`issued
      ensures Valid()
      ensures View() == Cache.Step(old(View()), Cache.Op.Subscribe(filter, acceptor))
      ensures replay == Relevant(old(View()).buffers, filter)
    {
      subscriptions := subscriptions + [Subscription(filter, acceptor, issued)];
      issued := issued + 1;
      replay := FindRelevant(filter);
      SnapshotKept(buffers);
    }

    /** `unsubscribe`: collect the acceptor's list nodes, then erase each. */
    method Unsubscribe(acceptor: nat) returns (n: nat)
      requires Valid()
      modifies this`subscriptions
      ensures Valid()
      ensures View() == Cache.Step(old(View()), Cache.Op.Unsubscribe(acceptor))
      ensures n == |old(subscriptions)| - |subscriptions|
    {
      var pairs := CollectNodes(acceptor);
      n := |pairs|;
      EraseNodes(pairs);
      SnapshotKept(buffers);
      AcceptorErased(old(subscriptions), acceptor, issued);
      OwnAndOthers(old(subscriptions), acceptor);
    }

    /** The first loop of `unsubscribe`. */
    method CollectNodes(acceptor: nat) returns (pairs: seq<nat>)
      ensures pairs == TicketsOf(subscriptions, acceptor)
    {
      pairs := [];
      var i := 0;
      while i < |subscriptions|
        invariant i <= |subscriptions|
        invariant pairs == TicketsOf(subscriptions[..i], acceptor)
      {
        assert subscriptions[..i + 1][..i] == subscriptions[..i];
        if subscriptions[i].acceptor == acceptor {
          pairs := pairs + [subscriptions[i].ticket];
        }
        i := i + 1;
      }
      assert subscriptions[..i] == subscriptions;
    }

    /** The second loop of `unsubscribe`. */
    method EraseNodes(pairs: seq<nat>)
      modifies this`subscriptions
      ensures subscriptions == NotAmong(old(subscriptions), pairs)
    {
      NotAmongNone(subscriptions);
      var j := 0;
      while j < |pairs|
        invariant j <= |pairs|
        invariant subscriptions == NotAmong(old(subscriptions), pairs[..j])
      {
        EraseOneMore(old(subscriptions), pairs[..j], pairs[j]);
        assert pairs[..j + 1] == pairs[..j] + [pairs[j]];
        subscriptions := EraseTicket(subscriptions, pairs[j]);
        j := j + 1;
      }
      assert pairs[..j] == pairs;
    }

    /** `clearAllocated`: release the heaps of the matching entries and erase those entries. */
    method ClearAllocated(f: Filter) returns (n: nat)
      requires Valid()
      modifies this`buffers, HeapsOf(buffers)`blocks
      ensures Valid()
      ensures buffers == AllUnlike(old(buffers), Matching(old(buffers), f))
      // an entry stays if it is not matched and no matched one has its heap and its fields but the name
      ensures forall e :: e in buffers <==> e in old(buffers) && !f(e.ident) && !Doubled(old(buffers), f, e)
      // so the unmatched entries stay, all of them if and only if none equals a matched one
      ensures buffers == Kept(old(buffers), f) <==> Separates(old(buffers), f)
      ensures Separates(old(buffers), f) ==> View() == Cache.Step(old(View()), Clear(f))
      // the count: the live blocks of the matching heaps, each counted once
      ensures n == |old(LiveBlocks(MatchingHeaps(buffers, f)))|
      // the matching heaps are emptied and the others are untouched
      ensures forall h :: h in MatchingHeaps(old(buffers), f) ==> h.View() == FreeAllStep(old(h.View()))
      ensures forall h :: h in HeapsOf(old(buffers)) - MatchingHeaps(old(buffers), f) ==> h.View() == old(h.View())
    {
      ghost var all, before := buffers, View();
      n := ReleaseAndErase(f);
      ErasedByValue(all, f);
      StayExactly(all, f);
      if Separates(all, f) {
        KeptSnapshot(all, f);
        assert View() == before.(buffers := Rejected(before.buffers, f));
      }
    }

    /** The two loops of `clearAllocated`. */
    method ReleaseAndErase(f: Filter) returns (n: nat)
      requires Valid()
      modifies this`buffers, HeapsOf(buffers)`blocks
      ensures Valid()
      ensures Snapshot(old(buffers)) == old(Snapshot(buffers))
      ensures buffers == AllUnlike(old(buffers), Matching(old(buffers), f))
      ensures n == |old(LiveBlocks(MatchingHeaps(buffers, f)))|
      ensures forall h :: h in MatchingHeaps(old(buffers), f) ==> h.View() == FreeAllStep(old(h.View()))
      ensures forall h :: h in HeapsOf(old(buffers)) - MatchingHeaps(old(buffers), f) ==> h.View() == old(h.View())
    {
      var pairs;
      ghost var all := buffers;
      n, pairs := ReleaseMatching(f);
      EraseEntries(pairs);
      UnlikeAre(all, pairs);
      SnapshotKept(all);
    }

    /** The heaps of the matching entries are released, and their live blocks counted once each. */
    method ReleaseMatching(f: Filter) returns (n: nat, pairs: seq<Entry>)
      requires AllValid(HeapsOf(buffers))
      modifies HeapsOf(buffers)`blocks
      ensures AllValid(HeapsOf(buffers))
      ensures pairs == Matching(buffers, f)
      ensures n == |old(LiveBlocks(MatchingHeaps(buffers, f)))|
      ensures forall h :: h in MatchingHeaps(buffers, f) ==> h.View() == FreeAllStep(old(h.View()))
      ensures forall h :: h in HeapsOf(buffers) - MatchingHeaps(buffers, f) ==> h.View() == old(h.View())
    {
      ghost var was: Views := map h | h in HeapsOf(buffers) :: h.View();
      HeapsAmong(buffers, f);
      TotalNow(DistinctHeaps(buffers, f), was);
      TotalCounts(DistinctHeaps(buffers, f));
      n, pairs := ReleaseEach(was, buffers, f);
    }

    /** The second loop of `clearAllocated`. */
    method EraseEntries(pairs: seq<Entry>)
      modifies this`buffers
      ensures buffers == AllUnlike(old(buffers), pairs)
    {
      UnlikeNothing(buffers);
      var j := 0;
      while j < |pairs|
        invariant j <= |pairs|
        invariant buffers == AllUnlike(old(buffers), pairs[..j])
      {
        RemoveOneMore(old(buffers), pairs[..j], pairs[j]);
        assert pairs[..j + 1] == pairs[..j] + [pairs[j]];
        buffers := RemoveEqual(buffers, pairs[j]);
        j := j + 1;
      }
      assert pairs[..j] == pairs;
    }
  }

  /** Releasing a heap again releases nothing and changes nothing. */
  lemma FreedTwice(r: Region, s: Heap.State)
    requires Inv(r, s)
    ensures LiveSet(FreeAllStep(s).blocks) == {}
    ensures FreeAllStep(FreeAllStep(s)) == FreeAllStep(s)
  {
    FreeAllKeeps(r, s);
    assert FreeAllStep(FreeAllStep(s)).blocks == FreeAllStep(s).blocks;
  }
}
