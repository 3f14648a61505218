/**
 The buffer cache of buffer_cache.cpp as a value: cached heaps, subscriptions, and the calls made
 to acceptors.  Every public call runs under the cache mutex, so each is one atomic step, and a
 run is a sequence of calls.
*/
module Cache {
  import opened HeapObject

  /** `operator==` of identities looks at the source, the specification and the tick only. */
  datatype UseIdent = UseIdent(source: nat, name: string, specification: seq<string>, tick: nat)

  predicate Same(a: UseIdent, b: UseIdent) {
    a.source == b.source && a.tick == b.tick && a.specification == b.specification
  }

  /** A relevance filter: any predicate on identities. */
  type Filter = UseIdent -> bool

  ghost predicate Respects(f: Filter) {
    forall a, b :: Same(a, b) ==> f(a) == f(b)
  }

  /** A cached heap, by reference, with the addresses of its blocks. */
  datatype Cached = Cached(ident: UseIdent, heap: HeapT, blocks: seq<nat>)

  /** `ticket` tells apart two subscriptions of one acceptor, as their list nodes do. */
  datatype Subscription = Subscription(filter: Filter, acceptor: nat, ticket: nat)

  /** One call of `Acceptor::accept`. */
  datatype Delivery = Delivery(ticket: nat, acceptor: nat, buffer: nat)

  datatype State = State(buffers: seq<Cached>, subscriptions: seq<Subscription>,
                            sent: seq<Delivery>, issued: nat)

  /** The identity each buffer in memory carries. */
  type Idents = nat -> UseIdent

  /** A call that reads identities carries those that memory holds at that moment: a slot that is
      used again holds a new buffer, with an identity of its own. */
  datatype Op =
    | Add(entry: Cached, ids: Idents)
    | PublishOne(buffer: nat, ids: Idents)
    | Subscribe(filter: Filter, acceptor: nat)
    | Unsubscribe(acceptor: nat)
    | Clear(filter: Filter)
    | Carve(heap: HeapT, block: nat)  // a slot carved in a heap, cached or not, by its user

  /** `findRelevant`: the blocks of every matching entry, in order. */
  function Relevant(entries: seq<Cached>, f: Filter): seq<nat> {
    if entries == [] then []
    else
      var n := |entries| - 1;
      Relevant(entries[..n], f) + if f(entries[n].ident) then entries[n].blocks else []
  }

  /** `publish`: one delivery to each subscription whose filter accepts the buffer's identity. */
  function Publish(subs: seq<Subscription>, ids: Idents, b: nat): seq<Delivery> {
    if subs == [] then []
    else
      var n := |subs| - 1;
      Publish(subs[..n], ids, b) +
      if subs[n].filter(ids(b)) then [Delivery(subs[n].ticket, subs[n].acceptor, b)] else []
  }

  function PublishAll(subs: seq<Subscription>, ids: Idents, blocks: seq<nat>): seq<Delivery> {
    if blocks == [] then []
    else
      var n := |blocks| - 1;
      PublishAll(subs, ids, blocks[..n]) + Publish(subs, ids, blocks[n])
  }

  /** The subscriptions of other acceptors, in order. */
  function Without(subs: seq<Subscription>, acceptor: nat): seq<Subscription> {
    if subs == [] then []
    else
      var n := |subs| - 1;
      Without(subs[..n], acceptor) + if subs[n].acceptor != acceptor then [subs[n]] else []
  }

  /** The entries a filter does not match, in order. */
  function Rejected(entries: seq<Cached>, f: Filter): seq<Cached> {
    if entries == [] then []
    else
      var n := |entries| - 1;
      Rejected(entries[..n], f) + if f(entries[n].ident) then [] else [entries[n]]
  }

  /** The cache sees a slot carved in a heap it holds; nothing is published. */
  function Carved(entries: seq<Cached>, heap: HeapT, block: nat): seq<Cached> {
    if entries == [] then []
    else
      var n := |entries| - 1;
      var e := entries[n];
      Carved(entries[..n], heap, block) + [if e.heap == heap then e.(blocks := e.blocks + [block]) else e]
  }

  function Step(s: State, op: Op): State {
    match op
    case Add(e, ids) => s.(buffers := s.buffers + [e], sent := s.sent + PublishAll(s.subscriptions, ids, e.blocks))
    case PublishOne(b, ids) => s.(sent := s.sent + Publish(s.subscriptions, ids, b))
    case Subscribe(f, a) =>
      s.(subscriptions := s.subscriptions + [Subscription(f, a, s.issued)], issued := s.issued + 1)
    case Unsubscribe(a) => s.(subscriptions := Without(s.subscriptions, a))
    case Clear(f) => s.(buffers := Rejected(s.buffers, f))
    case Carve(h, b) => s.(buffers := Carved(s.buffers, h, b))
  }

  function Exec(ops: seq<Op>): State {
    if ops == [] then State([], [], [], 0)
    else Step(Exec(ops[..|ops| - 1]), ops[|ops| - 1])
  }

  /** The buffers accepted by one subscription, in order. */
  function Accepted(sent: seq<Delivery>, ticket: nat): seq<nat> {
    if sent == [] then []
    else
      var n := |sent| - 1;
      Accepted(sent[..n], ticket) + if sent[n].ticket == ticket then [sent[n].buffer] else []
  }

  // ---------- one subscription ----------

  /** Tickets are below the next one to issue, and in order of subscription. */
  ghost predicate Ordered(subs: seq<Subscription>, issued: nat) {
    && (forall i :: 0 <= i < |subs| ==> subs[i].ticket < issued)
    && (forall i, j :: 0 <= i < j < |subs| ==> subs[i].ticket < subs[j].ticket)
  }

  lemma {:induction false} AcceptedConcat(a: seq<Delivery>, b: seq<Delivery>, t: nat)
    ensures Accepted(a + b, t) == Accepted(a, t) + Accepted(b, t)
  {
    if b == [] {
      assert a + b == a;
    } else {
      var n := |b| - 1;
      assert (a + b)[..|a + b| - 1] == a + b[..n];
      AcceptedConcat(a, b[..n], t);
    }
  }

  lemma {:induction false} PublishedElsewhere(subs: seq<Subscription>, ids: Idents, b: nat, t: nat)
    requires forall i :: 0 <= i < |subs| ==> subs[i].ticket != t
    ensures Accepted(Publish(subs, ids, b), t) == []
  {
    if subs != [] {
      var n := |subs| - 1;
      PublishedElsewhere(subs[..n], ids, b, t);
      AcceptedConcat(Publish(subs[..n], ids, b), Publish(subs, ids, b)[|Publish(subs[..n], ids, b)|..], t);
      assert Publish(subs, ids, b) ==
             Publish(subs[..n], ids, b) + Publish(subs, ids, b)[|Publish(subs[..n], ids, b)|..];
    }
  }

  /** A buffer reaches a subscription once if its identity is accepted, and never otherwise. */
  lemma {:induction false} PublishedOnce(subs: seq<Subscription>, ids: Idents, b: nat, sub: Subscription)
    requires sub in subs
    requires forall i, j :: 0 <= i < j < |subs| ==> subs[i].ticket != subs[j].ticket
    ensures Accepted(Publish(subs, ids, b), sub.ticket) == if sub.filter(ids(b)) then [b] else []
  {
    var n := |subs| - 1;
    PublishedLast(subs, ids, b, sub.ticket);
    if subs[n] == sub {
      PublishedElsewhere(subs[..n], ids, b, sub.ticket);
    } else {
      PublishedOnce(subs[..n], ids, b, sub);
      assert subs[n].ticket != sub.ticket;
    }
  }

  lemma PublishedLast(subs: seq<Subscription>, ids: Idents, b: nat, t: nat)
    requires subs != []
    ensures var n := |subs| - 1;
            Accepted(Publish(subs, ids, b), t) ==
            Accepted(Publish(subs[..n], ids, b), t) + if subs[n].ticket == t && subs[n].filter(ids(b)) then [b] else []
  {
    var n := |subs| - 1;
    var last := Delivery(subs[n].ticket, subs[n].acceptor, b);
    if subs[n].filter(ids(b)) {
      AcceptedConcat(Publish(subs[..n], ids, b), [last], t);
      assert [last][..0] == [];
      assert Accepted([last], t) == Accepted([], t) + if last.ticket == t then [b] else [];
    } else {
      assert Publish(subs, ids, b) == Publish(subs[..n], ids, b);
    }
  }

  /** The blocks a filter accepts by the identity they carry. */
  function AcceptedBlocks(f: Filter, ids: Idents, blocks: seq<nat>): (r: seq<nat>)
    ensures |r| <= |blocks|
  {
    if blocks == [] then []
    else
      var n := |blocks| - 1;
      AcceptedBlocks(f, ids, blocks[..n]) + if f(ids(blocks[n])) then [blocks[n]] else []
  }

  lemma {:induction false} PublishedBlocks(subs: seq<Subscription>, ids: Idents, blocks: seq<nat>, sub: Subscription)
    requires sub in subs
    requires forall i, j :: 0 <= i < j < |subs| ==> subs[i].ticket != subs[j].ticket
    ensures Accepted(PublishAll(subs, ids, blocks), sub.ticket) == AcceptedBlocks(sub.filter, ids, blocks)
  {
    if blocks != [] {
      var n := |blocks| - 1;
      PublishedBlocks(subs, ids, blocks[..n], sub);
      PublishedOnce(subs, ids, blocks[n], sub);
      AcceptedConcat(PublishAll(subs, ids, blocks[..n]), Publish(subs, ids, blocks[n]), sub.ticket);
    }
  }

  /** A filter's verdict on an entry is its verdict on each of the entry's blocks. */
  ghost predicate Carries(e: Cached, ids: Idents, f: Filter) {
    forall b :: b in e.blocks ==> f(ids(b)) == f(e.ident)
  }

  /** Adding an entry hands a subscription exactly the blocks that `findRelevant` would give it if
      and only if the blocks carry an identity the filter treats like the entry's. */
  lemma {:induction false} AddedExactly(e: Cached, ids: Idents, f: Filter)
    ensures AcceptedBlocks(f, ids, e.blocks) == (if f(e.ident) then e.blocks else []) <==> Carries(e, ids, f)
    decreases |e.blocks|
  {
    if e.blocks != [] {
      var n := |e.blocks| - 1;
      var e0 := e.(blocks := e.blocks[..n]);
      AddedExactly(e0, ids, f);
      CarriesLast(e, e0, ids, f);
      AcceptedAll(f, ids, e.blocks);
    }
  }

  lemma CarriesLast(e: Cached, e0: Cached, ids: Idents, f: Filter)
    requires e.blocks != [] && e0 == e.(blocks := e.blocks[..|e.blocks| - 1])
    ensures Carries(e, ids, f) <==> Carries(e0, ids, f) && f(ids(e.blocks[|e.blocks| - 1])) == f(e.ident)
  {
    assert e.blocks == e0.blocks + [e.blocks[|e.blocks| - 1]];
  }

  lemma LastToo(before: seq<nat>, last: seq<nat>, blocks: seq<nat>)
    requires blocks != [] && |before| <= |blocks| - 1 && |last| <= 1
    ensures var n := |blocks| - 1;
            before + last == blocks <==> before == blocks[..n] && last == [blocks[n]]
  {
    var n := |blocks| - 1;
    assert blocks == blocks[..n] + [blocks[n]];
    if before + last == blocks {
      assert before == (before + last)[..n];
      assert last[0] == (before + last)[n];
    }
  }

  /** All blocks are accepted just when the last one and all before it are. */
  lemma AcceptedAll(f: Filter, ids: Idents, blocks: seq<nat>)
    requires blocks != []
    ensures var n := |blocks| - 1;
            AcceptedBlocks(f, ids, blocks) == blocks <==>
            AcceptedBlocks(f, ids, blocks[..n]) == blocks[..n] && f(ids(blocks[n]))
  {
    var n := |blocks| - 1;
    LastToo(AcceptedBlocks(f, ids, blocks[..n]), if f(ids(blocks[n])) then [blocks[n]] else [], blocks);
  }

  // ---------- exactly once, over every run ----------

  lemma {:induction false} TicketsDistinct(ops: seq<Op>)
    ensures var s := Exec(ops);
            Ordered(s.subscriptions, s.issued)
  {
    if ops != [] {
      TicketsDistinct(ops[..|ops| - 1]);
      var s := Exec(ops[..|ops| - 1]);
      if ops[|ops| - 1].Unsubscribe? {
        WithoutOrdered(s.subscriptions, ops[|ops| - 1].acceptor, s.issued);
      }
    }
  }

  lemma {:induction false} WithoutOrdered(subs: seq<Subscription>, acceptor: nat, issued: nat)
    requires Ordered(subs, issued)
    ensures Ordered(Without(subs, acceptor), issued)
    ensures forall x :: x in Without(subs, acceptor) <==> x in subs && x.acceptor != acceptor
  {
    if subs != [] {
      var n := |subs| - 1;
      assert subs == subs[..n] + [subs[n]];
      WithoutOrdered(subs[..n], acceptor, issued);
      var w0 := Without(subs[..n], acceptor);
      forall i | 0 <= i < |w0| ensures w0[i].ticket < subs[n].ticket {
        assert w0[i] in subs[..n];
      }
    }
  }

  /** Call `k` of the run subscribed, and nothing in the run unsubscribed that acceptor since. */
  ghost predicate SubscribedSince(ops: seq<Op>, k: nat) {
    && k < |ops| && ops[k].Subscribe?
    && forall j :: k < j < |ops| ==> ops[j] != Unsubscribe(ops[k].acceptor)
  }

  /** The subscription made by call `k`. */
  function Made(ops: seq<Op>, k: nat): Subscription
    requires k < |ops| && ops[k].Subscribe?
  {
    Subscription(ops[k].filter, ops[k].acceptor, Exec(ops[..k]).issued)
  }

  lemma {:induction false} StaysSubscribed(ops: seq<Op>, k: nat)
    requires SubscribedSince(ops, k)
    ensures Made(ops, k) in Exec(ops).subscriptions
    ensures Made(ops, k).ticket < Exec(ops).issued
    ensures Ordered(Exec(ops).subscriptions, Exec(ops).issued)
    decreases |ops|
  {
    TicketsDistinct(ops);
    var pre, op := ops[..|ops| - 1], ops[|ops| - 1];
    TicketsDistinct(pre);
    var s, sub := Exec(pre), Made(ops, k);
    if k == |ops| - 1 {
      assert Exec(ops).subscriptions == s.subscriptions + [sub];
    } else {
      assert pre[..k] == ops[..k];
      StaysSubscribed(pre, k);
      if op.Unsubscribe? {
        WithoutOrdered(s.subscriptions, op.acceptor, s.issued);
      }
    }
  }

  lemma {:induction false} NothingBefore(ops: seq<Op>, t: nat)
    requires Exec(ops).issued <= t
    ensures Accepted(Exec(ops).sent, t) == []
  {
    if ops != [] {
      var pre, op := ops[..|ops| - 1], ops[|ops| - 1];
      NothingBefore(pre, t);
      TicketsDistinct(pre);
      var s := Exec(pre);
      if op.Add? {
        NeverPublished(s.subscriptions, op.ids, op.entry.blocks, t);
        AcceptedConcat(s.sent, PublishAll(s.subscriptions, op.ids, op.entry.blocks), t);
      } else if op.PublishOne? {
        PublishedElsewhere(s.subscriptions, op.ids, op.buffer, t);
        AcceptedConcat(s.sent, Publish(s.subscriptions, op.ids, op.buffer), t);
      }
    }
  }

  lemma {:induction false} NeverPublished(subs: seq<Subscription>, ids: Idents, blocks: seq<nat>, t: nat)
    requires forall i :: 0 <= i < |subs| ==> subs[i].ticket != t
    ensures Accepted(PublishAll(subs, ids, blocks), t) == []
  {
    if blocks != [] {
      var n := |blocks| - 1;
      NeverPublished(subs, ids, blocks[..n], t);
      PublishedElsewhere(subs, ids, blocks[n], t);
      AcceptedConcat(PublishAll(subs, ids, blocks[..n]), Publish(subs, ids, blocks[n]), t);
    }
  }

  /** What one call hands a subscription with this filter: the blocks of a matching entry, or a
      buffer published on its own whose identity matches. */
  function Arrival(op: Op, f: Filter): seq<nat> {
    if op.Add? && f(op.entry.ident) then op.entry.blocks
    else if op.PublishOne? && f(op.ids(op.buffer)) then [op.buffer]
    else []
  }

  /** What these calls hand it, in order. */
  function Arrivals(ops: seq<Op>, f: Filter): seq<nat> {
    if ops == [] then []
    else
      var n := |ops| - 1;
      Arrivals(ops[..n], f) + Arrival(ops[n], f)
  }

  /** Every entry added by these calls carries its identity. */
  ghost predicate AllCarry(ops: seq<Op>, f: Filter) {
    forall j :: 0 <= j < |ops| && ops[j].Add? ==> Carries(ops[j].entry, ops[j].ids, f)
  }

  /** What one call makes a present subscription accept. */
  lemma AcceptsArrival(s: State, op: Op, sub: Subscription)
    requires sub in s.subscriptions && Ordered(s.subscriptions, s.issued)
    requires op.Add? ==> Carries(op.entry, op.ids, sub.filter)
    ensures Accepted(Step(s, op).sent, sub.ticket) == Accepted(s.sent, sub.ticket) + Arrival(op, sub.filter)
  {
    if op.Add? {
      PublishedBlocks(s.subscriptions, op.ids, op.entry.blocks, sub);
      AddedExactly(op.entry, op.ids, sub.filter);
      AcceptedConcat(s.sent, PublishAll(s.subscriptions, op.ids, op.entry.blocks), sub.ticket);
    } else if op.PublishOne? {
      PublishedOnce(s.subscriptions, op.ids, op.buffer, sub);
      AcceptedConcat(s.sent, Publish(s.subscriptions, op.ids, op.buffer), sub.ticket);
    }
  }

  lemma SinceSnoc(ops: seq<Op>, k: nat)
    requires k < |ops| - 1
    ensures var pre := ops[..|ops| - 1];
            pre[..k] == ops[..k] && ops[k + 1..] == pre[k + 1..] + [ops[|ops| - 1]]
  {}

  /** Live half of exactly-once: whatever else is called in between, a subscription accepts the
      blocks of each matching entry added since and each matching buffer published on its own, once
      each and in order, and nothing else. */
  lemma {:induction false} AcceptsWhatIsAdded(ops: seq<Op>, k: nat)
    requires SubscribedSince(ops, k) && AllCarry(ops[k + 1..], ops[k].filter)
    ensures Accepted(Exec(ops).sent, Made(ops, k).ticket) == Arrivals(ops[k + 1..], ops[k].filter)
    decreases |ops|
  {
    var pre, op := ops[..|ops| - 1], ops[|ops| - 1];
    if k == |ops| - 1 {
      NothingBefore(pre, Made(ops, k).ticket);
    } else {
      SinceSnoc(ops, k);
      AcceptsWhatIsAdded(pre, k);
      StaysSubscribed(pre, k);
      assert op == ops[k + 1..][|ops| - k - 2];
      AcceptsArrival(Exec(pre), op, Made(pre, k));
      assert (pre[k + 1..] + [op])[..|pre| - k - 1] == pre[k + 1..];
    }
  }

  /** What a subscription has been given so far: the replay returned by `subscribe`, then the
      buffers accepted since. */
  function Given(ops: seq<Op>, k: nat): seq<nat>
    requires k < |ops| && ops[k].Subscribe?
  {
    Relevant(Exec(ops[..k]).buffers, ops[k].filter) + Accepted(Exec(ops).sent, Made(ops, k).ticket)
  }

  /** Exactly once, with everything interleaved: replay and live deliveries together are the blocks
      of the matching entries cached at subscription time, and those of the entries added and the
      buffers published later. */
  lemma ExactlyOnce(ops: seq<Op>, k: nat)
    requires SubscribedSince(ops, k) && AllCarry(ops[k + 1..], ops[k].filter)
    ensures multiset(Given(ops, k)) ==
            multiset(Relevant(Exec(ops[..k]).buffers, ops[k].filter)) +
            multiset(Arrivals(ops[k + 1..], ops[k].filter))
  {
    AcceptsWhatIsAdded(ops, k);
  }

  // ---------- given and cached, over every run ----------

  /** A carved block, once for each matching entry that holds the heap. */
  function Hits(entries: seq<Cached>, heap: HeapT, block: nat, f: Filter): seq<nat> {
    if entries == [] then []
    else
      var n := |entries| - 1;
      Hits(entries[..n], heap, block, f) + if entries[n].heap == heap && f(entries[n].ident) then [block] else []
  }

  function And(g: Filter, f: Filter): Filter {
    u => g(u) && f(u)
  }

  /** What one call puts in the cache, for this filter, that no subscriber is given: blocks carved
      in a cached heap. */
  function Unseen(s: State, op: Op, f: Filter): multiset<nat> {
    if op.Carve? then multiset(Hits(s.buffers, op.heap, op.block, f)) else multiset{}
  }

  /** What one call gives a subscriber that is not in the cache afterwards: a buffer published on its
      own, or blocks cleared. */
  function Gone(s: State, op: Op, f: Filter): multiset<nat> {
    if op.PublishOne? then multiset(Arrival(op, f))
    else if op.Clear? then multiset(Relevant(s.buffers, And(f, op.filter)))
    else multiset{}
  }

  /** The same for all calls after call `k`. */
  function UnseenSince(ops: seq<Op>, k: nat, f: Filter): multiset<nat> {
    var n := |ops| - 1;
    if n <= k then multiset{} else UnseenSince(ops[..n], k, f) + Unseen(Exec(ops[..n]), ops[n], f)
  }

  function GoneSince(ops: seq<Op>, k: nat, f: Filter): multiset<nat> {
    var n := |ops| - 1;
    if n <= k then multiset{} else GoneSince(ops[..n], k, f) + Gone(Exec(ops[..n]), ops[n], f)
  }

  lemma RelevantLast(entries: seq<Cached>, e: Cached, f: Filter)
    ensures Relevant(entries + [e], f) == Relevant(entries, f) + if f(e.ident) then e.blocks else []
  {
    assert (entries + [e])[..|entries|] == entries;
  }

  lemma {:induction false} CarvedHits(entries: seq<Cached>, heap: HeapT, block: nat, f: Filter)
    ensures multiset(Relevant(Carved(entries, heap, block), f)) ==
            multiset(Relevant(entries, f)) + multiset(Hits(entries, heap, block, f))
  {
    if entries != [] {
      var before, e := entries[..|entries| - 1], entries[|entries| - 1];
      var e' := if e.heap == heap then e.(blocks := e.blocks + [block]) else e;
      assert entries == before + [e];
      CarvedHits(before, heap, block, f);
      assert Carved(entries, heap, block) == Carved(before, heap, block) + [e'];
      RelevantLast(before, e, f);
      RelevantLast(Carved(before, heap, block), e', f);
      var more := if e.heap == heap && f(e.ident) then [block] else [];
      assert Hits(entries, heap, block, f) == Hits(before, heap, block, f) + more;
      BothMore(multiset(Relevant(before, f)), multiset(Hits(before, heap, block, f)),
               multiset(if f(e.ident) then e.blocks else []), multiset(more));
    }
  }

  lemma BothMore(a: multiset<nat>, b: multiset<nat>, c: multiset<nat>, d: multiset<nat>)
    ensures (a + b) + (c + d) == (a + c) + (b + d)
  {}

  lemma RejectedLast(entries: seq<Cached>, e: Cached, f: Filter)
    ensures Rejected(entries + [e], f) == Rejected(entries, f) + if f(e.ident) then [] else [e]
  {
    assert (entries + [e])[..|entries|] == entries;
  }

  /** The same with multisets. */
  lemma RelevantMore(entries: seq<Cached>, e: Cached, f: Filter)
    ensures multiset(Relevant(entries + [e], f)) ==
            multiset(Relevant(entries, f)) + if f(e.ident) then multiset(e.blocks) else multiset{}
  {
    RelevantLast(entries, e, f);
  }

  lemma RejectedMore(entries: seq<Cached>, e: Cached, f: Filter, g: Filter)
    ensures multiset(Relevant(Rejected(entries + [e], f), g)) ==
            multiset(Relevant(Rejected(entries, f), g)) +
            if g(e.ident) && !f(e.ident) then multiset(e.blocks) else multiset{}
  {
    RejectedLast(entries, e, f);
    if f(e.ident) {
      assert Rejected(entries, f) + [] == Rejected(entries, f);
    } else {
      RelevantMore(Rejected(entries, f), e, g);
    }
  }

  lemma {:induction false} ClearedHits(entries: seq<Cached>, f: Filter, g: Filter)
    ensures multiset(Relevant(entries, g)) ==
            multiset(Relevant(Rejected(entries, f), g)) + multiset(Relevant(entries, And(g, f)))
  {
    if entries != [] {
      var before, e := entries[..|entries| - 1], entries[|entries| - 1];
      assert entries == before + [e];
      ClearedHits(before, f, g);
      RelevantMore(before, e, g);
      RelevantMore(before, e, And(g, f));
      RejectedMore(before, e, f, g);
      SplitMore(multiset(Relevant(before, g)), multiset(Relevant(Rejected(before, f), g)),
                multiset(Relevant(before, And(g, f))), multiset(e.blocks), g(e.ident), f(e.ident));
    }
  }

  /** What is split in two stays split when more goes to one side, or to neither. */
  lemma SplitMore(a: multiset<nat>, b: multiset<nat>, c: multiset<nat>, d: multiset<nat>, some: bool, second: bool)
    requires a == b + c
    ensures a + (if some then d else multiset{}) ==
            (b + if some && !second then d else multiset{}) + (c + if some && second then d else multiset{})
  {}

  /** How one call changes what a query returns. */
  lemma RelevantStep(s: State, op: Op, f: Filter)
    ensures multiset(Relevant(Step(s, op).buffers, f)) + Gone(s, op, f) ==
            multiset(Relevant(s.buffers, f)) + multiset(Arrival(op, f)) + Unseen(s, op, f)
  {
    match op
    case Add(e, _) => assert (s.buffers + [e])[..|s.buffers|] == s.buffers;
    case Clear(g) => ClearedHits(s.buffers, g, f);
    case Carve(h, b) => CarvedHits(s.buffers, h, b, f);
    case _ =>
  }

  lemma SinceBefore(ops: seq<Op>, k: nat)
    requires SubscribedSince(ops, k) && k < |ops| - 1 && AllCarry(ops[k + 1..], ops[k].filter)
    ensures var pre, op := ops[..|ops| - 1], ops[|ops| - 1];
            && SubscribedSince(pre, k) && pre[k] == ops[k] && AllCarry(pre[k + 1..], ops[k].filter)
            && (op.Add? ==> Carries(op.entry, op.ids, ops[k].filter))
  {
    SinceSnoc(ops, k);
    assert ops[|ops| - 1] == ops[k + 1..][|ops| - k - 2];
  }

  lemma GivenNext(ops: seq<Op>, k: nat)
    requires SubscribedSince(ops, k) && k < |ops| - 1 && AllCarry(ops[k + 1..], ops[k].filter)
    ensures var pre := ops[..|ops| - 1];
            && SubscribedSince(pre, k) && pre[k] == ops[k] && AllCarry(pre[k + 1..], ops[k].filter)
            && Given(ops, k) == Given(pre, k) + Arrival(ops[|ops| - 1], ops[k].filter)
  {
    var pre, op := ops[..|ops| - 1], ops[|ops| - 1];
    SinceBefore(ops, k);
    StaysSubscribed(pre, k);
    assert pre[..k] == ops[..k];
    AcceptsArrival(Exec(pre), op, Made(pre, k));
    AppendLater(Relevant(Exec(ops[..k]).buffers, ops[k].filter), Accepted(Exec(pre).sent, Made(pre, k).ticket),
                Arrival(op, ops[k].filter));
  }

  lemma AppendLater(a: seq<nat>, b: seq<nat>, c: seq<nat>)
    ensures a + (b + c) == a + b + c
  {}

  /** Conservation, over every run: what a subscription was given, and what was carved in matching
      cached heaps meanwhile, is what a query returns now, and what was published on its own or
      cleared meanwhile. */
  lemma {:induction false} Conserved(ops: seq<Op>, k: nat)
    requires SubscribedSince(ops, k) && AllCarry(ops[k + 1..], ops[k].filter)
    ensures var f := ops[k].filter;
            multiset(Given(ops, k)) + UnseenSince(ops, k, f) ==
            multiset(Relevant(Exec(ops).buffers, f)) + GoneSince(ops, k, f)
    decreases |ops|
  {
    var pre, op, f := ops[..|ops| - 1], ops[|ops| - 1], ops[k].filter;
    if k == |ops| - 1 {
      AcceptsWhatIsAdded(ops, k);
    } else {
      GivenNext(ops, k);
      Conserved(pre, k);
      RelevantStep(Exec(pre), op, f);
      Balance(multiset(Given(pre, k)), UnseenSince(pre, k, f), multiset(Relevant(Exec(pre).buffers, f)),
              GoneSince(pre, k, f), multiset(Arrival(op, f)), Unseen(Exec(pre), op, f),
              multiset(Relevant(Exec(ops).buffers, f)), Gone(Exec(pre), op, f));
      assert multiset(Given(ops, k)) == multiset(Given(pre, k)) + multiset(Arrival(op, f));
    }
  }

  lemma Balance(given: multiset<nat>, unseen: multiset<nat>, now: multiset<nat>, gone: multiset<nat>,
      arrival: multiset<nat>, carved: multiset<nat>, now': multiset<nat>, left: multiset<nat>)
    requires given + unseen == now + gone && now' + left == now + arrival + carved
    ensures (given + arrival) + (unseen + carved) == now' + (gone + left)
  {
    forall x ensures ((given + arrival) + (unseen + carved))[x] == (now' + (gone + left))[x] {
      assert (given + unseen)[x] == (now + gone)[x];
      assert (now' + left)[x] == (now + arrival + carved)[x];
    }
  }

  /** So the two agree if and only if what was carved is what was published on its own or cleared. */
  lemma GivenIsCached(ops: seq<Op>, k: nat)
    requires SubscribedSince(ops, k) && AllCarry(ops[k + 1..], ops[k].filter)
    ensures var f := ops[k].filter;
            multiset(Given(ops, k)) == multiset(Relevant(Exec(ops).buffers, f)) <==>
            UnseenSince(ops, k, f) == GoneSince(ops, k, f)
  {
    Conserved(ops, k);
    SumsEqual(multiset(Given(ops, k)), UnseenSince(ops, k, ops[k].filter),
              multiset(Relevant(Exec(ops).buffers, ops[k].filter)), GoneSince(ops, k, ops[k].filter));
  }

  lemma SumsEqual(a: multiset<nat>, b: multiset<nat>, c: multiset<nat>, d: multiset<nat>)
    requires a + b == c + d
    ensures a == c <==> b == d
  {
    assert a == (a + b) - b && c == (c + d) - d;
    assert b == (a + b) - a && d == (c + d) - c;
  }

  /** Some entry is of the heap and matched by the filter. */
  ghost predicate Touches(entries: seq<Cached>, heap: HeapT, f: Filter) {
    exists i :: 0 <= i < |entries| && entries[i].heap == heap && f(entries[i].ident)
  }

  lemma TouchesLast(entries: seq<Cached>, heap: HeapT, f: Filter)
    requires entries != []
    ensures var n := |entries| - 1;
            Touches(entries, heap, f) <==>
            Touches(entries[..n], heap, f) || (entries[n].heap == heap && f(entries[n].ident))
  {
    assert entries == entries[..|entries| - 1] + [entries[|entries| - 1]];
  }

  /** A carve that changes a cached heap the filter matches. */
  ghost predicate CarveHits(s: State, op: Op, f: Filter) {
    op.Carve? && Touches(s.buffers, op.heap, f)
  }

  /** Some carve after call `k` changed a cached heap that the subscription's filter matches. */
  ghost predicate CarvedLate(ops: seq<Op>, k: nat)
    requires k < |ops| && ops[k].Subscribe?
  {
    var n := |ops| - 1;
    k < n && (CarvedLate(ops[..n], k) || CarveHits(Exec(ops[..n]), ops[n], ops[k].filter))
  }

  lemma RelevantAppend(entries: seq<Cached>, e: Cached, f: Filter)
    ensures Relevant(entries + [e], f) == Relevant(entries, f) + if f(e.ident) then e.blocks else []
  {
    assert (entries + [e])[..|entries|] == entries;
  }

  lemma {:induction false} CarvedRelevant(entries: seq<Cached>, heap: HeapT, block: nat, f: Filter)
    ensures var now, later := Relevant(entries, f), Relevant(Carved(entries, heap, block), f);
            && |now| <= |later|
            && (Touches(entries, heap, f) <==> |now| < |later|)
            && (|now| == |later| ==> now == later)
  {
    if entries != [] {
      var n := |entries| - 1;
      var e := entries[n];
      CarvedRelevant(entries[..n], heap, block, f);
      TouchesLast(entries, heap, f);
      RelevantAppend(Carved(entries[..n], heap, block),
                     if e.heap == heap then e.(blocks := e.blocks + [block]) else e, f);
    }
  }

  lemma {:induction false} GivenSoFar(ops: seq<Op>, k: nat)
    requires SubscribedSince(ops, k) && AllCarry(ops[k + 1..], ops[k].filter)
    requires forall j :: k < j < |ops| ==>
               !ops[j].Clear? && (ops[j].PublishOne? ==> Arrival(ops[j], ops[k].filter) == [])
    ensures var now := Relevant(Exec(ops).buffers, ops[k].filter);
            && |Given(ops, k)| <= |now|
            && (CarvedLate(ops, k) <==> |Given(ops, k)| < |now|)
            && (|Given(ops, k)| == |now| ==> Given(ops, k) == now)
    decreases |ops|
  {
    var pre, op := ops[..|ops| - 1], ops[|ops| - 1];
    if k == |ops| - 1 {
      assert pre == ops[..k];
      AcceptsWhatIsAdded(ops, k);
    } else {
      GivenNext(ops, k);
      GivenSoFar(pre, k);
      GivenStep(Exec(pre), op, ops[k].filter);
    }
  }

  /** How one more call changes what a query would return. */
  lemma GivenStep(s: State, op: Op, f: Filter)
    requires !op.Clear?
    ensures var now, now' := Relevant(s.buffers, f), Relevant(Step(s, op).buffers, f);
            if op.Add? then now' == now + Arrival(op, f)
            else if CarveHits(s, op, f) then |now| < |now'|
            else now' == now
  {
    if op.Carve? {
      CarvedRelevant(s.buffers, op.heap, op.block, f);
    } else if op.Add? {
      assert (s.buffers + [op.entry])[..|s.buffers|] == s.buffers;
    }
  }

  /** When nothing that matches was cleared or published on its own since, a subscription has been
      given exactly what `findRelevant` returns now, in the same order, if and only if no matching
      cached heap was carved. */
  lemma GivenIsRelevant(ops: seq<Op>, k: nat)
    requires SubscribedSince(ops, k) && AllCarry(ops[k + 1..], ops[k].filter)
    requires forall j :: k < j < |ops| ==>
               !ops[j].Clear? && (ops[j].PublishOne? ==> Arrival(ops[j], ops[k].filter) == [])
    ensures Given(ops, k) == Relevant(Exec(ops).buffers, ops[k].filter) <==> !CarvedLate(ops, k)
  {
    GivenSoFar(ops, k);
  }

  /** After unsubscribing an acceptor, none of its subscriptions is in the list. */
  lemma Unsubscribed(ops: seq<Op>, acceptor: nat)
    ensures var s, s' := Exec(ops), Exec(ops + [Unsubscribe(acceptor)]);
            forall x :: x in s'.subscriptions <==> x in s.subscriptions && x.acceptor != acceptor
  {
    TicketsDistinct(ops);
    assert (ops + [Unsubscribe(acceptor)])[..|ops|] == ops;
    WithoutOrdered(Exec(ops).subscriptions, acceptor, Exec(ops).issued);
  }

  // ---------- clearing ----------

  function AndNot(g: Filter, f: Filter): Filter {
    u => g(u) && !f(u)
  }

  /** After clearing `f`, a query sees exactly what `g and not f` saw before. */
  lemma {:induction false} ClearedRelevant(entries: seq<Cached>, f: Filter, g: Filter)
    ensures Relevant(Rejected(entries, f), g) == Relevant(entries, AndNot(g, f))
  {
    if entries != [] {
      var n := |entries| - 1;
      ClearedRelevant(entries[..n], f, g);
      var before, u := Rejected(entries[..n], f), entries[n].ident;
      assert AndNot(g, f)(u) == (g(u) && !f(u));
      if f(u) {
        assert Rejected(entries, f) == before;
      } else {
        assert Rejected(entries, f) == before + [entries[n]];
        assert (before + [entries[n]])[..|before|] == before;
      }
    }
  }
}
