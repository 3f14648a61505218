/**
 Who is called: every delivery goes to the acceptor of the subscription it is made for, so what an
 acceptor receives over a run is, buffer for buffer, what its own subscriptions were due.
*/
module Acceptors {
  import opened Cache

  // ---------- one publish ----------

  /** The subscription that a delivery is made for. */
  predicate For(d: Delivery, sub: Subscription, ids: Idents, b: nat) {
    sub.filter(ids(b)) && d.ticket == sub.ticket && d.acceptor == sub.acceptor && d.buffer == b
  }

  /** A publish calls the acceptor of each subscription whose filter accepts the buffer, with the buffer,
      in the order of the subscriptions, and nobody else. */
  lemma {:induction false} PublishCalls(subs: seq<Subscription>, ids: Idents, b: nat, issued: nat)
    requires Ordered(subs, issued)
    ensures forall sub :: sub in subs && sub.filter(ids(b)) ==>
                            Delivery(sub.ticket, sub.acceptor, b) in Publish(subs, ids, b)
    ensures forall d :: d in Publish(subs, ids, b) ==> exists sub :: sub in subs && For(d, sub, ids, b)
    ensures forall i, j :: 0 <= i < j < |Publish(subs, ids, b)| ==>
                             Publish(subs, ids, b)[i].ticket < Publish(subs, ids, b)[j].ticket
  {
    if subs != [] {
      var n := |subs| - 1;
      var front, last := Publish(subs[..n], ids, b), subs[n];
      PublishCalls(subs[..n], ids, b, issued);
      assert subs == subs[..n] + [last];
      forall d | d in Publish(subs, ids, b) ensures exists sub :: sub in subs && For(d, sub, ids, b) {
        if d in front {
          var sub :| sub in subs[..n] && For(d, sub, ids, b);
          assert sub in subs;
        } else {
          assert For(d, last, ids, b);
        }
      }
      forall i | 0 <= i < |front| ensures front[i].ticket < last.ticket {
        assert front[i] in front;
        var sub :| sub in subs[..n] && For(front[i], sub, ids, b);
      }
    }
  }

  // ---------- over a run ----------

  /** The acceptors of all subscriptions ever made, by ticket. */
  function Owners(ops: seq<Op>): seq<nat> {
    if ops == [] then []
    else
      var op := ops[|ops| - 1];
      Owners(ops[..|ops| - 1]) + if op.Subscribe? then [op.acceptor] else []
  }

  /** The subscriptions are known by their tickets. */
  ghost predicate Owned(subs: seq<Subscription>, owners: seq<nat>) {
    forall sub :: sub in subs ==> sub.ticket < |owners| && owners[sub.ticket] == sub.acceptor
  }

  /** Each delivery went to the owner of its ticket. */
  ghost predicate ToOwners(sent: seq<Delivery>, owners: seq<nat>) {
    forall d :: d in sent ==> d.ticket < |owners| && owners[d.ticket] == d.acceptor
  }

  lemma PublishToOwners(subs: seq<Subscription>, ids: Idents, b: nat, issued: nat, owners: seq<nat>)
    requires Ordered(subs, issued) && Owned(subs, owners)
    ensures ToOwners(Publish(subs, ids, b), owners)
  {
    PublishCalls(subs, ids, b, issued);
    forall d | d in Publish(subs, ids, b) ensures d.ticket < |owners| && owners[d.ticket] == d.acceptor {
      var sub :| sub in subs && For(d, sub, ids, b);
    }
  }

  lemma {:induction false} PublishAllToOwners(subs: seq<Subscription>, ids: Idents, blocks: seq<nat>, issued: nat,
      owners: seq<nat>)
    requires Ordered(subs, issued) && Owned(subs, owners)
    ensures ToOwners(PublishAll(subs, ids, blocks), owners)
  {
    if blocks != [] {
      var n := |blocks| - 1;
      PublishAllToOwners(subs, ids, blocks[..n], issued, owners);
      PublishToOwners(subs, ids, blocks[n], issued, owners);
    }
  }

  lemma StepToOwners(s: State, op: Op, owners: seq<nat>)
    requires Ordered(s.subscriptions, s.issued) && Owned(s.subscriptions, owners) && ToOwners(s.sent, owners)
    requires |owners| == s.issued
    ensures var owners' := owners + if op.Subscribe? then [op.acceptor] else [];
            && Owned(Step(s, op).subscriptions, owners') && ToOwners(Step(s, op).sent, owners')
            && |owners'| == Step(s, op).issued
  {
    match op
    case Add(e, ids) => PublishAllToOwners(s.subscriptions, ids, e.blocks, s.issued, owners);
    case PublishOne(b, ids) => PublishToOwners(s.subscriptions, ids, b, s.issued, owners);
    case Unsubscribe(a) => WithoutOrdered(s.subscriptions, a, s.issued);
    case _ =>
  }

  /** Over every run, each call of an acceptor was made for a subscription of its own. */
  lemma {:induction false} CallsOwners(ops: seq<Op>)
    ensures var s := Exec(ops);
            ToOwners(s.sent, Owners(ops)) && Owned(s.subscriptions, Owners(ops)) && |Owners(ops)| == s.issued
  {
    if ops != [] {
      var pre := ops[..|ops| - 1];
      CallsOwners(pre);
      TicketsDistinct(pre);
      StepToOwners(Exec(pre), ops[|ops| - 1], Owners(pre));
    }
  }

  /** The ticket of the subscription made by call `k` is its acceptor's. */
  lemma {:induction false} OwnerOf(ops: seq<Op>, k: nat)
    requires k < |ops| && ops[k].Subscribe?
    ensures var t := Made(ops, k).ticket; t < |Owners(ops)| && Owners(ops)[t] == ops[k].acceptor
    decreases |ops|
  {
    var pre := ops[..|ops| - 1];
    if k < |pre| {
      assert pre[..k] == ops[..k];
      OwnerOf(pre, k);
    } else {
      CallsOwners(pre);
      assert ops[..k] == pre;
    }
  }

  /** Every delivery that carries the ticket of a subscription went to the acceptor that made it. */
  lemma DeliveredToMaker(ops: seq<Op>, k: nat, d: Delivery)
    requires k < |ops| && ops[k].Subscribe? && d in Exec(ops).sent && d.ticket == Made(ops, k).ticket
    ensures d.acceptor == ops[k].acceptor
  {
    CallsOwners(ops);
    OwnerOf(ops, k);
  }

  // ---------- what an acceptor receives ----------

  /** The buffers an acceptor was called with, in order. */
  function Received(sent: seq<Delivery>, acceptor: nat): seq<nat> {
    if sent == [] then []
    else
      var n := |sent| - 1;
      Received(sent[..n], acceptor) + if sent[n].acceptor == acceptor then [sent[n].buffer] else []
  }

  /** How often buffer `b` was accepted on the first `n` tickets that are this acceptor's. */
  function OnTickets(sent: seq<Delivery>, owners: seq<nat>, acceptor: nat, b: nat, n: nat): nat
    requires n <= |owners|
  {
    if n == 0 then 0
    else
      OnTickets(sent, owners, acceptor, b, n - 1) +
      if owners[n - 1] == acceptor then multiset(Accepted(sent, n - 1))[b] else 0
  }

  lemma AcceptedNext(sent: seq<Delivery>, d: Delivery, t: nat, b: nat)
    ensures multiset(Accepted(sent + [d], t))[b] ==
            multiset(Accepted(sent, t))[b] + if d.ticket == t && d.buffer == b then 1 else 0
  {
    assert (sent + [d])[..|sent|] == sent;
  }

  lemma {:induction false} OnTicketsNext(sent: seq<Delivery>, d: Delivery, owners: seq<nat>, acceptor: nat, b: nat,
      n: nat)
    requires n <= |owners| && d.ticket < |owners|
    ensures OnTickets(sent + [d], owners, acceptor, b, n) ==
            OnTickets(sent, owners, acceptor, b, n) +
            if d.ticket < n && owners[d.ticket] == acceptor && d.buffer == b then 1 else 0
  {
    if n > 0 {
      OnTicketsNext(sent, d, owners, acceptor, b, n - 1);
      AcceptedNext(sent, d, n - 1, b);
    }
  }

  lemma {:induction false} NothingOnTickets(owners: seq<nat>, acceptor: nat, b: nat, n: nat)
    requires n <= |owners|
    ensures OnTickets([], owners, acceptor, b, n) == 0
  {
    if n > 0 {
      NothingOnTickets(owners, acceptor, b, n - 1);
    }
  }

  lemma {:induction false} ReceivedOnTickets(sent: seq<Delivery>, owners: seq<nat>, acceptor: nat, b: nat)
    requires ToOwners(sent, owners)
    ensures multiset(Received(sent, acceptor))[b] == OnTickets(sent, owners, acceptor, b, |owners|)
  {
    if sent == [] {
      NothingOnTickets(owners, acceptor, b, |owners|);
    } else {
      var before, d := sent[..|sent| - 1], sent[|sent| - 1];
      assert sent == before + [d];
      ReceivedOnTickets(before, owners, acceptor, b);
      OnTicketsNext(before, d, owners, acceptor, b, |owners|);
    }
  }

  // ---------- what its subscriptions were due ----------

  /** Where the subscription made by call `k` ends: at the first call after it that unsubscribes its
      acceptor, or at the end of the run. */
  function Until(ops: seq<Op>, k: nat): (n: nat)
    requires k < |ops| && ops[k].Subscribe?
    ensures k < n <= |ops| && (n < |ops| ==> ops[n] == Unsubscribe(ops[k].acceptor))
    ensures forall j :: k < j < n ==> ops[j] != Unsubscribe(ops[k].acceptor)
  {
    EndFrom(ops, ops[k].acceptor, k + 1)
  }

  function EndFrom(ops: seq<Op>, acceptor: nat, k: nat): (n: nat)
    requires k <= |ops|
    ensures k <= n <= |ops| && (n < |ops| ==> ops[n] == Unsubscribe(acceptor))
    ensures forall j :: k <= j < n ==> ops[j] != Unsubscribe(acceptor)
    decreases |ops| - k
  {
    if k == |ops| || ops[k] == Unsubscribe(acceptor) then k else EndFrom(ops, acceptor, k + 1)
  }

  /** The calls during which it lasts. */
  function During(ops: seq<Op>, k: nat): seq<Op>
    requires k < |ops| && ops[k].Subscribe?
  {
    ops[k + 1..Until(ops, k)]
  }

  ghost predicate NoTicket(subs: seq<Subscription>, t: nat) {
    forall i :: 0 <= i < |subs| ==> subs[i].ticket != t
  }

  lemma StaysGone(s: State, op: Op, t: nat)
    requires Ordered(s.subscriptions, s.issued) && t < s.issued && NoTicket(s.subscriptions, t)
    ensures t < Step(s, op).issued && NoTicket(Step(s, op).subscriptions, t)
  {
    if op.Unsubscribe? {
      WithoutOrdered(s.subscriptions, op.acceptor, s.issued);
      forall i | 0 <= i < |Without(s.subscriptions, op.acceptor)|
        ensures Without(s.subscriptions, op.acceptor)[i].ticket != t
      {
        assert Without(s.subscriptions, op.acceptor)[i] in s.subscriptions;
      }
    }
  }

  lemma GoesWithAcceptor(subs: seq<Subscription>, issued: nat, sub: Subscription)
    requires Ordered(subs, issued) && sub in subs
    ensures NoTicket(Without(subs, sub.acceptor), sub.ticket)
  {
    var left := Without(subs, sub.acceptor);
    WithoutOrdered(subs, sub.acceptor, issued);
    forall i | 0 <= i < |left| ensures left[i].ticket != sub.ticket {
      assert left[i] in subs && left[i].acceptor != sub.acceptor;
    }
  }

  /** A subscription before the last call. */
  lemma UntilBefore(ops: seq<Op>, k: nat)
    requires k < |ops| - 1 && ops[k].Subscribe?
    ensures var pre := ops[..|ops| - 1];
            && Made(pre, k) == Made(ops, k)
            && Until(pre, k) == (if Until(ops, k) < |pre| then Until(ops, k) else |pre|)
            && (Until(ops, k) <= |pre| ==> During(pre, k) == During(ops, k))
  {
    assert ops[..|ops| - 1][..k] == ops[..k];
  }

  /** Once its acceptor has unsubscribed, no subscription in the list has its ticket. */
  lemma {:induction false} TicketGone(ops: seq<Op>, k: nat)
    requires k < |ops| && ops[k].Subscribe? && Until(ops, k) < |ops|
    ensures Made(ops, k).ticket < Exec(ops).issued && NoTicket(Exec(ops).subscriptions, Made(ops, k).ticket)
    decreases |ops|
  {
    var pre, op, sub := ops[..|ops| - 1], ops[|ops| - 1], Made(ops, k);
    var s := Exec(pre);
    UntilBefore(ops, k);
    TicketsDistinct(pre);
    if Until(ops, k) < |pre| {
      TicketGone(pre, k);
      StaysGone(s, op, sub.ticket);
    } else {
      StaysSubscribed(pre, k);
      GoesWithAcceptor(s.subscriptions, s.issued, sub);
    }
  }

  lemma StepElsewhere(s: State, op: Op, t: nat)
    requires NoTicket(s.subscriptions, t)
    ensures Accepted(Step(s, op).sent, t) == Accepted(s.sent, t)
  {
    match op
    case Add(e, ids) =>
      NeverPublished(s.subscriptions, ids, e.blocks, t);
      AcceptedConcat(s.sent, PublishAll(s.subscriptions, ids, e.blocks), t);
    case PublishOne(b, ids) =>
      PublishedElsewhere(s.subscriptions, ids, b, t);
      AcceptedConcat(s.sent, Publish(s.subscriptions, ids, b), t);
    case _ =>
  }

  /** A subscription accepts what arrives while it lasts, and nothing afterwards. */
  lemma {:induction false} AcceptsWhileItLasts(ops: seq<Op>, k: nat)
    requires k < |ops| && ops[k].Subscribe? && AllCarry(During(ops, k), ops[k].filter)
    ensures Accepted(Exec(ops).sent, Made(ops, k).ticket) == Arrivals(During(ops, k), ops[k].filter)
    decreases |ops|
  {
    var pre := ops[..|ops| - 1];
    if Until(ops, k) == |ops| {
      assert During(ops, k) == ops[k + 1..];
      AcceptsWhatIsAdded(ops, k);
    } else {
      UntilBefore(ops, k);
      AcceptsWhileItLasts(pre, k);
      if Until(ops, k) < |pre| {
        TicketGone(pre, k);
        StepElsewhere(Exec(pre), ops[|ops| - 1], Made(ops, k).ticket);
      }
    }
  }

  /** How often buffer `b` is due to the subscriptions that an acceptor made by the first `n` calls. */
  function Due(ops: seq<Op>, acceptor: nat, b: nat, n: nat): nat
    requires n <= |ops|
  {
    if n == 0 then 0
    else
      Due(ops, acceptor, b, n - 1) +
      if ops[n - 1].Subscribe? && ops[n - 1].acceptor == acceptor
      then multiset(Arrivals(During(ops, n - 1), ops[n - 1].filter))[b] else 0
  }

  /** Every entry added while a subscription of the acceptor lasts carries its identity. */
  ghost predicate OwnCarry(ops: seq<Op>, acceptor: nat) {
    forall k :: 0 <= k < |ops| && ops[k].Subscribe? && ops[k].acceptor == acceptor ==>
                  AllCarry(During(ops, k), ops[k].filter)
  }

  /** How many of the first `n` calls subscribed. */
  function Tickets(ops: seq<Op>, n: nat): nat
    requires n <= |ops|
  {
    if n == 0 then 0 else Tickets(ops, n - 1) + if ops[n - 1].Subscribe? then 1 else 0
  }

  /** Tickets count the subscriptions. */
  lemma {:induction false} TicketsIssued(ops: seq<Op>, n: nat)
    requires n <= |ops|
    ensures Exec(ops[..n]).issued == Tickets(ops, n)
  {
    if n > 0 {
      TicketsIssued(ops, n - 1);
      assert ops[..n][..n - 1] == ops[..n - 1];
    }
  }

  lemma {:induction false} DueOnTickets(ops: seq<Op>, acceptor: nat, b: nat, n: nat)
    requires n <= |ops| && OwnCarry(ops, acceptor)
    ensures Tickets(ops, n) <= |Owners(ops)|
    ensures OnTickets(Exec(ops).sent, Owners(ops), acceptor, b, Tickets(ops, n)) == Due(ops, acceptor, b, n)
  {
    if n > 0 {
      var k := n - 1;
      DueOnTickets(ops, acceptor, b, k);
      if ops[k].Subscribe? {
        TicketsIssued(ops, k);
        OwnerOf(ops, k);
        if ops[k].acceptor == acceptor {
          AcceptsWhileItLasts(ops, k);
        }
      }
    }
  }

  /** Over every run, an acceptor receives a buffer exactly as often as it arrives for a subscription of
      the acceptor's own, while that one lasts. */
  lemma ReceivesItsOwn(ops: seq<Op>, acceptor: nat, b: nat)
    requires OwnCarry(ops, acceptor)
    ensures multiset(Received(Exec(ops).sent, acceptor))[b] == Due(ops, acceptor, b, |ops|)
  {
    CallsOwners(ops);
    ReceivedOnTickets(Exec(ops).sent, Owners(ops), acceptor, b);
    DueOnTickets(ops, acceptor, b, |ops|);
    TicketsIssued(ops, |ops|);
    assert ops[..|ops|] == ops;
  }
}
