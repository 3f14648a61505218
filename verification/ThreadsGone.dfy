/**
 When `Application::removeThread` announces that no thread is left.  The source computes the count
 of remaining threads from what `std::remove` returns, but does not erase the tail that
 `std::remove` leaves behind; both forms are compared here.
*/
module ThreadsGone {
  import opened Lifecycle

  datatype Form = Erased | AsWritten

  /** What `std::remove` leaves: the elements kept, then the old contents past them. */
  function Compacted(v: seq<Tid>, t: Tid): seq<Tid>
  {
    WithoutShorter(v, t);
    Without(v, t) + v[|Without(v, t)|..]
  }

  lemma {:induction false} WithoutShorter(v: seq<Tid>, t: Tid)
    ensures |Without(v, t)| <= |v|
  {
    if v != [] {
      WithoutShorter(v[1..], t);
    }
  }

  lemma {:induction false} WithoutAppend(v: seq<Tid>, w: seq<Tid>, t: Tid)
    ensures Without(v + w, t) == Without(v, t) + Without(w, t)
  {
    if v == [] {
      assert v + w == w;
    } else {
      assert (v + w)[1..] == v[1..] + w;
      WithoutAppend(v[1..], w, t);
    }
  }

  lemma {:induction false} WithoutNone(v: seq<Tid>, t: Tid)
    ensures t !in v ==> Without(v, t) == v
    ensures Without(v, t) == [] <==> forall x :: x in v ==> x == t
    ensures t !in Without(v, t)
  {
    if v != [] {
      WithoutNone(v[1..], t);
      assert forall x :: x in v <==> x == v[0] || x in v[1..];
      if v[0] != t {
        assert v[0] in v && Without(v, t)[0] == v[0];
      }
    }
  }

  lemma {:induction false} WithoutOne(v: seq<Tid>, t: Tid)
    requires Distinct(v) && t in v
    ensures |Without(v, t)| == |v| - 1
  {
    if v[0] == t {
      WithoutNone(v[1..], t);
    } else {
      WithoutOne(v[1..], t);
    }
  }

  /** `std::remove` over a vector in place: it returns the end of what is kept. */
  method StdRemove(a: array<Tid>, t: Tid) returns (end: nat)
    modifies a
    ensures end == |Without(old(a[..]), t)|
    ensures a[..] == Compacted(old(a[..]), t)
  {
    ghost var v := a[..];
    end := 0;
    var j := 0;
    while j < a.Length
      invariant 0 <= end <= j <= a.Length
      invariant a[..end] == Without(v[..j], t)
      invariant a[end..] == v[end..]
    {
      assert v[..j + 1] == v[..j] + [v[j]];
      WithoutAppend(v[..j], [v[j]], t);
      assert a[end..][j - end] == v[end..][j - end];
      if a[j] != t {
        a[end] := a[j];
        end := end + 1;
      }
      j := j + 1;
    }
    assert v[..j] == v;
    assert a[..] == a[..end] + a[end..];
  }

  function Kept(form: Form, v: seq<Tid>, t: Tid): seq<Tid> {
    match form
    case Erased => Without(v, t)
    case AsWritten => Compacted(v, t)
  }

  /** Whether the `i`-th of a series of removals finds no thread left. */
  predicate FiresAt(form: Form, v: seq<Tid>, order: seq<Tid>, i: nat)
    requires i < |order|
    decreases i
  {
    if i == 0 then Without(v, order[0]) == []
    else FiresAt(form, Kept(form, v, order[0]), order[1..], i - 1)
  }

  ghost predicate SameThreads(v: seq<Tid>, order: seq<Tid>) {
    Distinct(v) && Distinct(order) && forall t :: t in v <==> t in order
  }

  lemma DropFirst(order: seq<Tid>)
    requires Distinct(order) && order != []
    ensures Distinct(order[1..])
    ensures forall t :: t in order[1..] <==> t in order && t != order[0]
  {
    assert forall t :: t in order <==> t == order[0] || t in order[1..];
  }

  /** With the tail erased, the end is announced at the last removal and at no other, whatever the
      order of removals. */
  lemma {:induction false} ErasedFires(v: seq<Tid>, order: seq<Tid>, i: nat)
    requires SameThreads(v, order) && i < |order|
    ensures FiresAt(Erased, v, order, i) <==> i == |order| - 1
    decreases i
  {
    DropFirst(order);
    if i == 0 {
      WithoutNone(v, order[0]);
      if |order| > 1 {
        assert order[1] in v;
      } else {
        assert forall t :: t in v ==> t == order[0];
      }
    } else {
      WithoutIs(v, order[0]);
      ErasedFires(Without(v, order[0]), order[1..], i - 1);
    }
  }

  function Copies(t: Tid, n: nat): seq<Tid> {
    seq(n, _ => t)
  }

  lemma LastOne(rest: seq<Tid>, last: Tid, n: nat)
    requires n > 0
    ensures var v := rest + Copies(last, n); v[|v| - 1..] == [last]
    ensures Copies(last, n) + [last] == Copies(last, n + 1)
  {}

  /** Removing one of `rest` from `rest` and then copies of `last` adds a copy. */
  lemma RestShrinks(rest: seq<Tid>, last: Tid, n: nat, t: Tid)
    requires Distinct(rest) && t in rest && t != last && n > 0
    ensures Compacted(rest + Copies(last, n), t) == Without(rest, t) + Copies(last, n + 1)
    ensures Without(rest + Copies(last, n), t) != []
  {
    var v := rest + Copies(last, n);
    WithoutAppend(rest, Copies(last, n), t);
    WithoutNone(Copies(last, n), t);
    WithoutOne(rest, t);
    assert Without(v, t) == Without(rest, t) + Copies(last, n);
    assert |Without(v, t)| == |v| - 1;
    LastOne(rest, last, n);
  }

  /** Removing `last` itself changes nothing. */
  lemma LastStays(rest: seq<Tid>, last: Tid, n: nat)
    requires last !in rest
    ensures Compacted(rest + Copies(last, n), last) == rest + Copies(last, n)
    ensures Without(rest + Copies(last, n), last) == rest
  {
    var v := rest + Copies(last, n);
    WithoutAppend(rest, Copies(last, n), last);
    WithoutNone(rest, last);
    WithoutNone(Copies(last, n), last);
    assert Without(v, last) == rest + [] == rest;
    assert v[|rest|..] == Copies(last, n);
  }

  /** As written, the vector is always the remaining other threads and then copies of the thread
      added last. */
  lemma {:induction false} TailFires(rest: seq<Tid>, last: Tid, n: nat, order: seq<Tid>, i: nat)
    requires Distinct(rest) && Distinct(order) && last !in rest && n > 0 && i < |order|
    requires forall t :: t in rest <==> t in order && t != last
    ensures FiresAt(AsWritten, rest + Copies(last, n), order, i) <==> i == |order| - 1 && order[i] == last
    decreases i
  {
    DropFirst(order);
    var t := order[0];
    if t == last {
      LastStays(rest, last, n);
    } else {
      RestShrinks(rest, last, n, t);
    }
    if i == 0 {
      if t == last && |order| > 1 {
        assert order[1] in rest;
      } else if t == last {
        assert forall x :: x !in rest;
        HasMember(rest);
      }
    } else if t == last {
      TailFires(rest, last, n, order[1..], i - 1);
    } else {
      WithoutIs(rest, t);
      TailFires(Without(rest, t), last, n + 1, order[1..], i - 1);
    }
  }

  /** As written, the end is announced if and only if the thread added last is removed last, and
      then at that removal only. */
  lemma WrittenFires(v: seq<Tid>, order: seq<Tid>, i: nat)
    requires SameThreads(v, order) && i < |order|
    ensures v != []
    ensures FiresAt(AsWritten, v, order, i) <==> i == |order| - 1 && order[i] == v[|v| - 1]
  {
    assert order[0] in v;
    var rest, last := v[..|v| - 1], v[|v| - 1];
    assert rest + Copies(last, 1) == v;
    assert forall t :: t in v <==> t in rest || t == last;
    TailFires(rest, last, 1, order, i);
  }
}
