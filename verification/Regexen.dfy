/**
 Replacing the captures of a regular-expression match, as regexen.h does it: all at once from the
 left (`iterate_impl::replace`), and one span at a time (`drumlin_regex::replace`).  Matching is a
 library call; a match is the list of the spans it captured, the whole match first.
*/
module Regexen {
  import opened Words
  import opened CString
  import StringList

  datatype Span = Span(position: nat, length: nat) {
    function End(): nat { position + length }
  }

  datatype Capture = Capture(span: Span, text: string)

  /** A string that fits a `size_t`. */
  predicate Fits(h: string) {
    |h| < TWO_TO_64
  }

  ghost predicate Inside(h: string, caps: seq<Capture>) {
    forall i :: 0 <= i < |caps| ==> caps[i].span.End() <= |h|
  }

  /** Each capture starts at or after the end of the one before. */
  ghost predicate OrderedFrom(caps: seq<Capture>, pos: nat) {
    caps == [] || (pos <= caps[0].span.position && OrderedFrom(caps[1..], caps[0].span.End()))
  }

  ghost predicate SpansInside(h: string, spans: seq<Span>) {
    forall i :: 0 <= i < |spans| ==> spans[i].End() <= |h|
  }

  /** No capture has been given a text of its own. */
  ghost predicate Untouched(h: string, caps: seq<Capture>)
    requires Inside(h, caps)
  {
    forall i :: 0 <= i < |caps| ==> caps[i].text == h[caps[i].span.position..caps[i].span.End()]
  }

  /** `substr(pos, count)`: the count is cut to what is there. */
  function Substr(h: string, pos: nat, count: nat): string
    requires pos <= |h|
  {
    if pos + count <= |h| then h[pos..pos + count] else h[pos..]
  }

  /** `position - pos` as the source computes it, with unsigned wrap-around: going back, the
      count reaches past the end of any string. */
  function Gap(position: nat, pos: nat): (g: nat)
    requires position < TWO_TO_64 && pos < TWO_TO_64
    ensures g < TWO_TO_64
  {
    if pos <= position then position - pos else TWO_TO_64 + position - pos
  }

  /** The cursor after the gap, forward or wrapped: it always lands on the capture. */
  function Landing(position: nat, pos: nat): (p: nat)
    requires position < TWO_TO_64 && pos < TWO_TO_64
    ensures p == position
  {
    var p := pos + Gap(position, pos);
    if p < TWO_TO_64 then p else p - TWO_TO_64
  }

  /** The loop of `iterate_impl::replace` from a capture on, and the rest of the haystack. */
  function Emit(h: string, caps: seq<Capture>, pos: nat): string
    requires Fits(h) && Inside(h, caps) && pos <= |h|
  {
    if caps == [] then h[pos..]
    else
      var s := caps[0].span;
      Substr(h, pos, Gap(s.position, pos)) + caps[0].text + Emit(h, caps[1..], s.End())
  }

  /** `iterate_impl::replace`: capture 0, the whole match, is skipped. */
  function ReplacedText(h: string, caps: seq<Capture>): string
    requires Fits(h) && Inside(h, caps)
  {
    Emit(h, if caps == [] then [] else caps[1..], 0)
  }

  lemma EmitStep(h: string, caps: seq<Capture>, pos: nat)
    requires Fits(h) && Inside(h, caps) && pos <= |h| && caps != []
    ensures Emit(h, caps, pos) ==
            (if pos <= caps[0].span.position then h[pos..caps[0].span.position] else h[pos..]) +
            caps[0].text + Emit(h, caps[1..], caps[0].span.End())
  {
    assert caps[0].span.End() <= |h|;
    GapText(h, pos, caps[0].span.position);
  }

  lemma GapText(h: string, pos: nat, position: nat)
    requires Fits(h) && pos <= |h| && position <= |h|
    ensures Substr(h, pos, Gap(position, pos)) == if pos <= position then h[pos..position] else h[pos..]
  {}

  // ---------- no substitution ----------

  lemma {:induction false} UntouchedEmit(h: string, caps: seq<Capture>, pos: nat)
    requires Fits(h) && Inside(h, caps) && pos <= |h| && Untouched(h, caps)
    ensures |Emit(h, caps, pos)| >= |h| - pos
    ensures OrderedFrom(caps, pos) ==> Emit(h, caps, pos) == h[pos..]
    ensures !OrderedFrom(caps, pos) ==> |Emit(h, caps, pos)| > |h| - pos
  {
    if caps != [] {
      var s := caps[0].span;
      EmitStep(h, caps, pos);
      assert |Emit(h, caps, pos)| == (if pos <= s.position then s.position - pos else |h| - pos) +
                                     s.length + |Emit(h, caps[1..], s.End())|;
      UntouchedEmit(h, caps[1..], s.End());
      if OrderedFrom(caps, pos) {
        assert h[pos..s.position] + h[s.position..s.End()] + h[s.End()..] == h[pos..];
      }
    }
  }

  /** With nothing substituted, `replace` returns the haystack if and only if the captures are in
      order and do not overlap; nested groups, for one, repeat text. */
  lemma UnchangedExactly(h: string, caps: seq<Capture>)
    requires Fits(h) && Inside(h, caps) && Untouched(h, caps)
    ensures ReplacedText(h, caps) == h <==> caps == [] || OrderedFrom(caps[1..], 0)
  {
    var cs := if caps == [] then [] else caps[1..];
    UntouchedEmit(h, cs, 0);
    assert h[0..] == h;
  }

  // ---------- one span at a time ----------

  /** `drumlin_regex::replace`: the tail is taken as a C string. */
  function ReplaceOne(h: string, s: Span, subst: string): string
    requires s.End() <= |h|
  {
    StringList.JoinWith([h[..s.position], subst, CStr(h[s.End()..])], [])
  }

  lemma ReplaceOneIs(h: string, s: Span, subst: string)
    requires s.End() <= |h|
    ensures ReplaceOne(h, s, subst) == h[..s.position] + subst + CStr(h[s.End()..])
  {
    var list := [h[..s.position], subst, CStr(h[s.End()..])];
    assert list[1..] == [list[1], list[2]] && list[1..][1..] == [list[2]];
    StringList.JoinCons(list, []);
    StringList.JoinCons(list[1..], []);
    assert list[0] + ([] + (list[1] + ([] + list[2]))) == list[0] + list[1] + list[2];
  }

  /** Every capture replaced on its own, the rightmost first so that positions stay good. */
  function RightToLeft(h: string, caps: seq<Capture>): (r: string)
    requires Inside(h, caps) && OrderedFrom(caps, 0)
    ensures caps == [] ==> r == h
    ensures caps != [] ==> |r| >= caps[0].span.position
  {
    if caps == [] then h
    else
      OrderedTail(caps);
      assert OrderedFrom(caps[1..], caps[0].span.End());
      assert caps[1..] != [] ==> caps[0].span.End() <= caps[1..][0].span.position;
      var rest := RightToLeft(h, caps[1..]);
      ReplaceOneIs(rest, caps[0].span, caps[0].text);
      ReplaceOne(rest, caps[0].span, caps[0].text)
  }

  lemma OrderedTail(caps: seq<Capture>)
    requires caps != [] && OrderedFrom(caps, 0)
    ensures OrderedFrom(caps[1..], 0)
  {}

  lemma Around(h: string, p: nat, e: nat, q: nat, text: string, tail: string)
    requires p <= e <= q <= |h|
    ensures (h[..q] + text + tail)[..p] == h[..p]
    ensures (h[..q] + text + tail)[e..] == h[e..q] + text + tail
  {}

  /** One at a time, everything after the first capture is cut at its first NUL byte. */
  lemma {:induction false} RightToLeftIs(h: string, caps: seq<Capture>)
    requires Fits(h) && Inside(h, caps) && OrderedFrom(caps, 0) && caps != []
    ensures var c := caps[0];
            RightToLeft(h, caps) == h[..c.span.position] + c.text + CStr(Emit(h, caps[1..], c.span.End()))
  {
    var c, cs := caps[0], caps[1..];
    OrderedTail(caps);
    var rest := RightToLeft(h, cs);
    ReplaceOneIs(rest, c.span, c.text);
    if cs != [] {
      RightToLeftIs(h, cs);
      var d, e := cs[0], c.span.End();
      var tail := Emit(h, cs[1..], d.span.End());
      var mid := h[e..d.span.position] + d.text;
      Around(h, c.span.position, e, d.span.position, d.text, CStr(tail));
      CStrConcat(mid, tail);
      EmitStep(h, cs, e);
    }
  }

  /** Whether one of these captures covers the `k`-th byte. */
  ghost predicate Covered(caps: seq<Capture>, k: nat) {
    exists i :: 0 <= i < |caps| && caps[i].span.position <= k < caps[i].span.End()
  }

  /** No text given for these captures contains a NUL byte, and neither does what they leave of the
      haystack from `pos` on. */
  ghost predicate NoNulFrom(h: string, caps: seq<Capture>, pos: nat) {
    && (forall i :: 0 <= i < |caps| ==> NulFree(caps[i].text))
    && (forall k :: pos <= k < |h| && !Covered(caps, k) ==> h[k] != NUL)
  }

  lemma {:induction false} OrderedAfter(caps: seq<Capture>, pos: nat)
    requires OrderedFrom(caps, pos)
    ensures forall i :: 0 <= i < |caps| ==> pos <= caps[i].span.position
  {
    if caps != [] {
      OrderedAfter(caps[1..], caps[0].span.End());
      forall i | 1 <= i < |caps| ensures pos <= caps[i].span.position {
        assert caps[1..][i - 1] == caps[i];
      }
    }
  }

  lemma CoveredTail(caps: seq<Capture>, k: nat)
    requires caps != []
    ensures Covered(caps, k) <==> caps[0].span.position <= k < caps[0].span.End() || Covered(caps[1..], k)
  {
    if Covered(caps, k) {
      var i :| 0 <= i < |caps| && caps[i].span.position <= k < caps[i].span.End();
      assert i > 0 ==> caps[1..][i - 1] == caps[i];
    }
    if Covered(caps[1..], k) {
      var i :| 0 <= i < |caps[1..]| && caps[1..][i].span.position <= k < caps[1..][i].span.End();
      assert caps[i + 1] == caps[1..][i];
    }
  }

  /** What the captures leave, gap by gap. */
  lemma NoNulNext(h: string, caps: seq<Capture>, pos: nat)
    requires Inside(h, caps) && pos <= |h| && OrderedFrom(caps, pos) && caps != []
    ensures var s := caps[0].span;
            NoNulFrom(h, caps, pos) <==>
            NulFree(h[pos..s.position]) && NulFree(caps[0].text) && NoNulFrom(h, caps[1..], s.End())
  {
    var s := caps[0].span;
    OrderedAfter(caps[1..], s.End());
    forall k | pos <= k < |h|
      ensures Covered(caps, k) <==> s.position <= k && (k < s.End() || Covered(caps[1..], k))
    {
      CoveredTail(caps, k);
    }
    assert forall k :: pos <= k < s.position ==> h[pos..s.position][k - pos] == h[k];
    assert forall i :: 1 <= i < |caps| ==> caps[1..][i - 1] == caps[i];
  }

  lemma NulFreeParts(a: string, b: string, c: string)
    ensures NulFree(a + b + c) <==> NulFree(a) && NulFree(b) && NulFree(c)
  {}

  /** What is written from `pos` on has no NUL byte if and only if its parts have none. */
  lemma {:induction false} EmitNulFree(h: string, caps: seq<Capture>, pos: nat)
    requires Fits(h) && Inside(h, caps) && pos <= |h| && OrderedFrom(caps, pos)
    ensures NulFree(Emit(h, caps, pos)) <==> NoNulFrom(h, caps, pos)
  {
    if caps == [] {
      assert forall k :: pos <= k < |h| ==> h[pos..][k - pos] == h[k] && !Covered(caps, k);
    } else {
      var s := caps[0].span;
      EmitStep(h, caps, pos);
      EmitNulFree(h, caps[1..], s.End());
      NulFreeParts(h[pos..s.position], caps[0].text, Emit(h, caps[1..], s.End()));
      NoNulNext(h, caps, pos);
    }
  }

  /** Replacing all at once from the left agrees with replacing one span at a time from the right
      if and only if no later text, and nothing the captures leave of the haystack after the first
      of them, contains a NUL byte. */
  lemma AtOnceExactly(h: string, caps: seq<Capture>)
    requires Fits(h) && Inside(h, caps) && caps != [] && OrderedFrom(caps[1..], 0)
    ensures ReplacedText(h, caps) == RightToLeft(h, caps[1..]) <==>
            |caps| == 1 || NoNulFrom(h, caps[2..], caps[1].span.End())
  {
    var cs := caps[1..];
    assert h[0..] == h;
    if cs != [] {
      assert cs[1..] == caps[2..];
      RightToLeftIs(h, cs);
      EmitStep(h, cs, 0);
      var tail := Emit(h, cs[1..], cs[0].span.End());
      SameTail(h[..cs[0].span.position] + cs[0].text, tail);
      EmitNulFree(h, cs[1..], cs[0].span.End());
    }
  }

  lemma SameTail(head: string, tail: string)
    ensures head + tail == head + CStr(tail) <==> NulFree(tail)
  {
    CStrWhole(tail);
    assert (head + tail)[|head|..] == tail && (head + CStr(tail))[|head|..] == CStr(tail);
  }

  // ---------- substitutions ----------

  datatype Substitution = Substitution(n: nat, text: string)

  /** The captures after `operator()` on a match. */
  function Fresh(h: string, spans: seq<Span>): (r: seq<Capture>)
    requires SpansInside(h, spans)
    ensures |r| == |spans|
    ensures Inside(h, r) && Untouched(h, r)
  {
    seq(|spans|, i requires 0 <= i < |spans| => Capture(spans[i], h[spans[i].position..spans[i].End()]))
  }

  function Substituted(caps: seq<Capture>, subs: seq<Substitution>): (r: seq<Capture>)
    requires forall s :: s in subs ==> s.n < |caps|
    ensures |r| == |caps|
  {
    if subs == [] then caps
    else
      var k := |subs| - 1;
      var r := Substituted(caps, subs[..k]);
      r[subs[k].n := r[subs[k].n].(text := subs[k].text)]
  }

  /** The text a capture ends up with: the last one given for it, or what it matched. */
  function LastText(subs: seq<Substitution>, n: nat, matched: string): string {
    if subs == [] then matched
    else if subs[|subs| - 1].n == n then subs[|subs| - 1].text
    else LastText(subs[..|subs| - 1], n, matched)
  }

  lemma {:induction false} SubstitutedLast(caps: seq<Capture>, subs: seq<Substitution>)
    requires forall s :: s in subs ==> s.n < |caps|
    ensures forall i :: 0 <= i < |caps| ==>
              Substituted(caps, subs)[i] == Capture(caps[i].span, LastText(subs, i, caps[i].text))
  {
    if subs != [] {
      SubstitutedLast(caps, subs[..|subs| - 1]);
    }
  }

  lemma {:induction false} SameSpansOrdered(a: seq<Capture>, b: seq<Capture>, pos: nat)
    requires |a| == |b| && forall i :: 0 <= i < |a| ==> a[i].span == b[i].span
    ensures OrderedFrom(a, pos) <==> OrderedFrom(b, pos)
  {
    if a != [] {
      SameSpansOrdered(a[1..], b[1..], a[0].span.End());
    }
  }

  /** The whole contract: after a match with ordered, disjoint captures and any sequence of
      `substitute` calls, each capture has the last text given for it, and `replace` is the
      right-to-left replacement of each by that text if and only if no NUL byte is left, or put in,
      after the first. */
  lemma SubstituteThenReplace(h: string, spans: seq<Span>, subs: seq<Substitution>)
    requires Fits(h) && spans != [] && SpansInside(h, spans)
    requires forall s :: s in subs ==> s.n < |spans|
    requires OrderedFrom(Fresh(h, spans)[1..], 0)
    ensures var caps := Substituted(Fresh(h, spans), subs);
            && Inside(h, caps) && OrderedFrom(caps[1..], 0)
            && (forall i :: 0 <= i < |spans| ==>
                  caps[i] == Capture(spans[i], LastText(subs, i, h[spans[i].position..spans[i].End()])))
            && (ReplacedText(h, caps) == RightToLeft(h, caps[1..]) <==>
                |spans| == 1 || NoNulFrom(h, caps[2..], spans[1].End()))
  {
    var matched := Fresh(h, spans);
    var caps := Substituted(matched, subs);
    SubstitutedLast(matched, subs);
    SameSpansOrdered(matched[1..], caps[1..], 0);
    AtOnceExactly(h, caps);
  }

  /** The captures from the `i`-th on. */
  function From(caps: seq<Capture>, i: nat): seq<Capture> {
    if i < |caps| then caps[i..] else []
  }

  /** What has been written so far is right, up to capture `i`. */
  ghost predicate Written(h: string, caps: seq<Capture>, i: nat, pos: nat, r: string) {
    && Fits(h) && Inside(h, caps) && pos <= |h|
    && ReplacedText(h, caps) == r + Emit(h, From(caps, i), pos)
  }

  lemma WrittenNext(h: string, caps: seq<Capture>, i: nat, pos: nat, r: string)
    requires i < |caps| && Written(h, caps, i, pos, r)
    ensures var s := caps[i].span;
            Written(h, caps, i + 1, Landing(s.position, pos) + s.length,
                    r + Substr(h, pos, Gap(s.position, pos)) + caps[i].text)
  {
    assert From(caps, i)[1..] == From(caps, i + 1);
    var s := caps[i].span;
    StringList.Regroup(r, Substr(h, pos, Gap(s.position, pos)), caps[i].text, Emit(h, From(caps, i + 1), s.End()));
  }

  /** `iterate_impl`: a haystack and the captures of its matches. */
  class IterateImpl {
    const haystack: string
    var captures: seq<Capture>

    ghost predicate Valid()
      reads this
    {
      Fits(haystack) && Inside(haystack, captures)
    }

    constructor (haystack: string)
      requires Fits(haystack)
      ensures Valid() && this.haystack == haystack && captures == []
    {
      this.haystack := haystack;
      captures := [];
    }

    /** `operator()`: record every span of a match with the text it matched. */
    method Call(cap: seq<Span>) returns (c: nat)
      requires Valid() && SpansInside(haystack, cap)
      modifies this
      ensures Valid()
      ensures captures == old(captures) + Fresh(haystack, cap) && c == |cap|
    {
      c := 0;
      while c < |cap|
        invariant c <= |cap| && Valid()
        invariant captures == old(captures) + Fresh(haystack, cap[..c])
      {
        assert Fresh(haystack, cap[..c + 1]) == Fresh(haystack, cap[..c]) +
               [Capture(cap[c], haystack[cap[c].position..cap[c].End()])];
        captures := captures + [Capture(cap[c], Substr(haystack, cap[c].position, cap[c].length))];
        c := c + 1;
      }
      assert cap[..c] == cap;
    }

    /** `substitute`: the index is not checked, so it is the caller's to get right. */
    method Substitute(n: nat, subst: string)
      requires Valid() && n < |captures|
      modifies this
      ensures Valid()
      ensures captures == Substituted(old(captures), [Substitution(n, subst)])
    {
      captures := captures[n := captures[n].(text := subst)];
    }

    /** `replace`: copy gaps and texts from left to right. */
    method Replace() returns (r: string)
      requires Valid()
      ensures r == ReplacedText(haystack, captures)
    {
      var pos: nat := 0;
      r := [];
      var i := 1;
      while i < |captures|
        invariant 1 <= i && Written(haystack, captures, i, pos, r)
      {
        var c := captures[i];
        WrittenNext(haystack, captures, i, pos, r);
        r := r + Substr(haystack, pos, Gap(c.span.position, pos)) + c.text;
        pos := Landing(c.span.position, pos) + c.span.length;
        i := i + 1;
      }
      if pos < |haystack| {
        r := r + haystack[pos..];
      }
    }
  }
}
