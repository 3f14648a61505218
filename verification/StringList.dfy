/**
 Splitting and joining in string_list.cpp.  A `char` here is one byte of a `std::string`.

 `boost::split` is a library call and gets a recursive definition: with compression a run of
 delimiters counts as one; leading and trailing empty tokens are kept; no input gives one empty
 token.
*/
module StringList {

  type Class = char -> bool

  /** `algorithm::is_any_of`. */
  function IsAnyOf(delims: string): Class {
    c => c in delims
  }

  ghost predicate Free(s: string, p: Class) {
    forall i :: 0 <= i < |s| ==> !p(s[i])
  }

  ghost predicate AllFree(list: seq<string>, p: Class) {
    forall i :: 0 <= i < |list| ==> Free(list[i], p)
  }

  ghost predicate AllIn(s: string, p: Class) {
    forall i :: 0 <= i < |s| ==> p(s[i])
  }

  /** `boost::split` with `token_compress_off`. */
  function SplitOff(s: string, p: Class): (r: seq<string>)
    ensures |r| > 0
  {
    if s == [] then [[]]
    else if p(s[0]) then [[]] + SplitOff(s[1..], p)
    else
      var r := SplitOff(s[1..], p);
      [[s[0]] + r[0]] + r[1..]
  }

  /** What is left after a run of delimiters. */
  function SkipRun(s: string, p: Class): (r: string)
    ensures |r| <= |s|
    ensures s != [] && p(s[0]) ==> |r| < |s|
  {
    if s != [] && p(s[0]) then SkipRun(s[1..], p) else s
  }

  /** `boost::split` with `token_compress_on`. */
  function SplitOn(s: string, p: Class): (r: seq<string>)
    ensures |r| > 0
    decreases |s|
  {
    if s == [] then [[]]
    else if p(s[0]) then [[]] + SplitOn(SkipRun(s, p), p)
    else
      var r := SplitOn(s[1..], p);
      [[s[0]] + r[0]] + r[1..]
  }

  function Split(s: string, p: Class, compress: bool): seq<string> {
    if compress then SplitOn(s, p) else SplitOff(s, p)
  }

  function JoinWith(list: seq<string>, sep: string): string {
    if list == [] then []
    else if |list| == 1 then list[0]
    else list[0] + sep + JoinWith(list[1..], sep)
  }

  // ---------- what splitting a join gives ----------

  /** Tokens are free of delimiters. */
  lemma {:induction false} SplitOffFree(s: string, p: Class)
    ensures AllFree(SplitOff(s, p), p)
  {
    if s != [] {
      SplitOffFree(s[1..], p);
    }
  }

  lemma {:induction false} SplitOnFree(s: string, p: Class)
    ensures AllFree(SplitOn(s, p), p)
    decreases |s|
  {
    if s != [] {
      SplitOnFree(if p(s[0]) then SkipRun(s, p) else s[1..], p);
    }
  }

  /** A token list whose first token has `a` put before it. */
  function Glue(a: string, r: seq<string>): seq<string>
    requires r != []
  {
    [a + r[0]] + r[1..]
  }

  lemma GlueNothing(r: seq<string>)
    requires r != []
    ensures Glue([], r) == r
  {
    assert [] + r[0] == r[0];
  }

  lemma GlueMore(a: string, r: seq<string>)
    requires r != [] && a != []
    ensures [[a[0]] + Glue(a[1..], r)[0]] + Glue(a[1..], r)[1..] == Glue(a, r)
  {
    assert [a[0]] + (a[1..] + r[0]) == a + r[0];
  }

  /** A delimiter right after `a` closes the token `a`. */
  lemma GlueClosed(a: string, r: seq<string>)
    ensures Glue(a, [[]] + r) == [a] + r
  {
    assert a + [] == a;
    assert ([[]] + r)[1..] == r;
  }

  lemma {:induction false} SplitOffPrefix(a: string, s: string, p: Class)
    requires Free(a, p)
    ensures SplitOff(a + s, p) == Glue(a, SplitOff(s, p))
  {
    if a == [] {
      assert a + s == s;
      GlueNothing(SplitOff(s, p));
    } else {
      assert (a + s)[1..] == a[1..] + s;
      SplitOffPrefix(a[1..], s, p);
      GlueMore(a, SplitOff(s, p));
    }
  }

  lemma {:induction false} SplitOnPrefix(a: string, s: string, p: Class)
    requires Free(a, p)
    ensures SplitOn(a + s, p) == Glue(a, SplitOn(s, p))
  {
    if a == [] {
      assert a + s == s;
      GlueNothing(SplitOn(s, p));
    } else {
      assert (a + s)[1..] == a[1..] + s;
      SplitOnPrefix(a[1..], s, p);
      GlueMore(a, SplitOn(s, p));
    }
  }

  lemma {:induction false} SkipDelimiters(d: string, s: string, p: Class)
    requires AllIn(d, p)
    ensures SkipRun(d + s, p) == SkipRun(s, p)
  {
    if d == [] {
      assert d + s == s;
    } else {
      assert (d + s)[1..] == d[1..] + s;
      SkipDelimiters(d[1..], s, p);
    }
  }

  lemma JoinCons(list: seq<string>, sep: string)
    requires |list| > 1
    ensures JoinWith(list, sep) == list[0] + (sep + JoinWith(list[1..], sep))
  {}

  /** Each single separator gives back one boundary. */
  lemma {:induction false} SplitOffJoin(list: seq<string>, c: char, p: Class)
    requires list != [] && p(c) && AllFree(list, p)
    ensures SplitOff(JoinWith(list, [c]), p) == list
  {
    if |list| == 1 {
      assert list[0] + [] == list[0];
      SplitOffPrefix(list[0], [], p);
    } else {
      JoinCons(list, [c]);
      var rest := JoinWith(list[1..], [c]);
      SplitOffJoin(list[1..], c, p);
      assert ([c] + rest)[1..] == rest;
      SplitOffPrefix(list[0], [c] + rest, p);
      GlueClosed(list[0], list[1..]);
    }
  }

  /** Joining what was split gives the string back. */
  lemma {:induction false} JoinSplitOff(s: string, c: char)
    ensures JoinWith(SplitOff(s, IsAnyOf([c])), [c]) == s
  {
    var p := IsAnyOf([c]);
    if s != [] {
      JoinSplitOff(s[1..], c);
      var r := SplitOff(s[1..], p);
      if p(s[0]) {
        assert ([[]] + r)[1..] == r;
      } else {
        assert ([[s[0]] + r[0]] + r[1..])[1..] == r[1..];
      }
    }
  }

  /** The list `fromString` gives for one `char`: the delimiter travels as a C string, so the NUL
      byte becomes the empty delimiter set. */
  function CharDelim(c: char): string {
    if c == '\0' then [] else [c]
  }

  /** Join then split is the identity exactly on the non-empty lists of strings that do not
      contain the delimiter; the NUL byte, which `fromString` cannot split on, aside. */
  lemma JoinThenSplit(list: seq<string>, c: char)
    requires c != '\0'
    ensures SplitOff(JoinWith(list, [c]), IsAnyOf(CharDelim(c))) == list <==>
            list != [] && AllFree(list, IsAnyOf([c]))
  {
    if list != [] && AllFree(list, IsAnyOf([c])) {
      SplitOffJoin(list, c, IsAnyOf([c]));
    }
    SplitOffFree(JoinWith(list, [c]), IsAnyOf([c]));
  }

  /** With the NUL byte nothing is ever split. */
  lemma {:induction false} NulSplitsNothing(s: string)
    ensures SplitOff(s, IsAnyOf(CharDelim('\0'))) == [s]
    ensures SplitOn(s, IsAnyOf(CharDelim('\0'))) == [s]
  {
    if s != [] {
      NulSplitsNothing(s[1..]);
      assert [s[0]] + s[1..] == s;
    }
  }

  function NonEmpty(list: seq<string>): (r: seq<string>)
    ensures forall x :: x in r <==> x in list && x != []
  {
    if list == [] then []
    else (if list[0] == [] then [] else [list[0]]) + NonEmpty(list[1..])
  }

  /** A list without its empty strings, except a first or last one. */
  function DropInterior(list: seq<string>): seq<string> {
    if |list| <= 1 then list
    else [list[0]] + NonEmpty(list[1..|list| - 1]) + [list[|list| - 1]]
  }

  /** A separator closes the token before it. */
  lemma SplitOnClosed(a: string, sep: string, rest: string, p: Class)
    requires sep != [] && AllIn(sep, p) && Free(a, p)
    ensures SplitOn(a + (sep + rest), p) == [a] + SplitOn(SkipRun(rest, p), p)
  {
    SplitOnPrefix(a, sep + rest, p);
    assert p((sep + rest)[0]);
    SkipDelimiters(sep, rest, p);
    GlueClosed(a, SplitOn(SkipRun(rest, p), p));
  }

  /** Splitting with compression past a run of delimiters. */
  lemma {:induction false} SplitOnTail(list: seq<string>, sep: string, p: Class)
    requires list != [] && sep != [] && AllIn(sep, p) && AllFree(list, p)
    ensures SplitOn(SkipRun(JoinWith(list, sep), p), p) == NonEmpty(list[..|list| - 1]) + [list[|list| - 1]]
    decreases |list|
  {
    var a := list[0];
    if |list| == 1 {
      SplitOnPrefix(a, [], p);
      assert a + [] == a;
    } else {
      var t := list[1..];
      var rest := JoinWith(t, sep);
      JoinCons(list, sep);
      SplitOnTail(t, sep, p);
      SkipDelimiters(sep, rest, p);
      assert list[..|list| - 1] == [a] + t[..|t| - 1];
      if a == [] {
        assert a + (sep + rest) == sep + rest;
      } else {
        assert SkipRun(a + (sep + rest), p) == a + (sep + rest);
        SplitOnClosed(a, sep, rest, p);
      }
    }
  }

  /** Splitting a join with compression drops the interior empty strings and nothing else,
      however long the separator. */
  lemma SplitOnJoin(list: seq<string>, sep: string, p: Class)
    requires list != [] && sep != [] && AllIn(sep, p) && AllFree(list, p)
    ensures SplitOn(JoinWith(list, sep), p) == DropInterior(list)
  {
    if |list| == 1 {
      SplitOnPrefix(list[0], [], p);
      assert list[0] + [] == list[0];
    } else {
      var t := list[1..];
      var rest := JoinWith(t, sep);
      JoinCons(list, sep);
      SplitOnClosed(list[0], sep, rest, p);
      assert AllFree(t, p) by {
        assert forall i :: 0 <= i < |t| ==> t[i] == list[i + 1];
      }
      SplitOnTail(t, sep, p);
      DropInteriorCons(list);
    }
  }

  lemma DropInteriorCons(list: seq<string>)
    requires |list| > 1
    ensures var t := list[1..];
            DropInterior(list) == [list[0]] + (NonEmpty(t[..|t| - 1]) + [t[|t| - 1]])
  {
    assert list[1..][..|list| - 2] == list[1..|list| - 1];
  }

  // ---------- substring delimiters ----------

  predicate OccursAt(s: string, d: string, i: int) {
    0 <= i && i + |d| <= |s| && s[i..i + |d|] == d
  }

  /** `std::string::find`; -1 stands for `npos`. */
  function Find(s: string, d: string): (r: int)
    ensures r >= 0 ==> OccursAt(s, d, r)
    ensures r < 0 ==> r == -1 && forall i :: !OccursAt(s, d, i)
    ensures forall i :: 0 <= i < r ==> !OccursAt(s, d, i)
  {
    FindFrom(s, d, 0)
  }

  function FindFrom(s: string, d: string, k: nat): (r: int)
    requires k <= |s|
    ensures r >= 0 ==> k <= r && OccursAt(s, d, r)
    ensures r < 0 ==> r == -1 && forall i :: k <= i ==> !OccursAt(s, d, i)
    ensures forall i :: k <= i < r ==> !OccursAt(s, d, i)
    decreases |s| - k
  {
    if OccursAt(s, d, k) then k
    else if k == |s| then -1
    else FindFrom(s, d, k + 1)
  }

  /** The two bytes of the marker that replaces a delimiter. */
  const MARK: string := ['\U{00C2}', '\U{00AC}']

  const IS_MARK: Class := IsAnyOf(MARK)

  /** How many bytes are not marker bytes. */
  function Unmarked(s: string): nat {
    if s == [] then 0
    else (if s[0] in MARK then 0 else 1) + Unmarked(s[1..])
  }

  lemma {:induction false} UnmarkedConcat(a: string, b: string)
    ensures Unmarked(a + b) == Unmarked(a) + Unmarked(b)
  {
    if a == [] {
      assert a + b == b;
    } else {
      assert (a + b)[1..] == a[1..] + b;
      UnmarkedConcat(a[1..], b);
    }
  }

  /** `s.replace(pos, length, marker)`. */
  function Replaced(s: string, pos: nat, n: nat): string
    requires pos + n <= |s|
  {
    s[..pos] + MARK + s[pos + n..]
  }

  /** Where a string of two marker bytes can shrink no more: how many bytes are the first marker
      byte, or how far each second marker byte is from the end. */
  function Weight(s: string, first: bool): nat {
    if s == [] then 0 else ByteWeight(s[0], |s|, first) + Weight(s[1..], first)
  }

  function ByteWeight(c: char, left: nat, first: bool): nat {
    if first && c == MARK[0] then 1
    else if !first && c == MARK[1] then left
    else 0
  }

  function WeightFor(s: string, d: string): nat {
    Weight(s, d != [] && d[0] == MARK[0])
  }

  lemma WeightOfTwo(d: string, b: string, first: bool)
    requires |d| == 2
    ensures Weight(d + b, first) ==
            ByteWeight(d[0], |b| + 2, first) + ByteWeight(d[1], |b| + 1, first) + Weight(b, first)
  {
    assert (d + b)[1..] == [d[1]] + b;
    assert ([d[1]] + b)[1..] == b;
  }

  lemma {:induction false} WeightDrops(a: string, d: string, b: string)
    requires |d| == 2 && d[0] in MARK && d[1] in MARK && (d[0] == MARK[0] ==> d[1] == MARK[0])
    ensures WeightFor(a + (MARK + b), d) < WeightFor(a + (d + b), d)
  {
    if a == [] {
      assert a + (MARK + b) == MARK + b && a + (d + b) == d + b;
      WeightOfTwo(MARK, b, d[0] == MARK[0]);
      WeightOfTwo(d, b, d[0] == MARK[0]);
    } else {
      assert (a + (MARK + b))[1..] == a[1..] + (MARK + b);
      assert (a + (d + b))[1..] == a[1..] + (d + b);
      WeightDrops(a[1..], d, b);
    }
  }

  lemma {:induction false} AllMarked(d: string, i: nat)
    requires Unmarked(d) == 0 && i < |d|
    ensures d[i] in MARK
  {
    if i > 0 {
      AllMarked(d[1..], i - 1);
    }
  }

  lemma Short(d: string)
    ensures |d| == 1 ==> d == [d[0]]
    ensures |d| == 2 ==> d == [d[0], d[1]]
  {}

  /** The delimiters made of marker bytes that are not part of the marker. */
  lemma OutsideMark(d: string)
    requires Unmarked(d) == 0 && Find(MARK, d) < 0
    ensures |d| >= 2 && d[0] in MARK && d[1] in MARK
    ensures |d| == 2 && d[0] == MARK[0] ==> d[1] == MARK[0]
  {
    PartsOfMark(d);
    Short(d);
    if |d| >= 1 {
      AllMarked(d, 0);
    }
    if |d| >= 2 {
      AllMarked(d, 1);
    }
  }

  /** A replacement leaves fewer bytes outside the marker, or as many and fewer in all, or as many
      of both and less weight. */
  predicate Shrunk(t: string, s: string, d: string) {
    || Unmarked(t) < Unmarked(s)
    || (Unmarked(t) == Unmarked(s) && |t| < |s|)
    || (Unmarked(t) == Unmarked(s) && |t| == |s| && WeightFor(t, d) < WeightFor(s, d))
  }

  lemma ReplacedUnmarked(s: string, d: string, pos: nat)
    requires OccursAt(s, d, pos)
    ensures Unmarked(Replaced(s, pos, |d|)) == Unmarked(s) - Unmarked(d)
    ensures s == s[..pos] + (d + s[pos + |d|..])
    ensures Replaced(s, pos, |d|) == s[..pos] + (MARK + s[pos + |d|..])
  {
    var a, b := s[..pos], s[pos + |d|..];
    assert s == a + (d + b) && Replaced(s, pos, |d|) == a + (MARK + b);
    UnmarkedConcat(a, d + b);
    UnmarkedConcat(d, b);
    UnmarkedConcat(a, MARK + b);
    UnmarkedConcat(MARK, b);
    assert Unmarked(MARK) == 0;
  }

  lemma ReplacedShrinks(s: string, d: string, pos: nat)
    requires OccursAt(s, d, pos) && Find(MARK, d) < 0
    ensures Shrunk(Replaced(s, pos, |d|), s, d)
  {
    ReplacedUnmarked(s, d, pos);
    if Unmarked(d) == 0 {
      OutsideMark(d);
      if |d| == 2 {
        WeightDrops(s[..pos], d, s[pos + |d|..]);
      }
    }
  }

  /** When the loop that replaces delimiters ends: it has nothing to do, or the delimiter is no part
      of the marker that it puts in. */
  predicate LoopEnds(s: string, d: string) {
    Find(s, d) < 0 || Find(MARK, d) < 0
  }

  /** The string after all replacements. */
  function ReplaceAll(s: string, d: string): string
    requires LoopEnds(s, d)
    decreases Unmarked(s), |s|, WeightFor(s, d)
  {
    var pos := Find(s, d);
    if pos < 0 then s
    else
      ReplacedShrinks(s, d, pos);
      ReplaceAll(Replaced(s, pos, |d|), d)
  }

  /** The string after at most `n` turns of the loop. */
  function Turns(s: string, d: string, n: nat): string
    decreases n
  {
    var pos := Find(s, d);
    if n == 0 || pos < 0 then s else Turns(Replaced(s, pos, |d|), d, n - 1)
  }

  lemma {:induction false} TurnsToEnd(s: string, d: string) returns (n: nat)
    requires LoopEnds(s, d)
    ensures Turns(s, d, n) == ReplaceAll(s, d) && Find(ReplaceAll(s, d), d) < 0
    decreases Unmarked(s), |s|, WeightFor(s, d)
  {
    var pos := Find(s, d);
    if pos < 0 {
      n := 0;
    } else {
      ReplacedShrinks(s, d, pos);
      n := TurnsToEnd(Replaced(s, pos, |d|), d);
      n := n + 1;
    }
  }

  /** A delimiter that is part of the marker occurs again in the marker put in. */
  lemma {:induction false} NeverEnds(s: string, d: string, n: nat)
    requires !LoopEnds(s, d)
    ensures Find(Turns(s, d, n), d) >= 0
    decreases n
  {
    if n > 0 {
      var pos, k := Find(s, d), Find(MARK, d);
      var t := Replaced(s, pos, |d|);
      assert t[pos + k..pos + k + |d|] == MARK[k..k + |d|];
      assert OccursAt(t, d, pos + k);
      NeverEnds(t, d, n - 1);
    }
  }

  /** The loop ends if and only if it has nothing to do or the delimiter is no part of the marker:
      neither empty, nor one of its two bytes, nor the marker itself. */
  lemma LoopEndsExactly(s: string, d: string)
    ensures (exists n :: Find(Turns(s, d, n), d) < 0) <==>
            Find(s, d) < 0 || d !in [[], ['\U{00C2}'], ['\U{00AC}'], ['\U{00C2}', '\U{00AC}']]
  {
    if LoopEnds(s, d) {
      var n := TurnsToEnd(s, d);
    } else {
      forall n ensures Find(Turns(s, d, n), d) >= 0 {
        NeverEnds(s, d, n);
      }
    }
    PartsOfMark(d);
  }

  lemma PartsOfMark(d: string)
    ensures Find(MARK, d) >= 0 <==> d in [[], [MARK[0]], [MARK[1]], MARK]
  {
    assert OccursAt(MARK, [], 0) && OccursAt(MARK, MARK, 0);
    assert OccursAt(MARK, [MARK[0]], 0) && OccursAt(MARK, [MARK[1]], 1);
    var k := Find(MARK, d);
    if k >= 0 {
      assert d == MARK[k..k + |d|];
      assert |d| == 2 ==> d == MARK;
      assert |d| == 1 ==> d == [MARK[k]];
    }
  }

  /** The reference: cut at the leftmost occurrence, then go on after it. */
  function Greedy(s: string, d: string): (r: seq<string>)
    requires d != []
    ensures |r| > 0
    decreases |s|
  {
    var pos := Find(s, d);
    if pos < 0 then [s] else [s[..pos]] + Greedy(s[pos + |d|..], d)
  }

  /** The reference cuts exactly at delimiters. */
  lemma {:induction false} GreedyJoins(s: string, d: string)
    requires d != []
    ensures JoinWith(Greedy(s, d), d) == s
    decreases |s|
  {
    var pos := Find(s, d);
    if pos >= 0 {
      GreedyJoins(s[pos + |d|..], d);
      GreedyStep(s, d, d);
      CutAround(s, d, pos);
    }
  }

  lemma CutAround(s: string, d: string, pos: nat)
    requires OccursAt(s, d, pos)
    ensures s == s[..pos] + d + s[pos + |d|..]
  {
    assert s == s[..pos] + s[pos..pos + |d|] + s[pos + |d|..];
  }

  /** No piece of the reference contains the delimiter. */
  lemma {:induction false} GreedyPieces(s: string, d: string)
    requires d != []
    ensures forall k :: 0 <= k < |Greedy(s, d)| ==> Find(Greedy(s, d)[k], d) < 0
    decreases |s|
  {
    var pos := Find(s, d);
    if pos >= 0 {
      GreedyPieces(s[pos + |d|..], d);
      BeforeFirst(s, d);
    }
  }

  lemma BeforeFirst(s: string, d: string)
    requires d != [] && Find(s, d) >= 0
    ensures Find(s[..Find(s, d)], d) < 0
  {
    var i := Find(s[..Find(s, d)], d);
    if i >= 0 {
      OccursInPrefix(s, Find(s, d), d, i);
    }
  }

  lemma OccursInPrefix(s: string, n: nat, d: string, i: nat)
    requires n <= |s| && OccursAt(s[..n], d, i)
    ensures OccursAt(s, d, i)
  {
    assert s[..n][i..i + |d|] == s[i..i + |d|];
  }

  lemma OccursShift(done: string, rest: string, d: string, i: nat)
    ensures OccursAt(done + rest, d, |done| + i) <==> OccursAt(rest, d, i)
  {
    if i + |d| <= |rest| {
      assert (done + rest)[|done| + i..|done| + i + |d|] == rest[i..i + |d|];
    }
  }

  /** No occurrence of the delimiter can cover a byte of a marker: it does not begin with the
      marker's second byte, does not end with its first, and does not contain it. */
  predicate Apart(d: string) {
    d != [] && d[0] != MARK[1] && d[|d| - 1] != MARK[0] && Find(d, MARK) < 0
  }

  /** No replacement creates an occurrence: those left are the old ones clear of the marker. */
  lemma ReplaceCreatesNone(s: string, d: string, pos: nat, i: nat)
    requires Apart(d) && OccursAt(s, d, pos)
    ensures OccursAt(Replaced(s, pos, |d|), d, i) <==>
            (i + |d| <= pos && OccursAt(s, d, i)) || (pos + 2 <= i && OccursAt(s, d, i - 2 + |d|))
  {
    var t, n := Replaced(s, pos, |d|), |d|;
    if i + n <= pos {
      assert t[i..i + n] == s[i..i + n];
    } else if pos + 2 <= i {
      var b, k := s[pos + n..], i - pos - 2;
      assert t == (s[..pos] + MARK) + b && s == s[..pos + n] + b;
      OccursShift(s[..pos] + MARK, b, d, k);
      OccursShift(s[..pos + n], b, d, k);
    } else if OccursAt(t, d, i) {
      assert t[pos..pos + 2] == MARK;
      MarkInside(t, d, i, pos);
    }
  }

  /** An occurrence that covers a byte of a marker begins or ends inside it, or contains it. */
  lemma MarkInside(t: string, d: string, i: nat, pos: nat)
    requires OccursAt(t, d, i) && OccursAt(t, MARK, pos) && pos - |d| < i < pos + 2
    ensures !Apart(d)
  {
    if d == [] {
    } else if i == pos + 1 {
      assert t[i..i + |d|][0] == t[pos..pos + 2][1];
    } else if i + |d| == pos + 1 {
      assert t[i..i + |d|][|d| - 1] == t[pos..pos + 2][0];
    } else {
      var at := pos - i;
      assert t[i..i + |d|][at] == t[pos..pos + 2][0] && t[i..i + |d|][at + 1] == t[pos..pos + 2][1];
      assert d[at..at + 2] == MARK;
      assert OccursAt(d, MARK, at);
    }
  }

  /** The delimiter occurs nowhere before position `n`. */
  ghost predicate ClearBefore(s: string, d: string, n: nat) {
    forall i :: 0 <= i < n ==> !OccursAt(s, d, i)
  }

  /** The delimiter occurs nowhere, or keeps clear of the marker. */
  predicate KeepsOff(s: string, d: string) {
    d != [] && (Apart(d) || Find(s, d) < 0)
  }

  lemma ApartEnds(d: string)
    requires Apart(d)
    ensures Find(MARK, d) < 0
  {
    PartsOfMark(d);
    assert OccursAt(MARK, MARK, 0);
  }

  /** When nothing occurs before `rest`, the search of the whole is the search of `rest`. */
  lemma FindShift(done: string, rest: string, d: string)
    requires ClearBefore(done + rest, d, |done|)
    ensures Find(done + rest, d) == if Find(rest, d) < 0 then -1 else |done| + Find(rest, d)
  {
    var f, r := Find(done + rest, d), Find(rest, d);
    if r >= 0 {
      OccursShift(done, rest, d, r);
    }
    if f >= |done| {
      OccursShift(done, rest, d, f - |done|);
    }
  }

  /** Replacing the first occurrence clears everything up to and including the marker. */
  lemma ReplaceFirst(s: string, d: string)
    requires Apart(d) && Find(s, d) >= 0
    ensures ClearBefore(Replaced(s, Find(s, d), |d|), d, Find(s, d) + 2)
  {
    var pos := Find(s, d);
    forall i | 0 <= i < pos + 2 ensures !OccursAt(Replaced(s, pos, |d|), d, i) {
      ReplaceCreatesNone(s, d, pos, i);
    }
  }

  lemma ReplacedAt(done: string, rest: string, d: string, pos: nat)
    requires OccursAt(rest, d, pos)
    ensures Replaced(done + rest, |done| + pos, |d|) == done + rest[..pos] + MARK + rest[pos + |d|..]
  {}

  /** When the delimiters of `rest` are replaced from the left, none arises over a marker put in, nor
      before it. */
  ghost predicate NoneArises(done: string, rest: string, d: string)
    requires d != []
    decreases |rest|
  {
    var pos := Find(rest, d);
    pos < 0 ||
    var done', rest' := done + rest[..pos] + MARK, rest[pos + |d|..];
    ClearBefore(done' + rest', d, |done'|) && NoneArises(done', rest', d)
  }

  /** One turn of the loop, with everything before `rest` already clear of delimiters. */
  lemma ReplaceStep(done: string, rest: string, d: string) returns (done': string, rest': string)
    requires d != [] && Find(rest, d) >= 0 && ClearBefore(done + rest, d, |done|)
    ensures var pos := Find(rest, d); done' == done + rest[..pos] + MARK && rest' == rest[pos + |d|..]
    ensures var s := done + rest; Find(s, d) >= 0 && Replaced(s, Find(s, d), |d|) == done' + rest'
    ensures Apart(d) ==> ClearBefore(done' + rest', d, |done'|)
    ensures ClearBefore(done' + rest', d, |done'|) ==> Find(MARK, d) < 0
  {
    FindShift(done, rest, d);
    var pos := Find(rest, d);
    done', rest' := done + rest[..pos] + MARK, rest[pos + |d|..];
    ReplacedAt(done, rest, d, pos);
    if Apart(d) {
      ReplaceFirst(done + rest, d);
    }
    var k := Find(MARK, d);
    if k >= 0 {
      InMarker(done + rest[..pos], rest', d, k);
    }
  }

  /** What occurs in the marker occurs in the marker put in. */
  lemma InMarker(a: string, b: string, d: string, k: nat)
    requires OccursAt(MARK, d, k)
    ensures OccursAt(a + MARK + b, d, |a| + k)
  {
    assert (a + MARK + b)[|a| + k..|a| + k + |d|] == MARK[k..k + |d|];
  }

  /** For a delimiter that keeps off the marker, none ever does. */
  lemma {:induction false} KeepsOffArises(done: string, rest: string, d: string)
    requires KeepsOff(rest, d) && ClearBefore(done + rest, d, |done|)
    ensures NoneArises(done, rest, d)
    decreases |rest|
  {
    if Find(rest, d) >= 0 {
      var done', rest' := ReplaceStep(done, rest, d);
      KeepsOffArises(done', rest', d);
    }
  }

  lemma NoneArisesEnds(s: string, d: string)
    requires d != [] && NoneArises([], s, d)
    ensures LoopEnds(s, d)
  {
    if Find(s, d) >= 0 {
      assert [] + s == s;
      var done', rest' := ReplaceStep([], s, d);
    }
  }

  /** With everything before `rest` already clear of delimiters, what remains to be done is the
      reference split of `rest`, with the marker in place of the delimiter. */
  lemma {:induction false} ReplaceRest(done: string, rest: string, d: string)
    requires d != [] && NoneArises(done, rest, d) && LoopEnds(done + rest, d)
    requires ClearBefore(done + rest, d, |done|)
    ensures ReplaceAll(done + rest, d) == done + JoinWith(Greedy(rest, d), MARK)
    decreases |rest|
  {
    var pos := Find(rest, d);
    if pos < 0 {
      FindShift(done, rest, d);
    } else {
      var done', rest' := ReplaceStep(done, rest, d);
      ReplaceOnce(done + rest, d, done' + rest');
      ReplaceRest(done', rest', d);
      JoinStep(done, rest, d);
    }
  }

  lemma ReplaceOnce(s: string, d: string, t: string)
    requires Find(s, d) >= 0 && Find(MARK, d) < 0 && t == Replaced(s, Find(s, d), |d|)
    ensures ReplaceAll(s, d) == ReplaceAll(t, d)
  {}

  /** The reference with the marker, past its first cut. */
  lemma JoinStep(done: string, rest: string, d: string)
    requires d != [] && Find(rest, d) >= 0
    ensures var pos := Find(rest, d);
            done + JoinWith(Greedy(rest, d), MARK) ==
            done + rest[..pos] + MARK + JoinWith(Greedy(rest[pos + |d|..], d), MARK)
  {
    var pos := Find(rest, d);
    GreedyStep(rest, d, MARK);
    Regroup(done, rest[..pos], MARK, JoinWith(Greedy(rest[pos + |d|..], d), MARK));
  }

  /** A string that agrees with another up to a place where it has a marker's first byte and the
      other the delimiter's, which is different. */
  predicate Scarred(s: string, right: string, d: string, j: nat) {
    j < |s| && j < |right| && d != [] && s[..j] == right[..j] && s[j] == MARK[0] != right[j] == d[0]
  }

  /** Such a scar never heals: a replacement is right of it, or leaves one further left. */
  lemma {:induction false} ScarStays(s: string, right: string, d: string, j: nat) returns (k: nat)
    requires LoopEnds(s, d) && Scarred(s, right, d, j)
    ensures Scarred(ReplaceAll(s, d), right, d, k)
    decreases Unmarked(s), |s|, WeightFor(s, d)
  {
    var pos := Find(s, d);
    if pos < 0 {
      k := j;
    } else {
      var t := Replaced(s, pos, |d|);
      assert s[pos..pos + |d|][0] == s[pos];
      ReplacedShrinks(s, d, pos);
      if pos > j {
        assert t[..j] == s[..j] && t[j] == s[j];
        k := ScarStays(t, right, d, j);
      } else {
        assert t[..pos] == s[..pos] == s[..j][..pos] == right[..pos];
        assert right[..j][pos] == right[pos];
        k := ScarStays(t, right, d, pos);
      }
    }
  }

  /** A delimiter that arises before `n`, where the text is right so far, leaves a scar. */
  lemma FirstScar(s: string, right: string, d: string, n: nat) returns (k: nat)
    requires d != [] && d[0] != MARK[0] && Find(MARK, d) < 0 && !ClearBefore(s, d, n)
    requires n <= |s| && n <= |right| && s[..n] == right[..n]
    ensures Scarred(ReplaceAll(s, d), right, d, k)
  {
    var pos, t := Find(s, d), Replaced(s, Find(s, d), |d|);
    assert s[pos..pos + |d|][0] == s[pos] == s[..n][pos] == right[..n][pos];
    assert t[..pos] == s[..pos] == s[..n][..pos] == right[..n][..pos] == right[..pos];
    ReplaceOnce(s, d, t);
    k := ScarStays(t, right, d, pos);
  }

  /** One that arises makes the result differ from the reference. */
  lemma {:induction false} ArisesScars(done: string, rest: string, d: string) returns (k: nat)
    requires d != [] && d[0] != MARK[0] && Find(MARK, d) < 0
    requires ClearBefore(done + rest, d, |done|) && !NoneArises(done, rest, d)
    ensures Scarred(ReplaceAll(done + rest, d), done + JoinWith(Greedy(rest, d), MARK), d, k)
    decreases |rest|
  {
    var done', rest' := ReplaceStep(done, rest, d);
    var tail := JoinWith(Greedy(rest', d), MARK);
    ReplaceOnce(done + rest, d, done' + rest');
    JoinStep(done, rest, d);
    if ClearBefore(done' + rest', d, |done'|) {
      k := ArisesScars(done', rest', d);
    } else {
      assert (done' + rest')[..|done'|] == done' == (done' + tail)[..|done'|];
      k := FirstScar(done' + rest', done' + tail, d, |done'|);
    }
  }

  lemma Regroup(a: string, b: string, c: string, e: string)
    ensures a + b + c + e == a + (b + c + e)
  {}

  lemma GreedyStep(s: string, d: string, sep: string)
    requires d != [] && Find(s, d) >= 0
    ensures var pos := Find(s, d);
            JoinWith(Greedy(s, d), sep) == s[..pos] + sep + JoinWith(Greedy(s[pos + |d|..], d), sep)
  {
    assert Greedy(s, d)[1..] == Greedy(s[Find(s, d) + |d|..], d);
  }

  lemma FreePart(s: string, pos: nat, d: string)
    requires Free(s, IS_MARK) && OccursAt(s, d, pos)
    ensures Free(d, IS_MARK) && Free(s[pos + |d|..], IS_MARK)
  {
    forall i | 0 <= i < |d| ensures !IS_MARK(d[i]) {
      assert s[pos..pos + |d|][i] == s[pos + i];
    }
  }

  lemma {:induction false} GreedyFree(s: string, d: string)
    requires d != [] && Free(s, IS_MARK)
    ensures AllFree(Greedy(s, d), IS_MARK)
    decreases |s|
  {
    var pos := Find(s, d);
    if pos >= 0 {
      FreePart(s, pos, d);
      GreedyFree(s[pos + |d|..], d);
    }
  }

  /** On input without marker bytes the delimiter keeps off the marker and so do the pieces. */
  lemma MarkFreePieces(s: string, d: string)
    requires d != [] && Free(s, IS_MARK)
    ensures KeepsOff(s, d) && AllFree(Greedy(s, d), IS_MARK)
  {
    GreedyFree(s, d);
    if Find(s, d) >= 0 {
      FreePart(s, Find(s, d), d);
      if Find(d, MARK) >= 0 {
        HoldsMark(d);
      }
      assert !IS_MARK(d[0]) && !IS_MARK(d[|d| - 1]);
    }
  }

  lemma HoldsMark(d: string)
    requires Find(d, MARK) >= 0
    ensures !Free(d, IS_MARK)
  {
    var k := Find(d, MARK);
    assert IS_MARK(d[k..k + 2][0]);
  }

  /** On input without marker bytes and with a non-empty delimiter the loop always ends. */
  lemma MarkFreeEnds(s: string, d: string)
    requires d != [] && Free(s, IS_MARK)
    ensures LoopEnds(s, d)
  {
    MarkFreePieces(s, d);
    if Apart(d) {
      ApartEnds(d);
    }
  }

  /** The loop puts the marker where the reference cuts and nowhere else, if no delimiter arises on
      the way; and for one that does not begin with the marker's first byte, only then. */
  lemma MarkedExactly(s: string, d: string)
    requires d != [] && LoopEnds(s, d)
    ensures NoneArises([], s, d) ==> ReplaceAll(s, d) == JoinWith(Greedy(s, d), MARK)
    ensures d[0] != MARK[0] && ReplaceAll(s, d) == JoinWith(Greedy(s, d), MARK) ==> NoneArises([], s, d)
    ensures KeepsOff(s, d) ==> NoneArises([], s, d)
  {
    assert [] + s == s;
    assert [] + JoinWith(Greedy(s, d), MARK) == JoinWith(Greedy(s, d), MARK);
    if KeepsOff(s, d) {
      KeepsOffArises([], s, d);
    }
    if NoneArises([], s, d) {
      ReplaceRest([], s, d);
    } else if d[0] != MARK[0] {
      var k := ArisesScars([], s, d);
    }
  }

  lemma {:induction false} NonEmptyFree(list: seq<string>, p: Class)
    requires AllFree(NonEmpty(list), p)
    ensures AllFree(list, p)
  {
    if list != [] {
      var head := if list[0] == [] then [] else [list[0]];
      var rest := NonEmpty(list[1..]);
      assert NonEmpty(list) == head + rest;
      assert AllFree(rest, p) by {
        assert forall i :: 0 <= i < |rest| ==> rest[i] == NonEmpty(list)[|head| + i];
      }
      NonEmptyFree(list[1..], p);
      assert list[0] != [] ==> list[0] == NonEmpty(list)[0];
    }
  }

  lemma InteriorFree(list: seq<string>, p: Class)
    requires AllFree(DropInterior(list), p)
    ensures AllFree(list, p)
  {
    if |list| > 1 {
      var inner := list[1..|list| - 1];
      var kept, all := NonEmpty(inner), DropInterior(list);
      assert AllFree(kept, p) by {
        assert forall i :: 0 <= i < |kept| ==> kept[i] == all[i + 1];
      }
      NonEmptyFree(inner, p);
      assert all[0] == list[0] && all[|all| - 1] == list[|list| - 1];
      assert forall i :: 1 <= i < |list| - 1 ==> list[i] == inner[i - 1];
    }
  }

  /** Substring splitting with compression: the marker detour is the reference split with its
      interior empty pieces dropped if and only if no piece holds a marker byte. */
  lemma SubstringSplit(s: string, d: string)
    requires d != [] && NoneArises([], s, d)
    ensures LoopEnds(s, d)
    ensures SplitOn(ReplaceAll(s, d), IS_MARK) == DropInterior(Greedy(s, d)) <==> AllFree(Greedy(s, d), IS_MARK)
  {
    NoneArisesEnds(s, d);
    MarkedExactly(s, d);
    if AllFree(Greedy(s, d), IS_MARK) {
      SplitOnJoin(Greedy(s, d), MARK, IS_MARK);
    } else if SplitOn(ReplaceAll(s, d), IS_MARK) == DropInterior(Greedy(s, d)) {
      SplitOnFree(ReplaceAll(s, d), IS_MARK);
      InteriorFree(Greedy(s, d), IS_MARK);
    }
  }

  /** A list with an empty string after every element but the last. */
  function Doubled(list: seq<string>): seq<string> {
    if |list| <= 1 then list else [list[0], []] + Doubled(list[1..])
  }

  lemma {:induction false} SplitOffMarked(list: seq<string>)
    requires list != [] && AllFree(list, IS_MARK)
    ensures SplitOff(JoinWith(list, MARK), IS_MARK) == Doubled(list)
  {
    if |list| == 1 {
      assert list[0] + [] == list[0];
      SplitOffPrefix(list[0], [], IS_MARK);
    } else {
      var rest := JoinWith(list[1..], MARK);
      JoinCons(list, MARK);
      SplitOffMarked(list[1..]);
      assert (MARK + rest)[0] == MARK[0] && (MARK + rest)[1..][0] == MARK[1];
      assert (MARK + rest)[1..][1..] == rest;
      assert IS_MARK(MARK[0]) && IS_MARK(MARK[1]);
      assert SplitOff((MARK + rest)[1..], IS_MARK) == [[]] + Doubled(list[1..]);
      SplitOffPrefix(list[0], MARK + rest, IS_MARK);
      GlueClosed(list[0], [[]] + Doubled(list[1..]));
      assert [list[0]] + ([[]] + Doubled(list[1..])) == [list[0], []] + Doubled(list[1..]);
    }
  }

  lemma {:induction false} DoubledFree(list: seq<string>, p: Class)
    requires AllFree(Doubled(list), p)
    ensures AllFree(list, p)
  {
    if |list| > 1 {
      var rest := Doubled(list[1..]);
      assert AllFree(rest, p) by {
        assert forall i :: 0 <= i < |rest| ==> rest[i] == Doubled(list)[i + 2];
      }
      DoubledFree(list[1..], p);
      assert list[0] == Doubled(list)[0];
    }
  }

  /** Without compression the two-byte marker shows, an empty token at every delimiter, and again
      the pieces are right if and only if none holds a marker byte. */
  lemma SubstringSplitOff(s: string, d: string)
    requires d != [] && NoneArises([], s, d)
    ensures LoopEnds(s, d)
    ensures SplitOff(ReplaceAll(s, d), IS_MARK) == Doubled(Greedy(s, d)) <==> AllFree(Greedy(s, d), IS_MARK)
  {
    NoneArisesEnds(s, d);
    MarkedExactly(s, d);
    if AllFree(Greedy(s, d), IS_MARK) {
      SplitOffMarked(Greedy(s, d));
    } else if SplitOff(ReplaceAll(s, d), IS_MARK) == Doubled(Greedy(s, d)) {
      SplitOffFree(ReplaceAll(s, d), IS_MARK);
      DoubledFree(Greedy(s, d), IS_MARK);
    }
  }

  /** Uncompressed tokens tell where the delimiters are. */
  lemma {:induction false} SplitOffTells(x: string, y: string, p: Class, i: nat)
    requires SplitOff(x, p) == SplitOff(y, p)
    ensures |x| == |y| && (i < |x| ==> (p(x[i]) <==> p(y[i])))
  {
    if x != [] && y != [] {
      var a, b := SplitOff(x[1..], p), SplitOff(y[1..], p);
      assert SplitOff(x, p) == if p(x[0]) then [[]] + a else [[x[0]] + a[0]] + a[1..];
      assert SplitOff(y, p) == if p(y[0]) then [[]] + b else [[y[0]] + b[0]] + b[1..];
      assert |SplitOff(x, p)[0]| > 0 <==> !p(x[0]);
      assert |SplitOff(y, p)[0]| > 0 <==> !p(y[0]);
      SameTail(a, b, x, y, p);
      SplitOffTells(x[1..], y[1..], p, if i == 0 then 0 else i - 1);
    }
  }

  lemma SameTail(a: seq<string>, b: seq<string>, x: string, y: string, p: Class)
    requires x != [] && y != [] && (p(x[0]) <==> p(y[0])) && a != [] && b != []
    requires (if p(x[0]) then [[]] + a else [[x[0]] + a[0]] + a[1..]) ==
             (if p(y[0]) then [[]] + b else [[y[0]] + b[0]] + b[1..])
    ensures a == b
  {
    if p(x[0]) {
      assert a == ([[]] + a)[1..] && b == ([[]] + b)[1..];
    } else {
      var l, r := [[x[0]] + a[0]] + a[1..], [[y[0]] + b[0]] + b[1..];
      assert l[0][1..] == a[0] && r[0][1..] == b[0] && l[1..] == a[1..] && r[1..] == b[1..];
      assert a == [a[0]] + a[1..] && b == [b[0]] + b[1..];
    }
  }

  /** Without compression, and for any delimiter that does not begin with a marker byte: the pieces
      are those of the reference if and only if none holds a marker byte and no delimiter arises. */
  lemma SubstringSplitOffExactly(s: string, d: string)
    requires d != [] && d[0] !in MARK
    ensures LoopEnds(s, d)
    ensures SplitOff(ReplaceAll(s, d), IS_MARK) == Doubled(Greedy(s, d)) <==>
            AllFree(Greedy(s, d), IS_MARK) && NoneArises([], s, d)
  {
    PartsOfMark(d);
    if NoneArises([], s, d) {
      SubstringSplitOff(s, d);
    } else if SplitOff(ReplaceAll(s, d), IS_MARK) == Doubled(Greedy(s, d)) {
      var right := JoinWith(Greedy(s, d), MARK);
      SplitOffFree(ReplaceAll(s, d), IS_MARK);
      DoubledFree(Greedy(s, d), IS_MARK);
      SplitOffMarked(Greedy(s, d));
      assert [] + s == s && [] + right == right;
      var k := ArisesScars([], s, d);
      SplitOffTells(ReplaceAll(s, d), right, IS_MARK, k);
    }
  }

  /** A text of marker bytes has two empty tokens. */
  lemma AllMarks(u: string)
    requires u != [] && AllIn(u, IS_MARK)
    ensures SplitOn(u, IS_MARK) == [[], []]
  {
    SkipDelimiters(u, [], IS_MARK);
    assert u + [] == u;
  }

  const AC_X: string := [MARK[1], 'x']

  /** The run of the loop on the delimiter that begins with the marker's second byte. */
  lemma TwoTurns()
    ensures LoopEnds(AC_X + ['x'], AC_X) && ReplaceAll(AC_X + ['x'], AC_X) == [MARK[0]] + MARK
  {
    var s, t, u := AC_X + ['x'], MARK + ['x'], [MARK[0]] + MARK;
    PartsOfMark(AC_X);
    assert OccursAt(s, AC_X, 0) && Replaced(s, 0, 2) == t;
    assert t[1..1 + 2] == AC_X && OccursAt(t, AC_X, 1) && t[0] != AC_X[0];
    assert Find(t, AC_X) == 1 && Replaced(t, 1, 2) == u;
    assert Find(u, AC_X) < 0;
    assert ReplaceAll(u, AC_X) == u;
    ReplaceOnce(t, AC_X, u);
    ReplaceOnce(s, AC_X, t);
  }

  lemma GreedyOfThree()
    ensures Greedy(AC_X + ['x'], AC_X) == [[], ['x']]
  {
    var s := AC_X + ['x'];
    assert OccursAt(s, AC_X, 0) && Find(s, AC_X) == 0 && s[2..] == ['x'];
    assert Find(['x'], AC_X) < 0;
    assert Greedy(['x'], AC_X) == [['x']];
  }

  /** There the loop ends and no piece holds a marker byte, but the marker put in completes a
      delimiter that the text did not hold, and the split loses a byte. */
  lemma CutsTooMuch()
    ensures var s := AC_X + ['x'];
            && LoopEnds(s, AC_X) && Greedy(s, AC_X) == [[], ['x']] && AllFree(Greedy(s, AC_X), IS_MARK)
            && SplitOn(ReplaceAll(s, AC_X), IS_MARK) == [[], []] != DropInterior(Greedy(s, AC_X))
  {
    TwoTurns();
    AllMarks([MARK[0]] + MARK);
    GreedyOfThree();
    assert DropInterior([[], ['x']])[1] == ['x'];
  }

  // ---------- the methods ----------

  /** `string_list::fromString`: `all` selects the substring mode. */
  method FromString(toSplit: string, delim: string, all: bool, compress: bool) returns (list: seq<string>)
    requires all ==> LoopEnds(toSplit, delim)
    ensures !all && compress ==> list == SplitOn(toSplit, IsAnyOf(delim))
    ensures !all && !compress ==> list == SplitOff(toSplit, IsAnyOf(delim))
    ensures all && compress ==> list == SplitOn(ReplaceAll(toSplit, delim), IS_MARK)
    ensures all && !compress ==> list == SplitOff(ReplaceAll(toSplit, delim), IS_MARK)
    ensures all && delim != [] && NoneArises([], toSplit, delim) ==>
              (list == (if compress then DropInterior(Greedy(toSplit, delim)) else Doubled(Greedy(toSplit, delim))) <==>
               AllFree(Greedy(toSplit, delim), IS_MARK))
    ensures all && delim != [] && Free(toSplit, IS_MARK) ==>
              list == if compress then DropInterior(Greedy(toSplit, delim)) else Doubled(Greedy(toSplit, delim))
  {
    if all && delim != [] && Free(toSplit, IS_MARK) {
      MarkFreePieces(toSplit, delim);
      MarkedExactly(toSplit, delim);
    }
    if all && delim != [] && NoneArises([], toSplit, delim) {
      SubstringSplit(toSplit, delim);
      SubstringSplitOff(toSplit, delim);
    }
    if !all {
      return Split(toSplit, IsAnyOf(delim), compress);
    }
    var s := toSplit;
    var pos := Find(s, delim);
    while pos >= 0
      invariant LoopEnds(s, delim) && pos == Find(s, delim)
      invariant ReplaceAll(s, delim) == ReplaceAll(toSplit, delim)
      decreases Unmarked(s), |s|, WeightFor(s, delim)
    {
      ReplacedShrinks(s, delim, pos);
      s := Replaced(s, pos, |delim|);
      pos := Find(s, delim);
    }
    return Split(s, IS_MARK, compress);
  }

  lemma {:induction false} JoinSnoc(list: seq<string>, x: string, sep: string)
    requires list != []
    ensures JoinWith(list + [x], sep) == JoinWith(list, sep) + sep + x
  {
    if |list| > 1 {
      assert (list + [x])[1..] == list[1..] + [x];
      JoinSnoc(list[1..], x, sep);
      assert list[0] + sep + (JoinWith(list[1..], sep) + sep + x) ==
             list[0] + sep + JoinWith(list[1..], sep) + sep + x;
    }
  }

  /** `string_list::join(string const&)`, and with a one-byte separator `join(char)`. */
  method Join(list: seq<string>, chars: string) returns (r: string)
    ensures r == JoinWith(list, chars)
    ensures list == [] ==> r == []
  {
    r := [];
    var once := false;
    var i := 0;
    while i < |list|
      invariant i <= |list| && once == (i > 0)
      invariant r == JoinWith(list[..i], chars)
    {
      assert list[..i + 1] == list[..i] + [list[i]];
      if once {
        JoinSnoc(list[..i], list[i], chars);
        r := r + chars;
      }
      once := true;
      r := r + list[i];
      i := i + 1;
    }
    assert list[..i] == list;
  }
}
