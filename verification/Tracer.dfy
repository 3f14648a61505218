/**
 The trace recorder of cursor.cpp: the function names of a backtrace are interned in a growing
 table, and each block becomes a stack of indices into it.  Recognising a frame line is a
 regular-expression match and stands here as a function.
*/
module Tracer {
  import opened Wrappers
  import opened StringList

  /** The name a frame line shows; the empty line shows none. */
  type FrameName = string -> Option<string>

  const NEWLINE: string := "\n"

  function Lines(block: string): seq<string> {
    SplitOn(block, IsAnyOf(NEWLINE))
  }

  /** The names of the frame lines before the first empty line, in order. */
  function NamesBefore(frame: FrameName, lines: seq<string>): seq<string> {
    if lines == [] || lines[0] == [] then []
    else NameOf(frame, lines[0]) + NamesBefore(frame, lines[1..])
  }

  /** The names of all frame lines, in order. */
  function AllNames(frame: FrameName, lines: seq<string>): seq<string> {
    if lines == [] then []
    else NameOf(frame, lines[0]) + AllNames(frame, lines[1..])
  }

  function NameOf(frame: FrameName, line: string): seq<string> {
    match frame(line)
    case Some(name) => [name]
    case None => []
  }

  /** Where the table holds a name; its length when it does not. */
  function IndexOf(roll: seq<string>, name: string): (i: nat)
    ensures i <= |roll|
    ensures i < |roll| ==> roll[i] == name
    ensures i == |roll| <==> name !in roll
  {
    if roll == [] then 0
    else if roll[0] == name then 0
    else 1 + IndexOf(roll[1..], name)
  }

  /** The table grown by these names, in order. */
  function Grown(roll: seq<string>, names: seq<string>): seq<string> {
    if names == [] then roll
    else
      var n := |names| - 1;
      var r := Grown(roll, names[..n]);
      if names[n] in r then r else r + [names[n]]
  }

  /** The stack of these names, each looked up in the table as it stood at that point. */
  function Stack(roll: seq<string>, names: seq<string>): (s: seq<nat>)
    ensures |s| == |names|
  {
    if names == [] then []
    else
      var n := |names| - 1;
      Stack(roll, names[..n]) + [IndexOf(Grown(roll, names[..n]), names[n])]
  }

  ghost predicate NoDuplicates(roll: seq<string>) {
    forall i, j :: 0 <= i < j < |roll| ==> roll[i] != roll[j]
  }

  /** Reading a stack through a table. */
  ghost predicate Decodes(roll: seq<string>, stack: seq<nat>, names: seq<string>) {
    && |stack| == |names|
    && forall i :: 0 <= i < |stack| ==> stack[i] < |roll| && roll[stack[i]] == names[i]
  }

  /** Interning keeps the table free of duplicates, only appends to it, adds just the names
      given, and leaves a stack that reads back as the names. */
  lemma {:induction false} Interned(roll: seq<string>, names: seq<string>)
    requires NoDuplicates(roll)
    ensures NoDuplicates(Grown(roll, names))
    ensures roll <= Grown(roll, names)
    ensures forall x :: x in Grown(roll, names) <==> x in roll || x in names
    ensures Decodes(Grown(roll, names), Stack(roll, names), names)
  {
    if names != [] {
      var n := |names| - 1;
      Interned(roll, names[..n]);
      var r, r' := Grown(roll, names[..n]), Grown(roll, names);
      assert names == names[..n] + [names[n]];
      DecodesLonger(r, r', Stack(roll, names[..n]), names[..n]);
      assert r'[IndexOf(r, names[n])] == names[n];
      DecodesSnoc(r', Stack(roll, names[..n]), names[..n], IndexOf(r, names[n]), names[n]);
    }
  }

  lemma DecodesSnoc(roll: seq<string>, stack: seq<nat>, names: seq<string>, i: nat, name: string)
    requires Decodes(roll, stack, names) && i < |roll| && roll[i] == name
    ensures Decodes(roll, stack + [i], names + [name])
  {}

  lemma InternedNext(roll: seq<string>, names: seq<string>, name: string)
    ensures var r := Grown(roll, names);
            && Grown(roll, names + [name]) == (if name in r then r else r + [name])
            && Stack(roll, names + [name]) == Stack(roll, names) + [IndexOf(r, name)]
  {
    assert (names + [name])[..|names|] == names;
  }

  lemma DecodesLonger(roll: seq<string>, roll': seq<string>, stack: seq<nat>, names: seq<string>)
    requires roll <= roll' && Decodes(roll, stack, names)
    ensures Decodes(roll', stack, names)
  {}

  // ---------- blocks ----------

  /** The names `addBlock` records for a block. */
  function Recorded(frame: FrameName, block: string): seq<string> {
    NamesBefore(frame, Lines(block))
  }

  datatype Trace = Trace(roll: seq<string>, chain: seq<seq<nat>>)

  function AddStep(t: Trace, frame: FrameName, block: string): Trace {
    var names := Recorded(frame, block);
    Trace(Grown(t.roll, names), t.chain + [Stack(t.roll, names)])
  }

  /** The trace after a sequence of blocks. */
  function AfterBlocks(frame: FrameName, blocks: seq<string>): Trace {
    if blocks == [] then Trace([], [])
    else AddStep(AfterBlocks(frame, blocks[..|blocks| - 1]), frame, blocks[|blocks| - 1])
  }

  /** What a block records, line by line: the name that the frame function gives for the first line,
      if it gives one, and then what the rest of the block records.  Any number of newlines may stand
      between the two. */
  lemma RecordedFirst(frame: FrameName, line: string, sep: string, rest: string)
    requires line != [] && '\n' !in line && sep != [] && (forall i :: 0 <= i < |sep| ==> sep[i] == '\n')
    requires rest != [] ==> rest[0] != '\n'
    ensures Recorded(frame, line + (sep + rest)) ==
            match frame(line)
            case Some(name) => [name] + Recorded(frame, rest)
            case None => Recorded(frame, rest)
  {
    var p := IsAnyOf(NEWLINE);
    assert p('\n') && forall c :: c != '\n' ==> !p(c);
    SplitOnClosed(line, sep, rest, p);
    assert SkipRun(rest, p) == rest;
    assert ([line] + Lines(rest))[1..] == Lines(rest);
    assert [] + Recorded(frame, rest) == Recorded(frame, rest);
  }

  /** A block that begins with a newline, and the empty one, record nothing. */
  lemma RecordedNothing(frame: FrameName, block: string)
    requires block == [] || block[0] == '\n'
    ensures Recorded(frame, block) == []
  {
    assert IsAnyOf(NEWLINE)('\n');
  }

  /** The lines before the first empty one for which the frame function gives a name, in order. */
  function FrameLines(frame: FrameName, lines: seq<string>): (r: seq<string>)
    ensures forall k :: 0 <= k < |r| ==> r[k] in lines && frame(r[k]).Some?
  {
    if lines == [] || lines[0] == [] then []
    else (if frame(lines[0]).Some? then [lines[0]] else []) + FrameLines(frame, lines[1..])
  }

  /** The names recorded are those the frame function gives for these lines, one each. */
  lemma {:induction false} NamesOfFrames(frame: FrameName, lines: seq<string>)
    ensures var fs, names := FrameLines(frame, lines), NamesBefore(frame, lines);
            |names| == |fs| && forall k :: 0 <= k < |fs| ==> frame(fs[k]) == Some(names[k])
  {
    if lines != [] && lines[0] != [] {
      NamesOfFrames(frame, lines[1..]);
    }
  }

  /** The table has no duplicates and holds exactly the names recorded. */
  lemma {:induction false} RollHolds(frame: FrameName, blocks: seq<string>)
    ensures NoDuplicates(AfterBlocks(frame, blocks).roll)
    ensures forall x :: x in AfterBlocks(frame, blocks).roll <==> RecordedIn(frame, blocks, x)
  {
    if blocks != [] {
      var n := |blocks| - 1;
      RollHolds(frame, blocks[..n]);
      Interned(AfterBlocks(frame, blocks[..n]).roll, Recorded(frame, blocks[n]));
      forall x ensures RecordedIn(frame, blocks, x) <==>
                       RecordedIn(frame, blocks[..n], x) || x in Recorded(frame, blocks[n])
      {
        RecordedLast(frame, blocks, x);
      }
    }
  }

  ghost predicate RecordedIn(frame: FrameName, blocks: seq<string>, x: string) {
    exists k :: 0 <= k < |blocks| && x in Recorded(frame, blocks[k])
  }

  lemma RecordedLast(frame: FrameName, blocks: seq<string>, x: string)
    requires blocks != []
    ensures var n := |blocks| - 1;
            RecordedIn(frame, blocks, x) <==> RecordedIn(frame, blocks[..n], x) || x in Recorded(frame, blocks[n])
  {
    var n := |blocks| - 1;
    assert forall k :: 0 <= k < n ==> blocks[..n][k] == blocks[k];
    if RecordedIn(frame, blocks[..n], x) {
      var k :| 0 <= k < n && x in Recorded(frame, blocks[..n][k]);
      assert x in Recorded(frame, blocks[k]);
    }
  }

  /** Every stack, read through the table as it is now, is its own block's names in order. */
  ghost predicate ReadsBack(frame: FrameName, t: Trace, blocks: seq<string>) {
    && |t.chain| == |blocks|
    && forall k :: 0 <= k < |blocks| ==> Decodes(t.roll, t.chain[k], Recorded(frame, blocks[k]))
  }

  lemma AddReadsBack(frame: FrameName, t: Trace, blocks: seq<string>, block: string)
    requires NoDuplicates(t.roll) && ReadsBack(frame, t, blocks)
    ensures ReadsBack(frame, AddStep(t, frame, block), blocks + [block])
  {
    var t', all := AddStep(t, frame, block), blocks + [block];
    Interned(t.roll, Recorded(frame, block));
    forall k | 0 <= k < |all| ensures Decodes(t'.roll, t'.chain[k], Recorded(frame, all[k])) {
      if k < |blocks| {
        assert t'.chain[k] == t.chain[k] && all[k] == blocks[k];
        DecodesLonger(t.roll, t'.roll, t.chain[k], Recorded(frame, blocks[k]));
      }
    }
  }

  lemma {:induction false} StacksReadBack(frame: FrameName, blocks: seq<string>)
    ensures ReadsBack(frame, AfterBlocks(frame, blocks), blocks)
  {
    if blocks != [] {
      var n := |blocks| - 1;
      var before, block := blocks[..n], blocks[n];
      StacksReadBack(frame, before);
      RollHolds(frame, before);
      AddReadsBack(frame, AfterBlocks(frame, before), before, block);
      assert blocks == before + [block];
    }
  }

  /** After any sequence of blocks the table has no duplicates, holds exactly the recorded names,
      and every stack reads back. */
  lemma TraceReadsBack(frame: FrameName, blocks: seq<string>)
    ensures var t := AfterBlocks(frame, blocks);
            && NoDuplicates(t.roll) && ReadsBack(frame, t, blocks)
            && (forall x :: x in t.roll <==> RecordedIn(frame, blocks, x))
  {
    RollHolds(frame, blocks);
    StacksReadBack(frame, blocks);
  }

  /** The frame lines of a block. */
  function Frames(frame: FrameName, block: string): (r: seq<string>)
    ensures forall k :: 0 <= k < |r| ==> r[k] in Lines(block) && frame(r[k]).Some?
  {
    FrameLines(frame, Lines(block))
  }

  /** After any sequence of blocks the stack of each has an index for each of its frame lines, and the
      table has there the name that the frame function gives for the line; and each entry of the table
      is the name that it gives for some line of some block. */
  lemma StacksShowFrames(frame: FrameName, blocks: seq<string>)
    ensures var t := AfterBlocks(frame, blocks);
            && |t.chain| == |blocks|
            && (forall b :: 0 <= b < |blocks| ==>
                  var fs := Frames(frame, blocks[b]);
                  |t.chain[b]| == |fs| &&
                  forall k :: 0 <= k < |fs| ==>
                    t.chain[b][k] < |t.roll| && frame(fs[k]) == Some(t.roll[t.chain[b][k]]))
    ensures forall x :: x in AfterBlocks(frame, blocks).roll ==> Shown(frame, blocks, x)
  {
    var t := AfterBlocks(frame, blocks);
    TraceReadsBack(frame, blocks);
    forall b | 0 <= b < |blocks|
      ensures var fs := Frames(frame, blocks[b]);
              |t.chain[b]| == |fs| &&
              forall k :: 0 <= k < |fs| ==>
                t.chain[b][k] < |t.roll| && frame(fs[k]) == Some(t.roll[t.chain[b][k]])
    {
      NamesOfFrames(frame, Lines(blocks[b]));
      assert Decodes(t.roll, t.chain[b], Recorded(frame, blocks[b]));
    }
    forall x | x in t.roll ensures Shown(frame, blocks, x) {
      var b :| 0 <= b < |blocks| && x in Recorded(frame, blocks[b]);
      NamesOfFrames(frame, Lines(blocks[b]));
      var k :| 0 <= k < |Recorded(frame, blocks[b])| && Recorded(frame, blocks[b])[k] == x;
      assert Shows(frame, blocks[b], Frames(frame, blocks[b])[k], x);
    }
  }

  predicate Shows(frame: FrameName, block: string, line: string, x: string) {
    line in Lines(block) && frame(line) == Some(x)
  }

  ghost predicate Shown(frame: FrameName, blocks: seq<string>, x: string) {
    exists b, line :: 0 <= b < |blocks| && Shows(frame, blocks[b], line, x)
  }

  /** The table only grows: later blocks never disturb what earlier stacks refer to. */
  lemma {:induction false} RollOnlyGrows(frame: FrameName, blocks: seq<string>, k: nat)
    requires k <= |blocks|
    ensures AfterBlocks(frame, blocks[..k]).roll <= AfterBlocks(frame, blocks).roll
    ensures AfterBlocks(frame, blocks[..k]).chain <= AfterBlocks(frame, blocks).chain
    decreases |blocks|
  {
    var n := |blocks| - 1;
    if k == |blocks| {
      assert blocks[..k] == blocks;
    } else {
      RollOnlyGrows(frame, blocks[..n], k);
      assert blocks[..n][..k] == blocks[..k];
      TraceReadsBack(frame, blocks[..n]);
      Interned(AfterBlocks(frame, blocks[..n]).roll, Recorded(frame, blocks[n]));
    }
  }

  // ---------- when the line loop is well behaved ----------

  /** Compression leaves empty tokens only at the ends, and there only for a delimiter. */
  lemma {:induction false} TokensBetween(s: string, p: Class)
    ensures forall k :: 0 < k < |SplitOn(s, p)| - 1 ==> SplitOn(s, p)[k] != []
    ensures SplitOn(s, p)[0] == [] <==> s == [] || p(s[0])
    ensures SplitOn(s, p)[|SplitOn(s, p)| - 1] == [] <==> s == [] || p(s[|s| - 1])
    ensures s != [] && p(s[|s| - 1]) ==> |SplitOn(s, p)| > 1
    decreases |s|
  {
    if s != [] {
      if p(s[0]) {
        var t := SkipRun(s, p);
        TokensBetween(t, p);
        RunSkipped(s, p);
        assert SplitOn(s, p)[1..] == SplitOn(t, p);
      } else {
        TokensBetween(s[1..], p);
      }
    }
  }

  lemma {:induction false} RunSkipped(s: string, p: Class)
    requires s != [] && p(s[0])
    ensures var t := SkipRun(s, p);
            && (t != [] ==> !p(t[0]) && t[|t| - 1] == s[|s| - 1])
            && (t == [] ==> p(s[|s| - 1]))
  {
    if |s| > 1 && p(s[1]) {
      RunSkipped(s[1..], p);
    }
  }

  /** The line loop stops inside the list exactly when the block is empty or begins or ends with a
      newline; otherwise it pops the last line and then reads the front of an empty list. */
  lemma LoopStaysInside(block: string)
    ensures [] in Lines(block) <==>
            block == [] || block[0] == '\n' || block[|block| - 1] == '\n'
  {
    TokensBetween(block, IsAnyOf(NEWLINE));
    var r := Lines(block);
    if block == [] || block[0] == '\n' {
      assert r[0] == [];
    } else if block[|block| - 1] == '\n' {
      assert r[|r| - 1] == [];
    }
  }

  lemma {:induction false} NamesToTheEnd(frame: FrameName, lines: seq<string>)
    requires frame([]) == None && lines != []
    requires forall k :: 0 <= k < |lines| - 1 ==> lines[k] != []
    ensures NamesBefore(frame, lines) == AllNames(frame, lines)
  {
    if |lines| > 1 {
      NamesToTheEnd(frame, lines[1..]);
    } else {
      assert lines[1..] == [];
    }
  }

  /** A newline-terminated block is recorded in full if and only if it does not begin with a
      newline or has no frame line to lose; blank lines inside it do no harm. */
  lemma RecordedInFull(frame: FrameName, block: string)
    requires frame([]) == None && block != [] && block[|block| - 1] == '\n'
    ensures Recorded(frame, block) == AllNames(frame, Lines(block)) <==>
            block[0] != '\n' || AllNames(frame, Lines(block)) == []
  {
    TokensBetween(block, IsAnyOf(NEWLINE));
    if block[0] != '\n' {
      NamesToTheEnd(frame, Lines(block));
    }
  }

  class Recorder {
    const frame: FrameName
    var roll: seq<string>
    var chain: seq<seq<nat>>

    ghost function View(): Trace
      reads this
    {
      Trace(roll, chain)
    }

    constructor (frame: FrameName)
      ensures this.frame == frame && View() == Trace([], [])
    {
      this.frame := frame;
      roll, chain := [], [];
    }

    /** The `find_if` over the table. */
    method Find(name: string) returns (i: nat)
      ensures i == IndexOf(roll, name)
    {
      i := 0;
      while i < |roll| && roll[i] != name
        invariant i <= |roll|
        invariant IndexOf(roll, name) == i + IndexOf(roll[i..], name)
      {
        assert roll[i..][1..] == roll[i + 1..];
        i := i + 1;
      }
    }

    /** Look a name up, appending it if it is new. */
    method Intern(name: string) returns (i: nat)
      modifies this`roll
      ensures i == IndexOf(old(roll), name)
      ensures roll == if name in old(roll) then old(roll) else old(roll) + [name]
    {
      i := Find(name);
      if i == |roll| {
        roll := roll + [name];
      }
    }

    /** `addBlock`: record the stack of a block. */
    method AddBlock(block: string)
      requires [] in Lines(block)
      modifies this
      ensures View() == AddStep(old(View()), frame, block)
    {
      var stack := ReadLines(Lines(block));
      chain := chain + [stack];
    }

    /** The line loop: pop lines until an empty one, interning the name of each frame. */
    method ReadLines(all: seq<string>) returns (stack: seq<nat>)
      requires [] in all
      modifies this`roll
      ensures roll == Grown(old(roll), NamesBefore(frame, all))
      ensures stack == Stack(old(roll), NamesBefore(frame, all))
    {
      var lines := all;
      stack := [];
      ghost var names := [];
      while lines[0] != []
        invariant [] in lines
        invariant NamesBefore(frame, all) == names + NamesBefore(frame, lines)
        invariant roll == Grown(old(roll), names) && stack == Stack(old(roll), names)
        decreases |lines|
      {
        var line := lines[0];
        assert lines == [line] + lines[1..];
        NamesPop(frame, lines, names);
        lines := lines[1..];
        var cap := frame(line);
        if cap.Some? {
          InternedNext(old(roll), names, cap.value);
          var i := Intern(cap.value);
          stack := stack + [i];
          names := names + [cap.value];
        } else {
          assert names + [] == names;
        }
      }
      assert names + [] == names;
    }
  }

  lemma NamesPop(frame: FrameName, lines: seq<string>, names: seq<string>)
    requires lines != [] && lines[0] != []
    ensures names + NamesBefore(frame, lines) == names + NameOf(frame, lines[0]) + NamesBefore(frame, lines[1..])
  {}
}
