/**
 The growable byte buffer of byte_array.cpp, and the list of C strings it can hold: `append` of a
 string copies its terminating NUL byte, and conversion to a string list scans for those bytes.
 Only buffers that own their memory are modelled, the ones `fromData` and `append` build.
*/
module ByteArray {
  import opened Wrappers
  import opened CString

  /** The bytes of a list of strings appended one after the other. */
  function Encode(list: seq<string>): seq<char> {
    if list == [] then [] else list[0] + [NUL] + Encode(list[1..])
  }

  /** The conversion to a string list: nothing when the scan would read past the last byte. */
  function Decode(bytes: seq<char>): Option<seq<string>> {
    if bytes == [] then Some([])
    else
      var k := FirstNul(bytes);
      if k == |bytes| then None
      else
        match Decode(bytes[k + 1..])
        case None => None
        case Some(rest) => Some([bytes[..k]] + rest)
  }

  lemma {:induction false} FirstNulOf(s: string, rest: seq<char>)
    requires NulFree(s)
    ensures FirstNul(s + [NUL] + rest) == |s|
  {
    if s != [] {
      assert (s + [NUL] + rest)[1..] == s[1..] + [NUL] + rest;
      FirstNulOf(s[1..], rest);
    }
  }

  /** A terminated string at the front is the first one read. */
  lemma DecodeCons(s: string, rest: seq<char>)
    requires NulFree(s)
    ensures Decode(s + [NUL] + rest) == Joined([s], Decode(rest))
  {
    var bytes := s + [NUL] + rest;
    FirstNulOf(s, rest);
    assert bytes[..|s|] == s && bytes[|s| + 1..] == rest;
  }

  /** The scan never reads past the end if and only if the buffer is empty or ends in NUL. */
  lemma {:induction false} ScanInBounds(bytes: seq<char>)
    ensures Decode(bytes).Some? <==> bytes == [] || bytes[|bytes| - 1] == NUL
    decreases |bytes|
  {
    if bytes != [] {
      var k := FirstNul(bytes);
      if k < |bytes| {
        ScanInBounds(bytes[k + 1..]);
      } else {
        assert bytes[..k] == bytes;
        assert bytes[|bytes| - 1] in bytes;
      }
    }
  }

  lemma EncodeCons(s: string, list: seq<string>)
    ensures Encode([s] + list) == s + [NUL] + Encode(list)
  {
    assert ([s] + list)[1..] == list;
  }

  lemma CutAtNul(bytes: seq<char>, k: nat)
    requires k < |bytes| && bytes[k] == NUL
    ensures bytes == bytes[..k] + [NUL] + bytes[k + 1..]
  {}

  /** What is read back is free of NUL bytes and encodes to the same bytes. */
  lemma {:induction false} EncodeDecoded(bytes: seq<char>)
    requires Decode(bytes).Some?
    ensures Encode(Decode(bytes).value) == bytes
    ensures forall i :: 0 <= i < |Decode(bytes).value| ==> NulFree(Decode(bytes).value[i])
    decreases |bytes|
  {
    if bytes != [] {
      var k := FirstNul(bytes);
      var first, after := bytes[..k], bytes[k + 1..];
      EncodeDecoded(after);
      var rest := Decode(after).value;
      assert Decode(bytes).value == [first] + rest;
      EncodeCons(first, rest);
      CutAtNul(bytes, k);
    }
  }

  ghost predicate AllNulFree(list: seq<string>) {
    forall i :: 0 <= i < |list| ==> NulFree(list[i])
  }

  lemma {:induction false} DecodeEncoded(list: seq<string>)
    requires AllNulFree(list)
    ensures Decode(Encode(list)) == Some(list)
  {
    if list != [] {
      DecodeEncoded(list[1..]);
      DecodeCons(list[0], Encode(list[1..]));
      assert list == [list[0]] + list[1..];
    }
  }

  /** A list survives the round trip if and only if none of its strings contains a NUL byte. */
  lemma RoundTripExactly(list: seq<string>)
    ensures Decode(Encode(list)) == Some(list) <==> AllNulFree(list)
  {
    if AllNulFree(list) {
      DecodeEncoded(list);
    } else if Decode(Encode(list)).Some? {
      EncodeDecoded(Encode(list));
    }
  }

  lemma {:induction false} DecodeAfter(list: seq<string>, b: seq<char>)
    requires AllNulFree(list)
    ensures Decode(Encode(list) + b) == Joined(list, Decode(b))
  {
    if list == [] {
      assert Encode(list) + b == b;
      JoinedNothing(Decode(b));
    } else {
      var tail := list[1..];
      DecodeAfter(tail, b);
      EncodeThen(list, b);
      DecodeCons(list[0], Encode(tail) + b);
      JoinedCons(list[0], tail, Decode(b));
      assert list == [list[0]] + tail;
    }
  }

  lemma EncodeThen(list: seq<string>, b: seq<char>)
    requires list != []
    ensures Encode(list) + b == list[0] + [NUL] + (Encode(list[1..]) + b)
  {}

  lemma JoinedNothing(rest: Option<seq<string>>)
    ensures Joined([], rest) == rest
  {
    if rest.Some? {
      assert [] + rest.value == rest.value;
    }
  }

  lemma JoinedCons(x: string, list: seq<string>, rest: Option<seq<string>>)
    ensures Joined([x], Joined(list, rest)) == Joined([x] + list, rest)
  {
    if rest.Some? {
      assert [x] + (list + rest.value) == [x] + list + rest.value;
    }
  }

  function Joined(list: seq<string>, rest: Option<seq<string>>): Option<seq<string>> {
    match rest
    case None => None
    case Some(tail) => Some(list + tail)
  }

  /** Two buffers put together decode to their lists put together. */
  lemma DecodeConcat(a: seq<char>, b: seq<char>)
    requires Decode(a).Some?
    ensures Decode(a + b) == Joined(Decode(a).value, Decode(b))
  {
    EncodeDecoded(a);
    DecodeAfter(Decode(a).value, b);
  }

  lemma {:induction false} EncodeSnoc(list: seq<string>, s: string)
    ensures Encode(list + [s]) == Encode(list) + s + [NUL]
  {
    if list == [] {
      assert list + [s] == [s] && [s][1..] == [];
    } else {
      assert (list + [s])[1..] == list[1..] + [s];
      EncodeSnoc(list[1..], s);
    }
  }

  class Bytes {
    var data: array?<char>
    var length: nat
    var destroy: bool

    /** Either empty, or the owner of exactly `length` bytes. */
    ghost predicate Valid()
      reads this
    {
      if data == null then length == 0 && !destroy else destroy && data.Length == length
    }

    ghost function Contents(): seq<char>
      reads this, data
      requires Valid()
    {
      if data == null then [] else data[..]
    }

    constructor ()
      ensures Valid() && Contents() == []
    {
      data, length, destroy := null, 0, false;
    }

    /** `append(const void*, size_t)`: reallocate, keeping the old bytes, and copy the new ones
        after them. */
    method AppendMemory(next: seq<char>)
      requires Valid()
      modifies this
      ensures Valid() && Contents() == old(Contents()) + next
      ensures data == old(data) || (data != null && fresh(data))
    {
      if next == [] {
        return;
      }
      var dest := new char[length + |next|];
      var i := 0;
      while i < length
        invariant i <= length && unchanged(this) && fresh(dest) && dest.Length == length + |next|
        invariant dest[..i] == old(Contents())[..i]
      {
        dest[i] := data[i];
        i := i + 1;
      }
      assert dest[..length] == old(Contents());
      while i < length + |next|
        invariant length <= i <= length + |next| && unchanged(this) && fresh(dest) && dest.Length == length + |next|
        invariant dest[..length] == old(Contents())
        invariant dest[length..i] == next[..i - length]
      {
        dest[i] := next[i - length];
        i := i + 1;
      }
      assert dest[..] == dest[..length] + dest[length..i];
      data := dest;
      length := length + |next|;
      destroy := true;
    }

    /** `append(string)`: the string and its terminator. */
    method Append(str: string)
      requires Valid()
      modifies this
      ensures Valid() && Contents() == old(Contents()) + str + [NUL]
      ensures data != null && fresh(data)
    {
      AppendMemory(str + [NUL]);
    }

    /** `fromData(string)`. */
    static method FromData(str: string) returns (bytes: Bytes)
      ensures fresh(bytes) && bytes.Valid() && bytes.Contents() == str + [NUL]
    {
      bytes := new Bytes();
      bytes.Append(str);
    }

    /** What `operator+=` appends; the return by value that follows does not end.  The two must be
        different objects: the source reallocates its own memory before copying, so `a += a` would
        read memory already given up. */
    method PlusAssign(pc: Bytes)
      requires Valid() && pc.Valid() && pc != this
      modifies this
      ensures Valid() && Contents() == old(Contents()) + old(pc.Contents())
    {
      AppendMemory(if pc.data == null then [] else pc.data[..]);
    }

    /** `operator string_list`: read C strings until the cursor reaches the end. */
    method ToStringList() returns (list: seq<string>)
      requires Valid() && (Contents() == [] || Contents()[|Contents()| - 1] == NUL)
      ensures Decode(Contents()) == Some(list)
    {
      list := [];
      if data == null {
        return;
      }
      ghost var all := data[..];
      var pc := 0;
      while pc < length
        invariant pc <= length == |all| && data[..] == all
        invariant AllNulFree(list) && Encode(list) == all[..pc]
      {
        NulAhead(all, pc);
        var s := ReadCString(pc, all);
        OneMore(list, s, all, pc);
        list := list + [s];
        pc := pc + |s| + 1;
      }
      assert all[..pc] == all;
      DecodeEncoded(list);
    }

    /** The `std::string(const char*)` constructor: every byte it reads is inside the buffer. */
    method ReadCString(pc: nat, ghost all: seq<char>) returns (s: string)
      requires data != null && data[..] == all
      requires pc < |all| && pc + FirstNul(all[pc..]) < |all|
      ensures NulFree(s) && pc + |s| < |all| && s == all[pc..pc + |s|] && all[pc + |s|] == NUL
    {
      assert all[pc..][..FirstNul(all[pc..])] == all[pc..pc + FirstNul(all[pc..])];
      var end := pc;
      while data[end] != NUL
        invariant pc <= end < |all|
        invariant end + FirstNul(all[end..]) == pc + FirstNul(all[pc..])
        decreases |all| - end
      {
        assert all[end..][1..] == all[end + 1..];
        end := end + 1;
      }
      s := data[pc..end];
    }
  }

  lemma NulAhead(all: seq<char>, pc: nat)
    requires pc < |all| && all[|all| - 1] == NUL
    ensures pc + FirstNul(all[pc..]) < |all|
  {
    var rest := all[pc..];
    assert rest[|rest| - 1] == NUL;
  }

  /** Reading one more string covers its bytes and its terminator. */
  lemma OneMore(list: seq<string>, s: string, all: seq<char>, pc: nat)
    requires AllNulFree(list) && NulFree(s) && pc + |s| < |all|
    requires Encode(list) == all[..pc] && s == all[pc..pc + |s|] && all[pc + |s|] == NUL
    ensures AllNulFree(list + [s]) && Encode(list + [s]) == all[..pc + |s| + 1]
  {
    EncodeSnoc(list, s);
    assert all[..pc + |s| + 1] == all[..pc] + s + [NUL];
  }

  lemma EncodeNext(list: seq<string>, i: nat)
    requires i < |list|
    ensures Encode(list[..i + 1]) == Encode(list[..i]) + list[i] + [NUL]
  {
    EncodeSnoc(list[..i], list[i]);
    assert list[..i + 1] == list[..i] + [list[i]];
  }

  lemma EncodeFirst(list: seq<string>)
    requires list != []
    ensures Encode(list[..1]) == list[0] + [NUL]
  {
    EncodeNext(list, 0);
    assert Encode(list[..0]) + list[0] == list[0];
  }

  lemma Readable(list: seq<string>)
    requires AllNulFree(list)
    ensures Decode(Encode(list)) == Some(list)
    ensures Encode(list) == [] || Encode(list)[|Encode(list)| - 1] == NUL
  {
    RoundTripExactly(list);
    ScanInBounds(Encode(list));
  }

  /** Building a buffer from a list the way callers do: the first string with `fromData`, the
      others with `append`, and reading it back. */
  method RoundTrip(list: seq<string>) returns (back: seq<string>)
    requires list != [] && AllNulFree(list)
    ensures back == list
  {
    var bytes := Bytes.FromData(list[0]);
    var i := 1;
    EncodeFirst(list);
    while i < |list|
      invariant 1 <= i <= |list| && fresh(bytes) && bytes.Valid()
      invariant bytes.Contents() == Encode(list[..i])
    {
      EncodeNext(list, i);
      bytes.Append(list[i]);
      i := i + 1;
    }
    assert list[..i] == list;
    Readable(list);
    back := bytes.ToStringList();
  }
}
