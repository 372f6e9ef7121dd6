/** Positional parsing of machine formats (crates/refyard-core/src/bytes.rs). */
module Framing {
  import opened Wrappers
  import opened Bytes

  datatype FrameError = Incomplete | Unparsable

  // ---------------------------------------------------------------- NUL-terminated frames

  /** Frames, each followed by its NUL. */
  function Terminated(frames: seq<seq<byte>>): seq<byte> {
    if frames == [] then [] else Terminated(frames[..|frames| - 1]) + frames[|frames| - 1] + [0]
  }

  predicate NulFree(frames: seq<seq<byte>>) { forall i :: 0 <= i < |frames| ==> 0 !in frames[i] }

  /** `split_nul_frames`. */
  method SplitNulFrames(bytes: seq<byte>) returns (result: Result<seq<seq<byte>>, FrameError>)
    ensures result.Ok? <==> bytes == [] || bytes[|bytes| - 1] == 0
    ensures result.Err? ==> result.error == Incomplete
    ensures result.Ok? ==> NulFree(result.value) && Terminated(result.value) == bytes
  {
    if |bytes| == 0 { return Ok([]); }
    if bytes[|bytes| - 1] != 0 { return Err(Incomplete); }
    var frames: seq<seq<byte>> := [];
    var start, index := 0, 0;
    while index < |bytes|
      invariant 0 <= start <= index <= |bytes|
      invariant NulFree(frames) && Terminated(frames) == bytes[..start]
      invariant 0 !in bytes[start..index]
      invariant index == |bytes| ==> start == |bytes|
    {
      if bytes[index] == 0 {
        var frame := bytes[start..index];
        assert (frames + [frame])[..|frames|] == frames;
        assert bytes[..index + 1] == bytes[..start] + frame + [0];
        frames := frames + [frame];
        start := index + 1;
      } else {
        assert bytes[start..index + 1] == bytes[start..index] + [bytes[index]];
      }
      index := index + 1;
    }
    assert bytes[..start] == bytes;
    result := Ok(frames);
  }

  /** Only one list of frames reads as a given stream, so splitting inverts terminating. */
  lemma {:induction false} TerminatedInjective(a: seq<seq<byte>>, b: seq<seq<byte>>)
    requires NulFree(a) && NulFree(b) && Terminated(a) == Terminated(b)
    ensures a == b
    decreases |a|
  {
    if a == [] || b == [] {
      assert |Terminated(a)| == |Terminated(b)|;
      assert a == [] && b == [];
    } else {
      var s, t := Terminated(a[..|a| - 1]), Terminated(b[..|b| - 1]);
      EndsAtNul(a[..|a| - 1]);
      EndsAtNul(b[..|b| - 1]);
      LastFrame(s, a[|a| - 1], t, b[|b| - 1]);
      TerminatedInjective(a[..|a| - 1], b[..|b| - 1]);
      assert a == a[..|a| - 1] + [a[|a| - 1]] && b == b[..|b| - 1] + [b[|b| - 1]];
    }
  }

  lemma EndsAtNul(frames: seq<seq<byte>>)
    ensures Terminated(frames) == [] || Terminated(frames)[|Terminated(frames)| - 1] == 0
  {}

  lemma NoNulBehind(s: seq<byte>, a: seq<byte>, t: seq<byte>, b: seq<byte>)
    requires s + a == t + b && 0 !in a && (t == [] || t[|t| - 1] == 0)
    ensures |t| <= |s|
  {
    forall k | |s| <= k < |s + a| ensures (s + a)[k] != 0 {
      assert (s + a)[k] == a[k - |s|];
    }
    if t != [] { assert (t + b)[|t| - 1] == 0; }
  }

  lemma LastFrame(s: seq<byte>, a: seq<byte>, t: seq<byte>, b: seq<byte>)
    requires s + a + [0] == t + b + [0] && 0 !in a && 0 !in b
    requires (s == [] || s[|s| - 1] == 0) && (t == [] || t[|t| - 1] == 0)
    ensures s == t && a == b
  {
    var whole := s + a + [0];
    assert whole[..|s| + |a|] == s + a && (t + b + [0])[..|t| + |b|] == t + b;
    assert s + a == t + b;
    NoNulBehind(s, a, t, b);
    NoNulBehind(t, b, s, a);
    assert (s + a)[..|s|] == s && (t + b)[..|t|] == t;
    assert (s + a)[|s|..] == a && (t + b)[|t|..] == b;
  }

  /** Splitting what was terminated gives the frames back, whatever else they contain. */
  method SplitInvertsTerminated(frames: seq<seq<byte>>) returns (result: Result<seq<seq<byte>>, FrameError>)
    requires NulFree(frames)
    ensures result == Ok(frames)
  {
    EndsAtNul(frames);
    result := SplitNulFrames(Terminated(frames));
    TerminatedInjective(result.value, frames);
  }

  // ---------------------------------------------------------------- the positional reader

  const SPACE: byte := 32

  /** Where the field that starts at `from` ends: at the next space, or at the end. */
  function FieldEnd(bytes: seq<byte>, from: nat): (end: nat)
    requires from <= |bytes|
    ensures from <= end <= |bytes|
    ensures SPACE !in bytes[from..end] && (end < |bytes| ==> bytes[end] == SPACE)
    decreases |bytes| - from
  {
    if from == |bytes| || bytes[from] == SPACE then from
    else
      var end := FieldEnd(bytes, from + 1);
      assert bytes[from..end] == [bytes[from]] + bytes[from + 1..end];
      end
  }

  class FrameReader {
    const bytes: seq<byte>
    var offset: nat

    /** The offset never passes the end. */
    ghost predicate Valid()
      reads this
    {
      offset <= |bytes|
    }

    constructor (bytes: seq<byte>)
      ensures Valid() && this.bytes == bytes && offset == 0
    {
      this.bytes := bytes;
      offset := 0;
    }

    method TakeRest() returns (rest: seq<byte>)
      requires Valid()
      modifies this
      ensures Valid() && rest == bytes[old(offset)..] && offset == |bytes|
    {
      rest := bytes[offset..];
      offset := |bytes|;
    }

    method TakeBytes(length: nat) returns (result: Result<seq<byte>, FrameError>)
      requires Valid()
      modifies this
      ensures Valid()
      ensures result.Ok? <==> old(offset) + length <= |bytes|
      ensures result.Ok? ==> offset == old(offset) + length && result.value == bytes[old(offset)..offset]
      ensures result.Err? ==> result.error == Unparsable && offset == old(offset)
    {
      if |bytes| - offset < length { return Err(Unparsable); }
      result := Ok(bytes[offset..offset + length]);
      offset := offset + length;
    }

    /** `take_field`: the cursor is left on the separator. */
    method TakeField() returns (result: Result<seq<byte>, FrameError>)
      requires Valid()
      modifies this
      ensures Valid()
      ensures result.Ok? <==> FieldEnd(bytes, old(offset)) > old(offset)
      ensures result.Ok? ==> offset == FieldEnd(bytes, old(offset)) && result.value == bytes[old(offset)..offset]
      ensures result.Err? ==> result.error == Unparsable && offset == old(offset)
    {
      var start, end := offset, offset;
      while end < |bytes| && bytes[end] != SPACE
        invariant start <= end <= |bytes|
        invariant FieldEnd(bytes, end) == FieldEnd(bytes, start)
      {
        end := end + 1;
      }
      if end == start { return Err(Unparsable); }
      offset := end;
      result := Ok(bytes[start..end]);
    }

    method TakeByte() returns (result: Result<byte, FrameError>)
      requires Valid()
      modifies this
      ensures Valid()
      ensures result.Ok? <==> old(offset) < |bytes|
      ensures result.Ok? ==> offset == old(offset) + 1 && result.value == bytes[old(offset)]
      ensures result.Err? ==> result.error == Unparsable && offset == old(offset)
    {
      if offset >= |bytes| { return Err(Unparsable); }
      result := Ok(bytes[offset]);
      offset := offset + 1;
    }

    /** `expect_space`: a byte that is not a space is consumed all the same. */
    method ExpectSpace() returns (result: Result<(), FrameError>)
      requires Valid()
      modifies this
      ensures Valid()
      ensures result.Ok? <==> old(offset) < |bytes| && bytes[old(offset)] == SPACE
      ensures result.Err? ==> result.error == Unparsable
      ensures offset == if old(offset) < |bytes| then old(offset) + 1 else old(offset)
    {
      var taken := TakeByte();
      if taken.Err? { return Err(Unparsable); }
      if taken.value != SPACE { return Err(Unparsable); }
      return Ok(());
    }

    /** The way every record parser uses the reader: a fixed number of fields, each followed
        by a space, and then the path, untouched. */
    method ReadRecord(ghost fields: seq<seq<byte>>, count: nat, ghost path: seq<byte>)
      returns (read: seq<seq<byte>>, rest: seq<byte>)
      requires Valid() && offset == 0 && count == |fields|
      requires Fields(fields) && bytes == Record(fields, path)
      modifies this
      ensures Valid() && read == fields && rest == path && offset == |bytes|
    {
      hide Record, FieldEnd;
      read := [];
      RecordNone([]);
      RecordNone(Record(fields, path));
      assert fields[0..] == fields;
      while |read| < count
        invariant Valid() && |read| <= count && read == fields[..|read|]
        invariant offset == |Record(read, [])|
        invariant bytes == Record(read, Record(fields[|read|..], path))
        decreases count - |read|
      {
        ghost var k := |read|;
        ghost var field, tail := fields[k], Record(fields[k + 1..], path);
        assert fields[k..][1..] == fields[k + 1..] && fields[..k + 1] == fields[..k] + [field];
        RecordAt(read, fields[k..], path);
        RecordCons(fields[k..], path);
        FieldFound(bytes, offset, field, tail);
        var result := TakeField();
        var space := ExpectSpace();
        RecordSnoc(read, field, tail);
        RecordSnoc(read, field, []);
        RecordEmpty(read, field + ([SPACE] + []));
        read := read + [result.value];
      }
      assert fields[|read|..] == [] && fields[..|read|] == fields;
      RecordNone(path);
      RecordEmpty(read, path);
      rest := TakeRest();
    }
  }

  // ---------------------------------------------------------------- records

  predicate Fields(fields: seq<seq<byte>>) {
    forall i :: 0 <= i < |fields| ==> fields[i] != [] && SPACE !in fields[i]
  }

  /** Fields, each followed by a space, and what comes after them. */
  function Record(fields: seq<seq<byte>>, rest: seq<byte>): seq<byte> {
    if fields == [] then rest else fields[0] + ([SPACE] + Record(fields[1..], rest))
  }

  lemma {:induction false} FieldFound(bytes: seq<byte>, from: nat, field: seq<byte>, tail: seq<byte>)
    requires from <= |bytes| && bytes[from..] == field + ([SPACE] + tail) && SPACE !in field
    ensures FieldEnd(bytes, from) == from + |field| < |bytes|
    ensures bytes[from..from + |field|] == field && bytes[from + |field|] == SPACE
    decreases |field|
  {
    assert forall i :: 0 <= i < |bytes| - from ==> bytes[from + i] == bytes[from..][i];
    if field != [] {
      assert bytes[from + 1..] == bytes[from..][1..] == field[1..] + ([SPACE] + tail);
      FieldFound(bytes, from + 1, field[1..], tail);
    }
  }

  lemma {:induction false} RecordEmpty(fields: seq<seq<byte>>, rest: seq<byte>)
    ensures Record(fields, rest) == Record(fields, []) + rest
    decreases |fields|
  {
    if fields != [] { RecordEmpty(fields[1..], rest); }
  }

  lemma RecordNone(rest: seq<byte>)
    ensures Record([], rest) == rest
  {}

  lemma RecordCons(fields: seq<seq<byte>>, rest: seq<byte>)
    requires fields != []
    ensures Record(fields, rest) == fields[0] + ([SPACE] + Record(fields[1..], rest))
  {}

  lemma RecordAt(read: seq<seq<byte>>, more: seq<seq<byte>>, path: seq<byte>)
    requires more != []
    ensures var bytes, offset := Record(read, Record(more, path)), |Record(read, [])|;
            offset <= |bytes| && bytes[offset..] == more[0] + ([SPACE] + Record(more[1..], path))
  {
    RecordEmpty(read, Record(more, path));
  }

  lemma {:induction false} RecordSnoc(read: seq<seq<byte>>, field: seq<byte>, tail: seq<byte>)
    ensures Record(read + [field], tail) == Record(read, field + ([SPACE] + tail))
    decreases |read|
  {
    if read != [] {
      RecordSnoc(read[1..], field, tail);
      assert (read + [field])[1..] == read[1..] + [field];
    }
  }
}
