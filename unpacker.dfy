/** The Unpacker: an immutable message and a read cursor. Fields are read
    big-endian from the cursor, and names are read label by label, following
    compression pointers, with the cursor left just after the name's first
    terminator or pointer. */
module Unpacker {
  import opened Wrappers
  import opened Digits
  import opened Names
  import opened Wire

  /** Values already read in front of the outcome of the rest of a read. */
  function Prepend(vs: seq<nat>, r: Result<(seq<nat>, nat)>): Result<(seq<nat>, nat)>
  {
    match r
    case Failure(e) => Failure(e)
    case Success((ws, end)) => Success((vs + ws, end))
  }

  lemma PrependNothing(r: Result<(seq<nat>, nat)>)
    ensures Prepend([], r) == r
  {
    if r.Success? {
      assert [] + r.value.0 == r.value.0;
    }
  }

  /** Reading fields from pos is reading the first one, then the rest. */
  lemma FieldsStep(buf: seq<byte>, pos: nat, format: seq<Width>, k: nat, vs: seq<nat>)
    requires k < |format| && pos + Size(format[k]) <= |buf|
    ensures var v := FromDigits(buf[pos..pos + Size(format[k])], 256);
            Prepend(vs, ReadFields(buf, pos, format[k..]))
            == Prepend(vs + [v], ReadFields(buf, pos + Size(format[k]), format[k + 1..]))
  {
    assert format[k..][0] == format[k] && format[k..][1..] == format[k + 1..];
    var r := ReadFields(buf, pos + Size(format[k]), format[k + 1..]);
    if r.Success? {
      var v := FromDigits(buf[pos..pos + Size(format[k])], 256);
      assert vs + ([v] + r.value.0) == (vs + [v]) + r.value.0;
    }
  }

  /** The labels and the resume position already known in front of the
      outcome of the rest of a name's decoding. */
  function Continue(labels: seq<string>, resume: Option<nat>, r: Result<(seq<string>, nat)>): Result<(seq<string>, nat)>
  {
    match r
    case Failure(e) => Failure(e)
    case Success((rest, end)) => Success((labels + rest, if resume.Some? then resume.value else end))
  }

  /** Test messages are written as text: one byte per character. */
  function Ascii(s: string): (bytes: seq<byte>)
    requires forall i :: 0 <= i < |s| ==> s[i] as int < 256
    ensures |bytes| == |s| && forall i :: 0 <= i < |s| ==> bytes[i] == s[i] as int
  {
    seq(|s|, i requires 0 <= i < |s| => s[i] as int)
  }

  class Unpacker {
    const data: seq<byte>
    var cursor: nat

    constructor(data: seq<byte>)
      ensures this.data == data && cursor == 0
    {
      this.data := data;
      cursor := 0;
    }

    /** `unpack`: the values of the fields of the format, read in order from
        the cursor, which moves past them; if the message ends first, nothing
        is read and the cursor stays. */
    method Unpack(format: seq<Width>) returns (r: Result<seq<nat>>)
      modifies this
      ensures var spec := ReadFields(data, old(cursor), format);
              (r.Success? <==> spec.Success?) &&
              (r.Success? ==> r.value == spec.value.0 && cursor == spec.value.1) &&
              (r.Failure? ==> r.error == spec.error && cursor == old(cursor))
    {
      var values: seq<nat> := [];
      var pos: nat := cursor;
      var k := 0;
      assert format[0..] == format;
      PrependNothing(ReadFields(data, pos, format));
      while k < |format|
        invariant k <= |format| && cursor == old(cursor)
        invariant ReadFields(data, cursor, format) == Prepend(values, ReadFields(data, pos, format[k..]))
      {
        var w := format[k];
        if pos + Size(w) > |data| {
          assert format[k..] != [] && format[k..][0] == w;
          assert ReadFields(data, pos, format[k..]).Failure?;
          return Failure(FormatException(Truncated));
        }
        var v := FromDigits(data[pos..pos + Size(w)], 256);
        FieldsStep(data, pos, format, k, values);
        values := values + [v];
        pos := pos + Size(w);
        k := k + 1;
      }
      assert values + [] == values;
      cursor := pos;
      return Success(values);
    }

    /** `unpack_one`: `unpack` of a format of exactly one field, giving its value. */
    method UnpackOne(format: seq<Width>) returns (r: Result<nat>)
      modifies this
      ensures |format| != 1 ==> r == Failure(FormatException(NotOneField)) && cursor == old(cursor)
      ensures |format| == 1 ==> var spec := ReadField(data, old(cursor), format[0]);
              (r.Success? <==> spec.Success?) &&
              (r.Success? ==> r.value == spec.value.0 && cursor == spec.value.1) &&
              (r.Failure? ==> r.error == spec.error && cursor == old(cursor))
    {
      if |format| != 1 {
        return Failure(FormatException(NotOneField));
      }
      assert format[1..] == [];
      var values := Unpack(format);
      if values.Failure? {
        return Failure(values.error);
      }
      return Success(values.value[0]);
    }

    /** `unpack_name`: the labels from the cursor on, joined with dots. A zero
        byte ends the name, a byte of 0xC0 or more and the next byte are a
        pointer to where the name goes on, and any other byte is the length
        of the next label. The cursor ends after the name's first terminator
        or pointer; an offset read twice through pointers, or a message that
        ends first, is an error and leaves the cursor where it was. */
    method UnpackName() returns (r: Result<string>)
      modifies this
      ensures var d := Decode(data, old(cursor), {old(cursor)});
              (r.Success? <==> d.Success?) &&
              (r.Success? ==> r.value == Join(d.value.0) && cursor == d.value.1) &&
              (r.Failure? ==> r.error == d.error && cursor == old(cursor))
      ensures r.Success? ==> old(cursor) < cursor <= |data|
    {
      ghost var start := cursor;
      var pos: nat := cursor;
      var visited: set<nat> := {cursor};
      var labels: seq<string> := [];
      var resume: Option<nat> := None;
      ghost var d0 := Decode(data, pos, visited);
      if d0.Success? {
        assert [] + d0.value.0 == d0.value.0;
      }
      while true
        invariant Decode(data, start, {start}) == Continue(labels, resume, Decode(data, pos, visited))
        invariant resume.Some? ==> start < resume.value <= |data|
        invariant resume.None? ==> start <= pos
        decreases AllOffsets - visited, |data| - pos
      {
        if pos >= |data| {
          return Failure(FormatException(Truncated));
        }
        var b := data[pos];
        if b == 0 {
          assert labels + [] == labels;
          cursor := if resume.Some? then resume.value else pos + 1;
          return Success(Join(labels));
        } else if b >= 0xC0 {
          if pos + 1 >= |data| {
            return Failure(FormatException(Truncated));
          }
          var target := PointerTarget(b, data[pos + 1]);
          if target in visited {
            return Failure(FormatException(PointerLoop));
          }
          assert target in AllOffsets;
          if resume.None? {
            resume := Some(pos + 2);
          }
          visited := visited + {target};
          pos := target;
        } else {
          if pos + 1 + b > |data| {
            return Failure(FormatException(Truncated));
          }
          var next := pos + 1 + b;
          var l := ReadLabel(data, pos);
          ghost var d := Decode(data, next, visited);
          if d.Success? {
            assert labels + ([l] + d.value.0) == (labels + [l]) + d.value.0;
          }
          labels := labels + [l];
          pos := next;
        }
      }
    }
  }

  // ------------------------------------------------------------ the cases of unpacker_test.rb

  /** `unpack('NnC')` of "AAAABBC" and its truncated variants. */
  lemma UnpackFieldsCases()
    ensures ReadFields(Ascii("AAAABBC"), 0, [U32, U16, U8]) == Success(([0x41414141, 0x4242, 0x43], 7))
    ensures ReadFields(Ascii("AAAA"), 0, [U32, U16]) == Failure(FormatException(Truncated))
    ensures ReadFields(Ascii("AAA"), 0, [U32]) == Failure(FormatException(Truncated))
    ensures ReadFields([], 0, [U32]) == Failure(FormatException(Truncated))
  {
    var buf := Ascii("AAAABBC");
    assert buf == [0x41, 0x41, 0x41, 0x41, 0x42, 0x42, 0x43];
    FourBytes();
    TwoBytes();
    assert buf[0..4] == [0x41, 0x41, 0x41, 0x41];
    assert buf[4..6] == [0x42, 0x42];
    assert buf[6..7] == [0x43];
    assert FromDigits([0x43], 256) == 0x43 by { assert [0x43][..0] == []; }
    assert [U32, U16, U8][1..] == [U16, U8] && [U16, U8][1..] == [U8] && [U8][1..] == [];
    assert ReadField(buf, 6, U8) == Success((0x43, 7));
    assert [0x43] + [] == [0x43] && [0x4242] + [0x43] == [0x4242, 0x43];
    assert [0x41414141] + [0x4242, 0x43] == [0x41414141, 0x4242, 0x43];
    assert ReadFields(buf, 6, [U8]) == Success(([0x43], 7));
    assert ReadField(buf, 4, U16) == Success((0x4242, 6));
    assert ReadFields(buf, 4, [U16, U8]) == Success(([0x4242, 0x43], 7));
    assert ReadField(buf, 0, U32) == Success((0x41414141, 4));
    assert |Ascii("AAAA")| == 4 && |Ascii("AAA")| == 3;
    assert ReadFields(Ascii("AAAA"), 4, [U16]) == Failure(FormatException(Truncated));
  }

  lemma TwoBytes()
    ensures FromDigits([0x42, 0x42], 256) == 0x4242
  {
    assert [0x42, 0x42][..1] == [0x42];
    assert [0x42][..0] == [];
  }

  lemma FourBytes()
    ensures FromDigits([0x41, 0x41, 0x41, 0x41], 256) == 0x41414141
  {
    assert [0x41, 0x41, 0x41, 0x41][..3] == [0x41, 0x41, 0x41];
    assert [0x41, 0x41, 0x41][..2] == [0x41, 0x41];
    assert [0x41, 0x41][..1] == [0x41];
    assert [0x41][..0] == [];
  }

  /** The three `unpack_one` calls of the multiple-unpack test move the cursor
      from field to field; a two-field format is refused. */
  method MultipleUnpackCase() returns (a: Result<nat>, b: Result<nat>, c: Result<nat>, d: Result<nat>)
    ensures a == Success(0x41414141) && b == Success(0x4242) && c == Success(0x43)
    ensures d == Failure(FormatException(NotOneField))
  {
    var data := Ascii("AAAABBC");
    assert data == [0x41, 0x41, 0x41, 0x41, 0x42, 0x42, 0x43];
    FourBytes();
    TwoBytes();
    assert data[0..4] == [0x41, 0x41, 0x41, 0x41];
    assert data[4..6] == [0x42, 0x42];
    assert data[6..7] == [0x43];
    assert FromDigits([0x43], 256) == 0x43 by { assert [0x43][..0] == []; }
    var u := new Unpacker(data);
    a := u.UnpackOne([U32]);
    b := u.UnpackOne([U16]);
    c := u.UnpackOne([U8]);
    var u2 := new Unpacker(data);
    d := u2.UnpackOne([U32, U32]);
  }
}
