/** A question of a DNS message (section 4.1.2 of RFC 1035): a name, a
    16-bit record type and a 16-bit record class, written one after the other
    by a packer and read back by an unpacker. */
module Question {
  import opened Wrappers
  import opened Digits
  import opened Names
  import opened Wire
  import opened Encoders
  import Packer
  import Unpacker

  const TypeA: uint16 := 1
  const ClassIN: uint16 := 1

  datatype Question = Question(name: string, qtype: uint16, cls: uint16)

  /** The type and the class as the two 16-bit fields written after the name. */
  function TypeClass(q: Question): (fs: seq<Field>)
    ensures AllFit(fs) && Widths(fs) == [U16, U16] && Values(fs) == [q.qtype, q.cls]
  {
    assert Pow(256, 2) == 0x10000;
    [Field(U16, q.qtype), Field(U16, q.cls)]
  }

  /** The four bytes after the name read back, as two 16-bit fields, to the
      type and then the class. */
  lemma TypeClassReadsBack(q: Question)
    ensures ReadFields(FieldsBytes(TypeClass(q)), 0, [U16, U16]) == Success(([q.qtype as nat, q.cls as nat], 4))
  {
    var fs := TypeClass(q);
    FieldsAfter([], fs);
    Seqs.EmptyPrefix(FieldsBytes(fs));
    FieldsBytesLength(fs);
  }

  // ------------------------------------------------------------ to_s

  /** Four lower-case hex digits. */
  function Hex4(v: uint16): (s: string)
    ensures |s| == 4
  {
    Chars(Hex, ToDigits(v, 16, 4))
  }

  /** A code without a mnemonic: `<0x1234?>`. */
  function Unknown(v: uint16): (s: string)
    ensures |s| == 9 && s[0] == '<' && s[1..3] == "0x" && s[3..7] == Hex4(v) && s[7..] == "?>"
  {
    "<0x" + Hex4(v) + "?>"
  }

  /** The four characters between `<0x` and `?>` are the code's hex digits:
      they read back to the code. */
  lemma UnknownDigits(v: uint16)
    ensures DigitsOf(Hex, Unknown(v)[3..7]).Some? && FromDigits(DigitsOf(Hex, Unknown(v)[3..7]).value, 16) == v
  {
    var ds := ToDigits(v, 16, 4);
    DigitsOfChars(Hex, ds);
    assert Pow(16, 4) == 0x10000;
    FromToDigits(v, 16, 4);
  }

  /** The mnemonic of a record type, or its code. */
  function TypeName(t: uint16): string
  {
    if t == 1 then "A"
    else if t == 2 then "NS"
    else if t == 5 then "CNAME"
    else if t == 6 then "SOA"
    else if t == 15 then "MX"
    else if t == 16 then "TXT"
    else if t == 28 then "AAAA"
    else if t == 255 then "ANY"
    else Unknown(t)
  }

  /** The mnemonic of a record class, or its code. */
  function ClassName(c: uint16): string
  {
    if c == 1 then "IN"
    else if c == 3 then "CH"
    else if c == 4 then "HS"
    else Unknown(c)
  }

  /** `to_s`: the name, then the type and the class in brackets. */
  function ToString(q: Question): string
  {
    q.name + " [" + TypeName(q.qtype) + " " + ClassName(q.cls) + "]"
  }

  /** Codes written in hex differ when the codes do. */
  lemma UnknownInjective(a: uint16, b: uint16)
    requires Unknown(a) == Unknown(b)
    ensures a == b
  {
    UnknownDigits(a);
    UnknownDigits(b);
  }

  /** Two types render alike only when they are the same type. */
  lemma TypeNameInjective(a: uint16, b: uint16)
    requires TypeName(a) == TypeName(b)
    ensures a == b
  {
    if |TypeName(a)| == 9 {
      UnknownInjective(a, b);
    }
  }

  /** Two classes render alike only when they are the same class. */
  lemma ClassNameInjective(a: uint16, b: uint16)
    requires ClassName(a) == ClassName(b)
    ensures a == b
  {
    if |ClassName(a)| == 9 {
      UnknownInjective(a, b);
    }
  }

  lemma TestComString()
    ensures ToString(Question("test.com", TypeA, ClassIN)) == "test.com [A IN]"
  {
  }

  lemma Digits1234()
    ensures ToDigits(0x1234, 16, 4) == [1, 2, 3, 4]
  {
    assert ToDigits(1, 16, 1) == [1];
    assert ToDigits(0x12, 16, 2) == [1, 2];
    assert ToDigits(0x123, 16, 3) == [1, 2, 3];
  }

  lemma Digits4321()
    ensures ToDigits(0x4321, 16, 4) == [4, 3, 2, 1]
  {
    assert ToDigits(4, 16, 1) == [4];
    assert ToDigits(0x43, 16, 2) == [4, 3];
    assert ToDigits(0x432, 16, 3) == [4, 3, 2];
  }

  lemma Hex1234()
    ensures Unknown(0x1234) == "<0x1234?>"
  {
    Digits1234();
    var s := Chars(Hex, [1, 2, 3, 4]);
    assert s[0] == '1' && s[1] == '2' && s[2] == '3' && s[3] == '4';
    assert Hex4(0x1234) == "1234";
  }

  lemma Hex4321()
    ensures Unknown(0x4321) == "<0x4321?>"
  {
    Digits4321();
    var s := Chars(Hex, [4, 3, 2, 1]);
    assert s[0] == '4' && s[1] == '3' && s[2] == '2' && s[3] == '1';
    assert Hex4(0x4321) == "4321";
  }

  lemma UnknownType()
    ensures TypeName(0x1234) == "<0x1234?>"
  {
    Hex1234();
  }

  lemma UnknownClass()
    ensures ClassName(0x4321) == "<0x4321?>"
  {
    Hex4321();
  }

  /** `test.com` with type 0x1234 and class 0x4321 renders their codes. */
  lemma UnknownString()
    ensures ToString(Question("test.com", 0x1234, 0x4321)) == "test.com" + " [" + "<0x1234?>" + " " + "<0x4321?>" + "]"
  {
    UnknownType();
    UnknownClass();
  }

  // ------------------------------------------------------------ the wire

  /** A question packed on its own: its name by a fresh packer, then the type
      and the class; the name's FormatException if it is refused. */
  function QuestionBytes(q: Question): (r: Result<seq<byte>>)
    ensures r.Success? <==> ParseName(q.name).Success?
    ensures r.Failure? ==> r.error == ParseName(q.name).error
  {
    match Packer.PackNameBytes(q.name)
    case Failure(e) => Failure(e)
    case Success(bytes) => Success(bytes + FieldsBytes(TypeClass(q)))
  }

  /** `parse`: the name from pos, then the type and the class; the position
      after them. */
  function ParseQuestion(buf: seq<byte>, pos: nat): (r: Result<(Question, nat)>)
    ensures r.Success? ==> pos < r.value.1 <= |buf|
    ensures r.Failure? ==> r.error.FormatException?
  {
    match Wire.Decode(buf, pos, {pos})
    case Failure(e) => Failure(e)
    case Success((labels, next)) =>
      match ReadFields(buf, next, [U16, U16])
      case Failure(e) => Failure(e)
      case Success((vs, end)) =>
        ReadFieldsFit(buf, next, [U16, U16]);
        ReadFieldsSucceeds(buf, next, [U16, U16]);
        assert Pow(256, 2) == 0x10000;
        Success((Question(Join(labels), vs[0], vs[1]), end))
  }

  /** The round trip: parsing a packed question gives the question back, its
      name without the trailing dot, and stops after the last byte. */
  lemma QuestionRoundTrip(q: Question)
    requires ParseName(q.name).Success?
    ensures QuestionBytes(q).Success?
    ensures ParseQuestion(QuestionBytes(q).value, 0)
            == Success((Question(Normalize(q.name), q.qtype, q.cls), |QuestionBytes(q).value|))
  {
    var ls := ParseName(q.name).value;
    var fs := TypeClass(q);
    Packer.FreshWritesInFull(ls);
    var bytes := Packer.EncodeLabels(ls) + FieldsBytes(fs);
    assert QuestionBytes(q).value == bytes;
    NameFirst(ls, FieldsBytes(fs));
    FieldsAfter(Packer.EncodeLabels(ls), fs);
    ParsedQuestion(bytes, 0, ls, |Packer.EncodeLabels(ls)|, fs, |Packer.EncodeLabels(ls)| + |FieldsBytes(fs)|);
    assert Join(ls) == Normalize(q.name);
  }

  /** A name written in full reads back from the start, whatever follows it. */
  lemma NameFirst(ls: seq<string>, rest: seq<byte>)
    requires ValidLabels(ls)
    ensures Wire.Decode(Packer.EncodeLabels(ls) + rest, 0, {0}) == Success((ls, |Packer.EncodeLabels(ls)|))
  {
    Packer.EncodeLabelsDecode([], ls, rest, {0});
    Seqs.EmptyPrefix(Packer.EncodeLabels(ls));
  }

  /** Fields written after any bytes read back from where those bytes end. */
  lemma FieldsAfter(prefix: seq<byte>, fs: seq<Field>)
    requires AllFit(fs)
    ensures ReadFields(prefix + FieldsBytes(fs), |prefix|, Widths(fs)) == Success((Values(fs), |prefix| + |FieldsBytes(fs)|))
  {
    ReadFieldsBytes(prefix, fs, []);
    Seqs.EmptySuffix(prefix + FieldsBytes(fs));
  }

  /** A name read from pos up to next, then two 16-bit fields read from next
      up to end, are the question of those labels and values parsed from pos. */
  lemma ParsedQuestion(buf: seq<byte>, pos: nat, ls: seq<string>, next: nat, fs: seq<Field>, end: nat)
    requires Wire.Decode(buf, pos, {pos}) == Success((ls, next))
    requires AllFit(fs) && Widths(fs) == [U16, U16]
    requires ReadFields(buf, next, Widths(fs)) == Success((Values(fs), end))
    ensures Pow(256, 2) == 0x10000 && |Values(fs)| == 2
    ensures ParseQuestion(buf, pos) == Success((Question(Join(ls), Values(fs)[0], Values(fs)[1]), end))
  {
    assert Pow(256, 2) == 0x10000;
    assert Fits(fs[0]) && Fits(fs[1]);
  }

  /** `pack`: the name, then the type and the class, each 16 bits big-endian;
      a refused name writes nothing. */
  method Pack(q: Question, p: Packer.Packer) returns (r: Outcome)
    requires p.Valid()
    modifies p
    ensures p.Valid()
    ensures r.Pass? <==> ParseName(q.name).Success?
    ensures r.Fail? ==> r.error == ParseName(q.name).error && p.buffer == old(p.buffer) && p.table == old(p.table)
    ensures r.Pass? ==> var ls := ParseName(q.name).value;
            p.buffer == old(p.buffer) + Packer.NameBytes(old(p.table), ls) + FieldsBytes(TypeClass(q)) &&
            p.table == Packer.NameTable(old(p.table), ls, |old(p.buffer)|)
  {
    r := p.PackName(q.name);
    if r.Fail? {
      return;
    }
    var fields := p.Pack(TypeClass(q));
  }

  /** `parse`: reads the question at the cursor and leaves the cursor after it. */
  method Parse(u: Unpacker.Unpacker) returns (r: Result<Question>)
    modifies u
    ensures var spec := ParseQuestion(u.data, old(u.cursor));
            (r.Success? <==> spec.Success?) &&
            (r.Success? ==> r.value == spec.value.0 && u.cursor == spec.value.1) &&
            (r.Failure? ==> r.error == spec.error)
  {
    var name := u.UnpackName();
    if name.Failure? {
      return Failure(name.error);
    }
    var vs := u.Unpack([U16, U16]);
    if vs.Failure? {
      return Failure(vs.error);
    }
    ReadFieldsFit(u.data, u.cursor - 4, [U16, U16]);
    assert Pow(256, 2) == 0x10000;
    return Success(Question(name.value, vs.value[0], vs.value[1]));
  }
}
