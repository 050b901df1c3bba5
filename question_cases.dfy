/** The case of question_test.rb: `test.com`, type A, class IN, packed by a
    fresh packer and parsed back by an unpacker over the packed bytes. */
module QuestionCases {
  import opened Wrappers
  import opened Names
  import opened Wire
  import Seqs
  import opened Digits
  import opened Question
  import Packer
  import Unpacker
  import PackerCases

  lemma TypeClassBytes()
    ensures FieldsBytes(TypeClass(Question("test.com", TypeA, ClassIN))) == [0, 1, 0, 1]
  {
    var fs := TypeClass(Question("test.com", TypeA, ClassIN));
    assert fs == [Field(U16, 1), Field(U16, 1)];
    FieldPair(fs, 1, 1);
    OneU16();
  }

  /** Two 16-bit fields are their bytes one after the other. */
  lemma FieldPair(fs: seq<Field>, a: uint16, b: uint16)
    requires fs == [Field(U16, a), Field(U16, b)]
    ensures Pow(256, 2) == 0x10000 && AllFit(fs) && FieldsBytes(fs) == FieldBytes(U16, a) + FieldBytes(U16, b)
  {
    assert Pow(256, 2) == 0x10000;
    assert fs[1..][1..] == [];
    assert FieldsBytes(fs[1..]) == FieldBytes(U16, b) + [];
  }

  lemma OneU16()
    ensures Pow(256, 2) == 0x10000 && FieldBytes(U16, 1) == [0, 1]
  {
    assert ToDigits(0, 256, 1) == [0];
  }

  function TestCom(): Question
  {
    Question("test.com", TypeA, ClassIN)
  }

  function TestComWire(): seq<byte>
  {
    [4, 0x74, 0x65, 0x73, 0x74, 3, 0x63, 0x6f, 0x6d, 0] + [0, 1, 0, 1]
  }

  /** `test.com` parses into two labels, which a fresh packer writes in full. */
  lemma TestComName()
    ensures ParseName("test.com") == Success(["test", "com"])
    ensures Packer.NameBytes(map[], ["test", "com"]) == [4, 0x74, 0x65, 0x73, 0x74, 3, 0x63, 0x6f, 0x6d, 0]
  {
    PackerCases.TestComKeys();
    PackerCases.TestComJoins();
    PackerCases.ParsesTo(["test", "com"]);
    Packer.FreshWritesInFull(["test", "com"]);
    PackerCases.TestComBytes();
  }

  /** The bytes of the question: the name written in full, then type and class. */
  lemma TestComPacked()
    ensures ParseName("test.com") == Success(["test", "com"])
    ensures Packer.NameBytes(map[], ["test", "com"]) + FieldsBytes(TypeClass(TestCom())) == TestComWire()
    ensures QuestionBytes(TestCom()) == Success(TestComWire())
  {
    TestComName();
    TypeClassBytes();
  }

  /** Parsing those bytes gives the question back and stops after them. */
  lemma TestComParsed()
    ensures ParseQuestion(TestComWire(), 0) == Success((TestCom(), 14))
  {
    TestComPacked();
    QuestionRoundTrip(TestCom());
    assert Normalize("test.com") == "test.com";
  }

  method QuestionCase() returns (bytes: seq<byte>, parsed: Result<Question>)
    ensures bytes == [4, 0x74, 0x65, 0x73, 0x74, 3, 0x63, 0x6f, 0x6d, 0] + [0, 1, 0, 1]
    ensures parsed == Success(Question("test.com", TypeA, ClassIN))
  {
    TestComPacked();
    TestComParsed();
    var p := new Packer.Packer();
    var r := Pack(TestCom(), p);
    bytes := p.Get();
    Seqs.EmptyPrefix(Packer.NameBytes(map[], ["test", "com"]));
    var u := new Unpacker.Unpacker(bytes);
    parsed := Parse(u);
  }
}
