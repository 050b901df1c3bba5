/** The cases of the packer's tests: which names `pack_name` accepts, and the
    exact bytes a packer holds after a sequence of calls, compression
    pointers included. */
module PackerCases {
  import opened Wrappers
  import opened Names
  import opened Wire
  import opened Digits
  import opened Seqs
  import opened Packer

  /** A name ends with the last character of its last label, never a dot. */
  lemma {:induction false} JoinLast(ls: seq<string>)
    requires |ls| >= 1 && ls[|ls| - 1] != "" && forall i :: 0 <= i < |ls| ==> '.' !in ls[i]
    ensures |Join(ls)| > 0 && Join(ls)[|Join(ls)| - 1] != '.'
  {
    if |ls| > 1 {
      JoinLast(ls[1..]);
    }
  }

  /** A name written as labels joined with dots, with or without one trailing
      dot, parses to those labels. */
  lemma ParsesTo(ls: seq<string>)
    requires |ls| >= 1 && ValidLabels(ls) && |Join(ls)| <= MaxNameLength
    ensures ParseName(Join(ls)) == Success(ls)
    ensures |Join(ls)| < MaxNameLength ==> ParseName(Join(ls) + ".") == Success(ls)
  {
    JoinLast(ls);
    SplitJoin(ls);
    var name := Join(ls);
    assert Normalize(name) == name;
    assert Normalize(name + ".") == name by {
      assert (name + ".")[..|name|] == name;
    }
  }

  /** The labels of a dotted name whose last label is not empty. */
  lemma LabelsOfJoin(ls: seq<string>)
    requires |ls| >= 1 && ls[|ls| - 1] != "" && forall i :: 0 <= i < |ls| ==> '.' !in ls[i]
    ensures Normalize(Join(ls)) == Join(ls) && LabelsOf(Join(ls)) == ls
  {
    JoinLast(ls);
    SplitJoin(ls);
  }

  /** `test..com` has an empty label. */
  lemma EmptyLabelCase()
    ensures ParseName("test..com") == Failure(FormatException(EmptyLabel))
  {
    LabelsOfJoin(["test", "", "com"]);
    EmptyLabelJoin();
  }

  lemma EmptyLabelJoin()
    ensures Join(["test", "", "com"]) == "test..com"
  {
    assert ["test", "", "com"][1..] == ["", "com"] && ["", "com"][1..] == ["com"];
    assert Join(["", "com"]) == ".com";
  }

  /** `te\x00st.com`, written in single quotes, holds a backslash. */
  lemma IllegalCharacterCase()
    ensures ParseName("te\\x00st.com") == Failure(FormatException(IllegalCharacter))
  {
    var l := "te\\x00st";
    LabelsOfJoin([l, "com"]);
    assert Join([l, "com"]) == "te\\x00st.com";
    assert IllegalChar(l[2]);
  }

  lemma RunOfA(n: nat)
    requires 1 <= n <= MaxLabelLength
    ensures ValidLabel(Repeat('A', n))
  {
    var a := Repeat('A', n);
    assert forall i :: 0 <= i < n ==> a[i] == 'A';
  }

  /** A label of 63 characters is accepted and one of 64 refused. */
  lemma LabelLengthCases()
    ensures ParseName(Repeat('A', 63) + ".com") == Success([Repeat('A', 63), "com"])
    ensures ParseName(Repeat('A', 64) + ".com") == Failure(FormatException(LabelTooLong))
  {
    var a, b := Repeat('A', 63), Repeat('A', 64);
    RunOfA(63);
    assert Join([a, "com"]) == a + ".com";
    assert Join([b, "com"]) == b + ".com";
    ParsesTo([a, "com"]);
    LabelsOfJoin([b, "com"]);
    assert CheckLabels([b, "com"]) == Fail(FormatException(LabelTooLong));
  }

  /** Eight labels of 31 characters joined with dots, less their first two
      characters, are 253 characters: accepted; one more character is refused. */
  lemma NameLengthCases()
    ensures var ls := [Repeat('A', 29)] + Repeat(Repeat('A', 31), 7);
            |Join(ls)| == 253 && ParseName(Join(ls)) == Success(ls) &&
            ParseName("A" + Join(ls)) == Failure(FormatException(NameTooLong))
  {
    var a := Repeat('A', 31);
    var ls := [Repeat('A', 29)] + Repeat(a, 7);
    RunOfA(29);
    RunOfA(31);
    assert ls[1..] == Repeat(a, 7);
    JoinRepeat(a, 7);
    assert ValidLabels(ls) by {
      forall i | 0 <= i < |ls|
        ensures ValidLabel(ls[i])
      {
        if i > 0 {
          assert ls[i] == Repeat(a, 7)[i - 1];
        }
      }
    }
    ParsesTo(ls);
  }

  /** n copies of a joined with dots. */
  lemma {:induction false} JoinRepeat(a: string, n: nat)
    requires n >= 1
    ensures |Join(Repeat(a, n))| == n * (|a| + 1) - 1
  {
    if n > 1 {
      assert Repeat(a, n)[1..] == Repeat(a, n - 1);
      JoinRepeat(a, n - 1);
    }
  }

  /** A label of lower-case letters is valid and its own compression key. */
  lemma {:induction false} LowerLabel(l: string)
    requires forall j :: 0 <= j < |l| ==> 'a' <= l[j] <= 'z'
    ensures (1 <= |l| <= MaxLabelLength ==> ValidLabel(l)) && FoldLabel(l) == l
  {
    if l != [] {
      LowerLabel(l[1..]);
    }
  }

  lemma LowerLabels()
    ensures ValidLabel("www") && FoldLabel("www") == "www"
    ensures ValidLabel("test") && FoldLabel("test") == "test"
    ensures ValidLabel("com") && FoldLabel("com") == "com"
  {
    LowerLabel("www");
    LowerLabel("test");
    LowerLabel("com");
  }

  lemma TestComKeys()
    ensures ValidLabels(["test", "com"]) && Fold(["test", "com"]) == ["test", "com"] && Fold(["com"]) == ["com"]
  {
    LowerLabels();
    FoldCons("com", []);
    assert ["com"] + [] == ["com"];
    FoldCons("test", ["com"]);
    assert ["test"] + ["com"] == ["test", "com"];
  }

  lemma WwwTestComKeys()
    ensures ValidLabels(["www", "test", "com"]) && Fold(["www", "test", "com"]) == ["www", "test", "com"]
  {
    LowerLabels();
    TestComKeys();
    FoldCons("www", ["test", "com"]);
    assert ["www"] + ["test", "com"] == ["www", "test", "com"];
  }

  lemma TestComJoins()
    ensures Join(["test", "com"]) == "test.com" && Join(["www", "test", "com"]) == "www.test.com"
  {
    assert ["test", "com"][1..] == ["com"];
    assert ["www", "test", "com"][1..] == ["test", "com"];
  }

  /** The labels of `test.com` and `www.test.com`: valid, and their own keys. */
  lemma TestComLabels()
    ensures ValidLabels(["test", "com"]) && Fold(["test", "com"]) == ["test", "com"] && Fold(["com"]) == ["com"]
    ensures ValidLabels(["www", "test", "com"]) && Fold(["www", "test", "com"]) == ["www", "test", "com"]
    ensures Join(["test", "com"]) == "test.com" && Join(["www", "test", "com"]) == "www.test.com"
  {
    TestComKeys();
    WwwTestComKeys();
    TestComJoins();
  }

  lemma AbcdFits()
    ensures AllFit([Field(U32, 0x41424344)]) && FieldsBytes([Field(U32, 0x41424344)]) == [0x41, 0x42, 0x43, 0x44]
  {
    AbcdCase();
  }

  lemma AbcdBytes()
    ensures Pow(256, 4) == 0x1_0000_0000 && FieldBytes(U32, 0x41424344) == [0x41, 0x42, 0x43, 0x44]
  {
    assert ToDigits(0x41, 256, 1) == [0x41];
    assert ToDigits(0x4142, 256, 2) == [0x41, 0x42];
    assert ToDigits(0x414243, 256, 3) == [0x41, 0x42, 0x43];
  }

  lemma EfgBytes()
    ensures Pow(256, 2) == 0x1_0000 && Pow(256, 1) == 0x100
    ensures FieldBytes(U16, 0x4546) == [0x45, 0x46] && FieldBytes(U8, 0x47) == [0x47]
  {
    assert ToDigits(0x45, 256, 1) == [0x45];
  }

  /** Four bytes ABCD as one 32-bit field. */
  lemma AbcdCase()
    ensures FieldsBytes([Field(U32, 0x41424344)]) == [0x41, 0x42, 0x43, 0x44]
  {
    AbcdBytes();
    assert [Field(U32, 0x41424344)][1..] == [];
  }

  /** Three fields are written one after the other. */
  lemma FieldsThree(a: Field, b: Field, c: Field)
    requires Fits(a) && Fits(b) && Fits(c)
    ensures AllFit([a, b, c])
    ensures FieldsBytes([a, b, c]) == FieldBytes(a.width, a.value) + FieldBytes(b.width, b.value) + FieldBytes(c.width, c.value)
  {
    var fs := [a, b, c];
    assert fs[1..] == [b, c] && fs[1..][1..] == [c] && fs[1..][1..][1..] == [];
    assert FieldsBytes([c]) == FieldBytes(c.width, c.value);
    assert FieldsBytes([b, c]) == FieldBytes(b.width, b.value) + FieldsBytes([c]);
  }

  lemma FieldsCase()
    ensures FieldsBytes([Field(U32, 0x41424344), Field(U16, 0x4546), Field(U8, 0x47)])
            == [0x41, 0x42, 0x43, 0x44] + [0x45, 0x46] + [0x47]
  {
    FieldsThree(Field(U32, 0x41424344), Field(U16, 0x4546), Field(U8, 0x47));
    AbcdBytes();
    EfgBytes();
  }

  /** `pack('NnC', 0x41424344, 0x4546, 0x47)` appends "ABCDEFG". */
  method PackFieldsCase() returns (bytes: seq<byte>)
    ensures bytes == [0x41, 0x42, 0x43, 0x44] + [0x45, 0x46] + [0x47]
  {
    FieldsCase();
    var p := new Packer();
    var r := p.Pack([Field(U32, 0x41424344), Field(U16, 0x4546), Field(U8, 0x47)]);
    bytes := p.Get();
  }

  /** `test.com` written in full. */
  lemma TestComBytes()
    ensures EncodeLabels(["test", "com"]) == [4, 0x74, 0x65, 0x73, 0x74, 3, 0x63, 0x6f, 0x6d, 0]
  {
    assert ["test", "com"][1..] == ["com"] && ["com"][1..] == [];
    assert LabelBytes("com") == [3, 0x63, 0x6f, 0x6d];
    assert LabelBytes("test") == [4, 0x74, 0x65, 0x73, 0x74];
  }

  /** `www.test.com` written in full. */
  lemma WwwTestComBytes()
    ensures EncodeLabels(["www", "test", "com"]) == [3, 0x77, 0x77, 0x77] + [4, 0x74, 0x65, 0x73, 0x74, 3, 0x63, 0x6f, 0x6d, 0]
  {
    assert ["www", "test", "com"][1..] == ["test", "com"];
    assert LabelBytes("www") == [3, 0x77, 0x77, 0x77];
    TestComBytes();
  }

  /** A fresh packer writes `test.com` at offset 4 in full and records both
      of its suffixes. */
  lemma TestComFresh()
    ensures ParseName("test.com") == Success(["test", "com"])
    ensures NameBytes(map[], ["test", "com"]) == [4, 0x74, 0x65, 0x73, 0x74, 3, 0x63, 0x6f, 0x6d, 0]
    ensures NameTable(map[], ["test", "com"], 4) == map[["test", "com"] := 4, ["com"] := 9]
  {
    var ls := ["test", "com"];
    TestComLabels();
    ParsesTo(ls);
    FreshWritesInFull(ls);
    TestComBytes();
    FreshFrom(ls, 0);
    assert ls[0..] == ls && ls[1..] == ["com"];
    assert Records(map[], ls, 4, 1) == map[ls := 4];
    assert Offset(ls, 4, 1) == 9;
  }

  /** Once both suffixes are known, `test.com` is a pointer to offset 4. */
  lemma TestComKnown()
    ensures NameBytes(map[["test", "com"] := 4, ["com"] := 9], ["test", "com"]) == [0xc0, 4]
  {
    var ls := ["test", "com"];
    TestComLabels();
    assert ls[0..] == ls;
  }

  /** With `test.com` known, `www.test.com` is its first label, then a
      pointer to offset 4. */
  lemma WwwTestComKnown()
    ensures NameBytes(map[["test", "com"] := 4, ["com"] := 9], ["www", "test", "com"]) == [3, 0x77, 0x77, 0x77] + [0xc0, 4]
  {
    var t: Table := map[["test", "com"] := 4, ["com"] := 9];
    var tc: seq<string> := ["test", "com"];
    var wtc: seq<string> := ["www", "test", "com"];
    TestComKeys();
    WwwTestComKeys();
    assert Fold(tc) in t && t[Fold(tc)] == 4;
    assert Fold(wtc) !in t by {
      assert |Fold(wtc)| == 3;
    }
    assert ["www"] + tc == wtc;
    LabelThenPointer(t, "www", tc);
    WwwLabelBytes();
    NearPointer(4);
  }

  lemma TestComParses()
    ensures ParseName("test.com") == Success(["test", "com"])
  {
    TestComLabels();
    ParsesTo(["test", "com"]);
  }

  lemma WwwTestComParses()
    ensures ParseName("www.test.com") == Success(["www", "test", "com"])
  {
    TestComLabels();
    ParsesTo(["www", "test", "com"]);
  }

  /** A fresh packer writes `www.test.com` at offset 4 in full. */
  lemma WwwTestComFresh()
    ensures NameBytes(map[], ["www", "test", "com"]) == [3, 0x77, 0x77, 0x77] + [4, 0x74, 0x65, 0x73, 0x74, 3, 0x63, 0x6f, 0x6d, 0]
  {
    var ls := ["www", "test", "com"];
    TestComLabels();
    FreshWritesInFull(ls);
    WwwTestComBytes();
  }

  /** After `www.test.com` at an offset off, `test.com` is a pointer to off + 4. */
  lemma TestComInside(off: nat)
    requires off + 4 < PointerLimit
    ensures ValidLabels(["test", "com"])
    ensures NameBytes(NameTable(map[], ["www", "test", "com"], off), ["test", "com"]) == PointerBytes(off + 4)
  {
    WwwTestComKeys();
    FreshSuffixPointer(["www", "test", "com"], off, ["test", "com"]);
  }

  /** `test.com` packed twice after four bytes: the second time it is a
      pointer to offset 4. */
  method PointerCase() returns (bytes: seq<byte>)
    ensures bytes == [0x41, 0x42, 0x43, 0x44] + [4, 0x74, 0x65, 0x73, 0x74, 3, 0x63, 0x6f, 0x6d, 0] + [0xc0, 4]
  {
    var p := new Packer();
    AbcdCase();
    var r0 := p.Pack([Field(U32, 0x41424344)]);
    assert p.buffer == [0x41, 0x42, 0x43, 0x44] && p.table == map[];
    ghost var b0 := p.buffer;
    TestComFresh();
    var r1 := p.PackName("test.com");
    assert p.buffer == b0 + [4, 0x74, 0x65, 0x73, 0x74, 3, 0x63, 0x6f, 0x6d, 0];
    assert p.table == map[["test", "com"] := 4, ["com"] := 9];
    ghost var b1 := p.buffer;
    TestComKnown();
    var r2 := p.PackName("test.com");
    assert p.buffer == b1 + [0xc0, 4];
    bytes := p.Get();
  }

  /** `www.test.com`, then `test.com`, after four bytes: the second name is
      a pointer to the suffix `test.com` inside the first, at offset 8. */
  method SuffixPointerCase() returns (bytes: seq<byte>)
    ensures bytes == [0x41, 0x42, 0x43, 0x44] + ([3, 0x77, 0x77, 0x77] + [4, 0x74, 0x65, 0x73, 0x74, 3, 0x63, 0x6f, 0x6d, 0]) + [0xc0, 8]
  {
    var p := new Packer();
    AbcdFits();
    SuffixPointerSteps();
    var r0 := p.Pack([Field(U32, 0x41424344)]);
    ghost var b0: seq<byte> := [0x41, 0x42, 0x43, 0x44];
    assert p.buffer == b0 && p.table == map[];
    PackKnown(p, "www.test.com", ["www", "test", "com"]);
    ghost var b1: seq<byte> := [3, 0x77, 0x77, 0x77] + [4, 0x74, 0x65, 0x73, 0x74, 3, 0x63, 0x6f, 0x6d, 0];
    assert p.buffer == b0 + b1 && p.table == NameTable(map[], ["www", "test", "com"], 4);
    PackKnown(p, "test.com", ["test", "com"]);
    assert p.buffer == b0 + b1 + [0xc0, 8];
    bytes := p.Get();
  }

  /** The two names of the suffix-pointer case, as ParseName and NameBytes give them. */
  lemma SuffixPointerSteps()
    ensures ParseName("www.test.com") == Success(["www", "test", "com"])
    ensures ParseName("test.com") == Success(["test", "com"])
    ensures NameBytes(map[], ["www", "test", "com"]) == [3, 0x77, 0x77, 0x77] + [4, 0x74, 0x65, 0x73, 0x74, 3, 0x63, 0x6f, 0x6d, 0]
    ensures NameBytes(NameTable(map[], ["www", "test", "com"], 4), ["test", "com"]) == [0xc0, 8]
  {
    WwwTestComParses();
    TestComParses();
    WwwTestComFresh();
    TestComInside(4);
    NearPointer(8);
  }

  /** `test.com`, then `www.test.com`, after four bytes: the second name is
      its first label, then a pointer to offset 4. */
  method LabelPointerCase() returns (bytes: seq<byte>)
    ensures bytes == [0x41, 0x42, 0x43, 0x44] + [4, 0x74, 0x65, 0x73, 0x74, 3, 0x63, 0x6f, 0x6d, 0] + ([3, 0x77, 0x77, 0x77] + [0xc0, 4])
  {
    var p := new Packer();
    AbcdCase();
    var r0 := p.Pack([Field(U32, 0x41424344)]);
    assert p.buffer == [0x41, 0x42, 0x43, 0x44] && p.table == map[];
    ghost var b0 := p.buffer;
    TestComFresh();
    var r1 := p.PackName("test.com");
    assert p.buffer == b0 + [4, 0x74, 0x65, 0x73, 0x74, 3, 0x63, 0x6f, 0x6d, 0];
    assert p.table == map[["test", "com"] := 4, ["com"] := 9];
    ghost var b1 := p.buffer;
    WwwTestComParses();
    WwwTestComKnown();
    var r2 := p.PackName("www.test.com");
    assert p.buffer == b1 + ([3, 0x77, 0x77, 0x77] + [0xc0, 4]);
    bytes := p.Get();
  }

  // ------------------------------------------------------------ the double-pointer case

  /** A pointer to one of the first 256 offsets. */
  lemma NearPointer(t: nat)
    requires t < 256
    ensures PointerBytes(t) == [0xc0, t]
  {
  }

  /** A lower-case label in front of labels that are their own key. */
  lemma KeyCons(l: string, ls: seq<string>, name: seq<string>)
    requires ValidLabel(l) && FoldLabel(l) == l && ValidLabels(ls) && Fold(ls) == ls && name == [l] + ls
    ensures ValidLabels(name) && Fold(name) == name
  {
    FoldCons(l, ls);
  }

  /** The labels of the longer names of the double-pointer case: a lower-case
      label in front of `www.test.com`, which are their own key. */
  lemma UnderWwwTestCom(l: string)
    requires ValidLabel(l) && FoldLabel(l) == l
    ensures ValidLabels([l, "www", "test", "com"])
    ensures Fold([l, "www", "test", "com"]) == [l, "www", "test", "com"]
  {
    WwwTestComKeys();
    Seqs.ConsThree(l, "www", "test", "com");
    KeyCons(l, ["www", "test", "com"], [l, "www", "test", "com"]);
  }

  lemma OtherLabelBytes()
    ensures ValidLabel("other") && FoldLabel("other") == "other" && LabelBytes("other") == [5, 0x6f, 0x74, 0x68, 0x65, 0x72]
    ensures ["other"] + ["www", "test", "com"] == ["other", "www", "test", "com"]
  {
    LowerLabel("other");
  }

  lemma ServerLabelBytes()
    ensures ValidLabel("server") && FoldLabel("server") == "server" && LabelBytes("server") == [6, 0x73, 0x65, 0x72, 0x76, 0x65, 0x72]
  {
    LowerLabel("server");
  }

  /** A label in front of a joined name. */
  lemma JoinFront(l: string, ls: seq<string>, rest: string, name: string)
    requires ls != [] && Join(ls) == rest && name == l + "." + rest
    ensures Join([l] + ls) == name
  {
    assert ([l] + ls)[1..] == ls;
  }

  lemma ServerParses()
    ensures ParseName("server.www.test.com") == Success(["server", "www", "test", "com"])
  {
    assert "server" + "." + "www.test.com" == "server.www.test.com";
    ServerLabelBytes();
    UnderWwwTestCom("server");
    WwwTestComKeys();
    TestComJoins();
    JoinFront("server", ["www", "test", "com"], "www.test.com", "server.www.test.com");
    ParsesTo(["server", "www", "test", "com"]);
  }

  lemma OtherParses()
    ensures ParseName("other.www.test.com") == Success(["other", "www", "test", "com"])
  {
    assert "other" + "." + "www.test.com" == "other.www.test.com";
    OtherLabelBytes();
    UnderWwwTestCom("other");
    WwwTestComKeys();
    TestComJoins();
    JoinFront("other", ["www", "test", "com"], "www.test.com", "other.www.test.com");
    ParsesTo(["other", "www", "test", "com"]);
  }

  /** `server.www.test.com` written in full. */
  lemma ServerBytes()
    ensures EncodeLabels(["server", "www", "test", "com"])
            == [6, 0x73, 0x65, 0x72, 0x76, 0x65, 0x72] + ([3, 0x77, 0x77, 0x77] + [4, 0x74, 0x65, 0x73, 0x74, 3, 0x63, 0x6f, 0x6d, 0])
  {
    ServerLabelBytes();
    UnderWwwTestCom("server");
    WwwTestComBytes();
    assert ["server", "www", "test", "com"][1..] == ["www", "test", "com"];
    assert LabelBytes("server") == [6, 0x73, 0x65, 0x72, 0x76, 0x65, 0x72];
  }

  /** After `server.www.test.com` at off, its suffixes `www.test.com` and
      `test.com` sit at off + 7 and off + 11, and `other.www.test.com` is
      not known. */
  lemma ServerTable(off: nat)
    requires off + 16 < PointerLimit
    ensures var t := NameTable(map[], ["server", "www", "test", "com"], off);
            ["www", "test", "com"] in t && t[["www", "test", "com"]] == off + 7 &&
            ["test", "com"] in t && t[["test", "com"]] == off + 11 &&
            ["other", "www", "test", "com"] !in t
  {
    var ls := ["server", "www", "test", "com"];
    ServerLabelBytes();
    UnderWwwTestCom("server");
    OtherLabelBytes();
    UnderWwwTestCom("other");
    FreshFrom(ls, 0);
    assert ls[1..] == ["www", "test", "com"] && ls[2..] == ["test", "com"] && ls[0..] == ls;
    OffsetsTwo(ls, off);
    assert |ls[0]| == 6 && |ls[1]| == 3;
    RecordsHave(map[], ls, off, 4, 1);
    RecordsHave(map[], ls, off, 4, 2);
    NameTableEntries(map[], ls, off, ["other", "www", "test", "com"]);
  }

  /** Where the second and third labels of a name written at off start. */
  lemma OffsetsTwo(ls: seq<string>, off: nat)
    requires |ls| >= 2
    ensures Offset(ls, off, 1) == off + 1 + |ls[0]|
    ensures Offset(ls, off, 2) == off + 2 + |ls[0]| + |ls[1]|
  {
  }

  /** Packing a name into an empty table writes it in full. */
  method PackFresh(p: Packer, name: string, ls: seq<string>)
    requires p.Valid() && p.table == map[] && ParseName(name) == Success(ls)
    modifies p
    ensures p.Valid() && p.table == NameTable(map[], ls, |old(p.buffer)|)
    ensures p.buffer == old(p.buffer) + EncodeLabels(ls)
  {
    FreshWritesInFull(ls);
    var r := p.PackName(name);
  }

  /** Packing a name already in the table at an offset below 256 appends a
      two-byte pointer to it and leaves the table as it was. */
  method PackPointer(p: Packer, name: string, ls: seq<string>)
    requires p.Valid() && ParseName(name) == Success(ls) && ls != []
    requires Fold(ls) in p.table && p.table[Fold(ls)] < 256
    modifies p
    ensures p.Valid() && p.table == old(p.table)
    ensures p.buffer == old(p.buffer) + [0xc0, old(p.table)[Fold(ls)]]
  {
    KnownIsPointer(p.table, ls, |p.buffer|);
    NearPointer(p.table[Fold(ls)]);
    var r := p.PackName(name);
  }

  /** Packing a name whose first label is new and whose rest is in the table
      at an offset below 256 appends that label and a pointer, and keeps
      the entry of the table for the key k. */
  method PackLabelPointer(p: Packer, name: string, l: string, ls: seq<string>, k: seq<string>)
    requires p.Valid() && ParseName(name) == Success([l] + ls) && ls != []
    requires ValidLabel(l) && ValidLabels([l] + ls)
    requires Fold([l] + ls) !in p.table && Fold(ls) in p.table && p.table[Fold(ls)] < 256
    modifies p
    ensures p.Valid()
    ensures k in old(p.table) ==> k in p.table && p.table[k] == old(p.table)[k]
    ensures p.buffer == old(p.buffer) + (LabelBytes(l) + [0xc0, old(p.table)[Fold(ls)]])
  {
    ghost var t, off := p.table, |p.buffer|;
    LabelThenPointer(t, l, ls);
    NearPointer(t[Fold(ls)]);
    NameTableEntries(t, [l] + ls, off, k);
    var r := p.PackName(name);
  }

  /** `server.www.test.com`, `www.test.com`, `other.www.test.com`, `test.com`:
      the first in full, the second a pointer to offset 7, the third a label
      and the same pointer, the fourth a pointer to offset 11. */
  method DoublePointerCase() returns (bytes: seq<byte>)
    ensures bytes == [6, 0x73, 0x65, 0x72, 0x76, 0x65, 0x72] + ([3, 0x77, 0x77, 0x77] + [4, 0x74, 0x65, 0x73, 0x74, 3, 0x63, 0x6f, 0x6d, 0])
                     + [0xc0, 7] + ([5, 0x6f, 0x74, 0x68, 0x65, 0x72] + [0xc0, 7]) + [0xc0, 11]
  {
    var p := new Packer();
    ServerParses();
    ServerBytes();
    PackFresh(p, "server.www.test.com", ["server", "www", "test", "com"]);
    assert p.buffer == [6, 0x73, 0x65, 0x72, 0x76, 0x65, 0x72] + ([3, 0x77, 0x77, 0x77] + [4, 0x74, 0x65, 0x73, 0x74, 3, 0x63, 0x6f, 0x6d, 0]);
    ServerTable(0);
    ghost var b1 := p.buffer;
    WwwTestComParses();
    TestComLabels();
    PackPointer(p, "www.test.com", ["www", "test", "com"]);
    assert p.buffer == b1 + [0xc0, 7];
    ghost var b2 := p.buffer;
    OtherParses();
    OtherLabelBytes();
    UnderWwwTestCom("other");
    PackLabelPointer(p, "other.www.test.com", "other", ["www", "test", "com"], ["test", "com"]);
    assert p.buffer == b2 + ([5, 0x6f, 0x74, 0x68, 0x65, 0x72] + [0xc0, 7]);
    ghost var b3 := p.buffer;
    TestComParses();
    PackPointer(p, "test.com", ["test", "com"]);
    assert p.buffer == b3 + [0xc0, 11];
    bytes := p.Get();
  }

  // ------------------------------------------------------------ names on a fresh packer

  /** `test` is one label, written with its length and the zero byte. */
  method SingleLabelCase() returns (bytes: seq<byte>)
    ensures bytes == [4, 0x74, 0x65, 0x73, 0x74, 0]
  {
    LowerLabel("test");
    assert Join(["test"]) == "test";
    ParsesTo(["test"]);
    assert EncodeLabels(["test"]) == [4, 0x74, 0x65, 0x73, 0x74, 0] by {
      assert ["test"][1..] == [];
      assert LabelBytes("test") == [4, 0x74, 0x65, 0x73, 0x74];
    }
    var p := new Packer();
    PackFresh(p, "test", ["test"]);
    bytes := p.Get();
  }

  /** Three fields packed one by one, then `test.com` in full after them. */
  method FieldsThenNameCase() returns (bytes: seq<byte>)
    ensures bytes == [0x41, 0x42, 0x43, 0x44] + [0x45, 0x46] + [0x47] + [4, 0x74, 0x65, 0x73, 0x74, 3, 0x63, 0x6f, 0x6d, 0]
  {
    FieldsCase();
    var p := new Packer();
    var r0 := p.Pack([Field(U32, 0x41424344)]);
    var r1 := p.Pack([Field(U16, 0x4546)]);
    var r2 := p.Pack([Field(U8, 0x47)]);
    SeparateFields();
    assert p.buffer == [0x41, 0x42, 0x43, 0x44] + [0x45, 0x46] + [0x47] && p.table == map[];
    TestComParses();
    TestComBytes();
    PackFresh(p, "test.com", ["test", "com"]);
    bytes := p.Get();
  }

  /** The fields of FieldsCase packed by three calls give the same bytes as
      packed by one. */
  lemma SeparateFields()
    ensures FieldsBytes([Field(U32, 0x41424344)]) + FieldsBytes([Field(U16, 0x4546)]) + FieldsBytes([Field(U8, 0x47)])
            == [0x41, 0x42, 0x43, 0x44] + [0x45, 0x46] + [0x47]
  {
    AbcdCase();
    assert FieldsBytes([Field(U16, 0x4546)]) == [0x45, 0x46] by {
      assert [Field(U16, 0x4546)][1..] == [];
      assert ToDigits(0x45, 256, 1) == [0x45];
      assert FieldBytes(U16, 0x4546) == [0x45, 0x46];
    }
    assert FieldsBytes([Field(U8, 0x47)]) == [0x47] by {
      assert [Field(U8, 0x47)][1..] == [];
      assert FieldBytes(U8, 0x47) == [0x47];
    }
  }

  lemma TrailingDotParses()
    ensures ParseName("test.com.") == Success(["test", "com"])
  {
    TestComLabels();
    ParsesTo(["test", "com"]);
    assert Join(["test", "com"]) + "." == "test.com.";
  }

  /** `test.com.`: the trailing dot writes nothing. */
  method TrailingDotCase() returns (bytes: seq<byte>)
    ensures bytes == [4, 0x74, 0x65, 0x73, 0x74, 3, 0x63, 0x6f, 0x6d, 0]
  {
    TrailingDotParses();
    TestComLabels();
    TestComBytes();
    var p := new Packer();
    PackFresh(p, "test.com.", ["test", "com"]);
    bytes := p.Get();
  }

  // ------------------------------------------------------------ the double-pointer case, reversed

  /** `test.com` written at off records itself there and `com` five bytes on. */
  lemma TestComTable(off: nat)
    requires off + 5 < PointerLimit
    ensures NameTable(map[], ["test", "com"], off) == map[["test", "com"] := off, ["com"] := off + 5]
  {
    TestComKeys();
    FreshTableTwo("test", "com", off);
  }

  /** The table after `test.com` was written at offset 0. */
  function TestComAtZero(): Table
  {
    map[["test", "com"] := 0, ["com"] := 5]
  }

  /** With `test.com` at 0, the longest known suffix of `other.www.test.com`
      starts at its third label. */
  lemma OtherFirstKnown()
    ensures FirstKnown(TestComAtZero(), ["other", "www", "test", "com"]) == 2
  {
    var t := TestComAtZero();
    TestComKeys();
    assert FirstKnown(t, ["test", "com"]) == 0;
    FirstKnownCons(t, "www", ["test", "com"], ["www", "test", "com"]);
    FirstKnownCons(t, "other", ["www", "test", "com"], ["other", "www", "test", "com"]);
  }

  /** A name longer than every key of the table: its longest known suffix
      starts one label further on than in the name without its first label. */
  lemma FirstKnownCons(t: Table, l: string, ls: seq<string>, name: seq<string>)
    requires name == [l] + ls && forall k | k in t :: |k| < |name|
    ensures FirstKnown(t, name) == 1 + FirstKnown(t, ls)
  {
    assert name[1..] == ls;
    assert |Fold(name)| == |name|;
  }

  /** A name two labels longer than a known one, neither of its two longer
      suffixes known: those two labels, then a pointer. */
  lemma TwoLabelsThenPointer(t: Table, a: string, b: string, ls: seq<string>)
    requires Addressable(t) && ValidLabel(a) && ValidLabel(b) && ValidLabels([a, b] + ls) && ls != []
    requires Fold([a, b] + ls) !in t && Fold([b] + ls) !in t && Fold(ls) in t
    ensures NameBytes(t, [a, b] + ls) == LabelBytes(a) + (LabelBytes(b) + PointerBytes(t[Fold(ls)]))
  {
    var name := [a, b] + ls;
    assert name[0..] == name && name[1..] == [b] + ls && name[2..] == ls && name[0] == a && name[1] == b;
    assert ([b] + ls)[1..] == ls;
    assert FirstKnown(t, ls) == 0;
    assert FirstKnown(t, [b] + ls) == 1;
    assert FirstKnown(t, name) == 2;
    assert From(t, name, 2) == PointerBytes(t[Fold(ls)]);
    assert From(t, name, 1) == LabelBytes(b) + From(t, name, 2);
  }

  lemma WwwLabelBytes()
    ensures ValidLabel("www") && LabelBytes("www") == [3, 0x77, 0x77, 0x77]
  {
    LowerLabel("www");
  }

  /** With `test.com` at 0, `test.com` is known there, and neither
      `www.test.com` nor `other.www.test.com` is. */
  lemma OtherKeys()
    ensures var t, tc := TestComAtZero(), ["test", "com"];
            Fold(tc) in t && t[Fold(tc)] == 0 && Fold(["www"] + tc) !in t && Fold(["other", "www"] + tc) !in t
  {
    TestComLabels();
    assert |Fold(["www"] + ["test", "com"])| == 3 && |Fold(["other", "www"] + ["test", "com"])| == 4;
  }

  /** Then `other.www.test.com` is its two first labels and a pointer to 0. */
  lemma OtherAfterTestComBytes()
    ensures NameBytes(TestComAtZero(), ["other", "www", "test", "com"])
            == [5, 0x6f, 0x74, 0x68, 0x65, 0x72] + ([3, 0x77, 0x77, 0x77] + [0xc0, 0])
  {
    var tc := ["test", "com"];
    OtherLabelBytes();
    UnderWwwTestCom("other");
    WwwLabelBytes();
    OtherKeys();
    assert ["other", "www"] + tc == ["other", "www", "test", "com"];
    TwoLabelsThenPointer(TestComAtZero(), "other", "www", tc);
    NearPointer(0);
  }

  /** And it records `www.test.com` at 16, behind the six bytes of `other`
      written at 10; `test.com` stays at 0 and `server.www.test.com` is not
      known. */
  lemma OtherAfterTestComTable()
    ensures var t1 := NameTable(TestComAtZero(), ["other", "www", "test", "com"], 10);
            ["www", "test", "com"] in t1 && t1[["www", "test", "com"]] == 16 &&
            ["test", "com"] in t1 && t1[["test", "com"]] == 0 &&
            ["server", "www", "test", "com"] !in t1
  {
    OtherTable();
    OtherKeepsTestCom();
    OtherLacksServer();
  }

  lemma OtherKeepsTestCom()
    ensures var t1 := TestComAtZero()[["other", "www", "test", "com"] := 10][["www", "test", "com"] := 16];
            ["test", "com"] in t1 && t1[["test", "com"]] == 0
  {
    var tc: seq<string> := ["test", "com"];
    assert |tc| == 2;
    assert tc in TestComAtZero() && TestComAtZero()[tc] == 0;
  }

  lemma OtherLacksServer()
    ensures ["server", "www", "test", "com"] !in TestComAtZero()[["other", "www", "test", "com"] := 10][["www", "test", "com"] := 16]
  {
    var ls: seq<string> := ["other", "www", "test", "com"];
    var sls: seq<string> := ["server", "www", "test", "com"];
    assert |sls| == 4 && |sls[0]| == 6 && |ls[0]| == 5;
    assert sls != ls;
  }

  lemma OtherTable()
    ensures NameTable(TestComAtZero(), ["other", "www", "test", "com"], 10)
            == TestComAtZero()[["other", "www", "test", "com"] := 10][["www", "test", "com"] := 16]
  {
    OtherFirstKnown();
    OtherFirstRecord();
    OtherSecondRecord();
  }

  lemma OtherFirstRecord()
    ensures Records(TestComAtZero(), ["other", "www", "test", "com"], 10, 1)
            == TestComAtZero()[["other", "www", "test", "com"] := 10]
  {
    var ls := ["other", "www", "test", "com"];
    OtherLabelBytes();
    UnderWwwTestCom("other");
    assert ls[0..] == ls;
  }

  lemma OtherSecondRecord()
    ensures Records(TestComAtZero(), ["other", "www", "test", "com"], 10, 2)
            == Records(TestComAtZero(), ["other", "www", "test", "com"], 10, 1)[["www", "test", "com"] := 16]
  {
    var ls := ["other", "www", "test", "com"];
    WwwTestComKeys();
    assert ls[1..] == ["www", "test", "com"];
    assert Offset(ls, 10, 1) == 16;
  }

  /** Packing a name whose first labels are new and whose last labels are in
      the table: appends what NameBytes says and updates the table as
      NameTable says. */
  method PackKnown(p: Packer, name: string, ls: seq<string>)
    requires p.Valid() && ParseName(name) == Success(ls)
    modifies p
    ensures p.Valid() && p.table == NameTable(old(p.table), ls, |old(p.buffer)|)
    ensures p.buffer == old(p.buffer) + NameBytes(old(p.table), ls)
  {
    var r := p.PackName(name);
  }

  /** With `www.test.com` recorded at 16 and `server.www.test.com` not known,
      `www.test.com` is a pointer to 16, and `server.www.test.com` then its
      first label and the same pointer. */
  method PackWwwThenServer(p: Packer)
    requires p.Valid() && ["www", "test", "com"] in p.table && p.table[["www", "test", "com"]] == 16
    requires ["server", "www", "test", "com"] !in p.table
    modifies p
    ensures p.Valid()
    ensures p.buffer == old(p.buffer) + [0xc0, 0x10] + ([6, 0x73, 0x65, 0x72, 0x76, 0x65, 0x72] + [0xc0, 0x10])
  {
    WwwTestComParses();
    TestComLabels();
    PackPointer(p, "www.test.com", ["www", "test", "com"]);
    ghost var b := p.buffer;
    ServerParses();
    ServerLabelBytes();
    UnderWwwTestCom("server");
    assert ["server"] + ["www", "test", "com"] == ["server", "www", "test", "com"];
    PackLabelPointer(p, "server.www.test.com", "server", ["www", "test", "com"], ["test", "com"]);
    assert p.buffer == b + ([6, 0x73, 0x65, 0x72, 0x76, 0x65, 0x72] + [0xc0, 0x10]);
  }

  /** `test.com`, `other.www.test.com`, `www.test.com`, `server.www.test.com`:
      the first in full, the second two labels and a pointer to 0, the third
      a pointer to 16 where the second's `www` starts, the fourth a label and
      the same pointer. */
  method ReverseDoublePointerCase() returns (bytes: seq<byte>)
    ensures bytes == [4, 0x74, 0x65, 0x73, 0x74, 3, 0x63, 0x6f, 0x6d, 0]
                     + ([5, 0x6f, 0x74, 0x68, 0x65, 0x72] + ([3, 0x77, 0x77, 0x77] + [0xc0, 0]))
                     + [0xc0, 0x10] + ([6, 0x73, 0x65, 0x72, 0x76, 0x65, 0x72] + [0xc0, 0x10])
  {
    var p := new Packer();
    TestComParses();
    TestComBytes();
    PackFresh(p, "test.com", ["test", "com"]);
    ghost var b1: seq<byte> := [4, 0x74, 0x65, 0x73, 0x74, 3, 0x63, 0x6f, 0x6d, 0];
    assert p.buffer == [] + b1;
    assert p.buffer == b1;
    TestComTable(0);
    assert p.table == TestComAtZero();
    OtherParses();
    OtherAfterTestComBytes();
    OtherAfterTestComTable();
    PackKnown(p, "other.www.test.com", ["other", "www", "test", "com"]);
    ghost var b2: seq<byte> := b1 + ([5, 0x6f, 0x74, 0x68, 0x65, 0x72] + ([3, 0x77, 0x77, 0x77] + [0xc0, 0]));
    assert p.buffer == b2;
    PackWwwThenServer(p);
    bytes := p.Get();
  }

  // ------------------------------------------------------------ the class-level pack_name

  /** `test`, `test.com` and the empty name, each on its own. */
  lemma ClassLevelCases()
    ensures PackNameBytes("test") == Success([4, 0x74, 0x65, 0x73, 0x74, 0])
    ensures PackNameBytes("test.com") == Success([4, 0x74, 0x65, 0x73, 0x74, 3, 0x63, 0x6f, 0x6d, 0])
    ensures PackNameBytes("") == Success([0])
  {
    TestAlone();
    TestComFresh();
    ParseRoot();
  }

  /** `test` on its own: one label, then the zero byte. */
  lemma TestAlone()
    ensures PackNameBytes("test") == Success([4, 0x74, 0x65, 0x73, 0x74, 0])
  {
    LowerLabel("test");
    assert Join(["test"]) == "test";
    ParsesTo(["test"]);
    FreshWritesInFull(["test"]);
    TestBytes();
  }

  lemma TestBytes()
    ensures EncodeLabels(["test"]) == [4, 0x74, 0x65, 0x73, 0x74, 0]
  {
    assert ["test"][1..] == [];
    assert LabelBytes("test") == [4, 0x74, 0x65, 0x73, 0x74];
  }

  /** `test..com`, `te\x00st.com` and a label of 64 characters are refused on
      their own too; a label of 63 characters is accepted. */
  lemma ClassLevelRefusals()
    ensures PackNameBytes("test..com") == Failure(FormatException(EmptyLabel))
    ensures PackNameBytes("te\\x00st.com") == Failure(FormatException(IllegalCharacter))
    ensures PackNameBytes(Repeat('A', 63) + ".com").Success?
    ensures PackNameBytes("A" + (Repeat('A', 63) + ".com")) == Failure(FormatException(LabelTooLong))
  {
    EmptyLabelCase();
    IllegalCharacterCase();
    LabelLengthCases();
    OneMoreA();
  }

  lemma OneMoreA()
    ensures "A" + (Repeat('A', 63) + ".com") == Repeat('A', 64) + ".com"
  {
    assert "A" + Repeat('A', 63) == Repeat('A', 64);
  }

  /** Eight labels of 31 characters, each followed by a dot, less their first
      three characters, are 253 characters with the trailing dot: accepted;
      one more character is refused. */
  lemma ClassLevelNameLengthCases()
    ensures var ls := [Repeat('A', 28)] + Repeat(Repeat('A', 31), 7);
            |Join(ls) + "."| == 253 && PackNameBytes(Join(ls) + ".") == Success(EncodeLabels(ls)) &&
            PackNameBytes("A" + (Join(ls) + ".")) == Failure(FormatException(NameTooLong))
  {
    var a := Repeat('A', 31);
    var ls := [Repeat('A', 28)] + Repeat(a, 7);
    RunOfA(28);
    RunOfA(31);
    assert ls[1..] == Repeat(a, 7);
    JoinRepeat(a, 7);
    assert ValidLabels(ls) by {
      forall i | 0 <= i < |ls|
        ensures ValidLabel(ls[i])
      {
        if i > 0 {
          assert ls[i] == Repeat(a, 7)[i - 1];
        }
      }
    }
    ParsesTo(ls);
    FreshWritesInFull(ls);
  }
}
