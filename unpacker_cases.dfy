/** The name-decoding cases of the unpacker's tests, stated on `Decode`, the
    function `UnpackName` is proved to follow. */
module UnpackerCases {
  import opened Wrappers
  import opened Names
  import opened Wire
  import opened Unpacker

  lemma ReadName(buf: seq<byte>, pos: nat)
    requires pos + 5 <= |buf| && buf[pos] == 4
    requires buf[pos + 1] == 'n' as int && buf[pos + 2] == 'a' as int && buf[pos + 3] == 'm' as int && buf[pos + 4] == 'e' as int
    ensures ReadLabel(buf, pos) == "name"
  {
  }

  /** "AAAABBC\x04test\x00" after the three fields: the name `test`. */
  lemma SingleLabelCase()
    ensures var buf := Ascii("AAAABBC") + [4] + Ascii("test") + [0];
            Decode(buf, 7, {7}) == Success((["test"], 13)) && Join(["test"]) == "test"
  {
    var buf := Ascii("AAAABBC") + [4] + Ascii("test") + [0];
    assert buf == [0x41, 0x41, 0x41, 0x41, 0x42, 0x42, 0x43, 4, 0x74, 0x65, 0x73, 0x74, 0];
    assert ReadLabel(buf, 7) == "test";
    assert Decode(buf, 12, {7}) == Success(([], 13));
    assert ["test"] + [] == ["test"];
  }

  /** "AAAABBC\x04test\x08testtest\x00": two labels, `test.testtest`. */
  lemma TwoLabelCase()
    ensures var buf := [0x41, 0x41, 0x41, 0x41, 0x42, 0x42, 0x43, 4, 0x74, 0x65, 0x73, 0x74,
                        8, 0x74, 0x65, 0x73, 0x74, 0x74, 0x65, 0x73, 0x74, 0];
            Decode(buf, 7, {7}) == Success((["test", "testtest"], 22)) && Join(["test", "testtest"]) == "test.testtest"
  {
    var buf: seq<byte> := [0x41, 0x41, 0x41, 0x41, 0x42, 0x42, 0x43, 4, 0x74, 0x65, 0x73, 0x74,
                           8, 0x74, 0x65, 0x73, 0x74, 0x74, 0x65, 0x73, 0x74, 0];
    assert ReadLabel(buf, 7) == "test";
    assert ReadLabel(buf, 12) == "testtest";
    assert Decode(buf, 21, {7}) == Success(([], 22));
    assert ["testtest"] + [] == ["testtest"];
    assert Decode(buf, 12, {7}) == Success((["testtest"], 22));
    assert ["test"] + ["testtest"] == ["test", "testtest"];
  }

  /** "AAAABBC\x00": no labels, the empty name. */
  lemma EmptyNameCase()
    ensures Decode([0x41, 0x41, 0x41, 0x41, 0x42, 0x42, 0x43, 0], 7, {7}) == Success(([], 8)) && Join([]) == ""
  {
  }

  /** "\x01A\x00\x00\x04name\xc0\x00" from offset 4: a label, then a pointer
      back to the name at offset 0; the cursor ends after the pointer. */
  lemma BackReferenceCase()
    ensures var buf := [1, 0x41, 0, 0, 4, 0x6e, 0x61, 0x6d, 0x65, 0xc0, 0];
            Decode(buf, 4, {4}) == Success((["name", "A"], 11)) && Join(["name", "A"]) == "name.A"
  {
    var buf: seq<byte> := [1, 0x41, 0, 0, 4, 0x6e, 0x61, 0x6d, 0x65, 0xc0, 0];
    ReadName(buf, 4);
    assert ReadLabel(buf, 0) == "A";
    assert Decode(buf, 2, {4, 0}) == Success(([], 3));
    assert ["A"] + [] == ["A"];
    assert Decode(buf, 0, {4, 0}) == Success((["A"], 3));
    assert Decode(buf, 9, {4}) == Success((["A"], 11));
    assert ["name"] + ["A"] == ["name", "A"];
  }

  /** "\x02AA\xc0\x05\x04name\x00" from offset 0: a pointer forward. */
  lemma ForwardReferenceCase()
    ensures var buf := [2, 0x41, 0x41, 0xc0, 5, 4, 0x6e, 0x61, 0x6d, 0x65, 0];
            Decode(buf, 0, {0}) == Success((["AA", "name"], 5)) && Join(["AA", "name"]) == "AA.name"
  {
    var buf: seq<byte> := [2, 0x41, 0x41, 0xc0, 5, 4, 0x6e, 0x61, 0x6d, 0x65, 0];
    ForwardPointer();
    assert ReadLabel(buf, 0) == "AA";
    assert ["AA"] + ["name"] == ["AA", "name"];
  }

  /** The forward pointer itself, which ends the name two bytes on. */
  lemma ForwardPointer()
    ensures var buf := [2, 0x41, 0x41, 0xc0, 5, 4, 0x6e, 0x61, 0x6d, 0x65, 0];
            Decode(buf, 3, {0}) == Success((["name"], 5))
  {
    ForwardTarget();
  }

  /** The name the forward pointer of that case reaches. */
  lemma ForwardTarget()
    ensures var buf := [2, 0x41, 0x41, 0xc0, 5, 4, 0x6e, 0x61, 0x6d, 0x65, 0];
            Decode(buf, 5, {0, 5}) == Success((["name"], 11))
  {
    var buf: seq<byte> := [2, 0x41, 0x41, 0xc0, 5, 4, 0x6e, 0x61, 0x6d, 0x65, 0];
    ReadName(buf, 5);
    assert Decode(buf, 10, {0, 5}) == Success(([], 11));
    assert ["name"] + [] == ["name"];
  }

  /** "\xc0\x02\x04name\x00": a name that is only a pointer. */
  lemma PointerOnlyCase()
    ensures var buf := [0xc0, 2, 4, 0x6e, 0x61, 0x6d, 0x65, 0];
            Decode(buf, 0, {0}) == Success((["name"], 2))
  {
    var buf: seq<byte> := [0xc0, 2, 4, 0x6e, 0x61, 0x6d, 0x65, 0];
    ReadName(buf, 2);
    assert Decode(buf, 7, {0, 2}) == Success(([], 8));
    assert ["name"] + [] == ["name"];
    assert Decode(buf, 2, {0, 2}) == Success((["name"], 8));
  }

  /** "\xff" repeated 0x3fff times, then "\x04name\x00": the pointer 0xffff
      reaches offset 0x3fff, the largest a pointer can hold. */
  function FarMessage(): seq<byte>
  {
    seq(0x3fff, _ => 0xff) + [4, 0x6e, 0x61, 0x6d, 0x65, 0]
  }

  lemma LargestPointerCase()
    ensures Decode(FarMessage(), 0, {0}) == Success((["name"], 2))
  {
    var buf := FarMessage();
    assert buf[0] == 0xff && buf[1] == 0xff;
    assert PointerTarget(0xff, 0xff) == 0x3fff;
    ReadName(buf, 0x3fff);
    assert Decode(buf, 0x4004, {0, 0x3fff}) == Success(([], 0x4005));
    assert ["name"] + [] == ["name"];
    assert Decode(buf, 0x3fff, {0, 0x3fff}) == Success((["name"], 0x4005));
  }

  /** "\x01A\x00\x00\x04name\xc0\x04" from offset 4: the pointer leads back
      to the start of the name, which is refused. */
  lemma LoopCase()
    ensures Decode([1, 0x41, 0, 0, 4, 0x6e, 0x61, 0x6d, 0x65, 0xc0, 4], 4, {4}) == Failure(FormatException(PointerLoop))
  {
    var buf: seq<byte> := [1, 0x41, 0, 0, 4, 0x6e, 0x61, 0x6d, 0x65, 0xc0, 4];
    assert Decode(buf, 9, {4}) == Failure(FormatException(PointerLoop));
  }

  /** Each of the truncated messages of the tests fails with Truncated. */
  lemma TruncatedCases()
    ensures Decode([4, 0x6e, 0x61, 0x6d, 0x65], 0, {0}) == Failure(FormatException(Truncated))
    ensures Decode([4, 0x6e, 0x61], 0, {0}) == Failure(FormatException(Truncated))
    ensures Decode([4], 0, {0}) == Failure(FormatException(Truncated))
    ensures Decode([], 0, {0}) == Failure(FormatException(Truncated))
    ensures Decode([0xc0, 4, 0x41, 0x41, 4, 0x74, 0x65, 0x73, 0x74], 0, {0}) == Failure(FormatException(Truncated))
    ensures Decode([0xc0, 4, 0x41, 0x41, 4, 0x74, 0x65, 0x73], 0, {0}) == Failure(FormatException(Truncated))
    ensures Decode([0xc0, 4, 0x41, 0x41, 4, 0x74, 0x65], 0, {0}) == Failure(FormatException(Truncated))
    ensures Decode([0xc0, 4, 0x41, 0x41, 4, 0x74], 0, {0}) == Failure(FormatException(Truncated))
    ensures Decode([0xc0, 4, 0x41, 0x41, 4], 0, {0}) == Failure(FormatException(Truncated))
    ensures Decode([0xc0, 4, 0x41, 0x41], 0, {0}) == Failure(FormatException(Truncated))
    ensures Decode([0xc0, 4, 0x41], 0, {0}) == Failure(FormatException(Truncated))
    ensures Decode([0xc0, 4], 0, {0}) == Failure(FormatException(Truncated))
    ensures Decode([0xc0], 0, {0}) == Failure(FormatException(Truncated))
  {
    assert Decode([0xc0, 4, 0x41, 0x41, 4, 0x74, 0x65, 0x73, 0x74], 9, {0, 4}) == Failure(FormatException(Truncated));
    assert Decode([0xc0, 4, 0x41, 0x41, 4, 0x74, 0x65, 0x73, 0x74], 4, {0, 4}) == Failure(FormatException(Truncated));
  }
}
