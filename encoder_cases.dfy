/** The encodings that the builder tests of cname_test.rb, mx_encoder_test.rb
    and txt_encoder_test.rb spell out. */
module EncoderCases {
  import opened Wrappers
  import opened Digits
  import opened Seqs
  import opened Wire
  import opened Encoders

  /** One byte `A` is `41` in hex. */
  lemma HexA()
    ensures EncodeGroup(Hex, [0x41]) == "41"
  {
    assert PadBits(Hex, 1) == 0 && Pow(2, 0) == 1;
    assert FromDigits([0x41], 256) == 0x41 by {
      assert [0x41][..0] == [];
    }
    assert ToDigits(0x41, 16, 2) == [4, 1] by {
      assert ToDigits(4, 16, 1) == [4];
    }
  }

  /** `A` repeated n times is `41` repeated n times in hex. */
  lemma {:induction false} HexOfAs(n: nat)
    ensures Encode(Hex, Repeat<byte>(0x41, n)) == Flatten(Repeat("41", n))
  {
    if n > 0 {
      var data := Repeat<byte>(0x41, n);
      HexOfAs(n - 1);
      HexA();
      FlattenRepeatStep("41", n - 1);
      assert data[..1] == [0x41] && data[1..] == Repeat<byte>(0x41, n - 1);
      assert GroupBytes(Hex) == 1;
      if n == 1 {
        assert data == [0x41];
        assert Encode(Hex, data) == EncodeGroup(Hex, [0x41]);
      } else {
        EncodeStep(Hex, data);
        assert Encode(Hex, data) == "41" + Encode(Hex, Repeat<byte>(0x41, n - 1));
      }
    }
  }

  lemma FlattenRepeatStep<T>(s: seq<T>, n: nat)
    ensures Flatten(Repeat(s, n + 1)) == s + Flatten(Repeat(s, n))
  {
    assert Repeat(s, n + 1)[1..] == Repeat(s, n);
  }

  /** `AAAA` is `41414141` in hex. */
  lemma HexAAAA()
    ensures Encode(Hex, [0x41, 0x41, 0x41, 0x41]) == "41414141"
  {
    HexOfAs(4);
    assert Repeat<byte>(0x41, 4) == [0x41, 0x41, 0x41, 0x41];
    FlattenRepeatStep("41", 0);
    FlattenRepeatStep("41", 1);
    FlattenRepeatStep("41", 2);
    FlattenRepeatStep("41", 3);
    assert Flatten(Repeat("41", 0)) == [];
  }

  /** `AAAA` is `ifaucqi` in base32: 32 bits and three fill bits make seven
      characters. */
  lemma Base32AAAA()
    ensures Encode(Base32, [0x41, 0x41, 0x41, 0x41]) == "ifaucqi"
  {
    NumberAAAA();
    DigitsAAAA();
    CharsAAAA();
  }

  lemma NumberAAAA()
    ensures EncodedLength(Base32, 4) == 7
    ensures GroupNumber(Base32, [0x41, 0x41, 0x41, 0x41]) == 8758364680
  {
    assert PadBits(Base32, 4) == 3 && Pow(2, 3) == 8;
    Value4(0x41, 0x41, 0x41, 0x41);
  }

  lemma CharsAAAA()
    ensures Chars(Base32, [8, 5, 0, 20, 2, 16, 8]) == "ifaucqi"
  {
  }

  /** `AaAaAaAa` is `ifqucykbmfawc` in base32: a whole group of five bytes,
      then three bytes and one fill bit in five characters. */
  lemma Base32AaAa()
    ensures Encode(Base32, [0x41, 0x61, 0x41, 0x61, 0x41, 0x61, 0x41, 0x61]) == "ifqucykbmfawc"
  {
    assert "ifqucykb" + "mfawc" == "ifqucykbmfawc";
    var data := [0x41, 0x61, 0x41, 0x61, 0x41, 0x61, 0x41, 0x61];
    var g1, g2 := [0x41, 0x61, 0x41, 0x61, 0x41], [0x61, 0x41, 0x61];
    assert data[..5] == g1 && data[5..] == g2;
    Base32WholeGroup();
    Base32PartGroup();
    assert Encode(Base32, g2) == EncodeGroup(Base32, g2);
  }

  lemma Base32WholeGroup()
    ensures EncodeGroup(Base32, [0x41, 0x61, 0x41, 0x61, 0x41]) == "ifqucykb"
  {
    NumberAaAaA();
    DigitsAaAaA();
    CharsAaAaA();
  }

  lemma NumberAaAaA()
    ensures EncodedLength(Base32, 5) == 8
    ensures GroupNumber(Base32, [0x41, 0x61, 0x41, 0x61, 0x41]) == 0x4161416141
  {
    assert PadBits(Base32, 5) == 0 && Pow(2, 0) == 1;
    Value5(0x41, 0x61, 0x41, 0x61, 0x41);
  }

  lemma CharsAaAaA()
    ensures Chars(Base32, [8, 5, 16, 20, 2, 24, 10, 1]) == "ifqucykb"
  {
  }

  lemma Base32PartGroup()
    ensures EncodeGroup(Base32, [0x61, 0x41, 0x61]) == "mfawc"
  {
    NumberaAa();
    DigitsaAa();
    CharsaAa();
  }

  lemma NumberaAa()
    ensures EncodedLength(Base32, 3) == 5
    ensures GroupNumber(Base32, [0x61, 0x41, 0x61]) == 0x614161 * 2
  {
    assert PadBits(Base32, 3) == 1 && Pow(2, 1) == 2;
    Value3(0x61, 0x41, 0x61);
  }

  lemma CharsaAa()
    ensures Chars(Base32, [12, 5, 0, 22, 2]) == "mfawc"
  {
  }

  /** The base-32 digits of the three groups above, one division at a time. */
  lemma DigitsAAAA()
    ensures ToDigits(8758364680, 32, 7) == [8, 5, 0, 20, 2, 16, 8]
  {
    assert ToDigits(8, 32, 1) == [8];
    assert ToDigits(261, 32, 2) == [8, 5];
    assert ToDigits(8352, 32, 3) == [8, 5, 0];
    assert ToDigits(267284, 32, 4) == [8, 5, 0, 20];
    assert ToDigits(8553090, 32, 5) == [8, 5, 0, 20, 2];
    assert ToDigits(273698896, 32, 6) == [8, 5, 0, 20, 2, 16];
  }

  lemma DigitsAaAaA()
    ensures ToDigits(0x4161416141, 32, 8) == [8, 5, 16, 20, 2, 24, 10, 1]
  {
    assert ToDigits(8, 32, 1) == [8];
    assert ToDigits(261, 32, 2) == [8, 5];
    assert ToDigits(8368, 32, 3) == [8, 5, 16];
    assert ToDigits(267796, 32, 4) == [8, 5, 16, 20];
    assert ToDigits(8569474, 32, 5) == [8, 5, 16, 20, 2];
    assert ToDigits(274223192, 32, 6) == [8, 5, 16, 20, 2, 24];
    assert ToDigits(8775142154, 32, 7) == [8, 5, 16, 20, 2, 24, 10];
  }

  lemma DigitsaAa()
    ensures ToDigits(0x614161 * 2, 32, 5) == [12, 5, 0, 22, 2]
  {
    assert ToDigits(12, 32, 1) == [12];
    assert ToDigits(389, 32, 2) == [12, 5];
    assert ToDigits(12448, 32, 3) == [12, 5, 0];
    assert ToDigits(398358, 32, 4) == [12, 5, 0, 22];
  }

  /** The big-endian values of three, four and five bytes. */
  lemma Value3(a: nat, b: nat, c: nat)
    ensures FromDigits([a, b, c], 256) == a * 0x10000 + b * 0x100 + c
  {
    assert [a][..0] == [];
    assert FromDigits([a], 256) == a;
    assert [a, b][..1] == [a];
    assert FromDigits([a, b], 256) == a * 256 + b;
    assert [a, b, c][..2] == [a, b];
  }


  lemma Value4(a: nat, b: nat, c: nat, d: nat)
    ensures FromDigits([a, b, c, d], 256) == a * 0x1000000 + b * 0x10000 + c * 0x100 + d
  {
    assert [a, b, c, d][..3] == [a, b, c];
    Value3(a, b, c);
  }

  lemma Value5(a: nat, b: nat, c: nat, d: nat, e: nat)
    ensures FromDigits([a, b, c, d, e], 256) == a * 0x100000000 + b * 0x1000000 + c * 0x10000 + d * 0x100 + e
  {
    assert [a, b, c, d, e][..4] == [a, b, c, d];
    Value4(a, b, c, d);
  }
}
