/** The cases of the builder tests: the addresses of aaaa_test.rb, the names
    of cname_test.rb and mx_encoder_test.rb, and the records of
    txt_encoder_test.rb. */
module BuilderCases {
  import opened Wrappers
  import opened Seqs
  import opened Wire
  import opened Encoders
  import opened EncoderCases
  import AAAA
  import TXT
  import NameHelper
  import Names

  // ------------------------------------------------------------ AAAA

  /** The letters the first address carries, and those the second does. */
  function Upper(): seq<byte>
  {
    [0x41, 0x42, 0x43, 0x44, 0x45, 0x46, 0x47, 0x48, 0x49, 0x4a, 0x4b, 0x4c, 0x4d, 0x4e]
  }

  function Lower(): seq<byte>
  {
    [0x4f, 0x50, 0x51, 0x52, 0x53, 0x54, 0x55, 0x56, 0x57, 0x58, 0x59, 0x5a]
  }

  lemma AlphabetHalves()
    ensures Upper() + Lower() == [0x41, 0x42, 0x43, 0x44, 0x45, 0x46, 0x47, 0x48, 0x49, 0x4a, 0x4b, 0x4c, 0x4d,
                                  0x4e, 0x4f, 0x50, 0x51, 0x52, 0x53, 0x54, 0x55, 0x56, 0x57, 0x58, 0x59, 0x5a]
  {
  }

  lemma AlphabetAddresses()
    ensures [0x00, 0x1a] + Upper() == [0x00, 0x1a, 0x41, 0x42, 0x43, 0x44, 0x45, 0x46, 0x47, 0x48, 0x49, 0x4a, 0x4b, 0x4c, 0x4d, 0x4e]
    ensures [0x01] + Lower() + Repeat<byte>(0xff, 3)
            == [0x01, 0x4f, 0x50, 0x51, 0x52, 0x53, 0x54, 0x55, 0x56, 0x57, 0x58, 0x59, 0x5a, 0xff, 0xff, 0xff]
  {
    assert Repeat<byte>(0xff, 3) == [0xff, 0xff, 0xff];
  }

  /** `ABCDEFGHIJKLMNOPQRSTUVWXYZ`: two addresses, the second ending in
      three filler bytes. */
  lemma AlphabetCase()
    ensures var data: seq<byte> := [0x41, 0x42, 0x43, 0x44, 0x45, 0x46, 0x47, 0x48, 0x49, 0x4a, 0x4b, 0x4c, 0x4d,
                         0x4e, 0x4f, 0x50, 0x51, 0x52, 0x53, 0x54, 0x55, 0x56, 0x57, 0x58, 0x59, 0x5a];
            AAAA.Build(data) == Success([
              [0x00, 0x1a, 0x41, 0x42, 0x43, 0x44, 0x45, 0x46, 0x47, 0x48, 0x49, 0x4a, 0x4b, 0x4c, 0x4d, 0x4e],
              [0x01, 0x4f, 0x50, 0x51, 0x52, 0x53, 0x54, 0x55, 0x56, 0x57, 0x58, 0x59, 0x5a, 0xff, 0xff, 0xff]])
  {
    var data := Upper() + Lower();
    AAAA.TwoAddresses(data);
    assert data[..14] == Upper() && data[14..] == Lower();
    AlphabetHalves();
    AlphabetAddresses();
  }

  /** `ABCDEFGHIJKLMNO` and eleven NUL bytes. */
  function NulData(): (data: seq<byte>)
    ensures |data| == 26 && data[..15] == [0x41, 0x42, 0x43, 0x44, 0x45, 0x46, 0x47, 0x48, 0x49, 0x4a, 0x4b, 0x4c, 0x4d, 0x4e, 0x4f]
    ensures data[15..] == Repeat<byte>(0, 11)
  {
    [0x41, 0x42, 0x43, 0x44, 0x45, 0x46, 0x47, 0x48, 0x49, 0x4a, 0x4b, 0x4c, 0x4d, 0x4e, 0x4f] + Repeat<byte>(0, 11)
  }

  /** The NUL bytes stay zero in the second address; only the filler is 0xFF. */
  lemma NulCase()
    ensures AAAA.Build(NulData()) == Success([
              [0x00, 0x1a, 0x41, 0x42, 0x43, 0x44, 0x45, 0x46, 0x47, 0x48, 0x49, 0x4a, 0x4b, 0x4c, 0x4d, 0x4e],
              [0x01, 0x4f] + Repeat<byte>(0, 11) + [0xff, 0xff, 0xff]])
  {
    var data := NulData();
    AAAA.TwoAddresses(data);
    assert Repeat<byte>(0xff, 3) == [0xff, 0xff, 0xff];
    assert data[..14] == [0x41, 0x42, 0x43, 0x44, 0x45, 0x46, 0x47, 0x48, 0x49, 0x4a, 0x4b, 0x4c, 0x4d, 0x4e] by {
      assert data[..14] == data[..15][..14];
    }
    assert data[14..] == [0x4f] + Repeat<byte>(0, 11) by {
      assert data[14..] == [data[14]] + data[15..];
    }
    var a0: seq<byte> := [0x00, 0x1a] + data[..14];
    var a1: seq<byte> := [0x01] + data[14..] + Repeat<byte>(0xff, 3);
    assert a0 == [0x00, 0x1a, 0x41, 0x42, 0x43, 0x44, 0x45, 0x46, 0x47, 0x48, 0x49, 0x4a, 0x4b, 0x4c, 0x4d, 0x4e];
    assert a1 == [0x01, 0x4f] + Repeat<byte>(0, 11) + [0xff, 0xff, 0xff];
    assert AAAA.Build(data) == Success([a0, a1]);
  }

  /** One byte: one address, then thirteen filler bytes. */
  lemma OneByteCase()
    ensures AAAA.Build([0x41]) == Success([[0x00, 0x01, 0x41] + Repeat<byte>(0xff, 13)])
  {
    AAAA.OneAddress([0x41]);
    var a: seq<byte> := [0, 1] + [0x41] + Repeat<byte>(0xff, 13);
    assert a == [0x00, 0x01, 0x41] + Repeat<byte>(0xff, 13);
    assert AAAA.Build([0x41]) == Success([a]);
  }

  /** Fourteen bytes fill one address exactly. */
  lemma OneAddressCase()
    ensures AAAA.Build(Repeat<byte>(0x41, 14)) == Success([[0x00, 0x0e] + Repeat<byte>(0x41, 14)])
  {
    var data := Repeat<byte>(0x41, 14);
    AAAA.OneAddress(data);
    assert Repeat<byte>(0xff, 0) == [];
    var a: seq<byte> := [0, 14] + data + Repeat<byte>(0xff, 0);
    assert a == [0x00, 0x0e] + data;
    assert AAAA.Build(data) == Success([a]);
  }

  // ------------------------------------------------------------ CNAME and MX

  /** The configurations of the name tests: hex, subdomains of 63. */
  function Plain(): NameHelper.Config
  {
    NameHelper.Config(None, None, 63, Hex)
  }

  lemma LabelOf(s: string)
    requires 0 < |s| <= 63
    ensures Chunk(s, 63) == [s]
  {
  }

  /** The name is the tag, the subdomains and the domain joined, when it
      fits. */
  lemma NameOf(cfg: NameHelper.Config, data: seq<byte>, subs: seq<string>, name: string)
    requires cfg.maxSubdomainLength > 0
    requires NameHelper.WireLength(cfg, |data|) <= NameHelper.MaxWireLength
    requires NameHelper.Subdomains(cfg, data) == subs
    requires Names.Join(NameHelper.Tag(cfg) + subs + NameHelper.Domain(cfg)) == name
    ensures NameHelper.Build(cfg, data) == Success(name)
  {
  }

  /** The labels of a name: the tag, the subdomains, the domain. */
  lemma Labels(cfg: NameHelper.Config, subs: seq<string>)
    ensures cfg.tag.None? && cfg.domain.None? ==> NameHelper.Tag(cfg) + subs + NameHelper.Domain(cfg) == subs
    ensures cfg.tag.Some? && cfg.domain.None? ==> NameHelper.Tag(cfg) + subs + NameHelper.Domain(cfg) == [cfg.tag.value] + subs
    ensures cfg.tag.None? && cfg.domain.Some? ==> NameHelper.Tag(cfg) + subs + NameHelper.Domain(cfg) == subs + [cfg.domain.value]
  {
  }

  lemma JoinTwo(a: string, b: string, name: string)
    requires name == a + "." + b
    ensures Names.Join([a, b]) == name
  {
    assert [a, b][1..] == [b];
  }

  lemma JoinThree(a: string, b: string, c: string, name: string)
    requires name == a + "." + b + "." + c
    ensures Names.Join([a, b, c]) == name
  {
    assert [a, b, c][1..] == [b, c];
    JoinTwo(b, c, b + "." + c);
  }

  /** `AAAA` in hex is one subdomain of 63 characters or fewer. */
  lemma HexLabel(cfg: NameHelper.Config)
    requires cfg.encoding == Hex && cfg.maxSubdomainLength == 63
    ensures NameHelper.Subdomains(cfg, [0x41, 0x41, 0x41, 0x41]) == ["41414141"]
    ensures NameHelper.WireLength(cfg, 4) == NameHelper.Overhead(cfg) + 9
  {
    HexAAAA();
    LabelOf("41414141");
    assert EncodedLength(Hex, 4) == 8;
  }

  /** `AAAA` gives `41414141` with neither tag nor domain. */
  lemma PlainCase()
    ensures NameHelper.Build(Plain(), [0x41, 0x41, 0x41, 0x41]) == Success("41414141")
  {
    HexLabel(Plain());
    Labels(Plain(), ["41414141"]);
    NameOf(Plain(), [0x41, 0x41, 0x41, 0x41], ["41414141"], "41414141");
  }

  /** The tag is a label in front: `aaa.41414141`. */
  lemma TagCase()
    ensures NameHelper.Build(Plain().(tag := Some("aaa")), [0x41, 0x41, 0x41, 0x41]) == Success("aaa.41414141")
  {
    assert "aaa" + "." + "41414141" == "aaa.41414141";
    var cfg := Plain().(tag := Some("aaa"));
    HexLabel(cfg);
    Labels(cfg, ["41414141"]);
    JoinTwo("aaa", "41414141", "aaa.41414141");
    NameOf(cfg, [0x41, 0x41, 0x41, 0x41], ["41414141"], "aaa.41414141");
  }

  /** The domain is behind: `41414141.aaa`. */
  lemma DomainCase()
    ensures NameHelper.Build(Plain().(domain := Some("aaa")), [0x41, 0x41, 0x41, 0x41]) == Success("41414141.aaa")
  {
    assert "41414141" + "." + "aaa" == "41414141.aaa";
    var cfg := Plain().(domain := Some("aaa"));
    HexLabel(cfg);
    Labels(cfg, ["41414141"]);
    JoinTwo("41414141", "aaa", "41414141.aaa");
    NameOf(cfg, [0x41, 0x41, 0x41, 0x41], ["41414141"], "41414141.aaa");
  }

  /** `AAAA` in hex cut every three characters. */
  lemma ThreeLabels(cfg: NameHelper.Config)
    requires cfg.encoding == Hex && cfg.maxSubdomainLength == 3
    ensures NameHelper.Subdomains(cfg, [0x41, 0x41, 0x41, 0x41]) == ["414", "141", "41"]
    ensures NameHelper.WireLength(cfg, 4) == NameHelper.Overhead(cfg) + 11
  {
    HexAAAA();
    ChunkThree();
    assert EncodedLength(Hex, 4) == 8;
  }

  lemma ChunkThree()
    ensures Chunk("41414141", 3) == ["414", "141", "41"]
  {
    var s := "41414141";
    assert s[..3] == "414" && s[3..][..3] == "141" && s[3..][3..] == "41";
    assert Chunk(s[3..][3..], 3) == ["41"];
    assert Chunk(s[3..], 3) == ["141", "41"];
  }

  /** Subdomains of three characters: `414.141.41`. */
  lemma SubdomainLengthCase()
    ensures NameHelper.Build(Plain().(maxSubdomainLength := 3), [0x41, 0x41, 0x41, 0x41]) == Success("414.141.41")
  {
    assert "414" + "." + "141" + "." + "41" == "414.141.41";
    var cfg := Plain().(maxSubdomainLength := 3);
    ThreeLabels(cfg);
    Labels(cfg, ["414", "141", "41"]);
    JoinThree("414", "141", "41", "414.141.41");
    NameOf(cfg, [0x41, 0x41, 0x41, 0x41], ["414", "141", "41"], "414.141.41");
  }

  /** With base32: `ifaucqi`. */
  lemma Base32Case()
    ensures NameHelper.Build(Plain().(encoding := Base32), [0x41, 0x41, 0x41, 0x41]) == Success("ifaucqi")
  {
    var data: seq<byte> := [0x41, 0x41, 0x41, 0x41];
    var cfg := Plain().(encoding := Base32);
    Base32AAAA();
    LabelOf("ifaucqi");
    assert NameHelper.Subdomains(cfg, data) == ["ifaucqi"];
    assert NameHelper.Tag(cfg) + ["ifaucqi"] + NameHelper.Domain(cfg) == ["ifaucqi"];
  }

  /** The boundary of both capacity tests: without a domain, and with a
      17-character domain and subdomains of ten. */
  lemma CapacityCases()
    ensures var cfgs := [Plain(), Plain().(domain := Some("aaaaaaaaaaaaaaaaa"), maxSubdomainLength := 10)];
            forall i | 0 <= i < 2 ::
              NameHelper.MaxLength(cfgs[i]) >= 0 &&
              NameHelper.Build(cfgs[i], Repeat(0x41, NameHelper.MaxLength(cfgs[i]))).Success? &&
              NameHelper.Build(cfgs[i], Repeat(0x41, NameHelper.MaxLength(cfgs[i]) + 1)) == Failure(DnscatException(TooMuchData))
  {
  }

  // ------------------------------------------------------------ TXT

  function TxtConfig(): TXT.Config
  {
    TXT.Config(Some("abc"), Some("def"), Hex)
  }

  /** `max_length` is 125; that many `A`s are `41` 125 times, one more is
      too much data; no data is one empty record. */
  lemma TxtCases()
    ensures TXT.MaxLength(TxtConfig()) == 125
    ensures TXT.Build(TxtConfig(), []) == Success([""])
    ensures TXT.Build(TxtConfig(), Repeat(0x41, 125)) == Success([Flatten(Repeat("41", 125))])
    ensures TXT.Build(TxtConfig(), Repeat(0x41, 126)) == Failure(DnscatException(TooMuchData))
  {
    TXT.HexMaxLength(TxtConfig());
    TXT.EmptyData(TxtConfig());
    TxtFull();
    TxtOver();
  }

  lemma TxtFull()
    ensures TXT.Build(TxtConfig(), Repeat(0x41, 125)) == Success([Flatten(Repeat("41", 125))])
  {
    TXT.HexMaxLength(TxtConfig());
    HexOfAs(125);
  }

  lemma TxtOver()
    ensures TXT.Build(TxtConfig(), Repeat(0x41, 126)) == Failure(DnscatException(TooMuchData))
  {
    TXT.HexMaxLength(TxtConfig());
  }

  /** With base32: `AaAaAaAa` is `ifqucykbmfawc`. */
  lemma TxtBase32Case()
    ensures TXT.Build(TXT.Config(Some("abc"), None, Base32), [0x41, 0x61, 0x41, 0x61, 0x41, 0x61, 0x41, 0x61])
            == Success(["ifqucykbmfawc"])
  {
    Base32AaAa();
  }
}
