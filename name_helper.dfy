/** The name synthesis that the CNAME and MX builders share: the data is
    encoded, the characters are cut into subdomain labels of at most
    `max_subdomain_length` characters, the tag (if any) goes in front as one
    more label and the domain (if any) behind. The name has to fit the
    255-byte limit on names in a message, and `max_length` is the largest
    amount of data for which it does. */
module NameHelper {
  import opened Wrappers
  import opened Digits
  import opened Seqs
  import opened Names
  import opened Wire
  import opened Encoders

  datatype Config = Config(tag: Option<string>, domain: Option<string>, maxSubdomainLength: nat, encoding: Encoding)

  /** The longest name a message can carry, in bytes on the wire. */
  const MaxWireLength: nat := 255

  function Tag(cfg: Config): seq<string>
  {
    if cfg.tag.Some? then [cfg.tag.value] else []
  }

  function Domain(cfg: Config): seq<string>
  {
    if cfg.domain.Some? then [cfg.domain.value] else []
  }

  /** The subdomain labels that carry the data. */
  function Subdomains(cfg: Config, data: seq<byte>): seq<string>
    requires cfg.maxSubdomainLength > 0
  {
    Chunk(Encode(cfg.encoding, data), cfg.maxSubdomainLength)
  }

  /** The name for the data: tag, subdomains and domain joined with dots. */
  function Name(cfg: Config, data: seq<byte>): string
    requires cfg.maxSubdomainLength > 0
  {
    Join(Tag(cfg) + Subdomains(cfg, data) + Domain(cfg))
  }

  /** The bytes of a message the tag, the domain and the terminator take. */
  function Overhead(cfg: Config): nat
  {
    1 + (if cfg.tag.Some? then |cfg.tag.value| + 1 else 0)
      + (if cfg.domain.Some? then |cfg.domain.value| + 1 else 0)
  }

  /** The bytes of a message the name for n bytes of data takes: the
      overhead, the encoded characters and one length byte per subdomain. */
  function WireLength(cfg: Config, n: nat): nat
    requires cfg.maxSubdomainLength > 0
  {
    var m, c := cfg.maxSubdomainLength, EncodedLength(cfg.encoding, n);
    Overhead(cfg) + c + (c + m - 1) / m
  }

  /** `max_length`: the data the room left by the overhead can carry, once
      every m characters are given one length byte; -1 when not even the
      overhead fits. */
  function MaxLength(cfg: Config): int
    requires cfg.maxSubdomainLength > 0
  {
    var m := cfg.maxSubdomainLength;
    var room := MaxWireLength - Overhead(cfg);
    if room < 0 then -1
    else
      MulNat(m, room);
      DivNat(m * room, m + 1);
      MaxBytes(cfg.encoding, m * room / (m + 1))
  }

  /** `build` / `encode`: the name for the data, or a DnscatException when
      there is more data than `max_length`. */
  function Build(cfg: Config, data: seq<byte>): (r: Result<string>)
    requires cfg.maxSubdomainLength > 0
    ensures r.Success? <==> WireLength(cfg, |data|) <= MaxWireLength
    ensures r.Failure? ==> r.error == DnscatException(TooMuchData)
    ensures r.Success? ==> r.value == Name(cfg, data) && |r.value| <= MaxNameLength
  {
    CapacityIff(cfg, |data|);
    NameLength(cfg, data);
    if |data| > MaxLength(cfg) then Failure(DnscatException(TooMuchData))
    else Success(Name(cfg, data))
  }

  // ------------------------------------------------------------ capacity

  /** E characters and one length byte per m of them fit in `room` bytes
      exactly when E * (m + 1) <= m * room. */
  lemma ChunkRoomIff(c: nat, m: nat, room: nat)
    requires m > 0
    ensures c + (c + m - 1) / m <= room <==> c * (m + 1) <= m * room
  {
    if c <= room {
      DivLeIff(c + m - 1, m, room - c);
      assert (room - c + 1) * m == room * m - c * m + m;
      assert c * (m + 1) == c * m + c;
    } else {
      MulMono(room, c, m + 1);
      assert room * (m + 1) == m * room + room;
    }
  }

  /** `max_length` is exactly the most data whose name fits: n bytes fit
      if and only if n <= `max_length`. */
  lemma CapacityIff(cfg: Config, n: nat)
    requires cfg.maxSubdomainLength > 0
    ensures n as int <= MaxLength(cfg) <==> WireLength(cfg, n) <= MaxWireLength
  {
    var m, e := cfg.maxSubdomainLength, cfg.encoding;
    var c := EncodedLength(e, n);
    var room := MaxWireLength - Overhead(cfg);
    if room >= 0 {
      var chars := m * room / (m + 1);
      FitsIff(e, n, chars);
      LeDivIff(n, chars * Bits(e), 8);
      LeDivIff(c, m * room, m + 1);
      ChunkRoomIff(c, m, room);
    }
  }

  /** `max_length` bytes fit and one more byte does not. */
  lemma MaxLengthIsLargest(cfg: Config)
    requires cfg.maxSubdomainLength > 0 && MaxLength(cfg) >= 0
    ensures WireLength(cfg, MaxLength(cfg)) <= MaxWireLength
    ensures WireLength(cfg, MaxLength(cfg) + 1) > MaxWireLength
  {
    CapacityIff(cfg, MaxLength(cfg));
    CapacityIff(cfg, MaxLength(cfg) + 1);
  }

  // ------------------------------------------------------------ the name

  lemma {:induction false} ChunkLengthSum(s: string, m: nat)
    requires m > 0
    ensures LengthSum(Chunk(s, m)) == |s|
    decreases |s|
  {
    if |s| > m {
      ChunkLengthSum(s[m..], m);
      assert Chunk(s, m)[1..] == Chunk(s[m..], m);
    } else if |s| > 0 {
      assert Chunk(s, m)[1..] == [];
    }
  }

  /** The name takes WireLength bytes in a message: its text and two bytes
      more (the first length byte and the terminator). */
  lemma NameLength(cfg: Config, data: seq<byte>)
    requires cfg.maxSubdomainLength > 0
    ensures |Name(cfg, data)| + 2 == WireLength(cfg, |data|) || (Name(cfg, data) == "" && WireLength(cfg, |data|) == 1)
  {
    var subs := Subdomains(cfg, data);
    var ps := Tag(cfg) + subs + Domain(cfg);
    SubdomainCounts(cfg, data);
    OverheadParts(cfg);
    PartsLength(Tag(cfg), subs, Domain(cfg));
    if ps != [] {
      JoinLength(ps);
    }
  }

  /** The subdomains: one per m encoded characters, all of them in all. */
  lemma SubdomainCounts(cfg: Config, data: seq<byte>)
    requires cfg.maxSubdomainLength > 0
    ensures var m, c := cfg.maxSubdomainLength, EncodedLength(cfg.encoding, |data|);
            |Subdomains(cfg, data)| == (c + m - 1) / m && LengthSum(Subdomains(cfg, data)) == c
  {
    var s := Encode(cfg.encoding, data);
    EncodeLength(cfg.encoding, data);
    ChunkCount(s, cfg.maxSubdomainLength);
    ChunkLengthSum(s, cfg.maxSubdomainLength);
  }

  /** The tag and the domain take their characters and a length byte each;
      the terminator one byte more. */
  lemma OverheadParts(cfg: Config)
    ensures |Tag(cfg)| + LengthSum(Tag(cfg)) + |Domain(cfg)| + LengthSum(Domain(cfg)) + 1 == Overhead(cfg)
  {
    if cfg.tag.Some? {
      LengthSumOne(cfg.tag.value);
    }
    if cfg.domain.Some? {
      LengthSumOne(cfg.domain.value);
    }
  }

  lemma PartsLength(a: seq<string>, b: seq<string>, c: seq<string>)
    ensures |a + b + c| == |a| + |b| + |c|
    ensures LengthSum(a + b + c) == LengthSum(a) + LengthSum(b) + LengthSum(c)
  {
    LengthSumAppend(a, b);
    LengthSumAppend(a + b, c);
  }

  lemma LengthSumOne(l: string)
    ensures LengthSum([l]) == |l|
  {
    assert [l][1..] == [];
  }

  /** Characters that are all letters and digits, cut into at most 63 at a
      time, are valid labels. */
  lemma {:induction false} ChunkLabels(s: string, m: nat)
    requires 1 <= m <= MaxLabelLength
    requires forall k :: 0 <= k < |s| ==> LabelChar(s[k])
    ensures ValidLabels(Chunk(s, m))
    decreases |s|
  {
    if |s| > m {
      ChunkLabels(s[m..], m);
      assert Chunk(s, m) == [s[..m]] + Chunk(s[m..], m);
      assert ValidLabel(s[..m]) by {
        forall k | 0 <= k < m
          ensures LabelChar(s[..m][k])
        {
          assert s[..m][k] == s[k];
        }
      }
    }
  }

  lemma ValidLabelsAppend(a: seq<string>, b: seq<string>)
    requires ValidLabels(a) && ValidLabels(b)
    ensures ValidLabels(a + b)
  {
    forall i | 0 <= i < |a + b|
      ensures ValidLabel((a + b)[i])
    {
      if i >= |a| {
        assert (a + b)[i] == b[i - |a|];
      }
    }
  }

  /** A configuration whose tag is a label, whose domain is a dotted name of
      labels and whose subdomains are at most 63 characters. */
  predicate ValidConfig(cfg: Config)
  {
    1 <= cfg.maxSubdomainLength <= MaxLabelLength &&
    (cfg.tag.Some? ==> ValidLabel(cfg.tag.value)) &&
    (cfg.domain.Some? ==> ValidLabels(Split(cfg.domain.value)))
  }

  /** The labels of the name: the domain split at its dots. */
  function Labels(cfg: Config, data: seq<byte>): seq<string>
    requires cfg.maxSubdomainLength > 0
  {
    Tag(cfg) + Subdomains(cfg, data) + (if cfg.domain.Some? then Split(cfg.domain.value) else [])
  }

  lemma NameIsJoin(cfg: Config, data: seq<byte>)
    requires cfg.maxSubdomainLength > 0
    ensures Name(cfg, data) == Join(Labels(cfg, data))
  {
    var a := Tag(cfg) + Subdomains(cfg, data);
    if cfg.domain.Some? {
      var d := cfg.domain.value;
      JoinSplit(d);
      if a == [] {
        assert a + [d] == [d] && a + Split(d) == Split(d);
      } else {
        JoinAppend(a, [d]);
        JoinAppend(a, Split(d));
      }
    } else {
      assert a + [] == a;
    }
  }

  /** Whatever `build` returns, the packer accepts: it parses into exactly
      the tag, the subdomains and the domain's labels. */
  lemma BuiltNameParses(cfg: Config, data: seq<byte>)
    requires ValidConfig(cfg) && Build(cfg, data).Success?
    ensures ParseName(Build(cfg, data).value) == Success(Labels(cfg, data))
  {
    var m := cfg.maxSubdomainLength;
    var s := Encode(cfg.encoding, data);
    EncodeChars(cfg.encoding, data);
    ChunkLabels(s, m);
    var tail := if cfg.domain.Some? then Split(cfg.domain.value) else [];
    assert ValidLabels(Tag(cfg));
    ValidLabelsAppend(Tag(cfg), Subdomains(cfg, data));
    ValidLabelsAppend(Tag(cfg) + Subdomains(cfg, data), tail);
    NameIsJoin(cfg, data);
    ParseJoin(Labels(cfg, data));
  }

  // ------------------------------------------------------------ the receiving side

  /** The data back from a name: its labels without the tag in front and the
      domain's labels behind, glued and decoded; None when the name is
      refused, too short, or holds a character outside the alphabet. */
  function Reassemble(cfg: Config, name: string): Option<seq<byte>>
  {
    match ParseName(name)
    case Failure(_) => None
    case Success(ls) =>
      var front := |Tag(cfg)|;
      var back := if cfg.domain.Some? then |Split(cfg.domain.value)| else 0;
      if |ls| < front + back then None
      else Encoders.Decode(cfg.encoding, Flatten(ls[front..|ls| - back]))
  }

  /** The round trip: the data comes back from the name `build` made. */
  lemma BuildReassemble(cfg: Config, data: seq<byte>)
    requires ValidConfig(cfg) && Build(cfg, data).Success?
    ensures Reassemble(cfg, Build(cfg, data).value) == Some(data)
  {
    var ls := Labels(cfg, data);
    var subs := Subdomains(cfg, data);
    var tail := if cfg.domain.Some? then Split(cfg.domain.value) else [];
    BuiltNameParses(cfg, data);
    Middle(Tag(cfg), subs, tail);
    FlattenChunk(Encode(cfg.encoding, data), cfg.maxSubdomainLength);
    DecodeEncode(cfg.encoding, data);
  }
}
