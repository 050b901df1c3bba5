/** The AAAA builder: tunnel data carried in the 16 bytes of IPv6 addresses
    (section 2.2 of RFC 3596). The data is preceded by one byte holding its
    length, and that stream is cut into slices of 15 bytes. Each address is
    its index, then its slice, and the last slice is filled up with 0xFF. */
module AAAA {
  import opened Wrappers
  import opened Digits
  import opened Seqs
  import opened Wire

  /** The bytes of an IPv6 address. */
  const AddressSize: nat := 16
  /** The stream bytes one address carries: all but its index byte. */
  const SliceSize: nat := 15
  /** The addresses one build may return. */
  const MaxRecords: nat := 15
  /** What fills the last address after the end of the stream. */
  const Filler: byte := 0xFF

  /** `max_length`: the stream the addresses can carry, less its length byte. */
  function MaxLength(): nat
  {
    MaxRecords * SliceSize - 1
  }

  /** The data behind its length byte. */
  function Stream(data: seq<byte>): (s: seq<byte>)
    requires |data| < 256
    ensures |s| == |data| + 1 && s[0] == |data| && s[1..] == data
  {
    [|data|] + data
  }

  /** A slice filled up with 0xFF to a whole slice. */
  function Fill(slice: seq<byte>): (r: seq<byte>)
    requires |slice| <= SliceSize
    ensures |r| == SliceSize
  {
    slice + Repeat(Filler, SliceSize - |slice|)
  }

  /** The addresses for some slices: the index of each, then its slice, filled. */
  function Addresses(slices: seq<seq<byte>>): (addrs: seq<seq<byte>>)
    requires |slices| <= 256 && forall i :: 0 <= i < |slices| ==> |slices[i]| <= SliceSize
    ensures |addrs| == |slices|
    ensures forall i :: 0 <= i < |addrs| ==> |addrs[i]| == AddressSize && addrs[i][0] == i && addrs[i][1..] == Fill(slices[i])
  {
    seq(|slices|, i requires 0 <= i < |slices| => [i as byte] + Fill(slices[i]))
  }

  /** `build`: the addresses carrying the data, in order; a DnscatException
      when the data is longer than `max_length`. */
  function Build(data: seq<byte>): (r: Result<seq<seq<byte>>>)
    ensures r.Success? <==> |data| <= MaxLength()
    ensures r.Failure? ==> r.error == DnscatException(TooMuchData)
    ensures r.Success? ==> 1 <= |r.value| <= MaxRecords && |r.value| == (|data| + SliceSize) / SliceSize
    ensures r.Success? ==> forall i :: 0 <= i < |r.value| ==> |r.value[i]| == AddressSize && r.value[i][0] == i
  {
    if |data| > MaxLength() then Failure(DnscatException(TooMuchData))
    else
      var slices := Chunk(Stream(data), SliceSize);
      ChunkCount(Stream(data), SliceSize);
      RecordCount(|data|);
      Success(Addresses(slices))
  }

  /** At most 224 bytes of data make one to fifteen slices. */
  lemma RecordCount(n: nat)
    requires n <= MaxLength()
    ensures 1 <= (n + SliceSize) / SliceSize <= MaxRecords
  {
    DivLeIff(n + SliceSize, SliceSize, MaxRecords);
    LeDivIff(1, n + SliceSize, SliceSize);
  }

  /** The receiving side: the stream is the addresses without their index
      bytes, and the data is as many bytes after the length byte as it says;
      None when the stream is shorter than that. */
  function Reassemble(addrs: seq<seq<byte>>): Option<seq<byte>>
  {
    var stream := Flatten(seq(|addrs|, i requires 0 <= i < |addrs| => if addrs[i] == [] then [] else addrs[i][1..]));
    if stream == [] || |stream| <= stream[0] then None else Some(stream[1..1 + stream[0]])
  }

  // ------------------------------------------------------------ reassembly

  /** Slices filled one by one and glued: the slices glued, then the filler
      of the last. */
  lemma {:induction false} FlattenFilled(slices: seq<seq<byte>>)
    requires slices != [] && forall i :: 0 <= i < |slices| ==> |slices[i]| <= SliceSize
    requires forall i :: 0 <= i < |slices| - 1 ==> |slices[i]| == SliceSize
    ensures Flatten(seq(|slices|, i requires 0 <= i < |slices| => Fill(slices[i])))
            == Flatten(slices) + Repeat(Filler, SliceSize - |slices[|slices| - 1]|)
  {
    var filled := seq(|slices|, i requires 0 <= i < |slices| => Fill(slices[i]));
    var last := slices[|slices| - 1];
    if |slices| == 1 {
      assert Flatten(slices) == last by {
        assert slices[1..] == [];
      }
      assert filled[1..] == [];
    } else {
      var rest := slices[1..];
      assert filled[1..] == seq(|rest|, i requires 0 <= i < |rest| => Fill(rest[i]));
      FlattenFilled(rest);
      assert rest[|rest| - 1] == last;
      assert Fill(slices[0]) == slices[0] by {
        assert SliceSize - |slices[0]| == 0;
      }
      assert Flatten(filled) == slices[0] + (Flatten(rest) + Repeat(Filler, SliceSize - |last|));
    }
  }

  /** What the addresses carry: each leads with its index, and without those
      index bytes they are the slices one after the other, then the filler of
      the last slice. */
  lemma AddressesCarry(slices: seq<seq<byte>>)
    requires |slices| <= 256 && slices != [] && forall i :: 0 <= i < |slices| ==> |slices[i]| <= SliceSize
    requires forall i :: 0 <= i < |slices| - 1 ==> |slices[i]| == SliceSize
    ensures var addrs := Addresses(slices);
            (forall i :: 0 <= i < |addrs| ==> |addrs[i]| == AddressSize && addrs[i][0] == i) &&
            Flatten(seq(|addrs|, i requires 0 <= i < |addrs| => addrs[i][1..]))
            == Flatten(slices) + Repeat(Filler, SliceSize - |slices[|slices| - 1]|)
  {
    var addrs := Addresses(slices);
    var filled := seq(|slices|, i requires 0 <= i < |slices| => Fill(slices[i]));
    assert seq(|addrs|, i requires 0 <= i < |addrs| => addrs[i][1..]) == filled;
    FlattenFilled(slices);
  }

  /** The round trip: reassembling the addresses of a build gives the data. */
  lemma BuildReassemble(data: seq<byte>)
    requires Build(data).Success?
    ensures Reassemble(Build(data).value) == Some(data)
  {
    var addrs := Build(data).value;
    var s := Stream(data);
    var slices := Chunk(s, SliceSize);
    var tails := seq(|addrs|, i requires 0 <= i < |addrs| => if addrs[i] == [] then [] else addrs[i][1..]);
    var filled := seq(|slices|, i requires 0 <= i < |slices| => Fill(slices[i]));
    assert tails == filled;
    FlattenChunk(s, SliceSize);
    FlattenFilled(slices);
    var stream := Flatten(tails);
    assert stream == s + Repeat(Filler, SliceSize - |slices[|slices| - 1]|);
    assert stream[0] == |data|;
    assert stream[1..1 + |data|] == data;
  }

  // ------------------------------------------------------------ short data

  /** Up to 14 bytes fit one address: index 0, the length, the data, filler. */
  lemma OneAddress(data: seq<byte>)
    requires |data| <= SliceSize - 1
    ensures Build(data) == Success([[0, |data|] + data + Repeat(Filler, SliceSize - 1 - |data|)])
  {
    var s := Stream(data);
    assert Chunk(s, SliceSize) == [s];
    var a := Build(data).value;
    assert |a| == 1;
    assert a[0] == [0] + Fill(s);
    assert [0] + Fill(s) == [0, |data|] + data + Repeat(Filler, SliceSize - 1 - |data|);
    assert a == [a[0]];
  }

  /** 15 to 29 bytes fill two addresses: the first holds the length and 14
      bytes, the second the rest and filler. */
  lemma TwoAddresses(data: seq<byte>)
    requires SliceSize <= |data| <= 2 * SliceSize - 1
    ensures Build(data) == Success([[0, |data|] + data[..14], [1] + data[14..] + Repeat(Filler, 2 * SliceSize - 1 - |data|)])
  {
    var s := Stream(data);
    assert s[SliceSize..] == data[14..];
    assert Chunk(s[SliceSize..], SliceSize) == [s[SliceSize..]];
    assert Chunk(s, SliceSize) == [s[..SliceSize], s[SliceSize..]];
    var a := Build(data).value;
    assert |a| == 2;
    assert a[0] == [0] + Fill(s[..SliceSize]);
    assert Fill(s[..SliceSize]) == s[..SliceSize] == [|data|] + data[..14];
    assert a[1] == [1] + Fill(s[SliceSize..]);
    assert Fill(s[SliceSize..]) == data[14..] + Repeat(Filler, 2 * SliceSize - 1 - |data|);
    assert a[0] == [0, |data|] + data[..14];
    assert a[1] == [1] + data[14..] + Repeat(Filler, 2 * SliceSize - 1 - |data|);
    assert a == [a[0], a[1]];
  }

  // ------------------------------------------------------------ full data

  /** Slice i of a cut sequence starts at i * m. */
  lemma {:induction false} ChunkAt<T>(s: seq<T>, m: nat, i: nat)
    requires m > 0 && (i + 1) * m <= |s|
    ensures i < |Chunk(s, m)| && Chunk(s, m)[i] == s[i * m..(i + 1) * m]
    decreases |s|
  {
    if i > 0 {
      assert |s| > m;
      ChunkAt(s[m..], m, i - 1);
      assert s[m..][(i - 1) * m..i * m] == s[i * m..(i + 1) * m];
    } else if |s| > m {
      assert Chunk(s, m)[0] == s[..m];
    } else {
      assert Chunk(s, m) == [s];
    }
  }

  /** `max_length` bytes of `A` fill all fifteen addresses: the first starts
      0, 0xE0 (224), and every other one is its index and fifteen `A`s. */
  lemma MaxAddresses()
    ensures var a := Build(Repeat(0x41, MaxLength()));
            a.Success? && |a.value| == MaxRecords &&
            a.value[0] == [0, 0xE0] + Repeat(0x41, 14) &&
            forall i :: 1 <= i < MaxRecords ==> a.value[i] == [i] + Repeat(0x41, SliceSize)
  {
    var data := Repeat<byte>(0x41, MaxLength());
    var s := Stream(data);
    var a := Build(data).value;
    assert |s| == MaxRecords * SliceSize;
    ChunkAt(s, SliceSize, 0);
    FullFirstSlice();
    assert a[0] == [0] + a[0][1..];
    forall i | 1 <= i < MaxRecords
      ensures a[i] == [i] + Repeat(0x41, SliceSize)
    {
      ChunkAt(s, SliceSize, i);
      FullSlice(i);
      assert a[i] == [a[i][0]] + a[i][1..];
    }
  }

  /** The first slice of the longest stream: its length byte, then 14 `A`s. */
  lemma FullFirstSlice()
    ensures Stream(Repeat<byte>(0x41, MaxLength()))[..SliceSize] == [0xE0] + Repeat(0x41, 14)
  {
  }

  /** Every other slice of the longest stream: fifteen `A`s. */
  lemma FullSlice(i: nat)
    requires 1 <= i < MaxRecords
    ensures Stream(Repeat<byte>(0x41, MaxLength()))[i * SliceSize..(i + 1) * SliceSize] == Repeat(0x41, SliceSize)
  {
    var data := Repeat<byte>(0x41, MaxLength());
    var s := Stream(data);
    var slice := s[i * SliceSize..(i + 1) * SliceSize];
    forall k | 0 <= k < SliceSize
      ensures slice[k] == 0x41
    {
      assert slice[k] == s[i * SliceSize + k] == data[i * SliceSize + k - 1];
    }
  }

  /** `max_length` + 1 bytes are refused. */
  lemma OverMaxRefused()
    ensures Build(Repeat(0x41, MaxLength() + 1)) == Failure(DnscatException(TooMuchData))
  {
  }
}
