/** The byte encoders that turn tunnel data into characters a DNS name or a
    TXT string can carry: lower-case hex (section 8 of RFC 4648) and
    lower-case base32 with the padding stripped (section 6 of RFC 4648).

    Both regroup the bits of the data: a group of bytes is read as one
    big-endian number, shifted left with zero bits up to a whole number of
    characters, and written out as base-16 or base-32 digits. Hex groups one
    byte into two characters; base32 groups five bytes into eight characters,
    and a shorter last group into as few characters as its bits need. */
module Encoders {
  import opened Wrappers
  import opened Digits
  import opened Names
  import opened Wire
  import Seqs

  datatype Encoding = Hex | Base32

  /** Bits carried by one character. */
  function Bits(e: Encoding): nat
  {
    if e.Hex? then 4 else 5
  }

  /** The number of different characters, 2 to the power Bits. */
  function Radix(e: Encoding): nat
  {
    if e.Hex? then 16 else 32
  }

  /** Bytes in a whole group, and the characters they become. */
  function GroupBytes(e: Encoding): nat
  {
    if e.Hex? then 1 else 5
  }

  function GroupChars(e: Encoding): nat
  {
    if e.Hex? then 2 else 8
  }

  /** The characters that n bytes become: their bits, rounded up to whole
      characters. */
  function EncodedLength(e: Encoding, n: nat): nat
  {
    (8 * n + Bits(e) - 1) / Bits(e)
  }

  /** The bytes whose bits c characters hold, rounded down: what a decoder
      recovers from c characters. */
  function DecodedLength(e: Encoding, c: nat): nat
  {
    Bits(e) * c / 8
  }

  /** The character for digit d: `0`-`9` then `a`-`f` for hex, `a`-`z` then
      `2`-`7` for base32. */
  function DigitChar(e: Encoding, d: nat): char
    requires d < Radix(e)
  {
    if e.Hex? then
      if d < 10 then ('0' as int + d) as char else ('a' as int + d - 10) as char
    else
      if d < 26 then ('a' as int + d) as char else ('2' as int + d - 26) as char
  }

  /** The digit a character stands for, in either case; None for a character
      outside the alphabet. */
  function CharDigit(e: Encoding, c: char): Option<nat>
  {
    if e.Hex? then
      if '0' <= c <= '9' then Some(c as int - '0' as int)
      else if 'a' <= c <= 'f' then Some(c as int - 'a' as int + 10)
      else if 'A' <= c <= 'F' then Some(c as int - 'A' as int + 10)
      else None
    else
      if 'a' <= c <= 'z' then Some(c as int - 'a' as int)
      else if 'A' <= c <= 'Z' then Some(c as int - 'A' as int)
      else if '2' <= c <= '7' then Some(c as int - '2' as int + 26)
      else None
  }

  /** Every digit has its own character, which reads back as the digit; a
      character reads as a digit exactly when it is that digit's character
      up to case. */
  lemma CharDigitInverse(e: Encoding, d: nat, c: char)
    requires d < Radix(e)
    ensures CharDigit(e, DigitChar(e, d)) == Some(d)
    ensures CharDigit(e, c) == Some(d) <==> DigitChar(e, d) == FoldChar(c)
  {
  }

  /** The characters an encoder writes are letters or digits: no dot, no
      character a label refuses. */
  predicate LabelChar(c: char)
  {
    ('a' <= c <= 'z' || '0' <= c <= '9') && c != '.' && !IllegalChar(c)
  }

  lemma DigitCharIsLabelChar(e: Encoding, d: nat)
    requires d < Radix(e)
    ensures LabelChar(DigitChar(e, d)) && FoldChar(DigitChar(e, d)) == DigitChar(e, d)
  {
  }

  /** The characters of some digits. */
  function Chars(e: Encoding, ds: seq<nat>): (s: string)
    requires AllBelow(ds, Radix(e))
    ensures |s| == |ds| && forall i :: 0 <= i < |s| ==> s[i] == DigitChar(e, ds[i])
  {
    if ds == [] then [] else [DigitChar(e, ds[0])] + Chars(e, ds[1..])
  }

  /** The digits of some characters, or None if one is outside the alphabet. */
  function DigitsOf(e: Encoding, s: string): Option<seq<nat>>
  {
    if s == [] then Some([])
    else match (CharDigit(e, s[0]), DigitsOf(e, s[1..]))
      case (Some(d), Some(ds)) => Some([d] + ds)
      case _ => None
  }

  lemma {:induction false} DigitsOfChars(e: Encoding, ds: seq<nat>)
    requires AllBelow(ds, Radix(e))
    ensures DigitsOf(e, Chars(e, ds)) == Some(ds)
  {
    if ds != [] {
      assert AllBelow(ds[1..], Radix(e));
      CharDigitInverse(e, ds[0], ds[0] as char);
      assert Chars(e, ds)[1..] == Chars(e, ds[1..]);
      DigitsOfChars(e, ds[1..]);
      assert [ds[0]] + ds[1..] == ds;
    }
  }

  /** Digits that fit a byte, as bytes. */
  function AsBytes(ds: seq<nat>): (bs: seq<byte>)
    requires AllBelow(ds, 256)
    ensures bs == ds
  {
    if ds == [] then [] else [ds[0] as byte] + AsBytes(ds[1..])
  }

  // ------------------------------------------------------------ one group

  /** The shape of a group of r bytes: the characters that hold its bits,
      the zero bits that fill the last character, and the bytes a decoder
      reads back from those characters. */
  lemma GroupShape(e: Encoding, r: nat)
    requires 1 <= r <= GroupBytes(e)
    ensures 8 * r <= Bits(e) * EncodedLength(e, r) < 8 * r + Bits(e)
    ensures DecodedLength(e, EncodedLength(e, r)) == r
    ensures EncodedLength(e, r) <= GroupChars(e)
  {
    if e.Hex? {
      assert EncodedLength(e, 1) == 2;
    } else if r == 1 {
      assert EncodedLength(e, 1) == 2;
    } else if r == 2 {
      assert EncodedLength(e, 2) == 4;
    } else if r == 3 {
      assert EncodedLength(e, 3) == 5;
    } else if r == 4 {
      assert EncodedLength(e, 4) == 7;
    } else {
      assert EncodedLength(e, 5) == 8;
    }
  }

  /** The room the characters of a group of r bytes give: the bytes' range
      times the range of the fill bits. */
  lemma PowersOf32()
    ensures Pow(32, 2) == 1024 && Pow(32, 4) == 1048576 && Pow(32, 5) == 33554432
    ensures Pow(32, 7) == 34359738368 && Pow(32, 8) == 1099511627776
  {
    assert Pow(32, 1) == 32;
    assert Pow(32, 3) == 32768;
    assert Pow(32, 6) == 1073741824;
  }

  lemma PowersOf256()
    ensures Pow(256, 1) == 256 && Pow(256, 2) == 65536 && Pow(256, 3) == 16777216
    ensures Pow(256, 4) == 4294967296 && Pow(256, 5) == 1099511627776
  {
  }

  lemma PowersOf2()
    ensures Pow(2, 0) == 1 && Pow(2, 1) == 2 && Pow(2, 2) == 4 && Pow(2, 3) == 8 && Pow(2, 4) == 16
  {
  }

  lemma GroupRoom(e: Encoding, r: nat)
    requires 1 <= r <= GroupBytes(e)
    ensures Pow(Radix(e), EncodedLength(e, r)) == Pow(256, r) * Pow(2, PadBits(e, r))
  {
    PowersOf32();
    PowersOf256();
    PowersOf2();
    assert Pow(16, 2) == 256;
    if e.Hex? {
      RoomCase(e, 1, 2, 0, 256, 256);
    } else if r == 1 {
      RoomCase(e, 1, 2, 2, 1024, 256);
    } else if r == 2 {
      RoomCase(e, 2, 4, 4, 1048576, 65536);
    } else if r == 3 {
      RoomCase(e, 3, 5, 1, 33554432, 16777216);
    } else if r == 4 {
      RoomCase(e, 4, 7, 3, 34359738368, 4294967296);
    } else {
      RoomCase(e, 5, 8, 0, 1099511627776, 1099511627776);
    }
  }

  /** One group size, its characters c, fill bits p and ranges written out. */
  lemma RoomCase(e: Encoding, r: nat, c: nat, p: nat, chars: nat, bytes: nat)
    requires 1 <= r <= GroupBytes(e)
    requires EncodedLength(e, r) == c && Bits(e) * c - 8 * r == p
    requires Pow(Radix(e), c) == chars && Pow(256, r) == bytes && chars == bytes * Pow(2, p)
    ensures Pow(Radix(e), EncodedLength(e, r)) == Pow(256, r) * Pow(2, PadBits(e, r))
  {
  }

  /** The zero bits that fill the last character of a group of r bytes. */
  function PadBits(e: Encoding, r: nat): nat
    requires 1 <= r <= GroupBytes(e)
  {
    GroupShape(e, r);
    Bits(e) * EncodedLength(e, r) - 8 * r
  }

  /** The number a group's characters denote: its bytes, then the fill bits. */
  function GroupNumber(e: Encoding, g: seq<byte>): nat
    requires 1 <= |g| <= GroupBytes(e)
  {
    MulNat(FromDigits(g, 256), Pow(2, PadBits(e, |g|)));
    FromDigits(g, 256) * Pow(2, PadBits(e, |g|))
  }

  /** A group of one to GroupBytes bytes as characters. */
  function EncodeGroup(e: Encoding, g: seq<byte>): (s: string)
    requires 1 <= |g| <= GroupBytes(e)
    ensures |s| == EncodedLength(e, |g|)
  {
    Chars(e, ToDigits(GroupNumber(e, g), Radix(e), EncodedLength(e, |g|)))
  }

  /** Characters of one group back to bytes, dropping the fill bits; None if
      a character is outside the alphabet. */
  function DecodeGroup(e: Encoding, s: string): Option<seq<byte>>
  {
    match DigitsOf(e, s)
    case None => None
    case Some(ds) =>
      var r := DecodedLength(e, |s|);
      var p := Bits(e) * |s| - 8 * r;
      var x := DropBits(FromDigits(ds, Radix(e)), p);
      var bs := ToDigits(x, 256, r);
      Some(AsBytes(bs))
  }

  /** A group's number fits its characters. */
  lemma GroupValue(e: Encoding, g: seq<byte>)
    requires 1 <= |g| <= GroupBytes(e)
    ensures GroupNumber(e, g) < Pow(Radix(e), EncodedLength(e, |g|))
  {
    var r := |g|;
    GroupRoom(e, r);
    assert AllBelow(g, 256);
    FromDigitsBound(g, 256);
    PowPositive(2, PadBits(e, r));
    MulBelow(FromDigits(g, 256), Pow(256, r), Pow(2, PadBits(e, r)));
  }

  lemma MulBelow(x: nat, a: nat, p: nat)
    requires x < a && p >= 1
    ensures x * p < a * p
  {
    MulMono(x + 1, a, p);
    assert (x + 1) * p == x * p + p;
  }

  /** The characters of a group read back as the digits of its number. */
  lemma GroupDigits(e: Encoding, g: seq<byte>)
    requires 1 <= |g| <= GroupBytes(e)
    ensures DigitsOf(e, EncodeGroup(e, g)).Some?
    ensures FromDigits(DigitsOf(e, EncodeGroup(e, g)).value, Radix(e)) == GroupNumber(e, g)
  {
    var ds := ToDigits(GroupNumber(e, g), Radix(e), EncodedLength(e, |g|));
    DigitsOfChars(e, ds);
    GroupValue(e, g);
    FromToDigits(GroupNumber(e, g), Radix(e), EncodedLength(e, |g|));
  }

  /** Dropping the fill bits from a group's number gives its bytes' number. */
  lemma DropFill(e: Encoding, g: seq<byte>)
    requires 1 <= |g| <= GroupBytes(e)
    ensures DropBits(GroupNumber(e, g), PadBits(e, |g|)) == FromDigits(g, 256)
  {
    DropBitsExact(FromDigits(g, 256), PadBits(e, |g|));
  }

  /** Decoding the characters of a group gives the group back. */
  lemma DecodeEncodeGroup(e: Encoding, g: seq<byte>)
    requires 1 <= |g| <= GroupBytes(e)
    ensures DecodeGroup(e, EncodeGroup(e, g)) == Some(g)
  {
    var r := |g|;
    var s := EncodeGroup(e, g);
    GroupShape(e, r);
    assert DecodedLength(e, |s|) == r && Bits(e) * |s| - 8 * r == PadBits(e, r);
    GroupDigits(e, g);
    DropFill(e, g);
    assert AllBelow(g, 256);
    ToFromDigits(g, 256);
  }

  // ------------------------------------------------------------ whole data

  /** `encode`: the data group by group. */
  function Encode(e: Encoding, data: seq<byte>): string
    decreases |data|
  {
    if |data| == 0 then ""
    else if |data| <= GroupBytes(e) then EncodeGroup(e, data)
    else EncodeGroup(e, data[..GroupBytes(e)]) + Encode(e, data[GroupBytes(e)..])
  }

  /** `decode`: the characters group by group; None if one is outside the
      alphabet. */
  function Decode(e: Encoding, s: string): Option<seq<byte>>
    decreases |s|
  {
    if |s| == 0 then Some([])
    else if |s| <= GroupChars(e) then DecodeGroup(e, s)
    else match (DecodeGroup(e, s[..GroupChars(e)]), Decode(e, s[GroupChars(e)..]))
      case (Some(a), Some(b)) => Some(a + b)
      case _ => None
  }

  /** A whole group of bytes fills a whole group of characters. */
  lemma WholeGroup(e: Encoding, n: nat)
    requires n >= GroupBytes(e)
    ensures EncodedLength(e, n) == GroupChars(e) + EncodedLength(e, n - GroupBytes(e))
  {
    var k := Bits(e);
    var m := n - GroupBytes(e);
    assert 8 * n + k - 1 == (8 * m + k - 1) + GroupChars(e) * k;
    DivModIdentity(8 * m + k - 1, k);
    DivModDigit((8 * m + k - 1) / k + GroupChars(e), k, (8 * m + k - 1) % k);
  }

  /** The encoding has exactly EncodedLength characters. */
  lemma {:induction false} EncodeLength(e: Encoding, data: seq<byte>)
    ensures |Encode(e, data)| == EncodedLength(e, |data|)
    decreases |data|
  {
    if |data| > GroupBytes(e) {
      EncodeLength(e, data[GroupBytes(e)..]);
      WholeGroup(e, |data|);
    } else if |data| == 0 {
      assert EncodedLength(e, 0) == 0;
    }
  }

  /** Every character written is a lower-case letter or a digit. */
  lemma {:induction false} EncodeChars(e: Encoding, data: seq<byte>)
    ensures forall i :: 0 <= i < |Encode(e, data)| ==> LabelChar(Encode(e, data)[i]) && FoldChar(Encode(e, data)[i]) == Encode(e, data)[i]
    decreases |data|
  {
    if 0 < |data| <= GroupBytes(e) {
      GroupLabelChars(e, data);
    } else if |data| > GroupBytes(e) {
      GroupLabelChars(e, data[..GroupBytes(e)]);
      EncodeChars(e, data[GroupBytes(e)..]);
    }
  }

  lemma GroupLabelChars(e: Encoding, g: seq<byte>)
    requires 1 <= |g| <= GroupBytes(e)
    ensures forall i :: 0 <= i < |EncodeGroup(e, g)| ==> LabelChar(EncodeGroup(e, g)[i]) && FoldChar(EncodeGroup(e, g)[i]) == EncodeGroup(e, g)[i]
  {
    var c := EncodedLength(e, |g|);
    var ds := ToDigits(GroupNumber(e, g), Radix(e), c);
    forall i | 0 <= i < c
      ensures LabelChar(EncodeGroup(e, g)[i]) && FoldChar(EncodeGroup(e, g)[i]) == EncodeGroup(e, g)[i]
    {
      DigitCharIsLabelChar(e, ds[i]);
    }
  }

  /** A whole group of characters in front decodes on its own. */
  lemma DecodeFront(e: Encoding, head: string, tail: string, x: seq<byte>, y: seq<byte>)
    requires |head| == GroupChars(e) && |tail| > 0
    requires DecodeGroup(e, head) == Some(x) && Decode(e, tail) == Some(y)
    ensures Decode(e, head + tail) == Some(x + y)
  {
    var s := head + tail;
    assert s[..GroupChars(e)] == head && s[GroupChars(e)..] == tail;
  }

  /** Some bytes make some characters. */
  lemma EncodedPositive(e: Encoding, n: nat)
    requires n > 0
    ensures EncodedLength(e, n) > 0
  {
    if e.Hex? {
      assert EncodedLength(e, n) == (8 * n + 3) / 4;
    } else {
      assert EncodedLength(e, n) == (8 * n + 4) / 5;
    }
  }

  /** A whole group of bytes makes a whole group of characters. */
  lemma FullGroup(e: Encoding)
    ensures EncodedLength(e, GroupBytes(e)) == GroupChars(e)
  {
  }

  /** The round trip: decoding what `encode` wrote gives the data back. */
  lemma {:induction false} DecodeEncode(e: Encoding, data: seq<byte>)
    ensures Decode(e, Encode(e, data)) == Some(data)
    decreases |data|
  {
    if 0 < |data| <= GroupBytes(e) {
      GroupShape(e, |data|);
      DecodeEncodeGroup(e, data);
    } else if |data| > GroupBytes(e) {
      DecodeEncode(e, data[GroupBytes(e)..]);
      DecodeEncodeStep(e, data);
    }
  }

  /** Longer data is its first whole group, then the rest. */
  lemma EncodeStep(e: Encoding, data: seq<byte>)
    requires |data| > GroupBytes(e)
    ensures Encode(e, data) == EncodeGroup(e, data[..GroupBytes(e)]) + Encode(e, data[GroupBytes(e)..])
  {
  }

  /** The step of the round trip: the first whole group, then the rest. */
  lemma DecodeEncodeStep(e: Encoding, data: seq<byte>)
    requires |data| > GroupBytes(e)
    requires Decode(e, Encode(e, data[GroupBytes(e)..])) == Some(data[GroupBytes(e)..])
    ensures Decode(e, Encode(e, data)) == Some(data)
  {
    var g, rest := data[..GroupBytes(e)], data[GroupBytes(e)..];
    EncodeStep(e, data);
    DecodeGroupThenRest(e, g, rest);
    Seqs.SplitAt(data, GroupBytes(e));
  }

  /** A whole group's characters, then the encoding of more data, decode to
      the group, then that data. */
  lemma DecodeGroupThenRest(e: Encoding, g: seq<byte>, rest: seq<byte>)
    requires |g| == GroupBytes(e) && |rest| > 0
    requires Decode(e, Encode(e, rest)) == Some(rest)
    ensures Decode(e, EncodeGroup(e, g) + Encode(e, rest)) == Some(g + rest)
  {
    var head, tail := EncodeGroup(e, g), Encode(e, rest);
    FullGroup(e);
    EncodeLength(e, rest);
    EncodedPositive(e, |rest|);
    DecodeEncodeGroup(e, g);
    DecodeFront(e, head, tail, g, rest);
  }

  /** n bytes fit in L characters exactly when n is at most MaxBytes(e, L):
      the capacity that every builder derives from its room in characters. */
  function MaxBytes(e: Encoding, room: nat): (n: nat)
    ensures EncodedLength(e, n) <= room && EncodedLength(e, n + 1) > room
  {
    var k := Bits(e);
    var n := room * k / 8;
    DivModIdentity(room * k, 8);
    FitsIff(e, n, room);
    FitsIff(e, n + 1, room);
    n
  }

  /** n bytes fit in `room` characters exactly when their bits do. */
  lemma FitsIff(e: Encoding, n: nat, room: nat)
    ensures EncodedLength(e, n) <= room <==> 8 * n <= Bits(e) * room
  {
    var k := Bits(e);
    var c := EncodedLength(e, n);
    DivModIdentity(8 * n + k - 1, k);
    assert c * k <= 8 * n + k - 1 < c * k + k;
    if c <= room {
      MulMono(c, room, k);
    } else {
      MulMono(room, c - 1, k);
    }
  }

  /** The capacity grows with the room. */
  lemma MaxBytesMono(e: Encoding, a: nat, b: nat)
    requires a <= b
    ensures MaxBytes(e, a) <= MaxBytes(e, b)
  {
    FitsIff(e, MaxBytes(e, a), a);
    FitsIff(e, MaxBytes(e, b) + 1, b);
    MulMono(a, b, Bits(e));
  }
}
