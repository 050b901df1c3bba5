/** The Packer: a growing message buffer and a table from name suffixes
    already written to the offsets where they start, so that a later name
    ending with the same labels is written as a pointer to them. */
module Packer {
  import opened Wrappers
  import opened Names
  import opened Wire
  import Seqs

  /** Compression table: the key of a run of labels (see Fold) to its offset. */
  type Table = map<seq<string>, nat>

  /** Every recorded offset can be written as a pointer. */
  predicate Addressable(t: Table)
  {
    forall k | k in t :: t[k] < PointerLimit
  }

  /** Every recorded suffix is really encoded at its offset in buf. */
  ghost predicate Encoded(buf: seq<byte>, t: Table)
  {
    forall k | k in t :: NameAt(buf, t[k], k, t[k])
  }

  /** The table after the suffix with key k was written at off: offsets a
      pointer cannot reach are not recorded. */
  function Record(t: Table, k: seq<string>, off: nat): Table
  {
    if off < PointerLimit then t[k := off] else t
  }

  /** A name written out in full: each label with its length byte, then the
      terminating zero byte. */
  function EncodeLabels(ls: seq<string>): seq<byte>
    requires ValidLabels(ls)
  {
    if ls == [] then [0] else LabelBytes(ls[0]) + EncodeLabels(ls[1..])
  }

  /** The index of the first suffix of ls whose key the table knows, that is
      the longest known suffix, or |ls| when none is known. */
  function FirstKnown(t: Table, ls: seq<string>): (j: nat)
    ensures j <= |ls|
    ensures forall i {:trigger Fold(ls[i..])} | 0 <= i < j :: Fold(ls[i..]) !in t
    ensures j < |ls| ==> Fold(ls[j..]) in t
    decreases |ls|
  {
    if ls == [] || Fold(ls) in t then 0
    else
      var j := 1 + FirstKnown(t, ls[1..]);
      assert forall i | 1 <= i < j :: ls[i..] == ls[1..][i - 1..];
      j
  }

  /** What ends the name: a pointer to the known suffix starting at label j,
      or the zero byte when j is past the last label. */
  function Tail(t: Table, ls: seq<string>, j: nat): (r: seq<byte>)
    requires Addressable(t) && j <= |ls| && (j < |ls| ==> Fold(ls[j..]) in t)
    ensures r == [0] || (|r| == 2 && r[0] >= 0xC0)
  {
    if j == |ls| then [0] else PointerBytes(t[Fold(ls[j..])])
  }

  /** The bytes `pack_name` writes from label i on, given the table t: the
      labels up to the longest known suffix, then what ends the name. */
  function From(t: Table, ls: seq<string>, i: nat): seq<byte>
    requires Addressable(t) && ValidLabels(ls) && i <= FirstKnown(t, ls)
    decreases FirstKnown(t, ls) - i
  {
    if i == FirstKnown(t, ls) then Tail(t, ls, i) else LabelBytes(ls[i]) + From(t, ls, i + 1)
  }

  /** The bytes `pack_name` writes for the labels ls given the table t. */
  function NameBytes(t: Table, ls: seq<string>): seq<byte>
    requires Addressable(t) && ValidLabels(ls)
  {
    From(t, ls, 0)
  }

  /** Where label i of a name written at off starts. */
  function Offset(ls: seq<string>, off: nat, i: nat): (p: nat)
    requires i <= |ls|
    ensures off + i <= p
  {
    if i == 0 then off else Offset(ls, off, i - 1) + 1 + |ls[i - 1]|
  }

  /** The table after the first i labels of a name written at off were
      written, each recording the suffix it starts. */
  function Records(t: Table, ls: seq<string>, off: nat, i: nat): (r: Table)
    requires Addressable(t) && i <= |ls|
    ensures Addressable(r)
  {
    if i == 0 then t else Record(Records(t, ls, off, i - 1), Fold(ls[i - 1..]), Offset(ls, off, i - 1))
  }

  /** The table after `pack_name` wrote the labels ls at off. */
  function NameTable(t: Table, ls: seq<string>, off: nat): Table
    requires Addressable(t)
  {
    Records(t, ls, off, FirstKnown(t, ls))
  }

  /** The class-level `pack_name`: a name on its own, packed by a fresh packer. */
  function PackNameBytes(name: string): (r: Result<seq<byte>>)
    ensures r.Success? <==> ParseName(name).Success?
    ensures r.Failure? ==> r.error == ParseName(name).error
  {
    match ParseName(name)
    case Failure(e) => Failure(e)
    case Success(ls) => Success(NameBytes(map[], ls))
  }

  // ------------------------------------------------------------ labels

  lemma {:induction false} EncodeLabelsLength(ls: seq<string>)
    requires ValidLabels(ls) && |ls| >= 1
    ensures |EncodeLabels(ls)| == |Join(ls)| + 2
  {
    if |ls| > 1 {
      EncodeLabelsLength(ls[1..]);
    }
  }

  lemma LabelBytesRead(prefix: seq<byte>, l: string, suffix: seq<byte>)
    requires ValidLabel(l)
    ensures var buf := prefix + LabelBytes(l) + suffix;
            |prefix| + 1 + buf[|prefix|] <= |buf| && ReadLabel(buf, |prefix|) == l
  {
    var buf := prefix + LabelBytes(l) + suffix;
    assert buf[|prefix|] == |l|;
    forall i | 0 <= i < |l|
      ensures buf[|prefix| + 1 + i] as char == l[i]
    {
      assert buf[|prefix| + 1 + i] == LabelBytes(l)[1 + i];
      assert !IllegalChar(l[i]);
    }
  }

  /** Labels written out in full decode, wherever they sit, to themselves. */
  lemma {:induction false} EncodeLabelsDecode(prefix: seq<byte>, ls: seq<string>, suffix: seq<byte>, visited: set<nat>)
    requires ValidLabels(ls)
    ensures Decode(prefix + EncodeLabels(ls) + suffix, |prefix|, visited)
            == Success((ls, |prefix| + |EncodeLabels(ls)|))
    decreases |ls|
  {
    if ls == [] {
      assert (prefix + EncodeLabels(ls) + suffix)[|prefix|] == 0;
    } else {
      EncodeLabelsDecode(prefix + LabelBytes(ls[0]), ls[1..], suffix, visited);
      EncodeLabelsStep(prefix, ls, suffix, visited);
    }
  }

  /** The first label in front of the rest of the labels, once the rest
      decodes where it starts. */
  lemma EncodeLabelsStep(prefix: seq<byte>, ls: seq<string>, suffix: seq<byte>, visited: set<nat>)
    requires ValidLabels(ls) && ls != []
    requires Decode(prefix + LabelBytes(ls[0]) + EncodeLabels(ls[1..]) + suffix, |prefix + LabelBytes(ls[0])|, visited)
             == Success((ls[1..], |prefix + LabelBytes(ls[0])| + |EncodeLabels(ls[1..])|))
    ensures Decode(prefix + EncodeLabels(ls) + suffix, |prefix|, visited) == Success((ls, |prefix| + |EncodeLabels(ls)|))
  {
    var l, rest := ls[0], ls[1..];
    var head, tail := LabelBytes(l), EncodeLabels(rest);
    LabelDecode(prefix, l, tail, suffix, visited, rest);
    assert ls == [l] + rest;
    EncodeLabelsCons(ls, head, tail);
    Seqs.Regroup(prefix, head, tail, suffix);
  }

  lemma EncodeLabelsCons(ls: seq<string>, head: seq<byte>, tail: seq<byte>)
    requires ValidLabels(ls) && ls != [] && head == LabelBytes(ls[0]) && tail == EncodeLabels(ls[1..])
    ensures EncodeLabels(ls) == head + tail && |EncodeLabels(ls)| == |head| + |tail|
  {
  }

  /** A label written in full, then a name that decodes on its own, decode
      to that label in front of that name. */
  lemma LabelDecode(prefix: seq<byte>, l: string, tail: seq<byte>, suffix: seq<byte>, visited: set<nat>, rest: seq<string>)
    requires ValidLabel(l)
    requires Decode(prefix + LabelBytes(l) + tail + suffix, |prefix + LabelBytes(l)|, visited)
             == Success((rest, |prefix + LabelBytes(l)| + |tail|))
    ensures Decode(prefix + LabelBytes(l) + tail + suffix, |prefix|, visited)
            == Success(([l] + rest, |prefix + LabelBytes(l)| + |tail|))
  {
    var buf := prefix + LabelBytes(l) + tail + suffix;
    assert buf == prefix + LabelBytes(l) + (tail + suffix);
    LabelBytesRead(prefix, l, tail + suffix);
  }

  // ------------------------------------------------------------ the class-level pack_name

  /** A fresh packer knows no suffix, so it writes every name out in full. */
  lemma {:induction false} FreshFrom(ls: seq<string>, i: nat)
    requires ValidLabels(ls) && i <= |ls|
    ensures FirstKnown(map[], ls) == |ls| && From(map[], ls, i) == EncodeLabels(ls[i..])
    decreases |ls| - i
  {
    if i < |ls| {
      FreshFrom(ls, i + 1);
      assert ls[i..][1..] == ls[i + 1..];
    }
  }

  lemma FreshWritesInFull(ls: seq<string>)
    requires ValidLabels(ls)
    ensures NameBytes(map[], ls) == EncodeLabels(ls)
  {
    FreshFrom(ls, 0);
    assert ls[0..] == ls;
  }

  /** After a fresh packer wrote a name at off, the name without its first
      label is a pointer to where that label ends. */
  lemma FreshSuffixPointer(ls: seq<string>, off: nat, tail: seq<string>)
    requires ValidLabels(ls) && |ls| > 1 && tail == ls[1..] && off + |ls[0]| + 1 < PointerLimit
    ensures ValidLabels(tail) && NameBytes(NameTable(map[], ls, off), tail) == PointerBytes(off + |ls[0]| + 1)
  {
    FreshFrom(ls, 0);
    SuffixIsPointer(map[], ls, off, 1);
  }

  /** A fresh packer that wrote a two-label name at off records the name
      there and its last label where that label starts. */
  lemma FreshTableTwo(a: string, b: string, off: nat)
    requires ValidLabels([a, b]) && off + |a| + 1 < PointerLimit
    ensures NameTable(map[], [a, b], off) == map[Fold([a, b]) := off, Fold([b]) := off + |a| + 1]
  {
    var ls := [a, b];
    FreshFrom(ls, 0);
    assert ls[0..] == ls && ls[1..] == [b];
    assert Records(map[], ls, off, 1) == map[Fold(ls) := off];
  }

  /** A name of at most 253 characters packs into at most 255 bytes, the
      limit on names in a message. */
  lemma PackNameLength(name: string)
    requires PackNameBytes(name).Success?
    ensures |PackNameBytes(name).value| <= 255
  {
    var ls := ParseName(name).value;
    FreshWritesInFull(ls);
    if ls != [] {
      EncodeLabelsLength(ls);
    }
  }

  /** The class-level `pack_name` round trip: unpacking the packed bytes gives
      back exactly the labels of the name, whose join is the name without its
      trailing dot, and reading ends after the last byte. */
  lemma PackNameRoundTrip(name: string)
    requires ParseName(name).Success?
    ensures var bytes := PackNameBytes(name).value;
            Decode(bytes, 0, {0}) == Success((ParseName(name).value, |bytes|)) &&
            Join(ParseName(name).value) == Normalize(name)
  {
    var ls := ParseName(name).value;
    var bytes := EncodeLabels(ls);
    assert PackNameBytes(name) == Success(bytes) by {
      FreshWritesInFull(ls);
    }
    DecodeAlone(ls);
  }

  /** Labels written out in full, with nothing around them, decode to
      themselves and take up all the bytes. */
  lemma DecodeAlone(ls: seq<string>)
    requires ValidLabels(ls)
    ensures Decode(EncodeLabels(ls), 0, {0}) == Success((ls, |EncodeLabels(ls)|))
  {
    EncodeLabelsDecode([], ls, [], {0});
    Seqs.Alone(EncodeLabels(ls));
  }

  // ------------------------------------------------------------ truncation

  /** A cut inside what ends a name (before the zero byte, or after the first
      byte of a pointer) leaves the decoder short of bytes. */
  lemma TruncatedTail(pre: seq<byte>, tail: seq<byte>, k: nat, visited: set<nat>)
    requires (tail == [0] || (|tail| == 2 && tail[0] >= 0xC0)) && k < |tail|
    ensures Decode((pre + tail)[..|pre| + k], |pre|, visited) == Failure(FormatException(Truncated))
  {
    var buf := (pre + tail)[..|pre| + k];
    assert |buf| == |pre| + k;
    if k > 0 {
      assert buf[|pre|] == tail[0];
    }
  }

  /** A cut inside a label leaves the decoder short of that label's bytes. */
  lemma TruncatedLabel(pre: seq<byte>, l: string, rest: seq<byte>, k: nat, visited: set<nat>)
    requires ValidLabel(l) && k <= |l|
    ensures Decode((pre + (LabelBytes(l) + rest))[..|pre| + k], |pre|, visited) == Failure(FormatException(Truncated))
  {
    var buf := (pre + (LabelBytes(l) + rest))[..|pre| + k];
    assert |buf| == |pre| + k;
    if k > 0 {
      assert buf[|pre|] == LabelBytes(l)[0] == |l|;
    }
  }

  /** A label read in full, then a cut further on: the failure after the label
      is the failure of the whole name. */
  lemma TruncatedAfterLabel(pre: seq<byte>, l: string, rest: seq<byte>, k: nat, visited: set<nat>)
    requires ValidLabel(l) && |l| < k <= |LabelBytes(l)| + |rest|
    requires Decode((pre + LabelBytes(l) + rest)[..|pre + LabelBytes(l)| + (k - |LabelBytes(l)|)], |pre + LabelBytes(l)|, visited)
             == Failure(FormatException(Truncated))
    ensures Decode((pre + (LabelBytes(l) + rest))[..|pre| + k], |pre|, visited) == Failure(FormatException(Truncated))
  {
    var whole := pre + LabelBytes(l) + rest;
    Seqs.Regroup(pre, LabelBytes(l), rest, []);
    assert pre + (LabelBytes(l) + rest) == whole;
    var buf := whole[..|pre| + k];
    LabelBytesRead(pre, l, rest);
    assert buf[|pre|] == whole[|pre|] == |l|;
  }

  /** Every proper prefix of what `pack_name` writes from label i on, whatever
      precedes it, fails to decode as Truncated: the cut falls inside a label,
      before the zero byte, or between the two bytes of a pointer. */
  lemma {:induction false} TruncatedFrom(t: Table, ls: seq<string>, i: nat, pre: seq<byte>, k: nat, visited: set<nat>)
    requires Addressable(t) && ValidLabels(ls) && i <= FirstKnown(t, ls) && k < |From(t, ls, i)|
    ensures Decode((pre + From(t, ls, i))[..|pre| + k], |pre|, visited) == Failure(FormatException(Truncated))
    decreases FirstKnown(t, ls) - i
  {
    if i == FirstKnown(t, ls) {
      TruncatedTail(pre, Tail(t, ls, i), k, visited);
    } else {
      FromCons(t, ls, i);
      if k <= |ls[i]| {
        TruncatedLabel(pre, ls[i], From(t, ls, i + 1), k, visited);
      } else {
        TruncatedFrom(t, ls, i + 1, pre + LabelBytes(ls[i]), k - |LabelBytes(ls[i])|, visited);
        TruncatedAfterLabel(pre, ls[i], From(t, ls, i + 1), k, visited);
      }
    }
  }

  lemma FromCons(t: Table, ls: seq<string>, i: nat)
    requires Addressable(t) && ValidLabels(ls) && i < FirstKnown(t, ls)
    ensures From(t, ls, i) == LabelBytes(ls[i]) + From(t, ls, i + 1)
    ensures |From(t, ls, i)| == |LabelBytes(ls[i])| + |From(t, ls, i + 1)|
  {
  }

  /** `unpack_name` refuses every truncated name `pack_name` writes, whether it
      ends in a zero byte or in a pointer: the bytes before the name followed by
      any proper prefix of the name fail as Truncated. */
  lemma NameBytesTruncated(t: Table, ls: seq<string>, pre: seq<byte>, k: nat, visited: set<nat>)
    requires Addressable(t) && ValidLabels(ls) && k < |NameBytes(t, ls)|
    ensures Decode((pre + NameBytes(t, ls))[..|pre| + k], |pre|, visited) == Failure(FormatException(Truncated))
  {
    TruncatedFrom(t, ls, 0, pre, k, visited);
  }

  /** The same for a name written out in full. */
  lemma PrefixTruncatedAt(pre: seq<byte>, ls: seq<string>, k: nat, visited: set<nat>)
    requires ValidLabels(ls) && k < |EncodeLabels(ls)|
    ensures Decode((pre + EncodeLabels(ls))[..|pre| + k], |pre|, visited) == Failure(FormatException(Truncated))
  {
    FreshWritesInFull(ls);
    NameBytesTruncated(map[], ls, pre, k, visited);
  }

  /** A pointer forward to a name written in full, with any bytes between:
      every cut of that message, from the pointer's first byte to the name's
      zero byte, fails to decode as Truncated. */
  lemma ForwardPointerTruncated(before: seq<byte>, t: nat, mid: seq<byte>, ls: seq<string>, c: nat, visited: set<nat>)
    requires t < PointerLimit && t == |before| + 2 + |mid| && t !in visited
    requires ValidLabels(ls) && |before| <= c < t + |EncodeLabels(ls)|
    ensures var whole := before + PointerBytes(t) + mid + EncodeLabels(ls);
            Decode(whole[..c], |before|, visited) == Failure(FormatException(Truncated))
  {
    var pre := before + PointerBytes(t) + mid;
    var buf := (pre + EncodeLabels(ls))[..c];
    if c <= |before| + 1 {
      TruncatedTail(before, PointerBytes(t), c - |before|, visited);
      assert buf == (before + PointerBytes(t))[..c];
    } else {
      assert buf[|before|] == PointerBytes(t)[0] && buf[|before| + 1] == PointerBytes(t)[1];
      if c > t {
        TargetTruncated(pre, ls, t, c, visited + {t});
      }
      PointerToFailure(buf, |before|, t, visited);
    }
  }

  /** The target of the pointer is cut inside its name, or lies past the cut. */
  lemma TargetTruncated(pre: seq<byte>, ls: seq<string>, t: nat, c: nat, visited: set<nat>)
    requires ValidLabels(ls) && |pre| == t < c < t + |EncodeLabels(ls)|
    ensures Decode((pre + EncodeLabels(ls))[..c], t, visited) == Failure(FormatException(Truncated))
  {
    PrefixTruncatedAt(pre, ls, c - |pre|, visited);
    assert (pre + EncodeLabels(ls))[..|pre| + (c - |pre|)] == (pre + EncodeLabels(ls))[..c];
  }

  /** A pointer whose target fails to decode as Truncated fails the same way. */
  lemma PointerToFailure(buf: seq<byte>, pos: nat, t: nat, visited: set<nat>)
    requires pos + 1 < |buf| && buf[pos] >= 0xC0 && PointerTarget(buf[pos], buf[pos + 1]) == t && t !in visited
    requires Decode(buf, t, visited + {t}) == Failure(FormatException(Truncated))
    ensures Decode(buf, pos, visited) == Failure(FormatException(Truncated))
  {
  }

  // ------------------------------------------------------------ the table

  /** Keys no longer than the labels after the first i are left as they were:
      every key recorded so far is longer. */
  lemma {:induction false} RecordsShort(t: Table, ls: seq<string>, off: nat, i: nat, k: seq<string>)
    requires Addressable(t) && i <= FirstKnown(t, ls) && |k| <= |ls| - i
    ensures k in Records(t, ls, off, i) <==> k in t
    ensures k in t ==> Records(t, ls, off, i)[k] == t[k]
    decreases i
  {
    if i > 0 {
      RecordsShort(t, ls, off, i - 1, k);
      assert |Fold(ls[i - 1..])| == |ls| - (i - 1);
      RecordsStep(t, ls, off, i, k);
    }
  }

  /** Recording label i - 1's suffix leaves every other key as it was. */
  lemma RecordsStep(t: Table, ls: seq<string>, off: nat, i: nat, k: seq<string>)
    requires Addressable(t) && 0 < i <= |ls| && k != Fold(ls[i - 1..])
    ensures k in Records(t, ls, off, i) <==> k in Records(t, ls, off, i - 1)
    ensures k in Records(t, ls, off, i - 1) ==> Records(t, ls, off, i)[k] == Records(t, ls, off, i - 1)[k]
  {
  }

  /** No suffix before the first known one is in the table. */
  lemma UnknownBefore(t: Table, ls: seq<string>, j: nat)
    requires j < FirstKnown(t, ls)
    ensures Fold(ls[j..]) !in t
  {
  }

  /** A step of `pack_name` that finds the rest of the name known: it writes
      the pointer, and the name and the table are complete. */
  lemma StepPointer(t: Table, ls: seq<string>, off: nat, i: nat)
    requires Addressable(t) && ValidLabels(ls) && i <= FirstKnown(t, ls) && i < |ls|
    requires Fold(ls[i..]) in Records(t, ls, off, i)
    ensures i == FirstKnown(t, ls)
    ensures Fold(ls[i..]) in t && Records(t, ls, off, i)[Fold(ls[i..])] == t[Fold(ls[i..])]
    ensures From(t, ls, i) == PointerBytes(t[Fold(ls[i..])])
    ensures NameTable(t, ls, off) == Records(t, ls, off, i)
  {
    RecordsShort(t, ls, off, i, Fold(ls[i..]));
  }

  /** A step of `pack_name` that finds the rest of the name unknown: it writes
      the label and records the rest at its offset. */
  lemma StepLabel(t: Table, ls: seq<string>, off: nat, i: nat)
    requires Addressable(t) && ValidLabels(ls) && i <= FirstKnown(t, ls) && i < |ls|
    requires Fold(ls[i..]) !in Records(t, ls, off, i)
    ensures i < FirstKnown(t, ls)
    ensures From(t, ls, i) == LabelBytes(ls[i]) + From(t, ls, i + 1)
    ensures Records(t, ls, off, i + 1) == Record(Records(t, ls, off, i), Fold(ls[i..]), Offset(ls, off, i))
  {
    RecordsShort(t, ls, off, i, Fold(ls[i..]));
  }

  lemma Associate(a: seq<byte>, b: seq<byte>, c: seq<byte>)
    ensures a + (b + c) == (a + b) + c
  {
  }

  /** Nothing the table knew is lost or moved while a name is written. */
  lemma {:induction false} RecordsKeep(t: Table, ls: seq<string>, off: nat, i: nat, k: seq<string>)
    requires Addressable(t) && i <= FirstKnown(t, ls) && k in t
    ensures k in Records(t, ls, off, i) && Records(t, ls, off, i)[k] == t[k]
    decreases i
  {
    if i > 0 {
      RecordsKeep(t, ls, off, i - 1, k);
      UnknownBefore(t, ls, i - 1);
      RecordsStep(t, ls, off, i, k);
    }
  }

  /** Each entry is an old one or the suffix of the name of its length,
      recorded where that suffix was written. */
  lemma {:induction false} RecordsLookup(t: Table, ls: seq<string>, off: nat, i: nat, k: seq<string>)
    requires Addressable(t) && i <= |ls| && k in Records(t, ls, off, i)
    ensures (k in t && Records(t, ls, off, i)[k] == t[k]) ||
            (|ls| - i < |k| <= |ls| && k == Fold(ls[|ls| - |k|..]) &&
             Records(t, ls, off, i)[k] == Offset(ls, off, |ls| - |k|))
    decreases i
  {
    if i > 0 {
      var key := Fold(ls[i - 1..]);
      if Offset(ls, off, i - 1) < PointerLimit && k == key {
        assert |k| == |ls| - (i - 1);
      } else {
        RecordsLookup(t, ls, off, i - 1, k);
      }
    }
  }

  /** A suffix written at an offset a pointer can reach is in the table. */
  lemma {:induction false} RecordsHave(t: Table, ls: seq<string>, off: nat, i: nat, i0: nat)
    requires Addressable(t) && i0 < i <= |ls| && Offset(ls, off, i0) < PointerLimit
    ensures Fold(ls[i0..]) in Records(t, ls, off, i)
    ensures Records(t, ls, off, i)[Fold(ls[i0..])] == Offset(ls, off, i0)
    decreases i
  {
    if i - 1 > i0 {
      RecordsHave(t, ls, off, i - 1, i0);
      assert |Fold(ls[i - 1..])| != |Fold(ls[i0..])|;
    }
  }

  /** After a name is written at an offset a pointer can reach, writing it
      again is a two-byte pointer: to where it was written, or to where the
      table already had it. */
  lemma RepeatIsPointer(t: Table, ls: seq<string>, off: nat)
    requires Addressable(t) && ValidLabels(ls) && ls != [] && off < PointerLimit
    ensures var t1 := NameTable(t, ls, off);
            Fold(ls) in t1 && NameBytes(t1, ls) == PointerBytes(if Fold(ls) in t then t[Fold(ls)] else off)
  {
    var j := FirstKnown(t, ls);
    assert ls[0..] == ls;
    if j == 0 {
      RecordsKeep(t, ls, off, 0, Fold(ls));
    } else {
      RecordsHave(t, ls, off, j, 0);
    }
    var t1 := NameTable(t, ls, off);
    assert FirstKnown(t1, ls) == 0;
  }

  /** Every suffix written in full is recorded where it was written, so
      writing that suffix later is a pointer there. */
  lemma SuffixIsPointer(t: Table, ls: seq<string>, off: nat, i: nat)
    requires Addressable(t) && ValidLabels(ls) && i < FirstKnown(t, ls) && Offset(ls, off, i) < PointerLimit
    ensures NameBytes(NameTable(t, ls, off), ls[i..]) == PointerBytes(Offset(ls, off, i))
  {
    var t1 := NameTable(t, ls, off);
    RecordsHave(t, ls, off, FirstKnown(t, ls), i);
    assert ls[i..][0..] == ls[i..];
    assert FirstKnown(t1, ls[i..]) == 0;
  }

  /** A known name is written as a pointer to where the table has it, and
      the table does not change. */
  lemma KnownIsPointer(t: Table, ls: seq<string>, off: nat)
    requires Addressable(t) && ValidLabels(ls) && ls != [] && Fold(ls) in t
    ensures NameBytes(t, ls) == PointerBytes(t[Fold(ls)]) && NameTable(t, ls, off) == t
  {
    assert ls[0..] == ls;
  }

  /** Writing a name keeps every entry the table had, and adds only suffixes
      of that name, each at the offset where it was written. */
  lemma NameTableEntries(t: Table, ls: seq<string>, off: nat, k: seq<string>)
    requires Addressable(t)
    ensures k in t ==> k in NameTable(t, ls, off) && NameTable(t, ls, off)[k] == t[k]
    ensures k in NameTable(t, ls, off) && k !in t ==>
              0 < |k| <= |ls| && k == Fold(ls[|ls| - |k|..]) && NameTable(t, ls, off)[k] == Offset(ls, off, |ls| - |k|)
  {
    if k in t {
      RecordsKeep(t, ls, off, FirstKnown(t, ls), k);
    }
    if k in NameTable(t, ls, off) {
      RecordsLookup(t, ls, off, FirstKnown(t, ls), k);
    }
  }

  /** A name one label longer than a known one is that label, then a pointer. */
  lemma LabelThenPointer(t: Table, l: string, ls: seq<string>)
    requires Addressable(t) && ValidLabels([l] + ls) && ls != []
    requires Fold([l] + ls) !in t && Fold(ls) in t
    ensures NameBytes(t, [l] + ls) == LabelBytes(l) + PointerBytes(t[Fold(ls)])
  {
    var name := [l] + ls;
    assert name[1..] == ls && name[0..] == name && name[0] == l;
    assert FirstKnown(t, ls) == 0;
    assert FirstKnown(t, name) == 1;
    assert From(t, name, 1) == Tail(t, name, 1) == PointerBytes(t[Fold(ls)]);
    assert From(t, name, 0) == LabelBytes(l) + From(t, name, 1);
  }

  // ------------------------------------------------------------ the encoding

  lemma FoldFrom(ls: seq<string>, i: nat)
    requires i < |ls|
    ensures |Fold(ls[i..])| > 0 && Fold(ls[i..])[0] == FoldLabel(ls[i]) && Fold(ls[i..])[1..] == Fold(ls[i + 1..])
  {
    FoldTail(ls[i..]);
    assert ls[i..][1..] == ls[i + 1..];
  }

  /** A label whose bytes sit at off, followed by the encoding of the rest of
      a key, encodes the whole key. */
  lemma NameAtLabel(buf: seq<byte>, off: nat, l: string, s: seq<string>, seg: nat)
    requires ValidLabel(l) && BytesAt(buf, off, LabelBytes(l))
    requires |s| > 0 && s[0] == FoldLabel(l) && NameAt(buf, off + |LabelBytes(l)|, s[1..], seg)
    ensures NameAt(buf, off, s, seg)
  {
    BytesAtIndex(buf, off, LabelBytes(l), 0);
    forall i | 0 <= i < |l|
      ensures buf[off + 1 + i] as char == l[i]
    {
      BytesAtIndex(buf, off, LabelBytes(l), 1 + i);
      assert !IllegalChar(l[i]);
    }
    assert ReadLabel(buf, off) == l;
  }

  /** A pointer to an encoded name encodes that name. */
  lemma NameAtPointer(buf: seq<byte>, off: nat, target: nat, s: seq<string>, seg: nat)
    requires target < PointerLimit && BytesAt(buf, off, PointerBytes(target))
    requires target < seg && NameAt(buf, target, s, target)
    ensures NameAt(buf, off, s, seg)
  {
    BytesAtIndex(buf, off, PointerBytes(target), 0);
    BytesAtIndex(buf, off, PointerBytes(target), 1);
  }

  /** What ends a name encodes the known suffix it stands for: nothing for
      the zero byte, and for a pointer the suffix recorded at its target. */
  lemma TailNameAt(t: Table, ls: seq<string>, j: nat, buf: seq<byte>, p: nat, off: nat, seg: nat)
    requires Addressable(t) && j <= |ls| && (j < |ls| ==> Fold(ls[j..]) in t)
    requires j < |ls| ==> KnownBelow(buf, t, Fold(ls[j..]), off)
    requires BytesAt(buf, p, Tail(t, ls, j)) && off <= seg
    ensures NameAt(buf, p, Fold(ls[j..]), seg)
  {
    var tail := Tail(t, ls, j);
    if j == |ls| {
      BytesAtIndex(buf, p, tail, 0);
    } else {
      var k := Fold(ls[j..]);
      NameAtPointer(buf, p, t[k], k, seg);
    }
  }

  /** The suffix with key k, when it is recorded, lies below off and is
      encoded where it was recorded. */
  ghost predicate KnownBelow(buf: seq<byte>, t: Table, k: seq<string>, off: nat)
  {
    k in t ==> t[k] < off && NameAt(buf, t[k], k, t[k])
  }

  /** The known suffix of ls, in a table whose entries all lie below off. */
  lemma KnownSuffixBelow(t: Table, ls: seq<string>, buf: seq<byte>, off: nat)
    requires forall k | k in t :: t[k] < off && NameAt(buf, t[k], k, t[k])
    ensures FirstKnown(t, ls) < |ls| ==> KnownBelow(buf, t, Fold(ls[FirstKnown(t, ls)..]), off)
  {
  }

  /** The bytes written from label i on encode the suffix starting there. */
  lemma {:induction false} FromNameAt(t: Table, ls: seq<string>, i: nat, buf: seq<byte>, p: nat, off: nat, seg: nat)
    requires Addressable(t) && ValidLabels(ls) && i <= FirstKnown(t, ls)
    requires FirstKnown(t, ls) < |ls| ==> KnownBelow(buf, t, Fold(ls[FirstKnown(t, ls)..]), off)
    requires BytesAt(buf, p, From(t, ls, i)) && off <= seg
    ensures NameAt(buf, p, Fold(ls[i..]), seg)
    decreases FirstKnown(t, ls) - i
  {
    if i == FirstKnown(t, ls) {
      TailNameAt(t, ls, i, buf, p, off, seg);
    } else {
      var q := p + |LabelBytes(ls[i])|;
      FromStep(t, ls, i, buf, p, seg);
      FromNameAt(t, ls, i + 1, buf, q, off, seg);
    }
  }

  /** Where the bytes written from label i sit, label i comes first and the
      bytes written from the next label follow; once those encode their
      suffix, the whole encodes the suffix from label i. */
  lemma FromStep(t: Table, ls: seq<string>, i: nat, buf: seq<byte>, p: nat, seg: nat)
    requires Addressable(t) && ValidLabels(ls) && i < FirstKnown(t, ls)
    requires BytesAt(buf, p, From(t, ls, i))
    ensures BytesAt(buf, p + |LabelBytes(ls[i])|, From(t, ls, i + 1))
    ensures NameAt(buf, p + |LabelBytes(ls[i])|, Fold(ls[i + 1..]), seg) ==> NameAt(buf, p, Fold(ls[i..]), seg)
  {
    var head, rest := LabelBytes(ls[i]), From(t, ls, i + 1);
    assert From(t, ls, i) == head + rest;
    BytesAtSplit(buf, p, head, rest);
    if NameAt(buf, p + |head|, Fold(ls[i + 1..]), seg) {
      LabelThenSuffix(ls, i, buf, p, seg);
    }
  }

  /** Label i written at p, then the suffix after it encoded, encode the
      suffix starting at label i. */
  lemma LabelThenSuffix(ls: seq<string>, i: nat, buf: seq<byte>, p: nat, seg: nat)
    requires ValidLabels(ls) && i < |ls| && BytesAt(buf, p, LabelBytes(ls[i]))
    requires NameAt(buf, p + |LabelBytes(ls[i])|, Fold(ls[i + 1..]), seg)
    ensures NameAt(buf, p, Fold(ls[i..]), seg)
  {
    FoldFrom(ls, i);
    NameAtLabel(buf, p, ls[i], Fold(ls[i..]), seg);
  }

  /** In a buffer that holds the bytes of a name written at off, label i
      starts the bytes written from it on. */
  lemma {:induction false} FromAt(t: Table, ls: seq<string>, off: nat, buf: seq<byte>, i: nat)
    requires Addressable(t) && ValidLabels(ls) && i <= FirstKnown(t, ls)
    requires BytesAt(buf, off, NameBytes(t, ls))
    ensures BytesAt(buf, Offset(ls, off, i), From(t, ls, i))
    decreases i
  {
    if i > 0 {
      var p, head := Offset(ls, off, i - 1), LabelBytes(ls[i - 1]);
      FromAt(t, ls, off, buf, i - 1);
      assert BytesAt(buf, p, From(t, ls, i - 1));
      assert From(t, ls, i - 1) == head + From(t, ls, i);
      BytesAtSame(buf, p, p, From(t, ls, i - 1), head + From(t, ls, i));
      BytesAtSplit(buf, p, head, From(t, ls, i));
      BytesAtSame(buf, p + |head|, Offset(ls, off, i), From(t, ls, i), From(t, ls, i));
    } else {
      assert Offset(ls, off, 0) == off;
    }
  }

  /** In a buffer that holds the bytes of a name written at off, the suffix
      starting at label i (before the known one) is encoded where it starts,
      with every pointer going below seg; old entries must lie below off. */
  lemma SuffixNameAt(t: Table, ls: seq<string>, off: nat, buf: seq<byte>, i: nat, seg: nat)
    requires Addressable(t) && ValidLabels(ls) && i <= FirstKnown(t, ls)
    requires forall k | k in t :: t[k] < off && NameAt(buf, t[k], k, t[k])
    requires BytesAt(buf, off, NameBytes(t, ls)) && off <= seg
    ensures NameAt(buf, Offset(ls, off, i), Fold(ls[i..]), seg)
  {
    FromAt(t, ls, off, buf, i);
    KnownSuffixBelow(t, ls, buf, off);
    FromNameAt(t, ls, i, buf, Offset(ls, off, i), off, seg);
  }

  /** Every suffix the writing records is encoded at its offset. */
  lemma NameTableEncoded(t: Table, ls: seq<string>, off: nat, buf: seq<byte>)
    requires Addressable(t) && ValidLabels(ls)
    requires forall k | k in t :: t[k] < off && NameAt(buf, t[k], k, t[k])
    requires BytesAt(buf, off, NameBytes(t, ls))
    ensures Encoded(buf, NameTable(t, ls, off))
  {
    var t1 := NameTable(t, ls, off);
    forall k | k in t1
      ensures NameAt(buf, t1[k], k, t1[k])
    {
      EntryEncoded(t, ls, off, buf, k);
    }
  }

  /** One entry of the table after the writing: an old one, or a suffix of
      the name just written. */
  lemma EntryEncoded(t: Table, ls: seq<string>, off: nat, buf: seq<byte>, k: seq<string>)
    requires Addressable(t) && ValidLabels(ls)
    requires forall k | k in t :: t[k] < off && NameAt(buf, t[k], k, t[k])
    requires BytesAt(buf, off, NameBytes(t, ls))
    requires k in NameTable(t, ls, off)
    ensures NameAt(buf, NameTable(t, ls, off)[k], k, NameTable(t, ls, off)[k])
  {
    var t1 := NameTable(t, ls, off);
    RecordsLookup(t, ls, off, FirstKnown(t, ls), k);
    if k in t && t1[k] == t[k] {
      NameAtSame(buf, t[k], k, t[k], t1[k]);
    } else {
      var i := |ls| - |k|;
      SuffixNameAt(t, ls, off, buf, i, Offset(ls, off, i));
      NameAtSame(buf, Offset(ls, off, i), Fold(ls[i..]), Offset(ls, off, i), t1[k]);
    }
  }

  lemma NameAtSame(buf: seq<byte>, p: nat, s: seq<string>, seg: nat, q: nat)
    requires NameAt(buf, p, s, seg) && p == seg == q
    ensures NameAt(buf, q, s, q)
  {
  }

  /** Reading the bytes written from label i on stops right after them. */
  lemma {:induction false} FromEnd(t: Table, ls: seq<string>, i: nat, buf: seq<byte>, p: nat, visited: set<nat>)
    requires Addressable(t) && ValidLabels(ls) && i <= FirstKnown(t, ls)
    requires BytesAt(buf, p, From(t, ls, i)) && Decode(buf, p, visited).Success?
    ensures Decode(buf, p, visited).value.1 == p + |From(t, ls, i)|
    decreases FirstKnown(t, ls) - i
  {
    if i == FirstKnown(t, ls) {
      BytesAtIndex(buf, p, Tail(t, ls, i), 0);
    } else {
      var head := LabelBytes(ls[i]);
      BytesAtSplit(buf, p, head, From(t, ls, i + 1));
      BytesAtIndex(buf, p, head, 0);
      FromEnd(t, ls, i + 1, buf, p + |head|, visited);
    }
  }

  /** Bytes appended to the buffer leave every recorded suffix encoded. */
  lemma EncodedExtend(buf: seq<byte>, ext: seq<byte>, t: Table)
    requires Encoded(buf, t)
    ensures Encoded(buf + ext, t)
  {
    forall k | k in t
      ensures NameAt(buf + ext, t[k], k, t[k])
    {
      NameAtExtend(buf, ext, t[k], k, t[k]);
    }
  }

  /** Packing a name keeps the table truthful, and the name reads back from
      where it was written, up to case, ending after the bytes written. */
  lemma PackSound(buf: seq<byte>, t: Table, ls: seq<string>)
    requires Addressable(t) && Encoded(buf, t) && ValidLabels(ls)
    ensures var w := NameBytes(t, ls);
            var d := Decode(buf + w, |buf|, {|buf|});
            Encoded(buf + w, NameTable(t, ls, |buf|)) &&
            d.Success? && Fold(d.value.0) == Fold(ls) && d.value.1 == |buf + w|
  {
    var w := NameBytes(t, ls);
    var final := buf + w;
    EncodedExtend(buf, w, t);
    BytesAtAppend(buf, w, []);
    assert final + [] == final;
    forall k | k in t
      ensures t[k] < |buf|
    {
      assert NameAt(buf, t[k], k, t[k]);
    }
    NameTableEncoded(t, ls, |buf|, final);
    KnownSuffixBelow(t, ls, final, |buf|);
    FromNameAt(t, ls, 0, final, |buf|, |buf|, |buf|);
    assert ls[0..] == ls;
    NameAtDecodes(final, |buf|, Fold(ls), |buf|, {|buf|});
    FromEnd(t, ls, 0, final, |buf|, {|buf|});
  }

  // ------------------------------------------------------------ the class

  class Packer {
    var buffer: seq<byte>
    var table: Table

    ghost predicate Valid()
      reads this
    {
      Addressable(table) && Encoded(buffer, table)
    }

    constructor()
      ensures Valid() && buffer == [] && table == map[]
    {
      buffer := [];
      table := map[];
    }

    /** `pack`: appends the fields big-endian, or refuses them all if one does
        not fit its width. */
    method Pack(fields: seq<Field>) returns (r: Outcome)
      requires Valid()
      modifies this
      ensures Valid() && table == old(table)
      ensures r.Pass? <==> AllFit(fields)
      ensures r.Fail? ==> r.error == FormatException(ValueTooWide) && buffer == old(buffer)
      ensures r.Pass? ==> buffer == old(buffer) + FieldsBytes(fields)
    {
      if !AllFit(fields) {
        return Fail(FormatException(ValueTooWide));
      }
      EncodedExtend(buffer, FieldsBytes(fields), table);
      buffer := buffer + FieldsBytes(fields);
      return Pass;
    }

    /** `pack_name`: checks the name, then writes its labels. */
    method PackName(name: string) returns (r: Outcome)
      requires Valid()
      modifies this
      ensures Valid()
      ensures r.Pass? <==> ParseName(name).Success?
      ensures r.Fail? ==> r.error == ParseName(name).error && buffer == old(buffer) && table == old(table)
      ensures r.Pass? ==> Written(old(buffer), old(table), ParseName(name).value)
    {
      var parsed := ParseName(name);
      if parsed.Failure? {
        return Fail(parsed.error);
      }
      WriteLabels(parsed.value);
      return Pass;
    }

    /** What writing the labels ls onto buf0 with the table t0 leaves behind:
        the bytes and the table the writing specifies, and the name reading
        back, up to case, from where it was written to the end of the buffer. */
    ghost predicate Written(buf0: seq<byte>, t0: Table, ls: seq<string>)
      requires Addressable(t0) && ValidLabels(ls)
      reads this
    {
      buffer == buf0 + NameBytes(t0, ls) &&
      table == NameTable(t0, ls, |buf0|) &&
      var d := Decode(buffer, |buf0|, {|buf0|});
      d.Success? && Fold(d.value.0) == Fold(ls) && d.value.1 == |buffer|
    }

    /** Writes the labels one by one, recording each suffix, until the rest of
        the name is a suffix already written, which becomes a pointer. */
    method WriteLabels(labels: seq<string>)
      requires Valid() && ValidLabels(labels)
      modifies this
      ensures Valid() && Written(old(buffer), old(table), labels)
    {
      ghost var buf0, table0 := buffer, table;
      var i := 0;
      while i < |labels| && Fold(labels[i..]) !in table
        invariant i <= FirstKnown(table0, labels) && Addressable(table)
        invariant |buffer| == Offset(labels, |buf0|, i)
        invariant buffer + From(table0, labels, i) == buf0 + NameBytes(table0, labels)
        invariant table == Records(table0, labels, |buf0|, i)
      {
        StepLabel(table0, labels, |buf0|, i);
        if |buffer| < PointerLimit {
          table := table[Fold(labels[i..]) := |buffer|];
        }
        Associate(buffer, LabelBytes(labels[i]), From(table0, labels, i + 1));
        buffer := buffer + LabelBytes(labels[i]);
        i := i + 1;
      }
      if i < |labels| {
        StepPointer(table0, labels, |buf0|, i);
        buffer := buffer + PointerBytes(table[Fold(labels[i..])]);
      } else {
        buffer := buffer + [0];
      }
      PackSound(buf0, table0, labels);
    }

    /** `get`: the message written so far. */
    method Get() returns (bytes: seq<byte>)
      ensures bytes == buffer
    {
      bytes := buffer;
    }
  }
}
