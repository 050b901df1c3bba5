/** The DNS wire format shared by the packer and the unpacker: big-endian
    integer fields, length-prefixed labels, and compression pointers
    (sections 3.1 and 4.1.4 of RFC 1035). */
module Wire {
  import opened Wrappers
  import opened Digits
  import opened Names
  import Seqs

  type byte = x: int | 0 <= x < 256
  type uint16 = x: int | 0 <= x < 0x10000

  /** The field widths of a format string: `C` (8 bits), `n` (16 bits) and `N` (32 bits). */
  datatype Width = U8 | U16 | U32

  function Size(w: Width): nat
  {
    match w
    case U8 => 1
    case U16 => 2
    case U32 => 4
  }

  /** One value to pack, with the width it is packed into. */
  datatype Field = Field(width: Width, value: int)

  predicate Fits(f: Field)
  {
    0 <= f.value < Pow(256, Size(f.width))
  }

  predicate AllFit(fs: seq<Field>)
  {
    forall i :: 0 <= i < |fs| ==> Fits(fs[i])
  }

  /** v as Size(w) big-endian bytes. */
  function FieldBytes(w: Width, v: nat): (r: seq<byte>)
    requires v < Pow(256, Size(w))
    ensures |r| == Size(w)
  {
    ToDigits(v, 256, Size(w))
  }

  function FieldsBytes(fs: seq<Field>): seq<byte>
    requires AllFit(fs)
  {
    if fs == [] then [] else FieldBytes(fs[0].width, fs[0].value) + FieldsBytes(fs[1..])
  }

  function Widths(fs: seq<Field>): (ws: seq<Width>)
    ensures |ws| == |fs| && forall i :: 0 <= i < |fs| ==> ws[i] == fs[i].width
  {
    if fs == [] then [] else [fs[0].width] + Widths(fs[1..])
  }

  function Values(fs: seq<Field>): (vs: seq<int>)
    ensures |vs| == |fs| && forall i :: 0 <= i < |fs| ==> vs[i] == fs[i].value
  {
    if fs == [] then [] else [fs[0].value] + Values(fs[1..])
  }

  function TotalSize(ws: seq<Width>): nat
  {
    if ws == [] then 0 else Size(ws[0]) + TotalSize(ws[1..])
  }

  /** The value of the big-endian field of width w at pos, and the position after it. */
  function ReadField(buf: seq<byte>, pos: nat, w: Width): (r: Result<(nat, nat)>)
  {
    if pos + Size(w) > |buf| then Failure(FormatException(Truncated))
    else Success((FromDigits(buf[pos..pos + Size(w)], 256), pos + Size(w)))
  }

  /** The values of consecutive fields; a field that runs past the end fails the whole read. */
  function ReadFields(buf: seq<byte>, pos: nat, ws: seq<Width>): (r: Result<(seq<nat>, nat)>)
    ensures r.Success? ==> |r.value.0| == |ws|
    decreases |ws|
  {
    if ws == [] then Success(([], pos))
    else match ReadField(buf, pos, ws[0])
      case Failure(e) => Failure(e)
      case Success((v, next)) =>
        match ReadFields(buf, next, ws[1..])
        case Failure(e) => Failure(e)
        case Success((vs, end)) => Success(([v] + vs, end))
  }

  /** A read of fields fails exactly when the buffer ends before the last of them. */
  lemma {:induction false} ReadFieldsSucceeds(buf: seq<byte>, pos: nat, ws: seq<Width>)
    requires pos <= |buf|
    ensures ReadFields(buf, pos, ws).Success? <==> pos + TotalSize(ws) <= |buf|
    ensures ReadFields(buf, pos, ws).Success? ==> ReadFields(buf, pos, ws).value.1 == pos + TotalSize(ws)
    ensures ReadFields(buf, pos, ws).Failure? ==> ReadFields(buf, pos, ws).error == FormatException(Truncated)
    decreases |ws|
  {
    if ws != [] {
      var next := pos + Size(ws[0]);
      if next <= |buf| {
        ReadFieldsSucceeds(buf, next, ws[1..]);
      }
    }
  }

  /** Every value read fits the width it was read with. */
  lemma {:induction false} ReadFieldsFit(buf: seq<byte>, pos: nat, ws: seq<Width>)
    requires ReadFields(buf, pos, ws).Success?
    ensures forall i :: 0 <= i < |ws| ==> ReadFields(buf, pos, ws).value.0[i] < Pow(256, Size(ws[i]))
    decreases |ws|
  {
    if ws != [] {
      var next := pos + Size(ws[0]);
      var ds: seq<nat> := buf[pos..next];
      assert AllBelow(ds, 256);
      FromDigitsBound(ds, 256);
      ReadFieldsFit(buf, next, ws[1..]);
    }
  }

  lemma {:induction false} FieldsBytesLength(fs: seq<Field>)
    requires AllFit(fs)
    ensures |FieldsBytes(fs)| == TotalSize(Widths(fs))
  {
    if fs != [] {
      FieldsBytesLength(fs[1..]);
      assert Widths(fs)[1..] == Widths(fs[1..]);
    }
  }

  /** Reading back packed fields, wherever they sit in a buffer, gives their values. */
  lemma {:induction false} ReadFieldsBytes(prefix: seq<byte>, fs: seq<Field>, suffix: seq<byte>)
    requires AllFit(fs)
    ensures ReadFields(prefix + FieldsBytes(fs) + suffix, |prefix|, Widths(fs))
            == Success((Values(fs), |prefix| + |FieldsBytes(fs)|))
    decreases |fs|
  {
    if fs != [] {
      var f, rest := fs[0], fs[1..];
      var head, tail := FieldBytes(f.width, f.value), FieldsBytes(rest);
      ReadFieldsBytes(prefix + head, rest, suffix);
      ReadFieldsBytesStep(prefix, f, rest, suffix);
      assert FieldsBytes(fs) == head + tail;
      Seqs.Regroup(prefix, head, tail, suffix);
    }
  }

  /** The step of the above: the first field, then the rest. */
  lemma ReadFieldsBytesStep(prefix: seq<byte>, f: Field, rest: seq<Field>, suffix: seq<byte>)
    requires Fits(f) && AllFit(rest)
    requires var head := FieldBytes(f.width, f.value);
             ReadFields(prefix + head + FieldsBytes(rest) + suffix, |prefix + head|, Widths(rest))
             == Success((Values(rest), |prefix + head| + |FieldsBytes(rest)|))
    ensures var head := FieldBytes(f.width, f.value);
            ReadFields(prefix + head + FieldsBytes(rest) + suffix, |prefix|, [f.width] + Widths(rest))
            == Success(([f.value] + Values(rest), |prefix + head| + |FieldsBytes(rest)|))
  {
    var head, tail := FieldBytes(f.width, f.value), FieldsBytes(rest);
    var buf := prefix + head + tail + suffix;
    assert buf == prefix + head + (tail + suffix);
    ReadFieldBytes(prefix, f, tail + suffix);
    var ws := [f.width] + Widths(rest);
    assert ws[0] == f.width && ws[1..] == Widths(rest);
    ReadFieldsCons(buf, |prefix|, ws, f.value, |prefix + head|, Values(rest), |prefix + head| + |tail|);
  }

  /** A read of fields is the read of the first, then of the rest. */
  lemma ReadFieldsCons(buf: seq<byte>, pos: nat, ws: seq<Width>, v: nat, next: nat, vs: seq<nat>, end: nat)
    requires ws != [] && ReadField(buf, pos, ws[0]) == Success((v, next))
    requires ReadFields(buf, next, ws[1..]) == Success((vs, end))
    ensures ReadFields(buf, pos, ws) == Success(([v] + vs, end))
  {
  }

  /** Reading back one packed field gives its value. */
  lemma ReadFieldBytes(prefix: seq<byte>, f: Field, rest: seq<byte>)
    requires Fits(f)
    ensures ReadField(prefix + FieldBytes(f.width, f.value) + rest, |prefix|, f.width)
            == Success((f.value, |prefix| + Size(f.width)))
  {
    var head := FieldBytes(f.width, f.value);
    assert (prefix + head + rest)[|prefix|..|prefix| + Size(f.width)] == head;
    FromToDigits(f.value, 256, Size(f.width));
  }

  // ---------------------------------------------------------------- layout

  /** buf holds the bytes w from offset off on. */
  predicate BytesAt(buf: seq<byte>, off: nat, w: seq<byte>)
    decreases |w|
  {
    off + |w| <= |buf| && (w == [] || (buf[off] == w[0] && BytesAt(buf, off + 1, w[1..])))
  }

  lemma {:induction false} BytesAtIndex(buf: seq<byte>, off: nat, w: seq<byte>, i: nat)
    requires BytesAt(buf, off, w) && i < |w|
    ensures buf[off + i] == w[i]
    decreases |w|
  {
    if i > 0 {
      BytesAtIndex(buf, off + 1, w[1..], i - 1);
    }
  }

  /** Bytes written one after the other are found one after the other. */
  lemma {:induction false} BytesAtSplit(buf: seq<byte>, off: nat, a: seq<byte>, b: seq<byte>)
    ensures BytesAt(buf, off, a + b) <==> BytesAt(buf, off, a) && BytesAt(buf, off + |a|, b)
    decreases |a|
  {
    if a != [] {
      assert (a + b)[0] == a[0] && (a + b)[1..] == a[1..] + b;
      BytesAtSplit(buf, off + 1, a[1..], b);
    } else {
      assert a + b == b;
    }
  }

  lemma BytesAtSame(buf: seq<byte>, p: nat, q: nat, w: seq<byte>, v: seq<byte>)
    requires BytesAt(buf, p, w) && p == q && w == v
    ensures BytesAt(buf, q, v)
  {
  }

  lemma {:induction false} BytesAtAppend(pre: seq<byte>, w: seq<byte>, post: seq<byte>)
    ensures BytesAt(pre + w + post, |pre|, w)
    decreases |w|
  {
    if w != [] {
      assert pre + w + post == (pre + [w[0]]) + w[1..] + post;
      BytesAtAppend(pre + [w[0]], w[1..], post);
    }
  }

  lemma {:induction false} BytesAtExtend(buf: seq<byte>, ext: seq<byte>, off: nat, w: seq<byte>)
    requires BytesAt(buf, off, w)
    ensures BytesAt(buf + ext, off, w)
    decreases |w|
  {
    if w != [] {
      BytesAtExtend(buf, ext, off + 1, w[1..]);
    }
  }

  // ---------------------------------------------------------------- names

  /** Offsets a compression pointer can hold: its low 14 bits. */
  const PointerLimit: nat := 0x4000

  function LabelBytes(l: string): (r: seq<byte>)
    requires ValidLabel(l)
    ensures |r| == 1 + |l| && r[0] == |l|
  {
    [|l|] + seq(|l|, i requires 0 <= i < |l| => l[i] as int)
  }

  /** The two bytes of a pointer to offset t: the top two bits set, then t. */
  function PointerBytes(t: nat): (r: seq<byte>)
    requires t < PointerLimit
    ensures |r| == 2 && r[0] >= 0xC0 && PointerTarget(r[0], r[1]) == t
  {
    [0xC0 + t / 256, t % 256]
  }

  /** The offset a pointer whose first byte is hi and second byte is lo refers to. */
  function PointerTarget(hi: byte, lo: byte): (t: nat)
    requires hi >= 0xC0
    ensures t < PointerLimit
  {
    (hi - 0xC0) * 256 + lo
  }

  /** The label whose length byte is at pos, as text. */
  function ReadLabel(buf: seq<byte>, pos: nat): (l: string)
    requires pos < |buf| && pos + 1 + buf[pos] <= |buf|
    ensures |l| == buf[pos]
  {
    seq(buf[pos], i requires 0 <= i < buf[pos] => buf[pos + 1 + i] as char)
  }

  ghost const AllOffsets: set<nat> := set t: nat | t < PointerLimit

  /** `unpack_name` from pos: the labels of the name and the position just after
      the name's first terminator or pointer (where reading continues). A zero
      byte ends the name, a byte of 0xC0 or more starts a pointer, any other
      byte is the length of a label. Every pointer target joins `visited`, and
      a target already in it is a loop. */
  function Decode(buf: seq<byte>, pos: nat, visited: set<nat>): (r: Result<(seq<string>, nat)>)
    ensures r.Success? ==> pos < r.value.1 <= |buf|
    ensures r.Failure? ==> r.error.FormatException?
    decreases AllOffsets - visited, |buf| - pos
  {
    if pos >= |buf| then Failure(FormatException(Truncated))
    else if buf[pos] == 0 then Success(([], pos + 1))
    else if buf[pos] >= 0xC0 then
      if pos + 1 >= |buf| then Failure(FormatException(Truncated))
      else
        var t := PointerTarget(buf[pos], buf[pos + 1]);
        if t in visited then Failure(FormatException(PointerLoop))
        else
          assert t in AllOffsets;
          match Decode(buf, t, visited + {t})
          case Failure(e) => Failure(e)
          case Success((rest, _)) => Success((rest, pos + 2))
    else if pos + 1 + buf[pos] > |buf| then Failure(FormatException(Truncated))
    else
      match Decode(buf, pos + 1 + buf[pos], visited)
      case Failure(e) => Failure(e)
      case Success((rest, end)) => Success(([ReadLabel(buf, pos)] + rest, end))
  }

  /** The name whose compression key is s is encoded at pos: decoding from pos
      reads labels that fold to s, and every
      pointer on the way goes back to an offset below seg, the start of the run
      of labels that holds it. seg only decreases along the chain, which is what
      keeps the packer's output free of loops. */
  ghost predicate NameAt(buf: seq<byte>, pos: nat, s: seq<string>, seg: nat)
    decreases seg, |s|
  {
    pos < |buf| &&
    if buf[pos] == 0 then s == []
    else if buf[pos] >= 0xC0 then
      pos + 1 < |buf| &&
      var t := PointerTarget(buf[pos], buf[pos + 1]);
      t < seg && NameAt(buf, t, s, t)
    else
      pos + 1 + buf[pos] <= |buf| && |s| > 0 && s[0] == FoldLabel(ReadLabel(buf, pos)) &&
      NameAt(buf, pos + 1 + buf[pos], s[1..], seg)
  }

  /** An encoded name decodes to labels with its key, as long as no offset at
      or above seg has been visited. */
  lemma {:induction false} NameAtDecodes(buf: seq<byte>, pos: nat, s: seq<string>, seg: nat, visited: set<nat>)
    requires NameAt(buf, pos, s, seg)
    requires forall v | v in visited :: seg <= v
    ensures Decode(buf, pos, visited).Success? && Fold(Decode(buf, pos, visited).value.0) == s
    decreases seg, |s|
  {
    if buf[pos] == 0 {
    } else if buf[pos] >= 0xC0 {
      var t := PointerTarget(buf[pos], buf[pos + 1]);
      assert t !in visited;
      NameAtDecodes(buf, t, s, t, visited + {t});
    } else {
      NameAtDecodes(buf, pos + 1 + buf[pos], s[1..], seg, visited);
      var rest := Decode(buf, pos + 1 + buf[pos], visited).value.0;
      FoldCons(ReadLabel(buf, pos), rest);
      assert s == [s[0]] + s[1..];
    }
  }

  lemma ReadLabelExtend(buf: seq<byte>, ext: seq<byte>, pos: nat)
    requires pos < |buf| && pos + 1 + buf[pos] <= |buf|
    ensures ReadLabel(buf + ext, pos) == ReadLabel(buf, pos)
  {
  }

  /** Bytes written later do not change a name already encoded. */
  lemma {:induction false} NameAtExtend(buf: seq<byte>, ext: seq<byte>, pos: nat, s: seq<string>, seg: nat)
    requires NameAt(buf, pos, s, seg)
    ensures NameAt(buf + ext, pos, s, seg)
    decreases seg, |s|
  {
    var buf' := buf + ext;
    assert buf'[pos] == buf[pos];
    if buf[pos] == 0 {
    } else if buf[pos] >= 0xC0 {
      assert buf'[pos + 1] == buf[pos + 1];
      var t := PointerTarget(buf[pos], buf[pos + 1]);
      NameAtExtend(buf, ext, t, s, t);
    } else {
      ReadLabelExtend(buf, ext, pos);
      NameAtExtend(buf, ext, pos + 1 + buf[pos], s[1..], seg);
    }
  }
}
