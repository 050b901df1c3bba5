/** Domain names as text: splitting on dots, joining labels, and the rules
    `pack_name` applies before it writes anything (textual length, one
    trailing dot, empty labels, label length, illegal characters). */
module Names {
  import opened Wrappers
  import Seqs

  /** Longest name text accepted, a trailing dot included. */
  const MaxNameLength: nat := 253
  /** Longest label (section 2.3.4 of RFC 1035). */
  const MaxLabelLength: nat := 63

  /** Characters refused in a label: NUL, the backslash, and any character
      that is not a single byte. */
  predicate IllegalChar(c: char)
  {
    c == 0 as char || c == '\\' || c as int > 0xFF
  }

  predicate ValidLabel(l: string)
  {
    1 <= |l| <= MaxLabelLength && '.' !in l && forall i :: 0 <= i < |l| ==> !IllegalChar(l[i])
  }

  predicate ValidLabels(ls: seq<string>)
  {
    forall i :: 0 <= i < |ls| ==> ValidLabel(ls[i])
  }

  /** The pieces of s between dots; `"a..b"` gives `["a", "", "b"]`. */
  function Split(s: string): (r: seq<string>)
    ensures |r| >= 1
    ensures forall i :: 0 <= i < |r| ==> '.' !in r[i]
    decreases |s|
  {
    if s == [] then [""]
    else if s[0] == '.' then [""] + Split(s[1..])
    else
      var rest := Split(s[1..]);
      [[s[0]] + rest[0]] + rest[1..]
  }

  /** Labels joined with dots; no labels give the empty name. */
  function Join(ls: seq<string>): string
  {
    if |ls| == 0 then "" else if |ls| == 1 then ls[0] else ls[0] + "." + Join(ls[1..])
  }

  lemma JoinCons(c: char, ls: seq<string>)
    requires |ls| >= 1
    ensures Join([[c] + ls[0]] + ls[1..]) == [c] + Join(ls)
  {
    var ls' := [[c] + ls[0]] + ls[1..];
    if |ls| > 1 {
      assert ls'[0] == [c] + ls[0] && ls'[1..] == ls[1..];
      Seqs.Front([c], ls[0], ".", Join(ls[1..]));
    } else {
      assert ls' == [[c] + ls[0]];
    }
  }

  /** Joining the pieces of a split gives the text back. */
  lemma {:induction false} JoinSplit(s: string)
    ensures Join(Split(s)) == s
    decreases |s|
  {
    if s != [] {
      JoinSplit(s[1..]);
      if s[0] == '.' {
        assert ([""] + Split(s[1..]))[1..] == Split(s[1..]);
      } else {
        JoinCons(s[0], Split(s[1..]));
      }
      assert s == [s[0]] + s[1..];
    }
  }

  lemma {:induction false} SplitLabelDot(l: string, rest: string)
    requires '.' !in l
    ensures Split(l + "." + rest) == [l] + Split(rest)
    decreases |l|
  {
    if l == [] {
      assert l + "." + rest == "." + rest;
    } else {
      assert (l + "." + rest)[1..] == l[1..] + "." + rest;
      SplitLabelDot(l[1..], rest);
      assert [l[0]] + l[1..] == l;
    }
  }

  lemma {:induction false} SplitLabel(l: string)
    requires '.' !in l
    ensures Split(l) == [l]
    decreases |l|
  {
    if l != [] {
      SplitLabel(l[1..]);
      assert [l[0]] + l[1..] == l;
    }
  }

  /** Splitting joined dot-free labels gives the labels back. */
  lemma {:induction false} SplitJoin(ls: seq<string>)
    requires |ls| >= 1 && forall i :: 0 <= i < |ls| ==> '.' !in ls[i]
    ensures Split(Join(ls)) == ls
  {
    if |ls| == 1 {
      SplitLabel(ls[0]);
    } else {
      SplitJoin(ls[1..]);
      SplitLabelDot(ls[0], Join(ls[1..]));
      assert ls == [ls[0]] + ls[1..];
    }
  }

  /** ASCII case folding: compression matches labels without regard to case. */
  function FoldChar(c: char): char
  {
    if 'A' <= c <= 'Z' then (c as int + 32) as char else c
  }

  function FoldLabel(l: string): (r: string)
    ensures |r| == |l|
  {
    if l == [] then [] else [FoldChar(l[0])] + FoldLabel(l[1..])
  }

  /** The key under which a run of labels is looked up for compression. */
  function Fold(ls: seq<string>): (r: seq<string>)
    ensures |r| == |ls|
  {
    if ls == [] then [] else [FoldLabel(ls[0])] + Fold(ls[1..])
  }

  lemma FoldCons(l: string, ls: seq<string>)
    ensures Fold([l] + ls) == [FoldLabel(l)] + Fold(ls)
  {
    assert ([l] + ls)[1..] == ls;
  }

  lemma {:induction false} FoldAppend(a: seq<string>, b: seq<string>)
    ensures Fold(a + b) == Fold(a) + Fold(b)
    decreases |a|
  {
    if a != [] {
      assert (a + b)[0] == a[0] && (a + b)[1..] == a[1..] + b;
      FoldAppend(a[1..], b);
    } else {
      assert a + b == b;
    }
  }

  lemma FoldTail(ls: seq<string>)
    requires |ls| > 0
    ensures Fold(ls)[1..] == Fold(ls[1..]) && Fold(ls)[0] == FoldLabel(ls[0])
  {
  }

  /** A name with exactly one trailing dot removed. */
  function Normalize(name: string): string
  {
    if |name| > 0 && name[|name| - 1] == '.' then name[..|name| - 1] else name
  }

  /** The labels of a name without its trailing dot; the empty name has none. */
  function LabelsOf(n: string): seq<string>
  {
    if n == "" then [] else Split(n)
  }

  function LabelError(l: string): (r: Outcome)
    requires '.' !in l
    ensures r.Pass? <==> ValidLabel(l)
  {
    if l == "" then Fail(FormatException(EmptyLabel))
    else if |l| > MaxLabelLength then Fail(FormatException(LabelTooLong))
    else if exists i :: 0 <= i < |l| && IllegalChar(l[i]) then Fail(FormatException(IllegalCharacter))
    else Pass
  }

  /** The error of the first refused label, if any. */
  function CheckLabels(ls: seq<string>): (r: Outcome)
    requires forall i :: 0 <= i < |ls| ==> '.' !in ls[i]
    ensures r.Pass? <==> ValidLabels(ls)
    ensures r.Fail? ==> r.error.FormatException?
  {
    if ls == [] then Pass
    else if LabelError(ls[0]).Fail? then LabelError(ls[0])
    else CheckLabels(ls[1..])
  }

  /** The labels `pack_name` writes for `name`, or the FormatException it raises. */
  function ParseName(name: string): (r: Result<seq<string>>)
    ensures r.Success? <==> |name| <= MaxNameLength && ValidLabels(LabelsOf(Normalize(name)))
    ensures r.Success? ==> r.value == LabelsOf(Normalize(name)) && Join(r.value) == Normalize(name)
    ensures r.Failure? ==> r.error.FormatException?
  {
    if |name| > MaxNameLength then Failure(FormatException(NameTooLong))
    else
      var n := Normalize(name);
      JoinSplit(n);
      match CheckLabels(LabelsOf(n))
      case Pass => Success(LabelsOf(n))
      case Fail(e) => Failure(e)
  }

  /** The empty name and a lone dot are the root: no labels. */
  lemma ParseRoot()
    ensures ParseName("") == Success([])
    ensures ParseName(".") == Success([])
  {
    assert Normalize(".") == "";
  }

  /** A name joined from labels is as long as its labels and one dot
      between each two. */
  lemma {:induction false} JoinLength(ls: seq<string>)
    requires ls != []
    ensures |Join(ls)| + 1 == |ls| + LengthSum(ls)
  {
    if |ls| > 1 {
      JoinLength(ls[1..]);
    }
  }

  function LengthSum(ls: seq<string>): nat
  {
    if ls == [] then 0 else |ls[0]| + LengthSum(ls[1..])
  }

  lemma {:induction false} LengthSumAppend(a: seq<string>, b: seq<string>)
    ensures LengthSum(a + b) == LengthSum(a) + LengthSum(b)
  {
    if a != [] {
      assert (a + b)[1..] == a[1..] + b;
      LengthSumAppend(a[1..], b);
    } else {
      assert a + b == b;
    }
  }

  /** Joining two runs of labels is joining each and putting a dot between. */
  lemma {:induction false} JoinAppend(a: seq<string>, b: seq<string>)
    requires a != [] && b != []
    ensures Join(a + b) == Join(a) + "." + Join(b)
  {
    assert (a + b)[0] == a[0];
    if |a| == 1 {
      assert (a + b)[1..] == b;
    } else {
      assert (a + b)[1..] == a[1..] + b;
      JoinAppend(a[1..], b);
    }
  }

  /** A name joined from labels ends with its last label. */
  lemma {:induction false} JoinEnds(ls: seq<string>)
    requires ls != [] && ls[|ls| - 1] != ""
    ensures |Join(ls)| > 0 && Join(ls)[|Join(ls)| - 1] == ls[|ls| - 1][|ls[|ls| - 1]| - 1]
  {
    if |ls| > 1 {
      assert ls[1..][|ls[1..]| - 1] == ls[|ls| - 1];
      JoinEnds(ls[1..]);
    }
  }

  /** Valid labels joined with dots parse back to themselves. */
  lemma ParseJoin(ls: seq<string>)
    requires ValidLabels(ls) && |Join(ls)| <= MaxNameLength
    ensures ParseName(Join(ls)) == Success(ls)
  {
    if ls != [] {
      JoinEnds(ls);
      assert ValidLabel(ls[|ls| - 1]);
      var last := ls[|ls| - 1];
      assert last[|last| - 1] in last;
      assert Normalize(Join(ls)) == Join(ls);
      SplitJoin(ls);
    }
  }
}
