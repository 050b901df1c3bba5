/** Cutting a sequence into pieces of a fixed size and gluing pieces back
    together: the shape of subdomain chunks, AAAA address slices and the bit
    groups of the encoders. */
module Seqs {
  import opened Digits

  function Flatten<T>(gs: seq<seq<T>>): seq<T>
  {
    if gs == [] then [] else gs[0] + Flatten(gs[1..])
  }

  function Repeat<T>(x: T, n: nat): (r: seq<T>)
    ensures |r| == n && forall i :: 0 <= i < n ==> r[i] == x
  {
    seq(n, _ => x)
  }

  /** Concatenation regroups freely. */
  lemma Regroup<T>(a: seq<T>, b: seq<T>, c: seq<T>, d: seq<T>)
    ensures a + (b + c) + d == a + b + c + d
  {
  }

  lemma Front<T>(a: seq<T>, b: seq<T>, c: seq<T>, d: seq<T>)
    ensures a + (b + c + d) == a + b + c + d
  {
  }

  lemma Alone<T>(s: seq<T>)
    ensures [] + s + [] == s
  {
  }

  /** One element in front of three. */
  lemma ConsThree<T>(a: T, b: T, c: T, d: T)
    ensures [a] + [b, c, d] == [a, b, c, d]
  {
  }

  lemma EmptySuffix<T>(s: seq<T>)
    ensures s + [] == s
  {
  }

  lemma EmptyPrefix<T>(s: seq<T>)
    ensures [] + s == s
  {
  }

  /** The middle of three sequences put together. */
  lemma Middle<T>(a: seq<T>, b: seq<T>, c: seq<T>)
    ensures (a + b + c)[|a|..|a + b + c| - |c|] == b
  {
  }

  /** A sequence is its two halves put back together. */
  lemma SplitAt<T>(s: seq<T>, k: nat)
    requires k <= |s|
    ensures s[..k] + s[k..] == s
  {
  }

  /** s cut left to right into pieces of m elements; the last piece may be shorter. */
  function Chunk<T>(s: seq<T>, m: nat): (cs: seq<seq<T>>)
    requires m > 0
    ensures forall i :: 0 <= i < |cs| ==> 0 < |cs[i]| <= m
    ensures forall i :: 0 <= i < |cs| - 1 ==> |cs[i]| == m
    decreases |s|
  {
    if |s| == 0 then [] else if |s| <= m then [s] else [s[..m]] + Chunk(s[m..], m)
  }

  lemma {:induction false} FlattenAppend<T>(a: seq<seq<T>>, b: seq<seq<T>>)
    ensures Flatten(a + b) == Flatten(a) + Flatten(b)
  {
    if a != [] {
      assert (a + b)[0] == a[0];
      assert (a + b)[1..] == a[1..] + b;
      FlattenAppend(a[1..], b);
      assert Flatten(a) == a[0] + Flatten(a[1..]);
      assert Flatten(a + b) == a[0] + Flatten(a[1..] + b);
    } else {
      assert a + b == b;
    }
  }

  /** Gluing the pieces gives back the sequence that was cut. */
  lemma {:induction false} FlattenChunk<T>(s: seq<T>, m: nat)
    requires m > 0
    ensures Flatten(Chunk(s, m)) == s
    decreases |s|
  {
    if |s| > m {
      FlattenChunk(s[m..], m);
      assert s == s[..m] + s[m..];
    }
  }

  /** Pieces that all have m elements are recovered by cutting their concatenation. */
  lemma {:induction false} ChunkFlatten<T>(gs: seq<seq<T>>, m: nat)
    requires m > 0 && forall i :: 0 <= i < |gs| ==> |gs[i]| == m
    ensures Chunk(Flatten(gs), m) == gs
  {
    if gs != [] {
      var rest := Flatten(gs[1..]);
      ChunkFlatten(gs[1..], m);
      FlattenLength(gs[1..], m);
      assert Flatten(gs) == gs[0] + rest;
      if |gs| == 1 {
        assert rest == [];
        assert gs[0] + rest == gs[0];
      } else {
        assert |rest| >= m by {
          MulMono(1, |gs| - 1, m);
        }
        assert (gs[0] + rest)[..m] == gs[0];
        assert (gs[0] + rest)[m..] == rest;
        assert gs == [gs[0]] + gs[1..];
      }
    }
  }

  lemma {:induction false} FlattenLength<T>(gs: seq<seq<T>>, m: nat)
    requires forall i :: 0 <= i < |gs| ==> |gs[i]| == m
    ensures |Flatten(gs)| == |gs| * m
  {
    if gs != [] {
      FlattenLength(gs[1..], m);
    }
  }

  /** The number of pieces is the length divided by m, rounded up. */
  lemma {:induction false} ChunkCount<T>(s: seq<T>, m: nat)
    requires m > 0
    ensures |Chunk(s, m)| == (|s| + m - 1) / m
    decreases |s|
  {
    if |s| == 0 {
      NoPieces(|s|, m);
    } else if |s| <= m {
      OnePiece(|s|, m);
    } else {
      ChunkCount(s[m..], m);
      MorePieces(|s|, m, |s[m..]|);
    }
  }

  lemma NoPieces(n: nat, m: nat)
    requires m > 0 && n == 0
    ensures (n + m - 1) / m == 0
  {
  }

  lemma OnePiece(n: nat, m: nat)
    requires 0 < n <= m
    ensures (n + m - 1) / m == 1
  {
    DivIsOne(n + m - 1, m);
  }

  lemma MorePieces(n: nat, m: nat, r: nat)
    requires 0 < m < n && r == n - m
    ensures (n + m - 1) / m == (r + m - 1) / m + 1
  {
    DivShift(n - 1, m);
  }

  lemma DivIsOne(a: nat, m: nat)
    requires m > 0 && m <= a < 2 * m
    ensures a / m == 1
  {
    DivModDigit(1, m, a - m);
  }

  lemma DivShift(a: nat, m: nat)
    requires m > 0
    ensures (a + m) / m == a / m + 1
  {
    var q, r := a / m, a % m;
    DivModIdentity(a, m);
    assert a + m == (q + 1) * m + r;
    DivModDigit(q + 1, m, r);
  }
}
