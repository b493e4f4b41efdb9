/** Slicing facts about concatenations, stated once for any element type so that
    the container proofs can name the piece they look at instead of re-deriving
    sequence equalities over the whole buffer. */
module Seqs {

  lemma ConcatSlices<T>(a: seq<T>, c: seq<T>)
    ensures (a + c)[..|a|] == a && (a + c)[|a|..] == c
  {
  }

  lemma SliceLeft<T>(a: seq<T>, c: seq<T>, i: nat, j: nat)
    requires i <= j <= |a|
    ensures (a + c)[i..j] == a[i..j]
  {
    assert (a + c)[..j] == a[..j];
  }

  lemma SliceRight<T>(a: seq<T>, c: seq<T>, i: nat, j: nat)
    requires |a| <= i <= j <= |a| + |c|
    ensures (a + c)[i..j] == c[i - |a|..j - |a|]
  {
    assert (a + c)[|a|..] == c;
    assert (a + c)[i..j] == (a + c)[|a|..][i - |a|..j - |a|];
  }

  lemma Middle<T>(a: seq<T>, m: seq<T>, c: seq<T>)
    ensures (a + m + c)[..|a|] == a
    ensures (a + m + c)[|a|..|a| + |m|] == m
    ensures (a + m + c)[|a| + |m|..] == c
  {
    SliceLeft(a + m, c, |a|, |a| + |m|);
    SliceLeft(a + m, c, 0, |a|);
  }

  lemma SliceOfSlice<T>(s: seq<T>, i: nat, j: nat, x: nat, y: nat)
    requires i <= j <= |s| && x <= y <= j - i
    ensures s[i..j][x..y] == s[i + x..i + y]
  {
    var t := s[i..j];
    forall k | 0 <= k < y - x
      ensures t[x..y][k] == s[i + x..i + y][k]
    {
      assert t[x..y][k] == t[x + k];
    }
  }

  /** The five pieces of `f + x + (k + t + d)`, each at its offset. */
  lemma Five<T>(f: seq<T>, x: seq<T>, k: seq<T>, t: seq<T>, d: seq<T>)
    ensures var b, i := f + x + (k + t + d), |f| + |x|;
      && |b| == i + |k| + |t| + |d|
      && b[..|f|] == f
      && b[|f|..i] == x
      && b[i..i + |k|] == k
      && b[i + |k|..i + |k| + |t|] == t
      && b[i + |k| + |t|..] == d
  {
    var back := k + t + d;
    Middle(f, x, back);
    Middle(k, t, d);
    var i := |f| + |x|;
    SliceRight(f + x, back, i, i + |k|);
    SliceRight(f + x, back, i + |k|, i + |k| + |t|);
    assert (f + x + back)[i + |k| + |t|..] == back[|k| + |t|..];
  }

  /** A piece of a suffix, located in the whole sequence at `lo..hi`. */
  lemma InSuffix<T>(b: seq<T>, r: nat, x: nat, y: nat, piece: seq<T>, lo: nat, hi: nat)
    requires r <= |b| && x <= y <= |b| - r
    requires b[r..][x..y] == piece
    requires lo == r + x && hi == r + y
    ensures b[lo..hi] == piece
  {
    assert b[r..] == b[r..|b|];
    SliceOfSlice(b, r, |b|, x, y);
  }

  /** A piece of a slice, located in the whole sequence at `lo..hi`. */
  lemma InSlice<T>(b: seq<T>, i: nat, j: nat, x: nat, y: nat, piece: seq<T>, lo: nat, hi: nat)
    requires i <= j <= |b| && x <= y <= j - i
    requires b[i..j][x..y] == piece
    requires lo == i + x && hi == i + y
    ensures b[lo..hi] == piece
  {
    SliceOfSlice(b, i, j, x, y);
  }

  lemma Assoc<T>(a: seq<T>, b: seq<T>, c: seq<T>)
    ensures a + b + c == a + (b + c)
  {
  }

  /** The grouping of an unpatched container, from the grouping of its writes into an empty stream. */
  lemma Regroup<T>(f: seq<T>, z: seq<T>, k: seq<T>, t: seq<T>, d: seq<T>)
    ensures [] + (f + z + k) + t + d == f + z + (k + t + d)
  {
    assert [] + (f + z + k) == f + z + k;
    Assoc(f + z + k, t, d);
    Assoc(f + z, k, t + d);
    Assoc(k, t, d);
  }

  lemma DropCons<T>(s: seq<T>, k: nat)
    requires k < |s|
    ensures s[k..] == [s[k]] + s[k + 1..]
  {
  }

  /** The pieces `f` gives for each element of `xs`, concatenated in order. */
  function ConcatMap<T, U>(f: T -> seq<U>, xs: seq<T>): seq<U>
  {
    if xs == [] then [] else ConcatMap(f, xs[..|xs| - 1]) + f(xs[|xs| - 1])
  }

  lemma {:induction false} ConcatMapAppend<T, U>(f: T -> seq<U>, a: seq<T>, b: seq<T>)
    ensures ConcatMap(f, a + b) == ConcatMap(f, a) + ConcatMap(f, b)
    decreases |b|
  {
    if b == [] {
      assert a + b == a;
    } else {
      var ab, init := a + b, b[..|b| - 1];
      assert ab[..|ab| - 1] == a + init;
      ConcatMapAppend(f, a, init);
    }
  }
}
