/** The row-major to column-major copies of src/util/conversions.c. */
module Conversions {

  const INT_MAX := 0x7fff_ffff
  const SIZE_MAX := 0xffff_ffff_ffff_ffff

  lemma Times(a: int, b: int, c: int)
    requires 0 <= a <= b && 0 <= c
    ensures a * c <= b * c
  {
  }

  /** Element (i, j) of an m-by-n matrix stays inside both layouts. */
  lemma Inside(m: nat, n: nat, i: nat, j: nat)
    requires i < m && j < n
    ensures i * n + j < m * n && j * m + i < m * n
  {
    Times(i + 1, m, n);
    Times(j + 1, n, m);
  }

  /** In either layout the row and column can be read back from the position. */
  lemma Coordinates(m: nat, i: nat, j: nat)
    requires i < m
    ensures (j * m + i) / m == j && (j * m + i) % m == i
  {
    var k := j * m + i;
    var q, r := k / m, k % m;
    assert q * m + r == k && 0 <= r < m;
    if q < j { Times(q + 1, j, m); }
    if q > j { Times(j + 1, q, m); }
  }

  lemma InsideBack(m: nat, n: nat, k: nat)
    requires k < m * n
    ensures m > 0 && n > 0 && k % m < m && k / m < n && k == k / m * m + k % m
  {
    if k / m >= n { Times(n, k / m, m); }
  }

  /** The column-major layout of an m-by-n matrix given row by row. */
  function Transposed<T>(s: seq<T>, m: nat, n: nat): (t: seq<T>)
    requires |s| == m * n
    ensures |t| == m * n
  {
    seq(m * n, k requires 0 <= k < m * n => At(s, m, n, k))
  }

  function At<T>(s: seq<T>, m: nat, n: nat, k: nat): T
    requires |s| == m * n && k < m * n
  {
    s[Source(m, n, k)]
  }

  /** Where cell k of the column-major layout comes from. */
  function Source(m: nat, n: nat, k: nat): (p: nat)
    requires k < m * n
    ensures m > 0 && p == k % m * n + k / m < m * n
  {
    InsideBack(m, n, k);
    Inside(m, n, k % m, k / m);
    k % m * n + k / m
  }

  lemma TransposedAt<T>(s: seq<T>, m: nat, n: nat, i: nat, j: nat)
    requires |s| == m * n && i < m && j < n
    ensures i * n + j < m * n && j * m + i < m * n
    ensures Transposed(s, m, n)[j * m + i] == s[i * n + j]
  {
    Inside(m, n, i, j);
    Coordinates(m, i, j);
  }

  /** Copying m-by-n and then n-by-m is the identity. */
  lemma TransposedTwice<T>(s: seq<T>, m: nat, n: nat)
    requires |s| == m * n
    ensures n * m == m * n && Transposed(Transposed(s, m, n), n, m) == s
  {
    var t := Transposed(s, m, n);
    forall k | 0 <= k < m * n ensures Transposed(t, n, m)[k] == s[k] {
      InsideBack(n, m, k);
      TransposedAt(t, n, m, k % n, k / n);
      TransposedAt(s, m, n, k / n, k % n);
    }
  }

  /** The four *_matrix_to_m functions, which differ in the element type only: every output cell is
      written exactly once (`writes` counts), in bounds, and no index leaves size_t. */
  method MatrixToM<T(0)>(input: array<T>, m: nat, n: nat) returns (output: array<T>, ghost writes: seq<nat>)
    requires m <= INT_MAX && n <= INT_MAX && input.Length == m * n
    ensures fresh(output) && output[..] == Transposed(input[..], m, n)
    ensures |writes| == m * n && forall k | 0 <= k < m * n :: writes[k] == 1
  {
    output := new T[m * n];
    writes := seq(m * n, _ => 0);
    for i := 0 to m
      invariant Progress(input[..], output[..], writes, m, n, i, 0)
    {
      for j := 0 to n
        invariant Progress(input[..], output[..], writes, m, n, i, j)
      {
        Inside(m, n, i, j);
        Times(m, INT_MAX, n);
        assert j * m + i <= SIZE_MAX && i * n + j <= SIZE_MAX;
        ghost var before, counted := output[..], writes;
        output[j * m + i] := input[i * n + j];
        writes := writes[j * m + i := writes[j * m + i] + 1];
        OneStep(input[..], before, counted, m, n, i, j);
      }
      NextRow(input[..], output[..], writes, m, n, i);
    }
    Finished(input[..], output[..], writes, m, n);
  }

  /** Cell k of the output has been filled once rows up to i, and row i up to column j, are done. */
  predicate Done(m: nat, k: nat, i: nat, j: nat)
    requires m > 0
  {
    k % m < i || (k % m == i && k / m < j)
  }

  ghost predicate Progress<T>(input: seq<T>, output: seq<T>, writes: seq<nat>, m: nat, n: nat, i: nat, j: nat) {
    && |input| == |output| == |writes| == m * n
    && forall k | 0 <= k < m * n ::
         m > 0 && (if Done(m, k, i, j) then output[k] == At(input, m, n, k) && writes[k] == 1 else writes[k] == 0)
  }

  lemma OneStep<T>(input: seq<T>, output: seq<T>, writes: seq<nat>, m: nat, n: nat, i: nat, j: nat)
    requires i < m && j < n && Progress(input, output, writes, m, n, i, j)
    requires i * n + j < m * n && j * m + i < m * n
    ensures Progress(input, output[j * m + i := input[i * n + j]],
                     writes[j * m + i := writes[j * m + i] + 1], m, n, i, j + 1)
  {
    var c := j * m + i;
    Coordinates(m, i, j);
    forall k | 0 <= k < m * n && k != c ensures Done(m, k, i, j + 1) <==> Done(m, k, i, j) {
      InsideBack(m, n, k);
    }
  }

  lemma NextRow<T>(input: seq<T>, output: seq<T>, writes: seq<nat>, m: nat, n: nat, i: nat)
    requires i < m && Progress(input, output, writes, m, n, i, n)
    ensures Progress(input, output, writes, m, n, i + 1, 0)
  {
    forall k | 0 <= k < m * n ensures Done(m, k, i + 1, 0) <==> Done(m, k, i, n) {
      InsideBack(m, n, k);
    }
  }

  lemma Finished<T>(input: seq<T>, output: seq<T>, writes: seq<nat>, m: nat, n: nat)
    requires Progress(input, output, writes, m, n, m, 0)
    ensures output == Transposed(input, m, n)
    ensures forall k | 0 <= k < m * n :: writes[k] == 1
  {
    forall k | 0 <= k < m * n ensures output[k] == At(input, m, n, k) && writes[k] == 1 {
      InsideBack(m, n, k);
      assert Done(m, k, m, 0);
    }
  }

  // ---------------------------------------------------------------- permutation

  function Drop<T>(s: seq<T>, k: nat): seq<T>
    requires k < |s|
  {
    s[..k] + s[k + 1..]
  }

  /** Reading a sequence through a one-to-one list of positions permutes it. */
  lemma {:induction false} Permutes<T>(a: seq<T>, b: seq<T>, from: seq<nat>)
    requires |a| == |b| == |from|
    requires forall k | 0 <= k < |b| :: from[k] < |a| && b[k] == a[from[k]]
    requires forall j, k | 0 <= j < k < |b| :: from[j] != from[k]
    ensures multiset(a) == multiset(b)
    decreases |a|
  {
    if a != [] {
      var n := |a| - 1;
      var q := from[n];
      var from' := seq(n, k requires 0 <= k < n => if from[k] > q then from[k] - 1 else from[k]);
      Permutes(Drop(a, q), b[..n], from');
      assert a == a[..q] + [a[q]] + a[q + 1..];
      assert b == b[..n] + [b[n]];
    }
  }

  /** The copy is a permutation of the input. */
  lemma TransposedPermutes<T>(s: seq<T>, m: nat, n: nat)
    requires |s| == m * n
    ensures multiset(Transposed(s, m, n)) == multiset(s)
  {
    var from := seq(m * n, k requires 0 <= k < m * n => Source(m, n, k));
    forall j, k | 0 <= j < k < m * n ensures from[j] != from[k] {
      InsideBack(m, n, j);
      InsideBack(m, n, k);
      Coordinates(n, j / m, j % m);
      Coordinates(n, k / m, k % m);
    }
    Permutes(s, Transposed(s, m, n), from);
  }
}
