/** Integer sums over sequences and square tables, used to state flow
    conservation, the termination measure of the augmentation loop and the
    capacity of a cut. */
module Sums {

  /** Sum of a sequence, folded from the left. */
  function Sum(s: seq<int>): int
  {
    if |s| == 0 then 0 else Sum(s[..|s| - 1]) + s[|s| - 1]
  }

  function Pos(x: int): int
  {
    if x > 0 then x else 0
  }

  /** Sum of the positive parts of a sequence. */
  function SumPos(s: seq<int>): int
  {
    if |s| == 0 then 0 else SumPos(s[..|s| - 1]) + Pos(s[|s| - 1])
  }

  /** An n-by-n table. */
  predicate IsSquare(t: seq<seq<int>>, n: nat)
  {
    |t| == n && forall i :: 0 <= i < n ==> |t[i]| == n
  }

  /** t[i][j] == -t[j][i] for every pair of indices. */
  ghost predicate Skew(t: seq<seq<int>>, n: nat)
    requires IsSquare(t, n)
  {
    forall i, j :: 0 <= i < n && 0 <= j < n ==> t[i][j] == -t[j][i]
  }

  /** Sum of the first w entries of each of the first m rows. */
  function RowsSum(t: seq<seq<int>>, m: nat, w: nat): int
    requires m <= |t|
    requires forall i :: 0 <= i < m ==> w <= |t[i]|
  {
    if m == 0 then 0 else RowsSum(t, m - 1, w) + Sum(t[m - 1][..w])
  }

  /** Sum of column c over the first m rows. */
  function ColSum(t: seq<seq<int>>, m: nat, c: nat): int
    requires m <= |t|
    requires forall i :: 0 <= i < m ==> c < |t[i]|
  {
    if m == 0 then 0 else ColSum(t, m - 1, c) + t[m - 1][c]
  }

  /** Sum of all entries of an n-by-n table. */
  function Total(t: seq<seq<int>>, n: nat): int
    requires IsSquare(t, n)
  {
    RowsSum(t, n, n)
  }

  lemma {:induction false} SumPrefixStep(s: seq<int>, k: nat)
    requires k < |s|
    ensures Sum(s[..k + 1]) == Sum(s[..k]) + s[k]
  {
    assert s[..k + 1][..k] == s[..k];
  }

  lemma {:induction false} SumUpdate(s: seq<int>, j: nat, d: int)
    requires j < |s|
    ensures Sum(s[j := s[j] + d]) == Sum(s) + d
  {
    var s' := s[j := s[j] + d];
    if j == |s| - 1 {
      assert s'[..|s| - 1] == s[..|s| - 1];
    } else {
      assert s'[..|s| - 1] == s[..|s| - 1][j := s[j] + d];
      SumUpdate(s[..|s| - 1], j, d);
    }
  }

  lemma {:induction false} SumPosNonNegative(s: seq<int>)
    ensures SumPos(s) >= 0
  {
    if |s| > 0 {
      SumPosNonNegative(s[..|s| - 1]);
    }
  }

  /** Removing b from an entry that holds at least b lowers the positive sum by b. */
  lemma {:induction false} SumPosDecrease(s: seq<int>, j: nat, b: int)
    requires j < |s| && 0 <= b <= s[j]
    ensures SumPos(s[j := s[j] - b]) == SumPos(s) - b
  {
    var s' := s[j := s[j] - b];
    if j == |s| - 1 {
      assert s'[..|s| - 1] == s[..|s| - 1];
    } else {
      assert s'[..|s| - 1] == s[..|s| - 1][j := s[j] - b];
      SumPosDecrease(s[..|s| - 1], j, b);
    }
  }

  lemma {:induction false} SumOfZeros(s: seq<int>)
    requires forall i :: 0 <= i < |s| ==> s[i] == 0
    ensures Sum(s) == 0
  {
    if |s| > 0 {
      SumOfZeros(s[..|s| - 1]);
    }
  }

  lemma {:induction false} SumPointwise(a: seq<int>, b: seq<int>, c: seq<int>)
    requires |a| == |b| == |c|
    requires forall i :: 0 <= i < |c| ==> c[i] == a[i] + b[i]
    ensures Sum(c) == Sum(a) + Sum(b)
  {
    if |c| > 0 {
      var k := |c| - 1;
      SumPointwise(a[..k], b[..k], c[..k]);
    }
  }

  lemma {:induction false} RowsSumPointwise(a: seq<seq<int>>, b: seq<seq<int>>, c: seq<seq<int>>, n: nat, m: nat)
    requires IsSquare(a, n) && IsSquare(b, n) && IsSquare(c, n) && m <= n
    requires forall i, j :: 0 <= i < n && 0 <= j < n ==> c[i][j] == a[i][j] + b[i][j]
    ensures RowsSum(c, m, n) == RowsSum(a, m, n) + RowsSum(b, m, n)
  {
    if m > 0 {
      RowsSumPointwise(a, b, c, n, m - 1);
      var i := m - 1;
      assert a[i][..n] == a[i] && b[i][..n] == b[i] && c[i][..n] == c[i];
      SumPointwise(a[i], b[i], c[i]);
    }
  }

  /** Total is additive over pointwise sums of tables. */
  lemma TotalPointwise(a: seq<seq<int>>, b: seq<seq<int>>, c: seq<seq<int>>, n: nat)
    requires IsSquare(a, n) && IsSquare(b, n) && IsSquare(c, n)
    requires forall i, j :: 0 <= i < n && 0 <= j < n ==> c[i][j] == a[i][j] + b[i][j]
    ensures Total(c, n) == Total(a, n) + Total(b, n)
  {
    RowsSumPointwise(a, b, c, n, n);
  }

  lemma {:induction false} RowsSumWiden(t: seq<seq<int>>, m: nat, w: nat)
    requires m <= |t|
    requires forall i :: 0 <= i < m ==> w < |t[i]|
    ensures RowsSum(t, m, w + 1) == RowsSum(t, m, w) + ColSum(t, m, w)
  {
    if m > 0 {
      RowsSumWiden(t, m - 1, w);
      SumPrefixStep(t[m - 1], w);
    }
  }

  lemma {:induction false} SkewColumn(t: seq<seq<int>>, n: nat, k: nat, m: nat)
    requires IsSquare(t, n) && Skew(t, n) && m <= k < n
    ensures ColSum(t, m, k) == -Sum(t[k][..m])
  {
    if m > 0 {
      SkewColumn(t, n, k, m - 1);
      SumPrefixStep(t[k], m - 1);
      assert t[m - 1][k] == -t[k][m - 1];
    }
  }

  lemma {:induction false} SkewBlock(t: seq<seq<int>>, n: nat, k: nat)
    requires IsSquare(t, n) && Skew(t, n) && k <= n
    ensures RowsSum(t, k, k) == 0
  {
    if k > 0 {
      var j := k - 1;
      SkewBlock(t, n, j);
      RowsSumWiden(t, j, j);
      SkewColumn(t, n, j, j);
      SumPrefixStep(t[j], j);
      assert t[j][j] == -t[j][j];
    }
  }

  /** A skew-symmetric table sums to zero. */
  lemma SkewTotalZero(t: seq<seq<int>>, n: nat)
    requires IsSquare(t, n) && Skew(t, n)
    ensures Total(t, n) == 0
  {
    SkewBlock(t, n, n);
  }
}
