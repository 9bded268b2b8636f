/** `latin_square(n)` of the list generator: an n x n square whose column 0 is
    1..n and whose column c is column 0 cyclically rolled by the c-th term of
    the shift sequence 0, -1, +1, -2, +2, ... (the Williams construction of a
    balanced Latin square). */
module LatinSquares {
  import opened Remainders

  /** The roll applied to column c: `(.5 - c mod 2) / .5 * ceil(c / 2)`,
      that is -(c + 1) / 2 for odd c and c / 2 for even c. */
  function Shift(c: nat): int
  {
    if c % 2 == 1 then -((c + 1) / 2) else c / 2
  }

  /** Entry [i][c] of the square: `np.roll(column0, s)[i]` is
      `column0[(i - s) mod n]`, and `column0[k]` is k + 1. */
  function Entry(n: nat, i: nat, c: nat): int
    requires n >= 1
  {
    1 + (i - Shift(c)) % n
  }

  /** `latin_square(n)`: fills column 0, then every other column from column 0
      rolled by that column's shift. (numpy fails on n = 0.) */
  method LatinSquare(n: nat) returns (square: array2<int>)
    requires n >= 1
    ensures square.Length0 == n && square.Length1 == n
    ensures forall i, c :: 0 <= i < n && 0 <= c < n ==> square[i, c] == Entry(n, i, c)
  {
    square := new int[n, n];
    for i := 0 to n
      invariant forall k :: 0 <= k < i ==> square[k, 0] == k + 1
    {
      square[i, 0] := i + 1;
    }
    for col := 1 to n
      invariant forall k :: 0 <= k < n ==> square[k, 0] == k + 1
      invariant forall k, c :: 0 <= k < n && 1 <= c < col ==> square[k, c] == Entry(n, k, c)
    {
      var shift := (1 - 2 * (col % 2)) * ((col + 1) / 2);
      assert shift == Shift(col);
      for i := 0 to n
        invariant forall k :: 0 <= k < n ==> square[k, 0] == k + 1
        invariant forall k, c :: 0 <= k < n && 1 <= c < col ==> square[k, c] == Entry(n, k, c)
        invariant forall k :: 0 <= k < i ==> square[k, col] == Entry(n, k, col)
      {
        square[i, col] := square[(i - shift) % n, 0];
      }
    }
    forall k | 0 <= k < n
      ensures square[k, 0] == Entry(n, k, 0)
    {
      ModOfSmall(k, n);
    }
  }

  // ---------------------------------------------------------------------
  // The shift sequence

  /** The shifts of columns 0..n-1 lie in n consecutive integers. */
  lemma ShiftInWindow(n: nat, c: nat)
    requires c < n
    ensures -(n / 2) <= Shift(c) <= -(n / 2) + n - 1
  {
  }

  lemma ShiftInjective(c: nat, d: nat)
    requires c != d
    ensures Shift(c) != Shift(d)
  {
  }

  /** The column whose shift is s. */
  function ShiftIndex(s: int): (c: nat)
    ensures Shift(c) == s
  {
    if s < 0 then -2 * s - 1 else 2 * s
  }

  /** `s` holds each of 1..n exactly once. */
  ghost predicate IsPermutationOfOneTo(s: seq<int>, n: nat)
  {
    && |s| == n
    && (forall k :: 0 <= k < n ==> 1 <= s[k] <= n)
    && (forall j, k :: 0 <= j < k < n ==> s[j] != s[k])
    && (forall v :: 1 <= v <= n ==> v in s)
  }

  function Row(n: nat, i: nat): seq<int>
    requires n >= 1
  {
    seq(n, (c: int) requires 0 <= c < n => Entry(n, i, c))
  }

  function Column(n: nat, c: nat): seq<int>
    requires n >= 1
  {
    seq(n, (i: int) requires 0 <= i < n => Entry(n, i, c))
  }

  /** Column 0 is 1..n. */
  lemma ColumnZero(n: nat, i: nat)
    requires n >= 1 && i < n
    ensures Entry(n, i, 0) == i + 1
  {
    ModOfSmall(i, n);
  }

  /** The row that has v in column c. */
  lemma RowOfValue(n: nat, c: nat, v: int) returns (i: nat)
    requires n >= 1 && 1 <= v <= n
    ensures i < n && Entry(n, i, c) == v
  {
    var s := Shift(c);
    i := (v - 1 + s) % n;
    var q := (v - 1 + s) / n;
    assert v - 1 + s == q * n + i;
    assert i - s == (v - 1) + (-q) * n;
    ModPlusMultiple(v - 1, -q, n);
    ModOfSmall(v - 1, n);
  }

  /** Every column of the square is a permutation of 1..n. */
  lemma ColumnIsPermutation(n: nat, c: nat)
    requires n >= 1 && c < n
    ensures IsPermutationOfOneTo(Column(n, c), n)
  {
    var col := Column(n, c);
    forall j, k | 0 <= j < k < n
      ensures col[j] != col[k]
    {
      ModInjectiveOnWindow(j - Shift(c), k - Shift(c), n);
    }
    forall v | 1 <= v <= n
      ensures v in col
    {
      var i := RowOfValue(n, c, v);
      assert col[i] == v;
    }
  }

  /** Every row of the square is a permutation of 1..n. */
  lemma RowIsPermutation(n: nat, i: nat)
    requires n >= 1 && i < n
    ensures IsPermutationOfOneTo(Row(n, i), n)
  {
    var row := Row(n, i);
    forall c, d | 0 <= c < d < n
      ensures row[c] != row[d]
    {
      ShiftInWindow(n, c);
      ShiftInWindow(n, d);
      ShiftInjective(c, d);
      ModInjectiveOnWindow(i - Shift(c), i - Shift(d), n);
    }
    forall v | 1 <= v <= n
      ensures v in row
    {
      var low := -(n / 2);
      var target := i - (v - 1);
      var q := (target - low) / n;
      var s := low + (target - low) % n;
      assert target - low == q * n + (target - low) % n;
      var c := ShiftIndex(s);
      assert c < n;
      assert i - s == (v - 1) + q * n;
      ModPlusMultiple(v - 1, q, n);
      ModOfSmall(v - 1, n);
      assert row[c] == v;
    }
  }

  // ---------------------------------------------------------------------
  // Balance: for even n every ordered pair of distinct symbols is adjacent
  // exactly once.

  /** The pair (a, b) stands in columns c, c + 1 of row i. */
  ghost predicate AdjacentAt(n: nat, i: nat, c: nat, a: int, b: int)
    requires n >= 1
  {
    i < n && c + 1 < n && Entry(n, i, c) == a && Entry(n, i, c + 1) == b
  }

  /** Going one column to the right moves the symbol by Step(c) modulo n. */
  function Step(c: nat): (d: int)
    ensures d == Shift(c) - Shift(c + 1)
  {
    if c % 2 == 0 then c + 1 else -(c + 1)
  }

  lemma NextEntry(n: nat, i: nat, c: nat)
    requires n >= 1
    ensures Entry(n, i, c + 1) - 1 == (Entry(n, i, c) - 1 + Step(c)) % n
  {
    var x := i - Shift(c);
    var y := i - Shift(c + 1);
    var q := x / n;
    assert x % n + Step(c) == y + (-q) * n by {
      assert x == q * n + x % n;
      assert y == x + Step(c);
    }
    ModPlusMultiple(y, -q, n);
    assert Entry(n, i, c + 1) - 1 == y % n;
    assert Entry(n, i, c) - 1 + Step(c) == y + (-q) * n;
  }

  /** For even n the steps of the n - 1 column boundaries are different modulo n. */
  lemma StepsDistinct(n: nat, c1: nat, c2: nat)
    requires n >= 2 && n % 2 == 0
    requires c1 + 1 < n && c2 + 1 < n && c1 != c2
    ensures Step(c1) % n != Step(c2) % n
  {
    var s1, s2 := Step(c1), Step(c2);
    if c1 % 2 == c2 % 2 {
      ModInjectiveOnWindow(s1, s2, n);
    } else {
      assert (s1 - s2) % 2 == 1 by {
        StepParity(c1);
        StepParity(c2);
        OddDifference(s1, s2);
      }
      OddDifferenceNotCongruent(s1, s2, n);
    }
  }

  lemma StepParity(c: nat)
    ensures Step(c) % 2 == 1 - c % 2
  {
  }

  /** The column boundary whose step carries a to b modulo n, for even n. */
  lemma BoundaryOfStep(n: nat, a: int, b: int) returns (c: nat)
    requires n >= 2 && n % 2 == 0
    requires 1 <= a <= n && 1 <= b <= n && a != b
    ensures c + 1 < n && (a - 1 + Step(c)) % n == b - 1
  {
    var delta := (b - a) % n;
    assert 0 < delta < n by {
      ModInjectiveOnWindow(b - a, 0, n);
    }
    var q := (b - a) / n;
    assert b - a == q * n + delta;
    if delta % 2 == 1 {
      c := OddBoundary(n, a, b, q, delta);
    } else {
      c := EvenBoundary(n, a, b, q, delta);
    }
  }

  /** An odd distance is the step of boundary delta - 1. */
  lemma OddBoundary(n: nat, a: int, b: int, q: int, delta: int) returns (c: nat)
    requires n >= 2 && 1 <= a <= n && 1 <= b <= n
    requires 0 < delta < n && delta % 2 == 1 && b - a == q * n + delta
    ensures c + 1 < n && (a - 1 + Step(c)) % n == b - 1
  {
    c := delta - 1;
    assert Step(c) == delta;
    CongruentToSmall(a - 1 + Step(c), b - 1, -q, n);
  }

  /** An even distance is the step of boundary n - delta - 1, minus n. */
  lemma EvenBoundary(n: nat, a: int, b: int, q: int, delta: int) returns (c: nat)
    requires n >= 2 && n % 2 == 0 && 1 <= a <= n && 1 <= b <= n
    requires 0 < delta < n && delta % 2 == 0 && b - a == q * n + delta
    ensures c + 1 < n && (a - 1 + Step(c)) % n == b - 1
  {
    c := n - delta - 1;
    assert c % 2 == 1;
    assert Step(c) == delta - n;
    assert (-q - 1) * n == -q * n - n;
    CongruentToSmall(a - 1 + Step(c), b - 1, -q - 1, n);
  }

  /** Where a pair of distinct symbols stands side by side, for even n. */
  lemma AdjacentPlace(n: nat, a: int, b: int) returns (i: nat, c: nat)
    requires n >= 2 && n % 2 == 0
    requires 1 <= a <= n && 1 <= b <= n && a != b
    ensures AdjacentAt(n, i, c, a, b)
  {
    c := BoundaryOfStep(n, a, b);
    i := RowOfValue(n, c, a);
    NextEntry(n, i, c);
  }

  /** The step between two columns fixes the column, the column fixes the row. */
  lemma AdjacentPlaceUnique(n: nat, a: int, b: int, i1: nat, c1: nat, i2: nat, c2: nat)
    requires n >= 2 && n % 2 == 0
    requires AdjacentAt(n, i1, c1, a, b) && AdjacentAt(n, i2, c2, a, b)
    ensures i1 == i2 && c1 == c2
  {
    NextEntry(n, i1, c1);
    NextEntry(n, i2, c2);
    if c1 != c2 {
      CancelCongruent(a - 1, Step(c1), Step(c2), n);
      StepsDistinct(n, c1, c2);
      assert false;
    }
    if i1 != i2 {
      ModInjectiveOnWindow(i1 - Shift(c1), i2 - Shift(c1), n);
    }
  }

  /** Balance of the square for even n: every ordered pair of distinct symbols
      stands side by side, in this order, at exactly one place of the square. */
  lemma BalancedForEvenOrder(n: nat, a: int, b: int)
    requires n >= 2 && n % 2 == 0
    requires 1 <= a <= n && 1 <= b <= n && a != b
    ensures exists i: nat, c: nat :: AdjacentAt(n, i, c, a, b)
    ensures forall i1: nat, c1: nat, i2: nat, c2: nat ::
      AdjacentAt(n, i1, c1, a, b) && AdjacentAt(n, i2, c2, a, b) ==> i1 == i2 && c1 == c2
  {
    var i, c := AdjacentPlace(n, a, b);
    forall i1: nat, c1: nat, i2: nat, c2: nat |
      AdjacentAt(n, i1, c1, a, b) && AdjacentAt(n, i2, c2, a, b)
      ensures i1 == i2 && c1 == c2
    {
      AdjacentPlaceUnique(n, a, b, i1, c1, i2, c2);
    }
  }

  /** For odd n the square is not balanced: in the square of order 3 the pair
      (1, 2) stands side by side twice. */
  lemma NotBalancedForOrderThree()
    ensures AdjacentAt(3, 0, 0, 1, 2) && AdjacentAt(3, 2, 1, 1, 2)
  {
    assert Shift(0) == 0 && Shift(1) == -1 && Shift(2) == 1;
    ModOfSmall(0, 3);
    ModOfSmall(1, 3);
    ModPlusMultiple(0, 1, 3);
  }
}
