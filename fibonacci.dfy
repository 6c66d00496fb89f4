/** FibonacciGenerator (AA_lab_1): six ways of computing the n-th Fibonacci
    number. Java `long` arithmetic is modelled with unbounded integers, so the
    overflow that happens for n > 92 is not part of this model; the 32-bit
    `int` arithmetic on the argument, loop bounds and exponents is. */
module FibonacciGenerator {
  import opened Wrappers
  import opened JavaInt

  /** The Fibonacci numbers: F(0) = 0, F(1) = 1, F(n) = F(n-1) + F(n-2). */
  function Fib(n: nat): nat {
    if n <= 1 then n else Fib(n - 1) + Fib(n - 2)
  }

  /** recursiveFib: returns n itself for every n <= 1, negative n included. */
  function RecursiveFib(n: int): (r: int)
    ensures n >= 0 ==> r == Fib(n)
    ensures n < 0 ==> r == n
  {
    if n <= 1 then n else RecursiveFib(n - 1) + RecursiveFib(n - 2)
  }

  /** topDownDPFib: fills a list with F(0..n) and reads entry n. The final
      `list.get(n)` throws for a negative n, and for Integer.MAX_VALUE too:
      there the bound n + 1 wraps to Integer.MIN_VALUE, so the list keeps
      its two first entries. */
  method TopDownDPFib(n: int) returns (r: Result<int>)
    requires IsInt(n)
    ensures 0 <= n < IntMax ==> r == Ok(Fib(n))
    ensures n < 0 || n == IntMax ==> r == Thrown(IndexOutOfBounds)
  {
    var list := [0, 1];
    var bound := Wrap(n + 1);
    assert bound == if n == IntMax then IntMin else n + 1;
    var i := 2;
    while i < bound
      invariant 2 <= i && (i <= bound || i == 2)
      invariant |list| == i
      invariant forall k {:trigger list[k]} :: 0 <= k < i ==> list[k] == Fib(k)
    {
      assert Fib(i) == list[i - 1] + list[i - 2];
      list := list + [list[i - 1] + list[i - 2]];
      i := i + 1;
    }
    if 0 <= n < |list| {
      r := Ok(list[n]);
    } else {
      r := Thrown(IndexOutOfBounds);
    }
  }

  /** bottomUpDPFib: two running values prev2 = F(i-2), prev1 = F(i-1).
      For n = Integer.MAX_VALUE the test i <= n never fails, because i++
      wraps, and the loop does not end; that n is excluded. */
  method BottomUpDPFib(n: int) returns (r: int)
    requires IsInt(n) && n < IntMax
    ensures n >= 0 ==> r == Fib(n)
    ensures n < 0 ==> r == n
  {
    if n <= 1 {
      return n;
    }
    var prev2, prev1, current := 0, 1, 0;
    var i := 2;
    while i <= n
      invariant 2 <= i <= n + 1
      invariant prev2 == Fib(i - 2) && prev1 == Fib(i - 1)
      invariant i > 2 ==> current == prev1
    {
      current := prev1 + prev2;
      prev2 := prev1;
      prev1 := current;
      i := i + 1;
    }
    r := current;
  }

  // ---------------------------------------------------------------------
  // 2x2 matrices

  /** The matrix [[a, b], [c, d]]. */
  datatype Mat = Mat(a: int, b: int, c: int, d: int)

  // The identity is written Mat(1, 0, 0, 1) and the Fibonacci Q-matrix
  // [[1, 1], [1, 0]] is written Mat(1, 1, 1, 0) wherever they are used: as
  // literals the solver multiplies by their entries directly.

  /** Entry (i, j) of m, rows and columns numbered from 0. */
  function Entry(m: Mat, i: nat, j: nat): int {
    if i == 0 then (if j == 0 then m.a else m.b) else (if j == 0 then m.c else m.d)
  }

  /** The sum of Entry(x, i, l) * Entry(y, l, j) over l < n. */
  function Dot(x: Mat, y: Mat, i: nat, j: nat, n: nat): int {
    if n == 0 then 0 else Dot(x, y, i, j, n - 1) + Entry(x, i, n - 1) * Entry(y, n - 1, j)
  }

  /** The matrix product: entry (i, j) is row i of x against column j of y. */
  function Mul(x: Mat, y: Mat): Mat {
    Mat(Dot(x, y, 0, 0, 2), Dot(x, y, 0, 1, 2), Dot(x, y, 1, 0, 2), Dot(x, y, 1, 1, 2))
  }

  /** The four entries of a product written out. */
  lemma MulEntries(x: Mat, y: Mat)
    ensures Mul(x, y) == Mat(x.a * y.a + x.b * y.c, x.a * y.b + x.b * y.d,
                             x.c * y.a + x.d * y.c, x.c * y.b + x.d * y.d)
  {
    assert Dot(x, y, 0, 0, 1) == x.a * y.a;
    assert Dot(x, y, 0, 1, 1) == x.a * y.b;
    assert Dot(x, y, 1, 0, 1) == x.c * y.a;
    assert Dot(x, y, 1, 1, 1) == x.c * y.b;
  }

  function MatPow(m: Mat, e: nat): Mat {
    if e == 0 then Mat(1, 0, 0, 1) else Mul(m, MatPow(m, e - 1))
  }

  lemma MulAssoc(x: Mat, y: Mat, z: Mat)
    ensures Mul(Mul(x, y), z) == Mul(x, Mul(y, z))
  {
    MulEntries(x, y);
    MulEntries(y, z);
    MulEntries(Mul(x, y), z);
    MulEntries(x, Mul(y, z));
    EntryAssoc(x.a, x.b, y.a, y.b, y.c, y.d, z.a, z.c);
    EntryAssoc(x.a, x.b, y.a, y.b, y.c, y.d, z.b, z.d);
    EntryAssoc(x.c, x.d, y.a, y.b, y.c, y.d, z.a, z.c);
    EntryAssoc(x.c, x.d, y.a, y.b, y.c, y.d, z.b, z.d);
  }

  /** One entry of (x y) z against x (y z): row (p, q) of x, column (u, v) of z. */
  lemma EntryAssoc(p: int, q: int, ya: int, yb: int, yc: int, yd: int, u: int, v: int)
    ensures (p * ya + q * yc) * u + (p * yb + q * yd) * v
         == p * (ya * u + yb * v) + q * (yc * u + yd * v)
  {
  }

  lemma MulIdentity(m: Mat)
    ensures Mul(Mat(1, 0, 0, 1), m) == m && Mul(m, Mat(1, 0, 0, 1)) == m
  {
    MulEntries(Mat(1, 0, 0, 1), m);
    MulEntries(m, Mat(1, 0, 0, 1));
  }

  /** m^a * m^b == m^(a+b). */
  lemma {:induction false} PowAdd(m: Mat, a: nat, b: nat)
    ensures Mul(MatPow(m, a), MatPow(m, b)) == MatPow(m, a + b)
  {
    if a == 0 {
      MulIdentity(MatPow(m, b));
    } else {
      calc {
        Mul(MatPow(m, a), MatPow(m, b));
        Mul(Mul(m, MatPow(m, a - 1)), MatPow(m, b));
        { MulAssoc(m, MatPow(m, a - 1), MatPow(m, b)); }
        Mul(m, Mul(MatPow(m, a - 1), MatPow(m, b)));
        { PowAdd(m, a - 1, b); }
        Mul(m, MatPow(m, a - 1 + b));
      }
    }
  }

  lemma MulQ(p: Mat)
    ensures Mul(Mat(1, 1, 1, 0), p) == Mat(p.a + p.c, p.b + p.d, p.a, p.b)
  {
    MulEntries(Mat(1, 1, 1, 0), p);
  }

  /** Q^k = [[F(k+1), F(k)], [F(k), F(k-1)]], with the corner 1 for k = 0. */
  lemma {:induction false} QPower(k: nat)
    ensures MatPow(Mat(1, 1, 1, 0), k) == QK(k)
  {
    if k > 0 {
      QPower(k - 1);
      var p := MatPow(Mat(1, 1, 1, 0), k - 1);
      assert MatPow(Mat(1, 1, 1, 0), k) == Mul(Mat(1, 1, 1, 0), p);
      MulQ(p);
      assert Fib(k + 1) == Fib(k) + Fib(k - 1);
      if k > 1 {
        assert Fib(k) == Fib(k - 1) + Fib(k - 2);
      }
    }
  }

  // Bits of a non-negative number, used for the exponent in matrixToPower
  // and for n in bitwiseDoublingFib.

  /** x >> i for a non-negative x. */
  function Shr(x: nat, i: nat): (r: nat)
    ensures r <= x
  {
    if i == 0 then x else Shr(x / 2, i - 1)
  }

  function Pow2(k: nat): nat {
    if k == 0 then 1 else 2 * Pow2(k - 1)
  }

  /** x mod 2^i, built from the i lowest bits of x. */
  function Low(x: nat, i: nat): (r: nat)
    ensures r < Pow2(i)
  {
    if i == 0 then 0 else x % 2 + 2 * Low(x / 2, i - 1)
  }

  /** Shifting once more halves; the low part gains bit t. */
  lemma {:induction false} ShrSucc(x: nat, t: nat)
    ensures Shr(x, t + 1) == Shr(x, t) / 2
    ensures Low(x, t + 1) == Low(x, t) + (if Shr(x, t) % 2 == 1 then Pow2(t) else 0)
  {
    if t > 0 {
      ShrSucc(x / 2, t - 1);
    }
  }

  /** Once no bits are left above bit t, the low part is the whole number. */
  lemma {:induction false} LowAll(x: nat, t: nat)
    requires Shr(x, t) == 0
    ensures Low(x, t) == x
  {
    if t > 0 {
      LowAll(x / 2, t - 1);
    }
  }

  /** A value below 2^k has no bits at or above bit k. */
  lemma {:induction false} ShrBelow(x: nat, k: nat)
    requires x < Pow2(k)
    ensures Shr(x, k) == 0
  {
    if k > 0 {
      ShrBelow(x / 2, k - 1);
    }
  }

  lemma Pow2Of32()
    ensures Pow2(32) == 0x1_0000_0000
  {
    assert Pow2(8) == 0x100;
    assert Pow2(16) == 0x1_0000;
    assert Pow2(24) == 0x100_0000;
  }

  // 2x2 arrays

  /** The contents of a 2x2 array as a matrix. */
  ghost function Val(m: array2<int>): Mat
    requires m.Length0 == 2 && m.Length1 == 2
    reads m
  {
    Mat(m[0, 0], m[0, 1], m[1, 0], m[1, 1])
  }

  /** multiply(A, B): A := A * B. All four products are computed before any
      write, so the result is right even when A and B are the same array. */
  method Multiply(A: array2<int>, B: array2<int>)
    requires A.Length0 == 2 && A.Length1 == 2 && B.Length0 == 2 && B.Length1 == 2
    modifies A
    ensures Val(A) == Mul(old(Val(A)), old(Val(B)))
  {
    MulEntries(Val(A), Val(B));
    var a := A[0, 0] * B[0, 0] + A[0, 1] * B[1, 0];
    var b := A[0, 0] * B[0, 1] + A[0, 1] * B[1, 1];
    var c := A[1, 0] * B[0, 0] + A[1, 1] * B[1, 0];
    var d := A[1, 0] * B[0, 1] + A[1, 1] * B[1, 1];
    A[0, 0] := a;
    A[0, 1] := b;
    A[1, 0] := c;
    A[1, 1] := d;
  }

  /** matrixToPower: square-and-multiply; a negative exponent skips the loop
      and leaves the identity. After t rounds, result holds M^(exp mod 2^t)
      and matrix holds M^(2^t). */
  method MatrixToPower(matrix: array2<int>, exp: int)
    requires matrix.Length0 == 2 && matrix.Length1 == 2
    modifies matrix
    ensures exp >= 0 ==> Val(matrix) == MatPow(old(Val(matrix)), exp)
    ensures exp < 0 ==> Val(matrix) == Mat(1, 0, 0, 1)
  {
    ghost var m0 := Val(matrix);
    var result := new int[2, 2];
    result[0, 0], result[0, 1], result[1, 0], result[1, 1] := 1, 0, 0, 1;
    ghost var x: nat := if exp >= 0 then exp else 0;
    ghost var t: nat := 0;
    ghost var low: nat, pow: nat := 0, 1;
    assert MatPow(m0, 1) == m0 by {
      MulIdentity(m0);
    }
    var e := exp;
    while e > 0
      invariant result != matrix
      invariant low == Low(x, t) && pow == Pow2(t)
      invariant Val(result) == MatPow(m0, low) && Val(matrix) == MatPow(m0, pow)
      invariant exp >= 0 ==> e == Shr(x, t)
      invariant exp < 0 ==> e == exp && t == 0
    {
      ShrSucc(x, t);
      if e % 2 == 1 {
        Multiply(result, matrix);
        PowAdd(m0, low, pow);
        low := low + pow;
      }
      Multiply(matrix, matrix);
      PowAdd(m0, pow, pow);
      pow := pow + pow;
      t := t + 1;
      e := e / 2;
    }
    if exp >= 0 {
      LowAll(x, t);
    }
    CopyInto(result, matrix);
  }

  /** The closing arraycopy loop: each row of src into the same row of dst. */
  method CopyInto(src: array2<int>, dst: array2<int>)
    requires src.Length0 == 2 && src.Length1 == 2 && dst.Length0 == 2 && dst.Length1 == 2
    requires src != dst
    modifies dst
    ensures Val(dst) == Val(src)
  {
    for i := 0 to 2
      invariant forall k, j :: 0 <= k < i && 0 <= j < 2 ==> dst[k, j] == src[k, j]
    {
      dst[i, 0] := src[i, 0];
      dst[i, 1] := src[i, 1];
    }
  }

  /** matrixPowerFib: the top-left entry of Q^(n-1) with the exponent n-1
      computed in int. For a negative n above Integer.MIN_VALUE the exponent
      is negative and the identity's 1 is returned; for Integer.MIN_VALUE
      it wraps to Integer.MAX_VALUE, giving F(2^31). */
  method MatrixPowerFib(n: int) returns (r: int)
    requires IsInt(n)
    ensures n >= 0 ==> r == Fib(n)
    ensures IntMin < n < 0 ==> r == 1
    ensures n == IntMin ==> r == Fib(IntMax + 1)
  {
    if n == 0 {
      return 0;
    }
    var matrix := new int[2, 2];
    matrix[0, 0], matrix[0, 1], matrix[1, 0], matrix[1, 1] := 1, 1, 1, 0;
    assert Val(matrix) == Mat(1, 1, 1, 0);
    var exp := Wrap(n - 1);
    assert n == IntMin ==> exp == IntMax;
    MatrixToPower(matrix, exp);
    if exp >= 0 {
      ghost var k: nat := exp;
      assert Val(matrix) == MatPow(Mat(1, 1, 1, 0), k);
      QPower(k);
      assert matrix[0, 0] == QK(k).a == Fib(k + 1);
    }
    r := matrix[0, 0];
  }

  // ---------------------------------------------------------------------
  // Doubling

  /** Q^k with its entries written as Fibonacci numbers. */
  function QK(k: nat): Mat {
    Mat(Fib(k + 1), Fib(k), Fib(k), if k == 0 then 1 else Fib(k - 1))
  }

  /** Q^(2k) = Q^k Q^k, in Fibonacci entries. */
  lemma QKSquare(k: nat)
    ensures Mul(QK(k), QK(k)) == QK(k + k)
  {
    QPower(k);
    QPower(k + k);
    PowAdd(Mat(1, 1, 1, 0), k, k);
  }

  /** The doubling identities F(2k) = F(k)(2F(k+1) - F(k)) and
      F(2k+1) = F(k)^2 + F(k+1)^2, read off Q^(2k) = Q^k Q^k. */
  lemma FibDoubling(k: nat)
    ensures Fib(2 * k) == Fib(k) * (2 * Fib(k + 1) - Fib(k))
    ensures Fib(2 * k + 1) == Fib(k) * Fib(k) + Fib(k + 1) * Fib(k + 1)
  {
    QKSquare(k);
    var q, q2 := QK(k), QK(k + k);
    assert q.b == Fib(k) && q.a == Fib(k + 1);
    assert q.a == q.b + q.d || q.b == 0;
    assert k + k == 2 * k && k + k + 1 == 2 * k + 1;
    SquareAlgebra(q.b, q.a, q.d, q2.b, q2.a, q2.d);
    MulCong(q.b, 2 * q.a - q.b, Fib(k), 2 * Fib(k + 1) - Fib(k));
  }

  /** The entries of [[f1, f0], [f0, fm]]^2 when f1 = f0 + fm. */
  lemma SquareAlgebra(f0: int, f1: int, fm: int, g0: int, g1: int, gm: int)
    requires f1 == f0 + fm || f0 == 0
    requires Mul(Mat(f1, f0, f0, fm), Mat(f1, f0, f0, fm)) == Mat(g1, g0, g0, gm)
    ensures g0 == f0 * (2 * f1 - f0) && g1 == f0 * f0 + f1 * f1
  {
    MulEntries(Mat(f1, f0, f0, fm), Mat(f1, f0, f0, fm));
    if f0 != 0 {
      assert f1 * f0 + f0 * fm == f0 * (f1 + fm);
    }
  }

  lemma MulCong(a: int, b: int, a': int, b': int)
    requires a == a' && b == b'
    ensures a * b == a' * b'
  {
  }

  /** fastDoublingFib: returns (F(n), F(n+1)). For a negative n, `n >> 1`
      never reaches 0 and the Java recursion does not terminate, hence the
      precondition. */
  function FastDoublingFib(n: int): (r: (int, int))
    requires n >= 0
    ensures r == (Fib(n), Fib(n + 1))
  {
    if n == 0 then (0, 1)
    else
      var p := FastDoublingFib(n / 2);
      var a, b := p.0, p.1;
      var c := a * (2 * b - a);
      var d := a * a + b * b;
      DoublingStep(n, a, b);
      if n % 2 == 1 then (d, c + d) else (c, d)
  }

  /** fastDoublingFibHelper: the first component of fastDoublingFib. */
  function FastDoublingFibHelper(n: int): (r: int)
    requires n >= 0
    ensures r == Fib(n)
  {
    FastDoublingFib(n).0
  }

  /** `(n & (1 << i)) != 0` for a 32-bit int n and 0 <= i < 32: bit i of the
      two's complement representation, i.e. of n + 2^32 when n is negative. */
  predicate BitSet(n: int, i: nat)
    requires -0x8000_0000 <= n < 0x8000_0000
  {
    var u := if n >= 0 then n else n + 0x1_0000_0000;
    Shr(u, i) % 2 == 1
  }

  /** One round of the doubling loop: from F(m/2) and F(m/2 + 1), the
      pair for m, choosing by the lowest bit of m. */
  lemma DoublingStep(m: nat, a: int, b: int)
    requires a == Fib(m / 2) && b == Fib(m / 2 + 1)
    ensures m % 2 == 1 ==> a * a + b * b == Fib(m) && a * (2 * b - a) + (a * a + b * b) == Fib(m + 1)
    ensures m % 2 == 0 ==> a * (2 * b - a) == Fib(m) && a * a + b * b == Fib(m + 1)
  {
    var k := m / 2;
    FibDoubling(k);
    if m % 2 == 1 {
      assert m == 2 * k + 1 && m + 1 == 2 * k + 2;
      assert Fib(2 * k + 2) == Fib(2 * k + 1) + Fib(2 * k);
    } else {
      assert m == 2 * k && m + 1 == 2 * k + 1;
    }
  }

  /** bitwiseDoublingFib: scans bits 31..0 of the 32-bit int n. Bit i is set
      when `(n & (1 << i)) != 0`; for a negative n these are the bits of
      n + 2^32 (two's complement), bit 31 included. */
  method BitwiseDoublingFib(n: int) returns (r: int)
    requires -0x8000_0000 <= n < 0x8000_0000
    ensures n >= 0 ==> r == Fib(n)
    ensures n < 0 ==> r == Fib(n + 0x1_0000_0000)
  {
    ghost var u: nat := if n >= 0 then n else n + 0x1_0000_0000;
    Pow2Of32();
    ShrBelow(u, 32);
    var a, b := 0, 1;
    var i := 31;
    while i >= 0
      invariant -1 <= i <= 31
      invariant a == Fib(Shr(u, i + 1)) && b == Fib(Shr(u, i + 1) + 1)
    {
      ShrSucc(u, i);
      DoublingStep(Shr(u, i), a, b);
      var temp1 := a * (2 * b - a);
      var temp2 := a * a + b * b;
      if BitSet(n, i) {
        a := temp2;
        b := temp1 + temp2;
      } else {
        a := temp1;
        b := temp2;
      }
      i := i - 1;
    }
    r := a;
  }
}
