// Model of lab07/transpose.c: transposing an n*n int matrix stored row-major
// in a flat buffer, element by element and in blocksize*blocksize tiles.
module Transpose {
  import Arith

  /** Offset of element (row, col) in a flat row-major n*n buffer (`col + row * n`
      in the C code). The offset stays inside the buffer and gives back its row
      and column, so distinct cells never share an offset. */
  function Cell(n: nat, row: nat, col: nat): (k: nat)
    requires row < n && col < n
    ensures k < n * n
    ensures k / n == row && k % n == col
  {
    Arith.DivModOf(n, row, col);
    Arith.MulMono(row + 1, n, n);
    col + row * n
  }

  /** Every offset inside the buffer is the offset of exactly the cell its quotient and remainder name. */
  lemma CellOfOffset(n: nat, k: nat)
    requires k < n * n
    ensures 0 < n && k / n < n && k % n < n && Cell(n, k / n, k % n) == k
  {
    assert 0 < n;
    if n <= k / n {
      Arith.MulMono(n, k / n, n);
    }
  }

  /** The transpose of the n*n matrix s: cell (r, c) of the result holds cell (c, r) of s. */
  function Transposed(n: nat, s: seq<int>): (t: seq<int>)
    requires |s| == n * n
    ensures |t| == n * n
    ensures forall r, c :: 0 <= r < n && 0 <= c < n ==> t[Cell(n, r, c)] == s[Cell(n, c, r)]
  {
    seq(n * n, k requires 0 <= k < n * n => CellOfOffset(n, k); s[Cell(n, k % n, k / n)])
  }

  /** The transpose relation fixes every cell: a buffer that holds cell (c, r) of s
      at every cell (r, c) is the transpose of s. */
  lemma TransposedFromCells(n: nat, d: seq<int>, s: seq<int>)
    requires |d| == n * n && |s| == n * n
    requires forall r, c :: 0 <= r < n && 0 <= c < n ==> d[Cell(n, r, c)] == s[Cell(n, c, r)]
    ensures d == Transposed(n, s)
  {
    var t := Transposed(n, s);
    forall k | 0 <= k < n * n
      ensures d[k] == t[k]
    {
      SameAtOffset(n, d, t, s, k);
    }
  }

  /** Two buffers that both hold cell (c, r) of s at every cell (r, c) agree at offset k. */
  lemma SameAtOffset(n: nat, d: seq<int>, t: seq<int>, s: seq<int>, k: nat)
    requires |d| == n * n && |t| == n * n && |s| == n * n && k < n * n
    requires forall r, c :: 0 <= r < n && 0 <= c < n ==> d[Cell(n, r, c)] == s[Cell(n, c, r)]
    requires forall r, c :: 0 <= r < n && 0 <= c < n ==> t[Cell(n, r, c)] == s[Cell(n, c, r)]
    ensures d[k] == t[k]
  {
    CellOfOffset(n, k);
    assert d[Cell(n, k / n, k % n)] == t[Cell(n, k / n, k % n)];
  }

  /** Transposing twice gives back the original matrix. */
  lemma TransposedTwice(n: nat, s: seq<int>)
    requires |s| == n * n
    ensures Transposed(n, Transposed(n, s)) == s
  {
    var t := Transposed(n, s);
    forall r, c | 0 <= r < n && 0 <= c < n
      ensures s[Cell(n, r, c)] == t[Cell(n, c, r)]
    {
    }
    TransposedFromCells(n, s, t);
  }

  /** transpose_naive: for every x and y, `dst[y + x*n] = src[x + y*n]`.
      `blocksize` is part of the C signature and unused. */
  method TransposeNaive(n: nat, blocksize: int, dst: array<int>, src: array<int>)
    requires dst != src
    requires dst.Length == n * n && src.Length == n * n
    modifies dst
    ensures dst[..] == Transposed(n, src[..])
  {
    for x := 0 to n
      invariant forall r, c :: 0 <= r < x && 0 <= c < n ==> dst[Cell(n, r, c)] == src[Cell(n, c, r)]
    {
      for y := 0 to n
        invariant forall r, c :: 0 <= r < n && 0 <= c < n && (r < x || (r == x && c < y)) ==>
                    dst[Cell(n, r, c)] == src[Cell(n, c, r)]
      {
        dst[Cell(n, x, y)] := src[Cell(n, y, x)];
      }
    }
    TransposedFromCells(n, dst[..], src[..]);
  }

  /** The cells (r, c) that the tile loops have finished when they stand at tile
      (x, y), row i, column j: all tile rows above x, the tiles of row x left of
      y, the rows of tile (x, y) above i, and the columns of row i left of j. */
  ghost predicate Finished(b: nat, x: int, y: int, i: int, j: int, r: int, c: int)
  {
    r < x || (r < x + b && c < y) || (x <= r < i && y <= c < y + b) || (r == i && y <= c < j)
  }

  /** transpose_blocking with the bounds check `i >= n || j >= n`: tiles of
      blocksize*blocksize cells, partial tiles at the right and bottom edges
      clipped by the check. `writes` counts the stores made to every cell. */
  method TransposeBlocking(n: nat, blocksize: int, dst: array<int>, src: array<int>)
    returns (ghost writes: seq<nat>)
    requires blocksize >= 1
    requires dst != src
    requires dst.Length == n * n && src.Length == n * n
    modifies dst
    ensures dst[..] == Transposed(n, src[..])
    ensures |writes| == n * n && forall k :: 0 <= k < n * n ==> writes[k] == 1
  {
    var b := blocksize;
    writes := seq(n * n, _ => 0);
    var x := 0;
    while x < n
      invariant 0 <= x && |writes| == n * n
      invariant forall r, c :: 0 <= r < n && 0 <= c < n ==>
                  (Finished(b, x, 0, x, 0, r, c) ==> dst[Cell(n, r, c)] == src[Cell(n, c, r)]) &&
                  writes[Cell(n, r, c)] == if Finished(b, x, 0, x, 0, r, c) then 1 else 0
      decreases n - x
    {
      var y := 0;
      while y < n
        invariant 0 <= y && |writes| == n * n
        invariant forall r, c :: 0 <= r < n && 0 <= c < n ==>
                    (Finished(b, x, y, x, y, r, c) ==> dst[Cell(n, r, c)] == src[Cell(n, c, r)]) &&
                    writes[Cell(n, r, c)] == if Finished(b, x, y, x, y, r, c) then 1 else 0
        decreases n - y
      {
        for i := x to x + b
          invariant |writes| == n * n
          invariant forall r, c :: 0 <= r < n && 0 <= c < n ==>
                      (Finished(b, x, y, i, y, r, c) ==> dst[Cell(n, r, c)] == src[Cell(n, c, r)]) &&
                      writes[Cell(n, r, c)] == if Finished(b, x, y, i, y, r, c) then 1 else 0
        {
          for j := y to y + b
            invariant |writes| == n * n
            invariant forall r, c :: 0 <= r < n && 0 <= c < n ==>
                        (Finished(b, x, y, i, j, r, c) ==> dst[Cell(n, r, c)] == src[Cell(n, c, r)]) &&
                        writes[Cell(n, r, c)] == if Finished(b, x, y, i, j, r, c) then 1 else 0
          {
            if i >= n || j >= n {
              continue;
            }
            dst[Cell(n, i, j)] := src[Cell(n, j, i)];
            writes := writes[Cell(n, i, j) := writes[Cell(n, i, j)] + 1];
          }
        }
        y := y + b;
      }
      x := x + b;
    }
    TransposedFromCells(n, dst[..], src[..]);
    forall k | 0 <= k < n * n
      ensures writes[k] == 1
    {
      CellOfOffset(n, k);
    }
  }

  /** transpose_blocking exactly as written, with the bounds check `i > n || j > n`.
      The check lets i == n and j == n through, so the stores stay inside the
      buffers only when no tile sticks out past n, that is when blocksize divides
      n (see AsWrittenInBoundsIff); this method is the as-written code under
      that condition. */
  method TransposeBlockingAsWritten(n: nat, blocksize: int, dst: array<int>, src: array<int>)
    requires blocksize >= 1 && n % blocksize == 0
    requires dst != src
    requires dst.Length == n * n && src.Length == n * n
    modifies dst
    ensures dst[..] == Transposed(n, src[..])
  {
    var b := blocksize;
    var x := 0;
    while x < n
      invariant 0 <= x && x % b == 0
      invariant forall r, c :: 0 <= r < n && 0 <= c < n && Finished(b, x, 0, x, 0, r, c) ==>
                  dst[Cell(n, r, c)] == src[Cell(n, c, r)]
      decreases n - x
    {
      Arith.NextMultiple(b, x, n);
      var y := 0;
      while y < n
        invariant 0 <= y && y % b == 0
        invariant forall r, c :: 0 <= r < n && 0 <= c < n && Finished(b, x, y, x, y, r, c) ==>
                    dst[Cell(n, r, c)] == src[Cell(n, c, r)]
        decreases n - y
      {
        Arith.NextMultiple(b, y, n);
        for i := x to x + b
          invariant forall r, c :: 0 <= r < n && 0 <= c < n && Finished(b, x, y, i, y, r, c) ==>
                      dst[Cell(n, r, c)] == src[Cell(n, c, r)]
        {
          for j := y to y + b
            invariant forall r, c :: 0 <= r < n && 0 <= c < n && Finished(b, x, y, i, j, r, c) ==>
                        dst[Cell(n, r, c)] == src[Cell(n, c, r)]
          {
            if i > n || j > n {
              continue;
            }
            dst[Cell(n, i, j)] := src[Cell(n, j, i)];
          }
        }
        Arith.StepMultiple(b, y);
        y := y + b;
      }
      Arith.StepMultiple(b, x);
      x := x + b;
    }
    TransposedFromCells(n, dst[..], src[..]);
  }

  /** The tile loops (x, then y, stepping by b from 0 while below n, and i or j
      running over the b positions of the tile) reach position p exactly when
      the tile holding p starts below n. */
  ghost predicate Reached(n: nat, b: nat, p: int)
    requires b >= 1
  {
    0 <= p && (p / b) * b < n
  }

  /** x is one of the tile starts the x (or y) loop takes: a multiple of b below n. */
  predicate TileStart(n: nat, b: nat, x: int)
    requires b >= 1
  {
    0 <= x < n && x % b == 0
  }

  /** Reached is the closed form of the loops: p is reached exactly when some
      tile start x has p among the positions x, ..., x + b - 1. */
  lemma ReachedIffInTile(n: nat, b: nat, p: int)
    requires b >= 1
    ensures Reached(n, b, p) <==> exists x :: TileStart(n, b, x) && x <= p < x + b
  {
    if Reached(n, b, p) {
      var q := p / b;
      var x := q * b;
      Arith.DivModOf(b, q, 0);
      Arith.MulMono(0, q, b);
      assert p == x + p % b;
      assert TileStart(n, b, x) && x <= p < x + b;
    }
    if x :| TileStart(n, b, x) && x <= p < x + b {
      var q := x / b;
      assert x == q * b + x % b;
      assert p == q * b + (p - x);
      Arith.DivModOf(b, q, p - x);
      assert p / b == q;
    }
  }

  /** The bounds check as written at lab07/transpose.c:28: position (i, j) is stored unless it is past n. */
  predicate AsWrittenAdmits(n: nat, i: int, j: int)
  {
    !(i > n || j > n)
  }

  /** The two stores of position (i, j), `dst[j + i*n]` and `src[i + j*n]`, lie inside the n*n buffers. */
  predicate AccessesInBounds(n: nat, i: int, j: int)
  {
    0 <= j + i * n < n * n && 0 <= i + j * n < n * n
  }

  /** With the check as written, every position the tile loops reach and the
      check admits is inside the buffers exactly when blocksize divides n. */
  lemma AsWrittenInBoundsIff(n: nat, b: nat)
    requires b >= 1
    ensures (forall i, j :: Reached(n, b, i) && Reached(n, b, j) && AsWrittenAdmits(n, i, j) ==>
               AccessesInBounds(n, i, j))
            <==> n % b == 0
  {
    if n % b == 0 {
      forall i, j | Reached(n, b, i) && Reached(n, b, j) && AsWrittenAdmits(n, i, j)
        ensures AccessesInBounds(n, i, j)
      {
        TileEndsByN(n, b, i);
        TileEndsByN(n, b, j);
        var _ := Cell(n, i, j);
        var _ := Cell(n, j, i);
      }
    } else {
      Arith.DivModOf(b, n / b, n % b);
      assert Reached(n, b, n) && Reached(n, b, 0) && AsWrittenAdmits(n, n, 0);
      assert !AccessesInBounds(n, n, 0);
    }
  }

  /** When blocksize divides n, every reached position is below n. */
  lemma TileEndsByN(n: nat, b: nat, p: int)
    requires b >= 1 && n % b == 0 && Reached(n, b, p)
    ensures p < n
  {
    var start := (p / b) * b;
    Arith.DivModOf(b, p / b, 0);
    Arith.NextMultiple(b, start, n);
  }

  /** Concrete overrun of the check as written: for n = 3 and blocksize = 2 the
      second tile row starts at x = 2 and runs i up to 3; the check admits
      (3, 0), whose store `dst[0 + 3*3]` is one past the 9-cell buffer. */
  lemma AsWrittenOverruns()
    ensures Reached(3, 2, 3) && Reached(3, 2, 0) && AsWrittenAdmits(3, 3, 0)
    ensures !AccessesInBounds(3, 3, 0)
  {
  }

  /** A blocksize of at least n gives a single tile: the loops reach exactly the positions of tile (0, 0). */
  lemma SingleTile(n: nat, b: nat)
    requires 1 <= n <= b
    ensures forall p :: Reached(n, b, p) <==> 0 <= p < b
  {
    forall p | 0 <= p
      ensures Reached(n, b, p) <==> p < b
    {
      if b <= p {
        Arith.MulMono(1, p / b, b);
      }
    }
  }

  /** Both C routines run on the same source into fresh buffers agree cell for
      cell, whatever the block size and whether or not it divides n. */
  method BlockingMatchesNaive(n: nat, blocksize: int, src: array<int>)
    returns (naive: seq<int>, blocked: seq<int>)
    requires blocksize >= 1 && src.Length == n * n
    ensures naive == blocked
    ensures naive == Transposed(n, src[..])
  {
    var dstNaive := new int[n * n];
    var dstBlocked := new int[n * n];
    TransposeNaive(n, blocksize, dstNaive, src);
    var _ := TransposeBlocking(n, blocksize, dstBlocked, src);
    naive, blocked := dstNaive[..], dstBlocked[..];
  }

  /** Transposing with tiles into a scratch buffer and back again restores the source. */
  method BlockingRoundTrip(n: nat, blocksize: int, src: array<int>) returns (back: seq<int>)
    requires blocksize >= 1 && src.Length == n * n
    ensures back == src[..]
  {
    var tmp := new int[n * n];
    var dst := new int[n * n];
    var _ := TransposeBlocking(n, blocksize, tmp, src);
    var _ := TransposeBlocking(n, blocksize, dst, tmp);
    TransposedTwice(n, src[..]);
    back := dst[..];
  }

  /** The 5*5 matrix holding 1, ..., 25 row by row, transposed with 2*2 tiles
      (tiles of 2, 2 and 1 along each side), comes out column by column. */
  method FiveByFiveInTwos() returns (r: seq<int>)
    ensures r == [1, 6, 11, 16, 21, 2, 7, 12, 17, 22, 3, 8, 13, 18, 23,
                  4, 9, 14, 19, 24, 5, 10, 15, 20, 25]
  {
    var src := new int[25];
    for k := 0 to 25
      invariant forall p :: 0 <= p < k ==> src[p] == p + 1
    {
      src[k] := k + 1;
    }
    var dst := new int[25];
    var _ := TransposeBlocking(5, 2, dst, src);
    var expected := [1, 6, 11, 16, 21, 2, 7, 12, 17, 22, 3, 8, 13, 18, 23,
                     4, 9, 14, 19, 24, 5, 10, 15, 20, 25];
    assert expected == seq(25, k requires 0 <= k < 25 => (k % 5) * 5 + k / 5 + 1);
    TransposedFromCells(5, expected, src[..]);
    r := dst[..];
  }
}
