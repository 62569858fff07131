/**
 * The lattice repeat shared by `Batom.repeat` and `Batoms.__imul__`: the
 * multiplicity check against the cell, `np.tile` of per-atom arrays, and the
 * translation of block (m0, m1, m2) by m0·a + m1·b + m2·c, the blocks
 * laid out by three nested loops with m0 outermost and m2 innermost.
 */
module Lattice {
  import opened Wrappers
  import opened Geometry

  /** `m` as the caller gives it: one int for every axis, or one per axis. */
  datatype Multiplicity = Uniform(m: nat) | PerAxis(mx: nat, my: nat, mz: nat)

  /** Repeat counts, or a block's position in the repeated lattice. */
  datatype Triple = Triple(x: nat, y: nat, z: nat)

  /** `if isinstance(m, int): m = (m, m, m)`. */
  function Counts(m: Multiplicity): Triple {
    match m
    case Uniform(k) => Triple(k, k, k)
    case PerAxis(x, y, z) => Triple(x, y, z)
  }

  function Axis(t: Triple, k: int): nat
    requires 0 <= k < 3
  {
    if k == 0 then t.x else if k == 1 then t.y else t.z
  }

  function Vector(cell: Cell, k: int): Vec3
    requires 0 <= k < 3
  {
    if k == 0 then cell.a else if k == 1 then cell.b else cell.c
  }

  /** The validation loop `for x, vec in zip(m, cell)` from axis k on. */
  function CheckAxesFrom(t: Triple, cell: Cell, k: nat): (ok: bool)
    requires k <= 3
    ensures ok <==> forall j :: k <= j < 3 ==> Axis(t, j) == 1 || !IsZero(Vector(cell, j))
    decreases 3 - k
  {
    if k == 3 then true
    else if Axis(t, k) != 1 && IsZero(Vector(cell, k)) then false
    else CheckAxesFrom(t, cell, k + 1)
  }

  /**
   * The multiplicity normalisation and check of `repeat`: fails exactly when
   * some axis is repeated other than once along an all-zero lattice vector.
   */
  function CheckRepeat(m: Multiplicity, cell: Cell): (r: Result<Triple>)
    ensures r.Err? <==> exists k :: 0 <= k < 3 && Axis(Counts(m), k) != 1 && IsZero(Vector(cell, k))
    ensures r.Err? ==> r.error == UndefinedLattice
    ensures r.Ok? ==> r.value == Counts(m)
    ensures m.Uniform? && r.Ok? ==> r.value.x == r.value.y == r.value.z == m.m
  {
    var t := Counts(m);
    if CheckAxesFrom(t, cell, 0) then Ok(t) else Err(UndefinedLattice)
  }


  // ---------------------------------------------------------------------------
  // Index arithmetic. Products of loop counters are written with Mul, a
  // product by repeated addition, so that the proofs about block positions
  // stay within linear arithmetic; MulIsProduct ties it to `*`.
  // ---------------------------------------------------------------------------

  function Mul(a: nat, b: nat): nat {
    if a == 0 then 0 else Mul(a - 1, b) + b
  }

  lemma {:induction false} MulIsProduct(a: nat, b: nat)
    ensures Mul(a, b) == a * b
  {
    if a > 0 {
      MulIsProduct(a - 1, b);
      assert (a - 1) * b + b == a * b;
    }
  }

  lemma {:induction false} MulAddLeft(a: nat, c: nat, b: nat)
    ensures Mul(a + c, b) == Mul(a, b) + Mul(c, b)
  {
    if c > 0 {
      MulAddLeft(a, c - 1, b);
    }
  }

  lemma {:induction false} MulAssoc(a: nat, b: nat, c: nat)
    ensures Mul(Mul(a, b), c) == Mul(a, Mul(b, c))
  {
    if a > 0 {
      MulAssoc(a - 1, b, c);
      MulAddLeft(Mul(a - 1, b), b, c);
    }
  }

  /** Row i of block k lies before the end of K blocks of n rows. */
  lemma BlockBound(k: nat, K: nat, n: nat, i: nat)
    requires k < K && i < n
    ensures Mul(k, n) + i < Mul(K, n)
  {
    MulAddLeft(k + 1, K - k - 1, n);
  }

  lemma MulAtLeast(d: int, n: int)
    requires d >= 1 && n > 0
    ensures d * n >= n
  {
    assert d * n == (d - 1) * n + n;
    assert (d - 1) * n >= 0;
  }

  /** Euclidean division recovers the block q and row r of index q·n + r. */
  lemma DivModUnique(j: int, n: int, q: int, r: int)
    requires n > 0 && 0 <= r < n && j == q * n + r
    ensures j / n == q && j % n == r
  {
    var q', r' := j / n, j % n;
    assert j == q' * n + r';
    assert (q - q') * n == r' - r;
    if q > q' {
      MulAtLeast(q - q', n);
    } else if q < q' {
      MulAtLeast(q' - q, n);
    }
  }

  // ---------------------------------------------------------------------------
  // np.tile along the first axis.
  // ---------------------------------------------------------------------------

  /** `np.tile(s, (c,) + (1,)*...)`: c copies of s, one after the other. */
  function Tile<T>(s: seq<T>, c: nat): (r: seq<T>)
    ensures |r| == Mul(c, |s|)
  {
    if c == 0 then [] else Tile(s, c - 1) + s
  }

  lemma {:induction false} TileAtBlock<T>(s: seq<T>, c: nat, k: nat, i: nat)
    requires k < c && i < |s|
    ensures Mul(k, |s|) + i < |Tile(s, c)|
    ensures Tile(s, c)[Mul(k, |s|) + i] == s[i]
  {
    BlockBound(k, c, |s|, i);
    if k < c - 1 {
      BlockBound(k, c - 1, |s|, i);
      TileAtBlock(s, c - 1, k, i);
    }
  }

  /** The tile holds c·|s| entries, row i of copy k being row i of the original. */
  lemma TileAt<T>(s: seq<T>, c: nat, k: nat, i: nat)
    requires k < c && i < |s|
    ensures |Tile(s, c)| == c * |s|
    ensures k * |s| + i < |Tile(s, c)| && Tile(s, c)[k * |s| + i] == s[i]
  {
    MulIsProduct(c, |s|);
    MulIsProduct(k, |s|);
    TileAtBlock(s, c, k, i);
  }

  /** `np.tile` of a per-atom array: new atom j carries the value of atom j mod n. */
  lemma TileRepeats<T>(s: seq<T>, c: nat, j: nat)
    requires j < |Tile(s, c)|
    ensures |s| > 0 && Tile(s, c)[j] == s[j % |s|]
  {
    var n := |s|;
    MulIsProduct(c, n);
    var k, i := j / n, j % n;
    assert j == k * n + i;
    MulIsProduct(k, n);
    if c <= k {
      MulAddLeft(c, k - c, n);
    }
    TileAtBlock(s, c, k, i);
  }

  // ---------------------------------------------------------------------------
  // Block order of the nested loops.
  // ---------------------------------------------------------------------------

  /** `for m2 in range(mz)` with m0, m1 fixed. */
  function Inner(m0: nat, m1: nat, mz: nat): (r: seq<Triple>)
    ensures |r| == mz
  {
    seq(mz, m2 requires 0 <= m2 < mz => Triple(m0, m1, m2))
  }

  /** `for m1 in range(my): for m2 in range(mz)` with m0 fixed. */
  function Middle(m0: nat, my: nat, mz: nat): (r: seq<Triple>)
    ensures |r| == Mul(my, mz)
  {
    if my == 0 then [] else Middle(m0, my - 1, mz) + Inner(m0, my - 1, mz)
  }

  /** All three loops: the block visited at each iteration, in order. */
  function Outer(mx: nat, my: nat, mz: nat): (r: seq<Triple>)
    ensures |r| == Mul(mx, Mul(my, mz))
  {
    if mx == 0 then [] else Outer(mx - 1, my, mz) + Middle(mx - 1, my, mz)
  }

  /** `M = np.product(m)`, the number of blocks. */
  function Copies(t: Triple): nat {
    Mul(t.x, Mul(t.y, t.z))
  }

  function BlockOrder(t: Triple): (r: seq<Triple>)
    ensures |r| == Copies(t)
  {
    Outer(t.x, t.y, t.z)
  }

  /** The iteration at which the loops visit block (m0, m1, m2). */
  function BlockIndex(t: Triple, m0: nat, m1: nat, m2: nat): nat {
    Mul(Mul(m0, t.y) + m1, t.z) + m2
  }

  lemma {:induction false} MiddleAt(m0: nat, my: nat, mz: nat, m1: nat, m2: nat)
    requires m1 < my && m2 < mz
    ensures Mul(m1, mz) + m2 < |Middle(m0, my, mz)|
    ensures Middle(m0, my, mz)[Mul(m1, mz) + m2] == Triple(m0, m1, m2)
  {
    BlockBound(m1, my, mz, m2);
    if m1 < my - 1 {
      BlockBound(m1, my - 1, mz, m2);
      MiddleAt(m0, my - 1, mz, m1, m2);
    }
  }

  lemma {:induction false} OuterAt(mx: nat, my: nat, mz: nat, m0: nat, m1: nat, m2: nat)
    requires m0 < mx && m1 < my && m2 < mz
    ensures Mul(m0, Mul(my, mz)) + (Mul(m1, mz) + m2) < |Outer(mx, my, mz)|
    ensures Outer(mx, my, mz)[Mul(m0, Mul(my, mz)) + (Mul(m1, mz) + m2)] == Triple(m0, m1, m2)
  {
    var w := Mul(m1, mz) + m2;
    MiddleAt(m0, my, mz, m1, m2);
    BlockBound(m0, mx, Mul(my, mz), w);
    if m0 < mx - 1 {
      BlockBound(m0, mx - 1, Mul(my, mz), w);
      OuterAt(mx - 1, my, mz, m0, m1, m2);
    }
  }

  lemma BlockIndexSplit(t: Triple, m0: nat, m1: nat, m2: nat)
    ensures BlockIndex(t, m0, m1, m2) == Mul(m0, Mul(t.y, t.z)) + (Mul(m1, t.z) + m2)
  {
    MulAddLeft(Mul(m0, t.y), m1, t.z);
    MulAssoc(m0, t.y, t.z);
  }

  /** The loops visit block (m0, m1, m2) at iteration BlockIndex(t, m0, m1, m2). */
  lemma BlockOrderAt(t: Triple, m0: nat, m1: nat, m2: nat)
    requires m0 < t.x && m1 < t.y && m2 < t.z
    ensures BlockIndex(t, m0, m1, m2) < |BlockOrder(t)|
    ensures BlockOrder(t)[BlockIndex(t, m0, m1, m2)] == Triple(m0, m1, m2)
  {
    BlockIndexSplit(t, m0, m1, m2);
    OuterAt(t.x, t.y, t.z, m0, m1, m2);
  }

  /** There are mx·my·mz blocks, and block (m0, m1, m2) comes at iteration (m0·my + m1)·mz + m2. */
  lemma BlockCountAndIndex(t: Triple, m0: nat, m1: nat, m2: nat)
    ensures Copies(t) == t.x * t.y * t.z
    ensures BlockIndex(t, m0, m1, m2) == (m0 * t.y + m1) * t.z + m2
  {
    MulIsProduct(t.y, t.z);
    MulIsProduct(t.x, t.y * t.z);
    assert t.x * (t.y * t.z) == t.x * t.y * t.z;
    MulIsProduct(m0, t.y);
    MulIsProduct(m0 * t.y + m1, t.z);
  }

  /** Every block the loops visit lies inside the repeat counts. */
  lemma {:induction false} OuterInRange(mx: nat, my: nat, mz: nat)
    ensures forall q :: 0 <= q < |Outer(mx, my, mz)| ==>
      var b := Outer(mx, my, mz)[q]; b.x < mx && b.y < my && b.z < mz
  {
    if mx > 0 {
      OuterInRange(mx - 1, my, mz);
      MiddleInRange(mx - 1, my, mz);
    }
  }

  lemma {:induction false} MiddleInRange(m0: nat, my: nat, mz: nat)
    ensures forall q :: 0 <= q < |Middle(m0, my, mz)| ==>
      var b := Middle(m0, my, mz)[q]; b.x == m0 && b.y < my && b.z < mz
  {
    if my > 0 {
      MiddleInRange(m0, my - 1, mz);
    }
  }

  // ---------------------------------------------------------------------------
  // Translation of the tiled blocks.
  // ---------------------------------------------------------------------------

  /** `np.dot((m0, m1, m2), cell)`. */
  function Offset(cell: Cell, b: Triple): Vec3 {
    Add(Add(Times(b.x, cell.a), Times(b.y, cell.b)), Times(b.z, cell.c))
  }

  /** The offset of every block, in the order the loops visit them. */
  function Offsets(order: seq<Triple>, cell: Cell): (r: seq<Vec3>)
    ensures |r| == |order|
  {
    seq(|order|, k requires 0 <= k < |order| => Offset(cell, order[k]))
  }

  /** One block: every row moved by the same offset. */
  function Translate(p: seq<Vec3>, o: Vec3): (r: seq<Vec3>)
    ensures |r| == |p|
  {
    seq(|p|, i requires 0 <= i < |p| => Add(p[i], o))
  }

  /**
   * `np.tile` followed by the translation loop `positions[i0:i1] += offset`:
   * consecutive blocks of |p| rows, the k-th a copy of p moved by the k-th
   * offset.
   */
  function TranslatedCopies(p: seq<Vec3>, offsets: seq<Vec3>): (r: seq<Vec3>)
    ensures |r| == Mul(|offsets|, |p|)
  {
    if |offsets| == 0 then [] else Translate(p, offsets[0]) + TranslatedCopies(p, offsets[1..])
  }

  /** Row i of block k is row i of p moved by the k-th offset. */
  lemma {:induction false} TranslatedCopiesAt(p: seq<Vec3>, offsets: seq<Vec3>, k: nat, i: nat)
    requires k < |offsets| && i < |p|
    ensures Mul(k, |p|) + i < |TranslatedCopies(p, offsets)|
    ensures TranslatedCopies(p, offsets)[Mul(k, |p|) + i] == Add(p[i], offsets[k])
  {
    BlockBound(k, |offsets|, |p|, i);
    if k > 0 {
      TranslatedCopiesAt(p, offsets[1..], k - 1, i);
    }
  }

  /** The translated copies are the tiled rows, each moved by its block's offset. */
  lemma TranslatedCopiesAreShiftedTile(p: seq<Vec3>, offsets: seq<Vec3>, k: nat, i: nat)
    requires k < |offsets| && i < |p|
    ensures Mul(k, |p|) + i < |Tile(p, |offsets|)|
    ensures TranslatedCopies(p, offsets)[Mul(k, |p|) + i] == Add(Tile(p, |offsets|)[Mul(k, |p|) + i], offsets[k])
  {
    TileAtBlock(p, |offsets|, k, i);
    TranslatedCopiesAt(p, offsets, k, i);
  }

  /** The positions a repeat produces before any are added to the mesh. */
  function RepeatPositions(p: seq<Vec3>, t: Triple, cell: Cell): (r: seq<Vec3>)
    ensures |r| == Mul(Copies(t), |p|)
  {
    TranslatedCopies(p, Offsets(BlockOrder(t), cell))
  }

  /** Row i of the q-th block visited is original row i moved by that block's offset. */
  lemma RepeatRow(p: seq<Vec3>, t: Triple, cell: Cell, q: nat, i: nat)
    requires q < Copies(t) && i < |p|
    ensures Mul(q, |p|) + i < |RepeatPositions(p, t, cell)|
    ensures RepeatPositions(p, t, cell)[Mul(q, |p|) + i] == Add(p[i], Offset(cell, BlockOrder(t)[q]))
  {
    TranslatedCopiesAt(p, Offsets(BlockOrder(t), cell), q, i);
  }

  /**
   * Row i of block (m0, m1, m2) of the repeated positions — row
   * BlockIndex·n + i, where BlockIndex = (m0·my + m1)·mz + m2 — is original
   * row i translated by m0·a + m1·b + m2·c.
   */
  lemma RepeatBlock(p: seq<Vec3>, t: Triple, cell: Cell, m0: nat, m1: nat, m2: nat, i: nat)
    requires m0 < t.x && m1 < t.y && m2 < t.z && i < |p|
    ensures Mul(BlockIndex(t, m0, m1, m2), |p|) + i < |RepeatPositions(p, t, cell)|
    ensures RepeatPositions(p, t, cell)[Mul(BlockIndex(t, m0, m1, m2), |p|) + i] ==
      Add(p[i], Offset(cell, Triple(m0, m1, m2)))
  {
    var q := BlockIndex(t, m0, m1, m2);
    BlockOrderAt(t, m0, m1, m2);
    RepeatRow(p, t, cell, q, i);
  }

  /** Block 0 is the original positions, unmoved. */
  lemma RepeatKeepsFirstBlock(p: seq<Vec3>, t: Triple, cell: Cell)
    requires t.x >= 1 && t.y >= 1 && t.z >= 1
    ensures |p| <= |RepeatPositions(p, t, cell)|
    ensures RepeatPositions(p, t, cell)[..|p|] == p
  {
    var r := RepeatPositions(p, t, cell);
    forall i | 0 <= i < |p|
      ensures i < |r| && r[i] == p[i]
    {
      RepeatBlock(p, t, cell, 0, 0, 0, i);
    }
    if |p| > 0 {
      RepeatBlock(p, t, cell, 0, 0, 0, |p| - 1);
    }
  }
}
