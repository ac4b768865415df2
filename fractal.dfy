// The Julia-set bitmap of fractal.cpp: a DIM x DIM RGBA image whose pixel
// (x, y) occupies the four bytes starting at 4 * (x + y * DIM). The serial
// kernel paints every pixel row by row; four OpenMP kernels split the same
// work among T threads (cyclic rows, cyclic columns, row blocks, column
// blocks) and a fifth collapses both loops into one. Threads write disjoint
// pixels, so the model runs them one after another, thread 0 first.
module Fractal {

  const Dim := 768
  const Size := 4 * Dim * Dim
  const Iterations := 300

  /** An unsigned char of the bitmap. */
  newtype Byte = b: int | 0 <= b < 256

  /** `255 * juliaValue` stored into an unsigned char: reduced modulo 256. */
  function Red(juliaValue: int): (r: Byte)
    ensures juliaValue == 0 ==> r == 0
    ensures juliaValue == 1 ==> r == 255
  {
    ((255 * juliaValue) % 256) as Byte
  }

  /**
   * julia(x, y): iterate a := a * a + c up to 300 times and answer 0 as soon
   * as |a|^2 exceeds 1000, 1 if it never does. The floating-point arithmetic
   * is abstracted: escaped(i) says whether the test fails after update i.
   */
  method Julia(escaped: int -> bool) returns (r: int)
    ensures r == 0 || r == 1
    ensures r == 1 <==> forall i :: 0 <= i < Iterations ==> !escaped(i)
  {
    var i := 0;
    while i < Iterations
      invariant 0 <= i <= Iterations
      invariant forall k :: 0 <= k < i ==> !escaped(k)
    {
      if escaped(i) {
        return 0;
      }
      i := i + 1;
    }
    return 1;
  }

  /** The linear pixel index `offset = x + y * DIM`. */
  function Offset(x: int, y: int): int
  {
    x + y * Dim
  }

  predicate InImage(x: int, y: int)
  {
    0 <= x < Dim && 0 <= y < Dim
  }

  /** Distinct pixels own disjoint four-byte slots, all inside the bitmap. */
  lemma SlotsDisjoint(x: int, y: int, x': int, y': int)
    requires InImage(x, y) && InImage(x', y')
    ensures 0 <= 4 * Offset(x, y) && 4 * Offset(x, y) + 4 <= Size
    ensures (x, y) != (x', y') ==>
              4 * Offset(x, y) + 4 <= 4 * Offset(x', y') || 4 * Offset(x', y') + 4 <= 4 * Offset(x, y)
  {
    if y < y' {
      assert Offset(x, y) < (y + 1) * Dim <= y' * Dim <= Offset(x', y');
    } else if y' < y {
      assert Offset(x', y') < (y' + 1) * Dim <= y * Dim <= Offset(x, y);
    }
  }

  /** The four bytes a kernel writes for a pixel whose julia value is j. */
  function Pixel(j: int): seq<Byte>
  {
    [Red(j), 0, 0, 255]
  }

  /** The four bytes of pixel (x, y) in bitmap s. */
  function PixelAt(s: seq<Byte>, x: int, y: int): (r: seq<Byte>)
    requires |s| == Size && InImage(x, y)
    ensures |r| == 4
  {
    var o := 4 * Offset(x, y);
    [s[o], s[o + 1], s[o + 2], s[o + 3]]
  }

  /** Byte i of the image kernel_serial paints. */
  function ImageByte(julia: (int, int) -> int, i: int): Byte
    requires 0 <= i < Size
  {
    var p := i / 4;
    var c := i % 4;
    if c == 0 then Red(julia(p % Dim, p / Dim))
    else if c == 3 then 255
    else 0
  }

  /** The whole image kernel_serial paints. */
  function Image(julia: (int, int) -> int): (r: seq<Byte>)
    ensures |r| == Size
  {
    seq(Size, i requires 0 <= i < Size => ImageByte(julia, i))
  }

  /** Every pixel of Image holds its julia colour. */
  lemma ImagePixels(julia: (int, int) -> int, x: int, y: int)
    requires InImage(x, y)
    ensures PixelAt(Image(julia), x, y) == Pixel(julia(x, y))
  {
    var o := 4 * Offset(x, y);
    assert o / 4 == Offset(x, y) && Offset(x, y) % Dim == x && Offset(x, y) / Dim == y;
    assert (o + 1) / 4 == (o + 2) / 4 == (o + 3) / 4 == o / 4;
  }

  /** A bitmap whose every pixel holds its julia colour is the image. */
  lemma {:induction false} AllPainted(s: seq<Byte>, julia: (int, int) -> int)
    requires |s| == Size
    requires forall x, y :: InImage(x, y) ==> PixelAt(s, x, y) == Pixel(julia(x, y))
    ensures s == Image(julia)
  {
    forall i | 0 <= i < Size
      ensures s[i] == Image(julia)[i]
    {
      var p := i / 4;
      var x, y := p % Dim, p / Dim;
      assert InImage(x, y);
      assert i == 4 * Offset(x, y) + i % 4;
      assert PixelAt(s, x, y)[i % 4] == s[i];
    }
  }

  /** The body shared by every kernel: paint pixel (x, y). */
  method Paint(ptr: array<Byte>, x: int, y: int, julia: (int, int) -> int)
    requires ptr.Length == Size && InImage(x, y)
    modifies ptr
    ensures PixelAt(ptr[..], x, y) == Pixel(julia(x, y))
    ensures forall x', y' :: InImage(x', y') && (x', y') != (x, y) ==>
              PixelAt(ptr[..], x', y') == PixelAt(old(ptr[..]), x', y')
  {
    SlotsDisjoint(x, y, x, y);
    var offset := x + y * Dim;
    var juliaValue := julia(x, y);
    ptr[offset * 4 + 0] := Red(juliaValue);
    ptr[offset * 4 + 1] := 0;
    ptr[offset * 4 + 2] := 0;
    ptr[offset * 4 + 3] := 255;
    forall x', y' | InImage(x', y') && (x', y') != (x, y)
      ensures PixelAt(ptr[..], x', y') == PixelAt(old(ptr[..]), x', y')
    {
      SlotsDisjoint(x, y, x', y');
      SlotsDisjoint(x', y', x, y);
    }
  }

  /** The inner loop of the row kernels: paint every pixel of row y. */
  method PaintRow(ptr: array<Byte>, y: int, julia: (int, int) -> int)
    requires ptr.Length == Size && 0 <= y < Dim
    modifies ptr
    ensures forall x :: 0 <= x < Dim ==> PixelAt(ptr[..], x, y) == Pixel(julia(x, y))
    ensures forall x', y' :: InImage(x', y') && y' != y ==>
              PixelAt(ptr[..], x', y') == PixelAt(old(ptr[..]), x', y')
  {
    for x := 0 to Dim
      invariant forall x' :: 0 <= x' < x ==> PixelAt(ptr[..], x', y) == Pixel(julia(x', y))
      invariant forall x', y' :: InImage(x', y') && y' != y ==>
                  PixelAt(ptr[..], x', y') == PixelAt(old(ptr[..]), x', y')
    {
      Paint(ptr, x, y, julia);
    }
  }

  /** kernel_serial: rows top to bottom, each row left to right. */
  method KernelSerial(ptr: array<Byte>, julia: (int, int) -> int)
    requires ptr.Length == Size
    modifies ptr
    ensures ptr[..] == Image(julia)
  {
    for y := 0 to Dim
      invariant forall x', y' :: InImage(x', y') && y' < y ==>
                  PixelAt(ptr[..], x', y') == Pixel(julia(x', y'))
    {
      PaintRow(ptr, y, julia);
    }
    AllPainted(ptr[..], julia);
  }

  /**
   * kernel_omp: both loops collapsed into one iteration space of DIM * DIM
   * pixels, handed out dynamically; iteration k is pixel (k % DIM, k / DIM).
   */
  method KernelCollapsed(ptr: array<Byte>, julia: (int, int) -> int)
    requires ptr.Length == Size
    modifies ptr
    ensures ptr[..] == Image(julia)
  {
    for k := 0 to Dim * Dim
      invariant forall x', y' :: InImage(x', y') && Offset(x', y') < k ==>
                  PixelAt(ptr[..], x', y') == Pixel(julia(x', y'))
    {
      var y := k / Dim;
      var x := k % Dim;
      assert Offset(x, y) == k;
      Paint(ptr, x, y, julia);
    }
    AllPainted(ptr[..], julia);
  }

  // ---------------------------------------------------------------------
  // Cyclic distributions: thread Tid takes rows (or columns) Tid, Tid + T, ...

  lemma MulNonNeg(b: int, d: int)
    requires 0 <= b && 0 <= d
    ensures 0 <= b * d
  {
  }

  lemma MulBound(b: int, d: int)
    requires 1 <= b
    ensures d >= 1 ==> b * d >= b
    ensures d <= -1 ==> b * d <= -b
  {
    if d >= 1 {
      assert b * d == b * (d - 1) + b;
      MulNonNeg(b, d - 1);
    }
    if d <= -1 {
      assert b * d == -(b * (-d - 1)) - b;
      MulNonNeg(b, -d - 1);
    }
  }

  /** Euclidean division is unique: a == b * q + r with 0 <= r < b fixes q and r. */
  lemma ModUnique(a: int, b: int, q: int, r: int)
    requires 1 <= b && 0 <= r < b && a == b * q + r
    ensures a % b == r && a / b == q
  {
    assert b * (a / b - q) == r - a % b;
    MulBound(b, a / b - q);
  }

  /** Adding the stride keeps the residue modulo T. */
  lemma StrideResidue(y: int, threads: int)
    requires 0 <= y && 1 <= threads
    ensures (y + threads) % threads == y % threads
  {
    ModUnique(y + threads, threads, y / threads + 1, y % threads);
  }

  /** Two indices less than a stride apart never share a residue. */
  lemma ResidueGap(a: int, b: int, threads: int)
    requires 0 <= a <= b < a + threads && a % threads == b % threads
    ensures a == b
  {
    assert threads * (b / threads - a / threads) == b - a;
    MulBound(threads, b / threads - a / threads);
  }

  /** Thread tid < T starts its cyclic walk on an index of residue tid. */
  lemma FirstResidue(tid: int, threads: int)
    requires 0 <= tid < threads
    ensures tid % threads == tid
  {
    ModUnique(tid, threads, 0, tid);
  }

  /** The rows thread tid of T visits, in the order `y = Tid; y < DIM; y += T`. */
  method CyclicRows(ptr: array<Byte>, tid: int, threads: int, julia: (int, int) -> int)
    requires ptr.Length == Size && 0 <= tid < threads
    modifies ptr
    ensures forall x', y' :: InImage(x', y') && y' % threads == tid ==>
              PixelAt(ptr[..], x', y') == Pixel(julia(x', y'))
    ensures forall x', y' :: InImage(x', y') && y' % threads != tid ==>
              PixelAt(ptr[..], x', y') == PixelAt(old(ptr[..]), x', y')
  {
    FirstResidue(tid, threads);
    var y := tid;
    while y < Dim
      invariant tid <= y && y % threads == tid
      invariant forall x', y' :: InImage(x', y') && y' % threads == tid && y' < y ==>
                  PixelAt(ptr[..], x', y') == Pixel(julia(x', y'))
      invariant forall x', y' :: InImage(x', y') && y' % threads != tid ==>
                  PixelAt(ptr[..], x', y') == PixelAt(old(ptr[..]), x', y')
      decreases Dim - y
    {
      PaintRow(ptr, y, julia);
      forall x', y' | InImage(x', y') && y' % threads == tid && y' < y + threads
        ensures PixelAt(ptr[..], x', y') == Pixel(julia(x', y'))
      {
        if y <= y' {
          ResidueGap(y, y', threads);
        }
      }
      StrideResidue(y, threads);
      y := y + threads;
    }
  }

  /** kernel_omp_1D_rowWise_parallel with T threads. */
  method KernelRowCyclic(ptr: array<Byte>, threads: int, julia: (int, int) -> int)
    requires ptr.Length == Size && 1 <= threads
    modifies ptr
    ensures ptr[..] == Image(julia)
  {
    for tid := 0 to threads
      invariant forall x', y' :: InImage(x', y') && y' % threads < tid ==>
                  PixelAt(ptr[..], x', y') == Pixel(julia(x', y'))
    {
      CyclicRows(ptr, tid, threads, julia);
    }
    AllPainted(ptr[..], julia);
  }

  /** The columns of row y that thread tid visits: `x = Tid; x < DIM; x += T`. */
  method CyclicColumnsOfRow(ptr: array<Byte>, y: int, tid: int, threads: int, julia: (int, int) -> int)
    requires ptr.Length == Size && 0 <= y < Dim && 0 <= tid < threads
    modifies ptr
    ensures forall x' :: 0 <= x' < Dim && x' % threads == tid ==>
              PixelAt(ptr[..], x', y) == Pixel(julia(x', y))
    ensures forall x', y' :: InImage(x', y') && (y' != y || x' % threads != tid) ==>
              PixelAt(ptr[..], x', y') == PixelAt(old(ptr[..]), x', y')
  {
    FirstResidue(tid, threads);
    var x := tid;
    while x < Dim
      invariant tid <= x && x % threads == tid
      invariant forall x' :: 0 <= x' < x && x' < Dim && x' % threads == tid ==>
                  PixelAt(ptr[..], x', y) == Pixel(julia(x', y))
      invariant forall x', y' :: InImage(x', y') && (y' != y || x' % threads != tid) ==>
                  PixelAt(ptr[..], x', y') == PixelAt(old(ptr[..]), x', y')
      decreases Dim - x
    {
      Paint(ptr, x, y, julia);
      forall x' | 0 <= x' < Dim && x' % threads == tid && x' < x + threads
        ensures PixelAt(ptr[..], x', y) == Pixel(julia(x', y))
      {
        if x <= x' {
          ResidueGap(x, x', threads);
        }
      }
      StrideResidue(x, threads);
      x := x + threads;
    }
  }

  /** The share of thread tid in the column-cyclic kernel: every row, its columns. */
  method CyclicColumns(ptr: array<Byte>, tid: int, threads: int, julia: (int, int) -> int)
    requires ptr.Length == Size && 0 <= tid < threads
    modifies ptr
    ensures forall x', y' :: InImage(x', y') && x' % threads == tid ==>
              PixelAt(ptr[..], x', y') == Pixel(julia(x', y'))
    ensures forall x', y' :: InImage(x', y') && x' % threads != tid ==>
              PixelAt(ptr[..], x', y') == PixelAt(old(ptr[..]), x', y')
  {
    for y := 0 to Dim
      invariant forall x', y' :: InImage(x', y') && x' % threads == tid && y' < y ==>
                  PixelAt(ptr[..], x', y') == Pixel(julia(x', y'))
      invariant forall x', y' :: InImage(x', y') && x' % threads != tid ==>
                  PixelAt(ptr[..], x', y') == PixelAt(old(ptr[..]), x', y')
    {
      CyclicColumnsOfRow(ptr, y, tid, threads, julia);
    }
  }

  /** kernel_omp_1D_columnWise_parallel with T threads. */
  method KernelColumnCyclic(ptr: array<Byte>, threads: int, julia: (int, int) -> int)
    requires ptr.Length == Size && 1 <= threads
    modifies ptr
    ensures ptr[..] == Image(julia)
  {
    for tid := 0 to threads
      invariant forall x', y' :: InImage(x', y') && x' % threads < tid ==>
                  PixelAt(ptr[..], x', y') == Pixel(julia(x', y'))
    {
      CyclicColumns(ptr, tid, threads, julia);
    }
    AllPainted(ptr[..], julia);
  }

  // ---------------------------------------------------------------------
  // Block distributions: DIM / T rows (or columns) each, the first DIM % T
  // threads one more.

  /** startRow / startCol of thread tid. */
  function BlockStart(tid: int, threads: int): int
    requires 0 <= tid && 1 <= threads
  {
    var perThread := Dim / threads;
    var remainder := Dim % threads;
    if tid < remainder then tid * (perThread + 1) else tid * perThread + remainder
  }

  /** endRow / endCol of thread tid. */
  function BlockEnd(tid: int, threads: int): int
    requires 0 <= tid && 1 <= threads
  {
    var extra := if tid < Dim % threads then 1 else 0;
    BlockStart(tid, threads) + Dim / threads + extra
  }

  /** Block sizes: DIM / T + 1 for the first DIM % T threads, DIM / T for the rest. */
  lemma BlockSize(tid: int, threads: int)
    requires 0 <= tid && 1 <= threads
    ensures BlockEnd(tid, threads) - BlockStart(tid, threads) ==
              if tid < Dim % threads then Dim / threads + 1 else Dim / threads
  {
  }

  /** The blocks are consecutive: the first starts at 0, each ends where the next starts. */
  lemma {:induction false} BlocksAdjacent(tid: int, threads: int)
    requires 0 <= tid && 1 <= threads
    ensures BlockStart(0, threads) == 0
    ensures BlockEnd(tid, threads) == BlockStart(tid + 1, threads)
  {
    var q, r := Dim / threads, Dim % threads;
    if tid + 1 < r {
      assert BlockStart(tid + 1, threads) == (tid + 1) * (q + 1) == tid * (q + 1) + q + 1;
    } else if tid + 1 == r {
      assert BlockStart(tid + 1, threads) == (tid + 1) * q + r == tid * q + q + tid + 1;
      assert BlockStart(tid, threads) == tid * (q + 1) == tid * q + tid;
    } else {
      assert BlockStart(tid + 1, threads) == (tid + 1) * q + r == tid * q + q + r;
    }
  }

  /** The last thread's block ends at DIM, so the blocks cover every row. */
  lemma LastBlockEnds(threads: int)
    requires 1 <= threads
    ensures BlockEnd(threads - 1, threads) == Dim
    ensures BlockStart(threads, threads) == Dim
  {
    var q, r := Dim / threads, Dim % threads;
    assert threads * q + r == Dim;
    assert (threads - 1) * q + q == threads * q;
  }

  /** Blocks of later threads start no earlier. */
  lemma {:induction false} BlockStartMonotone(i: int, j: int, threads: int)
    requires 0 <= i <= j && 1 <= threads
    ensures BlockStart(i, threads) <= BlockStart(j, threads)
    decreases j - i
  {
    if i < j {
      BlocksAdjacent(i, threads);
      BlockStartMonotone(i + 1, j, threads);
    }
  }

  /** Every row in [0, DIM) lies in the block of exactly one thread. */
  lemma {:induction false} BlocksPartition(y: int, threads: int) returns (tid: int)
    requires 0 <= y < Dim && 1 <= threads
    ensures 0 <= tid < threads && BlockStart(tid, threads) <= y < BlockEnd(tid, threads)
    ensures forall t :: 0 <= t < threads && BlockStart(t, threads) <= y < BlockEnd(t, threads) ==> t == tid
  {
    tid := FindBlock(y, 0, threads);
    forall t | 0 <= t < threads && BlockStart(t, threads) <= y < BlockEnd(t, threads)
      ensures t == tid
    {
      if t < tid {
        BlocksAdjacent(t, threads);
        BlockStartMonotone(t + 1, tid, threads);
      } else if tid < t {
        BlocksAdjacent(tid, threads);
        BlockStartMonotone(tid + 1, t, threads);
      }
    }
  }

  /** Search the blocks from thread from onwards for the one holding y. */
  lemma {:induction false} FindBlock(y: int, from: int, threads: int) returns (tid: int)
    requires 0 <= from < threads && BlockStart(from, threads) <= y < Dim
    ensures from <= tid < threads && BlockStart(tid, threads) <= y < BlockEnd(tid, threads)
    decreases threads - from
  {
    BlocksAdjacent(from, threads);
    if y < BlockEnd(from, threads) {
      tid := from;
    } else {
      if from == threads - 1 {
        LastBlockEnds(threads);
      }
      tid := FindBlock(y, from + 1, threads);
    }
  }

  /** kernel_omp_2D_row_blockWise_parallel with T threads. */
  method KernelRowBlock(ptr: array<Byte>, threads: int, julia: (int, int) -> int)
    requires ptr.Length == Size && 1 <= threads
    modifies ptr
    ensures ptr[..] == Image(julia)
  {
    for tid := 0 to threads
      invariant BlockStart(tid, threads) <= Dim
      invariant forall x', y' :: InImage(x', y') && y' < BlockStart(tid, threads) ==>
                  PixelAt(ptr[..], x', y') == Pixel(julia(x', y'))
    {
      BlocksAdjacent(tid, threads);
      BlockStartMonotone(tid + 1, threads, threads);
      LastBlockEnds(threads);
      var startRow := BlockStart(tid, threads);
      var endRow := BlockEnd(tid, threads);
      for y := startRow to endRow
        invariant forall x', y' :: InImage(x', y') && y' < y ==>
                    PixelAt(ptr[..], x', y') == Pixel(julia(x', y'))
      {
        PaintRow(ptr, y, julia);
      }
    }
    LastBlockEnds(threads);
    AllPainted(ptr[..], julia);
  }

  /** The share of thread tid in the column-block kernel: every row, its columns. */
  method BlockColumns(ptr: array<Byte>, startCol: int, endCol: int, julia: (int, int) -> int)
    requires ptr.Length == Size && 0 <= startCol <= endCol <= Dim
    modifies ptr
    ensures forall x', y' :: InImage(x', y') && startCol <= x' < endCol ==>
              PixelAt(ptr[..], x', y') == Pixel(julia(x', y'))
    ensures forall x', y' :: InImage(x', y') && !(startCol <= x' < endCol) ==>
              PixelAt(ptr[..], x', y') == PixelAt(old(ptr[..]), x', y')
  {
    for y := 0 to Dim
      invariant forall x', y' :: InImage(x', y') && startCol <= x' < endCol && y' < y ==>
                  PixelAt(ptr[..], x', y') == Pixel(julia(x', y'))
      invariant forall x', y' :: InImage(x', y') && !(startCol <= x' < endCol) ==>
                  PixelAt(ptr[..], x', y') == PixelAt(old(ptr[..]), x', y')
    {
      for x := startCol to endCol
        invariant forall x', y' :: InImage(x', y') && startCol <= x' < endCol && (y' < y || (y' == y && x' < x)) ==>
                    PixelAt(ptr[..], x', y') == Pixel(julia(x', y'))
        invariant forall x', y' :: InImage(x', y') && !(startCol <= x' < endCol) ==>
                    PixelAt(ptr[..], x', y') == PixelAt(old(ptr[..]), x', y')
      {
        Paint(ptr, x, y, julia);
      }
    }
  }

  /** kernel_omp_2D_column_blockWise_parallel with T threads. */
  method KernelColumnBlock(ptr: array<Byte>, threads: int, julia: (int, int) -> int)
    requires ptr.Length == Size && 1 <= threads
    modifies ptr
    ensures ptr[..] == Image(julia)
  {
    for tid := 0 to threads
      invariant BlockStart(tid, threads) <= Dim
      invariant forall x', y' :: InImage(x', y') && x' < BlockStart(tid, threads) ==>
                  PixelAt(ptr[..], x', y') == Pixel(julia(x', y'))
    {
      BlocksAdjacent(tid, threads);
      BlockStartMonotone(tid + 1, threads, threads);
      LastBlockEnds(threads);
      var startCol := BlockStart(tid, threads);
      var endCol := BlockEnd(tid, threads);
      BlockColumns(ptr, startCol, endCol, julia);
    }
    LastBlockEnds(threads);
    AllPainted(ptr[..], julia);
  }
}
