/** The hash helpers of the video processor: the Hamming distance between two
    integer hashes, the bit packing of the difference hash, the big-endian
    byte conversion of the perceptual hash and the dispatch of `distance` on
    the method name. Image resizing and the OpenCV hashers themselves are not
    modelled: the functions here start from their integer or byte results. */
module Hashes {

  datatype Option<T> = None | Some(value: T)

  // ---------------------------------------------------------------------------
  // Powers and bits of non-negative integers
  // ---------------------------------------------------------------------------

  function Pow2(k: nat): (r: nat)
    ensures r >= 1
  {
    if k == 0 then 1 else 2 * Pow2(k - 1)
  }

  function Pow256(k: nat): (r: nat)
    ensures r >= 1
  {
    if k == 0 then 1 else 256 * Pow256(k - 1)
  }

  /** Bit `i` of `x` (bit 0 is the least significant). */
  function Bit(x: nat, i: nat): bool
  {
    if i == 0 then x % 2 == 1 else Bit(x / 2, i - 1)
  }

  // ---------------------------------------------------------------------------
  // Hamming distance: popcount of the exclusive or (video_process.py:62-67)
  // ---------------------------------------------------------------------------

  /** Bitwise exclusive or of two non-negative integers, one bit at a time
      from the least significant. */
  function Xor(a: nat, b: nat): (r: nat)
    ensures r == 0 <==> a == b
    decreases a + b
  {
    if a == 0 && b == 0 then 0
    else 2 * Xor(a / 2, b / 2) + (if a % 2 == b % 2 then 0 else 1)
  }

  /** The number of one bits of `n` (what `bin(n).count('1')` counts). */
  function PopCount(n: nat): (r: nat)
    ensures r <= n
    ensures r == 0 <==> n == 0
  {
    if n == 0 then 0 else n % 2 + PopCount(n / 2)
  }

  /** `Video.hamming`: the number of one bits of `a ^ b`. It is never
      negative and is zero exactly between equal hashes. */
  function Hamming(a: nat, b: nat): (r: int)
    ensures r >= 0
    ensures r == 0 <==> a == b
  {
    PopCount(Xor(a, b))
  }

  /** Reference definition: the number of the `k` lowest bit positions at
      which `a` and `b` differ. */
  function DifferingBits(a: nat, b: nat, k: nat): nat
  {
    if k == 0 then 0
    else (if Bit(a, k - 1) != Bit(b, k - 1) then 1 else 0) + DifferingBits(a, b, k - 1)
  }

  lemma {:induction false} XorCommutes(a: nat, b: nat)
    ensures Xor(a, b) == Xor(b, a)
    decreases a + b
  {
    if a != 0 || b != 0 {
      XorCommutes(a / 2, b / 2);
    }
  }

  /** The Hamming distance is symmetric. */
  lemma HammingSymmetric(a: nat, b: nat)
    ensures Hamming(a, b) == Hamming(b, a)
  {
    XorCommutes(a, b);
  }

  /** Bit `i` of `a ^ b` is set exactly when bit `i` of `a` and of `b` differ. */
  lemma {:induction false} XorBit(a: nat, b: nat, i: nat)
    ensures Bit(Xor(a, b), i) == (Bit(a, i) != Bit(b, i))
    decreases a + b
  {
    if a == 0 && b == 0 {
      ZeroBit(i);
    } else if i > 0 {
      XorBit(a / 2, b / 2, i - 1);
    }
  }

  lemma {:induction false} ZeroBit(i: nat)
    ensures !Bit(0, i)
  {
    if i > 0 {
      ZeroBit(i - 1);
    }
  }

  /** For `k`-bit hashes the Hamming distance counts the differing bit
      positions, so it is at most `k` (64 for 64-bit hashes). */
  lemma {:induction false} HammingCountsDifferingBits(a: nat, b: nat, k: nat)
    requires a < Pow2(k) && b < Pow2(k)
    ensures Hamming(a, b) == DifferingBits(a, b, k)
    ensures Hamming(a, b) <= k
    decreases k
  {
    if k == 0 {
      assert a == 0 && b == 0;
    } else {
      HammingCountsDifferingBits(a / 2, b / 2, k - 1);
      HammingLowBit(a, b);
      ShiftedDifferingBits(a, b, k);
    }
  }

  /** The Hamming distance peels off the lowest bit like the exclusive or. */
  lemma HammingLowBit(a: nat, b: nat)
    ensures Hamming(a, b) == (if a % 2 == b % 2 then 0 else 1) + Hamming(a / 2, b / 2)
  {
    if a != 0 || b != 0 {
      var x := Xor(a / 2, b / 2);
      var low := if a % 2 == b % 2 then 0 else 1;
      assert Xor(a, b) == 2 * x + low;
      if 2 * x + low != 0 {
        assert (2 * x + low) % 2 == low && (2 * x + low) / 2 == x;
      }
    }
  }

  /** Counting the differing low `k` bits by peeling the lowest one. */
  lemma {:induction false} ShiftedDifferingBits(a: nat, b: nat, k: nat)
    requires k > 0
    ensures DifferingBits(a, b, k)
         == (if a % 2 == b % 2 then 0 else 1) + DifferingBits(a / 2, b / 2, k - 1)
  {
    if k == 1 {
    } else {
      ShiftedDifferingBits(a, b, k - 1);
      assert Bit(a, k - 1) == Bit(a / 2, k - 2);
      assert Bit(b, k - 1) == Bit(b / 2, k - 2);
    }
  }

  // ---------------------------------------------------------------------------
  // Difference hash bit packing (video_process.py:50-53)
  // ---------------------------------------------------------------------------

  /** `sum([2 ** i for i, v in enumerate(bits) if v])`, summed in the order
      the comprehension enumerates. */
  function Pack(bits: seq<bool>): (r: nat)
    ensures r < Pow2(|bits|)
  {
    if bits == [] then 0
    else Pack(bits[..|bits| - 1]) + (if bits[|bits| - 1] then Pow2(|bits| - 1) else 0)
  }

  /** The bits of `x` below position `n`, least significant first. */
  function Unpack(x: nat, n: nat): (bits: seq<bool>)
    ensures |bits| == n
    ensures forall i :: 0 <= i < n ==> bits[i] == Bit(x, i)
  {
    seq(n, i requires 0 <= i => Bit(x, i))
  }

  /** Pack read from the least significant end: the first bit, then twice the rest. */
  lemma {:induction false} PackLowFirst(bits: seq<bool>)
    requires bits != []
    ensures Pack(bits) == (if bits[0] then 1 else 0) + 2 * Pack(bits[1..])
    decreases |bits|
  {
    if |bits| > 1 {
      var n := |bits|;
      PackLowFirst(bits[..n - 1]);
      assert bits[..n - 1][1..] == bits[1..][..n - 2];
      assert bits[..n - 1][0] == bits[0];
      assert bits[1..][n - 2] == bits[n - 1];
    }
  }

  /** Bit `i` of a packed hash is element `i`. */
  lemma {:induction false} PackBits(bits: seq<bool>)
    ensures forall i :: 0 <= i < |bits| ==> Bit(Pack(bits), i) == bits[i]
    decreases |bits|
  {
    if bits != [] {
      PackLowFirst(bits);
      PackBits(bits[1..]);
      var p := Pack(bits);
      assert p / 2 == Pack(bits[1..]);
      forall i | 0 <= i < |bits|
        ensures Bit(p, i) == bits[i]
      {
        if i > 0 {
          assert Bit(p, i) == Bit(Pack(bits[1..]), i - 1);
        }
      }
    }
  }

  lemma PackBitAt(bits: seq<bool>, i: nat)
    requires i < |bits|
    ensures Bit(Pack(bits), i) == bits[i]
  {
    PackBits(bits);
  }

  /** Unpacking a packed hash gives back the bits it was packed from. */
  lemma UnpackPack(bits: seq<bool>)
    ensures Unpack(Pack(bits), |bits|) == bits
  {
    PackBits(bits);
  }

  /** No element of `bits` is set. */
  predicate NoneSet(bits: seq<bool>)
  {
    forall i :: 0 <= i < |bits| ==> !bits[i]
  }

  /** A packed hash is zero exactly when no bit was set. */
  lemma {:induction false} PackZeroIff(bits: seq<bool>)
    ensures Pack(bits) == 0 <==> NoneSet(bits)
    decreases |bits|
  {
    if bits != [] {
      PackZeroIff(bits[..|bits| - 1]);
      if Pack(bits) == 0 {
        PackBits(bits);
        forall i | 0 <= i < |bits|
          ensures !bits[i]
        {
          ZeroBit(i);
        }
      }
    }
  }

  // A resized image: rows of cells, a cell holding one value per channel
  // (OpenCV frames are BGR, so three channels).
  type Grid = seq<seq<seq<int>>>

  /** Every row has `width + 1` cells and every cell `channels` values. */
  ghost predicate Shaped(grid: Grid, width: nat, channels: nat)
  {
    forall r :: 0 <= r < |grid| ==>
      && |grid[r]| == width + 1
      && forall c :: 0 <= c <= width ==> |grid[r][c]| == channels
  }

  /** The comparison `right > left`, channel by channel. */
  function CellGreater(right: seq<int>, left: seq<int>): (bits: seq<bool>)
    requires |right| == |left|
    ensures |bits| == |left|
  {
    seq(|left|, k requires 0 <= k < |left| => right[k] > left[k])
  }

  /** One row of `resized[:, 1:] > resized[:, :-1]`, flattened cell by cell. */
  function RowDiff(row: seq<seq<int>>, channels: nat): (bits: seq<bool>)
    requires forall c :: 0 <= c < |row| ==> |row[c]| == channels
  {
    if |row| < 2 then []
    else CellGreater(row[1], row[0]) + RowDiff(row[1..], channels)
  }

  /** `(resized[:, 1:] > resized[:, :-1]).flatten()`: the rows' comparisons
      one after the other. */
  function GridDiff(grid: Grid, width: nat, channels: nat): (bits: seq<bool>)
    requires Shaped(grid, width, channels)
  {
    if grid == [] then []
    else RowDiff(grid[0], channels) + GridDiff(grid[1..], width, channels)
  }

  /** `Video.dhash` from the resized image on: `hashSize` rows of
      `hashSize + 1` cells. The hash has one bit per comparison, so it is
      below 2 to the number of comparisons. */
  function DHash(grid: Grid, hashSize: nat, channels: nat): (r: nat)
    requires |grid| == hashSize && Shaped(grid, hashSize, channels)
    ensures r < Pow2(Offset(hashSize, Offset(hashSize, channels)))
  {
    GridDiffLength(grid, hashSize, channels);
    Pack(GridDiff(grid, hashSize, channels))
  }

  /** `count * size`, written as repeated addition so that the index
      reasoning below stays linear. */
  function Offset(count: nat, size: nat): nat
  {
    if count == 0 then 0 else size + Offset(count - 1, size)
  }

  lemma {:induction false} OffsetIsProduct(count: nat, size: nat)
    ensures Offset(count, size) == count * size
  {
    if count > 0 {
      OffsetIsProduct(count - 1, size);
    }
  }

  lemma {:induction false} OffsetMonotone(a: nat, b: nat, size: nat)
    requires a < b
    ensures Offset(a, size) + size <= Offset(b, size)
    decreases b
  {
    if a + 1 < b {
      OffsetMonotone(a, b - 1, size);
    }
  }

  lemma {:induction false} RowDiffLength(row: seq<seq<int>>, channels: nat)
    requires forall c :: 0 <= c < |row| ==> |row[c]| == channels
    requires |row| >= 1
    ensures |RowDiff(row, channels)| == Offset(|row| - 1, channels)
  {
    if |row| >= 2 {
      RowDiffLength(row[1..], channels);
    }
  }

  lemma ShapedTail(grid: Grid, width: nat, channels: nat)
    requires grid != [] && Shaped(grid, width, channels)
    ensures Shaped(grid[1..], width, channels)
    ensures forall c :: 0 <= c < |grid[0]| ==> |grid[0][c]| == channels
    ensures |grid[0]| == width + 1
  {
    assert forall r :: 0 <= r < |grid| - 1 ==> grid[1..][r] == grid[r + 1];
  }

  lemma {:induction false} GridDiffLength(grid: Grid, width: nat, channels: nat)
    requires Shaped(grid, width, channels)
    ensures |GridDiff(grid, width, channels)| == Offset(|grid|, Offset(width, channels))
  {
    if grid != [] {
      ShapedTail(grid, width, channels);
      GridDiffLength(grid[1..], width, channels);
      RowDiffLength(grid[0], channels);
    }
  }

  /** Channel `k` grows from cell `c` to cell `c + 1` of `row`. */
  predicate Grows(row: seq<seq<int>>, c: nat, k: nat)
  {
    c + 1 < |row| && k < |row[c]| && k < |row[c + 1]| && row[c + 1][k] > row[c][k]
  }

  lemma {:induction false} RowDiffAt(row: seq<seq<int>>, channels: nat, c: nat, k: nat)
    requires forall c' :: 0 <= c' < |row| ==> |row[c']| == channels
    requires c + 1 < |row| && k < channels
    ensures Offset(c, channels) + k < |RowDiff(row, channels)|
    ensures RowDiff(row, channels)[Offset(c, channels) + k] == Grows(row, c, k)
  {
    RowDiffLength(row, channels);
    OffsetMonotone(c, |row| - 1, channels);
    if c > 0 {
      RowDiffAt(row[1..], channels, c - 1, k);
    }
  }

  /** Row `r`'s comparisons follow those of the `r` rows before it. */
  lemma {:induction false} GridDiffRow(grid: Grid, width: nat, channels: nat, r: nat, j: nat)
    requires Shaped(grid, width, channels)
    requires r < |grid| && j < Offset(width, channels)
    ensures |RowDiff(grid[r], channels)| == Offset(width, channels)
    ensures Offset(r, Offset(width, channels)) + j < |GridDiff(grid, width, channels)|
    ensures GridDiff(grid, width, channels)[Offset(r, Offset(width, channels)) + j]
         == RowDiff(grid[r], channels)[j]
  {
    var n := Offset(width, channels);
    ShapedTail(grid, width, channels);
    var head := RowDiff(grid[0], channels);
    var tail := GridDiff(grid[1..], width, channels);
    assert GridDiff(grid, width, channels) == head + tail;
    RowDiffLength(grid[0], channels);
    assert |head| == n;
    assert |grid[r]| == width + 1;
    RowDiffLength(grid[r], channels);
    if r > 0 {
      GridDiffRow(grid[1..], width, channels, r - 1, j);
      assert grid[1..][r - 1] == grid[r];
      assert Offset(r, n) == n + Offset(r - 1, n);
    }
  }

  /** Comparison (c, k) of a well-shaped row of `width + 1` cells. */
  lemma RowCompareAt(row: seq<seq<int>>, width: nat, channels: nat, c: nat, k: nat)
    requires |row| == width + 1
    requires forall c' :: 0 <= c' <= width ==> |row[c']| == channels
    requires c < width && k < channels
    ensures |RowDiff(row, channels)| == Offset(width, channels)
    ensures Offset(c, channels) + k < Offset(width, channels)
    ensures RowDiff(row, channels)[Offset(c, channels) + k] == (row[c + 1][k] > row[c][k])
  {
    RowDiffAt(row, channels, c, k);
    RowDiffLength(row, channels);
  }

  /** Comparison (r, c, k) sits at `(r * width + c) * channels + k` of the
      row-major flattening, written with `Offset`. */
  lemma GridDiffAt(grid: Grid, width: nat, channels: nat, r: nat, c: nat, k: nat)
    requires Shaped(grid, width, channels)
    requires r < |grid| && c < width && k < channels
    ensures Offset(r, Offset(width, channels)) + Offset(c, channels) + k < |GridDiff(grid, width, channels)|
    ensures GridDiff(grid, width, channels)[Offset(r, Offset(width, channels)) + Offset(c, channels) + k]
         == (grid[r][c + 1][k] > grid[r][c][k])
  {
    var row := grid[r];
    var j := Offset(c, channels) + k;
    var i := Offset(r, Offset(width, channels)) + j;
    RowCompareAt(row, width, channels, c, k);
    GridDiffRow(grid, width, channels, r, j);
    assert Offset(r, Offset(width, channels)) + Offset(c, channels) + k == i;
    assert GridDiff(grid, width, channels)[i] == RowDiff(row, channels)[j];
  }

  /** Bit `(r * hashSize + c) * channels + k` of the difference hash, the
      position of comparison (r, c, k) in the row-major flattening, is set
      exactly when channel `k` grows from cell `c` to cell `c + 1` of row `r`. */
  lemma DHashBit(grid: Grid, hashSize: nat, channels: nat, r: nat, c: nat, k: nat)
    requires |grid| == hashSize && Shaped(grid, hashSize, channels)
    requires r < hashSize && c < hashSize && k < channels
    ensures Bit(DHash(grid, hashSize, channels), (r * hashSize + c) * channels + k)
        == (grid[r][c + 1][k] > grid[r][c][k])
  {
    var i := Offset(r, Offset(hashSize, channels)) + Offset(c, channels) + k;
    GridDiffAt(grid, hashSize, channels, r, c, k);
    PackBitAt(GridDiff(grid, hashSize, channels), i);
    FlatPosition(r, hashSize, c, channels, k);
  }

  lemma FlatPosition(r: nat, width: nat, c: nat, channels: nat, k: nat)
    ensures Offset(r, Offset(width, channels)) + Offset(c, channels) + k
         == (r * width + c) * channels + k
  {
    OffsetIsProduct(width, channels);
    OffsetIsProduct(r, width * channels);
    OffsetIsProduct(c, channels);
    assert r * (width * channels) + c * channels == (r * width + c) * channels;
  }

  /** The difference hash is below 2^(hashSize * hashSize * channels). */
  lemma DHashBound(grid: Grid, hashSize: nat, channels: nat)
    requires |grid| == hashSize && Shaped(grid, hashSize, channels)
    ensures DHash(grid, hashSize, channels) < Pow2(hashSize * hashSize * channels)
  {
    SquareOffset(hashSize, channels);
  }

  /** The number of comparisons of a square grid. */
  lemma SquareOffset(side: nat, size: nat)
    ensures Offset(side, Offset(side, size)) == side * side * size
  {
    OffsetIsProduct(side, size);
    OffsetIsProduct(side, side * size);
    assert side * (side * size) == side * side * size;
  }

  /** A row compares all-false exactly when no channel grows to the right. */
  lemma {:induction false} RowDiffFalseIff(row: seq<seq<int>>, channels: nat)
    requires forall c :: 0 <= c < |row| ==> |row[c]| == channels
    ensures NoneSet(RowDiff(row, channels))
        <==> (forall c, k :: 0 <= c < |row| - 1 && 0 <= k < channels ==> !Grows(row, c, k))
  {
    if |row| >= 2 {
      RowDiffFalseIff(row[1..], channels);
      var bits := RowDiff(row, channels);
      var head := CellGreater(row[1], row[0]);
      var tail := RowDiff(row[1..], channels);
      assert bits == head + tail;
      assert forall i :: 0 <= i < |tail| ==> tail[i] == bits[|head| + i];
      assert forall i :: 0 <= i < |head| ==> head[i] == bits[i];
      assert forall c, k :: 0 <= c < |row| - 2 ==> (Grows(row[1..], c, k) <==> Grows(row, c + 1, k));
      assert forall k :: 0 <= k < channels ==> (head[k] <==> Grows(row, 0, k));
      if forall i :: 0 <= i < |bits| ==> !bits[i] {
        forall c, k | 0 <= c < |row| - 1 && 0 <= k < channels
          ensures !Grows(row, c, k)
        {
          if c > 0 {
            assert !Grows(row[1..], c - 1, k);
          }
        }
      }
    }
  }

  lemma {:induction false} GridFalseIff(grid: Grid, width: nat, channels: nat)
    requires Shaped(grid, width, channels)
    ensures NoneSet(GridDiff(grid, width, channels))
        <==> forall r, c, k :: 0 <= r < |grid| && 0 <= c < width && 0 <= k < channels
               ==> !Grows(grid[r], c, k)
  {
    if grid != [] {
      GridFalseIff(grid[1..], width, channels);
      RowDiffFalseIff(grid[0], channels);
      var head := RowDiff(grid[0], channels);
      var tail := GridDiff(grid[1..], width, channels);
      var bits := GridDiff(grid, width, channels);
      assert bits == head + tail;
      assert forall i :: 0 <= i < |tail| ==> tail[i] == bits[|head| + i];
      assert forall i :: 0 <= i < |head| ==> head[i] == bits[i];
      assert forall r :: 1 <= r < |grid| ==> grid[1..][r - 1] == grid[r];
    }
  }

  /** The difference hash is zero exactly when no channel of any row grows
      from a cell to its right neighbour. */
  lemma DHashZeroIff(grid: Grid, hashSize: nat, channels: nat)
    requires |grid| == hashSize && Shaped(grid, hashSize, channels)
    ensures DHash(grid, hashSize, channels) == 0
        <==> forall r, c, k :: 0 <= r < hashSize && 0 <= c < hashSize && 0 <= k < channels
               ==> !Grows(grid[r], c, k)
  {
    var bits := GridDiff(grid, hashSize, channels);
    assert DHash(grid, hashSize, channels) == Pack(bits);
    PackZeroIff(bits);
    GridFalseIff(grid, hashSize, channels);
  }

  /** A constant image (every value equal) hashes to 0. */
  lemma ConstantImageHashesToZero(grid: Grid, hashSize: nat, channels: nat, v: int)
    requires |grid| == hashSize && Shaped(grid, hashSize, channels)
    requires forall r, c, k :: 0 <= r < hashSize && 0 <= c <= hashSize && 0 <= k < channels
               ==> grid[r][c][k] == v
    ensures DHash(grid, hashSize, channels) == 0
  {
    DHashZeroIff(grid, hashSize, channels);
  }

  // ---------------------------------------------------------------------------
  // Perceptual hash: the hash bytes read as a big-endian integer
  // (video_process.py:58-59)
  // ---------------------------------------------------------------------------

  type Byte = x: int | 0 <= x < 256

  /** `int.from_bytes(bytes, byteorder='big', signed=False)`: each further
      byte shifts the value so far one byte up. */
  function FromBytesBigEndian(bytes: seq<Byte>): (r: nat)
    ensures r < Pow256(|bytes|)
  {
    if bytes == [] then 0
    else
      var high := FromBytesBigEndian(bytes[..|bytes| - 1]);
      assert 256 * high + 256 <= 256 * Pow256(|bytes| - 1);
      256 * high + bytes[|bytes| - 1]
  }

  /** The `len` low bytes of `n`, most significant first (the inverse
      conversion, `n.to_bytes(len, 'big')`). */
  function ToBytesBigEndian(n: nat, len: nat): (bytes: seq<Byte>)
    ensures |bytes| == len
  {
    if len == 0 then [] else ToBytesBigEndian(n / 256, len - 1) + [n % 256]
  }

  /** The 8 bytes of the perceptual hash read as an integer are below 2^64. */
  lemma PHashBound(bytes: seq<Byte>)
    requires |bytes| == 8
    ensures FromBytesBigEndian(bytes) < 0x1_0000_0000_0000_0000
  {
    assert Pow256(8) == 0x1_0000_0000_0000_0000;
  }

  /** Reading back the bytes of a value that fits gives the value. */
  lemma {:induction false} FromToBytes(n: nat, len: nat)
    requires n < Pow256(len)
    ensures FromBytesBigEndian(ToBytesBigEndian(n, len)) == n
  {
    if len > 0 {
      FromToBytes(n / 256, len - 1);
      var bytes := ToBytesBigEndian(n, len);
      assert bytes[..len - 1] == ToBytesBigEndian(n / 256, len - 1);
    }
  }

  /** Writing out the value of some bytes gives those bytes. */
  lemma {:induction false} ToFromBytes(bytes: seq<Byte>)
    ensures ToBytesBigEndian(FromBytesBigEndian(bytes), |bytes|) == bytes
  {
    if bytes != [] {
      var n := |bytes|;
      ToFromBytes(bytes[..n - 1]);
      var x := FromBytesBigEndian(bytes[..n - 1]);
      LowByte(x, bytes[n - 1]);
      assert bytes == bytes[..n - 1] + [bytes[n - 1]];
    }
  }

  /** Appending a low byte is undone by `/ 256` and read back by `% 256`. */
  lemma LowByte(high: nat, low: Byte)
    ensures (256 * high + low) / 256 == high
    ensures (256 * high + low) % 256 == low
  {
  }

  /** Big-endian: the first byte is the most significant one. */
  lemma {:induction false} FirstByteMostSignificant(bytes: seq<Byte>)
    requires bytes != []
    ensures FromBytesBigEndian(bytes)
         == bytes[0] * Pow256(|bytes| - 1) + FromBytesBigEndian(bytes[1..])
  {
    var n := |bytes|;
    if n > 1 {
      var init := bytes[..n - 1];
      FirstByteMostSignificant(init);
      var rest := FromBytesBigEndian(init[1..]);
      assert FromBytesBigEndian(bytes[1..]) == 256 * rest + bytes[n - 1] by {
        assert bytes[1..][..n - 2] == init[1..];
      }
      ShiftByte(bytes[0], n - 1, rest, bytes[n - 1]);
    }
  }

  /** One more low byte shifts a leading byte up by 256. */
  lemma ShiftByte(head: nat, k: nat, rest: nat, last: nat)
    requires k >= 1
    ensures 256 * (head * Pow256(k - 1) + rest) + last == head * Pow256(k) + (256 * rest + last)
  {
    var p := Pow256(k - 1);
    assert Pow256(k) == 256 * p;
    assert 256 * (head * p) == head * (256 * p);
  }

  // ---------------------------------------------------------------------------
  // Distance dispatch on the method name (video_process.py:70-76)
  // ---------------------------------------------------------------------------

  /** `Video.distance`: the Hamming distance of `int(h1)` and `int(h2)` for
      "phash" and "dhash", the average hasher's own `compare` for "average",
      and no value for any other method: the last branch evaluates
      `float("inf")` without returning it. `toInt` is Python's `int(...)`. */
  function Distance<H>(hashMethod: string, compare: (H, H) -> int, toInt: H -> nat, h1: H, h2: H): (r: Option<int>)
    ensures r.Some? <==> hashMethod in {"phash", "dhash", "average"}
  {
    if hashMethod == "phash" || hashMethod == "dhash" then Some(Hamming(toInt(h1), toInt(h2)))
    else if hashMethod == "average" then Some(compare(h1, h2))
    else None
  }

  /** For "phash" and "dhash" the distance is the Hamming distance: it is
      symmetric and zero exactly between hashes with the same integer value. */
  lemma DistanceIsHamming<H>(hashMethod: string, compare: (H, H) -> int, toInt: H -> nat, h1: H, h2: H)
    requires hashMethod == "phash" || hashMethod == "dhash"
    ensures Distance(hashMethod, compare, toInt, h1, h2) == Some(Hamming(toInt(h1), toInt(h2)))
    ensures Distance(hashMethod, compare, toInt, h1, h2) == Distance(hashMethod, compare, toInt, h2, h1)
    ensures Distance(hashMethod, compare, toInt, h1, h2) == Some(0) <==> toInt(h1) == toInt(h2)
  {
    HammingSymmetric(toInt(h1), toInt(h2));
  }
}
