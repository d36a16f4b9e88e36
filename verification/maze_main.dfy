/**
 * The pure parts of the command-line driver (maze.c): the seed hash, the
 * relocate callback that spreads cells apart to leave room for wall pixels,
 * and the arithmetic that sizes the image and finds the pixel between two
 * connected cells. The hash assumes LP64 (64-bit unsigned long, 32-bit
 * unsigned int).
 */
module MazeMain {
  import opened Grid

  /** One step of the djb2 variant, in its shift-and-add form: hash * 33 XOR c, modulo 2^64 (StepIsTimes33). */
  function Step(h: bv64, c: bv8): bv64
  {
    ((h << 5) + h) ^ (c as bv64)
  }

  /** The djb2 variant over the bytes of `bytes`, starting from 5381. */
  function Djb2(bytes: seq<bv8>): bv64
  {
    if |bytes| == 0 then 5381 else Step(Djb2(bytes[..|bytes| - 1]), bytes[|bytes| - 1])
  }

  /** The bytes of a C string: everything before the first NUL. */
  function CString(s: seq<bv8>): (r: seq<bv8>)
    ensures |r| <= |s| && r == s[..|r|]
    ensures 0 !in r
    ensures |r| < |s| ==> s[|r|] == 0
  {
    if |s| == 0 || s[0] == 0 then [] else [s[0]] + CString(s[1..])
  }

  /** `(unsigned int) h`: the low 32 bits. */
  function Low(h: bv64): bv32
  {
    (h & 0xFFFF_FFFF) as bv32
  }

  function High(h: bv64): bv32
  {
    (h >> 32) as bv32
  }

  /** XOR of the two 32-bit words of a 64-bit hash. */
  function Fold(h: bv64): bv32
  {
    Low(h) ^ High(h)
  }

  /** The value hash_string returns for the string held in `s`. */
  function Hash(s: seq<bv8>): bv32
  {
    Fold(Djb2(CString(s)))
  }

  /** `<< 5` then `+ hash` multiplies by 33, modulo 2^64. */
  lemma StepIsTimes33(h: bv64, c: bv8)
    ensures Step(h, c) == (h * 33) ^ (c as bv64)
  {
  }

  lemma Djb2Snoc(s: seq<bv8>, c: bv8)
    ensures Djb2(s + [c]) == Step(Djb2(s), c)
  {
    assert (s + [c])[..|s|] == s;
  }

  /** hash_string: djb2 over the bytes before the first NUL, folded to 32 bits. */
  method HashString(str: seq<bv8>) returns (out: bv32)
    ensures out == Hash(str)
  {
    var hash: bv64 := 5381;
    var i := 0;
    while i < |str| && str[i] != 0
      invariant i <= |CString(str)|
      invariant hash == Djb2(str[..i])
    {
      CStringGoesOn(str, i);
      Djb2Next(str, i);
      hash := Step(hash, str[i]);
      i := i + 1;
    }
    ScanEnd(str, i);
    out := FoldWords(hash);
  }

  /** A non-NUL byte right after a prefix of the C string is part of the C string too. */
  lemma CStringGoesOn(s: seq<bv8>, i: nat)
    requires i <= |CString(s)| && i < |s| && s[i] != 0
    ensures i + 1 <= |CString(s)|
  {
  }

  /** Hashing one more byte extends the djb2 hash of a prefix to the next prefix. */
  lemma Djb2Next(s: seq<bv8>, i: nat)
    requires i < |s|
    ensures Step(Djb2(s[..i]), s[i]) == Djb2(s[..i + 1])
  {
    Djb2Snoc(s[..i], s[i]);
    assert s[..i + 1] == s[..i] + [s[i]];
  }

  /** The first loop of hash_string stops exactly at the end of the C string. */
  lemma ScanEnd(s: seq<bv8>, i: nat)
    requires i <= |CString(s)| && (i == |s| || s[i] == 0)
    ensures CString(s) == s[..i]
  {
  }

  /** The second loop of hash_string: XOR together the two 32-bit words of the hash. */
  method FoldWords(full: bv64) returns (out: bv32)
    ensures out == Fold(full)
  {
    var hash := full;
    // `unsigned int out` lives in the low half of a 64-bit word; its high half stays zero.
    var acc: bv64 := 0;
    var w := 0;
    // sizeof(unsigned long) / sizeof(unsigned int) == 2
    while w < 2
      invariant 0 <= w <= 2
      invariant w == 0 ==> acc == 0 && hash == full
      invariant w == 1 ==> acc == (full & 0xFFFF_FFFF) && hash == full >> 32
      invariant w == 2 ==> acc == (full & 0xFFFF_FFFF) ^ (full >> 32)
    {
      acc := acc ^ (hash & 0xFFFF_FFFF);
      hash := hash >> 32;
      w := w + 1;
    }
    out := (acc & 0xFFFF_FFFF) as bv32;
    FoldIsWordXor(full);
  }

  lemma FoldIsWordXor(h: bv64)
    ensures Fold(h) == (((h & 0xFFFF_FFFF) ^ (h >> 32)) & 0xFFFF_FFFF) as bv32
  {
  }

  /** When the first i bytes hold no NUL and byte i is NUL (or absent), they are the C string. */
  lemma {:induction false} CStringOfPrefix(s: seq<bv8>, i: nat)
    requires i <= |s| && forall k :: 0 <= k < i ==> s[k] != 0
    requires i < |s| ==> s[i] == 0
    ensures CString(s) == s[..i]
    decreases i
  {
    if i > 0 {
      assert s[0] == s[..i][0];
      CStringOfPrefix(s[1..], i - 1);
      assert s[1..][..i - 1] == s[1..i];
      assert s[..i] == [s[0]] + s[1..i];
    }
  }

  /** The empty string, with or without its terminator in view, hashes to 5381. */
  lemma EmptyStringHash()
    ensures Hash([]) == 5381 && Hash([0]) == 5381
  {
  }

  /** Bytes after the first NUL do not affect the hash. */
  lemma HashStopsAtNul(s: seq<bv8>, rest: seq<bv8>)
    requires 0 !in s
    ensures Hash(s + [0] + rest) == Hash(s)
  {
    var t := s + [0] + rest;
    assert t[..|s|] == s;
    CStringOfPrefix(t, |s|);
    CStringOfPrefix(s, |s|);
    assert s[..|s|] == s;
  }

  /** The relocate callback: (r, c) becomes (2r + 1, 2c + 1). */
  function Relocate(c: Coord): (r: Coord)
    ensures r.row % 2 == 1 && r.col % 2 == 1
    ensures (r.row - 1) / 2 == c.row && (r.col - 1) / 2 == c.col
  {
    Coord(c.row * 2 + 1, c.col * 2 + 1)
  }

  /** Distinct cells land on distinct pixels. */
  lemma RelocateInjective(a: Coord, b: Coord)
    requires Relocate(a) == Relocate(b)
    ensures a == b
  {
  }

  /** C's `/`: the quotient truncated toward zero. */
  function TruncDiv(a: int, b: int): (q: int)
    requires b != 0
    ensures b > 0 && a >= 0 ==> q == a / b
    ensures b > 0 && a < 0 ==> q == -((-a) / b)
    ensures b < 0 && a >= 0 ==> q == -(a / (-b))
    ensures b < 0 && a < 0 ==> q == (-a) / (-b)
  {
    var n := if a < 0 then -a else a;
    var d := if b < 0 then -b else b;
    if (a < 0) == (b < 0) then n / d else -(n / d)
  }

  /** `path->cell->row + (cell->row - path->cell->row) / 2`: the coordinate between two cells. */
  function Midpoint(from: int, to: int): int
  {
    from + TruncDiv(to - from, 2)
  }

  /** Two grid positions share a side. */
  predicate Neighbours(a: Coord, b: Coord)
  {
    (a.row == b.row && (a.col - b.col == 1 || b.col - a.col == 1))
    || (a.col == b.col && (a.row - b.row == 1 || b.row - a.row == 1))
  }

  /**
   * For two neighbouring cells after relocate, the pixel between them lies one
   * step from each along the axis they differ in, on an even (wall) line, and
   * on their shared odd line along the other axis.
   */
  lemma MidpointIsWallPixel(cell: Coord, other: Coord)
    requires Neighbours(cell, other)
    ensures var p, q := Relocate(cell), Relocate(other);
            var m := Coord(Midpoint(q.row, p.row), Midpoint(q.col, p.col));
            if cell.row == other.row then
              m.row == p.row && m.col % 2 == 0 && (m.col - p.col == 1 || p.col - m.col == 1)
              && (m.col - q.col == 1 || q.col - m.col == 1)
            else
              m.col == p.col && m.row % 2 == 0 && (m.row - p.row == 1 || p.row - m.row == 1)
              && (m.row - q.row == 1 || q.row - m.row == 1)
  {
  }

  /** Image width as maze.c sets it: `2 * rows + 1`. */
  function ImageWidth(rows: nat): nat
  {
    2 * rows + 1
  }

  /** Image height as maze.c sets it: `2 * cols + 1`. */
  function ImageHeight(cols: nat): nat
  {
    2 * cols + 1
  }

  /** `img.rows[y][x]` is inside an image of `height` row buffers of `width` pixels. */
  predicate InImage(width: nat, height: nat, y: int, x: int)
  {
    0 <= y < height && 0 <= x < width
  }

  /** Every cell pixel `img.rows[cell->row][cell->col]` of a rows x cols maze, as maze.c sizes the image. */
  predicate AllCellPixelsInImageAsWritten(rows: nat, cols: nat)
  {
    forall r: nat, c: nat :: r < rows && c < cols ==>
      InImage(ImageWidth(rows), ImageHeight(cols), Relocate(Coord(r, c)).row, Relocate(Coord(r, c)).col)
  }

  /** As written, the cell pixels all fit exactly when the maze is square. */
  lemma AsWrittenFitsIffSquare(rows: nat, cols: nat)
    requires rows >= 1 && cols >= 1
    ensures AllCellPixelsInImageAsWritten(rows, cols) <==> rows == cols
  {
    if AllCellPixelsInImageAsWritten(rows, cols) {
      var p := Relocate(Coord(rows - 1, cols - 1));
      assert InImage(ImageWidth(rows), ImageHeight(cols), p.row, p.col);
    }
  }

  /** A 1 x 2 maze: cell (0, 1) is drawn at column 3 of an image 3 pixels wide. */
  lemma AsWrittenOverrunsOneByTwo()
    ensures var p := Relocate(Coord(0, 1));
            p == Coord(1, 3) && !InImage(ImageWidth(1), ImageHeight(2), p.row, p.col)
  {
  }

  /** Image width indexed by column: `2 * cols + 1`. */
  function CorrectedImageWidth(cols: nat): nat
  {
    2 * cols + 1
  }

  /** Image height indexed by row: `2 * rows + 1`. */
  function CorrectedImageHeight(rows: nat): nat
  {
    2 * rows + 1
  }

  /**
   * With the image sized rows-by-columns, every cell pixel and every pixel
   * between two neighbouring cells lies inside the image. Sizes and coordinates
   * are unbounded integers here; C's `int` width and `unsigned short` loop
   * counters are not modelled.
   */
  lemma CorrectedImageHoldsMaze(rows: nat, cols: nat, cell: Coord, other: Coord)
    requires 0 <= cell.row < rows && 0 <= cell.col < cols
    requires 0 <= other.row < rows && 0 <= other.col < cols
    requires Neighbours(cell, other)
    ensures var p, q := Relocate(cell), Relocate(other);
            var w, h := CorrectedImageWidth(cols), CorrectedImageHeight(rows);
            InImage(w, h, p.row, p.col) && InImage(w, h, Midpoint(q.row, p.row), Midpoint(q.col, p.col))
  {
    MidpointIsWallPixel(cell, other);
  }
}
