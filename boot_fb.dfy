/**
 * The early kernel's frame-buffer console: the linear frame buffer that the
 * Multiboot2 FRAMEBUFFER tag describes, a terminal window of character cells
 * centred on the screen, a cursor that walks the cells, and the scan-line
 * copies that draw glyphs, draw the block cursor and scroll the window.
 * The mapped frame buffer is a flat array of bytes, pitch bytes per scan
 * line; a rectangle is written one scan line (one memcpy) at a time.
 */
module BootFb {
  import opened Wrappers
  import opened Mb2

  // ------------------------------------------------------------------
  // Arithmetic on scan-line offsets

  lemma MulLe(a: nat, b: nat, c: nat)
    requires a <= b
    ensures a * c <= b * c
  {
  }

  lemma MulNat(a: nat, b: nat)
    ensures a * b >= 0
  {
  }

  lemma MulAdd(a: nat, b: nat, c: nat)
    ensures (a + b) * c == a * c + b * c
  {
  }

  // ------------------------------------------------------------------
  // Rectangles of scan lines

  /** n lines of w bytes from base, pitch bytes apart, lie inside len bytes. */
  predicate Stampable(len: nat, base: nat, n: nat, w: nat, pitch: nat)
    decreases n
  {
    w <= pitch && (n == 0 || (base + w <= len && Stampable(len, base + pitch, n - 1, w, pitch)))
  }

  predicate Widths(rows: seq<seq<byte>>, w: nat)
  {
    forall k :: 0 <= k < |rows| ==> |rows[k]| == w
  }

  /** The lines y .. y + n - 1 of a buffer of Y lines, from byte x of each, w bytes wide. */
  lemma StampableAt(Y: nat, y: nat, n: nat, x: nat, w: nat, pitch: nat)
    requires y + n <= Y && x + w <= pitch
    ensures Stampable(Y * pitch, y * pitch + x, n, w, pitch)
  {
    StampableFrom(Y, y, n, x, w, pitch);
    LineStartIs(0, Y, pitch);
    LineStartIs(x, y, pitch);
  }

  /** A rectangle of w by h pixels at (x, y) on an X by Y screen of bpp-byte pixels lies inside its buffer. */
  lemma RectStampable(len: nat, X: nat, Y: nat, pitch: nat, bpp: nat, x: nat, y: nat, w: nat, h: nat)
    requires len == Y * pitch && X * bpp <= pitch && x + w <= X && y + h <= Y
    ensures Stampable(len, Pixel(y, x * bpp, pitch), h, w * bpp, pitch)
  {
    MulLe(x + w, X, bpp);
    MulAdd(x, w, bpp);
    StampableIn(len, Y, y, h, x * bpp, w * bpp, pitch);
  }

  /** StampableFrom for a buffer of exactly Y lines. */
  lemma StampableIn(len: nat, Y: nat, y: nat, n: nat, x: nat, w: nat, pitch: nat)
    requires len == Y * pitch && y + n <= Y && x + w <= pitch
    ensures Stampable(len, LineStart(x, y, pitch), n, w, pitch)
  {
    StampableFrom(Y, y, n, x, w, pitch);
    LineStartIs(0, Y, pitch);
  }

  /** StampableAt with offsets counted in whole lines. */
  lemma {:induction false} StampableFrom(Y: nat, y: nat, n: nat, x: nat, w: nat, pitch: nat)
    requires y + n <= Y && x + w <= pitch
    ensures Stampable(LineStart(0, Y, pitch), LineStart(x, y, pitch), n, w, pitch)
    decreases n
  {
    if n > 0 {
      LineStartShift(0, x, y, pitch);
      LineStartNext(0, y, pitch);
      LineStartMono(0, y + 1, Y, pitch);
      LineStartNext(x, y, pitch);
      StampableFrom(Y, y + 1, n - 1, x, w, pitch);
    }
  }

  /**
   * The scan lines rows[0], rows[1], ... written from base, pitch bytes
   * apart, first to last: one memcpy per line.
   */
  function Stamp(m: seq<byte>, base: nat, rows: seq<seq<byte>>, w: nat, pitch: nat): (r: seq<byte>)
    requires Stampable(|m|, base, |rows|, w, pitch) && Widths(rows, w)
    ensures |r| == |m|
    decreases |rows|
  {
    if |rows| == 0 then m
    else Stamp(Copy(m, base, rows[0]), base + pitch, rows[1..], w, pitch)
  }

  /** memcpy of the line b to offset off of the frame buffer m, one byte at a time. */
  function Copy(m: seq<byte>, off: nat, b: seq<byte>): (r: seq<byte>)
    requires off + |b| <= |m|
    ensures |r| == |m|
    decreases |b|
  {
    if |b| == 0 then m else Copy(m[off := b[0]], off + 1, b[1..])
  }

  /** After the memcpy, the bytes from off hold b and all others are as before. */
  lemma {:induction false} CopyAt(m: seq<byte>, off: nat, b: seq<byte>)
    requires off + |b| <= |m|
    ensures forall a :: 0 <= a < |m| ==> Copy(m, off, b)[a] == if off <= a < off + |b| then b[a - off] else m[a]
    decreases |b|
  {
    if |b| > 0 {
      CopyAt(m[off := b[0]], off + 1, b[1..]);
    }
  }

  /** Bytes before the first line keep their value. */
  lemma {:induction false} StampBefore(m: seq<byte>, base: nat, rows: seq<seq<byte>>, w: nat, pitch: nat, a: nat)
    requires Stampable(|m|, base, |rows|, w, pitch) && Widths(rows, w) && a < base && a < |m|
    ensures Stamp(m, base, rows, w, pitch)[a] == m[a]
    decreases |rows|
  {
    if |rows| > 0 {
      CopyAt(m, base, rows[0]);
      StampBefore(Copy(m, base, rows[0]), base + pitch, rows[1..], w, pitch, a);
    }
  }

  /** Where line q of a rectangle from base starts, pitch bytes per line: base + q * pitch. */
  function LineStart(base: nat, q: nat, pitch: nat): (o: nat)
    decreases q
  {
    if q == 0 then base else LineStart(base + pitch, q - 1, pitch)
  }

  lemma {:induction false} LineStartIs(base: nat, q: nat, pitch: nat)
    ensures LineStart(base, q, pitch) == base + q * pitch
    decreases q
  {
    if q > 0 {
      LineStartIs(base + pitch, q - 1, pitch);
      MulAdd(q - 1, 1, pitch);
    }
  }

  /**
   * Byte r of line q, counted from base: rows[q][r] when q is one of the
   * lines and r lies within their width, and otherwise what was there.
   */
  lemma {:induction false} StampLine(m: seq<byte>, base: nat, rows: seq<seq<byte>>, w: nat, pitch: nat, q: nat, r: nat)
    requires Stampable(|m|, base, |rows|, w, pitch) && Widths(rows, w) && r < pitch
    requires LineStart(base, q, pitch) + r < |m|
    ensures Stamp(m, base, rows, w, pitch)[LineStart(base, q, pitch) + r] ==
            if q < |rows| && r < w then rows[q][r] else m[LineStart(base, q, pitch) + r]
    decreases |rows|
  {
    var a := LineStart(base, q, pitch) + r;
    if |rows| > 0 {
      var m' := Copy(m, base, rows[0]);
      CopyAt(m, base, rows[0]);
      assert Stampable(|m'|, base + pitch, |rows| - 1, w, pitch) && Widths(rows[1..], w);
      assert Stamp(m, base, rows, w, pitch) == Stamp(m', base + pitch, rows[1..], w, pitch);
      if q == 0 {
        StampBefore(m', base + pitch, rows[1..], w, pitch, a);
      } else {
        assert a == LineStart(base + pitch, q - 1, pitch) + r;
        LineStartAfter(base + pitch, q - 1, pitch);
        assert m'[a] == m[a];
        StampLine(m', base + pitch, rows[1..], w, pitch, q - 1, r);
        if q < |rows| {
          assert rows[1..][q - 1] == rows[q];
        }
      }
    }
  }

  lemma {:induction false} LineStartAfter(base: nat, q: nat, pitch: nat)
    ensures base <= LineStart(base, q, pitch)
    decreases q
  {
    if q > 0 {
      LineStartAfter(base + pitch, q - 1, pitch);
    }
  }

  /** The lines of w bytes from src, pitch bytes apart, as they are in m. */
  function Lines(m: seq<byte>, src: nat, n: nat, w: nat, pitch: nat): (rows: seq<seq<byte>>)
    requires Stampable(|m|, src, n, w, pitch)
    ensures |rows| == n && Widths(rows, w)
    decreases n
  {
    if n == 0 then [] else [m[src..src + w]] + Lines(m, src + pitch, n - 1, w, pitch)
  }

  /** m agrees with m0 from byte s on. */
  ghost predicate Above(m: seq<byte>, m0: seq<byte>, s: nat)
  {
    |m| == |m0| && forall a :: s <= a < |m| ==> m[a] == m0[a]
  }

  /** k scan lines of w bytes copied within m from s to d, pitch bytes apart, first to last. */
  function LineCopy(m: seq<byte>, d: nat, s: nat, k: nat, w: nat, pitch: nat): (r: seq<byte>)
    requires Stampable(|m|, s, k, w, pitch) && Stampable(|m|, d, k, w, pitch)
    ensures |r| == |m|
    decreases k
  {
    if k == 0 then m else LineCopy(Copy(m, d, m[s..s + w]), d + pitch, s + pitch, k - 1, w, pitch)
  }

  /** A forward copy whose source lines lie above its target lines stamps the lines as they
      were before the copy began. */
  lemma {:induction false} LineCopyIsStamp(m: seq<byte>, m0: seq<byte>, d: nat, s: nat, k: nat, w: nat, pitch: nat)
    requires Above(m, m0, s) && d + pitch <= s
    requires Stampable(|m0|, s, k, w, pitch) && Stampable(|m0|, d, k, w, pitch)
    ensures LineCopy(m, d, s, k, w, pitch) == Stamp(m, d, Lines(m0, s, k, w, pitch), w, pitch)
    decreases k
  {
    if k > 0 {
      assert m[s..s + w] == m0[s..s + w];
      var rows := Lines(m0, s, k, w, pitch);
      assert rows[0] == m0[s..s + w] && rows[1..] == Lines(m0, s + pitch, k - 1, w, pitch);
      var m' := Copy(m, d, m0[s..s + w]);
      CopyAt(m, d, m0[s..s + w]);
      assert Above(m', m0, s + pitch);
      LineCopyIsStamp(m', m0, d + pitch, s + pitch, k - 1, w, pitch);
    }
  }

  /** Byte r of line q of Lines is the byte at src + q * pitch + r. */
  lemma {:induction false} LinesAt(m: seq<byte>, src: nat, n: nat, w: nat, pitch: nat, q: nat, r: nat)
    requires Stampable(|m|, src, n, w, pitch) && q < n && r < w
    ensures LineStart(src, q, pitch) + r < |m| && Lines(m, src, n, w, pitch)[q][r] == m[LineStart(src, q, pitch) + r]
    decreases n
  {
    if q > 0 {
      var rest := Lines(m, src + pitch, n - 1, w, pitch);
      assert Lines(m, src, n, w, pitch)[q] == rest[q - 1];
      LinesAt(m, src + pitch, n - 1, w, pitch, q - 1, r);
    }
  }

  /** The offset of byte c of scan line y, pitch bytes per line. */
  function Pixel(y: nat, c: nat, pitch: nat): nat
  {
    LineStart(c, y, pitch)
  }

  lemma PixelIs(y: nat, c: nat, pitch: nat)
    ensures Pixel(y, c, pitch) == y * pitch + c
  {
    LineStartIs(c, y, pitch);
  }

  /**
   * A rectangle drawn from line y0, byte x0, in a buffer of Y scan lines:
   * the byte at line y, column c is the rectangle's own byte inside it and
   * the old byte outside it.
   */
  lemma StampAt(m: seq<byte>, Y: nat, pitch: nat, y0: nat, x0: nat, rows: seq<seq<byte>>, w: nat, y: nat, c: nat)
    requires |m| == LineStart(0, Y, pitch) && y0 + |rows| <= Y && x0 + w <= pitch && Widths(rows, w)
    requires y < Y && c < pitch
    ensures Stampable(|m|, Pixel(y0, x0, pitch), |rows|, w, pitch) && Pixel(y, c, pitch) < |m|
    ensures Stamp(m, Pixel(y0, x0, pitch), rows, w, pitch)[Pixel(y, c, pitch)] ==
            if y0 <= y < y0 + |rows| && x0 <= c < x0 + w then rows[y - y0][c - x0] else m[Pixel(y, c, pitch)]
  {
    StampableFrom(Y, y0, |rows|, x0, w, pitch);
    PixelBelow(y, c, Y, pitch);
    if y < y0 || (y == y0 && c < x0) {
      StampAtBefore(m, pitch, y0, x0, rows, w, y, c);
    } else if x0 <= c {
      StampAtRow(m, pitch, y0, x0, rows, w, y, c);
    } else {
      StampAtWrap(m, pitch, y0, x0, rows, w, y, c);
    }
  }

  lemma StampAtBefore(m: seq<byte>, pitch: nat, y0: nat, x0: nat, rows: seq<seq<byte>>, w: nat, y: nat, c: nat)
    requires Stampable(|m|, Pixel(y0, x0, pitch), |rows|, w, pitch) && Widths(rows, w) && Pixel(y, c, pitch) < |m|
    requires (y < y0 && c < pitch) || (y == y0 && c < x0)
    ensures Stamp(m, Pixel(y0, x0, pitch), rows, w, pitch)[Pixel(y, c, pitch)] == m[Pixel(y, c, pitch)]
  {
    PixelBefore(y0, x0, y, c, pitch);
    StampBefore(m, Pixel(y0, x0, pitch), rows, w, pitch, Pixel(y, c, pitch));
  }

  lemma StampAtRow(m: seq<byte>, pitch: nat, y0: nat, x0: nat, rows: seq<seq<byte>>, w: nat, y: nat, c: nat)
    requires Stampable(|m|, Pixel(y0, x0, pitch), |rows|, w, pitch) && Widths(rows, w) && Pixel(y, c, pitch) < |m|
    requires y0 <= y && x0 <= c < pitch
    ensures Stamp(m, Pixel(y0, x0, pitch), rows, w, pitch)[Pixel(y, c, pitch)] ==
            if y - y0 < |rows| && c - x0 < w then rows[y - y0][c - x0] else m[Pixel(y, c, pitch)]
  {
    PixelInRow(y0, x0, y, c, pitch);
    StampLine(m, Pixel(y0, x0, pitch), rows, w, pitch, y - y0, c - x0);
  }

  lemma StampAtWrap(m: seq<byte>, pitch: nat, y0: nat, x0: nat, rows: seq<seq<byte>>, w: nat, y: nat, c: nat)
    requires Stampable(|m|, Pixel(y0, x0, pitch), |rows|, w, pitch) && Widths(rows, w) && Pixel(y, c, pitch) < |m|
    requires y0 < y && c < x0 && x0 + w <= pitch
    ensures Stamp(m, Pixel(y0, x0, pitch), rows, w, pitch)[Pixel(y, c, pitch)] == m[Pixel(y, c, pitch)]
  {
    PixelWrap(y0, x0, y, c, pitch);
    StampLine(m, Pixel(y0, x0, pitch), rows, w, pitch, y - y0 - 1, pitch - x0 + c);
  }

  lemma PixelBelow(y: nat, c: nat, Y: nat, pitch: nat)
    requires y < Y && c < pitch
    ensures Pixel(y, c, pitch) < LineStart(0, Y, pitch)
  {
    LineStartShift(0, c, y, pitch);
    LineStartNext(0, y, pitch);
    LineStartMono(0, y + 1, Y, pitch);
  }

  lemma PixelBefore(y0: nat, x0: nat, y: nat, c: nat, pitch: nat)
    requires (y < y0 && c < pitch) || (y == y0 && c < x0)
    ensures Pixel(y, c, pitch) < Pixel(y0, x0, pitch)
  {
    if y < y0 {
      LineStartShift(0, x0, y0, pitch);
      PixelBelow(y, c, y0, pitch);
    } else {
      LineStartShift(c, x0 - c, y0, pitch);
    }
  }

  lemma PixelInRow(y0: nat, x0: nat, y: nat, c: nat, pitch: nat)
    requires y0 <= y && x0 <= c
    ensures Pixel(y, c, pitch) == LineStart(Pixel(y0, x0, pitch), y - y0, pitch) + (c - x0)
  {
    LineStartSplit(c, y0, y - y0, pitch);
    LineStartShift(x0, c - x0, y0, pitch);
    LineStartShift(Pixel(y0, x0, pitch), c - x0, y - y0, pitch);
  }

  lemma PixelWrap(y0: nat, x0: nat, y: nat, c: nat, pitch: nat)
    requires y0 < y && c < x0 <= pitch
    ensures Pixel(y, c, pitch) == LineStart(Pixel(y0, x0, pitch), y - y0 - 1, pitch) + (pitch - x0 + c)
  {
    LineStartSplit(c, y0 + 1, y - y0 - 1, pitch);
    LineStartNext(c, y0, pitch);
    LineStartShift(x0, pitch - x0 + c, y0, pitch);
    LineStartShift(Pixel(y0, x0, pitch), pitch - x0 + c, y - y0 - 1, pitch);
  }

  lemma {:induction false} LineStartShift(base: nat, k: nat, q: nat, pitch: nat)
    ensures LineStart(base + k, q, pitch) == LineStart(base, q, pitch) + k
    decreases q
  {
    if q > 0 {
      LineStartShift(base + pitch, k, q - 1, pitch);
    }
  }

  lemma {:induction false} LineStartSplit(base: nat, q1: nat, q2: nat, pitch: nat)
    ensures LineStart(base, q1 + q2, pitch) == LineStart(LineStart(base, q1, pitch), q2, pitch)
    decreases q1
  {
    if q1 > 0 {
      LineStartSplit(base + pitch, q1 - 1, q2, pitch);
    }
  }

  lemma LineStartMono(base: nat, q1: nat, q2: nat, pitch: nat)
    requires q1 <= q2
    ensures LineStart(base, q1, pitch) <= LineStart(base, q2, pitch)
  {
    LineStartSplit(base, q1, q2 - q1, pitch);
    LineStartAfter(LineStart(base, q1, pitch), q2 - q1, pitch);
  }

  /** Two memcpys to disjoint places may be done in either order. */
  lemma CopyCommute(m: seq<byte>, b: nat, x: seq<byte>, c: nat, y: seq<byte>)
    requires b + |x| <= c && c + |y| <= |m|
    ensures Copy(Copy(m, c, y), b, x) == Copy(Copy(m, b, x), c, y)
  {
    CopyAt(m, c, y);
    CopyAt(Copy(m, c, y), b, x);
    CopyAt(m, b, x);
    CopyAt(Copy(m, b, x), c, y);
  }

  /** A memcpy over the whole of an earlier one of the same length undoes it. */
  lemma CopyTwice(m: seq<byte>, b: nat, x: seq<byte>, y: seq<byte>)
    requires b + |x| <= |m| && |x| == |y|
    ensures Copy(Copy(m, b, x), b, y) == Copy(m, b, y)
  {
    CopyAt(m, b, x);
    CopyAt(Copy(m, b, x), b, y);
    CopyAt(m, b, y);
  }

  /** A line above a rectangle may be written before or after it. */
  lemma {:induction false} CopyStampCommute(m: seq<byte>, b: nat, x: seq<byte>, base: nat, rows: seq<seq<byte>>, w: nat, pitch: nat)
    requires b + |x| <= base && b + |x| <= |m| && Stampable(|m|, base, |rows|, w, pitch) && Widths(rows, w)
    ensures Copy(Stamp(m, base, rows, w, pitch), b, x) == Stamp(Copy(m, b, x), base, rows, w, pitch)
    decreases |rows|
  {
    if |rows| > 0 {
      CopyCommute(m, b, x, base, rows[0]);
      CopyStampCommute(Copy(m, base, rows[0]), b, x, base + pitch, rows[1..], w, pitch);
    }
  }

  /** Drawing a rectangle over an earlier one of the same shape hides it completely. */
  lemma {:induction false} StampTwice(m: seq<byte>, base: nat, r1: seq<seq<byte>>, r2: seq<seq<byte>>, w: nat, pitch: nat)
    requires Stampable(|m|, base, |r1|, w, pitch) && Widths(r1, w) && Widths(r2, w) && |r1| == |r2|
    ensures Stamp(Stamp(m, base, r1, w, pitch), base, r2, w, pitch) == Stamp(m, base, r2, w, pitch)
    decreases |r1|
  {
    if |r1| > 0 {
      var m1 := Copy(m, base, r1[0]);
      CopyStampCommute(m1, base, r2[0], base + pitch, r1[1..], w, pitch);
      CopyTwice(m, base, r1[0], r2[0]);
      StampTwice(Copy(m, base, r2[0]), base + pitch, r1[1..], r2[1..], w, pitch);
    }
  }

  /** Writing back the lines that are already there changes nothing. */
  lemma {:induction false} StampSelf(m: seq<byte>, base: nat, n: nat, w: nat, pitch: nat)
    requires Stampable(|m|, base, n, w, pitch)
    ensures Stamp(m, base, Lines(m, base, n, w, pitch), w, pitch) == m
    decreases n
  {
    if n > 0 {
      var rows := Lines(m, base, n, w, pitch);
      assert rows[0] == m[base..base + w] && rows[1..] == Lines(m, base + pitch, n - 1, w, pitch);
      CopyAt(m, base, m[base..base + w]);
      assert Copy(m, base, m[base..base + w]) == m;
      StampSelf(m, base + pitch, n - 1, w, pitch);
    }
  }

  function Blank(n: nat, w: nat): (rows: seq<seq<byte>>)
    ensures |rows| == n && Widths(rows, w)
    ensures forall k, j :: 0 <= k < n && 0 <= j < w ==> rows[k][j] == 0
  {
    seq(n, k => seq(w, j => 0))
  }

  /** Line q of Lines is the w bytes from where line q starts. */
  lemma {:induction false} LinesRow(m: seq<byte>, src: nat, n: nat, w: nat, pitch: nat, q: nat)
    requires Stampable(|m|, src, n, w, pitch) && q < n
    ensures LineStart(src, q, pitch) + w <= |m|
    ensures Lines(m, src, n, w, pitch)[q] == m[LineStart(src, q, pitch)..LineStart(src, q, pitch) + w]
    decreases n
  {
    if q > 0 {
      LinesRow(m, src + pitch, n - 1, w, pitch, q - 1);
    }
  }

  lemma {:induction false} LineStartNext(base: nat, q: nat, pitch: nat)
    ensures LineStart(base, q + 1, pitch) == LineStart(base, q, pitch) + pitch
    decreases q
  {
    if q > 0 {
      LineStartNext(base + pitch, q - 1, pitch);
    }
  }

  /** Clearing n scan lines from base leaves zero bytes from base to the end of the last. */
  lemma {:induction false} BlankFrom(m: seq<byte>, base: nat, n: nat, pitch: nat)
    requires Stampable(|m|, base, n, pitch, pitch)
    ensures forall a :: base <= a < LineStart(base, n, pitch) && a < |m| ==> Stamp(m, base, Blank(n, pitch), pitch, pitch)[a] == 0
    decreases n
  {
    if n > 0 {
      var rows := Blank(n, pitch);
      var m' := Copy(m, base, rows[0]);
      assert rows[1..] == Blank(n - 1, pitch);
      CopyAt(m, base, rows[0]);
      BlankFrom(m', base + pitch, n - 1, pitch);
      forall a | base <= a < base + pitch && a < |m|
        ensures Stamp(m, base, rows, pitch, pitch)[a] == 0
      {
        StampBefore(m', base + pitch, rows[1..], pitch, pitch, a);
      }
    }
  }

  /** Clearing every scan line of a buffer of Y lines leaves only zero bytes. */
  lemma BlankScreen(m: seq<byte>, Y: nat, pitch: nat)
    requires |m| == Y * pitch
    ensures Stampable(|m|, 0, Y, pitch, pitch)
    ensures forall a :: 0 <= a < |m| ==> Stamp(m, 0, Blank(Y, pitch), pitch, pitch)[a] == 0
  {
    StampableAt(Y, 0, Y, 0, pitch, pitch);
    LineStartIs(0, Y, pitch);
    BlankFrom(m, 0, Y, pitch);
  }

  /** Each byte XORed with 0xFF, that is 255 minus the byte. */
  function InvertRow(row: seq<byte>): (r: seq<byte>)
    ensures |r| == |row| && forall j :: 0 <= j < |row| ==> r[j] == 255 - row[j]
  {
    seq(|row|, j requires 0 <= j < |row| => 255 - row[j])
  }

  /** The block cursor's image: the saved area with every byte inverted. */
  function Inverted(rows: seq<seq<byte>>): (r: seq<seq<byte>>)
    ensures |r| == |rows| && forall k :: 0 <= k < |rows| ==> r[k] == InvertRow(rows[k])
    ensures forall w :: Widths(rows, w) ==> Widths(r, w)
  {
    seq(|rows|, k requires 0 <= k < |rows| => InvertRow(rows[k]))
  }

  /** Inverting twice gives the saved area back. */
  lemma InvertTwice(rows: seq<seq<byte>>)
    ensures Inverted(Inverted(rows)) == rows
  {
    forall k | 0 <= k < |rows|
      ensures Inverted(Inverted(rows))[k] == rows[k]
    {
      assert InvertRow(InvertRow(rows[k])) == rows[k];
    }
  }

  // ------------------------------------------------------------------
  // The cursor's walk over the character cells

  /** fb_info_pixel_coord_t and fb_info_char_coord_t. */
  datatype Coord = Coord(x: nat, y: nat)

  /** set_cursor_row: x back to 0 and one row down, or the same row when that was the last. */
  function NewLine(p: Coord, rows: nat): (r: Coord)
    ensures r.x == 0 && (r.y == p.y + 1 || (r.y == p.y && p.y + 1 >= rows))
    ensures p.y < rows ==> r.y < rows
  {
    if p.y + 1 < rows then Coord(0, p.y + 1) else Coord(0, p.y)
  }

  const NL: byte := 10
  const CR: byte := 13
  const BS: byte := 8

  /**
   * Where boot_fb_putchar leaves the cursor: '\n' starts the next row,
   * '\r' goes to column 0 of the same row, '\b' steps back one column
   * unless at column 0, and any other character advances one column,
   * wrapping to the next row after the last column.
   */
  function Next(p: Coord, c: byte, cols: nat, rows: nat): (r: Coord)
    ensures p.x < cols && p.y < rows ==> r.x < cols && r.y < rows
    ensures c == CR ==> r == Coord(0, p.y)
    ensures c == BS ==> r.y == p.y && (if p.x > 0 then r.x == p.x - 1 else r.x == 0)
    ensures c != NL && c != CR && c != BS && p.x + 1 < cols ==> r == Coord(p.x + 1, p.y)
  {
    if c == NL then NewLine(p, rows)
    else if c == CR then Coord(0, p.y)
    else if c == BS then Coord(if p.x > 0 then p.x - 1 else 0, p.y)
    else if p.x + 1 < cols then Coord(p.x + 1, p.y)
    else NewLine(p, rows)
  }

  /** Whether c written at p scrolls the window: a new row asked for on the last row. */
  predicate Scrolls(p: Coord, c: byte, cols: nat, rows: nat)
  {
    (c == NL || (c != CR && c != BS && p.x + 1 >= cols)) && p.y + 1 >= rows
  }

  /** The cursor after a string of characters. */
  function Walk(p: Coord, s: seq<byte>, cols: nat, rows: nat): Coord
    decreases |s|
  {
    if |s| == 0 then p else Walk(Next(p, s[0], cols, rows), s[1..], cols, rows)
  }

  /** Whatever is written, the cursor stays on a cell of the terminal. */
  lemma {:induction false} WalkInside(p: Coord, s: seq<byte>, cols: nat, rows: nat)
    requires p.x < cols && p.y < rows
    ensures Walk(p, s, cols, rows).x < cols && Walk(p, s, cols, rows).y < rows
    decreases |s|
  {
    if |s| > 0 {
      WalkInside(Next(p, s[0], cols, rows), s[1..], cols, rows);
    }
  }

  predicate Printing(c: byte)
  {
    c != NL && c != CR && c != BS
  }

  /** Characters that fit on the rest of the row move the cursor right by their number. */
  lemma {:induction false} WalkAlongRow(p: Coord, s: seq<byte>, cols: nat, rows: nat)
    requires forall k :: 0 <= k < |s| ==> Printing(s[k])
    requires p.x + |s| < cols
    ensures Walk(p, s, cols, rows) == Coord(p.x + |s|, p.y)
    decreases |s|
  {
    if |s| > 0 {
      assert Printing(s[0]);
      WalkAlongRow(Coord(p.x + 1, p.y), s[1..], cols, rows);
    }
  }

  /** A full row of characters from column 0 wraps to column 0 of the next row, or scrolls on the last. */
  lemma FullRow(y: nat, s: seq<byte>, cols: nat, rows: nat)
    requires forall k :: 0 <= k < |s| ==> Printing(s[k])
    requires |s| == cols > 0
    ensures Walk(Coord(0, y), s, cols, rows) == NewLine(Coord(0, y), rows)
  {
    var n := |s| - 1;
    WalkAlongRow(Coord(0, y), s[..n], cols, rows);
    WalkSplit(Coord(0, y), s[..n], s[n..], cols, rows);
    assert s[..n] + s[n..] == s;
    assert Printing(s[n..][0]);
  }

  lemma {:induction false} WalkSplit(p: Coord, s: seq<byte>, t: seq<byte>, cols: nat, rows: nat)
    ensures Walk(p, s + t, cols, rows) == Walk(Walk(p, s, cols, rows), t, cols, rows)
    decreases |s|
  {
    if |s| > 0 {
      assert (s + t)[1..] == s[1..] + t;
      WalkSplit(Next(p, s[0], cols, rows), s[1..], t, cols, rows);
    } else {
      assert s + t == t;
    }
  }

  // ------------------------------------------------------------------
  // The frame buffer console

  /** The fields of the FRAMEBUFFER tag (common part and the RGB colour info) that xbi_fb_init reads. */
  datatype FbTag = FbTag(addr: u64, pitch: u32, width: u32, height: u32, bpp: byte, typ: byte,
                         redPos: byte, redSize: byte, greenPos: byte, greenSize: byte,
                         bluePos: byte, blueSize: byte)

  datatype RgbField = RgbField(size: byte, pos: byte)

  /** The offset that centres used pixels on a screen of n: the two margins differ by at most one. */
  function Centre(n: nat, used: nat): (o: nat)
    requires used <= n
    ensures 2 * o + used <= n <= 2 * o + used + 1
  {
    (n - used) / 2
  }

  /**
   * fb_info.cursor, together with the file's blank buffer (the area saved
   * from under the cursor): the cell the cursor is on, the pixel origin of
   * that cell, and whether the cursor is drawn.
   */
  class BlockCursor {
    var origin: Coord
    var pos: Coord
    var visible: bool
    var blank: seq<seq<byte>>

    constructor()
      ensures origin == Coord(0, 0) && pos == Coord(0, 0) && !visible && blank == []
    {
      origin, pos, visible, blank := Coord(0, 0), Coord(0, 0), false, [];
    }

    /** The cursor shown at the first cell of a window whose origin is o, saving into blank. */
    method Home(o: Coord, b: seq<seq<byte>>)
      modifies this
      ensures origin == o && pos == Coord(0, 0) && visible && blank == b
    {
      origin, pos, visible, blank := o, Coord(0, 0), true, b;
    }
  }

  /**
   * fb_info together with the file's own state (the font size and the
   * precomputed last line); mem is the mapped frame buffer.
   */
  class FbInfo {
    var paddr: u64
    var fbSize: nat
    var pitch: nat
    var bpp: nat
    var depth: nat
    var red: RgbField
    var green: RgbField
    var blue: RgbField
    var screen: Coord
    var terminalOrigin: Coord
    var terminal: Coord
    var cursor: BlockCursor
    var fontWidth: nat
    var fontHeight: nat
    var inverse: bool
    var inverseScreen: bool
    var lastLineSize: nat
    var lastLine: Coord
    var mem: array<byte>

    /** The zero-filled global before xbi_fb_init. */
    constructor()
      ensures screen == Coord(0, 0) && terminal == Coord(0, 0) && pitch == 0 && bpp == 0 && mem.Length == 0
    {
      paddr, fbSize, pitch, bpp, depth := 0, 0, 0, 0, 0;
      red, green, blue := RgbField(0, 0), RgbField(0, 0), RgbField(0, 0);
      screen, terminalOrigin, terminal := Coord(0, 0), Coord(0, 0), Coord(0, 0);
      cursor := new BlockCursor();
      fontWidth, fontHeight := 0, 0;
      inverse, inverseScreen := false, false;
      lastLineSize, lastLine := 0, Coord(0, 0);
      mem := new byte[0];
    }

    /** The frame buffer holds screen.y scan lines of pitch bytes, each long enough for a row of pixels. */
    predicate Mapped()
      reads this
    {
      mem.Length == screen.y * pitch && screen.x * bpp <= pitch
    }

    /**
     * The terminal window as boot_fb_init sets it up: it fits on the
     * screen and is centred, and the last line is its bottom row.
     */
    predicate Window()
      reads this
    {
      0 < terminal.x && 0 < terminal.y && 0 < fontWidth && 0 < fontHeight &&
      terminal.x * fontWidth <= screen.x && terminal.y * fontHeight <= screen.y &&
      terminalOrigin == Coord(Centre(screen.x, terminal.x * fontWidth), Centre(screen.y, terminal.y * fontHeight)) &&
      lastLine == Coord(terminalOrigin.x, terminalOrigin.y + (terminal.y - 1) * fontHeight) &&
      lastLineSize == terminal.x * fontWidth * bpp
    }

    /** The cursor is on a cell of the terminal, and its pixel origin is that cell's. */
    predicate OnCell()
      reads this, cursor
    {
      InTerminal(cursor.pos) && cursor.origin == Cell(cursor.pos)
    }

    predicate InTerminal(p: Coord)
      reads this
    {
      p.x < terminal.x && p.y < terminal.y
    }

    /** The pixel origin of the character cell at p. */
    function Cell(p: Coord): Coord
      reads this
    {
      Coord(terminalOrigin.x + p.x * fontWidth, terminalOrigin.y + p.y * fontHeight)
    }

    /** The console's invariant once boot_fb_init has run. */
    predicate Valid()
      reads this, cursor
    {
      Mapped() && Window() && OnCell() && |cursor.blank| == fontHeight && Widths(cursor.blank, fontWidth * bpp)
    }

    /** boot_fb_blit's guard: the rectangle lies entirely on the screen. */
    predicate OnScreen(col: nat, row: nat, width: nat, height: nat)
      reads this
    {
      col < screen.x && row < screen.y && col + width <= screen.x && row + height <= screen.y
    }

    /** The frame buffer m after the scan lines of data are written at (col, row). */
    function Blitted(m: seq<byte>, col: nat, row: nat, width: nat, data: seq<seq<byte>>): (r: seq<byte>)
      reads this
      requires Mapped() && |m| == mem.Length && OnScreen(col, row, width, |data|) && Widths(data, width * bpp)
      ensures |r| == |m|
    {
      PixelsFit(col, width);
      StampableFrom(screen.y, row, |data|, col * bpp, width * bpp, pitch);
      LineStartIs(0, screen.y, pitch);
      Stamp(m, Pixel(row, col * bpp, pitch), data, width * bpp, pitch)
    }

    /** Pixels col .. col + width - 1 of a scan line lie within its pitch bytes. */
    lemma PixelsFit(col: nat, width: nat)
      requires Mapped() && col + width <= screen.x
      ensures col * bpp + width * bpp <= pitch
    {
      MulLe(col + width, screen.x, bpp);
    }
 
    /**
     * The byte at scan line y, byte c of the line after a blit: the data's
     * byte inside the rectangle, and the old byte everywhere else.
     */
    lemma BlitPixels(m: seq<byte>, col: nat, row: nat, width: nat, data: seq<seq<byte>>, y: nat, c: nat)
      requires Mapped() && |m| == mem.Length && OnScreen(col, row, width, |data|) && Widths(data, width * bpp)
      requires y < screen.y && c < pitch
      ensures Pixel(y, c, pitch) < |m|
      ensures Blitted(m, col, row, width, data)[Pixel(y, c, pitch)] ==
              if row <= y < row + |data| && col * bpp <= c < col * bpp + width * bpp
              then data[y - row][c - col * bpp] else m[Pixel(y, c, pitch)]
    {
      PixelsFit(col, width);
      LineStartIs(0, screen.y, pitch);
      StampAt(m, screen.y, pitch, row, col * bpp, data, width * bpp, y, c);
    }

    /** One memcpy (or a memset, with a line of zeros) into the frame buffer. */
    method CopyLine(off: nat, line: seq<byte>)
      requires off + |line| <= mem.Length
      modifies mem
      ensures mem[..] == Copy(old(mem[..]), off, line)
    {
      forall j | 0 <= j < |line| {
        mem[off + j] := line[j];
      }
      CopyAt(old(mem[..]), off, line);
    }

    /**
     * boot_fb_blit: nothing unless the rectangle lies entirely on the
     * screen; otherwise its scan lines, one memcpy each, first to last.
     */
    method Blit(col: nat, row: nat, width: nat, height: nat, data: seq<seq<byte>>)
      requires Mapped() && |data| == height && Widths(data, width * bpp)
      modifies mem
      ensures !OnScreen(col, row, width, height) ==> mem[..] == old(mem[..])
      ensures OnScreen(col, row, width, height) ==> mem[..] == Blitted(old(mem[..]), col, row, width, data)
    {
      if col >= screen.x || row >= screen.y || col + width > screen.x || row + height > screen.y {
        return;
      }
      var fbp: nat := col * bpp + row * pitch;
      PixelsFit(col, width);
      StampableAt(screen.y, row, height, col * bpp, width * bpp, pitch);
      PixelIs(row, col * bpp, pitch);
      PutLines(fbp, data, width * bpp);
    }

    // boot_fb_scroll's copy: the scan lines below the terminal's first row,
    // from terminal_origin.x across to the right margin, moved up one row.

    /** The number of scan lines moved: from the second row to the bottom margin. */
    function ScrollHeight(): (h: nat)
      reads this
      requires Window()
      ensures terminalOrigin.y + fontHeight + h + terminalOrigin.y == screen.y
      ensures (terminal.y - 1) * fontHeight <= h
    {
      MulLe(1, terminal.y, fontHeight);
      MulAdd(terminal.y - 1, 1, fontHeight);
      (screen.y - terminalOrigin.y) - (terminalOrigin.y + fontHeight)
    }

    /** The bytes moved per scan line: from terminal_origin.x to the right margin. */
    function ScrollWidth(): (w: nat)
      reads this
      requires Mapped() && Window()
      ensures terminalOrigin.x * bpp + w <= pitch && lastLineSize <= w
    {
      var n := (screen.x - terminalOrigin.x) - terminalOrigin.x;
      MulLe(terminal.x * fontWidth, n, bpp);
      MulLe(terminalOrigin.x + n, screen.x, bpp);
      n * bpp
    }

    function SOffset(): nat
      reads this
    {
      terminalOrigin.x * bpp + (terminalOrigin.y + fontHeight) * pitch
    }

    function TOffset(): nat
      reads this
    {
      terminalOrigin.x * bpp + terminalOrigin.y * pitch
    }

    function LastOffset(): nat
      reads this
    {
      lastLine.x * bpp + lastLine.y * pitch
    }

    /** The scan lines of the window below its first row moved up by one row. */
    function Moved(m: seq<byte>): (r: seq<byte>)
      reads this
      requires Mapped() && Window() && |m| == mem.Length
      ensures |r| == |m|
    {
      var h := ScrollHeight();
      var w := ScrollWidth();
      StampableAt(screen.y, terminalOrigin.y + fontHeight, h, terminalOrigin.x * bpp, w, pitch);
      StampableAt(screen.y, terminalOrigin.y, h, terminalOrigin.x * bpp, w, pitch);
      assert Stampable(|m|, SOffset(), h, w, pitch) && Stampable(|m|, TOffset(), h, w, pitch);
      Stamp(m, TOffset(), Lines(m, SOffset(), h, w, pitch), w, pitch)
    }

    /** The last line is fontHeight scan lines of lastLineSize bytes at the terminal's bottom row. */
    lemma LastLineFits()
      requires Mapped() && Window()
      ensures Stampable(mem.Length, LastOffset(), fontHeight, lastLineSize, pitch)
    {
      MulAdd(terminal.y - 1, 1, fontHeight);
      MulAdd(terminalOrigin.x, terminal.x * fontWidth, bpp);
      MulLe(terminalOrigin.x + terminal.x * fontWidth, screen.x, bpp);
      StampableAt(screen.y, lastLine.y, fontHeight, lastLine.x * bpp, lastLineSize, pitch);
    }

    /** The frame buffer m after boot_fb_scroll: the window moved up one row and its last row cleared. */
    function Scrolled(m: seq<byte>): (r: seq<byte>)
      reads this
      requires Mapped() && Window() && |m| == mem.Length
      ensures |r| == |m|
    {
      Cleared(Moved(m))
    }

    /** The frame buffer m after the last line is cleared. */
    function Cleared(m: seq<byte>): (r: seq<byte>)
      reads this
      requires Mapped() && Window() && |m| == mem.Length
      ensures |r| == |m|
    {
      LastLineFits();
      Stamp(m, LastOffset(), Blank(fontHeight, lastLineSize), lastLineSize, pitch)
    }

    /** The bytes the scroll's copy writes: the window's scan lines but the last row's, right margin included. */
    predicate InMoved(y: nat, c: nat)
      reads this
      requires Mapped() && Window()
    {
      terminalOrigin.y <= y < terminalOrigin.y + ScrollHeight() &&
      terminalOrigin.x * bpp <= c < terminalOrigin.x * bpp + ScrollWidth()
    }

    /** The bytes of the terminal's last row of characters. */
    predicate InLastLine(y: nat, c: nat)
      reads this
    {
      lastLine.y <= y < lastLine.y + fontHeight && lastLine.x * bpp <= c < lastLine.x * bpp + lastLineSize
    }

    /** Inside the moved area each byte comes from the scan line one character row lower. */
    lemma MovedPixels(m: seq<byte>, y: nat, c: nat)
      requires Mapped() && Window() && |m| == mem.Length && y < screen.y && c < pitch
      ensures Pixel(y, c, pitch) < |m| && (InMoved(y, c) ==> Pixel(y + fontHeight, c, pitch) < |m|)
      ensures Moved(m)[Pixel(y, c, pitch)] ==
              if InMoved(y, c) then m[Pixel(y + fontHeight, c, pitch)] else m[Pixel(y, c, pitch)]
    {
      MoveFits();
      LineStartIs(0, screen.y, pitch);
      PixelIs(terminalOrigin.y, terminalOrigin.x * bpp, pitch);
      StampAt(m, screen.y, pitch, terminalOrigin.y, terminalOrigin.x * bpp,
              Lines(m, SOffset(), ScrollHeight(), ScrollWidth(), pitch), ScrollWidth(), y, c);
      if InMoved(y, c) {
        MovedFrom(m, y, c);
      }
    }

    /** Byte c of window line y after the move is byte c of line y + fontHeight before it. */
    lemma MovedFrom(m: seq<byte>, y: nat, c: nat)
      requires Mapped() && Window() && |m| == mem.Length && InMoved(y, c)
      ensures Pixel(y + fontHeight, c, pitch) < |m|
      ensures Stampable(|m|, SOffset(), ScrollHeight(), ScrollWidth(), pitch)
      ensures Lines(m, SOffset(), ScrollHeight(), ScrollWidth(), pitch)[y - terminalOrigin.y][c - terminalOrigin.x * bpp]
           == m[Pixel(y + fontHeight, c, pitch)]
    {
      PixelIs(y + fontHeight, c, pitch);
      MoveFits();
      var q := y - terminalOrigin.y;
      var r := c - terminalOrigin.x * bpp;
      LinesAt(m, SOffset(), ScrollHeight(), ScrollWidth(), pitch, q, r);
      LineStartIs(SOffset(), q, pitch);
      MulAdd(terminalOrigin.y + fontHeight, q, pitch);
      assert terminalOrigin.y + fontHeight + q == y + fontHeight;
    }

    /** Inside the last line each byte is zero after the clean-up, and elsewhere as before. */
    lemma ClearedPixels(m: seq<byte>, y: nat, c: nat)
      requires Mapped() && Window() && |m| == mem.Length && y < screen.y && c < pitch
      ensures Pixel(y, c, pitch) < |m|
      ensures Cleared(m)[Pixel(y, c, pitch)] == if InLastLine(y, c) then 0 else m[Pixel(y, c, pitch)]
    {
      LastLineFits();
      MulAdd(terminal.y - 1, 1, fontHeight);
      MulAdd(terminalOrigin.x, terminal.x * fontWidth, bpp);
      MulLe(terminalOrigin.x + terminal.x * fontWidth, screen.x, bpp);
      LineStartIs(0, screen.y, pitch);
      PixelIs(lastLine.y, lastLine.x * bpp, pitch);
      StampAt(m, screen.y, pitch, lastLine.y, lastLine.x * bpp, Blank(fontHeight, lastLineSize), lastLineSize, y, c);
    }

    /**
     * boot_fb_scroll byte by byte: the last row of characters is blank,
     * the rows above it (and the margins to their right and below) show
     * what was one character row lower, and nothing else changes.
     */
    lemma ScrollPixels(m: seq<byte>, y: nat, c: nat)
      requires Mapped() && Window() && |m| == mem.Length && y < screen.y && c < pitch
      ensures Pixel(y, c, pitch) < |m| && (InMoved(y, c) ==> Pixel(y + fontHeight, c, pitch) < |m|)
      ensures Scrolled(m)[Pixel(y, c, pitch)] ==
              if InLastLine(y, c) then 0
              else if InMoved(y, c) then m[Pixel(y + fontHeight, c, pitch)]
              else m[Pixel(y, c, pitch)]
    {
      MovedPixels(m, y, c);
      ClearedPixels(Moved(m), y, c);
    }

    /**
     * boot_fb_scroll, with the copy's end row and end column taken as the
     * exclusive bounds they are (see ScrollExtentAsWritten): the window
     * moved up, then its last line cleared.
     */
    method Scroll()
      requires Mapped() && Window()
      modifies mem
      ensures mem[..] == Scrolled(old(mem[..]))
    {
      MoveUp();
      ClearLastLine();
    }

    /** boot_fb_scroll's copy: one memcpy per scan line, top to bottom. */
    method MoveUp()
      requires Mapped() && Window()
      modifies mem
      ensures mem[..] == Moved(old(mem[..]))
    {
      // s_row is one character row below t_row, both in the window's first column
      var soffset := SOffset();
      var toffset := TOffset();
      MoveFits();
      CopyLines(toffset, soffset, ScrollHeight(), ScrollWidth());
    }

    lemma MoveFits()
      requires Mapped() && Window()
      ensures Stampable(mem.Length, SOffset(), ScrollHeight(), ScrollWidth(), pitch)
      ensures Stampable(mem.Length, TOffset(), ScrollHeight(), ScrollWidth(), pitch)
      ensures TOffset() + pitch <= SOffset()
    {
      var h := ScrollHeight();
      var w := ScrollWidth();
      StampableAt(screen.y, terminalOrigin.y + fontHeight, h, terminalOrigin.x * bpp, w, pitch);
      StampableAt(screen.y, terminalOrigin.y, h, terminalOrigin.x * bpp, w, pitch);
      MulAdd(terminalOrigin.y, fontHeight, pitch);
      MulLe(1, fontHeight, pitch);
    }

    /** n scan lines of w bytes from src copied to dst, pitch bytes apart, first to last. */
    method CopyLines(dst: nat, src: nat, n: nat, w: nat)
      requires Stampable(mem.Length, src, n, w, pitch) && Stampable(mem.Length, dst, n, w, pitch)
      requires dst + pitch <= src
      modifies mem
      ensures mem[..] == Stamp(old(mem[..]), dst, Lines(old(mem[..]), src, n, w, pitch), w, pitch)
    {
      ghost var goal := LineCopy(mem[..], dst, src, n, w, pitch);
      var s: nat, d: nat, k: nat := src, dst, n;
      while k > 0
        invariant Stampable(mem.Length, s, k, w, pitch) && Stampable(mem.Length, d, k, w, pitch)
        invariant LineCopy(mem[..], d, s, k, w, pitch) == goal
      {
        ghost var m := mem[..];
        assert Stampable(|m|, s + pitch, k - 1, w, pitch) && Stampable(|m|, d + pitch, k - 1, w, pitch);
        CopyLine(d, mem[s..s + w]);
        assert mem[..] == Copy(m, d, m[s..s + w]);
        s, d, k := s + pitch, d + pitch, k - 1;
      }
      LineCopyIsStamp(old(mem[..]), old(mem[..]), dst, src, n, w, pitch);
    }

    /** The scan lines rows written from dst, pitch bytes apart, first to last. */
    method PutLines(dst: nat, rows: seq<seq<byte>>, w: nat)
      requires Stampable(mem.Length, dst, |rows|, w, pitch) && Widths(rows, w)
      modifies mem
      ensures mem[..] == Stamp(old(mem[..]), dst, rows, w, pitch)
    {
      ghost var goal := Stamp(mem[..], dst, rows, w, pitch);
      var d: nat := dst;
      var i := 0;
      while i < |rows|
        invariant i <= |rows|
        invariant Stampable(mem.Length, d, |rows| - i, w, pitch)
        invariant Stamp(mem[..], d, rows[i..], w, pitch) == goal
      {
        assert rows[i..][0] == rows[i] && rows[i..][1..] == rows[i + 1..];
        CopyLine(d, rows[i]);
        d := d + pitch;
        i := i + 1;
      }
    }

    /** boot_fb_scroll's clean-up: one memset per scan line of the last line. */
    method ClearLastLine()
      requires Mapped() && Window()
      modifies mem
      ensures mem[..] == Cleared(old(mem[..]))
    {
      LastLineFits();
      var toffset: nat := lastLine.x * bpp + lastLine.y * pitch;
      PutLines(toffset, Blank(fontHeight, lastLineSize), lastLineSize);
    }

    /**
     * The byte just past the last one boot_fb_scroll's copy reads, taking
     * e_row and e_col as the inclusive bounds the code treats them as:
     * (e_row - s_row + 1) scan lines of (e_col - s_col + 1) pixels from soffset.
     */
    function ScrollExtentAsWritten(): (e: int)
      reads this
      requires Mapped() && Window()
      ensures e == SOffset() + ScrollHeight() * pitch + ScrollWidth() + bpp
    {
      var sRow := terminalOrigin.y + fontHeight;
      var sCol := terminalOrigin.x;
      var eRow := screen.y - terminalOrigin.y;
      var eCol := screen.x - terminalOrigin.x;
      var width := (eCol - sCol + 1) * bpp;
      var height := eRow - sRow + 1;
      MulAdd(eCol - sCol, 1, bpp);
      SOffset() + (height - 1) * pitch + width
    }

    /**
     * With no top margin (the font's rows fill the screen's height), the
     * as-written copy reads past the end of the frame buffer.
     */
    lemma ScrollOverreadAsWritten()
      requires Mapped() && Window() && terminalOrigin.y == 0 && bpp > 0
      ensures ScrollExtentAsWritten() > mem.Length
    {
      MulAdd(fontHeight, ScrollHeight(), pitch);
    }

    // ------------------------------------------------------------------
    // The block cursor

    /** The character cell at p lies on the screen. */
    lemma CellOnScreen(p: Coord)
      requires Mapped() && Window() && InTerminal(p)
      ensures OnScreen(Cell(p).x, Cell(p).y, fontWidth, fontHeight)
    {
      MulAdd(p.x, 1, fontWidth);
      MulLe(p.x + 1, terminal.x, fontWidth);
      MulAdd(p.y, 1, fontHeight);
      MulLe(p.y + 1, terminal.y, fontHeight);
    }

    /** The offset of the first byte of the cell at p. */
    function CellPixel(p: Coord): nat
      reads this
    {
      Pixel(Cell(p).y, Cell(p).x * bpp, pitch)
    }

    /** The scan lines of the cell at p, fontWidth pixels each, lie inside the frame buffer. */
    lemma CellFits(p: Coord)
      requires Mapped() && Window() && InTerminal(p)
      ensures Stampable(mem.Length, CellPixel(p), fontHeight, fontWidth * bpp, pitch)
    {
      var c := Cell(p);
      CellOnScreen(p);
      RectStampable(mem.Length, screen.x, screen.y, pitch, bpp, c.x, c.y, fontWidth, fontHeight);
    }

    /** The scan lines of m under the cell at p. */
    function Under(m: seq<byte>, p: Coord): (r: seq<seq<byte>>)
      reads this
      requires Mapped() && Window() && |m| == mem.Length && InTerminal(p)
      ensures |r| == fontHeight && Widths(r, fontWidth * bpp)
    {
      CellFits(p);
      Lines(m, CellPixel(p), fontHeight, fontWidth * bpp, pitch)
    }

    /** m with the scan lines of data drawn into the cell at p. */
    function Drawn(m: seq<byte>, p: Coord, data: seq<seq<byte>>): (r: seq<byte>)
      reads this
      requires Mapped() && Window() && |m| == mem.Length && InTerminal(p)
      requires |data| == fontHeight && Widths(data, fontWidth * bpp)
      ensures |r| == |m|
    {
      CellOnScreen(p);
      Blitted(m, Cell(p).x, Cell(p).y, fontWidth, data)
    }

    /** Drawing the cursor and then the saved area gives the screen back. */
    lemma CursorRestores(m: seq<byte>, p: Coord)
      requires Mapped() && Window() && |m| == mem.Length && InTerminal(p)
      ensures Drawn(Drawn(m, p, Inverted(Under(m, p))), p, Under(m, p)) == m
    {
      CellFits(p);
      var base := CellPixel(p);
      var u := Under(m, p);
      StampTwice(m, base, Inverted(u), u, fontWidth * bpp, pitch);
      StampSelf(m, base, fontHeight, fontWidth * bpp, pitch);
    }

    /**
     * boot_fb_cursor_create: the scan lines under the cursor saved into
     * blank, one memcpy each, and the cursor's image made of their bytes
     * inverted (0xFF ^ b is 255 - b on a byte).
     */
    method CursorCreate() returns (data: seq<seq<byte>>)
      requires Valid()
      modifies cursor
      ensures Valid() && cursor.visible == old(cursor.visible) && cursor.origin == old(cursor.origin)
      ensures cursor.pos == old(cursor.pos)
      ensures cursor.blank == Under(mem[..], cursor.pos) && data == Inverted(cursor.blank)
    {
      CellFits(cursor.pos);
      var size := fontWidth * bpp;
      var offset := CellPixel(cursor.pos);
      var saved := SaveLines(offset, fontHeight, size);
      cursor.blank := saved;
      data := InvertLines(cursor.blank);
    }

    /** n scan lines of w bytes from offset, pitch bytes apart, copied out one memcpy each. */
    method SaveLines(offset: nat, n: nat, w: nat) returns (rows: seq<seq<byte>>)
      requires Stampable(mem.Length, offset, n, w, pitch)
      ensures rows == Lines(mem[..], offset, n, w, pitch)
    {
      ghost var all := Lines(mem[..], offset, n, w, pitch);
      rows := [];
      var src := offset;
      var i := 0;
      while i < n
        invariant i <= n && src == LineStart(offset, i, pitch)
        invariant rows == all[..i]
      {
        LinesRow(mem[..], offset, n, w, pitch, i);
        assert all[..i + 1] == all[..i] + [mem[src..src + w]];
        rows := rows + [mem[src..src + w]];
        LineStartNext(offset, i, pitch);
        src := src + pitch;
        i := i + 1;
      }
      assert all[..n] == all;
    }

    /** The cursor buffer filled byte by byte with the inverse of the saved area. */
    static method InvertLines(saved: seq<seq<byte>>) returns (data: seq<seq<byte>>)
      ensures data == Inverted(saved)
    {
      data := [];
      var i := 0;
      while i < |saved|
        invariant i <= |saved| && |data| == i
        invariant forall k :: 0 <= k < i ==> data[k] == InvertRow(saved[k])
      {
        data := data + [InvertRow(saved[i])];
        i := i + 1;
      }
    }

    /**
     * boot_fb_cursor: shown, the area under the cursor is saved and drawn
     * inverted; hidden, the saved area is drawn back.
     */
    method Cursor(show: bool)
      requires Valid()
      modifies cursor, mem
      ensures Valid() && cursor.visible == show && cursor.origin == old(cursor.origin) && cursor.pos == old(cursor.pos)
      ensures show ==> cursor.blank == Under(old(mem[..]), cursor.pos) &&
                       mem[..] == Drawn(old(mem[..]), cursor.pos, Inverted(cursor.blank))
      ensures !show ==> cursor.blank == old(cursor.blank) && mem[..] == Drawn(old(mem[..]), cursor.pos, cursor.blank)
    {
      cursor.visible := show;
      CellOnScreen(cursor.pos);
      if show {
        var data := CursorCreate();
        Blit(cursor.origin.x, cursor.origin.y, fontWidth, fontHeight, data);
      } else {
        Blit(cursor.origin.x, cursor.origin.y, fontWidth, fontHeight, cursor.blank);
      }
    }

    // ------------------------------------------------------------------
    // Moving the cursor and writing characters

    /** set_cursor_row: column 0 of the next row, or of the last row after a scroll. */
    method SetCursorRow()
      requires Valid()
      modifies cursor, mem
      ensures Valid() && cursor.visible == old(cursor.visible) && cursor.blank == old(cursor.blank)
      ensures cursor.pos == NewLine(old(cursor.pos), terminal.y)
      ensures mem[..] == if old(cursor.pos.y) + 1 < terminal.y then old(mem[..]) else Scrolled(old(mem[..]))
    {
      cursor.pos := Coord(cursor.pos.x, cursor.pos.y + 1);
      cursor.pos := Coord(0, cursor.pos.y);
      cursor.origin := Coord(terminalOrigin.x, cursor.origin.y);
      if cursor.pos.y < terminal.y {
        MulAdd(cursor.pos.y - 1, 1, fontHeight);
        cursor.origin := Coord(cursor.origin.x, cursor.origin.y + fontHeight);
      } else {
        cursor.pos := Coord(cursor.pos.x, cursor.pos.y - 1);
        Scroll();
      }
    }

    /** set_cursor_col: the next column, or the next row after the last column. */
    method SetCursorCol()
      requires Valid()
      modifies cursor, mem
      ensures Valid() && cursor.visible == old(cursor.visible) && cursor.blank == old(cursor.blank)
      ensures cursor.pos == if old(cursor.pos.x) + 1 < terminal.x then Coord(old(cursor.pos.x) + 1, old(cursor.pos.y))
                            else NewLine(old(cursor.pos), terminal.y)
      ensures mem[..] == if old(cursor.pos.x) + 1 >= terminal.x && old(cursor.pos.y) + 1 >= terminal.y
                         then Scrolled(old(mem[..])) else old(mem[..])
    {
      cursor.pos := Coord(cursor.pos.x + 1, cursor.pos.y);
      if cursor.pos.x < terminal.x {
        MulAdd(cursor.pos.x - 1, 1, fontWidth);
        cursor.origin := Coord(cursor.origin.x + fontWidth, cursor.origin.y);
      } else {
        cursor.pos := Coord(0, cursor.pos.y);
        cursor.origin := Coord(terminalOrigin.x, cursor.origin.y);
        SetCursorRow();
      }
    }

    /**
     * The frame buffer after c is written with the cursor off at cell p:
     * '\n' and '\r' draw nothing, '\b' draws a blank at the cell it steps
     * back to, any other character draws its glyph at p; and the window
     * scrolls when a new row is asked for on the last row.
     */
    function Put(m: seq<byte>, p: Coord, c: byte, glyph: seq<seq<byte>>): (r: seq<byte>)
      reads this
      requires Mapped() && Window() && |m| == mem.Length && InTerminal(p)
      requires |glyph| == fontHeight && Widths(glyph, fontWidth * bpp)
      ensures |r| == |m|
      ensures !Scrolls(p, c, terminal.x, terminal.y) ==> (c == NL || c == CR ==> r == m)
      ensures Printing(c) && !Scrolls(p, c, terminal.x, terminal.y) ==> r == Drawn(m, p, glyph)
    {
      var q := if c == BS then Next(p, c, terminal.x, terminal.y) else p;
      var d := if c == NL || c == CR then m else Drawn(m, q, glyph);
      if Scrolls(p, c, terminal.x, terminal.y) then Scrolled(d) else d
    }

    /**
     * The part of boot_fb_putchar between switching the cursor off and on
     * again: the control characters' moves, the blit of the glyph, and the
     * step to the next column.
     */
    method Emit(c: byte, glyph: seq<seq<byte>>)
      requires Valid() && |glyph| == fontHeight && Widths(glyph, fontWidth * bpp)
      modifies cursor, mem
      ensures Valid() && cursor.visible == old(cursor.visible) && cursor.blank == old(cursor.blank)
      ensures cursor.pos == Next(old(cursor.pos), c, terminal.x, terminal.y)
      ensures mem[..] == Put(old(mem[..]), old(cursor.pos), c, glyph)
    {
      if c == NL {
        SetCursorRow();
      } else if c == CR {
        cursor.pos := Coord(0, cursor.pos.y);
        cursor.origin := Coord(terminalOrigin.x, cursor.origin.y);
      } else {
        Draw(c, glyph);
      }
    }

    /** Emit for '\b' and the printing characters: the step back, the blit, the step forward. */
    method Draw(c: byte, glyph: seq<seq<byte>>)
      requires Valid() && |glyph| == fontHeight && Widths(glyph, fontWidth * bpp) && c != NL && c != CR
      modifies cursor, mem
      ensures Valid() && cursor.visible == old(cursor.visible) && cursor.blank == old(cursor.blank)
      ensures cursor.pos == Next(old(cursor.pos), c, terminal.x, terminal.y)
      ensures mem[..] == Put(old(mem[..]), old(cursor.pos), c, glyph)
    {
      ghost var m0, p0 := mem[..], cursor.pos;
      var bs := false;
      if c == BS {
        if cursor.pos.x > 0 {
          MulAdd(cursor.pos.x - 1, 1, fontWidth);
          cursor.pos := Coord(cursor.pos.x - 1, cursor.pos.y);
          cursor.origin := Coord(cursor.origin.x - fontWidth, cursor.origin.y);
        }
        bs := true;
      }
      ghost var q := cursor.pos;
      assert q == if c == BS then Next(p0, c, terminal.x, terminal.y) else p0;
      CellOnScreen(q);
      Blit(cursor.origin.x, cursor.origin.y, fontWidth, fontHeight, glyph);
      assert mem[..] == Drawn(m0, q, glyph);
      if !bs {
        SetCursorCol();
      }
    }

    /**
     * boot_fb_putchar: glyph is the character's image as bit_to_pix
     * renders it (a space's for '\b'). A visible cursor is switched off
     * first and drawn again at the new cell afterwards.
     */
    method PutChar(c: byte, glyph: seq<seq<byte>>)
      requires Valid() && |glyph| == fontHeight && Widths(glyph, fontWidth * bpp)
      modifies cursor, mem
      ensures Valid() && cursor.visible == old(cursor.visible)
      ensures cursor.pos == Next(old(cursor.pos), c, terminal.x, terminal.y)
      ensures !old(cursor.visible) ==>
                cursor.blank == old(cursor.blank) && mem[..] == Put(old(mem[..]), old(cursor.pos), c, glyph)
      ensures old(cursor.visible) ==>
                var after := Put(Drawn(old(mem[..]), old(cursor.pos), old(cursor.blank)), old(cursor.pos), c, glyph);
                cursor.blank == Under(after, cursor.pos) && mem[..] == Drawn(after, cursor.pos, Inverted(cursor.blank))
    {
      var cstate := cursor.visible;
      if cstate {
        Cursor(false);
      }
      Emit(c, glyph);
      if cstate {
        Cursor(true);
      }
    }

    // ------------------------------------------------------------------
    // Setting the console up

    /**
     * xbi_fb_init: without a FRAMEBUFFER tag, or with one that is not of
     * the RGB type, nothing is set and the frame buffer console is not used.
     */
    method XbiFbInit(tag: Option<FbTag>) returns (ok: bool)
      modifies this`paddr, this`pitch, this`bpp, this`depth, this`screen, this`red, this`green, this`blue,
               this`inverse, this`inverseScreen
      ensures ok <==> tag.Some? && tag.value.typ == FRAMEBUFFER_TYPE_RGB
      ensures !ok ==> unchanged(this)
      ensures ok ==> paddr == tag.value.addr && pitch == tag.value.pitch &&
                     bpp == tag.value.bpp / 8 && depth == tag.value.bpp &&
                     screen == Coord(tag.value.width, tag.value.height)
      ensures ok ==> red == RgbField(tag.value.redSize, tag.value.redPos) &&
                     green == RgbField(tag.value.greenSize, tag.value.greenPos) &&
                     blue == RgbField(tag.value.blueSize, tag.value.bluePos) &&
                     !inverse && !inverseScreen
      ensures ok ==> cursor == old(cursor) && mem == old(mem) && terminal == old(terminal) &&
                     fontWidth == old(fontWidth) && fontHeight == old(fontHeight)
    {
      ok := tag.Some? && tag.value.typ == FRAMEBUFFER_TYPE_RGB;
      if ok {
        SetMode(tag.value);
        SetColours(tag.value);
      }
    }

    /** The frame buffer's address, geometry and depth from the tag's common part. */
    method SetMode(t: FbTag)
      modifies this`paddr, this`pitch, this`bpp, this`depth, this`screen
      ensures paddr == t.addr && pitch == t.pitch && bpp == t.bpp / 8 && depth == t.bpp && screen == Coord(t.width, t.height)
    {
      paddr, pitch, bpp, depth := t.addr, t.pitch, t.bpp / 8, t.bpp;
      screen := Coord(t.width, t.height);
    }

    /** The RGB field layout from the tag's colour info; the screen is not inverted. */
    method SetColours(t: FbTag)
      modifies this`red, this`green, this`blue, this`inverse, this`inverseScreen
      ensures red == RgbField(t.redSize, t.redPos) && green == RgbField(t.greenSize, t.greenPos) &&
              blue == RgbField(t.blueSize, t.bluePos) && !inverse && !inverseScreen
    {
      red, green, blue := RgbField(t.redSize, t.redPos), RgbField(t.greenSize, t.greenPos), RgbField(t.blueSize, t.bluePos);
      inverse, inverseScreen := false, false;
    }

    /**
     * boot_fb_init. frame is the frame buffer as dboot mapped it; cols and
     * rows are the terminal size and fw by fh the font that set_font chose
     * for the screen. The window is centred, the cursor is at its first
     * cell and shown, and the screen is cleared (one memset per scan line)
     * when the frame buffer is the console.
     */
    method Init(framebufferConsole: bool, frame: array<byte>, cols: nat, rows: nat, fw: nat, fh: nat)
      requires frame.Length == screen.y * pitch && screen.x * bpp <= pitch
      requires 0 < cols && 0 < rows && 0 < fw && 0 < fh && cols * fw <= screen.x && rows * fh <= screen.y
      modifies this, cursor, frame
      ensures Valid() && mem == frame && cursor == old(cursor)
      ensures screen == old(screen) && pitch == old(pitch) && bpp == old(bpp) && paddr == old(paddr) && depth == old(depth)
      ensures fbSize == screen.x * screen.y * bpp
      ensures terminal == Coord(cols, rows) && fontWidth == fw && fontHeight == fh
      ensures terminalOrigin == Coord((screen.x - cols * fw) / 2, (screen.y - rows * fh) / 2)
      ensures cursor.pos == Coord(0, 0) && cursor.origin == terminalOrigin && cursor.visible
      ensures framebufferConsole ==> forall i :: 0 <= i < frame.Length ==> frame[i] == 0
      ensures !framebufferConsole ==> frame[..] == old(frame[..])
    {
      mem := frame;
      MulNat(screen.x, screen.y);
      MulNat(screen.x * screen.y, bpp);
      fbSize := screen.x * screen.y * bpp;
      if framebufferConsole {
        ClearScreen();
      }
      SetWindow(cols, rows, fw, fh);
    }

    /**
     * The rest of boot_fb_init, after boot_fb_set_font: the centred window,
     * the precomputed last line, and the cursor shown at the window's first cell.
     */
    method SetWindow(cols: nat, rows: nat, fw: nat, fh: nat)
      requires 0 < cols && 0 < rows && 0 < fw && 0 < fh && cols * fw <= screen.x && rows * fh <= screen.y
      modifies this, cursor
      ensures Window() && OnCell() && |cursor.blank| == fh && Widths(cursor.blank, fw * bpp)
      ensures cursor == old(cursor) && mem == old(mem) && fbSize == old(fbSize)
      ensures screen == old(screen) && pitch == old(pitch) && bpp == old(bpp) && paddr == old(paddr) && depth == old(depth)
      ensures terminal == Coord(cols, rows) && fontWidth == fw && fontHeight == fh
      ensures terminalOrigin == Coord((screen.x - cols * fw) / 2, (screen.y - rows * fh) / 2)
      ensures cursor.pos == Coord(0, 0) && cursor.origin == terminalOrigin && cursor.visible
    {
      SetTerminal(cols, rows, fw, fh);
      // the zero-filled blank buffer, seen as the font's scan lines
      cursor.Home(terminalOrigin, Blank(fh, fw * bpp));
      assert Cell(Coord(0, 0)) == terminalOrigin;
    }

    /** SetWindow's assignments to the terminal's size, the font's, the window's origin and the last line. */
    method SetTerminal(cols: nat, rows: nat, fw: nat, fh: nat)
      requires 0 < cols && 0 < rows && 0 < fw && 0 < fh && cols * fw <= screen.x && rows * fh <= screen.y
      modifies this
      ensures Window()
      ensures cursor == old(cursor) && mem == old(mem) && fbSize == old(fbSize)
      ensures screen == old(screen) && pitch == old(pitch) && bpp == old(bpp) && paddr == old(paddr) && depth == old(depth)
      ensures terminal == Coord(cols, rows) && fontWidth == fw && fontHeight == fh
      ensures terminalOrigin == Coord((screen.x - cols * fw) / 2, (screen.y - rows * fh) / 2)
    {
      terminal := Coord(cols, rows);
      fontWidth, fontHeight := fw, fh;
      var window := Coord(Centre(screen.x, cols * fw), Centre(screen.y, rows * fh));
      terminalOrigin := window;
      MulNat(cols, fw);
      MulNat(cols * fw, bpp);
      lastLineSize := cols * fw * bpp;
      MulLe(0, rows - 1, fh);
      lastLine := Coord(window.x, window.y + (rows - 1) * fh);
      assert Window();
    }

    /** boot_fb_init's clearing of the screen: pitch zero bytes at each scan line. */
    method ClearScreen()
      requires Mapped()
      modifies mem
      ensures forall i :: 0 <= i < mem.Length ==> mem[i] == 0
    {
      BlankScreen(mem[..], screen.y, pitch);
      PutLines(0, Blank(screen.y, pitch), pitch);
    }
  }
}
