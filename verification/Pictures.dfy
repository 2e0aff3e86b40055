/** Pictures as rows of four-byte pixels, and the byte buffers that hold them. */
module Pictures {
  import opened Common

  datatype Pixel = Pixel(c0: Byte, c1: Byte, c2: Byte, c3: Byte)

  const BLANK := Pixel(0, 0, 0, 0)

  /** A picture by rows: `rows[y][x]` is the pixel in column x of row y. */
  datatype Picture = Picture(width: nat, height: nat, rows: seq<seq<Pixel>>) {
    predicate Valid() {
      && |rows| == height
      && forall y :: 0 <= y < height ==> |rows[y]| == width
    }

    /** The pixel in column x of row y, blank outside the picture. */
    function At(x: int, y: int): Pixel {
      if 0 <= y < |rows| && 0 <= x < |rows[y]| then rows[y][x] else BLANK
    }
  }

  /** The picture of a size whose pixels a function gives. */
  function Drawn(width: nat, height: nat, f: (int, int) -> Pixel): (p: Picture)
    ensures p.Valid() && p.width == width && p.height == height
  {
    Picture(width, height, seq(height, y => seq(width, x => f(x, y))))
  }

  lemma DrawnAt(width: nat, height: nat, f: (int, int) -> Pixel, x: int, y: int)
    requires 0 <= x < width && 0 <= y < height
    ensures Drawn(width, height, f).At(x, y) == f(x, y)
  {
  }

  /** Two pictures of one size are one picture when they agree pixel by pixel. */
  lemma SamePixels(p: Picture, q: Picture)
    requires p.Valid() && q.Valid() && p.width == q.width && p.height == q.height
    requires forall x, y :: 0 <= x < p.width && 0 <= y < p.height ==> p.At(x, y) == q.At(x, y)
    ensures p == q
  {
    forall y | 0 <= y < p.height ensures p.rows[y] == q.rows[y] {
      forall x | 0 <= x < p.width ensures p.rows[y][x] == q.rows[y][x] {
        assert p.At(x, y) == q.At(x, y);
      }
    }
    assert p.rows == q.rows;
  }

  /** The four bytes at an offset, or a blank pixel when they are not all there. */
  function Quad(bytes: seq<Byte>, at: int): Pixel {
    if 0 <= at && at + 4 <= |bytes| then Pixel(bytes[at], bytes[at + 1], bytes[at + 2], bytes[at + 3]) else BLANK
  }

  /** The byte a pixel begins at in a tightly packed buffer. */
  function Offset(width: nat, x: int, y: int): int { (y * width + x) * 4 }

  /** The picture a tightly packed buffer holds. */
  function Packed(bytes: seq<Byte>, width: nat, height: nat): (p: Picture)
    ensures p.Valid() && p.width == width && p.height == height
  {
    Drawn(width, height, (x, y) => Quad(bytes, 4 * (y * width + x)))
  }

  /** The part of a picture in one rectangle of it. */
  function Crop(p: Picture, left: nat, top: nat, width: nat, height: nat): (c: Picture)
    ensures c.Valid() && c.width == width && c.height == height
  {
    Drawn(width, height, (x, y) => p.At(left + x, top + y))
  }

  lemma PackedAt(bytes: seq<Byte>, width: nat, height: nat, x: int, y: int)
    requires 0 <= x < width && 0 <= y < height
    ensures Packed(bytes, width, height).At(x, y) == Quad(bytes, 4 * (y * width + x))
  {
    DrawnAt(width, height, (x, y) => Quad(bytes, 4 * (y * width + x)), x, y);
  }

  lemma CropAt(p: Picture, left: nat, top: nat, width: nat, height: nat, x: int, y: int)
    requires 0 <= x < width && 0 <= y < height
    ensures Crop(p, left, top, width, height).At(x, y) == p.At(left + x, top + y)
  {
    DrawnAt(width, height, (x, y) => p.At(left + x, top + y), x, y);
  }

  /** A picture's pixels in reading order. */
  function Flat(rows: seq<seq<Pixel>>): seq<Pixel> {
    if rows == [] then [] else rows[0] + Flat(rows[1..])
  }

  lemma InsideArea(width: nat, height: nat, x: nat, y: nat)
    requires x < width && y < height
    ensures y * width + x < width * height
  {
    assert (y + 1) * width <= height * width;
  }

  /** Every index inside an area is one row and one column of it. */
  lemma SplitArea(width: nat, height: nat, m: nat)
    requires m < width * height
    ensures width > 0 && m / width < height && m == (m / width) * width + m % width
  {
    var y := m / width;
    assert y * width <= m;
  }

  /** The column and row of the m-th pixel in reading order. */
  function Place(width: nat, height: nat, m: nat): (at: (nat, nat))
    requires m < width * height
    ensures at.0 < width && at.1 < height && m == at.1 * width + at.0
  {
    SplitArea(width, height, m);
    (m % width, m / width)
  }

  /** Reading order puts pixel (x, y) at index y * width + x. */
  lemma {:induction false} FlatAt(p: Picture, x: nat, y: nat)
    requires p.Valid() && y < p.height && x < p.width
    ensures y * p.width + x < |Flat(p.rows)| && Flat(p.rows)[y * p.width + x] == p.At(x, y)
    decreases y
  {
    if y > 0 {
      var rest := Picture(p.width, p.height - 1, p.rows[1..]);
      FlatAt(rest, x, y - 1);
      assert y * p.width + x == p.width + ((y - 1) * p.width + x);
    }
  }

  lemma {:induction false} FlatLength(p: Picture)
    requires p.Valid()
    ensures |Flat(p.rows)| == p.width * p.height
    decreases p.height
  {
    if p.height > 0 {
      FlatLength(Picture(p.width, p.height - 1, p.rows[1..]));
      assert p.width * p.height == p.width + p.width * (p.height - 1);
    }
  }

  /** A buffer whose quads are a picture's pixels in reading order holds that picture. */
  lemma FlatHolds(bytes: seq<Byte>, p: Picture)
    requires p.Valid()
    requires |Flat(p.rows)| == p.width * p.height
    requires forall m :: 0 <= m < p.width * p.height ==> Quad(bytes, 4 * m) == Flat(p.rows)[m]
    ensures Packed(bytes, p.width, p.height) == p
  {
    var q := Packed(bytes, p.width, p.height);
    forall x, y | 0 <= x < p.width && 0 <= y < p.height ensures p.At(x, y) == q.At(x, y) {
      InsideArea(p.width, p.height, x, y);
      FlatAt(p, x, y);
      PackedAt(bytes, p.width, p.height, x, y);
    }
    SamePixels(p, q);
  }

  /** A tightly packed buffer of the right length is determined by the picture it holds. */
  lemma PackedDetermines(a: seq<Byte>, b: seq<Byte>, width: nat, height: nat)
    requires |a| == |b| == 4 * (width * height)
    requires Packed(a, width, height) == Packed(b, width, height)
    ensures a == b
  {
    forall i | 0 <= i < |a| ensures a[i] == b[i] {
      var m := i / 4;
      var (x, y) := Place(width, height, m);
      PackedAt(a, width, height, x, y);
      PackedAt(b, width, height, x, y);
      assert Quad(a, 4 * m) == Quad(b, 4 * m);
    }
  }

  /** Write one pixel over the four bytes at an offset. */
  method PutQuad(into: array<Byte>, at: nat, q: Pixel)
    requires at + 4 <= into.Length
    modifies into
    ensures Quad(into[..], at) == q
    ensures forall m: int :: m + 4 <= at || at + 4 <= m ==> Quad(into[..], m) == Quad(old(into[..]), m)
  {
    into[at], into[at + 1], into[at + 2], into[at + 3] := q.c0, q.c1, q.c2, q.c3;
  }
}
