/** Resizing the host's pointer for the window it is shown in. */
module PointerView {
  import opened Common
  import opened Pictures

  // Halving.

  /** The mean of four bytes, rounded half up. */
  function Mean(a: int, b: int, c: int, e: int): int { (a + b + c + e + 2) / 4 }

  lemma MeanBetween(lo: int, hi: int, a: int, b: int, c: int, e: int)
    requires lo <= a <= hi && lo <= b <= hi && lo <= c <= hi && lo <= e <= hi
    ensures lo <= Mean(a, b, c, e) <= hi
  {
  }

  function MeanPixel(a: Pixel, b: Pixel, c: Pixel, e: Pixel): Pixel {
    MeanBetween(0, 255, a.c0, b.c0, c.c0, e.c0);
    MeanBetween(0, 255, a.c1, b.c1, c.c1, e.c1);
    MeanBetween(0, 255, a.c2, b.c2, c.c2, e.c2);
    MeanBetween(0, 255, a.c3, b.c3, c.c3, e.c3);
    Pixel(Mean(a.c0, b.c0, c.c0, e.c0), Mean(a.c1, b.c1, c.c1, e.c1),
          Mean(a.c2, b.c2, c.c2, e.c2), Mean(a.c3, b.c3, c.c3, e.c3))
  }

  /** The other of a pair of columns or rows, or the same one past the end. */
  function Second(side: nat, i: int): int { if i + 1 < side then i + 1 else i }

  /** A picture at half size: four neighbouring pixels averaged into one. */
  function Halved(p: Picture): (q: Picture)
    ensures q.Valid() && q.width == p.width / 2 && q.height == p.height / 2
  {
    Drawn(p.width / 2, p.height / 2, (x, y) => HalfPixel(p, x, y))
  }

  function HalfPixel(p: Picture, x: int, y: int): Pixel {
    var x0, y0 := 2 * x, 2 * y;
    var x1, y1 := Second(p.width, x0), Second(p.height, y0);
    MeanPixel(p.At(x0, y0), p.At(x1, y0), p.At(x0, y1), p.At(x1, y1))
  }

  /** The four bytes at an offset that is inside the buffer. */
  function Fetch(bytes: seq<Byte>, at: int): (q: Pixel)
    requires 0 <= at && at + 4 <= |bytes|
  {
    Quad(bytes, at)
  }

  /** The bytes of a picture of a size. */
  function Size(width: nat, height: nat): nat { 4 * (width * height) }

  /** The byte a pixel begins at is inside its buffer, and the buffer holds the pixel there. */
  lemma Inside(bytes: seq<Byte>, width: nat, height: nat, x: int, y: int)
    requires 0 <= x < width && 0 <= y < height && |bytes| == Size(width, height)
    ensures 0 <= Offset(width, x, y) && Offset(width, x, y) + 4 <= |bytes|
    ensures Fetch(bytes, Offset(width, x, y)) == Packed(bytes, width, height).At(x, y)
  {
    hide Packed;
    InsideArea(width, height, x, y);
    PackedAt(bytes, width, height, x, y);
  }

  /** What has been drawn of a picture: its first n pixels in reading order. */
  ghost predicate DrawnUpTo(dst: seq<Byte>, goal: Picture, n: nat) {
    && |Flat(goal.rows)| == goal.width * goal.height && |dst| == Size(goal.width, goal.height)
    && forall m :: 0 <= m < n && m < |Flat(goal.rows)| ==> Quad(dst, 4 * m) == Flat(goal.rows)[m]
  }

  lemma DrawnAll(dst: seq<Byte>, goal: Picture, n: nat)
    requires goal.Valid() && DrawnUpTo(dst, goal, n) && n == goal.height * goal.width
    ensures Packed(dst, goal.width, goal.height) == goal
  {
    FlatHolds(dst, goal);
  }

  /** Writing pixel (x, y) draws one more. */
  method DrawNext(dst: array<Byte>, ghost goal: Picture, width: nat, x: nat, y: nat, ghost n: nat, q: Pixel)
    requires goal.Valid() && width == goal.width && x < width && y < goal.height
    requires n == y * width + x && DrawnUpTo(dst[..], goal, n) && q == goal.At(x, y)
    modifies dst
    ensures DrawnUpTo(dst[..], goal, n + 1)
  {
    hide Flat, Quad;
    InsideArea(width, goal.height, x, y);
    FlatAt(goal, x, y);
    PutQuad(dst, Offset(width, x, y), q);
  }

  method HalveRow(src: seq<Byte>, sw: nat, sh: nat, dst: array<Byte>, dw: nat, dh: nat, y: nat, ghost n: nat)
    returns (ghost m: nat)
    requires |src| == Size(sw, sh) && dw == sw / 2 && dh == sh / 2 && y < dh && n == y * dw
    requires DrawnUpTo(dst[..], Halved(Packed(src, sw, sh)), n)
    modifies dst
    ensures m == n + dw && DrawnUpTo(dst[..], Halved(Packed(src, sw, sh)), m)
  {
    hide Packed, Halved, DrawnUpTo, Offset, MeanPixel, Fetch;
    m := n;
    var y0 := y * 2;
    var y1 := if y0 + 1 < sh then y0 + 1 else y0;
    var x := 0;
    while x < dw
      invariant x <= dw && m == n + x && DrawnUpTo(dst[..], Halved(Packed(src, sw, sh)), m)
    {
      var x0 := x * 2;
      var x1 := if x0 + 1 < sw then x0 + 1 else x0;
      Inside(src, sw, sh, x0, y0);
      Inside(src, sw, sh, x1, y0);
      Inside(src, sw, sh, x0, y1);
      Inside(src, sw, sh, x1, y1);
      var a, b := Fetch(src, Offset(sw, x0, y0)), Fetch(src, Offset(sw, x1, y0));
      var c, e := Fetch(src, Offset(sw, x0, y1)), Fetch(src, Offset(sw, x1, y1));
      HalvedAt(Packed(src, sw, sh), x, y);
      DrawNext(dst, Halved(Packed(src, sw, sh)), dw, x, y, m, MeanPixel(a, b, c, e));
      x, m := x + 1, m + 1;
    }
  }

  lemma HalvedAt(p: Picture, x: nat, y: nat)
    requires x < p.width / 2 && y < p.height / 2
    ensures Halved(p).At(x, y) == HalfPixel(p, x, y)
  {
    DrawnAt(p.width / 2, p.height / 2, (x, y) => HalfPixel(p, x, y), x, y);
  }

  lemma NothingDrawn(dst: seq<Byte>, goal: Picture)
    requires goal.Valid() && |dst| == Size(goal.width, goal.height)
    ensures DrawnUpTo(dst, goal, 0)
  {
    FlatLength(goal);
  }

  /** Halve a packed picture. */
  method Halve(src: seq<Byte>, sw: nat, sh: nat) returns (dst: array<Byte>)
    requires |src| == Size(sw, sh)
    ensures dst.Length == Size(sw / 2, sh / 2)
    ensures Packed(dst[..], sw / 2, sh / 2) == Halved(Packed(src, sw, sh))
  {
    hide Packed, Halved, DrawnUpTo;
    var dw, dh := sw / 2, sh / 2;
    dst := new Byte[Size(dw, dh)](_ => 0);
    NothingDrawn(dst[..], Halved(Packed(src, sw, sh)));
    ghost var n := 0;
    var y := 0;
    while y < dh
      invariant y <= dh && n == y * dw && DrawnUpTo(dst[..], Halved(Packed(src, sw, sh)), n)
    {
      n := HalveRow(src, sw, sh, dst, dw, dh, y, n);
      y := y + 1;
    }
    DrawnAll(dst[..], Halved(Packed(src, sw, sh)), n);
  }

  /** A byte is the mean of four to the nearest, halves up. */
  predicate NearestMean(r: int, a: int, b: int, c: int, e: int) { a + b + c + e - 2 < 4 * r <= a + b + c + e + 2 }

  /** Every byte of a halved picture is the mean, to the nearest, of the two by two bytes it stands for. */
  lemma HalvedIsTheMean(p: Picture, x: nat, y: nat)
    requires x < p.width / 2 && y < p.height / 2
    ensures var q := Halved(p).At(x, y);
            var a, b := p.At(2 * x, 2 * y), p.At(2 * x + 1, 2 * y);
            var c, e := p.At(2 * x, 2 * y + 1), p.At(2 * x + 1, 2 * y + 1);
            && NearestMean(q.c0, a.c0, b.c0, c.c0, e.c0) && NearestMean(q.c1, a.c1, b.c1, c.c1, e.c1)
            && NearestMean(q.c2, a.c2, b.c2, c.c2, e.c2) && NearestMean(q.c3, a.c3, b.c3, c.c3, e.c3)
  {
    hide Halved;
    HalvedAt(p, x, y);
  }

  // Resampling in 16.16 fixed point.

  const ONE: nat := 65536

  function StepOf(source: nat, target: nat): nat
    requires source > 0
  {
    if target > 1 then ((source - 1) * ONE) / (target - 1) else 0
  }

  /** No step of the walk passes the last source column or row. */
  lemma StepStaysInside(source: nat, target: nat, i: nat)
    requires source > 0 && i < target
    ensures i * StepOf(source, target) <= (source - 1) * ONE
    ensures (i * StepOf(source, target)) / ONE <= source - 1
  {
    if target > 1 {
      var d, whole := target - 1, (source - 1) * ONE;
      ProductGrows(i, d, whole / d);
      assert d * (whole / d) <= whole;
    }
  }

  /** A step of the walk is short of its exact place by less than one part in 65536 for every step taken. */
  lemma StepIsNear(source: nat, target: nat, i: nat)
    requires source > 0 && target > 1
    ensures var at, exact := i * StepOf(source, target) * (target - 1), i * ((source - 1) * ONE);
            at <= exact <= at + i * (target - 2)
  {
    var d, whole := target - 1, (source - 1) * ONE;
    var q := whole / d;
    DividesTo(whole, d);
    TimesAll(i, q, d, whole);
  }

  lemma TimesAll(i: nat, q: nat, d: nat, whole: nat)
    requires d > 0 && d * q <= whole <= d * q + (d - 1)
    ensures i * q * d <= i * whole <= i * q * d + i * (d - 1)
  {
    ProductGrows(d * q, whole, i);
    ProductGrows(whole, d * q + (d - 1), i);
    Distributes(i, d * q, d - 1);
    Reordered(i, q, d);
  }

  lemma Distributes(i: nat, a: nat, b: nat)
    ensures i * (a + b) == i * a + i * b
  {
  }

  lemma Reordered(i: nat, q: nat, d: nat)
    ensures i * q * d == i * (d * q)
  {
  }

  function Near(side: nat, i: int): int { if i + 1 < side then i + 1 else side - 1 }

  function Blend(w00: nat, w01: nat, w10: nat, w11: nat, a: int, b: int, c: int, e: int): int {
    (w00 * a + w01 * b + w10 * c + w11 * e + 0x8000) % WORD / ONE
  }

  function Product(a: nat, b: nat): nat { a * b }

  /** The weights of a position between columns and rows always share out one whole. */
  lemma WeightsShareOne(u: nat, wx: nat, v: nat, wy: nat)
    requires u + wx == 256 && v + wy == 256
    ensures Product(u, v) + Product(wx, v) + Product(u, wy) + Product(wx, wy) == ONE
  {
    assert u * v + wx * v == (u + wx) * v == 256 * v;
    assert u * wy + wx * wy == (u + wx) * wy == 256 * wy;
  }

  /** A blend lies between the least and greatest of what it blends, and its sum fits 32 bits. */
  lemma BlendBetween(lo: nat, hi: nat, w00: nat, w01: nat, w10: nat, w11: nat, a: int, b: int, c: int, e: int)
    requires w00 + w01 + w10 + w11 == ONE && hi < 256
    requires lo <= a <= hi && lo <= b <= hi && lo <= c <= hi && lo <= e <= hi
    ensures lo <= Blend(w00, w01, w10, w11, a, b, c, e) <= hi
    ensures w00 * a + w01 * b + w10 * c + w11 * e + 0x8000 < WORD
  {
    Weighed(lo, hi, w00, a);
    Weighed(lo, hi, w01, b);
    Weighed(lo, hi, w10, c);
    Weighed(lo, hi, w11, e);
    Shared(w00, w01, w10, w11, lo);
    Shared(w00, w01, w10, w11, hi);
    Rounded(w00 * a + w01 * b + w10 * c + w11 * e, lo, hi);
  }

  lemma Weighed(lo: nat, hi: nat, w: nat, v: int)
    requires lo <= v <= hi
    ensures w * lo <= w * v <= w * hi
  {
    ProductGrows(lo, v, w);
    ProductGrows(v, hi, w);
  }

  lemma Shared(w00: nat, w01: nat, w10: nat, w11: nat, v: nat)
    ensures w00 * v + w01 * v + w10 * v + w11 * v == (w00 + w01 + w10 + w11) * v
  {
  }

  lemma Rounded(sum: int, lo: nat, hi: nat)
    requires ONE * lo <= sum <= ONE * hi && hi < 256
    ensures lo <= (sum + 0x8000) % WORD / ONE <= hi && sum + 0x8000 < WORD
  {
  }

  datatype Weights = Weights(w00: nat, w01: nat, w10: nat, w11: nat)

  function WeightsAt(wx: nat, wy: nat): (w: Weights)
    requires wx < 256 && wy < 256
    ensures w.w00 + w.w01 + w.w10 + w.w11 == ONE
  {
    var u, v := 256 - wx, 256 - wy;
    WeightsShareOne(u, wx, v, wy);
    Weights(Product(u, v), Product(wx, v), Product(u, wy), Product(wx, wy))
  }

  function BlendByte(w: Weights, a: Byte, b: Byte, c: Byte, e: Byte): Byte
    requires w.w00 + w.w01 + w.w10 + w.w11 == ONE
  {
    BlendBetween(0, 255, w.w00, w.w01, w.w10, w.w11, a, b, c, e);
    Blend(w.w00, w.w01, w.w10, w.w11, a, b, c, e)
  }

  function BlendPixel(wx: nat, wy: nat, a: Pixel, b: Pixel, c: Pixel, e: Pixel): Pixel
    requires wx < 256 && wy < 256
  {
    var w := WeightsAt(wx, wy);
    Pixel(BlendByte(w, a.c0, b.c0, c.c0, e.c0), BlendByte(w, a.c1, b.c1, c.c1, e.c1),
          BlendByte(w, a.c2, b.c2, c.c2, e.c2), BlendByte(w, a.c3, b.c3, c.c3, e.c3))
  }

  /** The resampled pixel, its place in the source written out rather than stepped to. */
  function ResampledPixel(p: Picture, dw: nat, dh: nat, x: int, y: int): Pixel
    requires p.width > 0 && p.height > 0 && 0 <= x && 0 <= y
  {
    var fx, fy := x * StepOf(p.width, dw), y * StepOf(p.height, dh);
    PositionOf(fx);
    PositionOf(fy);
    var x0, y0 := fx / ONE, fy / ONE;
    var x1, y1 := Near(p.width, x0), Near(p.height, y0);
    BlendPixel(fx / 256 % 256, fy / 256 % 256, p.At(x0, y0), p.At(x1, y0), p.At(x0, y1), p.At(x1, y1))
  }

  lemma PositionOf(f: int)
    requires f >= 0
    ensures f / ONE >= 0 && 0 <= f / 256 % 256 < 256
  {
  }

  /** A picture resampled bilinearly to a size. */
  function Resampled(p: Picture, dw: nat, dh: nat): (q: Picture)
    requires p.width > 0 && p.height > 0
    ensures q.Valid() && q.width == dw && q.height == dh
  {
    Drawn(dw, dh, (x, y) => if x < 0 || y < 0 then BLANK else ResampledPixel(p, dw, dh, x, y))
  }

  lemma ResampledAt(p: Picture, dw: nat, dh: nat, x: nat, y: nat)
    requires p.width > 0 && p.height > 0 && x < dw && y < dh
    ensures Resampled(p, dw, dh).At(x, y) == ResampledPixel(p, dw, dh, x, y)
  {
    hide ResampledPixel;
    DrawnAt(dw, dh, (x, y) => if x < 0 || y < 0 then BLANK else ResampledPixel(p, dw, dh, x, y), x, y);
  }

  /** A side of a pointer picture: 16 bits wide as the host sends it. */
  predicate Sided(n: nat) { 0 < n <= 0xFFFF }

  /** The step as 32-bit words compute it. */
  function WordStep(source: nat, target: nat): nat
    requires source > 0
  {
    if target > 1 then ((source - 1) * ONE % WORD) / (target - 1) else 0
  }

  lemma WordStepIsStep(source: nat, target: nat)
    requires Sided(source)
    ensures WordStep(source, target) == StepOf(source, target)
  {
  }

  /** Stepping in 32-bit words reaches every column or row without wrapping. */
  lemma WalkIsExact(source: nat, target: nat, i: nat)
    requires Sided(source) && i < target
    ensures (i * StepOf(source, target)) % WORD == i * StepOf(source, target)
    ensures i + 1 < target ==>
              (i * StepOf(source, target) + StepOf(source, target)) % WORD == (i + 1) * StepOf(source, target)
    ensures (i * StepOf(source, target)) / ONE < source
  {
    StepStaysInside(source, target, i);
    if i + 1 < target {
      StepStaysInside(source, target, i + 1);
      assert (i + 1) * StepOf(source, target) == i * StepOf(source, target) + StepOf(source, target);
    }
  }

  method ResampleRow(src: seq<Byte>, sw: nat, sh: nat, dst: array<Byte>, dw: nat, dh: nat, y: nat, fy: nat,
                     ghost n: nat)
    returns (ghost m: nat)
    requires Sided(sw) && Sided(sh) && |src| == Size(sw, sh) && y < dh && n == y * dw
    requires fy == y * StepOf(sh, dh)
    requires DrawnUpTo(dst[..], Resampled(Packed(src, sw, sh), dw, dh), n)
    modifies dst
    ensures m == n + dw && DrawnUpTo(dst[..], Resampled(Packed(src, sw, sh), dw, dh), m)
  {
    hide Packed, Resampled, DrawnUpTo, Offset, BlendPixel, Fetch, StepOf, WordStep, Size;
    m := n;
    var stepX := WordStep(sw, dw);
    WordStepIsStep(sw, dw);
    WalkIsExact(sh, dh, y);
    PositionOf(fy);
    var y0 := fy / ONE;
    var y1 := if y0 + 1 < sh then y0 + 1 else sh - 1;
    var wy := fy / 256 % 256;
    var fx: nat, x: nat := 0, 0;
    while x < dw
      invariant x <= dw && m == n + x && (x < dw ==> fx == x * StepOf(sw, dw))
      invariant DrawnUpTo(dst[..], Resampled(Packed(src, sw, sh), dw, dh), m)
    {
      WalkIsExact(sw, dw, x);
      PositionOf(fx);
      var x0 := fx / ONE;
      var x1 := if x0 + 1 < sw then x0 + 1 else sw - 1;
      var wx := fx / 256 % 256;
      Inside(src, sw, sh, x0, y0);
      Inside(src, sw, sh, x1, y0);
      Inside(src, sw, sh, x0, y1);
      Inside(src, sw, sh, x1, y1);
      var p00, p01 := Fetch(src, Offset(sw, x0, y0)), Fetch(src, Offset(sw, x1, y0));
      var p10, p11 := Fetch(src, Offset(sw, x0, y1)), Fetch(src, Offset(sw, x1, y1));
      ResampledAt(Packed(src, sw, sh), dw, dh, x, y);
      DrawNext(dst, Resampled(Packed(src, sw, sh), dw, dh), dw, x, y, m, BlendPixel(wx, wy, p00, p01, p10, p11));
      x, m, fx := x + 1, m + 1, (fx + stepX) % WORD;
    }
  }

  /** Resample a packed picture to a size. */
  method Bilinear(src: seq<Byte>, sw: nat, sh: nat, dw: nat, dh: nat) returns (dst: array<Byte>)
    requires Sided(sw) && Sided(sh) && |src| == Size(sw, sh)
    ensures dst.Length == Size(dw, dh)
    ensures Packed(dst[..], dw, dh) == Resampled(Packed(src, sw, sh), dw, dh)
  {
    hide Packed, Resampled, DrawnUpTo, StepOf, WordStep;
    dst := new Byte[Size(dw, dh)](_ => 0);
    ghost var goal := Resampled(Packed(src, sw, sh), dw, dh);
    NothingDrawn(dst[..], goal);
    var stepY := WordStep(sh, dh);
    WordStepIsStep(sh, dh);
    ghost var n := 0;
    var fy: nat, y: nat := 0, 0;
    while y < dh
      invariant y <= dh && n == y * dw && (y < dh ==> fy == y * StepOf(sh, dh))
      invariant DrawnUpTo(dst[..], goal, n)
    {
      WalkIsExact(sh, dh, y);
      n := ResampleRow(src, sw, sh, dst, dw, dh, y, fy, n);
      y, fy := y + 1, (fy + stepY) % WORD;
    }
    DrawnAll(dst[..], goal, n);
  }

  // What resizing keeps.

  predicate Between(q: Pixel, lo: Pixel, hi: Pixel) {
    lo.c0 <= q.c0 <= hi.c0 && lo.c1 <= q.c1 <= hi.c1 && lo.c2 <= q.c2 <= hi.c2 && lo.c3 <= q.c3 <= hi.c3
  }

  /** Every pixel's channels lie between those of two bounds. */
  ghost predicate Bounded(p: Picture, lo: Pixel, hi: Pixel) {
    forall x, y :: 0 <= x < p.width && 0 <= y < p.height ==> Between(p.At(x, y), lo, hi)
  }

  lemma HalvedStaysBetween(p: Picture, lo: Pixel, hi: Pixel)
    requires Bounded(p, lo, hi)
    ensures Bounded(Halved(p), lo, hi)
  {
    hide Halved;
    forall x: int, y: int | 0 <= x < Halved(p).width && 0 <= y < Halved(p).height
      ensures Between(Halved(p).At(x, y), lo, hi)
    {
      HalvedAt(p, x, y);
      var x0, y0 := 2 * x, 2 * y;
      var x1, y1 := Second(p.width, x0), Second(p.height, y0);
      MeanPixelBetween(lo, hi, p.At(x0, y0), p.At(x1, y0), p.At(x0, y1), p.At(x1, y1));
    }
  }

  lemma MeanPixelBetween(lo: Pixel, hi: Pixel, a: Pixel, b: Pixel, c: Pixel, e: Pixel)
    requires Between(a, lo, hi) && Between(b, lo, hi) && Between(c, lo, hi) && Between(e, lo, hi)
    ensures Between(MeanPixel(a, b, c, e), lo, hi)
  {
    MeanBetween(lo.c0, hi.c0, a.c0, b.c0, c.c0, e.c0);
    MeanBetween(lo.c1, hi.c1, a.c1, b.c1, c.c1, e.c1);
    MeanBetween(lo.c2, hi.c2, a.c2, b.c2, c.c2, e.c2);
    MeanBetween(lo.c3, hi.c3, a.c3, b.c3, c.c3, e.c3);
  }

  lemma BlendPixelBetween(lo: Pixel, hi: Pixel, wx: nat, wy: nat, a: Pixel, b: Pixel, c: Pixel, e: Pixel)
    requires wx < 256 && wy < 256
    requires Between(a, lo, hi) && Between(b, lo, hi) && Between(c, lo, hi) && Between(e, lo, hi)
    ensures Between(BlendPixel(wx, wy, a, b, c, e), lo, hi)
  {
    hide WeightsAt, Blend;
    var w := WeightsAt(wx, wy);
    BlendBetween(lo.c0, hi.c0, w.w00, w.w01, w.w10, w.w11, a.c0, b.c0, c.c0, e.c0);
    BlendBetween(lo.c1, hi.c1, w.w00, w.w01, w.w10, w.w11, a.c1, b.c1, c.c1, e.c1);
    BlendBetween(lo.c2, hi.c2, w.w00, w.w01, w.w10, w.w11, a.c2, b.c2, c.c2, e.c2);
    BlendBetween(lo.c3, hi.c3, w.w00, w.w01, w.w10, w.w11, a.c3, b.c3, c.c3, e.c3);
  }

  lemma ResampledStaysBetween(p: Picture, dw: nat, dh: nat, lo: Pixel, hi: Pixel)
    requires p.width > 0 && p.height > 0 && Bounded(p, lo, hi)
    ensures Bounded(Resampled(p, dw, dh), lo, hi)
  {
    hide Resampled, StepOf, BlendPixel;
    forall x: int, y: int | 0 <= x < dw && 0 <= y < dh ensures Between(Resampled(p, dw, dh).At(x, y), lo, hi) {
      ResampledAt(p, dw, dh, x, y);
      var fx, fy := x * StepOf(p.width, dw), y * StepOf(p.height, dh);
      StepStaysInside(p.width, dw, x);
      StepStaysInside(p.height, dh, y);
      PositionOf(fx);
      PositionOf(fy);
      var x0, y0 := fx / ONE, fy / ONE;
      var x1, y1 := Near(p.width, x0), Near(p.height, y0);
      BlendPixelBetween(lo, hi, fx / 256 % 256, fy / 256 % 256, p.At(x0, y0), p.At(x1, y0), p.At(x0, y1), p.At(x1, y1));
    }
  }

  /** Resampling to its own size leaves a picture as it is. */
  lemma ResampledToItself(p: Picture)
    requires p.Valid() && p.width > 0 && p.height > 0
    ensures Resampled(p, p.width, p.height) == p
  {
    hide Resampled, StepOf, BlendPixel;
    var q := Resampled(p, p.width, p.height);
    forall x: int, y: int | 0 <= x < p.width && 0 <= y < p.height ensures q.At(x, y) == p.At(x, y) {
      ResampledAt(p, p.width, p.height, x, y);
      OwnStep(p.width, x);
      OwnStep(p.height, y);
      var right, below := Near(p.width, x), Near(p.height, y);
      BlendOfOne(p.At(x, y), p.At(right, y), p.At(x, below), p.At(right, below));
    }
    SamePixels(q, p);
  }

  lemma OwnStep(side: nat, i: nat)
    requires i < side
    ensures (i * StepOf(side, side)) / ONE == i && (i * StepOf(side, side)) / 256 % 256 == 0
  {
    if side > 1 { Quotient(side - 1); }
    OnWholeSteps(i);
  }

  lemma Quotient(d: nat)
    requires d > 0
    ensures d * ONE / d == ONE
  {
  }

  lemma OnWholeSteps(i: nat)
    ensures i * ONE / ONE == i && i * ONE / 256 % 256 == 0
  {
    assert i * ONE / 256 == 256 * i;
  }

  lemma BlendOfOne(a: Pixel, b: Pixel, c: Pixel, e: Pixel)
    ensures BlendPixel(0, 0, a, b, c, e) == a
  {
  }

  // Halving while at least twice the target, then resampling.

  /** Twice the target's width, in 32 bits: what the larger side is compared with. */
  function Bound(tw: nat): nat { 2 * tw % WORD }

  /** Whether the picture is halved once more. */
  predicate HalvesAgain(sw: nat, sh: nat, tw: nat) {
    (if sw > sh then sw else sh) >= Bound(tw) && sw >= 2 && sh >= 2
  }

  /** The picture the halvings leave. */
  function Shrunk(p: Picture, tw: nat): (q: Picture)
    requires p.Valid()
    ensures q.Valid() && (p.width > 0 ==> q.width > 0) && (p.height > 0 ==> q.height > 0)
    ensures q.width <= p.width && q.height <= p.height
    decreases p.width
  {
    if HalvesAgain(p.width, p.height, tw) then Shrunk(Halved(p), tw) else p
  }

  /** The pointer at its target size. */
  function Resized(p: Picture, tw: nat, th: nat): (q: Picture)
    requires p.Valid() && p.width > 0 && p.height > 0
    ensures q.Valid() && q.width == tw && q.height == th
  {
    Resampled(Shrunk(p, tw), tw, th)
  }

  lemma {:induction false} ShrunkStaysBetween(p: Picture, tw: nat, lo: Pixel, hi: Pixel)
    requires p.Valid() && Bounded(p, lo, hi)
    ensures Bounded(Shrunk(p, tw), lo, hi)
    decreases p.width
  {
    hide Halved;
    if HalvesAgain(p.width, p.height, tw) {
      HalvedStaysBetween(p, lo, hi);
      ShrunkStaysBetween(Halved(p), tw, lo, hi);
    }
  }

  /** Every channel of the resized pointer stays between the least and greatest it has in the host's picture. */
  lemma ResizedStaysBetween(p: Picture, tw: nat, th: nat, lo: Pixel, hi: Pixel)
    requires p.Valid() && p.width > 0 && p.height > 0 && Bounded(p, lo, hi)
    ensures Bounded(Resized(p, tw, th), lo, hi)
  {
    hide Shrunk, Resampled;
    ShrunkStaysBetween(p, tw, lo, hi);
    ResampledStaysBetween(Shrunk(p, tw), tw, th, lo, hi);
  }

  /** Halve as often as that is asked, then resample, unless the size is right by then. */
  method Resize(rgba: seq<Byte>, cw: nat, ch: nat, tw: nat, th: nat) returns (scaled: seq<Byte>)
    requires Sided(cw) && Sided(ch) && |rgba| == Size(cw, ch)
    ensures |scaled| == Size(tw, th)
    ensures Packed(scaled, tw, th) == Resized(Packed(rgba, cw, ch), tw, th)
  {
    hide Packed, Halved, Resampled, Size;
    var cur, sw, sh := rgba, cw, ch;
    while HalvesAgain(sw, sh, tw)
      invariant Sided(sw) && Sided(sh) && |cur| == Size(sw, sh)
      invariant Shrunk(Packed(cur, sw, sh), tw) == Shrunk(Packed(rgba, cw, ch), tw)
      decreases sw
    {
      var half := Halve(cur, sw, sh);
      cur, sw, sh := half[..], sw / 2, sh / 2;
    }
    if sw == tw && sh == th {
      ResampledToItself(Packed(cur, sw, sh));
      scaled := cur;
    } else {
      var dst := Bilinear(cur, sw, sh, tw, th);
      scaled := dst[..];
    }
  }

  // How far the halvings go.

  /** The size the halvings leave. */
  function ShrunkSize(sw: nat, sh: nat, tw: nat): (nat, nat) {
    if HalvesAgain(sw, sh, tw) then ShrunkSize(sw / 2, sh / 2, tw) else (sw, sh)
  }

  lemma {:induction false} ShrunkHasSize(p: Picture, tw: nat)
    requires p.Valid()
    ensures (Shrunk(p, tw).width, Shrunk(p, tw).height) == ShrunkSize(p.width, p.height, tw)
    decreases p.width
  {
    hide Halved;
    if HalvesAgain(p.width, p.height, tw) { ShrunkHasSize(Halved(p), tw); }
  }

  function Doubled(n: nat, times: nat): nat { if times == 0 then n else 2 * Doubled(n, times - 1) }

  /** How often a side is halved before it is under a bound, or one. */
  function Halvings(side: nat, bound: nat): nat {
    if side < bound || side < 2 then 0 else 1 + Halvings(side / 2, bound)
  }

  function Fewer(a: nat, b: nat): nat { if a < b then a else b }

  /** The picture resampled is no narrower than the narrower of the host's and the target. */
  predicate KeepsWidth(p: Picture, tw: nat)
    requires p.Valid()
  {
    Shrunk(p, tw).width >= Fewer(p.width, tw)
  }

  /** The picture resampled is no lower than the lower of the host's and the target. */
  predicate KeepsHeight(p: Picture, tw: nat, th: nat)
    requires p.Valid()
  {
    Shrunk(p, tw).height >= Fewer(p.height, th)
  }

  /**
    * A picture at least as wide as tall keeps its width for every target under 2^31, and for a larger one, twice
    * which does not fit 32 bits, exactly when it is not halved.
    */
  lemma WideKeepsWidthExactlyWhen(p: Picture, tw: nat)
    requires p.Valid() && 0 < p.height <= p.width < 0x8000_0000 && 0 < tw < WORD
    ensures KeepsWidth(p, tw) <==> tw < 0x8000_0000 || p.width < Bound(tw) || p.height < 2
  {
    hide Shrunk;
    ShrunkHasSize(p, tw);
    if tw < 0x8000_0000 {
      WideSide(p.width, p.height, tw);
    } else {
      NarrowsWhenHalved(p.width, p.height, tw);
    }
  }

  lemma {:induction false} WideSide(sw: nat, sh: nat, tw: nat)
    requires 0 < tw < 0x8000_0000 && sw >= sh
    ensures ShrunkSize(sw, sh, tw).0 >= Fewer(sw, tw)
    decreases sw
  {
    if HalvesAgain(sw, sh, tw) { WideSide(sw / 2, sh / 2, tw); }
  }

  /**
    * A taller one is compared by its height: it keeps its width exactly when it is not halved at all, when the
    * target is one pixel wide, or when its width is the target's doubled as often as its height is halved.
    */
  lemma TallKeepsWidthExactlyWhen(p: Picture, tw: nat)
    requires p.Valid() && 0 < tw < WORD && 0 < p.width < p.height
    ensures KeepsWidth(p, tw)
            <==> p.height < Bound(tw) || p.width < 2 || tw == 1 || p.width >= Doubled(tw, Halvings(p.height, Bound(tw)))
  {
    hide Shrunk, Bound;
    ShrunkHasSize(p, tw);
    SmallerSide(p.width, p.height, tw, tw);
    DoubledGrows(tw, Halvings(p.height, Bound(tw)));
    NarrowsWhenHalved(p.width, p.height, tw);
  }

  /** A picture at least as wide as tall keeps its height exactly when that outlasts the width's halvings. */
  lemma WideKeepsHeightExactlyWhen(p: Picture, tw: nat, th: nat)
    requires p.Valid() && 0 < tw < WORD && 0 < p.height <= p.width && 0 < th
    ensures KeepsHeight(p, tw, th)
            <==> p.width < Bound(tw) || p.height < 2 || th == 1 || p.height >= Doubled(th, Halvings(p.width, Bound(tw)))
  {
    hide Shrunk, Bound;
    ShrunkHasSize(p, tw);
    SidesSwap(p.width, p.height, tw);
    SmallerSide(p.height, p.width, tw, th);
    DoubledGrows(th, Halvings(p.width, Bound(tw)));
    NarrowsWhenHalved(p.height, p.width, tw);
  }

  /**
    * A taller one is halved by its height until that is under the bound, or its width is one: it keeps its height
    * exactly when the target's is no more than what is then left of it, or it is not halved.
    */
  lemma TallKeepsHeightExactlyWhen(p: Picture, tw: nat, th: nat)
    requires p.Valid() && 0 < tw < WORD && 0 < p.width < p.height && 0 < th
    ensures KeepsHeight(p, tw, th)
            <==> || p.height < Bound(tw) || p.width < 2
                 || p.height >= Doubled(th, Fewer(WidthHalvings(p.width), Halvings(p.height, Bound(tw))))
  {
    hide Shrunk, Bound;
    ShrunkHasSize(p, tw);
    LargerSide(p.width, p.height, tw, th);
    DoubledGrows(th, Fewer(WidthHalvings(p.width), Halvings(p.height, Bound(tw))));
    SidesSwap(p.width, p.height, tw);
    NarrowsWhenHalved(p.height, p.width, tw);
  }

  lemma {:induction false} NarrowsWhenHalved(sw: nat, sh: nat, tw: nat)
    ensures ShrunkSize(sw, sh, tw).0 <= sw && (HalvesAgain(sw, sh, tw) ==> ShrunkSize(sw, sh, tw).0 < sw)
    decreases sw
  {
    if HalvesAgain(sw, sh, tw) { NarrowsWhenHalved(sw / 2, sh / 2, tw); }
  }

  /** The smaller side keeps a least size of two or more exactly when it is that, doubled once for each halving. */
  lemma {:induction false} SmallerSide(sw: nat, sh: nat, tw: nat, least: nat)
    requires 0 < sw <= sh
    ensures ShrunkSize(sw, sh, tw).0 >= 1
    ensures least >= 2 ==> (ShrunkSize(sw, sh, tw).0 >= least <==> sw >= Doubled(least, Halvings(sh, Bound(tw))))
    decreases sw
  {
    hide Bound;
    if HalvesAgain(sw, sh, tw) {
      SmallerSide(sw / 2, sh / 2, tw, least);
    } else if least >= 2 {
      DoubledGrows(least, Halvings(sh, Bound(tw)));
    }
  }

  lemma {:induction false} SidesSwap(sw: nat, sh: nat, tw: nat)
    ensures var (a, b) := ShrunkSize(sw, sh, tw); ShrunkSize(sh, sw, tw) == (b, a)
    decreases sw
  {
    if HalvesAgain(sw, sh, tw) { SidesSwap(sw / 2, sh / 2, tw); }
  }

  /** How often a width can be halved and leave something. */
  function WidthHalvings(sw: nat): nat { if sw < 2 then 0 else 1 + WidthHalvings(sw / 2) }

  lemma {:induction false} LargerSide(sw: nat, sh: nat, tw: nat, least: nat)
    requires 0 < sw <= sh && 0 < least
    ensures ShrunkSize(sw, sh, tw).1 >= least
            <==> sh >= Doubled(least, Fewer(WidthHalvings(sw), Halvings(sh, Bound(tw))))
    decreases sw
  {
    hide Bound;
    if HalvesAgain(sw, sh, tw) { LargerSide(sw / 2, sh / 2, tw, least); }
  }

  lemma {:induction false} DoubledGrows(n: nat, times: nat)
    ensures Doubled(n, times) >= n && (n > 0 && times > 0 ==> Doubled(n, times) > n)
  {
    if times > 0 { DoubledGrows(n, times - 1); }
  }

  /** Any pointer 10 wide and 40 tall, drawn at 9 by 36, is resampled from one 2 by 10. */
  lemma TallPointerIsCrushed(p: Picture)
    requires p.Valid() && p.width == 10 && p.height == 40
    ensures Shrunk(p, 9).width == 2 && Shrunk(p, 9).height == 10 && !KeepsWidth(p, 9)
  {
    hide Shrunk;
    ShrunkHasSize(p, 9);
    assert ShrunkSize(2, 10, 9) == (2, 10);
    assert ShrunkSize(5, 20, 9) == ShrunkSize(2, 10, 9);
  }

  /** Any pointer 40 wide and 10 tall, for a target 10 wide and 10 tall, is resampled from one 10 by 2. */
  lemma WidePointerIsCrushed(p: Picture)
    requires p.Valid() && p.width == 40 && p.height == 10
    ensures Shrunk(p, 10).width == 10 && Shrunk(p, 10).height == 2 && !KeepsHeight(p, 10, 10)
  {
    hide Shrunk;
    ShrunkHasSize(p, 10);
    assert ShrunkSize(10, 2, 10) == (10, 2);
    assert ShrunkSize(20, 5, 10) == ShrunkSize(10, 2, 10);
  }

  /** Any square pointer of four pixels a side, for a target 2^31 wide, is resampled from a single pixel. */
  lemma HugeTargetCrushes(p: Picture)
    requires p.Valid() && p.width == p.height == 4
    ensures Shrunk(p, 0x8000_0000).width == 1 && !KeepsWidth(p, 0x8000_0000)
  {
    hide Shrunk;
    ShrunkHasSize(p, 0x8000_0000);
    assert ShrunkSize(1, 1, 0x8000_0000) == (1, 1);
    assert ShrunkSize(2, 2, 0x8000_0000) == ShrunkSize(1, 1, 0x8000_0000);
  }

  // How near the exact blend a resampled byte is.

  /** Between two rows, the blend of what lies between two columns of each, in parts of 256 by 256. */
  function Interpolated(wx: int, wy: int, a: int, b: int, c: int, e: int): int {
    (256 - wy) * ((256 - wx) * a + wx * b) + wy * ((256 - wx) * c + wx * e)
  }

  predicate NearestBlend(r: int, wx: int, wy: int, a: int, b: int, c: int, e: int) {
    Interpolated(wx, wy, a, b, c, e) - 0x8000 < ONE * r <= Interpolated(wx, wy, a, b, c, e) + 0x8000
  }

  lemma WeightsSpread(wx: nat, wy: nat, a: int, b: int, c: int, e: int)
    requires wx < 256 && wy < 256
    ensures var w := WeightsAt(wx, wy);
            w.w00 * a + w.w01 * b + w.w10 * c + w.w11 * e == Interpolated(wx, wy, a, b, c, e)
  {
    var u, v := 256 - wx, 256 - wy;
    Spread(u, v, a);
    Spread(wx, v, b);
    Spread(u, wy, c);
    Spread(wx, wy, e);
    assert v * (u * a + wx * b) == v * (u * a) + v * (wx * b);
    assert wy * (u * c + wx * e) == wy * (u * c) + wy * (wx * e);
  }

  lemma Spread(a: nat, b: nat, v: int)
    ensures Product(a, b) * v == b * (a * v)
  {
  }

  lemma BlendIsNear(wx: nat, wy: nat, a: Byte, b: Byte, c: Byte, e: Byte)
    requires wx < 256 && wy < 256
    ensures NearestBlend(BlendByte(WeightsAt(wx, wy), a, b, c, e), wx, wy, a, b, c, e)
  {
    hide Interpolated, WeightsAt;
    var w := WeightsAt(wx, wy);
    WeightsSpread(wx, wy, a, b, c, e);
    BlendBetween(0, 255, w.w00, w.w01, w.w10, w.w11, a, b, c, e);
    var sum := w.w00 * a + w.w01 * b + w.w10 * c + w.w11 * e;
    ZeroOrMore(w, a, b, c, e);
    assert (sum + 0x8000) % WORD == sum + 0x8000;
  }

  lemma ZeroOrMore(w: Weights, a: Byte, b: Byte, c: Byte, e: Byte)
    ensures w.w00 * a + w.w01 * b + w.w10 * c + w.w11 * e >= 0
  {
    Weighed(0, a, w.w00, a);
    Weighed(0, b, w.w01, b);
    Weighed(0, c, w.w10, c);
    Weighed(0, e, w.w11, e);
  }

  /**
    * Every byte of a resampled picture is, to the nearest, the blend of the four pixels about its place in the
    * source, each by how near it is.
    */
  lemma ResampledIsBilinear(p: Picture, dw: nat, dh: nat, x: nat, y: nat)
    requires p.width > 0 && p.height > 0 && x < dw && y < dh
    ensures var fx, fy := x * StepOf(p.width, dw), y * StepOf(p.height, dh);
            var x0, y0, wx, wy := fx / ONE, fy / ONE, fx % ONE / 256, fy % ONE / 256;
            var x1 := if x0 < p.width - 1 then x0 + 1 else p.width - 1;
            var y1 := if y0 < p.height - 1 then y0 + 1 else p.height - 1;
            NearestPixel(Resampled(p, dw, dh).At(x, y), wx, wy, p.At(x0, y0), p.At(x1, y0), p.At(x0, y1), p.At(x1, y1))
  {
    hide Resampled, StepOf, BlendPixel;
    ResampledAt(p, dw, dh, x, y);
    var fx, fy := x * StepOf(p.width, dw), y * StepOf(p.height, dh);
    FractionOf(fx);
    FractionOf(fy);
    var x0, y0 := fx / ONE, fy / ONE;
    var x1, y1 := Near(p.width, x0), Near(p.height, y0);
    PixelIsNear(fx / 256 % 256, fy / 256 % 256, p.At(x0, y0), p.At(x1, y0), p.At(x0, y1), p.At(x1, y1));
  }

  lemma FractionOf(f: int)
    requires f >= 0
    ensures f / ONE >= 0 && 0 <= f / 256 % 256 < 256 && f / 256 % 256 == f % ONE / 256
  {
    var q, r := f / ONE, f % ONE;
    assert f == ONE * q + r;
    assert f / 256 == 256 * q + r / 256;
  }

  predicate NearestPixel(q: Pixel, wx: int, wy: int, a: Pixel, b: Pixel, c: Pixel, e: Pixel) {
    && NearestBlend(q.c0, wx, wy, a.c0, b.c0, c.c0, e.c0) && NearestBlend(q.c1, wx, wy, a.c1, b.c1, c.c1, e.c1)
    && NearestBlend(q.c2, wx, wy, a.c2, b.c2, c.c2, e.c2) && NearestBlend(q.c3, wx, wy, a.c3, b.c3, c.c3, e.c3)
  }

  lemma PixelIsNear(wx: nat, wy: nat, a: Pixel, b: Pixel, c: Pixel, e: Pixel)
    requires wx < 256 && wy < 256
    ensures NearestPixel(BlendPixel(wx, wy, a, b, c, e), wx, wy, a, b, c, e)
  {
    hide NearestBlend, BlendByte, WeightsAt;
    BlendIsNear(wx, wy, a.c0, b.c0, c.c0, e.c0);
    BlendIsNear(wx, wy, a.c1, b.c1, c.c1, e.c1);
    BlendIsNear(wx, wy, a.c2, b.c2, c.c2, e.c2);
    BlendIsNear(wx, wy, a.c3, b.c3, c.c3, e.c3);
  }

  // The pointer the toolkit is given.

  lemma NotNegative(n: int, d: nat)
    requires n >= 0 && d > 0
    ensures n / d >= 0
  {
  }

  /** A side in the drawn picture, as 32-bit words round it; never nothing. */
  function Scaled(side: nat, drawn: nat, stream: nat): (t: nat)
    requires stream > 0
    ensures t >= 1
  {
    var n := (side * drawn + stream / 2) % WORD;
    NotNegative(n, stream);
    var t := n / stream;
    if t == 0 then 1 else t
  }

  predicate Close(a: nat, b: nat) { a <= b + 2 && b <= a + 2 }

  /** A small pointer's target within two pixels of its own size, or of half of it, is taken to be that. */
  function Snapped(cw: nat, ch: nat, tw: nat, th: nat): (nat, nat) {
    if cw > 127 || ch > 127 || cw == 0 || ch == 0 then (tw, th)
    else if Close(cw, tw) && Close(ch, th) then (cw, ch)
    else if cw / 2 > 0 && ch / 2 > 0 && Close(cw / 2, tw) && Close(ch / 2, th) then (cw / 2, ch / 2)
    else (tw, th)
  }

  /** The size a pointer has in the drawn picture; its own before there is one. */
  function Target(cw: nat, ch: nat, across: nat, down: nat, vw: int, vh: int): (t: (nat, nat))
    ensures cw > 0 && ch > 0 ==> t.0 >= 1 && t.1 >= 1
  {
    if across != 0 && down != 0 && vw > 0 && vh > 0
    then Snapped(cw, ch, Scaled(cw, vw, across), Scaled(ch, vh, down)) else Snapped(cw, ch, cw, ch)
  }

  /** A share rounded to the nearest whole part, halves up. */
  predicate NearestShare(t: nat, share: nat, part: nat) {
    2 * (part * t) <= 2 * share + part && 2 * share < 2 * (part * t) + part
  }

  lemma ShareIsNearest(share: nat, part: nat)
    requires part > 0
    ensures NearestShare((share + part / 2) / part, share, part)
  {
    DividesTo(share + part / 2, part);
  }

  lemma NearestIsOne(t: nat, share: nat, part: nat)
    requires part > 0 && NearestShare(t, share, part)
    ensures (share + part / 2) / part == t
  {
    QuotientIs(share + part / 2, part, t);
  }

  /** A size that is its share of the drawn picture to the nearest, and at least one. */
  predicate IsShare(t: nat, share: nat, part: nat) {
    NearestShare(t, share, part) || (t == 1 && NearestShare(0, share, part))
  }

  /** A side in the drawn picture is its share of it exactly when that, rounded, fits 32 bits before it is divided. */
  lemma ScaledExactlyWhen(side: nat, drawn: nat, stream: nat)
    requires 0 < stream <= 0x8000_0000
    ensures IsShare(Scaled(side, drawn, stream), side * drawn, stream) <==> side * drawn + stream / 2 < WORD
  {
    ShareExactlyWhen(side * drawn, stream, Scaled(side, drawn, stream));
  }

  lemma ShareExactlyWhen(share: nat, stream: nat, t: nat)
    requires 0 < stream <= 0x8000_0000
    requires var q := (share + stream / 2) % WORD / stream; t == if q == 0 then 1 else q
    ensures IsShare(t, share, stream) <==> share + stream / 2 < WORD
  {
    hide NearestShare;
    var n := share + stream / 2;
    ShareIsNearest(share, stream);
    if n >= WORD {
      WrappedIsLess(n, stream);
      if NearestShare(t, share, stream) { NearestIsOne(t, share, stream); }
      if NearestShare(0, share, stream) { NearestIsOne(0, share, stream); }
    }
  }

  lemma WrappedIsLess(n: nat, d: nat)
    requires n >= WORD && 0 < d <= 0x8000_0000
    ensures n / d >= n % WORD / d + 2
  {
    var q := n % WORD / d;
    DividesTo(n % WORD, d);
    DividesTo(n, d);
    if n / d < q + 2 { ProductGrows(n / d + 1, q + 2, d); }
  }

  /** A pointer as wide as can be, in a picture drawn at the stream's own width of 65538, is made one pixel wide. */
  lemma WidePointerIsTakenForAColumn()
    ensures Scaled(65535, 65538, 65538) == 1
  {
  }

  predicate SharesFit(cw: nat, ch: nat, across: nat, down: nat, vw: int, vh: int) {
    across > 0 && down > 0 && vw > 0 && vh > 0 && cw * vw + across / 2 < WORD && ch * vh + down / 2 < WORD
  }

  /** The size aimed at is each side's share of the drawn picture, or within two of it for a small pointer. */
  lemma TargetIsNear(cw: nat, ch: nat, across: nat, down: nat, vw: int, vh: int)
    requires across > 0 && down > 0 && vw > 0 && vh > 0
    ensures var t := Target(cw, ch, across, down, vw, vh);
            var w, h := Scaled(cw, vw, across), Scaled(ch, vh, down);
            && w - 2 <= t.0 <= w + 2 && h - 2 <= t.1 <= h + 2
            && (cw > 127 || ch > 127 ==> t == (w, h))
            && (0 < cw <= 127 && 0 < ch <= 127 ==>
                  if w - 2 <= cw <= w + 2 && h - 2 <= ch <= h + 2 then t == (cw, ch)
                  else if cw > 1 && ch > 1 && w - 2 <= cw / 2 <= w + 2 && h - 2 <= ch / 2 <= h + 2
                  then t == (cw / 2, ch / 2) else t == (w, h))
  {
    hide Scaled;
  }

  /** A picture drawn at the stream's own size, or not drawn yet, has its pointer at its own size. */
  lemma OwnSizeAtOwnSize(cw: nat, ch: nat, across: nat, down: nat)
    requires cw > 0 && ch > 0 && SharesFit(cw, ch, across, down, across, down)
    ensures Target(cw, ch, across, down, across, down) == (cw, ch)
    ensures forall vw, vh :: Target(cw, ch, 0, down, vw, vh) == Target(cw, ch, across, 0, vw, vh) == (cw, ch)
  {
    OwnShare(cw, across);
    OwnShare(ch, down);
    hide Scaled;
  }

  lemma OwnShare(side: nat, stream: nat)
    requires side > 0 && stream > 0 && side * stream + stream / 2 < WORD
    ensures Scaled(side, stream, stream) == side
  {
    QuotientIs(side * stream + stream / 2, stream, side);
  }

  // The guard on a new picture.

  /** The bytes a picture's sides are taken to ask for: a product of 32-bit words. */
  function Asked(w: nat, h: nat): nat { Size(w, h) % WORD }

  /** Whether the last pixel of a picture with these sides is inside a buffer. */
  predicate HoldsLastPixel(bytes: seq<Byte>, w: nat, h: nat) {
    w > 0 && h > 0 ==> Offset(w, w - 1, h - 1) + 4 <= |bytes|
  }

  /** A buffer the guard lets through holds its whole picture, its last pixel too, exactly when that fits 32 bits. */
  lemma GuardIsSizeExactlyWhen(bytes: seq<Byte>, w: nat, h: nat)
    requires |bytes| == Asked(w, h)
    ensures |bytes| == Size(w, h) <==> Size(w, h) < WORD
    ensures w > 0 && h > 0 ==> (HoldsLastPixel(bytes, w, h) <==> Size(w, h) < WORD)
  {
    if w > 0 && h > 0 {
      assert (h - 1) * w + w == h * w;
    }
  }

  /** A picture of 256 by 128 passes for one of 32769 by 32768, of whose rows it holds not even the first whole. */
  lemma ShortPictureIsLetThrough()
    ensures Asked(32769, 32768) == Size(256, 128) < Size(32769, 32768)
    ensures forall bytes: seq<Byte> :: |bytes| == Size(256, 128) ==>
              !HoldsLastPixel(bytes, 32769, 32768) && Offset(32769, 32768, 0) + 4 > |bytes|
  {
  }

  datatype Given = Given(rgba: seq<Byte>, width: nat, height: nat, hotX: nat, hotY: nat)

  /**
    * What applying the pointer comes to: nothing new for the toolkit, a picture for it, or pixels asked of a
    * buffer shorter than its sides, of which nothing is said.
    */
  datatype Applied = Unchanged | Handed(given: Given) | Short

  class Pointer {
    var rgba: seq<Byte>
    var width: nat
    var height: nat
    var hotX: nat
    var hotY: nat
    var targetW: nat
    var targetH: nat

    ghost predicate Valid()
      reads this
    {
      rgba != [] ==> Sided(width) && Sided(height) && |rgba| == Asked(width, height)
    }

    constructor ()
      ensures Valid() && rgba == []
    {
      rgba, width, height, hotX, hotY, targetW, targetH := [], 0, 0, 0, 0, 0, 0;
    }

    /** A new picture from the host; one whose bytes are not what its sides are taken to ask for is ignored. */
    method Replace(image: seq<Byte>, w: nat, h: nat, x: nat, y: nat)
      requires Valid() && w <= 0xFFFF && h <= 0xFFFF
      modifies this
      ensures Valid()
      ensures |image| == Asked(w, h) ==>
                rgba == image && width == w && height == h && hotX == x && hotY == y && targetW == targetH == 0
      ensures |image| != Asked(w, h) ==>
                && rgba == old(rgba) && width == old(width) && height == old(height) && hotX == old(hotX)
                && hotY == old(hotY) && targetW == old(targetW) && targetH == old(targetH)
    {
      hide Size;
      if |image| == Asked(w, h) {
        EmptySize(w, h);
        rgba, width, height, hotX, hotY := image, w, h, x, y;
        targetW, targetH := 0, 0;
      }
    }

    /**
      * Work out the pointer's target size and, if it is not the last one, produce the pointer at it: the host's
      * own bytes when the size is theirs, and otherwise the picture resized.
      */
    method Apply(across: nat, down: nat, vw: int, vh: int) returns (applied: Applied)
      requires Valid()
      modifies this`targetW, this`targetH
      ensures Valid()
      ensures rgba == [] ==> applied.Unchanged? && targetW == old(targetW) && targetH == old(targetH)
      ensures rgba != [] ==>
                var t := Target(width, height, across, down, vw, vh);
                && (targetW, targetH) == t
                && (applied.Unchanged? <==> t == (old(targetW), old(targetH)))
                && (!applied.Unchanged? ==> (applied.Handed? <==> Size(width, height) < WORD))
                && (applied.Handed? ==>
                      var g := applied.given;
                      && (g.width, g.height) == t && |g.rgba| == Size(g.width, g.height)
                      && if t == (width, height) then g == Given(rgba, width, height, hotX, hotY)
                         else && Packed(g.rgba, g.width, g.height)
                                 == Resized(Packed(rgba, width, height), g.width, g.height)
                              && g.hotX == (g.width * hotX + width / 2) / width % WORD
                              && g.hotY == (g.height * hotY + height / 2) / height % WORD)
    {
      hide Packed, Resized, Size, Target;
      if rgba == [] { return Unchanged; }
      GuardIsSizeExactlyWhen(rgba, width, height);
      var (tw, th) := Target(width, height, across, down, vw, vh);
      if tw == targetW && th == targetH { return Unchanged; }
      targetW, targetH := tw, th;
      if |rgba| != Size(width, height) { return Short; }
      if tw == width && th == height { return Handed(Given(rgba, width, height, hotX, hotY)); }
      var scaled := Resize(rgba, width, height, tw, th);
      return Handed(Given(scaled, tw, th, Hot(tw, hotX, width), Hot(th, hotY, height)));
    }
  }

  function Hot(target: nat, hot: nat, side: nat): nat
    requires side > 0
  {
    (target * hot + side / 2) / side % WORD
  }

  /**
    * The hot spot of a resized pointer is its share of the new side to the nearest. It is inside the new picture
    * exactly when what lies past it, of the old side, comes to more than half a pixel of the new.
    */
  lemma HotSpotInsideExactlyWhen(target: nat, hot: nat, side: nat)
    requires hot < side && 0 < target < WORD
    ensures var h := Hot(target, hot, side);
            && NearestShare(h, target * hot, side) && h <= target
            && (h < target <==> target * (side - hot) > side / 2)
  {
    var past := target * (side - hot);
    assert target * hot + past == target * side by { Distributes(target, hot, side - hot); }
    assert past >= target by { ProductGrows(1, side - hot, target); }
    NotNegative(target * hot + side / 2, side);
    HotOf(target * hot, past, side, target, (target * hot + side / 2) / side);
  }

  lemma HotOf(share: nat, past: nat, side: nat, target: nat, h: nat)
    requires side > 0 && share + past == target * side && h == (share + side / 2) / side
    ensures NearestShare(h, share, side) && h <= target && (h < target <==> past > side / 2)
  {
    ShareIsNearest(share, side);
    DividesTo(share + side / 2, side);
    Quotients(share + side / 2, side, h, target, share + past);
  }

  lemma Quotients(n: nat, d: nat, q: nat, t: nat, whole: nat)
    requires d * q <= n < d * q + d && whole == t * d && n < whole + d
    ensures q <= t && (q < t <==> n < whole)
  {
    if q < t { ProductGrows(q + 1, t, d); } else { ProductGrows(t, q, d); }
    if q > t { ProductGrows(t + 1, q, d); }
  }

  /** A pointer four wide with its hot spot in the last column, drawn one wide, has it past its only column. */
  lemma HotSpotFallsOutside()
    ensures Hot(1, 3, 4) == 1
  {
  }

  lemma EmptySize(w: nat, h: nat)
    ensures Size(w, h) > 0 ==> w > 0 && h > 0
  {
  }
}
