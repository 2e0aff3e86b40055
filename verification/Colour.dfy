/** The colour transform and its inverse, over the reals. */
module ColourTransform {

  const KR: real := 0.2126
  const KB: real := 0.0722
  const KG: real := 0.7152

  /** The range a depth gives luma and chroma: black, the span of each, the middle of chroma, and the peak. */
  datatype Depth = Depth(peak: int, black: int, luma: int, chroma: int, middle: int)

  const EIGHT := Depth(255, 16, 219, 224, 128)
  const TEN := Depth(1023, 64, 876, 896, 512)

  /** Rounded to the nearest integer, a half away from zero. */
  function Round(x: real): (n: int)
    ensures -0.5 <= n as real - x <= 0.5
  {
    if x >= 0.0 then (x + 0.5).Floor else -((-x + 0.5).Floor)
  }

  function Clamp(n: int, peak: int): int { if n < 0 then 0 else if n > peak then peak else n }

  function Luma(r: real, g: real, b: real): real { KR * r + KG * g + KB * b }
  function BlueDifference(b: real, y: real): real { (b - y) / (2.0 - 2.0 * KB) }
  function RedDifference(r: real, y: real): real { (r - y) / (2.0 - 2.0 * KR) }

  /** A value scaled to a depth's codes. */
  function Quantise(d: Depth, value: real): int { Clamp(Round(value * d.peak as real), d.peak) }

  predicate Unit(c: real) { 0.0 <= c <= 1.0 }

  /** The codes of a colour, its channels from nought to one. */
  function Reference(d: Depth, r: real, g: real, b: real): (int, int, int)
    requires d.peak > 0
  {
    var y := Luma(r, g, b);
    var peak := d.peak as real;
    (Quantise(d, y * (d.luma as real / peak) + d.black as real / peak),
     Quantise(d, BlueDifference(b, y) * (d.chroma as real / peak) + d.middle as real / peak),
     Quantise(d, RedDifference(r, y) * (d.chroma as real / peak) + d.middle as real / peak))
  }

  lemma DifferencesAreHalves(r: real, g: real, b: real)
    requires Unit(r) && Unit(g) && Unit(b)
    ensures Unit(Luma(r, g, b))
    ensures -0.5 <= BlueDifference(b, Luma(r, g, b)) <= 0.5
    ensures -0.5 <= RedDifference(r, Luma(r, g, b)) <= 0.5
  {
  }

  /** The codes at eight bits, each within half a step of what it stands for and in its range. */
  lemma CodesAtEight(r: real, g: real, b: real)
    requires Unit(r) && Unit(g) && Unit(b)
    ensures var (y, u, v) := Reference(EIGHT, r, g, b);
            && 16 <= y <= 235 && 16 <= u <= 240 && 16 <= v <= 240
            && -0.5 <= y as real - (219.0 * Luma(r, g, b) + 16.0) <= 0.5
            && -0.5 <= u as real - (224.0 * BlueDifference(b, Luma(r, g, b)) + 128.0) <= 0.5
            && -0.5 <= v as real - (224.0 * RedDifference(r, Luma(r, g, b)) + 128.0) <= 0.5
  {
    hide Luma, BlueDifference, RedDifference, Round;
    DifferencesAreHalves(r, g, b);
  }

  /** The codes at ten bits, a range of its own and not the other one scaled. */
  lemma CodesAtTen(r: real, g: real, b: real)
    requires Unit(r) && Unit(g) && Unit(b)
    ensures var (y, u, v) := Reference(TEN, r, g, b);
            && 64 <= y <= 940 && 64 <= u <= 960 && 64 <= v <= 960
            && -0.5 <= y as real - (876.0 * Luma(r, g, b) + 64.0) <= 0.5
            && -0.5 <= u as real - (896.0 * BlueDifference(b, Luma(r, g, b)) + 512.0) <= 0.5
            && -0.5 <= v as real - (896.0 * RedDifference(r, Luma(r, g, b)) + 512.0) <= 0.5
  {
    hide Luma, BlueDifference, RedDifference, Round;
    DifferencesAreHalves(r, g, b);
  }

  /** The colour eight-bit codes stand for. */
  function Back(y: int, u: int, v: int): (real, real, real) {
    var luma := (y - 16) as real / 219.0;
    var r := luma + (v - 128) as real / 224.0 * (2.0 - 2.0 * KR);
    var b := luma + (u - 128) as real / 224.0 * (2.0 - 2.0 * KB);
    (r, (luma - KR * r - KB * b) / KG, b)
  }

  /** Exact codes undo exactly: the inverse is the transform's own. */
  lemma InverseOfTransform(r: real, g: real, b: real)
    ensures var y := Luma(r, g, b);
            var back := y + RedDifference(r, y) * (2.0 - 2.0 * KR);
            var blue := y + BlueDifference(b, y) * (2.0 - 2.0 * KB);
            back == r && blue == b && (y - KR * back - KB * blue) / KG == g
  {
  }

  predicate Near(a: real, b: real, parts: real) { -parts < 255.0 * (a - b) < parts }

  /** There and back moves red by under 1.48, green by under 0.96 and blue by under 1.64 parts of 255. */
  lemma ThereAndBack(r: real, g: real, b: real)
    requires Unit(r) && Unit(g) && Unit(b)
    ensures var (y, u, v) := Reference(EIGHT, r, g, b);
            var (r', g', b') := Back(y, u, v);
            Near(r', r, 1.48) && Near(g', g, 0.96) && Near(b', b, 1.64)
  {
    hide Reference;
    var (y, u, v) := Reference(EIGHT, r, g, b);
    CodesAtEight(r, g, b);
    ErrorsAre(r, g, b, y, u, v);
  }

  /** How far half-step errors in the codes move the channels. */
  lemma ErrorsAre(r: real, g: real, b: real, y: int, u: int, v: int)
    requires -0.5 <= y as real - (219.0 * Luma(r, g, b) + 16.0) <= 0.5
    requires -0.5 <= u as real - (224.0 * BlueDifference(b, Luma(r, g, b)) + 128.0) <= 0.5
    requires -0.5 <= v as real - (224.0 * RedDifference(r, Luma(r, g, b)) + 128.0) <= 0.5
    ensures var (r', g', b') := Back(y, u, v);
            Near(r', r, 1.48) && Near(g', g, 0.96) && Near(b', b, 1.64)
  {
  }

  /** A channel as it is stored again. */
  function Stored(c: real): int { Round((if c < 0.0 then 0.0 else if c > 1.0 then 1.0 else c) * 255.0) }

  lemma StoredNear(c: real, n: int, parts: real)
    requires 0 <= n <= 255 && Near(c, n as real / 255.0, parts)
    ensures parts <= 1.5 ==> -1 <= Stored(c) - n <= 1
    ensures parts <= 2.5 ==> -2 <= Stored(c) - n <= 2
  {
  }

  /** On eight-bit colours the round trip is off by at most one in red and green and two in blue. */
  lemma EightBitThereAndBack(r: int, g: int, b: int)
    requires 0 <= r <= 255 && 0 <= g <= 255 && 0 <= b <= 255
    ensures var (y, u, v) := Reference(EIGHT, r as real / 255.0, g as real / 255.0, b as real / 255.0);
            var (r', g', b') := Back(y, u, v);
            && -1 <= Stored(r') - r <= 1
            && -1 <= Stored(g') - g <= 1
            && -2 <= Stored(b') - b <= 2
  {
    hide Reference, Back, Stored;
    ThereAndBack(r as real / 255.0, g as real / 255.0, b as real / 255.0);
    var (y, u, v) := Reference(EIGHT, r as real / 255.0, g as real / 255.0, b as real / 255.0);
    var (r', g', b') := Back(y, u, v);
    StoredNear(r', r, 1.48);
    StoredNear(g', g, 0.96);
    StoredNear(b', b, 1.64);
  }

  /** Two is reached: this blue comes back two higher. */
  lemma BlueMissesByTwo()
    ensures var (y, u, v) := Reference(EIGHT, 41.0 / 255.0, 136.0 / 255.0, 186.0 / 255.0);
            Stored(Back(y, u, v).2) == 188
  {
    assert Reference(EIGHT, 41.0 / 255.0, 136.0 / 255.0, 186.0 / 255.0) == (119, 160, 84);
    assert Stored(Back(119, 160, 84).2) == 188;
  }

  lemma QuantisedTo(value: real, n: int)
    requires 0 <= n <= 255 && n as real - 0.5 < value * 255.0 < n as real + 0.5
    ensures Quantise(EIGHT, value) == n
  {
  }

  lemma CodesAre(r: real, g: real, b: real, y: int, u: int, v: int)
    requires 0 <= y <= 255 && 0 <= u <= 255 && 0 <= v <= 255
    requires var luma := Luma(r, g, b);
             && y as real - 0.5 < luma * 219.0 + 16.0 < y as real + 0.5
             && u as real - 0.5 < BlueDifference(b, luma) * 224.0 + 128.0 < u as real + 0.5
             && v as real - 0.5 < RedDifference(r, luma) * 224.0 + 128.0 < v as real + 0.5
    ensures Reference(EIGHT, r, g, b) == (y, u, v)
  {
    var luma := Luma(r, g, b);
    var blue, red := BlueDifference(b, luma), RedDifference(r, luma);
    hide BlueDifference, RedDifference, Luma;
    var d := EIGHT;
    var peak := d.peak as real;
    QuantisedTo(luma * (d.luma as real / peak) + d.black as real / peak, y);
    QuantisedTo(blue * (d.chroma as real / peak) + d.middle as real / peak, u);
    QuantisedTo(red * (d.chroma as real / peak) + d.middle as real / peak, v);
  }

  /** White, black and the three primaries have the codes of Recommendation ITU-R BT.709. */
  lemma PrimariesAtEight()
    ensures Reference(EIGHT, 1.0, 1.0, 1.0) == (235, 128, 128) && Reference(EIGHT, 0.0, 0.0, 0.0) == (16, 128, 128)
    ensures Reference(EIGHT, 1.0, 0.0, 0.0) == (63, 102, 240)
    ensures Reference(EIGHT, 0.0, 1.0, 0.0) == (173, 42, 26)
    ensures Reference(EIGHT, 0.0, 0.0, 1.0) == (32, 240, 118)
  {
    hide Reference;
    CodesAre(1.0, 1.0, 1.0, 235, 128, 128);
    CodesAre(0.0, 0.0, 0.0, 16, 128, 128);
    CodesAre(1.0, 0.0, 0.0, 63, 102, 240);
    CodesAre(0.0, 1.0, 0.0, 173, 42, 26);
    CodesAre(0.0, 0.0, 1.0, 32, 240, 118);
  }
}
