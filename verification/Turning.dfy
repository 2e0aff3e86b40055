/** Undoing a display's turn, on pictures and on rectangles. */
module Turning {
  import opened Common
  import opened Pictures

  datatype Rotation = Unknown | Unturned | Deg90 | Deg180 | Deg270 {
    predicate Quarter() { Deg90? || Deg270? }

    /** How many clockwise quarter turns put the picture upright. */
    function Quarters(): (q: nat)
      ensures q < 4
    {
      match this
      case Deg90 => 1
      case Deg180 => 2
      case Deg270 => 3
      case _ => 0
    }
  }

  function UprightWidth(turn: Rotation, width: nat, height: nat): nat {
    if turn.Quarter() then height else width
  }

  function UprightHeight(turn: Rotation, width: nat, height: nat): nat {
    if turn.Quarter() then width else height
  }

  /** The source column and row that upright pixel (ux, uy) is taken from. */
  function Origin(turn: Rotation, width: nat, height: nat, ux: int, uy: int): (int, int) {
    match turn
    case Deg90 => (uy, height - 1 - ux)
    case Deg270 => (width - 1 - uy, ux)
    case Deg180 => (width - 1 - ux, height - 1 - uy)
    case _ => (ux, uy)
  }

  /** A picture turned upright. */
  function Turned(turn: Rotation, p: Picture): (u: Picture)
    ensures u.Valid()
    ensures u.width == UprightWidth(turn, p.width, p.height)
    ensures u.height == UprightHeight(turn, p.width, p.height)
  {
    Drawn(UprightWidth(turn, p.width, p.height), UprightHeight(turn, p.width, p.height),
          (x, y) => var from := Origin(turn, p.width, p.height, x, y); p.At(from.0, from.1))
  }

  lemma TurnedAt(turn: Rotation, p: Picture, x: int, y: int)
    requires 0 <= x < UprightWidth(turn, p.width, p.height) && 0 <= y < UprightHeight(turn, p.width, p.height)
    ensures var from := Origin(turn, p.width, p.height, x, y);
            && 0 <= from.0 < p.width && 0 <= from.1 < p.height
            && Turned(turn, p).At(x, y) == p.At(from.0, from.1)
  {
    DrawnAt(UprightWidth(turn, p.width, p.height), UprightHeight(turn, p.width, p.height),
            (x, y) => var from := Origin(turn, p.width, p.height, x, y); p.At(from.0, from.1), x, y);
  }

  /** The turn of a packed buffer, pixel by pixel; a pixel the source does not hold whole stays blank. */
  method Upright(turn: Rotation, rgba: seq<Byte>, width: nat, height: nat)
    returns (into: array<Byte>, uw: nat, uh: nat)
    ensures uw == UprightWidth(turn, width, height) && uh == UprightHeight(turn, width, height)
    ensures into.Length == 4 * (uw * uh)
    ensures Packed(into[..], uw, uh) == Turned(turn, Packed(rgba, width, height))
  {
    hide Turned, Packed, Flat, Quad, Drawn;
    uw, uh := if turn.Quarter() then height else width, if turn.Quarter() then width else height;
    var area := uw * uh;
    into := new Byte[4 * area](_ => 0);
    BlankQuads(into[..], area);
    ghost var goal := Turned(turn, Packed(rgba, width, height));
    FlatLength(goal);
    ghost var flat := Flat(goal.rows);
    ghost var n := 0;
    var uy := 0;
    while uy < uh
      invariant uy <= uh && n == uy * uw
      invariant forall m :: 0 <= m < area ==> Quad(into[..], 4 * m) == if m < n then flat[m] else BLANK
    {
      n := TurnRow(turn, rgba, width, height, uw, uh, uy, into, flat);
      uy := uy + 1;
    }
    FlatHolds(into[..], goal);
  }

  lemma BlankQuads(bytes: seq<Byte>, area: nat)
    requires |bytes| == 4 * area && forall i :: 0 <= i < |bytes| ==> bytes[i] == 0
    ensures forall m :: 0 <= m < area ==> Quad(bytes, 4 * m) == BLANK
  {
  }

  /** One row of the turn. */
  method TurnRow(turn: Rotation, rgba: seq<Byte>, width: nat, height: nat, uw: nat, uh: nat, uy: nat,
                 into: array<Byte>, ghost flat: seq<Pixel>)
    returns (ghost n: nat)
    requires uw == UprightWidth(turn, width, height) && uh == UprightHeight(turn, width, height) && uy < uh
    requires into.Length == 4 * (uw * uh) && |flat| == uw * uh
    requires flat == Flat(Turned(turn, Packed(rgba, width, height)).rows)
    requires forall m :: 0 <= m < |flat| ==> Quad(into[..], 4 * m) == if m < uy * uw then flat[m] else BLANK
    modifies into
    ensures n == (uy + 1) * uw == uy * uw + uw
    ensures forall m :: 0 <= m < |flat| ==> Quad(into[..], 4 * m) == if m < n then flat[m] else BLANK
  {
    hide Turned, Packed, Flat, Origin, Quad, Offset;
    ghost var before := uy * uw;
    n := before;
    var ux := 0;
    while ux < uw
      invariant ux <= uw && n == before + ux
      invariant forall m :: 0 <= m < |flat| ==> Quad(into[..], 4 * m) == if m < n then flat[m] else BLANK
    {
      var (sx, sy) := Origin(turn, width, height, ux, uy);
      var from, to := Offset(width, sx, sy), Offset(uw, ux, uy);
      GoalAt(turn, rgba, width, height, ux, uy, n);
      if from + 4 <= |rgba| && to + 4 <= into.Length {
        PutQuad(into, to, Quad(rgba, from));
      } else {
        NotWhole(rgba, from);
      }
      ux, n := ux + 1, n + 1;
    }
    assert (uy + 1) * uw == uy * uw + uw;
  }

  lemma NotWhole(bytes: seq<Byte>, at: int)
    ensures |bytes| < at + 4 ==> Quad(bytes, at) == BLANK
  {
  }

  lemma GoalAt(turn: Rotation, rgba: seq<Byte>, width: nat, height: nat, ux: nat, uy: nat, n: nat)
    requires ux < UprightWidth(turn, width, height) && uy < UprightHeight(turn, width, height)
    requires n == uy * UprightWidth(turn, width, height) + ux
    ensures var flat := Flat(Turned(turn, Packed(rgba, width, height)).rows);
            var from := Origin(turn, width, height, ux, uy);
            && Offset(UprightWidth(turn, width, height), ux, uy) == 4 * n && 0 <= Offset(width, from.0, from.1)
            && n < |flat| && flat[n] == Quad(rgba, Offset(width, from.0, from.1))
  {
    hide Turned, Packed, Flat, Origin, Offset, Quad;
    var from := Origin(turn, width, height, ux, uy);
    var w := UprightWidth(turn, width, height);
    OffsetIs(w, ux, uy);
    FlatAt(Turned(turn, Packed(rgba, width, height)), ux, uy);
    TurnedAt(turn, Packed(rgba, width, height), ux, uy);
    PackedAt(rgba, width, height, from.0, from.1);
    OffsetIs(width, from.0, from.1);
  }

  lemma OffsetIs(width: nat, x: nat, y: nat)
    ensures Offset(width, x, y) == 4 * (y * width + x) >= 0
  {
  }

  // Turning is an action of the cyclic group of four.

  /** One turn after another. */
  function Compose(first: Rotation, second: Rotation): (both: Rotation)
    ensures both.Quarters() == (first.Quarters() + second.Quarters()) % 4
  {
    match (first.Quarters() + second.Quarters()) % 4
    case 0 => Unturned
    case 1 => Deg90
    case 2 => Deg180
    case _ => Deg270
  }

  lemma OneTurnOrigin(first: Rotation, second: Rotation, width: nat, height: nat, x: int, y: int)
    ensures var mid := Origin(second, UprightWidth(first, width, height), UprightHeight(first, width, height), x, y);
            Origin(first, width, height, mid.0, mid.1) == Origin(Compose(first, second), width, height, x, y)
  {
  }

  lemma OneTurnSize(first: Rotation, second: Rotation, width: nat, height: nat)
    ensures var w, h := UprightWidth(first, width, height), UprightHeight(first, width, height);
            var both := Compose(first, second);
            && UprightWidth(second, w, h) == UprightWidth(both, width, height)
            && UprightHeight(second, w, h) == UprightHeight(both, width, height)
  {
  }

  /** One turn after another is the turn by their quarters together. */
  lemma TurnAfterTurn(first: Rotation, second: Rotation, p: Picture)
    ensures Turned(second, Turned(first, p)) == Turned(Compose(first, second), p)
  {
    hide Turned, Origin, Compose, Drawn;
    OneTurnSize(first, second, p.width, p.height);
    var a, b := Turned(second, Turned(first, p)), Turned(Compose(first, second), p);
    forall x, y | 0 <= x < a.width && 0 <= y < a.height ensures a.At(x, y) == b.At(x, y) {
      var u := Turned(first, p);
      var mid := Origin(second, u.width, u.height, x, y);
      OneTurnOrigin(first, second, p.width, p.height, x, y);
      TurnedAt(second, u, x, y);
      TurnedAt(first, p, mid.0, mid.1);
      TurnedAt(Compose(first, second), p, x, y);
    }
    SamePixels(a, b);
  }

  lemma NoQuarterIsIdentity(turn: Rotation, p: Picture)
    requires p.Valid() && turn.Quarters() == 0
    ensures Turned(turn, p) == p
  {
    forall x, y | 0 <= x < p.width && 0 <= y < p.height ensures Turned(turn, p).At(x, y) == p.At(x, y) {
      TurnedAt(turn, p, x, y);
    }
    SamePixels(Turned(turn, p), p);
  }

  /** Any turns that add up to whole circles leave the picture as it was. */
  lemma {:induction false} WholeCircles(turns: seq<Rotation>, p: Picture)
    requires p.Valid()
    ensures TurnedBy(turns, p).Valid()
    ensures TotalQuarters(turns) % 4 == 0 ==> TurnedBy(turns, p) == p
  {
    var t := InOneTurn(turns, p);
    if TotalQuarters(turns) % 4 == 0 { NoQuarterIsIdentity(t, p); }
  }

  function TurnedBy(turns: seq<Rotation>, p: Picture): (u: Picture)
    requires p.Valid()
    ensures u.Valid()
  {
    if turns == [] then p else TurnedBy(turns[1..], Turned(turns[0], p))
  }

  function TotalQuarters(turns: seq<Rotation>): nat {
    if turns == [] then 0 else turns[0].Quarters() + TotalQuarters(turns[1..])
  }

  lemma QuartersAdd(a: nat, b: nat)
    ensures (a + b % 4) % 4 == (a + b) % 4
  {
  }

  lemma {:induction false} InOneTurn(turns: seq<Rotation>, p: Picture) returns (t: Rotation)
    requires p.Valid()
    ensures t.Quarters() == TotalQuarters(turns) % 4 && TurnedBy(turns, p) == Turned(t, p)
    decreases |turns|
  {
    hide Turned, Compose, Drawn;
    if turns == [] {
      t := Unturned;
      NoQuarterIsIdentity(t, p);
    } else {
      var u := InOneTurn(turns[1..], Turned(turns[0], p));
      t := Compose(turns[0], u);
      QuartersAdd(turns[0].Quarters(), TotalQuarters(turns[1..]));
      TurnAfterTurn(turns[0], u, p);
    }
  }

  /** A turn moves pixels about and neither makes nor loses one. */
  lemma TurnPermutes(turn: Rotation, p: Picture)
    requires p.Valid()
    ensures multiset(Flat(Turned(turn, p).rows)) == multiset(Flat(p.rows))
  {
    hide Turned, Flat, SourceIndex, Origin;
    var u := Turned(turn, p);
    FlatLength(p);
    FlatLength(u);
    var area := u.width * u.height;
    assert p.width * p.height == area;
    var perm := seq(area, (m: nat) requires m < area => SourceIndex(turn, p.width, p.height, m));
    forall m | 0 <= m < area ensures perm[m] < |Flat(p.rows)| && Flat(u.rows)[m] == Flat(p.rows)[perm[m]] {
      SourcePixel(turn, p, m);
    }
    forall i, j | 0 <= i < j < area ensures perm[i] != perm[j] {
      SourceIndexInjective(turn, p.width, p.height, i, j);
    }
    Reindexed(Flat(u.rows), Flat(p.rows), perm);
  }

  lemma OriginInside(turn: Rotation, width: nat, height: nat, at: (nat, nat))
    requires at.0 < UprightWidth(turn, width, height) && at.1 < UprightHeight(turn, width, height)
    ensures 0 <= Origin(turn, width, height, at.0, at.1).1 * width + Origin(turn, width, height, at.0, at.1).0
  {
  }

  /** Where in the source the m-th upright pixel is taken from, both in reading order. */
  function SourceIndex(turn: Rotation, width: nat, height: nat, m: nat): nat
    requires m < UprightWidth(turn, width, height) * UprightHeight(turn, width, height)
  {
    OriginInside(turn, width, height, Place(UprightWidth(turn, width, height), UprightHeight(turn, width, height), m));
    var at := Place(UprightWidth(turn, width, height), UprightHeight(turn, width, height), m);
    var from := Origin(turn, width, height, at.0, at.1);
    from.1 * width + from.0
  }

  lemma SourcePixel(turn: Rotation, p: Picture, m: nat)
    requires p.Valid() && m < UprightWidth(turn, p.width, p.height) * UprightHeight(turn, p.width, p.height)
    ensures var at := SourceIndex(turn, p.width, p.height, m);
            && m < |Flat(Turned(turn, p).rows)| && at < |Flat(p.rows)|
            && Flat(Turned(turn, p).rows)[m] == Flat(p.rows)[at]
  {
    hide Turned, Flat, Origin, Place;
    var u := Turned(turn, p);
    var (ux, uy) := Place(u.width, u.height, m);
    var from := Origin(turn, p.width, p.height, ux, uy);
    TurnedAt(turn, p, ux, uy);
    FlatAt(u, ux, uy);
    FlatAt(p, from.0, from.1);
  }

  lemma SourceIndexInjective(turn: Rotation, width: nat, height: nat, i: nat, j: nat)
    requires i < UprightWidth(turn, width, height) * UprightHeight(turn, width, height)
    requires j < UprightWidth(turn, width, height) * UprightHeight(turn, width, height)
    ensures SourceIndex(turn, width, height, i) == SourceIndex(turn, width, height, j) ==> i == j
  {
    hide Origin, Place;
    var uw, uh := UprightWidth(turn, width, height), UprightHeight(turn, width, height);
    var a, b := Place(uw, uh, i), Place(uw, uh, j);
    OriginInjective(turn, width, height, a.0, a.1, b.0, b.1);
  }

  lemma OriginInjective(turn: Rotation, width: nat, height: nat, x: nat, y: nat, x': nat, y': nat)
    requires x < UprightWidth(turn, width, height) && x' < UprightWidth(turn, width, height)
    requires y < UprightHeight(turn, width, height) && y' < UprightHeight(turn, width, height)
    ensures var a, b := Origin(turn, width, height, x, y), Origin(turn, width, height, x', y');
            a.1 * width + a.0 == b.1 * width + b.0 ==> x == x' && y == y'
  {
    var a, b := Origin(turn, width, height, x, y), Origin(turn, width, height, x', y');
    if a.1 * width + a.0 == b.1 * width + b.0 { OnePlace(width, a.0, a.1, b.0, b.1); }
  }

  lemma OnePlace(width: nat, x: nat, y: nat, x': nat, y': nat)
    requires x < width && x' < width && y * width + x == y' * width + x'
    ensures x == x' && y == y'
  {
    RowsApart(width, y, y');
    RowsApart(width, y', y);
  }

  lemma {:induction false} RowsApart(width: nat, y: nat, y': nat)
    ensures y < y' ==> y * width + width <= y' * width
    decreases y'
  {
    if y < y' { RowsApart(width, y, y' - 1); }
  }

  /** A sequence drawn from another by an injective choice of positions is a permutation of it. */
  lemma {:induction false} Reindexed<T>(d: seq<T>, s: seq<T>, p: seq<nat>)
    requires |d| == |s| == |p|
    requires forall i :: 0 <= i < |p| ==> p[i] < |s| && d[i] == s[p[i]]
    requires forall i, j :: 0 <= i < j < |p| ==> p[i] != p[j]
    ensures multiset(d) == multiset(s)
    decreases |d|
  {
    if |d| > 0 {
      var n := |d| - 1;
      var j := p[n];
      var rest := s[..j] + s[j + 1..];
      var q := seq(n, (i: nat) requires i < n => if p[i] < j then p[i] else p[i] - 1);
      Reindexed(d[..n], rest, q);
      assert d == d[..n] + [d[n]];
      assert s == s[..j] + ([s[j]] + s[j + 1..]);
    }
  }

  // The place of a rectangle, turned by a rule written on its own.

  datatype Rect = Rect(x: int, y: int, width: int, height: int)

  function ToI32(v: int): int { if I32_MIN <= v <= I32_MAX then v else I32_MAX }

  function ToU32(v: int): int { if 0 <= v <= U32_MAX then v else U32_MAX }

  /** The rectangle's place before it is narrowed to the field widths. */
  function Placed(turn: Rotation, fw: nat, fh: nat, r: Rect): Rect {
    match turn
    case Deg90 => Rect(fh - r.y - r.height, r.x, r.height, r.width)
    case Deg270 => Rect(r.y, fw - r.x - r.width, r.height, r.width)
    case Deg180 => Rect(fw - r.x - r.width, fh - r.y - r.height, r.width, r.height)
    case _ => r
  }

  /** The rectangle's place as handed on. */
  function UprightRect(turn: Rotation, fw: nat, fh: nat, r: Rect): Rect {
    var p := Placed(turn, fw, fh, r);
    Rect(ToI32(p.x), ToI32(p.y), ToU32(p.width), ToU32(p.height))
  }

  predicate Within(r: Rect, fw: nat, fh: nat) {
    0 <= r.x && 0 <= r.y && 0 <= r.width && 0 <= r.height && r.x + r.width <= fw && r.y + r.height <= fh
  }

  /** A field of the answer is not the turned one exactly when the turned one does not fit it. */
  lemma NarrowingIsExactlyFitting(turn: Rotation, fw: nat, fh: nat, r: Rect)
    requires 0 <= r.width <= U32_MAX && 0 <= r.height <= U32_MAX
    ensures UprightRect(turn, fw, fh, r) == Placed(turn, fw, fh, r)
       <==> (var p := Placed(turn, fw, fh, r); I32_MIN <= p.x <= I32_MAX && I32_MIN <= p.y <= I32_MAX)
  {
  }

  lemma CroppedOrigin(turn: Rotation, fw: nat, fh: nat, r: Rect, x: int, y: int)
    requires 0 <= r.width && 0 <= r.height
    ensures var q := Placed(turn, fw, fh, r);
            var inner, outer := Origin(turn, r.width, r.height, x, y), Origin(turn, fw, fh, q.x + x, q.y + y);
            outer == (r.x + inner.0, r.y + inner.1)
  {
  }

  /**
    * Turning commutes with cropping: the turn of a part of a frame is that part, found at the turned
    * rectangle, of the turned frame; and the turned rectangle lies inside the turned frame unnarrowed.
    */
  lemma TurnOfCropIsCropOfTurn(turn: Rotation, frame: Picture, r: Rect)
    requires frame.Valid() && frame.width <= I32_MAX && frame.height <= I32_MAX
    requires Within(r, frame.width, frame.height)
    ensures UprightRect(turn, frame.width, frame.height, r) == Placed(turn, frame.width, frame.height, r)
    ensures var u := Turned(turn, frame);
            var q := UprightRect(turn, frame.width, frame.height, r);
            && Within(q, u.width, u.height)
            && Turned(turn, Crop(frame, r.x, r.y, r.width, r.height)) == Crop(u, q.x, q.y, q.width, q.height)
  {
    hide Turned, Crop, Origin, Drawn;
    var q := UprightRect(turn, frame.width, frame.height, r);
    var part := Crop(frame, r.x, r.y, r.width, r.height);
    var u := Turned(turn, frame);
    var a, b := Turned(turn, part), Crop(u, q.x, q.y, q.width, q.height);
    forall x, y | 0 <= x < a.width && 0 <= y < a.height ensures a.At(x, y) == b.At(x, y) {
      var inner := Origin(turn, r.width, r.height, x, y);
      CroppedOrigin(turn, frame.width, frame.height, r, x, y);
      TurnedAt(turn, part, x, y);
      CropAt(frame, r.x, r.y, r.width, r.height, inner.0, inner.1);
      CropAt(u, q.x, q.y, q.width, q.height, x, y);
      TurnedAt(turn, frame, q.x + x, q.y + y);
    }
    SamePixels(a, b);
  }

  /** The rectangle rule obeys the pictures' law, the frame's sides swapping with each quarter turn. */
  lemma PlaceAfterPlace(first: Rotation, second: Rotation, fw: nat, fh: nat, r: Rect)
    ensures Placed(second, UprightWidth(first, fw, fh), UprightHeight(first, fw, fh), Placed(first, fw, fh, r))
         == Placed(Compose(first, second), fw, fh, r)
  {
  }

  /** And so do the narrowed rectangles, for one within a frame whose sides are 31-bit. */
  lemma RectAfterRect(first: Rotation, second: Rotation, fw: nat, fh: nat, r: Rect)
    requires fw <= I32_MAX && fh <= I32_MAX && Within(r, fw, fh)
    ensures var w, h := UprightWidth(first, fw, fh), UprightHeight(first, fw, fh);
            && Within(UprightRect(first, fw, fh, r), w, h)
            && UprightRect(second, w, h, UprightRect(first, fw, fh, r))
               == UprightRect(Compose(first, second), fw, fh, r)
  {
    PlaceAfterPlace(first, second, fw, fh, r);
  }

  /** Which way the turns go: where the source's first pixel, and a frame's first corner, come to lie. */
  lemma FirstCornerGoes(p: Picture, fw: nat, fh: nat)
    requires p.Valid() && p.width > 0 && p.height > 0 && fw > 0 && fh > 0
    ensures Turned(Deg90, p).At(p.height - 1, 0) == p.At(0, 0)
    ensures Turned(Deg180, p).At(p.width - 1, p.height - 1) == p.At(0, 0)
    ensures Turned(Deg270, p).At(0, p.width - 1) == p.At(0, 0)
    ensures Placed(Deg90, fw, fh, Rect(0, 0, 1, 1)) == Rect(fh - 1, 0, 1, 1)
    ensures Placed(Deg180, fw, fh, Rect(0, 0, 1, 1)) == Rect(fw - 1, fh - 1, 1, 1)
    ensures Placed(Deg270, fw, fh, Rect(0, 0, 1, 1)) == Rect(0, fw - 1, 1, 1)
  {
    hide Turned;
    TurnedAt(Deg90, p, p.height - 1, 0);
    TurnedAt(Deg180, p, p.width - 1, p.height - 1);
    TurnedAt(Deg270, p, 0, p.width - 1);
  }
}
