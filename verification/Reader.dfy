/** Reading a pointer off its plane: the two-step search for its drawn part, and the copy of that part. */
module PlaneReader {
  import opened Common
  import opened Pictures

  /** A plane with a longer side than this is refused. */
  const LIMIT: nat := 256
  /** The bytes of the copy buffer. */
  const BUFFER: nat := 262144
  /** Rows copied before the whole plane is. */
  const ROWS_FIRST: nat := 64

  datatype Extent = Extent(x: nat, y: nat, width: nat, height: nat)

  datatype Error = UnknownFormat(width: nat) | NoScanout | Device(code: int)

  /** A plane's buffer as the kernel describes it; no pitch where it has no memory of its own. */
  datatype Framebuffer = Framebuffer(id: nat, width: nat, height: nat, pitch: Option<nat>)

  /** Whether a pixel is drawn: its fourth byte is there and is not zero. */
  predicate Opaque(pixels: seq<Byte>, pitch: nat, x: nat, y: nat) {
    var at := y * pitch + x * 4 + 3;
    at < |pixels| && pixels[at] != 0
  }

  predicate InBox(e: Extent, x: nat, y: nat) { e.x <= x < e.x + e.width && e.y <= y < e.y + e.height }

  /** Something is drawn in a column. */
  ghost predicate InColumn(pixels: seq<Byte>, rows: nat, pitch: nat, x: nat) {
    exists y: nat :: y < rows && Opaque(pixels, pitch, x, y)
  }

  /** Something is drawn in a row. */
  ghost predicate InRow(pixels: seq<Byte>, width: nat, pitch: nat, y: nat) {
    exists x: nat :: x < width && Opaque(pixels, pitch, x, y)
  }

  /** Everything drawn in a number of rows is in a box that each of its sides is needed for. */
  ghost predicate IsBox(pixels: seq<Byte>, width: nat, rows: nat, pitch: nat, e: Extent) {
    && 0 < e.width && 0 < e.height && e.x + e.width <= width && e.y + e.height <= rows
    && (forall x: nat, y: nat :: x < width && y < rows && Opaque(pixels, pitch, x, y) ==> InBox(e, x, y))
    && InColumn(pixels, rows, pitch, e.x) && InColumn(pixels, rows, pitch, e.x + e.width - 1)
    && InRow(pixels, width, pitch, e.y) && InRow(pixels, width, pitch, e.y + e.height - 1)
  }

  ghost predicate Transparent(pixels: seq<Byte>, width: nat, from: nat, to: nat, pitch: nat) {
    forall x: nat, y: nat :: x < width && from <= y < to ==> !Opaque(pixels, pitch, x, y)
  }

  /** The answer for a number of rows: the box of what is drawn there, or that nothing is. */
  ghost predicate IsExtent(pixels: seq<Byte>, width: nat, rows: nat, pitch: nat, found: Option<Extent>) {
    match found
    case None => Transparent(pixels, width, 0, rows, pitch)
    case Some(e) => IsBox(pixels, width, rows, pitch, e)
  }

  /** The box lies in every rectangle that holds all that is drawn. */
  lemma BoxIsSmallest(pixels: seq<Byte>, width: nat, rows: nat, pitch: nat, e: Extent, other: Extent)
    requires IsBox(pixels, width, rows, pitch, e)
    requires forall x: nat, y: nat :: x < width && y < rows && Opaque(pixels, pitch, x, y) ==> InBox(other, x, y)
    ensures other.x <= e.x && e.x + e.width <= other.x + other.width
    ensures other.y <= e.y && e.y + e.height <= other.y + other.height
  {
    var right, bottom := e.x + e.width - 1, e.y + e.height - 1;
    var a: nat :| a < rows && Opaque(pixels, pitch, e.x, a);
    var b: nat :| b < rows && Opaque(pixels, pitch, right, b);
    var c: nat :| c < width && Opaque(pixels, pitch, c, e.y);
    var d: nat :| d < width && Opaque(pixels, pitch, d, bottom);
    assert InBox(other, e.x, a) && InBox(other, right, b);
    assert InBox(other, c, e.y) && InBox(other, d, bottom);
  }

  lemma ExtentIsUnique(pixels: seq<Byte>, width: nat, rows: nat, pitch: nat, a: Option<Extent>, b: Option<Extent>)
    requires IsExtent(pixels, width, rows, pitch, a) && IsExtent(pixels, width, rows, pitch, b)
    ensures a == b
  {
    if a.Some? && b.Some? {
      BoxIsSmallest(pixels, width, rows, pitch, a.value, b.value);
      BoxIsSmallest(pixels, width, rows, pitch, b.value, a.value);
    }
  }

  /** What the scan has seen: the rows above y and, in row y, the columns left of x. */
  predicate Seen(x: nat, y: nat, x': nat, y': nat) { y' < y || (y' == y && x' < x) }

  /** The bounds kept by the scan are those of the drawn pixels it has seen. */
  ghost predicate ScanState(pixels: seq<Byte>, width: nat, rows: nat, pitch: nat, x: nat, y: nat,
                            any: bool, left: nat, top: nat, right: nat, bottom: nat)
  {
    && (!any ==> left == width && top == rows && right == 0 && bottom == 0)
    && (any ==>
          && left <= right < width && top <= bottom < rows
          && InColumn(pixels, rows, pitch, left) && InColumn(pixels, rows, pitch, right)
          && InRow(pixels, width, pitch, top) && InRow(pixels, width, pitch, bottom))
    && (forall u: nat, v: nat :: u < width && Seen(x, y, u, v) && Opaque(pixels, pitch, u, v) ==>
          any && left <= u <= right && top <= v <= bottom)
  }

  lemma ScanDrawn(pixels: seq<Byte>, width: nat, rows: nat, pitch: nat, x: nat, y: nat,
                  any: bool, left: nat, top: nat, right: nat, bottom: nat)
    requires x < width && y < rows && Opaque(pixels, pitch, x, y)
    requires ScanState(pixels, width, rows, pitch, x, y, any, left, top, right, bottom)
    ensures ScanState(pixels, width, rows, pitch, x + 1, y,
                      true, Min(left, x), Min(top, y), Max(right, x), Max(bottom, y))
  {
    hide Opaque;
    assert InColumn(pixels, rows, pitch, x) && InRow(pixels, width, pitch, y);
  }

  lemma ScanClear(pixels: seq<Byte>, width: nat, rows: nat, pitch: nat, x: nat, y: nat,
                  any: bool, left: nat, top: nat, right: nat, bottom: nat)
    requires ScanState(pixels, width, rows, pitch, x, y, any, left, top, right, bottom)
    ensures x < width && !Opaque(pixels, pitch, x, y) ==>
              ScanState(pixels, width, rows, pitch, x + 1, y, any, left, top, right, bottom)
    ensures x == width ==> ScanState(pixels, width, rows, pitch, 0, y + 1, any, left, top, right, bottom)
  {
    hide Opaque;
  }

  function Min(a: nat, b: nat): nat { if a < b then a else b }
  function Max(a: nat, b: nat): nat { if a < b then b else a }

  /** Look at every pixel and grow a box around those that are drawn. */
  method FindExtent(pixels: seq<Byte>, width: nat, rows: nat, pitch: nat) returns (found: Option<Extent>)
    ensures IsExtent(pixels, width, rows, pitch, found)
  {
    var left: nat, top: nat, right: nat, bottom: nat, any := width, rows, 0, 0, false;
    var y: nat := 0;
    while y < rows
      invariant y <= rows && ScanState(pixels, width, rows, pitch, 0, y, any, left, top, right, bottom)
    {
      hide Opaque, ScanState;
      var x: nat := 0;
      while x < width
        invariant x <= width && ScanState(pixels, width, rows, pitch, x, y, any, left, top, right, bottom)
      {
        if Opaque(pixels, pitch, x, y) {
          ScanDrawn(pixels, width, rows, pitch, x, y, any, left, top, right, bottom);
          any := true;
          left, top, right, bottom := Min(left, x), Min(top, y), Max(right, x), Max(bottom, y);
        } else {
          ScanClear(pixels, width, rows, pitch, x, y, any, left, top, right, bottom);
        }
        x := x + 1;
      }
      ScanClear(pixels, width, rows, pitch, x, y, any, left, top, right, bottom);
      y := y + 1;
    }
    hide Opaque, InColumn, InRow;
    found := if any then Some(Extent(left, top, right - left + 1, bottom - top + 1)) else None;
  }

  /** Whether the first rows answered on their own. */
  predicate Settled(found: Option<Extent>, rows: nat) {
    found.Some? && found.value.y + found.value.height < rows
  }

  /**
    * The planes the two-step search misreads: something is drawn in the first rows, nothing in the last
    * of them, and something below them.
    */
  ghost predicate Misread(pixels: seq<Byte>, width: nat, height: nat, pitch: nat) {
    && ROWS_FIRST < height
    && !Transparent(pixels, width, 0, ROWS_FIRST, pitch)
    && Transparent(pixels, width, ROWS_FIRST - 1, ROWS_FIRST, pitch)
    && !Transparent(pixels, width, ROWS_FIRST, height, pitch)
  }

  /** The two-step search: the first rows' answer where it settles, else the whole plane's. */
  ghost predicate TwoStepAnswer(pixels: seq<Byte>, width: nat, height: nat, pitch: nat,
                                first: Option<Extent>, answer: Option<Extent>)
  {
    && (ROWS_FIRST < height ==> IsExtent(pixels, width, ROWS_FIRST, pitch, first))
    && if height <= ROWS_FIRST || !Settled(first, ROWS_FIRST)
       then IsExtent(pixels, width, height, pitch, answer) else answer == first
  }

  /** The two-step search answers for the whole plane on every plane but those, and on none of those. */
  lemma TwoStepExactlyWhen(pixels: seq<Byte>, width: nat, height: nat, pitch: nat,
                           first: Option<Extent>, answer: Option<Extent>)
    requires TwoStepAnswer(pixels, width, height, pitch, first, answer)
    ensures IsExtent(pixels, width, height, pitch, answer) <==> !Misread(pixels, width, height, pitch)
  {
    hide Opaque;
    if ROWS_FIRST < height && first.Some? {
      var bottom := first.value.y + first.value.height - 1;
      var b: nat :| b < width && Opaque(pixels, pitch, b, bottom);
    }
  }

  /** One column, a pixel drawn in its first row and one in its last, and sixty-four rows between. */
  function SplitPointer(): (pixels: seq<Byte>)
    ensures |pixels| == 264
  {
    seq(264, i => if i == 3 || i == 263 then 255 else 0)
  }

  /** The plane in two pieces is misread: the answer is its first row alone. */
  lemma SplitPointerIsMisread()
    ensures Misread(SplitPointer(), 1, 66, 4)
    ensures IsExtent(SplitPointer(), 1, ROWS_FIRST, 4, Some(Extent(0, 0, 1, 1)))
    ensures IsExtent(SplitPointer(), 1, 66, 4, Some(Extent(0, 0, 1, 66)))
    ensures TwoStepAnswer(SplitPointer(), 1, 66, 4, Some(Extent(0, 0, 1, 1)), Some(Extent(0, 0, 1, 1)))
  {
    var p := SplitPointer();
    assert forall x: nat, y: nat :: x < 1 && y < 66 ==> (Opaque(p, 4, x, y) <==> y == 0 || y == 65);
    assert Opaque(p, 4, 0, 0) && Opaque(p, 4, 0, 65);
  }

  // The reader and its two buffers.

  /** Red and blue exchanged. */
  function Swapped(q: Pixel): Pixel { Pixel(q.c2, q.c1, q.c0, q.c3) }

  /** A part of a plane's buffer as a picture with red first. */
  function DrawnPart(pixels: seq<Byte>, pitch: nat, e: Extent): (p: Picture)
    ensures p.Valid() && p.width == e.width && p.height == e.height
  {
    Drawn(e.width, e.height, (x, y) => Swapped(Quad(pixels, (e.y + y) * pitch + e.x * 4 + x * 4)))
  }

  lemma DrawnPartAt(pixels: seq<Byte>, pitch: nat, e: Extent, x: int, y: int)
    requires 0 <= x < e.width && 0 <= y < e.height
    ensures DrawnPart(pixels, pitch, e).At(x, y) == Swapped(Quad(pixels, (e.y + y) * pitch + e.x * 4 + x * 4))
  {
    DrawnAt(e.width, e.height, (x, y) => Swapped(Quad(pixels, (e.y + y) * pitch + e.x * 4 + x * 4)), x, y);
  }

  /** A pixel of a row is in the plane's buffer and is what is wanted of it. */
  predicate RowHolds(pixels: seq<Byte>, flat: seq<Pixel>, from: nat, before: nat, column: nat) {
    && from + column * 4 + 4 <= |pixels|
    && before + column < |flat| && flat[before + column] == Swapped(Quad(pixels, from + column * 4))
  }

  /** A box whose last byte is in the copy buffer, and that is no larger than the most a plane can be. */
  predicate Fits(e: Extent, pitch: nat) {
    && 0 < e.height && e.width * e.height * 4 <= BUFFER
    && (e.y + e.height - 1) * pitch + e.x * 4 + e.width * 4 <= BUFFER
  }

  /** The bytes a number of rows take. */
  function Span(pitch: nat, rows: nat): nat { pitch * rows }

  /** Why a read is refused before anything is copied. */
  function Refusal(frame: Framebuffer, mapped: Result<seq<Byte>, Error>): Option<Error> {
    if frame.width > LIMIT || frame.height > LIMIT then Some(UnknownFormat(frame.width))
    else if frame.pitch.None? then Some(NoScanout)
    else if mapped.Err? then Some(mapped.error)
    else None
  }

  /** A plane is refused for its size before it is for having no memory, and for that before it is mapped. */
  lemma RefusedExactlyWhen(frame: Framebuffer, mapped: Result<seq<Byte>, Error>)
    ensures Refusal(frame, mapped).None?
            <==> frame.width <= 256 && frame.height <= 256 && frame.pitch.Some? && mapped.Ok?
    ensures frame.width > 256 || frame.height > 256 ==> Refusal(frame, mapped) == Some(UnknownFormat(frame.width))
    ensures frame.width <= 256 && frame.height <= 256 && frame.pitch.None? ==> Refusal(frame, mapped) == Some(NoScanout)
    ensures frame.width <= 256 && frame.height <= 256 && frame.pitch.Some? && mapped.Err? ==>
              Refusal(frame, mapped) == Some(mapped.error)
  {
  }

  /** A plane whose rows fit its pitch and whose bytes fit the copy buffer. */
  predicate Regular(frame: Framebuffer) {
    && frame.pitch.Some? && 4 * frame.width <= frame.pitch.value
    && Span(frame.pitch.value, frame.height) <= BUFFER
  }

  function BoxOf(r: Option<(Extent, seq<Byte>)>): Option<Extent> { if r.Some? then Some(r.value.0) else None }

  /** What a read answers: the box of the rows scanned and the pixels in it, red first, row by row. */
  ghost predicate ReadAnswer(pixels: seq<Byte>, width: nat, height: nat, pitch: nat, whole: bool,
                             r: Option<(Extent, seq<Byte>)>)
  {
    var rows := if whole then height else ROWS_FIRST;
    var found := BoxOf(r);
    && rows <= height
    && IsExtent(pixels, width, rows, pitch, found)
    && (!whole ==> Settled(found, ROWS_FIRST))
    && (IsExtent(pixels, width, height, pitch, found) <==> !Misread(pixels, width, height, pitch))
    && Handed(pixels, pitch, r)
  }

  /** What copying a number of rows and looking at the copy finds; nothing when the copy buffer is too small. */
  ghost predicate TakenIs(pixels: seq<Byte>, width: nat, rows: nat, pitch: nat, found: Option<Extent>) {
    if Span(pitch, rows) <= |pixels| && Span(pitch, rows) <= BUFFER
    then IsExtent(pixels[..Span(pitch, rows)], width, rows, pitch, found) else found.None?
  }

  /** How much of a mapping copying a number of rows copies: all they are, or nothing. */
  function CopiedBytes(pixels: seq<Byte>, pitch: nat, rows: nat): (n: nat)
    ensures n <= |pixels| && n <= BUFFER
  {
    if Span(pitch, rows) <= |pixels| && Span(pitch, rows) <= BUFFER then Span(pitch, rows) else 0
  }

  /** The copy buffer after a read: the front of the mapping over what it held before. */
  predicate Overlaid(before: seq<Byte>, after: seq<Byte>, pixels: seq<Byte>, pitch: nat, height: nat, whole: bool)
    requires |before| == BUFFER
  {
    var first := CopiedBytes(pixels, pitch, Min(ROWS_FIRST, height));
    var all := if whole then CopiedBytes(pixels, pitch, height) else 0;
    var n := if first < all then all else first;
    after == pixels[..n] + before[n..]
  }

  /** The two steps on any plane: the first rows, then all of them unless the first settled it. */
  ghost predicate TwoSteps(pixels: seq<Byte>, width: nat, height: nat, pitch: nat, whole: bool, first: Option<Extent>,
                           found: Option<Extent>)
  {
    var rows := Min(ROWS_FIRST, height);
    && TakenIs(pixels, width, rows, pitch, first)
    && whole == (rows >= height || !Settled(first, rows))
    && if rows >= height || Settled(first, rows) then found == first else TakenIs(pixels, width, height, pitch, found)
  }

  ghost predicate AnsweredInSteps(pixels: seq<Byte>, width: nat, height: nat, pitch: nat, whole: bool,
                                  found: Option<Extent>)
  {
    exists first :: TwoSteps(pixels, width, height, pitch, whole, first, found)
  }

  /** The pixels handed back are the box's, red first, row by row. */
  ghost predicate Handed(pixels: seq<Byte>, pitch: nat, r: Option<(Extent, seq<Byte>)>) {
    r.Some? ==>
      var (area, rgba) := r.value;
      && |rgba| == area.width * area.height * 4
      && Packed(rgba, area.width, area.height) == DrawnPart(pixels, pitch, area)
  }

  /**
    * A plane larger than the copy buffer is answered exactly when its first rows fit the buffer, something is drawn
    * in them, and nothing in the last of them; and otherwise as if it were transparent.
    */
  lemma LargePlaneAnsweredExactlyWhen(pixels: seq<Byte>, width: nat, height: nat, pitch: nat, whole: bool,
                                      found: Option<Extent>)
    requires 4 * width <= pitch && |pixels| == Span(pitch, height) > BUFFER
    requires AnsweredInSteps(pixels, width, height, pitch, whole, found)
    ensures found.Some?
            <==> && ROWS_FIRST < height && Span(pitch, ROWS_FIRST) <= BUFFER
                 && !Transparent(pixels, width, 0, ROWS_FIRST, pitch)
                 && Transparent(pixels, width, ROWS_FIRST - 1, ROWS_FIRST, pitch)
  {
    var first :| TwoSteps(pixels, width, height, pitch, whole, first, found);
    if ROWS_FIRST < height && Span(pitch, ROWS_FIRST) <= BUFFER {
      FirstRowsFit(pitch, ROWS_FIRST, height);
      hide Span;
      PrefixExtent(pixels, width, ROWS_FIRST, pitch, first);
    }
  }

  /** A plane one pixel wide and 128 high, its rows 4096 bytes apart, drawn in row 63, is answered as transparent. */
  lemma LargePlaneReadAsTransparent(pixels: seq<Byte>, whole: bool, found: Option<Extent>)
    requires |pixels| == Span(4096, 128) && Opaque(pixels, 4096, 0, ROWS_FIRST - 1)
    requires AnsweredInSteps(pixels, 1, 128, 4096, whole, found)
    ensures !Transparent(pixels, 1, 0, 128, 4096) && found.None?
  {
    hide AnsweredInSteps;
    LargePlaneAnsweredExactlyWhen(pixels, 1, 128, 4096, whole, found);
  }

  class Reader {
    const plane: array<Byte>
    const scratch: array<Byte>
    var whole: bool

    ghost predicate Valid() { plane.Length == scratch.Length == BUFFER && plane != scratch }

    constructor ()
      ensures Valid() && fresh(plane) && fresh(scratch) && !whole
    {
      plane := new Byte[BUFFER](_ => 0);
      scratch := new Byte[BUFFER](_ => 0);
      whole := false;
    }

    /** Copy rows of the mapping out and find what is drawn in them; nothing when the copy cannot be made. */
    method Take(pixels: seq<Byte>, pitch: nat, width: nat, rows: nat) returns (found: Option<Extent>)
      requires Valid()
      modifies plane
      ensures Span(pitch, rows) <= |pixels| && Span(pitch, rows) <= BUFFER ==>
                && plane[..Span(pitch, rows)] == pixels[..Span(pitch, rows)]
                && IsExtent(pixels[..Span(pitch, rows)], width, rows, pitch, found)
      ensures !(Span(pitch, rows) <= |pixels| && Span(pitch, rows) <= BUFFER) ==> found.None?
      ensures var n := CopiedBytes(pixels, pitch, rows);
              plane[..] == pixels[..n] + old(plane[..])[n..]
    {
      var length := Span(pitch, rows);
      if length > |pixels| || length > plane.Length { return None; }
      forall i | 0 <= i < length { plane[i] := pixels[i]; }
      assert plane[..length] == pixels[..length];
      assert plane[..] == pixels[..length] + old(plane[..])[length..];
      found := FindExtent(plane[..length], width, rows, pitch);
    }

    /**
      * Read one pointer, cropped, red first. `mapped` is what exporting and mapping the buffer gave.
      * Any plane is answered by the two steps. One whose rows fit the pitch is handed back pixel for pixel, and
      * if its bytes fit the copy buffer too it is answered for the whole plane exactly when it is not one the
      * two steps misread.
      */
    method Read(frame: Framebuffer, mapped: Result<seq<Byte>, Error>)
      returns (r: Result<Option<(Extent, seq<Byte>)>, Error>)
      requires Valid()
      requires frame.pitch.Some? && mapped.Ok? ==> |mapped.value| == Span(frame.pitch.value, frame.height)
      modifies this`whole, plane, scratch
      ensures Refusal(frame, mapped).Some? ==> r == Err(Refusal(frame, mapped).value) && whole == old(whole)
      ensures Refusal(frame, mapped).None? ==>
                && r.Ok?
                && AnsweredInSteps(mapped.value, frame.width, frame.height, frame.pitch.value, whole, BoxOf(r.value))
                && (4 * frame.width <= frame.pitch.value ==> Handed(mapped.value, frame.pitch.value, r.value))
                && Handed(plane[..], frame.pitch.value, r.value)
                && Overlaid(old(plane[..]), plane[..], mapped.value, frame.pitch.value, frame.height, whole)
      ensures Refusal(frame, mapped).None? && Regular(frame) ==>
                ReadAnswer(mapped.value, frame.width, frame.height, frame.pitch.value, whole, r.value)
    {
      hide Span, Regular, Settled, IsExtent, Fits, DrawnPart, Packed, Misread, Transparent, Drawn;
      if frame.width > LIMIT || frame.height > LIMIT { return Err(UnknownFormat(frame.width)); }
      if frame.pitch.None? { return Err(NoScanout); }
      if mapped.Err? { return Err(mapped.error); }
      var pixels, pitch := mapped.value, frame.pitch.value;

      var rows := Min(ROWS_FIRST, frame.height);
      var found := Take(pixels, pitch, frame.width, rows);
      ghost var first := found;
      whole := rows >= frame.height;
      FirstRowsFit(pitch, rows, frame.height);
      RegularMeans(frame);
      if Regular(frame) { PrefixExtent(pixels, frame.width, rows, pitch, first); }
      if rows < frame.height && !Settled(found, rows) {
        rows := frame.height;
        found := Take(pixels, pitch, frame.width, rows);
        whole := true;
        if Regular(frame) { PrefixExtent(pixels, frame.width, rows, pitch, found); }
      }
      if Regular(frame) { TwoStepExactlyWhen(pixels, frame.width, frame.height, pitch, first, found); }
      assert TwoSteps(pixels, frame.width, frame.height, pitch, whole, first, found);

      if found.None? { return Ok(None); }
      var area := found.value;
      TakenBoxFits(pixels, frame.width, rows, pitch, area);
      Copy(pitch, area);
      var used := area.width * area.height * 4;
      FitsArea(area, pitch);
      if 4 * frame.width <= pitch {
        PrefixExtent(pixels, frame.width, rows, pitch, found);
        PartOfMapping(plane[..], pixels, frame.width, rows, pitch, area);
      }
      return Ok(Some((area, scratch[..used])));
    }

    /** Copy one box of the plane into the scratch buffer, first and third channels exchanged. */
    method Copy(pitch: nat, area: Extent)
      requires Valid() && Fits(area, pitch)
      modifies scratch
      ensures Packed(scratch[..area.width * area.height * 4], area.width, area.height)
           == DrawnPart(plane[..], pitch, area)
    {
      hide DrawnPart, Packed, Flat, Quad, Drawn;
      ghost var goal := DrawnPart(plane[..], pitch, area);
      ghost var flat := Flat(goal.rows);
      FlatLength(goal);
      ghost var n := 0;
      var row := 0;
      while row < area.height
        invariant row <= area.height && n == row * area.width
        invariant forall m :: 0 <= m < n && m < |flat| ==> Quad(scratch[..], 4 * m) == flat[m]
      {
        n := CopyRow(pitch, area, row, flat);
        row := row + 1;
      }
      PrefixQuads(scratch[..], area.width * area.height * 4, |flat|);
      FlatHolds(scratch[..area.width * area.height * 4], goal);
    }

    /** So many pixels of the plane, from one byte on, to another on in the scratch buffer. */
    method CopyPixels(from: nat, to: nat, width: nat, ghost flat: seq<Pixel>, ghost before: nat)
      requires Valid() && to == 4 * before && |flat| * 4 <= BUFFER
      requires forall column: nat :: column < width ==> RowHolds(plane[..], flat, from, before, column)
      requires forall m :: 0 <= m < before && m < |flat| ==> Quad(scratch[..], 4 * m) == flat[m]
      modifies scratch
      ensures forall m :: 0 <= m < before + width && m < |flat| ==> Quad(scratch[..], 4 * m) == flat[m]
    {
      hide Quad, Swapped;
      var column: nat := 0;
      while column < width
        invariant column <= width
        invariant forall m :: 0 <= m < before + column && m < |flat| ==> Quad(scratch[..], 4 * m) == flat[m]
      {
        assert RowHolds(plane[..], flat, from, before, column);
        if from + column * 4 + 4 <= plane.Length && to + column * 4 + 4 <= scratch.Length {
          PutQuad(scratch, to + column * 4, Swapped(Quad(plane[..], from + column * 4)));
        }
        column := column + 1;
      }
    }

    /** One row of the copy. */
    method CopyRow(pitch: nat, area: Extent, row: nat, ghost flat: seq<Pixel>) returns (ghost n: nat)
      requires Valid() && Fits(area, pitch) && row < area.height
      requires flat == Flat(DrawnPart(plane[..], pitch, area).rows) && |flat| * 4 <= BUFFER
      requires forall m :: 0 <= m < row * area.width && m < |flat| ==> Quad(scratch[..], 4 * m) == flat[m]
      modifies scratch
      ensures n == (row + 1) * area.width == row * area.width + area.width
      ensures forall m :: 0 <= m < n && m < |flat| ==> Quad(scratch[..], 4 * m) == flat[m]
    {
      hide DrawnPart, Packed, Flat, Quad, Fits, Drawn, Swapped;
      ghost var before := row * area.width;
      var from, to := (area.y + row) * pitch + area.x * 4, row * area.width * 4;
      forall column: nat | column < area.width ensures RowHolds(plane[..], flat, from, before, column) {
        PartAt(plane[..], pitch, area, column, row, before + column, from);
      }
      CopyPixels(from, to, area.width, flat, before);
      n := before + area.width;
      RowAfter(row, area.width);
    }
  }

  lemma RowAfter(row: nat, width: nat)
    ensures (row + 1) * width == row * width + width
  {
  }

  /** A box found in copied rows is copied out whole: neither buffer is ever too short for it. */
  lemma FoundBoxFits(pixels: seq<Byte>, width: nat, rows: nat, pitch: nat, e: Extent)
    requires IsBox(pixels, width, rows, pitch, e)
    requires width <= LIMIT && rows <= LIMIT && Span(pitch, rows) <= BUFFER
    ensures Fits(e, pitch)
  {
    hide Opaque, InColumn, InRow;
    var bottom := e.y + e.height - 1;
    ProductGrows(e.width, LIMIT, e.height);
    if pitch <= 4 * LIMIT {
      ProductGrows(pitch, 4 * LIMIT, bottom);
    } else {
      ProductGrows(bottom + 1, rows, pitch);
      assert (bottom + 1) * pitch == bottom * pitch + pitch;
    }
  }

  /** With a whole row in the pitch, the rows copied say of their own pixels what the plane says. */
  lemma PrefixOpaque(pixels: seq<Byte>, width: nat, rows: nat, pitch: nat, x: nat, y: nat)
    requires 4 * width <= pitch && Span(pitch, rows) <= |pixels| && x < width && y < rows
    ensures Opaque(pixels[..Span(pitch, rows)], pitch, x, y) == Opaque(pixels, pitch, x, y)
  {
    assert (y + 1) * pitch <= rows * pitch;
  }

  lemma PrefixExtent(pixels: seq<Byte>, width: nat, rows: nat, pitch: nat, found: Option<Extent>)
    requires 4 * width <= pitch && Span(pitch, rows) <= |pixels|
    requires IsExtent(pixels[..Span(pitch, rows)], width, rows, pitch, found)
    ensures IsExtent(pixels, width, rows, pitch, found)
  {
    hide Opaque;
    forall x: nat, y: nat | x < width && y < rows
      ensures Opaque(pixels[..Span(pitch, rows)], pitch, x, y) == Opaque(pixels, pitch, x, y)
    {
      PrefixOpaque(pixels, width, rows, pitch, x, y);
    }
    if found.Some? {
      var e := found.value;
      var right, bottom := e.x + e.width - 1, e.y + e.height - 1;
      assert InColumn(pixels, rows, pitch, e.x) && InColumn(pixels, rows, pitch, right);
      assert InRow(pixels, width, pitch, e.y) && InRow(pixels, width, pitch, bottom);
    }
  }

  lemma FirstRowsFit(pitch: nat, rows: nat, height: nat)
    requires rows <= height
    ensures Span(pitch, rows) <= Span(pitch, height)
  {
    ProductGrows(rows, height, pitch);
  }

  lemma RegularMeans(frame: Framebuffer)
    ensures Regular(frame) ==>
              && frame.pitch.Some? && 4 * frame.width <= frame.pitch.value
              && Span(frame.pitch.value, frame.height) <= BUFFER
  {
  }

  lemma FitsArea(e: Extent, pitch: nat)
    requires Fits(e, pitch)
    ensures e.width * e.height * 4 <= BUFFER
  {
  }

  lemma TakenBoxFits(pixels: seq<Byte>, width: nat, rows: nat, pitch: nat, e: Extent)
    requires Span(pitch, rows) <= |pixels| && Span(pitch, rows) <= BUFFER
    requires width <= LIMIT && rows <= LIMIT
    requires IsExtent(pixels[..Span(pitch, rows)], width, rows, pitch, Some(e))
    ensures Fits(e, pitch)
  {
    FoundBoxFits(pixels[..Span(pitch, rows)], width, rows, pitch, e);
  }

  /** The copied rows and the mapping hold the same picture in a box of those rows. */
  lemma PartOfMapping(plane: seq<Byte>, pixels: seq<Byte>, width: nat, rows: nat, pitch: nat, e: Extent)
    requires 4 * width <= pitch && Span(pitch, rows) <= |pixels| && Span(pitch, rows) <= |plane|
    requires plane[..Span(pitch, rows)] == pixels[..Span(pitch, rows)]
    requires IsExtent(pixels, width, rows, pitch, Some(e))
    ensures DrawnPart(plane, pitch, e) == DrawnPart(pixels, pitch, e)
  {
    hide Opaque, InColumn, InRow, DrawnPart, Quad, Drawn;
    var a, b := DrawnPart(plane, pitch, e), DrawnPart(pixels, pitch, e);
    forall x, y | 0 <= x < e.width && 0 <= y < e.height ensures a.At(x, y) == b.At(x, y) {
      DrawnPartAt(plane, pitch, e, x, y);
      DrawnPartAt(pixels, pitch, e, x, y);
      var at := (e.y + y) * pitch + e.x * 4 + x * 4;
      ProductGrows(e.y + y + 1, rows, pitch);
      assert (e.y + y + 1) * pitch == (e.y + y) * pitch + pitch;
      SameQuad(plane, pixels, Span(pitch, rows), at);
    }
    SamePixels(a, b);
  }

  lemma SameQuad(a: seq<Byte>, b: seq<Byte>, length: nat, at: nat)
    requires length <= |a| && length <= |b| && a[..length] == b[..length] && at + 4 <= length
    ensures Quad(a, at) == Quad(b, at)
  {
    assert forall i :: 0 <= i < length ==> a[i] == a[..length][i] && b[i] == b[..length][i];
  }

  lemma PrefixQuads(bytes: seq<Byte>, used: nat, area: nat)
    requires used == area * 4 <= |bytes|
    ensures forall m :: 0 <= m < area ==> Quad(bytes[..used], 4 * m) == Quad(bytes, 4 * m)
  {
  }

  lemma PartAt(pixels: seq<Byte>, pitch: nat, e: Extent, x: nat, y: nat, n: nat, from: nat)
    requires |pixels| == BUFFER && Fits(e, pitch) && x < e.width && y < e.height
    requires n == y * e.width + x && from == (e.y + y) * pitch + e.x * 4
    ensures from + x * 4 + 4 <= BUFFER
    ensures var flat := Flat(DrawnPart(pixels, pitch, e).rows);
            n < |flat| && flat[n] == Swapped(Quad(pixels, from + x * 4))
  {
    hide DrawnPart, Flat, Quad;
    FlatAt(DrawnPart(pixels, pitch, e), x, y);
    DrawnPartAt(pixels, pitch, e, x, y);
    assert (e.y + y) * pitch <= (e.y + e.height - 1) * pitch;
  }

  /** On bytes: every pixel handed back is the plane's, its first and third bytes exchanged. */
  lemma HandedBytes(pixels: seq<Byte>, pitch: nat, area: Extent, rgba: seq<Byte>, x: nat, y: nat)
    requires Handed(pixels, pitch, Some((area, rgba))) && x < area.width && y < area.height
    requires (area.y + y) * pitch + area.x * 4 + x * 4 + 4 <= |pixels|
    ensures var at, to := (area.y + y) * pitch + area.x * 4 + x * 4, 4 * (y * area.width + x);
            && to + 4 <= |rgba|
            && rgba[to] == pixels[at + 2] && rgba[to + 1] == pixels[at + 1]
            && rgba[to + 2] == pixels[at] && rgba[to + 3] == pixels[at + 3]
  {
    hide Packed, DrawnPart;
    InsideArea(area.width, area.height, x, y);
    assert area.width * area.height * 4 == 4 * (area.width * area.height);
    PackedAt(rgba, area.width, area.height, x, y);
    DrawnPartAt(pixels, pitch, area, x, y);
  }
}
