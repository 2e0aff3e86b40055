/** Watching the pointer: when its picture is looked at, when it is new, and what is said of it. */
module PointerWatcher {
  import opened Common
  import opened Pictures
  import opened Turning
  import opened PlaneReader

  /** Every so many reads that find a plane, one looks at its pixels. */
  const PIXELS_EVERY: nat := 4

  /** The picture encoding and the checksum of its bytes, both functions of what they are given. */
  datatype Codec = Codec(encode: Picture -> seq<Byte>, crc: seq<Byte> -> nat)

  /** The picture held and what names it; nothing is held while `used` is zero. */
  datatype Held = Held(used: nat, checksum: nat, extent: Extent)

  const NOTHING_HELD := Held(0, 0, Extent(0, 0, 0, 0))

  datatype Pointer = Pointer(x: int, y: int, width: nat, height: nat, checksum: nat, isNew: bool, looked: bool)

  datatype State = State(id: nat, repeats: nat, since: nat, whole: nat, png: seq<Byte>, held: Held, turn: Rotation)

  const INITIAL := State(0, 0, 0, 0, [], NOTHING_HELD, Unturned)

  /** What looking at the pixels gives. */
  datatype Look = Failed(error: Error) | Clear | Found(extent: Extent, rgba: seq<Byte>, whole: bool)

  /** One call: a turn of the display, or a read and what it was answered. */
  datatype Call =
    | SetTurn(turn: Rotation)
    | Unanswered(error: Error)
    | NoPlane
    | Plane(id: nat, x: int, y: int, look: Look)

  datatype Answer = Quiet | Refused(error: Error) | Nothing | Shown(pointer: Pointer)

  /** Narrowed as the pointer's fields are. */
  function OffsetOf(n: nat): nat { if n <= I32_MAX then n else 0 }

  function Side(n: nat): nat { if n <= 0xFFFF then n else 0xFFFF }

  function SaturatingAdd(a: int, b: int): int {
    if a + b > I32_MAX then I32_MAX else if a + b < I32_MIN then I32_MIN else a + b
  }

  /** Bytes written over the front of a buffer. */
  function Over(buffer: seq<Byte>, bytes: seq<Byte>): (b: seq<Byte>)
    ensures bytes <= b
  {
    bytes + if |bytes| < |buffer| then buffer[|bytes|..] else []
  }

  /** The picture a look found, upright. */
  function UprightPicture(turn: Rotation, extent: Extent, rgba: seq<Byte>): Picture {
    Turned(turn, Packed(rgba, extent.width, extent.height))
  }

  /** Encode a picture over the kept one and hold it under its checksum, unless that is the one held. */
  function Adopt(codec: Codec, s: State, extent: Extent, picture: Picture): (State, bool) {
    var bytes := codec.encode(picture);
    var checksum := codec.crc(bytes);
    var written := s.(png := Over(s.png, bytes));
    if checksum == s.held.checksum then (written, false)
    else (written.(held := Held(|bytes|, checksum, extent)), true)
  }

  /** Whether a read looks at the pixels. */
  predicate Looks(s: State) { s.since + 1 >= PIXELS_EVERY || s.held.used == 0 }

  function Report(s: State, x: int, y: int, isNew: bool, looked: bool): Answer {
    if s.held.used == 0 then Nothing
    else Shown(Pointer(SaturatingAdd(x, OffsetOf(s.held.extent.x)), SaturatingAdd(y, OffsetOf(s.held.extent.y)),
                       Side(s.held.extent.width), Side(s.held.extent.height), s.held.checksum, isNew, looked))
  }

  /** What a look makes of the state, and whether it brought something new. */
  function Taken(codec: Codec, s: State, look: Look, repeated: bool): (State, bool) {
    if !look.Found? then (s, false)
    else
      var (adopted, isNew) := Adopt(codec, s, look.extent, UprightPicture(s.turn, look.extent, look.rgba));
      (adopted.(whole := if look.whole then SaturatingCount(adopted.whole + 1) else adopted.whole,
                repeats := if isNew && repeated then SaturatingCount(adopted.repeats + 1) else adopted.repeats),
       isNew)
  }

  function Step(codec: Codec, s: State, c: Call): (State, Answer) {
    match c
    case SetTurn(turn) => (if s.turn != turn then s.(turn := turn, held := NOTHING_HELD) else s, Quiet)
    case Unanswered(error) => (s, Refused(error))
    case NoPlane => (s.(id := 0), Nothing)
    case Plane(id, x, y, look) =>
      var seen := s.(id := id, since := s.since + 1);
      if !Looks(s) then (seen, Report(seen, x, y, false, false))
      else
        var (after, isNew) := Taken(codec, seen.(since := 0), look, id == s.id);
        match look
        case Failed(error) => (after, Refused(error))
        case Clear => (after, Nothing)
        case Found(_, _, _) => (after, Report(after, x, y, isNew, true))
  }

  /** The watcher after a run of calls on a new one. */
  function After(codec: Codec, calls: seq<Call>): State {
    if calls == [] then INITIAL else Step(codec, After(codec, calls[..|calls| - 1]), calls[|calls| - 1]).0
  }

  /** What the last call of a run answers. */
  function Reply(codec: Codec, calls: seq<Call>): Answer
    requires calls != []
  {
    Step(codec, After(codec, calls[..|calls| - 1]), calls[|calls| - 1]).1
  }

  /** The encoding of the picture held. */
  function Image(s: State): seq<Byte> {
    if s.held.used <= |s.png| then s.png[..s.held.used] else []
  }

  // What a run of calls shows, said of the calls and answers alone.

  /** The turn last said. */
  function TurnSaid(calls: seq<Call>): Rotation {
    if calls == [] then Unturned
    else
      var last := calls[|calls| - 1];
      if last.SetTurn? then last.turn else TurnSaid(calls[..|calls| - 1])
  }

  /** A picture shown as new: where it sat in the plane, and the picture upright. */
  datatype Sight = Sight(extent: Extent, picture: Picture)

  predicate ShowsNew(a: Answer) { a.Shown? && a.pointer.isNew }

  /** The picture last shown as new since the turn last changed. */
  function LastNew(codec: Codec, calls: seq<Call>): Option<Sight> {
    if calls == [] then None
    else
      var n := |calls| - 1;
      NextNew(TurnSaid(calls[..n]), calls[n], Reply(codec, calls), LastNew(codec, calls[..n]))
  }

  /** What a call and its answer make of the picture last shown as new. */
  function NextNew(turn: Rotation, c: Call, answer: Answer, last: Option<Sight>): Option<Sight> {
    if c.SetTurn? && c.turn != turn then None
    else if c.Plane? && c.look.Found? && ShowsNew(answer) then
      Some(Sight(c.look.extent, Turned(turn, Packed(c.look.rgba, c.look.extent.width, c.look.extent.height))))
    else last
  }

  lemma {:induction false} TurnIsTheOneSaid(codec: Codec, calls: seq<Call>)
    ensures After(codec, calls).turn == TurnSaid(calls)
    decreases |calls|
  {
    hide Report;
    if calls != [] { TurnIsTheOneSaid(codec, calls[..|calls| - 1]); }
  }

  /** While something is held it is the picture last shown as new. */
  ghost predicate HoldsLastNew(codec: Codec, s: State, last: Option<Sight>) {
    s.held.used > 0 ==>
      && last.Some?
      && var bytes := codec.encode(last.value.picture);
         s.held == Held(|bytes|, codec.crc(bytes), last.value.extent)
  }

  lemma {:induction false} HeldIsLastNew(codec: Codec, calls: seq<Call>)
    ensures HoldsLastNew(codec, After(codec, calls), LastNew(codec, calls))
    decreases |calls|
  {
    hide Turned, Packed, Over;
    if calls != [] {
      HeldIsLastNew(codec, calls[..|calls| - 1]);
      TurnIsTheOneSaid(codec, calls[..|calls| - 1]);
    }
  }

  /** A number in 32 bits, or the end it is past. */
  predicate Narrowed(r: int, v: int) {
    if v < -0x8000_0000 then r == -0x8000_0000 else if v >= 0x8000_0000 then r == 0x7FFF_FFFF else r == v
  }

  /**
    * Every pointer a run shows is the picture last shown as new since the turn last changed, under its
    * checksum, at its size and at the offset it was first seen at; and only a look shows something new.
    */
  lemma ShownIsLastNew(codec: Codec, calls: seq<Call>)
    requires calls != [] && Reply(codec, calls).Shown?
    ensures var p, c := Reply(codec, calls).pointer, calls[|calls| - 1];
            && c.Plane? && LastNew(codec, calls).Some?
            && var sight := LastNew(codec, calls).value;
            && p.checksum == codec.crc(codec.encode(sight.picture))
            && p.width == Min(sight.extent.width, 0xFFFF) && p.height == Min(sight.extent.height, 0xFFFF)
            && Narrowed(p.x, c.x + if sight.extent.x < 0x8000_0000 then sight.extent.x else 0)
            && Narrowed(p.y, c.y + if sight.extent.y < 0x8000_0000 then sight.extent.y else 0)
            && (p.isNew ==> p.looked)
  {
    HeldIsLastNew(codec, calls);
  }

  /** No picture is encoded as nothing. */
  ghost predicate EncodesAll(codec: Codec) { forall p :: codec.encode(p) != [] }

  /** Nothing is held, under no name, exactly while nothing has been shown as new since the turn last changed. */
  lemma {:induction false} HeldOrNothing(codec: Codec, calls: seq<Call>)
    requires EncodesAll(codec)
    ensures After(codec, calls).held.used == 0 <==> LastNew(codec, calls).None?
    ensures After(codec, calls).held.used == 0 ==> After(codec, calls).held == NOTHING_HELD
    decreases |calls|
  {
    hide UprightPicture, Over;
    if calls != [] {
      var before, c := calls[..|calls| - 1], calls[|calls| - 1];
      HeldOrNothing(codec, before);
      TurnIsTheOneSaid(codec, before);
      if c.Plane? && c.look.Found? {
        var bytes := codec.encode(UprightPicture(TurnSaid(before), c.look.extent, c.look.rgba));
        assert bytes != [];
      }
    }
  }

  /**
    * A pointer whose pixels are looked at is reported where its drawing begins now exactly when nothing was shown
    * as new before it, or its encoding's checksum is not the last new one's, or it still begins where that did.
    */
  lemma PlaceIsCurrentExactlyWhen(codec: Codec, before: seq<Call>, c: Call)
    requires EncodesAll(codec) && c.Plane? && c.look.Found? && Looks(After(codec, before))
    requires Reply(codec, before + [c]).Shown?
    requires c.look.extent.x <= LIMIT && c.look.extent.y <= LIMIT
    requires I32_MIN <= c.x <= I32_MAX - LIMIT && I32_MIN <= c.y <= I32_MAX - LIMIT
    requires LastNew(codec, before).Some? ==>
               LastNew(codec, before).value.extent.x <= LIMIT && LastNew(codec, before).value.extent.y <= LIMIT
    ensures var p, now, last := Reply(codec, before + [c]).pointer, c.look.extent, LastNew(codec, before);
            p.x == c.x + now.x && p.y == c.y + now.y
            <==> || last.None?
                 || codec.crc(codec.encode(UprightPicture(TurnSaid(before), now, c.look.rgba)))
                    != codec.crc(codec.encode(last.value.picture))
                 || (last.value.extent.x == now.x && last.value.extent.y == now.y)
  {
    hide UprightPicture, Over, After;
    assert (before + [c])[..|before + [c]| - 1] == before;
    HeldOrNothing(codec, before);
    HeldIsLastNew(codec, before);
    TurnIsTheOneSaid(codec, before);
  }

  /** A dot that moves five columns inside its plane with its picture unchanged. */
  function MovedDot(x: nat): Call {
    Plane(1, 0, 0, Found(Extent(x, 0, 1, 1), [9, 9, 9, 255], true))
  }

  /** The dot's encoding. */
  function DotBytes(codec: Codec): seq<Byte> {
    codec.encode(UprightPicture(Unturned, Extent(0, 0, 1, 1), [9, 9, 9, 255]))
  }

  /** With any encoder and any checksum but zero, the moved dot is looked at and still reported where it was. */
  lemma MovedDotStaysBehind(codec: Codec)
    requires DotBytes(codec) != [] && codec.crc(DotBytes(codec)) != 0
    ensures Reply(codec, [MovedDot(0), MovedDot(0), MovedDot(0), MovedDot(0), MovedDot(5)])
         == Shown(Pointer(0, 0, 1, 1, codec.crc(DotBytes(codec)), false, true))
  {
    hide After, UprightPicture, Over;
    SamePictureElsewhere(Unturned, 1, 1, [9, 9, 9, 255], 0, 5);
    var c := MovedDot(0);
    DotAfterFour(codec, c);
    assert [c, c, c, c, MovedDot(5)][..4] == [c, c, c, c];
  }

  lemma DotAfterFour(codec: Codec, c: Call)
    requires DotBytes(codec) != [] && codec.crc(DotBytes(codec)) != 0 && c == MovedDot(0)
    ensures var s := After(codec, [c, c, c, c]);
            && s.held == Held(|DotBytes(codec)|, codec.crc(DotBytes(codec)), Extent(0, 0, 1, 1))
            && s.since == 3 && s.turn == Unturned
  {
    hide After, UprightPicture, Over, Report;
    AfterEmpty(codec);
    Extend(codec, [], c);
    Extend(codec, [c], c);
    Extend(codec, [c, c], c);
    Extend(codec, [c, c, c], c);
    assert [] + [c] == [c] && [c] + [c] == [c, c] && [c, c] + [c] == [c, c, c] && [c, c, c] + [c] == [c, c, c, c];
  }

  lemma SamePictureElsewhere(turn: Rotation, width: nat, height: nat, rgba: seq<Byte>, x: nat, x': nat)
    ensures UprightPicture(turn, Extent(x, 0, width, height), rgba)
         == UprightPicture(turn, Extent(x', 0, width, height), rgba)
  {
  }

  lemma AfterEmpty(codec: Codec)
    ensures After(codec, []) == INITIAL
  {
  }

  lemma Extend(codec: Codec, calls: seq<Call>, c: Call)
    ensures After(codec, calls + [c]) == Step(codec, After(codec, calls), c).0
  {
    assert (calls + [c])[..|calls + [c]| - 1] == calls;
  }

  /** The encodings of the pictures a run looked at. */
  ghost function Encodings(codec: Codec, calls: seq<Call>): set<seq<Byte>> {
    if calls == [] then {}
    else
      var n := |calls| - 1;
      var last := calls[n];
      Encodings(codec, calls[..n]) +
      if last.Plane? && last.look.Found? then
        {codec.encode(UprightPicture(TurnSaid(calls[..n]), last.look.extent, last.look.rgba))}
      else {}
  }

  /** No two of the encodings share a checksum. */
  ghost predicate Distinguished(codec: Codec, encodings: set<seq<Byte>>) {
    forall a, b :: a in encodings && b in encodings && codec.crc(a) == codec.crc(b) ==> a == b
  }

  /** The buffer begins with the held picture's encoding, which the run looked at. */
  ghost predicate ImageIsLastNew(codec: Codec, s: State, last: Option<Sight>, encodings: set<seq<Byte>>) {
    s.held.used > 0 ==>
      && last.Some? && codec.encode(last.value.picture) in encodings
      && Image(s) == codec.encode(last.value.picture)
  }

  /** The image handed out is the encoding of the picture last shown as new, if checksums tell pictures apart. */
  lemma {:induction false} ImageIsOfLastNew(codec: Codec, calls: seq<Call>)
    requires Distinguished(codec, Encodings(codec, calls))
    ensures ImageIsLastNew(codec, After(codec, calls), LastNew(codec, calls), Encodings(codec, calls))
    decreases |calls|
  {
    if calls != [] {
      hide Step, ImageIsLastNew, HoldsLastNew, NextNew;
      var before, last := calls[..|calls| - 1], calls[|calls| - 1];
      assert Encodings(codec, before) <= Encodings(codec, calls);
      ImageIsOfLastNew(codec, before);
      HeldIsLastNew(codec, before);
      TurnIsTheOneSaid(codec, before);
      var some, more := Encodings(codec, before), Encodings(codec, calls);
      MoreEncodings(codec, After(codec, before), LastNew(codec, before), some, more);
      ImageStep(codec, After(codec, before), last, LastNew(codec, before), more);
    } else {
      AfterEmpty(codec);
    }
  }

  lemma MoreEncodings(codec: Codec, s: State, last: Option<Sight>, some: set<seq<Byte>>, more: set<seq<Byte>>)
    requires ImageIsLastNew(codec, s, last, some) && some <= more
    ensures ImageIsLastNew(codec, s, last, more)
  {
  }

  lemma ImageStep(codec: Codec, s: State, c: Call, last: Option<Sight>, encodings: set<seq<Byte>>)
    requires ImageIsLastNew(codec, s, last, encodings) && HoldsLastNew(codec, s, last)
    requires Distinguished(codec, encodings)
    requires c.Plane? && c.look.Found? ==> codec.encode(UprightPicture(s.turn, c.look.extent, c.look.rgba)) in encodings
    ensures var (after, answer) := Step(codec, s, c);
            ImageIsLastNew(codec, after, NextNew(s.turn, c, answer, last), encodings)
  {
    hide Turned, Packed, Over;
    if c.Plane? && c.look.Found? {
      var picture := UprightPicture(s.turn, c.look.extent, c.look.rgba);
      AdoptedImage(codec, s.(id := c.id, since := 0), c.look.extent, picture);
    }
  }

  /** An image whose first bytes are another's, as far as it goes: what an encoding that is not new leaves of it. */
  function Overwritten(image: seq<Byte>, bytes: seq<Byte>): seq<Byte> {
    if |bytes| < |image| then bytes + image[|bytes|..] else bytes[..|image|]
  }

  lemma AdoptedImage(codec: Codec, s: State, extent: Extent, picture: Picture)
    ensures var (after, isNew) := Adopt(codec, s, extent, picture);
            && (isNew ==> Image(after) == codec.encode(picture))
            && (!isNew && s.held.used > 0 && Image(s) == codec.encode(picture) ==> Image(after) == Image(s))
            && (!isNew && s.held.used <= |s.png| ==> Image(after) == Overwritten(Image(s), codec.encode(picture)))
  {
    var bytes := codec.encode(picture);
    assert Over(s.png, bytes)[..|bytes|] == bytes;
    if !Adopt(codec, s, extent, picture).1 && s.held.used <= |s.png| {
      assert Over(s.png, bytes)[..s.held.used] == Overwritten(s.png[..s.held.used], bytes);
    }
  }

  // What a change of turn brings.

  /** Calls none of which shows a pointer. */
  ghost predicate ShowsNone(codec: Codec, before: seq<Call>, calls: seq<Call>) {
    forall k :: 1 <= k <= |calls| ==> !Reply(codec, before + calls[..k]).Shown?
  }

  lemma StillNothingNew(codec: Codec, before: seq<Call>, c: Call)
    requires LastNew(codec, before).None? && !Reply(codec, before + [c]).Shown?
    ensures LastNew(codec, before + [c]).None?
  {
    hide Step, After;
    assert (before + [c])[..|before + [c]| - 1] == before;
  }

  lemma {:induction false} NothingNewYet(codec: Codec, before: seq<Call>, calls: seq<Call>)
    requires LastNew(codec, before).None? && ShowsNone(codec, before, calls)
    ensures LastNew(codec, before + calls).None?
    decreases |calls|
  {
    hide Reply, LastNew;
    if calls == [] {
      assert before + calls == before;
    } else {
      var n := |calls| - 1;
      forall k | 1 <= k <= n ensures !Reply(codec, before + calls[..n][..k]).Shown? {
        assert calls[..n][..k] == calls[..k];
      }
      NothingNewYet(codec, before, calls[..n]);
      assert calls[..|calls|] == calls;
      assert before + calls == before + calls[..n] + [calls[n]];
      StillNothingNew(codec, before + calls[..n], calls[n]);
    }
  }

  /** After a change of turn the next pointer shown has been looked at and is shown as new. */
  lemma TurnMakesTheNextNew(codec: Codec, calls: seq<Call>, turn: Rotation, quiet: seq<Call>, last: Call)
    requires turn != TurnSaid(calls)
    requires var said := calls + [SetTurn(turn)];
             && ShowsNone(codec, said, quiet)
             && Reply(codec, said + quiet + [last]).Shown?
    ensures var p := Reply(codec, calls + [SetTurn(turn)] + quiet + [last]).pointer; p.isNew && p.looked
  {
    hide Step, After;
    var said := calls + [SetTurn(turn)];
    assert said[..|said| - 1] == calls;
    NothingNewYet(codec, said, quiet);
    var all := said + quiet + [last];
    assert all[..|all| - 1] == said + quiet;
    ShownIsLastNew(codec, all);
  }

  /** With nothing held, a drawn picture is shown exactly when its checksum is not zero, the name of nothing. */
  lemma FirstPictureShownExactlyWhen(codec: Codec, s: State, c: Call)
    requires s.held == NOTHING_HELD && c.Plane? && c.look.Found?
    requires codec.encode(UprightPicture(s.turn, c.look.extent, c.look.rgba)) != []
    ensures Step(codec, s, c).1.Shown? <==>
              codec.crc(codec.encode(UprightPicture(s.turn, c.look.extent, c.look.rgba))) != 0
    ensures !Step(codec, s, c).1.Shown? ==> Step(codec, s, c).0.held == NOTHING_HELD
  {
    hide UprightPicture, Over;
    assert Looks(s);
  }

  /** With any encoder, a pointer whose encoding has checksum zero is never shown, however often it is read. */
  lemma {:induction false} ZeroChecksumIsNeverShown(codec: Codec, c: Call, times: nat)
    requires c.Plane? && c.look.Found?
    requires codec.crc(codec.encode(UprightPicture(Unturned, c.look.extent, c.look.rgba))) == 0
    ensures var calls := seq(times, _ => c);
            && After(codec, calls).held == NOTHING_HELD && After(codec, calls).turn == Unturned
            && Reply(codec, calls + [c]) == Nothing
    decreases times
  {
    hide After, Step, UprightPicture;
    var calls := seq(times, _ => c);
    assert (calls + [c])[..times] == calls;
    if times == 0 {
      AfterEmpty(codec);
    } else {
      ZeroChecksumIsNeverShown(codec, c, times - 1);
      assert calls == seq(times - 1, _ => c) + [c];
      Extend(codec, seq(times - 1, _ => c), c);
      ZeroStep(codec, After(codec, seq(times - 1, _ => c)), c);
    }
    ZeroStep(codec, After(codec, calls), c);
  }

  lemma ZeroStep(codec: Codec, s: State, c: Call)
    requires s.held == NOTHING_HELD && s.turn == Unturned && c.Plane? && c.look.Found?
    requires codec.crc(codec.encode(UprightPicture(Unturned, c.look.extent, c.look.rgba))) == 0
    ensures var (after, answer) := Step(codec, s, c);
            after.held == NOTHING_HELD && after.turn == Unturned && answer == Nothing
  {
    hide UprightPicture, Over;
  }

  // What a read is answered.

  /** The checksum a look that finds a picture would name it by. */
  function Named(codec: Codec, before: seq<Call>, look: Look): nat
    requires look.Found?
  {
    codec.crc(codec.encode(UprightPicture(TurnSaid(before), look.extent, look.rgba)))
  }

  /** The name of the picture last shown as new, and zero for none. */
  function LastName(codec: Codec, before: seq<Call>): nat {
    match LastNew(codec, before)
    case None => 0
    case Some(sight) => codec.crc(codec.encode(sight.picture))
  }

  /**
    * A read is refused exactly when the display does not answer or a look fails. It shows a pointer exactly when
    * there is a plane and, if its pixels are looked at, the look finds a picture and there is one to name. What it
    * shows is new exactly when it was looked at and has another name than the last new one.
    */
  lemma AnsweredExactlyWhen(codec: Codec, before: seq<Call>, c: Call)
    requires EncodesAll(codec)
    ensures var answer, looks := Reply(codec, before + [c]), c.Plane? && Looks(After(codec, before));
            && (forall e :: answer == Refused(e) <==> c == Unanswered(e) || (looks && c.look == Failed(e)))
            && (answer == Quiet <==> c.SetTurn?)
            && (answer.Shown? <==>
                  && c.Plane?
                  && (looks ==> c.look.Found? && (LastNew(codec, before).Some? || Named(codec, before, c.look) != 0)))
            && (answer.Shown? ==>
                  && answer.pointer.looked == looks
                  && (answer.pointer.isNew <==> looks && Named(codec, before, c.look) != LastName(codec, before)))
  {
    hide UprightPicture, Over, After;
    assert (before + [c])[..|before + [c]| - 1] == before;
    HeldOrNothing(codec, before);
    HeldIsLastNew(codec, before);
    TurnIsTheOneSaid(codec, before);
    if c.Plane? && c.look.Found? {
      assert codec.encode(UprightPicture(TurnSaid(before), c.look.extent, c.look.rgba)) != [];
    }
  }

  /** The plane's buffer at the last read that was answered, and zero for none. */
  function LastId(calls: seq<Call>): nat {
    if calls == [] then 0
    else
      var last := calls[|calls| - 1];
      if last.Plane? then last.id else if last.NoPlane? then 0 else LastId(calls[..|calls| - 1])
  }

  /** How many looks found a picture by reading the whole plane. */
  function WholeLooks(codec: Codec, calls: seq<Call>): nat {
    if calls == [] then 0
    else
      var n := |calls| - 1;
      WholeLooks(codec, calls[..n]) +
      if calls[n].Plane? && calls[n].look.Found? && calls[n].look.whole && Looks(After(codec, calls[..n])) then 1 else 0
  }

  /** How many pictures were shown as new though the plane's buffer was the one before. */
  function NewInTheSame(codec: Codec, calls: seq<Call>): nat {
    if calls == [] then 0
    else
      var n := |calls| - 1;
      NewInTheSame(codec, calls[..n]) +
      if ShowsNew(Reply(codec, calls)) && calls[n].Plane? && calls[n].id == LastId(calls[..n]) then 1 else 0
  }

  lemma CountStep(codec: Codec, s: State, c: Call)
    requires EncodesAll(codec)
    ensures var (after, answer) := Step(codec, s, c);
            && after.id == (if c.Plane? then c.id else if c.NoPlane? then 0 else s.id)
            && after.whole == (if c.Plane? && c.look.Found? && c.look.whole && Looks(s)
                               then SaturatingCount(s.whole + 1) else s.whole)
            && after.repeats == (if ShowsNew(answer) && c.Plane? && c.id == s.id
                                 then SaturatingCount(s.repeats + 1) else s.repeats)
  {
    hide UprightPicture, Over;
    if c.Plane? && c.look.Found? {
      assert codec.encode(UprightPicture(s.turn, c.look.extent, c.look.rgba)) != [];
    }
  }

  lemma {:induction false} CountersCount(codec: Codec, calls: seq<Call>)
    requires EncodesAll(codec)
    ensures After(codec, calls).id == LastId(calls)
    ensures After(codec, calls).whole == SaturatingCount(WholeLooks(codec, calls))
    ensures After(codec, calls).repeats == SaturatingCount(NewInTheSame(codec, calls))
    decreases |calls|
  {
    if calls != [] {
      hide Step, EncodesAll;
      var before := calls[..|calls| - 1];
      CountersCount(codec, before);
      CountStep(codec, After(codec, before), calls[|calls| - 1]);
    }
  }

  // How often the pixels are looked at.

  /** How many of a run's reads find a plane. */
  function Planes(calls: seq<Call>): nat {
    if calls == [] then 0 else Planes(calls[..|calls| - 1]) + if calls[|calls| - 1].Plane? then 1 else 0
  }

  /** None of the calls that follow a run looks at the pixels. */
  ghost predicate LooksAtNone(codec: Codec, before: seq<Call>, calls: seq<Call>) {
    forall k :: 0 <= k < |calls| && calls[k].Plane? ==> !Looks(After(codec, before + calls[..k]))
  }

  lemma {:induction false} SinceCounts(codec: Codec, before: seq<Call>, calls: seq<Call>)
    requires LooksAtNone(codec, before, calls)
    ensures After(codec, before + calls).since == After(codec, before).since + Planes(calls)
    decreases |calls|
  {
    if calls == [] {
      assert before + calls == before;
    } else {
      hide Adopt, Report;
      var n := |calls| - 1;
      forall k | 0 <= k < n && calls[..n][k].Plane? ensures !Looks(After(codec, before + calls[..n][..k])) {
        assert calls[..n][..k] == calls[..k];
      }
      SinceCounts(codec, before, calls[..n]);
      assert (before + calls)[..|before + calls| - 1] == before + calls[..n];
    }
  }

  lemma {:induction false} SinceIsSmall(codec: Codec, calls: seq<Call>)
    ensures After(codec, calls).since < PIXELS_EVERY
    decreases |calls|
  {
    hide Report;
    if calls != [] { SinceIsSmall(codec, calls[..|calls| - 1]); }
  }

  /** Among any four reads that find a plane, whatever comes between them, one looks at the pixels. */
  lemma OneInFourLooks(codec: Codec, before: seq<Call>, calls: seq<Call>)
    requires Planes(calls) >= PIXELS_EVERY
    ensures exists k :: 0 <= k < |calls| && calls[k].Plane? && Looks(After(codec, before + calls[..k]))
  {
    hide After;
    if LooksAtNone(codec, before, calls) {
      SinceCounts(codec, before, calls);
      SinceIsSmall(codec, before + calls);
      assert false;
    }
  }

  /**
    * After a look, and reads that do not look, the next one looks exactly when three have found a plane since, or
    * nothing has been shown as new since the turn last changed.
    */
  lemma NextLooksExactlyWhen(codec: Codec, before: seq<Call>, c: Call, calls: seq<Call>)
    requires EncodesAll(codec) && c.Plane? && Looks(After(codec, before)) && LooksAtNone(codec, before + [c], calls)
    ensures Looks(After(codec, before + [c] + calls)) <==>
              Planes(calls) == 3 || LastNew(codec, before + [c] + calls).None?
  {
    hide After, Report, UprightPicture, Over;
    Extend(codec, before, c);
    SinceCounts(codec, before + [c], calls);
    SinceIsSmall(codec, before + [c] + calls);
    HeldOrNothing(codec, before + [c] + calls);
  }

  // The watcher itself.

  /** The pointer plane as a read finds it; `mapped` is what mapping its buffer gives, if that is asked. */
  datatype Cursor = Cursor(image: Framebuffer, x: int, y: int, mapped: Result<seq<Byte>, Error>)

  function AnswerOf(r: Result<Option<Pointer>, Error>): Answer {
    match r
    case Err(error) => Refused(error)
    case Ok(None) => Nothing
    case Ok(Some(pointer)) => Shown(pointer)
  }

  /** The call a read was, given what the display answered and what looking gave. */
  function CallOf(answer: Result<Option<Cursor>, Error>, look: Look): Call {
    match answer
    case Err(error) => Unanswered(error)
    case Ok(None) => NoPlane
    case Ok(Some(cursor)) => Plane(cursor.image.id, cursor.x, cursor.y, look)
  }

  /** What looking gave is what the reader answers for the plane. */
  ghost predicate LookIsRead(cursor: Cursor, look: Look, whole: bool) {
    match Refusal(cursor.image, cursor.mapped)
    case Some(error) => look == Failed(error)
    case None =>
      && !look.Failed? && (look.Found? ==> look.whole == whole)
      && AnsweredInSteps(cursor.mapped.value, cursor.image.width, cursor.image.height, cursor.image.pitch.value, whole,
                         if look.Found? then Some(look.extent) else None)
      && (4 * cursor.image.width <= cursor.image.pitch.value ==>
            Handed(cursor.mapped.value, cursor.image.pitch.value,
                   if look.Found? then Some((look.extent, look.rgba)) else None))
      && (Regular(cursor.image) ==>
            ReadAnswer(cursor.mapped.value, cursor.image.width, cursor.image.height, cursor.image.pitch.value,
                       whole, if look.Found? then Some((look.extent, look.rgba)) else None))
  }

  class Watcher {
    const codec: Codec
    const reader: Reader
    var id: nat
    var repeats: nat
    var since: nat
    var whole: nat
    var png: seq<Byte>
    var held: Held
    var turn: Rotation

    ghost predicate Valid()
      reads this
    {
      reader.Valid() && since < PIXELS_EVERY && whole <= U64_MAX && repeats <= U64_MAX
    }

    ghost function Now(): State
      reads this
    {
      State(id, repeats, since, whole, png, held, turn)
    }

    constructor (codec: Codec)
      ensures Valid() && fresh(reader) && fresh(reader.plane) && fresh(reader.scratch)
      ensures this.codec == codec && Now() == After(codec, [])
    {
      this.codec := codec;
      reader := new Reader();
      id, repeats, since, whole := 0, 0, 0, 0;
      png, held, turn := [], NOTHING_HELD, Unturned;
    }

    method SetTurn(turn: Rotation)
      requires Valid()
      modifies this
      ensures Valid() && Now() == Step(codec, old(Now()), Call.SetTurn(turn)).0
    {
      if this.turn != turn {
        this.turn := turn;
        held := NOTHING_HELD;
      }
    }

    method Read(answer: Result<Option<Cursor>, Error>) returns (r: Result<Option<Pointer>, Error>, ghost look: Look)
      requires Valid()
      requires answer.Ok? && answer.value.Some? ==>
                 var cursor := answer.value.value;
                 cursor.image.pitch.Some? && cursor.mapped.Ok? ==>
                   |cursor.mapped.value| == Span(cursor.image.pitch.value, cursor.image.height)
      modifies this, reader, reader.plane, reader.scratch
      ensures Valid()
      ensures (Now(), AnswerOf(r)) == Step(codec, old(Now()), CallOf(answer, look))
      ensures answer.Ok? && answer.value.Some? && Looks(old(Now())) ==>
                LookIsRead(answer.value.value, look, reader.whole)
    {
      hide LookIsRead, Taken;
      look := Clear;
      if answer.Err? { return Err(answer.error), look; }
      if answer.value.None? {
        id := 0;
        return Ok(None), look;
      }
      var cursor := answer.value.value;
      var repeated := cursor.image.id == id;
      id := cursor.image.id;
      var isNew, looked := false, false;
      since := since + 1;
      if since >= PIXELS_EVERY || held.used == 0 {
        since := 0;
        looked := true;
        var failed: Option<Error>, found: bool;
        failed, found, isNew, look := LookAt(cursor, repeated);
        if failed.Some? { return Err(failed.value), look; }
        if !found { return Ok(None), look; }
      }
      if held.used == 0 { return Ok(None), look; }
      return Ok(Some(Pointer(SaturatingAdd(cursor.x, OffsetOf(held.extent.x)),
                             SaturatingAdd(cursor.y, OffsetOf(held.extent.y)),
                             Side(held.extent.width), Side(held.extent.height), held.checksum, isNew, looked))), look;
    }

    /** Look at the pixels, and take up the picture they show. */
    method LookAt(cursor: Cursor, repeated: bool)
      returns (failed: Option<Error>, found: bool, isNew: bool, ghost look: Look)
      requires Valid()
      requires cursor.image.pitch.Some? && cursor.mapped.Ok? ==>
                 |cursor.mapped.value| == Span(cursor.image.pitch.value, cursor.image.height)
      modifies this, reader, reader.plane, reader.scratch
      ensures Valid() && LookIsRead(cursor, look, reader.whole)
      ensures (Now(), isNew) == Taken(codec, old(Now()), look, repeated)
      ensures failed == (if look.Failed? then Some(look.error) else None) && found == look.Found?
    {
      hide Regular, ReadAnswer, AnsweredInSteps, Handed, Packed, Turned, Over, UprightWidth, UprightHeight;
      failed, found, isNew := None, false, false;
      var got := reader.Read(cursor.image, cursor.mapped);
      if got.Err? {
        look, failed := Failed(got.error), Some(got.error);
        return;
      }
      if got.value.None? {
        look := Clear;
        return;
      }
      var (extent, rgba) := got.value.value;
      look, found := Found(extent, rgba, reader.whole), true;
      var picture, width, height := Upright(turn, rgba, extent.width, extent.height);
      isNew := TakeUp(extent, picture[..], width, height);
      if reader.whole { whole := SaturatingCount(whole + 1); }
      if isNew && repeated { repeats := SaturatingCount(repeats + 1); }
    }

    /** Encode a picture, and hold it under its checksum if that is not the one held. */
    method TakeUp(extent: Extent, rgba: seq<Byte>, width: nat, height: nat) returns (isNew: bool)
      modifies this`png, this`held
      ensures (Now(), isNew) == Adopt(codec, old(Now()), extent, Packed(rgba, width, height))
    {
      hide Packed;
      var bytes := codec.encode(Packed(rgba, width, height));
      png := Over(png, bytes);
      var checksum := codec.crc(bytes);
      if checksum == held.checksum { return false; }
      held := Held(|bytes|, checksum, extent);
      return true;
    }
  }
}
