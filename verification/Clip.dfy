/** Clips: access units in a file, each behind its length, cut from a byte stream or a dump. */
module ClipFraming {
  import opened Common

  datatype Codec = H264 | Hevc | Other

  datatype Error = NoByteAfterCode | NoDelimiters | TooLong | Truncated

  // Start codes.

  predicate CodeAt(data: seq<Byte>, i: nat) { i + 3 <= |data| && data[i] == 0 && data[i + 1] == 0 && data[i + 2] == 1 }

  /** The first start code at or after an offset, or the stream's length. */
  function Find(data: seq<Byte>, at: nat): (i: nat)
    requires at <= |data|
    ensures at <= i <= |data| && (i < |data| ==> CodeAt(data, i))
    ensures forall j :: at <= j < i ==> !CodeAt(data, j)
    decreases |data| - at
  {
    if at == |data| || CodeAt(data, at) then at else Find(data, at + 1)
  }

  /** A unit whose first byte names it an access unit delimiter. */
  predicate Delimits(codec: Codec, first: Byte) {
    match codec
    case H264 => first % 32 == 9
    case Hevc => first / 2 % 64 == 35
    case Other => false
  }

  /** A start code is two zeros and a one. */
  lemma CodeIs(data: seq<Byte>, i: nat)
    ensures CodeAt(data, i) <==> i + 3 <= |data| && data[i..i + 3] == [0, 0, 1]
  {
    if i + 3 <= |data| { assert data[i..i + 3] == [data[i], data[i + 1], data[i + 2]]; }
  }

  /** Type 9 in the low five bits of an H.264 unit's first byte, 35 in the six above the lowest of an HEVC one's. */
  lemma DelimiterBytes(first: Byte)
    ensures Delimits(H264, first) <==> first in {9, 41, 73, 105, 137, 169, 201, 233}
    ensures Delimits(Hevc, first) <==> first in {70, 71, 198, 199}
    ensures !Delimits(Other, first)
  {
    LowFive(first);
    MiddleSix(first);
  }

  lemma LowFive(first: Byte)
    ensures first % 32 == 9 <==> first in {9, 41, 73, 105, 137, 169, 201, 233}
  {
    var k := first / 32;
    assert first == 32 * k + first % 32 && 0 <= k < 8;
  }

  lemma MiddleSix(first: Byte)
    ensures first / 2 % 64 == 35 <==> first in {70, 71, 198, 199}
  {
    var half := first / 2;
    assert half == 64 * (half / 64) + half % 64 && 0 <= half / 64 < 2;
  }

  predicate DelimiterAt(data: seq<Byte>, codec: Codec, i: nat) {
    CodeAt(data, i) && i + 3 < |data| && Delimits(codec, data[i + 3])
  }

  /** Where a start code begins: at the zero before it, if there is one. */
  function StartOf(data: seq<Byte>, i: nat): nat
    requires i <= |data|
  {
    if i > 0 && data[i - 1] == 0 then i - 1 else i
  }

  /** The delimiters from an offset on, by their start codes. */
  function Delimiters(data: seq<Byte>, codec: Codec, at: nat): (d: seq<nat>)
    requires at <= |data|
    ensures forall k :: 0 <= k < |d| ==> at <= d[k] && DelimiterAt(data, codec, d[k])
    decreases |data| - at
  {
    var i := Find(data, at);
    if i == |data| then []
    else
      var rest := Delimiters(data, codec, i + 3);
      if DelimiterAt(data, codec, i) then [i] + rest else rest
  }

  /** Every start code has a byte after it. */
  ghost predicate Closed(data: seq<Byte>) { forall i :: 0 <= i && CodeAt(data, i) ==> i + 3 < |data| }

  /** Exactly the delimiters there are, each at least a start code after the one before. */
  lemma DelimitersAreAll(data: seq<Byte>, codec: Codec, at: nat)
    requires at <= |data|
    ensures var d := Delimiters(data, codec, at);
            && Apart(d)
            && (forall i :: at <= i && DelimiterAt(data, codec, i) ==> i in d)
  {
    hide DelimiterAt, Delimiters;
    DelimitersApart(data, codec, at);
    forall i | at <= i && DelimiterAt(data, codec, i) ensures i in Delimiters(data, codec, at) {
      DelimiterIsListed(data, codec, at, i);
    }
  }

  /** Each offset is at least a start code after the ones before it. */
  predicate Apart(d: seq<nat>) { forall k, l :: 0 <= k < l < |d| ==> d[k] + 3 <= d[l] }

  lemma {:induction false} DelimitersApart(data: seq<Byte>, codec: Codec, at: nat)
    requires at <= |data|
    ensures Apart(Delimiters(data, codec, at))
    decreases |data| - at
  {
    hide CodeAt, DelimiterAt, Find;
    var i := Find(data, at);
    if i < |data| {
      NoCodeInside(data, i, i);
      DelimitersApart(data, codec, i + 3);
      var d, rest := Delimiters(data, codec, at), Delimiters(data, codec, i + 3);
      if DelimiterAt(data, codec, i) {
        forall k, l | 0 <= k < l < |d| ensures d[k] + 3 <= d[l] {
          assert d[l] == rest[l - 1];
          if k > 0 { assert d[k] == rest[k - 1]; }
        }
      }
    }
  }

  lemma {:induction false} DelimiterIsListed(data: seq<Byte>, codec: Codec, at: nat, j: nat)
    requires at <= |data| && at <= j && DelimiterAt(data, codec, j)
    ensures j in Delimiters(data, codec, at)
    decreases |data| - at
  {
    hide CodeAt, DelimiterAt, Find;
    var i := Find(data, at);
    DelimiterIsCode(data, codec, j);
    NoCodeInside(data, i, j);
    if i + 3 <= j { DelimiterIsListed(data, codec, i + 3, j); }
  }

  lemma DelimiterIsCode(data: seq<Byte>, codec: Codec, i: nat)
    ensures DelimiterAt(data, codec, i) ==> CodeAt(data, i) && i + 3 < |data|
  {
  }

  /** Start codes do not overlap, and none begins past the end. */
  lemma NoCodeInside(data: seq<Byte>, i: nat, j: nat)
    ensures CodeAt(data, i) && i < j < i + 3 ==> !CodeAt(data, j)
    ensures j >= |data| ==> !CodeAt(data, j)
    ensures CodeAt(data, i) ==> i + 3 <= |data|
  {
  }

  /** Where the units from an offset on begin. */
  function StartsFrom(data: seq<Byte>, codec: Codec, at: nat): (s: seq<nat>)
    requires at <= |data|
    ensures |s| == |Delimiters(data, codec, at)|
    decreases |data| - at
  {
    var i := Find(data, at);
    if i == |data| then []
    else
      var rest := StartsFrom(data, codec, i + 3);
      if DelimiterAt(data, codec, i) then [StartOf(data, i)] + rest else rest
  }

  function Starts(data: seq<Byte>, codec: Codec): (s: seq<nat>)
    ensures |s| == |Delimiters(data, codec, 0)|
  {
    StartsFrom(data, codec, 0)
  }

  lemma {:induction false} StartOfDelimiter(data: seq<Byte>, codec: Codec, at: nat, k: nat)
    requires at <= |data| && k < |StartsFrom(data, codec, at)|
    ensures StartsFrom(data, codec, at)[k] == StartOf(data, Delimiters(data, codec, at)[k])
    decreases |data| - at
  {
    hide CodeAt, DelimiterAt, StartOf, Find;
    var i := Find(data, at);
    NoCodeInside(data, i, i);
    if DelimiterAt(data, codec, i) {
      if k > 0 { StartOfDelimiter(data, codec, i + 3, k - 1); }
    } else {
      StartOfDelimiter(data, codec, i + 3, k);
    }
  }

  /** The offset a unit ends at: the next one's start, or the end of the stream. */
  function EndOf(data: seq<Byte>, starts: seq<nat>, k: nat): nat
    requires k < |starts|
  {
    if k + 1 < |starts| then starts[k + 1] else |data|
  }

  ghost predicate Upwards(data: seq<Byte>, starts: seq<nat>) {
    forall k :: 0 <= k < |starts| ==> starts[k] < EndOf(data, starts, k) <= |data|
  }

  function UnitsFrom(data: seq<Byte>, starts: seq<nat>, k: nat): (u: seq<seq<Byte>>)
    requires k <= |starts| && Upwards(data, starts)
    ensures |u| == |starts| - k
    decreases |starts| - k
  {
    if k == |starts| then [] else [data[starts[k]..EndOf(data, starts, k)]] + UnitsFrom(data, starts, k + 1)
  }

  /** A unit's start is its start code, or the zero before that if there is one. */
  predicate OpensAt(data: seq<Byte>, start: nat, code: nat) {
    code <= |data| && if code > 0 && data[code - 1] == 0 then start == code - 1 else start == code
  }

  /**
    * The starts rise strictly; unit k begins at its delimiter's start code, with a zero before it if there is
    * one, and holds no other delimiter's.
    */
  lemma EachDelimiterOpensOneUnit(data: seq<Byte>, codec: Codec)
    ensures var s, d := Starts(data, codec), Delimiters(data, codec, 0);
            && Upwards(data, s)
            && (forall k :: 0 <= k < |s| ==> d[k] < EndOf(data, s, k) && OpensAt(data, s[k], d[k]))
            && (forall k, l :: 0 <= k < |s| && 0 <= l < |d| && s[k] <= d[l] < EndOf(data, s, k) ==> l == k)
            && (forall i: nat :: DelimiterAt(data, codec, i) ==> i in d)
  {
    hide DelimiterAt, Delimiters, EndOf, Starts;
    DelimitersAreAll(data, codec, 0);
    var s, d := Starts(data, codec), Delimiters(data, codec, 0);
    forall k | 0 <= k < |s| ensures OpensAt(data, s[k], d[k]) && d[k] < EndOf(data, s, k) <= |data| {
      UnitBounds(data, codec, k);
    }
    forall k, l | 0 <= k < |s| && 0 <= l < |d| && s[k] <= d[l] < EndOf(data, s, k) ensures l == k {
      OnlyItsOwn(data, codec, k, l);
    }
  }

  lemma UnitBounds(data: seq<Byte>, codec: Codec, k: nat)
    requires k < |Starts(data, codec)|
    ensures var s, d := Starts(data, codec), Delimiters(data, codec, 0);
            OpensAt(data, s[k], d[k]) && d[k] < EndOf(data, s, k) <= |data|
  {
    hide DelimiterAt, Delimiters, StartsFrom;
    DelimitersAreAll(data, codec, 0);
    var d := Delimiters(data, codec, 0);
    DelimiterIsCode(data, codec, d[k]);
    StartOfDelimiter(data, codec, 0, k);
    if k + 1 < |d| {
      DelimiterIsCode(data, codec, d[k + 1]);
      StartOfDelimiter(data, codec, 0, k + 1);
      assert d[k] + 3 <= d[k + 1];
    }
  }

  lemma OnlyItsOwn(data: seq<Byte>, codec: Codec, k: nat, l: nat)
    requires k < |Starts(data, codec)| && l < |Delimiters(data, codec, 0)|
    ensures var s, d := Starts(data, codec), Delimiters(data, codec, 0);
            s[k] <= d[l] < EndOf(data, s, k) ==> l == k
  {
    hide DelimiterAt, Delimiters, StartsFrom;
    DelimitersAreAll(data, codec, 0);
    var d := Delimiters(data, codec, 0);
    DelimiterIsCode(data, codec, d[k]);
    StartOfDelimiter(data, codec, 0, k);
    if k + 1 < |d| {
      DelimiterIsCode(data, codec, d[k + 1]);
      StartOfDelimiter(data, codec, 0, k + 1);
    }
    if k + 1 < l { assert d[k + 1] + 3 <= d[l]; }
  }

  /** Splitting loses nothing: the units make up the stream from the first of them on. */
  lemma {:induction false} UnitsMakeTheStream(data: seq<Byte>, starts: seq<nat>, k: nat)
    requires Upwards(data, starts) && k < |starts|
    ensures starts[k] <= |data| && Concat(UnitsFrom(data, starts, k)) == data[starts[k]..]
    decreases |starts| - k
  {
    var units := UnitsFrom(data, starts, k);
    assert units[1..] == UnitsFrom(data, starts, k + 1);
    if k + 1 < |starts| {
      UnitsMakeTheStream(data, starts, k + 1);
      assert data[starts[k]..] == data[starts[k]..starts[k + 1]] + data[starts[k + 1]..];
    } else {
      assert Concat(units[1..]) == [];
    }
  }

  // The file.

  /** Bytes between two offsets, as many of them as there are. */
  function Slice(data: seq<Byte>, from: nat, to: nat): seq<Byte>
    requires from <= to
  {
    var last := if to < |data| then to else |data|;
    if from < last then data[from..last] else []
  }

  /** A record of the file: a length, and bytes that need not be as many. */
  datatype Record = Record(length: U32, bytes: seq<Byte>)

  function Written(records: seq<Record>): seq<Byte> {
    if records == [] then [] else Word(Little, records[0].length) + records[0].bytes + Written(records[1..])
  }

  /** The units a file holds, read record by record. */
  function ReadFrom(data: seq<Byte>, at: nat): Result<seq<seq<Byte>>, Error>
    decreases |data| - at
  {
    if at >= |data| then Ok([])
    else if at + 4 > |data| then Err(Truncated)
    else
      var length := WordOf(Little, data[at..at + 4]);
      Joined([Slice(data, at + 4, at + 4 + length)], ReadFrom(data, at + 4 + length))
  }

  /** Units followed by what is read after them. */
  function Joined(units: seq<seq<Byte>>, r: Result<seq<seq<Byte>>, Error>): Result<seq<seq<Byte>>, Error> {
    match r
    case Err(e) => Err(e)
    case Ok(rest) => Ok(units + rest)
  }

  lemma JoinedNone(r: Result<seq<seq<Byte>>, Error>)
    ensures Joined([], r) == r
  {
    if r.Ok? { assert [] + r.value == r.value; }
  }

  /** What is read is a list beginning with a unit exactly when it begins with that unit and goes on as the rest. */
  lemma JoinedIs(unit: seq<Byte>, r: Result<seq<seq<Byte>>, Error>, first: seq<Byte>, rest: seq<seq<Byte>>)
    ensures Joined([unit], r) == Ok([first] + rest) <==> unit == first && r == Ok(rest)
  {
    if Joined([unit], r) == Ok([first] + rest) {
      assert ([unit] + r.value)[0] == ([first] + rest)[0];
      assert ([unit] + r.value)[1..] == r.value && ([first] + rest)[1..] == rest;
    }
  }

  lemma JoinedOne(units: seq<seq<Byte>>, unit: seq<Byte>, r: Result<seq<seq<Byte>>, Error>)
    ensures Joined(units, Joined([unit], r)) == Joined(units + [unit], r)
  {
    if r.Ok? { assert units + ([unit] + r.value) == units + [unit] + r.value; }
  }

  method ReadUnits(data: seq<Byte>) returns (r: Result<seq<seq<Byte>>, Error>)
    ensures r == ReadFrom(data, 0)
  {
    var at: nat, units: seq<seq<Byte>> := 0, [];
    JoinedNone(ReadFrom(data, 0));
    while at < |data|
      invariant ReadFrom(data, 0) == Joined(units, ReadFrom(data, at))
      decreases |data| - at
    {
      if at + 4 > |data| { return Err(Truncated); }
      var length := WordOf(Little, data[at..at + 4]);
      at := at + 4;
      var unit := Slice(data, at, at + length);
      JoinedOne(units, unit, ReadFrom(data, at + length));
      units := units + [unit];
      at := at + length;
    }
    assert units + [] == units;
    return Ok(units);
  }

  /** The bytes of the records. */
  function Bodies(records: seq<Record>): (b: seq<seq<Byte>>)
    ensures |b| == |records|
  {
    if records == [] then [] else [records[0].bytes] + Bodies(records[1..])
  }

  /** Records whose lengths are never less than their bytes, as a slice's never is. */
  predicate NoneOver(records: seq<Record>) {
    forall k :: 0 <= k < |records| ==> |records[k].bytes| <= records[k].length
  }

  /** Every record but the last has all the bytes its length says. */
  predicate AllButLastWhole(records: seq<Record>) {
    forall k :: 0 <= k < |records| - 1 ==> |records[k].bytes| == records[k].length
  }

  /** A file reads back as the records written to it exactly when only the last may be short. */
  lemma {:induction false} ReadsBackExactlyWhen(before: seq<Byte>, records: seq<Record>)
    requires NoneOver(records)
    ensures ReadFrom(before + Written(records), |before|) == Ok(Bodies(records)) <==> AllButLastWhole(records)
    decreases |records|
  {
    hide Word, WordOf;
    if records != [] {
      var r, rest := records[0], records[1..];
      var head := before + Word(Little, r.length);
      assert before + Written(records) == head + (r.bytes + Written(rest));
      FirstRecord(before, r, Written(rest));
      var at := |before| + 4;
      var data := before + Written(records);
      JoinedIs(Slice(data, at, at + r.length), ReadFrom(data, at + r.length), r.bytes, Bodies(rest));
      hide ReadFrom, Joined, Slice;
      if |r.bytes| == r.length {
        assert before + Written(records) == (head + r.bytes) + Written(rest);
        ReadsBackExactlyWhen(head + r.bytes, rest);
        WholeTail(records);
      } else if rest == [] {
        assert Bodies(records) == [r.bytes];
      } else {
        assert Written(rest) == Word(Little, rest[0].length) + (rest[0].bytes + Written(rest[1..]));
      }
    }
  }

  lemma Regrouped(a: seq<Byte>, b: seq<Byte>, c: seq<Byte>, d: seq<Byte>, e: seq<Byte>)
    ensures a + (b + c + d) + e == a + b + (c + (d + e)) == a + b + c + d + e
  {
  }

  /** Whole records followed by less than a length do not read at all. */
  lemma {:induction false} ShortEndIsTruncated(before: seq<Byte>, records: seq<Record>, end: seq<Byte>)
    requires 0 < |end| < 4 && forall k :: 0 <= k < |records| ==> |records[k].bytes| == records[k].length
    ensures ReadFrom(before + Written(records) + end, |before|) == Err(Truncated)
    decreases |records|
  {
    hide Word, WordOf;
    if records == [] {
      assert before + Written(records) + end == before + end;
    } else {
      var r, rest := records[0], records[1..];
      var head := before + Word(Little, r.length);
      var w := Written(rest);
      assert Written(records) == Word(Little, r.length) + r.bytes + w;
      hide Written, ReadFrom, Slice;
      Regrouped(before, Word(Little, r.length), r.bytes, w, end);
      FirstRecord(before, r, w + end);
      ShortEndIsTruncated(head + r.bytes, rest, end);
    }
  }

  /** What reading the first record gives: its own bytes when they are whole or nothing follows, else more. */
  lemma FirstRecord(before: seq<Byte>, r: Record, after: seq<Byte>)
    requires |r.bytes| <= r.length
    ensures var data := before + Word(Little, r.length) + (r.bytes + after);
            var at := |before| + 4;
            var unit := Slice(data, at, at + r.length);
            && ReadFrom(data, |before|) == Joined([unit], ReadFrom(data, at + r.length))
            && (|r.bytes| == r.length || after == [] ==> unit == r.bytes)
            && (|r.bytes| < r.length && after != [] ==> |unit| > |r.bytes|)
            && (|r.bytes| < r.length && after == [] ==> ReadFrom(data, at + r.length) == Ok([]))
  {
    var data := before + Word(Little, r.length) + (r.bytes + after);
    var at := |before| + 4;
    WordBack(Little, r.length);
    assert data[|before|..at] == Word(Little, r.length);
    assert data[at..] == r.bytes + after;
    hide Word, WordOf;
    if |r.bytes| == r.length || after == [] {
      assert data[at..at + |r.bytes|] == r.bytes;
    }
  }

  lemma WholeTail(records: seq<Record>)
    requires records != [] && |records[0].bytes| == records[0].length
    ensures AllButLastWhole(records) <==> AllButLastWhole(records[1..])
  {
    if AllButLastWhole(records[1..]) {
      forall k | 0 <= k < |records| - 1 ensures |records[k].bytes| == records[k].length {
        if k > 0 { assert records[k] == records[1..][k - 1]; }
      }
    }
  }

  // Splitting a byte stream.

  /** The records a stream's units make. */
  function RecordsOf(units: seq<seq<Byte>>): (r: seq<Record>)
    requires forall k :: 0 <= k < |units| ==> |units[k]| < WORD
    ensures |r| == |units| && NoneOver(r) && AllButLastWhole(r)
  {
    seq(|units|, k requires 0 <= k < |units| => Record(|units[k]|, units[k]))
  }

  lemma {:induction false} BodiesOfUnits(units: seq<seq<Byte>>)
    requires forall k :: 0 <= k < |units| ==> |units[k]| < WORD
    ensures Bodies(RecordsOf(units)) == units
    decreases |units|
  {
    if units != [] {
      BodiesOfUnits(units[1..]);
      assert RecordsOf(units)[1..] == RecordsOf(units[1..]);
    }
  }

  /** What a stream is split into, or why it is not. */
  ghost function Split(data: seq<Byte>, codec: Codec): Result<seq<seq<Byte>>, Error> {
    EachDelimiterOpensOneUnit(data, codec);
    var starts := Starts(data, codec);
    var units := UnitsFrom(data, starts, 0);
    if !Closed(data) then Err(NoByteAfterCode)
    else if starts == [] then Err(NoDelimiters)
    else if exists k :: 0 <= k < |units| && |units[k]| >= WORD then Err(TooLong)
    else Ok(units)
  }

  ghost predicate EndsInCode(data: seq<Byte>) { exists i: nat :: CodeAt(data, i) && i + 3 == |data| }

  ghost predicate NoneDelimits(data: seq<Byte>, codec: Codec) { forall i: nat :: !DelimiterAt(data, codec, i) }

  lemma OpenOnlyAtTheEnd(data: seq<Byte>)
    ensures Closed(data) <==> !EndsInCode(data)
  {
    hide CodeAt;
    forall i: nat | CodeAt(data, i) ensures i + 3 <= |data| { NoCodeInside(data, i, i); }
  }

  lemma NoStarts(data: seq<Byte>, codec: Codec)
    ensures Starts(data, codec) == [] <==> NoneDelimits(data, codec)
  {
    hide DelimiterAt, Delimiters, StartsFrom;
    DelimitersAreAll(data, codec, 0);
    var d := Delimiters(data, codec, 0);
    if d != [] { assert DelimiterAt(data, codec, d[0]); }
  }

  /**
    * Splitting fails for a start code at the very end exactly when there is one, and else for want of delimiters
    * exactly when there are none.
    */
  lemma SplitExactlyWhen(data: seq<Byte>, codec: Codec)
    ensures Split(data, codec) == Err(NoByteAfterCode) <==> EndsInCode(data)
    ensures Split(data, codec) == Err(NoDelimiters) <==> !EndsInCode(data) && NoneDelimits(data, codec)
  {
    EachDelimiterOpensOneUnit(data, codec);
    hide EndsInCode, NoneDelimits, Closed, Starts, Delimiters;
    OpenOnlyAtTheEnd(data);
    NoStarts(data, codec);
  }

  /** A clip written from a stream reads back as the stream's units, which make up the stream from the first on. */
  lemma SplitReadsBack(data: seq<Byte>, codec: Codec)
    requires Split(data, codec).Ok?
    ensures var units, starts := Split(data, codec).value, Starts(data, codec);
            && starts != [] && starts[0] <= |data|
            && Concat(units) == data[starts[0]..]
            && ReadFrom(Written(RecordsOf(units)), 0) == Ok(units)
  {
    hide Starts, ReadFrom, RecordsOf;
    EachDelimiterOpensOneUnit(data, codec);
    var units, starts := Split(data, codec).value, Starts(data, codec);
    UnitsMakeTheStream(data, starts, 0);
    ReadsBackExactlyWhen([], RecordsOf(units));
    BodiesOfUnits(units);
    assert [] + Written(RecordsOf(units)) == Written(RecordsOf(units));
  }

  /** Where the units of a stream begin, found start code by start code. */
  method FindStarts(data: seq<Byte>, codec: Codec) returns (r: Result<seq<nat>, Error>)
    ensures r == if Closed(data) then Ok(Starts(data, codec)) else Err(NoByteAfterCode)
  {
    hide CodeAt, StartOf, StartsFrom, Delimits, Find;
    var at: nat, starts: seq<nat> := 0, [];
    while true
      invariant at <= |data| && starts + StartsFrom(data, codec, at) == StartsFrom(data, codec, 0)
      invariant forall i :: 0 <= i < at && CodeAt(data, i) ==> i + 3 < |data|
      decreases |data| - at
    {
      var i := Find(data, at);
      NextStart(data, codec, at, starts);
      if i == |data| {
        NoneLeft(data, at);
        return Ok(starts);
      }
      NoCodeInside(data, i, i + 1);
      NoCodeInside(data, i, i + 2);
      if i + 3 == |data| { return Err(NoByteAfterCode); }
      if Delimits(codec, data[i + 3]) {
        starts := starts + [StartOf(data, i)];
      }
      at := i + 3;
    }
  }

  lemma NextStart(data: seq<Byte>, codec: Codec, at: nat, starts: seq<nat>)
    requires at <= |data|
    ensures var i := Find(data, at);
            && (i == |data| ==> starts + StartsFrom(data, codec, at) == starts)
            && (i < |data| ==>
                  && i + 3 <= |data|
                  && starts + StartsFrom(data, codec, at)
                     == (if i + 3 < |data| && Delimits(codec, data[i + 3]) then starts + [StartOf(data, i)] else starts)
                        + StartsFrom(data, codec, i + 3))
  {
    hide CodeAt, StartOf, Find, Delimits;
    var i := Find(data, at);
    NoCodeInside(data, i, i);
    if i < |data| {
      var rest := StartsFrom(data, codec, i + 3);
      assert starts + ([StartOf(data, i)] + rest) == starts + [StartOf(data, i)] + rest;
    }
  }

  lemma NoneLeft(data: seq<Byte>, at: nat)
    requires at <= |data| && Find(data, at) == |data|
    ensures forall i :: at <= i ==> !CodeAt(data, i)
  {
  }

  /** The units of a stream written out, every one after the number of its bytes. */
  method AnnexB(data: seq<Byte>, codec: Codec) returns (r: Result<seq<Byte>, Error>)
    ensures r.Ok? <==> Split(data, codec).Ok?
    ensures r.Ok? ==> r.value == Written(RecordsOf(Split(data, codec).value))
    ensures r.Err? ==> r.error == Split(data, codec).error
  {
    hide Starts, Closed, RecordsOf;
    EachDelimiterOpensOneUnit(data, codec);
    var found := FindStarts(data, codec);
    if found.Err? { return Err(found.error); }
    var starts := found.value;
    if starts == [] { return Err(NoDelimiters); }
    r := WriteUnits(data, starts);
  }

  method WriteUnits(data: seq<Byte>, starts: seq<nat>) returns (r: Result<seq<Byte>, Error>)
    requires Upwards(data, starts)
    ensures var units := UnitsFrom(data, starts, 0);
            if exists k :: 0 <= k < |units| && |units[k]| >= WORD then r == Err(TooLong)
            else r == Ok(Written(RecordsOf(units)))
  {
    hide Word;
    ghost var units := UnitsFrom(data, starts, 0);
    var out: seq<Byte> := [];
    ghost var records: seq<Record> := [];
    for k := 0 to |starts|
      invariant |records| == k && out == Written(records)
      invariant forall j :: 0 <= j < k ==> |units[j]| < WORD && records[j] == Record(|units[j]|, units[j])
    {
      var a, b := starts[k], EndOf(data, starts, k);
      UnitAt(data, starts, 0, k);
      if b - a >= WORD { return Err(TooLong); }
      WrittenMore(records, Record(b - a, data[a..b]));
      records := records + [Record(b - a, data[a..b])];
      out := out + Word(Little, b - a) + data[a..b];
    }
    assert records == RecordsOf(units);
    return Ok(out);
  }

  lemma {:induction false} UnitAt(data: seq<Byte>, starts: seq<nat>, from: nat, k: nat)
    requires Upwards(data, starts) && from <= k < |starts|
    ensures UnitsFrom(data, starts, from)[k - from] == data[starts[k]..EndOf(data, starts, k)]
    decreases k - from
  {
    hide EndOf;
    if from < k {
      UnitAt(data, starts, from + 1, k);
      assert UnitsFrom(data, starts, from)[k - from] == UnitsFrom(data, starts, from + 1)[k - from - 1];
    }
  }

  lemma {:induction false} WrittenMore(records: seq<Record>, last: Record)
    ensures Written(records + [last]) == Written(records) + Word(Little, last.length) + last.bytes
    decreases |records|
  {
    hide Word;
    if records == [] {
      assert [last][1..] == [];
    } else {
      assert (records + [last])[1..] == records[1..] + [last];
      WrittenMore(records[1..], last);
    }
  }

  // Cutting a dump by its index.

  function CutRecords(data: seq<Byte>, lengths: seq<U32>, at: nat): (r: seq<Record>)
    ensures |r| == |lengths|
    decreases |lengths|
  {
    if lengths == [] then []
    else [Record(lengths[0], Slice(data, at, at + lengths[0]))] + CutRecords(data, lengths[1..], at + lengths[0])
  }

  function Sum(lengths: seq<U32>): nat
  {
    if lengths == [] then 0 else lengths[0] + Sum(lengths[1..])
  }

  lemma {:induction false} RecordOfCut(data: seq<Byte>, lengths: seq<U32>, at: nat, k: nat)
    requires k < |lengths|
    ensures var r := CutRecords(data, lengths, at)[k];
            && r.length == lengths[k] && |r.bytes| <= r.length
            && (|r.bytes| == r.length <==> lengths[k] == 0 || at + Sum(lengths[..k]) + lengths[k] <= |data|)
    decreases |lengths|
  {
    if k > 0 {
      RecordOfCut(data, lengths[1..], at + lengths[0], k - 1);
      assert lengths[..k][1..] == lengths[1..][..k - 1];
    }
  }

  /** Each record of a cut has the dump's bytes from where the ones before it end, as many as there are. */
  lemma {:induction false} CutInOrder(data: seq<Byte>, lengths: seq<U32>, at: nat, k: nat, i: nat)
    requires k < |lengths| && i < lengths[k]
    ensures var r, from := CutRecords(data, lengths, at)[k], at + Sum(lengths[..k]);
            && (i < |r.bytes| <==> from + i < |data|)
            && (i < |r.bytes| ==> r.bytes[i] == data[from + i])
    decreases |lengths|
  {
    if k > 0 {
      CutInOrder(data, lengths[1..], at + lengths[0], k - 1, i);
      assert lengths[..k][1..] == lengths[1..][..k - 1];
    }
  }

  /** A cut dump reads back as its slices exactly when no length but the last reaches past the dump's end. */
  lemma CutReadsBackExactlyWhen(data: seq<Byte>, lengths: seq<U32>)
    ensures var records := CutRecords(data, lengths, 0);
            ReadFrom(Written(records), 0) == Ok(Bodies(records))
            <==> forall k :: 0 <= k < |lengths| - 1 ==> lengths[k] == 0 || Sum(lengths[..k]) + lengths[k] <= |data|
  {
    hide ReadFrom, CutRecords, Sum;
    var records := CutRecords(data, lengths, 0);
    forall k | 0 <= k < |lengths|
      ensures |records[k].bytes| <= records[k].length
      ensures |records[k].bytes| == records[k].length <==> lengths[k] == 0 || Sum(lengths[..k]) + lengths[k] <= |data|
    {
      RecordOfCut(data, lengths, 0, k);
    }
    ReadsBackExactlyWhen([], records);
    assert [] + Written(records) == Written(records);
  }

  /** An index that asks a one-byte dump for two bytes and then one more is cut into a clip that misreads. */
  lemma ShortDumpMisreads()
    ensures var records := CutRecords([7], [2, 1], 0);
            ReadFrom(Written(records), 0) != Ok(Bodies(records))
  {
    CutReadsBackExactlyWhen([7], [2, 1]);
    var lengths: seq<U32> := [2, 1];
    assert lengths[..0] == [] && Sum(lengths[..0]) == 0 && lengths[0] == 2;
  }

  /** The first so many of an index; a negative number leaves that many off its end. */
  function FirstOf(index: seq<int>, count: int): seq<int> {
    if count >= |index| then index
    else if count >= 0 then index[..count]
    else if |index| + count >= 0 then index[..|index| + count]
    else []
  }

  /** The units cut are a first part of the index: so many of it, or all but so many. */
  lemma FirstOfIsPrefix(index: seq<int>, count: int)
    ensures FirstOf(index, count) <= index
    ensures count >= 0 ==> |FirstOf(index, count)| == if count < |index| then count else |index|
    ensures count < 0 ==> |FirstOf(index, count)| == if |index| + count > 0 then |index| + count else 0
  {
  }

  /** Cut the first `count` units of a dump. */
  method Cut(data: seq<Byte>, index: seq<int>, count: int) returns (r: Result<seq<Byte>, Error>)
    ensures var asked := FirstOf(index, count);
            if exists k :: 0 <= k < |asked| && !(0 <= asked[k] < WORD) then r == Err(TooLong)
            else r == Ok(Written(CutRecords(data, asked, 0)))
  {
    hide Word, Slice;
    var asked := FirstOf(index, count);
    var at: nat, out: seq<Byte> := 0, [];
    ghost var done: seq<U32>, records: seq<Record> := [], [];
    for k := 0 to |asked|
      invariant |done| == |records| == k && out == Written(records)
      invariant forall j :: 0 <= j < k ==> 0 <= asked[j] < WORD && done[j] == asked[j]
      invariant records == CutRecords(data, done, 0) && at == Sum(done)
    {
      var length := asked[k];
      if !(0 <= length < WORD) { return Err(TooLong); }
      CutMore(data, done, 0, length);
      WrittenMore(records, Record(length, Slice(data, at, at + length)));
      records := records + [Record(length, Slice(data, at, at + length))];
      done := done + [length];
      out := out + Word(Little, length) + Slice(data, at, at + length);
      at := at + length;
    }
    assert done == asked;
    return Ok(out);
  }

  lemma {:induction false} CutMore(data: seq<Byte>, lengths: seq<U32>, at: nat, last: U32)
    ensures Sum(lengths + [last]) == Sum(lengths) + last
    ensures CutRecords(data, lengths + [last], at)
         == CutRecords(data, lengths, at) + [Record(last, Slice(data, at + Sum(lengths), at + Sum(lengths) + last))]
    decreases |lengths|
  {
    hide Slice;
    if lengths == [] {
      assert [last][1..] == [];
    } else {
      assert (lengths + [last])[1..] == lengths[1..] + [last];
      CutMore(data, lengths[1..], at + lengths[0], last);
    }
  }
}
