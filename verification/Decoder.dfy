/** Decoding a peer's sound with a codec that may refuse a packet or not return from it. */
module SoundDecoder {
  import opened Common

  /** What the codec makes of a packet: its next state and the sound, its next state alone, or no return. */
  datatype Outcome<S> = Done(state: S, frames: nat, sample: nat -> real) | Rejected(state: S) | Panic

  /** A codec: how one is made for a number of channels, and what it does with a packet and a room. */
  datatype Codec<!S> = Codec(build: nat -> Option<S>, step: (S, seq<Byte>, nat) -> Outcome<S>)

  datatype Error = Encode

  datatype Packet = Packet(payload: seq<Byte>, compressed: bool, room: nat)

  datatype State<S> = State(inner: Option<S>, refused: nat, panicked: nat)

  datatype Reply = Frames(frames: nat) | Refused | Lost

  /** A packet the codec is asked to read. */
  predicate Fed(p: Packet) { p.compressed && p.payload != [] }

  /** Whether uncompressed bytes are whole frames that there is room for. */
  predicate Whole(p: Packet, channels: nat)
    requires channels > 0
  {
    var samples := |p.payload| / 2;
    samples / channels <= p.room && (samples / channels) * channels == samples
  }

  function Least(a: nat, b: nat): nat { if a < b then a else b }

  function Step<S>(codec: Codec<S>, channels: nat, s: State<S>, p: Packet): (State<S>, Reply)
    requires channels > 0
  {
    var worse := s.(refused := SaturatingCount(s.refused + 1));
    if !p.compressed then
      if Whole(p, channels) then (s, Frames(|p.payload| / 2 / channels)) else (worse, Refused)
    else if p.payload == [] then (worse, Refused)
    else
      var taken := if s.inner.Some? then s.inner else codec.build(channels);
      if taken.None? then (worse.(inner := None), Refused)
      else
        match codec.step(taken.value, p.payload, p.room)
        case Done(state, frames, _) => (s.(inner := Some(state)), Frames(Least(frames, p.room)))
        case Rejected(state) => (worse.(inner := Some(state)), Refused)
        case Panic => (worse.(inner := None, panicked := SaturatingCount(s.panicked + 1)), Lost)
  }

  function After<S>(codec: Codec<S>, channels: nat, packets: seq<Packet>): State<S>
    requires channels > 0
  {
    if packets == [] then State(codec.build(channels), 0, 0)
    else Step(codec, channels, After(codec, channels, packets[..|packets| - 1]), packets[|packets| - 1]).0
  }

  function Replies<S>(codec: Codec<S>, channels: nat, packets: seq<Packet>): (r: seq<Reply>)
    requires channels > 0
    ensures |r| == |packets|
  {
    if packets == [] then []
    else
      var before := packets[..|packets| - 1];
      Replies(codec, channels, before)
      + [Step(codec, channels, After(codec, channels, before), packets[|packets| - 1]).1]
  }

  /** The codec state the next packet is read with: the one kept, or a new one. */
  function InUse<S>(codec: Codec<S>, channels: nat, s: State<S>): Option<S> {
    if s.inner.Some? then s.inner else codec.build(channels)
  }

  // The codec state a packet is read with, said of the packets alone.

  /** What feeding packets one after another to a codec state leaves, if it returns from all of them. */
  function Folded<S>(codec: Codec<S>, start: S, packets: seq<Packet>): Option<S> {
    if packets == [] then Some(start)
    else
      var before, last := Folded(codec, start, packets[..|packets| - 1]), packets[|packets| - 1];
      if before.None? || !Fed(last) then before
      else
        var o := codec.step(before.value, last.payload, last.room);
        if o.Panic? then None else Some(o.state)
  }

  /** One past the last packet the codec did not return from. */
  function SinceLost<S>(codec: Codec<S>, channels: nat, packets: seq<Packet>): (k: nat)
    requires channels > 0
    ensures k <= |packets|
  {
    if packets == [] then 0
    else if Replies(codec, channels, packets)[|packets| - 1].Lost? then |packets|
    else SinceLost(codec, channels, packets[..|packets| - 1])
  }

  /**
    * In every run the codec state the next packet is read with is what a new codec becomes from exactly the
    * packets fed since the last one it did not return from; no state a panic passed through is read again.
    */
  lemma {:induction false} InUseIsFoldSinceLost<S>(codec: Codec<S>, channels: nat, packets: seq<Packet>)
    requires channels > 0 && codec.build(channels).Some?
    ensures var k := SinceLost(codec, channels, packets);
            InUse(codec, channels, After(codec, channels, packets))
            == Folded(codec, codec.build(channels).value, packets[k..])
    decreases |packets|
  {
    if packets != [] {
      var n := |packets| - 1;
      var k := SinceLost(codec, channels, packets[..n]);
      InUseIsFoldSinceLost(codec, channels, packets[..n]);
      if Replies(codec, channels, packets)[n].Lost? {
        assert packets[|packets|..] == [];
      } else {
        assert packets[k..][..|packets[k..]| - 1] == packets[..n][k..];
      }
    }
  }

  /** Packets that were not fed leave the codec alone. */
  lemma UnfedLeavesTheCodec<S>(codec: Codec<S>, channels: nat, s: State<S>, p: Packet)
    requires channels > 0 && !Fed(p)
    ensures Step(codec, channels, s, p).0.inner == s.inner
  {
  }

  /** A run that begins after a lost packet answers as a new decoder does: what came before is forgotten. */
  lemma {:induction false} LostForgetsTheRest<S>(codec: Codec<S>, channels: nat, past: seq<Packet>,
                                                 packets: seq<Packet>)
    requires channels > 0 && codec.build(channels).Some?
    requires past != [] && Replies(codec, channels, past)[|past| - 1].Lost?
    ensures InUse(codec, channels, After(codec, channels, past + packets))
         == InUse(codec, channels, After(codec, channels, packets))
    ensures Replies(codec, channels, past + packets)
         == Replies(codec, channels, past) + Replies(codec, channels, packets)
    decreases |packets|
  {
    hide Step;
    if packets == [] {
      assert past + packets == past;
      LostLeavesNone(codec, channels, past);
    } else {
      var n := |packets| - 1;
      LostForgetsTheRest(codec, channels, past, packets[..n]);
      assert (past + packets)[..|past + packets| - 1] == past + packets[..n];
      SameCodecSameReply(codec, channels, After(codec, channels, past + packets[..n]),
                         After(codec, channels, packets[..n]), packets[n]);
    }
  }

  lemma LostLeavesNone<S>(codec: Codec<S>, channels: nat, past: seq<Packet>)
    requires channels > 0 && past != [] && Replies(codec, channels, past)[|past| - 1].Lost?
    ensures After(codec, channels, past).inner.None?
  {
  }

  lemma SameCodecSameReply<S>(codec: Codec<S>, channels: nat, s: State<S>, t: State<S>, p: Packet)
    requires channels > 0 && InUse(codec, channels, s) == InUse(codec, channels, t)
    ensures Step(codec, channels, s, p).1 == Step(codec, channels, t, p).1
    ensures InUse(codec, channels, Step(codec, channels, s, p).0)
         == InUse(codec, channels, Step(codec, channels, t, p).0)
  {
  }

  // The counters.

  /** What a packet fed to the codec is answered: the codec's frames, or the room if that is less; or its failure. */
  lemma FedIsAnsweredByTheCodec<S>(codec: Codec<S>, channels: nat, s: State<S>, p: Packet)
    requires channels > 0 && Fed(p)
    ensures var (n, reply) := Step(codec, channels, s, p);
            match InUse(codec, channels, s)
            case None => reply == Refused && n.inner == None
            case Some(state) =>
              match codec.step(state, p.payload, p.room)
              case Done(after, frames, _) =>
                && n.inner == Some(after) && reply.Frames? && reply.frames <= frames && reply.frames <= p.room
                && (reply.frames == frames || reply.frames == p.room)
              case Rejected(after) => n.inner == Some(after) && reply == Refused
              case Panic => n.inner == None && reply == Lost
  {
  }

  lemma StepCounts<S>(codec: Codec<S>, channels: nat, s: State<S>, p: Packet)
    requires channels > 0
    ensures var (n, reply) := Step(codec, channels, s, p);
            && n.refused == (if reply.Frames? then s.refused else SaturatingCount(s.refused + 1))
            && n.panicked == (if reply.Lost? then SaturatingCount(s.panicked + 1) else s.panicked)
            && (!p.compressed ==> n.inner == s.inner && !reply.Lost? && (reply.Frames? <==> Whole(p, channels)))
            && (!p.compressed && reply.Frames? ==> reply.frames == |p.payload| / 2 / channels)
  {
    hide Whole;
  }

  /** Uncompressed bytes are taken exactly when, but for an odd one left over, they are whole frames that fit. */
  lemma WholeExactlyWhen(p: Packet, channels: nat)
    requires channels > 0
    ensures Whole(p, channels) <==> exists frames: nat :: frames <= p.room && IsFrames(p.payload, frames, channels)
  {
    var samples := |p.payload| / 2;
    if Whole(p, channels) {
      assert IsFrames(p.payload, samples / channels, channels);
    }
    if frames: nat :| frames <= p.room && IsFrames(p.payload, frames, channels) {
      assert samples == frames * channels;
      QuotientIs(samples, channels, frames);
    }
  }

  predicate IsFrames(payload: seq<Byte>, frames: nat, channels: nat) {
    2 * (frames * channels) <= |payload| <= 2 * (frames * channels) + 1
  }

  function Failures(replies: seq<Reply>): nat {
    if replies == [] then 0
    else Failures(replies[..|replies| - 1]) + if replies[|replies| - 1].Frames? then 0 else 1
  }

  function Losses(replies: seq<Reply>): nat {
    if replies == [] then 0
    else Losses(replies[..|replies| - 1]) + if replies[|replies| - 1].Lost? then 1 else 0
  }

  /** The counters count exactly the packets refused and, of those, the ones lost, until they are full. */
  lemma {:induction false} CountersCount<S>(codec: Codec<S>, channels: nat, packets: seq<Packet>)
    requires channels > 0
    ensures var s, r := After(codec, channels, packets), Replies(codec, channels, packets);
            s.refused == SaturatingCount(Failures(r)) && s.panicked == SaturatingCount(Losses(r))
    decreases |packets|
  {
    if packets != [] {
      var n := |packets| - 1;
      hide Step;
      StepCounts(codec, channels, After(codec, channels, packets[..n]), packets[n]);
      CountersCount(codec, channels, packets[..n]);
      assert Replies(codec, channels, packets)[..n] == Replies(codec, channels, packets[..n]);
    }
  }

  // Samples.

  type Sample = v: int | -0x8000 <= v < 0x8000

  /** A little-endian pair of bytes as a sample. */
  function Pair(low: Byte, high: Byte): (s: Sample)
    ensures s == low + 256 * high || s == low + 256 * high - 0x1_0000
  {
    var v := low + 256 * high;
    if v < 0x8000 then v else v - 0x1_0000
  }

  function Low(v: Sample): Byte { if v >= 0 then v % 256 else (v + 0x1_0000) % 256 }
  function High(v: Sample): Byte { if v >= 0 then v / 256 else (v + 0x1_0000) / 256 }

  function Samples(payload: seq<Byte>): (s: seq<Sample>)
    ensures |s| == |payload| / 2
    ensures forall i :: 0 <= i < |s| ==> s[i] == Pair(payload[2 * i], payload[2 * i + 1])
  {
    seq(|payload| / 2, i requires 0 <= i < |payload| / 2 => Pair(payload[2 * i], payload[2 * i + 1]))
  }

  function Bytes(samples: seq<Sample>): (b: seq<Byte>)
    ensures |b| == 2 * |samples|
  {
    seq(2 * |samples|, i requires 0 <= i < 2 * |samples| =>
          if i % 2 == 0 then Low(samples[i / 2]) else High(samples[i / 2]))
  }

  /** Writing samples as bytes and taking them back is no change. */
  lemma SamplesPassThrough(samples: seq<Sample>)
    ensures Samples(Bytes(samples)) == samples
  {
    hide Pair, Low, High;
    var b := Bytes(samples);
    forall i | 0 <= i < |samples| ensures Samples(b)[i] == samples[i] {
      assert 2 * i / 2 == i && (2 * i + 1) / 2 == i && 2 * i % 2 == 0 && (2 * i + 1) % 2 == 1;
      assert b[2 * i] == Low(samples[i]) && b[2 * i + 1] == High(samples[i]);
      PairOfHalves(samples[i]);
    }
  }

  lemma PairOfHalves(v: Sample)
    ensures Pair(Low(v), High(v)) == v
  {
  }

  function Truncated(r: real): int { if r >= 0.0 then r.Floor else -((-r).Floor) }

  /** A float scaled to a sample: 32767 times it, less what is after the point, within the sample's range. */
  function ToSample(value: real): (v: Sample)
    ensures value >= 1.0 ==> v == 0x7FFF
    ensures 0.0 <= value <= 1.0 ==> v as real <= 32767.0 * value < v as real + 1.0
    ensures -32768.0 <= 32767.0 * value <= 0.0 ==> v as real - 1.0 < 32767.0 * value <= v as real
    ensures 32767.0 * value <= -32768.0 ==> v == -0x8000
  {
    var scaled := value * 32767.0;
    var clamped := if scaled < -32768.0 then -32768.0 else if scaled > 32767.0 then 32767.0 else scaled;
    Truncated(clamped)
  }

  // The decoder itself.

  class Decoder<S> {
    const codec: Codec<S>
    const channels: nat
    const capacity: nat
    const scratch: array<real>
    var inner: Option<S>
    var refused: nat
    var panicked: nat

    ghost predicate Valid()
      reads this
    {
      channels > 0 && scratch.Length == capacity * channels && refused <= U64_MAX && panicked <= U64_MAX
    }

    ghost function Now(): State<S>
      reads this
    {
      State(inner, refused, panicked)
    }

    /** The constructor's work once the codec has been made. */
    constructor Around(codec: Codec<S>, made: S, channels: nat, capacity: nat)
      requires channels > 0 && codec.build(channels) == Some(made)
      ensures Valid() && this.codec == codec && this.channels == channels && this.capacity == capacity
      ensures Now() == After(codec, channels, []) && fresh(scratch)
    {
      this.codec := codec;
      this.channels := channels;
      this.capacity := capacity;
      scratch := new real[capacity * channels](_ => 0.0);
      inner := Some(made);
      refused, panicked := 0, 0;
    }

    /** Build one for a peer; the codec makes none for no channels. */
    static method New(codec: Codec<S>, channels: nat, capacity: nat) returns (r: Result<Decoder<S>, Error>)
      requires codec.build(0).None?
      ensures r.Ok? <==> codec.build(channels).Some?
      ensures r.Ok? ==> fresh(r.value) && fresh(r.value.scratch) && r.value.Valid()
      ensures r.Ok? ==> r.value.codec == codec && r.value.channels == channels && r.value.capacity == capacity
      ensures r.Ok? ==> r.value.Now() == After(codec, channels, [])
    {
      var made := codec.build(channels);
      if made.None? { return Err(Encode); }
      var d := new Decoder.Around(codec, made.value, channels, capacity);
      return Ok(d);
    }

    /** The room a packet may fill. */
    function Room(length: nat): nat
      requires channels > 0
    {
      Least(length / channels, capacity)
    }

    lemma RoomFitsHere(frames: nat, length: nat)
      requires Valid() && frames <= Room(length)
      ensures frames * channels <= length && frames * channels <= scratch.Length
    {
      RoomFits(frames, length, channels, capacity);
    }

    /** Decode one packet into `out`; what it answers says how much of `out` it wrote. */
    method Decode(payload: seq<Byte>, compressed: bool, out: array<Sample>) returns (r: Result<nat, Error>)
      requires Valid()
      modifies this`inner, this`refused, this`panicked, scratch, out
      ensures Valid()
      ensures var p := Packet(payload, compressed, Room(out.Length));
              var (s, reply) := Step(codec, channels, old(Now()), p);
              && Now() == s
              && r == if reply.Frames? then Ok(reply.frames) else Err(Encode)
      ensures r.Ok? ==> r.value * channels <= out.Length
      ensures r.Ok? && !compressed ==> out[..r.value * channels] == Samples(payload)
      ensures r.Ok? && compressed ==>
                var o := codec.step(InUse(codec, channels, old(Now())).value, payload, Room(out.Length));
                forall i :: 0 <= i < r.value * channels ==> out[i] == ToSample(o.sample(i))
      ensures forall i :: (if r.Ok? then r.value * channels else 0) <= i < out.Length ==> out[i] == old(out[i])
    {
      hide ToSample, Samples, Step, Whole;
      var room := Room(out.Length);
      StepCounts(codec, channels, Now(), Packet(payload, compressed, room));
      if compressed {
        r := Decompress(payload, out, room);
      } else {
        r := TakeSamples(payload, out, room, channels);
      }
      if r.Err? { refused := SaturatingCount(refused + 1); }
    }

    /** The codec's writing to the scratch. */
    method Write(sample: nat -> real)
      modifies scratch
      ensures forall i :: 0 <= i < scratch.Length ==> scratch[i] == sample(i)
    {
      forall i | 0 <= i < scratch.Length { scratch[i] := sample(i); }
    }

    /** The first samples of the scratch, as the boundary hands them over. */
    method Convert(samples: nat, out: array<Sample>)
      requires samples <= scratch.Length && samples <= out.Length
      modifies out
      ensures forall i :: 0 <= i < samples ==> out[i] == ToSample(scratch[i])
      ensures forall i :: samples <= i < out.Length ==> out[i] == old(out[i])
    {
      hide ToSample;
      for i := 0 to samples
        invariant forall j :: 0 <= j < i ==> out[j] == ToSample(scratch[j])
        invariant forall j :: i <= j < out.Length ==> out[j] == old(out[j])
      {
        out[i] := ToSample(scratch[i]);
      }
    }

    method Decompress(payload: seq<Byte>, out: array<Sample>, room: nat) returns (r: Result<nat, Error>)
      requires Valid() && room == Room(out.Length)
      modifies this`inner, this`panicked, scratch, out
      ensures Valid()
      ensures var (s, reply) := Step(codec, channels, old(Now()), Packet(payload, true, room));
              && Now() == s.(refused := refused)
              && r == if reply.Frames? then Ok(reply.frames) else Err(Encode)
      ensures r.Ok? ==> r.value * channels <= out.Length && InUse(codec, channels, old(Now())).Some?
      ensures r.Ok? ==>
                var o := codec.step(InUse(codec, channels, old(Now())).value, payload, room);
                o.Done? && forall i :: 0 <= i < r.value * channels ==> out[i] == ToSample(o.sample(i))
      ensures forall i :: (if r.Ok? then r.value * channels else 0) <= i < out.Length ==> out[i] == old(out[i])
    {
      hide ToSample, Room;
      if payload == [] { return Err(Encode); }
      var taken := inner;
      inner := None;
      if taken.None? { taken := codec.build(channels); }
      if taken.None? { return Err(Encode); }
      var outcome := codec.step(taken.value, payload, room);
      match outcome {
        case Done(state, produced, sample) =>
          inner := Some(state);
          Write(sample);
          var frames := Least(produced, room);
          var samples := frames * channels;
          RoomFitsHere(frames, out.Length);
          if samples > scratch.Length || samples > out.Length { return Err(Encode); }
          Convert(samples, out);
          return Ok(frames);
        case Rejected(state) =>
          inner := Some(state);
          return Err(Encode);
        case Panic =>
          panicked := SaturatingCount(panicked + 1);
          return Err(Encode);
      }
    }
  }

  /** What fits the room fits the buffer handed in and the codec's own. */
  lemma RoomFits(frames: nat, length: nat, channels: nat, capacity: nat)
    requires channels > 0 && frames <= Least(length / channels, capacity)
    ensures frames * channels <= length && frames * channels <= capacity * channels
  {
    ProductGrows(frames, length / channels, channels);
    ProductGrows(frames, capacity, channels);
    assert (length / channels) * channels <= length;
  }

  /** A payload of sample pairs is put together pair by pair, if it makes whole frames and there is room. */
  method TakeSamples(payload: seq<Byte>, out: array<Sample>, room: nat, channels: nat) returns (r: Result<nat, Error>)
    requires channels > 0 && room <= out.Length / channels
    modifies out
    ensures if Whole(Packet(payload, false, room), channels) then r.Ok? else r == Err(Encode)
    ensures r.Ok? ==> r.value == |payload| / 2 / channels && r.value * channels == |payload| / 2 <= out.Length
    ensures r.Ok? ==> out[..r.value * channels] == Samples(payload)
    ensures forall i :: (if r.Ok? then r.value * channels else 0) <= i < out.Length ==> out[i] == old(out[i])
  {
    var samples := |payload| / 2;
    var frames := samples / channels;
    if frames > room || frames * channels != samples { return Err(Encode); }
    RoomFits(frames, out.Length, channels, frames);
    if samples > out.Length { return Err(Encode); }
    for i := 0 to samples
      invariant forall j :: 0 <= j < i ==> out[j] == Samples(payload)[j]
      invariant forall j :: i <= j < out.Length ==> out[j] == old(out[j])
    {
      out[i] := Pair(payload[2 * i], payload[2 * i + 1]);
    }
    return Ok(frames);
  }
}
