/** Cutting a stream of sound, however it is delivered, into frames of one size. */
module FrameAssembly {
  import opened Common

  /** 960 samples a channel, two channels, two bytes a sample. */
  const FRAME_BYTES: nat := 3840

  /** A stream cut every `FRAME_BYTES`, what is left over apart. */
  function Chunks(stream: seq<Byte>): seq<seq<Byte>> {
    if |stream| < FRAME_BYTES then [] else [stream[..FRAME_BYTES]] + Chunks(stream[FRAME_BYTES..])
  }

  function Rest(stream: seq<Byte>): seq<Byte> {
    if |stream| < FRAME_BYTES then stream else Rest(stream[FRAME_BYTES..])
  }

  ghost predicate WholeFrames(frames: seq<seq<Byte>>) {
    forall k :: 0 <= k < |frames| ==> |frames[k]| == FRAME_BYTES
  }

  /** Whole frames and a short rest are determined by the stream they make up. */
  lemma {:induction false} OneWayToCut(frames: seq<seq<Byte>>, rest: seq<Byte>)
    requires WholeFrames(frames) && |rest| < FRAME_BYTES
    ensures Chunks(Concat(frames) + rest) == frames && Rest(Concat(frames) + rest) == rest
    decreases |frames|
  {
    var stream := Concat(frames) + rest;
    if frames == [] {
      assert stream == rest;
    } else {
      assert stream[..FRAME_BYTES] == frames[0];
      assert stream[FRAME_BYTES..] == Concat(frames[1..]) + rest;
      OneWayToCut(frames[1..], rest);
    }
  }

  /** The reassembly; `handed` is what the sink has been given. */
  class Frames {
    var partial: seq<Byte>
    var handed: seq<seq<Byte>>

    ghost predicate Valid()
      reads this
    {
      |partial| < FRAME_BYTES && WholeFrames(handed)
    }

    /** Every byte taken so far. */
    ghost function Stream(): seq<Byte>
      reads this
    {
      Concat(handed) + partial
    }

    constructor ()
      ensures Valid() && handed == [] && partial == []
    {
      partial, handed := [], [];
    }

    /** Take in a fragment; the partial frame is topped up from it, and passed on whenever it is full. */
    method Take(fragment: seq<Byte>)
      requires Valid()
      modifies this
      ensures Valid() && Stream() == old(Stream()) + fragment && old(handed) <= handed
    {
      var left := fragment;
      while left != []
        invariant Valid() && Stream() + left == old(Stream()) + fragment && old(handed) <= handed
        decreases |left|
      {
        var want := FRAME_BYTES - |partial|;
        var cut := if want < |left| then want else |left|;
        ghost var before := Stream();
        partial := partial + left[..cut];
        assert Concat(handed) + partial == before + left[..cut];
        if |partial| == FRAME_BYTES {
          ConcatAppend(handed, partial);
          handed := handed + [partial];
          partial := [];
        }
        assert Stream() == before + left[..cut];
        left := left[cut..];
      }
    }
  }

  /**
    * Any fragments, taken in order, become exactly the frames of the stream they are cut from, and what is held
    * is its rest: two fragmentations of one stream give the same frames.
    */
  method Assemble(fragments: seq<seq<Byte>>) returns (frames: seq<seq<Byte>>, held: seq<Byte>)
    ensures frames == Chunks(Concat(fragments)) && held == Rest(Concat(fragments))
    ensures Concat(frames) + held == Concat(fragments) && |held| < FRAME_BYTES && WholeFrames(frames)
  {
    var state := new Frames();
    for k := 0 to |fragments|
      invariant state.Valid() && state.Stream() == Concat(fragments[..k])
    {
      state.Take(fragments[k]);
      ConcatAppend(fragments[..k], fragments[k]);
      assert fragments[..k + 1] == fragments[..k] + [fragments[k]];
    }
    assert fragments[..|fragments|] == fragments;
    OneWayToCut(state.handed, state.partial);
    return state.handed, state.partial;
  }
}
