/** The receive ring over the storage lent to it: a flat arena of bodies and a table of slots. */
module ReceiveStorage {
  import opened Common
  import opened ReceiveRing

  datatype SlotMeta = SlotMeta(len: nat, ready: bool)

  const EMPTY := SlotMeta(0, false)

  /** Where a slot's bytes begin in the arena. */
  function Base(slotLen: nat, i: nat): nat { i * slotLen }

  lemma BasesApart(slotLen: nat, i: nat, j: nat)
    ensures i < j ==> Base(slotLen, i) + slotLen <= Base(slotLen, j)
  {
    if i < j {
      ProductGrows(i + 1, j, slotLen);
      assert (i + 1) * slotLen == i * slotLen + slotLen;
    }
  }

  /** Fragments whose lengths make up a number of bytes hold that many. */
  lemma {:induction false} SpannedGathered(r: Ring, cursor: Serial, wanted: nat, count: nat)
    requires r.Made() && Spanned(r, cursor, wanted) == Some(Ok(count))
    ensures |Gathered(r, cursor, count)| == wanted
    decreases count
  {
    if wanted > 0 {
      SpannedGathered(r, Next(cursor), wanted - |r.At(cursor).body|, count - 1);
    }
  }

  /** No slot of a table claims more bytes than a slot has. */
  predicate Fitting(table: seq<SlotMeta>, slotLen: nat) {
    forall i :: 0 <= i < |table| && table[i].ready ==> table[i].len <= slotLen
  }

  class RecvRing {
    const bodies: array<Byte>
    const meta: array<SlotMeta>
    const slotLen: nat
    var delivered: Serial
    var cumulative: Serial
    var highest: Serial

    ghost predicate Valid()
      reads meta
    {
      && 0 < meta.Length && bodies.Length == Base(slotLen, meta.Length)
      && forall i :: 0 <= i < meta.Length && meta[i].ready ==> meta[i].len <= slotLen
    }

    ghost function SlotNow(i: nat): Slot
      reads bodies, meta
      requires Valid() && i < meta.Length
    {
      BasesApart(slotLen, i, meta.Length);
      if meta[i].ready then Full(bodies[Base(slotLen, i)..Base(slotLen, i) + meta[i].len]) else Free
    }

    ghost function Slots(): (s: seq<Slot>)
      reads bodies, meta
      requires Valid()
      ensures |s| == meta.Length && forall i :: 0 <= i < |s| ==> s[i] == SlotNow(i)
    {
      seq(meta.Length, i requires 0 <= i < meta.Length && Valid() reads bodies, meta => SlotNow(i))
    }

    /** The ring the storage stands for. */
    ghost function Now(): (r: Ring)
      reads this, bodies, meta
      requires Valid()
      ensures r.Made()
    {
      Ring(Slots(), slotLen, delivered, cumulative, highest)
    }

    constructor Over(bodies: array<Byte>, meta: array<SlotMeta>, slotLen: nat)
      requires 0 < meta.Length && bodies.Length == Base(slotLen, meta.Length)
      ensures this.bodies == bodies && this.meta == meta && this.slotLen == slotLen
      ensures delivered == cumulative == highest == 0
    {
      this.bodies, this.meta, this.slotLen := bodies, meta, slotLen;
      delivered, cumulative, highest := 0, 0, 0;
    }

    /**
      * A ring over lent storage, if the arena is as large as the slots ask for. It holds what the table says is
      * there: nothing if the table is new, and what an earlier ring left if it was lent before.
      */
    static method New(bodies: array<Byte>, meta: array<SlotMeta>, slotLen: nat) returns (r: Result<RecvRing, Error>)
      ensures r.Ok? <==> slotLen > 0 && meta.Length > 0 && bodies.Length == Base(slotLen, meta.Length)
      ensures r.Err? ==> r.error == BadLength
      ensures r.Ok? ==>
                && fresh(r.value) && r.value.bodies == bodies && r.value.meta == meta && r.value.slotLen == slotLen
                && r.value.delivered == r.value.cumulative == r.value.highest == 0
                && (r.value.Valid() <==> Fitting(meta[..], slotLen))
                && ((forall i :: 0 <= i < meta.Length ==> !meta[i].ready) ==>
                      r.value.Valid() && r.value.Now() == Fresh(meta.Length, slotLen))
    {
      if slotLen == 0 || meta.Length == 0 || bodies.Length != Base(slotLen, meta.Length) { return Err(BadLength); }
      var ring := new RecvRing.Over(bodies, meta, slotLen);
      if forall i :: 0 <= i < meta.Length ==> !meta[i].ready {
        assert ring.Slots() == Fresh(meta.Length, slotLen).slots;
      }
      return Ok(ring);
    }

    /** Start the channel at a serial number. */
    method ResetTo(start: Serial)
      requires Valid()
      modifies this, meta
      ensures Valid()
      ensures Now() == Fresh(meta.Length, slotLen).(delivered := start, cumulative := start, highest := start)
    {
      for i := 0 to meta.Length
        invariant forall j :: 0 <= j < i ==> meta[j] == EMPTY
        invariant forall j :: i <= j < meta.Length ==> meta[j] == old(meta[j])
      {
        meta[i] := EMPTY;
      }
      delivered, cumulative, highest := start, start, start;
      assert Now().slots == Fresh(meta.Length, slotLen).slots;
    }

    method Body(s: Serial) returns (body: Option<seq<Byte>>)
      requires Valid()
      ensures body == match Now().At(s) case Free => None case Full(b) => Some(b)
    {
      var i := s % meta.Length;
      assert Now().At(s) == SlotNow(i);
      if !meta[i].ready { return None; }
      BasesApart(slotLen, i, meta.Length);
      var start := Base(slotLen, i);
      return Some(bodies[start..start + meta[i].len]);
    }

    /** Offer a fragment. */
    method Offer(s: Serial, body: seq<Byte>) returns (stored: Stored)
      requires Valid()
      modifies this, bodies, meta
      ensures Valid() && (Now(), stored) == Store(old(Now()), s, body)
    {
      hide After, Distance, Base, Walked;
      ghost var was := Now();
      if After(delivered, s) { return Duplicate; }
      if Distance(delivered, s) >= meta.Length { return OutOfWindow; }
      if |body| > slotLen || |body| > 0xFFFF { return TooLarge; }
      var i := s % meta.Length;
      assert was.At(s) == SlotNow(i);
      if meta[i].ready { return Duplicate; }
      Fill(i, body);
      assert Now() == was.(slots := was.slots[i := Full(body)]);
      var next := Next(s);
      if After(next, highest) { highest := next; }
      ghost var seen := if After(next, was.highest) then next else was.highest;
      assert Now() == was.(slots := was.slots[i := Full(body)], highest := seen);
      Walk();
      return Accepted;
    }

    method Fill(i: nat, body: seq<Byte>)
      requires Valid() && i < meta.Length && |body| <= slotLen
      modifies bodies, meta
      ensures Valid() && Slots() == old(Slots())[i := Full(body)]
    {
      hide Base;
      ghost var was := Slots();
      BasesApart(slotLen, i, meta.Length);
      var start := Base(slotLen, i);
      forall k | 0 <= k < |body| { bodies[start + k] := body[k]; }
      meta[i] := SlotMeta(|body|, true);
      forall j | 0 <= j < meta.Length ensures SlotNow(j) == if j == i then Full(body) else was[j] {
        BasesApart(slotLen, i, j);
        BasesApart(slotLen, j, i);
        BasesApart(slotLen, j, meta.Length);
        if j == i { assert bodies[start..start + |body|] == body; }
      }
      assert Slots() == was[i := Full(body)];
    }

    method Clear(i: nat)
      requires Valid() && i < meta.Length
      modifies meta
      ensures Valid() && Slots() == old(Slots())[i := Free]
    {
      hide Base;
      ghost var was := Slots();
      meta[i] := EMPTY;
      assert Slots() == was[i := Free];
    }

    /** Move the frontier on until a slot is empty or nothing more was seen. */
    method Walk()
      requires Valid()
      modifies this`cumulative
      ensures Valid() && Now() == Walked(old(Now()))
    {
      ghost var start := Now();
      while cumulative != highest && meta[cumulative % meta.Length].ready
        invariant Valid() && Now() == start.(cumulative := cumulative) && Walked(Now()) == Walked(start)
        decreases Distance(cumulative, highest)
      {
        Closer(cumulative, highest);
        assert Now().At(cumulative).Full?;
        cumulative := Next(cumulative);
      }
    }

    /** Find the message that begins at a serial number. */
    method Find(start: Serial) returns (found: Option<Result<(nat, nat), Error>>)
      requires Valid()
      ensures found == Locate(Now(), start)
    {
      hide Distance, Base, Spanned, PrefixOf;
      if start == cumulative { return None; }
      var first := Body(start);
      if first.None? { return None; }
      if |first.value| < 4 { return Some(Err(BadLength)); }
      var total := PrefixOf(first.value);
      var span := Span(start, total + 4);
      if span.None? { return None; }
      if span.value.Err? { return Some(Err(span.value.error)); }
      return Some(Ok((total, span.value.value)));
    }

    /** Collect fragment lengths until they reach a stream's. */
    method Span(start: Serial, stream: nat) returns (span: Option<Result<nat, Error>>)
      requires Valid()
      ensures span == Spanned(Now(), start, stream)
    {
      hide Distance, Base, Spanned, Next;
      ghost var r := Now();
      var collected, fragments, cursor := 0, 0, start;
      SpanStep(r, cursor, stream);
      while collected < stream
        invariant Spanned(r, start, stream) == Plus(Spanned(r, cursor, stream - collected), fragments)
        invariant collected == stream ==> Spanned(r, cursor, 0) == Some(Ok(0))
        invariant collected > stream ==> Spanned(r, cursor, stream - collected) == Some(Err(BadLength))
        decreases Distance(cursor, cumulative)
      {
        SpanStep(r, cursor, stream - collected);
        if cursor == cumulative { return None; }
        var body := Body(cursor);
        if body.None? { return None; }
        Closer(cursor, cumulative);
        collected, fragments, cursor := collected + |body.value|, fragments + 1, Next(cursor);
        SpanStep(r, cursor, stream - collected);
      }
      if collected != stream { return Some(Err(BadLength)); }
      return Some(Ok(fragments));
    }

    /** Empty so many slots at the reader's end of the window, and move the reader. */
    method Release(count: nat)
      requires Valid()
      modifies this`delivered, meta
      ensures Valid() && Now() == Released(old(Now()), count)
    {
      hide Base, SerialOf, Released, Next;
      ghost var was := Now();
      ghost var moved := was;
      SmallSerial(delivered);
      for step := 0 to count
        invariant Valid() && delivered == was.delivered
        invariant moved == Now().(delivered := SerialOf(delivered + step))
        invariant Released(was, count) == Released(moved, count - step)
      {
        NextIs(delivered + step);
        ReleaseStep(moved, count - step);
        Clear(SerialOf(delivered + step) % meta.Length);
        moved := Dropped(moved);
      }
      ReleaseStep(moved, 0);
      delivered := SerialOf(delivered + count);
    }

    /** Give up a gap for the furthest fragment the consumer can resume from, else the furthest there is. */
    method EscapeStall(resumable: seq<Byte> -> bool) returns (to: Option<Serial>)
      requires Valid()
      modifies this, meta
      ensures Valid() && (Now(), to) == Escape(old(Now()), resumable)
    {
      hide Base, After, Distance, Next, Released, Scanned, Walked, AtOrBefore;
      ghost var r := Now();
      if cumulative == highest { return None; }
      var any, good := ScanHeld(resumable);
      var landing := if good.Some? then good else any;
      if landing.None? { return None; }
      var target := landing.value;
      if AtOrBefore(target, delivered) { return None; }
      ReleaseTo(target);
      if After(target, cumulative) { cumulative := target; }
      Walk();
      return Some(target);
    }

    method ScanHeld(resumable: seq<Byte> -> bool) returns (any: Option<Serial>, good: Option<Serial>)
      requires Valid()
      ensures (any, good) == Scanned(Now(), resumable, delivered, None, None)
    {
      hide Base, Distance, Next;
      ghost var r := Now();
      any, good := None, None;
      var cursor := delivered;
      while cursor != highest
        invariant Scanned(r, resumable, cursor, any, good) == Scanned(r, resumable, delivered, None, None)
        decreases Distance(cursor, highest)
      {
        var body := Body(cursor);
        Closer(cursor, highest);
        if body.Some? {
          any := Some(cursor);
          if resumable(body.value) { good := Some(cursor); }
        }
        cursor := Next(cursor);
      }
    }

    /** Release everything up to a serial number, so that the window opens in one step. */
    method ReleaseTo(target: Serial)
      requires Valid()
      modifies this`delivered, meta
      ensures Valid() && Now() == Released(old(Now()), Distance(old(delivered), target)).(delivered := target)
    {
      hide Base, Distance, Next, Released;
      ghost var was := Now();
      ghost var moved, left := was, Distance(delivered, target);
      var cursor: Serial := delivered;
      while cursor != target
        invariant Valid() && delivered == was.delivered && moved == Now().(delivered := cursor)
        invariant left == Distance(cursor, target)
        invariant Released(was, Distance(was.delivered, target)) == Released(moved, left)
        decreases left
      {
        Closer(cursor, target);
        ReleaseStep(moved, left);
        Clear(cursor % meta.Length);
        moved, left := Dropped(moved), left - 1;
        cursor := Next(cursor);
      }
      BackAndForth(cursor, target);
      ReleaseStep(moved, 0);
      delivered := target;
    }

    /** Read the next message into a buffer. */
    method TakeMessage(out: array<Byte>) returns (taken: Option<Result<nat, Error>>)
      requires Valid() && out != bodies
      modifies this`delivered, meta, out
      ensures Valid() && Now() == Take(old(Now()), out.Length).0
      ensures match Take(old(Now()), out.Length).1
              case None => taken == None && out[..] == old(out[..])
              case Some(Err(e)) => taken == Some(Err(e)) && out[..] == old(out[..])
              case Some(Ok(content)) =>
                taken == Some(Ok(|content|)) && |content| <= out.Length
                && out[..] == content + old(out[..])[|content|..]
    {
      hide Base, Locate, Spanned, Gathered, Released;
      ghost var was := Now();
      var found := Find(delivered);
      if found.None? { return None; }
      if found.value.Err? { return Some(Err(found.value.error)); }
      var (total, count) := found.value.value;
      if out.Length < total { return Some(Err(BufferTooSmall)); }
      LocatedSpans(was, delivered, total, count);
      CopyOut(out, total, count);
      Release(count);
      return Some(Ok(total));
    }

    /** Copy a located message's content, fragment by fragment, its length prefix skipped. */
    method CopyOut(out: array<Byte>, total: nat, count: nat)
      requires Valid() && out != bodies && total <= out.Length
      requires Spanned(Now(), delivered, total + 4) == Some(Ok(count))
      requires Now().At(delivered).Full? && |Now().At(delivered).body| >= 4
      modifies out
      ensures Valid() && Now() == old(Now()) && |Gathered(Now(), delivered, count)| == total + 4
      ensures out[..] == Gathered(Now(), delivered, count)[4..] + old(out[..])[total..]
    {
      hide Base, Spanned, Gathered, Next, Copying;
      ghost var r := Now();
      ghost var before, left := out[..], count;
      SpannedGathered(r, delivered, total + 4, count);
      ghost var whole := Gathered(r, delivered, count);
      var written: nat, skip: nat, cursor := 0, 4, delivered;
      CopyStarts(r, delivered, count, total, before);
      while written < total
        invariant Now() == r && out.Length == |before|
        invariant Copying(r, whole, before, out[..], cursor, left, written, skip)
        decreases left
      {
        CopyMore(r, whole, before, out[..], cursor, left, written, skip);
        var body := Body(cursor);
        written := CopyOne(out, written, body.value[skip..], total);
        left, skip, cursor := left - 1, 0, Next(cursor);
      }
      CopyEnds(r, whole, before, out[..], cursor, left, written, skip);
    }

    method CopyOne(out: array<Byte>, at: nat, src: seq<Byte>, total: nat) returns (end: nat)
      requires at + |src| <= total <= out.Length
      modifies out
      ensures end == at + |src| && out[..] == old(out[..])[..at] + src + old(out[..])[at + |src|..]
    {
      var take := if |src| < total - at then |src| else total - at;
      forall k | 0 <= k < take { out[at + k] := src[k]; }
      end := at + take;
    }
  }

  /** A copy under way: what is still to be read, and what has been written of it. */
  ghost predicate Copying(r: Ring, whole: seq<Byte>, before: seq<Byte>, out: seq<Byte>, cursor: Serial, left: nat,
                          written: nat, skip: nat)
    requires r.Made()
  {
    && 4 + written <= |whole| <= 4 + |before|
    && (skip == 0 || (skip == 4 && written == 0 && r.At(cursor).Full? && |r.At(cursor).body| >= 4))
    && Spanned(r, cursor, |whole| - 4 - written + skip) == Some(Ok(left))
    && whole[4 + written - skip..] == Gathered(r, cursor, left)
    && out == whole[4..4 + written] + before[written..]
  }

  lemma CopyStarts(r: Ring, start: Serial, count: nat, total: nat, before: seq<Byte>)
    requires r.Made() && total <= |before| && Spanned(r, start, total + 4) == Some(Ok(count))
    requires r.At(start).Full? && |r.At(start).body| >= 4 && |Gathered(r, start, count)| == total + 4
    ensures Copying(r, Gathered(r, start, count), before, before, start, count, 0, 4)
  {
    hide Spanned, Gathered;
  }

  /** One fragment more: it is there, and copying it keeps a copy under way. */
  lemma CopyMore(r: Ring, whole: seq<Byte>, before: seq<Byte>, out: seq<Byte>, cursor: Serial, left: nat,
                 written: nat, skip: nat)
    requires r.Made() && Copying(r, whole, before, out, cursor, left, written, skip) && 4 + written < |whole|
    ensures left > 0 && r.At(cursor).Full? && skip <= |r.At(cursor).body| && |out| == |before|
    ensures var src := r.At(cursor).body[skip..];
            && written + |src| <= |whole| - 4
            && Copying(r, whole, before, out[..written] + src + out[written + |src|..], Next(cursor), left - 1,
                       written + |src|, 0)
  {
    hide Spanned, Gathered, Next;
    OneMore(r, cursor, |whole| - 4 - written + skip, left);
    var body, at := r.At(cursor).body, 4 + written - skip;
    assert whole[at..][..|body|] == body && whole[at..][|body|..] == whole[at + |body|..];
    assert whole[4..4 + written] + body[skip..] == whole[4..at + |body|];
  }

  lemma CopyEnds(r: Ring, whole: seq<Byte>, before: seq<Byte>, out: seq<Byte>, cursor: Serial, left: nat,
                 written: nat, skip: nat)
    requires r.Made() && Copying(r, whole, before, out, cursor, left, written, skip) && 4 + written >= |whole|
    ensures out == whole[4..] + before[|whole| - 4..]
  {
    hide Spanned, Gathered;
  }

  lemma SmallSerial(s: Serial)
    ensures SerialOf(s) == s
  {
  }

  /** The ring with the reader's first fragment freed and passed. */
  function Dropped(r: Ring): (n: Ring)
    requires r.Made()
    ensures n.Made()
  {
    r.(slots := r.slots[r.Index(r.delivered) := Free], delivered := Next(r.delivered))
  }

  lemma ReleaseStep(r: Ring, count: nat)
    requires r.Made()
    ensures count == 0 ==> Released(r, count) == r
    ensures count > 0 ==> Released(r, count) == Released(Dropped(r), count - 1)
  {
  }

  lemma LocatedSpans(r: Ring, start: Serial, total: nat, count: nat)
    requires r.Made() && Locate(r, start) == Some(Ok((total, count)))
    ensures r.At(start).Full? && |r.At(start).body| >= 4 && Spanned(r, start, total + 4) == Some(Ok(count))
  {
  }

  lemma OneMore(r: Ring, cursor: Serial, rest: nat, left: nat)
    requires r.Made() && rest > 0 && Spanned(r, cursor, rest) == Some(Ok(left))
    ensures left > 0 && r.At(cursor).Full? && |r.At(cursor).body| <= rest
    ensures Spanned(r, Next(cursor), rest - |r.At(cursor).body|) == Some(Ok(left - 1))
    ensures Gathered(r, cursor, left) == r.At(cursor).body + Gathered(r, Next(cursor), left - 1)
  {
  }
}
