/**
  * The latest-wins ring, its producer and its consumer: every load, exchange and store of a slot's word is a step
  * of its own, and the two threads' steps interleave in any order.
  */
module LatestRing {
  import opened Common

  datatype Phase = Free | Filling | Ready | Held

  /** A slot's word, a phase and the stamp it was last published under, its gate and its payload. */
  datatype Slot<T> = Slot(phase: Phase, stamp: nat, gate: nat, payload: T)

  datatype Gate = Open | Shut | Never

  /** A word looked at: where it was, and the stamp it bore. */
  datatype Seen = Seen(i: nat, stamp: nat)

  /** Where the producer is: in begin, filling and publishing, or letting go of what was published at a reopening. */
  datatype Producer =
    | Idle
    | ScanFree(i: nat)
    | ClaimFree(seen: Seen)
    | ScanReady(i: nat, oldest: Option<Seen>)
    | Steal(seen: Seen)
    | Count(i: nat, taken: nat, held: set<nat>)
    | Refused(held: set<nat>)
    | Fill(i: nat)
    | Stamped(i: nat, gate: nat)
    | Gated(i: nat)
    | Letting(i: nat)
    | LetGo(seen: Seen)

  /** Where the consumer is: looking for a slot to take, taking it and dropping older ones, or giving one back. */
  datatype Consumer =
    | Away
    | Scan(i: nat, after: nat, newest: Option<Seen>)
    | Look(seen: Seen, after: nat, newest: Option<Seen>)
    | Take(seen: Seen, after: nat)
    | Recheck(seen: Seen, after: nat)
    | Discard(seen: Seen, after: nat, j: nat)
    | Drop(seen: Seen, after: nat, stale: Seen)
    | Reading(seen: Seen, after: nat)
    | Releasing(seen: Seen)

  /** A slot handed out: the stamp asked to be passed, its own, and the payload read from it. */
  datatype Taken<T> = Taken(after: nat, stamp: nat, payload: T)

  /**
    * The ring and its two threads, with what the proofs follow: the slots handed out and not given back, every
    * payload and gate published, everything handed out, the slots the consumer put back since the producer's
    * search, or reopening, began, the slots published, or not open, since the consumer's search did, and every
    * gate found not open while its slot was held.
    */
  datatype State<T> = State(
    slots: seq<Slot<T>>, next: nat, producer: Producer, consumer: Consumer,
    holds: set<nat>, log: seq<(T, nat)>, handed: seq<Taken<T>>,
    back: set<nat>, since: set<nat>, barred: set<nat>, refused: set<nat>)

  datatype Input<T> =
    | Go
    | Begin
    | Set(payload: T)
    | Publish(gate: nat)
    | Abandon
    | Reopen
    | Acquire(after: nat)
    | Release(i: nat)
    | Check(check: nat -> Gate)

  datatype Action<T> = ByProducer(input: Input<T>) | ByConsumer(input: Input<T>)

  function New<T>(n: nat, blank: T): State<T> {
    State(seq(n, _ => Slot(Free, 0, 0, blank)), 1, Idle, Away, {}, [], [], {}, {}, {}, {})
  }

  /** A slot's phase moved by an exchange that compares its phase and stamp with what was looked at. */
  predicate Matches<T>(s: State<T>, seen: Seen, phase: Phase) {
    seen.i < |s.slots| && s.slots[seen.i].phase == phase && s.slots[seen.i].stamp == seen.stamp
  }

  function Moved<T>(s: State<T>, i: nat, phase: Phase): seq<Slot<T>>
    requires i < |s.slots|
  {
    s.slots[i := s.slots[i].(phase := phase)]
  }

  function HeldSlots<T>(s: State<T>): set<nat> { set i: nat | i < |s.slots| && s.slots[i].phase == Held }

  function Search<T>(s: State<T>): State<T> { s.(producer := ScanFree(0), back := {}) }

  /** One step of the producer. */
  function ProducerStep<T>(s: State<T>, input: Input<T>): (t: State<T>)
    ensures |t.slots| == |s.slots|
  {
    var n := |s.slots|;
    match s.producer
    case Idle => Started(s, input)
    case Refused(_) => Started(s, input)
    case ScanFree(i) =>
      if i >= n then s.(producer := ScanReady(0, None))
      else if s.slots[i].phase == Free then s.(producer := ClaimFree(Seen(i, s.slots[i].stamp)))
      else s.(producer := ScanFree(i + 1))
    case ClaimFree(seen) =>
      if Matches(s, seen, Free) then s.(slots := Moved(s, seen.i, Filling), producer := Fill(seen.i))
      else s.(producer := ScanFree(seen.i + 1))
    case ScanReady(i, oldest) =>
      if i >= n then s.(producer := match oldest case None => Count(0, 0, HeldSlots(s)) case Some(seen) => Steal(seen))
      else if s.slots[i].phase == Ready && (oldest.None? || s.slots[i].stamp < oldest.value.stamp) then
        s.(producer := ScanReady(i + 1, Some(Seen(i, s.slots[i].stamp))))
      else s.(producer := ScanReady(i + 1, oldest))
    case Steal(seen) =>
      if Matches(s, seen, Ready) then s.(slots := Moved(s, seen.i, Filling), producer := Fill(seen.i)) else Search(s)
    case Count(i, taken, held) =>
      if i >= n then if taken == n then s.(producer := Refused(held)) else Search(s)
      else if s.slots[i].phase == Held || s.slots[i].phase == Filling then s.(producer := Count(i + 1, taken + 1, held))
      else s.(producer := Count(i + 1, taken, held))
    case Fill(i) => if i < n then Filled(s, i, input) else s
    case Stamped(i, gate) =>
      if i < n then s.(slots := s.slots[i := s.slots[i].(gate := gate)], producer := Gated(i)) else s
    case Gated(i) =>
      if i < n && s.next > 0 then
        s.(slots := s.slots[i := s.slots[i].(phase := Ready, stamp := s.next - 1)], producer := Idle,
           since := s.since + {i}, back := s.back - {i})
      else s
    case Letting(i) =>
      if i >= n then s.(producer := Idle)
      else if s.slots[i].phase == Ready then s.(producer := LetGo(Seen(i, s.slots[i].stamp)))
      else s.(producer := Letting(i + 1))
    case LetGo(seen) =>
      if Matches(s, seen, Ready) then s.(slots := Moved(s, seen.i, Free), producer := Letting(seen.i + 1))
      else s.(producer := Letting(seen.i + 1))
  }

  function Started<T>(s: State<T>, input: Input<T>): State<T> {
    match input
    case Begin => Search(s)
    case Reopen => s.(producer := Letting(0), back := {})
    case _ => s
  }

  /** What a producer does with the slot it is filling. */
  function Filled<T>(s: State<T>, i: nat, input: Input<T>): State<T>
    requires i < |s.slots|
  {
    match input
    case Set(payload) => s.(slots := s.slots[i := s.slots[i].(payload := payload)])
    case Publish(gate) =>
      s.(producer := Stamped(i, gate), next := s.next + 1, log := s.log + [(s.slots[i].payload, gate)])
    case Abandon => s.(slots := Moved(s, i, Free), producer := Idle)
    case _ => s
  }

  function Rescan<T>(s: State<T>, after: nat): State<T> {
    s.(consumer := Scan(0, after, None), since := {}, barred := {})
  }

  /** One step of the consumer. */
  function ConsumerStep<T>(s: State<T>, input: Input<T>): (t: State<T>)
    ensures |t.slots| == |s.slots|
  {
    var n := |s.slots|;
    match s.consumer
    case Away =>
      (match input
       case Acquire(after) => Rescan(s, after)
       case Release(i) =>
         if i < n && s.slots[i].phase == Held then s.(consumer := Releasing(Seen(i, s.slots[i].stamp))) else s
       case _ => s)
    case Scan(i, after, newest) =>
      if i >= n then s.(consumer := match newest case None => Away case Some(seen) => Take(seen, after))
      else if s.slots[i].phase == Ready && s.slots[i].stamp > after then
        s.(consumer := Look(Seen(i, s.slots[i].stamp), after, newest))
      else s.(consumer := Scan(i + 1, after, newest))
    case Look(seen, after, newest) =>
      if !input.Check? || seen.i >= n then s
      else if input.check(s.slots[seen.i].gate) != Open then
        s.(consumer := Scan(seen.i + 1, after, newest), barred := s.barred + {seen.i})
      else if newest.None? || seen.stamp > newest.value.stamp then s.(consumer := Scan(seen.i + 1, after, Some(seen)))
      else s.(consumer := Scan(seen.i + 1, after, newest))
    case Take(seen, after) =>
      if Matches(s, seen, Ready) then s.(slots := Moved(s, seen.i, Held), consumer := Recheck(seen, after))
      else Rescan(s, after)
    case Recheck(seen, after) =>
      if !input.Check? || seen.i >= n then s
      else if input.check(s.slots[seen.i].gate) == Open then s.(consumer := Discard(seen, after, 0))
      else
        Rescan(s.(slots := Moved(s, seen.i, Ready), back := s.back + {seen.i},
                  refused := s.refused + {s.slots[seen.i].gate}), after)
    case Discard(seen, after, j) =>
      if j >= n then s.(consumer := Reading(seen, after))
      else if s.slots[j].phase == Ready && s.slots[j].stamp < seen.stamp then
        s.(consumer := Drop(seen, after, Seen(j, s.slots[j].stamp)))
      else s.(consumer := Discard(seen, after, j + 1))
    case Drop(seen, after, stale) =>
      if Matches(s, stale, Ready)
      then s.(slots := Moved(s, stale.i, Free), consumer := Discard(seen, after, stale.i + 1))
      else s.(consumer := Discard(seen, after, stale.i + 1))
    case Reading(seen, after) =>
      if seen.i >= n then s
      else
        s.(consumer := Away, holds := s.holds + {seen.i},
           handed := s.handed + [Taken(after, seen.stamp, s.slots[seen.i].payload)])
    case Releasing(seen) =>
      if Matches(s, seen, Held) then s.(slots := Moved(s, seen.i, Free), consumer := Away, holds := s.holds - {seen.i})
      else s.(consumer := Away)
  }

  function Step<T>(s: State<T>, a: Action<T>): (t: State<T>)
    ensures |t.slots| == |s.slots|
  {
    match a
    case ByProducer(input) => ProducerStep(s, input)
    case ByConsumer(input) => ConsumerStep(s, input)
  }

  function Run<T>(s: State<T>, actions: seq<Action<T>>): (t: State<T>)
    ensures |t.slots| == |s.slots|
  {
    if actions == [] then s else Step(Run(s, actions[..|actions| - 1]), actions[|actions| - 1])
  }

  // Who owns which slot.

  function Filler(p: Producer): Option<nat> {
    match p
    case Fill(i) => Some(i)
    case Stamped(i, _) => Some(i)
    case Gated(i) => Some(i)
    case _ => None
  }

  function InHand(c: Consumer): Option<Seen> {
    match c
    case Recheck(seen, _) => Some(seen)
    case Discard(seen, _, _) => Some(seen)
    case Drop(seen, _, _) => Some(seen)
    case Reading(seen, _) => Some(seen)
    case _ => None
  }

  /** A slot is filling exactly while the producer has it. */
  ghost predicate FillingOwned<T>(s: State<T>) {
    && (forall i :: 0 <= i < |s.slots| ==> (s.slots[i].phase == Filling <==> Filler(s.producer) == Some(i)))
    && (Filler(s.producer).Some? ==> Filler(s.producer).value < |s.slots|)
  }

  /** A slot is held exactly while the consumer has it, in hand or handed out. */
  ghost predicate HeldOwned<T>(s: State<T>) {
    && (forall i :: 0 <= i < |s.slots| ==>
          (s.slots[i].phase == Held <==> i in s.holds || (InHand(s.consumer).Some? && InHand(s.consumer).value.i == i)))
    && (InHand(s.consumer).Some? ==>
          var seen := InHand(s.consumer).value;
          seen.i < |s.slots| && seen.i !in s.holds && s.slots[seen.i].stamp == seen.stamp)
    && (forall i :: i in s.holds ==> i < |s.slots|)
    && (s.consumer.Releasing? ==> Matches(s, s.consumer.seen, Held) && s.consumer.seen.i in s.holds)
  }

  // What a stamp was published with.

  predicate Publishing(p: Producer) { p.Stamped? || p.Gated? }

  /** What is published, held or was handed out under a stamp is what was published under it. */
  ghost predicate Logged<T>(s: State<T>) {
    && s.next == |s.log| + 1
    && (forall i :: 0 <= i < |s.slots| && Live(s.slots[i].phase) ==> LoggedAt(s, s.slots[i]))
    && (forall k :: 0 <= k < |s.handed| ==>
          0 < s.handed[k].stamp <= |s.log| && s.log[s.handed[k].stamp - 1].0 == s.handed[k].payload)
  }

  /** A stamp being published is the last, and logged with what the slot being filled bears. */
  ghost predicate Stamping<T>(s: State<T>) {
    Publishing(s.producer) ==>
      && s.log != [] && s.producer.i < |s.slots|
      && s.log[|s.log| - 1].0 == s.slots[s.producer.i].payload
      && s.log[|s.log| - 1].1 == if s.producer.Stamped? then s.producer.gate else s.slots[s.producer.i].gate
  }

  predicate LoggedAt<T(==)>(s: State<T>, slot: Slot<T>) {
    0 < slot.stamp <= |s.log| && s.log[slot.stamp - 1] == (slot.payload, slot.gate)
  }

  // In what order slots are handed out.

  /** Below this every stamp has been published; a stamp being published is at it. */
  function Top<T>(s: State<T>): nat { if Publishing(s.producer) && s.next > 0 then s.next - 1 else s.next }

  ghost predicate Below<T>(s: State<T>) {
    && s.next > 0
    && (forall i :: 0 <= i < |s.slots| ==> s.slots[i].stamp < Top(s))
    && (forall k :: 0 <= k < |s.handed| ==> s.handed[k].stamp < Top(s))
  }

  predicate Live(slot: Phase) { slot == Ready || slot == Held }

  /** No two slots are published or held under one stamp. */
  ghost predicate Distinct<T>(s: State<T>) {
    forall i, j :: 0 <= i < j < |s.slots| && Live(s.slots[i].phase) && Live(s.slots[j].phase) ==>
      s.slots[i].stamp != s.slots[j].stamp
  }

  function Last<T>(handed: seq<Taken<T>>): nat { if handed == [] then 0 else handed[|handed| - 1].stamp }

  /** What is handed out ascends, and all that is published or in hand is above it. */
  ghost predicate Ascending<T>(s: State<T>) {
    && (forall j, k :: 0 <= j < k < |s.handed| ==> s.handed[j].stamp < s.handed[k].stamp)
    && (forall i :: 0 <= i < |s.slots| && s.slots[i].phase == Ready ==> s.slots[i].stamp > Last(s.handed))
    && (InHand(s.consumer).Some? ==> InHand(s.consumer).value.stamp > Last(s.handed))
  }

  /** How far the slot in hand has been compared with the others. */
  function Compared(c: Consumer, n: nat): nat {
    match c
    case Discard(_, _, j) => j
    case Drop(_, _, stale) => stale.i
    case Reading(_, _) => n
    case _ => 0
  }

  /** No slot compared with the one in hand is still published and older. */
  ghost predicate Discarded<T>(s: State<T>) {
    && (InHand(s.consumer).Some? ==>
          forall i :: 0 <= i < |s.slots| && i < Compared(s.consumer, |s.slots|) && s.slots[i].phase == Ready ==>
            s.slots[i].stamp > InHand(s.consumer).value.stamp)
    && (s.consumer.Drop? ==>
          var stale := s.consumer.stale;
          && stale.i < |s.slots| && stale.stamp < s.consumer.seen.stamp
          && (s.slots[stale.i].phase == Ready ==>
                s.slots[stale.i].stamp == stale.stamp || s.slots[stale.i].stamp > s.consumer.seen.stamp))
  }

  // What the producer's search has seen.

  /** No slot published, other than ones put back since, is older than what the search has found. */
  ghost predicate OldestOf<T>(s: State<T>, upto: nat, oldest: Option<Seen>) {
    && (forall j :: 0 <= j < |s.slots| && j < upto && s.slots[j].phase == Ready && j !in s.back ==>
          oldest.Some? && oldest.value.stamp <= s.slots[j].stamp)
    && (oldest.Some? ==> oldest.value.i < |s.slots| && s.slots[oldest.value.i].stamp == oldest.value.stamp)
  }

  /** No slot a reopening has passed is published, other than ones put back since. */
  ghost predicate LetGoOf<T>(s: State<T>, upto: nat) {
    forall j :: 0 <= j < |s.slots| && j < upto && j !in s.back ==> s.slots[j].phase != Ready
  }

  ghost predicate Searched<T>(s: State<T>) {
    match s.producer
    case ScanReady(i, oldest) => i <= |s.slots| && OldestOf(s, i, oldest)
    case Steal(seen) => OldestOf(s, |s.slots|, Some(seen))
    case Count(i, taken, _) =>
      && i <= |s.slots| && taken <= i
      && forall j :: 0 <= j < |s.slots| && j !in s.back ==> s.slots[j].phase != Ready
    case Letting(i) => i <= |s.slots| && LetGoOf(s, i)
    case LetGo(seen) =>
      && seen.i < |s.slots| && LetGoOf(s, seen.i)
      && (s.slots[seen.i].phase == Ready && seen.i !in s.back ==> s.slots[seen.i].stamp == seen.stamp)
    case _ => true
  }

  // What the consumer's search has seen.

  /** No slot published, other than ones published since or not open, is newer than what the search has found. */
  ghost predicate NewestOf<T>(s: State<T>, upto: nat, after: nat, newest: Option<Seen>) {
    && (forall j :: 0 <= j < |s.slots| && j < upto && s.slots[j].phase == Ready && j !in s.since && j !in s.barred
                    && s.slots[j].stamp > after ==>
          newest.Some? && s.slots[j].stamp <= newest.value.stamp)
    && (newest.Some? ==> newest.value.stamp > after)
  }

  ghost predicate Found<T>(s: State<T>) {
    match s.consumer
    case Scan(i, after, newest) => i <= |s.slots| && NewestOf(s, i, after, newest)
    case Look(seen, after, newest) =>
      && seen.i < |s.slots| && seen.stamp > after && NewestOf(s, seen.i, after, newest)
      && (s.slots[seen.i].phase == Ready && seen.i !in s.since ==> s.slots[seen.i].stamp == seen.stamp)
    case Take(seen, after) => NewestOf(s, |s.slots|, after, Some(seen))
    case Recheck(seen, after) => seen.stamp > after
    case Discard(seen, after, _) => seen.stamp > after
    case Drop(seen, after, _) => seen.stamp > after
    case Reading(seen, after) => seen.stamp > after
    case _ => true
  }

  ghost predicate Beyond<T>(s: State<T>) { forall k :: 0 <= k < |s.handed| ==> s.handed[k].stamp > s.handed[k].after }

  /** A slot put back, and not published since, is behind a gate found not open. */
  ghost predicate PutBack<T>(s: State<T>) {
    forall j :: 0 <= j < |s.slots| && j in s.back && s.slots[j].phase == Ready ==> s.slots[j].gate in s.refused
  }

  ghost predicate Inv<T>(s: State<T>) {
    && FillingOwned(s) && HeldOwned(s) && Logged(s) && Stamping(s) && Below(s) && Distinct(s) && Ascending(s)
    && Discarded(s) && Searched(s) && Found(s) && Beyond(s) && PutBack(s)
  }

  // What one thread's step leaves of what the other relies on.

  predicate MovedByProducer<T(==)>(a: Slot<T>, b: Slot<T>, stamp: nat, published: bool) {
    || b == a
    || (a.phase != Held && b.phase != Held && b.phase != Ready && b.stamp == a.stamp)
    || (a.phase == Filling && published && b == a.(phase := Ready, stamp := stamp))
  }

  predicate Publishes<T>(s: State<T>, t: State<T>, i: nat) {
    i in t.since && i !in t.back && s.producer.Gated? && s.producer.i == i
  }

  ghost predicate ProducerMoves<T>(s: State<T>, t: State<T>) {
    && |t.slots| == |s.slots| && t.consumer == s.consumer && t.holds == s.holds && t.handed == s.handed
    && t.barred == s.barred && s.since <= t.since && s.log <= t.log && t.next - s.next == |t.log| - |s.log|
    && t.refused == s.refused && t.back <= s.back && Top(s) <= Top(t)
    && forall i :: 0 <= i < |s.slots| ==> MovedByProducer(s.slots[i], t.slots[i], Top(s), Publishes(s, t, i))
  }

  predicate MovedByConsumer<T(==)>(a: Slot<T>, b: Slot<T>, taken: bool, back: bool) {
    && b == a.(phase := b.phase)
    && (b.phase == a.phase || (a.phase == Ready && b.phase == Held && taken) || (Live(a.phase) && b.phase == Free)
        || (a.phase == Held && b.phase == Ready && back))
  }

  predicate Takes<T>(s: State<T>, i: nat) {
    s.consumer.Take? && s.consumer.seen.i == i && Matches(s, s.consumer.seen, Ready)
  }

  predicate Returns<T>(s: State<T>, t: State<T>, i: nat)
    requires i < |s.slots|
  {
    i in t.back && s.slots[i].gate in t.refused && InHand(s.consumer).Some? && InHand(s.consumer).value.i == i
  }

  ghost predicate HandsOut<T>(s: State<T>, t: State<T>) {
    && s.consumer.Reading? && s.consumer.seen.i < |s.slots| && t.slots == s.slots && t.consumer == Away
    && t.handed == s.handed + [Taken(s.consumer.after, s.consumer.seen.stamp, s.slots[s.consumer.seen.i].payload)]
  }

  predicate HandKept<T>(s: State<T>, t: State<T>) {
    var hand := InHand(t.consumer);
    || hand.None?
    || hand == InHand(s.consumer)
    || (InHand(s.consumer).None? && Matches(s, hand.value, Ready))
  }

  ghost predicate ConsumerMoves<T>(s: State<T>, t: State<T>) {
    && |t.slots| == |s.slots| && t.producer == s.producer && t.next == s.next && t.log == s.log && s.back <= t.back
    && (t.handed == s.handed || HandsOut(s, t)) && HandKept(s, t)
    && s.refused <= t.refused
    && (forall i :: i in t.back ==> i in s.back || (i < |s.slots| && s.slots[i].phase == Held))
    && forall i :: 0 <= i < |s.slots| ==> MovedByConsumer(s.slots[i], t.slots[i], Takes(s, i), Returns(s, t, i))
  }

  lemma ProducerStepMovesFilling<T>(s: State<T>, input: Input<T>)
    requires FillingOwned(s) && Filler(s.producer).Some?
    ensures ProducerMoves(s, ProducerStep(s, input))
  {
  }

  predicate Exchanging(p: Producer) { p.ClaimFree? || p.Steal? || p.LetGo? }

  lemma ProducerStepMovesExchanging<T>(s: State<T>, input: Input<T>)
    requires FillingOwned(s) && Exchanging(s.producer)
    ensures ProducerMoves(s, ProducerStep(s, input))
  {
  }

  lemma ProducerStepMovesLooking<T>(s: State<T>, input: Input<T>)
    requires Filler(s.producer).None? && !Exchanging(s.producer)
    ensures ProducerMoves(s, ProducerStep(s, input))
  {
    hide HeldSlots, Matches, Moved;
  }

  lemma ProducerStepMoves<T>(s: State<T>, input: Input<T>)
    requires FillingOwned(s)
    ensures ProducerMoves(s, ProducerStep(s, input))
  {
    hide ProducerStep, FillingOwned, HeldOwned, Searched, ProducerMoves;
    if Filler(s.producer).Some? {
      ProducerStepMovesFilling(s, input);
    } else if Exchanging(s.producer) {
      ProducerStepMovesExchanging(s, input);
    } else {
      ProducerStepMovesLooking(s, input);
    }
  }

  lemma ConsumerStepMovesInHand<T>(s: State<T>, input: Input<T>)
    requires HeldOwned(s) && InHand(s.consumer).Some?
    ensures ConsumerMoves(s, ConsumerStep(s, input))
  {
  }

  lemma ConsumerStepMovesLooking<T>(s: State<T>, input: Input<T>)
    requires HeldOwned(s) && InHand(s.consumer).None?
    ensures ConsumerMoves(s, ConsumerStep(s, input))
  {
  }

  lemma ConsumerStepMoves<T>(s: State<T>, input: Input<T>)
    requires HeldOwned(s)
    ensures ConsumerMoves(s, ConsumerStep(s, input))
  {
    hide ConsumerStep, HeldOwned, ConsumerMoves;
    if InHand(s.consumer).Some? { ConsumerStepMovesInHand(s, input); } else { ConsumerStepMovesLooking(s, input); }
  }

  lemma ProducerKeepsOthers<T>(s: State<T>, t: State<T>)
    requires ProducerMoves(s, t) && HeldOwned(s) && Below(s) && Distinct(s) && Ascending(s) && Discarded(s)
    ensures HeldOwned(t) && Ascending(t) && Distinct(t)
  {
  }

  lemma ProducerKeepsFound<T>(s: State<T>, t: State<T>)
    requires ProducerMoves(s, t) && HeldOwned(s) && Below(s) && Discarded(s) && Found(s) && Beyond(s)
    ensures Discarded(t) && Found(t) && Beyond(t)
  {
  }

  lemma PutBackKept<T>(s: State<T>, t: State<T>)
    requires PutBack(s) && (ProducerMoves(s, t) || ConsumerMoves(s, t))
    ensures PutBack(t)
  {
  }

  lemma ConsumerKeepsOthers<T>(s: State<T>, t: State<T>)
    requires ConsumerMoves(s, t) && FillingOwned(s) && Distinct(s) && Searched(s)
    ensures FillingOwned(t) && Distinct(t) && Searched(t)
  {
  }

  lemma ProducerOwnsFilling<T>(s: State<T>, input: Input<T>)
    requires FillingOwned(s) && Filler(s.producer).Some?
    ensures FillingOwned(ProducerStep(s, input))
  {
    hide HeldSlots;
  }

  lemma ProducerOwnsSearching<T>(s: State<T>, input: Input<T>)
    requires FillingOwned(s) && Filler(s.producer).None?
    ensures FillingOwned(ProducerStep(s, input))
  {
    hide HeldSlots;
  }

  lemma ProducerOwns<T>(s: State<T>, input: Input<T>)
    requires FillingOwned(s)
    ensures FillingOwned(ProducerStep(s, input))
  {
    hide ProducerStep, FillingOwned;
    if Filler(s.producer).Some? { ProducerOwnsFilling(s, input); } else { ProducerOwnsSearching(s, input); }
  }

  lemma ProducerKeepsLogged<T>(s: State<T>, t: State<T>)
    requires ProducerMoves(s, t) && Logged(s) && Stamping(s)
    ensures Logged(t)
  {
  }

  lemma ProducerStamps<T>(s: State<T>, input: Input<T>)
    requires FillingOwned(s) && Stamping(s)
    ensures Stamping(ProducerStep(s, input))
  {
  }

  lemma ProducerBelowFilling<T>(s: State<T>, input: Input<T>)
    requires FillingOwned(s) && Below(s) && Filler(s.producer).Some?
    ensures Below(ProducerStep(s, input))
  {
    hide HeldSlots;
  }

  lemma ProducerBelowSearching<T>(s: State<T>, input: Input<T>)
    requires FillingOwned(s) && Below(s) && Filler(s.producer).None?
    ensures Below(ProducerStep(s, input))
  {
    hide HeldSlots;
  }

  lemma ProducerBelow<T>(s: State<T>, input: Input<T>)
    requires FillingOwned(s) && Below(s)
    ensures Below(ProducerStep(s, input))
  {
    hide ProducerStep, FillingOwned, Below;
    if Filler(s.producer).Some? { ProducerBelowFilling(s, input); } else { ProducerBelowSearching(s, input); }
  }

  lemma ProducerSearchesOn<T>(s: State<T>, input: Input<T>)
    requires FillingOwned(s) && Searched(s) && (s.producer.ScanReady? || s.producer.ScanFree?)
    ensures Searched(ProducerStep(s, input))
  {
  }

  lemma ProducerSearchesOut<T>(s: State<T>, input: Input<T>)
    requires FillingOwned(s) && Searched(s) && !s.producer.ScanReady? && !s.producer.ScanFree?
    ensures Searched(ProducerStep(s, input))
  {
  }

  lemma ProducerSearches<T>(s: State<T>, input: Input<T>)
    requires FillingOwned(s) && Searched(s)
    ensures Searched(ProducerStep(s, input))
  {
    hide ProducerStep, FillingOwned, HeldOwned, Searched, ProducerMoves;
    if s.producer.ScanReady? || s.producer.ScanFree? {
      ProducerSearchesOn(s, input);
    } else {
      ProducerSearchesOut(s, input);
    }
  }

  lemma ConsumerOwnsInHand<T>(s: State<T>, input: Input<T>)
    requires HeldOwned(s) && InHand(s.consumer).Some?
    ensures HeldOwned(ConsumerStep(s, input))
  {
  }

  lemma ConsumerOwnsLooking<T>(s: State<T>, input: Input<T>)
    requires HeldOwned(s) && InHand(s.consumer).None?
    ensures HeldOwned(ConsumerStep(s, input))
  {
  }

  lemma ConsumerOwns<T>(s: State<T>, input: Input<T>)
    requires HeldOwned(s)
    ensures HeldOwned(ConsumerStep(s, input))
  {
    hide ConsumerStep, FillingOwned, HeldOwned, Searched, ProducerMoves;
    if InHand(s.consumer).Some? { ConsumerOwnsInHand(s, input); } else { ConsumerOwnsLooking(s, input); }
  }

  lemma ConsumerKeepsLogged<T>(s: State<T>, t: State<T>)
    requires ConsumerMoves(s, t) && HeldOwned(s) && Logged(s) && Stamping(s) && Below(s) && Found(s) && Beyond(s)
    ensures Logged(t) && Stamping(t) && Below(t) && Beyond(t)
  {
  }

  lemma ConsumerKeepsAscending<T>(s: State<T>, t: State<T>)
    requires ConsumerMoves(s, t) && HeldOwned(s) && Ascending(s) && Discarded(s)
    ensures Ascending(t)
  {
  }

  lemma ConsumerDiscards<T>(s: State<T>, input: Input<T>)
    requires HeldOwned(s) && Distinct(s) && Discarded(s)
    ensures Discarded(ConsumerStep(s, input))
  {
  }

  lemma ConsumerFinds<T>(s: State<T>, input: Input<T>)
    requires Found(s)
    ensures Found(ConsumerStep(s, input))
  {
  }

  lemma StepInv<T>(s: State<T>, a: Action<T>)
    requires Inv(s)
    ensures Inv(Step(s, a)) && |Step(s, a).slots| == |s.slots|
  {
    var t := Step(s, a);
    hide ProducerStep, ConsumerStep, FillingOwned, HeldOwned, Logged, Stamping, Below, Distinct, Ascending, Discarded,
         Searched, Found, Beyond, PutBack;
    match a {
      case ByProducer(input) =>
        ProducerStepMoves(s, input);
        PutBackKept(s, t);
        ProducerKeepsOthers(s, t);
        ProducerKeepsFound(s, t);
        ProducerKeepsLogged(s, t);
        ProducerOwns(s, input);
        ProducerStamps(s, input);
        ProducerBelow(s, input);
        ProducerSearches(s, input);
      case ByConsumer(input) =>
        ConsumerStepMoves(s, input);
        PutBackKept(s, t);
        ConsumerKeepsOthers(s, t);
        ConsumerKeepsLogged(s, t);
        ConsumerKeepsAscending(s, t);
        ConsumerOwns(s, input);
        ConsumerDiscards(s, input);
        ConsumerFinds(s, input);
    }
  }

  lemma {:induction false} RunInv<T>(n: nat, blank: T, actions: seq<Action<T>>)
    ensures Inv(Run(New(n, blank), actions)) && |Run(New(n, blank), actions).slots| == n
    decreases |actions|
  {
    if actions != [] {
      hide Step, Inv;
      RunInv(n, blank, actions[..|actions| - 1]);
      StepInv(Run(New(n, blank), actions[..|actions| - 1]), actions[|actions| - 1]);
    }
  }

  // What every run keeps.

  /** The slot the producer may write is never one the consumer may read. */
  lemma WriterAndReaderApart<T>(n: nat, blank: T, actions: seq<Action<T>>)
    ensures var s := Run(New(n, blank), actions);
            Filler(s.producer).Some? ==>
              var i := Filler(s.producer).value;
              i < n && i !in s.holds && (InHand(s.consumer).Some? ==> InHand(s.consumer).value.i != i)
  {
    hide Run;
    RunInv(n, blank, actions);
  }

  /** Nothing the producer does changes a slot that is held. */
  lemma HeldStays<T>(n: nat, blank: T, actions: seq<Action<T>>, input: Input<T>, i: nat)
    requires i < n && Run(New(n, blank), actions).slots[i].phase == Held
    ensures ProducerStep(Run(New(n, blank), actions), input).slots[i] == Run(New(n, blank), actions).slots[i]
  {
    hide Run, ProducerStep;
    RunInv(n, blank, actions);
    ProducerStepMoves(Run(New(n, blank), actions), input);
  }

  /** A reopening that has passed every slot has left none published, but for any the consumer put back meanwhile. */
  lemma ReopeningLetsGo<T>(n: nat, blank: T, actions: seq<Action<T>>, i: nat)
    requires Run(New(n, blank), actions).producer == Letting(n)
    requires i < n && Run(New(n, blank), actions).slots[i].phase == Ready
    ensures i in Run(New(n, blank), actions).back
  {
    hide Run, FillingOwned, HeldOwned, Logged, Stamping, Below, Distinct, Ascending, Discarded, Found, Beyond, PutBack;
    RunInv(n, blank, actions);
  }

  function Producing<T>(s: State<T>, inputs: seq<Input<T>>): (t: State<T>)
    ensures |t.slots| == |s.slots|
    decreases |inputs|
  {
    if inputs == [] then s else ProducerStep(Producing(s, inputs[..|inputs| - 1]), inputs[|inputs| - 1])
  }

  /** Whatever the producer does, it leaves the consumer and what it holds as they were. */
  lemma {:induction false} HeldThroughout<T>(s: State<T>, inputs: seq<Input<T>>)
    requires Inv(s)
    ensures var t := Producing(s, inputs);
            && Inv(t) && t.consumer == s.consumer && t.holds == s.holds && t.handed == s.handed
            && forall i :: 0 <= i < |s.slots| && s.slots[i].phase == Held ==> t.slots[i] == s.slots[i]
    decreases |inputs|
  {
    if inputs != [] {
      var most, input := inputs[..|inputs| - 1], inputs[|inputs| - 1];
      HeldThroughout(s, most);
      var m := Producing(s, most);
      hide Inv, ProducerStep;
      StepInv(m, ByProducer(input));
      ProducerStepMoves(m, input);
    }
  }

  /** A slot given back is free and no longer held, whatever the producer does while it is being given back. */
  lemma GivenBack<T>(s: State<T>, i: nat, inputs: seq<Input<T>>)
    requires Inv(s) && s.consumer == Away && i in s.holds
    ensures var m := Producing(ConsumerStep(s, Release(i)), inputs);
            var t := ConsumerStep(m, Go);
            && i < |s.slots| && t.slots == m.slots[i := s.slots[i].(phase := Free)]
            && t.holds == s.holds - {i} && t.consumer == Away && t.handed == s.handed
  {
    hide FillingOwned, Logged, Stamping, Below, Distinct, Ascending, Discarded, Searched, Found, Beyond, PutBack;
    var r := ConsumerStep(s, Release(i));
    assert r.consumer == Releasing(Seen(i, s.slots[i].stamp)) && r.slots == s.slots;
    StepInv(s, ByConsumer(Release(i)));
    HeldThroughout(r, inputs);
  }

  /** Giving back what is not held changes nothing. */
  lemma NotHeldIsNotGivenBack<T>(s: State<T>, i: nat)
    requires Inv(s) && s.consumer == Away && i !in s.holds
    ensures ConsumerStep(s, Release(i)) == s
  {
    hide FillingOwned, Logged, Stamping, Below, Distinct, Ascending, Discarded, Searched, Found, Beyond, PutBack;
  }

  /** At this step a slot with this stamp, held, was found open through a gate. */
  ghost predicate OpenedAt<T>(n: nat, blank: T, actions: seq<Action<T>>, k: nat, stamp: nat, gate: nat) {
    && k < |actions| && actions[k].ByConsumer? && actions[k].input.Check? && actions[k].input.check(gate) == Open
    && var s := Run(New(n, blank), actions[..k]);
    && s.consumer.Recheck? && s.consumer.seen.stamp == stamp && Matches(s, s.consumer.seen, Held)
    && s.slots[s.consumer.seen.i].gate == gate
  }

  predicate PastCheck(c: Consumer) { c.Discard? || c.Drop? || c.Reading? }

  lemma CheckStep<T>(s: State<T>, a: Action<T>)
    requires PastCheck(Step(s, a).consumer)
    ensures var seen := Step(s, a).consumer.seen;
            || (PastCheck(s.consumer) && s.consumer.seen == seen)
            || (&& s.consumer.Recheck? && s.consumer.seen == seen && seen.i < |s.slots|
                && a.ByConsumer? && a.input.Check? && a.input.check(s.slots[seen.i].gate) == Open)
  {
    hide Matches, Moved;
  }

  lemma HandStep<T>(s: State<T>, a: Action<T>)
    ensures var t := Step(s, a);
            || t.handed == s.handed
            || (&& s.consumer.Reading? && |t.handed| == |s.handed| + 1 && t.handed[..|s.handed|] == s.handed
                && t.handed[|s.handed|].stamp == s.consumer.seen.stamp)
    ensures s.log <= Step(s, a).log
  {
    hide Matches, Moved;
  }

  lemma {:induction false} LogGrows<T>(n: nat, blank: T, actions: seq<Action<T>>, k: nat)
    requires k <= |actions|
    ensures Run(New(n, blank), actions[..k]).log <= Run(New(n, blank), actions).log
    decreases |actions|
  {
    var last := |actions| - 1;
    if k == |actions| {
      assert actions[..k] == actions;
    } else {
      hide Step;
      LogGrows(n, blank, actions[..last], k);
      assert actions[..last][..k] == actions[..k];
      HandStep(Run(New(n, blank), actions[..last]), actions[last]);
    }
  }

  /** A slot the consumer has in hand past its check was found open while held. */
  lemma {:induction false} InHandOpened<T>(n: nat, blank: T, actions: seq<Action<T>>) returns (k: nat, gate: nat)
    requires PastCheck(Run(New(n, blank), actions).consumer)
    ensures OpenedAt(n, blank, actions, k, Run(New(n, blank), actions).consumer.seen.stamp, gate)
    decreases |actions|
  {
    var last := |actions| - 1;
    assert actions != [];
    var s := Run(New(n, blank), actions[..last]);
    CheckStep(s, actions[last]);
    RunInv(n, blank, actions[..last]);
    if PastCheck(s.consumer) && s.consumer.seen == Run(New(n, blank), actions).consumer.seen {
      hide Step, Inv;
      k, gate := InHandOpened(n, blank, actions[..last]);
      assert actions[..last][..k] == actions[..k];
    } else {
      hide Step;
      k, gate := last, s.slots[s.consumer.seen.i].gate;
      assert HeldOwned(s);
    }
  }

  lemma {:induction false} HandedOpened<T>(n: nat, blank: T, actions: seq<Action<T>>, h: nat)
    returns (k: nat, gate: nat)
    requires h < |Run(New(n, blank), actions).handed|
    ensures OpenedAt(n, blank, actions, k, Run(New(n, blank), actions).handed[h].stamp, gate)
    decreases |actions|
  {
    var last := |actions| - 1;
    assert actions != [];
    var s := Run(New(n, blank), actions[..last]);
    assert Run(New(n, blank), actions) == Step(s, actions[last]);
    hide Step, OpenedAt, Run, New;
    HandStep(s, actions[last]);
    if h < |s.handed| {
      k, gate := HandedOpened(n, blank, actions[..last], h);
      assert Run(New(n, blank), actions).handed[..|s.handed|] == s.handed;
    } else {
      k, gate := InHandOpened(n, blank, actions[..last]);
    }
    OpenedLonger(n, blank, actions, last, k, Run(New(n, blank), actions).handed[h].stamp, gate);
  }

  lemma OpenedLonger<T>(n: nat, blank: T, actions: seq<Action<T>>, last: nat, k: nat, stamp: nat, gate: nat)
    requires last <= |actions| && OpenedAt(n, blank, actions[..last], k, stamp, gate)
    ensures OpenedAt(n, blank, actions, k, stamp, gate)
  {
    hide Run;
    assert actions[..last][..k] == actions[..k];
  }

  /**
    * What is handed out is what was published under the stamp it is handed out under, above what was asked, and
    * was found open, while held, through the gate it was published with.
    */
  lemma HandedAsPublished<T>(n: nat, blank: T, actions: seq<Action<T>>, h: nat) returns (k: nat, gate: nat)
    requires h < |Run(New(n, blank), actions).handed|
    ensures var s := Run(New(n, blank), actions);
            && 0 < s.handed[h].stamp <= |s.log| && s.log[s.handed[h].stamp - 1] == (s.handed[h].payload, gate)
            && s.handed[h].after < s.handed[h].stamp && OpenedAt(n, blank, actions, k, s.handed[h].stamp, gate)
  {
    k, gate := HandedOpened(n, blank, actions, h);
    hide Run;
    RunInv(n, blank, actions);
    RunInv(n, blank, actions[..k]);
    LogGrows(n, blank, actions, k);
    var at := Run(New(n, blank), actions[..k]);
    assert LoggedAt(at, at.slots[at.consumer.seen.i]);
  }

  /** No picture is handed out twice, nor after a newer one, whatever stamp is asked to be passed. */
  lemma HandedOutAscending<T>(n: nat, blank: T, actions: seq<Action<T>>, j: nat, k: nat)
    requires j < k < |Run(New(n, blank), actions).handed|
    ensures Run(New(n, blank), actions).handed[j].stamp < Run(New(n, blank), actions).handed[k].stamp
  {
    hide Run;
    RunInv(n, blank, actions);
  }

  /** A slot taken is the newest published, but for any published, or found not open, since the search began. */
  lemma TakesTheNewest<T>(s: State<T>, j: nat)
    requires Inv(s) && s.consumer.Take? && Matches(s, s.consumer.seen, Ready)
    requires j < |s.slots| && s.slots[j].phase == Ready && j !in s.since && j !in s.barred
    ensures s.slots[j].stamp <= s.consumer.seen.stamp
    ensures var t := ConsumerStep(s, Go);
            t.slots[s.consumer.seen.i].phase == Held && InHand(t.consumer) == Some(s.consumer.seen)
  {
    hide FillingOwned, HeldOwned, Logged, Stamping, Below, Distinct, Ascending, Discarded, Searched, Beyond;
  }

  /** A slot stolen is the oldest published, but for any the consumer put back since the search began. */
  lemma StealsTheOldest<T>(s: State<T>, j: nat)
    requires Inv(s) && s.producer.Steal? && Matches(s, s.producer.seen, Ready)
    requires j < |s.slots| && s.slots[j].phase == Ready && j !in s.back
    ensures s.producer.seen.stamp <= s.slots[j].stamp
    ensures var t := ProducerStep(s, Go);
            t.slots[s.producer.seen.i].phase == Filling && t.producer == Fill(s.producer.seen.i)
  {
    hide FillingOwned, HeldOwned, Logged, Stamping, Below, Distinct, Ascending, Discarded, Found, Beyond;
  }

  /** A published slot the consumer lets go unseen is older than the one it has in hand. */
  lemma TakingFreesOnlyOlder<T>(s: State<T>, input: Input<T>, i: nat)
    requires Inv(s) && i < |s.slots| && s.slots[i].phase == Ready
    requires |ConsumerStep(s, input).slots| == |s.slots| && ConsumerStep(s, input).slots[i].phase == Free
    ensures InHand(s.consumer).Some? && s.slots[i].stamp < InHand(s.consumer).value.stamp
  {
    hide FillingOwned, HeldOwned, Logged, Stamping, Below, Distinct, Ascending, Searched, Found, Beyond;
  }

  // When begin gives up.

  lemma CountStep<T>(s: State<T>, a: Action<T>)
    requires var p := Step(s, a).producer; p.Count? || p.Refused?
    ensures var held := Step(s, a).producer.held;
            held == HeldSlots(s) || ((s.producer.Count? || s.producer.Refused?) && s.producer.held == held)
  {
    hide HeldSlots, Matches, Moved;
  }

  lemma {:induction false} CountBegan<T>(n: nat, blank: T, actions: seq<Action<T>>) returns (k: nat)
    requires var p := Run(New(n, blank), actions).producer; p.Count? || p.Refused?
    ensures k <= |actions| && HeldSlots(Run(New(n, blank), actions[..k])) == Run(New(n, blank), actions).producer.held
    decreases |actions|
  {
    assert actions != [];
    var last := |actions| - 1;
    var s := Run(New(n, blank), actions[..last]);
    hide Step, HeldSlots;
    CountStep(s, actions[last]);
    k := last;
    if HeldSlots(s) != Run(New(n, blank), actions).producer.held {
      k := CountBegan(n, blank, actions[..last]);
      assert actions[..last][..k] == actions[..k];
    }
  }

  /** A gate found not open while its slot was held is not found open at this step. */
  predicate Honest<T>(s: State<T>, a: Action<T>) {
    a.ByConsumer? && a.input.Check? && (s.consumer.Look? || s.consumer.Recheck?) && s.consumer.seen.i < |s.slots| ==>
      var gate := s.slots[s.consumer.seen.i].gate; gate in s.refused ==> a.input.check(gate) != Open
  }

  /** No gate found not open while its slot was held is found open again. */
  ghost predicate NoneReopens<T>(n: nat, blank: T, actions: seq<Action<T>>) {
    forall k :: 0 <= k < |actions| ==> Honest(Run(New(n, blank), actions[..k]), actions[k])
  }

  /** The slot the consumer means to take. */
  function Candidate(c: Consumer): Option<Seen> {
    match c
    case Scan(_, _, newest) => newest
    case Look(_, _, newest) => newest
    case Take(seen, _) => Some(seen)
    case _ => None
  }

  /** What the consumer means to take is behind a gate never found not open. */
  ghost predicate Pledged<T>(s: State<T>) {
    var c := Candidate(s.consumer);
    && (c.Some? ==> c.value.stamp < Top(s) && (Matches(s, c.value, Ready) ==> s.slots[c.value.i].gate !in s.refused))
    && (s.consumer.Look? ==> s.consumer.seen.stamp < Top(s))
  }

  /** Every slot held, or counted as taken, was held when the count began. */
  ghost predicate Counted<T>(s: State<T>) {
    match s.producer
    case Count(i, taken, held) =>
      && (forall j :: 0 <= j < |s.slots| && s.slots[j].phase == Held ==> j in held)
      && (taken == i ==> forall j :: 0 <= j < i ==> j in held)
    case Refused(held) => forall j :: 0 <= j < |s.slots| ==> j in held
    case _ => true
  }

  lemma ProducerKeepsPledged<T>(s: State<T>, t: State<T>)
    requires ProducerMoves(s, t) && Pledged(s)
    ensures Pledged(t)
  {
  }

  lemma ConsumerPledges<T>(s: State<T>, input: Input<T>)
    requires Pledged(s) && Below(s) && Honest(s, ByConsumer(input))
    ensures Pledged(ConsumerStep(s, input))
  {
  }

  lemma ProducerCounts<T>(s: State<T>, input: Input<T>)
    requires FillingOwned(s) && Searched(s) && Counted(s)
    ensures Counted(ProducerStep(s, input))
  {
  }

  lemma ConsumerKeepsCounted<T>(s: State<T>, t: State<T>)
    requires ConsumerMoves(s, t) && Searched(s) && PutBack(s) && Pledged(s) && Counted(s)
    ensures Counted(t)
  {
  }

  lemma {:induction false} RunCounted<T>(n: nat, blank: T, actions: seq<Action<T>>)
    requires NoneReopens(n, blank, actions)
    ensures Pledged(Run(New(n, blank), actions)) && Counted(Run(New(n, blank), actions))
    decreases |actions|
  {
    if actions != [] {
      var last := |actions| - 1;
      forall k | 0 <= k < last ensures Honest(Run(New(n, blank), actions[..last][..k]), actions[..last][k]) {
        assert actions[..last][..k] == actions[..k];
      }
      assert Run(New(n, blank), actions) == Step(Run(New(n, blank), actions[..last]), actions[last]);
      hide Inv, Pledged, Counted, Honest, Step, Run, New;
      RunCounted(n, blank, actions[..last]);
      RunInv(n, blank, actions[..last]);
      StepCounted(Run(New(n, blank), actions[..last]), actions[last]);
    }
  }

  lemma StepCounted<T>(s: State<T>, a: Action<T>)
    requires Inv(s) && Pledged(s) && Counted(s) && Honest(s, a)
    ensures Pledged(Step(s, a)) && Counted(Step(s, a))
  {
    var t := Step(s, a);
    hide ProducerStep, ConsumerStep, FillingOwned, HeldOwned, Logged, Stamping, Below, Distinct, Ascending, Discarded,
         Searched, Found, Beyond, PutBack, ProducerMoves, ConsumerMoves, Pledged, Counted, Honest;
    match a {
      case ByProducer(input) =>
        ProducerStepMoves(s, input);
        ProducerKeepsPledged(s, t);
        ProducerCounts(s, input);
      case ByConsumer(input) =>
        ConsumerStepMoves(s, input);
        ConsumerPledges(s, input);
        ConsumerKeepsCounted(s, t);
    }
  }

  /** begin answers with nothing only if, at one instant, every slot was held, when no gate reopens. */
  lemma RefusedOnlyWhenAllHeld<T>(n: nat, blank: T, actions: seq<Action<T>>) returns (k: nat)
    requires NoneReopens(n, blank, actions) && Run(New(n, blank), actions).producer.Refused?
    ensures k <= |actions| && forall i :: 0 <= i < n ==> Run(New(n, blank), actions[..k]).slots[i].phase == Held
  {
    hide Run, NoneReopens, Pledged, Inv;
    RunCounted(n, blank, actions);
    k := CountBegan(n, blank, actions);
    var s := Run(New(n, blank), actions[..k]);
    forall i | 0 <= i < n ensures s.slots[i].phase == Held {
      assert i in HeldSlots(s);
    }
  }

  /** The consumer never has more than so many slots handed out and not given back. */
  ghost predicate HoldsAtMost<T>(n: nat, blank: T, actions: seq<Action<T>>, most: nat) {
    forall k :: 0 <= k <= |actions| ==> |Run(New(n, blank), actions[..k]).holds| <= most
  }

  /** With two slots more than the consumer ever holds, and no gate that reopens, begin always finds one to fill. */
  lemma SlotToFill<T>(n: nat, blank: T, actions: seq<Action<T>>, most: nat)
    requires n >= most + 2 && HoldsAtMost(n, blank, actions, most) && NoneReopens(n, blank, actions)
    ensures !Run(New(n, blank), actions).producer.Refused?
  {
    hide Run, NoneReopens;
    if Run(New(n, blank), actions).producer.Refused? {
      var k := RefusedOnlyWhenAllHeld(n, blank, actions);
      var s := Run(New(n, blank), actions[..k]);
      RunInv(n, blank, actions[..k]);
      FewHeld(s);
    }
  }

  lemma FewHeld<T>(s: State<T>)
    requires HeldOwned(s) && forall i :: 0 <= i < |s.slots| ==> s.slots[i].phase == Held
    ensures |s.slots| <= |s.holds| + 1
  {
    var had := s.holds + if InHand(s.consumer).Some? then {InHand(s.consumer).value.i} else {};
    Larger(Indices(|s.slots|), had);
  }

  function Indices(n: nat): (all: set<nat>)
    ensures |all| == n && forall i: nat :: i in all <==> i < n
  {
    if n == 0 then {} else Indices(n - 1) + {n - 1}
  }

  lemma {:induction false} Larger(a: set<nat>, b: set<nat>)
    requires a <= b
    ensures |a| <= |b|
  {
    if a != {} {
      var x :| x in a;
      Larger(a - {x}, b - {x});
    }
  }

  /** Four slots and a consumer that holds at most two: begin always finds a slot to fill, if no gate reopens. */
  lemma FourSlotsAreEnough<T>(blank: T, actions: seq<Action<T>>)
    requires HoldsAtMost(4, blank, actions, 2) && NoneReopens(4, blank, actions)
    ensures !Run(New(4, blank), actions).producer.Refused?
  {
    hide Run, NoneReopens, HoldsAtMost;
    SlotToFill(4, blank, actions, 2);
  }
}
