/**
  * What each call on the latest-wins ring comes to when the other thread takes no step until it is over: begin,
  * publish and reopen for the producer, acquire for the consumer.
  */
module LatestAlone {
  import opened Common
  import opened LatestRing

  function ProducerOn<T>(s: State<T>, steps: nat): State<T>
    decreases steps
  {
    if steps == 0 then s else ProducerOn(ProducerStep(s, Go), steps - 1)
  }

  ghost predicate Reaches<T>(s: State<T>, t: State<T>) { exists steps: nat :: ProducerOn(s, steps) == t }

  lemma Here<T>(s: State<T>)
    ensures Reaches(s, s)
  {
    assert ProducerOn(s, 0) == s;
  }

  lemma Further<T>(s: State<T>, t: State<T>)
    requires Reaches(ProducerStep(s, Go), t)
    ensures Reaches(s, t)
  {
    var steps: nat :| ProducerOn(ProducerStep(s, Go), steps) == t;
    assert ProducerOn(s, steps + 1) == t;
  }

  predicate AllIn<T>(s: State<T>, from: nat, phases: set<Phase>) {
    forall i :: from <= i < |s.slots| ==> s.slots[i].phase in phases
  }

  // begin

  lemma {:induction false} FirstFreeClaimed<T>(s: State<T>, i: nat, j: nat)
    requires s.producer == ScanFree(i) && i <= j < |s.slots| && s.slots[j].phase == Free
    requires forall k :: i <= k < j ==> s.slots[k].phase != Free
    ensures Reaches(s, s.(slots := Moved(s, j, Filling), producer := Fill(j)))
    decreases j - i
  {
    hide Reaches;
    var next := ProducerStep(s, Go);
    var t := s.(slots := Moved(s, j, Filling), producer := Fill(j));
    if i < j {
      FirstFreeClaimed(next, i + 1, j);
    } else {
      assert ProducerStep(next, Go) == t;
      Here(t);
      Further(next, t);
    }
    Further(s, t);
  }

  lemma {:induction false} NoFreePassed<T>(s: State<T>, i: nat, t: State<T>)
    requires s.producer == ScanFree(i) && i <= |s.slots| && AllIn(s, i, {Filling, Ready, Held})
    requires Reaches(s.(producer := ScanReady(0, None)), t)
    ensures Reaches(s, t)
    decreases |s.slots| - i
  {
    hide Reaches;
    if i < |s.slots| { NoFreePassed(ProducerStep(s, Go), i + 1, t); }
    Further(s, t);
  }

  /** Of the slots below, this is the one published longest ago. */
  predicate OldestBelow<T>(s: State<T>, upto: nat, oldest: Option<Seen>) {
    && (oldest.Some? ==> oldest.value.i < upto && Matches(s, oldest.value, Ready))
    && forall j :: 0 <= j < |s.slots| && j < upto && s.slots[j].phase == Ready ==>
         oldest.Some? && oldest.value.stamp <= s.slots[j].stamp
  }

  lemma {:induction false} OldestFound<T(!new)>(s: State<T>, i: nat, oldest: Option<Seen>) returns (found: Option<Seen>)
    requires s.producer == ScanReady(i, oldest) && i <= |s.slots| && OldestBelow(s, i, oldest)
    ensures OldestBelow(s, |s.slots|, found)
    ensures forall t :: Reaches(s.(producer := ScanReady(|s.slots|, found)), t) ==> Reaches(s, t)
    decreases |s.slots| - i
  {
    hide Reaches;
    found := oldest;
    if i < |s.slots| {
      var next := ProducerStep(s, Go);
      assert next.slots == s.slots && next.producer.ScanReady? && next.producer.i == i + 1;
      assert next == s.(producer := next.producer);
      found := OldestFound(next, i + 1, next.producer.oldest);
      forall t | Reaches(s.(producer := ScanReady(|s.slots|, found)), t) ensures Reaches(s, t) {
        assert next.(producer := ScanReady(|s.slots|, found)) == s.(producer := ScanReady(|s.slots|, found));
        Further(s, t);
      }
    }
  }

  lemma {:induction false} CountedToTheEnd<T>(s: State<T>, i: nat, held: set<nat>)
    requires s.producer == Count(i, i, held) && i <= |s.slots| && AllIn(s, 0, {Held})
    ensures Reaches(s, s.(producer := Refused(held)))
    decreases |s.slots| - i
  {
    hide Reaches;
    var t := s.(producer := Refused(held));
    if i < |s.slots| { CountedToTheEnd(ProducerStep(s, Go), i + 1, held); } else { Here(t); }
    Further(s, t);
  }

  /** From a search that found no slot free: the oldest published is taken, or with none all are held. */
  lemma OldestTaken<T(!new)>(s: State<T>) returns (t: State<T>)
    requires s.producer == ScanReady(0, None) && AllIn(s, 0, {Ready, Held})
    ensures Reaches(s, t) && t == s.(slots := t.slots, producer := t.producer)
    ensures t.producer.Fill? || (t.producer.Refused? && t.slots == s.slots && AllIn(s, 0, {Held}))
    ensures t.producer.Fill? ==>
              var i := t.producer.i;
              && i < |s.slots| && s.slots[i].phase == Ready && t.slots == Moved(s, i, Filling)
              && forall j :: 0 <= j < |s.slots| && s.slots[j].phase == Ready ==> s.slots[i].stamp <= s.slots[j].stamp
  {
    hide Reaches;
    var found := OldestFound(s, 0, None);
    var m := s.(producer := ScanReady(|s.slots|, found));
    var next := ProducerStep(m, Go);
    if found.Some? {
      t := ProducerStep(next, Go);
      Here(t);
      Further(next, t);
    } else {
      t := next.(producer := Refused(HeldSlots(m)));
      CountedToTheEnd(next, 0, HeldSlots(m));
    }
    Further(m, t);
  }

  /**
    * begin, alone: the first slot free, with none free the one published longest ago, and nothing exactly when
    * every slot is held. No other slot changes.
    */
  lemma BeginAlone<T(!new)>(s: State<T>) returns (t: State<T>)
    requires Inv(s) && (s.producer.Idle? || s.producer.Refused?)
    ensures Reaches(ProducerStep(s, Begin), t) && t == s.(slots := t.slots, producer := t.producer, back := {})
    ensures t.producer.Fill? || (t.producer.Refused? && t.slots == s.slots)
    ensures t.producer.Refused? <==> AllIn(s, 0, {Held})
    ensures t.producer.Fill? ==>
              var i := t.producer.i;
              && i < |s.slots| && t.slots == s.slots[i := s.slots[i].(phase := Filling)]
              && (s.slots[i].phase == Free || s.slots[i].phase == Ready)
              && (s.slots[i].phase == Free ==> forall j :: 0 <= j < i ==> s.slots[j].phase != Free)
              && (s.slots[i].phase == Ready ==>
                    && AllIn(s, 0, {Ready, Held})
                    && forall j :: 0 <= j < |s.slots| && s.slots[j].phase == Ready ==>
                         s.slots[i].stamp <= s.slots[j].stamp)
  {
    assert FillingOwned(s);
    hide Reaches, Inv;
    var m := ProducerStep(s, Begin);
    assert m == s.(producer := ScanFree(0), back := {});
    if i: nat :| FirstFree(s, i) {
      FirstFreeClaimed(m, 0, i);
      t := m.(slots := Moved(m, i, Filling), producer := Fill(i));
    } else {
      NoneFirst(s, |s.slots|);
      t := OldestTaken(m.(producer := ScanReady(0, None)));
      NoFreePassed(m, 0, t);
    }
  }

  predicate FirstFree<T>(s: State<T>, i: nat) {
    i < |s.slots| && s.slots[i].phase == Free && forall j :: 0 <= j < i ==> s.slots[j].phase != Free
  }

  /** With no first slot free there is none. */
  lemma {:induction false} NoneFirst<T>(s: State<T>, upto: nat)
    requires upto <= |s.slots| && forall i :: 0 <= i < |s.slots| ==> !FirstFree(s, i)
    ensures forall i :: 0 <= i < upto ==> s.slots[i].phase != Free
  {
    if upto > 0 {
      NoneFirst(s, upto - 1);
      assert !FirstFree(s, upto - 1);
    }
  }

  // Filling, and reopening.

  /** publish, alone: the slot is ready with what it was filled with, under the next number and the gate given. */
  lemma PublishAlone<T>(s: State<T>, payload: T, gate: nat)
    requires Inv(s) && s.producer.Fill?
    ensures var i := s.producer.i;
            var t := ProducerOn(ProducerStep(ProducerStep(s, Set(payload)), Publish(gate)), 2);
            && i < |s.slots| && t.slots == s.slots[i := Slot(Ready, s.next, gate, payload)]
            && t.producer == Idle && t.next == s.next + 1 && t.log == s.log + [(payload, gate)]
            && t.consumer == s.consumer && t.holds == s.holds && t.handed == s.handed
  {
    assert FillingOwned(s) && Below(s);
    hide Inv;
    var a := ProducerStep(ProducerStep(s, Set(payload)), Publish(gate));
    var b := ProducerStep(a, Go);
    assert ProducerOn(a, 2) == ProducerOn(b, 1) == ProducerStep(b, Go);
  }

  /** A slot dropped unpublished is free again, and nothing of it is published. */
  lemma AbandonFrees<T>(s: State<T>)
    requires Inv(s) && s.producer.Fill?
    ensures var i := s.producer.i;
            && i < |s.slots|
            && ProducerStep(s, Abandon) == s.(slots := s.slots[i := s.slots[i].(phase := Free)], producer := Idle)
  {
    assert FillingOwned(s);
  }

  /** What is published from here on let go, all else as it is. */
  predicate LetGoFrom<T(==)>(s: State<T>, t: State<T>, from: nat) {
    && |t.slots| == |s.slots|
    && forall i :: 0 <= i < |s.slots| ==>
         t.slots[i] == if from <= i && s.slots[i].phase == Ready then s.slots[i].(phase := Free) else s.slots[i]
  }

  lemma {:induction false} LetGoOn<T>(s: State<T>, i: nat) returns (t: State<T>)
    requires s.producer == Letting(i) && i <= |s.slots|
    ensures Reaches(s, t) && t == s.(slots := t.slots, producer := Idle) && LetGoFrom(s, t, i)
    decreases |s.slots| - i
  {
    hide Reaches;
    var next := ProducerStep(s, Go);
    if i == |s.slots| {
      t := next;
      Here(t);
    } else if s.slots[i].phase == Ready {
      t := LetGoOn(ProducerStep(next, Go), i + 1);
      Further(next, t);
    } else {
      t := LetGoOn(next, i + 1);
    }
    Further(s, t);
  }

  /** reopen, alone: every slot published is let go, and every other left as it is. */
  lemma ReopenAlone<T>(s: State<T>) returns (t: State<T>)
    requires s.producer.Idle? || s.producer.Refused?
    ensures Reaches(ProducerStep(s, Reopen), t) && t == s.(slots := t.slots, producer := Idle, back := {})
    ensures LetGoFrom(s, t, 0)
  {
    t := LetGoOn(ProducerStep(s, Reopen), 0);
  }

  // acquire

  function ConsumerOn<T>(s: State<T>, check: nat -> Gate, steps: nat): State<T>
    decreases steps
  {
    if steps == 0 then s else ConsumerOn(ConsumerStep(s, Check(check)), check, steps - 1)
  }

  ghost predicate Comes<T>(s: State<T>, check: nat -> Gate, t: State<T>) {
    exists steps: nat :: ConsumerOn(s, check, steps) == t
  }

  lemma There<T>(s: State<T>, check: nat -> Gate)
    ensures Comes(s, check, s)
  {
    assert ConsumerOn(s, check, 0) == s;
  }

  lemma Onward<T>(s: State<T>, check: nat -> Gate, t: State<T>)
    requires Comes(ConsumerStep(s, Check(check)), check, t)
    ensures Comes(s, check, t)
  {
    var steps: nat :| ConsumerOn(ConsumerStep(s, Check(check)), check, steps) == t;
    assert ConsumerOn(s, check, steps + 1) == t;
  }

  predicate Takeable(slot: Slot, after: nat, check: nat -> Gate) {
    slot.phase == Ready && slot.stamp > after && check(slot.gate) == Open
  }

  /** Of the slots below that may be taken, this is the one published last. */
  predicate NewestBelow<T>(s: State<T>, upto: nat, after: nat, check: nat -> Gate, newest: Option<Seen>) {
    && (newest.Some? ==> newest.value.i < upto && newest.value.i < |s.slots|
                         && newest.value.stamp == s.slots[newest.value.i].stamp
                         && Takeable(s.slots[newest.value.i], after, check))
    && forall j :: 0 <= j < |s.slots| && j < upto && Takeable(s.slots[j], after, check) ==>
         newest.Some? && s.slots[j].stamp <= newest.value.stamp
  }

  lemma {:induction false} NewestFound<T(!new)>(s: State<T>, i: nat, after: nat, check: nat -> Gate,
                                                newest: Option<Seen>)
    returns (m: State<T>, found: Option<Seen>)
    requires s.consumer == Scan(i, after, newest) && i <= |s.slots| && NewestBelow(s, i, after, check, newest)
    ensures NewestBelow(s, |s.slots|, after, check, found)
    ensures m == s.(consumer := Scan(|s.slots|, after, found), barred := m.barred)
    ensures forall t :: Comes(m, check, t) ==> Comes(s, check, t)
    decreases |s.slots| - i
  {
    hide Comes;
    m, found := s, newest;
    if i < |s.slots| {
      var next := ConsumerStep(s, Check(check));
      if s.slots[i].phase == Ready && s.slots[i].stamp > after {
        var passed := ConsumerStep(next, Check(check));
        m, found := NewestFound(passed, i + 1, after, check, passed.consumer.newest);
        forall t | Comes(m, check, t) ensures Comes(s, check, t) {
          Onward(next, check, t);
          Onward(s, check, t);
        }
      } else {
        m, found := NewestFound(next, i + 1, after, check, newest);
        forall t | Comes(m, check, t) ensures Comes(s, check, t) { Onward(s, check, t); }
      }
    }
  }

  /** What is published from here on, and older, let go, all else as it is. */
  predicate OlderLetGo<T(==)>(s: State<T>, t: State<T>, from: nat, stamp: nat) {
    && |t.slots| == |s.slots|
    && forall i :: 0 <= i < |s.slots| ==>
         t.slots[i] == if from <= i && s.slots[i].phase == Ready && s.slots[i].stamp < stamp
                       then s.slots[i].(phase := Free) else s.slots[i]
  }

  lemma {:induction false} DiscardOn<T>(s: State<T>, check: nat -> Gate, seen: Seen, after: nat, j: nat)
    returns (t: State<T>)
    requires s.consumer == Discard(seen, after, j) && j <= |s.slots|
    requires seen.i < |s.slots| && s.slots[seen.i].phase == Held
    ensures Comes(s, check, t) && OlderLetGo(s, t, j, seen.stamp)
    ensures t == s.(slots := t.slots, consumer := Away, holds := s.holds + {seen.i},
                    handed := s.handed + [Taken(after, seen.stamp, s.slots[seen.i].payload)])
    decreases |s.slots| - j
  {
    hide Comes;
    var next := ConsumerStep(s, Check(check));
    if j == |s.slots| {
      t := ConsumerStep(next, Check(check));
      There(t, check);
      Onward(next, check, t);
    } else if s.slots[j].phase == Ready && s.slots[j].stamp < seen.stamp {
      t := DiscardOn(ConsumerStep(next, Check(check)), check, seen, after, j + 1);
      Onward(next, check, t);
    } else {
      t := DiscardOn(next, check, seen, after, j + 1);
    }
    Onward(s, check, t);
  }

  /**
    * acquire, alone: the newest slot past the number given, of those open, is held and handed out, every older one
    * published is let go, and no other changes; with none there to take, nothing does.
    */
  lemma AcquireAlone<T(!new)>(s: State<T>, after: nat, check: nat -> Gate) returns (t: State<T>, taken: Option<nat>)
    requires s.consumer == Away
    ensures Comes(ConsumerStep(s, Acquire(after)), check, t) && t.consumer == Away
    ensures t == s.(slots := t.slots, handed := t.handed, holds := t.holds, since := t.since, barred := t.barred)
    ensures taken.None? ==>
              && t.slots == s.slots && t.handed == s.handed && t.holds == s.holds
              && forall j :: 0 <= j < |s.slots| ==> !Takeable(s.slots[j], after, check)
    ensures taken.Some? ==>
              var i := taken.value;
              && i < |s.slots| && Takeable(s.slots[i], after, check)
              && (forall j :: 0 <= j < |s.slots| && Takeable(s.slots[j], after, check) ==>
                    s.slots[j].stamp <= s.slots[i].stamp)
              && OlderLetGo(s.(slots := s.slots[i := s.slots[i].(phase := Held)]), t, 0, s.slots[i].stamp)
              && t.holds == s.holds + {i}
              && t.handed == s.handed + [Taken(after, s.slots[i].stamp, s.slots[i].payload)]
  {
    hide Comes;
    var first := ConsumerStep(s, Acquire(after));
    var m, found := NewestFound(first, 0, after, check, None);
    var next := ConsumerStep(m, Check(check));
    if found.None? {
      t, taken := next, None;
      There(t, check);
    } else {
      var held := ConsumerStep(next, Check(check));
      var kept := ConsumerStep(held, Check(check));
      t := DiscardOn(kept, check, found.value, after, 0);
      taken := Some(found.value.i);
      Onward(held, check, t);
      Onward(next, check, t);
    }
    Onward(m, check, t);
  }
}
