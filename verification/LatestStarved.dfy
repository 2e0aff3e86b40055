/** A run of the latest-wins ring in which begin gives up though not every slot is ever held. */
module LatestStarved {
  import opened Common
  import opened LatestRing

  type Acts = seq<Action<int>>

  /** A check that finds every gate open. */
  function Yes(): Input<int> { Check(_ => Open) }

  /** A check that finds every gate shut but the one that is open to all. */
  function No(): Input<int> { Check(g => if g == 0 then Open else Shut) }

  /** Every check of a run finds gate zero open, as the ring promises of it. */
  predicate ZeroOpen(actions: Acts) {
    forall i :: 0 <= i < |actions| && actions[i].input.Check? ==> actions[i].input.check(0) == Open
  }

  /** Every slot of a run is published behind one gate. */
  predicate PublishedBehind(g: nat, actions: Acts) {
    forall i :: 0 <= i < |actions| && actions[i].input.Publish? ==> actions[i].input.gate == g
  }

  /** A run of a new ring of four that ends in a state. */
  predicate Reaches(g: nat, actions: Acts, s: State<int>) {
    Run(New(4, 0), actions) == s && ZeroOpen(actions) && PublishedBehind(g, actions)
  }

  lemma One(g: nat, actions: Acts, s: State<int>, a: Action<int>) returns (more: Acts)
    requires Reaches(g, actions, s)
    requires (a.input.Check? ==> a.input.check(0) == Open) && (a.input.Publish? ==> a.input.gate == g)
    ensures Reaches(g, more, Step(s, a))
  {
    more := actions + [a];
    assert more[..|more| - 1] == actions;
  }

  lemma ByP(g: nat, actions: Acts, s: State<int>, input: Input<int>) returns (more: Acts)
    requires Reaches(g, actions, s) && !input.Check? && (input.Publish? ==> input.gate == g)
    ensures Reaches(g, more, ProducerStep(s, input))
  {
    hide Reaches, ProducerStep;
    more := One(g, actions, s, ByProducer(input));
  }

  lemma ByC(g: nat, actions: Acts, s: State<int>, input: Input<int>) returns (more: Acts)
    requires Reaches(g, actions, s) && (input.Check? ==> input.check(0) == Open) && !input.Publish?
    ensures Reaches(g, more, ConsumerStep(s, input))
  {
    hide Reaches, ConsumerStep;
    more := One(g, actions, s, ByConsumer(input));
  }

  // Publishing into the first free slot.

  lemma {:induction false} SkipTaken(g: nat, actions: Acts, s: State<int>, i: nat, k: nat) returns (more: Acts)
    requires Reaches(g, actions, s) && s.producer == ScanFree(i) && i <= k <= |s.slots|
    requires forall j :: i <= j < k ==> s.slots[j].phase != Free
    ensures Reaches(g, more, s.(producer := ScanFree(k)))
    decreases k - i
  {
    hide Reaches;
    more := actions;
    if i < k {
      more := ByP(g, more, s, Go);
      more := SkipTaken(g, more, s.(producer := ScanFree(i + 1)), i + 1, k);
    } else {
      assert s.(producer := ScanFree(k)) == s;
    }
  }

  function Published(s: State<int>, k: nat, payload: int, gate: nat): State<int>
    requires k < |s.slots|
  {
    s.(slots := s.slots[k := Slot(Ready, s.next, gate, payload)], next := s.next + 1, log := s.log + [(payload, gate)],
       back := {}, since := s.since + {k})
  }

  lemma PublishInto(g: nat, actions: Acts, s: State<int>, k: nat, payload: int) returns (more: Acts)
    requires Reaches(g, actions, s) && s.producer == Idle && k < |s.slots| && s.slots[k].phase == Free
    requires forall j :: 0 <= j < k ==> s.slots[j].phase != Free
    ensures Reaches(g, more, Published(s, k, payload, g))
  {
    hide Reaches;
    more := ByP(g, actions, s, Begin);
    var s1 := s.(back := {}, producer := ScanFree(0));
    more := SkipTaken(g, more, s1, 0, k);
    var s2 := s1.(producer := ScanFree(k));
    more := ByP(g, more, s2, Go);
    more := ByP(g, more, ProducerStep(s2, Go), Go);
    var s3 := s2.(slots := s.slots[k := s.slots[k].(phase := Filling)], producer := Fill(k));
    more := StampAndShow(g, more, s3, k, payload);
    assert Published(s3, k, payload, g).slots == Published(s, k, payload, g).slots;
  }

  lemma StampAndShow(g: nat, actions: Acts, s: State<int>, k: nat, payload: int) returns (more: Acts)
    requires Reaches(g, actions, s) && s.producer == Fill(k) && k < |s.slots| && s.back == {}
    ensures Reaches(g, more, Published(s, k, payload, g).(producer := Idle))
  {
    hide Reaches;
    var slot := s.slots[k].(payload := payload);
    var s1 := s.(slots := s.slots[k := slot]);
    more := ByP(g, actions, s, Set(payload));
    more := ByP(g, more, s1, Publish(g));
    var s2 := s1.(producer := Stamped(k, g), next := s.next + 1, log := s.log + [(payload, g)]);
    more := ByP(g, more, s2, Go);
    var s3 := s2.(slots := s.slots[k := slot.(gate := g)], producer := Gated(k));
    assert s3.slots == ProducerStep(s2, Go).slots;
    more := ByP(g, more, s3, Go);
    var done := Published(s, k, payload, g).(producer := Idle);
    assert ProducerStep(s3, Go).slots == done.slots;
    assert ProducerStep(s3, Go) == done;
  }

  // Taking one slot of those published.

  ghost predicate Gates(s: State<int>) {
    forall j :: 0 <= j < |s.slots| && s.slots[j].phase == Ready ==> s.slots[j].gate > 0 && s.slots[j].stamp > 0
  }

  /** The rest of a search in which one slot is found open and no other. */
  lemma {:induction false} ScanFor(g: nat, actions: Acts, s: State<int>, i: nat, j: nat)
    returns (more: Acts, barred: set<nat>)
    requires Reaches(g, actions, s) && Gates(s) && i < |s.slots| && j <= |s.slots| && s.slots[i].phase == Ready
    requires s.consumer == Scan(j, 0, if j > i then Some(Seen(i, s.slots[i].stamp)) else None)
    ensures Reaches(g, more, s.(consumer := Scan(|s.slots|, 0, Some(Seen(i, s.slots[i].stamp))), barred := barred))
    decreases |s.slots| - j
  {
    hide Reaches;
    more, barred := actions, s.barred;
    if j < |s.slots| {
      more := ByC(g, more, s, Go);
      var t := ConsumerStep(s, Go);
      if s.slots[j].phase == Ready {
        more := ByC(g, more, t, if j == i then Yes() else No());
        t := ConsumerStep(t, if j == i then Yes() else No());
      }
      more, barred := ScanFor(g, more, t, i, j + 1);
    } else {
      assert s.(barred := barred) == s;
    }
  }

  /** The consumer, its search begun, takes a slot. */
  lemma TakeFor(g: nat, actions: Acts, s: State<int>, i: nat) returns (more: Acts, barred: set<nat>)
    requires Reaches(g, actions, s) && Gates(s) && s.consumer == Scan(0, 0, None)
    requires i < |s.slots| && s.slots[i].phase == Ready
    ensures var seen := Seen(i, s.slots[i].stamp);
            Reaches(g, more, s.(slots := Moved(s, i, Held), consumer := Recheck(seen, 0), barred := barred))
  {
    hide Reaches;
    more, barred := ScanFor(g, actions, s, i, 0);
    var seen := Seen(i, s.slots[i].stamp);
    var s1 := s.(consumer := Scan(|s.slots|, 0, Some(seen)), barred := barred);
    more := ByC(g, more, s1, Go);
    var s2 := s1.(consumer := Take(seen, 0));
    more := ByC(g, more, s2, Go);
  }

  lemma {:induction false} SkipDiscards(g: nat, actions: Acts, s: State<int>, j: nat) returns (more: Acts)
    requires Reaches(g, actions, s) && s.consumer.Discard? && s.consumer.j == j <= |s.slots|
    requires forall k :: 0 <= k < |s.slots| ==> s.slots[k].phase != Ready
    ensures Reaches(g, more, s.(consumer := s.consumer.(j := |s.slots|)))
    decreases |s.slots| - j
  {
    hide Reaches;
    more := actions;
    if j < |s.slots| {
      more := ByC(g, more, s, Go);
      more := SkipDiscards(g, more, s.(consumer := s.consumer.(j := j + 1)), j + 1);
    } else {
      assert s.(consumer := s.consumer.(j := j)) == s;
    }
  }

  /** The consumer is handed the only slot published, and keeps it. */
  lemma Keep(g: nat, actions: Acts, s: State<int>, i: nat) returns (more: Acts, t: State<int>)
    requires Reaches(g, actions, s) && s.consumer == Away && Gates(s) && i < |s.slots| && s.slots[i].phase == Ready
    requires forall j :: 0 <= j < |s.slots| && j != i ==> s.slots[j].phase != Ready
    ensures Reaches(g, more, t) && t.producer == s.producer && t.consumer == Away && t.slots == Moved(s, i, Held)
    ensures t.next == s.next && |t.handed| == |s.handed| + 1
  {
    hide Reaches;
    more := ByC(g, actions, s, Acquire(0));
    var barred;
    more, barred := TakeFor(g, more, Rescan(s, 0), i);
    var seen := Seen(i, s.slots[i].stamp);
    var s1 := Rescan(s, 0).(slots := Moved(s, i, Held), consumer := Recheck(seen, 0), barred := barred);
    more := ByC(g, more, s1, Yes());
    var s2 := s1.(consumer := Discard(seen, 0, 0));
    more := SkipDiscards(g, more, s2, 0);
    var s3 := s2.(consumer := Discard(seen, 0, |s.slots|));
    more := ByC(g, more, s3, Go);
    var s4 := s3.(consumer := LatestRing.Reading(seen, 0));
    more := ByC(g, more, s4, Go);
    t := ConsumerStep(s4, Go);
  }

  // Taking turns with the last two slots.

  /** Two slots handed out, two published, and one of those in the consumer's hand. */
  ghost predicate Turning(s: State<int>, i: nat) {
    && 2 <= i < 4 && |s.slots| == 4 && s.slots[0].phase == s.slots[1].phase == s.slots[i].phase == Held
    && s.slots[5 - i].phase == Ready && s.slots[2].gate > 0 && s.slots[3].gate > 0
    && s.slots[2].stamp > 0 && s.slots[3].stamp > 0
    && s.consumer == Recheck(Seen(i, s.slots[i].stamp), 0) && |s.handed| == 2
  }

  /** The consumer finds its slot shut after all, and takes the other. */
  lemma Swap(g: nat, actions: Acts, s: State<int>, i: nat) returns (more: Acts, t: State<int>)
    requires Reaches(g, actions, s) && Turning(s, i)
    ensures Reaches(g, more, t) && Turning(t, 5 - i) && t.producer == s.producer
  {
    hide Reaches;
    more := ByC(g, actions, s, No());
    var s1 := ConsumerStep(s, No());
    assert s1.slots == Moved(s, i, Ready) && s1.consumer == Scan(0, 0, None);
    var barred;
    more, barred := TakeFor(g, more, s1, 5 - i);
    var seen := Seen(5 - i, s1.slots[5 - i].stamp);
    t := s1.(slots := Moved(s1, 5 - i, Held), consumer := Recheck(seen, 0), barred := barred);
  }

  /** The producer takes one step of its search. */
  lemma SearchOn(g: nat, actions: Acts, s: State<int>, i: nat, p: Producer) returns (more: Acts, t: State<int>)
    requires Reaches(g, actions, s) && Turning(s, i) && ProducerStep(s, Go) == s.(producer := p)
    ensures Reaches(g, more, t) && Turning(t, i) && t == s.(producer := p)
  {
    hide Reaches, ProducerStep;
    more := ByP(g, actions, s, Go);
    t := s.(producer := p);
  }

  /** Two slots handed out, and two more published. */
  lemma SetUp(g: nat) returns (actions: Acts, s: State<int>)
    requires g > 0
    ensures Reaches(g, actions, s) && s.producer == Idle && s.consumer == Away && |s.slots| == 4
    ensures |s.handed| == 2 && Gates(s)
    ensures s.slots[0].phase == s.slots[1].phase == Held && s.slots[2].phase == s.slots[3].phase == Ready
  {
    actions, s := [], New(4, 0);
    hide Reaches;
    assert Reaches(g, actions, s);
    actions := PublishInto(g, actions, s, 0, 10);
    actions, s := Keep(g, actions, Published(s, 0, 10, g), 0);
    actions := PublishInto(g, actions, s, 1, 20);
    actions, s := Keep(g, actions, Published(s, 1, 20, g), 1);
    actions := PublishInto(g, actions, s, 2, 30);
    s := Published(s, 2, 30, g);
    actions := PublishInto(g, actions, s, 3, 40);
    s := Published(s, 3, 40, g);
  }

  /** From the set-up the producer searches, and the consumer takes the third slot in hand. */
  lemma SearchBegun(g: nat) returns (actions: Acts, s: State<int>)
    requires g > 0
    ensures Reaches(g, actions, s) && Turning(s, 2) && s.producer == ScanReady(0, None)
  {
    hide Reaches;
    actions, s := SetUp(g);
    actions := ByP(g, actions, s, Begin);
    s := s.(back := {}, producer := ScanFree(0));
    actions := SkipTaken(g, actions, s, 0, 4);
    s := s.(producer := ScanFree(4));
    actions := ByP(g, actions, s, Go);
    s := s.(producer := ScanReady(0, None));
    actions := ByC(g, actions, s, Acquire(0));
    s := Rescan(s, 0);
    var barred;
    actions, barred := TakeFor(g, actions, s, 2);
    s := s.(slots := Moved(s, 2, Held), consumer := Recheck(Seen(2, s.slots[2].stamp), 0), barred := barred);
  }

  /** The producer's two looks at every slot find each of them held. */
  lemma EachFoundHeld(g: nat) returns (actions: Acts, s: State<int>)
    requires g > 0
    ensures Reaches(g, actions, s) && Turning(s, 3) && s.producer.Refused?
  {
    hide Reaches;
    actions, s := SearchBegun(g);
    actions, s := SearchOn(g, actions, s, 2, ScanReady(1, None));
    actions, s := SearchOn(g, actions, s, 2, ScanReady(2, None));
    actions, s := SearchOn(g, actions, s, 2, ScanReady(3, None));
    actions, s := Swap(g, actions, s, 2);
    actions, s := SearchOn(g, actions, s, 3, ScanReady(4, None));
    var held := HeldSlots(s);
    actions, s := SearchOn(g, actions, s, 3, Count(0, 0, held));
    actions, s := SearchOn(g, actions, s, 3, Count(1, 1, held));
    actions, s := SearchOn(g, actions, s, 3, Count(2, 2, held));
    actions, s := Swap(g, actions, s, 3);
    actions, s := SearchOn(g, actions, s, 2, Count(3, 3, held));
    actions, s := Swap(g, actions, s, 2);
    actions, s := SearchOn(g, actions, s, 3, Count(4, 4, held));
    actions, s := SearchOn(g, actions, s, 3, Refused(held));
  }

  /** What a consumer holds was handed to it. */
  lemma {:induction false} HoldsWereHanded(actions: Acts, k: nat)
    requires k <= |actions|
    ensures |Run(New(4, 0), actions[..k]).holds| <= |Run(New(4, 0), actions).handed|
    decreases |actions|
  {
    if actions == [] {
      assert actions[..k] == [];
    } else {
      var last := |actions| - 1;
      var s := Run(New(4, 0), actions[..last]);
      HoldStep(s, actions[last]);
      hide Step;
      HoldsWereHanded(actions[..last], if k < last then k else last);
      if k <= last {
        assert actions[..last][..k] == actions[..k];
      } else {
        assert actions[..k] == actions;
        assert actions[..last][..last] == actions[..last];
      }
    }
  }

  lemma HoldStep(s: State<int>, a: Action<int>)
    ensures var t := Step(s, a); |t.handed| >= |s.handed| && |t.holds| - |s.holds| <= |t.handed| - |s.handed|
  {
    if a.ByProducer? { ProducerHolds(s, a.input); } else { ConsumerHolds(s, a.input); }
    hide ProducerStep, ConsumerStep;
  }

  lemma ProducerHolds(s: State<int>, input: Input<int>)
    ensures ProducerStep(s, input).holds == s.holds && ProducerStep(s, input).handed == s.handed
  {
    hide Matches, Moved, HeldSlots;
  }

  lemma ConsumerHolds(s: State<int>, input: Input<int>)
    ensures var t := ConsumerStep(s, input);
            || (t.holds == s.holds && t.handed == s.handed)
            || (|t.handed| == |s.handed| + 1 && |t.holds| <= |s.holds| + 1)
            || (t.handed == s.handed && |t.holds| <= |s.holds|)
  {
    hide Matches, Moved;
    if s.consumer.Releasing? { Larger(s.holds - {s.consumer.seen.i}, s.holds); }
  }

  // Which gates may reopen.

  /** At this step no gate but these is found open after it was found not open while its slot was held. */
  predicate HonestBut(s: State<int>, a: Action<int>, gates: set<nat>) {
    a.ByConsumer? && a.input.Check? && (s.consumer.Look? || s.consumer.Recheck?) && s.consumer.seen.i < |s.slots| ==>
      var gate := s.slots[s.consumer.seen.i].gate; gate in s.refused && gate !in gates ==> a.input.check(gate) != Open
  }

  ghost predicate OnlyReopen(actions: Acts, gates: set<nat>) {
    forall k :: 0 <= k < |actions| ==> HonestBut(Run(New(4, 0), actions[..k]), actions[k], gates)
  }

  /** Every slot's gate is the one, or zero as it was made. */
  ghost predicate Behind(g: nat, s: State<int>) {
    && (s.producer.Stamped? ==> s.producer.gate == g)
    && forall i :: 0 <= i < |s.slots| ==> s.slots[i].gate == 0 || s.slots[i].gate == g
  }

  lemma BehindProducer(g: nat, s: State<int>, input: Input<int>)
    requires Behind(g, s) && (input.Publish? ==> input.gate == g)
    ensures Behind(g, ProducerStep(s, input))
  {
    hide Matches, HeldSlots;
  }

  lemma BehindConsumer(g: nat, s: State<int>, input: Input<int>)
    requires Behind(g, s)
    ensures Behind(g, ConsumerStep(s, input))
  {
    hide Matches;
  }

  lemma BehindStep(g: nat, s: State<int>, a: Action<int>)
    requires Behind(g, s) && (a.input.Publish? ==> a.input.gate == g)
    ensures Behind(g, Step(s, a))
  {
    hide Behind, ProducerStep, ConsumerStep;
    if a.ByProducer? { BehindProducer(g, s, a.input); } else { BehindConsumer(g, s, a.input); }
  }

  lemma {:induction false} BehindRun(g: nat, actions: Acts)
    requires PublishedBehind(g, actions)
    ensures Behind(g, Run(New(4, 0), actions))
    decreases |actions|
  {
    if actions != [] {
      var last := |actions| - 1;
      hide Step, Behind;
      BehindRun(g, actions[..last]);
      BehindStep(g, Run(New(4, 0), actions[..last]), actions[last]);
    }
  }

  ghost predicate AllHeld(s: State<int>) { forall i :: 0 <= i < |s.slots| ==> s.slots[i].phase == Held }

  /**
    * Four slots, at most two of them handed out, gate zero open to every check, one gate that reopens; and begin
    * answers with nothing though at no instant is every slot held: the gate is found shut and open again by turns,
    * so that each slot is in the consumer's hand just as the producer looks at it.
    */
  lemma ReopeningStarvesBegin(g: nat) returns (actions: Acts)
    requires g > 0
    ensures Run(New(4, 0), actions).producer.Refused? && ZeroOpen(actions) && HoldsAtMost(4, 0, actions, 2)
    ensures OnlyReopen(actions, {g}) && forall k :: 0 <= k <= |actions| ==> !AllHeld(Run(New(4, 0), actions[..k]))
  {
    var s;
    actions, s := EachFoundHeld(g);
    assert Run(New(4, 0), actions) == s && ZeroOpen(actions);
    hide Run;
    forall k | 0 <= k <= |actions|
      ensures |Run(New(4, 0), actions[..k]).holds| <= 2 && !AllHeld(Run(New(4, 0), actions[..k]))
      ensures k < |actions| ==> HonestBut(Run(New(4, 0), actions[..k]), actions[k], {g})
    {
      HoldsWereHanded(actions, k);
      RunInv(4, 0, actions[..k]);
      BehindRun(g, actions[..k]);
      ZeroNotRefused(actions[..k]);
      var at := Run(New(4, 0), actions[..k]);
      if AllHeld(at) { FewHeld(at); }
    }
  }

  /** In no run of four slots, two handed out at most, in which only these gates reopen, does begin give up. */
  ghost predicate AlwaysASlot(gates: set<nat>) {
    forall actions :: ZeroOpen(actions) && HoldsAtMost(4, 0, actions, 2) && OnlyReopen(actions, gates) ==>
      !Run(New(4, 0), actions).producer.Refused?
  }

  /** begin always finds a slot exactly when no gate but zero, which every check finds open, can reopen. */
  lemma AlwaysASlotExactlyWhen(gates: set<nat>)
    ensures AlwaysASlot(gates) <==> gates <= {0}
  {
    hide Run;
    if gates <= {0} {
      forall actions | ZeroOpen(actions) && HoldsAtMost(4, 0, actions, 2) && OnlyReopen(actions, gates)
        ensures !Run(New(4, 0), actions).producer.Refused?
      {
        ZeroNeverReopens(actions, gates);
        FourSlotsAreEnough(0, actions);
      }
    } else {
      var g :| g in gates && g != 0;
      var actions := ReopeningStarvesBegin(g);
      assert OnlyReopen(actions, gates);
    }
  }

  lemma ZeroNeverReopens(actions: Acts, gates: set<nat>)
    requires ZeroOpen(actions) && OnlyReopen(actions, gates) && gates <= {0}
    ensures NoneReopens(4, 0, actions)
  {
    hide Run;
    forall k | 0 <= k < |actions| ensures Honest(Run(New(4, 0), actions[..k]), actions[k]) {
      ZeroNotRefused(actions[..k]);
    }
  }

  lemma {:induction false} ZeroNotRefused(actions: Acts)
    requires ZeroOpen(actions)
    ensures 0 !in Run(New(4, 0), actions).refused
    decreases |actions|
  {
    if actions != [] {
      var last := |actions| - 1;
      ZeroNotRefused(actions[..last]);
      ZeroStep(Run(New(4, 0), actions[..last]), actions[last]);
    }
  }

  lemma ZeroStep(s: State<int>, a: Action<int>)
    requires 0 !in s.refused && (a.input.Check? ==> a.input.check(0) == Open)
    ensures 0 !in Step(s, a).refused
  {
    hide Matches, Moved;
  }
}
