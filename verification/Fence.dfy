/** The Windows client's check of a gate: a device's generation and how far its fence has come. */
module FenceGates {
  import opened Common
  import opened LatestRing

  /** A gate keeps sixteen bits of a generation above forty-eight of a fence's value. */
  const TAGS: nat := 0x1_0000
  const VALUES: nat := 0x1_0000_0000_0000

  function Tag(generation: nat): nat { generation % TAGS }

  predicate Names(gate: nat, generation: nat) { gate / VALUES == Tag(generation) }

  /** Ahead in the wrapping order of the bits a gate keeps. */
  predicate Newer(gate: nat, generation: nat) { 0 < (gate / VALUES - Tag(generation)) % TAGS <= (TAGS - 1) / 2 }

  /** The gate of a picture that is finished when its device's fence reaches a value. */
  function GateOf(generation: nat, value: nat): nat {
    if value == 0 then 0 else Tag(generation) * VALUES + value % VALUES
  }

  /** A moment: the generation of the session's device, if there is one, and how far every device's fence has come. */
  datatype Moment = Moment(current: Option<nat>, done: nat -> nat)

  predicate Upto(a: Option<nat>, b: Option<nat>) { a.Some? ==> b.Some? && a.value <= b.value }

  /** Devices follow one another and fences only advance; one that is gone has come past every value. */
  ghost predicate Later(m: Moment, n: Moment) {
    Upto(m.current, n.current) && forall g: nat :: m.done(g) <= n.done(g) <= U64_MAX
  }

  /** The generation a check goes by: the one kept, unless there is none or the gate is of a newer one. */
  function Refreshed(m: Moment, kept: Option<nat>, gate: nat): Option<nat> {
    if kept.None? || Newer(gate, kept.value) then m.current else kept
  }

  function Verdict(m: Moment, kept: Option<nat>, gate: nat): Gate {
    if gate == 0 then Open
    else if kept.None? || !Names(gate, kept.value) then Never
    else if m.done(kept.value) >= U64_MAX then Never
    else if m.done(kept.value) >= gate % VALUES then Open
    else Shut
  }

  /**
    * A picture's gate is open at its own device exactly once that device's fence has reached it, shut before, and
    * never open again once the device is gone; one finished as it was published is open to all.
    */
  lemma OpensWhenReached(m: Moment, generation: nat, value: nat)
    requires 0 < value < VALUES
    ensures Verdict(m, Some(generation), GateOf(generation, value)) == Open
            <==> value <= m.done(generation) < U64_MAX
    ensures Verdict(m, Some(generation), GateOf(generation, value)) == Shut <==> m.done(generation) < value
    ensures forall kept :: Verdict(m, kept, GateOf(generation, 0)) == Open
  {
    assert (Tag(generation) * VALUES + value) / VALUES == Tag(generation);
    assert (Tag(generation) * VALUES + value) % VALUES == value;
  }

  /** Generations within so many of one another are told apart by the bits a gate keeps. */
  lemma OneGeneration(gate: nat, base: nat, a: nat, b: nat)
    requires base <= a < base + TAGS && base <= b < base + TAGS && Names(gate, a) && Names(gate, b)
    ensures a == b
  {
    assert a == TAGS * (a / TAGS) + a % TAGS && b == TAGS * (b / TAGS) + b % TAGS;
  }

  /** A gate found open, and later not, is not found open again. */
  lemma NotOpenAgain(gate: nat, base: nat, m: Moment, a: Option<nat>, n: Moment, b: Option<nat>, o: Moment,
                     c: Option<nat>)
    requires Later(m, n) && Later(n, o) && Upto(a, b) && Upto(b, c)
    requires forall g :: g == a || g == b || g == c ==> g.Some? ==> base <= g.value < base + TAGS
    requires Verdict(m, a, gate) == Open && Verdict(n, b, gate) != Open
    ensures Verdict(o, c, gate) != Open
  {
    if Verdict(o, c, gate) == Open {
      OneGeneration(gate, base, a.value, c.value);
    }
  }

  // A run of the ring under that check.

  /** The gate a step asks of, if it is a check of one. */
  function GateAsked<T>(s: State<T>, a: Action<T>): Option<nat> {
    if a.ByConsumer? && a.input.Check? && (s.consumer.Look? || s.consumer.Recheck?) && s.consumer.seen.i < |s.slots|
    then Some(s.slots[s.consumer.seen.i].gate) else None
  }

  /** One step: a check answers by the generation it goes by, which it keeps; an acquire starts with none. */
  predicate FenceStep<T>(s: State<T>, a: Action<T>, m: Moment, kept: Option<nat>, next: Option<nat>) {
    match GateAsked(s, a)
    case Some(gate) =>
      next == (if gate == 0 then kept else Refreshed(m, kept, gate)) && a.input.check(gate) == Verdict(m, next, gate)
    case None => next == if a.ByConsumer? && a.input.Acquire? then None else kept
  }

  /** A run whose checks are the client's, at moments that follow one another. */
  ghost predicate FenceRun<T>(n: nat, blank: T, actions: seq<Action<T>>, moments: seq<Moment>, kept: seq<Option<nat>>) {
    && |moments| == |actions| && |kept| == |actions| + 1 && kept[0].None?
    && (forall i, j :: 0 <= i <= j < |moments| ==> Later(moments[i], moments[j]))
    && (forall k :: 0 <= k < |actions| ==>
          FenceStep(Run(New(n, blank), actions[..k]), actions[k], moments[k], kept[k], kept[k + 1]))
  }

  /** The generations of a run are told apart by the bits a gate keeps. */
  ghost predicate ToldApart(moments: seq<Moment>, base: nat) {
    forall k :: 0 <= k < |moments| && moments[k].current.Some? ==> base <= moments[k].current.value < base + TAGS
  }

  /** The gates a run's checks have found open. */
  function FoundOpen<T>(n: nat, blank: T, actions: seq<Action<T>>): set<nat> {
    if actions == [] then {}
    else
      var last := |actions| - 1;
      FoundOpen(n, blank, actions[..last]) + OpenedNow(Run(New(n, blank), actions[..last]), actions[last])
  }

  function OpenedNow<T>(s: State<T>, a: Action<T>): set<nat> {
    match GateAsked(s, a)
    case Some(gate) => if a.input.check(gate) == Open then {gate} else {}
    case None => {}
  }

  /** What the consumer means to take, or has just taken, is behind a gate found open. */
  ghost predicate Vouched<T>(s: State<T>, gates: set<nat>) {
    var c := Candidate(s.consumer);
    && (c.Some? ==> c.value.stamp < Top(s) && (Matches(s, c.value, Ready) ==> s.slots[c.value.i].gate in gates))
    && (s.consumer.Look? ==> s.consumer.seen.stamp < Top(s))
    && (s.consumer.Recheck? && s.consumer.seen.i < |s.slots| ==> s.slots[s.consumer.seen.i].gate in gates)
  }

  lemma ProducerVouched<T>(s: State<T>, t: State<T>, gates: set<nat>)
    requires ProducerMoves(s, t) && HeldOwned(s) && Vouched(s, gates)
    ensures Vouched(t, gates)
  {
  }

  lemma ConsumerVouched<T>(s: State<T>, input: Input<T>, gates: set<nat>)
    requires Vouched(s, gates) && Below(s)
    ensures Vouched(ConsumerStep(s, input), gates + OpenedNow(s, ByConsumer(input)))
  {
  }

  lemma {:induction false} RunVouched<T>(n: nat, blank: T, actions: seq<Action<T>>)
    ensures Vouched(Run(New(n, blank), actions), FoundOpen(n, blank, actions))
    decreases |actions|
  {
    if actions != [] {
      var last := |actions| - 1;
      var s := Run(New(n, blank), actions[..last]);
      RunVouched(n, blank, actions[..last]);
      RunInv(n, blank, actions[..last]);
      hide Vouched, ProducerStep, ConsumerStep, OpenedNow;
      match actions[last] {
        case ByProducer(input) =>
          ProducerStepMoves(s, input);
          ProducerVouched(s, ProducerStep(s, input), FoundOpen(n, blank, actions[..last]));
          NoneByProducer(s, input);
          assert FoundOpen(n, blank, actions) == FoundOpen(n, blank, actions[..last]);
        case ByConsumer(input) => ConsumerVouched(s, input, FoundOpen(n, blank, actions[..last]));
      }
    }
  }

  lemma NoneByProducer<T>(s: State<T>, input: Input<T>)
    ensures OpenedNow(s, ByProducer(input)) == {}
  {
  }

  /** A check of a gate at a step, and whether it was found open. */
  ghost predicate Checked<T>(n: nat, blank: T, actions: seq<Action<T>>, k: nat, gate: nat, found: bool) {
    && k < |actions| && GateAsked(Run(New(n, blank), actions[..k]), actions[k]) == Some(gate)
    && (found <==> actions[k].input.check(gate) == Open)
  }

  lemma {:induction false} OpenWasChecked<T>(n: nat, blank: T, actions: seq<Action<T>>, gate: nat) returns (k: nat)
    requires gate in FoundOpen(n, blank, actions)
    ensures Checked(n, blank, actions, k, gate, true)
    decreases |actions|
  {
    var last := |actions| - 1;
    if gate in FoundOpen(n, blank, actions[..last]) {
      k := OpenWasChecked(n, blank, actions[..last], gate);
      assert actions[..last][..k] == actions[..k];
    } else {
      k := last;
    }
  }

  lemma RefusedStep<T>(s: State<T>, a: Action<T>, gate: nat)
    requires gate in Step(s, a).refused && gate !in s.refused
    ensures s.consumer.Recheck? && GateAsked(s, a) == Some(gate) && a.input.check(gate) != Open
  {
    hide Matches, Moved;
  }

  /** A gate refused was found open at one step, and not at a later one. */
  lemma {:induction false} RefusedWasChecked<T>(n: nat, blank: T, actions: seq<Action<T>>, gate: nat)
    returns (i: nat, j: nat)
    requires gate in Run(New(n, blank), actions).refused
    ensures i < j && Checked(n, blank, actions, i, gate, true) && Checked(n, blank, actions, j, gate, false)
    decreases |actions|
  {
    var last := |actions| - 1;
    assert actions != [];
    var s := Run(New(n, blank), actions[..last]);
    hide Step;
    if gate in s.refused {
      i, j := RefusedWasChecked(n, blank, actions[..last], gate);
      assert actions[..last][..j] == actions[..j];
    } else {
      RefusedStep(s, actions[last], gate);
      RunVouched(n, blank, actions[..last]);
      i := OpenWasChecked(n, blank, actions[..last], gate);
      j := last;
    }
    assert actions[..last][..i] == actions[..i];
  }

  /** The generation a check went by is no later than any later check's. */
  lemma {:induction false} KeptGrows<T>(n: nat, blank: T, actions: seq<Action<T>>, moments: seq<Moment>,
                                        kept: seq<Option<nat>>, i: nat, k: nat)
    requires FenceRun(n, blank, actions, moments, kept) && i < k <= |actions|
    requires Upto(kept[i + 1], moments[i].current)
    ensures kept[k].None? || Upto(kept[i + 1], kept[k])
    decreases k
  {
    if i + 1 < k {
      KeptGrows(n, blank, actions, moments, kept, i, k - 1);
      var s := Run(New(n, blank), actions[..k - 1]);
      assert FenceStep(s, actions[k - 1], moments[k - 1], kept[k - 1], kept[k]);
      assert Later(moments[i], moments[k - 1]);
    }
  }

  lemma {:induction false} KeptIsPast<T>(n: nat, blank: T, actions: seq<Action<T>>, moments: seq<Moment>,
                                         kept: seq<Option<nat>>, base: nat, k: nat)
    requires FenceRun(n, blank, actions, moments, kept) && ToldApart(moments, base) && 0 < k <= |actions|
    ensures Upto(kept[k], moments[k - 1].current)
    ensures kept[k].Some? ==> base <= kept[k].value < base + TAGS
    decreases k
  {
    var s := Run(New(n, blank), actions[..k - 1]);
    assert FenceStep(s, actions[k - 1], moments[k - 1], kept[k - 1], kept[k]);
    if k > 1 {
      KeptIsPast(n, blank, actions, moments, kept, base, k - 1);
      assert Later(moments[k - 2], moments[k - 1]);
    }
  }

  /** Between two checks of one gate, not zero, the generation gone by does not go back. */
  lemma CheckedInTurn<T>(n: nat, blank: T, actions: seq<Action<T>>, moments: seq<Moment>, kept: seq<Option<nat>>,
                         base: nat, i: nat, j: nat, gate: nat)
    requires FenceRun(n, blank, actions, moments, kept) && ToldApart(moments, base) && i < j < |actions| && gate != 0
    requires GateAsked(Run(New(n, blank), actions[..j]), actions[j]) == Some(gate)
    ensures Upto(kept[i + 1], kept[j + 1]) && Later(moments[i], moments[j])
  {
    hide Run;
    KeptIsPast(n, blank, actions, moments, kept, base, i + 1);
    KeptGrows(n, blank, actions, moments, kept, i, j);
    assert FenceStep(Run(New(n, blank), actions[..j]), actions[j], moments[j], kept[j], kept[j + 1]);
    assert Later(moments[i], moments[j]);
    if kept[j].Some? {
      KeptIsPast(n, blank, actions, moments, kept, base, j);
      assert Later(moments[j - 1], moments[j]);
    }
  }

  /** The client's check reopens no gate, while its devices are told apart by the bits a gate keeps of them. */
  lemma FenceReopensNone<T>(n: nat, blank: T, actions: seq<Action<T>>, moments: seq<Moment>, kept: seq<Option<nat>>,
                            base: nat)
    requires FenceRun(n, blank, actions, moments, kept) && ToldApart(moments, base)
    ensures NoneReopens(n, blank, actions)
  {
    hide Run;
    forall k | 0 <= k < |actions| ensures Honest(Run(New(n, blank), actions[..k]), actions[k]) {
      var s := Run(New(n, blank), actions[..k]);
      if GateAsked(s, actions[k]).Some? && GateAsked(s, actions[k]).value in s.refused {
        StillNotOpen(n, blank, actions, moments, kept, base, k, GateAsked(s, actions[k]).value);
      }
    }
  }

  lemma StillNotOpen<T>(n: nat, blank: T, actions: seq<Action<T>>, moments: seq<Moment>, kept: seq<Option<nat>>,
                        base: nat, k: nat, gate: nat)
    requires FenceRun(n, blank, actions, moments, kept) && ToldApart(moments, base) && k < |actions|
    requires gate in Run(New(n, blank), actions[..k]).refused
    requires GateAsked(Run(New(n, blank), actions[..k]), actions[k]) == Some(gate)
    ensures actions[k].input.check(gate) != Open
  {
    hide Run, ToldApart;
    var i, j := RefusedWasChecked(n, blank, actions[..k], gate);
    assert actions[..k][..i] == actions[..i] && actions[..k][..j] == actions[..j];
    assert FenceStep(Run(New(n, blank), actions[..i]), actions[i], moments[i], kept[i], kept[i + 1]);
    assert FenceStep(Run(New(n, blank), actions[..j]), actions[j], moments[j], kept[j], kept[j + 1]);
    assert FenceStep(Run(New(n, blank), actions[..k]), actions[k], moments[k], kept[k], kept[k + 1]);
    CheckedInTurn(n, blank, actions, moments, kept, base, i, j, gate);
    CheckedInTurn(n, blank, actions, moments, kept, base, j, k, gate);
    KeptIsPast(n, blank, actions, moments, kept, base, i + 1);
    KeptIsPast(n, blank, actions, moments, kept, base, j + 1);
    KeptIsPast(n, blank, actions, moments, kept, base, k + 1);
    hide FenceRun;
    NotOpenAgain(gate, base, moments[i], kept[i + 1], moments[j], kept[j + 1], moments[k], kept[k + 1]);
  }

  /** So four slots and two holds always leave the client's decoder a slot. */
  lemma FenceClientFindsASlot<T>(blank: T, actions: seq<Action<T>>, moments: seq<Moment>, kept: seq<Option<nat>>,
                                 base: nat)
    requires FenceRun(4, blank, actions, moments, kept) && ToldApart(moments, base) && HoldsAtMost(4, blank, actions, 2)
    ensures !Run(New(4, blank), actions).producer.Refused?
  {
    hide Run, FenceRun, ToldApart, HoldsAtMost, NoneReopens;
    FenceReopensNone(4, blank, actions, moments, kept, base);
    FourSlotsAreEnough(blank, actions);
  }

  /** A gate that was open, and is refused when its device is left, opens again 65536 devices later. */
  lemma TagWrapReopens(generation: nat, value: nat)
    requires 0 < value < VALUES
    ensures var gate, later := GateOf(generation, value), generation + TAGS;
            var done := (g: nat) => value;
            && Verdict(Moment(Some(generation), done), Some(generation), gate) == Open
            && Verdict(Moment(Some(generation + 1), done), Some(generation + 1), gate) == Never
            && Verdict(Moment(Some(later), done), Some(later), gate) == Open
  {
    var tag := Tag(generation);
    assert (tag * VALUES + value) / VALUES == tag && (tag * VALUES + value) % VALUES == value;
    assert Tag(generation + TAGS) == tag && Tag(generation + 1) != tag;
  }

  /** A gate of a newer device, the session's now, is judged by that device, whatever one was kept. */
  lemma NewerDeviceIsAsked(m: Moment, kept: nat, generation: nat, value: nat)
    requires 0 < value < VALUES && kept < generation < kept + TAGS / 2 && m.current == Some(generation)
    ensures Refreshed(m, Some(kept), GateOf(generation, value)) == Some(generation)
    ensures Verdict(m, Refreshed(m, Some(kept), GateOf(generation, value)), GateOf(generation, value)) == Open
            <==> value <= m.done(generation) < U64_MAX
  {
    assert (Tag(generation) * VALUES + value) / VALUES == Tag(generation);
    var ahead := generation - kept;
    assert (generation % TAGS - kept % TAGS) % TAGS == ahead;
    OpensWhenReached(m, generation, value);
  }

  /** A gate of an older device is never open, and does not change which device is asked. */
  lemma OlderDeviceIsNot(m: Moment, kept: nat, generation: nat, value: nat)
    requires 0 < value < VALUES && generation < kept < generation + TAGS / 2
    ensures Refreshed(m, Some(kept), GateOf(generation, value)) == Some(kept)
    ensures Verdict(m, Some(kept), GateOf(generation, value)) == Never
  {
    assert (Tag(generation) * VALUES + value) / VALUES == Tag(generation);
    var behind := kept - generation;
    assert (generation % TAGS - kept % TAGS) % TAGS == TAGS - behind;
  }
}
