/** The conversion's kept view: a view found again by its texture's address alone. */
module ViewCache {
  import opened Common

  /**
    * The device's textures. A texture is a serial number, never given twice; `live` says which one is at an
    * address, `counts` how many references each has, and `owned` how many of those are callers'.
    */
  datatype Heap = Heap(live: map<nat, nat>, counts: map<nat, nat>, owned: map<nat, nat>, next: nat)

  const EMPTY := Heap(map[], map[], map[], 0)

  function Owned(h: Heap, t: nat): nat { if t in h.owned then h.owned[t] else 0 }

  /** One more reference. */
  function Retain(h: Heap, t: nat): Heap
    requires t in h.counts
  {
    h.(counts := h.counts[t := h.counts[t] + 1])
  }

  /** One reference fewer; the last one frees the texture and its address. */
  function Release(h: Heap, t: nat): Heap
    requires t in h.counts && h.counts[t] > 0
  {
    if h.counts[t] > 1 then h.(counts := h.counts[t := h.counts[t] - 1])
    else h.(counts := h.counts - {t}, live := map a | a in h.live && h.live[a] != t :: h.live[a])
  }

  /** The view kept: the address its texture was named by, and the texture it reads. */
  datatype Kept = Kept(key: nat, texture: nat)

  datatype State = State(heap: Heap, source: Option<Kept>)

  const START := State(EMPTY, None)

  datatype Action =
    | Create(address: nat)
    | Share(address: nat)
    | Drop(address: nat)
    | Convert(address: nat, viewable: bool, fits: bool)
    | Forget

  datatype Event = Quiet | Refused | Ran(view: nat, named: nat)

  /**
    * An address is given to a new texture only while none is there, and a caller names, shares and drops only
    * textures it has a reference to.
    */
  predicate Enabled(s: State, a: Action) {
    match a
    case Create(address) => address !in s.heap.live
    case Forget => true
    case _ => a.address in s.heap.live && Owned(s.heap, s.heap.live[a.address]) > 0
  }

  function Holds(s: State, t: nat): nat { if s.source.Some? && s.source.value.texture == t then 1 else 0 }

  /** Every reference is a caller's or the kept view's, and the kept view's texture is at the kept address. */
  ghost predicate Accounted(s: State) {
    var h := s.heap;
    && (forall a :: a in h.live ==> h.live[a] in h.counts)
    && (forall a, b :: a in h.live && b in h.live && h.live[a] == h.live[b] ==> a == b)
    && (forall t :: t in h.counts ==> t < h.next && h.counts[t] > 0 && h.counts[t] == Owned(h, t) + Holds(s, t))
    && (forall t :: Owned(h, t) > 0 ==> t in h.counts)
    && (s.source.Some? ==> s.source.value.key in h.live && h.live[s.source.value.key] == s.source.value.texture)
  }

  /** Letting go of the kept view, and of its reference. */
  function LetGo(s: State): (n: State)
    requires Accounted(s)
    ensures n.source.None? && Accounted(n)
    ensures n.heap.owned == s.heap.owned && NoneAdded(s.heap, n.heap)
  {
    if s.source.None? then s else State(Release(s.heap, s.source.value.texture), None)
  }

  /** A texture a caller has a reference to outlives the view. */
  lemma OwnedStays(s: State, address: nat)
    requires Accounted(s) && address in s.heap.live && Owned(s.heap, s.heap.live[address]) > 0
    ensures address in LetGo(s).heap.live && LetGo(s).heap.live[address] == s.heap.live[address]
  {
  }

  /** Keeping a new view of the texture at an address, with a reference of its own. */
  function Keep(s: State, address: nat): (n: State)
    requires Accounted(s) && s.source.None? && address in s.heap.live
    ensures Accounted(n) && n.source == Some(Kept(address, s.heap.live[address]))
    ensures n.heap.live == s.heap.live && n.heap.owned == s.heap.owned && n.heap.next == s.heap.next
  {
    State(Retain(s.heap, s.heap.live[address]), Some(Kept(address, s.heap.live[address])))
  }

  /** No texture has appeared, and those there are where they were. */
  ghost predicate NoneAdded(before: Heap, after: Heap) {
    && after.next == before.next
    && forall a :: a in after.live ==> a in before.live && after.live[a] == before.live[a]
  }

  function Made(s: State, address: nat): (n: State)
    requires Accounted(s) && address !in s.heap.live
    ensures Accounted(n)
  {
    var h := s.heap;
    s.(heap := Heap(h.live[address := h.next], h.counts[h.next := 1], h.owned[h.next := 1], h.next + 1))
  }

  function Shared(s: State, t: nat): (n: State)
    requires Accounted(s) && Owned(s.heap, t) > 0
    ensures Accounted(n) && NoneAdded(s.heap, n.heap)
  {
    s.(heap := Retain(s.heap, t).(owned := s.heap.owned[t := Owned(s.heap, t) + 1]))
  }

  function Dropped(s: State, t: nat): (n: State)
    requires Accounted(s) && Owned(s.heap, t) > 0
    ensures Accounted(n) && NoneAdded(s.heap, n.heap)
  {
    s.(heap := Release(s.heap, t).(owned := s.heap.owned[t := Owned(s.heap, t) - 1]))
  }

  function Converted(s: State, address: nat, viewable: bool, fits: bool): (r: (State, Event))
    requires Accounted(s) && address in s.heap.live && Owned(s.heap, s.heap.live[address]) > 0
    ensures Accounted(r.0) && NoneAdded(s.heap, r.0.heap)
  {
    if s.source.Some? && s.source.value.key == address then
      (s, Ended(s.source.value.texture, s.heap.live[address], fits))
    else
      OwnedStays(s, address);
      var n := LetGo(s);
      if !viewable then (n, Refused)
      else
        var k := Keep(n, address);
        (k, Ended(k.source.value.texture, s.heap.live[address], fits))
  }

  function Step(s: State, a: Action): (r: (State, Event))
    requires Accounted(s) && Enabled(s, a)
    ensures Accounted(r.0) && (!a.Create? ==> NoneAdded(s.heap, r.0.heap))
  {
    match a
    case Create(address) => (Made(s, address), Quiet)
    case Share(address) => (Shared(s, s.heap.live[address]), Quiet)
    case Drop(address) => (Dropped(s, s.heap.live[address]), Quiet)
    case Convert(address, viewable, fits) => Converted(s, address, viewable, fits)
    case Forget => (LetGo(s), Quiet)
  }

  /** A target of another layout or pass, or work the device does not take, is refused after the view is settled. */
  function Ended(view: nat, named: nat, fits: bool): Event { if fits then Ran(view, named) else Refused }

  /** A conversion runs on the texture that is at the named address when it is called. */
  lemma RunsOnTheNamedTexture(s: State, a: Action)
    requires Accounted(s) && Enabled(s, a)
    ensures var (n, e) := Step(s, a);
            && (e.Ran? <==> a.Convert? && a.fits && (a.viewable || (s.source.Some? && s.source.value.key == a.address)))
            && (e.Ran? ==> e.named == s.heap.live[a.address] && e.view == e.named && e.view in n.heap.counts)
  {
  }

  /** The textures nobody but the converter keeps. */
  ghost function KeptAlive(s: State): set<nat> {
    set t | t in s.heap.counts && Owned(s.heap, t) == 0
  }

  lemma KeepsAtMostOne(s: State)
    requires Accounted(s)
    ensures |KeptAlive(s)| <= 1
    ensures s.source.None? ==> KeptAlive(s) == {}
  {
    if s.source.Some? {
      assert KeptAlive(s) <= {s.source.value.texture};
      assert |KeptAlive(s)| <= |{s.source.value.texture}| by {
        if KeptAlive(s) != {} { assert KeptAlive(s) == {s.source.value.texture}; }
      }
    }
  }

  // Whole runs.

  /** The state a run of actions leads to, if each was open to its caller when it was taken. */
  ghost function After(actions: seq<Action>): (r: Option<State>)
    ensures r.Some? ==> Accounted(r.value)
  {
    if actions == [] then Some(START)
    else
      var before := After(actions[..|actions| - 1]);
      if before.None? || !Enabled(before.value, actions[|actions| - 1]) then None
      else Some(Step(before.value, actions[|actions| - 1]).0)
  }

  /** Which texture a run put at an address last, said of the actions alone: creations are numbered in order. */
  function Creations(actions: seq<Action>): nat {
    if actions == [] then 0
    else Creations(actions[..|actions| - 1]) + if actions[|actions| - 1].Create? then 1 else 0
  }

  function LastAt(actions: seq<Action>, address: nat): Option<nat> {
    if actions == [] then None
    else
      var last := actions[|actions| - 1];
      if last.Create? && last.address == address then Some(Creations(actions[..|actions| - 1]))
      else LastAt(actions[..|actions| - 1], address)
  }

  /** What is at an address is the texture last created there. */
  lemma {:induction false} LiveIsLastCreated(actions: seq<Action>)
    requires After(actions).Some?
    ensures var h := After(actions).value.heap;
            && h.next == Creations(actions)
            && forall a :: a in h.live ==> LastAt(actions, a) == Some(h.live[a])
    decreases |actions|
  {
    hide Accounted, Enabled, Owned, LetGo, Keep, Shared, Dropped, Converted;
    if actions != [] { LiveIsLastCreated(actions[..|actions| - 1]); }
  }

  /**
    * In every run of creating, sharing, dropping, converting and forgetting, with addresses given again as
    * textures go, a conversion reads the texture last created at the address its caller names; the converter
    * keeps at most one texture alive, and none once it has forgotten.
    */
  lemma EveryRunReadsTheNamedTexture(actions: seq<Action>, a: Action)
    requires After(actions + [a]).Some?
    ensures After(actions).Some? && Enabled(After(actions).value, a)
    ensures var (n, e) := Step(After(actions).value, a);
            && (e.Ran? ==> LastAt(actions, a.address) == Some(e.view))
            && |KeptAlive(n)| <= 1
            && (a.Forget? ==> KeptAlive(n) == {})
  {
    assert (actions + [a])[..|actions + [a]| - 1] == actions;
    LiveIsLastCreated(actions);
    RunsOnTheNamedTexture(After(actions).value, a);
    KeepsAtMostOne(Step(After(actions).value, a).0);
  }

  // Why the view must hold its texture.

  /** The same conversion with a view that holds nothing: forgotten textures are only remembered by address. */
  function WeakConvert(s: State, address: nat): (State, Event)
    requires address in s.heap.live
  {
    if s.source.Some? && s.source.value.key == address then (s, Ran(s.source.value.texture, s.heap.live[address]))
    else
      var kept := Kept(address, s.heap.live[address]);
      (s.(source := Some(kept)), Ran(kept.texture, kept.texture))
  }

  /** Without its reference the address is given again and the conversion reads the texture that is gone. */
  lemma AddressAloneIsNotEnough(address: nat)
    ensures var made := Step(START, Create(address)).0;
            var seen := WeakConvert(made, address).0;
            var dropped := seen.(heap := Release(seen.heap, 0).(owned := map[0 := 0]));
            && address !in dropped.heap.live
            && var again := dropped.(heap := Heap(map[address := 1], map[1 := 1], map[1 := 1], 2));
               WeakConvert(again, address).1 == Ran(0, 1)
  {
  }

  // The converter itself, and the device whose textures it reads.

  class Device {
    var heap: Heap

    constructor ()
      ensures heap == EMPTY
    {
      heap := EMPTY;
    }
  }

  /** How a device writes its targets. */
  datatype Pass = Compute | Draw

  datatype Target = Target(layout: nat, pass: Pass)

  class Converter {
    var source: Option<Kept>
    const made: Target

    constructor (made: Target)
      ensures source.None? && this.made == made
    {
      this.made := made;
      source := None;
    }

    ghost function Now(device: Device): State
      reads this, device
    {
      State(device.heap, source)
    }

    /**
      * Convert the texture at an address; `viewable` is whether the device makes a view of it, and `queued` whether
      * it takes the work of the pass.
      */
    method Convert(device: Device, address: nat, viewable: bool, target: Target, queued: bool)
      returns (ran: Option<nat>)
      requires Accounted(Now(device))
      requires Enabled(Now(device), Action.Convert(address, viewable, target == made && queued))
      modifies this, device
      ensures Accounted(Now(device))
      ensures Now(device) == Step(old(Now(device)), Action.Convert(address, viewable, target == made && queued)).0
      ensures ran.Some? ==> ran.value == old(device.heap.live[address])
      ensures ran.Some? <==> target == made && queued &&
                             (viewable || (old(source).Some? && old(source).value.key == address))
    {
      hide Release, Retain, NoneAdded;
      var view: nat;
      if source.Some? && source.value.key == address {
        view := source.value.texture;
      } else {
        ghost var before := Now(device);
        if source.Some? { device.heap := Release(device.heap, source.value.texture); }
        source := None;
        assert Now(device) == LetGo(before);
        OwnedStays(before, address);
        if !viewable { return None; }
        view := device.heap.live[address];
        device.heap := Retain(device.heap, view);
        source := Some(Kept(address, view));
        assert Now(device) == Keep(LetGo(before), address);
      }
      if target.layout != made.layout { return None; }
      if target.pass != made.pass { return None; }
      ran := if queued then Some(view) else None;
    }

    method Forget(device: Device)
      requires Accounted(Now(device))
      modifies this, device
      ensures Accounted(Now(device)) && Now(device) == Step(old(Now(device)), Action.Forget).0
      ensures KeptAlive(Now(device)) == {}
    {
      ghost var before := Now(device);
      if source.Some? { device.heap := Release(device.heap, source.value.texture); }
      source := None;
      assert Now(device) == LetGo(before);
      KeepsAtMostOne(Now(device));
    }
  }

  /** A conversion that ran keeps the view of its address, and the next one there needs no other. */
  lemma RanKeepsTheView(s: State, a: Action, again: Action)
    requires Accounted(s) && Enabled(s, a) && Step(s, a).1.Ran?
    requires again == Convert(a.address, false, true)
    ensures var n := Step(s, a).0;
            && n.source == Some(Kept(a.address, Step(s, a).1.view))
            && Enabled(n, again) && Step(n, again) == (n, Step(s, a).1)
  {
    if s.source.None? || s.source.value.key != a.address { OwnedStays(s, a.address); }
  }

  /** One that could make no view keeps none. */
  lemma RefusedKeepsNone(s: State, a: Action)
    requires Accounted(s) && Enabled(s, a) && a.Convert? && !a.viewable
    requires s.source.None? || s.source.value.key != a.address
    ensures Step(s, a).0.source == None && Step(s, a).1 == Refused
  {
  }
}
