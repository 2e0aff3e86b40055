/** Handing changed settings to a running capture: writers that store and then count, a loop that polls and acts. */
module SettingsHandOver {
  import opened Common

  datatype Platform = Linux | Windows

  datatype Live = Live(device: Option<string>, muteLocal: bool)

  /** The device asked for by name, if one is. */
  function Asked(live: Live): Option<string> { if live.device == Some("") then None else live.device }

  /** The output the settings ask for. */
  function Place(asked: Option<string>, byDefault: string): string { if asked.Some? then asked.value else byDefault }

  /** What a capture is on, whether it takes itself to follow the default output, and whether it mutes the speakers. */
  datatype On = On(device: string, following: bool, mute: bool)

  /** What the loop last did about its device: acted on settings, or followed the default, with what success. */
  datatype Deed = Acted(before: On, got: bool) | Followed(before: On, got: bool)

  /**
    * The capture loop. It opens the device of one moment, takes the muting of a later one and whether to follow the
    * default of a later one still, and then notes the count its first poll compares with. A poll that finds another
    * count notes that one; the settings are read in the step after, and a device opened in the step after that.
    */
  datatype Reader =
    | Closed
    | Named(device: Option<string>, on: On)
    | Muted(known: Live, on: On)
    | Opened(known: Live, on: On)
    | Polling(known: Live, on: On, seen: nat, deed: Deed)
    | Due(known: Live, on: On, seen: nat, deed: Deed)
    | Moving(known: Live, on: On, seen: nat)

  /**
    * The settings, how often the count has been raised, how many calls have stored a change and not yet raised it,
    * the default output, and whether the loop has yet to hear that it is another. The count itself is 32 bits wide;
    * `seen` is likewise kept whole and compared as it is stored.
    */
  datatype State = State(platform: Platform, live: Live, raised: nat, uncounted: nat, byDefault: string,
                         signalled: bool, reader: Reader)

  function Begun(platform: Platform, live: Live, byDefault: string): State {
    State(platform, live, 0, 0, byDefault, false, Closed)
  }

  function Count(raised: nat): nat { raised % WORD }

  /** Whether settings just read make the loop open a device. */
  predicate Moves(platform: Platform, on: On, live: Live) {
    match Asked(live)
    case Some(name) => name != on.device
    case None => platform.Windows? && !on.following
  }

  /** Whether another default output makes the loop open it. */
  predicate Follows(platform: Platform, on: On, live: Live, byDefault: string) {
    if platform.Linux? then Asked(live).None? else on.following && byDefault != on.device
  }

  function Moved(on: On, asked: Option<string>, byDefault: string): On {
    on.(device := Place(asked, byDefault), following := asked.None?)
  }

  datatype Step =
    | Store(live: Live)
    | Raise
    | DefaultTo(name: string)
    | OpenDevice
    | OpenMuting
    | OpenFollowing
    | Start
    | Poll
    | Read
    | Move(opens: bool)
    | Follow(opens: bool)

  predicate Enabled(s: State, step: Step) {
    match step
    case Store(_) => true
    case Raise => s.uncounted > 0
    case DefaultTo(_) => true
    case OpenDevice => s.reader.Closed?
    case OpenMuting => s.reader.Named?
    case OpenFollowing => s.reader.Muted?
    case Start => s.reader.Opened?
    case Poll => s.reader.Polling?
    case Read => s.reader.Due?
    case Move(_) => s.reader.Moving?
    case Follow(_) => s.reader.Polling? && s.signalled
  }

  function Next(s: State, step: Step): State
    requires Enabled(s, step)
  {
    match step
    case Store(live) => s.(live := live, uncounted := s.uncounted + if live != s.live then 1 else 0)
    case Raise => s.(raised := s.raised + 1, uncounted := s.uncounted - 1)
    case DefaultTo(name) => s.(byDefault := name, signalled := s.signalled || name != s.byDefault)
    case OpenDevice =>
      s.(reader := Named(s.live.device, On(Place(Asked(s.live), s.byDefault), Asked(s.live).None?, false)))
    case OpenMuting =>
      s.(reader := Muted(Live(s.reader.device, s.live.muteLocal), s.reader.on.(mute := s.live.muteLocal)))
    case OpenFollowing =>
      s.(reader := Opened(s.reader.known, if s.platform.Windows? then s.reader.on.(following := Asked(s.live).None?)
                                          else s.reader.on))
    case Start => s.(reader := Polling(s.reader.known, s.reader.on, s.raised, Acted(s.reader.on, false)))
    case Poll =>
      var r := s.reader;
      if Count(s.raised) != Count(r.seen) then s.(reader := Due(r.known, r.on, s.raised, r.deed)) else s
    case Read =>
      var r := s.reader;
      if Moves(s.platform, r.on, s.live) then s.(reader := Moving(s.live, r.on, r.seen))
      else s.(reader := Polling(s.live, r.on.(mute := s.live.muteLocal), r.seen, Acted(r.on, false)))
    case Move(opens) =>
      var r := s.reader;
      var asked := Asked(if s.platform.Linux? then s.live else r.known);
      var on := if opens then Moved(r.on, asked, s.byDefault) else r.on;
      s.(reader := Polling(r.known, on.(mute := r.known.muteLocal), r.seen, Acted(r.on, opens)))
    case Follow(opens) =>
      var r := s.reader;
      if !Follows(s.platform, r.on, s.live, s.byDefault) then s.(signalled := false)
      else
        var on := if opens then r.on.(device := s.byDefault, following := true) else r.on;
        s.(signalled := false, reader := r.(on := on.(mute := s.live.muteLocal), deed := Followed(r.on, opens)))
  }

  /** Where a run of steps leads from a state, if each is open when it is taken. */
  function After(s: State, steps: seq<Step>): Option<State> {
    if steps == [] then Some(s)
    else
      var before := After(s, steps[..|steps| - 1]);
      if before.None? || !Enabled(before.value, steps[|steps| - 1]) then None
      else Some(Next(before.value, steps[|steps| - 1]))
  }

  /** How many stores of a run changed the settings. */
  function Changes(s: State, steps: seq<Step>): nat {
    if steps == [] then 0
    else
      var before, last := After(s, steps[..|steps| - 1]), steps[|steps| - 1];
      Changes(s, steps[..|steps| - 1])
      + if before.Some? && last.Store? && last.live != before.value.live then 1 else 0
  }

  /** Each change is counted once: with every call finished the count is the number of changes, 32 bits wide. */
  lemma {:induction false} CountIsChanges(s: State, steps: seq<Step>)
    requires s.raised == s.uncounted == 0 && After(s, steps).Some?
    ensures var n := After(s, steps).value;
            && n.raised + n.uncounted == Changes(s, steps)
            && (n.uncounted == 0 ==> Count(n.raised) == Changes(s, steps) % WORD)
    decreases |steps|
  {
    if steps != [] { CountIsChanges(s, steps[..|steps| - 1]); }
  }

  /** Every call has finished and the loop finds nothing to do, the count not having gone all the way round. */
  predicate Settled(s: State) {
    && s.reader.Polling? && s.uncounted == 0 && Count(s.raised) == Count(s.reader.seen)
    && s.raised < s.reader.seen + WORD && !s.signalled
  }

  predicate HasDevice(s: State, on: On) { on.device == Place(Asked(s.live), s.byDefault) }

  /**
    * What decides whether a settled loop is on the output asked for. After acting on settings: it was on it already,
    * or a device was opened, by name, or on Windows for a capture that did not take itself to follow. After
    * following the default: it was opened and is what is asked for, or was not and the one before is.
    */
  predicate DeedSuffices(s: State, deed: Deed) {
    match deed
    case Acted(before, got) =>
      HasDevice(s, before) || (got && (Asked(s.live).Some? || (s.platform.Windows? && !before.following)))
    case Followed(before, got) =>
      if got then s.byDefault == Place(Asked(s.live), s.byDefault) else HasDevice(s, before)
  }

  /** A change the loop has not seen is counted or about to be. */
  predicate Pending(s: State, seen: nat) { seen < s.raised + s.uncounted }

  /** How what the loop is on came of what it last did. */
  predicate Traced(s: State, on: On, deed: Deed) {
    match deed
    case Acted(before, got) =>
      if !got || !Moves(s.platform, before, s.live) then on.device == before.device
      else if Asked(s.live).Some? then on.device == Asked(s.live).value
      else on.following && (!s.signalled ==> on.device == s.byDefault)
    case Followed(before, got) =>
      && (if s.platform.Linux? then Asked(s.live).None? else on.following)
      && if got then !s.signalled ==> on.device == s.byDefault else on.device == before.device
  }

  /** The loop knows the settings, mutes as they say and is where its last deed put it; or a change is pending. */
  predicate Abreast(s: State) {
    match s.reader
    case Polling(known, on, seen, deed) =>
      seen <= s.raised && (Pending(s, seen) || (known == s.live && on.mute == s.live.muteLocal && Traced(s, on, deed)))
    case Due(_, _, seen, _) => seen <= s.raised
    case Moving(known, on, seen) =>
      seen <= s.raised && (Pending(s, seen) || (known == s.live && Moves(s.platform, on, s.live)))
    case _ => true
  }

  predicate Running(s: State) { s.reader.Polling? || s.reader.Due? || s.reader.Moving? }

  lemma StepAbreast(s: State, step: Step)
    requires Running(s) && Abreast(s) && Enabled(s, step)
    ensures Running(Next(s, step)) && Abreast(Next(s, step))
  {
  }

  lemma {:induction false} StaysAbreast(s: State, steps: seq<Step>)
    requires Running(s) && Abreast(s) && After(s, steps).Some?
    ensures Running(After(s, steps).value) && Abreast(After(s, steps).value)
    decreases |steps|
  {
    hide Next, Abreast;
    if steps != [] {
      StaysAbreast(s, steps[..|steps| - 1]);
      StepAbreast(After(s, steps[..|steps| - 1]).value, steps[|steps| - 1]);
    }
  }

  lemma SameCount(a: nat, d: nat)
    requires d < WORD && Count(a + d) == Count(a)
    ensures d == 0
  {
  }

  /** The loop knows the settings in force and mutes as they say, and is on their output exactly as its deed has it. */
  predicate SettledRight(s: State)
    requires s.reader.Polling?
  {
    && s.reader.known == s.live && s.reader.on.mute == s.live.muteLocal
    && (HasDevice(s, s.reader.on) <==> DeedSuffices(s, s.reader.deed))
  }

  lemma SettledIsRight(s: State)
    requires Settled(s) && Abreast(s)
    ensures SettledRight(s)
  {
    var d := s.raised - s.reader.seen;
    assert s.raised == s.reader.seen + d && 0 <= d < WORD;
    SameCount(s.reader.seen, d);
  }

  /**
    * Once the loop has noted a count and has the settings still to read, it settles only knowing the settings in
    * force, muting as they say, and on their output exactly when its last deed sufficed, whatever the calls do.
    */
  lemma LoopSettlesOnTheSettings(s: State, steps: seq<Step>)
    requires s.reader.Due? && s.reader.seen <= s.raised && After(s, steps).Some?
    ensures Settled(After(s, steps).value) ==> SettledRight(After(s, steps).value)
  {
    StaysAbreast(s, steps);
    if Settled(After(s, steps).value) { SettledIsRight(After(s, steps).value); }
  }

  // Where the loop ends up when every device it opens does open, said without what it recorded.

  /** A capture told of another default output is on it, if it follows the default and the output opens. */
  lemma FollowTakes(s: State, opens: bool)
    requires s.reader.Polling? && s.signalled
    ensures var n := Next(s, Follow(opens));
            var follows := if s.platform.Linux? then Asked(s.live).None? else s.reader.on.following;
            && n.reader.Polling? && !n.signalled
            && n.reader.on.device == (if opens && follows then s.byDefault else s.reader.on.device)
  {
  }

  predicate OpensAll(steps: seq<Step>) {
    forall k :: 0 <= k < |steps| && (steps[k].Move? || steps[k].Follow?) ==> steps[k].opens
  }

  /** On Windows a capture that takes itself to follow is on the default, or has yet to hear of another. */
  predicate KeepsUp(s: State, on: On) {
    s.platform.Windows? && on.following ==> s.signalled || on.device == s.byDefault
  }

  predicate InPlace(s: State) {
    match s.reader
    case Polling(_, on, seen, _) =>
      && KeepsUp(s, on)
      && (|| Pending(s, seen)
          || match Asked(s.live)
             case Some(name) => on.device == name || (s.platform.Windows? && on.following)
             case None => s.platform.Linux? || on.following)
    case Due(_, on, _, _) => KeepsUp(s, on)
    case Moving(_, on, _) => KeepsUp(s, on)
    case _ => true
  }

  lemma StepInPlace(s: State, step: Step)
    requires Running(s) && Abreast(s) && InPlace(s) && Enabled(s, step)
    requires step.Move? || step.Follow? ==> step.opens
    ensures InPlace(Next(s, step))
  {
  }

  lemma {:induction false} StaysInPlace(s: State, steps: seq<Step>)
    requires Running(s) && Abreast(s) && InPlace(s) && After(s, steps).Some? && OpensAll(steps)
    ensures InPlace(After(s, steps).value)
    decreases |steps|
  {
    hide Next, Abreast, InPlace;
    if steps != [] {
      var before := steps[..|steps| - 1];
      assert forall k :: 0 <= k < |before| ==> before[k] == steps[k];
      StaysInPlace(s, before);
      StaysAbreast(s, before);
      StepInPlace(After(s, before).value, steps[|steps| - 1]);
    }
  }

  /**
    * With every device opening, a loop that settles is on the device it is asked for by name, but for a capture on
    * Windows that follows the default, which is on the default; and on Windows, asked for the default, on that.
    */
  lemma OpenedLoopIsOnItsOutput(s: State, steps: seq<Step>)
    requires s.reader.Due? && s.reader.seen <= s.raised && KeepsUp(s, s.reader.on)
    requires After(s, steps).Some? && OpensAll(steps) && Settled(After(s, steps).value)
    ensures var n := After(s, steps).value;
            match Asked(n.live)
            case Some(name) =>
              n.reader.on.device == name || (s.platform.Windows? && n.reader.on.device == n.byDefault)
            case None => s.platform.Windows? ==> n.reader.on.device == n.byDefault
  {
    hide Next;
    StaysInPlace(s, steps);
    StaysAbreast(s, steps);
    SamePlatform(s, steps);
    SettledIsRight(After(s, steps).value);
    var n := After(s, steps).value;
    SameCount(n.reader.seen, n.raised - n.reader.seen);
  }

  lemma {:induction false} SamePlatform(s: State, steps: seq<Step>)
    requires After(s, steps).Some?
    ensures After(s, steps).value.platform == s.platform
    decreases |steps|
  {
    if steps != [] { SamePlatform(s, steps[..|steps| - 1]); }
  }

  predicate NeverNamed(steps: seq<Step>) {
    forall k :: 0 <= k < |steps| && steps[k].Store? ==> Asked(steps[k].live).None?
  }

  /** On Linux a capture only ever asked for the default output is on it whenever it has nothing to hear of. */
  lemma {:induction false} LinuxFollowsTheDefault(s: State, steps: seq<Step>)
    requires s.platform.Linux? && Asked(s.live).None? && (s.reader.Polling? || s.reader.Due?)
    requires s.signalled || s.reader.on.device == s.byDefault
    requires After(s, steps).Some? && OpensAll(steps) && NeverNamed(steps)
    ensures var n := After(s, steps).value;
            && Asked(n.live).None? && (n.reader.Polling? || n.reader.Due?)
            && (n.signalled || n.reader.on.device == n.byDefault)
    decreases |steps|
  {
    if steps != [] {
      var before := steps[..|steps| - 1];
      assert forall k :: 0 <= k < |before| ==> before[k] == steps[k];
      LinuxFollowsTheDefault(s, before);
      SamePlatform(s, before);
    }
  }

  lemma AfterOn(s: State, steps: seq<Step>, step: Step)
    requires After(s, steps).Some? && Enabled(After(s, steps).value, step)
    ensures After(s, steps + [step]) == Some(Next(After(s, steps).value, step))
  {
    assert (steps + [step])[..|steps + [step]| - 1] == steps;
  }

  lemma LoopReads(s: State) returns (steps: seq<Step>)
    requires s.reader.Polling? && Count(s.raised) != Count(s.reader.seen)
    ensures steps == [Poll, Step.Read] || steps == [Poll, Step.Read, Move(true)]
    ensures After(s, steps).Some?
    ensures var n := After(s, steps).value;
            n == s.(reader := n.reader) && n.reader.Polling? && n.reader.seen == n.raised
  {
    assert After(s, []) == Some(s);
    hide After, Count, Moves, Moved, Asked;
    AfterOn(s, [], Poll);
    AfterOn(s, [] + [Poll], Step.Read);
    steps := [] + [Poll] + [Step.Read];
    if After(s, steps).value.reader.Moving? {
      AfterOn(s, steps, Move(true));
      steps := steps + [Move(true)];
    }
  }

  /** With every call finished, the loop's own steps settle it: a poll, a read, and what there is to open. */
  lemma LoopSettles(s: State) returns (steps: seq<Step>)
    requires s.reader.Polling? && s.uncounted == 0 && s.reader.seen <= s.raised < s.reader.seen + WORD
    ensures |steps| <= 4 && OpensAll(steps)
    ensures forall k :: 0 <= k < |steps| ==> !steps[k].Store? && !steps[k].Raise? && !steps[k].DefaultTo?
    ensures After(s, steps).Some? && Settled(After(s, steps).value)
  {
    steps := [];
    assert After(s, steps) == Some(s);
    hide After, Moves, Follows, Moved;
    if Count(s.raised) != Count(s.reader.seen) { steps := LoopReads(s); }
    if After(s, steps).value.signalled {
      AfterOn(s, steps, Follow(true));
      steps := steps + [Follow(true)];
    }
  }

  /** However the run goes on, the loop settles only right. */
  ghost predicate AlwaysSettlesRight(s: State) {
    forall steps :: After(s, steps).Some? && Settled(After(s, steps).value) ==> SettledRight(After(s, steps).value)
  }

  /**
    * Opening is the other way round, the settings first and the count after. From there the loop always settles
    * right exactly when no change was stored and counted in between that it did not open with.
    */
  lemma OpeningSettlesExactlyWhen(s: State)
    requires s.reader.Opened? && s.reader.on.mute == s.reader.known.muteLocal
    ensures AlwaysSettlesRight(Next(s, Start)) <==> s.reader.known == s.live || s.uncounted > 0
  {
    var started := Next(s, Start);
    if s.reader.known == s.live || s.uncounted > 0 {
      forall steps | After(started, steps).Some? && Settled(After(started, steps).value)
        ensures SettledRight(After(started, steps).value)
      {
        StaysAbreast(started, steps);
        SettledIsRight(After(started, steps).value);
      }
    } else {
      var none: seq<Step> := [];
      assert After(started, none) == Some(started);
      if s.signalled {
        assert [Follow(false)][..0] == none;
        assert After(started, [Follow(false)]) == Some(Next(started, Follow(false)));
      }
    }
  }

  /** A capture opened has the muting it knows of. */
  lemma OpenedMutes(s: State)
    requires s.reader.Named?
    ensures var o := Next(Next(s, OpenMuting), OpenFollowing);
            o.reader.Opened? && o.reader.on.mute == o.reader.known.muteLocal
  {
  }

  // What goes wrong.

  /** A capture opened with nothing changing meanwhile. */
  function OpenedWith(platform: Platform, live: Live, byDefault: string): (o: State)
    ensures o.reader == Opened(live, On(Place(Asked(live), byDefault), Asked(live).None?, live.muteLocal))
    ensures o == Begun(platform, live, byDefault).(reader := o.reader)
  {
    Next(Next(Next(Begun(platform, live, byDefault), OpenDevice), OpenMuting), OpenFollowing)
  }

  /** And started. */
  function Started(platform: Platform, live: Live, byDefault: string): (s: State)
    ensures s.reader.Polling? && s.reader.known == live && s.reader.seen == 0
    ensures s.reader.on == On(Place(Asked(live), byDefault), Asked(live).None?, live.muteLocal)
    ensures s == Begun(platform, live, byDefault).(reader := s.reader)
  {
    Next(OpenedWith(platform, live, byDefault), Start)
  }

  /** Settings changed whole, and the loop's poll and read. */
  function Changed(s: State, live: Live): (n: State)
    requires s.reader.Polling? && s.raised == s.uncounted == s.reader.seen == 0 && live != s.live
    ensures n == s.(live := live, raised := 1, reader := n.reader)
    ensures if Moves(s.platform, s.reader.on, live) then n.reader == Moving(live, s.reader.on, 1)
            else n.reader == Polling(live, s.reader.on.(mute := live.muteLocal), 1, Acted(s.reader.on, false))
  {
    Next(Next(Next(Next(s, Store(live)), Raise), Poll), Read)
  }

  /** On Linux a capture on a named device, asked for the default output, reads that and stays where it is. */
  lemma DefaultIsNotTakenUp(name: string, byDefault: string, mute: bool)
    requires name != "" && name != byDefault
    ensures var s := Changed(Started(Linux, Live(Some(name), mute), byDefault), Live(None, mute));
            && Settled(s) && s.live.device == None && s.reader.on.device == name && !HasDevice(s, s.reader.on)
            && AlwaysSettlesRight(Started(Linux, Live(Some(name), mute), byDefault))
  {
    OpeningSettlesExactlyWhen(OpenedWith(Linux, Live(Some(name), mute), byDefault));
    hide OpenedWith, Changed;
  }

  /** On either platform a capture whose new device does not open stays where it is. */
  lemma UnopenedIsNotTakenUp(platform: Platform, name: string, other: string, byDefault: string, mute: bool)
    requires name != "" && other != "" && name != other
    ensures var moving := Changed(Started(platform, Live(Some(name), mute), byDefault), Live(Some(other), mute));
            var s := Next(moving, Move(false));
            Settled(s) && s.live.device == Some(other) && s.reader.on.device == name && !HasDevice(s, s.reader.on)
  {
    hide Started, OpenedWith, Changed;
  }

  /** On Windows a capture on the default output, then asked for that output by name, leaves it with the default. */
  lemma NamedOutputIsLeft(name: string, other: string, mute: bool)
    requires name != "" && name != other
    ensures var named := Changed(Started(Windows, Live(None, mute), name), Live(Some(name), mute));
            var s := Next(Next(named, DefaultTo(other)), Follow(true));
            && Settled(named) && HasDevice(named, named.reader.on)
            && Settled(s) && s.live.device == Some(name) && s.reader.on.device == other && !HasDevice(s, s.reader.on)
  {
    hide Started, OpenedWith, Changed;
  }

  /** A change made whole while the capture opens is never applied: nothing the loop does alone brings it in. */
  lemma {:induction false} ChangeWhileOpeningIsLost(platform: Platform, was: Live, now: Live, byDefault: string,
                                                    polls: seq<Step>)
    requires was != now
    requires forall k :: 0 <= k < |polls| ==> polls[k].Poll? || polls[k].Read? || polls[k].Move?
    ensures var s := Next(Next(Next(OpenedWith(platform, was, byDefault), Store(now)), Raise), Start);
            && (After(s, polls).Some? ==> After(s, polls) == Some(s))
            && s.live == now && s.reader.known == was && s.reader.seen == s.raised == 1 && s.uncounted == 0
    decreases |polls|
  {
    hide OpenedWith;
    if polls != [] {
      ChangeWhileOpeningIsLost(platform, was, now, byDefault, polls[..|polls| - 1]);
    }
  }

  /** A change between the first two reads of an opening leaves a capture on settings that were never asked for. */
  lemma OpeningMixesSettings(platform: Platform, was: Live, now: Live, byDefault: string)
    requires was.device != now.device && was.muteLocal != now.muteLocal
    ensures var named := Next(Begun(platform, was, byDefault), OpenDevice);
            var mixed := Next(Next(Next(Next(named, Store(now)), Raise), OpenMuting), OpenFollowing);
            var s := Next(mixed, Start);
            && s.reader.known == Live(was.device, now.muteLocal) && s.reader.known != was && s.reader.known != now
            && s.reader.on.device == Place(Asked(was), byDefault) && s.reader.on.mute == now.muteLocal
            && !AlwaysSettlesRight(s)
  {
    var named := Next(Begun(platform, was, byDefault), OpenDevice);
    OpeningSettlesExactlyWhen(Next(Next(Next(Next(named, Store(now)), Raise), OpenMuting), OpenFollowing));
  }

  /** On Windows a change to the default between opening and the last read is taken for one already followed. */
  lemma OpeningFollowsFromElsewhere(name: string, byDefault: string, mute: bool)
    requires name != "" && name != byDefault
    ensures var named := Next(Next(Begun(Windows, Live(Some(name), mute), byDefault), OpenDevice), OpenMuting);
            var s := Next(Next(Next(named, Store(Live(None, mute))), OpenFollowing), Start);
            var n := Next(Next(Next(s, Raise), Poll), Read);
            Settled(n) && n.live.device == None && n.reader.on.device == name && !HasDevice(n, n.reader.on)
  {
  }
}
