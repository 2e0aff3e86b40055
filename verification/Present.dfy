/** The presenting loop: pictures leased from the library, drawn, and given back. */
module PresentingLoop {
  import opened Common

  /** The pictures a client may hold at once. */
  const LIMIT: nat := 2

  /** What the loop does to the library and the toolkit; a lease is named by how many were taken before it. */
  datatype Event =
    | Asked(held: nat)
    | Acquired(lease: nat, sequence: nat)
    | Released(lease: nat)
    | Drew(lease: nat, textures: Option<nat>)
    | Cleared

  /** What the library answers: the newest picture and whether the renderer is remade for it, or none. */
  datatype Answer = Fresh(sequence: nat, remade: bool) | NothingNew

  /** One pass of the loop: the window is hidden, or it is seen and a poll may be due. */
  datatype Pass = Hidden | Seen(now: int, due: bool, answer: Answer)

  datatype State = State(
    shown: nat, showing: bool, lastSequence: nat, cameBack: bool, loaded: bool, loadedAt: int,
    textures: Option<nat>, polls: nat, pictures: nat, repeats: nat, skips: nat, log: seq<Event>)

  const START := State(0, false, 0, false, false, 0, None, 0, 0, 0, 0, [])

  function Leases(log: seq<Event>): nat {
    if log == [] then 0 else Leases(log[..|log| - 1]) + if log[|log| - 1].Acquired? then 1 else 0
  }

  function Returns(log: seq<Event>): nat {
    if log == [] then 0 else Returns(log[..|log| - 1]) + if log[|log| - 1].Released? then 1 else 0
  }

  /** The leases out, as the library counts them. */
  function Held(log: seq<Event>): int { Leases(log) - Returns(log) }

  function Polled(s: State, answer: Answer): State {
    var asked := s.(polls := s.polls + 1, log := s.log + [Asked(if s.showing then 1 else 0)]);
    match answer
    case NothingNew => asked.(repeats := s.repeats + 1)
    case Fresh(sequence, remade) => Taken(asked, sequence, remade)
  }

  /** A new picture: the one shown is given back, and what lay between is counted, unless passed over unseen. */
  function Taken(s: State, sequence: nat, remade: bool): State {
    var taken := s.log + [Acquired(s.pictures, sequence)];
    var jump := s.showing && !s.cameBack && sequence > s.lastSequence + 1;
    s.(shown := s.pictures, showing := true, lastSequence := sequence, cameBack := false, loaded := false,
       textures := if remade then None else s.textures, pictures := s.pictures + 1,
       skips := if jump then s.skips + (sequence - s.lastSequence - 1) else s.skips,
       log := if s.showing then taken + [Released(s.shown)] else taken)
  }

  /** Drawing: the picture shown is loaded unless it has been for under a second; then it is drawn. */
  function Drawn(s: State, now: int): State {
    if !s.showing then s.(log := s.log + [Cleared])
    else
      var load := !s.loaded || now - s.loadedAt >= 1000;
      var textures := if load then Some(s.shown) else s.textures;
      s.(loaded := true, loadedAt := if load then now else s.loadedAt, textures := textures,
         log := s.log + [Drew(s.shown, textures)])
  }

  function Step(s: State, p: Pass): State {
    match p
    case Hidden => s.(cameBack := true)
    case Seen(now, due, answer) => Drawn(if due then Polled(s, answer) else s, now)
  }

  function After(passes: seq<Pass>): State {
    if passes == [] then START else Step(After(passes[..|passes| - 1]), passes[|passes| - 1])
  }

  /** Leaving the loop gives back what is held. */
  function Ended(s: State): State {
    if s.showing then s.(log := s.log + [Released(s.shown)]) else s
  }

  // What every run of the loop keeps.

  /** The last picture taken, said of the log alone. */
  function LastTaken(log: seq<Event>): Option<nat> {
    if log == [] then None
    else if log[|log| - 1].Acquired? then Some(log[|log| - 1].lease)
    else LastTaken(log[..|log| - 1])
  }

  /** Whether a lease is out: taken and not given back since. */
  function Out(log: seq<Event>, lease: nat): bool {
    if log == [] then false
    else
      match log[|log| - 1]
      case Acquired(l, _) => l == lease || Out(log[..|log| - 1], lease)
      case Released(l) => l != lease && Out(log[..|log| - 1], lease)
      case _ => Out(log[..|log| - 1], lease)
  }

  /**
    * A log that keeps to the library's rules: leases are named in order, the library is asked with room for one
    * more, only a lease that is out is given back, and what is drawn is the last one taken, out, and in the
    * textures.
    */
  ghost predicate Lawful(log: seq<Event>) {
    log == [] || (Lawful(log[..|log| - 1]) && Allowed(log[..|log| - 1], log[|log| - 1]))
  }

  ghost predicate Allowed(before: seq<Event>, e: Event) {
    match e
    case Asked(held) => held == Held(before) && held < LIMIT
    case Acquired(lease, _) => lease == Leases(before) && !Out(before, lease) && Held(before) < LIMIT
    case Released(lease) => Out(before, lease)
    case Drew(lease, textures) =>
      Out(before, lease) && LastTaken(before) == Some(lease) && textures == Some(lease)
    case Cleared => LastTaken(before).None?
  }

  /** What one more event makes of a log. */
  lemma Appended(log: seq<Event>, e: Event)
    ensures var more := log + [e];
            && Leases(more) == Leases(log) + (if e.Acquired? then 1 else 0)
            && Held(more) == Held(log) + (if e.Acquired? then 1 else if e.Released? then -1 else 0)
            && LastTaken(more) == (if e.Acquired? then Some(e.lease) else LastTaken(log))
            && (Lawful(more) <==> Lawful(log) && Allowed(log, e))
            && forall l :: Out(more, l) <==>
                 (e.Acquired? && e.lease == l) || (Out(log, l) && !(e.Released? && e.lease == l))
  {
    assert (log + [e])[..|log + [e]| - 1] == log;
  }

  /** Between passes the loop holds the picture it shows and no other. */
  ghost predicate Consistent(s: State) {
    && Lawful(s.log)
    && s.pictures == Leases(s.log) && Held(s.log) == (if s.showing then 1 else 0)
    && s.polls == s.pictures + s.repeats
    && (s.showing <==> s.pictures > 0)
    && (s.showing ==> s.shown == s.pictures - 1)
    && LastTaken(s.log) == (if s.showing then Some(s.shown) else None)
    && (forall l :: Out(s.log, l) <==> s.showing && l == s.shown)
    && (s.loaded ==> s.textures == Some(s.shown))
  }

  lemma PolledConsistent(s: State, answer: Answer)
    requires Consistent(s)
    ensures Consistent(Polled(s, answer))
  {
    hide Lawful, Leases, Held, LastTaken, Out;
    var ask := Asked(if s.showing then 1 else 0);
    Appended(s.log, ask);
    if answer.Fresh? {
      var take := Acquired(s.pictures, answer.sequence);
      Appended(s.log + [ask], take);
      Appended(s.log + [ask] + [take], Released(s.shown));
    }
  }

  lemma DrawnConsistent(s: State, now: int)
    requires Consistent(s)
    ensures Consistent(Drawn(s, now))
  {
    hide Lawful, Leases, Held, LastTaken, Out;
    Appended(s.log, Cleared);
    Appended(s.log, Drew(s.shown, Drawn(s, now).textures));
  }

  lemma {:induction false} AlwaysConsistent(passes: seq<Pass>)
    ensures Consistent(After(passes))
    decreases |passes|
  {
    if passes != [] {
      hide Consistent, Polled, Drawn;
      var before, last := After(passes[..|passes| - 1]), passes[|passes| - 1];
      AlwaysConsistent(passes[..|passes| - 1]);
      if last.Seen? {
        if last.due { PolledConsistent(before, last.answer); }
        DrawnConsistent(if last.due then Polled(before, last.answer) else before, last.now);
      } else {
        ComingBack(before);
      }
    } else {
      NothingYet();
    }
  }

  lemma NothingYet()
    ensures Consistent(START)
  {
  }

  lemma ComingBack(s: State)
    requires Consistent(s)
    ensures Consistent(s.(cameBack := true))
  {
  }

  /** How often a log gives a lease back. */
  function TimesReleased(log: seq<Event>, lease: nat): nat {
    if log == [] then 0
    else TimesReleased(log[..|log| - 1], lease) + if log[|log| - 1] == Released(lease) then 1 else 0
  }

  /** In a lawful log each lease taken is out or has been given back, never both and never twice. */
  lemma {:induction false} ReleasedOnceUnlessOut(log: seq<Event>, lease: nat)
    requires Lawful(log)
    ensures lease < Leases(log) ==> TimesReleased(log, lease) == if Out(log, lease) then 0 else 1
    ensures lease >= Leases(log) ==> TimesReleased(log, lease) == 0 && !Out(log, lease)
    decreases |log|
  {
    if log != [] { ReleasedOnceUnlessOut(log[..|log| - 1], lease); }
  }

  /**
    * Every run of the loop, ended, has kept the library's rules, asked with at most one picture held, given each
    * picture back exactly once, and polled as often as it took a picture or repeated one.
    */
  lemma EveryPictureIsReturnedOnce(passes: seq<Pass>)
    ensures var s := Ended(After(passes));
            && Lawful(s.log) && Held(s.log) == 0
            && (forall l :: 0 <= l < s.pictures ==> TimesReleased(s.log, l) == 1)
            && Leases(s.log) == s.pictures && s.polls == s.pictures + s.repeats
  {
    AlwaysConsistent(passes);
    var s, e := After(passes), Ended(After(passes));
    hide Lawful, Leases, Held, LastTaken, Out, TimesReleased;
    Appended(s.log, Released(s.shown));
    forall l | 0 <= l < s.pictures ensures TimesReleased(e.log, l) == 1 { ReleasedOnceUnlessOut(e.log, l); }
  }

  // What the skips count.

  /** Passes none of which is hidden and whose pictures are numbered upwards from one. */
  predicate Upwards(passes: seq<Pass>, from: nat) {
    passes == [] ||
    var first := passes[0];
    && first.Seen?
    && (first.due && first.answer.Fresh? ==> first.answer.sequence > from)
    && Upwards(passes[1..], if first.due && first.answer.Fresh? then first.answer.sequence else from)
  }

  function StepAll(s: State, passes: seq<Pass>): State
    decreases |passes|
  {
    if passes == [] then s else StepAll(Step(s, passes[0]), passes[1..])
  }

  /** Over a stretch with the window seen, the pictures taken and those skipped make up the numbers passed. */
  lemma {:induction false} PicturesAndSkipsSpan(s: State, passes: seq<Pass>)
    requires s.showing && !s.cameBack && Upwards(passes, s.lastSequence)
    ensures var e := StepAll(s, passes);
            e.pictures - s.pictures + (e.skips - s.skips) == e.lastSequence - s.lastSequence
    decreases |passes|
  {
    if passes != [] { PicturesAndSkipsSpan(Step(s, passes[0]), passes[1..]); }
  }

  // The loop itself.

  class Presenter {
    var shown: nat
    var showing: bool
    var lastSequence: nat
    var cameBack: bool
    var loaded: bool
    var loadedAt: int
    var textures: Option<nat>
    var polls: nat
    var pictures: nat
    var repeats: nat
    var skips: nat
    var log: seq<Event>

    ghost function Now(): State
      reads this
    {
      State(shown, showing, lastSequence, cameBack, loaded, loadedAt, textures, polls, pictures, repeats, skips, log)
    }

    constructor ()
      ensures Now() == START
    {
      shown, showing, lastSequence, cameBack, loaded, loadedAt := 0, false, 0, false, false, 0;
      textures, polls, pictures, repeats, skips, log := None, 0, 0, 0, 0, [];
    }

    method Poll(answer: Answer)
      modifies this
      ensures Now() == Polled(old(Now()), answer)
    {
      polls, log := polls + 1, log + [Asked(if showing then 1 else 0)];
      if answer.Fresh? {
        Take(answer.sequence, answer.remade);
      } else {
        repeats := repeats + 1;
      }
    }

    method Take(sequence: nat, remade: bool)
      modifies this
      ensures Now() == Taken(old(Now()), sequence, remade)
    {
      var lease := pictures;
      var taken := log + [Acquired(lease, sequence)];
      var calls := if showing then taken + [Released(shown)] else taken;
      var jump := showing && !cameBack && sequence > lastSequence + 1;
      var skipped := if jump then sequence - lastSequence - 1 else 0;
      ghost var goal := Taken(Now(), sequence, remade);
      assert goal.log == calls && goal.skips == skips + skipped;
      log, skips := calls, skips + skipped;
      cameBack, lastSequence, shown, showing, loaded := false, sequence, lease, true, false;
      textures, pictures := if remade then None else textures, pictures + 1;
    }

    method Draw(now: int)
      modifies this
      ensures Now() == Drawn(old(Now()), now)
    {
      if showing {
        var load := !loaded || now - loadedAt >= 1000;
        if load { textures := Some(shown); }
        log := log + [Drew(shown, textures)];
        if load {
          loaded := true;
          loadedAt := now;
        }
      } else {
        log := log + [Cleared];
      }
    }

    /** The loop over the passes until the application quits, and the release on the way out. */
    method Loop(passes: seq<Pass>)
      requires Now() == START
      modifies this
      ensures Now() == Ended(After(passes))
    {
      hide Polled, Drawn;
      for k := 0 to |passes|
        invariant Now() == After(passes[..k])
      {
        var p := passes[k];
        assert passes[..k + 1][..k] == passes[..k];
        if p.Hidden? {
          cameBack := true;
        } else {
          if p.due { Poll(p.answer); }
          Draw(p.now);
        }
      }
      assert passes[..|passes|] == passes;
      if showing { log := log + [Released(shown)]; }
    }
  }

  function Steps(s: State, passes: seq<Pass>): State
    decreases |passes|
  {
    if passes == [] then s else Step(Steps(s, passes[..|passes| - 1]), passes[|passes| - 1])
  }

  /** A pass that brings no picture. */
  predicate BringsNone(p: Pass) { p.Hidden? || !p.due || p.answer.NothingNew? }

  lemma {:induction false} StaysAway(s: State, passes: seq<Pass>)
    requires s.cameBack && forall k :: 0 <= k < |passes| ==> BringsNone(passes[k])
    ensures var n := Steps(s, passes); n.cameBack && n.skips == s.skips && n.pictures == s.pictures
    decreases |passes|
  {
    if passes != [] { StaysAway(s, passes[..|passes| - 1]); }
  }

  /**
    * The first picture after a hidden window, however many passes later it comes, counts no skip; the one after it
    * counts as ever.
    */
  lemma HiddenCountsNoSkip(s: State, passes: seq<Pass>, now: int, first: nat, second: nat)
    requires forall k :: 0 <= k < |passes| ==> BringsNone(passes[k])
    ensures var back := Step(Steps(Step(s, Hidden), passes), Seen(now, true, Fresh(first, false)));
            var on := Step(back, Seen(now, true, Fresh(second, false)));
            && back.skips == s.skips && back.lastSequence == first && back.pictures == s.pictures + 1
            && on.skips == back.skips + if second > first + 1 then second - first - 1 else 0
  {
    StaysAway(Step(s, Hidden), passes);
  }

  /** A draw loads the picture shown exactly when it was not loaded, or was a second ago or more. */
  lemma DrawLoadsExactlyWhen(s: State, now: int)
    requires s.showing && s.loadedAt < now
    ensures var d := Drawn(s, now);
            && (d.loadedAt == now <==> !s.loaded || now >= s.loadedAt + 1000)
            && d.loaded && (d.loadedAt == now ==> d.textures == Some(s.shown))
            && (d.loadedAt != now ==> d.textures == s.textures && d.loadedAt == s.loadedAt)
  {
  }
}
