/** The pads: which states and reports are sent, in what order, under which names. */
module PadSender {
  import opened Common

  const PADS: nat := 8
  const RAW_PADS: nat := 4
  const RAW_ID_BASE: nat := 200
  const REPORT_MAX: nat := 78

  datatype PadState = PadState(buttons: nat, lx: int, ly: int, rx: int, ry: int, lt: nat, rt: nat)

  /** A gamepad's slot. */
  datatype Slot =
    | NoPad
    | Pad(which: nat, id: nat, pending: bool, last: Option<PadState>)

  /** A raw pad's slot. */
  datatype Raw =
    | NoRaw
    | RawPad(path: nat, id: nat, wireless: bool, featuresDue: bool)

  datatype Status = Sent | NotStarted | Failed

  /** What is done to the session, in order. */
  datatype Event =
    | SessionSeen
    | Plugged(id: nat)
    | Unplugged(id: nat)
    | State(id: nat, state: PadState, status: Status)
    | Features(id: nat)
    | Input(id: nat, length: nat)

  datatype Table = Table(pads: seq<Slot>, raw: seq<Raw>, wasEstablished: bool, log: seq<Event>) {
    predicate Sized() { |pads| == PADS && |raw| == RAW_PADS }
  }

  // Sticks.

  const I16_MIN: int := -0x8000
  const I16_MAX: int := 0x7FFF

  /** SDL's sticks grow downwards; the most negative value has no negation. */
  function Up(v: int): (u: int)
    requires I16_MIN <= v <= I16_MAX
    ensures I16_MIN <= u <= I16_MAX
    ensures u == -v || (v == I16_MIN && u == I16_MAX)
  {
    if v == I16_MIN then I16_MAX else -v
  }

  /** An axis value without its jitter: zero near the centre, even elsewhere, except at the two extremes. */
  function Clean(v: int): (c: int)
    requires I16_MIN <= v <= I16_MAX
    ensures -2000 < v < 2000 ==> c == 0
    ensures v == I16_MIN || v == I16_MAX ==> c == v
    ensures v <= -2000 || v >= 2000 ==> v - 1 <= c <= v && (c % 2 == 0 || v == I16_MAX)
  {
    if -2000 < v < 2000 then 0
    else if v == I16_MIN || v == I16_MAX then v
    else v - v % 2
  }

  /** Cleaning a clean stick changes nothing, and cleaning keeps sticks in their order. */
  lemma CleanSettles(v: int, w: int)
    requires I16_MIN <= v <= w <= I16_MAX
    ensures Clean(Clean(v)) == Clean(v) && Clean(v) <= Clean(w)
  {
  }

  // Gamepads.

  /** The slot a gamepad is in, or the number of slots when it is in none. */
  function ByWhich(pads: seq<Slot>, which: nat, from: nat): (i: nat)
    requires from <= |pads|
    ensures from <= i <= |pads| && (i < |pads| ==> pads[i].Pad? && pads[i].which == which)
    ensures forall j :: from <= j < i ==> !(pads[j].Pad? && pads[j].which == which)
    decreases |pads| - from
  {
    if from == |pads| || (pads[from].Pad? && pads[from].which == which) then from else ByWhich(pads, which, from + 1)
  }

  function FreePad(pads: seq<Slot>, from: nat): (i: nat)
    requires from <= |pads|
    ensures from <= i <= |pads| && (i < |pads| ==> pads[i].NoPad?)
    ensures forall j :: from <= j < i ==> !pads[j].NoPad?
    decreases |pads| - from
  {
    if from == |pads| || pads[from].NoPad? then from else FreePad(pads, from + 1)
  }

  /** A gamepad appears; `alone` is whether it is left alone, `opens` whether it opens. */
  function Added(t: Table, which: nat, alone: bool, opens: bool): Table {
    var slot := FreePad(t.pads, 0);
    if ByWhich(t.pads, which, 0) < |t.pads| || alone || slot == |t.pads| || !opens then t
    else t.(pads := t.pads[slot := Pad(which, slot, true, None)], log := t.log + [Plugged(slot)])
  }

  function Removed(t: Table, which: nat): Table {
    var at := ByWhich(t.pads, which, 0);
    if at == |t.pads| then t
    else t.(pads := t.pads[at := NoPad], log := t.log + [Unplugged(t.pads[at].id)])
  }

  function Changed(t: Table, which: nat): Table {
    var at := ByWhich(t.pads, which, 0);
    if at == |t.pads| then t else t.(pads := t.pads[at := t.pads[at].(pending := true)])
  }

  /** What a pad holds and what sending it is answered. */
  datatype Reading = Reading(state: PadState, status: Status)

  /** One slot's flush: the state goes unless the session's host was sent that very state last. */
  function FlushSlot(t: Table, i: nat, r: Reading): Table
    requires i < |t.pads|
  {
    var p := t.pads[i];
    if p.NoPad? || !p.pending then t
    else if p.last == Some(r.state) then t.(pads := t.pads[i := p.(pending := false)])
    else
      var sent := t.(log := t.log + [State(p.id, r.state, r.status)]);
      match r.status
      case NotStarted => sent
      case Failed => sent.(pads := t.pads[i := p.(pending := false)])
      case Sent => sent.(pads := t.pads[i := p.(pending := false, last := Some(r.state))])
  }

  function FlushFrom(t: Table, i: nat, readings: seq<Reading>): (n: Table)
    requires i <= |t.pads| && |readings| == |t.pads|
    ensures |n.pads| == |t.pads|
    decreases |t.pads| - i
  {
    if i == |t.pads| then t else FlushFrom(FlushSlot(t, i, readings[i]), i + 1, readings)
  }

  // Sessions.

  function Forgotten(p: Slot): Slot { if p.Pad? then p.(last := None) else p }

  function FeaturesOwed(r: Raw): Raw { if r.RawPad? then r.(featuresDue := true) else r }

  /** A session starts: no pad's state counts as sent, and every raw pad owes its features. */
  function SessionBegins(t: Table): Table {
    t.(pads := seq(|t.pads|, i requires 0 <= i < |t.pads| => Forgotten(t.pads[i])),
       raw := seq(|t.raw|, i requires 0 <= i < |t.raw| => FeaturesOwed(t.raw[i])),
       log := t.log + [SessionSeen])
  }

  // Raw pads.

  /** A device in the system's list: whether it is one this side reads, and whether it opens. */
  datatype Device = Device(path: nat, ours: bool, opens: bool, wireless: bool)

  predicate OpenAlready(raw: seq<Raw>, path: nat) {
    exists i :: 0 <= i < |raw| && raw[i].RawPad? && raw[i].path == path
  }

  function FreeRaw(raw: seq<Raw>, from: nat): (i: nat)
    requires from <= |raw|
    ensures from <= i <= |raw| && (i < |raw| ==> raw[i].NoRaw?)
    ensures forall j :: from <= j < i ==> !raw[j].NoRaw?
    decreases |raw| - from
  {
    if from == |raw| || raw[from].NoRaw? then from else FreeRaw(raw, from + 1)
  }

  function Scanned(t: Table, devices: seq<Device>): (n: Table)
    ensures |n.raw| == |t.raw| && n.pads == t.pads
    decreases |devices|
  {
    if devices == [] then t
    else
      var d := devices[0];
      if !d.ours || OpenAlready(t.raw, d.path) then Scanned(t, devices[1..])
      else
        var slot := FreeRaw(t.raw, 0);
        if slot == |t.raw| then t
        else if !d.opens then Scanned(t, devices[1..])
        else Scanned(Opened(t, slot, d), devices[1..])
  }

  function Opened(t: Table, slot: nat, d: Device): Table
    requires slot < |t.raw|
  {
    t.(raw := t.raw[slot := RawPad(d.path, RAW_ID_BASE + slot, d.wireless, true)],
       log := t.log + [Plugged(RAW_ID_BASE + slot)])
  }

  /** What a raw pad has queued, and whether reading it ends in an error. */
  datatype Queue = Queue(reports: seq<nat>, gone: bool)

  function Sendable(p: Raw, length: nat): nat
    requires p.RawPad?
  {
    if p.wireless && length > REPORT_MAX then REPORT_MAX else length
  }

  function Forwarded(log: seq<Event>, p: Raw, reports: seq<nat>): seq<Event>
    requires p.RawPad?
    decreases |reports|
  {
    if reports == [] then log
    else Forwarded(log + [Input(p.id, Sendable(p, reports[0]))], p, reports[1..])
  }

  /** One raw pad's pass: its feature reports if they are owed, everything it has queued, and its going. */
  function PumpSlot(t: Table, i: nat, established: bool, q: Queue): Table
    requires i < |t.raw|
  {
    var p := t.raw[i];
    if p.NoRaw? then t
    else
      var greeted :=
        if established && p.featuresDue
        then t.(raw := t.raw[i := p.(featuresDue := false)], log := t.log + [Features(p.id)]) else t;
      var read := if established then greeted.(log := Forwarded(greeted.log, p, q.reports)) else greeted;
      if q.gone then read.(raw := read.raw[i := NoRaw], log := read.log + [Unplugged(p.id)]) else read
  }

  function PumpFrom(t: Table, i: nat, established: bool, queues: seq<Queue>): (n: Table)
    requires i <= |t.raw| && |queues| == |t.raw|
    ensures |n.raw| == |t.raw| && n.pads == t.pads
    decreases |t.raw| - i
  {
    if i == |t.raw| then t else PumpFrom(PumpSlot(t, i, established, queues[i]), i + 1, established, queues)
  }

  // What every pass keeps.

  /** The state the host of this session was last sent of a pad, since it was plugged in; from the log alone. */
  function LastAccepted(log: seq<Event>, id: nat): Option<PadState> {
    if log == [] then None
    else
      match log[|log| - 1]
      case SessionSeen => None
      case Plugged(i) => if i == id then None else LastAccepted(log[..|log| - 1], id)
      case State(i, state, Sent) => if i == id then Some(state) else LastAccepted(log[..|log| - 1], id)
      case _ => LastAccepted(log[..|log| - 1], id)
  }

  /** Whether a pad's feature reports were tried in this session, since it was plugged in; from the log alone. */
  predicate Greeted(log: seq<Event>, id: nat) {
    log != [] &&
    match log[|log| - 1]
    case SessionSeen => false
    case Plugged(i) => i != id && Greeted(log[..|log| - 1], id)
    case Features(i) => i == id || Greeted(log[..|log| - 1], id)
    case _ => Greeted(log[..|log| - 1], id)
  }

  /** An event that may follow a log: no state is accepted twice running, and no input goes before the features. */
  predicate Allowed(before: seq<Event>, e: Event) {
    match e
    case State(id, state, Sent) => LastAccepted(before, id) != Some(state)
    case Input(id, _) => Greeted(before, id)
    case _ => true
  }

  predicate Lawful(log: seq<Event>) {
    log == [] || (Lawful(log[..|log| - 1]) && Allowed(log[..|log| - 1], log[|log| - 1]))
  }

  lemma Appended(log: seq<Event>, e: Event)
    ensures var more := log + [e];
            && (Lawful(more) <==> Lawful(log) && Allowed(log, e))
            && (forall id :: LastAccepted(more, id) ==
                  if e.SessionSeen? || (e.Plugged? && e.id == id) then None
                  else if e.State? && e.status.Sent? && e.id == id then Some(e.state)
                  else LastAccepted(log, id))
            && (forall id :: Greeted(more, id) <==>
                  if e.SessionSeen? || (e.Plugged? && e.id == id) then false
                  else (e.Features? && e.id == id) || Greeted(log, id))
  {
    assert (log + [e])[..|log + [e]| - 1] == log;
  }

  /** The slots agree with the log, and every pad is named by its slot. */
  ghost predicate Consistent(t: Table) {
    && t.Sized() && Lawful(t.log)
    && (forall i :: 0 <= i < PADS && t.pads[i].Pad? ==>
          t.pads[i].id == i && t.pads[i].last == LastAccepted(t.log, i))
    && (forall i :: 0 <= i < RAW_PADS && t.raw[i].RawPad? ==>
          t.raw[i].id == RAW_ID_BASE + i && (!t.raw[i].featuresDue ==> Greeted(t.log, RAW_ID_BASE + i)))
  }

  lemma AddedConsistent(t: Table, which: nat, alone: bool, opens: bool)
    requires Consistent(t)
    ensures Consistent(Added(t, which, alone, opens))
  {
    hide Lawful, LastAccepted, Greeted;
    Appended(t.log, Plugged(FreePad(t.pads, 0)));
  }

  lemma RemovedConsistent(t: Table, which: nat)
    requires Consistent(t)
    ensures Consistent(Removed(t, which))
  {
    hide Lawful, LastAccepted, Greeted;
    var at := ByWhich(t.pads, which, 0);
    if at < |t.pads| { Appended(t.log, Unplugged(t.pads[at].id)); }
  }

  lemma FlushSlotConsistent(t: Table, i: nat, r: Reading)
    requires Consistent(t) && i < PADS
    ensures Consistent(FlushSlot(t, i, r))
  {
    hide Lawful, LastAccepted, Greeted;
    if t.pads[i].Pad? { Appended(t.log, State(t.pads[i].id, r.state, r.status)); }
  }

  lemma {:induction false} FlushConsistent(t: Table, i: nat, readings: seq<Reading>)
    requires Consistent(t) && i <= PADS && |readings| == PADS
    ensures Consistent(FlushFrom(t, i, readings))
    decreases PADS - i
  {
    hide Consistent, FlushSlot;
    SizedWhenConsistent(t);
    if i < PADS {
      FlushSlotConsistent(t, i, readings[i]);
      SizedWhenConsistent(FlushSlot(t, i, readings[i]));
      FlushConsistent(FlushSlot(t, i, readings[i]), i + 1, readings);
    }
  }

  lemma SizedWhenConsistent(t: Table)
    requires Consistent(t)
    ensures |t.pads| == PADS && |t.raw| == RAW_PADS
  {
  }

  lemma SessionConsistent(t: Table)
    requires Consistent(t)
    ensures Consistent(SessionBegins(t))
  {
    hide Lawful, LastAccepted, Greeted;
    Appended(t.log, SessionSeen);
  }

  lemma OpenedConsistent(t: Table, slot: nat, d: Device)
    requires Consistent(t) && slot < RAW_PADS && t.raw[slot].NoRaw?
    ensures Consistent(Opened(t, slot, d))
  {
    hide Lawful, LastAccepted, Greeted;
    Appended(t.log, Plugged(RAW_ID_BASE + slot));
  }

  lemma {:induction false} ScannedConsistent(t: Table, devices: seq<Device>)
    requires Consistent(t)
    ensures Consistent(Scanned(t, devices))
    decreases |devices|
  {
    hide Consistent, OpenAlready, Opened;
    SizedWhenConsistent(t);
    if devices != [] {
      var slot := FreeRaw(t.raw, 0);
      if slot < |t.raw| {
        OpenedConsistent(t, slot, devices[0]);
        ScannedConsistent(Opened(t, slot, devices[0]), devices[1..]);
      }
      ScannedConsistent(t, devices[1..]);
    }
  }

  /** A greeted pad's reports may all go, and change nothing said of any pad. */
  lemma {:induction false} ForwardedLawful(log: seq<Event>, p: Raw, reports: seq<nat>)
    requires p.RawPad? && Lawful(log) && (reports != [] ==> Greeted(log, p.id))
    ensures Lawful(Forwarded(log, p, reports))
    ensures forall id :: LastAccepted(Forwarded(log, p, reports), id) == LastAccepted(log, id)
    ensures forall id :: Greeted(Forwarded(log, p, reports), id) == Greeted(log, id)
    decreases |reports|
  {
    hide Lawful, LastAccepted, Greeted;
    if reports != [] {
      var e := Input(p.id, Sendable(p, reports[0]));
      Appended(log, e);
      ForwardedLawful(log + [e], p, reports[1..]);
    }
  }

  lemma PumpSlotConsistent(t: Table, i: nat, established: bool, q: Queue)
    requires Consistent(t) && i < RAW_PADS
    ensures Consistent(PumpSlot(t, i, established, q))
  {
    hide Lawful, LastAccepted, Greeted, Forwarded;
    var p := t.raw[i];
    if p.RawPad? {
      Appended(t.log, Features(p.id));
      var greeted := if established && p.featuresDue then t.log + [Features(p.id)] else t.log;
      if established { ForwardedLawful(greeted, p, q.reports); }
      var read := if established then Forwarded(greeted, p, q.reports) else greeted;
      Appended(read, Unplugged(p.id));
    }
  }

  lemma {:induction false} PumpConsistent(t: Table, i: nat, established: bool, queues: seq<Queue>)
    requires Consistent(t) && i <= RAW_PADS && |queues| == RAW_PADS
    ensures Consistent(PumpFrom(t, i, established, queues))
    decreases RAW_PADS - i
  {
    hide Consistent, PumpSlot;
    SizedWhenConsistent(t);
    if i < RAW_PADS {
      PumpSlotConsistent(t, i, established, queues[i]);
      SizedWhenConsistent(PumpSlot(t, i, established, queues[i]));
      PumpConsistent(PumpSlot(t, i, established, queues[i]), i + 1, established, queues);
    }
  }

  // A pass, and runs of passes.

  datatype Change = Appeared(which: nat, alone: bool, opens: bool) | Gone(which: nat) | Moved(which: nat)

  /** What one pass finds: SDL's events, the device list if it changed, what is queued, and what the pads hold. */
  datatype Pass = Pass(
    established: bool, changes: seq<Change>, devices: Option<seq<Device>>, queues: seq<Queue>,
    active: bool, readings: seq<Reading>)
  {
    predicate Sized() { |queues| == RAW_PADS && |readings| == PADS }
  }

  function Noted(t: Table, c: Change): Table {
    match c
    case Appeared(which, alone, opens) => Added(t, which, alone, opens)
    case Gone(which) => Removed(t, which)
    case Moved(which) => Changed(t, which)
  }

  function AllNoted(t: Table, changes: seq<Change>): Table
    decreases |changes|
  {
    if changes == [] then t else AllNoted(Noted(t, changes[0]), changes[1..])
  }

  lemma {:induction false} NotedConsistent(t: Table, changes: seq<Change>)
    requires Consistent(t)
    ensures Consistent(AllNoted(t, changes))
    decreases |changes|
  {
    if changes != [] {
      hide Added, Removed, Lawful, LastAccepted, Greeted;
      match changes[0] {
        case Appeared(which, alone, opens) => AddedConsistent(t, which, alone, opens);
        case Gone(which) => RemovedConsistent(t, which);
        case Moved(which) =>
      }
      NotedConsistent(Noted(t, changes[0]), changes[1..]);
    }
  }

  /** The raw pads' part of a pass. */
  function RawPass(t: Table, p: Pass): (n: Table)
    requires t.Sized() && p.Sized()
    ensures n.Sized()
  {
    PumpFrom(if p.established && p.devices.Some? then Scanned(t, p.devices.value) else t, 0, p.established, p.queues)
  }

  lemma RawPassConsistent(t: Table, p: Pass)
    requires Consistent(t) && p.Sized()
    ensures Consistent(RawPass(t, p))
  {
    hide Scanned, PumpFrom, Lawful, LastAccepted, Greeted;
    if p.devices.Some? { ScannedConsistent(t, p.devices.value); }
    var scanned := if p.established && p.devices.Some? then Scanned(t, p.devices.value) else t;
    PumpConsistent(scanned, 0, p.established, p.queues);
  }

  ghost function Polled(t: Table, p: Pass): (n: Table)
    requires Consistent(t) && p.Sized()
    ensures Consistent(n)
  {
    NotedConsistent(t, p.changes);
    var noted := AllNoted(t, p.changes);
    SessionConsistent(noted);
    var session := if p.established && !t.wasEstablished then SessionBegins(noted) else noted;
    RawPassConsistent(session, p);
    var read := RawPass(session, p).(wasEstablished := p.established);
    FlushConsistent(read, 0, p.readings);
    if p.active then FlushFrom(read, 0, p.readings) else read
  }

  function Empty(): Table { Table(seq(PADS, _ => NoPad), seq(RAW_PADS, _ => NoRaw), false, []) }

  ghost function After(passes: seq<Pass>): (t: Table)
    requires forall k :: 0 <= k < |passes| ==> passes[k].Sized()
    ensures Consistent(t)
  {
    if passes == [] then Empty() else Polled(After(passes[..|passes| - 1]), passes[|passes| - 1])
  }

  /**
    * In every run: no gamepad has the same state accepted twice running in a session it stays plugged in for, and
    * each raw pad's feature reports are tried in every session before its first input report.
    */
  lemma EveryRunIsLawful(passes: seq<Pass>, k: nat)
    requires forall j :: 0 <= j < |passes| ==> passes[j].Sized()
    requires k < |After(passes).log|
    ensures var e, before := After(passes).log[k], After(passes).log[..k];
            && (e.State? && e.status.Sent? ==> LastAccepted(before, e.id) != Some(e.state))
            && (e.Input? ==> Greeted(before, e.id))
  {
    LawfulAt(After(passes).log, k);
  }

  lemma {:induction false} LawfulAt(log: seq<Event>, k: nat)
    requires Lawful(log) && k < |log|
    ensures Allowed(log[..k], log[k])
    decreases |log|
  {
    if k < |log| - 1 {
      LawfulAt(log[..|log| - 1], k);
      assert log[..|log| - 1][..k] == log[..k];
    }
  }

  /** The names in use across both tables differ from one another and fit eight bits. */
  lemma NamesAreDistinct(t: Table)
    requires Consistent(t)
    ensures forall i :: 0 <= i < PADS && t.pads[i].Pad? ==> t.pads[i].id < 256
    ensures forall i :: 0 <= i < RAW_PADS && t.raw[i].RawPad? ==> t.raw[i].id < 256
    ensures forall i, j :: 0 <= i < j < PADS && t.pads[i].Pad? && t.pads[j].Pad? ==> t.pads[i].id != t.pads[j].id
    ensures forall i, j :: 0 <= i < j < RAW_PADS && t.raw[i].RawPad? && t.raw[j].RawPad? ==> t.raw[i].id != t.raw[j].id
    ensures forall i, j :: 0 <= i < PADS && 0 <= j < RAW_PADS && t.pads[i].Pad? && t.raw[j].RawPad? ==>
              t.pads[i].id != t.raw[j].id
  {
    hide Lawful, LastAccepted, Greeted;
  }

  /** A pad stops being pending only by holding the state sent last, or by a send the session answered. */
  lemma PendingIsKept(t: Table, i: nat, r: Reading)
    requires i < |t.pads| && t.pads[i].Pad? && t.pads[i].pending
    ensures var n := FlushSlot(t, i, r);
            && n.pads[i].Pad?
            && (!n.pads[i].pending <==> t.pads[i].last == Some(r.state) || !r.status.NotStarted?)
            && (n.pads[i].last != t.pads[i].last ==> r.status.Sent? && n.pads[i].last == Some(r.state))
  {
  }

  // What a pass is sure to do.

  /** A gamepad not yet known, that opens, takes the first free slot, is named by its number and is pending. */
  lemma AddedIsPending(t: Table, which: nat, i: nat)
    requires i < |t.pads| && t.pads[i].NoPad? && forall j :: 0 <= j < i ==> !t.pads[j].NoPad?
    requires forall j :: 0 <= j < |t.pads| ==> !(t.pads[j].Pad? && t.pads[j].which == which)
    ensures Added(t, which, false, true)
         == t.(pads := t.pads[i := Pad(which, i, true, None)], log := t.log + [Plugged(i)])
  {
    assert FreePad(t.pads, 0) == i;
  }

  /** One known already, to be left alone or that does not open, and any while every slot is taken, changes nothing. */
  lemma NotAdded(t: Table, which: nat, alone: bool, opens: bool)
    requires || alone || !opens || (exists j :: 0 <= j < |t.pads| && t.pads[j].Pad? && t.pads[j].which == which)
             || forall j :: 0 <= j < |t.pads| ==> !t.pads[j].NoPad?
    ensures Added(t, which, alone, opens) == t
  {
  }

  /** A change makes its pad, and no other, pending; a pad that goes leaves its slot and is said to be gone. */
  lemma FoundByName(t: Table, which: nat, i: nat)
    requires i < |t.pads| && t.pads[i].Pad? && t.pads[i].which == which
    requires forall j :: 0 <= j < |t.pads| && j != i ==> !(t.pads[j].Pad? && t.pads[j].which == which)
    ensures Changed(t, which) == t.(pads := t.pads[i := t.pads[i].(pending := true)])
    ensures Removed(t, which) == t.(pads := t.pads[i := NoPad], log := t.log + [Unplugged(t.pads[i].id)])
  {
    assert ByWhich(t.pads, which, 0) == i;
  }

  /** What a raw pad's report is sent as: a wireless one is its first 78 bytes. */
  function Inputs(id: nat, wireless: bool, reports: seq<nat>): seq<Event> {
    seq(|reports|, k requires 0 <= k < |reports| =>
      Input(id, if wireless && reports[k] > 78 then 78 else reports[k]))
  }

  /** Every report queued goes, in order. */
  lemma {:induction false} ForwardedInOrder(log: seq<Event>, p: Raw, reports: seq<nat>)
    requires p.RawPad?
    ensures Forwarded(log, p, reports) == log + Inputs(p.id, p.wireless, reports)
    decreases |reports|
  {
    if reports != [] {
      var e := Input(p.id, Sendable(p, reports[0]));
      ForwardedInOrder(log + [e], p, reports[1..]);
      assert [e] + Inputs(p.id, p.wireless, reports[1..]) == Inputs(p.id, p.wireless, reports);
      assert log + [e] + Inputs(p.id, p.wireless, reports[1..]) == log + ([e] + Inputs(p.id, p.wireless, reports[1..]));
    } else {
      assert Inputs(p.id, p.wireless, reports) == [];
    }
  }

  /**
    * What a raw pad's pass logs. In a session: its features if they are owed, all it has queued, and its going;
    * out of one, only its going.
    */
  function RawEvents(p: Raw, established: bool, q: Queue): seq<Event>
    requires p.RawPad?
  {
    (if established && p.featuresDue then [Features(p.id)] else [])
    + (if established then Inputs(p.id, p.wireless, q.reports) else [])
    + (if q.gone then [Unplugged(p.id)] else [])
  }

  lemma PumpedInOrder(t: Table, i: nat, established: bool, q: Queue)
    requires i < |t.raw| && t.raw[i].RawPad?
    ensures var p, n := t.raw[i], PumpSlot(t, i, established, q);
            && n.log == t.log + RawEvents(p, established, q)
            && n.raw == t.raw[i := if q.gone then NoRaw else if established then p.(featuresDue := false) else p]
  {
    hide Forwarded, Inputs;
    var p := t.raw[i];
    var first := if established && p.featuresDue then [Features(p.id)] else [];
    var second := if established then Inputs(p.id, p.wireless, q.reports) else [];
    var third := if q.gone then [Unplugged(p.id)] else [];
    ForwardedInOrder(t.log + first, p, q.reports);
    assert first == [] ==> t.log + first == t.log;
    assert second == [] ==> t.log + first + second == t.log + first;
    assert third == [] ==> t.log + first + second + third == t.log + first + second;
    assert PumpSlot(t, i, established, q).log == t.log + first + second + third;
    assert t.log + first + second + third == t.log + (first + second + third);
  }

  predicate StillOpen(before: seq<Raw>, after: seq<Raw>) {
    |after| == |before| && forall i :: 0 <= i < |before| && before[i].RawPad? ==> after[i] == before[i]
  }

  predicate HasRoom(raw: seq<Raw>) { exists i :: 0 <= i < |raw| && raw[i].NoRaw? }

  predicate AllOpen(raw: seq<Raw>, devices: seq<Device>) {
    forall k :: 0 <= k < |devices| && devices[k].ours && devices[k].opens ==> OpenAlready(raw, devices[k].path)
  }

  lemma OpenStays(before: seq<Raw>, after: seq<Raw>, path: nat)
    requires StillOpen(before, after) && OpenAlready(before, path)
    ensures OpenAlready(after, path)
  {
    var i :| 0 <= i < |before| && before[i].RawPad? && before[i].path == path;
    assert after[i] == before[i];
  }

  lemma OneMoreOpen(raw: seq<Raw>, devices: seq<Device>)
    requires devices != [] && AllOpen(raw, devices[1..])
    requires devices[0].ours && devices[0].opens ==> OpenAlready(raw, devices[0].path)
    ensures AllOpen(raw, devices)
  {
    hide OpenAlready;
    forall k | 0 < k < |devices| && devices[k].ours && devices[k].opens ensures OpenAlready(raw, devices[k].path) {
      assert devices[1..][k - 1] == devices[k];
    }
  }

  /** After a scan every device of ours that opens is open, unless every slot is taken; and what was open still is. */
  lemma {:induction false} ScannedFindsAll(t: Table, devices: seq<Device>)
    ensures var n := Scanned(t, devices);
            StillOpen(t.raw, n.raw) && (HasRoom(n.raw) ==> AllOpen(n.raw, devices))
    decreases |devices|
  {
    if devices != [] {
      var d, slot := devices[0], FreeRaw(t.raw, 0);
      var n := Scanned(t, devices);
      var m := t;
      if d.ours && !OpenAlready(t.raw, d.path) {
        if slot == |t.raw| { return; }
        if d.opens {
          m := Opened(t, slot, d);
          assert m.raw[slot].path == d.path;
          assert OpenAlready(m.raw, d.path) && StillOpen(t.raw, m.raw);
        }
      }
      assert n == Scanned(m, devices[1..]);
      hide OpenAlready, HasRoom, AllOpen, Scanned;
      ScannedFindsAll(m, devices[1..]);
      if OpenAlready(m.raw, d.path) { OpenStays(m.raw, n.raw, d.path); }
      if HasRoom(n.raw) { OneMoreOpen(n.raw, devices); }
    }
  }

  // What the host knows after a pass.

  lemma {:induction false} FlushKeepsOthers(t: Table, i: nat, readings: seq<Reading>, j: nat)
    requires Consistent(t) && i <= PADS && |readings| == PADS && j < i
    ensures LastAccepted(FlushFrom(t, i, readings).log, j) == LastAccepted(t.log, j)
    decreases PADS - i
  {
    if i < PADS {
      hide Lawful, LastAccepted, Greeted, FlushFrom;
      var n := FlushSlot(t, i, readings[i]);
      FlushSlotConsistent(t, i, readings[i]);
      FlushKeepsOthers(n, i + 1, readings, j);
      if t.pads[i].Pad? { Appended(t.log, State(t.pads[i].id, readings[i].state, readings[i].status)); }
      FlushOn(t, i, readings);
    }
  }

  lemma FlushOn(t: Table, i: nat, readings: seq<Reading>)
    requires i < |t.pads| == |readings|
    ensures FlushFrom(t, i, readings) == FlushFrom(FlushSlot(t, i, readings[i]), i + 1, readings)
  {
  }

  /**
    * With every send accepted, the host has a gamepad's present state after a flush exactly when the pad was
    * pending, or that state is what it had been sent.
    */
  lemma {:induction false} HostHasStateExactlyWhen(t: Table, i: nat, readings: seq<Reading>, j: nat)
    requires Consistent(t) && i <= j < PADS == |readings| && t.pads[j].Pad?
    requires forall k :: 0 <= k < PADS ==> readings[k].status == Sent
    ensures LastAccepted(FlushFrom(t, i, readings).log, j) == Some(readings[j].state) <==>
              t.pads[j].pending || LastAccepted(t.log, j) == Some(readings[j].state)
    decreases j - i
  {
    hide Lawful, LastAccepted, Greeted, FlushFrom;
    var n := FlushSlot(t, i, readings[i]);
    FlushSlotConsistent(t, i, readings[i]);
    FlushOn(t, i, readings);
    if t.pads[i].Pad? { Appended(t.log, State(t.pads[i].id, readings[i].state, readings[i].status)); }
    if i < j { HostHasStateExactlyWhen(n, i + 1, readings, j); } else { FlushKeepsOthers(n, i + 1, readings, j); }
  }

  /** A session that has just come up finds a gamepad's state sent exactly when the pad was pending. */
  lemma NewHostHasStateExactlyWhen(t: Table, p: Pass, i: nat)
    requires Consistent(t) && p.Sized() && p.established && !t.wasEstablished && p.active && i < PADS
    requires forall k :: 0 <= k < PADS ==> p.readings[k].status == Sent
    requires |AllNoted(t, p.changes).pads| == PADS && AllNoted(t, p.changes).pads[i].Pad?
    ensures LastAccepted(Polled(t, p).log, i) == Some(p.readings[i].state) <==> AllNoted(t, p.changes).pads[i].pending
  {
    hide AllNoted, Scanned, PumpFrom, FlushFrom, Lawful, LastAccepted, Greeted;
    NotedConsistent(t, p.changes);
    var session := SessionBegins(AllNoted(t, p.changes));
    SessionConsistent(AllNoted(t, p.changes));
    RawPassConsistent(session, p);
    var read := RawPass(session, p).(wasEstablished := p.established);
    assert read.pads == session.pads;
    HostHasStateExactlyWhen(read, 0, p.readings, i);
  }

  lemma {:induction false} FlushedPads(t: Table, i: nat, readings: seq<Reading>, j: nat)
    requires i <= |t.pads| == |readings| && j < |t.pads|
    ensures FlushFrom(t, i, readings).pads[j]
         == if j < i then t.pads[j] else FlushSlot(t, j, readings[j]).pads[j]
    decreases |t.pads| - i
  {
    if i < |t.pads| {
      FlushOn(t, i, readings);
      hide FlushFrom;
      assert j != i ==> FlushSlot(t, i, readings[i]).pads[j] == t.pads[j];
      FlushedPads(FlushSlot(t, i, readings[i]), i + 1, readings, j);
    }
  }

  /** A pass over no raw pads, the window in front and every send accepted. */
  function PlainPass(established: bool, changes: seq<Change>, state: PadState): (p: Pass)
    ensures p.Sized()
  {
    Pass(established, changes, None, seq(RAW_PADS, _ => Queue([], false)), true, seq(PADS, _ => Reading(state, Sent)))
  }

  lemma PlainPassOver(t: Table, established: bool, changes: seq<Change>, state: PadState, i: nat)
    requires Consistent(t) && i < PADS
    requires |AllNoted(t, changes).pads| == PADS && AllNoted(t, changes).pads[i].Pad?
    ensures var n := Polled(t, PlainPass(established, changes, state));
            && n.wasEstablished == established && n.pads[i].Pad? && !n.pads[i].pending
            && n.pads[i].which == AllNoted(t, changes).pads[i].which
  {
    var p := PlainPass(established, changes, state);
    hide AllNoted, Scanned, PumpFrom, FlushFrom, Lawful, LastAccepted, Greeted;
    NotedConsistent(t, changes);
    SessionConsistent(AllNoted(t, changes));
    var m := AllNoted(t, changes);
    var session := if established && !t.wasEstablished then SessionBegins(m) else m;
    RawPassConsistent(session, p);
    var read := RawPass(session, p).(wasEstablished := established);
    FlushedPads(read, 0, p.readings, i);
    FlushKeepsEstablished(read, 0, p.readings);
  }

  /** A gamepad sent to one session's host and not touched since is not sent to the next one's. */
  lemma UntouchedPadIsNotSentAgain(which: nat, state: PadState)
    ensures var passes := [PlainPass(true, [Appeared(which, false, true)], state), PlainPass(false, [], state),
                           PlainPass(true, [], state)];
            var t := After(passes);
            && t.wasEstablished && t.pads[0].Pad? && t.pads[0].which == which
            && LastAccepted(After(passes[..1]).log, 0) == Some(state) && LastAccepted(t.log, 0) != Some(state)
  {
    var first, second := PlainPass(true, [Appeared(which, false, true)], state), PlainPass(false, [], state);
    var third := PlainPass(true, [], state);
    var passes := [first, second, third];
    assert passes[..1] == [first] && passes[..2] == [first, second] && passes[..3][..2] == passes[..2];
    assert passes[..2][..1] == [first] && passes[..1][..0] == [];
    var a, b, c := After([]), After([first]), After([first, second]);
    assert b == Polled(a, first) && c == Polled(b, second) && After(passes) == Polled(c, third);
    assert first.changes[1..] == [] && AllNoted(a, first.changes) == Added(a, which, false, true);
    hide After, Polled, Lawful, LastAccepted, Greeted, AllNoted, Added;
    AddedIsPending(a, which, 0);
    NewHostHasStateExactlyWhen(a, first, 0);
    PlainPassOver(a, true, first.changes, state, 0);
    NoneNoted(b);
    PlainPassOver(b, false, [], state, 0);
    NoneNoted(c);
    PlainPassOver(c, true, [], state, 0);
    NewHostHasStateExactlyWhen(c, third, 0);
  }

  lemma NoneNoted(t: Table)
    ensures AllNoted(t, []) == t
  {
  }

  // In what order a pass does things.

  predicate ComeOrGo(more: seq<Event>) { forall e :: e in more ==> e.Plugged? || e.Unplugged? }

  predicate Come(more: seq<Event>) { forall e :: e in more ==> e.Plugged? }

  predicate OfRaw(more: seq<Event>, established: bool) {
    forall e :: e in more ==> e.Unplugged? || (established && (e.Features? || e.Input?))
  }

  predicate States(more: seq<Event>) { forall e :: e in more ==> e.State? }

  lemma {:induction false} NotedAdds(t: Table, changes: seq<Change>) returns (more: seq<Event>)
    ensures AllNoted(t, changes).log == t.log + more && ComeOrGo(more)
    ensures AllNoted(t, changes).wasEstablished == t.wasEstablished
    decreases |changes|
  {
    more := [];
    if changes != [] {
      var m := Noted(t, changes[0]);
      var first := m.log[|t.log|..];
      assert m.log == t.log + first;
      more := NotedAdds(m, changes[1..]);
      assert t.log + first + more == t.log + (first + more);
      more := first + more;
    }
  }

  lemma {:induction false} ScannedAdds(t: Table, devices: seq<Device>) returns (more: seq<Event>)
    ensures Scanned(t, devices).log == t.log + more && Come(more)
    decreases |devices|
  {
    more := [];
    if devices != [] {
      var d, slot := devices[0], FreeRaw(t.raw, 0);
      if d.ours && !OpenAlready(t.raw, d.path) && slot < |t.raw| && d.opens {
        more := ScannedAdds(Opened(t, slot, d), devices[1..]);
        var first := [Plugged(RAW_ID_BASE + slot)];
        assert t.log + first + more == t.log + (first + more);
        more := first + more;
      } else if !d.ours || OpenAlready(t.raw, d.path) || slot < |t.raw| {
        more := ScannedAdds(t, devices[1..]);
      }
    }
  }

  lemma {:induction false} PumpAdds(t: Table, i: nat, established: bool, queues: seq<Queue>)
    returns (more: seq<Event>)
    requires i <= |t.raw| == |queues|
    ensures PumpFrom(t, i, established, queues).log == t.log + more
    ensures OfRaw(more, established)
    decreases |t.raw| - i
  {
    more := [];
    if i < |t.raw| {
      var m := PumpSlot(t, i, established, queues[i]);
      var first := [];
      if t.raw[i].RawPad? {
        PumpedInOrder(t, i, established, queues[i]);
        first := RawEvents(t.raw[i], established, queues[i]);
      }
      hide PumpSlot;
      assert m.log == t.log + first;
      more := PumpAdds(m, i + 1, established, queues);
      assert t.log + first + more == t.log + (first + more);
      more := first + more;
    }
  }

  lemma {:induction false} FlushAdds(t: Table, i: nat, readings: seq<Reading>) returns (more: seq<Event>)
    requires i <= |t.pads| == |readings|
    ensures FlushFrom(t, i, readings).log == t.log + more && States(more)
    decreases |t.pads| - i
  {
    more := [];
    if i < |t.pads| {
      var m := FlushSlot(t, i, readings[i]);
      var first := m.log[|t.log|..];
      assert m.log == t.log + first;
      more := FlushAdds(m, i + 1, readings);
      assert t.log + first + more == t.log + (first + more);
      more := first + more;
    }
  }

  /**
    * A pass notes the pads that came and went, then a session if one has just come up, then what the raw pads do,
    * which out of a session is only to go, and last the states, which go only from a window in front.
    */
  lemma PassInOrder(t: Table, p: Pass)
    returns (noted: seq<Event>, found: seq<Event>, read: seq<Event>, sent: seq<Event>)
    requires Consistent(t) && p.Sized()
    ensures Polled(t, p).log == t.log + noted + (if p.established && !t.wasEstablished then [SessionSeen] else [])
                                + found + read + sent
    ensures Polled(t, p).wasEstablished == p.established
    ensures ComeOrGo(noted)
    ensures Come(found) && (!p.established || p.devices.None? ==> found == [])
    ensures OfRaw(read, p.established)
    ensures States(sent) && (!p.active ==> sent == [])
  {
    hide AllNoted, Scanned, PumpFrom, FlushFrom, Lawful, LastAccepted, Greeted, ComeOrGo, OfRaw;
    NotedConsistent(t, p.changes);
    noted := NotedAdds(t, p.changes);
    var m := AllNoted(t, p.changes);
    var session := if p.established && !t.wasEstablished then SessionBegins(m) else m;
    SessionConsistent(m);
    found := [];
    var scanned := session;
    if p.established && p.devices.Some? {
      found := ScannedAdds(session, p.devices.value);
      scanned := Scanned(session, p.devices.value);
      ScannedConsistent(session, p.devices.value);
    }
    read := PumpAdds(scanned, 0, p.established, p.queues);
    PumpConsistent(scanned, 0, p.established, p.queues);
    PumpKeepsEstablished(scanned, 0, p.established, p.queues);
    var after := RawPass(session, p).(wasEstablished := p.established);
    sent := [];
    if p.active {
      sent := FlushAdds(after, 0, p.readings);
      FlushKeepsEstablished(after, 0, p.readings);
    }
  }

  lemma {:induction false} PumpKeepsEstablished(t: Table, i: nat, established: bool, queues: seq<Queue>)
    requires i <= |t.raw| == |queues|
    ensures PumpFrom(t, i, established, queues).wasEstablished == t.wasEstablished
    decreases |t.raw| - i
  {
    if i < |t.raw| { PumpKeepsEstablished(PumpSlot(t, i, established, queues[i]), i + 1, established, queues); }
  }

  lemma {:induction false} FlushKeepsEstablished(t: Table, i: nat, readings: seq<Reading>)
    requires i <= |t.pads| == |readings|
    ensures FlushFrom(t, i, readings).wasEstablished == t.wasEstablished
    decreases |t.pads| - i
  {
    if i < |t.pads| { FlushKeepsEstablished(FlushSlot(t, i, readings[i]), i + 1, readings); }
  }

  // The module's own state, and the passes over it.

  class Sender {
    var pads: seq<Slot>
    var raw: seq<Raw>
    var wasEstablished: bool
    var log: seq<Event>

    ghost function Now(): Table
      reads this
    {
      Table(pads, raw, wasEstablished, log)
    }

    constructor ()
      ensures Now() == After([])
    {
      pads, raw, wasEstablished, log := seq(PADS, _ => NoPad), seq(RAW_PADS, _ => NoRaw), false, [];
    }

    method FindWhich(which: nat) returns (at: nat)
      ensures at == ByWhich(pads, which, 0)
    {
      at := 0;
      while at < |pads| && !(pads[at].Pad? && pads[at].which == which)
        invariant at <= |pads| && ByWhich(pads, which, at) == ByWhich(pads, which, 0)
      {
        at := at + 1;
      }
    }

    method Add(which: nat, alone: bool, opens: bool)
      modifies this`pads, this`log
      ensures Now() == Added(old(Now()), which, alone, opens)
    {
      var at := FindWhich(which);
      if at < |pads| || alone { return; }
      var slot := 0;
      while slot < |pads| && !pads[slot].NoPad?
        invariant slot <= |pads| && FreePad(pads, slot) == FreePad(pads, 0)
      {
        slot := slot + 1;
      }
      if slot == |pads| || !opens { return; }
      pads, log := pads[slot := Pad(which, slot, true, None)], log + [Plugged(slot)];
    }

    method Remove(which: nat)
      modifies this`pads, this`log
      ensures Now() == Removed(old(Now()), which)
    {
      var at := FindWhich(which);
      if at == |pads| { return; }
      log := log + [Unplugged(pads[at].id)];
      pads := pads[at := NoPad];
    }

    method Change(which: nat)
      modifies this`pads, this`log
      ensures Now() == Changed(old(Now()), which)
    {
      var at := FindWhich(which);
      if at < |pads| { pads := pads[at := pads[at].(pending := true)]; }
    }

    /** Send what is pending, slot by slot. */
    method Flush(readings: seq<Reading>)
      requires |readings| == |pads|
      modifies this`pads, this`log
      ensures Now() == FlushFrom(old(Now()), 0, readings)
    {
      var i := 0;
      while i < |pads|
        invariant i <= |pads| == |readings| && FlushFrom(Now(), i, readings) == FlushFrom(old(Now()), 0, readings)
      {
        ghost var before := Now();
        FlushOne(i, readings[i]);
        assert Now() == FlushSlot(before, i, readings[i]);
        i := i + 1;
      }
    }

    method FlushOne(i: nat, r: Reading)
      requires i < |pads|
      modifies this`pads, this`log
      ensures Now() == FlushSlot(old(Now()), i, r)
    {
      var p := pads[i];
      if p.NoPad? || !p.pending { return; }
      if p.last == Some(r.state) {
        pads := pads[i := p.(pending := false)];
        return;
      }
      log := log + [State(p.id, r.state, r.status)];
      if r.status.NotStarted? { return; }
      p := p.(pending := false);
      if r.status.Sent? { p := p.(last := Some(r.state)); }
      pads := pads[i := p];
    }

    /** Look for raw pads that appeared. */
    method Scan(devices: seq<Device>)
      modifies this`raw, this`log
      ensures Now() == Scanned(old(Now()), devices)
    {
      var k := 0;
      while k < |devices|
        invariant k <= |devices| && Scanned(Now(), devices[k..]) == Scanned(old(Now()), devices)
      {
        var d := devices[k];
        assert devices[k..][1..] == devices[k + 1..];
        if d.ours && !OpenAlready(raw, d.path) {
          var slot := 0;
          while slot < |raw| && !raw[slot].NoRaw?
            invariant slot <= |raw| && FreeRaw(raw, slot) == FreeRaw(raw, 0)
          {
            slot := slot + 1;
          }
          if slot == |raw| { return; }
          if d.opens {
            raw := raw[slot := RawPad(d.path, RAW_ID_BASE + slot, d.wireless, true)];
            log := log + [Plugged(RAW_ID_BASE + slot)];
          }
        }
        k := k + 1;
      }
    }

    /** Every report the raw pads have queued. */
    method Pump(established: bool, queues: seq<Queue>)
      requires |queues| == |raw|
      modifies this`raw, this`log
      ensures Now() == PumpFrom(old(Now()), 0, established, queues)
    {
      var i := 0;
      while i < |raw|
        invariant i <= |raw| == |queues|
        invariant PumpFrom(Now(), i, established, queues) == PumpFrom(old(Now()), 0, established, queues)
      {
        ghost var before := Now();
        PumpOne(i, established, queues[i]);
        assert Now() == PumpSlot(before, i, established, queues[i]);
        i := i + 1;
      }
    }

    method PumpOne(i: nat, established: bool, q: Queue)
      requires i < |raw|
      modifies this`raw, this`log
      ensures Now() == PumpSlot(old(Now()), i, established, q)
    {
      var p := raw[i];
      if p.NoRaw? { return; }
      if established && p.featuresDue {
        raw, log := raw[i := p.(featuresDue := false)], log + [Features(p.id)];
      }
      ghost var greeted := log;
      var k := 0;
      while k < |q.reports|
        invariant k <= |q.reports|
        invariant raw == if established && p.featuresDue then old(raw)[i := p.(featuresDue := false)] else old(raw)
        invariant if established then Forwarded(log, p, q.reports[k..]) == Forwarded(greeted, p, q.reports)
                  else log == greeted
      {
        assert q.reports[k..][1..] == q.reports[k + 1..];
        if established { log := log + [Input(p.id, Sendable(p, q.reports[k]))]; }
        k := k + 1;
      }
      if q.gone { raw, log := raw[i := NoRaw], log + [Unplugged(p.id)]; }
    }

    /** One pass. */
    method Poll(p: Pass)
      requires Consistent(Now()) && p.Sized()
      modifies this
      ensures Consistent(Now()) && Now() == Polled(old(Now()), p)
    {
      hide Added, Removed, Changed, Scanned, PumpFrom, FlushFrom, Lawful, LastAccepted, Greeted;
      var k := 0;
      while k < |p.changes|
        invariant k <= |p.changes| && AllNoted(Now(), p.changes[k..]) == AllNoted(old(Now()), p.changes)
        invariant Consistent(Now()) && wasEstablished == old(wasEstablished)
      {
        ghost var before := Now();
        assert p.changes[k..][1..] == p.changes[k + 1..];
        NotedConsistent(before, [p.changes[k]]);
        match p.changes[k] {
          case Appeared(which, alone, opens) => Add(which, alone, opens);
          case Gone(which) => Remove(which);
          case Moved(which) => Change(which);
        }
        assert Now() == Noted(before, p.changes[k]);
        k := k + 1;
      }
      ghost var noted := AllNoted(old(Now()), p.changes);
      assert Now() == noted;
      if p.established && !wasEstablished {
        SessionConsistent(noted);
        BeginSession();
      }
      ghost var session := Now();
      if p.devices.Some? { ScannedConsistent(session, p.devices.value); }
      if p.established && p.devices.Some? { Scan(p.devices.value); }
      PumpConsistent(Now(), 0, p.established, p.queues);
      Pump(p.established, p.queues);
      assert Now() == RawPass(session, p);
      wasEstablished := p.established;
      FlushConsistent(Now(), 0, p.readings);
      if p.active { Flush(p.readings); }
    }

    /** Start a session: forget what was sent to the last one. */
    method BeginSession()
      modifies this`pads, this`raw, this`log
      ensures Now() == SessionBegins(old(Now()))
    {
      log := log + [SessionSeen];
      for i := 0 to |pads|
        invariant |pads| == |old(pads)| && raw == old(raw) && log == old(log) + [SessionSeen]
        invariant forall j :: 0 <= j < |pads| ==> pads[j] == if j < i then Forgotten(old(pads)[j]) else old(pads)[j]
      {
        pads := pads[i := Forgotten(pads[i])];
      }
      assert pads == SessionBegins(old(Now())).pads;
      for i := 0 to |raw|
        invariant |raw| == |old(raw)| && pads == SessionBegins(old(Now())).pads && log == old(log) + [SessionSeen]
        invariant forall j :: 0 <= j < |raw| ==> raw[j] == if j < i then FeaturesOwed(old(raw)[j]) else old(raw)[j]
      {
        raw := raw[i := FeaturesOwed(raw[i])];
      }
      assert raw == SessionBegins(old(Now())).raw;
    }
  }
}
