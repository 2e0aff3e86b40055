/** A channel's receive ring: fragments in any order, whole messages out, in the order they were sent. */
module ReceiveRing {
  import opened Common

  // Serial numbers.

  const HALF: nat := 0x8000_0000

  type Serial = s: int | 0 <= s < 0x1_0000_0000

  /** The serial number of the n-th fragment of a channel. */
  function SerialOf(n: nat): Serial { n % WORD }

  /** Distance forward from one serial number to another. */
  function Distance(a: Serial, b: Serial): (d: nat)
    ensures d < WORD
  {
    (b - a) % WORD
  }

  /** Whether a is after b, by the sign of their 32-bit difference. */
  predicate After(a: Serial, b: Serial) { 0 < Distance(b, a) < HALF }

  function Next(a: Serial): Serial { (a + 1) % WORD }

  /** Within half the space, serial numbers compare and subtract as the fragments they number do. */
  lemma SerialsCompare(m: nat, n: nat)
    requires m < n + HALF && n < m + HALF
    ensures After(SerialOf(m), SerialOf(n)) <==> m > n
    ensures m >= n ==> Distance(SerialOf(n), SerialOf(m)) == m - n
    ensures SerialOf(m) == SerialOf(n) <==> m == n
  {
    var d := m - n;
    assert (m % WORD - n % WORD) % WORD == d % WORD by { Reduced(m, n); }
  }

  lemma Reduced(m: nat, n: nat)
    ensures (m % WORD - n % WORD) % WORD == (m - n) % WORD
  {
    var a, b := m / WORD, n / WORD;
    assert m - n == (a - b) * WORD + (m % WORD - n % WORD);
    WholeTurns(a - b, m % WORD - n % WORD);
  }

  lemma WholeTurns(k: int, x: int)
    ensures (k * WORD + x) % WORD == x % WORD
  {
    assert k * WORD + x == (k + x / WORD) * WORD + x % WORD;
  }

  lemma NextIs(n: nat)
    ensures Next(SerialOf(n)) == SerialOf(n + 1)
  {
  }

  // The ring.

  datatype Slot = Free | Full(body: seq<Byte>)

  /**
    * Where the reader is, the next fragment not yet contiguously received, and one past the highest seen, as
    * serial numbers; and the slots, a fragment's being its serial number modulo their number.
    */
  datatype Ring = Ring(slots: seq<Slot>, slotLen: nat, delivered: Serial, cumulative: Serial, highest: Serial) {
    predicate Made() { |slots| > 0 }

    function Index(s: Serial): (i: nat)
      requires Made()
      ensures i < |slots|
    {
      s % |slots|
    }

    function At(s: Serial): Slot
      requires Made()
    {
      slots[Index(s)]
    }
  }

  datatype Stored = Accepted | Duplicate | OutOfWindow | TooLarge

  datatype Error = BadLength | BufferTooSmall

  /** The contiguous frontier walked forward over full slots. */
  function Walked(r: Ring): (n: Ring)
    requires r.Made()
    ensures n == r.(cumulative := n.cumulative)
    decreases Distance(r.cumulative, r.highest)
  {
    if r.cumulative == r.highest || r.At(r.cumulative).Free? then r
    else
      Closer(r.cumulative, r.highest);
      Walked(r.(cumulative := Next(r.cumulative)))
  }

  lemma Closer(a: Serial, b: Serial)
    requires a != b
    ensures Distance(Next(a), b) == Distance(a, b) - 1
  {
  }

  /** The ring after a fragment is offered, and what became of it. */
  function Store(r: Ring, s: Serial, body: seq<Byte>): (n: (Ring, Stored))
    requires r.Made()
    ensures n.0.Made()
  {
    if After(r.delivered, s) then (r, Duplicate)
    else if Distance(r.delivered, s) >= |r.slots| then (r, OutOfWindow)
    else if |body| > r.slotLen || |body| > 0xFFFF then (r, TooLarge)
    else if r.At(s).Full? then (r, Duplicate)
    else
      var kept := r.(slots := r.slots[r.Index(s) := Full(body)]);
      (Walked(kept.(highest := if After(Next(s), r.highest) then Next(s) else r.highest)), Accepted)
  }

  // Messages.

  /** The length before a message's content, the most significant byte first. */
  function Prefix(total: nat): (b: seq<Byte>)
    requires total < WORD
    ensures |b| == 4
  {
    Word(Big, total)
  }

  function PrefixOf(b: seq<Byte>): (n: nat)
    requires |b| >= 4
    ensures n < WORD
  {
    WordOf(Big, b[..4])
  }

  lemma PrefixBack(total: nat, rest: seq<Byte>)
    requires total < WORD
    ensures PrefixOf(Prefix(total) + rest) == total
  {
    hide Word, WordOf;
    WordBack(Big, total);
    assert (Prefix(total) + rest)[..4] == Prefix(total);
  }

  /** How many fragments from a serial number on make up a length, if they have all arrived. */
  function Spanned(r: Ring, cursor: Serial, wanted: int): Option<Result<nat, Error>>
    requires r.Made()
    decreases Distance(cursor, r.cumulative)
  {
    if wanted == 0 then Some(Ok(0))
    else if wanted < 0 then Some(Err(BadLength))
    else if cursor == r.cumulative || r.At(cursor).Free? then None
    else
      assert Distance(Next(cursor), r.cumulative) < Distance(cursor, r.cumulative) by { Closer(cursor, r.cumulative); }
      match Spanned(r, Next(cursor), wanted - |r.At(cursor).body|)
      case Some(Ok(n)) => Some(Ok(n + 1))
      case other => other
  }

  /** A count with the fragments before it. */
  function Plus(o: Option<Result<nat, Error>>, n: nat): Option<Result<nat, Error>> {
    match o
    case Some(Ok(k)) => Some(Ok(k + n))
    case other => other
  }

  lemma SpanStep(r: Ring, cursor: Serial, wanted: int)
    requires r.Made()
    ensures wanted == 0 ==> Spanned(r, cursor, wanted) == Some(Ok(0))
    ensures wanted < 0 ==> Spanned(r, cursor, wanted) == Some(Err(BadLength))
    ensures wanted > 0 && (cursor == r.cumulative || r.At(cursor).Free?) ==> Spanned(r, cursor, wanted) == None
    ensures wanted > 0 && cursor != r.cumulative && r.At(cursor).Full? ==>
              Spanned(r, cursor, wanted) == Plus(Spanned(r, Next(cursor), wanted - |r.At(cursor).body|), 1)
  {
  }

  /** The message that begins at a serial number, if it is all here: its content's length and how many fragments. */
  function Locate(r: Ring, start: Serial): Option<Result<(nat, nat), Error>>
    requires r.Made()
  {
    if start == r.cumulative || r.At(start).Free? then None
    else if |r.At(start).body| < 4 then Some(Err(BadLength))
    else
      var total := PrefixOf(r.At(start).body);
      match Spanned(r, start, total + 4)
      case None => None
      case Some(Err(e)) => Some(Err(e))
      case Some(Ok(n)) => Some(Ok((total, n)))
  }

  /** The bytes of a number of fragments. */
  function Gathered(r: Ring, start: Serial, count: nat): seq<Byte>
    requires r.Made()
    decreases count
  {
    if count == 0 then []
    else (if r.At(start).Full? then r.At(start).body else []) + Gathered(r, Next(start), count - 1)
  }

  /** The ring with so many fragments freed at the reader's end of the window. */
  function Released(r: Ring, count: nat): (n: Ring)
    requires r.Made()
    ensures n.Made() && |n.slots| == |r.slots| && n.slotLen == r.slotLen
    decreases count
  {
    if count == 0 then r
    else Released(r.(slots := r.slots[r.Index(r.delivered) := Free], delivered := Next(r.delivered)), count - 1)
  }

  /** The ring after a read with so much room, and the content read, or why there is none. */
  function Take(r: Ring, room: nat): (n: (Ring, Option<Result<seq<Byte>, Error>>))
    requires r.Made()
    ensures n.0.Made()
  {
    match Locate(r, r.delivered)
    case None => (r, None)
    case Some(Err(e)) => (r, Some(Err(e)))
    case Some(Ok((total, count))) =>
      if room < total then (r, Some(Err(BufferTooSmall)))
      else
        var bytes := Gathered(r, r.delivered, count);
        if |bytes| < total + 4 then (r, Some(Err(BadLength)))
        else (Released(r, count), Some(Ok(bytes[4..total + 4])))
  }

  /** Not after, as the sign of a 32-bit difference has it. */
  predicate AtOrBefore(a: Serial, b: Serial) { Distance(a, b) < HALF }

  /** The last full slot seen up to the highest fragment, and the last whose body the consumer can resume from. */
  function Scanned(r: Ring, resumable: seq<Byte> -> bool, cursor: Serial, any: Option<Serial>, good: Option<Serial>)
    : (Option<Serial>, Option<Serial>)
    requires r.Made()
    decreases Distance(cursor, r.highest)
  {
    if cursor == r.highest then (any, good)
    else
      assert Distance(Next(cursor), r.highest) < Distance(cursor, r.highest) by { Closer(cursor, r.highest); }
      if r.At(cursor).Free? then Scanned(r, resumable, Next(cursor), any, good)
      else
        var resumes := resumable(r.At(cursor).body);
        Scanned(r, resumable, Next(cursor), Some(cursor), if resumes then Some(cursor) else good)
  }

  /** Give up a gap: move the reader to the furthest slot it can resume from, else to the furthest full one. */
  function Escape(r: Ring, resumable: seq<Byte> -> bool): (n: (Ring, Option<Serial>))
    requires r.Made()
    ensures n.0.Made()
  {
    if r.cumulative == r.highest then (r, None)
    else
      var (any, good) := Scanned(r, resumable, r.delivered, None, None);
      match if good.Some? then good else any
      case None => (r, None)
      case Some(target) =>
        if AtOrBefore(target, r.delivered) then (r, None)
        else
          var open := Released(r, Distance(r.delivered, target));
          var frontier := if After(target, r.cumulative) then target else r.cumulative;
          (Walked(open.(delivered := target, cumulative := frontier)), Some(target))
  }

  // What the ring holds, in terms of the fragments sent.

  /** A ring's depth divides the serial numbers, or no serial number has wrapped. */
  predicate Aligned(depth: nat, sent: nat)
    requires depth > 0
  {
    WORD % depth == 0 || sent <= WORD
  }

  lemma IndexOf(depth: nat, sent: nat, n: nat)
    requires depth > 0 && Aligned(depth, sent) && n < sent
    ensures SerialOf(n) % depth == n % depth
  {
    if sent > WORD {
      var q, k := n / WORD, WORD / depth;
      assert WORD == depth * k;
      assert n == q * WORD + n % WORD;
      assert n == depth * (k * q) + n % WORD;
      Multiple(depth, k * q, n % WORD);
    }
  }

  /** A quotient and a remainder are determined by what they make up. */
  lemma OneRemainder(d: nat, q: nat, r: nat, t: nat, s: nat)
    requires r < d && s < d && d * q + r == d * t + s
    ensures q == t && r == s
  {
    Apart(d, q, t);
    Apart(d, t, q);
  }

  lemma Apart(d: nat, q: nat, t: nat)
    ensures q < t ==> d * q + d <= d * t
  {
    if q < t {
      ProductGrows(q + 1, t, d);
      assert d * (q + 1) == d * q + d;
    }
  }

  lemma Multiple(d: nat, k: nat, m: nat)
    requires d > 0
    ensures (d * k + m) % d == m % d
  {
    Divided(m, d);
    Divided(d * k + m, d);
    SameRest(d, k, m / d, m % d, (d * k + m) / d, (d * k + m) % d);
  }

  lemma Divided(n: nat, d: nat)
    requires d > 0
    ensures n == d * (n / d) + n % d && 0 <= n % d < d && n / d >= 0
  {
  }

  lemma SameRest(d: nat, k: nat, q: nat, r: nat, t: nat, s: nat)
    requires r < d && s < d && d * k + (d * q + r) == d * t + s
    ensures s == r
  {
    Distributes(d, k, q);
    OneRemainder(d, k + q, r, t, s);
  }

  lemma Distributes(a: nat, b: nat, c: nat)
    ensures a * (b + c) == a * b + a * c
  {
  }

  /** The slot of the n-th fragment. */
  function SlotOf(r: Ring, n: nat): Slot
    requires r.Made()
  {
    r.slots[n % |r.slots|]
  }

  /** How many fragments have been delivered, received without a gap, and seen. */
  datatype Marks = Marks(d: nat, c: nat, h: nat)

  predicate Ordered(m: Marks, depth: nat, sent: nat) { m.d <= m.c <= m.h <= m.d + depth && m.h <= sent }

  predicate Numbered(r: Ring, m: Marks) {
    r.delivered == SerialOf(m.d) && r.cumulative == SerialOf(m.c) && r.highest == SerialOf(m.h)
  }

  /** The window's full slots hold the fragments sent, none past the highest seen and all below the frontier. */
  ghost predicate Faithful(r: Ring, frags: seq<seq<Byte>>, m: Marks)
    requires r.Made()
  {
    && (forall n :: m.d <= n < |frags| && n < m.d + |r.slots| && SlotOf(r, n).Full? ==>
          n < m.h && SlotOf(r, n).body == frags[n])
    && (forall n :: m.d <= n < m.c ==> SlotOf(r, n).Full?)
  }

  ghost predicate Holds(r: Ring, frags: seq<seq<Byte>>, m: Marks) {
    && r.Made() && |r.slots| < HALF && Aligned(|r.slots|, |frags|)
    && Ordered(m, |r.slots|, |frags|) && Numbered(r, m) && Faithful(r, frags, m)
  }

  /** The frontier has gone as far as it can. */
  predicate AtFrontier(r: Ring, m: Marks)
    requires r.Made()
  {
    m.c == m.h || SlotOf(r, m.c).Free?
  }

  lemma SlotAt(r: Ring, sent: nat, n: nat)
    requires r.Made() && Aligned(|r.slots|, sent) && n < sent
    ensures r.At(SerialOf(n)) == SlotOf(r, n) && r.Index(SerialOf(n)) == n % |r.slots|
  {
    IndexOf(|r.slots|, sent, n);
  }

  /** In a window no longer than the ring two fragments have two slots. */
  lemma OneSlotEach(depth: nat, m: nat, n: nat)
    requires depth > 0 && m < n + depth && n < m + depth && m % depth == n % depth
    ensures m == n
  {
    assert m == depth * (m / depth) + m % depth && n == depth * (n / depth) + n % depth;
    SameRemainder(depth, m / depth, n / depth, m % depth, m, n);
  }

  lemma SameRemainder(d: nat, q: nat, t: nat, r: nat, m: nat, n: nat)
    requires m == d * q + r && n == d * t + r && m < n + d && n < m + d
    ensures m == n
  {
    Apart(d, q, t);
    Apart(d, t, q);
  }

  lemma {:induction false} WalkHolds(r: Ring, frags: seq<seq<Byte>>, m: Marks) returns (c: nat)
    requires Holds(r, frags, m)
    ensures m.c <= c && Holds(Walked(r), frags, m.(c := c)) && AtFrontier(Walked(r), m.(c := c))
    decreases m.h - m.c
  {
    hide After, Distance, SerialOf, Next, Aligned;
    SerialsCompare(m.c, m.h);
    c := m.c;
    if m.c < m.h {
      SlotAt(r, |frags|, m.c);
      NextIs(m.c);
      if SlotOf(r, m.c).Full? {
        var next := r.(cumulative := Next(r.cumulative));
        assert forall n: nat :: SlotOf(next, n) == SlotOf(r, n);
        c := WalkHolds(next, frags, m.(c := m.c + 1));
      }
    }
  }

  /** What a ring says of the n-th fragment when it is offered. */
  function Verdict(r: Ring, frags: seq<seq<Byte>>, m: Marks, n: nat): Stored
    requires r.Made() && n < |frags|
  {
    if n < m.d then Duplicate
    else if n >= m.d + |r.slots| then OutOfWindow
    else if |frags[n]| > r.slotLen || |frags[n]| > 0xFFFF then TooLarge
    else if SlotOf(r, n).Full? then Duplicate
    else Accepted
  }

  /**
    * Offering a fragment that was sent, whenever it arrives: a new one in the window is kept, anything else is
    * refused for its reason, and the ring still holds fragments as they were sent.
    */
  lemma StoreHolds(r: Ring, frags: seq<seq<Byte>>, m: Marks, n: nat) returns (m': Marks)
    requires Holds(r, frags, m) && AtFrontier(r, m)
    requires n < |frags| && n < m.d + HALF && m.d < n + HALF
    ensures var (r', s) := Store(r, SerialOf(n), frags[n]);
            && s == Verdict(r, frags, m, n) && |r'.slots| == |r.slots|
            && Holds(r', frags, m') && AtFrontier(r', m') && m'.d == m.d && m'.c >= m.c
            && (!s.Accepted? ==> r' == r)
            && (s.Accepted? ==> SlotOf(r', n) == Full(frags[n]))
            && (forall k :: m.d <= k < m.d + |r.slots| && k != n ==> SlotOf(r', k) == SlotOf(r, k))
  {
    hide After, Distance, SerialOf, Next, Aligned, Faithful, Walked;
    SerialsCompare(n, m.d);
    SerialsCompare(m.d, n);
    SlotAt(r, |frags|, n);
    m' := m;
    if Verdict(r, frags, m, n).Accepted? {
      NextIs(n);
      SerialsCompare(n + 1, m.h);
      var h := if n + 1 > m.h then n + 1 else m.h;
      var kept := r.(slots := r.slots[n % |r.slots| := Full(frags[n])], highest := SerialOf(h));
      KeptHolds(r, frags, m, n, h, kept);
      var c := WalkHolds(kept, frags, m.(h := h));
      m' := m.(h := h, c := c);
      assert forall k: nat :: SlotOf(Walked(kept), k) == SlotOf(kept, k);
    }
  }

  lemma KeptHolds(r: Ring, frags: seq<seq<Byte>>, m: Marks, n: nat, h: nat, kept: Ring)
    requires Holds(r, frags, m) && m.d <= n < |frags| && n < m.d + |r.slots| && SlotOf(r, n).Free?
    requires h == if n + 1 > m.h then n + 1 else m.h
    requires kept == r.(slots := r.slots[n % |r.slots| := Full(frags[n])], highest := SerialOf(h))
    ensures Holds(kept, frags, m.(h := h))
    ensures forall k :: m.d <= k < m.d + |r.slots| ==>
              SlotOf(kept, k) == if k == n then Full(frags[n]) else SlotOf(r, k)
  {
    hide SerialOf, Aligned;
    forall k | m.d <= k < m.d + |r.slots|
      ensures SlotOf(kept, k) == if k == n then Full(frags[n]) else SlotOf(r, k)
    {
      if k % |r.slots| == n % |r.slots| { OneSlotEach(|r.slots|, k, n); }
    }
    assert Faithful(r, frags, m);
  }

  // The messages a channel carries.

  /** A message and the fragments it was sliced into. */
  datatype Message = Message(content: seq<Byte>, parts: seq<seq<Byte>>)

  /** Any slicing of the length and content into non-empty fragments, the first of them holding the length. */
  ghost predicate Sliced(m: Message) {
    && |m.content| < WORD && m.parts != [] && |m.parts[0]| >= 4
    && (forall k :: 0 <= k < |m.parts| ==> m.parts[k] != [])
    && Concat(m.parts) == Prefix(|m.content|) + m.content
  }

  /** How many fragments a stream occupies. */
  function FragmentCount(length: nat, capacity: nat): nat {
    if capacity == 0 then 0
    else if length % capacity == 0 then length / capacity
    else length / capacity + 1
  }

  /** A stream sliced as the sender does: the given number of bytes at a time, the last fragment what is left. */
  function Slices(stream: seq<Byte>, capacity: nat): seq<seq<Byte>>
    requires capacity > 0
  {
    if stream == [] then []
    else if |stream| <= capacity then [stream]
    else [stream[..capacity]] + Slices(stream[capacity..], capacity)
  }

  lemma {:induction false} SliceCount(stream: seq<Byte>, capacity: nat)
    requires capacity > 0
    ensures |Slices(stream, capacity)| == FragmentCount(|stream|, capacity)
    decreases |stream|
  {
    if |stream| > capacity {
      hide FragmentCount;
      SliceCount(stream[capacity..], capacity);
      OneSliceMore(|stream| - capacity, capacity);
    } else if |stream| == capacity {
      Multiple(capacity, 1, 0);
    }
  }

  /** The offset a fragment is sliced from. */
  function SliceFrom(i: nat, capacity: nat): nat { i * capacity }

  lemma NextSlice(i: nat, capacity: nat)
    ensures i > 0 ==> SliceFrom(i, capacity) == SliceFrom(i - 1, capacity) + capacity
    ensures i == 0 ==> SliceFrom(i, capacity) == 0
  {
  }

  /** A fragment by number is so many bytes from its own offset, or what is left. */
  lemma {:induction false} SliceAt(stream: seq<Byte>, capacity: nat, i: nat)
    requires capacity > 0 && i < |Slices(stream, capacity)|
    ensures var from, to := SliceFrom(i, capacity), SliceFrom(i, capacity) + capacity;
            && from < |stream|
            && Slices(stream, capacity)[i] == if to <= |stream| then stream[from..to] else stream[from..]
    decreases |stream|
  {
    hide SliceFrom;
    NextSlice(i, capacity);
    if |stream| > capacity && i > 0 {
      var rest, from := stream[capacity..], SliceFrom(i - 1, capacity);
      SliceAt(rest, capacity, i - 1);
      var to := if from + capacity <= |rest| then from + capacity else |rest|;
      SliceOfRest(stream, capacity, from, to);
    }
  }

  lemma SliceOfRest(stream: seq<Byte>, skip: nat, from: nat, to: nat)
    requires skip <= |stream| && from <= to <= |stream| - skip
    ensures stream[skip..][from..to] == stream[skip + from..skip + to]
  {
    var a, b := stream[skip..][from..to], stream[skip + from..skip + to];
    assert |a| == |b| && forall k :: 0 <= k < |a| ==> a[k] == b[k];
  }

  lemma OneSliceMore(rest: nat, capacity: nat)
    requires capacity > 0
    ensures FragmentCount(rest + capacity, capacity) == FragmentCount(rest, capacity) + 1
  {
    Wrapped(capacity, rest);
    var whole := rest + capacity;
    assert whole == capacity * (whole / capacity) + whole % capacity;
    assert whole == capacity * (rest / capacity + 1) + rest % capacity;
    OneRemainder(capacity, whole / capacity, whole % capacity, rest / capacity + 1, rest % capacity);
  }

  lemma {:induction false} SlicesJoin(stream: seq<Byte>, capacity: nat)
    requires capacity > 0
    ensures Concat(Slices(stream, capacity)) == stream
    ensures forall k :: 0 <= k < |Slices(stream, capacity)| ==> Slices(stream, capacity)[k] != []
    decreases |stream|
  {
    if |stream| > capacity {
      var first, rest := stream[..capacity], Slices(stream[capacity..], capacity);
      assert Slices(stream, capacity) == [first] + rest;
      hide Slices;
      SlicesJoin(stream[capacity..], capacity);
      assert ([first] + rest)[1..] == rest;
      assert Concat([first] + rest) == first + stream[capacity..] == stream;
    } else if stream != [] {
      assert Slices(stream, capacity) == [stream];
      hide Slices;
      assert [stream][1..] == [];
      assert Concat([stream]) == stream;
    }
  }

  /** What a sender slices is such a slicing exactly when its fragments have room for the length. */
  lemma SentIsSlicedExactlyWhen(content: seq<Byte>, capacity: nat)
    requires |content| < WORD && capacity > 0
    ensures Sliced(Message(content, Slices(Prefix(|content|) + content, capacity))) <==> capacity >= 4
  {
    SlicesJoin(Prefix(|content|) + content, capacity);
  }

  ghost predicate AllSliced(sent: seq<Message>) { forall k :: 0 <= k < |sent| ==> Sliced(sent[k]) }

  /** Every fragment of a channel, in the order they are numbered. */
  function Fragments(sent: seq<Message>): seq<seq<Byte>> {
    if sent == [] then [] else sent[0].parts + Fragments(sent[1..])
  }

  /** The number of the fragment the k-th message begins at. */
  function Begins(sent: seq<Message>, k: nat): nat
    requires k <= |sent|
  {
    |Fragments(sent[..k])|
  }

  lemma {:induction false} FragmentsSplit(a: seq<Message>, b: seq<Message>)
    ensures Fragments(a + b) == Fragments(a) + Fragments(b)
    decreases |a|
  {
    if a == [] {
      assert a + b == b;
    } else {
      assert (a + b)[1..] == a[1..] + b;
      FragmentsSplit(a[1..], b);
    }
  }

  /** The fragments from where the k-th message begins are its parts, then the next message's. */
  lemma PartsAt(sent: seq<Message>, k: nat)
    requires k < |sent|
    ensures var d, parts := Begins(sent, k), sent[k].parts;
            && d + |parts| <= |Fragments(sent)| && Fragments(sent)[d..d + |parts|] == parts
            && Begins(sent, k + 1) == d + |parts|
  {
    hide Fragments;
    var parts := sent[k].parts;
    assert sent == sent[..k] + ([sent[k]] + sent[k + 1..]);
    FragmentsSplit(sent[..k], [sent[k]] + sent[k + 1..]);
    FragmentsSplit([sent[k]], sent[k + 1..]);
    OneMessage(sent[k]);
    assert sent[..k + 1] == sent[..k] + [sent[k]];
    FragmentsSplit(sent[..k], [sent[k]]);
  }

  lemma OneMessage(m: Message)
    ensures Fragments([m]) == m.parts
  {
    assert [m][1..] == [];
  }

  lemma {:induction false} NonEmptyConcat(parts: seq<seq<Byte>>)
    requires parts != [] && parts[0] != []
    ensures |Concat(parts)| > 0
  {
  }

  /** Counting fragment lengths finds where a message ends exactly when all its fragments have arrived. */
  lemma {:induction false} SpannedParts(r: Ring, frags: seq<seq<Byte>>, m: Marks, parts: seq<seq<Byte>>, at: nat)
    requires Holds(r, frags, m)
    requires m.d <= at <= m.c && at + |parts| <= |frags| && frags[at..at + |parts|] == parts
    requires forall k :: 0 <= k < |parts| ==> parts[k] != []
    ensures Spanned(r, SerialOf(at), |Concat(parts)|) == if at + |parts| <= m.c then Some(Ok(|parts|)) else None
    decreases |parts|
  {
    hide After, Distance, SerialOf, Next, Aligned, Spanned;
    SpanStep(r, SerialOf(at), |Concat(parts)|);
    if parts != [] {
      NonEmptyConcat(parts);
      SerialsCompare(at, m.c);
      if at < m.c {
        SlotAt(r, |frags|, at);
        NextIs(at);
        assert SlotOf(r, at).Full?;
        assert SlotOf(r, at).body == frags[at] == parts[0];
        assert frags[at + 1..at + 1 + |parts[1..]|] == parts[1..];
        assert |Concat(parts)| == |parts[0]| + |Concat(parts[1..])|;
        hide Concat, Holds, Faithful;
        SpannedParts(r, frags, m, parts[1..], at + 1);
      }
    }
  }

  lemma {:induction false} GatheredParts(r: Ring, frags: seq<seq<Byte>>, m: Marks, parts: seq<seq<Byte>>, at: nat)
    requires Holds(r, frags, m)
    requires m.d <= at && at + |parts| <= m.c && frags[at..at + |parts|] == parts
    ensures Gathered(r, SerialOf(at), |parts|) == Concat(parts)
    decreases |parts|
  {
    hide After, Distance, SerialOf, Next, Aligned;
    if parts != [] {
      SlotAt(r, |frags|, at);
      NextIs(at);
      assert SlotOf(r, at).Full?;
      assert SlotOf(r, at).body == frags[at] == parts[0];
      assert frags[at + 1..at + 1 + |parts[1..]|] == parts[1..];
      GatheredParts(r, frags, m, parts[1..], at + 1);
    }
  }

  lemma {:induction false} ReleasedHolds(r: Ring, frags: seq<seq<Byte>>, m: Marks, count: nat)
    requires Holds(r, frags, m) && AtFrontier(r, m) && m.d + count <= m.c
    ensures Holds(Released(r, count), frags, m.(d := m.d + count))
    ensures AtFrontier(Released(r, count), m.(d := m.d + count))
    decreases count
  {
    hide After, Distance, SerialOf, Next, Aligned;
    if count > 0 {
      SlotAt(r, |frags|, m.d);
      NextIs(m.d);
      var depth := |r.slots|;
      var next := r.(slots := r.slots[m.d % depth := Free], delivered := Next(r.delivered));
      forall n: nat | m.d < n < m.d + depth ensures SlotOf(next, n) == SlotOf(r, n) {
        if n % depth == m.d % depth { OneSlotEach(depth, n, m.d); }
      }
      Wrapped(depth, m.d);
      assert SlotOf(next, m.d + depth).Free?;
      ReleasedHolds(next, frags, m.(d := m.d + 1), count - 1);
    }
  }

  lemma Wrapped(depth: nat, n: nat)
    requires depth > 0
    ensures (n + depth) % depth == n % depth
  {
    Multiple(depth, 1, n);
  }

  /** What taking gives a reader at the k-th message: it, whole and alone, once all of it has arrived. */
  lemma TakeHolds(r: Ring, sent: seq<Message>, m: Marks, k: nat, room: nat)
    requires AllSliced(sent) && Holds(r, Fragments(sent), m) && AtFrontier(r, m)
    requires k <= |sent| && m.d == Begins(sent, k)
    ensures |Take(r, room).0.slots| == |r.slots|
    ensures var (r', taken) := Take(r, room);
            if k == |sent| || Begins(sent, k + 1) > m.c then taken.None? && r' == r
            else if room < |sent[k].content| then taken == Some(Err(BufferTooSmall)) && r' == r
            else
              var m' := m.(d := Begins(sent, k + 1));
              taken == Some(Ok(sent[k].content)) && Holds(r', Fragments(sent), m') && AtFrontier(r', m')
  {
    hide After, Distance, SerialOf, Next, Aligned, Locate, Gathered, Released, Faithful, Fragments, Spanned, Concat,
         Prefix;
    var frags := Fragments(sent);
    if k == |sent| {
      assert sent[..k] == sent;
      NothingToLocate(r, frags, m);
    } else {
      var message := sent[k];
      var parts := message.parts;
      PartsAt(sent, k);
      assert Sliced(message);
      SpannedParts(r, frags, m, parts, m.d);
      LocateParts(r, frags, m, message);
      if m.d + |parts| <= m.c && |message.content| <= room {
        GatheredParts(r, frags, m, parts, m.d);
        ReleasedHolds(r, frags, m, |parts|);
        assert (Prefix(|message.content|) + message.content)[4..|message.content| + 4] == message.content;
      }
    }
  }

  lemma NothingToLocate(r: Ring, frags: seq<seq<Byte>>, m: Marks)
    requires Holds(r, frags, m) && m.d == |frags|
    ensures Locate(r, r.delivered).None?
  {
  }

  lemma LocateParts(r: Ring, frags: seq<seq<Byte>>, m: Marks, message: Message)
    requires Holds(r, frags, m) && Sliced(message)
    requires var parts := message.parts;
             && m.d + |parts| <= |frags| && frags[m.d..m.d + |parts|] == parts
             && Spanned(r, SerialOf(m.d), |Concat(parts)|) == if m.d + |parts| <= m.c then Some(Ok(|parts|)) else None
    ensures Locate(r, r.delivered)
         == if m.d + |message.parts| <= m.c then Some(Ok((|message.content|, |message.parts|))) else None
  {
    hide After, Distance, SerialOf, Next, Aligned, Spanned, PrefixOf;
    var parts := message.parts;
    SerialsCompare(m.d, m.c);
    if m.d < m.c {
      SlotAt(r, |frags|, m.d);
      assert SlotOf(r, m.d).Full?;
      assert SlotOf(r, m.d).body == frags[m.d] == parts[0];
      FirstPart(message);
    }
  }

  lemma FirstPart(message: Message)
    requires Sliced(message)
    ensures PrefixOf(message.parts[0]) == |message.content| && |Concat(message.parts)| == |message.content| + 4
  {
    var first, whole := message.parts[0], Prefix(|message.content|) + message.content;
    assert whole == first + Concat(message.parts[1..]);
    assert first[..4] == whole[..4] == Prefix(|message.content|);
    PrefixBack(|message.content|, first[4..]);
    assert first == Prefix(|message.content|) + first[4..];
  }

  // Giving up a gap.

  /** The n-th fragment is held, and the consumer can resume from it if that is asked. */
  predicate Held(r: Ring, resumable: seq<Byte> -> bool, must: bool, n: nat)
    requires r.Made()
  {
    SlotOf(r, n).Full? && (must ==> resumable(SlotOf(r, n).body))
  }

  /** The last fragment held in a range, if there is one. */
  ghost predicate LastHeld(r: Ring, resumable: seq<Byte> -> bool, must: bool, from: nat, upto: nat, last: Option<nat>)
    requires r.Made()
  {
    match last
    case None => forall n :: from <= n < upto ==> !Held(r, resumable, must, n)
    case Some(t) =>
      && from <= t < upto && Held(r, resumable, must, t)
      && forall n :: t < n < upto ==> !Held(r, resumable, must, n)
  }

  /** Where a reader giving up a gap lands: the last fragment it can resume from, else the last one held. */
  ghost predicate Landing(r: Ring, resumable: seq<Byte> -> bool, m: Marks, t: nat)
    requires r.Made()
  {
    || LastHeld(r, resumable, true, m.d, m.h, Some(t))
    || (LastHeld(r, resumable, true, m.d, m.h, None) && LastHeld(r, resumable, false, m.d, m.h, Some(t)))
  }

  function Numbers(o: Option<nat>): Option<Serial> { match o case None => None case Some(n) => Some(SerialOf(n)) }

  lemma {:induction false} ScannedIsLast(r: Ring, frags: seq<seq<Byte>>, m: Marks, resumable: seq<Byte> -> bool,
                                         at: nat, any: Option<nat>, good: Option<nat>)
    returns (any': Option<nat>, good': Option<nat>)
    requires Holds(r, frags, m) && m.d <= at <= m.h
    requires LastHeld(r, resumable, false, m.d, at, any) && LastHeld(r, resumable, true, m.d, at, good)
    ensures LastHeld(r, resumable, false, m.d, m.h, any') && LastHeld(r, resumable, true, m.d, m.h, good')
    ensures Scanned(r, resumable, SerialOf(at), Numbers(any), Numbers(good)) == (Numbers(any'), Numbers(good'))
    decreases m.h - at
  {
    hide After, Distance, SerialOf, Next, Aligned, Faithful;
    SerialsCompare(at, m.h);
    any', good' := any, good;
    if at < m.h {
      SlotAt(r, |frags|, at);
      NextIs(at);
      var any1 := if Held(r, resumable, false, at) then Some(at) else any;
      var good1 := if Held(r, resumable, true, at) then Some(at) else good;
      any', good' := ScannedIsLast(r, frags, m, resumable, at + 1, any1, good1);
    }
  }

  /**
    * Giving up a gap moves the reader, forwards only, to the landing, opens the window by all it passed, and
    * leaves a ring that still holds fragments as they were sent. With no gap, or nothing held past the reader,
    * nothing changes.
    */
  lemma EscapeHolds(r: Ring, frags: seq<seq<Byte>>, m: Marks, resumable: seq<Byte> -> bool) returns (m': Marks)
    requires Holds(r, frags, m) && AtFrontier(r, m)
    ensures var (r', to) := Escape(r, resumable);
            && |r'.slots| == |r.slots| && Holds(r', frags, m') && AtFrontier(r', m') && m'.h == m.h && m'.c >= m.c
            && (to.None? ==> r' == r && m' == m && (m.c == m.h || forall t :: Landing(r, resumable, m, t) ==> t == m.d))
            && (to.Some? ==> m.c < m.h && m.d < m'.d && Landing(r, resumable, m, m'.d) && to == Some(SerialOf(m'.d)))
  {
    hide After, Distance, SerialOf, Next, Aligned, Scanned, Released, Faithful, Walked, AtOrBefore;
    m' := m;
    SerialsCompare(m.c, m.h);
    if m.c < m.h {
      var any, good := ScannedIsLast(r, frags, m, resumable, m.d, None, None);
      var landing := if good.Some? then good else any;
      if landing.Some? {
        var t := landing.value;
        Forwards(t, m.d);
        if t > m.d {
          SerialsCompare(t, m.d);
          m' := JumpHolds(r, frags, m, t);
        }
      }
    }
  }

  lemma Forwards(t: nat, d: nat)
    requires d <= t < d + HALF
    ensures AtOrBefore(SerialOf(t), SerialOf(d)) <==> t == d
  {
    hide SerialOf;
    SerialsCompare(t, d);
    SerialsCompare(d, t);
    BackAndForth(SerialOf(d), SerialOf(t));
  }

  lemma {:induction false} JumpHolds(r: Ring, frags: seq<seq<Byte>>, m: Marks, t: nat) returns (m': Marks)
    requires Holds(r, frags, m) && AtFrontier(r, m) && m.d < t < m.h && m.c < m.h && SlotOf(r, t).Full?
    ensures var open := Released(r, t - m.d);
            var frontier := if After(SerialOf(t), r.cumulative) then SerialOf(t) else r.cumulative;
            var r' := Walked(open.(delivered := SerialOf(t), cumulative := frontier));
            && |r'.slots| == |r.slots| && Holds(r', frags, m') && AtFrontier(r', m')
            && m'.h == m.h && m'.d == t && m'.c >= m.c
  {
    hide After, Distance, SerialOf, Next, Aligned, Released, Walked;
    SerialsCompare(t, m.c);
    var open := Released(r, t - m.d);
    ReleasedSlots(r, frags, m, t - m.d);
    var c := if t > m.c then t else m.c;
    var moved := open.(delivered := SerialOf(t), cumulative := SerialOf(c));
    var m1 := Marks(t, c, m.h);
    assert forall n: nat :: SlotOf(moved, n) == SlotOf(open, n);
    assert Faithful(r, frags, m);
    c := WalkHolds(moved, frags, m1);
    m' := m1.(c := c);
  }

  /** Releasing frees the slots passed, which are the window's new ones, and no other. */
  lemma {:induction false} ReleasedSlots(r: Ring, frags: seq<seq<Byte>>, m: Marks, count: nat)
    requires Holds(r, frags, m) && m.d + count <= m.h
    ensures var n := Released(r, count);
            && n == r.(slots := n.slots, delivered := SerialOf(m.d + count)) && |n.slots| == |r.slots|
            && (forall k :: m.d + count <= k < m.d + |r.slots| ==> SlotOf(n, k) == SlotOf(r, k))
            && (forall k :: m.d + |r.slots| <= k < m.d + count + |r.slots| ==> SlotOf(n, k).Free?)
    decreases count
  {
    hide After, Distance, SerialOf, Next, Aligned, Faithful;
    if count > 0 {
      ReleasedSlots(r, frags, m, count - 1);
      ReleasedLast(r, count);
      var was, at := Released(r, count - 1), m.d + count - 1;
      var n, depth := Released(r, count), |r.slots|;
      SlotAt(was, |frags|, at);
      NextIs(at);
      forall k | m.d + count <= k < m.d + count + depth
        ensures SlotOf(n, k) == if k == at + depth then Free else SlotOf(was, k)
      {
        Wrapped(depth, at);
        if k % depth == at % depth { OneSlotEach(depth, k, at + depth); }
      }
    }
  }

  lemma {:induction false} ReleasedLast(r: Ring, count: nat)
    requires r.Made() && count > 0
    ensures var was := Released(r, count - 1);
            Released(r, count)
            == was.(slots := was.slots[was.Index(was.delivered) := Free], delivered := Next(was.delivered))
    decreases count
  {
    if count > 1 {
      ReleasedLast(r.(slots := r.slots[r.Index(r.delivered) := Free], delivered := Next(r.delivered)), count - 1);
    }
  }

  // Whole runs of a channel.

  /**
    * A fragment arrives, however often and in whatever order; the reader asks, with room for so much; or it gives
    * up a gap, able to resume from some bodies.
    */
  datatype Op = Arrive(n: nat) | Read(room: nat) | GiveUp(resumable: seq<Byte> -> bool)

  /** The ring, the contents handed to the reader, and how many fragments the reader has moved past. */
  datatype Trace = Trace(ring: Ring, out: seq<seq<Byte>>, passed: nat)

  function Fresh(depth: nat, slotLen: nat): (r: Ring)
    requires depth > 0
    ensures r.Made()
  {
    Ring(seq(depth, _ => Free), slotLen, 0, 0, 0)
  }

  /** An empty ring whose channel starts at the n-th fragment. */
  function Anchored(depth: nat, slotLen: nat, n: nat): (r: Ring)
    requires depth > 0
    ensures r.Made()
  {
    Fresh(depth, slotLen).(delivered := SerialOf(n), cumulative := SerialOf(n), highest := SerialOf(n))
  }

  function Answered(r: Ring, op: Op): (n: (Ring, seq<seq<Byte>>))
    requires r.Made() && op.Read?
    ensures n.0.Made()
  {
    var (r', taken) := Take(r, op.room);
    (r', match taken case Some(Ok(content)) => [content] case _ => [])
  }

  function Stepped(frags: seq<seq<Byte>>, s: Trace, op: Op): (n: Trace)
    requires s.ring.Made()
    ensures n.ring.Made()
  {
    var (r', out) :=
      match op
      case Arrive(n) => (if n < |frags| then Store(s.ring, SerialOf(n), frags[n]).0 else s.ring, [])
      case Read(_) => Answered(s.ring, op)
      case GiveUp(resumable) => (Escape(s.ring, resumable).0, []);
    Trace(r', s.out + out, s.passed + Distance(s.ring.delivered, r'.delivered))
  }

  /** A run of a channel whose ring starts at a fragment. */
  function Run(frags: seq<seq<Byte>>, depth: nat, slotLen: nat, from: nat, ops: seq<Op>): (s: Trace)
    requires depth > 0
    ensures s.ring.Made()
    decreases |ops|
  {
    if ops == [] then Trace(Anchored(depth, slotLen, from), [], from)
    else Stepped(frags, Run(frags, depth, slotLen, from, ops[..|ops| - 1]), ops[|ops| - 1])
  }

  ghost predicate StartsMessage(sent: seq<Message>, n: nat) { exists k :: 0 <= k < |sent| && Begins(sent, k) == n }

  /** Where the reader is after giving up a gap, as a fragment's number. */
  function Landed(s: Trace, resumable: seq<Byte> -> bool): nat
    requires s.ring.Made()
  {
    s.passed + Distance(s.ring.delivered, Escape(s.ring, resumable).0.delivered)
  }

  /**
    * A step the channel promises something of: a fragment arrives less than half the serial numbers from the
    * reader; a reader that gives up a gap and moves lands where a message begins.
    */
  ghost predicate Sound(sent: seq<Message>, s: Trace, op: Op)
    requires s.ring.Made()
  {
    match op
    case Arrive(n) => n < s.passed + HALF && s.passed < n + HALF
    case Read(_) => true
    case GiveUp(resumable) => Escape(s.ring, resumable).1.Some? ==> StartsMessage(sent, Landed(s, resumable))
  }

  ghost predicate SoundRun(sent: seq<Message>, depth: nat, slotLen: nat, from: nat, ops: seq<Op>)
    requires depth > 0
  {
    forall i :: 0 <= i < |ops| ==> Sound(sent, Run(Fragments(sent), depth, slotLen, from, ops[..i]), ops[i])
  }

  predicate NoneGivenUp(ops: seq<Op>) { forall i :: 0 <= i < |ops| ==> !ops[i].GiveUp? }

  /** What was handed out are these of the messages from the first on, in order; the reader is at the next's start. */
  ghost predicate Reading(sent: seq<Message>, s: Trace, first: nat, taken: seq<nat>, next: nat, m: Marks, depth: nat) {
    && first <= next <= |sent| && |taken| == |s.out|
    && (forall i :: 0 <= i < |taken| ==> first <= taken[i] < next && s.out[i] == sent[taken[i]].content)
    && (forall i, j :: 0 <= i < j < |taken| ==> taken[i] < taken[j])
    && Holds(s.ring, Fragments(sent), m) && AtFrontier(s.ring, m) && |s.ring.slots| == depth
    && m.d == s.passed == Begins(sent, next)
  }

  /**
    * Wherever the channel starts, whatever order fragments arrive in, however often, and whichever never do, the
    * contents handed out are messages sent, whole, in order and none twice; and while no gap is given up, none is
    * missing.
    */
  lemma {:induction false} MessagesInOrder(sent: seq<Message>, depth: nat, slotLen: nat, first: nat, ops: seq<Op>)
    returns (taken: seq<nat>, next: nat, m: Marks)
    requires AllSliced(sent) && 0 < depth < HALF && Aligned(depth, |Fragments(sent)|) && first <= |sent|
    requires SoundRun(sent, depth, slotLen, Begins(sent, first), ops)
    ensures Reading(sent, Run(Fragments(sent), depth, slotLen, Begins(sent, first), ops), first, taken, next, m, depth)
    ensures NoneGivenUp(ops) ==> next == first + |taken|
    decreases |ops|
  {
    hide Stepped, Sound, Holds, AtFrontier;
    var frags, from := Fragments(sent), Begins(sent, first);
    if ops == [] {
      taken, next, m := [], first, Marks(from, from, from);
      BeginsGrows(sent, first, |sent|);
      assert sent[..|sent|] == sent;
      AnchoredHolds(frags, depth, slotLen, from);
    } else {
      var n := |ops| - 1;
      forall i | 0 <= i < n ensures Sound(sent, Run(frags, depth, slotLen, from, ops[..n][..i]), ops[..n][i]) {
        assert ops[..n][..i] == ops[..i];
      }
      taken, next, m := MessagesInOrder(sent, depth, slotLen, first, ops[..n]);
      taken, next, m := OpHolds(sent, Run(frags, depth, slotLen, from, ops[..n]), first, taken, next, m, depth, ops[n]);
    }
  }

  lemma AnchoredHolds(frags: seq<seq<Byte>>, depth: nat, slotLen: nat, n: nat)
    requires 0 < depth < HALF && Aligned(depth, |frags|) && n <= |frags|
    ensures Holds(Anchored(depth, slotLen, n), frags, Marks(n, n, n))
    ensures AtFrontier(Anchored(depth, slotLen, n), Marks(n, n, n))
  {
    hide SerialOf, Aligned;
  }

  lemma OpHolds(sent: seq<Message>, s: Trace, first: nat, taken: seq<nat>, next: nat, m: Marks, depth: nat, op: Op)
    returns (taken': seq<nat>, next': nat, m': Marks)
    requires AllSliced(sent) && Reading(sent, s, first, taken, next, m, depth) && Sound(sent, s, op)
    ensures Reading(sent, Stepped(Fragments(sent), s, op), first, taken', next', m', depth)
    ensures !op.GiveUp? && next == first + |taken| ==> next' == first + |taken'|
  {
    assert s.ring.Made() && m.c <= m.d + depth by { hide Fragments, AtFrontier; }
    hide Store, Answered, Escape, Holds, AtFrontier, AllSliced, StartsMessage, SlotOf, Distance, SerialOf, Fragments,
         Begins;
    taken', next', m' := taken, next, m;
    match op {
      case Arrive(n) => if n < |Fragments(sent)| { m' := StoreHolds(s.ring, Fragments(sent), m, n); }
      case Read(room) =>
        taken', next', m' := ReadHolds(sent, s.ring, taken, next, m, op);
      case GiveUp(resumable) =>
        next', m' := GiveUpLands(sent, s, next, m, resumable);
    }
    Passed(s.ring, Stepped(Fragments(sent), s, op).ring, Fragments(sent), m, m');
  }

  lemma ReadHolds(sent: seq<Message>, r: Ring, taken: seq<nat>, next: nat, m: Marks, op: Op)
    returns (taken': seq<nat>, next': nat, m': Marks)
    requires op.Read? && AllSliced(sent) && Holds(r, Fragments(sent), m) && AtFrontier(r, m)
    requires next <= |sent| && m.d == Begins(sent, next)
    ensures var (r', out) := Answered(r, op);
            && next' <= |sent| && m'.d == Begins(sent, next') && |r'.slots| == |r.slots| && m.d <= m'.d
            && (m' == m || m'.d <= m.c) && Holds(r', Fragments(sent), m') && AtFrontier(r', m')
            && if next' == next then taken' == taken && out == []
               else next' == next + 1 && taken' == taken + [next] && out == [sent[next].content]
  {
    hide Take, Holds, AtFrontier, AllSliced, Fragments, Begins;
    TakeHolds(r, sent, m, next, op.room);
    taken', next', m' := taken, next, m;
    if next < |sent| && Begins(sent, next + 1) <= m.c && |sent[next].content| <= op.room {
      BeginsGrows(sent, next, next + 1);
      taken', next', m' := taken + [next], next + 1, m.(d := Begins(sent, next + 1));
    }
  }

  lemma Passed(r: Ring, r': Ring, frags: seq<seq<Byte>>, m: Marks, m': Marks)
    requires Holds(r, frags, m) && Holds(r', frags, m') && |r'.slots| == |r.slots| && m.d <= m'.d
    requires m'.d <= m.d + |r.slots|
    ensures Distance(r.delivered, r'.delivered) == m'.d - m.d
  {
    hide Faithful, Aligned;
    SerialsCompare(m'.d, m.d);
  }

  lemma GiveUpLands(sent: seq<Message>, s: Trace, next: nat, m: Marks, resumable: seq<Byte> -> bool)
    returns (next': nat, m': Marks)
    requires Holds(s.ring, Fragments(sent), m) && AtFrontier(s.ring, m)
    requires next <= |sent| && m.d == s.passed == Begins(sent, next) && Sound(sent, s, GiveUp(resumable))
    ensures var r' := Escape(s.ring, resumable).0;
            && |r'.slots| == |s.ring.slots| && Holds(r', Fragments(sent), m') && AtFrontier(r', m')
    ensures next <= next' <= |sent| && m.d <= m'.d <= m.d + |s.ring.slots| && m'.d == Begins(sent, next')
  {
    hide Escape, AtFrontier, SerialOf, Fragments, Begins, Aligned, Distance, Faithful;
    m' := EscapeHolds(s.ring, Fragments(sent), m, resumable);
    next' := next;
    if Escape(s.ring, resumable).1.Some? {
      Passed(s.ring, Escape(s.ring, resumable).0, Fragments(sent), m, m');
      assert StartsMessage(sent, m'.d);
      next' :| 0 <= next' < |sent| && Begins(sent, next') == m'.d;
      BeginsGrows(sent, next', next);
    }
  }

  /** The consumer takes only the first fragment of a message for one it can resume from. */
  ghost predicate KnowsStarts(sent: seq<Message>, resumable: seq<Byte> -> bool) {
    forall n :: 0 <= n < |Fragments(sent)| && resumable(Fragments(sent)[n]) ==> StartsMessage(sent, n)
  }

  /**
    * A consumer that knows where messages begin, giving up a gap and moved, is where one begins exactly when it
    * holds a fragment it can resume from, or the last one held happens to begin a message.
    */
  lemma LandsOnAStartExactlyWhen(sent: seq<Message>, s: Trace, m: Marks, resumable: seq<Byte> -> bool)
    requires Holds(s.ring, Fragments(sent), m) && AtFrontier(s.ring, m) && m.d == s.passed
    requires KnowsStarts(sent, resumable) && Escape(s.ring, resumable).1.Some?
    ensures StartsMessage(sent, Landed(s, resumable))
            <==> || (exists n :: m.d <= n < m.h && Held(s.ring, resumable, true, n))
                 || (exists t :: LastHeld(s.ring, resumable, false, m.d, m.h, Some(t)) && StartsMessage(sent, t))
  {
    hide Escape, AtFrontier, SerialOf, Fragments, Aligned, Distance, StartsMessage;
    var m' := EscapeHolds(s.ring, Fragments(sent), m, resumable);
    Passed(s.ring, Escape(s.ring, resumable).0, Fragments(sent), m, m');
    var t := m'.d;
    if LastHeld(s.ring, resumable, true, m.d, m.h, Some(t)) {
      assert Faithful(s.ring, Fragments(sent), m);
      assert Held(s.ring, resumable, true, t) && resumable(Fragments(sent)[t]);
    }
  }

  lemma BeginsGrows(sent: seq<Message>, j: nat, k: nat)
    requires j <= |sent| && k <= |sent|
    ensures j <= k ==> Begins(sent, j) <= Begins(sent, k)
  {
    if j <= k {
      assert sent[..k] == sent[..j] + sent[j..k];
      FragmentsSplit(sent[..j], sent[j..k]);
    }
  }

  /** In a run that gives up no gap the contents handed out are the first ones sent, every one. */
  lemma NoneMissing(sent: seq<Message>, s: Trace, first: nat, taken: seq<nat>, m: Marks, depth: nat, i: nat)
    requires Reading(sent, s, first, taken, first + |taken|, m, depth) && i < |taken|
    ensures taken[i] == first + i && s.out[i] == sent[first + i].content
  {
    hide Holds, AtFrontier, Fragments, Begins;
    AtLeast(taken, first, i);
    AtMost(taken, first, i);
  }

  lemma {:induction false} AtLeast(taken: seq<nat>, first: nat, i: nat)
    requires i < |taken| && (forall a, b :: 0 <= a < b < |taken| ==> taken[a] < taken[b])
    requires forall a :: 0 <= a < |taken| ==> first <= taken[a]
    ensures first + i <= taken[i]
  {
    if i > 0 { AtLeast(taken, first, i - 1); }
  }

  lemma {:induction false} AtMost(taken: seq<nat>, first: nat, i: nat)
    requires i < |taken| && (forall a, b :: 0 <= a < b < |taken| ==> taken[a] < taken[b])
    requires forall a :: 0 <= a < |taken| ==> taken[a] < first + |taken|
    ensures taken[i] <= first + i
    decreases |taken| - i
  {
    if i + 1 < |taken| { AtMost(taken, first, i + 1); }
  }

  /** The next message is handed out as soon as its last missing fragment has arrived. */
  lemma NextIsReady(sent: seq<Message>, s: Trace, first: nat, taken: seq<nat>, next: nat, m: Marks, depth: nat,
                    room: nat)
    requires AllSliced(sent) && Reading(sent, s, first, taken, next, m, depth) && next < |sent|
    requires |sent[next].content| <= room && |sent[next].parts| <= depth
    requires forall n :: Begins(sent, next) <= n < Begins(sent, next + 1) ==> SlotOf(s.ring, n).Full?
    ensures Take(s.ring, room).1 == Some(Ok(sent[next].content))
  {
    hide Take, Fragments, AllSliced;
    PartsAt(sent, next);
    FrontierPassesFull(s.ring, Fragments(sent), m, Begins(sent, next + 1));
    TakeHolds(s.ring, sent, m, next, room);
  }

  lemma FrontierPassesFull(r: Ring, frags: seq<seq<Byte>>, m: Marks, upto: nat)
    requires Holds(r, frags, m) && AtFrontier(r, m) && upto <= m.d + |r.slots| && upto <= |frags|
    requires forall n :: m.d <= n < upto ==> SlotOf(r, n).Full?
    ensures upto <= m.c
  {
    hide SerialOf, Aligned;
    var next := SlotOf(r, m.c);
  }

  /** A message whose first fragment is too short for its length is refused, and stays. */
  lemma ShortFirstFragmentIsRefused(r: Ring, frags: seq<seq<Byte>>, m: Marks, room: nat)
    requires Holds(r, frags, m) && m.d < m.c && |frags[m.d]| < 4
    ensures Take(r, room) == (r, Some(Err(BadLength)))
  {
    hide SerialOf, Aligned;
    SerialsCompare(m.d, m.c);
    SlotAt(r, |frags|, m.d);
    assert SlotOf(r, m.d).Full? && SlotOf(r, m.d).body == frags[m.d];
  }

  /**
    * A reader landed in the middle of a message reads what was never sent: the second of two fragments is held
    * and nothing can be resumed from; its bytes are taken for a length of one and a content.
    */
  lemma MidMessageIsMisread()
    ensures var message := Message([9, 0, 0, 0, 1, 42], [[0, 0, 0, 6, 9], [0, 0, 0, 1, 42]]);
            var s := Run(message.parts, 2, 64, 0, [Arrive(1), GiveUp(_ => false), Read(8)]);
            Sliced(message) && s.out == [[42]]
  {
    var message := Message([9, 0, 0, 0, 1, 42], [[0, 0, 0, 6, 9], [0, 0, 0, 1, 42]]);
    MessageOfTwo(message);
    var one, two := Arrive(1), GiveUp(_ => false);
    var ops := [one, two, Read(8)];
    assert ops[..2] == [one, two] && [one, two][..1] == [one] && [one][..0] == [];
    var a := Trace(Ring([Free, Full(message.parts[1])], 64, 0, 0, 2), [], 0);
    SecondArrives(message.parts);
    var b := Trace(Ring([Free, Full(message.parts[1])], 64, 1, 2, 2), [], 1);
    GapGivenUp(message.parts[1]);
    assert Run(message.parts, 2, 64, 0, [one]) == a;
    assert Run(message.parts, 2, 64, 0, [one, two]) == b;
    SecondIsRead(message.parts[1]);
  }

  lemma MessageOfTwo(m: Message)
    requires m == Message([9, 0, 0, 0, 1, 42], [[0, 0, 0, 6, 9], [0, 0, 0, 1, 42]])
    ensures Sliced(m)
  {
    assert m.parts[1..] == [[0, 0, 0, 1, 42]] && m.parts[1..][1..] == [];
    assert Concat(m.parts[1..]) == [0, 0, 0, 1, 42];
    assert Prefix(6) == [0, 0, 0, 6];
  }

  lemma SecondArrives(parts: seq<seq<Byte>>)
    requires |parts| == 2 && |parts[1]| == 5
    ensures Store(Anchored(2, 64, 0), SerialOf(1), parts[1])
         == (Ring([Free, Full(parts[1])], 64, 0, 0, 2), Accepted)
  {
    var kept := Ring([Free, Full(parts[1])], 64, 0, 0, 2);
    assert Anchored(2, 64, 0).slots == [Free, Free];
    assert Anchored(2, 64, 0).slots[1 := Full(parts[1])] == kept.slots;
    assert Walked(kept) == kept;
  }

  lemma GapGivenUp(body: seq<Byte>)
    ensures Escape(Ring([Free, Full(body)], 64, 0, 0, 2), _ => false)
         == (Ring([Free, Full(body)], 64, 1, 2, 2), Some(1))
  {
    var f := _ => false;
    var r := Ring([Free, Full(body)], 64, 0, 0, 2);
    assert Scanned(r, f, 2, Some(1), None) == (Some(1), None);
    assert Scanned(r, f, 1, None, None) == (Some(1), None);
    assert Scanned(r, f, 0, None, None) == (Some(1), None);
    var open := r.(slots := r.slots[0 := Free], delivered := 1);
    assert open.slots == r.slots && Released(open, 0) == open && Released(r, 1) == open;
    var moved := open.(cumulative := 1);
    assert Walked(moved) == Walked(moved.(cumulative := 2)) == moved.(cumulative := 2);
  }

  lemma SecondIsRead(body: seq<Byte>)
    requires body == [0, 0, 0, 1, 42]
    ensures Take(Ring([Free, Full(body)], 64, 1, 2, 2), 8).1 == Some(Ok([42]))
  {
    var r := Ring([Free, Full(body)], 64, 1, 2, 2);
    assert body[..4] == [0, 0, 0, 1] && PrefixOf(body) == 1;
    assert Spanned(r, 2, 0) == Some(Ok(0)) && Spanned(r, 1, 5) == Some(Ok(1));
    assert Gathered(r, 2, 0) == [] && Gathered(r, 1, 1) == body;
  }

  // What a depth that does not divide the serial numbers does at the wrap.

  /** No two fragments of one window ever share a slot. */
  ghost predicate KeepsApart(depth: nat)
    requires depth > 0
  {
    forall a: nat, b: nat :: a < b < a + depth ==> SerialOf(a) % depth != SerialOf(b) % depth
  }

  /** The slots of a window are apart at every position, the wrap included, exactly when the depth divides 2^32. */
  lemma KeepsApartExactlyWhen(depth: nat)
    requires 0 < depth <= WORD
    ensures KeepsApart(depth) <==> WORD % depth == 0
  {
    var rest := WORD % depth;
    if rest == 0 {
      forall a: nat, b: nat | a < b < a + depth ensures SerialOf(a) % depth != SerialOf(b) % depth {
        IndexOf(depth, b + 1, a);
        IndexOf(depth, b + 1, b);
        if a % depth == b % depth { OneSlotEach(depth, a, b); }
      }
    } else {
      var a, b := WORD - 1, WORD + rest - 1;
      assert WORD == depth * (WORD / depth) + rest;
      Multiple(depth, WORD / depth, rest - 1);
      assert SerialOf(b) == rest - 1;
      assert SerialOf(a) % depth == SerialOf(b) % depth;
    }
  }

  lemma Depth4000()
    ensures WORD % 4000 == 3296
  {
  }

  /** A body a slot has room for. */
  predicate Fits(body: seq<Byte>, slotLen: nat) { |body| <= slotLen && |body| <= 0xFFFF }

  /**
    * On an empty ring, of two different fragments of the window offered one after the other both are kept, and
    * after the first the frontier has moved exactly if it was the fragment expected.
    */
  predicate TrustedAt(depth: nat, slotLen: nat, start: nat, n: nat, k: nat, a: seq<Byte>, b: seq<Byte>)
    requires depth > 0
  {
    start <= n < start + depth && start <= k < start + depth && k != n && Fits(a, slotLen) && Fits(b, slotLen) ==>
      var one := Store(Anchored(depth, slotLen, start), SerialOf(n), a);
      && one.1.Accepted? && (one.0.cumulative != SerialOf(start) <==> n == start)
      && Store(one.0, SerialOf(k), b).1.Accepted?
  }

  ghost predicate Trusted(depth: nat)
    requires depth > 0
  {
    forall slotLen: nat, start: nat, n: nat, k: nat, a, b :: TrustedAt(depth, slotLen, start, n, k, a, b)
  }

  /** A ring can be trusted wherever its channel starts, the wrap included, exactly when its depth divides 2^32. */
  lemma TrustedExactlyWhen(depth: nat)
    requires 0 < depth < HALF
    ensures Trusted(depth) <==> WORD % depth == 0
  {
    hide TrustedAt, Store, SerialOf;
    if WORD % depth == 0 {
      forall slotLen: nat, start: nat, n: nat, k: nat, a, b ensures TrustedAt(depth, slotLen, start, n, k, a, b) {
        AlignedIsTrusted(depth, slotLen, start, n, k, a, b);
      }
    } else {
      WrapFails(depth, 0, [], []);
      NotTrusted(depth, WORD % depth);
    }
  }

  lemma AlignedIsTrusted(depth: nat, slotLen: nat, start: nat, n: nat, k: nat, a: seq<Byte>, b: seq<Byte>)
    requires 0 < depth < HALF && WORD % depth == 0
    ensures TrustedAt(depth, slotLen, start, n, k, a, b)
  {
    if start <= n < start + depth && start <= k < start + depth && k != n && Fits(a, slotLen) && Fits(b, slotLen) {
      hide SerialOf, Store;
      var frags := seq((if n < k then k else n) + 1, i => if i == n then a else b);
      var empty, m := Anchored(depth, slotLen, start), Marks(start, start, start);
      AnchoredHolds(frags, depth, slotLen, start);
      var m1 := StoreHolds(empty, frags, m, n);
      var one := Store(empty, SerialOf(n), a).0;
      FrontierMoved(one, frags, m1, start, n);
      var m2 := StoreHolds(one, frags, m1, k);
      assert SlotOf(one, k) == SlotOf(empty, k);
    }
  }

  lemma FrontierMoved(r: Ring, frags: seq<seq<Byte>>, m: Marks, start: nat, n: nat)
    requires Holds(r, frags, m) && AtFrontier(r, m) && m.d == start <= n < start + |r.slots| && n < |frags|
    requires SlotOf(r, n).Full? && (n != start ==> SlotOf(r, start).Free?)
    ensures r.cumulative != SerialOf(start) <==> n == start
  {
    hide SerialOf, Aligned;
    SerialsCompare(m.c, start);
    assert n < m.h;
  }

  lemma NotTrusted(depth: nat, rest: nat)
    requires 0 < depth < HALF && rest == WORD % depth > 0
    requires Store(Anchored(depth, 0, WORD - 1), rest - 1, []).0.cumulative != WORD - 1
    ensures !Trusted(depth)
  {
    hide Store;
    assert SerialOf(WORD - 1) == WORD - 1 && SerialOf(WORD - 1 + rest) == rest - 1;
    assert !TrustedAt(depth, 0, WORD - 1, WORD - 1 + rest, WORD - 1, [], []);
  }

  /**
    * At any depth that does not divide 2^32, a ring whose channel starts at the last serial number: with that one
    * stored, a later fragment of the window is refused though it never came; with the later one stored, the last
    * serial number is acknowledged though it never came, and refused when it does.
    */
  lemma WrapFails(depth: nat, slotLen: nat, a: seq<Byte>, b: seq<Byte>)
    requires 0 < depth < HALF && WORD % depth > 0 && Fits(a, slotLen) && Fits(b, slotLen)
    ensures var start, late := Anchored(depth, slotLen, WORD - 1), WORD % depth - 1;
            && Distance(WORD - 1, late) < depth
            && Store(Store(start, WORD - 1, a).0, late, b).1 == Duplicate
            && Store(start, late, b).1 == Accepted && Store(start, late, b).0.cumulative != WORD - 1
            && Store(Store(start, late, b).0, WORD - 1, a).1 == Duplicate
  {
    var rest := WORD % depth;
    OneBefore(WORD, depth);
    FromTheLast(rest);
    hide Store, Distance;
    assert SerialOf(WORD - 1) == WORD - 1;
    LateIsRefused(Anchored(depth, slotLen, WORD - 1), rest, a, b);
    LastIsAcknowledged(Anchored(depth, slotLen, WORD - 1), rest, a, b);
  }

  lemma OneBefore(n: nat, depth: nat)
    requires depth > 0 && n % depth > 0
    ensures (n - 1) % depth == n % depth - 1 == (n % depth - 1) % depth
  {
    assert n == depth * (n / depth) + n % depth;
    Multiple(depth, n / depth, n % depth - 1);
    Small(n % depth - 1, depth);
  }

  lemma Small(n: nat, depth: nat)
    requires n < depth
    ensures n % depth == n
  {
  }

  lemma FromTheLast(rest: nat)
    requires 0 < rest < HALF - 1
    ensures Distance(WORD - 1, rest - 1) == rest && Distance(WORD - 1, rest) == rest + 1 && Distance(0, rest) == rest
    ensures After(rest, WORD - 1) && !After(WORD - 1, rest - 1) && !After(WORD - 1, WORD - 1) && Next(WORD - 1) == 0
  {
  }

  /** An empty ring whose channel starts at the last serial number, which shares a slot with a later one. */
  predicate AtTheWrap(r: Ring, rest: nat) {
    && 0 < rest < |r.slots| < HALF && r.delivered == r.cumulative == r.highest == WORD - 1
    && r.Index(WORD - 1) == r.Index(rest - 1) == rest - 1 && r.slots[rest - 1].Free?
  }

  lemma LateIsRefused(r: Ring, rest: nat, a: seq<Byte>, b: seq<Byte>)
    requires AtTheWrap(r, rest) && Fits(a, r.slotLen) && Fits(b, r.slotLen)
    ensures Store(Store(r, WORD - 1, a).0, rest - 1, b).1 == Duplicate
  {
    FromTheLast(rest);
    BackAndForth(WORD - 1, WORD - 1);
    StoreAtEnd(r, WORD - 1, a, rest - 1);
    hide Walked, Distance, After;
  }

  lemma LastIsAcknowledged(r: Ring, rest: nat, a: seq<Byte>, b: seq<Byte>)
    requires AtTheWrap(r, rest) && Fits(a, r.slotLen) && Fits(b, r.slotLen)
    ensures var one := Store(r, rest - 1, b);
            one.1 == Accepted && one.0.cumulative != WORD - 1 && Store(one.0, WORD - 1, a).1 == Duplicate
  {
    FromTheLast(rest);
    BackAndForth(WORD - 1, WORD - 1);
    var kept := r.(slots := r.slots[rest - 1 := Full(b)], highest := rest);
    var on := kept.(cumulative := 0);
    WalkedForward(on);
    hide Distance, After;
    assert Walked(kept) == Walked(on);
    hide Walked;
    assert Next(rest - 1) == rest;
    assert Store(r, rest - 1, b) == (Walked(kept), Accepted);
  }

  /** With the later fragment a whole message, it is what is read in place of the last serial number's. */
  lemma LateIsRead(r: Ring, rest: nat, content: seq<Byte>, room: nat)
    requires AtTheWrap(r, rest) && |content| < WORD && Fits(Prefix(|content|) + content, r.slotLen) && |content| <= room
    ensures Take(Store(r, rest - 1, Prefix(|content|) + content).0, room).1 == Some(Ok(content))
  {
    var body := Prefix(|content|) + content;
    LastIsAcknowledged(r, rest, body, body);
    FromTheLast(rest);
    PrefixBack(|content|, content);
    var kept := r.(slots := r.slots[rest - 1 := Full(body)], highest := rest);
    assert Store(r, rest - 1, body).0.slots == kept.slots by { hide Distance, After, Prefix; }
    hide Store, After, Distance, Prefix, PrefixOf;
    OneFragmentTaken(Store(r, rest - 1, body).0, content, room);
  }

  lemma OneFragmentTaken(r: Ring, content: seq<Byte>, room: nat)
    requires r.Made() && |content| < WORD && |content| <= room && r.delivered != r.cumulative
    requires r.At(r.delivered) == Full(Prefix(|content|) + content)
    requires PrefixOf(Prefix(|content|) + content) == |content|
    ensures Take(r, room).1 == Some(Ok(content))
  {
    hide Prefix, PrefixOf, Next;
    var body := Prefix(|content|) + content;
    assert Spanned(r, Next(r.delivered), 0) == Some(Ok(0));
    assert Spanned(r, r.delivered, |content| + 4) == Some(Ok(1));
    assert Gathered(r, Next(r.delivered), 0) == [] && Gathered(r, r.delivered, 1) == body + [];
    assert body + [] == body && body[4..|content| + 4] == content;
  }

  lemma {:induction false} WalkedForward(r: Ring)
    requires r.Made()
    ensures Distance(Walked(r).cumulative, r.highest) <= Distance(r.cumulative, r.highest)
    decreases Distance(r.cumulative, r.highest)
  {
    if r.cumulative != r.highest && r.At(r.cumulative).Full? {
      Closer(r.cumulative, r.highest);
      WalkedForward(r.(cumulative := Next(r.cumulative)));
    }
  }

  /** The depth the rings are made with cannot be trusted across the wrap. */
  lemma ShippedDepthIsNotTrusted()
    ensures !Trusted(4000)
  {
    hide Trusted;
    Depth4000();
    TrustedExactlyWhen(4000);
  }

  /** Storing the fragment at the frontier of a ring with no gap walks the frontier past it. */
  lemma StoreAtEnd(r: Ring, s: Serial, body: seq<Byte>, i: nat)
    requires r.Made() && |r.slots| < HALF && r.cumulative == r.highest == s && i == r.Index(s) && r.slots[i].Free?
    requires Distance(r.delivered, s) < |r.slots| && |body| <= r.slotLen && |body| <= 0xFFFF
    ensures Store(r, s, body)
         == (Walked(r.(slots := r.slots[i := Full(body)], cumulative := Next(s), highest := Next(s))), Accepted)
  {
    NextIsAfter(s);
    NotBefore(r.delivered, s);
    var kept := r.(slots := r.slots[i := Full(body)], highest := Next(s));
    WalkedOne(kept);
    hide Distance, After, Next, Walked;
  }

  lemma NextIsAfter(s: Serial)
    ensures After(Next(s), s) && Next(s) != s
  {
  }

  lemma NotBefore(d: Serial, s: Serial)
    requires Distance(d, s) < HALF
    ensures !After(d, s)
  {
    BackAndForth(d, s);
  }

  lemma WalkedOne(r: Ring)
    requires r.Made() && r.cumulative != r.highest && r.At(r.cumulative).Full?
    ensures Walked(r) == Walked(r.(cumulative := Next(r.cumulative)))
  {
    hide Next, Distance;
  }

  lemma BackAndForth(a: Serial, b: Serial)
    ensures a != b ==> Distance(a, b) + Distance(b, a) == WORD
    ensures a == b ==> Distance(a, b) == 0
  {
  }

  // Order, and the wrap.

  /** What was handed out are the contents sent, one after the other from the first on. */
  predicate FirstOnes(sent: seq<Message>, first: nat, out: seq<seq<Byte>>) {
    first + |out| <= |sent| && forall i :: 0 <= i < |out| ==> out[i] == sent[first + i].content
  }

  ghost predicate OrderedRun(depth: nat, sent: seq<Message>, slotLen: nat, first: nat, ops: seq<Op>)
    requires depth > 0
  {
    && AllSliced(sent) && first <= |sent| && NoneGivenUp(ops)
    && SoundRun(sent, depth, slotLen, Begins(sent, first), ops) ==>
      FirstOnes(sent, first, Run(Fragments(sent), depth, slotLen, Begins(sent, first), ops).out)
  }

  /** In every sound run of a channel, however long, that gives up no gap, messages come in order, none missing. */
  ghost predicate InOrder(depth: nat)
    requires depth > 0
  {
    forall sent, slotLen: nat, first: nat, ops :: OrderedRun(depth, sent, slotLen, first, ops)
  }

  /** Messages come in order in every run of a channel that may wrap exactly when the ring's depth divides 2^32. */
  lemma InOrderExactlyWhen(depth: nat)
    requires 0 < depth < HALF
    ensures InOrder(depth) <==> WORD % depth == 0
  {
    hide OrderedRun;
    if WORD % depth == 0 {
      forall sent, slotLen: nat, first: nat, ops ensures OrderedRun(depth, sent, slotLen, first, ops) {
        AlignedIsOrdered(depth, sent, slotLen, first, ops);
      }
    } else {
      WrapIsNotOrdered(depth);
    }
  }

  lemma AlignedIsOrdered(depth: nat, sent: seq<Message>, slotLen: nat, first: nat, ops: seq<Op>)
    requires 0 < depth < HALF && WORD % depth == 0
    ensures OrderedRun(depth, sent, slotLen, first, ops)
  {
    hide Run, AllSliced, SoundRun, Begins;
    if AllSliced(sent) && first <= |sent| && NoneGivenUp(ops)
       && SoundRun(sent, depth, slotLen, Begins(sent, first), ops)
    {
      var taken, next, m := MessagesInOrder(sent, depth, slotLen, first, ops);
      var s := Run(Fragments(sent), depth, slotLen, Begins(sent, first), ops);
      hide Holds, AtFrontier, Fragments;
      forall i | 0 <= i < |s.out| ensures s.out[i] == sent[first + i].content {
        NoneMissing(sent, s, first, taken, m, depth, i);
      }
    }
  }

  /** A message of one fragment. */
  function Whole(content: seq<Byte>): Message
    requires |content| < WORD
  {
    Message(content, [Prefix(|content|) + content])
  }

  lemma WholeIsSliced(content: seq<Byte>)
    requires |content| < WORD
    ensures Sliced(Whole(content))
  {
    var parts: seq<seq<Byte>> := [Prefix(|content|) + content];
    assert parts[1..] == [];
    assert Concat(parts) == parts[0] + [];
  }

  lemma {:induction false} OneFragmentEach(sent: seq<Message>)
    requires forall k :: 0 <= k < |sent| ==> |sent[k].parts| == 1
    ensures |Fragments(sent)| == |sent| && forall k :: 0 <= k < |sent| ==> Fragments(sent)[k] == sent[k].parts[0]
    decreases |sent|
  {
    if sent != [] { OneFragmentEach(sent[1..]); }
  }

  /** One message a fragment, each of one byte: all of them zero but one, so far past the wrap. */
  function OneByteEach(depth: nat): (sent: seq<Message>)
    requires depth > 0
    ensures |sent| == WORD + WORD % depth
  {
    seq(WORD + WORD % depth, i => Whole(if i == WORD + WORD % depth - 1 then [1] else [0]))
  }

  lemma WrapIsNotOrdered(depth: nat)
    requires 0 < depth < HALF && WORD % depth > 0
    ensures !InOrder(depth)
  {
    hide OneByteEach, Run, SoundRun, AllSliced, Begins, Fragments, InOrder;
    LateComesFirst(depth);
    NotOrdered(depth, OneByteEach(depth), 64, WORD - 1, [Arrive(WORD + WORD % depth - 1), Read(8)]);
  }

  lemma NotOrdered(depth: nat, sent: seq<Message>, slotLen: nat, first: nat, ops: seq<Op>)
    requires depth > 0 && AllSliced(sent) && first < |sent| && NoneGivenUp(ops) && Begins(sent, first) == first
    requires SoundRun(sent, depth, slotLen, first, ops)
    requires var out := Run(Fragments(sent), depth, slotLen, first, ops).out; out != [] && out[0] != sent[first].content
    ensures !InOrder(depth)
  {
    hide Run, SoundRun, AllSliced, Begins, Fragments;
    assert !OrderedRun(depth, sent, slotLen, first, ops);
  }

  /**
    * At any depth that does not divide 2^32, a reader at the last serial number is handed a later message before it:
    * a sound run of two steps, an arrival and a read.
    */
  lemma LateComesFirst(depth: nat)
    requires 0 < depth < HALF && WORD % depth > 0
    ensures var rest, sent := WORD % depth, OneByteEach(depth);
            var ops := [Arrive(WORD + rest - 1), Read(8)];
            && AllSliced(sent) && Begins(sent, WORD - 1) == WORD - 1
            && SoundRun(sent, depth, 64, WORD - 1, ops)
            && Run(Fragments(sent), depth, 64, WORD - 1, ops).out == [[1]]
            && sent[WORD - 1].content == [0]
  {
    var rest, sent := WORD % depth, OneByteEach(depth);
    var n := WORD + rest - 1;
    OneByteEachSent(depth);
    hide Fragments, OneByteEach, AllSliced, Whole, Begins;
    LateRun(depth, rest, Fragments(sent));
    LateRunIsSound(sent, depth, rest);
  }

  lemma OneByteEachSent(depth: nat)
    requires 0 < depth < HALF && WORD % depth > 0
    ensures var sent, n := OneByteEach(depth), WORD + WORD % depth - 1;
            && AllSliced(sent) && Begins(sent, WORD - 1) == WORD - 1 && |Fragments(sent)| == n + 1
            && Fragments(sent)[n] == Prefix(1) + [1] && sent[WORD - 1].content == [0]
  {
    hide Fragments;
    var sent := OneByteEach(depth);
    WholeIsSliced([0]);
    WholeIsSliced([1]);
    OneFragmentEach(sent);
    OneFragmentEach(sent[..WORD - 1]);
  }

  lemma LateRun(depth: nat, rest: nat, frags: seq<seq<Byte>>)
    requires 0 < depth < HALF && rest == WORD % depth > 0
    requires |frags| == WORD + rest && frags[WORD + rest - 1] == Prefix(1) + [1]
    ensures Run(frags, depth, 64, WORD - 1, [Arrive(WORD + rest - 1), Read(8)]).out == [[1]]
    ensures Run(frags, depth, 64, WORD - 1, []).passed == WORD - 1
  {
    var start, body := Anchored(depth, 64, WORD - 1), Prefix(1) + [1];
    LateSerial(rest);
    OneBefore(WORD, depth);
    assert AtTheWrap(start, rest) by { hide Prefix; }
    LateIsRead(start, rest, [1], 8);
    hide Store, Take, SerialOf, Distance, Prefix, AtTheWrap, Anchored;
    TwoStepRun(frags, depth, 64, WORD - 1, Arrive(WORD + rest - 1), Read(8));
    assert Store(start, SerialOf(WORD + rest - 1), frags[WORD + rest - 1]).0 == Store(start, rest - 1, body).0;
  }

  lemma TwoStepRun(frags: seq<seq<Byte>>, depth: nat, slotLen: nat, from: nat, one: Op, two: Op)
    requires depth > 0
    ensures Run(frags, depth, slotLen, from, []) == Trace(Anchored(depth, slotLen, from), [], from)
    ensures Run(frags, depth, slotLen, from, [one, two])
         == Stepped(frags, Stepped(frags, Trace(Anchored(depth, slotLen, from), [], from), one), two)
  {
    hide Stepped, Anchored;
    assert [one, two][..1] == [one] && [one][..0] == [];
  }

  lemma LateSerial(rest: nat)
    requires 0 < rest < HALF
    ensures SerialOf(WORD - 1) == WORD - 1 && SerialOf(WORD + rest - 1) == rest - 1
  {
  }

  lemma LateRunIsSound(sent: seq<Message>, depth: nat, rest: nat)
    requires 0 < rest < depth < HALF && Run(Fragments(sent), depth, 64, WORD - 1, []).passed == WORD - 1
    ensures SoundRun(sent, depth, 64, WORD - 1, [Arrive(WORD + rest - 1), Read(8)])
  {
    hide Run;
    var ops := [Arrive(WORD + rest - 1), Read(8)];
    assert ops[..0] == [];
  }
}
