/**
 The ring buffer as a transition system: any number of concurrent `Write`
 calls and one consumer, one step per atomic access and per copied byte.
 */
module RingSystem {
  import opened Machine
  import opened RingIndex

  /** A `Write` call that has passed the free-space test but reserved nothing. */
  datatype Call =
    | Checked(msg: seq<Byte>)
    | Loaded(msg: seq<Byte>, expected: nat)
    | Failed(msg: seq<Byte>, expected: nat)

  /** A `Write` call that holds a reservation and has not yet stored the end index.
      `pos` is the stream position of its first byte (history). */
  datatype Flight = Flight(msg: seq<Byte>, start: nat, next: nat, pos: nat, copied: nat, turn: bool)

  datatype Consumer =
    | Resting
    | SawData(n: nat)
    | Reading(n: nat, from: nat, seen: seq<Byte>)
    | Releasing(out: seq<Byte>)
    | SawBegin(out: seq<Byte>, from: nat)
    | Moving(to: nat)

  /**
   `mem` to `data` are the buffer's fields; `calls`, `flights`, `adding` and
   `consumer` are the threads' local variables, `flights` listed in the order of
   the successful compare-exchanges and `adding` holding the calls that have
   stored the end index but not yet added to the counter.  The rest is history:
   the accepted messages in compare-exchange order, their concatenation, the
   stream position that has been ended, and the bytes released.
   */
  datatype State = State(
    mem: seq<Byte>, begin: nat, writable: nat, end: nat, data: nat,
    calls: seq<Call>, flights: seq<Flight>, adding: seq<seq<Byte>>, consumer: Consumer,
    accepted: seq<seq<Byte>>, stream: seq<Byte>, ended: nat, released: seq<Byte>)
  {
    /** Bytes reserved but not released. */
    function Outstanding(): int {
      |stream| - |released|
    }
  }

  datatype Action =
    | StartWrite(msg: seq<Byte>)
    | LoadIndex(i: nat)
    | Cas(i: nat)
    | Recheck(i: nat)
    | CopyByte(k: nat)
    | TakeTurn(k: nat)
    | StoreEnd(k: nat)
    | AddData(j: nat)
    | PeekData
    | PeekBegin
    | ReadByte
    | CheckReaded(w: nat)
    | LoadBegin
    | SubData
    | StoreBegin

  function Without<T>(s: seq<T>, i: nat): seq<T>
    requires i < |s|
  {
    s[..i] + s[i + 1..]
  }

  function SumLen(ms: seq<seq<Byte>>): nat {
    if ms == [] then 0 else |ms[0]| + SumLen(ms[1..])
  }

  function Concat(ms: seq<seq<Byte>>): seq<Byte> {
    if ms == [] then [] else Concat(ms[..|ms| - 1]) + ms[|ms| - 1]
  }

  function Init(mem: seq<Byte>): State {
    State(mem, 0, 0, 0, 0, [], [], [], Resting, [], [], 0, [])
  }

  /** One atomic step; an action that is not enabled changes nothing. */
  function Step(cap: nat, s: State, a: Action): State
    requires cap > 0
  {
    match a
    case StartWrite(msg) => StepStart(cap, s, msg)
    case LoadIndex(i) =>
      if i < |s.calls| && s.calls[i].Checked? then
        s.(calls := s.calls[i := Loaded(s.calls[i].msg, s.writable)])
      else s
    case Cas(i) => StepCas(cap, s, i)
    case Recheck(i) => StepRecheck(cap, s, i)
    case CopyByte(k) => StepCopy(cap, s, k)
    case TakeTurn(k) => StepTurn(s, k)
    case StoreEnd(k) => StepEnd(s, k)
    case AddData(j) => StepAdd(s, j)
    case PeekData => if s.consumer.Resting? then s.(consumer := SawData(s.data)) else s
    case PeekBegin =>
      if s.consumer.SawData? then s.(consumer := Reading(s.consumer.n, s.begin, [])) else s
    case ReadByte => StepRead(cap, s)
    case CheckReaded(w) => StepCheckReaded(s, w)
    case LoadBegin =>
      if s.consumer.Releasing? then s.(consumer := SawBegin(s.consumer.out, s.begin)) else s
    case SubData => StepSub(cap, s)
    case StoreBegin =>
      if s.consumer.Moving? then s.(begin := s.consumer.to, consumer := Resting) else s
  }

  // Write, the free-space test and the early returns
  function StepStart(cap: nat, s: State, msg: seq<Byte>): State {
    if FreeBytes(cap, s.data) < |msg| || msg == [] then s
    else s.(calls := s.calls + [Checked(msg)])
  }

  // Write, the compare-exchange on m_uWriteableIndex
  function StepCas(cap: nat, s: State, i: nat): State
    requires cap > 0
  {
    if i < |s.calls| && s.calls[i].Loaded? then
      var msg := s.calls[i].msg;
      if s.calls[i].expected == s.writable then
        var next := Wrap(cap, s.writable + |msg|);
        s.(writable := next, calls := Without(s.calls, i),
           flights := s.flights + [Flight(msg, s.writable, next, |s.stream|, 0, false)],
           accepted := s.accepted + [msg], stream := s.stream + msg)
      else s.(calls := s.calls[i := Failed(msg, s.writable)])
    else s
  }

  // Write, the free-space test repeated after a failed compare-exchange
  function StepRecheck(cap: nat, s: State, i: nat): State {
    if i < |s.calls| && s.calls[i].Failed? then
      if FreeBytes(cap, s.data) < |s.calls[i].msg| then s.(calls := Without(s.calls, i))
      else s.(calls := s.calls[i := Loaded(s.calls[i].msg, s.calls[i].expected)])
    else s
  }

  // Write, one byte of the one or two memcpy calls
  function StepCopy(cap: nat, s: State, k: nat): State {
    if k < |s.flights| && s.flights[k].copied < |s.flights[k].msg| then
      var f := s.flights[k];
      var x := SliceIndex(cap, f.start, |f.msg|, f.copied);
      if 0 <= x < |s.mem| then
        s.(mem := s.mem[x := f.msg[f.copied]], flights := s.flights[k := f.(copied := f.copied + 1)])
      else s
    else s
  }

  // Write, the spin loop reading m_uEndIndex
  function StepTurn(s: State, k: nat): State {
    if k < |s.flights| && s.flights[k].copied == |s.flights[k].msg| && s.flights[k].start == s.end then
      s.(flights := s.flights[k := s.flights[k].(turn := true)])
    else s
  }

  // Write, the store to m_uEndIndex
  function StepEnd(s: State, k: nat): State {
    if k < |s.flights| && s.flights[k].turn then
      var f := s.flights[k];
      s.(end := f.next, ended := f.pos + |f.msg|, flights := Without(s.flights, k), adding := s.adding + [f.msg])
    else s
  }

  // Write, the addition to m_uDataOfBytes, truncated to 32 bits
  function StepAdd(s: State, j: nat): State {
    if j < |s.adding| then
      s.(data := s.data + |s.adding[j]| % UINT32, adding := Without(s.adding, j))
    else s
  }

  // the caller of Peek reading the next byte of the block
  function StepRead(cap: nat, s: State): State {
    match s.consumer
    case Reading(n, from, seen) =>
      var x := SliceIndex(cap, from, n, |seen|);
      if |seen| < n && 0 <= x < |s.mem| then s.(consumer := Reading(n, from, seen + [s.mem[x]])) else s
    case _ => s
  }

  // Readed, the test against m_uDataOfBytes
  function StepCheckReaded(s: State, w: nat): State {
    match s.consumer
    case Reading(n, from, seen) =>
      if w > |seen| then s
      else if w > s.data then s.(consumer := Resting)
      else s.(consumer := Releasing(seen[..w]))
    case _ => s
  }

  // Readed, the subtraction from m_uDataOfBytes
  function StepSub(cap: nat, s: State): State
    requires cap > 0
  {
    match s.consumer
    case SawBegin(out, from) =>
      if |out| > s.data then s
      else s.(data := s.data - |out|, released := s.released + out, consumer := Moving(Wrap(cap, from + |out|)))
    case _ => s
  }

  /** The state after a whole run: any interleaving of the threads' steps. */
  function Exec(cap: nat, s: State, acts: seq<Action>): State
    requires cap > 0
    decreases |acts|
  {
    if acts == [] then s else Exec(cap, Step(cap, s, acts[0]), acts[1..])
  }

  /** The capacity premise: at every moment of the run the reserved but
      unreleased bytes fit in the buffer. */
  ghost predicate WithinCapacity(cap: nat, s: State, acts: seq<Action>)
    requires cap > 0
    decreases |acts|
  {
    s.Outstanding() <= cap && (acts != [] ==> WithinCapacity(cap, Step(cap, s, acts[0]), acts[1..]))
  }

  // ---- The invariant

  ghost predicate IndexInv(cap: nat, s: State)
    requires cap > 0
  {
    && |s.mem| == cap
    && s.writable == Wrap(cap, |s.stream|)
    && s.end == Wrap(cap, s.ended)
    && |s.released| <= s.ended <= |s.stream|
    && s.released == s.stream[..|s.released|]
  }

  ghost predicate CallsInv(calls: seq<Call>) {
    forall i :: 0 <= i < |calls| ==> 0 < |calls[i].msg|
  }

  ghost predicate FlightInv(cap: nat, f: Flight, stream: seq<Byte>, ended: nat)
    requires cap > 0
  {
    && 0 < |f.msg| && f.copied <= |f.msg|
    && ended <= f.pos && f.pos + |f.msg| <= |stream|
    && stream[f.pos..f.pos + |f.msg|] == f.msg
    && f.start == Wrap(cap, f.pos) && f.next == Wrap(cap, f.pos + |f.msg|)
    && (f.turn ==> f.pos == ended && f.copied == |f.msg|)
  }

  ghost predicate FlightsInv(cap: nat, fs: seq<Flight>, stream: seq<Byte>, ended: nat)
    requires cap > 0
  {
    forall k :: 0 <= k < |fs| ==> FlightInv(cap, fs[k], stream, ended)
  }

  /** The reservations in flight tile the positions from `from` to `to`, in
      the order in which they were made. */
  ghost predicate Tiled(fs: seq<Flight>, from: nat, to: nat) {
    if fs == [] then from == to
    else fs[0].pos == from && |fs[0].msg| > 0 && Tiled(fs[1..], from + |fs[0].msg|, to)
  }

  ghost predicate SlotHolds(cap: nat, mem: seq<Byte>, stream: seq<Byte>, x: nat)
    requires cap > 0
  {
    x < |stream| && Wrap(cap, x) < |mem| && mem[Wrap(cap, x)] == stream[x]
  }

  /** Every byte from position `from` up to position `to` sits in its slot. */
  ghost predicate RangeHolds(cap: nat, mem: seq<Byte>, stream: seq<Byte>, from: nat, to: nat)
    requires cap > 0
  {
    forall x :: from <= x < to ==> SlotHolds(cap, mem, stream, x)
  }

  ghost predicate FlightsHold(cap: nat, mem: seq<Byte>, stream: seq<Byte>, fs: seq<Flight>)
    requires cap > 0
  {
    forall k :: 0 <= k < |fs| ==> RangeHolds(cap, mem, stream, fs[k].pos, fs[k].pos + fs[k].copied)
  }

  ghost predicate CountInv(data: nat, adding: seq<seq<Byte>>, ended: nat, released: nat) {
    data + SumLen(adding) <= ended - released
  }

  ghost predicate ConsumerInv(cap: nat, c: Consumer, begin: nat, data: nat, stream: seq<Byte>, b: nat)
    requires cap > 0
  {
    && (!c.Moving? ==> begin == Wrap(cap, b))
    && match c
       case Resting => true
       case SawData(n) => n <= data
       case Reading(n, from, seen) =>
         n <= data && from == begin && |seen| <= n && b + n <= |stream| && seen == stream[b..b + |seen|]
       case Releasing(out) => |out| <= data && b + |out| <= |stream| && out == stream[b..b + |out|]
       case SawBegin(out, from) =>
         from == begin && |out| <= data && b + |out| <= |stream| && out == stream[b..b + |out|]
       case Moving(to) => to == Wrap(cap, b)
  }

  ghost predicate Inv(cap: nat, s: State)
    requires cap > 0
  {
    && IndexInv(cap, s)
    && s.stream == Concat(s.accepted)
    && CallsInv(s.calls)
    && FlightsInv(cap, s.flights, s.stream, s.ended)
    && Tiled(s.flights, s.ended, |s.stream|)
    && RangeHolds(cap, s.mem, s.stream, |s.released|, s.ended)
    && FlightsHold(cap, s.mem, s.stream, s.flights)
    && CountInv(s.data, s.adding, s.ended, |s.released|)
    && ConsumerInv(cap, s.consumer, s.begin, s.data, s.stream, |s.released|)
  }
}
