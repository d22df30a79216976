/** Every step of the ring keeps the invariant while the capacity premise holds. */
module RingInvariant {
  import opened Machine
  import opened RingIndex
  import opened RingSystem

  lemma InitInv(cap: nat, mem: seq<Byte>)
    requires cap > 0 && |mem| == cap
    ensures Inv(cap, Init(mem))
  {
  }

  // ---- Tilings

  lemma {:induction false} TiledAppend(fs: seq<Flight>, from: nat, to: nat, f: Flight)
    requires Tiled(fs, from, to) && f.pos == to && |f.msg| > 0
    ensures Tiled(fs + [f], from, to + |f.msg|)
  {
    if fs == [] {
      assert fs + [f] == [f] && [f][1..] == [];
    } else {
      assert (fs + [f])[1..] == fs[1..] + [f];
      TiledAppend(fs[1..], from + |fs[0].msg|, to, f);
    }
  }

  lemma {:induction false} TiledBounds(fs: seq<Flight>, from: nat, to: nat, k: nat)
    requires Tiled(fs, from, to) && k < |fs|
    ensures from <= fs[k].pos && fs[k].pos + |fs[k].msg| <= to
    ensures k > 0 ==> fs[0].pos + |fs[0].msg| <= fs[k].pos
    ensures from <= to
  {
    TiledOrder(fs[1..], from + |fs[0].msg|, to);
    if k > 0 {
      TiledBounds(fs[1..], from + |fs[0].msg|, to, k - 1);
    }
  }

  lemma {:induction false} TiledOrder(fs: seq<Flight>, from: nat, to: nat)
    requires Tiled(fs, from, to)
    ensures from <= to
  {
    if fs != [] {
      TiledOrder(fs[1..], from + |fs[0].msg|, to);
    }
  }

  /** Different reservations own disjoint ranges of positions. */
  lemma {:induction false} TiledApart(fs: seq<Flight>, from: nat, to: nat, j: nat, k: nat)
    requires Tiled(fs, from, to) && j < k < |fs|
    ensures fs[j].pos + |fs[j].msg| <= fs[k].pos
  {
    if j == 0 {
      TiledBounds(fs, from, to, k);
    } else {
      TiledApart(fs[1..], from + |fs[0].msg|, to, j - 1, k - 1);
    }
  }

  /** A change that keeps every position and message keeps the tiling. */
  lemma {:induction false} TiledUpdate(fs: seq<Flight>, from: nat, to: nat, k: nat, f: Flight)
    requires Tiled(fs, from, to) && k < |fs| && f.pos == fs[k].pos && f.msg == fs[k].msg
    ensures Tiled(fs[k := f], from, to)
  {
    if k > 0 {
      assert fs[k := f][1..] == fs[1..][k - 1 := f];
      TiledUpdate(fs[1..], from + |fs[0].msg|, to, k - 1, f);
    } else {
      assert fs[k := f][1..] == fs[1..];
    }
  }

  // ---- Producer steps

  lemma KeepsStart(cap: nat, s: State, msg: seq<Byte>)
    requires cap > 0 && Inv(cap, s)
    ensures Inv(cap, StepStart(cap, s, msg))
  {
    var t := StepStart(cap, s, msg);
    assert CallsInv(t.calls);
  }

  lemma KeepsCalls(cap: nat, s: State, a: Action)
    requires cap > 0 && Inv(cap, s) && (a.LoadIndex? || a.Recheck?)
    ensures Inv(cap, Step(cap, s, a))
  {
    var t := Step(cap, s, a);
    assert CallsInv(t.calls);
  }

  lemma KeepsCas(cap: nat, s: State, i: nat)
    requires cap > 0 && Inv(cap, s)
    ensures Inv(cap, StepCas(cap, s, i))
  {
    var t := StepCas(cap, s, i);
    assert CallsInv(t.calls);
    if i < |s.calls| && s.calls[i].Loaded? && s.calls[i].expected == s.writable {
      var msg := s.calls[i].msg;
      var f := Flight(msg, s.writable, t.writable, |s.stream|, 0, false);
      WrapAdd(cap, |s.stream|, |msg|);
      assert t.accepted[..|t.accepted| - 1] == s.accepted;
      TiledAppend(s.flights, s.ended, |s.stream|, f);
      CasFlights(cap, s, f);
      CasMemory(cap, s, f);
      CasConsumer(cap, s, msg);
    }
  }

  lemma CasFlights(cap: nat, s: State, f: Flight)
    requires cap > 0 && FlightsInv(cap, s.flights, s.stream, s.ended) && s.ended <= |s.stream|
    requires |f.msg| > 0 && f.pos == |s.stream| && f.copied == 0 && !f.turn
    requires f.start == Wrap(cap, f.pos) && f.next == Wrap(cap, f.pos + |f.msg|)
    ensures FlightsInv(cap, s.flights + [f], s.stream + f.msg, s.ended)
  {
    forall k | 0 <= k < |s.flights| ensures FlightInv(cap, s.flights[k], s.stream + f.msg, s.ended) {
      var g := s.flights[k];
      assert FlightInv(cap, g, s.stream, s.ended);
      assert (s.stream + f.msg)[g.pos..g.pos + |g.msg|] == s.stream[g.pos..g.pos + |g.msg|];
    }
    assert FlightInv(cap, f, s.stream + f.msg, s.ended);
  }

  lemma RangeExtends(cap: nat, mem: seq<Byte>, stream: seq<Byte>, more: seq<Byte>, from: nat, to: nat)
    requires cap > 0 && RangeHolds(cap, mem, stream, from, to)
    ensures RangeHolds(cap, mem, stream + more, from, to)
  {
    forall x | from <= x < to ensures SlotHolds(cap, mem, stream + more, x) {
      assert SlotHolds(cap, mem, stream, x);
    }
  }

  lemma CasMemory(cap: nat, s: State, f: Flight)
    requires cap > 0 && FlightsHold(cap, s.mem, s.stream, s.flights) && f.copied == 0
    requires RangeHolds(cap, s.mem, s.stream, |s.released|, s.ended)
    ensures FlightsHold(cap, s.mem, s.stream + f.msg, s.flights + [f])
    ensures RangeHolds(cap, s.mem, s.stream + f.msg, |s.released|, s.ended)
  {
    RangeExtends(cap, s.mem, s.stream, f.msg, |s.released|, s.ended);
    forall k | 0 <= k < |s.flights|
      ensures RangeHolds(cap, s.mem, s.stream + f.msg, s.flights[k].pos, s.flights[k].pos + s.flights[k].copied)
    {
      RangeExtends(cap, s.mem, s.stream, f.msg, s.flights[k].pos, s.flights[k].pos + s.flights[k].copied);
    }
  }

  lemma PrefixSlice(s: seq<Byte>, more: seq<Byte>, i: nat, j: nat)
    requires i <= j <= |s|
    ensures (s + more)[i..j] == s[i..j]
  {
  }

  lemma CasConsumer(cap: nat, s: State, msg: seq<Byte>)
    requires cap > 0 && ConsumerInv(cap, s.consumer, s.begin, s.data, s.stream, |s.released|)
    ensures ConsumerInv(cap, s.consumer, s.begin, s.data, s.stream + msg, |s.released|)
  {
    var b := |s.released|;
    match s.consumer
    case Reading(n, from, seen) => PrefixSlice(s.stream, msg, b, b + |seen|);
    case Releasing(out) => PrefixSlice(s.stream, msg, b, b + |out|);
    case SawBegin(out, from) => PrefixSlice(s.stream, msg, b, b + |out|);
    case _ =>
  }

  /** Storing position `y` disturbs no other position within one capacity. */
  lemma RangeSurvives(cap: nat, mem: seq<Byte>, stream: seq<Byte>, from: nat, to: nat, y: nat)
    requires cap > 0 && |mem| == cap && y < |stream| && RangeHolds(cap, mem, stream, from, to)
    requires y < from + cap && to <= y + cap
    ensures RangeHolds(cap, mem[Wrap(cap, y) := stream[y]], stream, from, to)
  {
    var next := mem[Wrap(cap, y) := stream[y]];
    forall x | from <= x < to ensures SlotHolds(cap, next, stream, x) {
      assert SlotHolds(cap, mem, stream, x);
      if x < y { WrapApart(cap, x, y); } else if y < x { WrapApart(cap, y, x); }
    }
  }

  lemma CopyRange(cap: nat, mem: seq<Byte>, stream: seq<Byte>, from: nat, y: nat)
    requires cap > 0 && |mem| == cap && y < |stream| && from <= y < from + cap
    requires RangeHolds(cap, mem, stream, from, y)
    ensures RangeHolds(cap, mem[Wrap(cap, y) := stream[y]], stream, from, y + 1)
  {
    RangeSurvives(cap, mem, stream, from, y, y);
    assert SlotHolds(cap, mem[Wrap(cap, y) := stream[y]], stream, y);
  }

  lemma CopyFlights(cap: nat, s: State, k: nat, f: Flight, y: nat)
    requires cap > 0 && Inv(cap, s) && s.Outstanding() <= cap
    requires k < |s.flights| && s.flights[k].copied < |s.flights[k].msg|
    requires y == s.flights[k].pos + s.flights[k].copied < |s.stream|
    requires f == s.flights[k].(copied := s.flights[k].copied + 1)
    ensures FlightsHold(cap, s.mem[Wrap(cap, y) := s.stream[y]], s.stream, s.flights[k := f])
  {
    var fs := s.flights;
    var gs := fs[k := f];
    forall j | 0 <= j < |fs|
      ensures RangeHolds(cap, s.mem[Wrap(cap, y) := s.stream[y]], s.stream, gs[j].pos, gs[j].pos + gs[j].copied)
    {
      assert RangeHolds(cap, s.mem, s.stream, fs[j].pos, fs[j].pos + fs[j].copied);
      assert FlightInv(cap, fs[j], s.stream, s.ended) && FlightInv(cap, fs[k], s.stream, s.ended);
      if j == k {
        CopyRange(cap, s.mem, s.stream, fs[k].pos, y);
      } else {
        RangeSurvives(cap, s.mem, s.stream, fs[j].pos, fs[j].pos + fs[j].copied, y);
      }
    }
  }

  /** The byte copied next belongs at its stream position's slot. */
  lemma CopyTarget(cap: nat, s: State, f: Flight, g: Flight) returns (y: nat)
    requires cap > 0 && FlightInv(cap, f, s.stream, s.ended) && f.copied < |f.msg|
    requires |s.released| <= s.ended && s.Outstanding() <= cap
    requires g == f.(copied := f.copied + 1)
    ensures y == f.pos + f.copied < |s.stream| && s.ended <= y
    ensures SliceIndex(cap, f.start, |f.msg|, f.copied) == Wrap(cap, y)
    ensures f.msg[f.copied] == s.stream[y]
    ensures FlightInv(cap, g, s.stream, s.ended)
  {
    y := f.pos + f.copied;
    SliceIndexWraps(cap, f.pos, |f.msg|, f.copied);
    assert s.stream[f.pos..f.pos + |f.msg|][f.copied] == s.stream[y];
  }

  lemma FlightsReplaced(cap: nat, fs: seq<Flight>, k: nat, g: Flight, stream: seq<Byte>, ended: nat)
    requires cap > 0 && k < |fs| && FlightsInv(cap, fs, stream, ended) && FlightInv(cap, g, stream, ended)
    ensures FlightsInv(cap, fs[k := g], stream, ended)
  {
    hide FlightInv;
  }

  lemma FlightAt(cap: nat, s: State, k: nat)
    requires cap > 0 && Inv(cap, s) && k < |s.flights|
    ensures FlightInv(cap, s.flights[k], s.stream, s.ended)
  {
    hide FlightInv;
  }

  lemma KeepsCopy(cap: nat, s: State, k: nat)
    requires cap > 0 && Inv(cap, s) && s.Outstanding() <= cap
    ensures Inv(cap, StepCopy(cap, s, k))
  {
    hide FlightInv, FlightsInv, RangeHolds, FlightsHold, Tiled, ConsumerInv, Concat, CallsInv, CountInv;
    if k < |s.flights| && s.flights[k].copied < |s.flights[k].msg| {
      var f := s.flights[k];
      var g := f.(copied := f.copied + 1);
      FlightAt(cap, s, k);
      SameReservation(f, g);
      var y := CopyTarget(cap, s, f, g);
      RangeSurvives(cap, s.mem, s.stream, |s.released|, s.ended, y);
      CopyFlights(cap, s, k, g, y);
      FlightsReplaced(cap, s.flights, k, g, s.stream, s.ended);
      TiledUpdate(s.flights, s.ended, |s.stream|, k, g);
    }
  }

  lemma SameReservation(f: Flight, g: Flight)
    requires g == f.(copied := f.copied + 1)
    ensures g.pos == f.pos && g.msg == f.msg
  {
  }

  /** The ticket: a reservation starts at the end index exactly when it is the oldest. */
  lemma TurnIsFirst(cap: nat, s: State, k: nat)
    requires cap > 0 && Inv(cap, s) && s.Outstanding() <= cap && k < |s.flights|
    ensures s.flights[k].start == s.end <==> k == 0
    ensures s.flights[k].pos == s.ended <==> k == 0
  {
    var f := s.flights[k];
    assert FlightInv(cap, f, s.stream, s.ended);
    assert s.flights[0].pos == s.ended && |s.flights[0].msg| > 0;
    TiledBounds(s.flights, s.ended, |s.stream|, k);
    if k > 0 {
      WrapApart(cap, s.ended, f.pos);
    }
  }

  lemma KeepsTurn(cap: nat, s: State, k: nat)
    requires cap > 0 && Inv(cap, s) && s.Outstanding() <= cap
    ensures Inv(cap, StepTurn(s, k))
  {
    if k < |s.flights| && s.flights[k].copied == |s.flights[k].msg| && s.flights[k].start == s.end {
      var f := s.flights[k].(turn := true);
      TurnIsFirst(cap, s, k);
      assert FlightInv(cap, s.flights[k], s.stream, s.ended);
      assert FlightInv(cap, f, s.stream, s.ended);
      TiledUpdate(s.flights, s.ended, |s.stream|, k, f);
      assert FlightsHold(cap, s.mem, s.stream, s.flights[k := f]);
    }
  }

  lemma {:induction false} SumLenAppend(ms: seq<seq<Byte>>, m: seq<Byte>)
    ensures SumLen(ms + [m]) == SumLen(ms) + |m|
  {
    if ms == [] {
      assert ms + [m] == [m];
    } else {
      assert (ms + [m])[1..] == ms[1..] + [m];
      SumLenAppend(ms[1..], m);
    }
  }

  lemma {:induction false} SumLenWithout(ms: seq<seq<Byte>>, j: nat)
    requires j < |ms|
    ensures SumLen(Without(ms, j)) == SumLen(ms) - |ms[j]|
  {
    if j == 0 {
      assert Without(ms, 0) == ms[1..];
    } else {
      assert Without(ms, j)[1..] == Without(ms[1..], j - 1);
      SumLenWithout(ms[1..], j - 1);
    }
  }

  lemma EndFlights(cap: nat, s: State)
    requires cap > 0 && s.flights != [] && FlightsInv(cap, s.flights, s.stream, s.ended)
    requires Tiled(s.flights, s.ended, |s.stream|) && FlightsHold(cap, s.mem, s.stream, s.flights)
    ensures var fs := s.flights[1..]; var e := s.ended + |s.flights[0].msg|;
      FlightsInv(cap, fs, s.stream, e) && FlightsHold(cap, s.mem, s.stream, fs) && e <= |s.stream|
  {
    var fs := s.flights[1..];
    var e := s.ended + |s.flights[0].msg|;
    TiledBounds(s.flights, s.ended, |s.stream|, 0);
    forall k | 0 <= k < |fs| ensures FlightInv(cap, fs[k], s.stream, e) {
      assert FlightInv(cap, s.flights[k + 1], s.stream, s.ended);
      TiledBounds(s.flights, s.ended, |s.stream|, k + 1);
    }
  }

  lemma KeepsEnd(cap: nat, s: State, k: nat)
    requires cap > 0 && Inv(cap, s) && s.Outstanding() <= cap
    ensures Inv(cap, StepEnd(s, k))
  {
    if k < |s.flights| && s.flights[k].turn {
      var f := s.flights[k];
      assert FlightInv(cap, f, s.stream, s.ended);
      TurnIsFirst(cap, s, k);
      assert Without(s.flights, 0) == s.flights[1..];
      SumLenAppend(s.adding, f.msg);
      EndFlights(cap, s);
      assert RangeHolds(cap, s.mem, s.stream, f.pos, f.pos + f.copied);
    }
  }

  lemma KeepsAdd(cap: nat, s: State, j: nat)
    requires cap > 0 && Inv(cap, s)
    ensures Inv(cap, StepAdd(s, j))
  {
    if j < |s.adding| {
      SumLenWithout(s.adding, j);
      ModAtMost(|s.adding[j]|);
    }
  }

  lemma ModAtMost(n: nat)
    ensures n % UINT32 <= n
    ensures n < UINT32 ==> n % UINT32 == n
  {
  }

  // ---- Consumer steps

  lemma KeepsRead(cap: nat, s: State)
    requires cap > 0 && Inv(cap, s) && s.Outstanding() <= cap
    ensures Inv(cap, StepRead(cap, s))
  {
    hide FlightInv, FlightsInv, FlightsHold, Tiled, Concat, CallsInv, SumLen, Wrap, SliceIndex;
    if s.consumer.Reading? && |s.consumer.seen| < s.consumer.n {
      var b, k := |s.released|, |s.consumer.seen|;
      SliceIndexWraps(cap, b, s.consumer.n, k);
      assert SlotHolds(cap, s.mem, s.stream, b + k);
      assert s.stream[b..b + k + 1] == s.stream[b..b + k] + [s.stream[b + k]];
    }
  }

  lemma KeepsSub(cap: nat, s: State)
    requires cap > 0 && Inv(cap, s)
    ensures Inv(cap, StepSub(cap, s))
  {
    if s.consumer.SawBegin? {
      var b, w := |s.released|, |s.consumer.out|;
      assert s.stream[..b + w] == s.stream[..b] + s.stream[b..b + w];
      WrapAdd(cap, b, w);
      assert RangeHolds(cap, s.mem, s.stream, b + w, s.ended);
    }
  }

  lemma KeepsCheck(cap: nat, s: State, w: nat)
    requires cap > 0 && Inv(cap, s)
    ensures Inv(cap, StepCheckReaded(s, w))
  {
    if s.consumer.Reading? && w <= |s.consumer.seen| {
      var b := |s.released|;
      assert s.stream[b..b + |s.consumer.seen|][..w] == s.stream[b..b + w];
    }
  }

  lemma KeepsLoads(cap: nat, s: State, a: Action)
    requires cap > 0 && Inv(cap, s)
    requires a.PeekData? || a.PeekBegin? || a.LoadBegin? || a.StoreBegin?
    ensures Inv(cap, Step(cap, s, a))
  {
    hide FlightInv, FlightsInv, RangeHolds, FlightsHold, Tiled, Concat, CallsInv, SumLen, Wrap;
  }

  // ---- Runs

  /** The invariant is inductive under the capacity premise. */
  lemma StepKeepsInv(cap: nat, s: State, a: Action)
    requires cap > 0 && Inv(cap, s) && s.Outstanding() <= cap
    ensures Inv(cap, Step(cap, s, a))
  {
    match a
    case StartWrite(msg) => KeepsStart(cap, s, msg);
    case LoadIndex(_) => KeepsCalls(cap, s, a);
    case Cas(i) => KeepsCas(cap, s, i);
    case Recheck(_) => KeepsCalls(cap, s, a);
    case CopyByte(k) => KeepsCopy(cap, s, k);
    case TakeTurn(k) => KeepsTurn(cap, s, k);
    case StoreEnd(k) => KeepsEnd(cap, s, k);
    case AddData(j) => KeepsAdd(cap, s, j);
    case ReadByte => KeepsRead(cap, s);
    case SubData => KeepsSub(cap, s);
    case CheckReaded(w) => KeepsCheck(cap, s, w);
    case _ => KeepsLoads(cap, s, a);
  }

  lemma {:induction false} ExecKeepsInv(cap: nat, s: State, acts: seq<Action>)
    requires cap > 0 && Inv(cap, s) && WithinCapacity(cap, s, acts)
    ensures Inv(cap, Exec(cap, s, acts))
    ensures Exec(cap, s, acts).Outstanding() <= cap
    decreases |acts|
  {
    if acts != [] {
      StepKeepsInv(cap, s, acts[0]);
      ExecKeepsInv(cap, Step(cap, s, acts[0]), acts[1..]);
    }
  }
}
