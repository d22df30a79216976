/** How many producers, and which messages, keep the ring within its capacity. */
module RingProducers {
  import opened Machine
  import opened RingIndex
  import opened RingSystem
  import opened RingInvariant
  import opened RingTheorems

  ghost predicate FirstInFirstOut(s: State) {
    s.released <= Concat(s.accepted)
  }

  // ---- One producer

  function Active(s: State): nat {
    |s.calls| + |s.flights| + |s.adding|
  }

  /** At most `p` calls of `Write` at a time; when `short` is set, of messages
      whose length fits the 32-bit addend. */
  ghost predicate Producers(cap: nat, s: State, acts: seq<Action>, p: nat, short: bool)
    requires cap > 0
    decreases |acts|
  {
    acts != [] ==>
      && (acts[0].StartWrite? ==> Active(s) < p && (short ==> |acts[0].msg| < UINT32))
      && Producers(cap, Step(cap, s, acts[0]), acts[1..], p, short)
  }

  ghost predicate ShortMessages(s: State) {
    && (forall i :: 0 <= i < |s.calls| ==> |s.calls[i].msg| < UINT32)
    && (forall k :: 0 <= k < |s.flights| ==> |s.flights[k].msg| < UINT32)
    && (forall j :: 0 <= j < |s.adding| ==> |s.adding[j]| < UINT32)
  }

  ghost predicate SoloInv(cap: nat, s: State) {
    && Active(s) <= 1 && ShortMessages(s)
    && s.Outstanding() <= cap
    && s.data + SumLen(s.adding) == s.ended - |s.released|
    && (s.calls != [] ==>
          && s.Outstanding() + |s.calls[0].msg| <= cap
          && !s.calls[0].Failed?
          && (s.calls[0].Loaded? ==> s.calls[0].expected == s.writable))
  }

  lemma SoloStart(cap: nat, s: State, msg: seq<Byte>)
    requires cap > 0 && Inv(cap, s) && SoloInv(cap, s) && Active(s) == 0 && (cap < UINT32 || |msg| < UINT32)
    ensures SoloInv(cap, StepStart(cap, s, msg))
  {
    hide FlightsInv, RangeHolds, FlightsHold, ConsumerInv, Concat, Wrap;
  }

  lemma SoloCall(cap: nat, s: State, a: Action)
    requires cap > 0 && Inv(cap, s) && SoloInv(cap, s)
    requires a.LoadIndex? || a.Cas? || a.Recheck?
    ensures SoloInv(cap, Step(cap, s, a))
  {
    hide FlightsInv, Tiled, RangeHolds, FlightsHold, ConsumerInv, Concat, Wrap;
    if s.calls != [] {
      assert s.flights == [] && s.adding == [];
    }
    if a.Cas? && a.i < |s.calls| {
      assert Without(s.calls, a.i) == [];
    }
  }

  lemma SoloFlight(cap: nat, s: State, a: Action)
    requires cap > 0 && Inv(cap, s) && SoloInv(cap, s)
    requires a.CopyByte? || a.TakeTurn?
    ensures SoloInv(cap, Step(cap, s, a))
  {
    hide FlightsInv, Tiled, RangeHolds, FlightsHold, ConsumerInv, Concat, Wrap, SliceIndex;
  }

  lemma SoloEnd(cap: nat, s: State, k: nat)
    requires cap > 0 && Inv(cap, s) && SoloInv(cap, s)
    ensures SoloInv(cap, StepEnd(s, k))
  {
    if k < |s.flights| && s.flights[k].turn {
      FlightAt(cap, s, k);
      SumLenAppend(s.adding, s.flights[k].msg);
    }
    hide FlightsInv, Tiled, RangeHolds, FlightsHold, ConsumerInv, Concat, Wrap, SumLen;
  }

  lemma SoloAdd(cap: nat, s: State, j: nat)
    requires cap > 0 && Inv(cap, s) && SoloInv(cap, s)
    ensures SoloInv(cap, StepAdd(s, j))
  {
    hide FlightInv, FlightsInv, Tiled, RangeHolds, FlightsHold, ConsumerInv, Concat, Wrap, SumLen;
    if j < |s.adding| {
      SumLenWithout(s.adding, j);
      ModAtMost(|s.adding[j]|);
    }
  }

  lemma SoloConsumerStep(cap: nat, s: State, a: Action)
    requires cap > 0 && Inv(cap, s) && SoloInv(cap, s)
    requires a.PeekData? || a.PeekBegin? || a.ReadByte? || a.CheckReaded? || a.LoadBegin? || a.SubData? || a.StoreBegin?
    ensures SoloInv(cap, Step(cap, s, a))
  {
  }

  lemma {:induction false} SoloRun(cap: nat, s: State, acts: seq<Action>, p: nat, short: bool)
    requires cap > 0 && Inv(cap, s) && SoloInv(cap, s) && Producers(cap, s, acts, p, short)
    requires p == 0 || (p == 1 && (short || cap < UINT32))
    ensures WithinCapacity(cap, s, acts)
    decreases |acts|
  {
    hide Inv, SoloInv, Step;
    SoloOutstanding(cap, s);
    if acts != [] {
      var a := acts[0];
      StepKeepsInv(cap, s, a);
      SoloStep(cap, s, a);
      SoloRun(cap, Step(cap, s, a), acts[1..], p, short);
    }
  }

  lemma SoloOutstanding(cap: nat, s: State)
    requires SoloInv(cap, s)
    ensures s.Outstanding() <= cap
  {
  }

  lemma SoloStep(cap: nat, s: State, a: Action)
    requires cap > 0 && Inv(cap, s) && SoloInv(cap, s)
    requires a.StartWrite? ==> Active(s) == 0 && (cap < UINT32 || |a.msg| < UINT32)
    ensures SoloInv(cap, Step(cap, s, a))
  {
    hide Inv, SoloInv;
    if a.StoreEnd? {
      SoloEnd(cap, s, a.k);
    } else if a.AddData? {
      SoloAdd(cap, s, a.j);
    } else if a.StartWrite? {
      SoloStart(cap, s, a.msg);
    } else if a.LoadIndex? || a.Cas? || a.Recheck? {
      SoloCall(cap, s, a);
    } else if a.CopyByte? || a.TakeTurn? {
      SoloFlight(cap, s, a);
    } else {
      SoloConsumerStep(cap, s, a);
    }
  }

  /** With one producer the capacity premise is not an assumption: it follows
      from the free-space test at the head of `Write`, when the lengths of the
      messages fit the 32-bit addend or the ring is too small for others. */
  lemma OneProducerStaysWithinCapacity(cap: nat, mem: seq<Byte>, acts: seq<Action>, p: nat, short: bool)
    requires cap > 0 && |mem| == cap && Producers(cap, Init(mem), acts, p, short)
    requires p == 0 || (p == 1 && (short || cap < UINT32))
    ensures WithinCapacity(cap, Init(mem), acts)
    ensures FirstInFirstOut(Exec(cap, Init(mem), acts))
  {
    InitInv(cap, mem);
    SoloRun(cap, Init(mem), acts, p, short);
    Fifo(cap, mem, acts, Exec(cap, Init(mem), acts));
  }

  // ---- Runs put together

  /** One run after another. */
  lemma {:induction false} Concatenated(cap: nat, s: State, a: seq<Action>, b: seq<Action>, p: nat, short: bool)
    requires cap > 0
    ensures Exec(cap, s, a + b) == Exec(cap, Exec(cap, s, a), b)
    ensures Producers(cap, s, a, p, short) && Producers(cap, Exec(cap, s, a), b, p, short) ==>
      Producers(cap, s, a + b, p, short)
    ensures WithinCapacity(cap, s, a + b) ==> Exec(cap, s, a).Outstanding() <= cap
    decreases |a|
  {
    hide Step;
    if a == [] {
      assert a + b == b;
    } else {
      assert (a + b)[1..] == a[1..] + b;
      Concatenated(cap, Step(cap, s, a[0]), a[1..], b, p, short);
    }
  }

  lemma {:induction false} OthersAreFree(cap: nat, s: State, acts: seq<Action>, p: nat, short: bool)
    requires cap > 0 && forall i :: 0 <= i < |acts| ==> !acts[i].StartWrite?
    ensures Producers(cap, s, acts, p, short)
    decreases |acts|
  {
    hide Step;
    if acts != [] {
      OthersAreFree(cap, Step(cap, s, acts[0]), acts[1..], p, short);
    }
  }

  lemma {:induction false} OwnStepsStartNothing(left: nat)
    ensures forall i :: 0 <= i < |OwnSteps(left)| ==> !OwnSteps(left)[i].StartWrite?
  {
    if left > 0 { OwnStepsStartNothing(left - 1); }
  }

  lemma First(cap: nat, s: State, a: Action, rest: seq<Action>)
    requires cap > 0
    ensures Exec(cap, s, [a] + rest) == Exec(cap, Step(cap, s, a), rest)
  {
    hide Step;
    assert ([a] + rest)[1..] == rest;
  }

  // ---- A whole write with no other call about

  /** No call is in progress and nothing has been released. */
  ghost predicate Quiet(cap: nat, s: State)
    requires cap > 0
  {
    && |s.mem| == cap && s.begin == 0 && s.released == [] && s.consumer == Resting
    && s.calls == [] && s.flights == [] && s.adding == []
    && s.writable == s.end == Wrap(cap, |s.stream|) && s.ended == |s.stream|
    && s.stream == Concat(s.accepted)
  }

  ghost predicate CopiedUpTo(cap: nat, mem: seq<Byte>, f: Flight)
    requires cap > 0
  {
    |mem| == cap && f.copied <= |f.msg| && forall k :: 0 <= k < f.copied ==> mem[Wrap(cap, f.pos + k)] == f.msg[k]
  }

  lemma CopyOne(cap: nat, mem: seq<Byte>, f: Flight)
    requires cap > 0 && CopiedUpTo(cap, mem, f) && f.copied < |f.msg| <= cap
    ensures CopiedUpTo(cap, mem[Wrap(cap, f.pos + f.copied) := f.msg[f.copied]], f.(copied := f.copied + 1))
  {
    var next := mem[Wrap(cap, f.pos + f.copied) := f.msg[f.copied]];
    forall k | 0 <= k <= f.copied ensures next[Wrap(cap, f.pos + k)] == f.msg[k] {
      if k < f.copied { WrapApart(cap, f.pos + k, f.pos + f.copied); }
    }
  }

  lemma CommitOnly(cap: nat, s: State, f: Flight)
    requires cap > 0 && s.flights == [f] && f.copied == |f.msg| && !f.turn && f.start == s.end
    ensures Exec(cap, s, OwnSteps(0)) ==
      s.(flights := [], end := f.next, ended := f.pos + |f.msg|, adding := s.adding + [f.msg])
  {
    var t := s.(flights := [f.(turn := true)]);
    assert Step(cap, s, TakeTurn(0)) == t;
    assert Without(t.flights, 0) == [];
    var u := s.(flights := [], end := f.next, ended := f.pos + |f.msg|, adding := s.adding + [f.msg]);
    assert Step(cap, t, StoreEnd(0)) == u;
    assert OwnSteps(0) == [TakeTurn(0)] + [StoreEnd(0)];
    hide Step;
    First(cap, s, TakeTurn(0), [StoreEnd(0)]);
    Last(cap, t, StoreEnd(0));
  }

  lemma CopyIs(cap: nat, s: State, f: Flight)
    requires cap > 0 && s.flights == [f] && f.copied < |f.msg| <= cap == |s.mem| && f.start == Wrap(cap, f.pos)
    ensures Step(cap, s, CopyByte(0)) ==
      s.(mem := s.mem[Wrap(cap, f.pos + f.copied) := f.msg[f.copied]], flights := [f.(copied := f.copied + 1)])
  {
    SliceIndexWraps(cap, f.pos, |f.msg|, f.copied);
  }

  /** The only reservation in flight runs to its end. */
  lemma {:induction false} CopyAll(cap: nat, s: State, f: Flight, left: nat)
    requires cap > 0 && s.flights == [f] && f.copied + left == |f.msg| <= cap && !f.turn
    requires f.start == Wrap(cap, f.pos) == s.end && CopiedUpTo(cap, s.mem, f)
    ensures var t := Exec(cap, s, OwnSteps(left));
      && t == s.(mem := t.mem, flights := [], end := f.next, ended := f.pos + |f.msg|, adding := s.adding + [f.msg])
      && CopiedUpTo(cap, t.mem, f.(copied := |f.msg|))
    decreases left
  {
    if left == 0 {
      hide Step, CopiedUpTo, Wrap;
      CommitOnly(cap, s, f);
    } else {
      CopyIs(cap, s, f);
      CopyOne(cap, s.mem, f);
      assert OwnSteps(left) == [CopyByte(0)] + OwnSteps(left - 1);
      hide Step, CopiedUpTo, Wrap, OwnSteps;
      First(cap, s, CopyByte(0), OwnSteps(left - 1));
      CopyAll(cap, Step(cap, s, CopyByte(0)), f.(copied := f.copied + 1), left - 1);
    }
  }

  function Reserve(msg: seq<Byte>): seq<Action> {
    [StartWrite(msg)] + ([LoadIndex(0)] + [Cas(0)])
  }

  function WriteRun(msg: seq<Byte>): seq<Action> {
    Reserve(msg) + (OwnSteps(|msg|) + [AddData(0)])
  }

  lemma StartIs(cap: nat, s: State, msg: seq<Byte>)
    requires cap > 0 && 0 < |msg| <= FreeBytes(cap, s.data)
    ensures Step(cap, s, StartWrite(msg)) == s.(calls := s.calls + [Checked(msg)])
  {
  }

  lemma LoadIs(cap: nat, s: State, msg: seq<Byte>, rest: seq<Call>)
    requires cap > 0 && s.calls == [Checked(msg)] + rest
    ensures Step(cap, s, LoadIndex(0)) == s.(calls := [Loaded(msg, s.writable)] + rest)
  {
  }

  lemma CasIs(cap: nat, s: State, msg: seq<Byte>, rest: seq<Call>)
    requires cap > 0 && s.calls == [Loaded(msg, s.writable)] + rest
    ensures var next := Wrap(cap, s.writable + |msg|);
      Step(cap, s, Cas(0)) ==
        s.(writable := next, calls := rest, accepted := s.accepted + [msg], stream := s.stream + msg,
           flights := s.flights + [Flight(msg, s.writable, next, |s.stream|, 0, false)])
  {
    assert Without(s.calls, 0) == rest;
  }

  lemma QuietReserve(cap: nat, s: State, msg: seq<Byte>)
    requires cap > 0 && Quiet(cap, s) && 0 < |msg| <= cap && |msg| <= FreeBytes(cap, s.data)
    ensures var n := |s.stream|;
      Exec(cap, s, Reserve(msg)) ==
        s.(writable := Wrap(cap, n + |msg|), accepted := s.accepted + [msg], stream := s.stream + msg,
           flights := [Flight(msg, Wrap(cap, n), Wrap(cap, n + |msg|), n, 0, false)])
  {
    WrapAdd(cap, |s.stream|, |msg|);
    hide Step, Wrap, FreeBytes, Concat;
    StartIs(cap, s, msg);
    First(cap, s, StartWrite(msg), [LoadIndex(0)] + [Cas(0)]);
    var t := s.(calls := [Checked(msg)]);
    LoadIs(cap, t, msg, []);
    First(cap, t, LoadIndex(0), [Cas(0)]);
    var u := s.(calls := [Loaded(msg, s.writable)]);
    CasIs(cap, u, msg, []);
    Last(cap, u, Cas(0));
  }

  lemma Last(cap: nat, s: State, a: Action)
    requires cap > 0
    ensures Exec(cap, s, [a]) == Step(cap, s, a)
  {
    hide Step;
    assert [a][1..] == [];
  }

  /** A message written into a quiet ring: appended to the stream, stored in its
      slots, and counted by its length modulo 2^32. */
  lemma QuietWrite(cap: nat, s: State, msg: seq<Byte>)
    requires cap > 0 && Quiet(cap, s) && 0 < |msg| <= cap && |msg| <= FreeBytes(cap, s.data)
    ensures var t := Exec(cap, s, WriteRun(msg));
      && Quiet(cap, t) && t.stream == s.stream + msg && t.data == s.data + |msg| % UINT32
      && forall k :: 0 <= k < |msg| ==> t.mem[Wrap(cap, |s.stream| + k)] == msg[k]
  {
    hide Step, StepCas, StepStart, OwnSteps;
    var f := Flight(msg, Wrap(cap, |s.stream|), Wrap(cap, |s.stream| + |msg|), |s.stream|, 0, false);
    var t := Exec(cap, s, Reserve(msg));
    QuietReserve(cap, s, msg);
    Concatenated(cap, s, Reserve(msg), OwnSteps(|msg|) + [AddData(0)], 1, false);
    Concatenated(cap, t, OwnSteps(|msg|), [AddData(0)], 1, false);
    CopyAll(cap, t, f, |msg|);
    var u := Exec(cap, t, OwnSteps(|msg|));
    assert [AddData(0)] == [AddData(0)] + [];
    First(cap, u, AddData(0), []);
    AddOnly(cap, u, msg);
    assert (s.accepted + [msg])[..|s.accepted|] == s.accepted;
  }

  lemma AddOnly(cap: nat, s: State, msg: seq<Byte>)
    requires cap > 0 && s.adding == [msg]
    ensures Step(cap, s, AddData(0)) == s.(data := s.data + |msg| % UINT32, adding := [])
  {
    assert Without([msg], 0) == [];
  }

  /** Such a write needs one producer. */
  lemma QuietWriteIsFree(cap: nat, s: State, msg: seq<Byte>, p: nat, short: bool)
    requires cap > 0 && Quiet(cap, s) && p > 0 && (short ==> |msg| < UINT32)
    ensures Producers(cap, s, WriteRun(msg), p, short)
  {
    hide Step;
    var acts := WriteRun(msg);
    OwnStepsStartNothing(|msg|);
    var rest := [LoadIndex(0)] + [Cas(0)] + (OwnSteps(|msg|) + [AddData(0)]);
    assert acts == [StartWrite(msg)] + rest;
    assert acts[1..] == rest;
    OthersAreFree(cap, Step(cap, s, acts[0]), rest, p, short);
  }

  // ---- Two producers

  function FillRun(n: nat): seq<Action> {
    if n == 0 then [] else FillRun(n - 1) + WriteRun([1])
  }

  /** One producer fills the ring up to its last byte. */
  lemma {:induction false} Filled(cap: nat, mem: seq<Byte>, n: nat, p: nat, short: bool)
    requires |mem| == cap && n < cap && p > 0
    ensures var s := Exec(cap, Init(mem), FillRun(n));
      && Quiet(cap, s) && s.data == n == |s.stream| && (n > 0 ==> s.stream[0] == 1)
      && Producers(cap, Init(mem), FillRun(n), p, short)
  {
    hide Step, WriteRun, Quiet, Exec, Producers, Init;
    if n == 0 {
      NothingFilled(cap, mem, p, short);
    } else {
      Filled(cap, mem, n - 1, p, short);
      var s := Exec(cap, Init(mem), FillRun(n - 1));
      QuietWrite(cap, s, [1]);
      QuietWriteIsFree(cap, s, [1], p, short);
      Concatenated(cap, Init(mem), FillRun(n - 1), WriteRun([1]), p, short);
    }
  }

  lemma NothingFilled(cap: nat, mem: seq<Byte>, p: nat, short: bool)
    requires |mem| == cap > 0
    ensures Quiet(cap, Init(mem)) && Init(mem).data == 0 && Init(mem).stream == []
    ensures Exec(cap, Init(mem), []) == Init(mem) && Producers(cap, Init(mem), [], p, short)
  {
  }

  function BothReserve(): seq<Action> {
    [StartWrite([1])] + ([StartWrite([2])] + ([LoadIndex(0)] + ([Cas(0)] + ([LoadIndex(0)] + [Cas(0)]))))
  }

  function BothCopy(): seq<Action> {
    [CopyByte(0)] + ([CopyByte(1)] + ([TakeTurn(0)] + ([StoreEnd(0)] + [AddData(0)])))
  }

  function DrainOne(): seq<Action> {
    [PeekData] + ([PeekBegin] + ([ReadByte] + ([CheckReaded(1)] + ([LoadBegin] + [SubData]))))
  }

  /** Two calls that both pass the test for the last free byte reserve two. */
  lemma BothPass(cap: nat, s: State, p: nat, short: bool)
    requires cap > 0 && Quiet(cap, s) && s.data == |s.stream| == cap - 1 && p > 1
    ensures Producers(cap, s, BothReserve(), p, short)
    ensures Exec(cap, s, BothReserve()) == s.(
      writable := Wrap(cap, 1), accepted := s.accepted + [[1]] + [[2]], stream := s.stream + [1] + [2],
      flights := [Flight([1], cap - 1, 0, cap - 1, 0, false), Flight([2], 0, Wrap(cap, 1), cap, 0, false)])
  {
    assert Wrap(cap, cap - 1) == cap - 1 && Wrap(cap, cap) == 0;
    hide Step, Wrap, Concat;
    var rest := [LoadIndex(0)] + ([Cas(0)] + ([LoadIndex(0)] + [Cas(0)]));
    StartIs(cap, s, [1]);
    First(cap, s, StartWrite([1]), [StartWrite([2])] + rest);
    var t := s.(calls := [Checked([1])]);
    StartIs(cap, t, [2]);
    First(cap, t, StartWrite([2]), rest);
    BothBegin(cap, s, t, rest, p, short);
    var u := s.(calls := [Checked([1])] + [Checked([2])]);
    LoadIs(cap, u, [1], [Checked([2])]);
    First(cap, u, LoadIndex(0), [Cas(0)] + ([LoadIndex(0)] + [Cas(0)]));
    var v := u.(calls := [Loaded([1], s.writable)] + [Checked([2])]);
    CasIs(cap, v, [1], [Checked([2])]);
    First(cap, v, Cas(0), [LoadIndex(0)] + [Cas(0)]);
    QuietReserveNext(cap, Step(cap, v, Cas(0)), [2]);
  }

  lemma BothBegin(cap: nat, s: State, t: State, rest: seq<Action>, p: nat, short: bool)
    requires cap > 0 && p > 1 && Active(s) == 0 && t == Step(cap, s, StartWrite([1])) && Active(t) == 1
    requires forall i :: 0 <= i < |rest| ==> !rest[i].StartWrite?
    ensures Producers(cap, s, [StartWrite([1])] + ([StartWrite([2])] + rest), p, short)
  {
    hide Step;
    var (one, two) := ([StartWrite([1])] + ([StartWrite([2])] + rest), [StartWrite([2])] + rest);
    assert one[1..] == two && two[1..] == rest;
    OthersAreFree(cap, Step(cap, t, StartWrite([2])), rest, p, short);
  }

  lemma QuietReserveNext(cap: nat, s: State, msg: seq<Byte>)
    requires cap > 0 && s.calls == [Checked(msg)]
    ensures var next := Wrap(cap, s.writable + |msg|);
      Exec(cap, s, [LoadIndex(0)] + [Cas(0)]) ==
        s.(writable := next, calls := [], accepted := s.accepted + [msg], stream := s.stream + msg,
           flights := s.flights + [Flight(msg, s.writable, next, |s.stream|, 0, false)])
  {
    hide Step, Wrap;
    LoadIs(cap, s, msg, []);
    First(cap, s, LoadIndex(0), [Cas(0)]);
    var t := s.(calls := [Loaded(msg, s.writable)]);
    CasIs(cap, t, msg, []);
    Last(cap, t, Cas(0));
  }

  /** Both copy; the second byte lands on the first of the ring. */
  lemma BothStored(cap: nat, s: State, next: nat)
    requires |s.mem| == cap > 0 && s.end == cap - 1 && s.adding == []
    requires s.flights == [Flight([1], cap - 1, 0, cap - 1, 0, false), Flight([2], 0, next, cap, 0, false)]
    ensures Exec(cap, s, BothCopy()) ==
      s.(mem := s.mem[cap - 1 := 1][0 := 2], flights := [Flight([2], 0, next, cap, 1, false)], end := 0, ended := cap,
         data := s.data + 1)
  {
    var (f, g) := (Flight([1], cap - 1, 0, cap - 1, 1, false), Flight([2], 0, next, cap, 1, false));
    var t := s.(mem := s.mem[cap - 1 := 1], flights := [f, s.flights[1]]);
    assert Step(cap, s, CopyByte(0)) == t;
    var u := s.(mem := s.mem[cap - 1 := 1][0 := 2], flights := [f, g]);
    assert Step(cap, t, CopyByte(1)) == u;
    var v := u.(flights := [f.(turn := true), g]);
    assert Step(cap, u, TakeTurn(0)) == v;
    var w := u.(flights := [g], end := 0, ended := cap, adding := [[1]]);
    assert Without(v.flights, 0) == [g];
    assert Step(cap, v, StoreEnd(0)) == w;
    AddOnly(cap, w, [1]);
    hide Step;
    First(cap, s, CopyByte(0), [CopyByte(1)] + ([TakeTurn(0)] + ([StoreEnd(0)] + [AddData(0)])));
    First(cap, t, CopyByte(1), [TakeTurn(0)] + ([StoreEnd(0)] + [AddData(0)]));
    First(cap, u, TakeTurn(0), [StoreEnd(0)] + [AddData(0)]);
    First(cap, v, StoreEnd(0), [AddData(0)]);
    Last(cap, w, AddData(0));
  }

  lemma OneIsRead(cap: nat, s: State, rest: seq<Action>)
    requires |s.mem| == cap > 0 && s.consumer == Resting && s.begin == 0 && s.data > 0
    ensures Exec(cap, s, [PeekData] + ([PeekBegin] + ([ReadByte] + rest))) ==
      Exec(cap, s.(consumer := Reading(s.data, 0, [s.mem[0]])), rest)
  {
    var t := s.(consumer := SawData(s.data));
    var u := s.(consumer := Reading(s.data, 0, []));
    assert SliceIndex(cap, 0, s.data, 0) == 0 && [] + [s.mem[0]] == [s.mem[0]];
    assert Step(cap, s, PeekData) == t && Step(cap, t, PeekBegin) == u;
    assert Step(cap, u, ReadByte) == s.(consumer := Reading(s.data, 0, [s.mem[0]]));
    hide Step;
    First(cap, s, PeekData, [PeekBegin] + ([ReadByte] + rest));
    First(cap, t, PeekBegin, [ReadByte] + rest);
    First(cap, u, ReadByte, rest);
  }

  /** The consumer reads and releases one byte. */
  lemma OneIsDrained(cap: nat, s: State)
    requires |s.mem| == cap > 0 && s.consumer == Resting && s.begin == 0 && s.data > 0 && s.released == []
    ensures Exec(cap, s, DrainOne()).released == [s.mem[0]]
    ensures Exec(cap, s, DrainOne()).accepted == s.accepted
  {
    var v := s.(consumer := Reading(s.data, 0, [s.mem[0]]));
    var w := s.(consumer := Releasing([s.mem[0]]));
    var x := s.(consumer := SawBegin([s.mem[0]], 0));
    assert [s.mem[0]][..1] == [s.mem[0]] && [] + [s.mem[0]] == [s.mem[0]];
    assert Step(cap, v, CheckReaded(1)) == w && Step(cap, w, LoadBegin) == x;
    assert Step(cap, x, SubData).released == [s.mem[0]] && Step(cap, x, SubData).accepted == s.accepted;
    hide Step;
    OneIsRead(cap, s, [CheckReaded(1)] + ([LoadBegin] + [SubData]));
    First(cap, v, CheckReaded(1), [LoadBegin] + [SubData]);
    First(cap, w, LoadBegin, [SubData]);
    Last(cap, x, SubData);
  }

  /** A run that leaves the capacity at its prefix `a`, and has then released a
      byte that is not the first one accepted. */
  lemma Lost(cap: nat, mem: seq<Byte>, a: seq<Action>, b: seq<Action>, p: nat, short: bool)
    requires |mem| == cap > 0 && Producers(cap, Init(mem), a, p, short)
    requires var s := Exec(cap, Init(mem), a);
      Producers(cap, s, b, p, short) && s.Outstanding() > cap && !FirstInFirstOut(Exec(cap, s, b))
    ensures Loses(cap, mem, a + b, p, short)
  {
    hide Producers, Exec, WithinCapacity, FirstInFirstOut;
    Concatenated(cap, Init(mem), a, b, p, short);
  }

  /** The run leaves the capacity and loses the order of the bytes. */
  ghost predicate Loses(cap: nat, mem: seq<Byte>, acts: seq<Action>, p: nat, short: bool)
    requires cap > 0
  {
    && Producers(cap, Init(mem), acts, p, short)
    && !WithinCapacity(cap, Init(mem), acts)
    && !FirstInFirstOut(Exec(cap, Init(mem), acts))
  }

  lemma WrongFirst(s: State, x: Byte)
    requires s.released == [x] && Concat(s.accepted) != [] && Concat(s.accepted)[0] != x
    ensures !FirstInFirstOut(s)
  {
  }

  lemma StreamOfTwo(s: State)
    ensures Concat(s.accepted + [[1]] + [[2]]) == Concat(s.accepted) + [1] + [2]
  {
    var m := s.accepted + [[1]];
    assert (m + [[2]])[..|m|] == m && m[..|s.accepted|] == s.accepted;
  }

  /** After the two reservations the run cannot but lose the order. */
  lemma OverReserved(cap: nat, s: State, t: State)
    requires cap > 0 && Quiet(cap, s) && s.data == |s.stream| == cap - 1 && (cap > 1 ==> s.stream[0] == 1)
    requires t == s.(
      writable := Wrap(cap, 1), accepted := s.accepted + [[1]] + [[2]], stream := s.stream + [1] + [2],
      flights := [Flight([1], cap - 1, 0, cap - 1, 0, false), Flight([2], 0, Wrap(cap, 1), cap, 0, false)])
    ensures t.Outstanding() > cap && !FirstInFirstOut(Exec(cap, t, BothCopy() + DrainOne()))
  {
    StreamOfTwo(s);
    assert Wrap(cap, cap - 1) == cap - 1;
    hide Step, Exec, Wrap, Concat, FirstInFirstOut;
    BothStored(cap, t, Wrap(cap, 1));
    var u := Exec(cap, t, BothCopy());
    Concatenated(cap, t, BothCopy(), DrainOne(), 1, false);
    OneIsDrained(cap, u);
    WrongFirst(Exec(cap, u, DrainOne()), 2);
  }

  /** In a ring of any capacity two producers of one-byte messages can reserve
      more than fits, and the byte released first is then not the first accepted. */
  lemma TwoProducersCanOverReserve(cap: nat, mem: seq<Byte>, p: nat, short: bool) returns (acts: seq<Action>)
    requires |mem| == cap > 0 && p > 1
    ensures Loses(cap, mem, acts, p, short)
  {
    hide Step, Exec, Producers, WithinCapacity, Concat, FirstInFirstOut, FillRun, Quiet;
    var fill := FillRun(cap - 1);
    Filled(cap, mem, cap - 1, p, short);
    var s := Exec(cap, Init(mem), fill);
    BothPass(cap, s, p, short);
    var t := Exec(cap, s, BothReserve());
    Concatenated(cap, Init(mem), fill, BothReserve(), p, short);
    acts := BothCopy() + DrainOne();
    OverReserved(cap, s, t);
    OthersAreFree(cap, t, acts, p, short);
    Lost(cap, mem, fill + BothReserve(), acts, p, short);
    acts := fill + BothReserve() + acts;
  }

  // ---- Messages of 2^32 bytes

  /** In a ring that has room for a message of 2^32 bytes one producer is enough:
      the counter does not see such a message. */
  lemma LongMessagesOverReserve(cap: nat, mem: seq<Byte>, p: nat) returns (acts: seq<Action>)
    requires |mem| == cap >= UINT32 && p > 0
    ensures Loses(cap, mem, acts, p, false)
  {
    hide Step, Exec, Producers, WithinCapacity, Concat, FirstInFirstOut, Quiet, WriteRun;
    var m1: seq<Byte> := seq(UINT32, _ => 1);
    var n2 := if (cap + 1) % UINT32 == 0 then cap - UINT32 + 2 else cap - UINT32 + 1;
    var m2: seq<Byte> := seq(n2, _ => 2);
    NothingFilled(cap, mem, p, false);
    QuietWrite(cap, Init(mem), m1);
    QuietWriteIsFree(cap, Init(mem), m1, p, false);
    var s := Exec(cap, Init(mem), WriteRun(m1));
    QuietWrite(cap, s, m2);
    QuietWriteIsFree(cap, s, m2, p, false);
    Concatenated(cap, Init(mem), WriteRun(m1), WriteRun(m2), p, false);
    var t := Exec(cap, s, WriteRun(m2));
    LongOverReserved(cap, s, t, m2);
    OthersAreFree(cap, t, DrainOne(), p, false);
    Lost(cap, mem, WriteRun(m1) + WriteRun(m2), DrainOne(), p, false);
    acts := WriteRun(m1) + WriteRun(m2) + DrainOne();
  }

  lemma LongOverReserved(cap: nat, s: State, t: State, m2: seq<Byte>)
    requires cap >= UINT32 && Quiet(cap, t) && |s.stream| == UINT32 && s.stream[0] == 1 && t.stream == s.stream + m2
    requires |m2| > cap - UINT32 && |m2| % UINT32 != 0 && t.data == |m2| % UINT32
    requires forall k :: 0 <= k < |m2| ==> t.mem[Wrap(cap, UINT32 + k)] == m2[k] == 2
    ensures t.Outstanding() > cap && !FirstInFirstOut(Exec(cap, t, DrainOne()))
  {
    var k := cap - UINT32;
    assert Wrap(cap, UINT32 + k) == 0 && t.mem[Wrap(cap, UINT32 + k)] == m2[k];
    hide Step, Exec, Wrap, Concat, FirstInFirstOut;
    assert t.mem[0] == 2;
    OneIsDrained(cap, t);
    WrongFirst(Exec(cap, t, DrainOne()), 2);
  }

  // ---- The exact condition

  lemma OverReserving(cap: nat, mem: seq<Byte>, p: nat, short: bool) returns (acts: seq<Action>)
    requires |mem| == cap > 0 && !(p == 0 || (p == 1 && (short || cap < UINT32)))
    ensures Loses(cap, mem, acts, p, short)
  {
    hide Loses;
    if p > 1 {
      acts := TwoProducersCanOverReserve(cap, mem, p, short);
    } else {
      acts := LongMessagesOverReserve(cap, mem, p);
    }
  }

  ghost predicate StaysWithin(cap: nat, mem: seq<Byte>, acts: seq<Action>, p: nat, short: bool)
    requires cap > 0
  {
    Producers(cap, Init(mem), acts, p, short) ==> WithinCapacity(cap, Init(mem), acts)
  }

  ghost predicate StaysInOrder(cap: nat, mem: seq<Byte>, acts: seq<Action>, p: nat, short: bool)
    requires cap > 0
  {
    Producers(cap, Init(mem), acts, p, short) ==> FirstInFirstOut(Exec(cap, Init(mem), acts))
  }

  /** Every run of at most `p` producers stays within the capacity, and every
      such run is first in, first out, exactly when there is at most one producer
      and its messages, or the ring, are shorter than 2^32 bytes. */
  lemma WithinCapacityIff(cap: nat, mem: seq<Byte>, p: nat, short: bool)
    requires |mem| == cap > 0
    ensures (forall acts :: StaysWithin(cap, mem, acts, p, short)) <==>
            p == 0 || (p == 1 && (short || cap < UINT32))
    ensures (forall acts :: StaysInOrder(cap, mem, acts, p, short)) <==>
            p == 0 || (p == 1 && (short || cap < UINT32))
  {
    hide Producers, WithinCapacity, Exec, FirstInFirstOut;
    if p == 0 || (p == 1 && (short || cap < UINT32)) {
      forall acts ensures StaysWithin(cap, mem, acts, p, short) && StaysInOrder(cap, mem, acts, p, short) {
        if Producers(cap, Init(mem), acts, p, short) {
          OneProducerStaysWithinCapacity(cap, mem, acts, p, short);
        }
      }
    } else {
      var acts := OverReserving(cap, mem, p, short);
      assert !StaysWithin(cap, mem, acts, p, short) && !StaysInOrder(cap, mem, acts, p, short);
    }
  }
}
