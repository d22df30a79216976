/** What whole runs of the ring guarantee. */
module RingTheorems {
  import opened RingIndex
  import opened RingSystem
  import opened RingInvariant

  /** A state some run reaches from the freshly built buffer, within the capacity premise. */
  ghost predicate Reaches(cap: nat, mem: seq<Byte>, acts: seq<Action>, s: State) {
    cap > 0 && |mem| == cap && WithinCapacity(cap, Init(mem), acts) && s == Exec(cap, Init(mem), acts)
  }

  lemma ReachesInv(cap: nat, mem: seq<Byte>, acts: seq<Action>, s: State)
    requires Reaches(cap, mem, acts, s)
    ensures Inv(cap, s) && s.Outstanding() <= cap
  {
    InitInv(cap, mem);
    ExecKeepsInv(cap, Init(mem), acts);
  }

  /** First in, first out: in every interleaving, the bytes released are a
      prefix of the accepted messages laid end to end in compare-exchange order. */
  lemma Fifo(cap: nat, mem: seq<Byte>, acts: seq<Action>, s: State)
    requires Reaches(cap, mem, acts, s)
    ensures s.released <= Concat(s.accepted)
    ensures s.data <= s.ended - |s.released| && s.ended <= |Concat(s.accepted)|
  {
    ReachesInv(cap, mem, acts, s);
  }

  lemma BlockByte(cap: nat, s: State, j: nat)
    requires cap > 0 && Inv(cap, s) && s.Outstanding() <= cap && s.consumer.Reading? && j < s.consumer.n
    ensures |s.released| + s.consumer.n <= s.ended
    ensures SliceIndex(cap, s.consumer.from, s.consumer.n, j) == Wrap(cap, |s.released| + j)
    ensures SlotHolds(cap, s.mem, s.stream, |s.released| + j)
  {
    SliceIndexWraps(cap, |s.released|, s.consumer.n, j);
  }

  /** No reservation still has to store the byte of an unreleased, ended position. */
  lemma NotOverwritten(cap: nat, s: State, x: nat, k: nat, c: nat)
    requires cap > 0 && Inv(cap, s) && s.Outstanding() <= cap && |s.released| <= x < s.ended
    requires k < |s.flights| && s.flights[k].copied <= c < |s.flights[k].msg|
    ensures SliceIndex(cap, s.flights[k].start, |s.flights[k].msg|, c) != Wrap(cap, x)
  {
    var f := s.flights[k];
    assert FlightInv(cap, f, s.stream, s.ended);
    SliceIndexWraps(cap, f.pos, |f.msg|, c);
    WrapApart(cap, x, f.pos + c);
  }

  /** Publication: the bytes of a peeked block are exactly the next unreleased
      bytes of the stream, all below the ended position, and no reservation in
      flight has a byte left to store in any of their slots. */
  lemma PeekedBytesAreSafe(cap: nat, mem: seq<Byte>, acts: seq<Action>, s: State, j: nat)
    requires Reaches(cap, mem, acts, s) && s.consumer.Reading? && j < s.consumer.n
    ensures |s.released| + s.consumer.n <= s.ended <= |Concat(s.accepted)|
    ensures 0 <= SliceIndex(cap, s.consumer.from, s.consumer.n, j) < |s.mem|
    ensures s.mem[SliceIndex(cap, s.consumer.from, s.consumer.n, j)] == Concat(s.accepted)[|s.released| + j]
    ensures forall k, c :: 0 <= k < |s.flights| && s.flights[k].copied <= c < |s.flights[k].msg| ==>
      SliceIndex(cap, s.flights[k].start, |s.flights[k].msg|, c) != SliceIndex(cap, s.consumer.from, s.consumer.n, j)
  {
    ReachesInv(cap, mem, acts, s);
    BlockByte(cap, s, j);
    forall k, c | 0 <= k < |s.flights| && s.flights[k].copied <= c < |s.flights[k].msg|
      ensures SliceIndex(cap, s.flights[k].start, |s.flights[k].msg|, c) !=
              SliceIndex(cap, s.consumer.from, s.consumer.n, j)
    {
      NotOverwritten(cap, s, |s.released| + j, k, c);
    }
  }

  /** `Readed` never refuses the block its caller has peeked. */
  lemma ReadedSucceeds(cap: nat, mem: seq<Byte>, acts: seq<Action>, s: State, w: nat)
    requires Reaches(cap, mem, acts, s) && s.consumer.Reading? && w <= |s.consumer.seen|
    ensures StepCheckReaded(s, w).consumer == Releasing(s.consumer.seen[..w])
  {
    ReachesInv(cap, mem, acts, s);
  }

  /** Tickets: start indices in flight are pairwise distinct, and exactly the
      oldest reservation matches the end index. */
  lemma TicketsAreDistinct(cap: nat, mem: seq<Byte>, acts: seq<Action>, s: State, j: nat, k: nat)
    requires Reaches(cap, mem, acts, s) && j < k < |s.flights|
    ensures s.flights[j].start != s.flights[k].start
    ensures s.flights[0].start == s.end && s.flights[k].start != s.end
  {
    ReachesInv(cap, mem, acts, s);
    TurnIsFirst(cap, s, 0);
    TurnIsFirst(cap, s, k);
    TiledApart(s.flights, s.ended, |s.stream|, j, k);
    TiledBounds(s.flights, s.ended, |s.stream|, j);
    TiledBounds(s.flights, s.ended, |s.stream|, k);
    assert FlightInv(cap, s.flights[j], s.stream, s.ended) && FlightInv(cap, s.flights[k], s.stream, s.ended);
    WrapApart(cap, s.flights[j].pos, s.flights[k].pos);
  }

  /** Commits happen in reservation order: the only reservation that can store
      the end index is the oldest, and it moves the ended position past itself. */
  lemma CommitsInOrder(cap: nat, mem: seq<Byte>, acts: seq<Action>, s: State, k: nat)
    requires Reaches(cap, mem, acts, s) && StepEnd(s, k) != s
    ensures k == 0 && StepEnd(s, k).flights == s.flights[1..]
    ensures StepEnd(s, k).ended == s.ended + |s.flights[0].msg|
  {
    ReachesInv(cap, mem, acts, s);
    assert FlightInv(cap, s.flights[k], s.stream, s.ended);
    TurnIsFirst(cap, s, k);
  }

  function Left(f: Flight): nat {
    if f.copied <= |f.msg| then |f.msg| - f.copied else 0
  }

  /** What the oldest reservation still has to do on its own. */
  function OwnSteps(left: nat): seq<Action> {
    if left == 0 then [TakeTurn(0), StoreEnd(0)] else [CopyByte(0)] + OwnSteps(left - 1)
  }

  lemma TurnThenEnd(cap: nat, s: State)
    requires cap > 0 && Inv(cap, s) && s.Outstanding() <= cap
    requires s.flights != [] && s.flights[0].copied == |s.flights[0].msg|
    ensures Exec(cap, s, OwnSteps(0)) == StepEnd(StepTurn(s, 0), 0)
    ensures StepEnd(StepTurn(s, 0), 0).flights == s.flights[1..]
    ensures StepEnd(StepTurn(s, 0), 0).ended == s.ended + |s.flights[0].msg|
  {
    TurnIsFirst(cap, s, 0);
    var t := StepTurn(s, 0);
    assert OwnSteps(0)[1..] == [StoreEnd(0)] && [StoreEnd(0)][1..] == [];
    assert Without(t.flights, 0) == t.flights[1..] == s.flights[1..];
  }

  lemma CopyProgress(cap: nat, s: State)
    requires cap > 0 && Inv(cap, s) && s.Outstanding() <= cap
    requires s.flights != [] && s.flights[0].copied < |s.flights[0].msg|
    ensures var t := StepCopy(cap, s, 0);
      t.flights == s.flights[0 := s.flights[0].(copied := s.flights[0].copied + 1)] && t.ended == s.ended
  {
    var f := s.flights[0];
    assert FlightInv(cap, f, s.stream, s.ended);
    var y := CopyTarget(cap, s, f, f.(copied := f.copied + 1));
  }

  /** No deadlock: whenever reservations are in flight, the oldest commits by
      its own remaining steps, whatever the other threads are waiting for. */
  lemma {:induction false} OldestCommits(cap: nat, s: State, left: nat)
    requires cap > 0 && Inv(cap, s) && s.Outstanding() <= cap
    requires s.flights != [] && s.flights[0].copied + left == |s.flights[0].msg|
    ensures Exec(cap, s, OwnSteps(left)).ended == s.ended + |s.flights[0].msg|
    ensures Exec(cap, s, OwnSteps(left)).flights == s.flights[1..]
    decreases left
  {
    if left == 0 {
      TurnThenEnd(cap, s);
    } else {
      var t := StepCopy(cap, s, 0);
      CopyProgress(cap, s);
      KeepsCopy(cap, s, 0);
      assert t.flights[1..] == s.flights[1..];
      OldestCommits(cap, t, left - 1);
      assert OwnSteps(left)[1..] == OwnSteps(left - 1);
    }
  }

  /** The spin loop cannot deadlock in any reachable state. */
  lemma NoDeadlock(cap: nat, mem: seq<Byte>, acts: seq<Action>, s: State)
    requires Reaches(cap, mem, acts, s) && s.flights != []
    ensures Exec(cap, s, OwnSteps(Left(s.flights[0]))).flights == s.flights[1..]
    ensures Exec(cap, s, OwnSteps(Left(s.flights[0]))).ended == s.ended + |s.flights[0].msg|
  {
    ReachesInv(cap, mem, acts, s);
    assert FlightInv(cap, s.flights[0], s.stream, s.ended);
    OldestCommits(cap, s, Left(s.flights[0]));
  }
}
