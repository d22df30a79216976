/** What calls and the consumer reach by their own steps, from any state of the ring. */
module RingProgress {
  import opened Machine
  import opened RingIndex
  import opened RingSystem
  import opened RingProducers

  // ---- Calls that have reserved nothing yet

  /** The steps that call `i` takes on its own until it has its reservation: a
      compare-exchange that must fail is followed by the test and another. */
  function CallSteps(c: Call, i: nat, writable: nat): seq<Action> {
    match c
    case Checked(_) => [LoadIndex(i)] + [Cas(i)]
    case Loaded(_, expected) => Exchange(i, expected == writable)
    case Failed(_, expected) => [Recheck(i)] + Exchange(i, expected == writable)
  }

  function Exchange(i: nat, matches: bool): seq<Action> {
    if matches then [Cas(i)] else [Cas(i)] + ([Recheck(i)] + [Cas(i)])
  }

  /** The state with call `i` turned into the newest reservation. */
  function Accepted(cap: nat, s: State, i: nat): State
    requires cap > 0 && i < |s.calls|
  {
    var (msg, next) := (s.calls[i].msg, Wrap(cap, s.writable + |s.calls[i].msg|));
    s.(writable := next, calls := s.calls[..i] + s.calls[i + 1..], accepted := s.accepted + [msg],
       stream := s.stream + msg, flights := s.flights + [Flight(msg, s.writable, next, |s.stream|, 0, false)])
  }

  lemma LoadAt(cap: nat, s: State, i: nat)
    requires cap > 0 && i < |s.calls| && s.calls[i].Checked?
    ensures Step(cap, s, LoadIndex(i)) == s.(calls := s.calls[i := Loaded(s.calls[i].msg, s.writable)])
  {
  }

  lemma CasAt(cap: nat, s: State, i: nat)
    requires cap > 0 && i < |s.calls| && s.calls[i].Loaded?
    ensures Step(cap, s, Cas(i)) ==
      if s.calls[i].expected == s.writable then Accepted(cap, s, i)
      else s.(calls := s.calls[i := Failed(s.calls[i].msg, s.writable)])
  {
  }

  lemma RecheckAt(cap: nat, s: State, i: nat)
    requires cap > 0 && i < |s.calls| && s.calls[i].Failed? && |s.calls[i].msg| <= FreeBytes(cap, s.data)
    ensures Step(cap, s, Recheck(i)) == s.(calls := s.calls[i := Loaded(s.calls[i].msg, s.calls[i].expected)])
  {
  }

  lemma SameAccepted(cap: nat, s: State, i: nat, c: Call)
    requires cap > 0 && i < |s.calls| && c.msg == s.calls[i].msg
    ensures Accepted(cap, s.(calls := s.calls[i := c]), i) == Accepted(cap, s, i)
  {
    assert s.calls[i := c][..i] == s.calls[..i] && s.calls[i := c][i + 1..] == s.calls[i + 1..];
  }

  lemma Replaced<T>(s: seq<T>, i: nat, x: T, y: T)
    requires i < |s|
    ensures s[i := x][i := y] == s[i := y] && s[i := x][i] == x
  {
  }

  lemma ExchangeIs(cap: nat, s: State, i: nat)
    requires cap > 0 && i < |s.calls| && s.calls[i].Loaded? && |s.calls[i].msg| <= FreeBytes(cap, s.data)
    ensures Exec(cap, s, Exchange(i, s.calls[i].expected == s.writable)) == Accepted(cap, s, i)
  {
    hide Step, Accepted, FreeBytes, Exec;
    CasAt(cap, s, i);
    if s.calls[i].expected == s.writable {
      Last(cap, s, Cas(i));
    } else {
      var (f, l) := (Failed(s.calls[i].msg, s.writable), Loaded(s.calls[i].msg, s.writable));
      var (t, u) := (s.(calls := s.calls[i := f]), s.(calls := s.calls[i := l]));
      Replaced(s.calls, i, f, l);
      First(cap, s, Cas(i), [Recheck(i)] + [Cas(i)]);
      RecheckAt(cap, t, i);
      First(cap, t, Recheck(i), [Cas(i)]);
      CasAt(cap, u, i);
      Last(cap, u, Cas(i));
      SameAccepted(cap, s, i, l);
    }
  }

  /** From any state, a call in any of its three phases whose message fits the
      free bytes gets its reservation by its own steps alone: its message, and
      nothing else, is appended to the accepted ones and to the stream. */
  lemma CallIsAccepted(cap: nat, s: State, i: nat)
    requires cap > 0 && i < |s.calls| && |s.calls[i].msg| <= FreeBytes(cap, s.data)
    ensures var (msg, next) := (s.calls[i].msg, Wrap(cap, s.writable + |s.calls[i].msg|));
      Exec(cap, s, CallSteps(s.calls[i], i, s.writable)) ==
        s.(writable := next, calls := s.calls[..i] + s.calls[i + 1..], accepted := s.accepted + [msg],
           stream := s.stream + msg, flights := s.flights + [Flight(msg, s.writable, next, |s.stream|, 0, false)])
  {
    CallIsReserved(cap, s, i);
  }

  lemma CallIsReserved(cap: nat, s: State, i: nat)
    requires cap > 0 && i < |s.calls| && |s.calls[i].msg| <= FreeBytes(cap, s.data)
    ensures Exec(cap, s, CallSteps(s.calls[i], i, s.writable)) == Accepted(cap, s, i)
  {
    hide Step, Accepted, FreeBytes, Exec, Exchange;
    match s.calls[i]
    case Checked(msg) =>
      var t := s.(calls := s.calls[i := Loaded(msg, s.writable)]);
      LoadAt(cap, s, i);
      First(cap, s, LoadIndex(i), [Cas(i)]);
      CasAt(cap, t, i);
      Last(cap, t, Cas(i));
      SameAccepted(cap, s, i, Loaded(msg, s.writable));
    case Loaded(msg, expected) =>
      ExchangeIs(cap, s, i);
    case Failed(msg, expected) =>
      var t := s.(calls := s.calls[i := Loaded(msg, expected)]);
      RecheckAt(cap, s, i);
      First(cap, s, Recheck(i), Exchange(i, expected == s.writable));
      ExchangeIs(cap, t, i);
      SameAccepted(cap, s, i, Loaded(msg, expected));
  }

  /** A step that ends a call without accepting its message is the repeated test
      of a call whose message exceeds the free bytes at that moment. */
  lemma CallIsDropped(cap: nat, s: State, a: Action)
    requires cap > 0 && |Step(cap, s, a).calls| < |s.calls| && Step(cap, s, a).accepted == s.accepted
    ensures a.Recheck? && a.i < |s.calls| && s.calls[a.i].Failed? && |s.calls[a.i].msg| > FreeBytes(cap, s.data)
    ensures Step(cap, s, a) == s.(calls := s.calls[..a.i] + s.calls[a.i + 1..])
  {
    hide SliceIndex, Wrap, FreeBytes;
  }

  /** A call begins exactly when its message is not empty and fits the free bytes. */
  lemma CallBegins(cap: nat, s: State, msg: seq<Byte>)
    requires cap > 0
    ensures Step(cap, s, StartWrite(msg)) ==
      if 0 < |msg| <= FreeBytes(cap, s.data) then s.(calls := s.calls + [Checked(msg)]) else s
  {
  }

  /** No step changes the message of a call, and only accepting or dropping ends one. */
  lemma CallsKeepMessages(cap: nat, s: State, a: Action, i: nat)
    requires cap > 0 && i < |s.calls| <= |Step(cap, s, a).calls|
    ensures Step(cap, s, a).calls[i].msg == s.calls[i].msg
    ensures Step(cap, s, a).accepted == s.accepted
  {
    hide SliceIndex, Wrap, FreeBytes;
  }

  // ---- The consumer

  function Reads(n: nat): seq<Action> {
    if n == 0 then [] else [ReadByte] + Reads(n - 1)
  }

  /** Peek, read the whole block, release the first `w` bytes. */
  function ReadRun(n: nat, w: nat): seq<Action> {
    [PeekData] + ([PeekBegin] + (Reads(n) + ([CheckReaded(w)] + ([LoadBegin] + ([SubData] + [StoreBegin])))))
  }

  /** The first `n` bytes that the ring holds. */
  function Front(cap: nat, mem: seq<Byte>, begin: nat, n: nat): (r: seq<Byte>)
    requires cap == |mem| > 0
    ensures |r| == n
  {
    seq(n, k requires 0 <= k < n => mem[Wrap(cap, begin + k)])
  }

  lemma {:induction false} ReadsAre(cap: nat, s: State, n: nat, k: nat, rest: seq<Action>)
    requires cap == |s.mem| > s.begin && k <= n <= cap
    requires s.consumer == Reading(n, s.begin, Front(cap, s.mem, s.begin, k))
    ensures Exec(cap, s, Reads(n - k) + rest) ==
      Exec(cap, s.(consumer := Reading(n, s.begin, Front(cap, s.mem, s.begin, n))), rest)
    decreases n - k
  {
    if k == n {
      assert Reads(0) + rest == rest;
    } else {
      SliceIndexWraps(cap, s.begin, n, k);
      assert Front(cap, s.mem, s.begin, k + 1) ==
             Front(cap, s.mem, s.begin, k) + [s.mem[Wrap(cap, s.begin + k)]];
      var t := s.(consumer := Reading(n, s.begin, Front(cap, s.mem, s.begin, k + 1)));
      assert Step(cap, s, ReadByte) == t;
      assert Reads(n - k) + rest == [ReadByte] + (Reads(n - k - 1) + rest);
      hide Step, Front, Reads, Exec;
      First(cap, s, ReadByte, Reads(n - k - 1) + rest);
      ReadsAre(cap, t, n, k + 1, rest);
    }
  }

  lemma PeekIs(cap: nat, s: State, rest: seq<Action>)
    requires cap > 0 && s.consumer == Resting
    ensures Exec(cap, s, [PeekData] + ([PeekBegin] + rest)) ==
            Exec(cap, s.(consumer := Reading(s.data, s.begin, [])), rest)
  {
    var t := s.(consumer := SawData(s.data));
    assert Step(cap, s, PeekData) == t;
    assert Step(cap, t, PeekBegin) == s.(consumer := Reading(s.data, s.begin, []));
    hide Step, Exec;
    First(cap, s, PeekData, [PeekBegin] + rest);
    First(cap, t, PeekBegin, rest);
  }

  lemma ReleaseIs(cap: nat, s: State, n: nat, seen: seq<Byte>, w: nat)
    requires cap > 0 && s.consumer == Reading(n, s.begin, seen) && w <= |seen| && w <= s.data
    ensures Exec(cap, s, [CheckReaded(w)] + ([LoadBegin] + ([SubData] + [StoreBegin]))) ==
      s.(data := s.data - w, released := s.released + seen[..w], begin := Wrap(cap, s.begin + w), consumer := Resting)
  {
    var t := s.(consumer := Releasing(seen[..w]));
    var u := s.(consumer := SawBegin(seen[..w], s.begin));
    var v := s.(data := s.data - w, released := s.released + seen[..w], consumer := Moving(Wrap(cap, s.begin + w)));
    assert Step(cap, s, CheckReaded(w)) == t && Step(cap, t, LoadBegin) == u;
    assert |seen[..w]| == w;
    assert Step(cap, u, SubData) == v;
    assert Step(cap, v, StoreBegin) == v.(begin := Wrap(cap, s.begin + w), consumer := Resting);
    hide Step, Exec, Wrap;
    First(cap, s, CheckReaded(w), [LoadBegin] + ([SubData] + [StoreBegin]));
    First(cap, t, LoadBegin, [SubData] + [StoreBegin]);
    First(cap, u, SubData, [StoreBegin]);
    Last(cap, v, StoreBegin);
  }

  /** From any state with the consumer at rest, whatever the writers are doing,
      the consumer's own steps read all bytes counted and release any first part
      of them: those bytes, in order, leave the count, and nothing else changes. */
  lemma BlockIsReleased(cap: nat, s: State, w: nat)
    requires cap == |s.mem| > s.begin && s.consumer == Resting && w <= s.data <= cap
    ensures Exec(cap, s, ReadRun(s.data, w)) ==
      s.(data := s.data - w, begin := Wrap(cap, s.begin + w), released := s.released + Front(cap, s.mem, s.begin, w))
  {
    hide Step, Exec, Wrap, Reads, Front;
    var (n, none) := (s.data, []);
    var seen := Front(cap, s.mem, s.begin, n);
    var release := [CheckReaded(w)] + ([LoadBegin] + ([SubData] + [StoreBegin]));
    FrontParts(cap, s.mem, s.begin, n, w);
    PeekIs(cap, s, Reads(n) + release);
    ReadsAre(cap, s.(consumer := Reading(n, s.begin, none)), n, 0, release);
    ReleaseIs(cap, s.(consumer := Reading(n, s.begin, seen)), n, seen, w);
  }

  lemma FrontParts(cap: nat, mem: seq<Byte>, begin: nat, n: nat, w: nat)
    requires cap == |mem| > 0 && w <= n
    ensures Front(cap, mem, begin, 0) == [] && Front(cap, mem, begin, n)[..w] == Front(cap, mem, begin, w)
  {
  }
}
