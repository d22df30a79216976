/** What every run of the log file writer keeps, and when it comes to an end. */
module LogWriterTheorems {
  import opened Machine
  import opened RingIndex
  import opened LogWriterSpec

  lemma {:induction false} DigitsLength(n: nat, k: nat, bound: nat)
    requires k > 0 && bound == Pow10(k) && n < bound
    ensures |Digits(n)| <= k
    decreases k
  {
    if n >= 10 {
      assert k > 1;
      DigitsLength(n / 10, k - 1, Pow10(k - 1));
    }
  }

  function Pow10(k: nat): nat {
    if k == 0 then 1 else 10 * Pow10(k - 1)
  }

  /** A 32-bit count makes a banner of at most 32 bytes. */
  lemma BannerLength(loss: nat)
    requires loss < UINT32
    ensures |Banner(loss)| <= LONGEST_BANNER
  {
    assert Pow10(10) == 10_000_000_000;
    DigitsLength(loss, 10, Pow10(10));
    assert |"\n!!!!Log Loss "| == 14 && |" Block.\n"| == 8;
  }

  lemma PayloadAppend(files: seq<LogFile>, f: LogFile)
    ensures Payload(files + [f]) == Payload(files) + f.payload
  {
    assert (files + [f])[..|files|] == files;
  }

  lemma TakeKeepsStream(c: Config, s: State, f: LogFile, d: Drain)
    requires c.cap > 0 && StreamInv(c, s) && s.phase == Writing(f) && d.taken <= |s.ring|
    ensures StreamInv(c, TakeBytes(c, s, f, d))
  {
    var out := s.ring[..d.taken];
    assert s.ring == out + s.ring[d.taken..];
    assert Payload(s.closed) + (f.payload + out) + s.ring[d.taken..] == (Payload(s.closed) + f.payload) + s.ring;
  }

  lemma CloseKeepsStream(c: Config, s: State, f: LogFile, eof: bool, rotated: bool)
    requires StreamInv(c, s) && s.phase.Writing? && s.phase.file.payload == f.payload
    ensures StreamInv(c, Close(s, f, eof, rotated))
  {
    PayloadAppend(s.closed, f.(rotated := rotated));
    assert Written(Close(s, f, eof, rotated)) == Written(s);
  }

  lemma FinishKeepsStream(c: Config, s: State, f: LogFile, w2: int)
    requires StreamInv(c, s) && s.phase == Writing(f)
    ensures StreamInv(c, Finish(c, s, f, w2))
  {
    var (t, g, failed) := Report(s, f, w2);
    assert g.payload == f.payload && Written(t) == Written(s);
    CloseKeepsStream(c, t, g, true, false);
    CloseKeepsStream(c, t.(flags := NO_FLAGS), g, false, true);
  }

  lemma StepKeepsStream(c: Config, s: State, e: Event)
    requires c.cap > 0 && StreamInv(c, s)
    ensures StreamInv(c, Step(c, s, e))
  {
    match e
    case Post(level, msg) =>
      if msg != [] && s.logging {
        var m := msg[..|msg| % UINT32];
        assert Written(s) + (s.ring + m) == (Written(s) + s.ring) + m;
      }
    case Open(ok) =>
      assert Written(Step(c, s, e)) == Written(s);
    case Iterate(w0, w1, w2) =>
      if s.phase.Writing? {
        IterateKeepsStream(c, s, s.phase.file, w0, w1, w2);
      }
    case _ =>
  }

  lemma IterateKeepsStream(c: Config, s: State, f: LogFile, w0: int, w1: int, w2: int)
    requires c.cap > 0 && StreamInv(c, s) && s.phase == Writing(f)
    ensures StreamInv(c, IterateStep(c, s, w0, w1, w2))
  {
    if !s.logging {
      CloseKeepsStream(c, s, f, false, false);
    } else if s.ring != [] {
      var n0 := Slice0(c.cap, s.begin, |s.ring|);
      var d := DrainOf(n0, |s.ring| - n0, w0, w1);
      TakeKeepsStream(c, s, f, d);
      var t := TakeBytes(c, s, f, d);
      if d.failed {
        CloseKeepsStream(c, t, t.phase.file, true, false);
      } else {
        FinishKeepsStream(c, t, t.phase.file, w2);
      }
    }
  }

  lemma LedgerMod(a: int, b: int)
    requires a % UINT32 == 0 && b == a - UINT32
    ensures b % UINT32 == 0
  {
  }

  lemma StepKeepsLedger(c: Config, s: State, e: Event)
    requires c.cap > 0 && LedgerInv(s)
    ensures LedgerInv(Step(c, s, e))
  {
    hide PostStep, IterateStep;
    match e
    case Post(level, msg) => PostKeepsLedger(c, s, level, msg);
    case Iterate(w0, w1, w2) => IterateKeepsLedger(c, s, w0, w1, w2);
    case _ =>
  }

  lemma PostKeepsLedger(c: Config, s: State, level: nat, msg: seq<Byte>)
    requires LedgerInv(s)
    ensures LedgerInv(PostStep(c, s, level, msg))
  {
    hide FlushFlags;
    if s.loss + 1 == UINT32 {
      LedgerMod(s.reported + s.loss - s.rejected, s.reported - 1 - s.rejected + s.loss + 1 - UINT32);
    }
  }

  lemma IterateKeepsLedger(c: Config, s: State, w0: int, w1: int, w2: int)
    requires c.cap > 0 && LedgerInv(s)
    ensures LedgerInv(IterateStep(c, s, w0, w1, w2))
  {
    hide Finish, DrainOf, Wrap;
    if s.phase.Writing? && s.logging && s.ring != [] {
      var n0 := Slice0(c.cap, s.begin, |s.ring|);
      if 0 <= n0 <= |s.ring| {
        var d := DrainOf(n0, |s.ring| - n0, w0, w1);
        FinishKeepsLedger(c, TakeBytes(c, s, s.phase.file, d), TakeBytes(c, s, s.phase.file, d).phase.file, w2);
      }
    }
  }

  lemma FinishKeepsLedger(c: Config, s: State, f: LogFile, w2: int)
    requires LedgerInv(s)
    ensures LedgerInv(Finish(c, s, f, w2))
  {
  }

  lemma StepKeepsSize(c: Config, s: State, e: Event)
    requires c.cap > 0 && c.maxFile > 0 && StreamInv(c, s) && LedgerInv(s) && SizeInv(c, s)
    ensures SizeInv(c, Step(c, s, e))
  {
    hide DrainOf, Wrap, Finish, FlushFlags, Payload, RotatedWithin;
    if e.Iterate? && s.phase.Writing? {
      var f := s.phase.file;
      if !s.logging {
        CloseKeepsSize(c, s, f, false, false);
      } else if s.ring != [] {
        var n0 := Slice0(c.cap, s.begin, |s.ring|);
        var d := DrainOf(n0, |s.ring| - n0, e.w0, e.w1);
        var t := TakeBytes(c, s, f, d);
        if d.failed {
          CloseKeepsSize(c, t, t.phase.file, true, false);
        } else {
          FinishKeepsSize(c, t, t.phase.file, e.w2);
        }
      }
    }
  }

  lemma CloseKeepsSize(c: Config, s: State, f: LogFile, eof: bool, rotated: bool)
    requires forall i :: 0 <= i < |s.closed| && s.closed[i].rotated ==> RotatedWithin(c, s.closed[i])
    requires rotated ==> RotatedWithin(c, f.(rotated := true))
    ensures SizeInv(c, Close(s, f, eof, rotated))
  {
  }

  lemma FinishKeepsSize(c: Config, s: State, f: LogFile, w2: int)
    requires LedgerInv(s) && f.counted < c.maxFile + c.cap && (f.whole ==> |f.content| == f.counted)
    requires forall i :: 0 <= i < |s.closed| && s.closed[i].rotated ==> RotatedWithin(c, s.closed[i])
    ensures SizeInv(c, Finish(c, s, f, w2))
  {
    var (t, g, failed) := Report(s, f, w2);
    BannerLength(s.loss);
    if failed || t.flags.eof {
      CloseKeepsSize(c, t, g, true, false);
    } else if g.counted >= c.maxFile {
      CloseKeepsSize(c, t.(flags := NO_FLAGS), g, false, true);
    }
  }

  lemma {:induction false} RunKeepsInv(c: Config, s: State, es: seq<Event>)
    requires c.cap > 0 && c.maxFile > 0 && Inv(c, s)
    ensures Inv(c, Run(c, s, es))
    decreases |es|
  {
    if es != [] {
      StepKeepsStream(c, s, es[0]);
      StepKeepsLedger(c, s, es[0]);
      StepKeepsSize(c, s, es[0]);
      RunKeepsInv(c, Step(c, s, es[0]), es[1..]);
    }
  }

  lemma RunKeepsInvFromStart(c: Config, es: seq<Event>)
    requires c.cap > 0 && c.maxFile > 0
    ensures Inv(c, Run(c, Init(), es))
  {
    hide Run;
    RunKeepsInv(c, Init(), es);
  }

  /** Drain correctness: whatever short writes, errors, failed openings and
      rotations occur, the payload bytes over all files are a prefix of the
      accepted stream and the ring holds exactly the rest. */
  lemma DrainIsExact(c: Config, es: seq<Event>)
    requires c.cap > 0 && c.maxFile > 0
    ensures var s := Run(c, Init(), es);
      Written(s) <= s.posted && s.ring == s.posted[|Written(s)|..] && |s.ring| <= c.cap
  {
    hide LedgerInv, SizeInv, Run, Written;
    RunKeepsInvFromStart(c, es);
  }

  /** Loss ledger: losses reported in banners plus losses pending are the
      rejected writes, modulo 2^32, and no attempt is unaccounted for. */
  lemma LossLedger(c: Config, es: seq<Event>)
    requires c.cap > 0 && c.maxFile > 0
    ensures var s := Run(c, Init(), es);
      s.accepted + s.rejected == s.attempted && (s.reported + s.loss) % UINT32 == s.rejected % UINT32
  {
    hide StreamInv, SizeInv, Run;
    RunKeepsInvFromStart(c, es);
    var s := Run(c, Init(), es);
    SameResidue(s.reported + s.loss, s.rejected);
  }

  lemma SameResidue(a: nat, b: nat)
    requires (a - b) % UINT32 == 0
    ensures a % UINT32 == b % UINT32
  {
  }

  /** Rotation bound: a rotated file counts at least the limit and less than
      the limit plus the ring's capacity plus the longest banner, and when its
      banners were written in full the count is its real length. */
  lemma RotationBound(c: Config, es: seq<Event>, i: nat)
    requires c.cap > 0 && c.maxFile > 0
    requires i < |Run(c, Init(), es).closed| && Run(c, Init(), es).closed[i].rotated
    ensures var f := Run(c, Init(), es).closed[i];
      && c.maxFile <= f.counted < c.maxFile + c.cap + LONGEST_BANNER
      && (f.whole ==> |f.content| == f.counted)
  {
    hide LedgerInv, StreamInv, Run;
    RunKeepsInvFromStart(c, es);
    assert RotatedWithin(c, Run(c, Init(), es).closed[i]);
  }

  // ---- Stopping

  /** The writing thread's next step when openings succeed and writes are full. */
  function ThreadEvent(c: Config, s: State): Event {
    if s.phase.Writing? then Iterate(c.cap, c.cap, LONGEST_BANNER) else Open(true)
  }

  function ThreadRun(c: Config, s: State, n: nat): State
    requires c.cap > 0
    decreases n
  {
    if n == 0 then s else ThreadRun(c, Step(c, s, ThreadEvent(c, s)), n - 1)
  }

  lemma FinishOutcome(c: Config, s: State, f: LogFile)
    requires s.loss < UINT32
    ensures var t := Finish(c, s, f, LONGEST_BANNER);
      && t.ring == s.ring && t.logging == s.logging && !t.phase.Finished?
      && (t.phase == Opening(true) <==> s.flags.eof)
  {
    BannerLength(s.loss);
  }

  lemma FullDrain(n0: nat, n1: nat, w: nat)
    requires n0 <= w && n1 <= w && n0 > 0
    ensures DrainOf(n0, n1, w, w) == Drain(n0 + n1, false)
  {
  }

  /** A full iteration takes the whole ring. */
  lemma FullIteration(c: Config, s: State, f: LogFile)
    requires c.cap > 0 && StreamInv(c, s) && s.loss < UINT32 && s.phase == Writing(f) && s.logging && s.ring != []
    ensures var t := Step(c, s, ThreadEvent(c, s));
      && t.ring == [] && t.logging && !t.phase.Finished?
      && (t.phase == Opening(true) <==> s.flags.eof)
  {
    var n0 := Slice0(c.cap, s.begin, |s.ring|);
    FullDrain(n0, |s.ring| - n0, c.cap);
    var t := TakeBytes(c, s, f, Drain(|s.ring|, false));
    FinishOutcome(c, t, t.phase.file);
  }

  /** A thread that finds the ring empty and logging on never leaves its loop. */
  lemma {:induction false} EmptyRingSpins(c: Config, s: State, n: nat)
    requires c.cap > 0 && s.logging && s.ring == [] && (s.phase.Writing? || s.phase == Opening(false))
    ensures !ThreadRun(c, s, n).phase.Finished?
    decreases n
  {
    if n > 0 {
      EmptyRingSpins(c, Step(c, s, ThreadEvent(c, s)), n - 1);
    }
  }

  /** Stopping after the last `Write`: once the second step of `Stop` has set
      the end-of-file flag, the loop exits, and then within three steps and with
      the ring empty, exactly when the ring still holds a byte at that moment. */
  lemma StopExitsIffRingHeld(c: Config, s: State)
    requires c.cap > 0 && c.maxFile > 0 && Inv(c, s) && s.logging && (s.phase.Writing? || s.phase == Opening(false))
    ensures var t := Step(c, s, StopMark);
      && (s.ring != [] ==> ThreadRun(c, t, 3).phase.Finished? && ThreadRun(c, t, 3).ring == [])
      && ((exists n :: ThreadRun(c, t, n).phase.Finished?) <==> s.ring != [])
  {
    var t := Step(c, s, StopMark);
    StepKeepsStream(c, s, StopMark);
    if s.ring != [] {
      MarkedRunEnds(c, t);
    } else {
      forall n: nat ensures !ThreadRun(c, t, n).phase.Finished? {
        EmptyRingSpins(c, t, n);
      }
    }
  }

  lemma {:induction false} OpeningEnds(c: Config, v: State, n: nat)
    requires c.cap > 0 && n > 0 && (v.phase == Opening(true) || v.phase.Finished?)
    ensures ThreadRun(c, v, n).phase.Finished? && ThreadRun(c, v, n).ring == v.ring
    decreases n
  {
    var w := Step(c, v, ThreadEvent(c, v));
    assert w.phase.Finished? && w.ring == v.ring;
    if n > 1 {
      OpeningEnds(c, w, n - 1);
    }
  }

  lemma MarkedRunEnds(c: Config, t: State)
    requires c.cap > 0 && c.maxFile > 0 && Inv(c, t) && t.logging && t.ring != []
    requires t.flags.eof && (t.phase.Writing? || t.phase == Opening(false))
    ensures ThreadRun(c, t, 3).phase.Finished? && ThreadRun(c, t, 3).ring == []
  {
    var u := if t.phase.Writing? then t else Step(c, t, Open(true));
    StepKeepsStream(c, t, Open(true));
    FullIteration(c, u, u.phase.file);
    var v := Step(c, u, ThreadEvent(c, u));
    OpeningEnds(c, v, 1);
    OpeningEnds(c, v, 2);
    assert ThreadRun(c, u, 2) == ThreadRun(c, v, 1) && ThreadRun(c, u, 3) == ThreadRun(c, v, 2);
  }

  /** `Stop` taken as one step, or finding the ring empty at its test, always
      ends the loop with the ring empty. */
  lemma AtomicStopCompletes(c: Config, s: State)
    requires c.cap > 0 && c.maxFile > 0 && Inv(c, s) && s.logging && (s.phase.Writing? || s.phase == Opening(false))
    ensures var t := Step(c, s, StopTest);
      var u := if s.ring == [] then t else Step(c, t, StopMark);
      ThreadRun(c, u, 3).phase.Finished? && ThreadRun(c, u, 3).ring == []
  {
    if s.ring == [] {
      var t := Step(c, s, StopTest);
      var u := Step(c, t, ThreadEvent(c, t));
      var v := Step(c, u, ThreadEvent(c, u));
      assert v.phase.Finished? && v.ring == [];
      assert ThreadRun(c, v, 1) == v;
      assert ThreadRun(c, u, 2) == v;
    } else {
      StopExitsIffRingHeld(c, s);
    }
  }

  /** One iteration between the two steps of `Stop` empties the ring, and the
      loop then runs for ever although openings succeed and writes are full. */
  lemma StopCanHang(c: Config, s: State, n: nat)
    requires c.cap > 0 && c.maxFile > 0 && Inv(c, s) && s.logging && s.phase.Writing? && s.ring != []
    requires !s.flags.eof
    ensures var t := Run(c, s, [StopTest, ThreadEvent(c, s), StopMark]);
      t.ring == [] && t.logging && !ThreadRun(c, t, n).phase.Finished?
  {
    FullIteration(c, s, s.phase.file);
    var e := ThreadEvent(c, s);
    var u := Step(c, s, e);
    var t := Step(c, u, StopMark);
    assert [StopTest, e, StopMark][1..] == [e, StopMark] && [e, StopMark][1..] == [StopMark];
    assert Run(c, u, [StopMark]) == t;
    EmptyRingSpins(c, t, n);
  }

  /** Such a state is reached by opening a file and posting one byte. */
  lemma HangingStateReached(c: Config, b: Byte, es: seq<Event>)
    requires c.cap > 0 && c.maxFile > 0 && es == [Open(true), Post(LEVEL_FAULT, [b])]
    ensures var s := Run(c, Init(), es);
      Inv(c, s) && s.logging && s.phase.Writing? && s.ring == [b] && !s.flags.eof
  {
    var s := Step(c, Init(), Open(true));
    var t := Step(c, s, Post(LEVEL_FAULT, [b]));
    assert [b][..1] == [b];
    assert t.ring == [b] && t.flags == Flags(true, false);
    assert es[1..] == [Post(LEVEL_FAULT, [b])] && es[1..][1..] == [];
    assert Run(c, Init(), es) == Run(c, s, es[1..]) == Run(c, t, []);
    RunKeepsInv(c, Init(), es);
  }
}
