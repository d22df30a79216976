/** What single steps of the log file writer do, in numbers, flags and bytes. */
module LogWriterSteps {
  import opened Machine
  import opened RingIndex
  import opened LogWriterSpec
  import opened LogWriterTheorems

  // ---- Posting

  /** An accepted post raises the flush flag for errors and once more than 2048
      bytes wait; no other post touches the flags, and none the end-of-file flag. */
  lemma PostFlags(c: Config, s: State, level: nat, msg: seq<Byte>)
    requires c.cap > 0
    ensures var t := Step(c, s, Post(level, msg));
      && t.flags.eof == s.flags.eof
      && (t.accepted == s.accepted + 1 ==> (t.flags.flush <==> s.flags.flush || level <= 3 || |t.ring| > 2048))
      && (t.accepted != s.accepted + 1 ==> t.flags == s.flags)
  {
  }

  /** A message goes into the ring whole, cut to its length modulo 2^32, or is
      one more loss, or is dropped when it is empty or logging has ended. */
  lemma PostOutcome(c: Config, s: State, level: nat, msg: seq<Byte>)
    requires c.cap > 0
    ensures var (t, n) := (Step(c, s, Post(level, msg)), |msg| % 0x1_0000_0000);
      && (msg == [] || !s.logging ==> t == s)
      && (msg != [] && s.logging && |s.ring| + n <= c.cap ==>
            t.ring == s.ring + msg[..n] && t.accepted == s.accepted + 1 && t.loss == s.loss)
      && (msg != [] && s.logging && |s.ring| + n > c.cap ==>
            t.ring == s.ring && t.rejected == s.rejected + 1 && t.loss == (s.loss + 1) % 0x1_0000_0000)
      && t.phase == s.phase && t.closed == s.closed && t.logging == s.logging
  {
  }

  // ---- The loss banner

  /** The number that bytes denote, the most significant digit first. */
  function Number(ds: seq<Byte>): int {
    if ds == [] then 0 else 10 * Number(ds[..|ds| - 1]) + ds[|ds| - 1] as int - 48
  }

  /** The bytes are the decimal digits of `n`, without a leading zero. */
  predicate IsDecimal(ds: seq<Byte>, n: nat) {
    && ds != [] && (forall k :: 0 <= k < |ds| ==> 48 <= ds[k] <= 57)
    && (ds[0] == 48 ==> |ds| == 1)
    && Number(ds) == n
  }

  lemma {:induction false} DigitsAreDecimal(n: nat)
    ensures IsDecimal(Digits(n), n) && (n > 0 ==> Digits(n)[0] != 48)
  {
    if n >= 10 {
      DigitsAreDecimal(n / 10);
      assert Digits(n)[..|Digits(n)| - 1] == Digits(n / 10);
    } else {
      assert Digits(n)[..0] == [];
    }
  }

  /** "\n!!!!Log Loss " and " Block.\n". */
  const HEAD: seq<Byte> := [10, 33, 33, 33, 33, 76, 111, 103, 32, 76, 111, 115, 115, 32]
  const TAIL: seq<Byte> := [32, 66, 108, 111, 99, 107, 46, 10]

  lemma HeadAndTail()
    ensures Bytes("\n!!!!Log Loss ") == HEAD && Bytes(" Block.\n") == TAIL
  {
  }

  /** The banner names the loss in decimal between two fixed texts. */
  lemma BannerText(loss: nat)
    ensures Banner(loss) == HEAD + Digits(loss) + TAIL && IsDecimal(Digits(loss), loss)
    ensures loss < UINT32 ==> |Banner(loss)| <= LONGEST_BANNER
  {
    if loss < UINT32 { BannerLength(loss); }
    HeadAndTail();
    DigitsAreDecimal(loss);
  }

  // ---- The two ends of a file

  /** A file is opened, empty, only while logging goes on and the last file did
      not end it; otherwise the thread ends, and logging with it. */
  lemma OpenOutcome(c: Config, s: State, ok: bool)
    requires c.cap > 0 && s.phase.Opening?
    ensures var t := Step(c, s, Open(ok));
      && (t.phase.Writing? <==> s.phase == Opening(false) && s.logging && ok)
      && (t.phase.Writing? ==> t.phase.file == LogFile([], [], 0, true, false) && t == s.(phase := t.phase))
      && (!t.phase.Writing? ==> t == s.(phase := Finished, logging := false))
  {
  }

  lemma {:induction false} FinishedStays(c: Config, s: State, es: seq<Event>)
    requires c.cap > 0 && (s.phase.Finished? ==> !s.logging)
    ensures Run(c, s, es).phase.Finished? ==> !Run(c, s, es).logging
    decreases |es|
  {
    if es != [] {
      FinishedStep(c, s, es[0]);
      FinishedStays(c, Step(c, s, es[0]), es[1..]);
    }
  }

  lemma FinishedStep(c: Config, s: State, e: Event)
    requires c.cap > 0 && (s.phase.Finished? ==> !s.logging)
    ensures Step(c, s, e).phase.Finished? ==> !Step(c, s, e).logging
  {
    hide DrainOf, Wrap, Report, FlushFlags;
  }

  /** In every run, once the thread has ended no message is accepted. */
  lemma FinishedIsSilent(c: Config, es: seq<Event>, level: nat, msg: seq<Byte>)
    requires c.cap > 0 && Run(c, Init(), es).phase.Finished?
    ensures Step(c, Run(c, Init(), es), Post(level, msg)) == Run(c, Init(), es)
  {
    hide Run;
    FinishedStays(c, Init(), es);
  }

  // ---- One iteration

  /** The file written last. */
  function Latest(s: State): LogFile
    requires s.phase.Writing? || s.closed != []
  {
    if s.phase.Writing? then s.phase.file else s.closed[|s.closed| - 1]
  }

  /** How many of `n` bytes the system takes when it answers `w`. */
  function Took(w: int, n: nat): nat {
    if w < 0 then 0 else if w < n then w else n
  }

  /** How many bytes the first write is asked for. */
  function FirstPart(c: Config, s: State): int {
    if s.begin + |s.ring| <= c.cap then |s.ring| else c.cap - s.begin
  }

  /** How many bytes the two writes of an iteration take. */
  function TookBoth(w0: int, w1: int, n0: nat, n1: nat): nat {
    Took(w0, n0) + if w0 >= n0 then Took(w1, n1) else 0
  }

  /** Whether one of them fails: the second is made only after a full first one. */
  predicate WriteFails(w0: int, w1: int, n0: nat, n1: nat) {
    w0 < 0 || (w0 >= n0 && n1 > 0 && w1 < 0)
  }

  lemma DrainTakes(w0: int, w1: int, n0: nat, n1: nat)
    ensures DrainOf(n0, n1, w0, w1) == Drain(TookBoth(w0, w1, n0, n1), WriteFails(w0, w1, n0, n1))
  {
  }

  lemma FirstPartFits(c: Config, s: State)
    requires c.cap > 0 && StreamInv(c, s) && s.ring != []
    ensures 0 < FirstPart(c, s) <= |s.ring| && FirstPart(c, s) == Slice0(c.cap, s.begin, |s.ring|)
  {
  }

  /** After a failed write the bytes that went into the file are gone from the
      ring and from nowhere else; the file is closed and the thread will end. */
  lemma FailedIteration(c: Config, s: State, f: LogFile, w0: int, w1: int, w2: int)
    requires c.cap > 0 && StreamInv(c, s) && s.phase == Writing(f) && s.logging && s.ring != []
    requires var n0 := FirstPart(c, s); 0 < n0 <= |s.ring| && WriteFails(w0, w1, n0, |s.ring| - n0)
    ensures var (t, n0) := (Step(c, s, Iterate(w0, w1, w2)), FirstPart(c, s));
      var k := TookBoth(w0, w1, n0, |s.ring| - n0);
      && k <= |s.ring| && t.ring == s.ring[k..] && |t.closed| == |s.closed| + 1
      && Latest(t).content == f.content + s.ring[..k]
      && t.phase == Opening(true) && t.flags == s.flags && t.loss == s.loss && t.logging
  {
    var n0 := FirstPart(c, s);
    FirstPartFits(c, s);
    DrainTakes(w0, w1, n0, |s.ring| - n0);
    hide DrainOf, Wrap, WriteFails, TookBoth, Finish, FirstPart;
  }

  lemma ReportOutcome(s: State, f: LogFile, w2: int)
    ensures var ((t, g, failed), b) := (Report(s, f, w2), HEAD + Digits(s.loss) + TAIL);
      && t == s.(loss := 0, reported := s.reported + s.loss)
      && (failed <==> s.loss > 0 && w2 < 0)
      && g.content == f.content + (if s.loss > 0 then b[..Took(w2, |b|)] else [])
  {
    BannerText(s.loss);
    hide Banner, Digits;
  }

  lemma FinishKeepsContent(c: Config, s: State, f: LogFile, w2: int)
    requires s.phase == Writing(f)
    ensures var (t, b) := (Finish(c, s, f, w2), HEAD + Digits(s.loss) + TAIL);
      && (t.phase.Writing? || |t.closed| == |s.closed| + 1)
      && Latest(t).content == f.content + (if s.loss > 0 then b[..Took(w2, |b|)] else [])
      && t.ring == s.ring && t.loss == 0 && t.logging == s.logging
      && (t.phase == Opening(true) <==> s.flags.eof || (s.loss > 0 && w2 < 0))
      && t.flags == (if t.phase == Opening(true) then s.flags else Flags(false, false))
      && (t.phase == Opening(false) ==> Latest(t).counted >= c.maxFile && Latest(t).rotated)
      && (t.phase.Writing? ==> Latest(t).counted < c.maxFile)
  {
    ReportOutcome(s, f, w2);
    hide Report, Digits, Took;
  }

  lemma GoodDrain(c: Config, s: State, f: LogFile, w0: int, w1: int, w2: int) returns (u: State)
    requires c.cap > 0 && StreamInv(c, s) && s.phase == Writing(f) && s.logging && s.ring != []
    requires var n0 := FirstPart(c, s); 0 < n0 <= |s.ring| && !WriteFails(w0, w1, n0, |s.ring| - n0)
    ensures var n0 := FirstPart(c, s); var k := TookBoth(w0, w1, n0, |s.ring| - n0);
      && k <= |s.ring| && u.ring == s.ring[k..]
      && u.phase.Writing? && u.phase.file.content == f.content + s.ring[..k]
    ensures u.flags == s.flags && u.loss == s.loss && u.logging && u.closed == s.closed
    ensures Step(c, s, Iterate(w0, w1, w2)) == Finish(c, u, u.phase.file, w2)
  {
    var n0 := FirstPart(c, s);
    FirstPartFits(c, s);
    DrainTakes(w0, w1, n0, |s.ring| - n0);
    hide DrainOf, Wrap, WriteFails, TookBoth, Finish, FirstPart, Took;
    u := TakeBytes(c, s, f, Drain(TookBoth(w0, w1, n0, |s.ring| - n0), false));
  }

  /** After full or short writes the bytes that the system took are gone from the
      ring and stand in the file, followed by the loss banner if one was due.  The
      thread goes on unless the banner failed or the end was asked for, and only
      then both flags are taken down.  A file that has reached the limit is closed. */
  lemma GoodIteration(c: Config, s: State, f: LogFile, w0: int, w1: int, w2: int)
    requires c.cap > 0 && StreamInv(c, s) && s.phase == Writing(f) && s.logging && s.ring != []
    requires var n0 := FirstPart(c, s); 0 < n0 <= |s.ring| && !WriteFails(w0, w1, n0, |s.ring| - n0)
    ensures var (t, n0, b) := (Step(c, s, Iterate(w0, w1, w2)), FirstPart(c, s), HEAD + Digits(s.loss) + TAIL);
      var k := TookBoth(w0, w1, n0, |s.ring| - n0);
      && k <= |s.ring| && t.ring == s.ring[k..]
      && (t.phase.Writing? || |t.closed| == |s.closed| + 1)
      && Latest(t).content == f.content + s.ring[..k] + (if s.loss > 0 then b[..Took(w2, |b|)] else [])
      && t.loss == 0 && t.logging
      && (t.phase == Opening(true) <==> s.flags.eof || (s.loss > 0 && w2 < 0))
      && t.flags == (if t.phase == Opening(true) then s.flags else Flags(false, false))
      && (t.phase == Opening(false) ==> Latest(t).counted >= c.maxFile && Latest(t).rotated)
      && (t.phase.Writing? ==> Latest(t).counted < c.maxFile)
  {
    hide Step, Finish, FirstPart, TookBoth, Took, WriteFails, StreamInv, Digits, Latest;
    var u := GoodDrain(c, s, f, w0, w1, w2);
    FinishKeepsContent(c, u, u.phase.file, w2);
  }

  /** With an empty ring an iteration does nothing, unless logging has ended:
      then the file is closed. */
  lemma IdleIteration(c: Config, s: State, f: LogFile, w0: int, w1: int, w2: int)
    requires c.cap > 0 && s.phase == Writing(f) && (!s.logging || s.ring == [])
    ensures var t := Step(c, s, Iterate(w0, w1, w2));
      && (s.logging ==> t == s)
      && (!s.logging ==> t == s.(closed := s.closed + [f.(rotated := false)], phase := Opening(false)))
  {
  }

  // ---- What is on disk when nothing was lost

  /** While no loss has been reported, files hold their payload and nothing else. */
  ghost predicate Plain(s: State) {
    s.reported == 0 ==>
      && (s.phase.Writing? ==> s.phase.file.content == s.phase.file.payload)
      && forall i :: 0 <= i < |s.closed| ==> s.closed[i].content == s.closed[i].payload
  }

  lemma FinishKeepsPlain(c: Config, s: State, f: LogFile, w2: int)
    requires Plain(s) && s.phase == Writing(f)
    ensures Plain(Finish(c, s, f, w2))
  {
    hide Banner, SysWrite;
  }

  lemma StepKeepsPlain(c: Config, s: State, e: Event)
    requires c.cap > 0 && Plain(s)
    ensures Plain(Step(c, s, e))
  {
    hide DrainOf, Wrap, Finish, FlushFlags, Slice0;
    if e.Iterate? && s.phase.Writing? && s.logging && s.ring != [] {
      var n0 := Slice0(c.cap, s.begin, |s.ring|);
      if 0 <= n0 <= |s.ring| {
        var t := TakeBytes(c, s, s.phase.file, DrainOf(n0, |s.ring| - n0, e.w0, e.w1));
        FinishKeepsPlain(c, t, t.phase.file, e.w2);
      }
    }
  }

  lemma {:induction false} RunKeepsPlain(c: Config, s: State, es: seq<Event>)
    requires c.cap > 0 && Plain(s)
    ensures Plain(Run(c, s, es))
    decreases |es|
  {
    hide Step, Plain;
    if es != [] {
      StepKeepsPlain(c, s, es[0]);
      RunKeepsPlain(c, Step(c, s, es[0]), es[1..]);
    }
  }

  /** The bytes of all files, in writing order. */
  function OnDisk(s: State): seq<Byte> {
    Contents(s.closed) + (if s.phase.Writing? then s.phase.file.content else [])
  }

  function Contents(files: seq<LogFile>): seq<Byte> {
    if files == [] then [] else Contents(files[..|files| - 1]) + files[|files| - 1].content
  }

  lemma {:induction false} PlainContents(files: seq<LogFile>)
    requires forall i :: 0 <= i < |files| ==> files[i].content == files[i].payload
    ensures Contents(files) == Payload(files)
  {
    if files != [] { PlainContents(files[..|files| - 1]); }
  }

  /** In every run that reports no loss, the files' bytes laid end to end and then
      the ring's are exactly the accepted messages laid end to end. */
  lemma DiskIsExact(c: Config, es: seq<Event>)
    requires c.cap > 0 && c.maxFile > 0 && Run(c, Init(), es).reported == 0
    ensures var s := Run(c, Init(), es); OnDisk(s) + s.ring == s.posted
  {
    hide Run, LedgerInv, SizeInv;
    RunKeepsPlain(c, Init(), es);
    RunKeepsInvFromStart(c, es);
    PlainContents(Run(c, Init(), es).closed);
  }
}
