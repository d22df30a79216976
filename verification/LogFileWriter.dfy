/** The log file writer over the real ring buffer; each method takes exactly
    the step that the specification gives for it. */
module LogFileWriter {
  import opened Machine
  import opened RingIndex
  import opened RingBuffer
  import opened LogWriterSpec
  import opened LogWriterSteps

  class LogFileWriter {
    const ring: MultiWriteRingBuffer
    const maxFile: nat
    var loss: nat
    var flags: Flags
    var logging: bool
    /** Where the writing thread stands, with the file it has open. */
    var phase: Phase
    var closed: seq<LogFile>
    ghost var posted: seq<Byte>
    ghost var attempted: nat
    ghost var accepted: nat
    ghost var rejected: nat
    ghost var reported: nat

    ghost predicate Valid()
      reads this, ring, ring.data
    {
      ring.Valid() && ring.data.Length > 0 && loss < UINT32
    }

    function Cfg(): Config {
      Config(ring.data.Length, maxFile)
    }

    ghost function Abs(): State
      reads this, ring
    {
      State(ring.queue, ring.begin, loss, flags, logging, phase, closed,
            posted, attempted, accepted, rejected, reported)
    }

    constructor (capacity: nat, maxFile: nat)
      requires capacity > 0
      ensures Valid() && fresh(ring) && fresh(ring.data)
      ensures Cfg() == Config(capacity, maxFile) && Abs() == Init()
    {
      ring := new MultiWriteRingBuffer(capacity);
      this.maxFile := maxFile;
      loss, flags, logging, phase, closed := 0, NO_FLAGS, true, Opening(false), [];
      posted, attempted, accepted, rejected, reported := [], 0, 0, 0, 0;
    }

    /** A call of `Write`; `strMsg` may be null. */
    method Write(level: nat, strMsg: array?<Byte>, szMsgLength: nat) returns (ok: bool)
      requires Valid() && strMsg != ring.data && (strMsg != null ==> szMsgLength <= strMsg.Length)
      modifies this, ring, ring.data
      ensures Valid()
      ensures Abs() == PostStep(Cfg(), old(Abs()), level, if strMsg == null then [] else strMsg[..szMsgLength])
      ensures ok <==> accepted == old(accepted) + 1
      ensures ok ==> (flags.flush <==> old(flags.flush) || level <= 3 || |ring.queue| > 2048)
      ensures flags.eof == old(flags.eof) && (!ok ==> flags == old(flags))
    {
      ghost var msg := if strMsg == null then [] else strMsg[..szMsgLength];
      PostFlags(Cfg(), Abs(), level, msg);
      hide PostStep;
      if strMsg == null || szMsgLength == 0 || !logging {
        NothingPosted(Cfg(), Abs(), level, msg);
        return false;
      }
      ok := Send(level, strMsg, szMsgLength);
    }

    static lemma NothingPosted(c: Config, s: State, level: nat, msg: seq<Byte>)
      requires msg == [] || !s.logging
      ensures PostStep(c, s, level, msg) == s
    {
    }

    /** A message that is not empty, while logging. */
    method Send(level: nat, strMsg: array<Byte>, szMsgLength: nat) returns (ok: bool)
      requires Valid() && strMsg != ring.data && 0 < szMsgLength <= strMsg.Length && logging
      modifies this, ring, ring.data
      ensures Valid() && Abs() == PostStep(Cfg(), old(Abs()), level, strMsg[..szMsgLength])
      ensures ok <==> accepted == old(accepted) + 1
    {
      hide PostStep, FlushFlags, Wrap, MultiWriteRingBuffer.Valid, MultiWriteRingBuffer.Holds;
      ghost var (s, msg) := (Abs(), strMsg[..szMsgLength]);
      var n := szMsgLength % UINT32;
      assert msg[..n] == strMsg[..n];
      ok := Append(strMsg, n);
      Account(level, msg[..n], ok);
      PostIs(Cfg(), s, level, msg, ok, Abs());
    }

    /** The ring's part of a post: nothing but its queue changes. */
    method Append(strMsg: array<Byte>, n: nat) returns (ok: bool)
      requires Valid() && strMsg != ring.data && n <= strMsg.Length && n < UINT32
      modifies ring, ring.data
      ensures Valid() && (ok <==> n <= Cfg().cap - |old(ring.queue)|)
      ensures Abs() == old(Abs()).(ring := old(ring.queue) + (if ok then strMsg[..n] else []))
    {
      hide MultiWriteRingBuffer.Holds;
      ok := ring.Write(strMsg, n);
    }

    /** What follows the ring's answer in `Write`. */
    method Account(level: nat, ghost m: seq<Byte>, ok: bool)
      requires Valid()
      modifies this
      ensures Valid() && accepted == old(accepted) + (if ok then 1 else 0)
      ensures ok ==> Abs() == old(Abs()).(posted := old(posted) + m, attempted := old(attempted) + 1,
        accepted := old(accepted) + 1, flags := FlushFlags(old(flags), level, |ring.queue|))
      ensures !ok ==> Abs() == old(Abs()).(loss := (old(loss) + 1) % UINT32, attempted := old(attempted) + 1,
        rejected := old(rejected) + 1)
    {
      attempted := attempted + 1;
      if ok {
        posted := posted + m;
        accepted := accepted + 1;
        if level <= LEVEL_FAULT || (ring.dataOfBytes > WRITE_CACHE_SIZE && !flags.flush) {
          flags := flags.(flush := true);
        }
      } else {
        loss := (loss + 1) % UINT32;
        rejected := rejected + 1;
      }
    }

    /** The test at the head of `Stop`. */
    method StopTest() returns (mark: bool)
      requires Valid()
      modifies this
      ensures Valid() && Abs() == Step(Cfg(), old(Abs()), LogWriterSpec.StopTest)
      ensures mark <==> ring.queue != []
    {
      if ring.dataOfBytes == 0 {
        logging := false;
        return false;
      }
      return true;
    }

    /** The flag set by `Stop` when the test found data. */
    method StopMark()
      requires Valid()
      modifies this
      ensures Valid() && Abs() == Step(Cfg(), old(Abs()), LogWriterSpec.StopMark)
    {
      flags := flags.(eof := true);
    }

    /** The head of the outer loop, with the result of opening a file. */
    method OpenFile(success: bool)
      requires Valid()
      modifies this
      ensures Valid() && Abs() == OpenStep(old(Abs()), success)
    {
      if phase.Opening? {
        if logging && !phase.eof && success {
          phase := Writing(LogFile([], [], 0, true, false));
        } else {
          logging := false;
          phase := Finished;
        }
      }
    }

    /** One iteration of the inner loop. */
    method Iteration(w0: int, w1: int, w2: int)
      requires Valid()
      modifies this, ring
      ensures Valid() && Abs() == IterateStep(Cfg(), old(Abs()), w0, w1, w2)
    {
      if !phase.Writing? {
        return;
      }
      if !logging {
        CloseFile(false, false);
        return;
      }
      if ring.dataOfBytes == 0 {
        return;
      }
      var failed := DrainRing(w0, w1);
      if failed {
        CloseFile(true, false);
        return;
      }
      FinishIteration(w2);
    }

    /** The part of an iteration that follows a successful drain. */
    method FinishIteration(w2: int)
      requires Valid() && phase.Writing?
      modifies this
      ensures Valid() && Abs() == Finish(Cfg(), old(Abs()), old(phase.file), w2)
    {
      var failed := ReportLoss(w2);
      if failed || flags.eof {
        CloseFile(true, false);
        return;
      }
      flags := NO_FLAGS;
      if phase.file.counted >= maxFile {
        CloseFile(false, true);
      }
    }

    method CloseFile(eof: bool, rotated: bool)
      requires Valid() && phase.Writing?
      modifies this
      ensures Valid() && Abs() == Close(old(Abs()), old(phase.file), eof, rotated)
    {
      closed := closed + [phase.file.(rotated := rotated)];
      phase := Opening(eof);
    }

    /** The two writes of a peeked block, with their short results. */
    method WriteSlices(b: Block, w0: int, w1: int) returns (done: Block, out: seq<Byte>, failed: bool)
      requires Valid() && b.slice0 + b.size0 <= ring.data.Length && b.slice1 + b.size1 <= ring.data.Length
      requires ring.data[b.slice0..b.slice0 + b.size0] + ring.data[b.slice1..b.slice1 + b.size1] == ring.queue
      ensures DrainOf(b.size0, b.size1, w0, w1) == Drain(done.size0 + done.size1, failed)
      ensures done.size0 + done.size1 <= |ring.queue| && out == ring.queue[..done.size0 + done.size1]
    {
      hide MultiWriteRingBuffer.Holds, SysWrite;
      done, out, failed := b.(size0 := 0, size1 := 0), [], false;
      ghost var s0, s1 := ring.data[b.slice0..b.slice0 + b.size0], ring.data[b.slice1..b.slice1 + b.size1];
      var r0 := SysWrite(w0, b.size0);
      if r0 < 0 {
        failed := true;
        return;
      }
      out := SliceBytes(b.slice0, b.size0, r0);
      TakenPart(s0, s1, r0);
      done := done.(size0 := r0);
      if r0 == b.size0 && b.size1 > 0 {
        var r1 := SysWrite(w1, b.size1);
        if r1 < 0 {
          failed := true;
          return;
        }
        var more := SliceBytes(b.slice1, b.size1, r1);
        TakenPart(s0, s1, r0 + r1);
        out := out + more;
        done := done.(size1 := r1);
      }
    }

    /** The first bytes of a slice of the storage. */
    method SliceBytes(start: nat, size: nat, n: nat) returns (out: seq<Byte>)
      requires start + size <= ring.data.Length && n <= size
      ensures out == ring.data[start..start + size][..n]
    {
      ArrayPart(ring.data, start, size, n);
      out := ring.data[start..start + n];
    }

    static lemma ArrayPart(a: array<Byte>, lo: nat, size: nat, n: nat)
      requires lo + size <= a.Length && n <= size
      ensures a[lo..lo + n] == a[lo..lo + size][..n]
    {
    }

    static lemma TakenPart(s0: seq<Byte>, s1: seq<Byte>, n: nat)
      requires n <= |s0| + |s1|
      ensures n <= |s0| ==> (s0 + s1)[..n] == s0[..n]
      ensures |s0| <= n ==> (s0 + s1)[..n] == s0[..|s0|] + s1[..n - |s0|]
    {
    }

    /** Peek, the two writes, and Readed. */
    method DrainRing(w0: int, w1: int) returns (failed: bool)
      requires Valid() && phase.Writing? && ring.queue != []
      modifies this, ring
      ensures Valid()
      ensures var n0 := Slice0(Cfg().cap, old(ring.begin), |old(ring.queue)|);
        && 0 <= n0 <= |old(ring.queue)|
        && var d := DrainOf(n0, |old(ring.queue)| - n0, w0, w1);
           failed == d.failed && Abs() == TakeBytes(Cfg(), old(Abs()), old(phase.file), d)
    {
      hide DrainOf, Wrap, MultiWriteRingBuffer.Holds;
      var file := phase.file;
      var b := ring.Peek();
      var done, out, error := WriteSlices(b, w0, w1);
      failed := error;
      file := file.(content := file.content + out, payload := file.payload + out,
                    counted := if failed then file.counted else file.counted + (done.size0 + done.size1));
      Release(done);
      phase := Writing(file);
    }

    /** Readed, with what has been written out. */
    method Release(done: Block)
      requires Valid() && done.size0 + done.size1 <= |ring.queue|
      modifies ring
      ensures Valid()
      ensures var n := done.size0 + done.size1;
        Abs() == old(Abs()).(ring := old(ring.queue)[n..], begin := Wrap(Cfg().cap, old(ring.begin) + n))
    {
      hide Wrap, MultiWriteRingBuffer.Holds;
      ghost var begin := ring.begin;
      var released := ring.Readed(done);
      assert begin + done.size0 + done.size1 == begin + (done.size0 + done.size1);
    }

    method ReportLoss(w2: int) returns (failed: bool)
      requires Valid() && phase.Writing?
      modifies this
      ensures Valid()
      ensures var (t, g, f) := Report(old(Abs()), old(phase.file), w2);
        failed == f && Abs() == t.(phase := Writing(if failed then old(phase.file) else g))
      ensures IsDecimal(Digits(old(loss)), old(loss))
      ensures old(loss) > 0 && w2 >= LONGEST_BANNER ==>
        loss == 0 && phase.file.content == old(phase.file.content) + HEAD + Digits(old(loss)) + TAIL
    {
      BannerText(loss);
      hide Digits, Banner;
      if loss == 0 {
        return false;
      }
      var banner := Banner(loss);
      reported := reported + loss;
      loss := 0;
      var r := SysWrite(w2, |banner|);
      if r < 0 {
        return true;
      }
      var f := phase.file;
      phase := Writing(f.(content := f.content + banner[..r], counted := f.counted + |banner|,
                          whole := f.whole && r == |banner|));
      return false;
    }

    /** A whole run: the writing thread's steps interleaved with the callers'. */
    method Drive(es: seq<Event>)
      requires Valid()
      modifies this, ring, ring.data
      ensures Valid() && Abs() == Run(Cfg(), old(Abs()), es)
    {
      ghost var s0 := Abs();
      for i := 0 to |es|
        invariant Valid() && Run(Cfg(), s0, es) == Run(Cfg(), Abs(), es[i..])
      {
        assert es[i..][1..] == es[i + 1..];
        match es[i] {
          case Post(level, msg) =>
            var a := new Byte[|msg|](k requires 0 <= k < |msg| => msg[k]);
            assert a[..|msg|] == msg;
            var ok := Write(level, a, |msg|);
          case StopTest => var mark := StopTest();
          case StopMark => StopMark();
          case Open(ok) => OpenFile(ok);
          case Iterate(w0, w1, w2) => Iteration(w0, w1, w2);
        }
      }
    }
  }
}
