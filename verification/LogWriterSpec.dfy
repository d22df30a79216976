/**
 The log file writer at the granularity of one call of `Write`, one of the two
 steps of `Stop`, one file opening and one iteration of the writing loop.
 Results of the operating system are parameters.
 */
module LogWriterSpec {
  import opened Machine
  import opened RingIndex

  /** The two bits of the flags word, FLAG_LOG_FLUSH and FLAG_LOG_EOF. */
  datatype Flags = Flags(flush: bool, eof: bool)

  const NO_FLAGS := Flags(false, false)
  const WRITE_CACHE_SIZE := 2048
  const LEVEL_FAULT := 3
  const LONGEST_BANNER := 32

  /** `content` is what the file holds, `payload` the part of it that came from
      the ring, `counted` the writer's own byte count, and `whole` tells whether
      every loss banner was written in full. */
  datatype LogFile = LogFile(content: seq<Byte>, payload: seq<Byte>, counted: nat, whole: bool, rotated: bool)

  datatype Phase = Opening(eof: bool) | Writing(file: LogFile) | Finished

  datatype Config = Config(cap: nat, maxFile: nat)

  /** `posted` to `reported` are history: the bytes accepted, the non-trivial
      writes attempted while logging, accepted and rejected, and the losses
      taken for banners. */
  datatype State = State(
    ring: seq<Byte>, begin: nat, loss: nat, flags: Flags, logging: bool,
    phase: Phase, closed: seq<LogFile>,
    posted: seq<Byte>, attempted: nat, accepted: nat, rejected: nat, reported: nat)

  datatype Event =
    | Post(level: nat, msg: seq<Byte>)
    | StopTest
    | StopMark
    | Open(ok: bool)
    | Iterate(w0: int, w1: int, w2: int)

  function Init(): State {
    State([], 0, 0, NO_FLAGS, true, Opening(false), [], [], 0, 0, 0, 0)
  }

  function Step(c: Config, s: State, e: Event): State
    requires c.cap > 0
  {
    match e
    case Post(level, msg) => PostStep(c, s, level, msg)
    case StopTest => if s.ring == [] then s.(logging := false) else s
    case StopMark => s.(flags := s.flags.(eof := true))
    case Open(ok) => OpenStep(s, ok)
    case Iterate(w0, w1, w2) => IterateStep(c, s, w0, w1, w2)
  }

  /** A null or empty message is the empty sequence here. */
  function PostStep(c: Config, s: State, level: nat, msg: seq<Byte>): State {
    if msg == [] || !s.logging then s
    else
      var m := msg[..|msg| % UINT32];
      if |m| <= c.cap - |s.ring| then
        s.(ring := s.ring + m, posted := s.posted + m, attempted := s.attempted + 1, accepted := s.accepted + 1,
           flags := FlushFlags(s.flags, level, |s.ring| + |m|))
      else
        s.(loss := (s.loss + 1) % UINT32, attempted := s.attempted + 1, rejected := s.rejected + 1)
  }

  /** The two outcomes of a post that is not dropped at once. */
  lemma PostIs(c: Config, s: State, level: nat, msg: seq<Byte>, ok: bool, t: State)
    requires msg != [] && s.logging && (ok <==> |msg| % UINT32 <= c.cap - |s.ring|)
    requires t == (
      var m := msg[..|msg| % UINT32];
      if ok then
        s.(ring := s.ring + m, posted := s.posted + m, attempted := s.attempted + 1, accepted := s.accepted + 1,
           flags := FlushFlags(s.flags, level, |s.ring| + |m|))
      else
        s.(loss := (s.loss + 1) % UINT32, attempted := s.attempted + 1, rejected := s.rejected + 1))
    ensures t == PostStep(c, s, level, msg)
  {
  }

  function FlushFlags(flags: Flags, level: nat, bytes: nat): Flags {
    if level <= LEVEL_FAULT || (bytes > WRITE_CACHE_SIZE && !flags.flush) then
      flags.(flush := true)
    else flags
  }

  function OpenStep(s: State, ok: bool): State {
    match s.phase
    case Opening(eof) =>
      if s.logging && !eof && ok then s.(phase := Writing(LogFile([], [], 0, true, false)))
      else s.(phase := Finished, logging := false)
    case _ => s
  }

  /** What `write` returns when asked for `n` bytes: an error or a count up to `n`. */
  function SysWrite(w: int, n: nat): (r: int)
    ensures -1 <= r <= n
  {
    if w < 0 then -1 else if w <= n then w else n
  }

  function Slice0(cap: nat, begin: nat, n: nat): int {
    if begin + n <= cap then n else cap - begin
  }

  /** How many ring bytes one iteration writes and releases, and whether it
      met an error. */
  datatype Drain = Drain(taken: nat, failed: bool)

  function DrainOf(n0: nat, n1: nat, w0: int, w1: int): (d: Drain)
    ensures d.taken <= n0 + n1
  {
    var r0 := SysWrite(w0, n0);
    if r0 < 0 then Drain(0, true)
    else if r0 < n0 || n1 == 0 then Drain(r0, false)
    else
      var r1 := SysWrite(w1, n1);
      if r1 < 0 then Drain(n0, true) else Drain(n0 + r1, false)
  }

  function Digits(n: nat): seq<Byte> {
    if n < 10 then [48 + n] else Digits(n / 10) + [48 + n % 10]
  }

  function Bytes(s: string): (b: seq<Byte>)
    ensures |b| == |s|
  {
    seq(|s|, i requires 0 <= i < |s| => if s[i] < 128 as char then s[i] as int else 0)
  }

  function Banner(loss: nat): seq<Byte> {
    Bytes("\n!!!!Log Loss ") + Digits(loss) + Bytes(" Block.\n")
  }

  function TakeBytes(c: Config, s: State, f: LogFile, d: Drain): State
    requires c.cap > 0 && d.taken <= |s.ring|
  {
    var out := s.ring[..d.taken];
    var g := f.(content := f.content + out, payload := f.payload + out,
                counted := if d.failed then f.counted else f.counted + d.taken);
    s.(ring := s.ring[d.taken..], begin := Wrap(c.cap, s.begin + d.taken), phase := Writing(g))
  }

  /** The loss banner; true when writing it failed. */
  function Report(s: State, f: LogFile, w2: int): (State, LogFile, bool) {
    if s.loss == 0 then (s, f, false)
    else
      var b := Banner(s.loss);
      var r := SysWrite(w2, |b|);
      var t := s.(loss := 0, reported := s.reported + s.loss);
      if r < 0 then (t, f, true)
      else (t, f.(content := f.content + b[..r], counted := f.counted + |b|, whole := f.whole && r == |b|), false)
  }

  function Close(s: State, f: LogFile, eof: bool, rotated: bool): State {
    s.(closed := s.closed + [f.(rotated := rotated)], phase := Opening(eof))
  }

  function IterateStep(c: Config, s: State, w0: int, w1: int, w2: int): State
    requires c.cap > 0
  {
    match s.phase
    case Writing(f) =>
      if !s.logging then Close(s, f, false, false)
      else if s.ring == [] then s
      else
        var n0 := Slice0(c.cap, s.begin, |s.ring|);
        if !(0 <= n0 <= |s.ring|) then s
        else
          var d := DrainOf(n0, |s.ring| - n0, w0, w1);
          var t := TakeBytes(c, s, f, d);
          if d.failed then Close(t, t.phase.file, true, false)
          else Finish(c, t, t.phase.file, w2)
    case _ => s
  }

  function Finish(c: Config, s: State, f: LogFile, w2: int): State {
    var (t, g, failed) := Report(s, f, w2);
    if failed || t.flags.eof then Close(t, g, true, false)
    else if g.counted >= c.maxFile then Close(t.(flags := NO_FLAGS), g, false, true)
    else t.(flags := NO_FLAGS, phase := Writing(g))
  }

  function Run(c: Config, s: State, es: seq<Event>): State
    requires c.cap > 0
    decreases |es|
  {
    if es == [] then s else Run(c, Step(c, s, es[0]), es[1..])
  }

  // ---- The invariant

  function Payload(files: seq<LogFile>): seq<Byte> {
    if files == [] then [] else Payload(files[..|files| - 1]) + files[|files| - 1].payload
  }

  /** The payload bytes of all files, in writing order. */
  function Written(s: State): seq<Byte> {
    Payload(s.closed) + (if s.phase.Writing? then s.phase.file.payload else [])
  }

  ghost predicate StreamInv(c: Config, s: State) {
    |s.ring| <= c.cap && s.begin < c.cap && Written(s) + s.ring == s.posted
  }

  ghost predicate LedgerInv(s: State) {
    && s.loss < UINT32
    && s.accepted + s.rejected == s.attempted
    && (s.reported + s.loss - s.rejected) % UINT32 == 0
  }

  ghost predicate RotatedWithin(c: Config, f: LogFile) {
    && c.maxFile <= f.counted < c.maxFile + c.cap + LONGEST_BANNER
    && (f.whole ==> |f.content| == f.counted)
  }

  ghost predicate SizeInv(c: Config, s: State) {
    && (s.phase.Writing? ==>
          && s.phase.file.counted < c.maxFile
          && (s.phase.file.whole ==> |s.phase.file.content| == s.phase.file.counted))
    && forall i :: 0 <= i < |s.closed| && s.closed[i].rotated ==> RotatedWithin(c, s.closed[i])
  }

  ghost predicate Inv(c: Config, s: State) {
    StreamInv(c, s) && LedgerInv(s) && SizeInv(c, s)
  }
}
