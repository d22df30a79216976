/** The ring buffer called by one thread at a time, over its real storage array. */
module RingBuffer {
  import opened Machine
  import opened RingIndex

  /** Two slices of the storage; the second is used when the data wraps around. */
  datatype Block = Block(slice0: nat, size0: nat, slice1: nat, size1: nat)

  class MultiWriteRingBuffer {
    const data: array<Byte>
    var begin: nat
    var writable: nat
    var end: nat
    var dataOfBytes: nat
    /** The bytes held, oldest first. */
    ghost var queue: seq<Byte>

    /** The slot of the `k`-th byte after `begin`. */
    static function Slot(cap: nat, start: nat, k: nat): int {
      if start + k < cap then start + k else start + k - cap
    }

    /** How far slot `x` lies after `start`, going round. */
    static function Offset(cap: nat, start: nat, x: nat): int {
      if x >= start then x - start else x + cap - start
    }

    /** The counter and the storage describe `queue`. */
    ghost predicate Holds()
      reads this, data
    {
      && dataOfBytes == |queue| <= data.Length
      && end == writable
      && (if data.Length == 0 then begin == writable == 0 else begin < data.Length && writable < data.Length)
      && forall k :: 0 <= k < |queue| ==> data[Slot(data.Length, begin, k)] == queue[k]
    }

    /** And the next write goes right behind the queue. */
    ghost predicate Valid()
      reads this, data
    {
      Holds() && (data.Length > 0 ==> writable == Slot(data.Length, begin, |queue|))
    }

    constructor (szBytes: nat)
      ensures Valid() && fresh(data) && data.Length == szBytes && queue == [] && begin == 0
    {
      data := new Byte[szBytes](_ => 0);
      begin, writable, end, dataOfBytes := 0, 0, 0, 0;
      queue := [];
    }

    /** `pData` may be null.  Alone, the compare-exchange succeeds at once.  The
        addition to the counter truncates the length to 32 bits, so only shorter
        messages are appended whole. */
    method Write(pData: array?<Byte>, szBytes: nat) returns (ok: bool)
      requires Valid() && pData != data && (pData != null ==> szBytes <= pData.Length)
      modifies this, data
      ensures ok <==> szBytes <= data.Length - |old(queue)|
      ensures begin == old(begin)
      ensures !ok || pData == null ==> Valid() && queue == old(queue)
      ensures ok && pData != null ==> Holds() && queue == old(queue) + pData[..szBytes % UINT32]
      ensures ok && pData != null ==> (queue == old(queue) + pData[..szBytes] <==> szBytes < UINT32)
      ensures szBytes < UINT32 ==> Valid()
      ensures ok && pData != null && 0 < szBytes ==> writable == Wrap(data.Length, old(writable) + szBytes)
    {
      if FreeBytes(data.Length, dataOfBytes) < szBytes {
        return false;
      }
      if pData == null || szBytes == 0 {
        return true;
      }
      ghost var (cap, q, msg) := (data.Length, queue, pData[..szBytes]);
      var start := writable;
      var next := start + szBytes;
      while next >= data.Length
        invariant 0 <= next && (next == start + szBytes || next == start + szBytes - data.Length)
        invariant Wrap(data.Length, next) == Wrap(data.Length, start + szBytes)
      {
        next := next - data.Length;
      }
      writable := next;
      CopyIn(pData, szBytes, start);
      end := next;
      dataOfBytes := dataOfBytes + szBytes % UINT32;
      queue := q + msg[..ModUint32(szBytes)];
      WholeMessageIffShort(q, msg);
      assert msg[..ModUint32(szBytes)] == pData[..szBytes % UINT32];
      forall k | 0 <= k < |queue| ensures data[Slot(cap, begin, k)] == queue[k] {
        if k < |q| {
          assert Offset(cap, start, Slot(cap, begin, k)) >= szBytes;
        } else {
          assert Slot(cap, begin, k) == Slot(cap, start, k - |q|);
        }
      }
      return true;
    }

    /** The one or two memcpy calls of `Write`. */
    method CopyIn(pData: array<Byte>, szBytes: nat, start: nat)
      requires pData != data && szBytes <= pData.Length && szBytes <= data.Length && start < data.Length
      modifies data
      ensures forall k :: 0 <= k < szBytes ==> data[Slot(data.Length, start, k)] == pData[k]
      ensures forall x :: 0 <= x < data.Length && Offset(data.Length, start, x) >= szBytes ==> data[x] == old(data[x])
    {
      if szBytes + start <= data.Length {
        forall k | 0 <= k < szBytes {
          data[start + k] := pData[k];
        }
      } else {
        var slice0 := data.Length - start;
        forall k | 0 <= k < slice0 {
          data[start + k] := pData[k];
        }
        forall k | 0 <= k < szBytes - slice0 {
          data[k] := pData[slice0 + k];
        }
      }
    }

    /** The whole queue, as one slice or two. */
    method Peek() returns (b: Block)
      requires Holds()
      ensures b.slice0 + b.size0 <= data.Length && b.slice1 + b.size1 <= data.Length
      ensures data[b.slice0..b.slice0 + b.size0] + data[b.slice1..b.slice1 + b.size1] == queue
      ensures b.size1 > 0 ==> b.slice0 + b.size0 == data.Length && b.slice1 == 0
      ensures queue != [] ==> b.size0 > 0
      ensures b.slice0 == begin && b.size0 + b.size1 == |queue|
      ensures b.size0 == if begin + |queue| <= data.Length then |queue| else data.Length - begin
    {
      if begin + dataOfBytes <= data.Length {
        b := Block(begin, dataOfBytes, 0, 0);
        assert forall k :: 0 <= k < |queue| ==> Slot(data.Length, begin, k) == begin + k || begin + k == data.Length;
      } else {
        var size0 := data.Length - begin;
        b := Block(begin, size0, 0, dataOfBytes - size0);
        assert data[begin..data.Length] == queue[..size0];
        forall k | 0 <= k < dataOfBytes - size0 ensures data[k] == queue[size0..][k] {
          assert data[Slot(data.Length, begin, size0 + k)] == queue[size0 + k];
        }
        assert data[0..dataOfBytes - size0] == queue[size0..];
      }
    }

    /** Releases as many bytes as the block's sizes add up to.  On a buffer of
        capacity zero the index loop would not end, unless the test refuses first. */
    method Readed(b: Block) returns (ok: bool)
      requires Holds() && (data.Length > 0 || b.size0 + b.size1 > |queue|)
      modifies this
      ensures Holds() && old(Valid()) ==> Valid()
      ensures Holds()
      ensures ok <==> b.size0 + b.size1 <= |old(queue)|
      ensures queue == if ok then old(queue)[b.size0 + b.size1..] else old(queue)
      ensures ok ==> begin == Wrap(data.Length, old(begin) + b.size0 + b.size1)
    {
      var szBytes := b.size0 + b.size1;
      if szBytes > dataOfBytes {
        return false;
      }
      var newBegin := begin + szBytes;
      while newBegin >= data.Length
        invariant 0 <= newBegin && (newBegin == begin + szBytes || newBegin == begin + szBytes - data.Length)
        invariant Wrap(data.Length, newBegin) == Wrap(data.Length, begin + szBytes)
      {
        newBegin := newBegin - data.Length;
      }
      forall k | 0 <= k < |queue| - szBytes
        ensures data[Slot(data.Length, newBegin, k)] == queue[szBytes..][k]
      {
        assert Slot(data.Length, newBegin, k) == Slot(data.Length, begin, szBytes + k);
      }
      dataOfBytes := dataOfBytes - szBytes;
      begin := newBegin;
      queue := queue[szBytes..];
      return true;
    }
  }

  // ---- The bounded queue the class refines

  datatype Call = Put(msg: seq<Byte>) | Take(n: nat)

  function QueueStep(cap: nat, q: seq<Byte>, c: Call): (bool, seq<Byte>) {
    match c
    case Put(msg) => if |q| + |msg| <= cap then (true, q + msg) else (false, q)
    case Take(n) => if n <= |q| then (true, q[n..]) else (false, q)
  }

  function QueueRun(cap: nat, q: seq<Byte>, calls: seq<Call>): (seq<bool>, seq<Byte>)
    decreases |calls|
  {
    if calls == [] then ([], q)
    else
      var (oks, r) := QueueRun(cap, q, calls[..|calls| - 1]);
      var (ok, r') := QueueStep(cap, r, calls[|calls| - 1]);
      (oks + [ok], r')
  }

  /** The bytes that entered, and the bytes that left, over a run. */
  function Entered(cap: nat, q: seq<Byte>, calls: seq<Call>): seq<Byte>
    decreases |calls|
  {
    if calls == [] then []
    else
      var (last, before) := (calls[|calls| - 1], calls[..|calls| - 1]);
      var r := QueueRun(cap, q, before).1;
      Entered(cap, q, before) + (if last.Put? && QueueStep(cap, r, last).0 then last.msg else [])
  }

  function Left(cap: nat, q: seq<Byte>, calls: seq<Call>): seq<Byte>
    decreases |calls|
  {
    if calls == [] then []
    else
      var (last, before) := (calls[|calls| - 1], calls[..|calls| - 1]);
      var r := QueueRun(cap, q, before).1;
      Left(cap, q, before) + (if last.Take? && QueueStep(cap, r, last).0 then r[..last.n] else [])
  }

  /** Conservation: what left followed by what is held is what was held
      followed by what entered, and the capacity is never exceeded. */
  lemma {:induction false} QueueConserves(cap: nat, q: seq<Byte>, calls: seq<Call>)
    requires |q| <= cap
    ensures Left(cap, q, calls) + QueueRun(cap, q, calls).1 == q + Entered(cap, q, calls)
    ensures |QueueRun(cap, q, calls).1| <= cap
    decreases |calls|
  {
    if calls == [] {
      assert Left(cap, q, calls) + q == q + Entered(cap, q, calls);
    } else {
      var (last, before) := (calls[|calls| - 1], calls[..|calls| - 1]);
      QueueConserves(cap, q, before);
      var r := QueueRun(cap, q, before).1;
      var (l, e) := (Left(cap, q, before), Entered(cap, q, before));
      assert l + r == q + e;
      match last
      case Put(msg) =>
        if |r| + |msg| <= cap {
          assert (l + []) + (r + msg) == (l + r) + msg && q + (e + msg) == (q + e) + msg;
        } else {
          assert l + [] == l && e + [] == e;
        }
      case Take(n) =>
        if n <= |r| {
          assert (l + r[..n]) + r[n..] == l + r && q + (e + []) == q + e;
        } else {
          assert l + [] == l && e + [] == e;
        }
    }
  }

  /** Answer `i` tells whether the message fitted, or that many bytes were there,
      after the calls before it. */
  lemma {:induction false} QueueAnswers(cap: nat, q: seq<Byte>, calls: seq<Call>, i: nat)
    requires i < |calls|
    ensures |QueueRun(cap, q, calls).0| == |calls|
    ensures var held := |QueueRun(cap, q, calls[..i]).1|;
      && (calls[i].Put? ==> (QueueRun(cap, q, calls).0[i] <==> held + |calls[i].msg| <= cap))
      && (calls[i].Take? ==> (QueueRun(cap, q, calls).0[i] <==> calls[i].n <= held))
    decreases |calls|
  {
    var before := calls[..|calls| - 1];
    if i < |before| {
      QueueAnswers(cap, q, before, i);
      assert before[..i] == calls[..i];
    } else if i > 0 {
      QueueAnswers(cap, q, before, 0);
    }
  }

  ghost predicate ShortPuts(calls: seq<Call>) {
    forall i :: 0 <= i < |calls| && calls[i].Put? ==> |calls[i].msg| < UINT32
  }

  /** Any sequence of calls with messages below 2^32 bytes drives the class
      through exactly the bounded queue's results and contents. */
  method Replay(ring: MultiWriteRingBuffer, calls: seq<Call>) returns (oks: seq<bool>)
    requires ring.Valid() && ring.data.Length > 0 && ShortPuts(calls)
    modifies ring, ring.data
    ensures ring.Valid()
    ensures (oks, ring.queue) == QueueRun(ring.data.Length, old(ring.queue), calls)
  {
    oks := [];
    for i := 0 to |calls|
      invariant ring.Valid()
      invariant (oks, ring.queue) == QueueRun(ring.data.Length, old(ring.queue), calls[..i])
    {
      assert calls[..i + 1][..i] == calls[..i];
      var ok := ReplayOne(ring, calls[i]);
      oks := oks + [ok];
    }
    assert calls[..|calls|] == calls;
  }

  method ReplayOne(ring: MultiWriteRingBuffer, c: Call) returns (ok: bool)
    requires ring.Valid() && ring.data.Length > 0 && (c.Put? ==> |c.msg| < UINT32)
    modifies ring, ring.data
    ensures ring.Valid()
    ensures (ok, ring.queue) == QueueStep(ring.data.Length, old(ring.queue), c)
  {
    match c
    case Put(msg) =>
      var a := new Byte[|msg|](i requires 0 <= i < |msg| => msg[i]);
      assert a[..|msg|] == msg;
      ok := ring.Write(a, |msg|);
    case Take(n) =>
      ok := ring.Readed(Block(0, n, 0, 0));
  }

  /** The truncation matters: a write of `szBytes` into a ring that has room
      appends the message exactly when its length is below 2^32. */
  lemma WholeMessageIffShort(q: seq<Byte>, msg: seq<Byte>)
    ensures q + msg[..ModUint32(|msg|)] == q + msg <==> |msg| < UINT32
  {
    if |msg| < UINT32 {
      assert msg[..|msg|] == msg;
    } else {
      assert |q + msg[..ModUint32(|msg|)]| < |q + msg|;
    }
  }

  function ModUint32(n: nat): (r: nat)
    ensures r <= n
    ensures n < UINT32 <==> r == n
  {
    n % UINT32
  }
}
