/** The UTF-8 encoder, the conversions to and from UTF-16, and their round trips. */
module Utf8 {
  import opened Machine
  import opened Utf8Automaton

  type Unit = x: int | 0 <= x < 0x1_0000

  const REPLACEMENT := 0xfffd

  // ---- The encoder

  predicate IsSurrogate(c: nat) {
    0xd800 <= c <= 0xdfff
  }

  predicate IsScalar(c: nat) {
    c <= 0x10ffff && !IsSurrogate(c)
  }

  /** The bytes of `appendUTF8`, which replaces what is not a scalar value. */
  function Encode(c: nat): (r: seq<Octet>)
    ensures r != []
  {
    if c <= 0x7f then [c]
    else if c <= 0x7ff then [c / 64 + 192, c % 64 + 128]
    else if IsScalar(c) && c <= 0xffff then [c / 4096 + 224, c % 4096 / 64 + 128, c % 64 + 128]
    else if IsScalar(c) then [c / 262144 + 240, c % 262144 / 4096 + 128, c % 4096 / 64 + 128, c % 64 + 128]
    else [0xef, 0xbf, 0xbd]
  }

  method AppendUtf8(text: seq<Octet>, unicode: nat) returns (longer: seq<Octet>)
    requires unicode < UINT32
    ensures longer == text + Encode(unicode)
    decreases if IsScalar(unicode) then 0 else 1
  {
    longer := text;
    if unicode <= 0x7f {
      longer := longer + [unicode];
    } else if 0x80 <= unicode <= 0x7ff {
      longer := longer + [unicode / 64 + 192];
      longer := longer + [unicode % 64 + 128];
    } else if 0x800 <= unicode <= 0xd7ff || 0xe000 <= unicode <= 0xffff {
      longer := longer + [unicode / 4096 + 224];
      longer := longer + [unicode % 4096 / 64 + 128];
      longer := longer + [unicode % 64 + 128];
    } else if 0x10000 <= unicode <= 0x10ffff {
      longer := longer + [unicode / 262144 + 240];
      longer := longer + [unicode % 262144 / 4096 + 128];
      longer := longer + [unicode % 4096 / 64 + 128];
      longer := longer + [unicode % 64 + 128];
    } else {
      assert REPLACEMENT / 4096 + 224 == 0xef;
      assert REPLACEMENT % 4096 / 64 + 128 == 0xbf && REPLACEMENT % 64 + 128 == 0xbd;
      longer := AppendUtf8(longer, REPLACEMENT);
    }
  }

  /** Every encoding is one character of the grammar. */
  lemma EncodeIsChar(c: nat)
    ensures Utf8Char(Encode(c))
  {
  }

  /** A trailing byte appended to the bits so far. */
  function Join(bits: int, b: int): int {
    bits * 64 + (b - 128)
  }

  /** The scalar value whose encoding a character is. */
  function CharValue(s: seq<Octet>): int
    requires Utf8Char(s)
  {
    var lead: int := s[0];
    if |s| == 1 then lead
    else if |s| == 2 then Join(lead - 192, s[1])
    else if |s| == 3 then Join(Join(lead - 224, s[1]), s[2])
    else Join(Join(Join(lead - 240, s[1]), s[2]), s[3])
  }

  /** The digits that the encoder takes out of a code point are those to base 64. */
  lemma Base64(c: nat)
    ensures c / 4096 == c / 64 / 64 && c / 262144 == c / 64 / 64 / 64
    ensures c % 4096 / 64 == c / 64 % 64 && c % 262144 / 4096 == c / 64 / 64 % 64
    ensures c % 4096 % 64 == c % 64
  {
  }

  lemma Unjoin(bits: nat, b: int)
    requires 128 <= b < 192
    ensures Join(bits, b) / 64 == bits && Join(bits, b) % 64 == b - 128
  {
  }

  /** Every character of the grammar is an encoding. */
  lemma CharIsEncode(s: seq<Octet>)
    requires Utf8Char(s)
    ensures IsScalar(CharValue(s)) && Encode(CharValue(s)) == s
  {
    var lead: int := s[0];
    if |s| == 1 {
      assert s == [s[0]];
    } else if |s| == 2 {
      Unjoin(lead - 192, s[1]);
      assert s == [s[0], s[1]];
    } else if |s| == 3 {
      Char3(lead, s[1], s[2]);
      assert s == [s[0], s[1], s[2]];
    } else {
      Char4(lead, s[1], s[2], s[3]);
      assert s == [s[0], s[1], s[2], s[3]];
    }
  }

  lemma Char3(b0: Octet, b1: Octet, b2: Octet)
    requires Utf8Char([b0, b1, b2])
    ensures var c := Join(Join(b0 as int - 224, b1), b2); IsScalar(c) && Encode(c) == [b0, b1, b2]
  {
    var lead: int := b0;
    Unjoin(Join(lead - 224, b1), b2);
    Unjoin(lead - 224, b1);
    Base64(Join(Join(lead - 224, b1), b2));
  }

  lemma Char4(b0: Octet, b1: Octet, b2: Octet, b3: Octet)
    requires Utf8Char([b0, b1, b2, b3])
    ensures var c := Join(Join(Join(b0 as int - 240, b1), b2), b3); IsScalar(c) && Encode(c) == [b0, b1, b2, b3]
  {
    var lead: int := b0;
    var c1 := Join(lead - 240, b1);
    var c2 := Join(c1, b2);
    var c := Join(c2, b3);
    Unjoin(c2, b3);
    Unjoin(c1, b2);
    Unjoin(lead - 240, b1);
    Base64(c);
  }

  // ---- From UTF-8 to UTF-16

  /** The units of a code point, cut to 16 bits each. */
  function Units(c: nat): seq<Unit> {
    if c <= 0xffff then [c] else [((c - 0x10000) / 1024 + 0xd800) % 0x1_0000, (c - 0x10000) % 1024 + 0xdc00]
  }

  /** The units that the bytes `s` give from a state and a code point so far. */
  function Decoded(state: nat, codepoint: nat, s: seq<Octet>): seq<Unit>
    requires state < REJECT
    decreases |s|
  {
    if s == [] then if state != START then [REPLACEMENT] else []
    else
      TransitionIs(state, s[0], codepoint);
      var (next, c) := Consume(state, s[0], codepoint);
      if next == START then Units(c) + Decoded(START, 0, s[1..])
      else if next == REJECT then [REPLACEMENT] + Decoded(START, 0, s[1..])
      else Decoded(next, c, s[1..])
  }

  method FromUtf8(s: seq<Octet>) returns (result: seq<Unit>)
    ensures result == Decoded(START, 0, s)
  {
    hide Consume, NextOf, Units;
    result := [];
    var state: nat := START;
    var codepoint: nat := 0;
    assert s[0..] == s;
    for i := 0 to |s|
      invariant state < REJECT && result + Decoded(state, codepoint, s[i..]) == Decoded(START, 0, s)
    {
      TransitionIs(state, s[i], codepoint);
      assert s[i..][0] == s[i] && s[i..][1..] == s[i + 1..];
      var (next, c) := Consume(state, s[i], codepoint);
      state, codepoint := next, c;
      if state == START {
        result := result + Units(codepoint);
        codepoint := 0;
      } else if state == REJECT {
        result := result + [REPLACEMENT];
        state, codepoint := START, 0;
      }
    }
    if state != START {
      result := result + [REPLACEMENT];
    }
  }

  /** Trailing bytes appended to the bits so far. */
  function JoinAll(bits: int, t: seq<Octet>): int
    decreases |t|
  {
    if t == [] then bits else JoinAll(Join(bits, t[0]), t[1..])
  }

  function BitsBound(state: nat): nat {
    if Pending(state) == 3 then 8 else if Pending(state) == 2 then 512 else 32768
  }

  lemma TrailingIsTail(state: nat, b: Octet)
    requires 0 < state < REJECT && NextOf(state, b) != REJECT
    ensures 128 <= b < 192 && BitsBound(state) <= 32768
    ensures NextOf(state, b) != START ==> BitsBound(NextOf(state, b)) == 64 * BitsBound(state)
  {
  }

  lemma JoinIs(codepoint: nat, b: Octet)
    requires 128 <= b < 192 && codepoint <= 32768
    ensures codepoint * 64 % UINT32 + b % 64 == Join(codepoint, b) < 64 * codepoint + 64
  {
  }

  lemma TrailingByte(state: nat, b: Octet, codepoint: nat)
    requires 0 < state < REJECT && NextOf(state, b) != REJECT && codepoint < BitsBound(state)
    ensures Consume(state, b, codepoint) == (NextOf(state, b), Join(codepoint, b))
    ensures 0 <= Join(codepoint, b) && (NextOf(state, b) != START ==> Join(codepoint, b) < BitsBound(NextOf(state, b)))
  {
    TransitionIs(state, b, codepoint);
    TrailingIsTail(state, b);
    JoinIs(codepoint, b);
    hide Category, Nibble, StateInfo, NextOf, Join, BitsBound;
  }

  function BitsOfLead(b: Octet): int {
    var lead: int := b;
    if lead < 0x80 then lead else if lead < 0xe0 then lead - 192 else if lead < 0xf0 then lead - 224 else lead - 240
  }

  lemma BitsAre(b: Octet)
    requires NextOf(0, b) != REJECT
    ensures LeadBits(CategoryOf(b), b) == BitsOfLead(b)
    ensures NextOf(0, b) != START ==> BitsOfLead(b) < BitsBound(NextOf(0, b))
  {
  }

  lemma LeadByte(b: Octet, codepoint: nat)
    requires NextOf(0, b) != REJECT
    ensures Consume(0, b, codepoint) == (NextOf(0, b), BitsOfLead(b))
    ensures NextOf(0, b) != START ==> 0 <= BitsOfLead(b) < BitsBound(NextOf(0, b))
  {
    TransitionIs(0, b, codepoint);
    CategoryIs(b);
    BitsAre(b);
    hide Category, Nibble, StateInfo, NextOf, CategoryOf, LeadBits, BitsBound;
  }

  /** The pending bytes complete the code point; no shorter run of them does. */
  lemma {:induction false} DecodePending(state: nat, codepoint: nat, t: seq<Octet>, rest: seq<Octet>)
    requires 0 < state < REJECT && Completes(state, t) && codepoint < BitsBound(state)
    ensures JoinAll(codepoint, t) >= 0
    ensures Decoded(state, codepoint, t + rest) == Units(JoinAll(codepoint, t)) + Decoded(START, 0, rest)
    decreases |t|
  {
    CompleteStep(state, t);
    RejectCompletesNothing(t[1..]);
    hide Units, Consume, Join;
    TrailingByte(state, t[0], codepoint);
    assert (t + rest)[0] == t[0] && (t + rest)[1..] == t[1..] + rest;
    var next := NextOf(state, t[0]);
    if next != START {
      DecodePending(next, Join(codepoint, t[0]), t[1..], rest);
    } else {
      NothingPending(t[1..]);
      assert t[1..] + rest == rest;
    }
  }

  lemma NothingPending(t: seq<Octet>)
    requires Completes(0, t)
    ensures t == []
  {
  }

  lemma JoinedIsValue(s: seq<Octet>)
    requires Utf8Char(s)
    ensures CharValue(s) == JoinAll(BitsOfLead(s[0]), s[1..])
  {
    var lead: int := s[0];
    if |s| == 2 {
      Joined(lead - 192, s[1], s[2..]);
    } else if |s| == 3 {
      Joined(lead - 224, s[1], s[2..]);
      Joined(Join(lead - 224, s[1]), s[2], s[3..]);
    } else if |s| == 4 {
      Joined(lead - 240, s[1], s[2..]);
      Joined(Join(lead - 240, s[1]), s[2], s[3..]);
      Joined(Join(Join(lead - 240, s[1]), s[2]), s[3], s[4..]);
      assert s[3..] == [s[3]] + s[4..];
    }
    assert |s| > 1 ==> s[1..] == [s[1]] + s[2..];
    assert |s| > 2 ==> s[2..] == [s[2]] + s[3..];
  }

  lemma Joined(bits: int, b: Octet, t: seq<Octet>)
    ensures JoinAll(bits, [b] + t) == JoinAll(Join(bits, b), t)
  {
    assert ([b] + t)[1..] == t;
  }

  /** What the lead byte of a character starts. */
  lemma LeadOfChar(s: seq<Octet>)
    requires Utf8Char(s)
    ensures s != [] && NextOf(0, s[0]) < REJECT && Completes(NextOf(0, s[0]), s[1..])
    ensures Consume(0, s[0], 0) == (NextOf(0, s[0]), BitsOfLead(s[0]))
    ensures NextOf(0, s[0]) != START ==> 0 <= BitsOfLead(s[0]) < BitsBound(NextOf(0, s[0]))
    ensures NextOf(0, s[0]) == START ==> s == [s[0]] && CharValue(s) == BitsOfLead(s[0])
  {
    CharByLead(s);
    JoinedIsValue(s);
    RejectCompletesNothing(s[1..]);
    LeadByte(s[0], 0);
    hide Consume, CharValue, NextOf, Completes, JoinAll, BitsOfLead, BitsBound;
    if NextOf(0, s[0]) == START {
      NothingPending(s[1..]);
      JoinNothing(BitsOfLead(s[0]));
      assert s == [s[0]] + s[1..];
    }
  }

  /** A character at the front decodes to its own units. */
  lemma DecodeChar(s: seq<Octet>, rest: seq<Octet>)
    requires Utf8Char(s)
    ensures CharValue(s) >= 0 && Decoded(START, 0, s + rest) == Units(CharValue(s)) + Decoded(START, 0, rest)
  {
    hide Units, Consume, CharValue, Utf8Char, NextOf, Completes, JoinAll, BitsOfLead, BitsBound, Encode;
    LeadOfChar(s);
    JoinedIsValue(s);
    CharIsEncode(s);
    assert (s + rest)[0] == s[0] && (s + rest)[1..] == s[1..] + rest;
    if NextOf(0, s[0]) == START {
      assert s[1..] + rest == rest;
    } else {
      DecodePending(NextOf(0, s[0]), BitsOfLead(s[0]), s[1..], rest);
    }
  }

  lemma JoinNothing(bits: int)
    ensures JoinAll(bits, []) == bits
  {
  }

  /** Feeds bytes to the automaton one by one. */
  function Feed(state: nat, codepoint: nat, s: seq<Octet>): (nat, nat)
    requires state <= REJECT
    decreases |s|
  {
    if s == [] then (state, codepoint)
    else
      TransitionIs(state, s[0], codepoint);
      var (next, c) := Consume(state, s[0], codepoint);
      Feed(next, c, s[1..])
  }

  lemma {:induction false} FeedPending(state: nat, codepoint: nat, t: seq<Octet>)
    requires 0 < state < REJECT && Completes(state, t) && codepoint < BitsBound(state)
    ensures JoinAll(codepoint, t) >= 0 && Feed(state, codepoint, t) == (START, JoinAll(codepoint, t))
    decreases |t|
  {
    CompleteStep(state, t);
    RejectCompletesNothing(t[1..]);
    hide Consume, Join;
    TrailingByte(state, t[0], codepoint);
    if NextOf(state, t[0]) != START {
      FeedPending(NextOf(state, t[0]), Join(codepoint, t[0]), t[1..]);
    } else {
      NothingPending(t[1..]);
    }
  }

  /** Feeding the encoding of a scalar value to the automaton leaves it at its
      start with the value as the code point, whatever the code point before. */
  lemma EncodingIsFed(c: nat, before: nat)
    requires IsScalar(c)
    ensures Feed(START, before, Encode(c)) == (START, c)
  {
    var s := Encode(c);
    EncodeIsChar(c);
    EncodeValue(c);
    CharByLead(s);
    JoinedIsValue(s);
    RejectCompletesNothing(s[1..]);
    LeadByte(s[0], before);
    hide Consume, CharValue, Utf8Char, NextOf, Completes, JoinAll, Encode;
    if NextOf(0, s[0]) == START {
      NothingPending(s[1..]);
      JoinNothing(c);
    } else {
      FeedPending(NextOf(0, s[0]), Consume(0, s[0], before).1, s[1..]);
    }
  }

  /** No shorter part of an encoding is accepted or refused. */
  lemma EncodingIsNeverEarly(c: nat, k: nat)
    requires IsScalar(c) && 0 < k < |Encode(c)|
    ensures 0 < Run(START, Encode(c)[..k]) < REJECT
  {
    var s := Encode(c);
    EncodeIsChar(c);
    CharByLead(s);
    RejectCompletesNothing(s[1..]);
    hide Encode, Utf8Char, NextOf, Completes;
    assert s[..k][0] == s[0] && s[..k][1..] == s[1..][..k - 1];
    PendingRun(NextOf(0, s[0]), s[1..], k - 1);
  }

  lemma {:induction false} PendingRun(state: nat, t: seq<Octet>, k: nat)
    requires state < REJECT && Completes(state, t) && k <= |t|
    ensures k == |t| ==> Run(state, t[..k]) == START
    ensures k < |t| ==> 0 < Run(state, t[..k]) < REJECT
    decreases k
  {
    if state == START {
      NothingPending(t);
    } else if k > 0 {
      CompleteStep(state, t);
      RejectCompletesNothing(t[1..]);
      PendingRun(NextOf(state, t[0]), t[1..], k - 1);
      assert t[..k][0] == t[0] && t[..k][1..] == t[1..][..k - 1];
    }
  }

  lemma EncodeValue(c: nat)
    requires IsScalar(c)
    ensures Utf8Char(Encode(c)) && CharValue(Encode(c)) == c
  {
    EncodeIsChar(c);
    Base64(c);
    Digits64(c);
    Digits64(c / 64);
    Digits64(c / 64 / 64);
  }

  lemma Digits64(c: nat)
    ensures Join(c / 64, c % 64 + 128) == c
  {
  }

  // ---- What is refused

  /** Some bytes that complete a character from a state. */
  function Completion(state: nat): (t: seq<Octet>)
    requires state < REJECT
    ensures Completes(state, t)
  {
    match state
    case 0 => []
    case 1 => [0x80]
    case 2 | 4 => [0x80, 0x80]
    case 3 => [0xa0, 0x80]
    case 5 => [0x90, 0x80, 0x80]
    case _ => [0x80, 0x80, 0x80]
  }

  /** The front of a character can end in any way that its state allows. */
  lemma {:induction false} OtherEnding(state: nat, t: seq<Octet>, u: seq<Octet>, v: seq<Octet>)
    requires 0 < state < REJECT && Completes(state, t + u) && u != [] && Completes(Run(state, t), v)
    ensures Completes(state, t + v)
    decreases |t|
  {
    hide NextOf;
    if t == [] {
      assert t + v == v;
    } else {
      var next := NextOf(state, t[0]);
      FrontStep(state, t, u);
      OtherEnding(next, t[1..], u, v);
      CompleteStep(state, t + v);
      assert (t + v)[1..] == t[1..] + v;
    }
  }

  lemma FrontStep(state: nat, t: seq<Octet>, u: seq<Octet>)
    requires 0 < state < REJECT && t != [] && Completes(state, t + u) && u != []
    ensures 0 < NextOf(state, t[0]) < REJECT && Completes(NextOf(state, t[0]), t[1..] + u)
  {
    var w := t[1..] + u;
    assert (t + u)[1..] == w;
    CompleteStep(state, t + u);
    RejectCompletesNothing(w);
    hide NextOf, Completes;
    if NextOf(state, t[0]) == START { NothingPending(w); }
  }

  lemma {:induction false} DecodeRefused(state: nat, codepoint: nat, t: seq<Octet>, u: seq<Octet>, rest: seq<Octet>)
    requires 0 < state < REJECT && Completes(state, t + u) && u != []
    ensures rest == [] ==> Decoded(state, codepoint, t + rest) == [REPLACEMENT]
    ensures rest != [] && NextOf(Run(state, t), rest[0]) == REJECT ==>
      Decoded(state, codepoint, t + rest) == [REPLACEMENT] + Decoded(START, 0, rest[1..])
    decreases |t|
  {
    hide NextOf, Consume, Units, Completes;
    if t == [] {
      assert t + rest == rest;
      if rest != [] { TransitionIs(state, rest[0], codepoint); }
    } else {
      FrontStep(state, t, u);
      TransitionIs(state, t[0], codepoint);
      assert (t + rest)[0] == t[0] && (t + rest)[1..] == t[1..] + rest;
      DecodeRefused(NextOf(state, t[0]), Consume(state, t[0], codepoint).1, t[1..], u, rest);
    }
  }

  /** A character cut off by the end of the string is replaced as a whole. */
  lemma TruncatedIsReplaced(t: seq<Octet>, u: seq<Octet>)
    requires t != [] && u != [] && Utf8Char(t + u)
    ensures Decoded(START, 0, t) == [0xfffd]
  {
    FrontLead(t, u);
    hide NextOf, Consume, Units, Completes, Utf8Char;
    TransitionIs(START, t[0], 0);
    DecodeRefused(NextOf(0, t[0]), Consume(START, t[0], 0).1, t[1..], u, []);
    assert t[1..] + [] == t[1..];
  }

  lemma FrontLead(t: seq<Octet>, u: seq<Octet>)
    requires t != [] && u != [] && Utf8Char(t + u)
    ensures 0 < NextOf(0, t[0]) < REJECT && Completes(NextOf(0, t[0]), t[1..] + u)
  {
    var w := t[1..] + u;
    assert (t + u)[1..] == w;
    CharByLead(t + u);
    RejectCompletesNothing(w);
    hide NextOf, Completes, Utf8Char;
    if NextOf(0, t[0]) == START { NothingPending(w); }
  }

  /** The front of a character, followed by a byte that no character has there, is
      replaced together with that byte, and decoding goes on behind it. */
  lemma RefusedIsReplaced(t: seq<Octet>, u: seq<Octet>, b: Octet, rest: seq<Octet>)
    requires t == [] || (u != [] && Utf8Char(t + u))
    requires forall v :: !Utf8Char(t + [b] + v)
    ensures Decoded(START, 0, t + [b] + rest) == [0xfffd] + Decoded(START, 0, rest)
  {
    hide Units, Consume, NextOf, Utf8Char, Completes;
    if t == [] {
      NoLead(b);
      assert (t + [b] + rest)[0] == b && (t + [b] + rest)[1..] == rest;
      TransitionIs(START, b, 0);
    } else {
      FrontLead(t, u);
      NoEnding(t, u, b);
      TransitionIs(START, t[0], 0);
      DecodeRefused(NextOf(0, t[0]), Consume(START, t[0], 0).1, t[1..], u, [b] + rest);
      assert ([b] + rest)[1..] == rest;
      assert (t + [b] + rest)[0] == t[0] && (t + [b] + rest)[1..] == t[1..] + ([b] + rest);
    }
  }

  lemma NoLead(b: Octet)
    requires forall v :: !Utf8Char([] + [b] + v)
    ensures NextOf(0, b) == REJECT
  {
    if NextOf(0, b) < REJECT {
      var v := Completion(NextOf(0, b));
      assert ([b] + v)[1..] == v && [] + [b] + v == [b] + v;
      CharByLead([b] + v);
    }
  }

  lemma NoEnding(t: seq<Octet>, u: seq<Octet>, b: Octet)
    requires t != [] && 0 < NextOf(0, t[0]) < REJECT && Completes(NextOf(0, t[0]), t[1..] + u) && u != []
    requires forall v :: !Utf8Char(t + [b] + v)
    ensures NextOf(Run(NextOf(0, t[0]), t[1..]), b) == REJECT
  {
    var state := Run(NextOf(0, t[0]), t[1..]);
    PendingAt(NextOf(0, t[0]), t[1..], u);
    if NextOf(state, b) < REJECT {
      var v := Completion(NextOf(state, b));
      assert ([b] + v)[1..] == v && (t + [b] + v)[1..] == t[1..] + ([b] + v);
      CompleteStep(state, [b] + v);
      OtherEnding(NextOf(0, t[0]), t[1..], u, [b] + v);
      CharByLead(t + [b] + v);
    }
  }

  lemma PendingAt(state: nat, t: seq<Octet>, u: seq<Octet>)
    requires 0 < state < REJECT && Completes(state, t + u) && u != []
    ensures 0 < Run(state, t) < REJECT
  {
    hide Completes, NextOf, Run;
    PendingRun(state, t + u, |t|);
    assert (t + u)[..|t|] == t;
  }

  // ---- From UTF-16 to UTF-8

  predicate IsHigh(c: nat) {
    0xd800 <= c < 0xdc00
  }

  predicate IsLow(c: nat) {
    0xdc00 <= c < 0xe000
  }

  /** The code point of a pair, as the source computes it in 32 bits. */
  function PairValue(high: nat, low: nat): nat {
    (high * 1024 + low - 0x35fdc00) % UINT32
  }

  /** The bytes that the units `u` give.  A surrogate that starts no pair is
      replaced together with the unit after it. */
  function Encoded(u: seq<Unit>): seq<Octet>
    decreases |u|
  {
    if u == [] then []
    else if !IsSurrogate(u[0]) then Encode(u[0]) + Encoded(u[1..])
    else if |u| > 1 && IsHigh(u[0]) && IsLow(u[1]) then Encode(PairValue(u[0], u[1])) + Encoded(u[2..])
    else Encode(REPLACEMENT) + if |u| == 1 then [] else Encoded(u[2..])
  }

  method ToUtf8(u: seq<Unit>) returns (result: seq<Octet>)
    ensures result == Encoded(u)
  {
    hide Encode;
    result := [];
    var i := 0;
    assert u[0..] == u;
    while i != |u|
      invariant i <= |u| && result + Encoded(u[i..]) == Encoded(u)
      decreases |u| - i
    {
      assert u[i..][0] == u[i] && u[i..][1..] == u[i + 1..];
      assert i + 1 < |u| ==> u[i..][1] == u[i + 1] && u[i..][2..] == u[i + 2..];
      var c := u[i];
      if IsSurrogate(c) {
        i := i + 1;
        if i != |u| && IsHigh(c) && IsLow(u[i]) {
          result := AppendUtf8(result, PairValue(c, u[i]));
        } else {
          result := AppendUtf8(result, REPLACEMENT);
          if i == |u| {
            break;
          }
        }
      } else {
        result := AppendUtf8(result, c);
      }
      i := i + 1;
    }
  }

  // ---- Round trips

  /** Well-formed UTF-16: surrogates come in pairs only. */
  predicate WellFormed16(u: seq<Unit>)
    decreases |u|
  {
    || u == []
    || (!IsSurrogate(u[0]) && WellFormed16(u[1..]))
    || (|u| > 1 && IsHigh(u[0]) && IsLow(u[1]) && WellFormed16(u[2..]))
  }

  /** A scalar value's units, and they alone, combine to it again. */
  lemma UnitsEncode(c: nat, rest: seq<Unit>)
    requires IsScalar(c)
    ensures Encoded(Units(c) + rest) == Encode(c) + Encoded(rest)
    ensures WellFormed16(rest) ==> WellFormed16(Units(c) + rest)
  {
    hide Encode;
    if c <= 0xffff {
      assert ([c] + rest)[1..] == rest;
    } else {
      var u := Units(c);
      assert u[0] == (c - 0x10000) / 1024 + 0xd800 && IsHigh(u[0]) && IsLow(u[1]);
      assert PairValue(u[0], u[1]) == c;
      assert (u + rest)[2..] == rest;
    }
  }

  /** A pair stands for the scalar value with those units. */
  lemma PairUnits(high: Unit, low: Unit)
    requires IsHigh(high) && IsLow(low)
    ensures IsScalar(PairValue(high, low)) && Units(PairValue(high, low)) == [high, low]
  {
    var c := PairValue(high, low);
    assert c == (high as int - 0xd800) * 1024 + (low as int - 0xdc00) + 0x10000;
  }

  /** An encoding at the front decodes to the value's units. */
  lemma EncodeDecodes(c: nat, rest: seq<Octet>)
    requires IsScalar(c)
    ensures Decoded(START, 0, Encode(c) + rest) == Units(c) + Decoded(START, 0, rest)
  {
    hide Encode, Units, Decoded, CharValue, Utf8Char;
    EncodeValue(c);
    DecodeChar(Encode(c), rest);
  }

  lemma {:induction false} WellFormedReturns(u: seq<Unit>)
    requires WellFormed16(u)
    ensures Decoded(START, 0, Encoded(u)) == u
    decreases |u|
  {
    hide Encode, Units, Decoded;
    if u == [] {
      NothingDecodes();
    } else if !IsSurrogate(u[0]) {
      WellFormedReturns(u[1..]);
      EncodeDecodes(u[0], Encoded(u[1..]));
      PlainUnit(u[0]);
      assert u == [u[0]] + u[1..];
    } else {
      WellFormedReturns(u[2..]);
      PairUnits(u[0], u[1]);
      EncodeDecodes(PairValue(u[0], u[1]), Encoded(u[2..]));
      assert u == [u[0], u[1]] + u[2..];
    }
  }

  lemma NothingDecodes()
    ensures Decoded(START, 0, []) == []
  {
  }

  lemma PlainUnit(c: Unit)
    ensures Units(c) == [c]
  {
  }

  /** What the return trip promises of a string. */
  predicate Returns(s: seq<Octet>) {
    Encoded(Decoded(START, 0, s)) == s && WellFormed16(Decoded(START, 0, s))
  }

  lemma CharReturns(s: seq<Octet>, rest: seq<Octet>)
    requires Utf8Char(s) && Returns(rest)
    ensures Returns(s + rest)
  {
    hide Encode, Units, Decoded, CharValue, Utf8Char, Encoded, WellFormed16;
    CharIsEncode(s);
    DecodeChar(s, rest);
    UnitsEncode(CharValue(s), Decoded(START, 0, rest));
  }

  lemma FrontChar(s: seq<Octet>) returns (x: seq<Octet>, rest: seq<Octet>)
    requires Utf8Octets(s) && s != []
    ensures Utf8Char(x) && Utf8Octets(rest) && s == x + rest && |rest| < |s|
  {
    var n :| 1 <= n <= |s| && Utf8Char(s[..n]) && Utf8Octets(s[n..]);
    x, rest := s[..n], s[n..];
  }

  lemma {:induction false} ValidReturns(s: seq<Octet>)
    requires Utf8Octets(s)
    ensures Returns(s)
    decreases |s|
  {
    if s == [] {
      NothingDecodes();
    } else {
      hide Returns, Utf8Char, Utf8Octets;
      var x, rest := FrontChar(s);
      ValidReturns(rest);
      CharReturns(x, rest);
    }
  }

  /** Whatever the units, the result is valid UTF-8. */
  lemma {:induction false} EncodedIsValid(u: seq<Unit>)
    ensures Utf8Octets(Encoded(u))
    decreases |u|
  {
    hide Encode, Utf8Char, Utf8Octets;
    if u == [] {
      NothingIsValid();
    } else if !IsSurrogate(u[0]) {
      EncodedIsValid(u[1..]);
      CharThenValid(u[0], Encoded(u[1..]));
    } else if |u| > 1 {
      EncodedIsValid(u[2..]);
      CharThenValid(PairValue(u[0], u[1]), Encoded(u[2..]));
      CharThenValid(REPLACEMENT, Encoded(u[2..]));
    } else {
      NothingIsValid();
      CharThenValid(REPLACEMENT, []);
    }
  }

  lemma CharThenValid(c: nat, rest: seq<Octet>)
    requires Utf8Octets(rest)
    ensures Utf8Octets(Encode(c) + rest)
  {
    EncodeIsChar(c);
    hide Encode, Utf8Char;
    var s := Encode(c) + rest;
    assert s[..|Encode(c)|] == Encode(c) && s[|Encode(c)|..] == rest;
  }

  /** UTF-16 survives the way to UTF-8 and back exactly when it is well formed. */
  lemma RoundTrip16(u: seq<Unit>)
    ensures Decoded(START, 0, Encoded(u)) == u <==> WellFormed16(u)
  {
    hide Decoded, Encoded, WellFormed16, Utf8Octets;
    if WellFormed16(u) { WellFormedReturns(u); }
    EncodedIsValid(u);
    ValidReturns(Encoded(u));
  }

  /** UTF-8 survives the way to UTF-16 and back exactly when it is valid. */
  lemma RoundTrip8(s: seq<Octet>)
    ensures Encoded(Decoded(START, 0, s)) == s <==> Utf8Octets(s)
  {
    hide Decoded, Encoded, WellFormed16, Utf8Octets;
    if Utf8Octets(s) { ValidReturns(s); }
    EncodedIsValid(Decoded(START, 0, s));
  }

  /** A surrogate that starts no pair is replaced by U+FFFD, together with the
      unit after it. */
  lemma LoneSurrogateIsReplaced(c: Unit, rest: seq<Unit>)
    requires 0xd800 <= c <= 0xdfff && !(c < 0xdc00 && rest != [] && 0xdc00 <= rest[0] <= 0xdfff)
    ensures Encoded([c] + rest) == [0xef, 0xbf, 0xbd] + Encoded(if rest == [] then [] else rest[1..])
  {
    hide Encode, PairValue;
    ReplacementBytes();
    if rest == [] {
      assert [c] + rest == [c];
    } else {
      assert ([c] + rest)[1] == rest[0] && ([c] + rest)[2..] == rest[1..];
    }
  }

  lemma ReplacementBytes()
    ensures Encode(REPLACEMENT) == [0xef, 0xbf, 0xbd]
  {
  }

  /** A surrogate without its partner takes the next unit with it. */
  lemma LoneSurrogateSwallows()
    ensures Encoded([0xd800, 0x41, 0x42]) == Encode(REPLACEMENT) + [0x42]
  {
    assert [0xd800, 0x41, 0x42][2..] == [0x42] && [0x42][1..] == [];
    assert Encode(0x42) == [0x42];
    assert Encoded([0x42]) == [0x42];
  }
}
