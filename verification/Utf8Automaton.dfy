/** The table-driven UTF-8 automaton and the grammar it accepts.  Shifts and masks
    are written as division and remainder. */
module Utf8Automaton {
  import opened Machine

  type Octet = x: int | 0 <= x < 0x100

  const START := 0
  const REJECT := 8

  // ---- The automaton of the source

  /** The packed table: the categories of the bytes from 0x80 on, eight to a
      word, and from entry 16 on the successors of each category. */
  function StateInfo(i: nat): nat
    requires i < 32
  {
    [ 0x11111111, 0x11111111, 0x77777777, 0x77777777, 0x88888888, 0x88888888, 0x88888888, 0x88888888,
      0x22222299, 0x22222222, 0x22222222, 0x22222222, 0x3333333a, 0x33433333, 0x9995666b, 0x99999999,
      0x88888880, 0x22818108, 0x88888881, 0x88888882, 0x88888884, 0x88888887, 0x88888886, 0x82218108,
      0x82281108, 0x88888888, 0x88888883, 0x88888885, 0, 0, 0, 0 ][i]
  }

  /** `w >> (k << 2) & 0xf`. */
  function Nibble(w: nat, k: nat): (r: nat)
    requires k < 8
    ensures r < 16
  {
    match k
    case 0 => w % 16
    case 1 => w / 0x10 % 16
    case 2 => w / 0x100 % 16
    case 3 => w / 0x1000 % 16
    case 4 => w / 0x1_0000 % 16
    case 5 => w / 0x10_0000 % 16
    case 6 => w / 0x100_0000 % 16
    case _ => w / 0x1000_0000 % 16
  }

  function Category(b: Octet): (r: nat)
    ensures r < 16
  {
    if b < 128 then 0 else Nibble(StateInfo(b / 8 % 16), b % 8)
  }

  /** `0xff >> category & b`. */
  function LeadBits(category: nat, b: Octet): nat {
    if category == 0 then b
    else if category == 1 then b % 128
    else if category == 2 then b % 64
    else if category == 3 then b % 32
    else if category == 4 then b % 16
    else if category == 5 then b % 8
    else if category == 6 then b % 4
    else if category == 7 then b % 2
    else 0
  }

  /** `consumeUtf8Fragment`: the next state and the code point so far. */
  function Consume(state: nat, b: Octet, codepoint: nat): (r: (nat, nat))
    requires state <= REJECT
    ensures r.0 < 16
  {
    var category := Category(b);
    var next := if state == REJECT then REJECT else Nibble(StateInfo(category + 16), state);
    (next, if state != START then codepoint * 64 % UINT32 + b % 64 else LeadBits(category, b))
  }

  // ---- The same by ranges

  function CategoryOf(b: Octet): nat {
    if b < 0x80 then 0
    else if b < 0x90 then 1
    else if b < 0xa0 then 7
    else if b < 0xc0 then 8
    else if b < 0xc2 then 9
    else if b < 0xe0 then 2
    else if b == 0xe0 then 10
    else if b == 0xed then 4
    else if b < 0xf0 then 3
    else if b == 0xf0 then 11
    else if b < 0xf4 then 6
    else if b == 0xf4 then 5
    else 9
  }

  lemma CategoryIs(b: Octet)
    ensures Category(b) == CategoryOf(b)
  {
    if b >= 128 {
      Row(b / 8 % 16, b % 8);
      assert b == 128 + 8 * (b / 8 % 16) + b % 8;
      hide Nibble, StateInfo;
    }
  }

  /** One entry of the packed categories. */
  lemma Row(i: nat, k: nat)
    requires i < 16 && k < 8
    ensures Nibble(StateInfo(i), k) == CategoryOf(128 + 8 * i + k)
  {
    var w := StateInfo(i);
    if i < 8 {
      assert w == if i < 2 then 0x11111111 else if i < 4 then 0x77777777 else 0x88888888;
      hide StateInfo;
    } else if i < 12 {
      assert w == if i == 8 then 0x22222299 else 0x22222222;
      hide StateInfo;
    } else {
      assert w == if i == 12 then 0x3333333a else if i == 13 then 0x33433333
                  else if i == 14 then 0x9995666b else 0x99999999;
      hide StateInfo;
    }
  }

  /** The successor by category; 1, 7 and 8 are the trailing bytes. */
  function SuccessorOf(state: nat, category: nat): nat {
    match state
    case 0 => (match category
               case 0 => 0
               case 2 => 1
               case 3 => 2
               case 4 => 4
               case 5 => 7
               case 6 => 6
               case 10 => 3
               case 11 => 5
               case _ => REJECT)
    case 1 => if category == 1 || category == 7 || category == 8 then 0 else REJECT
    case 2 => if category == 1 || category == 7 || category == 8 then 1 else REJECT
    case 3 => if category == 8 then 1 else REJECT
    case 4 => if category == 1 || category == 7 then 1 else REJECT
    case 5 => if category == 7 || category == 8 then 2 else REJECT
    case 6 => if category == 1 || category == 7 || category == 8 then 2 else REJECT
    case 7 => if category == 1 then 2 else REJECT
    case _ => REJECT
  }

  lemma Successor(category: nat, state: nat)
    requires category < 12 && state < 8
    ensures Nibble(StateInfo(category + 16), state) == SuccessorOf(state, category)
  {
    if category < 6 { SuccessorLow(category, state); } else { SuccessorHigh(category, state); }
  }

  lemma SuccessorLow(category: nat, state: nat)
    requires category < 6 && state < 8
    ensures Nibble(StateInfo(category + 16), state) == SuccessorOf(state, category)
  {
    var w := StateInfo(category + 16);
    assert w == if category == 0 then 0x88888880 else if category == 1 then 0x22818108
                else if category == 2 then 0x88888881
                else if category == 3 then 0x88888882 else if category == 4 then 0x88888884 else 0x88888887;
    hide StateInfo;
  }

  lemma SuccessorHigh(category: nat, state: nat)
    requires 6 <= category < 12 && state < 8
    ensures Nibble(StateInfo(category + 16), state) == SuccessorOf(state, category)
  {
    var w := StateInfo(category + 16);
    assert w == if category == 6 then 0x88888886 else if category == 7 then 0x82218108
                else if category == 8 then 0x82281108
                else if category == 9 then 0x88888888 else if category == 10 then 0x88888883 else 0x88888885;
    hide StateInfo;
  }

  // ---- The grammar of section 4 of RFC 3629

  predicate Tail(b: Octet) {
    0x80 <= b <= 0xbf
  }

  predicate Utf8Char(s: seq<Octet>) {
    || (|s| == 1 && s[0] <= 0x7f)
    || (|s| == 2 && 0xc2 <= s[0] <= 0xdf && Tail(s[1]))
    || (|s| == 3 && Tail(s[2]) && (
        || (s[0] == 0xe0 && 0xa0 <= s[1] <= 0xbf)
        || (0xe1 <= s[0] <= 0xec && Tail(s[1]))
        || (s[0] == 0xed && 0x80 <= s[1] <= 0x9f)
        || (0xee <= s[0] <= 0xef && Tail(s[1]))))
    || (|s| == 4 && Tail(s[2]) && Tail(s[3]) && (
        || (s[0] == 0xf0 && 0x90 <= s[1] <= 0xbf)
        || (0xf1 <= s[0] <= 0xf3 && Tail(s[1]))
        || (s[0] == 0xf4 && 0x80 <= s[1] <= 0x8f)))
  }

  /** A sequence of characters. */
  predicate Utf8Octets(s: seq<Octet>) {
    || s == []
    || exists n :: 1 <= n <= |s| && Utf8Char(s[..n]) && Utf8Octets(s[n..])
  }

  // ---- The automaton accepts the grammar

  /** The state after a byte, by ranges. */
  function NextOf(state: nat, b: Octet): nat {
    match state
    case 0 => if b <= 0x7f then 0 else if b < 0xc2 then REJECT else if b <= 0xdf then 1
              else if b == 0xe0 then 3 else if b == 0xed then 4 else if b <= 0xef then 2
              else if b == 0xf0 then 5 else if b <= 0xf3 then 6 else if b == 0xf4 then 7 else REJECT
    case 1 => if Tail(b) then 0 else REJECT
    case 2 => if Tail(b) then 1 else REJECT
    case 3 => if 0xa0 <= b <= 0xbf then 1 else REJECT
    case 4 => if 0x80 <= b <= 0x9f then 1 else REJECT
    case 5 => if 0x90 <= b <= 0xbf then 2 else REJECT
    case 6 => if Tail(b) then 2 else REJECT
    case 7 => if 0x80 <= b <= 0x8f then 2 else REJECT
    case _ => REJECT
  }

  /** The table means the ranges. */
  lemma TransitionIs(state: nat, b: Octet, codepoint: nat)
    requires state <= REJECT
    ensures Consume(state, b, codepoint).0 == NextOf(state, b) <= REJECT
  {
    CategoryIs(b);
    hide Nibble, StateInfo, Category;
    if state < REJECT {
      Successor(Category(b), state);
    }
  }

  /** The state after a string. */
  function Run(state: nat, s: seq<Octet>): nat
    requires state <= REJECT
    decreases |s|
  {
    if s == [] then state else Run(NextOf(state, s[0]), s[1..])
  }

  /** The bytes that a state waits for. */
  function Pending(state: nat): nat {
    match state
    case 0 => 0
    case 1 => 1
    case 2 | 3 | 4 => 2
    case _ => 3
  }

  predicate Completes(state: nat, t: seq<Octet>) {
    |t| == Pending(state) && state < REJECT &&
    match state
    case 0 => true
    case 1 => Tail(t[0])
    case 2 => Tail(t[0]) && Tail(t[1])
    case 3 => 0xa0 <= t[0] <= 0xbf && Tail(t[1])
    case 4 => 0x80 <= t[0] <= 0x9f && Tail(t[1])
    case 5 => 0x90 <= t[0] <= 0xbf && Tail(t[1]) && Tail(t[2])
    case 6 => Tail(t[0]) && Tail(t[1]) && Tail(t[2])
    case _ => 0x80 <= t[0] <= 0x8f && Tail(t[1]) && Tail(t[2])
  }

  /** A lead byte fixes the length and the form of its character. */
  lemma CharByLead(s: seq<Octet>)
    requires s != []
    ensures Utf8Char(s) <==> Completes(NextOf(0, s[0]), s[1..])
  {
    assert |s| > 1 ==> s[1..][0] == s[1];
    assert |s| > 2 ==> s[1..][1] == s[2];
    assert |s| > 3 ==> s[1..][2] == s[3];
  }

  lemma CompleteStep(state: nat, t: seq<Octet>)
    requires 0 < state < REJECT && t != []
    ensures Completes(state, t) <==> Completes(NextOf(state, t[0]), t[1..])
    ensures NextOf(state, t[0]) < REJECT ==> Pending(NextOf(state, t[0])) == Pending(state) - 1
  {
    assert |t| > 1 ==> t[1..][0] == t[1];
    assert |t| > 2 ==> t[1..][1] == t[2];
  }

  /** What is left to accept in a state: its pending bytes, then characters. */
  predicate AcceptsFrom(state: nat, s: seq<Octet>) {
    |s| >= Pending(state) && Completes(state, s[..Pending(state)]) && Utf8Octets(s[Pending(state)..])
  }

  /** The character at the front of a string is the one its lead byte announces. */
  lemma FirstChar(s: seq<Octet>)
    requires s != []
    ensures Utf8Octets(s) <==> AcceptsFrom(NextOf(0, s[0]), s[1..])
  {
    var p := Pending(NextOf(0, s[0]));
    if AcceptsFrom(NextOf(0, s[0]), s[1..]) {
      CharByLead(s[..p + 1]);
      assert s[..p + 1][1..] == s[1..][..p] && s[p + 1..] == s[1..][p..];
    }
    if Utf8Octets(s) {
      var n :| 1 <= n <= |s| && Utf8Char(s[..n]) && Utf8Octets(s[n..]);
      CharByLead(s[..n]);
      assert s[..n][1..] == s[1..][..n - 1] && s[n..] == s[1..][n - 1..];
    }
  }

  lemma {:induction false} RunAccepts(state: nat, s: seq<Octet>)
    requires state <= REJECT
    ensures Run(state, s) == START <==> AcceptsFrom(state, s)
    decreases |s|
  {
    hide Utf8Octets;
    if s == [] {
      NothingIsValid();
    } else {
      RunAccepts(NextOf(state, s[0]), s[1..]);
      if state == START {
        FirstChar(s);
        assert s[..0] == [] && s[0..] == s;
      } else if state < REJECT {
        PendingStep(state, s);
      }
    }
  }

  lemma NothingIsValid()
    ensures Utf8Octets([])
  {
  }

  lemma PendingStep(state: nat, s: seq<Octet>)
    requires 0 < state < REJECT && s != []
    ensures AcceptsFrom(state, s) <==> AcceptsFrom(NextOf(state, s[0]), s[1..])
  {
    hide Utf8Octets, Completes;
    var p := Pending(state);
    if |s| >= p {
      CompleteStep(state, s[..p]);
      assert s[..p][1..] == s[1..][..p - 1] && s[p..] == s[1..][p - 1..];
      RejectCompletesNothing(s[..p][1..]);
    } else {
      CompleteStep(state, s);
    }
    RejectCompletesNothing(s[1..][..if |s| > 3 then 3 else 0]);
  }

  lemma RejectCompletesNothing(t: seq<Octet>)
    ensures !Completes(REJECT, t)
  {
  }

  /** `validUtf8` accepts exactly the grammar. */
  method ValidUtf8(s: seq<Octet>) returns (valid: bool)
    ensures valid <==> Utf8Octets(s)
  {
    hide Utf8Octets, Consume;
    RunAccepts(START, s);
    assert s[..0] == [] && s[0..] == s;
    var state: nat := START;
    var codepoint: nat := 0;
    for i := 0 to |s|
      invariant state < REJECT && Run(state, s[i..]) == Run(START, s)
    {
      TransitionIs(state, s[i], codepoint);
      var (next, c) := Consume(state, s[i], codepoint);
      state, codepoint := next, c;
      assert s[i..][1..] == s[i + 1..];
      if state == REJECT {
        StaysRejected(s[i + 1..]);
        return false;
      }
    }
    return state == START;
  }

  lemma {:induction false} StaysRejected(s: seq<Octet>)
    ensures Run(REJECT, s) == REJECT
    decreases |s|
  {
    if s != [] { StaysRejected(s[1..]); }
  }
}
