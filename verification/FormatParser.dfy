/** The format-string parser: its simple loop, its two-pass form for long strings,
    and the reference parser that both agree with. */
module FormatParser {
  import opened Machine
  import opened Multiplication

  // ---- What a handler sees

  datatype ArgRef = Automatic | Index(index: nat) | Named(name: string)

  /** A replacement field: the text before it, its argument and where its
      specifiers start and end. */
  datatype Field = Field(textBefore: nat, arg: ArgRef, id: int, from: nat, to: nat)

  /** All that a handler has been told: the fields and the text around them. */
  datatype Log = Log(fields: seq<Field>, text: string)

  /** `Fail` is a call of `on_error` or `report_error`, which do not return. */
  datatype Result<T> = Ok(value: T) | Fail(message: string)

  /** A deterministic handler: each answer depends on the call and on what came
      before, but not on how text was cut into calls.  `onSpecs` answers how many
      characters the specifiers take. */
  datatype Handler = Handler(
    onArgId: (Log, ArgRef) -> Result<int>,
    onField: (Log, int, nat) -> Result<()>,
    onSpecs: (Log, int, nat) -> Result<nat>)

  function AddText(log: Log, s: string): Log {
    log.(text := log.text + s)
  }

  function AddField(log: Log, arg: ArgRef, id: int, from: nat, to: nat): Log {
    log.(fields := log.fields + [Field(|log.text|, arg, id, from, to)])
  }

  // ---- Argument identifiers

  predicate IsDigit(c: char) {
    '0' <= c <= '9'
  }

  predicate IsNameStart(c: char) {
    'a' <= c <= 'z' || 'A' <= c <= 'Z' || c == '_'
  }

  /** In ASCII codes. */
  lemma CharClasses(c: char)
    ensures IsDigit(c) <==> 48 <= c as int <= 57
    ensures IsNameStart(c) <==> 65 <= c as int <= 90 || 97 <= c as int <= 122 || c as int == 95
  {
  }

  function DigitValue(c: char): nat
    requires IsDigit(c)
  {
    c as int - '0' as int
  }

  /** The end of the run of digits from `i` on. */
  function DigitsEnd(s: string, i: nat): (r: nat)
    requires i <= |s|
    ensures i <= r <= |s| && (forall k :: i <= k < r ==> IsDigit(s[k])) && (r < |s| ==> !IsDigit(s[r]))
    decreases |s| - i
  {
    if i < |s| && IsDigit(s[i]) then DigitsEnd(s, i + 1) else i
  }

  /** The number that the digits from `i` to `j` denote. */
  function Decimal(s: string, i: nat, j: nat): nat
    requires i <= j <= |s| && forall k :: i <= k < j ==> IsDigit(s[k])
    decreases j
  {
    if i == j then 0 else 10 * Decimal(s, i, j - 1) + DigitValue(s[j - 1])
  }

  lemma {:induction false} DecimalBound(s: string, i: nat, j: nat)
    requires i <= j <= |s| && forall k :: i <= k < j ==> IsDigit(s[k])
    ensures Decimal(s, i, j) < Pow(10, j - i)
    ensures i < j && s[i] != '0' ==> Decimal(s, i, j) >= Pow(10, j - i - 1)
    decreases j
  {
    if i < j { DecimalBound(s, i, j - 1); }
  }

  /** What is read for a run of digits: the number, or for one that is no int,
      or too long, the error value. */
  function IntegerOr(s: string, i: nat, j: nat, errorValue: int): int
    requires i < j <= |s| && forall k :: i <= k < j ==> IsDigit(s[k])
  {
    if j - i <= 10 && Decimal(s, i, j) <= INT_MAX then Decimal(s, i, j) else errorValue
  }

  /** Without a leading zero, length does not matter: the number is read exactly
      when it is an int. */
  lemma IntegerIsExact(s: string, i: nat, j: nat, errorValue: int)
    requires i < j <= |s| && (forall k :: i <= k < j ==> IsDigit(s[k])) && s[i] != '0'
    ensures IntegerOr(s, i, j, errorValue) == if Decimal(s, i, j) <= INT_MAX then Decimal(s, i, j) else errorValue
  {
    DecimalBound(s, i, j);
    TenDigits();
    hide Pow, Decimal;
    if j - i > 11 { PowGrows(10, 10, j - i - 1); }
  }

  lemma TenDigits()
    ensures Pow(10, 9) == 1_000_000_000 && Pow(10, 10) == 10_000_000_000
  {
    assert Pow(10, 5) == 100_000;
    PowAdd(10, 5, 4);
    PowAdd(10, 5, 5);
  }

  /** The loop of `parse_nonnegative_int`, in 32-bit arithmetic that wraps. */
  method ScanDigits(s: string, begin: nat) returns (value: nat, prev: nat, p: nat)
    requires begin < |s| && IsDigit(s[begin])
    ensures p == DigitsEnd(s, begin) > begin
    ensures value == Decimal(s, begin, p) % UINT32 && prev == Decimal(s, begin, p - 1) % UINT32
  {
    value, prev, p := 0, 0, begin;
    while p != |s| && IsDigit(s[p])
      invariant begin <= p <= |s| && (forall k :: begin <= k < p ==> IsDigit(s[k]))
      invariant DigitsEnd(s, p) == DigitsEnd(s, begin)
      invariant value == Decimal(s, begin, p) % UINT32
      invariant p > begin ==> prev == Decimal(s, begin, p - 1) % UINT32
      decreases |s| - p
    {
      WrapStep(Decimal(s, begin, p), DigitValue(s[p]));
      prev := value;
      value := (value * 10 + DigitValue(s[p])) % UINT32;
      p := p + 1;
    }
  }

  lemma WrapStep(x: nat, d: nat)
    ensures (x % UINT32 * 10 + d) % UINT32 == (10 * x + d) % UINT32
  {
    assert 10 * x + d == x % UINT32 * 10 + d + UINT32 * (10 * (x / UINT32));
  }

  /** `parse_nonnegative_int`. */
  method ParseNonnegativeInt(s: string, begin: nat, errorValue: int) returns (value: int, next: nat)
    requires begin < |s| && IsDigit(s[begin])
    ensures next == DigitsEnd(s, begin) > begin
    ensures value == IntegerOr(s, begin, next, errorValue)
  {
    var v, prev;
    v, prev, next := ScanDigits(s, begin);
    LastDigit(s, begin, next);
    assert Decimal(s, begin, next) == 10 * Decimal(s, begin, next - 1) + DigitValue(s[next - 1]);
    hide Decimal;
    var count := next - begin;
    if count <= 9 {
      return v, next;
    }
    value := if count == 10 && prev * 10 + DigitValue(s[next - 1]) <= INT_MAX then v else errorValue;
  }

  /** Up to nine digits never wrap. */
  lemma LastDigit(s: string, i: nat, j: nat)
    requires i < j <= |s| && forall k :: i <= k < j ==> IsDigit(s[k])
    ensures j - i <= 9 ==> Decimal(s, i, j) < 1_000_000_000
    ensures j - i == 10 ==> Decimal(s, i, j - 1) < 1_000_000_000
  {
    DecimalBound(s, i, j);
    DecimalBound(s, i, j - 1);
    TenDigits();
    hide Pow, Decimal;
    if j - i < 9 { PowGrows(10, j - i, 9); }
  }

  function NameEnd(s: string, i: nat): (r: nat)
    requires i <= |s|
    ensures i <= r <= |s|
    decreases |s| - i
  {
    if i < |s| && (IsNameStart(s[i]) || IsDigit(s[i])) then NameEnd(s, i + 1) else i
  }

  // ---- The messages of errors

  const INVALID := "invalid format string"
  const MISSING := "missing '}' in format string"
  const UNMATCHED := "unmatched '}' in format string"
  const UNKNOWN := "unknown format specifier"

  /** The argument identifier at `i`, and where it ends. */
  function ArgIdAt(s: string, i: nat): (r: Result<(ArgRef, nat)>)
    requires i < |s|
    ensures r.Ok? ==> i <= r.value.1 <= |s|
  {
    var c := s[i];
    if c == '}' || c == ':' then Ok((Automatic, i))
    else if IsDigit(c) then
      var end := if c == '0' then i + 1 else DigitsEnd(s, i);
      if end == |s| || (s[end] != '}' && s[end] != ':') then Fail(INVALID)
      else Ok((Index(if c == '0' then 0 else IntegerOr(s, i, end, INT_MAX)), end))
    else if !IsNameStart(c) then Fail(INVALID)
    else Ok((Named(s[i..NameEnd(s, i)]), NameEnd(s, i)))
  }

  /** `parse_arg_id`, which tells the handler what it found. */
  method ParseArgId(s: string, begin: nat, h: Handler, log: Log) returns (r: Result<(ArgRef, int, nat)>)
    requires begin < |s|
    ensures var found := ArgIdAt(s, begin);
      && (found.Fail? ==> r == Fail(found.message))
      && (found.Ok? ==>
            var told := h.onArgId(log, found.value.0);
            && (told.Fail? ==> r == Fail(told.message))
            && (told.Ok? ==> r == Ok((found.value.0, told.value, found.value.1))))
  {
    var c := s[begin];
    var arg, next := Automatic, begin;
    if c != '}' && c != ':' {
      if IsDigit(c) {
        var index := 0;
        if c != '0' {
          index, next := ParseNonnegativeInt(s, begin, INT_MAX);
        } else {
          next := begin + 1;
        }
        if next == |s| || (s[next] != '}' && s[next] != ':') {
          return Fail(INVALID);
        }
        arg := Index(index);
      } else if !IsNameStart(c) {
        return Fail(INVALID);
      } else {
        next := ScanName(s, begin);
        arg := Named(s[begin..next]);
      }
    }
    match h.onArgId(log, arg) {
      case Fail(m) => return Fail(m);
      case Ok(id) => return Ok((arg, id, next));
    }
  }

  method ScanName(s: string, begin: nat) returns (it: nat)
    requires begin < |s| && IsNameStart(s[begin])
    ensures it == NameEnd(s, begin)
  {
    it := begin + 1;
    while it != |s| && (IsNameStart(s[it]) || IsDigit(s[it]))
      invariant it <= |s| && NameEnd(s, it) == NameEnd(s, begin)
      decreases |s| - it
    {
      it := it + 1;
    }
  }

  // ---- Replacement fields

  /** The field whose brace is at `i`: where parsing goes on, and the log. */
  function FieldAt(s: string, i: nat, h: Handler, log: Log): (r: Result<(nat, Log)>)
    requires i < |s|
    ensures r.Ok? ==> i < r.value.0 <= |s|
  {
    var b := i + 1;
    if b == |s| then Fail(INVALID)
    else if s[b] == '{' then Ok((b + 1, AddText(log, "{")))
    else
      match ArgIdAt(s, b)
      case Fail(m) => Fail(m)
      case Ok((arg, next)) =>
        match h.onArgId(log, arg)
        case Fail(m) => Fail(m)
        case Ok(id) =>
          if next == |s| || (s[next] != '}' && s[next] != ':') then Fail(MISSING)
          else if s[next] == '}' then PlainField(next, arg, id, h, log)
          else SpecField(s, next + 1, arg, id, h, log)
  }

  function PlainField(p: nat, arg: ArgRef, id: int, h: Handler, log: Log): Result<(nat, Log)> {
    match h.onField(log, id, p)
    case Fail(m) => Fail(m)
    case Ok(_) => Ok((p + 1, AddField(log, arg, id, p, p)))
  }

  function SpecField(s: string, p: nat, arg: ArgRef, id: int, h: Handler, log: Log): (r: Result<(nat, Log)>)
    requires p <= |s|
    ensures r.Ok? ==> p < r.value.0 <= |s|
  {
    match h.onSpecs(log, id, p)
    case Fail(m) => Fail(m)
    case Ok(n) =>
      if p + n >= |s| || s[p + n] != '}' then Fail(UNKNOWN)
      else Ok((p + n + 1, AddField(log, arg, id, p, p + n)))
  }

  /** `parse_replacement_field`. */
  method ParseReplacementField(s: string, begin: nat, h: Handler, log: Log) returns (r: Result<(nat, Log)>)
    requires begin < |s|
    ensures r == FieldAt(s, begin, h, log)
  {
    var p := begin + 1;
    if p == |s| {
      return Fail(INVALID);
    }
    if s[p] == '}' {
      match h.onArgId(log, Automatic) {
        case Fail(m) => return Fail(m);
        case Ok(id) => return PlainField(p, Automatic, id, h, log);
      }
    } else if s[p] == '{' {
      assert s[p..p + 1] == "{";
      return Ok((p + 1, AddText(log, s[p..p + 1])));
    }
    var found := ParseArgId(s, p, h, log);
    match found {
      case Fail(m) => return Fail(m);
      case Ok((arg, id, next)) =>
        if next != |s| && s[next] == '}' {
          return PlainField(next, arg, id, h, log);
        } else if next != |s| && s[next] == ':' {
          return SpecField(s, next + 1, arg, id, h, log);
        }
        return Fail(MISSING);
    }
  }

  // ---- The reference parser

  /** Reads one character, doubled brace or field at a time. */
  function Parse(s: string, i: nat, h: Handler, log: Log): Result<Log>
    requires i <= |s|
    decreases |s| - i
  {
    if i == |s| then Ok(log)
    else if s[i] == '{' then
      match FieldAt(s, i, h, log)
      case Fail(m) => Fail(m)
      case Ok((next, l)) => Parse(s, next, h, l)
    else if s[i] == '}' then
      if i + 1 == |s| || s[i + 1] != '}' then Fail(UNMATCHED) else Parse(s, i + 2, h, AddText(log, "}"))
    else Parse(s, i + 1, h, AddText(log, [s[i]]))
  }

  predicate NoBrace(s: string, i: nat, j: nat)
    requires i <= j <= |s|
  {
    forall k :: i <= k < j ==> s[k] != '{' && s[k] != '}'
  }

  lemma AddTextTwice(log: Log, a: string, b: string)
    ensures AddText(AddText(log, a), b) == AddText(log, a + b)
  {
    assert log.text + a + b == log.text + (a + b);
  }

  /** A stretch without braces is text. */
  lemma {:induction false} ParseText(s: string, i: nat, j: nat, h: Handler, log: Log)
    requires i <= j <= |s| && NoBrace(s, i, j)
    ensures Parse(s, i, h, log) == Parse(s, j, h, AddText(log, s[i..j]))
    decreases j - i
  {
    if i == j {
      assert s[i..i] == "" && AddText(log, "") == log;
    } else {
      ParseText(s, i + 1, j, h, AddText(log, [s[i]]));
      AddTextTwice(log, [s[i]], s[i + 1..j]);
      assert [s[i]] + s[i + 1..j] == s[i..j];
    }
  }

  /** A doubled closing brace after pending text. */
  lemma ParseDoubled(s: string, i: nat, j: nat, h: Handler, log: Log)
    requires i <= j && j + 1 < |s| && s[j] == '}' && s[j + 1] == '}'
    ensures Parse(s, j, h, AddText(log, s[i..j])) == Parse(s, j + 2, h, AddText(log, s[i..j + 1]))
  {
    AddTextTwice(log, s[i..j], "}");
    assert s[i..j] + "}" == s[i..j + 1];
  }

  lemma ParsePending(s: string, i: nat, j: nat, h: Handler, log: Log)
    requires i <= j < |s| && s[j] != '{' && s[j] != '}'
    ensures Parse(s, j, h, AddText(log, s[i..j])) == Parse(s, j + 1, h, AddText(log, s[i..j + 1]))
  {
    AddTextTwice(log, s[i..j], [s[j]]);
    assert s[i..j] + [s[j]] == s[i..j + 1];
  }

  lemma NoText(s: string, i: nat, log: Log)
    requires i <= |s|
    ensures AddText(log, s[i..i]) == log
  {
    assert s[i..i] == "";
  }

  const START := Log([], "")

  // ---- The two forms of the source

  /** The simple loop. */
  method ParseSimple(s: string, h: Handler) returns (r: Result<Log>)
    ensures r == Parse(s, 0, h, START)
  {
    hide FieldAt;
    var log, begin, p := START, 0, 0;
    NoText(s, 0, log);
    while p != |s|
      invariant begin <= p <= |s| && Parse(s, p, h, AddText(log, s[begin..p])) == Parse(s, 0, h, START)
      decreases |s| - p
    {
      var c := s[p];
      p := p + 1;
      if c == '{' {
        log := AddText(log, s[begin..p - 1]);
        var field := ParseReplacementField(s, p - 1, h, log);
        match field {
          case Fail(m) => return Fail(m);
          case Ok((next, l)) => log, begin, p := l, next, next;
        }
        NoText(s, p, log);
      } else if c == '}' {
        if p == |s| || s[p] != '}' {
          return Fail(UNMATCHED);
        }
        ParseDoubled(s, begin, p - 1, h, log);
        log := AddText(log, s[begin..p]);
        p := p + 1;
        begin := p;
        NoText(s, p, log);
      } else {
        ParsePending(s, begin, p - 1, h, log);
      }
    }
    return Ok(AddText(log, s[begin..p]));
  }

  /** `find`. */
  method Find(s: string, first: nat, last: nat, value: char) returns (found: bool, at: nat)
    requires first <= last <= |s|
    ensures first <= at <= last && (found <==> at < last)
    ensures (forall k :: first <= k < at ==> s[k] != value) && (found ==> s[at] == value)
  {
    at := first;
    while at != last
      invariant first <= at <= last && forall k :: first <= k < at ==> s[k] != value
    {
      if s[at] == value {
        return true, at;
      }
      at := at + 1;
    }
    found := false;
  }

  /** The second pass: text without opening braces. */
  method WriteText(s: string, start: nat, to: nat, h: Handler, log0: Log) returns (r: Result<Log>)
    requires start <= to <= |s| && (forall k :: start <= k < to ==> s[k] != '{') && (to < |s| ==> s[to] == '{')
    ensures r.Ok? ==> Parse(s, to, h, r.value) == Parse(s, start, h, log0)
    ensures r.Fail? ==> Parse(s, start, h, log0) == Fail(r.message)
  {
    hide FieldAt;
    var log, from := log0, start;
    if from == to {
      return Ok(log);
    }
    while true
      invariant start <= from <= to && Parse(s, from, h, log) == Parse(s, start, h, log0)
      decreases |s| - from
    {
      var found, p := Find(s, from, to, '}');
      ParseText(s, from, p, h, log);
      if !found {
        return Ok(AddText(log, s[from..to]));
      }
      p := p + 1;
      if p == to || s[p] != '}' {
        return Fail(UNMATCHED);
      }
      ParseDoubled(s, from, p - 1, h, log);
      log := AddText(log, s[from..p]);
      from := p + 1;
    }
  }

  /** The two-pass form. */
  method ParseTwoPass(s: string, h: Handler) returns (r: Result<Log>)
    ensures r == Parse(s, 0, h, START)
  {
    hide FieldAt;
    var log, begin := START, 0;
    while begin != |s|
      invariant begin <= |s| && Parse(s, begin, h, log) == Parse(s, 0, h, START)
      decreases |s| - begin
    {
      var p := begin;
      if s[begin] != '{' {
        var found;
        found, p := Find(s, begin + 1, |s|, '{');
        if !found {
          r := WriteText(s, begin, |s|, h, log);
          return;
        }
      }
      var text := WriteText(s, begin, p, h, log);
      match text {
        case Fail(m) => return Fail(m);
        case Ok(l) => log := l;
      }
      var field := ParseReplacementField(s, p, h, log);
      match field {
        case Fail(m) => return Fail(m);
        case Ok((next, l)) => log, begin := l, next;
      }
    }
    return Ok(log);
  }

  /** `parse_format_string`: whichever form is taken, the outcome is that of
      the reference parser. */
  method ParseFormatString(s: string, h: Handler) returns (r: Result<Log>)
    ensures r == Parse(s, 0, h, START)
  {
    if |s| < 32 {
      r := ParseSimple(s, h);
    } else {
      r := ParseTwoPass(s, h);
    }
  }
}
