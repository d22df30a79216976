/** Format strings written out and read back: escaped text, fields, fields with
    specifiers, and what is an error. */
module FormatStrings {
  import opened Machine
  import opened FormatParser

  // ---- Escaping

  /** Every brace doubled. */
  function Doubled(t: string): string {
    if t == "" then ""
    else if t[0] == '{' || t[0] == '}' then [t[0], t[0]] + Doubled(t[1..])
    else [t[0]] + Doubled(t[1..])
  }

  lemma SubSlice<T>(s: seq<T>, i: nat, j: nat, a: nat, b: nat)
    requires i <= j <= |s| && a <= b <= j - i
    ensures s[i..j][a..b] == s[i + a..i + b]
  {
    forall k | 0 <= k < b - a ensures s[i..j][a..b][k] == s[i + a..i + b][k] { assert s[i..j][a + k] == s[i + a + k]; }
  }

  /** Escaped text anywhere in a string. */
  lemma {:induction false} EscapedText(s: string, i: nat, t: string, h: Handler, log: Log)
    requires i + |Doubled(t)| <= |s| && s[i..i + |Doubled(t)|] == Doubled(t)
    ensures Parse(s, i, h, log) == Parse(s, i + |Doubled(t)|, h, AddText(log, t))
    decreases |t|
  {
    if t == "" {
      assert AddText(log, "") == log;
    } else {
      var k := if t[0] == '{' || t[0] == '}' then 2 else 1;
      var n := |Doubled(t)|;
      assert Doubled(t)[k..] == Doubled(t[1..]);
      SubSlice(s, i, i + n, k, n);
      assert s[i] == s[i..i + n][0] == t[0] && (k == 2 ==> s[i + 1] == s[i..i + n][1] == t[0]);
      EscapedText(s, i + k, t[1..], h, AddText(log, [t[0]]));
      AddTextTwice(log, [t[0]], t[1..]);
      assert [t[0]] + t[1..] == t;
      assert t[0] == '{' ==> "{" == [t[0]];
      assert t[0] == '}' ==> "}" == [t[0]];
    }
  }

  /** Doubling the braces of any text and parsing gives the text back, whatever
      the handler. */
  lemma EscapingIsUndone(t: string, h: Handler)
    ensures Parse(Doubled(t), 0, h, START) == Ok(Log([], t))
  {
    assert Doubled(t)[0..|Doubled(t)|] == Doubled(t);
    EscapedText(Doubled(t), 0, t, h, START);
    assert "" + t == t;
  }

  // ---- Writing format strings and reading them back

  function ShowNat(n: nat): (r: string)
    ensures r != ""
  {
    if n < 10 then ['0' + n as char] else ShowNat(n / 10) + ['0' + (n % 10) as char]
  }

  predicate ValidArg(arg: ArgRef) {
    match arg
    case Automatic => true
    case Index(n) => n <= INT_MAX
    case Named(name) =>
      && name != "" && IsNameStart(name[0])
      && forall k :: 0 <= k < |name| ==> IsNameStart(name[k]) || IsDigit(name[k])
  }

  function ShowArg(arg: ArgRef): string {
    match arg
    case Automatic => ""
    case Index(n) => ShowNat(n)
    case Named(name) => name
  }

  lemma {:induction false} DigitsEndIs(s: string, i: nat, j: nat)
    requires i <= j <= |s| && (forall k :: i <= k < j ==> IsDigit(s[k])) && (j < |s| ==> !IsDigit(s[j]))
    ensures DigitsEnd(s, i) == j
    decreases j - i
  {
    if i < j { DigitsEndIs(s, i + 1, j); }
  }

  lemma {:induction false} NameEndIs(s: string, i: nat, j: nat)
    requires i <= j <= |s| && (forall k :: i <= k < j ==> IsNameStart(s[k]) || IsDigit(s[k]))
    requires j < |s| ==> !IsNameStart(s[j]) && !IsDigit(s[j])
    ensures NameEnd(s, i) == j
    decreases j - i
  {
    if i < j { NameEndIs(s, i + 1, j); }
  }

  /** The digits of a number, without leading zeros, denote it. */
  lemma {:induction false} ShowNatIsRead(s: string, i: nat, j: nat, n: nat)
    requires i < j <= |s| && s[i..j] == ShowNat(n)
    ensures forall k :: i <= k < j ==> IsDigit(s[k])
    ensures Decimal(s, i, j) == n && (n > 0 ==> s[i] != '0') && (n == 0 ==> s[i..j] == "0")
    decreases j
  {
    assert s[j - 1] == s[i..j][j - 1 - i];
    if n < 10 {
      assert j == i + 1;
    } else {
      var m := |ShowNat(n / 10)|;
      assert s[i..j - 1] == s[i..j][..m] == ShowNat(n / 10);
      ShowNatIsRead(s, i, j - 1, n / 10);
    }
  }

  /** An argument written out and followed by a brace or a colon is read back. */
  lemma ArgIsRead(s: string, i: nat, arg: ArgRef)
    requires ValidArg(arg) && i + |ShowArg(arg)| < |s|
    requires s[i..i + |ShowArg(arg)|] == ShowArg(arg)
    requires s[i + |ShowArg(arg)|] == '}' || s[i + |ShowArg(arg)|] == ':'
    ensures ArgIdAt(s, i) == Ok((arg, i + |ShowArg(arg)|))
  {
    var j := i + |ShowArg(arg)|;
    match arg
    case Automatic =>
    case Index(n) =>
      ShowNatIsRead(s, i, j, n);
      DigitsEndIs(s, i, j);
      if n == 0 {
        assert s[i..j][0] == '0' && j == i + 1;
      } else {
        IntegerIsExact(s, i, j, INT_MAX);
      }
    case Named(name) =>
      forall k | i <= k < j ensures s[k] == name[k - i] { assert s[k] == s[i..j][k - i]; }
      NameEndIs(s, i, j);
  }

  /** A format string in parts: text, and fields without or with specifiers. */
  datatype Part = Verbatim(text: string) | Reference(arg: ArgRef) | Specified(arg: ArgRef, specs: string)

  predicate ValidPart(p: Part) {
    p.Verbatim? || ValidArg(p.arg)
  }

  predicate ValidParts(parts: seq<Part>) {
    parts == [] || (ValidPart(parts[0]) && ValidParts(parts[1..]))
  }

  function ShowPart(p: Part): string {
    match p
    case Verbatim(t) => Doubled(t)
    case Reference(arg) => "{" + ShowArg(arg) + "}"
    case Specified(arg, specs) => "{" + ShowArg(arg) + ":" + specs + "}"
  }

  function Show(parts: seq<Part>): string {
    if parts == [] then "" else ShowPart(parts[0]) + Show(parts[1..])
  }

  /** What a handler makes of one part, which starts at `i`: specifiers that it
      does not take to their end are unknown. */
  function ToldPart(p: Part, i: nat, h: Handler, log: Log): Result<Log> {
    match p
    case Verbatim(t) => Ok(AddText(log, t))
    case Reference(arg) =>
      var end := i + |ShowArg(arg)| + 1;
      match h.onArgId(log, arg) {
        case Fail(m) => Fail(m)
        case Ok(id) =>
          match h.onField(log, id, end)
          case Fail(m) => Fail(m)
          case Ok(_) => Ok(Log(log.fields + [Field(|log.text|, arg, id, end, end)], log.text))
      }
    case Specified(arg, specs) =>
      var from := i + |ShowArg(arg)| + 2;
      match h.onArgId(log, arg)
      case Fail(m) => Fail(m)
      case Ok(id) =>
        match h.onSpecs(log, id, from)
        case Fail(m) => Fail(m)
        case Ok(n) =>
          if n != |specs| then Fail(UNKNOWN)
          else Ok(Log(log.fields + [Field(|log.text|, arg, id, from, from + n)], log.text))
  }

  /** The handler keeps to the specifiers of its part: it takes all of them, or
      stops before one that is no closing brace. */
  predicate KeepsTo(p: Part, i: nat, h: Handler, log: Log) {
    p.Specified? ==>
      var id := h.onArgId(log, p.arg);
      id.Ok? ==>
        var n := h.onSpecs(log, id.value, i + |ShowArg(p.arg)| + 2);
        n.Ok? ==> n.value <= |p.specs| && (n.value < |p.specs| ==> p.specs[n.value] != '}')
  }

  /** What it makes of all parts, in order. */
  function Told(parts: seq<Part>, i: nat, h: Handler, log: Log): Result<Log>
    decreases |parts|
  {
    if parts == [] then Ok(log)
    else
      match ToldPart(parts[0], i, h, log)
      case Fail(m) => Fail(m)
      case Ok(l) => Told(parts[1..], i + |ShowPart(parts[0])|, h, l)
  }

  /** It keeps to the specifiers of every part that it is told. */
  predicate KeepsToAll(parts: seq<Part>, i: nat, h: Handler, log: Log)
    decreases |parts|
  {
    parts != [] ==>
      && KeepsTo(parts[0], i, h, log)
      && var told := ToldPart(parts[0], i, h, log);
         told.Ok? ==> KeepsToAll(parts[1..], i + |ShowPart(parts[0])|, h, told.value)
  }

  lemma TailSlices<T>(s: seq<T>, i: nat, k: nat)
    requires i + k <= |s|
    ensures s[i..][..k] == s[i..i + k] && s[i..][k..] == s[i + k..]
  {
  }

  lemma InBraces(s: string, i: nat, a: string, c: char)
    requires i + |a| + 2 <= |s| && s[i..i + |a| + 2] == ['{'] + a + [c]
    ensures s[i] == '{' && s[i + |a| + 1] == c && s[i + 1..i + 1 + |a|] == a
  {
    var d := s[i..i + |a| + 2];
    SubSlice(s, i, i + |a| + 2, 1, |a| + 1);
    assert d[0] == '{' && d[|a| + 1] == c && d[1..|a| + 1] == a;
  }

  /** A field whose identifier ends in a brace or a colon. */
  lemma FieldStarts(s: string, i: nat, arg: ArgRef, c: char, h: Handler, log: Log)
    requires ValidArg(arg) && i + |ShowArg(arg)| + 2 <= |s| && (c == '}' || c == ':')
    requires s[i..i + |ShowArg(arg)| + 2] == ['{'] + ShowArg(arg) + [c]
    ensures s[i] == '{'
    ensures FieldAt(s, i, h, log) ==
      match h.onArgId(log, arg)
      case Fail(m) => Fail(m)
      case Ok(id) =>
        if c == '}' then PlainField(i + |ShowArg(arg)| + 1, arg, id, h, log)
        else SpecField(s, i + |ShowArg(arg)| + 2, arg, id, h, log)
  {
    InBraces(s, i, ShowArg(arg), c);
    ArgIsRead(s, i + 1, arg);
    NoBraceFirst(s, i + 1, arg);
    hide ShowArg, ValidArg, ArgIdAt, PlainField, SpecField;
  }

  lemma NoBraceFirst(s: string, i: nat, arg: ArgRef)
    requires ValidArg(arg) && i + |ShowArg(arg)| < |s| && s[i..i + |ShowArg(arg)|] == ShowArg(arg)
    requires s[i + |ShowArg(arg)|] == '}' || s[i + |ShowArg(arg)|] == ':'
    ensures s[i] != '{'
  {
    if arg != Automatic {
      FirstOfArg(arg);
      hide ShowArg, ValidArg;
      assert s[i] == s[i..i + |ShowArg(arg)|][0];
    }
  }

  lemma FirstOfArg(arg: ArgRef)
    requires ValidArg(arg) && arg != Automatic
    ensures ShowArg(arg) != "" && ShowArg(arg)[0] != '{'
  {
    if arg.Index? {
      assert ShowNat(arg.index)[0..|ShowNat(arg.index)|] == ShowNat(arg.index);
      ShowNatIsRead(ShowNat(arg.index), 0, |ShowNat(arg.index)|, arg.index);
    }
  }

  /** A field with specifiers, anywhere and whatever follows its colon: a handler
      that takes `n` characters up to a closing brace is given one field with just
      these, and parsing goes on after the brace; stopping anywhere else is an error. */
  lemma SpecifiersAreTaken(s: string, i: nat, arg: ArgRef, h: Handler, log: Log)
    requires ValidArg(arg) && i + |ShowArg(arg)| + 2 <= |s|
    requires s[i..i + |ShowArg(arg)| + 2] == ['{'] + ShowArg(arg) + [':']
    ensures var p := i + |ShowArg(arg)| + 2;
      Parse(s, i, h, log) ==
        match h.onArgId(log, arg)
        case Fail(m) => Fail(m)
        case Ok(id) =>
          match h.onSpecs(log, id, p)
          case Fail(m) => Fail(m)
          case Ok(n) =>
            if p + n < |s| && s[p + n] == '}' then
              Parse(s, p + n + 1, h, Log(log.fields + [Field(|log.text|, arg, id, p, p + n)], log.text))
            else Fail(UNKNOWN)
  {
    FieldStarts(s, i, arg, ':', h, log);
    hide FieldAt, ShowArg, ValidArg;
  }

  lemma ReferenceIsRead(s: string, i: nat, arg: ArgRef, h: Handler, log: Log)
    requires ValidArg(arg) && i + |ShowArg(arg)| + 2 <= |s|
    requires s[i..i + |ShowArg(arg)| + 2] == ['{'] + ShowArg(arg) + ['}']
    ensures Parse(s, i, h, log) ==
      match ToldPart(Reference(arg), i, h, log)
      case Fail(m) => Fail(m)
      case Ok(l) => Parse(s, i + |ShowArg(arg)| + 2, h, l)
  {
    FieldStarts(s, i, arg, '}', h, log);
    hide FieldAt, ShowArg, ValidArg;
  }

  lemma SpecsInBraces(s: string, i: nat, a: string, specs: string)
    requires var n := |a| + |specs| + 3; i + n <= |s| && s[i..i + n] == "{" + a + ":" + specs + "}"
    ensures s[i..i + |a| + 2] == ['{'] + a + [':']
    ensures s[i + |a| + 2..i + |a| + 2 + |specs|] == specs && s[i + |a| + 2 + |specs|] == '}'
  {
    var (k, n) := (|a| + 2, |a| + |specs| + 3);
    var d := "{" + a + ":" + specs + "}";
    SubSlice(s, i, i + n, 0, k);
    SubSlice(s, i, i + n, k, n - 1);
    assert d[0..k] == ['{'] + a + [':'] && d[k..n - 1] == specs;
    assert s[i..i + n][n - 1] == '}';
  }

  lemma SpecifiedIsRead(s: string, i: nat, arg: ArgRef, specs: string, h: Handler, log: Log)
    requires ValidArg(arg) && KeepsTo(Specified(arg, specs), i, h, log)
    requires var n := |ShowArg(arg)| + |specs| + 3;
      i + n <= |s| && s[i..i + n] == "{" + ShowArg(arg) + ":" + specs + "}"
    ensures Parse(s, i, h, log) ==
      match ToldPart(Specified(arg, specs), i, h, log)
      case Fail(m) => Fail(m)
      case Ok(l) => Parse(s, i + |ShowArg(arg)| + |specs| + 3, h, l)
  {
    hide Parse, ShowArg, ValidArg;
    var (a, from) := (ShowArg(arg), i + |ShowArg(arg)| + 2);
    SpecsInBraces(s, i, a, specs);
    SpecifiersAreTaken(s, i, arg, h, log);
    var id := h.onArgId(log, arg);
    if id.Ok? && h.onSpecs(log, id.value, from).Ok? {
      EndOfSpecs(s, from, specs, h.onSpecs(log, id.value, from).value);
    }
  }

  lemma EndOfSpecs(s: string, from: nat, specs: string, n: nat)
    requires from + |specs| < |s| && s[from..from + |specs|] == specs && s[from + |specs|] == '}'
    requires n <= |specs| && (n < |specs| ==> specs[n] != '}')
    ensures s[from + n] == '}' <==> n == |specs|
  {
    if n < |specs| { assert s[from..from + |specs|][n] == s[from + n]; }
  }

  /** One part, read back. */
  lemma PartIsRead(s: string, i: nat, p: Part, h: Handler, log: Log)
    requires ValidPart(p) && KeepsTo(p, i, h, log) && i + |ShowPart(p)| <= |s|
    requires s[i..i + |ShowPart(p)|] == ShowPart(p)
    ensures Parse(s, i, h, log) ==
      match ToldPart(p, i, h, log)
      case Fail(m) => Fail(m)
      case Ok(l) => Parse(s, i + |ShowPart(p)|, h, l)
  {
    hide Parse, ShowArg, Doubled, ValidArg, ToldPart, KeepsTo;
    match p
    case Verbatim(t) => TextIsRead(s, i, t, h, log);
    case Reference(arg) => ReferenceIsRead(s, i, arg, h, log);
    case Specified(arg, specs) => SpecifiedIsRead(s, i, arg, specs, h, log);
  }

  lemma TextIsRead(s: string, i: nat, t: string, h: Handler, log: Log)
    requires i + |Doubled(t)| <= |s| && s[i..i + |Doubled(t)|] == Doubled(t)
    ensures ToldPart(Verbatim(t), i, h, log) == Ok(AddText(log, t))
    ensures Parse(s, i, h, log) == Parse(s, i + |Doubled(t)|, h, AddText(log, t))
  {
    hide Parse, Doubled;
    EscapedText(s, i, t, h, log);
  }

  lemma ShownFront(s: string, i: nat, parts: seq<Part>)
    requires i <= |s| && s[i..] == Show(parts) && parts != []
    ensures var k := |ShowPart(parts[0])|;
      i + k <= |s| && s[i..i + k] == ShowPart(parts[0]) && s[i + k..] == Show(parts[1..])
  {
    hide ShowPart;
    var (a, b) := (ShowPart(parts[0]), Show(parts[1..]));
    assert (a + b)[..|a|] == a && (a + b)[|a|..] == b;
    TailSlices(s, i, |a|);
  }

  lemma ParseEnd(s: string, i: nat, h: Handler, log: Log)
    requires i <= |s| && s[i..] == ""
    ensures Parse(s, i, h, log) == Ok(log)
  {
    assert i == |s|;
  }

  lemma {:induction false} ShownTail(s: string, i: nat, parts: seq<Part>, h: Handler, log: Log)
    requires ValidParts(parts) && KeepsToAll(parts, i, h, log) && i <= |s| && s[i..] == Show(parts)
    ensures Parse(s, i, h, log) == Told(parts, i, h, log)
    decreases |parts|
  {
    hide Parse, ShowPart, ValidPart, ToldPart, KeepsTo;
    if parts == [] {
      ParseEnd(s, i, h, log);
    } else {
      ShownFront(s, i, parts);
      hide Show;
      PartIsRead(s, i, parts[0], h, log);
      var told := ToldPart(parts[0], i, h, log);
      if told.Ok? {
        ShownTail(s, i + |ShowPart(parts[0])|, parts[1..], h, told.value);
      }
    }
  }

  /** Any sequence of texts and fields, written as a format string and parsed,
      comes back part by part, whatever the handler, as long as it keeps to the
      specifiers of each part. */
  lemma ShownIsParsed(parts: seq<Part>, h: Handler)
    requires ValidParts(parts) && KeepsToAll(parts, 0, h, START)
    ensures Parse(Show(parts), 0, h, START) == Told(parts, 0, h, START)
  {
    assert Show(parts)[0..] == Show(parts);
    ShownTail(Show(parts), 0, parts, h, START);
  }

  // ---- Errors

  /** A closing brace that is not doubled. */
  lemma LoneBraceFails(s: string, i: nat, h: Handler, log: Log)
    requires i < |s| && s[i] == '}' && (i + 1 < |s| ==> s[i + 1] != '}')
    ensures Parse(s, i, h, log) == Fail(UNMATCHED)
  {
  }

  /** An opening brace at the end, or before what starts no field. */
  lemma NoFieldFails(s: string, i: nat, h: Handler, log: Log)
    requires i < |s| && s[i] == '{'
    requires i + 1 < |s| ==>
      var c := s[i + 1]; c != '{' && c != '}' && c != ':' && !IsDigit(c) && !IsNameStart(c)
    ensures Parse(s, i, h, log) == Fail(INVALID)
  {
  }

  /** An index that is not followed by a brace or a colon; after a zero nothing
      else may follow. */
  lemma OpenIndexFails(s: string, i: nat, j: nat, h: Handler, log: Log)
    requires i + 1 < j <= |s| && s[i] == '{' && forall k :: i < k < j ==> IsDigit(s[k])
    requires s[i + 1] == '0' ==> j == i + 2
    requires j < |s| ==> s[j] != '}' && s[j] != ':' && (s[i + 1] != '0' ==> !IsDigit(s[j]))
    ensures Parse(s, i, h, log) == Fail(INVALID)
  {
    if s[i + 1] != '0' { DigitsEndIs(s, i + 1, j); }
  }

  /** A name that is not followed by a brace or a colon, told to the handler first. */
  lemma OpenNameFails(s: string, i: nat, j: nat, h: Handler, log: Log)
    requires i + 1 < j <= |s| && s[i] == '{' && IsNameStart(s[i + 1])
    requires forall k :: i < k < j ==> IsNameStart(s[k]) || IsDigit(s[k])
    requires j < |s| ==> !IsNameStart(s[j]) && !IsDigit(s[j]) && s[j] != '}' && s[j] != ':'
    ensures Parse(s, i, h, log) ==
      match h.onArgId(log, Named(s[i + 1..j]))
      case Fail(m) => Fail(m)
      case Ok(_) => Fail(MISSING)
  {
    NameEndIs(s, i + 1, j);
  }

  /** An index that is no int is read as the largest one. */
  lemma LongIndexIsRead(s: string, i: nat, j: nat)
    requires i < j < |s| && (forall k :: i <= k < j ==> IsDigit(s[k])) && s[i] != '0' && (s[j] == '}' || s[j] == ':')
    requires Decimal(s, i, j) > 0x7FFF_FFFF
    ensures ArgIdAt(s, i) == Ok((Index(0x7FFF_FFFF), j))
  {
    DigitsEndIs(s, i, j);
    IntegerIsExact(s, i, j, INT_MAX);
  }
}
