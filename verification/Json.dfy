/** JSON values, their printed text and a reference parser for it (sections 2 to 7 of RFC 8259). */
module Json {
  import opened Bytes

  datatype Member = Member(key: seq<byte>, value: Value)

  /** Numbers are the 64-bit integers the writer accepts. */
  datatype Value =
    | Null
    | Bool(b: bool)
    | Integer(n: int)
    | String(s: seq<byte>)
    | Array(items: seq<Value>)
    | Object(members: seq<Member>)

  const QUOTE: byte := 0x22
  const COMMA: byte := 0x2C
  const COLON: byte := 0x3A
  const BACKSLASH: byte := 0x5C
  const MINUS: byte := 0x2D
  const OPEN_BRACKET: byte := 0x5B
  const CLOSE_BRACKET: byte := 0x5D
  const OPEN_BRACE: byte := 0x7B
  const CLOSE_BRACE: byte := 0x7D
  const NULL_TEXT: seq<byte> := [0x6E, 0x75, 0x6C, 0x6C]
  const TRUE_TEXT: seq<byte> := [0x74, 0x72, 0x75, 0x65]
  const FALSE_TEXT: seq<byte> := [0x66, 0x61, 0x6C, 0x73, 0x65]

  /** The integers a writer can be given: int64 or uint64. */
  predicate Writable(v: Value) {
    match v
    case Integer(n) => -0x8000_0000_0000_0000 <= n < 0x1_0000_0000_0000_0000
    case Array(items) => forall k | 0 <= k < |items| :: Writable(items[k])
    case Object(members) => forall k | 0 <= k < |members| :: Writable(members[k].value)
    case _ => true
  }

  // ------------------------------------------------------------------ printing

  /** One byte of a string as it appears between the quotes. */
  function Escape(c: byte): seq<byte> {
    if c == QUOTE then [BACKSLASH, QUOTE]
    else if c == BACKSLASH then [BACKSLASH, BACKSLASH]
    else if c == 0x08 then [BACKSLASH, 0x62]
    else if c == 0x0C then [BACKSLASH, 0x66]
    else if c == 0x0A then [BACKSLASH, 0x6E]
    else if c == 0x0D then [BACKSLASH, 0x72]
    else if c == 0x09 then [BACKSLASH, 0x74]
    else if c < 0x20 then [BACKSLASH, 0x75, 0x30, 0x30, HexChar(c / 16), HexChar(c % 16)]
    else [c]
  }

  /** The body of a string in front of rest. */
  function Escaped(s: seq<byte>, rest: seq<byte>): seq<byte> {
    if s == [] then rest else Escape(s[0]) + Escaped(s[1..], rest)
  }

  /** A quoted string in front of rest. */
  function Quoted(s: seq<byte>, rest: seq<byte>): seq<byte> {
    [QUOTE] + Escaped(s, [QUOTE] + rest)
  }

  function Digits(n: nat): seq<byte> {
    if n < 10 then [0x30 + n] else Digits(n / 10) + [0x30 + n % 10]
  }

  function Decimal(n: int): seq<byte> {
    if n < 0 then [MINUS] + Digits(-n) else Digits(n)
  }

  /** The text of v in front of rest. */
  function Print(v: Value, rest: seq<byte>): seq<byte> {
    match v
    case Null => NULL_TEXT + rest
    case Bool(b) => (if b then TRUE_TEXT else FALSE_TEXT) + rest
    case Integer(n) => Decimal(n) + rest
    case String(s) => Quoted(s, rest)
    case Array(items) => [OPEN_BRACKET] + PrintItems(items, true, [CLOSE_BRACKET] + rest)
    case Object(members) => [OPEN_BRACE] + PrintMembers(members, true, [CLOSE_BRACE] + rest)
  }

  function Separated(first: bool, text: seq<byte>): seq<byte> {
    if first then text else [COMMA] + text
  }

  function PrintItems(items: seq<Value>, first: bool, rest: seq<byte>): seq<byte> {
    if items == [] then rest
    else Separated(first, Print(items[0], PrintItems(items[1..], false, rest)))
  }

  function PrintMembers(members: seq<Member>, first: bool, rest: seq<byte>): seq<byte> {
    if members == [] then rest
    else
      var value := Print(members[0].value, PrintMembers(members[1..], false, rest));
      Separated(first, Quoted(members[0].key, [COLON] + value))
  }

  // ------------------------------------------------------------------ parsing

  datatype Parsed<T> = Fail | Ok(value: T, rest: seq<byte>)

  predicate Whitespace(c: byte) {
    c == 0x20 || c == 0x09 || c == 0x0A || c == 0x0D
  }

  function SkipSpace(s: seq<byte>): (t: seq<byte>)
    ensures |t| <= |s|
  {
    if s != [] && Whitespace(s[0]) then SkipSpace(s[1..]) else s
  }

  predicate Digit(c: byte) {
    0x30 <= c <= 0x39
  }

  /** UTF-8 of a code point of the basic plane; surrogates are not supported. */
  function Utf8(code: nat): Option<seq<byte>>
    requires code < 0x1_0000
  {
    if code < 0x80 then Some([code])
    else if code < 0x800 then Some([0xC0 + code / 0x40, 0x80 + code % 0x40])
    else if 0xD800 <= code < 0xE000 then None
    else Some([0xE0 + code / 0x1000, 0x80 + code / 0x40 % 0x40, 0x80 + code % 0x40])
  }

  /** The escape sequence behind a backslash. */
  function ParseEscape(s: seq<byte>): (r: Parsed<seq<byte>>)
    ensures r.Ok? ==> |r.rest| < |s|
  {
    if s == [] then Fail
    else if s[0] == QUOTE || s[0] == BACKSLASH || s[0] == 0x2F then Ok([s[0]], s[1..])
    else if s[0] == 0x62 then Ok([0x08], s[1..])
    else if s[0] == 0x66 then Ok([0x0C], s[1..])
    else if s[0] == 0x6E then Ok([0x0A], s[1..])
    else if s[0] == 0x72 then Ok([0x0D], s[1..])
    else if s[0] == 0x74 then Ok([0x09], s[1..])
    else if s[0] == 0x75 && |s| >= 5 then
      var a, b, c, d := HexValue(s[1]), HexValue(s[2]), HexValue(s[3]), HexValue(s[4]);
      if a.None? || b.None? || c.None? || d.None? then Fail
      else
        var code := 0x1000 * a.value + 0x100 * b.value + 0x10 * c.value + d.value;
        if code >= 0x1_0000 then Fail
        else match Utf8(code)
          case None => Fail
          case Some(bytes) => Ok(bytes, s[5..])
    else Fail
  }

  /** The rest of a string behind its opening quote. */
  function ParseString(s: seq<byte>): (r: Parsed<seq<byte>>)
    ensures r.Ok? ==> |r.rest| < |s|
  {
    if s == [] || s[0] < 0x20 then Fail
    else if s[0] == QUOTE then Ok([], s[1..])
    else if s[0] == BACKSLASH then
      match ParseEscape(s[1..])
      case Fail => Fail
      case Ok(bytes, rest) =>
        match ParseString(rest)
        case Fail => Fail
        case Ok(more, rest') => Ok(bytes + more, rest')
    else
      match ParseString(s[1..])
      case Fail => Fail
      case Ok(more, rest) => Ok([s[0]] + more, rest)
  }

  function RunLength(s: seq<byte>): (k: nat)
    ensures k <= |s|
    ensures forall i | 0 <= i < k :: Digit(s[i])
  {
    if s != [] && Digit(s[0]) then 1 + RunLength(s[1..]) else 0
  }

  function FromDigits(s: seq<byte>): nat
    requires forall i | 0 <= i < |s| :: Digit(s[i])
  {
    if s == [] then 0
    else
      var last := s[|s| - 1];
      assert Digit(last);
      10 * FromDigits(s[..|s| - 1]) + (last - 0x30)
  }

  /** An unsigned integer without leading zeros; fractions and exponents are not part of the value set. */
  function ParseDigits(s: seq<byte>): (r: Parsed<nat>)
    ensures r.Ok? ==> |r.rest| < |s|
  {
    var k := RunLength(s);
    if k == 0 || (k > 1 && s[0] == 0x30) then Fail
    else if k < |s| && (s[k] == 0x2E || s[k] == 0x65 || s[k] == 0x45) then Fail
    else Ok(FromDigits(s[..k]), s[k..])
  }

  function ParseKeyword(t: seq<byte>): (r: Parsed<Value>)
    ensures r.Ok? ==> |r.rest| < |t|
  {
    if NULL_TEXT <= t then Ok(Null, t[4..])
    else if TRUE_TEXT <= t then Ok(Bool(true), t[4..])
    else if FALSE_TEXT <= t then Ok(Bool(false), t[5..])
    else Fail
  }

  function ParseNumber(t: seq<byte>): (r: Parsed<Value>)
    requires t != []
    ensures r.Ok? ==> |r.rest| < |t|
  {
    match if t[0] == MINUS then ParseDigits(t[1..]) else ParseDigits(t)
    case Fail => Fail
    case Ok(n, rest) => Ok(Integer(if t[0] == MINUS then -(n as int) else n), rest)
  }

  function ParseText(t: seq<byte>): (r: Parsed<Value>)
    ensures r.Ok? ==> |r.rest| < |t|
  {
    match ParseString(t)
    case Fail => Fail
    case Ok(text, rest) => Ok(String(text), rest)
  }

  function ParseValue(s: seq<byte>): (r: Parsed<Value>)
    ensures r.Ok? ==> |r.rest| < |s|
    decreases |s|, 0
  {
    var t := SkipSpace(s);
    if t == [] then Fail
    else if t[0] == QUOTE then ParseText(t[1..])
    else if t[0] == MINUS || Digit(t[0]) then ParseNumber(t)
    else if t[0] == OPEN_BRACKET then
      var u := SkipSpace(t[1..]);
      if u != [] && u[0] == CLOSE_BRACKET then Ok(Array([]), u[1..])
      else
        match ParseItems(u)
        case Fail => Fail
        case Ok(items, rest) => Ok(Array(items), rest)
    else if t[0] == OPEN_BRACE then
      var u := SkipSpace(t[1..]);
      if u != [] && u[0] == CLOSE_BRACE then Ok(Object([]), u[1..])
      else
        match ParseMembers(u)
        case Fail => Fail
        case Ok(members, rest) => Ok(Object(members), rest)
    else ParseKeyword(t)
  }

  /** One or more values separated by commas, up to the closing bracket. */
  function ParseItems(s: seq<byte>): (r: Parsed<seq<Value>>)
    ensures r.Ok? ==> |r.rest| < |s|
    decreases |s|, 1
  {
    match ParseValue(s)
    case Fail => Fail
    case Ok(v, rest) =>
      var t := SkipSpace(rest);
      if t == [] then Fail
      else if t[0] == CLOSE_BRACKET then Ok([v], t[1..])
      else if t[0] != COMMA then Fail
      else
        match ParseItems(t[1..])
        case Fail => Fail
        case Ok(more, rest') => Ok([v] + more, rest')
  }

  /** One or more members separated by commas, up to the closing brace. */
  function ParseMembers(s: seq<byte>): (r: Parsed<seq<Member>>)
    ensures r.Ok? ==> |r.rest| < |s|
    decreases |s|, 1
  {
    var t := SkipSpace(s);
    if t == [] || t[0] != QUOTE then Fail
    else
      match ParseString(t[1..])
      case Fail => Fail
      case Ok(key, afterKey) =>
        var u := SkipSpace(afterKey);
        if u == [] || u[0] != COLON then Fail
        else
          match ParseValue(u[1..])
          case Fail => Fail
          case Ok(v, rest) =>
            var w := SkipSpace(rest);
            if w == [] then Fail
            else if w[0] == CLOSE_BRACE then Ok([Member(key, v)], w[1..])
            else if w[0] != COMMA then Fail
            else
              match ParseMembers(w[1..])
              case Fail => Fail
              case Ok(more, rest') => Ok([Member(key, v)] + more, rest')
  }

  // ------------------------------------------------------------------ parsing undoes printing

  /** A control character is read back from its four hexadecimal digits. */
  lemma ControlParses(c: byte, t: seq<byte>, rest: seq<byte>)
    requires c < 0x20 && t == [0x75, 0x30, 0x30, HexChar(c / 16), HexChar(c % 16)] + rest
    ensures ParseEscape(t) == Ok([c], rest)
  {
    assert t[0] == 0x75 && t[1] == 0x30 && t[2] == 0x30 && t[3] == HexChar(c / 16) && t[4] == HexChar(c % 16);
    assert HexValue(t[3]) == Some(c / 16) && HexValue(t[4]) == Some(c % 16);
    assert t[5..] == rest;
  }

  lemma EscapeParses(c: byte, rest: seq<byte>)
    ensures var s := Escape(c) + rest;
            if Escape(c)[0] == BACKSLASH then ParseEscape(s[1..]) == Ok([c], rest)
            else s[0] == c && c >= 0x20 && c != QUOTE && s[1..] == rest
  {
    var s := Escape(c) + rest;
    if Escape(c)[0] == BACKSLASH {
      assert s[1..] == Escape(c)[1..] + rest;
      if |Escape(c)| == 6 {
        ControlParses(c, s[1..], rest);
      } else {
        assert s[1..][1..] == rest;
      }
    } else {
      assert s[1..] == rest;
    }
  }

  /** The body of a quoted string is undone and ends exactly at its closing quote. */
  lemma {:induction false} StringParses(s: seq<byte>, rest: seq<byte>)
    ensures ParseString(Escaped(s, [QUOTE] + rest)) == Ok(s, rest)
  {
    if s == [] {
      Behind(QUOTE, rest);
    } else {
      StringParses(s[1..], rest);
      EscapeThen(s[0], Escaped(s[1..], [QUOTE] + rest), s[1..], rest);
      assert [s[0]] + s[1..] == s;
    }
    hide ParseString;
  }

  /** An escaped byte in front of the body of a string. */
  lemma EscapeThen(c: byte, text: seq<byte>, s: seq<byte>, rest: seq<byte>)
    requires ParseString(text) == Ok(s, rest)
    ensures ParseString(Escape(c) + text) == Ok([c] + s, rest)
  {
    EscapeParses(c, text);
    assert Escape(c) != [] && (Escape(c) + text)[0] == Escape(c)[0];
    hide Escape, ParseEscape;
  }

  lemma Behind(x: byte, t: seq<byte>)
    ensures ([x] + t)[1..] == t && ([x] + t)[0] == x
  {
  }

  /** String escaping is injective and self-delimiting. */
  lemma QuotedUnique(a: seq<byte>, x: seq<byte>, b: seq<byte>, y: seq<byte>)
    requires Quoted(a, x) == Quoted(b, y)
    ensures a == b && x == y
  {
    hide Escaped, ParseString;
    Behind(QUOTE, Escaped(a, [QUOTE] + x));
    Behind(QUOTE, Escaped(b, [QUOTE] + y));
    StringParses(a, x);
    StringParses(b, y);
  }

  /** What may follow a printed value: nothing that would continue a number. */
  ghost predicate Delimited(rest: seq<byte>) {
    rest != [] ==> !Digit(rest[0]) && rest[0] != 0x2E && rest[0] != 0x65 && rest[0] != 0x45
  }

  lemma {:induction false} RunOfDigits(ds: seq<byte>, rest: seq<byte>)
    requires (forall i | 0 <= i < |ds| :: Digit(ds[i])) && Delimited(rest)
    ensures RunLength(ds + rest) == |ds|
  {
    if ds == [] {
      assert ds + rest == rest;
    } else {
      assert (ds + rest)[1..] == ds[1..] + rest;
      RunOfDigits(ds[1..], rest);
    }
  }

  lemma {:induction false} DigitsValue(n: nat)
    ensures var ds := Digits(n);
            && ds != [] && (forall i | 0 <= i < |ds| :: Digit(ds[i]))
            && FromDigits(ds) == n && (|ds| > 1 ==> ds[0] != 0x30) && (ds[0] == 0x30 ==> n == 0)
  {
    if n >= 10 {
      DigitsValue(n / 10);
      var ds := Digits(n);
      assert ds[..|ds| - 1] == Digits(n / 10);
    } else {
      assert FromDigits([]) == 0;
      assert Digits(n)[..0] == [];
    }
  }

  lemma DigitsParse(n: nat, rest: seq<byte>)
    requires Delimited(rest)
    ensures ParseDigits(Digits(n) + rest) == Ok(n, rest)
  {
    DigitsValue(n);
    var ds := Digits(n);
    RunOfDigits(ds, rest);
    assert (ds + rest)[..|ds|] == ds && (ds + rest)[|ds|..] == rest;
  }

  lemma PrintStart(v: Value, rest: seq<byte>)
    ensures var s := Print(v, rest); s != [] && !Whitespace(s[0]) && s[0] != CLOSE_BRACKET
  {
    if v.Integer? {
      DigitsValue(if v.n < 0 then -v.n else v.n);
    }
  }

  lemma NoSpace(s: seq<byte>)
    requires s != [] && !Whitespace(s[0])
    ensures SkipSpace(s) == s
  {
  }

  lemma NumberParses(n: int, rest: seq<byte>)
    requires Delimited(rest)
    ensures ParseNumber(Decimal(n) + rest) == Ok(Integer(n), rest)
    ensures Decimal(n)[0] == MINUS || Digit(Decimal(n)[0])
  {
    var m := if n < 0 then -n else n;
    var ds := Digits(m);
    DigitsParse(m, rest);
    DigitsValue(m);
    assert Digit(ds[0]);
    hide Digits, ParseDigits, FromDigits, RunLength;
    if n < 0 {
      assert ([MINUS] + ds + rest)[1..] == ds + rest;
    }
  }

  lemma IntegerParses(n: int, rest: seq<byte>)
    requires Delimited(rest)
    ensures ParseValue(Decimal(n) + rest) == Ok(Integer(n), rest)
  {
    NumberParses(n, rest);
    NoSpace(Decimal(n) + rest);
    hide Decimal, ParseNumber, ParseItems, ParseMembers, ParseString, SkipSpace;
  }

  lemma StringValueParses(text: seq<byte>, rest: seq<byte>)
    ensures ParseValue(Quoted(text, rest)) == Ok(String(text), rest)
  {
    var body := Escaped(text, [QUOTE] + rest);
    NoSpace(Quoted(text, rest));
    Behind(QUOTE, body);
    StringParses(text, rest);
    hide Escaped, ParseItems, ParseMembers, ParseString, SkipSpace;
  }

  lemma LiteralParses(v: Value, rest: seq<byte>)
    requires v.Null? || v.Bool?
    ensures ParseValue(Print(v, rest)) == Ok(v, rest)
  {
    var s := Print(v, rest);
    var k := |s| - |rest|;
    NoSpace(s);
    assert s[k..] == rest;
    hide ParseItems, ParseMembers, ParseString, SkipSpace;
  }

  /** Parsing the printed text of any value gives back the value and leaves what follows it. */
  lemma {:induction false} ParsePrint(v: Value, rest: seq<byte>)
    requires Delimited(rest)
    ensures ParseValue(Print(v, rest)) == Ok(v, rest)
    decreases v, 0
  {
    match v {
      case Null => LiteralParses(v, rest);
      case Bool(_) => LiteralParses(v, rest);
      case Integer(n) => IntegerParses(n, rest);
      case String(s) => StringValueParses(s, rest);
      case Array(items) => ArrayParses(items, rest);
      case Object(members) => ObjectParses(members, rest);
    }
  }

  lemma {:induction false} ArrayParses(items: seq<Value>, rest: seq<byte>)
    ensures ParseValue(Print(Array(items), rest)) == Ok(Array(items), rest)
    decreases items, 1
  {
    var u := PrintItems(items, true, [CLOSE_BRACKET] + rest);
    NoSpace([OPEN_BRACKET] + u);
    Behind(OPEN_BRACKET, u);
    if items == [] {
      NoSpace(u);
      Behind(CLOSE_BRACKET, rest);
    } else {
      PrintStart(items[0], PrintItems(items[1..], false, [CLOSE_BRACKET] + rest));
      NoSpace(u);
      ItemsParse(items, rest);
    }
    hide ParseItems, ParseMembers, ParseString, PrintItems, SkipSpace;
  }

  lemma {:induction false} ItemsParse(items: seq<Value>, rest: seq<byte>)
    requires items != []
    ensures ParseItems(PrintItems(items, true, [CLOSE_BRACKET] + rest)) == Ok(items, rest)
    decreases items, 0
  {
    var tail := PrintItems(items[1..], false, [CLOSE_BRACKET] + rest);
    assert items == [items[0]] + items[1..];
    assert PrintItems(items, true, [CLOSE_BRACKET] + rest) == Print(items[0], tail);
    if |items| == 1 {
      assert tail == [CLOSE_BRACKET] + rest;
      Behind(CLOSE_BRACKET, rest);
    } else {
      assert tail == [COMMA] + PrintItems(items[1..], true, [CLOSE_BRACKET] + rest);
      Behind(COMMA, PrintItems(items[1..], true, [CLOSE_BRACKET] + rest));
      ItemsParse(items[1..], rest);
    }
    hide Print, PrintItems, ParseValue, ParseItems;
    ParsePrint(items[0], tail);
    ItemsStep(Print(items[0], tail), items[0], tail);
    if |items| == 1 {
      assert ParseItems(Print(items[0], tail)) == Ok([items[0]], rest);
      assert items == [items[0]];
    } else {
      assert tail[0] == COMMA;
      assert ParseItems(tail[1..]) == Ok(items[1..], rest);
      assert ParseItems(Print(items[0], tail)) == Ok([items[0]] + items[1..], rest);
    }
  }

  lemma ItemsStep(s: seq<byte>, v: Value, tail: seq<byte>)
    requires ParseValue(s) == Ok(v, tail) && tail != []
    ensures tail[0] == CLOSE_BRACKET ==> ParseItems(s) == Ok([v], tail[1..])
    ensures tail[0] == COMMA && ParseItems(tail[1..]).Ok? ==>
              ParseItems(s) == Ok([v] + ParseItems(tail[1..]).value, ParseItems(tail[1..]).rest)
  {
    hide ParseValue, ParseMembers;
  }

  lemma {:induction false} ObjectParses(members: seq<Member>, rest: seq<byte>)
    ensures ParseValue(Print(Object(members), rest)) == Ok(Object(members), rest)
    decreases members, 1
  {
    var u := PrintMembers(members, true, [CLOSE_BRACE] + rest);
    if members == [] {
      Behind(CLOSE_BRACE, rest);
    } else {
      MembersParse(members, rest);
    }
    ObjectOpens(members, rest);
    Behind(OPEN_BRACE, u);
    hide ParseItems, ParseMembers, ParseString, PrintMembers, SkipSpace;
  }

  lemma ObjectOpens(members: seq<Member>, rest: seq<byte>)
    ensures var u := PrintMembers(members, true, [CLOSE_BRACE] + rest);
            && u != [] && u[0] == (if members == [] then CLOSE_BRACE else QUOTE)
            && SkipSpace(u) == u && SkipSpace([OPEN_BRACE] + u) == [OPEN_BRACE] + u
  {
    var u := PrintMembers(members, true, [CLOSE_BRACE] + rest);
    NoSpace([OPEN_BRACE] + u);
    NoSpace(u);
  }

  lemma MembersStep(key: seq<byte>, value: seq<byte>, v: Value, tail: seq<byte>)
    requires ParseValue(value) == Ok(v, tail) && tail != []
    ensures var s := Quoted(key, [COLON] + value);
            && (tail[0] == CLOSE_BRACE ==> ParseMembers(s) == Ok([Member(key, v)], tail[1..]))
            && (tail[0] == COMMA && ParseMembers(tail[1..]).Ok? ==>
                  ParseMembers(s) == Ok([Member(key, v)] + ParseMembers(tail[1..]).value, ParseMembers(tail[1..]).rest))
  {
    var body := Escaped(key, [QUOTE] + ([COLON] + value));
    Behind(QUOTE, body);
    NoSpace([QUOTE] + body);
    Behind(COLON, value);
    NoSpace([COLON] + value);
    StringParses(key, [COLON] + value);
    hide Escaped, ParseValue, ParseItems, ParseString;
  }

  lemma {:induction false} MembersParse(members: seq<Member>, rest: seq<byte>)
    requires members != []
    ensures ParseMembers(PrintMembers(members, true, [CLOSE_BRACE] + rest)) == Ok(members, rest)
    decreases members, 0
  {
    var m := members[0];
    var tail := PrintMembers(members[1..], false, [CLOSE_BRACE] + rest);
    assert members == [m] + members[1..];
    assert PrintMembers(members, true, [CLOSE_BRACE] + rest) == Quoted(m.key, [COLON] + Print(m.value, tail));
    if |members| == 1 {
      assert tail == [CLOSE_BRACE] + rest;
      Behind(CLOSE_BRACE, rest);
    } else {
      assert tail == [COMMA] + PrintMembers(members[1..], true, [CLOSE_BRACE] + rest);
      Behind(COMMA, PrintMembers(members[1..], true, [CLOSE_BRACE] + rest));
      MembersParse(members[1..], rest);
    }
    hide Print, PrintMembers, Quoted, ParseValue, ParseMembers;
    ParsePrint(m.value, tail);
    MembersStep(m.key, Print(m.value, tail), m.value, tail);
    var s := Quoted(m.key, [COLON] + Print(m.value, tail));
    if |members| == 1 {
      assert ParseMembers(s) == Ok([m], rest);
      assert members == [m];
    } else {
      assert tail[0] == COMMA;
      assert ParseMembers(tail[1..]) == Ok(members[1..], rest);
      assert ParseMembers(s) == Ok([m] + members[1..], rest);
    }
  }

  /** Two values print alike only if they are equal. */
  lemma PrintInjective(a: Value, b: Value)
    requires Print(a, []) == Print(b, [])
    ensures a == b
  {
    ParsePrint(a, []);
    ParsePrint(b, []);
  }

  // ------------------------------------------------------------------ printing in front of a rest is appending it

  lemma {:induction false} EscapedConcat(s: seq<byte>, a: seq<byte>, b: seq<byte>)
    ensures Escaped(s, a + b) == Escaped(s, a) + b
  {
    hide Escape;
    if s != [] {
      EscapedConcat(s[1..], a, b);
      Associative(Escape(s[0]), Escaped(s[1..], a), b);
    }
  }

  lemma QuotedConcat(s: seq<byte>, a: seq<byte>, b: seq<byte>)
    ensures Quoted(s, a + b) == Quoted(s, a) + b
  {
    EscapedConcat(s, [QUOTE] + a, b);
    Associative([QUOTE], a, b);
    Associative([QUOTE], Escaped(s, [QUOTE] + a), b);
    hide Escaped;
  }

  lemma SeparatedConcat(first: bool, text: seq<byte>, b: seq<byte>)
    ensures Separated(first, text + b) == Separated(first, text) + b
  {
    Associative([COMMA], text, b);
  }

  lemma {:induction false} PrintConcat(v: Value, a: seq<byte>, b: seq<byte>)
    ensures Print(v, a + b) == Print(v, a) + b
    decreases v, 0
  {
    match v {
      case String(s) => QuotedConcat(s, a, b);
      case Array(items) =>
        assert [CLOSE_BRACKET] + (a + b) == [CLOSE_BRACKET] + a + b;
        ItemsConcat(items, true, [CLOSE_BRACKET] + a, b);
      case Object(members) =>
        assert [CLOSE_BRACE] + (a + b) == [CLOSE_BRACE] + a + b;
        MembersConcat(members, true, [CLOSE_BRACE] + a, b);
      case _ =>
    }
  }

  lemma {:induction false} ItemsConcat(items: seq<Value>, first: bool, a: seq<byte>, b: seq<byte>)
    ensures PrintItems(items, first, a + b) == PrintItems(items, first, a) + b
    decreases items, 1
  {
    if items != [] {
      hide Print, Separated;
      ItemsConcat(items[1..], false, a, b);
      var tail := PrintItems(items[1..], false, a);
      PrintConcat(items[0], tail, b);
      SeparatedConcat(first, Print(items[0], tail), b);
    }
  }

  lemma {:induction false} MembersConcat(members: seq<Member>, first: bool, a: seq<byte>, b: seq<byte>)
    ensures PrintMembers(members, first, a + b) == PrintMembers(members, first, a) + b
    decreases members, 1
  {
    if members != [] {
      hide Print, Quoted, Separated;
      var m := members[0];
      MembersConcat(members[1..], false, a, b);
      var tail := PrintMembers(members[1..], false, a);
      PrintConcat(m.value, tail, b);
      var value := Print(m.value, tail);
      QuotedConcat(m.key, [COLON] + value, b);
      Associative([COLON], value, b);
      SeparatedConcat(first, Quoted(m.key, [COLON] + value), b);
    }
  }
}
