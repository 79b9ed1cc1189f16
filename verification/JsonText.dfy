/** The text of a JSON value, spelled out, and that the writer's printer produces it. */
module JsonText {
  import opened Bytes
  import opened Json

  /** The decimal digits of a number, with a sign if it is negative. */
  function NumberText(n: int): seq<byte>
    decreases if n < 0 then 1 - n else n
  {
    if n < 0 then Text("-") + NumberText(-n)
    else if n < 10 then [Text("0123456789")[n]]
    else NumberText(n / 10) + [Text("0123456789")[n % 10]]
  }

  /** One byte of a string: short escapes where there are any, four hexadecimal digits for other control characters. */
  function CharText(c: byte): seq<byte> {
    if c == 0x22 then Text("\\\"")
    else if c == 0x5C then Text("\\\\")
    else if c == 0x08 then Text("\\b")
    else if c == 0x09 then Text("\\t")
    else if c == 0x0A then Text("\\n")
    else if c == 0x0C then Text("\\f")
    else if c == 0x0D then Text("\\r")
    else if c < 0x20 then Text("\\u00") + [Text("01")[c / 16], Text("0123456789abcdef")[c % 16]]
    else [c]
  }

  function CharsText(s: seq<byte>): seq<byte> {
    if s == [] then [] else CharText(s[0]) + CharsText(s[1..])
  }

  function StringText(s: seq<byte>): seq<byte> {
    Text("\"") + CharsText(s) + Text("\"")
  }

  function ValueText(v: Value): seq<byte> {
    match v
    case Null => Text("null")
    case Bool(b) => if b then Text("true") else Text("false")
    case Integer(n) => NumberText(n)
    case String(s) => StringText(s)
    case Array(items) => Text("[") + ItemsText(items) + Text("]")
    case Object(members) => Text("{") + MembersText(members) + Text("}")
  }

  /** The items, with commas between them. */
  function ItemsText(items: seq<Value>): seq<byte> {
    if items == [] then []
    else if |items| == 1 then ValueText(items[0])
    else ValueText(items[0]) + Text(",") + ItemsText(items[1..])
  }

  /** The members, a colon between key and value and commas between them. */
  function MembersText(members: seq<Member>): seq<byte> {
    if members == [] then []
    else
      var first := StringText(members[0].key) + Text(":") + ValueText(members[0].value);
      if |members| == 1 then first else first + Text(",") + MembersText(members[1..])
  }

  // ------------------------------------------------------------------ the printer prints it

  lemma Marks()
    ensures Text("\"") == [QUOTE] && Text(",") == [COMMA] && Text(":") == [COLON]
    ensures Text("[") == [OPEN_BRACKET] && Text("]") == [CLOSE_BRACKET]
    ensures Text("{") == [OPEN_BRACE] && Text("}") == [CLOSE_BRACE]
  {
  }

  lemma {:induction false} DigitsText(n: nat)
    ensures Digits(n) == NumberText(n)
  {
    if n >= 10 {
      DigitsText(n / 10);
    }
    assert Text("0123456789")[n % 10] == 0x30 + n % 10;
  }

  lemma DecimalText(n: int)
    ensures Decimal(n) == NumberText(n)
  {
    DigitsText(if n < 0 then -n else n);
    assert Text("-") == [MINUS];
  }

  lemma EscapeText(c: byte)
    ensures Escape(c) == CharText(c)
  {
    if c < 0x20 {
      HexDigits(c / 16, 0);
      HexDigits(c % 16, 0);
    }
  }

  lemma {:induction false} EscapedText(s: seq<byte>, rest: seq<byte>)
    ensures Escaped(s, rest) == CharsText(s) + rest
  {
    if s != [] {
      EscapeText(s[0]);
      EscapedText(s[1..], rest);
      hide Escape, CharText;
      Associative(CharText(s[0]), CharsText(s[1..]), rest);
    }
  }

  lemma QuotedText(s: seq<byte>, rest: seq<byte>)
    ensures Quoted(s, rest) == StringText(s) + rest
  {
    Marks();
    EscapedText(s, [QUOTE] + rest);
    hide Escaped, CharsText;
    Associative(CharsText(s), [QUOTE], rest);
    Associative([QUOTE], CharsText(s) + [QUOTE], rest);
    Associative([QUOTE], CharsText(s), [QUOTE]);
  }

  /** What the printer puts in front of a rest is the text of the value. */
  lemma {:induction false} PrintIsText(v: Value, rest: seq<byte>)
    ensures Print(v, rest) == ValueText(v) + rest
    decreases v, 1
  {
    Marks();
    match v {
      case Null => assert Text("null") == NULL_TEXT;
      case Bool(_) => assert Text("true") == TRUE_TEXT && Text("false") == FALSE_TEXT;
      case Integer(n) => DecimalText(n);
      case String(s) => QuotedText(s, rest);
      case Array(items) =>
        ItemsAreText(items, [CLOSE_BRACKET] + rest);
        Enclosed(OPEN_BRACKET, ItemsText(items), CLOSE_BRACKET, rest);
      case Object(members) =>
        MembersAreText(members, [CLOSE_BRACE] + rest);
        Enclosed(OPEN_BRACE, MembersText(members), CLOSE_BRACE, rest);
    }
  }

  lemma Enclosed(open: byte, body: seq<byte>, close: byte, rest: seq<byte>)
    ensures [open] + (body + ([close] + rest)) == [open] + body + [close] + rest
  {
  }

  lemma Between(first: seq<byte>, mark: byte, more: seq<byte>, rest: seq<byte>)
    ensures first + ([mark] + (more + rest)) == first + [mark] + more + rest
  {
  }

  /** Behind an earlier item a comma comes first. */
  lemma {:induction false} MoreItems(items: seq<Value>, rest: seq<byte>)
    ensures PrintItems(items, false, rest) == (if items == [] then [] else [COMMA] + ItemsText(items)) + rest
    decreases items, 2
  {
    if items != [] {
      ItemsAreText(items, rest);
      Associative([COMMA], ItemsText(items), rest);
    }
  }

  lemma {:induction false} ItemsAreText(items: seq<Value>, rest: seq<byte>)
    ensures PrintItems(items, true, rest) == ItemsText(items) + rest
    decreases items, 0
  {
    if items != [] {
      Marks();
      hide Print, ValueText;
      var tail := PrintItems(items[1..], false, rest);
      PrintIsText(items[0], tail);
      MoreItems(items[1..], rest);
      if |items| > 1 {
        Associative([COMMA], ItemsText(items[1..]), rest);
        Between(ValueText(items[0]), COMMA, ItemsText(items[1..]), rest);
      }
    }
  }

  lemma {:induction false} MoreMembers(members: seq<Member>, rest: seq<byte>)
    ensures PrintMembers(members, false, rest) == (if members == [] then [] else [COMMA] + MembersText(members)) + rest
    decreases members, 2
  {
    if members != [] {
      MembersAreText(members, rest);
      Associative([COMMA], MembersText(members), rest);
    }
  }

  lemma {:induction false} MembersAreText(members: seq<Member>, rest: seq<byte>)
    ensures PrintMembers(members, true, rest) == MembersText(members) + rest
    decreases members, 0
  {
    if members != [] {
      Marks();
      hide Print, ValueText, Quoted, StringText;
      var m := members[0];
      var tail := PrintMembers(members[1..], false, rest);
      PrintIsText(m.value, tail);
      QuotedText(m.key, [COLON] + Print(m.value, tail));
      Between(StringText(m.key), COLON, ValueText(m.value), tail);
      MoreMembers(members[1..], rest);
      var first := StringText(m.key) + [COLON] + ValueText(m.value);
      if |members| > 1 {
        Associative([COMMA], MembersText(members[1..]), rest);
        Between(first, COMMA, MembersText(members[1..]), rest);
      }
    }
  }
}
