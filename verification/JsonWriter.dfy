/** The JSON writer: a growing buffer and a stack of open scopes. */
module JsonWriter {
  import opened Bytes
  import opened Json
  import opened JsonText

  datatype Kind = ObjectScope | ArrayScope

  datatype Scope = Scope(kind: Kind, first: bool)

  /** The separator a value needs in the innermost scope: only arrays put one themselves. */
  function Separator(stack: seq<Scope>): seq<byte> {
    if stack != [] && stack[|stack| - 1].kind == ArrayScope && !stack[|stack| - 1].first then [COMMA] else []
  }

  /** The scopes once a value has been started in the innermost one. */
  function Touched(stack: seq<Scope>): seq<Scope> {
    if stack != [] && stack[|stack| - 1].kind == ArrayScope
    then stack[|stack| - 1 := Scope(ArrayScope, false)] else stack
  }

  class JsonWriter {
    var buffer: seq<byte>
    var stack: seq<Scope>

    constructor ()
      ensures buffer == [] && stack == []
    {
      buffer, stack := [], [];
    }

    method HandleArraySeparator()
      modifies this
      ensures buffer == old(buffer) + Separator(old(stack)) && stack == Touched(old(stack))
    {
      if stack != [] && stack[|stack| - 1].kind == ArrayScope {
        if !stack[|stack| - 1].first {
          buffer := buffer + [COMMA];
        }
        stack := stack[|stack| - 1 := Scope(ArrayScope, false)];
      }
    }

    method BeginObject()
      modifies this
      ensures buffer == old(buffer) + Separator(old(stack)) + [OPEN_BRACE]
      ensures stack == Touched(old(stack)) + [Scope(ObjectScope, true)]
    {
      HandleArraySeparator();
      buffer := buffer + [OPEN_BRACE];
      stack := stack + [Scope(ObjectScope, true)];
    }

    method EndObject()
      modifies this
      ensures buffer == old(buffer) + [CLOSE_BRACE]
      ensures stack == if old(stack) == [] then [] else old(stack)[..|old(stack)| - 1]
    {
      buffer := buffer + [CLOSE_BRACE];
      if stack != [] {
        stack := stack[..|stack| - 1];
      }
    }

    method BeginArray()
      modifies this
      ensures buffer == old(buffer) + Separator(old(stack)) + [OPEN_BRACKET]
      ensures stack == Touched(old(stack)) + [Scope(ArrayScope, true)]
    {
      HandleArraySeparator();
      buffer := buffer + [OPEN_BRACKET];
      stack := stack + [Scope(ArrayScope, true)];
    }

    method EndArray()
      modifies this
      ensures buffer == old(buffer) + [CLOSE_BRACKET]
      ensures stack == if old(stack) == [] then [] else old(stack)[..|old(stack)| - 1]
    {
      buffer := buffer + [CLOSE_BRACKET];
      if stack != [] {
        stack := stack[..|stack| - 1];
      }
    }

    /** A member's key: with its own separator whatever the kind of scope. */
    method Key(k: seq<byte>)
      modifies this
      ensures buffer == old(buffer)
                        + Separated(old(stack) == [] || old(stack)[|old(stack)| - 1].first, Quoted(k, [COLON]))
      ensures stack == if old(stack) == [] then []
                       else old(stack)[|old(stack)| - 1 := old(stack)[|old(stack)| - 1].(first := false)]
    {
      hide Quoted, Separated;
      if stack != [] && !stack[|stack| - 1].first {
        buffer := buffer + [COMMA];
      } else {
        assert buffer + [] == buffer;
      }
      WriteQuotedString(k);
      buffer := buffer + [COLON];
      KeyText(old(buffer), k, stack == [] || stack[|stack| - 1].first);
      if stack != [] {
        stack := stack[|stack| - 1 := stack[|stack| - 1].(first := false)];
      }
    }

    method WriteNull()
      modifies this
      ensures buffer == old(buffer) + Separator(old(stack)) + NULL_TEXT && stack == Touched(old(stack))
    {
      HandleArraySeparator();
      buffer := buffer + NULL_TEXT;
    }

    method WriteBool(b: bool)
      modifies this
      ensures buffer == old(buffer) + Separator(old(stack)) + (if b then TRUE_TEXT else FALSE_TEXT)
      ensures stack == Touched(old(stack))
    {
      HandleArraySeparator();
      buffer := buffer + (if b then TRUE_TEXT else FALSE_TEXT);
    }

    method WriteI64(n: int)
      requires -0x8000_0000_0000_0000 <= n < 0x8000_0000_0000_0000
      modifies this
      ensures buffer == old(buffer) + Separator(old(stack)) + Decimal(n) && stack == Touched(old(stack))
    {
      HandleArraySeparator();
      buffer := buffer + Decimal(n);
    }

    method WriteU64(n: int)
      requires 0 <= n < 0x1_0000_0000_0000_0000
      modifies this
      ensures buffer == old(buffer) + Separator(old(stack)) + Decimal(n) && stack == Touched(old(stack))
    {
      HandleArraySeparator();
      buffer := buffer + Decimal(n);
    }

    method WriteString(s: seq<byte>)
      modifies this
      ensures buffer == old(buffer) + Separator(old(stack)) + Quoted(s, []) && stack == Touched(old(stack))
    {
      HandleArraySeparator();
      WriteQuotedString(s);
    }

    method WriteQuotedString(s: seq<byte>)
      modifies this`buffer
      ensures buffer == old(buffer) + Quoted(s, [])
    {
      hide Escape;
      ghost var start := buffer;
      buffer := buffer + [QUOTE];
      assert s[0..] == s && [QUOTE] + [] == [QUOTE];
      for k := 0 to |s|
        invariant buffer + Escaped(s[k..], [QUOTE]) == start + Quoted(s, [])
      {
        assert s[k..][1..] == s[k + 1..];
        assert buffer + Escaped(s[k..], [QUOTE]) == buffer + Escape(s[k]) + Escaped(s[k + 1..], [QUOTE]);
        buffer := buffer + Escape(s[k]);
      }
      assert s[|s|..] == [];
      buffer := buffer + [QUOTE];
    }

    method Take() returns (out: seq<byte>)
      modifies this
      ensures out == old(buffer) && buffer == [] && stack == []
    {
      out := buffer;
      buffer, stack := [], [];
    }

    predicate WellFormed()
      reads this
    {
      stack == []
    }

    // ---------------------------------------------------------------- driving the writer over a value

    /** Writes any value tree: the text the reference parser undoes, in place of a value, scopes restored. */
    method Drive(v: Value)
      requires Writable(v)
      modifies this
      ensures buffer == old(buffer) + Separator(old(stack)) + Print(v, [])
      ensures stack == Touched(old(stack))
      decreases v, 0
    {
      match v
      case Null => WriteNull();
      case Bool(b) => WriteBool(b);
      case Integer(n) =>
        if n < 0x8000_0000_0000_0000 {
          WriteI64(n);
        } else {
          WriteU64(n);
        }
      case String(s) => WriteString(s);
      case Array(items) =>
        ghost var start, outer := buffer + Separator(stack), Touched(stack);
        BeginArray();
        assert stack[..|stack| - 1] == outer;
        DriveItems(items);
        EndArray();
        ArrayText(items);
        Bracketed(start, [OPEN_BRACKET], PrintItems(items, true, []), [CLOSE_BRACKET]);
      case Object(members) =>
        ghost var start, outer := buffer + Separator(stack), Touched(stack);
        BeginObject();
        assert stack[..|stack| - 1] == outer;
        DriveMembers(members);
        EndObject();
        ObjectText(members);
        Bracketed(start, [OPEN_BRACE], PrintMembers(members, true, []), [CLOSE_BRACE]);
    }

    method DriveItems(items: seq<Value>)
      requires forall k | 0 <= k < |items| :: Writable(items[k])
      requires stack != [] && stack[|stack| - 1].kind == ArrayScope
      modifies this
      ensures buffer == old(buffer) + PrintItems(items, old(stack)[|old(stack)| - 1].first, [])
      ensures |stack| == |old(stack)| && stack[..|stack| - 1] == old(stack)[..|stack| - 1]
      decreases items, 1
    {
      if items != [] {
        ghost var start, scopes := buffer, stack;
        InArray(scopes);
        hide Print, PrintItems, Writable, Separator, Touched;
        Drive(items[0]);
        ghost var mid := buffer;
        DriveItems(items[1..]);
        ItemDriven(start, items, scopes[|scopes| - 1].first, mid, buffer);
      }
    }

    method DriveMembers(members: seq<Member>)
      requires forall k | 0 <= k < |members| :: Writable(members[k].value)
      requires stack != [] && stack[|stack| - 1].kind == ObjectScope
      modifies this
      ensures buffer == old(buffer) + PrintMembers(members, old(stack)[|old(stack)| - 1].first, [])
      ensures |stack| == |old(stack)| && stack[..|stack| - 1] == old(stack)[..|stack| - 1]
      decreases members, 1
    {
      if members != [] {
        ghost var start, scopes := buffer, stack;
        var m := members[0];
        InObject(scopes);
        hide Print, PrintMembers, Writable, Quoted, Separated, Separator, Touched;
        Key(m.key);
        InObject(stack);
        Drive(m.value);
        ghost var mid := buffer;
        DriveMembers(members[1..]);
        MemberDriven(start, members, scopes[|scopes| - 1].first, mid, buffer);
      }
    }
  }

  // ------------------------------------------------------------------ the pieces appended make up the text

  lemma InArray(stack: seq<Scope>)
    requires stack != [] && stack[|stack| - 1].kind == ArrayScope
    ensures Separator(stack) == if stack[|stack| - 1].first then [] else [COMMA]
    ensures var t := Touched(stack);
            |t| == |stack| && t[..|t| - 1] == stack[..|stack| - 1] && t[|t| - 1] == Scope(ArrayScope, false)
  {
  }

  /** In an object a value brings no separator; the key before it has marked the scope. */
  lemma InObject(stack: seq<Scope>)
    requires stack != [] && stack[|stack| - 1].kind == ObjectScope
    ensures Separator(stack) == [] && Touched(stack) == stack
    ensures var t := stack[|stack| - 1 := stack[|stack| - 1].(first := false)];
            |t| == |stack| && t[..|t| - 1] == stack[..|stack| - 1] && t[|t| - 1] == Scope(ObjectScope, false)
  {
  }

  lemma ItemDriven(start: seq<byte>, items: seq<Value>, first: bool, mid: seq<byte>, end: seq<byte>)
    requires items != [] && mid == start + (if first then [] else [COMMA]) + Print(items[0], [])
    requires end == mid + PrintItems(items[1..], false, [])
    ensures end == start + PrintItems(items, first, [])
  {
    hide Print, PrintItems;
    ItemText(start, items, first);
  }

  lemma MemberDriven(start: seq<byte>, members: seq<Member>, first: bool, mid: seq<byte>, end: seq<byte>)
    requires members != []
    requires mid == start + Separated(first, Quoted(members[0].key, [COLON])) + [] + Print(members[0].value, [])
    requires end == mid + PrintMembers(members[1..], false, [])
    ensures end == start + PrintMembers(members, first, [])
  {
    hide Print, PrintMembers, Quoted, Separated;
    var key := start + Separated(first, Quoted(members[0].key, [COLON]));
    assert key + [] == key;
    MemberText(start, members, first);
  }

  lemma Bracketed(start: seq<byte>, open: seq<byte>, body: seq<byte>, close: seq<byte>)
    ensures start + open + body + close == start + (open + body + close)
  {
  }

  lemma ArrayText(items: seq<Value>)
    ensures [OPEN_BRACKET] + PrintItems(items, true, []) + [CLOSE_BRACKET] == Print(Array(items), [])
  {
    ItemsConcat(items, true, [], [CLOSE_BRACKET]);
    assert [CLOSE_BRACKET] + [] == [CLOSE_BRACKET] == [] + [CLOSE_BRACKET];
  }

  lemma ObjectText(members: seq<Member>)
    ensures [OPEN_BRACE] + PrintMembers(members, true, []) + [CLOSE_BRACE] == Print(Object(members), [])
  {
    MembersConcat(members, true, [], [CLOSE_BRACE]);
    assert [CLOSE_BRACE] + [] == [CLOSE_BRACE] == [] + [CLOSE_BRACE];
  }

  lemma Lead(first: bool, start: seq<byte>, text: seq<byte>, more: seq<byte>)
    ensures start + (if first then [] else [COMMA]) + text + more == start + Separated(first, text + more)
    ensures start + Separated(first, text) + more == start + Separated(first, text + more)
  {
    if first {
      assert start + [] == start;
      assert start + text + more == start + (text + more);
    } else {
      assert start + [COMMA] + text + more == start + ([COMMA] + (text + more));
      assert start + ([COMMA] + text) + more == start + ([COMMA] + (text + more));
    }
  }

  lemma KeyText(start: seq<byte>, k: seq<byte>, first: bool)
    ensures start + (if first then [] else [COMMA]) + Quoted(k, []) + [COLON]
         == start + Separated(first, Quoted(k, [COLON]))
  {
    QuotedConcat(k, [], [COLON]);
    assert [] + [COLON] == [COLON];
    hide Quoted;
    Lead(first, start, Quoted(k, []), [COLON]);
  }

  lemma ItemText(start: seq<byte>, items: seq<Value>, first: bool)
    requires items != []
    ensures start + (if first then [] else [COMMA]) + Print(items[0], []) + PrintItems(items[1..], false, [])
         == start + PrintItems(items, first, [])
  {
    var more := PrintItems(items[1..], false, []);
    PrintConcat(items[0], [], more);
    assert [] + more == more;
    hide Print;
    Lead(first, start, Print(items[0], []), more);
  }

  lemma MemberText(start: seq<byte>, members: seq<Member>, first: bool)
    requires members != []
    ensures start + Separated(first, Quoted(members[0].key, [COLON])) + Print(members[0].value, [])
              + PrintMembers(members[1..], false, [])
         == start + PrintMembers(members, first, [])
  {
    hide Print, Quoted;
    var m := members[0];
    var key := Quoted(m.key, [COLON]);
    var text := Print(m.value, []);
    var more := PrintMembers(members[1..], false, []);
    PrintConcat(m.value, [], more);
    assert [] + more == more;
    QuotedConcat(m.key, [COLON], text + more);
    Lead(first, start, key, text + more);
    assert start + Separated(first, key) + text + more == start + Separated(first, key) + (text + more);
  }

  /** What a fresh writer produced for a value parses back to that value, and all scopes are closed. */
  method WriteDocument(v: Value) returns (text: seq<byte>, closed: bool)
    requires Writable(v)
    ensures ParseValue(text) == Ok(v, []) && text == ValueText(v) && closed
  {
    var writer := new JsonWriter();
    writer.Drive(v);
    closed := writer.WellFormed();
    text := writer.Take();
    ParsePrint(v, []);
    PrintIsText(v, []);
    assert text == Print(v, []);
  }
}
