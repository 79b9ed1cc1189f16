/** Bytes, optional values, hexadecimal digits and the unsigned lexicographic order. */
module Bytes {

  /** One octet. Text is a sequence of octets: character codes, as std::string holds them. */
  type byte = x: int | 0 <= x < 256

  datatype Option<+T> = None | Some(value: T)

  /** The lowercase hexadecimal digit of a nibble. */
  function HexChar(nibble: nat): byte
    requires nibble < 16
  {
    if nibble < 10 then 0x30 + nibble else 0x61 + (nibble - 10)
  }

  /** The value of a hexadecimal digit of either case. */
  function HexValue(c: byte): Option<nat> {
    if 0x30 <= c <= 0x39 then Some(c - 0x30)
    else if 0x61 <= c <= 0x66 then Some(c - 0x61 + 10)
    else if 0x41 <= c <= 0x46 then Some(c - 0x41 + 10)
    else None
  }

  /** Text, as the codes of its characters. */
  function Text(s: string): (t: seq<byte>)
    requires forall k | 0 <= k < |s| :: s[k] as int < 256
    ensures |t| == |s| && forall k | 0 <= k < |s| :: t[k] == s[k] as int
  {
    seq(|s|, k requires 0 <= k < |s| => s[k] as int)
  }

  /** What the digits print as, and what either case of them is worth. */
  lemma HexDigits(n: nat, c: byte)
    requires n < 16
    ensures HexChar(n) == Text("0123456789abcdef")[n]
    ensures HexValue(c) == Some(n) <==> c == Text("0123456789abcdef")[n] || c == Text("0123456789ABCDEF")[n]
    ensures HexValue(c).Some? ==> HexValue(c).value < 16
  {
  }

  /** The order of std::string and of the byte-wise comparison of UUIDs. */
  predicate Less(a: seq<int>, b: seq<int>) {
    if a == [] then b != []
    else if b == [] then false
    else if a[0] != b[0] then a[0] < b[0]
    else Less(a[1..], b[1..])
  }

  lemma Associative(a: seq<byte>, b: seq<byte>, c: seq<byte>)
    ensures a + (b + c) == a + b + c
  {
  }

  /** Behind a common beginning a ends and b does not, or the next byte of a is the smaller one. */
  ghost predicate Precedes(a: seq<int>, b: seq<int>) {
    exists k: nat :: k <= |a| && k < |b| && a[..k] == b[..k] && (k == |a| || a[k] < b[k])
  }

  lemma {:induction false} LessMeaning(a: seq<int>, b: seq<int>)
    ensures Less(a, b) <==> Precedes(a, b)
  {
    if a != [] && b != [] && a[0] == b[0] {
      LessMeaning(a[1..], b[1..]);
      if Less(a, b) {
        var k: nat :| k <= |a| - 1 && k < |b| - 1 && a[1..][..k] == b[1..][..k]
          && (k == |a| - 1 || a[1..][k] < b[1..][k]);
        assert a[..k + 1] == [a[0]] + a[1..][..k] && b[..k + 1] == [b[0]] + b[1..][..k];
      }
      if k: nat :| k <= |a| && k < |b| && a[..k] == b[..k] && (k == |a| || a[k] < b[k]) {
        assert k > 0;
        assert a[1..][..k - 1] == a[..k][1..] && b[1..][..k - 1] == b[..k][1..];
      }
    } else if Less(a, b) {
      assert a[..0] == b[..0];
    }
  }

  /** A text comes before everything that continues it. */
  lemma PrefixFirst(a: seq<int>, b: seq<int>)
    requires b != []
    ensures Less(a, a + b) && !Less(a + b, a)
  {
    LessMeaning(a, a + b);
    assert a[..|a|] == (a + b)[..|a|];
    if Less(a + b, a) {
      LessTransitive(a, a + b, a);
      LessIrreflexive(a);
    }
  }

  lemma LessIrreflexive(a: seq<int>)
    ensures !Less(a, a)
  {
  }

  lemma {:induction false} LessTransitive(a: seq<int>, b: seq<int>, c: seq<int>)
    requires Less(a, b) && Less(b, c)
    ensures Less(a, c)
  {
    if a != [] && b != [] && c != [] && a[0] == b[0] == c[0] {
      LessTransitive(a[1..], b[1..], c[1..]);
    }
  }

  lemma {:induction false} LessTotal(a: seq<int>, b: seq<int>)
    ensures Less(a, b) || a == b || Less(b, a)
  {
    if a != [] && b != [] && a[0] == b[0] {
      LessTotal(a[1..], b[1..]);
      assert a == [a[0]] + a[1..] && b == [b[0]] + b[1..];
    }
  }

  /** Comparing two concatenations of equally long heads compares the heads first. */
  lemma {:induction false} LessConcat(a: seq<int>, a': seq<int>, b: seq<int>, b': seq<int>)
    requires |a| == |b|
    ensures Less(a + a', b + b') <==> Less(a, b) || (a == b && Less(a', b'))
  {
    if a == [] {
      assert a + a' == a' && b + b' == b';
    } else {
      assert (a + a')[1..] == a[1..] + a' && (b + b')[1..] == b[1..] + b';
      LessConcat(a[1..], a', b[1..], b');
      if a[0] == b[0] {
        assert a == [a[0]] + a[1..] && b == [b[0]] + b[1..];
      }
    }
  }
}
