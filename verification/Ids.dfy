/** The text of UUIDs (section 3 of RFC 4122) and of hierarchical ids, and the order on both. */
module Ids {
  import opened Bytes
  import opened Wire

  const HYPHEN: byte := 0x2D
  const COLON: byte := 0x3A

  // ------------------------------------------------------------------ hexadecimal digits

  function LowerChar(c: byte): byte {
    if 0x41 <= c <= 0x5A then c + 0x20 else c
  }

  function Lower(s: seq<byte>): (t: seq<byte>)
    ensures |t| == |s|
  {
    seq(|s|, k requires 0 <= k < |s| => LowerChar(s[k]))
  }

  /** A character is a digit of value n exactly if its lower case is the one printed for n. */
  lemma HexMeaning(c: byte, n: nat)
    requires n < 16
    ensures HexValue(c) == Some(n) <==> LowerChar(c) == HexChar(n)
    ensures HexValue(c).Some? ==> HexValue(c).value < 16
  {
  }

  // ------------------------------------------------------------------ the canonical text of a UUID

  const TEXT_LEN := 36

  predicate IsHyphen(k: nat) {
    k == 8 || k == 13 || k == 18 || k == 23
  }

  /** Which of the 32 digits stands at position k of the 8-4-4-4-12 form. */
  function DigitAt(k: nat): (n: nat)
    requires k < TEXT_LEN && !IsHyphen(k)
    ensures n < 32
  {
    if k < 8 then k else if k < 13 then k - 1 else if k < 18 then k - 2 else if k < 23 then k - 3 else k - 4
  }

  function Nibble(u: Bytes16, n: nat): (v: nat)
    requires n < 32
    ensures v < 16
  {
    if n % 2 == 0 then u[n / 2] / 16 else u[n / 2] % 16
  }

  function CharAt(u: Bytes16, k: nat): byte
    requires k < TEXT_LEN
  {
    if IsHyphen(k) then HYPHEN else HexChar(Nibble(u, DigitAt(k)))
  }

  function UuidText(u: Bytes16): (s: seq<byte>)
    ensures |s| == TEXT_LEN
  {
    seq(TEXT_LEN, k requires 0 <= k < TEXT_LEN => CharAt(u, k))
  }

  /** Where the two digits of byte i stand. */
  const OFFSETS: seq<nat> := [0, 2, 4, 6, 9, 11, 14, 16, 19, 21, 24, 26, 28, 30, 32, 34]

  lemma OffsetMeaning(i: nat)
    requires i < 16
    ensures var at := OFFSETS[i];
            && at + 1 < TEXT_LEN && !IsHyphen(at) && !IsHyphen(at + 1)
            && DigitAt(at) == 2 * i && DigitAt(at + 1) == 2 * i + 1
  {
  }

  /** Every position is a hyphen or one of the two digits of a byte. */
  lemma OffsetsCover(k: nat)
    requires k < TEXT_LEN && !IsHyphen(k)
    ensures var at := OFFSETS[DigitAt(k) / 2]; k == at + DigitAt(k) % 2
  {
  }

  lemma UuidDigits(u: Bytes16, i: nat)
    requires i < 16
    ensures var (s, at) := (UuidText(u), OFFSETS[i]);
            && s[8] == s[13] == s[18] == s[23] == HYPHEN
            && s[at] == HexChar(u[i] / 16) && s[at + 1] == HexChar(u[i] % 16)
  {
    hide HexChar;
    OffsetMeaning(i);
  }

  lemma OffsetGroups(i: nat)
    requires i < 16
    ensures OFFSETS[i] == if i < 4 then 2 * i else if i < 6 then 2 * i + 1 else if i < 8 then 2 * i + 2
                          else if i < 10 then 2 * i + 3 else 2 * i + 4
  {
  }

  /** Two hexadecimal digits a byte, the high one first, in groups of 8, 4, 4, 4 and 12 with hyphens between. */
  lemma UuidTextMeaning(u: Bytes16, i: nat)
    requires i < 16
    ensures var s := UuidText(u);
            var at := if i < 4 then 2 * i else if i < 6 then 2 * i + 1 else if i < 8 then 2 * i + 2
                      else if i < 10 then 2 * i + 3 else 2 * i + 4;
            && |s| == 36 && s[8] == s[13] == s[18] == s[23] == Text("-")[0]
            && s[at] == Text("0123456789abcdef")[u[i] / 16] && s[at + 1] == Text("0123456789abcdef")[u[i] % 16]
  {
    HexDigits(u[i] / 16, 0);
    HexDigits(u[i] % 16, 0);
    UuidDigits(u, i);
    OffsetGroups(i);
    assert Text("-")[0] == HYPHEN;
    hide HexChar, UuidText, OFFSETS;
  }

  method ToString(u: Bytes16) returns (s: seq<byte>)
    ensures s == UuidText(u)
  {
    hide HexChar, Written, UuidText;
    var text := new byte[TEXT_LEN](i => 0);
    NothingWritten(text[..], u);
    for i := 0 to 16
      invariant Written(text[..], u, i)
    {
      WriteByte(text[..], u, i);
      text[OFFSETS[i]] := HexChar(u[i] / 16);
      text[OFFSETS[i] + 1] := HexChar(u[i] % 16);
    }
    WriteHyphens(text[..], u);
    text[8], text[13], text[18], text[23] := HYPHEN, HYPHEN, HYPHEN, HYPHEN;
    s := text[..];
  }

  /** The digits of the first i bytes stand in their places. */
  ghost predicate Written(s: seq<byte>, u: Bytes16, i: nat)
    requires i <= 16
  {
    |s| == TEXT_LEN && forall j | 0 <= j < i ::
      s[OFFSETS[j]] == HexChar(u[j] / 16) && s[OFFSETS[j] + 1] == HexChar(u[j] % 16)
  }

  lemma NothingWritten(s: seq<byte>, u: Bytes16)
    requires |s| == TEXT_LEN
    ensures Written(s, u, 0)
  {
  }

  lemma WriteByte(s: seq<byte>, u: Bytes16, i: nat)
    requires i < 16 && Written(s, u, i)
    ensures OFFSETS[i] + 1 < TEXT_LEN
    ensures Written(s[OFFSETS[i] := HexChar(u[i] / 16)][OFFSETS[i] + 1 := HexChar(u[i] % 16)], u, i + 1)
  {
    hide HexChar;
    assert forall j | 0 <= j < i :: OFFSETS[j] + 1 < OFFSETS[i];
  }

  lemma WriteHyphens(s: seq<byte>, u: Bytes16)
    requires Written(s, u, 16)
    ensures s[8 := HYPHEN][13 := HYPHEN][18 := HYPHEN][23 := HYPHEN] == UuidText(u)
  {
    hide HexChar;
    var t := s[8 := HYPHEN][13 := HYPHEN][18 := HYPHEN][23 := HYPHEN];
    forall j | 0 <= j < 16 ensures t[OFFSETS[j]] == s[OFFSETS[j]] && t[OFFSETS[j] + 1] == s[OFFSETS[j] + 1] {
      OffsetMeaning(j);
    }
    Assembled(u, t);
  }

  lemma Assembled(u: Bytes16, s: seq<byte>)
    requires |s| == TEXT_LEN && forall k | 0 <= k < TEXT_LEN && IsHyphen(k) :: s[k] == HYPHEN
    requires forall j | 0 <= j < 16 :: s[OFFSETS[j]] == HexChar(u[j] / 16) && s[OFFSETS[j] + 1] == HexChar(u[j] % 16)
    ensures s == UuidText(u)
  {
    forall k | 0 <= k < TEXT_LEN
      ensures s[k] == CharAt(u, k)
    {
      if !IsHyphen(k) {
        OffsetsCover(k);
        var j := DigitAt(k) / 2;
        assert s[OFFSETS[j]] == HexChar(u[j] / 16) && s[OFFSETS[j] + 1] == HexChar(u[j] % 16);
      }
    }
  }

  /** Hyphens where they belong and hexadecimal digits, of either case, everywhere else. */
  predicate WellFormed(s: seq<byte>) {
    |s| == TEXT_LEN && forall k | 0 <= k < TEXT_LEN :: if IsHyphen(k) then s[k] == HYPHEN else HexValue(s[k]).Some?
  }

  function ByteOf(s: seq<byte>, i: nat): byte
    requires WellFormed(s) && i < 16
  {
    OffsetMeaning(i);
    var hi, lo := s[OFFSETS[i]], s[OFFSETS[i] + 1];
    HexMeaning(hi, 0);
    HexMeaning(lo, 0);
    16 * HexValue(hi).value + HexValue(lo).value
  }

  function ParseUuid(s: seq<byte>): Option<Bytes16> {
    if WellFormed(s) then Some(seq(16, i requires 0 <= i < 16 => ByteOf(s, i))) else None
  }

  method FromString(s: seq<byte>) returns (u: Option<Bytes16>)
    ensures u == ParseUuid(s)
  {
    if |s| != TEXT_LEN {
      return None;
    }
    if s[8] != HYPHEN || s[13] != HYPHEN || s[18] != HYPHEN || s[23] != HYPHEN {
      assert !WellFormed(s);
      return None;
    }
    var bytes: seq<byte> := [];
    for i := 0 to 16
      invariant |bytes| == i
      invariant forall j | 0 <= j < i :: Digits(s, j) && bytes[j] == Pair(s, j)
    {
      OffsetMeaning(i);
      var hi, lo := HexValue(s[OFFSETS[i]]), HexValue(s[OFFSETS[i] + 1]);
      if hi.None? || lo.None? {
        assert !WellFormed(s);
        return None;
      }
      HexMeaning(s[OFFSETS[i]], 0);
      HexMeaning(s[OFFSETS[i] + 1], 0);
      bytes := bytes + [16 * hi.value + lo.value];
    }
    AllDigits(s);
    assert bytes == ParseUuid(s).value;
    u := Some(bytes);
  }

  predicate Digits(s: seq<byte>, j: nat)
    requires |s| == TEXT_LEN && j < 16
  {
    OffsetMeaning(j);
    HexValue(s[OFFSETS[j]]).Some? && HexValue(s[OFFSETS[j] + 1]).Some?
  }

  function Pair(s: seq<byte>, j: nat): nat
    requires |s| == TEXT_LEN && j < 16 && Digits(s, j)
  {
    OffsetMeaning(j);
    16 * HexValue(s[OFFSETS[j]]).value + HexValue(s[OFFSETS[j] + 1]).value
  }

  lemma AllDigits(s: seq<byte>)
    requires |s| == TEXT_LEN && s[8] == s[13] == s[18] == s[23] == HYPHEN
    requires forall j | 0 <= j < 16 :: Digits(s, j)
    ensures WellFormed(s)
  {
    forall k | 0 <= k < TEXT_LEN && !IsHyphen(k)
      ensures HexValue(s[k]).Some?
    {
      OffsetsCover(k);
      assert Digits(s, DigitAt(k) / 2);
    }
  }

  /** A string parses as u exactly if its lower case is what u prints as. */
  lemma UuidParsesIff(s: seq<byte>, u: Bytes16)
    ensures ParseUuid(s) == Some(u) <==> Lower(s) == UuidText(u)
  {
    if ParseUuid(s) == Some(u) {
      ParsedPrints(s, u);
    }
    if Lower(s) == UuidText(u) {
      PrintedParses(s, u);
    }
  }

  lemma PairSplits(hi: nat, lo: nat)
    requires hi < 16 && lo < 16
    ensures (16 * hi + lo) / 16 == hi && (16 * hi + lo) % 16 == lo
  {
  }

  lemma DigitParsed(s: seq<byte>, u: Bytes16, k: nat)
    requires ParseUuid(s) == Some(u) && k < TEXT_LEN && !IsHyphen(k)
    ensures HexValue(s[k]) == Some(Nibble(u, DigitAt(k)))
  {
    var i := DigitAt(k) / 2;
    OffsetsCover(k);
    OffsetMeaning(i);
    var hi, lo := s[OFFSETS[i]], s[OFFSETS[i] + 1];
    HexMeaning(hi, 0);
    HexMeaning(lo, 0);
    assert u[i] == ByteOf(s, i);
    PairSplits(HexValue(hi).value, HexValue(lo).value);
    hide HexValue;
  }

  lemma ParsedPrints(s: seq<byte>, u: Bytes16)
    requires ParseUuid(s) == Some(u)
    ensures Lower(s) == UuidText(u)
  {
    forall k | 0 <= k < TEXT_LEN
      ensures LowerChar(s[k]) == CharAt(u, k)
    {
      if !IsHyphen(k) {
        DigitParsed(s, u, k);
        HexMeaning(s[k], Nibble(u, DigitAt(k)));
      }
    }
  }

  lemma PrintedParses(s: seq<byte>, u: Bytes16)
    requires Lower(s) == UuidText(u)
    ensures ParseUuid(s) == Some(u)
  {
    assert |s| == TEXT_LEN;
    forall k | 0 <= k < TEXT_LEN
      ensures if IsHyphen(k) then s[k] == HYPHEN else HexValue(s[k]) == Some(Nibble(u, DigitAt(k)))
    {
      assert Lower(s)[k] == CharAt(u, k);
      if !IsHyphen(k) {
        HexMeaning(s[k], Nibble(u, DigitAt(k)));
      }
    }
    forall i | 0 <= i < 16
      ensures ByteOf(s, i) == u[i]
    {
      OffsetMeaning(i);
    }
    assert ParseUuid(s).value == u;
  }

  /** Printing and parsing again gives the UUID back. */
  lemma UuidRoundTrip(u: Bytes16)
    ensures ParseUuid(UuidText(u)) == Some(u)
  {
    forall k | 0 <= k < TEXT_LEN
      ensures LowerChar(UuidText(u)[k]) == UuidText(u)[k]
    {
    }
    assert Lower(UuidText(u)) == UuidText(u);
    UuidParsesIff(UuidText(u), u);
  }

  // ------------------------------------------------------------------ the order of UUIDs

  method Equal(a: Bytes16, b: Bytes16) returns (equal: bool)
    ensures equal <==> a == b
  {
    for i := 0 to 16
      invariant a[..i] == b[..i]
    {
      if a[i] != b[i] {
        return false;
      }
    }
    assert a == a[..16] && b == b[..16];
    equal := true;
  }

  /** Compares the bytes, most significant first. */
  method LessThan(a: Bytes16, b: Bytes16) returns (less: bool)
    ensures less <==> Less(a, b)
  {
    for i := 0 to 16
      invariant a[..i] == b[..i]
    {
      if a[i] != b[i] {
        LessByIndex(a, b, i);
        return a[i] < b[i];
      }
    }
    assert a == a[..16] && b == b[..16];
    LessIrreflexive(a);
    less := false;
  }

  method IsNil(u: Bytes16) returns (nil: bool)
    ensures nil <==> forall i | 0 <= i < 16 :: u[i] == 0
  {
    for i := 0 to 16
      invariant forall j | 0 <= j < i :: u[j] == 0
    {
      if u[i] != 0 {
        return false;
      }
    }
    nil := true;
  }

  /** The first place where two sequences differ decides their order. */
  lemma {:induction false} LessByIndex(a: seq<int>, b: seq<int>, k: nat)
    requires |a| == |b| && k < |a| && a[..k] == b[..k] && a[k] != b[k]
    ensures Less(a, b) <==> a[k] < b[k]
  {
    if k > 0 {
      assert a[0] == a[..k][0] && b[0] == b[..k][0];
      assert a[1..][..k - 1] == a[..k][1..] && b[1..][..k - 1] == b[..k][1..];
      LessByIndex(a[1..], b[1..], k - 1);
    }
  }

  lemma {:induction false} FirstDifference(a: seq<int>, b: seq<int>) returns (k: nat)
    requires |a| == |b| && a != b
    ensures k < |a| && a[..k] == b[..k] && a[k] != b[k]
  {
    if a[0] != b[0] {
      k := 0;
    } else {
      assert a == [a[0]] + a[1..] && b == [b[0]] + b[1..];
      var j := FirstDifference(a[1..], b[1..]);
      k := j + 1;
      assert a[..k] == [a[0]] + a[1..][..j] && b[..k] == [b[0]] + b[1..][..j];
    }
  }

  lemma HexMonotone(m: nat, n: nat)
    requires m < 16 && n < 16
    ensures HexChar(m) < HexChar(n) <==> m < n
  {
  }

  /** The texts of two UUIDs that first differ in byte i first differ in one of its digits. */
  lemma TextsDiffer(a: Bytes16, b: Bytes16, i: nat, k: nat)
    requires i < 16 && a[..i] == b[..i] && k < TEXT_LEN && !IsHyphen(k) && DigitAt(k) / 2 == i
    requires DigitAt(k) % 2 == 1 ==> a[i] / 16 == b[i] / 16
    ensures UuidText(a)[..k] == UuidText(b)[..k]
  {
    forall j | 0 <= j < k
      ensures CharAt(a, j) == CharAt(b, j)
    {
      if !IsHyphen(j) {
        var n := DigitAt(j);
        assert n < DigitAt(k);
        if n / 2 < i {
          assert a[n / 2] == a[..i][n / 2] && b[n / 2] == b[..i][n / 2];
        }
      }
    }
  }

  /** UUIDs are ordered as their texts are. */
  lemma UuidOrderIsTextOrder(a: Bytes16, b: Bytes16)
    ensures Less(a, b) <==> Less(UuidText(a), UuidText(b))
  {
    if a == b {
      LessIrreflexive(a);
      LessIrreflexive(UuidText(a));
    } else {
      var i := FirstDifference(a, b);
      OffsetMeaning(i);
      var hi := a[i] / 16 != b[i] / 16;
      var k := if hi then OFFSETS[i] else OFFSETS[i] + 1;
      LessByIndex(a, b, i);
      TextsDiffer(a, b, i, k);
      HexMonotone(Nibble(a, DigitAt(k)), Nibble(b, DigitAt(k)));
      HexMonotone(Nibble(b, DigitAt(k)), Nibble(a, DigitAt(k)));
      assert UuidText(a)[k] == HexChar(Nibble(a, DigitAt(k))) && UuidText(b)[k] == HexChar(Nibble(b, DigitAt(k)));
      hide HexChar, IsHyphen, DigitAt;
      LessByIndex(UuidText(a), UuidText(b), k);
    }
  }

  // ------------------------------------------------------------------ hierarchical ids

  const SWARM_HEX_LEN := 4

  function SwarmText(swarm: u16): (s: seq<byte>)
    ensures |s| == SWARM_HEX_LEN
  {
    [HexChar(SwarmDigit(swarm, 3)), HexChar(SwarmDigit(swarm, 2)),
     HexChar(SwarmDigit(swarm, 1)), HexChar(SwarmDigit(swarm, 0))]
  }

  /** Hexadecimal digit i of a swarm id, counted from the least significant. */
  function SwarmDigit(swarm: u16, i: nat): (d: nat)
    requires i < SWARM_HEX_LEN
    ensures d < 16
  {
    if i == 3 then swarm / 4096 else if i == 2 then swarm / 256 % 16 else if i == 1 then swarm / 16 % 16 else swarm % 16
  }

  lemma SwarmDigitsCompose(swarm: u16)
    ensures swarm
         == 4096 * SwarmDigit(swarm, 3) + 256 * SwarmDigit(swarm, 2) + 16 * SwarmDigit(swarm, 1) + SwarmDigit(swarm, 0)
  {
    assert swarm / 256 == swarm / 16 / 16 && swarm / 4096 == swarm / 256 / 16;
  }

  function HidText(h: HierarchicalId): (s: seq<byte>)
    ensures |s| == SWARM_HEX_LEN + 1 + TEXT_LEN
  {
    SwarmText(h.swarm) + [COLON] + UuidText(h.unit)
  }

  /** Four hexadecimal digits of the swarm id, the highest first, a colon and the unit's text. */
  lemma HidTextMeaning(h: HierarchicalId)
    ensures var s := HidText(h);
            && |s| == 41
            && s[0] == Text("0123456789abcdef")[h.swarm / 4096] && s[1] == Text("0123456789abcdef")[h.swarm / 256 % 16]
            && s[2] == Text("0123456789abcdef")[h.swarm / 16 % 16] && s[3] == Text("0123456789abcdef")[h.swarm % 16]
            && s[4] == Text(":")[0] && s[5..] == UuidText(h.unit)
  {
    HexDigits(h.swarm / 4096, 0);
    HexDigits(h.swarm / 256 % 16, 0);
    HexDigits(h.swarm / 16 % 16, 0);
    HexDigits(h.swarm % 16, 0);
    hide HexChar, UuidText;
  }

  predicate HidLess(a: HierarchicalId, b: HierarchicalId) {
    if a.swarm != b.swarm then a.swarm < b.swarm else Less(a.unit, b.unit)
  }

  function ParseSwarm(s: seq<byte>): Option<u16>
    requires |s| == SWARM_HEX_LEN
  {
    var a, b, c, d := HexValue(s[0]), HexValue(s[1]), HexValue(s[2]), HexValue(s[3]);
    if a.None? || b.None? || c.None? || d.None? then None
    else Some(4096 * a.value + 256 * b.value + 16 * c.value + d.value)
  }

  function ParseHid(s: seq<byte>): Option<HierarchicalId> {
    if |s| != SWARM_HEX_LEN + 1 + TEXT_LEN || s[SWARM_HEX_LEN] != COLON then None
    else
      match (ParseSwarm(s[..SWARM_HEX_LEN]), ParseUuid(s[SWARM_HEX_LEN + 1..]))
      case (Some(swarm), Some(unit)) => Some(HierarchicalId(swarm, unit))
      case _ => None
  }

  method HidToString(h: HierarchicalId) returns (s: seq<byte>)
    ensures s == HidText(h)
  {
    TopDigit(h.swarm);
    hide HexChar;
    s := [];
    s := s + [HexChar(h.swarm / 4096 % 16)];
    s := s + [HexChar(h.swarm / 256 % 16)];
    s := s + [HexChar(h.swarm / 16 % 16)];
    s := s + [HexChar(h.swarm % 16)];
    s := s + [COLON];
    assert s == SwarmText(h.swarm) + [COLON];
    var unit := ToString(h.unit);
    s := s + unit;
  }

  lemma TopDigit(swarm: u16)
    ensures swarm / 4096 % 16 == swarm / 4096
  {
  }

  /** The value of the first k digits, if they all are digits. */
  function Leading(s: seq<byte>, k: nat): Option<nat>
    requires k <= |s|
  {
    if k == 0 then Some(0)
    else
      match (Leading(s, k - 1), HexValue(s[k - 1]))
      case (Some(n), Some(d)) => Some(16 * n + d)
      case _ => None
  }

  lemma LeadingIsSwarm(s: seq<byte>)
    requires |s| == SWARM_HEX_LEN
    ensures Leading(s, SWARM_HEX_LEN) == ParseSwarm(s)
  {
    assert Leading(s, 1) == HexValue(s[0]);
    assert Leading(s, 2) == if HexValue(s[0]).Some? && HexValue(s[1]).Some?
                            then Some(16 * HexValue(s[0]).value + HexValue(s[1]).value) else None;
    hide HexValue;
  }

  lemma {:induction false} LeadingSmall(s: seq<byte>, k: nat)
    requires k <= |s| && k <= 4
    ensures Leading(s, k).Some? ==>
              Leading(s, k).value < (if k == 0 then 1 else if k == 1 then 16 else if k == 2 then 256
                                     else if k == 3 then 4096 else 65536)
  {
    if k > 0 {
      LeadingSmall(s, k - 1);
      HexMeaning(s[k - 1], 0);
    }
  }

  lemma {:induction false} LeadingPrefix(s: seq<byte>, k: nat, n: nat)
    requires k <= n <= |s|
    ensures Leading(s, k).None? ==> Leading(s, n).None?
  {
    if k < n {
      LeadingPrefix(s, k, n - 1);
    }
  }

  method HidFromString(s: seq<byte>) returns (h: Option<HierarchicalId>)
    ensures h == ParseHid(s)
  {
    hide WellFormed;
    if |s| != SWARM_HEX_LEN + 1 + TEXT_LEN {
      return None;
    }
    if s[SWARM_HEX_LEN] != COLON {
      return None;
    }
    ghost var digits := s[..SWARM_HEX_LEN];
    LeadingIsSwarm(digits);
    var swarm := 0;
    for i := 0 to SWARM_HEX_LEN
      invariant Leading(digits, i) == Some(swarm)
    {
      var v := HexValue(s[i]);
      if v.None? {
        LeadingPrefix(digits, i + 1, SWARM_HEX_LEN);
        return None;
      }
      LeadingSmall(digits, i + 1);
      swarm := (swarm * 16 + v.value) % 0x1_0000;
    }
    LeadingSmall(digits, SWARM_HEX_LEN);
    var unit := FromString(s[SWARM_HEX_LEN + 1..]);
    if unit.None? {
      return None;
    }
    h := Some(HierarchicalId(swarm, unit.value));
  }

  /** Two numbers of four digits are ordered as their digits are. */
  lemma FourDigits(a: nat, b: nat, c: nat, d: nat, a': nat, b': nat, c': nat, d': nat)
    requires a < 16 && b < 16 && c < 16 && d < 16 && a' < 16 && b' < 16 && c' < 16 && d' < 16
    ensures var m, n := 4096 * a + 256 * b + 16 * c + d, 4096 * a' + 256 * b' + 16 * c' + d';
            && (m < n <==> a < a' || (a == a' && (b < b' || (b == b' && (c < c' || (c == c' && d < d'))))))
            && (m == n <==> a == a' && b == b' && c == c' && d == d')
  {
  }

  lemma SwarmParsesIff(s: seq<byte>, swarm: u16)
    requires |s| == SWARM_HEX_LEN
    ensures ParseSwarm(s) == Some(swarm) <==> Lower(s) == SwarmText(swarm)
  {
    var t, l := SwarmText(swarm), Lower(s);
    HexMeaning(s[0], SwarmDigit(swarm, 3));
    HexMeaning(s[1], SwarmDigit(swarm, 2));
    HexMeaning(s[2], SwarmDigit(swarm, 1));
    HexMeaning(s[3], SwarmDigit(swarm, 0));
    SwarmDigitsCompose(swarm);
    assert l == t <==> l[0] == t[0] && l[1] == t[1] && l[2] == t[2] && l[3] == t[3];
    hide HexValue, HexChar, LowerChar, SwarmDigit;
    if ParseSwarm(s).Some? {
      FourDigits(HexValue(s[0]).value, HexValue(s[1]).value, HexValue(s[2]).value, HexValue(s[3]).value,
                 SwarmDigit(swarm, 3), SwarmDigit(swarm, 2), SwarmDigit(swarm, 1), SwarmDigit(swarm, 0));
    }
  }

  /** A string parses as h exactly if its lower case is what h prints as; anything else is refused. */
  lemma HidParsesIff(s: seq<byte>, h: HierarchicalId)
    ensures ParseHid(s) == Some(h) <==> Lower(s) == HidText(h)
  {
    if |s| == SWARM_HEX_LEN + 1 + TEXT_LEN {
      var front, back := s[..SWARM_HEX_LEN], s[SWARM_HEX_LEN + 1..];
      SwarmParsesIff(front, h.swarm);
      UuidParsesIff(back, h.unit);
      LowerParts(s);
      HidTextParts(h);
      assert LowerChar(s[SWARM_HEX_LEN]) == COLON <==> s[SWARM_HEX_LEN] == COLON;
      hide Lower, HidText, ParseSwarm, ParseUuid, LowerChar, SwarmText, UuidText;
      var l, t := Lower(s), HidText(h);
      assert l == l[..SWARM_HEX_LEN] + [l[SWARM_HEX_LEN]] + l[SWARM_HEX_LEN + 1..];
      assert t == t[..SWARM_HEX_LEN] + [t[SWARM_HEX_LEN]] + t[SWARM_HEX_LEN + 1..];
    }
  }

  lemma LowerParts(s: seq<byte>)
    requires |s| > SWARM_HEX_LEN
    ensures var l := Lower(s);
            && l[..SWARM_HEX_LEN] == Lower(s[..SWARM_HEX_LEN])
            && l[SWARM_HEX_LEN] == LowerChar(s[SWARM_HEX_LEN])
            && l[SWARM_HEX_LEN + 1..] == Lower(s[SWARM_HEX_LEN + 1..])
  {
    hide LowerChar;
  }

  lemma HidTextParts(h: HierarchicalId)
    ensures var t := HidText(h);
            && t[..SWARM_HEX_LEN] == SwarmText(h.swarm) && t[SWARM_HEX_LEN] == COLON
            && t[SWARM_HEX_LEN + 1..] == UuidText(h.unit)
  {
    hide SwarmText, UuidText;
  }

  lemma HidRoundTrip(h: HierarchicalId)
    ensures ParseHid(HidText(h)) == Some(h)
  {
    hide HexValue, HexChar, ParseHid;
    var t := HidText(h);
    forall k | 0 <= k < |t|
      ensures LowerChar(t[k]) == t[k]
    {
      PrintedLower(h, k);
    }
    assert Lower(t) == t;
    HidParsesIff(t, h);
  }

  lemma PrintedLower(h: HierarchicalId, k: nat)
    requires k < SWARM_HEX_LEN + 1 + TEXT_LEN
    ensures LowerChar(HidText(h)[k]) == HidText(h)[k]
  {
  }

  lemma SwarmOrder(a: u16, b: u16)
    ensures Less(SwarmText(a), SwarmText(b)) <==> a < b
    ensures SwarmText(a) == SwarmText(b) <==> a == b
  {
    forall i | 0 <= i < SWARM_HEX_LEN
      ensures HexChar(SwarmDigit(a, i)) < HexChar(SwarmDigit(b, i)) <==> SwarmDigit(a, i) < SwarmDigit(b, i)
      ensures HexChar(SwarmDigit(b, i)) < HexChar(SwarmDigit(a, i)) <==> SwarmDigit(b, i) < SwarmDigit(a, i)
    {
      HexMonotone(SwarmDigit(a, i), SwarmDigit(b, i));
      HexMonotone(SwarmDigit(b, i), SwarmDigit(a, i));
    }
    SwarmDigitsCompose(a);
    SwarmDigitsCompose(b);
    FourDigits(SwarmDigit(a, 3), SwarmDigit(a, 2), SwarmDigit(a, 1), SwarmDigit(a, 0),
               SwarmDigit(b, 3), SwarmDigit(b, 2), SwarmDigit(b, 1), SwarmDigit(b, 0));
    FourLess(SwarmText(a), SwarmText(b));
    hide HexChar, SwarmDigit, Less;
  }

  lemma LessUnfolds(x: seq<int>, y: seq<int>, k: nat)
    requires k < |x| == |y|
    ensures Less(x[k..], y[k..]) <==> x[k] < y[k] || (x[k] == y[k] && Less(x[k + 1..], y[k + 1..]))
  {
    assert x[k..][1..] == x[k + 1..] && y[k..][1..] == y[k + 1..];
  }

  lemma FourLess(x: seq<int>, y: seq<int>)
    requires |x| == 4 == |y|
    ensures Less(x, y) <==>
              x[0] < y[0] ||
              (x[0] == y[0]
               && (x[1] < y[1] || (x[1] == y[1] && (x[2] < y[2] || (x[2] == y[2] && x[3] < y[3])))))
  {
    assert x[0..] == x && y[0..] == y;
    LessUnfolds(x, y, 0);
    LessUnfolds(x, y, 1);
    LessUnfolds(x, y, 2);
    LessUnfolds(x, y, 3);
    assert !Less(x[4..], y[4..]);
    hide Less;
  }

  /** Hierarchical ids are ordered as their texts are. */
  lemma HidOrderIsTextOrder(a: HierarchicalId, b: HierarchicalId)
    ensures HidLess(a, b) <==> Less(HidText(a), HidText(b))
  {
    SwarmOrder(a.swarm, b.swarm);
    UuidOrderIsTextOrder(a.unit, b.unit);
    LessConcat(SwarmText(a.swarm), [COLON], SwarmText(b.swarm), [COLON]);
    LessConcat(SwarmText(a.swarm) + [COLON], UuidText(a.unit), SwarmText(b.swarm) + [COLON], UuidText(b.unit));
    LessIrreflexive([COLON]);
    var x, y := SwarmText(a.swarm) + [COLON], SwarmText(b.swarm) + [COLON];
    assert x[..4] == SwarmText(a.swarm) && y[..4] == SwarmText(b.swarm);
    hide Less, SwarmText, UuidText;
  }

  /** The order on ids is a strict total order. */
  lemma HidStrictTotalOrder(a: HierarchicalId, b: HierarchicalId, c: HierarchicalId)
    ensures !HidLess(a, a)
    ensures HidLess(a, b) && HidLess(b, c) ==> HidLess(a, c)
    ensures HidLess(a, b) || a == b || HidLess(b, a)
  {
    LessIrreflexive(a.unit);
    if Less(a.unit, b.unit) && Less(b.unit, c.unit) {
      LessTransitive(a.unit, b.unit, c.unit);
    }
    LessTotal(a.unit, b.unit);
    hide Less;
  }
}
