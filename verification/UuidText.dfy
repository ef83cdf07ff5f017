/** The text form of UUIDs (pkg/util/uuid.go; RFC 4122, section 3): the printer, and the parser that also
    takes braces and the urn prefix.  A text is a sequence of characters, one for each byte. */
module UuidText {
  import opened UuidGenerator

  // ----- Hexadecimal -----

  predicate IsHex(c: char) {
    '0' <= c <= '9' || 'a' <= c <= 'f' || 'A' <= c <= 'F'
  }

  function HexChar(n: nat): (c: char)
    requires n < 16
    ensures IsHex(c) && HexValue(c) == n
  {
    "0123456789abcdef"[n]
  }

  function HexValue(c: char): (n: nat)
    requires IsHex(c)
    ensures n < 16
  {
    if c <= '9' then (c - '0') as nat
    else if c <= 'F' then (c - 'A') as nat + 10
    else (c - 'a') as nat + 10
  }

  function LowerHex(c: char): char {
    if 'A' <= c <= 'F' then 'a' + (c - 'A') else c
  }

  function ByteOf(high: char, low: char): byte {
    if IsHex(high) && IsHex(low) then 16 * HexValue(high) + HexValue(low) else 0
  }

  function Hex(b: seq<byte>): (s: string)
    ensures |s| == 2 * |b|
  {
    if b == [] then "" else [HexChar(b[0] / 16), HexChar(b[0] % 16)] + Hex(b[1..])
  }

  /** What encoding/hex decodes: the bytes before the first bad pair, and whether there was none. */
  datatype Decoded = Decoded(bytes: seq<byte>, ok: bool)

  function HexDecode(src: string): (d: Decoded)
    requires |src| % 2 == 0
    ensures 2 * |d.bytes| <= |src| && (d.ok ==> 2 * |d.bytes| == |src|)
  {
    if src == "" then Decoded([], true)
    else if !IsHex(src[0]) || !IsHex(src[1]) then Decoded([], false)
    else
      var rest := HexDecode(src[2..]);
      Decoded([ByteOf(src[0], src[1])] + rest.bytes, rest.ok)
  }

  lemma {:induction false} HexAt(b: seq<byte>, k: nat)
    requires k < |b|
    ensures Hex(b)[2 * k] == HexChar(b[k] / 16) && Hex(b)[2 * k + 1] == HexChar(b[k] % 16)
  {
    if k > 0 {
      HexAt(b[1..], k - 1);
    }
  }

  lemma {:induction false} DecodeAccepts(src: string)
    requires |src| % 2 == 0
    ensures HexDecode(src).ok <==> forall k :: 0 <= k < |src| ==> IsHex(src[k])
  {
    if src != "" {
      DecodeAccepts(src[2..]);
      assert forall k :: 2 <= k < |src| ==> src[k] == src[2..][k - 2];
    }
  }

  lemma {:induction false} DecodeAt(src: string, k: nat)
    requires |src| % 2 == 0 && k < |HexDecode(src).bytes|
    ensures IsHex(src[2 * k]) && IsHex(src[2 * k + 1])
    ensures HexDecode(src).bytes[k] == ByteOf(src[2 * k], src[2 * k + 1])
  {
    if k > 0 {
      DecodeAt(src[2..], k - 1);
    }
  }

  /** Decoding stops at the first pair that is not hexadecimal. */
  lemma {:induction false} DecodeStops(src: string)
    requires |src| % 2 == 0 && !HexDecode(src).ok
    ensures var n := 2 * |HexDecode(src).bytes|;
            n + 1 < |src| && !(IsHex(src[n]) && IsHex(src[n + 1]))
  {
    hide ByteOf, IsHex;
    if IsHex(src[0]) && IsHex(src[1]) {
      DecodeStops(src[2..]);
    }
  }

  // ----- The layout -----

  /** Sixteen bytes as 8-4-4-4-12 lower-case hexadecimal digits. */
  function Text(u: seq<byte>): (s: string)
    requires |u| == 16
    ensures |s| == 36
  {
    Hex(u[..4]) + "-" + Hex(u[4..6]) + "-" + Hex(u[6..8]) + "-" + Hex(u[8..10]) + "-" + Hex(u[10..])
  }

  predicate IsDash(k: int) {
    k == 8 || k == 13 || k == 18 || k == 23
  }

  /** The character at position k is what the layout has there. */
  predicate Fits(s: string, k: nat)
    requires k < |s|
  {
    if IsDash(k) then s[k] == '-' else IsHex(s[k])
  }

  predicate IsLayout(s: string) {
    |s| == 36 && forall k :: 0 <= k < 36 ==> Fits(s, k)
  }

  /** Where byte k is printed. */
  function Position(k: nat): nat {
    2 * k + (if k < 4 then 0 else if k < 6 then 1 else if k < 8 then 2 else if k < 10 then 3 else 4)
  }

  /** The bytes from number `first` on that a text of this layout stands for. */
  function BytesFrom(s: string, first: nat): (u: seq<byte>)
    requires |s| >= 36 && first <= 16
    ensures |u| == 16 - first
    ensures forall k :: 0 <= k < |u| ==> u[k] == ByteOf(s[Position(first + k)], s[Position(first + k) + 1])
  {
    seq<byte>(16 - first, k requires 0 <= k < 16 - first => ByteOf(s[Position(first + k)], s[Position(first + k) + 1]))
  }

  // ----- The parser -----

  /** How UnmarshalText ends: nil, one of its errors, or an index out of range, which panics. */
  datatype Outcome = Parsed | TooShort | TooLong | BadFormat | BadHex | OutOfRange

  /** The outcome, and the bytes that have been overwritten by then. */
  datatype Unmarshaled = Unmarshaled(outcome: Outcome, bytes: seq<byte>)

  /** The number of digits in group i. */
  function ByteGroup(i: nat): (n: nat)
    requires i < 5
    ensures n % 2 == 0
  {
    if i == 0 then 8 else if i < 4 then 4 else 12
  }

  const URN_PREFIX: string := "urn:uuid:"

  /** The first byte of group i. */
  function FirstByte(i: nat): (n: nat)
    ensures n <= 16
  {
    if i == 0 then 0 else if i < 5 then 2 * i + 2 else 16
  }

  /** One group: the loop returns, or goes on with what is left of the text. */
  datatype GroupResult = Stop(outcome: Outcome, bytes: seq<byte>) | Continue(bytes: seq<byte>, left: string)

  /** Group i at the front of what is left of the text. */
  function ParseGroup(t: string, i: nat, braced: bool): (g: GroupResult)
    requires i < 5
    ensures 2 * |g.bytes| <= ByteGroup(i) && (g.Continue? ==> 2 * |g.bytes| == ByteGroup(i))
    ensures g.Stop? ==> !g.outcome.Parsed?
  {
    if i > 0 && t == "" then Stop(OutOfRange, [])
    else if i > 0 && t[0] != '-' then Stop(BadFormat, [])
    else ParseDigits(if i > 0 then t[1..] else t, ByteGroup(i), i == 4, braced)
  }

  /** The digits of a group, and in the last one what may follow them. */
  function ParseDigits(t: string, n: nat, last: bool, braced: bool): (g: GroupResult)
    requires n % 2 == 0
    ensures 2 * |g.bytes| <= n && (g.Continue? ==> 2 * |g.bytes| == n)
    ensures g.Stop? ==> !g.outcome.Parsed? && !g.outcome.OutOfRange?
  {
    if |t| < n then Stop(TooShort, [])
    else if last && |t| > n && ((braced && t[n] != '}') || |t| - n > 1 || !braced) then Stop(TooLong, [])
    else
      var group := HexDecode(t[..n]);
      if group.ok then Continue(group.bytes, t[n..]) else Stop(BadHex, group.bytes)
  }

  function Prepend(bytes: seq<byte>, r: Unmarshaled): Unmarshaled {
    Unmarshaled(r.outcome, bytes + r.bytes)
  }

  /** Groups i to 4. */
  function ParseFrom(t: string, i: nat, braced: bool): (r: Unmarshaled)
    requires i <= 5
    ensures |r.bytes| <= 16 - FirstByte(i)
    ensures r.outcome.Parsed? ==> |r.bytes| == 16 - FirstByte(i)
    decreases 5 - i
  {
    if i == 5 then Unmarshaled(Parsed, [])
    else
      match ParseGroup(t, i, braced)
      case Stop(outcome, bytes) => Unmarshaled(outcome, bytes)
      case Continue(bytes, left) =>
        Prepend(bytes, ParseFrom(left, i + 1, braced))
  }

  function Unmarshal(text: string): (r: Unmarshaled)
    ensures |r.bytes| <= 16
    ensures r.outcome.Parsed? ==> |r.bytes| == 16
  {
    if |text| < 32 then Unmarshaled(TooShort, [])
    else if URN_PREFIX <= text then ParseFrom(text[9..], 0, false)
    else if text[0] == '{' then ParseFrom(text[1..], 0, true)
    else ParseFrom(text, 0, false)
  }

  // ----- What the parser accepts -----

  /** Where group i starts, its dash included. */
  function Start(i: nat): (n: nat)
    ensures n <= 36
  {
    if i == 0 then 0 else if i < 5 then 5 * i + 3 else 36
  }

  function Dash(i: nat): nat {
    if i > 0 then 1 else 0
  }

  /** The end of the text: nothing after the layout, but braced texts may have their closing brace. */
  predicate EndsWell(s: string, braced: bool) {
    |s| == 36 || (braced && |s| == 37 && s[36] == '}')
  }

  /** A run of digits. */
  lemma RunFits(s: string, from: nat, to: nat)
    requires from <= to <= |s| && (to - from) % 2 == 0
    requires forall k :: from <= k < to ==> !IsDash(k)
    ensures HexDecode(s[from..to]).ok <==> forall k :: from <= k < to ==> Fits(s, k)
  {
    var digits := s[from..to];
    DecodeAccepts(digits);
    hide HexDecode, IsDash;
    if HexDecode(digits).ok {
      forall k | from <= k < to
        ensures Fits(s, k)
      {
        assert digits[k - from] == s[k];
      }
    } else {
      var k :| 0 <= k < |digits| && !IsHex(digits[k]);
      assert !Fits(s, from + k);
    }
  }

  lemma RunBytes(s: string, from: nat, first: nat, next: nat)
    requires first <= next <= 16 && |s| >= 36 && from + 2 * (next - first) <= |s|
    requires HexDecode(s[from..from + 2 * (next - first)]).ok
    requires forall k :: first <= k < next ==> Position(k) == from + 2 * (k - first)
    ensures HexDecode(s[from..from + 2 * (next - first)]).bytes + BytesFrom(s, next) == BytesFrom(s, first)
  {
    var digits := s[from..from + 2 * (next - first)];
    var bytes := HexDecode(digits).bytes;
    BytesTail(s, first, next);
    hide HexDecode, ByteOf, Position, BytesFrom;
    forall k | 0 <= k < |bytes|
      ensures bytes[k] == BytesFrom(s, first)[k]
    {
      DecodeAt(digits, k);
      assert Position(first + k) == from + 2 * k;
    }
    assert bytes == BytesFrom(s, first)[..next - first];
  }

  lemma BytesTail(s: string, first: nat, next: nat)
    requires |s| >= 36 && first <= next <= 16
    ensures BytesFrom(s, first) == BytesFrom(s, first)[..next - first] + BytesFrom(s, next)
  {
    hide ByteOf, Position;
  }

  /** How the group table, the dashes and the bytes line up. */
  lemma GroupTable(i: nat)
    requires i < 5
    ensures ByteGroup(i) > 0 && Start(i + 1) == Start(i) + Dash(i) + ByteGroup(i)
    ensures i > 0 ==> IsDash(Start(i))
    ensures forall k :: Start(i) + Dash(i) <= k < Start(i + 1) ==> !IsDash(k)
    ensures FirstByte(i + 1) == FirstByte(i) + ByteGroup(i) / 2
    ensures forall k :: FirstByte(i) <= k < FirstByte(i + 1) ==>
              Position(k) == Start(i) + Dash(i) + 2 * (k - FirstByte(i))
  {
  }

  lemma GroupSizes(i: nat)
    requires i < 5
    ensures Start(i + 1) == Start(i) + Dash(i) + ByteGroup(i) > Start(i)
    ensures i == 4 ==> Start(i + 1) == 36
  {
  }

  lemma DigitsAccept(s: string, from: nat, n: nat, last: bool, braced: bool)
    requires from <= |s| && n % 2 == 0
    ensures var g := ParseDigits(s[from..], n, last, braced);
            && (g.Continue? <==> && from + n <= |s| && HexDecode(s[from..from + n]).ok
                                 && (last ==> |s| == from + n || (braced && |s| == from + n + 1 && s[from + n] == '}')))
            && (g.Continue? ==> g.left == s[from + n..] && g.bytes == HexDecode(s[from..from + n]).bytes)
  {
    if from + n <= |s| {
      assert s[from..][..n] == s[from..from + n];
    }
    hide HexDecode;
  }

  /** One group of the loop goes on exactly when its part of the layout is there and nothing wrong follows. */
  lemma GroupAccepts(s: string, i: nat, braced: bool)
    requires i < 5 && Start(i) <= |s|
    ensures var g := ParseGroup(s[Start(i)..], i, braced);
            && (g.Continue? <==> GroupThere(s, i) && (i == 4 ==> EndsWell(s, braced)))
            && (g.Continue? ==> && g.left == s[Start(i + 1)..]
                                && g.bytes == HexDecode(s[Start(i) + Dash(i)..Start(i + 1)]).bytes)
            && (g == Stop(OutOfRange, []) <==> i > 0 && |s| == Start(i))
            && (g.Stop? && g.outcome.OutOfRange? ==> g == Stop(OutOfRange, []))
  {
    GroupSizes(i);
    var from := Start(i) + Dash(i);
    GroupThereIff(s, i);
    if from <= |s| {
      DigitsAccept(s, from, ByteGroup(i), i == 4, braced);
      AfterDash(s, Start(i), i > 0);
    }
    hide HexDecode, GroupThere, Start, ByteGroup, ParseDigits;
  }

  lemma AfterDash(s: string, a: nat, dash: bool)
    requires if dash then a < |s| else a <= |s|
    ensures (if dash then s[a..][1..] else s[a..]) == s[if dash then a + 1 else a..]
    ensures dash ==> s[a..][0] == s[a]
  {
  }

  lemma GroupThereIff(s: string, i: nat)
    requires i < 5 && Start(i + 1) == Start(i) + Dash(i) + ByteGroup(i)
    ensures GroupThere(s, i)
       <==> && Start(i + 1) <= |s| && (i > 0 ==> s[Start(i)] == '-')
            && HexDecode(s[Start(i) + Dash(i)..Start(i + 1)]).ok
  {
    GroupTable(i);
    if Start(i + 1) <= |s| {
      RunFits(s, Start(i) + Dash(i), Start(i + 1));
      hide HexDecode, Start, ByteGroup;
      assert i > 0 ==> (Fits(s, Start(i)) <==> s[Start(i)] == '-');
    }
  }

  /** Group i has its dash, unless it is the first, and its digits. */
  predicate GroupThere(s: string, i: nat)
    requires i < 5
  {
    Start(i + 1) <= |s| && forall k :: Start(i) <= k < Start(i + 1) ==> Fits(s, k)
  }

  lemma GroupBytes(s: string, i: nat, braced: bool)
    requires i < 5 && |s| >= 36 && ParseGroup(s[Start(i)..], i, braced).Continue?
    ensures ParseGroup(s[Start(i)..], i, braced).bytes + BytesFrom(s, FirstByte(i + 1)) == BytesFrom(s, FirstByte(i))
  {
    GroupAccepts(s, i, braced);
    GroupThereIff(s, i);
    GroupTable(i);
    var from := Start(i) + Dash(i);
    assert from + 2 * (FirstByte(i + 1) - FirstByte(i)) == Start(i + 1);
    hide ParseGroup, HexDecode, Start, FirstByte, Position, ByteGroup, BytesFrom;
    RunBytes(s, from, FirstByte(i), FirstByte(i + 1));
  }

  lemma ParseStep(t: string, i: nat, braced: bool)
    requires i < 5
    ensures match ParseGroup(t, i, braced)
            case Stop(outcome, bytes) => ParseFrom(t, i, braced) == Prepend(bytes, Unmarshaled(outcome, []))
            case Continue(bytes, left) => ParseFrom(t, i, braced) == Prepend(bytes, ParseFrom(left, i + 1, braced))
  {
  }

  lemma ParseEnd(t: string, braced: bool)
    ensures ParseFrom(t, 5, braced) == Unmarshaled(Parsed, [])
  {
  }

  /** The loop from group i on: it succeeds exactly on the rest of the layout, with its bytes. */
  lemma {:induction false} ParseAccepts(s: string, i: nat, braced: bool)
    requires i < 5 && Start(i) <= |s|
    ensures var r := ParseFrom(s[Start(i)..], i, braced);
            && (r.outcome.Parsed? <==> EndsWell(s, braced) && forall k :: Start(i) <= k < 36 ==> Fits(s, k))
            && (r.outcome.Parsed? ==> r.bytes == BytesFrom(s, FirstByte(i)))
    decreases 5 - i
  {
    var t := s[Start(i)..];
    GroupAccepts(s, i, braced);
    GroupTable(i);
    ParseStep(t, i, braced);
    if ParseGroup(t, i, braced).Continue? {
      if i < 4 {
        ParseAccepts(s, i + 1, braced);
      } else {
        ParseEnd(s[Start(5)..], braced);
      }
      if EndsWell(s, braced) {
        GroupBytes(s, i, braced);
      }
    }
    hide ParseFrom, ParseGroup, Fits, BytesFrom, ByteGroup, FirstByte, Start;
    assert Start(4) == 23;
  }

  /** The part of a text after its prefix or opening brace. */
  function Body(text: string): string
    requires |text| >= 32
  {
    if URN_PREFIX <= text then text[9..] else if text[0] == '{' then text[1..] else text
  }

  predicate IsBraced(text: string)
    requires |text| >= 32
  {
    !(URN_PREFIX <= text) && text[0] == '{'
  }

  /** The texts of the documented forms, and the braced form without its closing brace. */
  predicate Accepted(text: string) {
    || (|text| == 36 && IsLayout(text))
    || (|text| == 45 && URN_PREFIX <= text && IsLayout(text[9..]))
    || (|text| == 37 && text[0] == '{' && IsLayout(text[1..]))
    || (|text| == 38 && text[0] == '{' && text[37] == '}' && IsLayout(text[1..37]))
  }

  /** Parsing succeeds on exactly those texts, digits in either case, and yields the bytes they show. */
  lemma AcceptsExactly(text: string)
    ensures Unmarshal(text).outcome.Parsed? <==> Accepted(text)
    ensures Accepted(text) ==> |Body(text)| >= 36 && Unmarshal(text).bytes == BytesFrom(Body(text), 0)
  {
    if |text| >= 32 {
      var s, braced := Body(text), IsBraced(text);
      ParseAccepts(s, 0, braced);
      hide ParseFrom;
      assert s[0..] == s;
      FirstCharacters(text);
      if |s| >= 36 {
        FitsPrefix(s);
      }
      assert IsBraced(text) && |text| == 38 ==> s[..36] == text[1..37] && s[36] == text[37];
    }
  }

  lemma FitsPrefix(s: string)
    requires |s| >= 36
    ensures IsLayout(s[..36]) <==> forall k :: 0 <= k < 36 ==> Fits(s, k)
  {
    var front := s[..36];
    forall k | 0 <= k < 36
      ensures Fits(front, k) <==> Fits(s, k)
    {
      assert front[k] == s[k];
    }
    assert |s| == 36 ==> s[..36] == s;
  }

  /** Neither prefix can start the layout: u and { are not hexadecimal digits. */
  lemma FirstCharacters(text: string)
    requires |text| >= 32
    ensures URN_PREFIX <= text ==> text[0] == 'u'
    ensures text[0] == 'u' || text[0] == '{' ==> !IsLayout(text)
  {
    assert URN_PREFIX <= text ==> text[0] == URN_PREFIX[0];
    assert IsLayout(text) ==> Fits(text, 0);
  }

  /** The loop from group i on runs off the end exactly when the text stops where a dash is due. */
  lemma {:induction false} ParsePanics(s: string, i: nat, braced: bool)
    requires i < 5 && Start(i) <= |s|
    ensures ParseFrom(s[Start(i)..], i, braced).outcome.OutOfRange?
       <==> IsDash(|s|) && forall k :: Start(i) <= k < |s| ==> Fits(s, k)
    decreases 5 - i
  {
    var t := s[Start(i)..];
    GroupAccepts(s, i, braced);
    GroupTable(i);
    DashIsStart(i, |s|);
    ParseStep(t, i, braced);
    if ParseGroup(t, i, braced).Continue? {
      if i < 4 {
        ParsePanics(s, i + 1, braced);
      } else {
        ParseEnd(s[Start(5)..], braced);
      }
    }
    hide ParseFrom, ParseGroup, Fits, IsDash, Start;
  }

  /** A dash is due where a later group starts. */
  lemma DashIsStart(i: nat, n: nat)
    requires i < 5 && Start(i) <= n
    ensures i > 0 && n == Start(i) ==> IsDash(n)
    ensures IsDash(n) && !(i > 0 && n == Start(i)) ==> i < 4 && Start(i + 1) <= n
  {
  }

  /** The length check is one family short: after the urn prefix, 23 well-formed characters pass it and
      then run off the end.  No other text panics. */
  lemma PanicsExactly(text: string)
    ensures Unmarshal(text).outcome.OutOfRange?
       <==> |text| == 32 && URN_PREFIX <= text && forall k :: 0 <= k < 23 ==> Fits(text[9..], k)
  {
    if |text| >= 32 {
      var s, braced := Body(text), IsBraced(text);
      ParsePanics(s, 0, braced);
      hide ParseFrom;
      assert s[0..] == s;
    }
  }

  // ----- How parsing fails -----

  /** Why the group with number i fails, the groups before it being there. */
  function Failure(s: string, i: nat, braced: bool): Outcome
    requires i < 5 && Start(i) <= |s|
  {
    if i > 0 && |s| == Start(i) then OutOfRange
    else if i > 0 && s[Start(i)] != '-' then BadFormat
    else if |s| < Start(i + 1) then TooShort
    else if i == 4 && !EndsWell(s, braced) then TooLong
    else BadHex
  }

  lemma GroupFails(s: string, i: nat, braced: bool)
    requires i < 5 && Start(i) <= |s|
    ensures var g := ParseGroup(s[Start(i)..], i, braced);
            && (g.Stop? ==> g.outcome == Failure(s, i, braced))
            && (g.Stop? && !g.outcome.BadHex? ==> g.bytes == [])
  {
    GroupSizes(i);
    var from := Start(i) + Dash(i);
    if from <= |s| {
      DigitsFail(s, from, ByteGroup(i), i == 4, braced);
      AfterDash(s, Start(i), i > 0);
    }
    hide HexDecode, ParseDigits, ByteGroup;
  }

  lemma DigitsFail(s: string, from: nat, n: nat, last: bool, braced: bool)
    requires from <= |s| && n % 2 == 0
    ensures var g := ParseDigits(s[from..], n, last, braced);
            && (g.Stop? && |s| < from + n ==> g == Stop(TooShort, []))
            && (g.Stop? && |s| >= from + n ==>
                  if last && !(|s| == from + n || (braced && |s| == from + n + 1 && s[from + n] == '}')) then
                    g == Stop(TooLong, [])
                  else g.outcome == BadHex)
  {
    hide HexDecode;
  }

  /** The first group that is not there decides how parsing fails. */
  lemma {:induction false} FirstFailure(s: string, j: nat, i: nat, braced: bool)
    requires j <= i < 5 && Start(i) <= |s|
    requires forall h :: j <= h < i ==> GroupThere(s, h)
    requires GroupThere(s, i) ==> i == 4 && !EndsWell(s, braced)
    ensures Start(j) <= |s| && ParseFrom(s[Start(j)..], j, braced).outcome == Failure(s, i, braced)
    decreases i - j
  {
    hide ParseGroup, ParseFrom, GroupThere, HexDecode, Failure, Start, EndsWell;
    StartsGrow(j, i);
    GroupAccepts(s, j, braced);
    ParseStep(s[Start(j)..], j, braced);
    if j < i {
      FirstFailure(s, j + 1, i, braced);
    } else {
      GroupFails(s, i, braced);
    }
  }

  /** Byte k of the layout is legible in the text. */
  predicate GoodPair(s: string, k: nat) {
    Position(k) + 1 < |s| && IsHex(s[Position(k)]) && IsHex(s[Position(k) + 1])
  }

  predicate ShowsByte(s: string, k: nat, b: byte) {
    GoodPair(s, k) && b == ByteOf(s[Position(k)], s[Position(k) + 1])
  }

  /** The bytes are those that a text shows from number `first` on, as far as they go. */
  ghost predicate Shows(bytes: seq<byte>, s: string, first: nat) {
    forall k :: 0 <= k < |bytes| ==> ShowsByte(s, first + k, bytes[k])
  }

  /** A run of digits decodes to what the text shows there. */
  lemma RunShows(s: string, from: nat, n: nat, first: nat)
    requires n % 2 == 0 && from + n <= |s|
    requires forall k :: first <= k < first + n / 2 ==> Position(k) == from + 2 * (k - first)
    ensures var d := HexDecode(s[from..from + n]);
            && Shows(d.bytes, s, first)
            && (!d.ok ==> 2 * |d.bytes| < n && !GoodPair(s, first + |d.bytes|))
  {
    hide HexDecode, ByteOf, IsHex, Position;
    var digits := s[from..from + n];
    var d := HexDecode(digits);
    forall k | 0 <= k < |d.bytes|
      ensures ShowsByte(s, first + k, d.bytes[k])
    {
      DecodeAt(digits, k);
      assert Position(first + k) == from + 2 * k;
      assert digits[2 * k] == s[from + 2 * k] && digits[2 * k + 1] == s[from + 2 * k + 1];
    }
    if !d.ok {
      DecodeStops(digits);
      var k := |d.bytes|;
      assert Position(first + k) == from + 2 * k;
      assert digits[2 * k] == s[from + 2 * k] && digits[2 * k + 1] == s[from + 2 * k + 1];
    }
  }

  lemma DigitsWrite(s: string, from: nat, n: nat, last: bool, braced: bool)
    requires from <= |s| && n % 2 == 0
    ensures var g := ParseDigits(s[from..], n, last, braced);
            && (g.bytes == [] || (from + n <= |s| && g.bytes == HexDecode(s[from..from + n]).bytes))
            && (g.Stop? && g.outcome.BadHex? ==> from + n <= |s| && !HexDecode(s[from..from + n]).ok
                                                 && g.bytes == HexDecode(s[from..from + n]).bytes)
  {
    hide HexDecode;
    if from + n <= |s| {
      assert s[from..][..n] == s[from..from + n];
    }
  }

  /** What a group writes: all its bytes, or those before the first bad pair. */
  lemma GroupWrites(s: string, i: nat, braced: bool)
    requires i < 5 && Start(i) <= |s|
    ensures var g := ParseGroup(s[Start(i)..], i, braced);
            && Shows(g.bytes, s, FirstByte(i))
            && (g.Stop? && g.outcome.BadHex? ==>
                  2 * |g.bytes| < ByteGroup(i) && !GoodPair(s, FirstByte(i) + |g.bytes|))
  {
    hide HexDecode, ParseDigits, Position, GoodPair, ShowsByte, ByteGroup, Start, FirstByte;
    GroupTable(i);
    var from, n := Start(i) + Dash(i), ByteGroup(i);
    if from <= |s| {
      DigitsWrite(s, from, n, i == 4, braced);
      AfterDash(s, Start(i), i > 0);
    }
    if from + n <= |s| {
      RunShows(s, from, n, FirstByte(i));
    }
  }

  lemma ShowsMore(s: string, first: nat, a: seq<byte>, b: seq<byte>)
    requires Shows(a, s, first) && Shows(b, s, first + |a|)
    ensures Shows(a + b, s, first)
  {
    hide ShowsByte;
    forall k | 0 <= k < |a + b|
      ensures ShowsByte(s, first + k, (a + b)[k])
    {
      if k >= |a| {
        assert ShowsByte(s, first + |a| + (k - |a|), b[k - |a|]);
      }
    }
  }

  /** What has been written when parsing fails at group i: the groups before it, and of a group with a bad
      pair the bytes before that pair. */
  ghost predicate Written(s: string, i: nat, bytes: seq<byte>, first: nat, badHex: bool)
    requires i < 5
  {
    && Shows(bytes, s, first)
    && (if badHex then FirstByte(i) <= first + |bytes| < FirstByte(i + 1) && !GoodPair(s, first + |bytes|)
        else first + |bytes| == FirstByte(i))
  }

  lemma {:induction false} FailureWrites(s: string, j: nat, i: nat, braced: bool)
    requires j <= i < 5 && Start(i) <= |s|
    requires forall h :: j <= h < i ==> GroupThere(s, h)
    requires GroupThere(s, i) ==> i == 4 && !EndsWell(s, braced)
    ensures Start(j) <= |s|
    ensures var r := ParseFrom(s[Start(j)..], j, braced);
            Written(s, i, r.bytes, FirstByte(j), r.outcome.BadHex?)
    decreases i - j
  {
    hide ParseGroup, ParseFrom, GroupThere, HexDecode, Failure, Start, EndsWell, Shows, GoodPair, FirstByte, ByteGroup;
    StartsGrow(j, i);
    GroupAccepts(s, j, braced);
    GroupTable(j);
    ParseStep(s[Start(j)..], j, braced);
    GroupWrites(s, j, braced);
    var g := ParseGroup(s[Start(j)..], j, braced);
    if j < i {
      FailureWrites(s, j + 1, i, braced);
      ShowsMore(s, FirstByte(j), g.bytes, ParseFrom(g.left, j + 1, braced).bytes);
    } else {
      GroupFails(s, i, braced);
      assert g.bytes + [] == g.bytes;
    }
  }

  lemma StartsGrow(j: nat, i: nat)
    requires j <= i <= 5
    ensures Start(j) <= Start(i)
  {
  }

  /** Every text that is not accepted fails at a first group, unless it is shorter than 32 characters. */
  lemma FailsExactly(text: string) returns (i: nat)
    requires !Unmarshal(text).outcome.Parsed?
    ensures i < 5
    ensures |text| < 32 ==> Unmarshal(text) == Unmarshaled(TooShort, [])
    ensures |text| >= 32 ==>
              && Start(i) <= |Body(text)| && (forall h :: 0 <= h < i ==> GroupThere(Body(text), h))
              && (GroupThere(Body(text), i) ==> i == 4 && !EndsWell(Body(text), IsBraced(text)))
              && Unmarshal(text).outcome == Failure(Body(text), i, IsBraced(text))
              && Written(Body(text), i, Unmarshal(text).bytes, 0, Unmarshal(text).outcome.BadHex?)
  {
    i := 0;
    if |text| >= 32 {
      var s, braced := Body(text), IsBraced(text);
      i := FirstMissing(s, braced, Unmarshal(text).outcome);
      assert s[0..] == s;
      FirstFailure(s, 0, i, braced);
      FailureWrites(s, 0, i, braced);
      hide ParseFrom, Failure, GroupThere, Written, EndsWell, Start;
    }
  }

  /** The first group that is not there, or the last one with too much after it. */
  lemma FirstMissing(s: string, braced: bool, outcome: Outcome) returns (i: nat)
    requires outcome == ParseFrom(s, 0, braced).outcome && !outcome.Parsed?
    ensures i < 5 && Start(i) <= |s| && forall h :: 0 <= h < i ==> GroupThere(s, h)
    ensures GroupThere(s, i) ==> i == 4 && !EndsWell(s, braced)
  {
    i := 0;
    while i < 4 && GroupThere(s, i)
      invariant i <= 4 && Start(i) <= |s| && forall h :: 0 <= h < i ==> GroupThere(s, h)
    {
      i := i + 1;
    }
    if GroupThere(s, i) {
      assert s[0..] == s;
      ParseAccepts(s, 0, braced);
      assert GroupThere(s, 0) && GroupThere(s, 1) && GroupThere(s, 2) && GroupThere(s, 3);
    }
  }

  // ----- Printing and parsing -----

  lemma TextAt(u: seq<byte>, k: nat)
    requires |u| == 16 && k < 16
    ensures Text(u)[Position(k)] == HexChar(u[k] / 16) && Text(u)[Position(k) + 1] == HexChar(u[k] % 16)
  {
    hide Hex, HexChar;
    if k < 4 {
      HexAt(u[..4], k);
    } else if k < 6 {
      HexAt(u[4..6], k - 4);
    } else if k < 8 {
      HexAt(u[6..8], k - 6);
    } else if k < 10 {
      HexAt(u[8..10], k - 8);
    } else {
      HexAt(u[10..], k - 10);
    }
  }

  /** Every position is a dash or one of the two digits of a byte. */
  function ByteIndex(p: nat): (k: nat)
    requires p < 36 && !IsDash(p)
    ensures k < 16 && (p == Position(k) || p == Position(k) + 1)
  {
    if p < 8 then p / 2 else if p < 13 then (p - 1) / 2 else if p < 18 then (p - 2) / 2
    else if p < 23 then (p - 3) / 2 else (p - 4) / 2
  }

  lemma TextDash(u: seq<byte>, p: nat)
    requires |u| == 16 && IsDash(p)
    ensures Text(u)[p] == '-'
  {
  }

  lemma TextFits(u: seq<byte>, p: nat)
    requires |u| == 16 && p < 36
    ensures Fits(Text(u), p)
  {
    if IsDash(p) {
      TextDash(u, p);
    } else {
      TextAt(u, ByteIndex(p));
    }
  }

  /** The printed form has the layout and shows the bytes. */
  lemma TextIsLayout(u: seq<byte>)
    requires |u| == 16
    ensures IsLayout(Text(u)) && BytesFrom(Text(u), 0) == u
  {
    hide Text;
    forall p | 0 <= p < 36
      ensures Fits(Text(u), p)
    {
      TextFits(u, p);
    }
    forall k | 0 <= k < 16
      ensures BytesFrom(Text(u), 0)[k] == u[k]
    {
      TextAt(u, k);
    }
  }

  /** Such a text for every UUID. */
  lemma TruncatedUrnPanics(u: seq<byte>)
    requires |u| == 16
    ensures Unmarshal(URN_PREFIX + Text(u)[..23]).outcome == OutOfRange
  {
    var s := Text(u)[..23];
    var text := URN_PREFIX + s;
    hide Text, Unmarshal;
    assert text[9..] == s;
    forall k | 0 <= k < 23
      ensures Fits(s, k)
    {
      TextFits(u, k);
    }
    PanicsExactly(text);
  }

  lemma SameBytes(s: string, t: string)
    requires |s| >= 36 && |t| == 36 && s[..36] == t
    ensures BytesFrom(s, 0) == BytesFrom(t, 0)
  {
  }

  lemma ParseBody(text: string, u: seq<byte>)
    requires |u| == 16 && Accepted(text) && |Body(text)| >= 36 && Body(text)[..36] == Text(u)
    ensures Unmarshal(text) == Unmarshaled(Parsed, u)
  {
    AcceptsExactly(text);
    TextIsLayout(u);
    hide Text, Unmarshal, IsLayout, Body, Accepted, ByteOf;
    SameBytes(Body(text), Text(u));
  }

  /** Parsing undoes printing. */
  lemma ParseText(u: seq<byte>)
    requires |u| == 16
    ensures Unmarshal(Text(u)) == Unmarshaled(Parsed, u)
  {
    TextIsLayout(u);
    hide Text, Unmarshal;
    FirstCharacters(Text(u));
    assert Text(u)[..36] == Text(u);
    ParseBody(Text(u), u);
  }

  lemma ParseUrn(u: seq<byte>)
    requires |u| == 16
    ensures Unmarshal(URN_PREFIX + Text(u)) == Unmarshaled(Parsed, u)
  {
    TextIsLayout(u);
    hide Text, Unmarshal, IsLayout;
    var text := URN_PREFIX + Text(u);
    assert text[9..] == Text(u) && text[9..][..36] == Text(u);
    ParseBody(text, u);
  }

  /** The closing brace is optional. */
  lemma ParseBraced(u: seq<byte>, closing: string)
    requires |u| == 16 && (closing == "" || closing == "}")
    ensures Unmarshal("{" + Text(u) + closing) == Unmarshaled(Parsed, u)
  {
    TextIsLayout(u);
    hide Text, Unmarshal, IsLayout;
    var text := "{" + Text(u) + closing;
    FirstCharacters(text);
    assert text[0] == '{' && text[1..37] == Text(u) && text[1..][..36] == Text(u);
    assert closing == "" ==> text[1..] == Text(u);
    ParseBody(text, u);
  }

  /** Printing undoes parsing up to prefix, braces and the case of the digits. */
  lemma PrintParsed(text: string)
    requires Unmarshal(text).outcome.Parsed?
    ensures |Body(text)| >= 36
    ensures forall p :: 0 <= p < 36 ==> Text(Unmarshal(text).bytes)[p] == LowerHex(Body(text)[p])
  {
    var s := Body(text);
    AcceptsExactly(text);
    LayoutOfBody(text);
    hide Text, Unmarshal, Body, BytesFrom;
    forall p | 0 <= p < 36
      ensures Text(BytesFrom(s, 0))[p] == LowerHex(s[p])
    {
      PrintedCharacter(s, p);
    }
  }

  lemma LayoutOfBody(text: string)
    requires Accepted(text)
    ensures |Body(text)| >= 36 && forall p :: 0 <= p < 36 ==> Fits(Body(text), p)
  {
    var s := Body(text);
    FirstCharacters(text);
    if |text| == 38 {
      assert s[..36] == text[1..37];
    }
    assert |s| >= 36;
    FitsPrefix(s);
    assert |s| == 36 ==> s[..36] == s;
  }

  lemma PrintedCharacter(s: string, p: nat)
    requires |s| >= 36 && p < 36
    requires forall k :: 0 <= k < 36 ==> Fits(s, k)
    ensures Text(BytesFrom(s, 0))[p] == LowerHex(s[p])
  {
    var u := BytesFrom(s, 0);
    assert Fits(s, p);
    if IsDash(p) {
      TextDash(u, p);
    } else {
      var k := ByteIndex(p);
      TextAt(u, k);
      hide Text;
      assert Fits(s, Position(k)) && Fits(s, Position(k) + 1);
      DigitPair(s[Position(k)], s[Position(k) + 1]);
    }
  }

  lemma DigitPair(high: char, low: char)
    requires IsHex(high) && IsHex(low)
    ensures HexChar(ByteOf(high, low) / 16) == LowerHex(high)
    ensures HexChar(ByteOf(high, low) % 16) == LowerHex(low)
  {
    LowerDigit(high);
    LowerDigit(low);
    Nibbles(ByteOf(high, low), HexValue(high), HexValue(low));
    hide HexChar, LowerHex, HexValue, IsHex, ByteOf;
  }

  lemma Nibbles(b: nat, high: nat, low: nat)
    requires high < 16 && low < 16 && b == 16 * high + low
    ensures b / 16 == high && b % 16 == low
  {
  }

  lemma LowerDigit(c: char)
    requires IsHex(c)
    ensures HexChar(HexValue(c)) == LowerHex(c)
  {
  }

  // ----- The printer and the parser as the program runs them -----

  /** The first elements replaced. */
  function Overwritten<T>(u: seq<T>, first: seq<T>): (r: seq<T>)
    requires |first| <= |u|
    ensures |r| == |u|
  {
    first + u[|first|..]
  }

  lemma OverwrittenTwice<T>(u: seq<T>, first: seq<T>, more: seq<T>)
    requires |first| + |more| <= |u|
    ensures var v := Overwritten(u, first);
            Overwritten(v, v[..|first|] + more) == Overwritten(u, first + more)
  {
  }

  lemma OverwrittenOne<T>(u: seq<T>, first: seq<T>, x: T)
    requires |first| < |u|
    ensures Overwritten(u, first)[|first| := x] == Overwritten(u, first + [x])
  {
  }

  lemma OverwrittenTwo<T>(u: seq<T>, left: seq<T>, done: seq<T>, x: T, y: T)
    requires |left| + |done| + 1 < |u|
    ensures var n := |left| + |done|;
            Overwritten(u, left + done)[n := x][n + 1 := y] == Overwritten(u, left + (done + [x, y]))
  {
  }

  lemma OverwrittenNone<T>(u: seq<T>, n: nat)
    requires n <= |u|
    ensures Overwritten(u, u[..n]) == u
  {
  }

  /** Fill a buffer from an index on with the digits of some bytes. */
  method HexEncode(buf: array<char>, at: nat, src: seq<byte>)
    requires at + 2 * |src| <= buf.Length
    modifies buf
    ensures buf[..] == Overwritten(old(buf[..]), old(buf[..at]) + Hex(src))
  {
    hide HexChar, Overwritten;
    ghost var left := buf[..at];
    ghost var done := "";
    OverwrittenNone(buf[..], at);
    assert left + done == left;
    for j := 0 to |src|
      invariant |done| == 2 * j && done == Hex(src)[..2 * j]
      invariant buf[..] == Overwritten(old(buf[..]), left + done)
    {
      hide Hex;
      var high, low := HexChar(src[j] / 16), HexChar(src[j] % 16);
      HexAt(src, j);
      OverwrittenTwo(old(buf[..]), left, done, high, low);
      buf[at + 2 * j] := high;
      buf[at + 2 * j + 1] := low;
      done := done + [high, low];
    }
    assert Hex(src)[..2 * |src|] == Hex(src);
  }

  method String(u: seq<byte>) returns (s: string)
    requires |u| == 16
    ensures s == Text(u)
  {
    hide Hex;
    var buf := new char[36](_ => '0');
    HexEncode(buf, 0, u[0..4]);
    buf[8] := '-';
    assert buf[..9] == Hex(u[..4]) + "-";
    HexEncode(buf, 9, u[4..6]);
    buf[13] := '-';
    assert buf[..14] == Hex(u[..4]) + "-" + Hex(u[4..6]) + "-";
    HexEncode(buf, 14, u[6..8]);
    buf[18] := '-';
    assert buf[..19] == Hex(u[..4]) + "-" + Hex(u[4..6]) + "-" + Hex(u[6..8]) + "-";
    HexEncode(buf, 19, u[8..10]);
    buf[23] := '-';
    assert buf[..24] == Hex(u[..4]) + "-" + Hex(u[4..6]) + "-" + Hex(u[6..8]) + "-" + Hex(u[8..10]) + "-";
    HexEncode(buf, 24, u[10..]);
    return buf[..];
  }

  ghost function DecodedAfter(done: seq<byte>, rest: string): Decoded
    requires |rest| % 2 == 0
  {
    Decoded(done + HexDecode(rest).bytes, HexDecode(rest).ok)
  }

  lemma DecodeStep(done: seq<byte>, rest: string)
    requires |rest| % 2 == 0 && |rest| > 0
    ensures DecodedAfter(done, rest)
         == if IsHex(rest[0]) && IsHex(rest[1]) then DecodedAfter(done + [ByteOf(rest[0], rest[1])], rest[2..])
            else Decoded(done, false)
  {
  }

  lemma DecodeStart(src: string)
    requires |src| % 2 == 0
    ensures DecodedAfter([], src) == HexDecode(src)
  {
  }

  lemma DecodeEnd(done: seq<byte>)
    ensures DecodedAfter(done, "") == Decoded(done, true)
  {
  }

  /** Decode into the bytes from an index on; after a bad pair the bytes before it stay written. */
  method HexDecodeInto(u: array<byte>, at: nat, src: string) returns (ok: bool)
    requires |src| % 2 == 0 && at + |src| / 2 <= u.Length
    modifies u
    ensures var d := HexDecode(src);
            ok == d.ok && u[..] == Overwritten(old(u[..]), old(u[..at]) + d.bytes)
  {
    hide ByteOf, HexValue, IsHex, Overwritten, DecodedAfter;
    hide HexDecode;
    var rest := src;
    ghost var done: seq<byte> := [];
    ghost var left := u[..at];
    OverwrittenNone(u[..], at);
    assert left + done == left;
    DecodeStart(src);
    while rest != ""
      invariant |rest| % 2 == 0 && 2 * |done| + |rest| == |src|
      invariant HexDecode(src) == DecodedAfter(done, rest)
      invariant u[..] == Overwritten(old(u[..]), left + done)
      decreases |rest|
    {
      DecodeStep(done, rest);
      if !IsHex(rest[0]) || !IsHex(rest[1]) {
        return false;
      }
      var j := (|src| - |rest|) / 2;
      OverwrittenOne(old(u[..]), left + done, ByteOf(rest[0], rest[1]));
      u[at + j] := ByteOf(rest[0], rest[1]);
      assert left + (done + [ByteOf(rest[0], rest[1])]) == left + done + [ByteOf(rest[0], rest[1])];
      done := done + [ByteOf(rest[0], rest[1])];
      rest := rest[2..];
    }
    DecodeEnd(done);
    return true;
  }

  /** What UnmarshalText does with one group. */
  method UnmarshalGroup(u: array<byte>, at: nat, text: string, i: nat, braced: bool)
    returns (outcome: Outcome, left: string)
    requires i < 5 && at + ByteGroup(i) / 2 <= u.Length
    modifies u
    ensures var g := ParseGroup(text, i, braced);
            && u[..] == Overwritten(old(u[..]), old(u[..at]) + g.bytes)
            && (if g.Stop? then outcome == g.outcome else outcome == Parsed && left == g.left)
  {
    hide HexDecode, Overwritten;
    OverwrittenNone(u[..], at);
    assert u[..at] + [] == u[..at];
    var t := text;
    if i > 0 {
      if t == "" {
        return OutOfRange, t;
      }
      if t[0] != '-' {
        return BadFormat, t;
      }
      t := t[1..];
    }
    var n := ByteGroup(i);
    if |t| < n {
      return TooShort, t;
    }
    if i == 4 && |t| > n && ((braced && t[n] != '}') || |t| - n > 1 || !braced) {
      return TooLong, t;
    }
    var ok := HexDecodeInto(u, at, t[..n]);
    return if ok then Parsed else BadHex, t[n..];
  }

  lemma ParseSteps(text: string)
    ensures Unmarshal(text)
         == if |text| < 32 then Unmarshaled(TooShort, []) else ParseFrom(Body(text), 0, IsBraced(text))
    ensures FirstByte(0) == 0
  {
  }

  lemma PrependNone(r: Unmarshaled)
    ensures Prepend([], r) == r
  {
  }

  lemma PrependLast(bytes: seq<byte>, outcome: Outcome)
    ensures Prepend(bytes, Unmarshaled(outcome, [])) == Unmarshaled(outcome, bytes)
  {
  }

  lemma PrependTwice(first: seq<byte>, more: seq<byte>, r: Unmarshaled)
    ensures Prepend(first, Prepend(more, r)) == Prepend(first + more, r)
  {
  }

  /** What UnmarshalText does to its receiver, also when it fails half way. */
  method UnmarshalText(u: array<byte>, text: string) returns (outcome: Outcome)
    requires u.Length == 16
    modifies u
    ensures outcome == Unmarshal(text).outcome
    ensures u[..] == Overwritten(old(u[..]), Unmarshal(text).bytes)
  {
    ParseSteps(text);
    PrependNone(Unmarshal(text));
    OverwrittenNone(u[..], 0);
    assert u[..0] == [];
    hide Unmarshal, ParseFrom, ParseGroup, FirstByte, Overwritten, Prepend;
    if |text| < 32 {
      return TooShort;
    }
    var t, braced := text, false;
    if URN_PREFIX <= t {
      t := t[9..];
    } else if t[0] == '{' {
      braced := true;
      t := t[1..];
    }
    var at := 0;
    ghost var written: seq<byte> := [];
    for i := 0 to 5
      invariant at == FirstByte(i) == |written|
      invariant u[..] == Overwritten(old(u[..]), written)
      invariant Unmarshal(text) == Prepend(written, ParseFrom(t, i, braced))
    {
      GroupTable(i);
      ParseStep(t, i, braced);
      ghost var g := ParseGroup(t, i, braced);
      PrependTwice(written, g.bytes, if g.Stop? then Unmarshaled(g.outcome, []) else ParseFrom(g.left, i + 1, braced));
      OverwrittenTwice(old(u[..]), written, g.bytes);
      outcome, t := UnmarshalGroup(u, at, t, i, braced);
      written := written + g.bytes;
      if outcome != Parsed {
        PrependLast(written, outcome);
        return;
      }
      at := at + ByteGroup(i) / 2;
    }
    PrependLast(written, Parsed);
    ParseEnd(t, braced);
    return Parsed;
  }
}
