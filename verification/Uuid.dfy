/** Version 1 and 2 UUIDs (pkg/util/uuid.go): the clock with its sequence number, and the bit layout of
    RFC 4122, sections 4.1.2 to 4.1.5 and 4.2.1.  Random choices (the initial clock sequence, a missing
    hardware address) are parameters. */
module UuidGenerator {

  import opened IntegerMath

  type byte = x: int | 0 <= x < 0x100

  // ----- Bit masks -----

  /** (b & 0x0f) | (v << 4): the version replaces the high nibble. */
  function WithVersion(b: byte, v: byte): byte {
    b % 16 + 16 * (v % 16)
  }

  /** (b & 0xbf) | 0x80: the variant replaces the two high bits by 10. */
  function WithVariant(b: byte): byte {
    b % 64 + 128
  }

  lemma SplitNibbles(x: bv8)
    ensures x as int == (x & 0xf0) as int + (x & 0x0f) as int
  {
  }

  lemma LowNibble(b: bv8)
    ensures (b & 0x0f) as int == (b as int) % 16
  {
  }

  lemma HighNibble(v: bv8)
    ensures (v << 4) as int == 16 * ((v as int) % 16)
  {
  }

  lemma NibblesOfOr(b: bv8, v: bv8)
    ensures ((b & 0x0f) | (v << 4)) & 0xf0 == v << 4
    ensures ((b & 0x0f) | (v << 4)) & 0x0f == b & 0x0f
  {
  }

  /** The arithmetic forms are the bit operations of the program. */
  lemma VersionMask(b: bv8, v: bv8)
    ensures WithVersion(b as int, v as int) == ((b & 0x0f) | (v << 4)) as int
  {
    SplitNibbles((b & 0x0f) | (v << 4));
    NibblesOfOr(b, v);
    LowNibble(b);
    HighNibble(v);
  }

  lemma VariantMask(b: bv8)
    ensures WithVariant(b as int) == ((b & 0xbf) | 0x80) as int
  {
  }

  // ----- Big-endian fields -----

  function Pow256(n: nat): (r: int)
    ensures r > 0
  {
    if n == 0 then 1 else 256 * Pow256(n - 1)
  }

  /** The low n bytes of v, most significant first. */
  function BigEndian(v: nat, n: nat): (s: seq<byte>)
    ensures |s| == n
  {
    if n == 0 then [] else BigEndian(v / 256, n - 1) + [v % 256]
  }

  /** Splitting a remainder at the digit a. */
  lemma ModSplit(v: nat, a: int, m: int)
    requires a > 0 && m > 0
    ensures a * m > 0
    ensures v % (a * m) == a * (v / a % m) + v % a
  {
    var high := v / a;
    DivMod(v, a);
    DivMod(high, m);
    Nested(a, m, high / m, high % m, v % a);
    ModUnique(v, a * m, high / m, a * (high % m) + v % a);
  }

  lemma DivMod(v: int, a: int)
    requires a > 0
    ensures v == a * (v / a) + v % a && 0 <= v % a < a
  {
  }

  lemma Nested(a: int, m: int, q: int, r: int, low: int)
    requires a > 0 && 0 <= r < m && 0 <= low < a
    ensures a * m > 0 && 0 <= a * r + low < a * m
    ensures a * (m * q + r) + low == (a * m) * q + (a * r + low)
  {
    MulMono(0, r, a);
    MulMono(r + 1, m, a);
    Redistribute(a, m, q, r);
  }

  lemma Redistribute(a: int, m: int, q: int, r: int)
    ensures a * (m * q + r) == (a * m) * q + a * r
  {
  }

  lemma ModUnique(v: int, m: int, q: int, r: int)
    requires m > 0 && 0 <= r < m && v == m * q + r
    ensures v % m == r
  {
    var d := v / m - q;
    assert v == m * (v / m) + v % m;
    assert m * d == r - v % m;
    assert d >= 1 ==> m * d >= m;
    assert d <= -1 ==> m * d <= -m;
  }

  /** Big-endian fields are equal exactly when the numbers agree modulo the field size. */
  lemma {:induction false} BigEndianInjective(v: nat, w: nat, n: nat)
    ensures BigEndian(v, n) == BigEndian(w, n) <==> v % Pow256(n) == w % Pow256(n)
  {
    if n > 0 {
      BigEndianInjective(v / 256, w / 256, n - 1);
      ModSplit(v, 256, Pow256(n - 1));
      ModSplit(w, 256, Pow256(n - 1));
      var x, y := BigEndian(v, n), BigEndian(w, n);
      assert x[..n - 1] == BigEndian(v / 256, n - 1) && x[n - 1] == v % 256;
      assert y[..n - 1] == BigEndian(w / 256, n - 1) && y[n - 1] == w % 256;
      assert x == x[..n - 1] + [x[n - 1]] && y == y[..n - 1] + [y[n - 1]];
    }
  }

  lemma DivDiv(v: nat, p: int)
    requires p > 0
    ensures v / 256 / p == v / (256 * p)
  {
    DivMod(v, 256);
    DivMod(v / 256, p);
    Nested(256, p, v / 256 / p, v / 256 % p, v % 256);
    DivUnique(v, 256 * p, v / 256 / p, 256 * (v / 256 % p) + v % 256);
  }

  lemma DivUnique(v: int, m: int, q: int, r: int)
    requires m > 0 && 0 <= r < m && v == m * q + r
    ensures v / m == q
  {
    var d := v / m - q;
    assert v == m * (v / m) + v % m;
    assert m * d == r - v % m;
    assert d >= 1 ==> m * d >= m;
    assert d <= -1 ==> m * d <= -m;
  }

  /** Byte k of an n-byte field is the digit with n - 1 - k digits below it: most significant first. */
  lemma {:induction false} BigEndianDigits(v: nat, n: nat, k: nat)
    requires k < n
    ensures BigEndian(v, n)[k] == v / Pow256(n - 1 - k) % 256
  {
    if k < n - 1 {
      BigEndianDigits(v / 256, n - 1, k);
      DivDiv(v, Pow256(n - 2 - k));
    } else {
      assert Pow256(0) == 1;
    }
  }

  /** The four bytes of a 32-bit field. */
  lemma FourBytes(v: nat)
    ensures BigEndian(v, 4) == [v / 0x100_0000 % 256, v / 0x1_0000 % 256, v / 256 % 256, v % 256]
  {
    BigEndianDigits(v, 4, 0);
    BigEndianDigits(v, 4, 1);
    BigEndianDigits(v, 4, 2);
    BigEndianDigits(v, 4, 3);
    FieldSizes();
    assert Pow256(0) == 1 && Pow256(1) == 256 && Pow256(3) == 0x100_0000;
    hide BigEndian;
  }

  // ----- The layout -----

  predicate IsAddress(hw: seq<byte>) {
    |hw| == 6
  }

  /** Put version and variant into sixteen bytes. */
  function Stamped(u: seq<byte>, version: byte): (r: seq<byte>)
    requires |u| == 16
    ensures |r| == 16
  {
    u[6 := WithVersion(u[6], version)][8 := WithVariant(u[8])]
  }

  /** Time low, time middle, time high, clock sequence, node. */
  function V1Fields(time: nat, clock: nat, hw: seq<byte>): (u: seq<byte>)
    requires IsAddress(hw)
    ensures |u| == 16
  {
    BigEndian(time, 4) + BigEndian(time / 0x1_0000_0000, 2) + BigEndian(time / 0x1_0000_0000_0000, 2)
    + BigEndian(clock, 2) + hw
  }

  function V1(time: nat, clock: nat, hw: seq<byte>): (u: seq<byte>)
    requires IsAddress(hw)
    ensures |u| == 16
  {
    Stamped(V1Fields(time, clock, hw), 1)
  }

  /** Version 2 puts a POSIX id in place of the low time and the domain in place of the low clock byte. */
  function V2(time: nat, clock: nat, hw: seq<byte>, domain: byte, uid: nat, gid: nat): (u: seq<byte>)
    requires IsAddress(hw)
    ensures |u| == 16
  {
    var id := if domain == 0 then uid else if domain == 1 then gid else 0;
    Stamped((BigEndian(id, 4) + BigEndian(time / 0x1_0000_0000, 2) + BigEndian(time / 0x1_0000_0000_0000, 2)
             + BigEndian(clock, 2) + hw)[9 := domain], 2)
  }

  /** The bytes that version 1 and version 2 UUIDs share: the rest of the time, the clock sequence under
      the variant, the node. */
  ghost predicate CommonBytes(u: seq<byte>, time: nat, clock: nat, hw: seq<byte>, version: byte)
    requires |u| == 16
  {
    && u[4] == time / 0x100_0000_0000 % 256 && u[5] == time / 0x1_0000_0000 % 256
    && u[6] == time / 0x100_0000_0000_0000 % 16 + 16 * version && u[7] == time / 0x1_0000_0000_0000 % 256
    && u[8] == clock / 256 % 64 + 128 && u[10..] == hw
  }

  /** A version 1 UUID byte by byte. */
  lemma V1Layout(time: nat, clock: nat, hw: seq<byte>)
    requires IsAddress(hw)
    ensures var u := V1(time, clock, hw);
            && u[0] == time / 0x100_0000 % 256 && u[1] == time / 0x1_0000 % 256
            && u[2] == time / 256 % 256 && u[3] == time % 256
            && CommonBytes(u, time, clock, hw, 1) && u[9] == clock % 256
  {
    V1Bytes(time, clock, hw);
    FourBytes(time);
    TwoBytes(time / 0x1_0000_0000);
    var u := V1(time, clock, hw);
    assert u[0] == u[..4][0] && u[1] == u[..4][1] && u[2] == u[..4][2] && u[3] == u[..4][3];
    assert u[4] == u[4..6][0] && u[5] == u[4..6][1];
    HighDigits(time);
    hide V1, BigEndian;
  }

  lemma HighDigits(time: nat)
    ensures time / 0x1_0000_0000 / 256 == time / 0x100_0000_0000
    ensures time / 0x1_0000_0000_0000 / 256 == time / 0x100_0000_0000_0000
  {
  }

  /** A version 2 UUID byte by byte: the POSIX id of the domain, and the domain in the low clock byte. */
  lemma V2Layout(time: nat, clock: nat, hw: seq<byte>, domain: byte, uid: nat, gid: nat)
    requires IsAddress(hw)
    ensures var u := V2(time, clock, hw, domain, uid, gid);
            var id := if domain == 0 then uid else if domain == 1 then gid else 0;
            && u[0] == id / 0x100_0000 % 256 && u[1] == id / 0x1_0000 % 256
            && u[2] == id / 256 % 256 && u[3] == id % 256
            && CommonBytes(u, time, clock, hw, 2) && u[9] == domain
  {
    var id := if domain == 0 then uid else if domain == 1 then gid else 0;
    FourBytes(id);
    TwoBytes(time / 0x1_0000_0000);
    TwoBytes(time / 0x1_0000_0000_0000);
    TwoBytes(clock);
    HighDigits(time);
    NarrowDigit(time / 0x100_0000_0000_0000);
    NarrowDigit(clock / 256);
    hide BigEndian;
  }

  lemma TwoBytes(v: nat)
    ensures BigEndian(v, 2) == [v / 256 % 256, v % 256]
  {
  }

  lemma FieldSizes()
    ensures Pow256(4) == 0x1_0000_0000 && Pow256(2) == 0x1_0000
  {
  }

  /** The fields of a version 1 UUID one by one. */
  lemma V1Bytes(time: nat, clock: nat, hw: seq<byte>)
    requires IsAddress(hw)
    ensures var u := V1(time, clock, hw);
            && u[..4] == BigEndian(time, 4)
            && u[4..6] == BigEndian(time / 0x1_0000_0000, 2)
            && u[6] == time / 0x1_0000_0000_0000 / 256 % 16 + 16
            && u[7] == time / 0x1_0000_0000_0000 % 256
            && u[8] == clock / 256 % 64 + 128
            && u[9] == clock % 256
            && u[10..] == hw
  {
    var fields := V1Fields(time, clock, hw);
    FieldBytes(time, clock, hw);
    StampedBytes(fields, 1);
    hide V1Fields, BigEndian, Stamped;
    NarrowDigit(time / 0x1_0000_0000_0000 / 256);
    NarrowDigit(clock / 256);
  }

  lemma NarrowDigit(x: nat)
    ensures x % 256 % 16 == x % 16
    ensures x % 256 % 64 == x % 64
  {
    var q, r := x / 256, x % 256;
    ModUnique(x, 16, 16 * q + r / 16, r % 16);
    ModUnique(x, 64, 4 * q + r / 64, r % 64);
  }

  lemma StampedBytes(u: seq<byte>, version: byte)
    requires |u| == 16
    ensures var r := Stamped(u, version);
            && r[..4] == u[..4] && r[4..6] == u[4..6] && r[10..] == u[10..]
            && r[6] == u[6] % 16 + 16 * (version % 16) && r[7] == u[7]
            && r[8] == u[8] % 64 + 128 && r[9] == u[9]
  {
  }

  lemma FieldBytes(time: nat, clock: nat, hw: seq<byte>)
    requires IsAddress(hw)
    ensures var u := V1Fields(time, clock, hw);
            && u[..4] == BigEndian(time, 4)
            && u[4..6] == BigEndian(time / 0x1_0000_0000, 2)
            && u[6] == time / 0x1_0000_0000_0000 / 256 % 256
            && u[7] == time / 0x1_0000_0000_0000 % 256
            && u[8] == clock / 256 % 256
            && u[9] == clock % 256
            && u[10..] == hw
  {
    TwoBytes(time / 0x1_0000_0000_0000);
    TwoBytes(clock);
    hide BigEndian;
  }

  /** The four fields of a time, and the two of a clock sequence, as digits. */
  lemma TimeParts(t: nat)
    ensures t % 0x1000_0000_0000_0000
         == t % 0x1_0000_0000 + 0x1_0000_0000 * (t / 0x1_0000_0000 % 0x1000_0000)
    ensures t / 0x1_0000_0000 % 0x1000_0000
         == t / 0x1_0000_0000 % 0x1_0000
            + 0x1_0000 * (t / 0x1_0000_0000_0000 % 256 + 256 * (t / 0x1_0000_0000_0000 / 256 % 16))
  {
    var s, r := t / 0x1_0000_0000, t / 0x1_0000_0000_0000;
    ModSplit(t, 0x1_0000_0000, 0x1000_0000);
    assert s / 0x1_0000 == r;
    ModSplit(s, 0x1_0000, 0x1000);
    ModSplit(r, 256, 16);
  }

  lemma ClockParts(c: nat)
    ensures c % 0x4000 == 256 * (c / 256 % 64) + c % 256
  {
  }

  /** Digits determine the number. */
  lemma DigitsDetermine(a1: nat, b1: nat, c1: nat, d1: nat, a2: nat, b2: nat, c2: nat, d2: nat)
    requires a1 < 0x1_0000_0000 && a2 < 0x1_0000_0000 && b1 < 0x1_0000 && b2 < 0x1_0000 && c1 < 256 && c2 < 256
    ensures a1 + 0x1_0000_0000 * (b1 + 0x1_0000 * (c1 + 256 * d1))
         == a2 + 0x1_0000_0000 * (b2 + 0x1_0000 * (c2 + 256 * d2))
       <==> a1 == a2 && b1 == b2 && c1 == c2 && d1 == d2
  {
  }

  /** Two version 1 UUIDs of one node are equal exactly when the low 60 bits of their times and the low
      14 bits of their clock sequences are. */
  lemma V1Equal(t1: nat, c1: nat, t2: nat, c2: nat, hw: seq<byte>)
    requires IsAddress(hw)
    ensures V1(t1, c1, hw) == V1(t2, c2, hw)
       <==> t1 % 0x1000_0000_0000_0000 == t2 % 0x1000_0000_0000_0000 && c1 % 0x4000 == c2 % 0x4000
  {
    hide V1, BigEndian, Pow256;
    V1Bytes(t1, c1, hw);
    V1Bytes(t2, c2, hw);
    BigEndianInjective(t1, t2, 4);
    BigEndianInjective(t1 / 0x1_0000_0000, t2 / 0x1_0000_0000, 2);
    FieldSizes();
    BytewiseEqual(V1(t1, c1, hw), V1(t2, c2, hw));
    ClockParts(c1);
    ClockParts(c2);
    SameTime(t1, t2);
  }

  lemma SameTime(t1: nat, t2: nat)
    ensures t1 % 0x1000_0000_0000_0000 == t2 % 0x1000_0000_0000_0000
       <==> && t1 % 0x1_0000_0000 == t2 % 0x1_0000_0000
            && t1 / 0x1_0000_0000 % 0x1_0000 == t2 / 0x1_0000_0000 % 0x1_0000
            && t1 / 0x1_0000_0000_0000 % 256 == t2 / 0x1_0000_0000_0000 % 256
            && t1 / 0x1_0000_0000_0000 / 256 % 16 == t2 / 0x1_0000_0000_0000 / 256 % 16
  {
    TimeParts(t1);
    TimeParts(t2);
    DigitsDetermine(
      t1 % 0x1_0000_0000, t1 / 0x1_0000_0000 % 0x1_0000,
      t1 / 0x1_0000_0000_0000 % 256, t1 / 0x1_0000_0000_0000 / 256 % 16,
      t2 % 0x1_0000_0000, t2 / 0x1_0000_0000 % 0x1_0000,
      t2 / 0x1_0000_0000_0000 % 256, t2 / 0x1_0000_0000_0000 / 256 % 16);
  }

  lemma BytewiseEqual(u: seq<byte>, w: seq<byte>)
    requires |u| == |w| == 16
    ensures u == w <==>
      u[..4] == w[..4] && u[4..6] == w[4..6] && u[6] == w[6] && u[7] == w[7] && u[8] == w[8] && u[9] == w[9]
      && u[10..] == w[10..]
  {
  }

  // ----- The clock and its sequence number -----

  datatype Storage = Storage(lastTime: int, clockSequence: nat)

  ghost predicate ValidStorage(s: Storage) {
    s.clockSequence < 0x1_0000
  }

  /** A clock reading that is not later than the last one bumps the sequence number. */
  predicate Bumps(s: Storage, now: nat) {
    now <= s.lastTime
  }

  function Tick(s: Storage, now: nat): Storage {
    Storage(now, if Bumps(s, now) then (s.clockSequence + 1) % 0x1_0000 else s.clockSequence)
  }

  /** A call of NewV1, or of NewV2 with its domain; both read the same clock. */
  datatype Request = NewV1(now: nat) | NewV2(now: nat, domain: byte)

  ghost function StorageBefore(start: Storage, reqs: seq<Request>, i: nat): Storage
    requires i <= |reqs|
  {
    if i == 0 then start else Tick(StorageBefore(start, reqs, i - 1), reqs[i - 1].now)
  }

  /** The UUID of request i on a node with address hw. */
  ghost function UuidAt(start: Storage, reqs: seq<Request>, hw: seq<byte>, uid: nat, gid: nat, i: nat): seq<byte>
    requires i < |reqs| && IsAddress(hw)
  {
    var clock := StorageBefore(start, reqs, i + 1).clockSequence;
    match reqs[i]
    case NewV1(now) => V1(now, clock, hw)
    case NewV2(now, domain) => V2(now, clock, hw, domain, uid, gid)
  }

  /** How many of the requests i+1..j found the clock repeated or set back. */
  ghost function BumpsBetween(start: Storage, reqs: seq<Request>, i: nat, j: nat): nat
    requires i <= j < |reqs|
  {
    if i == j then 0
    else BumpsBetween(start, reqs, i, j - 1)
         + (if Bumps(StorageBefore(start, reqs, j), reqs[j].now) then 1 else 0)
  }

  lemma WrapAdd(c: nat, n: nat)
    requires c < 0x1_0000
    ensures ((c + n) % 0x1_0000 + 1) % 0x1_0000 == (c + (n + 1)) % 0x1_0000
  {
  }

  /** A later reading than the one before leaves the sequence number, and any other adds one to it; the
      first reading is compared with the time stored at the start. */
  lemma TickIsFair(start: Storage, reqs: seq<Request>, i: nat)
    requires i < |reqs|
    ensures var before, after := StorageBefore(start, reqs, i), StorageBefore(start, reqs, i + 1);
            var last := if i == 0 then start.lastTime else reqs[i - 1].now;
            && after.lastTime == reqs[i].now
            && (reqs[i].now > last ==> after.clockSequence == before.clockSequence)
            && (reqs[i].now <= last ==> after.clockSequence == (before.clockSequence + 1) % 0x1_0000)
            && (Bumps(before, reqs[i].now) <==> reqs[i].now <= last)
  {
  }

  /** The sequence number counts the bumps, modulo 2^16. */
  lemma {:induction false} SequenceCountsBumps(start: Storage, reqs: seq<Request>, i: nat, j: nat)
    requires ValidStorage(start) && i <= j < |reqs|
    ensures StorageBefore(start, reqs, i + 1).clockSequence < 0x1_0000
    ensures StorageBefore(start, reqs, j + 1).clockSequence
         == (StorageBefore(start, reqs, i + 1).clockSequence + BumpsBetween(start, reqs, i, j)) % 0x1_0000
    decreases j
  {
    SequenceInRange(start, reqs, i + 1);
    if i < j {
      SequenceCountsBumps(start, reqs, i, j - 1);
      WrapAdd(StorageBefore(start, reqs, i + 1).clockSequence, BumpsBetween(start, reqs, i, j - 1));
    }
  }

  lemma {:induction false} SequenceInRange(start: Storage, reqs: seq<Request>, i: nat)
    requires ValidStorage(start) && i <= |reqs|
    ensures ValidStorage(StorageBefore(start, reqs, i))
  {
    if i > 0 {
      SequenceInRange(start, reqs, i - 1);
    }
  }

  /** Without bumps the times strictly increase. */
  lemma {:induction false} NoBumpsIncrease(start: Storage, reqs: seq<Request>, i: nat, j: nat)
    requires i <= j < |reqs| && BumpsBetween(start, reqs, i, j) == 0
    ensures i < j ==> reqs[i].now < reqs[j].now
    decreases j
  {
    if i < j {
      NoBumpsIncrease(start, reqs, i, j - 1);
      assert StorageBefore(start, reqs, j).lastTime == reqs[j - 1].now;
    }
  }

  lemma SameLow14(c: nat, n: nat)
    requires c < 0x1_0000
    ensures (c + n) % 0x1_0000 % 0x4000 == c % 0x4000 <==> n % 0x4000 == 0
  {
  }

  /** Two version 1 UUIDs of a run coincide exactly when their times agree in the low 60 bits and the
      bumps between the calls are a multiple of 2^14. */
  lemma V1CollideIff(start: Storage, reqs: seq<Request>, hw: seq<byte>, uid: nat, gid: nat, i: nat, j: nat)
    requires ValidStorage(start) && IsAddress(hw) && i < j < |reqs| && reqs[i].NewV1? && reqs[j].NewV1?
    ensures UuidAt(start, reqs, hw, uid, gid, i) == UuidAt(start, reqs, hw, uid, gid, j)
       <==> && reqs[i].now % 0x1000_0000_0000_0000 == reqs[j].now % 0x1000_0000_0000_0000
            && BumpsBetween(start, reqs, i, j) % 0x4000 == 0
  {
    hide V1;
    var c1 := StorageBefore(start, reqs, i + 1).clockSequence;
    var c2 := StorageBefore(start, reqs, j + 1).clockSequence;
    SequenceCountsBumps(start, reqs, i, j);
    SameLow14(c1, BumpsBetween(start, reqs, i, j));
    V1Equal(reqs[i].now, c1, reqs[j].now, c2, hw);
  }

  /** With times below 2^60 a collision needs equal times and a positive multiple of 2^14 bumps. */
  lemma CollisionNeedsManyBumps(
    start: Storage, reqs: seq<Request>, hw: seq<byte>, uid: nat, gid: nat, i: nat, j: nat)
    requires ValidStorage(start) && IsAddress(hw) && i < j < |reqs| && reqs[i].NewV1? && reqs[j].NewV1?
    requires reqs[i].now < 0x1000_0000_0000_0000 && reqs[j].now < 0x1000_0000_0000_0000
    requires UuidAt(start, reqs, hw, uid, gid, i) == UuidAt(start, reqs, hw, uid, gid, j)
    ensures reqs[i].now == reqs[j].now
    ensures BumpsBetween(start, reqs, i, j) >= 0x4000 && BumpsBetween(start, reqs, i, j) % 0x4000 == 0
  {
    hide UuidAt;
    V1CollideIff(start, reqs, hw, uid, gid, i, j);
    if BumpsBetween(start, reqs, i, j) == 0 {
      NoBumpsIncrease(start, reqs, i, j);
    }
  }

  lemma {:induction false} BumpsGrow(start: Storage, reqs: seq<Request>, i: nat, j: nat, k: nat)
    requires i <= j <= k < |reqs|
    ensures BumpsBetween(start, reqs, i, j) <= BumpsBetween(start, reqs, i, k)
    ensures BumpsBetween(start, reqs, j, k) <= BumpsBetween(start, reqs, i, k)
    decreases k
  {
    if j < k {
      BumpsGrow(start, reqs, i, j, k - 1);
    } else if i < j {
      BumpsGrow(start, reqs, i, j - 1, k - 1);
    }
  }

  /** The version distinguishes the two kinds. */
  lemma VersionsDiffer(t1: nat, c1: nat, t2: nat, c2: nat, hw: seq<byte>, domain: byte, uid: nat, gid: nat)
    requires IsAddress(hw)
    ensures V1(t1, c1, hw) != V2(t2, c2, hw, domain, uid, gid)
  {
    assert V1(t1, c1, hw)[6] / 16 == 1;
    assert V2(t2, c2, hw, domain, uid, gid)[6] / 16 == 2;
  }

  /** A run with fewer than 2^14 bumps, version 2 calls interleaved or not, issues no version 1 UUID a
      second time, neither as version 1 nor as version 2. */
  lemma RunIsDistinct(start: Storage, reqs: seq<Request>, hw: seq<byte>, uid: nat, gid: nat, i: nat, j: nat)
    requires ValidStorage(start) && IsAddress(hw) && i < |reqs| && j < |reqs| && i != j && reqs[i].NewV1?
    requires forall k :: 0 <= k < |reqs| ==> reqs[k].now < 0x1000_0000_0000_0000
    requires BumpsBetween(start, reqs, 0, |reqs| - 1) < 0x4000
    ensures UuidAt(start, reqs, hw, uid, gid, i) != UuidAt(start, reqs, hw, uid, gid, j)
  {
    hide V1, V2, BumpsBetween;
    if reqs[j].NewV2? {
      VersionsDiffer(reqs[i].now, StorageBefore(start, reqs, i + 1).clockSequence,
                     reqs[j].now, StorageBefore(start, reqs, j + 1).clockSequence, hw, reqs[j].domain, uid, gid);
    } else {
      var first, second := if i < j then i else j, if i < j then j else i;
      BumpsGrow(start, reqs, 0, first, |reqs| - 1);
      BumpsGrow(start, reqs, first, second, |reqs| - 1);
      if UuidAt(start, reqs, hw, uid, gid, first) == UuidAt(start, reqs, hw, uid, gid, second) {
        CollisionNeedsManyBumps(start, reqs, hw, uid, gid, first, second);
      }
    }
  }

  // ----- The generator object -----

  class Generator {
    var lastTime: int
    var clockSequence: nat
    const hardwareAddr: seq<byte>
    const posixUid: nat
    const posixGid: nat

    ghost predicate Valid()
      reads this
    {
      ValidStorage(View()) && IsAddress(hardwareAddr)
    }

    ghost function View(): Storage
      reads this
    {
      Storage(lastTime, clockSequence)
    }

    /** The initial clock sequence is a random 16-bit number. */
    constructor (clock: nat, hw: seq<byte>, uid: nat, gid: nat)
      requires clock < 0x1_0000 && |hw| == 6
      ensures Valid() && View() == Storage(0, clock)
      ensures hardwareAddr == hw && posixUid == uid && posixGid == gid
    {
      lastTime, clockSequence := 0, clock;
      hardwareAddr, posixUid, posixGid := hw, uid, gid;
    }

    method GetStorage(timeNow: nat) returns (clock: nat)
      requires Valid()
      modifies this
      ensures Valid() && View() == Tick(old(View()), timeNow) && clock == clockSequence
    {
      if timeNow <= lastTime {
        clockSequence := (clockSequence + 1) % 0x1_0000;
      }
      lastTime := timeNow;
      clock := clockSequence;
    }

    method NewV1(timeNow: nat) returns (u: array<byte>)
      requires Valid()
      modifies this
      ensures Valid() && View() == Tick(old(View()), timeNow)
      ensures fresh(u) && u[..] == V1(timeNow, clockSequence, hardwareAddr)
    {
      hide BigEndian, V1;
      u := new byte[16](_ => 0);
      var clock := GetStorage(timeNow);
      PutBytes(u, 0, BigEndian(timeNow, 4));
      PutTimeAndClock(u, timeNow, clock);
      PutBytes(u, 10, hardwareAddr);
      assert u[..] == V1Fields(timeNow, clock, hardwareAddr);
      Stamp(u, 1);
      V1Unfold(timeNow, clock, hardwareAddr);
    }

    method NewV2(timeNow: nat, domain: byte) returns (u: array<byte>)
      requires Valid()
      modifies this
      ensures Valid() && View() == Tick(old(View()), timeNow)
      ensures fresh(u) && u[..] == V2(timeNow, clockSequence, hardwareAddr, domain, posixUid, posixGid)
    {
      hide BigEndian, V2, Tick, ValidStorage;
      u := new byte[16](_ => 0);
      var clock := GetStorage(timeNow);
      PutOwner(u, domain);
      ghost var low := u[..4];
      PutTimeAndClock(u, timeNow, clock);
      u[9] := domain;
      PutBytes(u, 10, hardwareAddr);
      assert u[..] == (low + BigEndian(timeNow / 0x1_0000_0000, 2) + BigEndian(timeNow / 0x1_0000_0000_0000, 2)
                       + BigEndian(clock, 2) + hardwareAddr)[9 := domain];
      Stamp(u, 2);
      V2Unfold(timeNow, clock, hardwareAddr, domain, posixUid, posixGid);
    }

    /** The POSIX id of the domain, in a field that is still zero. */
    method PutOwner(u: array<byte>, domain: byte)
      requires u.Length == 16 && forall k :: 0 <= k < 4 ==> u[k] == 0
      modifies u
      ensures u[..4] == BigEndian(if domain == 0 then posixUid else if domain == 1 then posixGid else 0, 4)
    {
      hide BigEndian;
      if domain == 0 {
        PutBytes(u, 0, BigEndian(posixUid, 4));
      } else if domain == 1 {
        PutBytes(u, 0, BigEndian(posixGid, 4));
      } else {
        ZeroField();
      }
    }
  }

  lemma V1Unfold(time: nat, clock: nat, hw: seq<byte>)
    requires IsAddress(hw)
    ensures V1(time, clock, hw) == Stamped(V1Fields(time, clock, hw), 1)
  {
  }

  lemma V2Unfold(time: nat, clock: nat, hw: seq<byte>, domain: byte, uid: nat, gid: nat)
    requires IsAddress(hw)
    ensures V2(time, clock, hw, domain, uid, gid)
         == Stamped((BigEndian(if domain == 0 then uid else if domain == 1 then gid else 0, 4)
                     + BigEndian(time / 0x1_0000_0000, 2)
                     + BigEndian(time / 0x1_0000_0000_0000, 2) + BigEndian(clock, 2) + hw)[9 := domain], 2)
  {
  }

  lemma ZeroField()
    ensures BigEndian(0, 4) == [0, 0, 0, 0]
  {
  }

  /** Copy bytes into the array from an index on. */
  method PutBytes(u: array<byte>, at: nat, bytes: seq<byte>)
    requires at + |bytes| <= u.Length
    modifies u
    ensures u[..] == old(u[..at]) + bytes + old(u[at + |bytes|..])
  {
    for k := 0 to |bytes|
      invariant u[..at] == old(u[..at]) && u[at..at + k] == bytes[..k]
      invariant u[at + k..] == old(u[at + k..])
    {
      u[at + k] := bytes[k];
      assert u[at..at + k + 1] == u[at..at + k] + [bytes[k]];
      assert u[at + k + 1..] == old(u[at + k..])[1..];
    }
    assert u[..] == u[..at] + u[at..at + |bytes|] + u[at + |bytes|..];
  }

  /** The middle of the layout: time middle, time high, clock sequence. */
  method PutTimeAndClock(u: array<byte>, time: nat, clock: nat)
    requires u.Length == 16
    modifies u
    ensures u[..] == old(u[..4]) + BigEndian(time / 0x1_0000_0000, 2) + BigEndian(time / 0x1_0000_0000_0000, 2)
                     + BigEndian(clock, 2) + old(u[10..])
  {
    hide BigEndian;
    PutBytes(u, 4, BigEndian(time / 0x1_0000_0000, 2));
    PutBytes(u, 6, BigEndian(time / 0x1_0000_0000_0000, 2));
    PutBytes(u, 8, BigEndian(clock, 2));
  }

  /** SetVersion, then SetVariant. */
  method Stamp(u: array<byte>, version: byte)
    requires u.Length == 16
    modifies u
    ensures u[..] == Stamped(old(u[..]), version)
  {
    u[6] := WithVersion(u[6], version);
    u[8] := WithVariant(u[8]);
  }
}
