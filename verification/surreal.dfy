/** The `surreal::DataBuf` byte codec (lib/surreal/surreal.hpp).

    Values are appended to, and popped from, a byte queue. The host is taken
    to be little-endian, so `htons`/`htonl` (and their `ntoh` inverses) are
    byte swaps. Every decoder returns the decoded value together with the
    bytes it did not consume, or `Truncated` where the source would pop an
    empty deque. */
module Surreal {
  import opened Wrappers

  type byte = bv8
  type Bytes = seq<byte>

  /** `Truncated`: the input ran out before the value was complete.
      `RangeError`: a stored element count exceeds the destination's size
      (the `std::range_error` of surreal.hpp:198). */
  datatype CodecError = Truncated | RangeError

  type Decoding<T> = Result<(T, Bytes), CodecError>

  /** One more than the largest value a `std::size_t` can hold. */
  const SizeBound: nat := 0x1_0000_0000_0000_0000

  /** True when `take` reads back exactly what `put` wrote, whatever follows. */
  ghost predicate Inverts<T(!new)>(put: T -> Bytes, take: Bytes -> Decoding<T>)
  {
    forall x: T, rest: Bytes {:trigger take(put(x) + rest)} :: take(put(x) + rest) == Ok((x, rest))
  }

  // ---------------------------------------------------------------- 1 byte

  /** A one-byte value is copied verbatim. */
  function Put8(v: byte): (r: Bytes)
    ensures |r| == 1 && r[0] == v
  {
    [v]
  }

  function Take8(s: Bytes): (r: Decoding<byte>)
    ensures r.Ok? <==> |s| >= 1
    ensures r.Ok? ==> r.value.0 == s[0] && r.value.1 == s[1..]
  {
    if |s| == 0 then Err(Truncated) else Ok((s[0], s[1..]))
  }

  /** `bool` has size one, so it takes the one-byte path: false is 0 and
      true is 1. Reading any non-zero byte back as true is this model's
      choice for the byte values C++ leaves undefined. */
  function PutBool(b: bool): (r: Bytes)
    ensures |r| == 1 && (r[0] == 0 <==> !b)
  {
    Put8(if b then 1 else 0)
  }

  function TakeBool(s: Bytes): (r: Decoding<bool>)
    ensures r.Ok? <==> |s| >= 1
    ensures r.Ok? ==> (r.value.0 <==> s[0] != 0) && r.value.1 == s[1..]
  {
    if |s| == 0 then Err(Truncated) else Ok((s[0] != 0, s[1..]))
  }

  // --------------------------------------------------------------- 2 bytes

  /** `htons`/`ntohs` on a little-endian host. */
  function Swap16(x: bv16): bv16
  {
    (x << 8) | (x >> 8)
  }

  /** `static_cast<uint8_t>` of a 16-bit value: keep the low byte. */
  function Low8Of16(x: bv16): byte
  {
    (x & 0xFF) as byte
  }

  /** The swapped value's low byte goes out first, then its high byte. */
  function Put16(v: bv16): (r: Bytes)
    ensures |r| == 2
    ensures r[0] as bv16 == v >> 8 && r[1] as bv16 == v & 0xFF
  {
    var t := Swap16(v);
    [Low8Of16(t), Low8Of16(t >> 8)]
  }

  lemma Swap16Gathered(b0: byte, b1: byte)
    ensures Swap16(b0 as bv16 | (b1 as bv16 << 8)) == (b0 as bv16 << 8) | b1 as bv16
  {
  }

  function Take16(s: Bytes): (r: Decoding<bv16>)
    ensures r.Ok? <==> |s| >= 2
    ensures r.Ok? ==> r.value.0 == (s[0] as bv16 << 8) | s[1] as bv16 && r.value.1 == s[2..]
  {
    if |s| < 2 then Err(Truncated)
    else
      var t := s[0] as bv16 | (s[1] as bv16 << 8);
      Swap16Gathered(s[0], s[1]);
      Ok((Swap16(t), s[2..]))
  }

  // --------------------------------------------------------------- 4 bytes

  /** `htonl`/`ntohl` on a little-endian host. */
  function Swap32(x: bv32): bv32
  {
    (x << 24) | ((x & 0xFF00) << 8) | ((x >> 8) & 0xFF00) | (x >> 24)
  }

  /** `static_cast<uint8_t>` of a 32-bit value. */
  function Low8Of32(x: bv32): byte
  {
    (x & 0xFF) as byte
  }

  /** `r` holds `v` in four bytes, most significant first. */
  ghost predicate BigEndian32(r: Bytes, v: bv32)
  {
    && |r| == 4
    && r[0] as bv32 == v >> 24 && r[1] as bv32 == (v >> 16) & 0xFF
    && r[2] as bv32 == (v >> 8) & 0xFF && r[3] as bv32 == v & 0xFF
  }

  /** The swapped value goes out low byte first: `tmp >> (8 * i)` for i = 0..3. */
  function Put32(v: bv32): (r: Bytes)
    ensures BigEndian32(r, v)
  {
    var t := Swap32(v);
    [Low8Of32(t), Low8Of32(t >> 8), Low8Of32(t >> 16), Low8Of32(t >> 24)]
  }

  /** The accumulation loop of the 32-bit decoder, `tmp |= byte << (8 * i)`,
      starting from `init`. */
  function Gather32(init: bv32, b0: byte, b1: byte, b2: byte, b3: byte): bv32
  {
    init | b0 as bv32 | (b1 as bv32 << 8) | (b2 as bv32 << 16) | (b3 as bv32 << 24)
  }

  /** The 32-bit decoder as written: `tmp` is never initialised, so the
      bytes are or-ed into whatever `garbage` it happens to hold. */
  function Take32Uninit(garbage: bv32, s: Bytes): (r: Decoding<bv32>)
    ensures r.Ok? <==> |s| >= 4
    ensures r.Ok? ==> r.value.1 == s[4..]
  {
    if |s| < 4 then Err(Truncated)
    else Ok((Swap32(Gather32(garbage, s[0], s[1], s[2], s[3])), s[4..]))
  }

  /** The 32-bit decoder as intended: the accumulator starts at zero. */
  function Take32(s: Bytes): (r: Decoding<bv32>)
    ensures r.Ok? <==> |s| >= 4
    ensures r.Ok? ==> r.value.1 == s[4..]
    ensures r.Ok? ==> r.value.0 == (s[0] as bv32 << 24) | (s[1] as bv32 << 16) | (s[2] as bv32 << 8) | s[3] as bv32
  {
    if |s| < 4 then Err(Truncated)
    else Ok((Swap32(Gather32(0, s[0], s[1], s[2], s[3])), s[4..]))
  }

  /** Counterexample for the uninitialised accumulator: a zero encoded by
      `Put32` reads back as 0x0100_0000 when `tmp` happened to hold 1. */
  lemma Take32UninitMisreadsZero()
    ensures Take32Uninit(1, Put32(0)) == Ok((0x0100_0000, []))
    ensures Take32(Put32(0)) == Ok((0, []))
  {
    assert Put32(0) + [] == Put32(0);
  }

  /** Any starting value other than zero corrupts some encoded value. */
  lemma {:induction false} Take32UninitWrongUnlessZero(garbage: bv32)
    requires garbage != 0
    ensures exists v: bv32 :: Take32Uninit(garbage, Put32(v)) != Ok((v, []))
  {
    assert Put32(0) + [] == Put32(0);
    assert Take32Uninit(garbage, Put32(0)).value.0 == Swap32(garbage);
    assert Take32Uninit(garbage, Put32(0)) != Ok((0, []));
  }

  // --------------------------------------------------------------- 8 bytes

  /** `r` holds `v` in eight bytes: its high half, then its low half, each
      most significant byte first. */
  ghost predicate BigEndian64(r: Bytes, v: bv64)
  {
    |r| == 8 && BigEndian32(r[..4], High32(v)) && BigEndian32(r[4..], Low32(v))
  }

  function High32(v: bv64): bv32
  {
    (v >> 32) as bv32
  }

  /** `std::uint32_t low = tmp;` truncates to the low half. */
  function Low32(v: bv64): bv32
  {
    (v & 0xFFFF_FFFF) as bv32
  }

  /** A 64-bit value is written as its high 32-bit half, then its low half. */
  function Put64(v: bv64): (r: Bytes)
    ensures BigEndian64(r, v)
  {
    var r := Put32(High32(v)) + Put32(Low32(v));
    assert r[..4] == Put32(High32(v)) && r[4..] == Put32(Low32(v));
    r
  }

  /** Reads the high half, then the low half, and joins them. */
  function Take64(s: Bytes): (r: Decoding<bv64>)
    ensures r.Ok? <==> |s| >= 8
    ensures r.Ok? ==> r.value.1 == s[8..] && BigEndian64(s[..8], r.value.0)
  {
    match Take32(s)
    case Err(e) => Err(e)
    case Ok((high, s1)) =>
      match Take32(s1)
      case Err(e) => Err(e)
      case Ok((low, s2)) =>
        Take64Halves(s, high, low);
        Ok(((high as bv64 << 32) | low as bv64, s2))
  }

  /** The bytes a 32-bit read consumed are the big-endian form of its value. */
  lemma Take32Bytes(s: Bytes)
    requires |s| >= 4
    ensures BigEndian32(s[..4], Take32(s).value.0)
  {
    Split32(s[0], s[1], s[2], s[3]);
  }

  lemma Split32(b0: byte, b1: byte, b2: byte, b3: byte)
    ensures var v := (b0 as bv32 << 24) | (b1 as bv32 << 16) | (b2 as bv32 << 8) | b3 as bv32;
      b0 as bv32 == v >> 24 && b1 as bv32 == (v >> 16) & 0xFF
      && b2 as bv32 == (v >> 8) & 0xFF && b3 as bv32 == v & 0xFF
  {
  }

  lemma Take64Halves(s: Bytes, high: bv32, low: bv32)
    requires |s| >= 8 && Take32(s).Ok? && Take32(s[4..]).Ok?
    requires high == Take32(s).value.0 && low == Take32(s[4..]).value.0
    ensures BigEndian64(s[..8], (high as bv64 << 32) | low as bv64)
  {
    Split64(high, low);
    Take32Bytes(s);
    Take32Bytes(s[4..]);
    assert s[..8][..4] == s[..4] && s[..8][4..] == s[4..][..4];
  }

  /** The unsigned number that a byte string spells, most significant byte
      first. */
  function BeValue(s: Bytes): nat
  {
    if |s| == 0 then 0 else BeValue(s[..|s| - 1]) * 256 + s[|s| - 1] as nat
  }

  function Pow256(k: nat): nat
  {
    if k == 0 then 1 else 256 * Pow256(k - 1)
  }

  /** The `k` low base-256 digits of `x`, most significant first. */
  function BeDigits(x: nat, k: nat): (r: Bytes)
    ensures |r| == k
  {
    if k == 0 then [] else BeDigits(x / 256, k - 1) + [ByteOf(x % 256)]
  }

  /** A `std::size_t` element count. It goes through the 64-bit path, so it
      is eight bytes, most significant first (`SizeIsPut64` below). A
      `std::size_t` holds the count modulo 2^64; no object the program can
      build reaches that bound. */
  function PutSize(n: nat): (r: Bytes)
    ensures |r| == 8 && BeValue(r) == n % SizeBound
  {
    DigitsValue(n % SizeBound, 8);
    BeDigits(n % SizeBound, 8)
  }

  function TakeSize(s: Bytes): (r: Decoding<nat>)
    ensures r.Ok? <==> |s| >= 8
    ensures r.Ok? ==> r.value.0 < SizeBound && r.value.1 == s[8..]
  {
    if |s| < 8 then Err(Truncated)
    else
      ValueBound(s[..8]);
      Ok((BeValue(s[..8]), s[8..]))
  }

  lemma {:induction false} ValueBound(s: Bytes)
    ensures BeValue(s) < Pow256(|s|)
  {
    if |s| > 0 {
      ValueBound(s[..|s| - 1]);
    }
  }

  /** Dropping the last base-256 digit. */
  lemma DivideDigit(x: nat, k: nat)
    requires 0 < k && x < Pow256(k)
    ensures x == (x / 256) * 256 + x % 256 && x / 256 < Pow256(k - 1)
  {
  }

  /** The byte whose value is `m`, counted up from zero so that its value
      is known without converting an integer to a bit-vector. */
  function ByteOf(m: nat): (b: byte)
    requires m < 256
    ensures b as nat == m
  {
    if m == 0 then 0 else ByteSucc(ByteOf(m - 1)); ByteOf(m - 1) + 1
  }

  lemma ByteSucc(b: byte)
    requires b as nat < 255
    ensures (b + 1) as nat == b as nat + 1
  {
  }

  lemma ByteOfValue(b: byte)
    ensures ByteOf(b as nat) == b
  {
    var c := ByteOf(b as nat);
    assert (c as int) as byte == c && (b as int) as byte == b;
  }

  lemma {:induction false} DigitsValue(x: nat, k: nat)
    requires x < Pow256(k)
    ensures BeValue(BeDigits(x, k)) == x
  {
    if k > 0 {
      DivideDigit(x, k);
      DigitsValue(x / 256, k - 1);
      LastDigit(x, k);
    }
  }

  /** The last digit written is the remainder; the ones before it spell the
      quotient. */
  lemma LastDigit(x: nat, k: nat)
    requires 0 < k
    ensures BeValue(BeDigits(x, k)) == BeValue(BeDigits(x / 256, k - 1)) * 256 + x % 256
  {
    var r := BeDigits(x, k);
    assert r[..k - 1] == BeDigits(x / 256, k - 1) && r[k - 1] == ByteOf(x % 256);
  }

  lemma {:induction false} ValueDigits(s: Bytes)
    ensures BeDigits(BeValue(s), |s|) == s
  {
    if |s| > 0 {
      var init, last := s[..|s| - 1], s[|s| - 1];
      var v := BeValue(s);
      assert v / 256 == BeValue(init) && v % 256 == last as nat;
      ValueDigits(init);
      ByteOfValue(last);
      assert init + [last] == s;
    }
  }

  // ---------------------------------------------------- fixed-width round trips

  /** Decoding what `Put8` wrote returns the byte and exactly what followed. */
  lemma {:induction false} RoundTrip8(v: byte, rest: Bytes)
    ensures Take8(Put8(v) + rest) == Ok((v, rest))
  {
    assert (Put8(v) + rest)[1..] == rest;
  }

  lemma {:induction false} RoundTripBool(b: bool, rest: Bytes)
    ensures TakeBool(PutBool(b) + rest) == Ok((b, rest))
  {
    assert (PutBool(b) + rest)[1..] == rest;
  }

  lemma {:induction false} RoundTrip16(v: bv16, rest: Bytes)
    ensures Take16(Put16(v) + rest) == Ok((v, rest))
  {
    var e := Put16(v);
    var s := e + rest;
    assert s[0] == e[0] && s[1] == e[1] && s[2..] == rest;
    Join16(v, e[0], e[1]);
  }

  lemma Join16(v: bv16, b0: byte, b1: byte)
    requires b0 as bv16 == v >> 8 && b1 as bv16 == v & 0xFF
    ensures (b0 as bv16 << 8) | b1 as bv16 == v
  {
  }

  /** Every two-byte prefix is the encoding of the value it decodes to. */
  lemma {:induction false} Take16Exact(s: Bytes)
    requires |s| >= 2
    ensures Take16(s).Ok? && Put16(Take16(s).value.0) + Take16(s).value.1 == s
  {
    var (v, rest) := Take16(s).value;
    var e := Put16(v);
    assert e[0] == s[0] && e[1] == s[1];
    assert e + rest == s;
  }

  lemma {:induction false} RoundTrip32(v: bv32, rest: Bytes)
    ensures Take32(Put32(v) + rest) == Ok((v, rest))
  {
    var e := Put32(v);
    var s := e + rest;
    assert s[0] == e[0] && s[1] == e[1] && s[2] == e[2] && s[3] == e[3];
    assert s[4..] == rest;
    Join32(v, e[0], e[1], e[2], e[3]);
  }

  lemma Join32(v: bv32, b0: byte, b1: byte, b2: byte, b3: byte)
    requires b0 as bv32 == v >> 24 && b1 as bv32 == (v >> 16) & 0xFF
    requires b2 as bv32 == (v >> 8) & 0xFF && b3 as bv32 == v & 0xFF
    ensures (b0 as bv32 << 24) | (b1 as bv32 << 16) | (b2 as bv32 << 8) | b3 as bv32 == v
  {
  }

  lemma {:induction false} Take32Exact(s: Bytes)
    requires |s| >= 4
    ensures Take32(s).Ok? && Put32(Take32(s).value.0) + Take32(s).value.1 == s
  {
    var (v, rest) := Take32(s).value;
    Take32Bytes(s);
    BigEndian32Unique(Put32(v), s[..4], v);
    assert s[..4] + rest == s;
  }

  /** Only one four-byte string holds a given value. */
  lemma BigEndian32Unique(a: Bytes, b: Bytes, v: bv32)
    requires BigEndian32(a, v) && BigEndian32(b, v)
    ensures a == b
  {
    assert a[0] == b[0] && a[1] == b[1] && a[2] == b[2] && a[3] == b[3];
  }

  lemma {:induction false} RoundTrip64(v: bv64, rest: Bytes)
    ensures Take64(Put64(v) + rest) == Ok((v, rest))
  {
    var hi, lo := Put32(High32(v)), Put32(Low32(v));
    assert Put64(v) + rest == hi + (lo + rest);
    RoundTrip32(High32(v), lo + rest);
    RoundTrip32(Low32(v), rest);
    Join64(v);
  }

  lemma Join64(v: bv64)
    ensures (High32(v) as bv64 << 32) | Low32(v) as bv64 == v
  {
  }

  lemma Split64(high: bv32, low: bv32)
    ensures High32((high as bv64 << 32) | low as bv64) == high
    ensures Low32((high as bv64 << 32) | low as bv64) == low
  {
  }

  lemma {:induction false} Take64Exact(s: Bytes)
    requires |s| >= 8
    ensures Take64(s).Ok? && Put64(Take64(s).value.0) + Take64(s).value.1 == s
  {
    var (v, rest) := Take64(s).value;
    var e, t := Put64(v), s[..8];
    BigEndian32Unique(e[..4], t[..4], High32(v));
    BigEndian32Unique(e[4..], t[4..], Low32(v));
    assert e == e[..4] + e[4..] && t == t[..4] + t[4..];
    assert t + rest == s;
  }

  lemma {:induction false} RoundTripSize(n: nat, rest: Bytes)
    requires n < SizeBound
    ensures TakeSize(PutSize(n) + rest) == Ok((n, rest))
  {
    var e := PutSize(n);
    assert (e + rest)[..8] == e && (e + rest)[8..] == rest;
  }

  lemma {:induction false} TakeSizeExact(s: Bytes)
    requires |s| >= 8
    ensures TakeSize(s).Ok? && PutSize(TakeSize(s).value.0) + TakeSize(s).value.1 == s
  {
    ValueDigits(s[..8]);
    assert s[..8] + s[8..] == s;
  }

  /** Reading a count looks only at its own eight bytes. */
  lemma TakeSizeAppend(a: Bytes, b: Bytes)
    requires |a| >= 8
    ensures TakeSize(a + b) == Ok((TakeSize(a).value.0, TakeSize(a).value.1 + b))
  {
    assert (a + b)[..8] == a[..8];
    assert (a + b)[8..] == a[8..] + b;
  }

  /** A count is encoded exactly as the 64-bit path encodes the same
      quantity: every `Put64` output is the `PutSize` of the count it reads
      as, and every `PutSize` output is the `Put64` of the value it reads as. */
  lemma {:induction false} SizeIsPut64(v: bv64, n: nat)
    requires n < SizeBound
    ensures TakeSize(Put64(v)).Ok? && PutSize(TakeSize(Put64(v)).value.0) == Put64(v)
    ensures Take64(PutSize(n)).Ok? && Put64(Take64(PutSize(n)).value.0) == PutSize(n)
  {
    TakeSizeExact(Put64(v));
    assert Put64(v)[8..] == [];
    Take64Exact(PutSize(n));
    assert PutSize(n)[8..] == [];
  }

  // ----------------------------------------------------------- sized ranges

  /** Each element's encoding, in iteration order. */
  function PutAll<T>(xs: seq<T>, put: T -> Bytes): Bytes
  {
    if |xs| == 0 then [] else put(xs[0]) + PutAll(xs[1..], put)
  }

  /** A sized range (string, vector): its element count as a `std::size_t`,
      then every element. */
  function PutRange<T>(xs: seq<T>, put: T -> Bytes): (r: Bytes)
    ensures |r| >= 8 && r[8..] == PutAll(xs, put)
    ensures |xs| < SizeBound ==> TakeSize(r) == Ok((|xs|, PutAll(xs, put)))
  {
    var r := PutSize(|xs|) + PutAll(xs, put);
    if |xs| < SizeBound then RoundTripSize(|xs|, PutAll(xs, put)); r else r
  }

  /** Decodes `n` elements one after another. */
  function TakeN<T>(n: nat, take: Bytes -> Decoding<T>, s: Bytes): (r: Decoding<seq<T>>)
    ensures r.Ok? ==> |r.value.0| == n
    decreases n
  {
    if n == 0 then Ok(([], s))
    else
      match take(s)
      case Err(e) => Err(e)
      case Ok((x, s1)) =>
        match TakeN(n - 1, take, s1)
        case Err(e) => Err(e)
        case Ok((xs, s2)) => Ok(([x] + xs, s2))
  }

  /** Range decoding as written: the destination already holds `slots`
      elements; a stored count larger than that is a range error, and
      otherwise exactly `slots` elements are decoded, whatever the count. */
  function TakeRangeInto<T>(slots: nat, take: Bytes -> Decoding<T>, s: Bytes): (r: Decoding<seq<T>>)
    ensures TakeSize(s).Ok? && TakeSize(s).value.0 > slots ==> r == Err(RangeError)
    ensures TakeSize(s).Err? ==> r == Err(Truncated)
    ensures r.Ok? ==> |r.value.0| == slots
  {
    match TakeSize(s)
    case Err(e) => Err(e)
    case Ok((count, s1)) =>
      if count > slots then Err(RangeError) else TakeN(slots, take, s1)
  }

  /** Range decoding as intended: the destination is sized to the stored
      count before the elements are read. */
  function TakeRange<T>(take: Bytes -> Decoding<T>, s: Bytes): (r: Decoding<seq<T>>)
    ensures TakeSize(s).Err? ==> r == Err(Truncated)
    ensures r.Ok? ==> |r.value.0| == TakeSize(s).value.0
  {
    match TakeSize(s)
    case Err(e) => Err(e)
    case Ok((count, s1)) => TakeN(count, take, s1)
  }

  lemma {:induction false} TakeNPutAll<T(!new)>(xs: seq<T>, put: T -> Bytes, take: Bytes -> Decoding<T>, rest: Bytes)
    requires Inverts(put, take)
    ensures TakeN(|xs|, take, PutAll(xs, put) + rest) == Ok((xs, rest))
    decreases |xs|
  {
    if |xs| > 0 {
      var tail := PutAll(xs[1..], put) + rest;
      assert PutAll(xs, put) + rest == put(xs[0]) + tail;
      assert take(put(xs[0]) + tail) == Ok((xs[0], tail));
      TakeNPutAll(xs[1..], put, take, rest);
      assert [xs[0]] + xs[1..] == xs;
    } else {
      assert PutAll(xs, put) + rest == rest;
    }
  }

  /** A sized range reads back exactly, whatever follows it. */
  lemma {:induction false} RoundTripRange<T(!new)>(xs: seq<T>, put: T -> Bytes, take: Bytes -> Decoding<T>, rest: Bytes)
    requires |xs| < SizeBound
    requires Inverts(put, take)
    ensures TakeRange(take, PutRange(xs, put) + rest) == Ok((xs, rest))
  {
    var body := PutAll(xs, put) + rest;
    assert PutRange(xs, put) + rest == PutSize(|xs|) + body;
    RoundTripSize(|xs|, body);
    TakeNPutAll(xs, put, take, rest);
  }

  /** Concatenation regroups. */
  lemma ConcatAssoc(a: Bytes, b: Bytes, c: Bytes)
    ensures (a + b) + c == a + (b + c)
  {
  }

  /** A decoder that reads only what its encoder writes: every input it
      accepts is the encoding of the value it returns, followed by the rest
      it returns. */
  ghost predicate Exact<T>(put: T -> Bytes, take: Bytes -> Decoding<T>)
  {
    forall s: Bytes :: take(s).Ok? ==> put(take(s).value.0) + take(s).value.1 == s
  }

  lemma {:induction false} TakeNExact<T>(n: nat, put: T -> Bytes, take: Bytes -> Decoding<T>, s: Bytes)
    requires Exact(put, take)
    ensures TakeN(n, take, s).Ok? ==> PutAll(TakeN(n, take, s).value.0, put) + TakeN(n, take, s).value.1 == s
    decreases n
  {
    if n > 0 && TakeN(n, take, s).Ok? {
      var (x, s1) := take(s).value;
      TakeNExact(n - 1, put, take, s1);
      var (xs, s2) := TakeN(n - 1, take, s1).value;
      assert ([x] + xs)[0] == x && ([x] + xs)[1..] == xs;
      assert put(x) + PutAll(xs, put) + s2 == put(x) + (PutAll(xs, put) + s2);
    }
  }

  /** The corrected range decoder reads only a whole encoded range: what it
      accepts is the count, the elements' encodings and the rest. */
  lemma {:induction false} TakeRangeExact<T>(put: T -> Bytes, take: Bytes -> Decoding<T>, s: Bytes)
    requires Exact(put, take)
    ensures TakeRange(take, s).Ok? ==> PutRange(TakeRange(take, s).value.0, put) + TakeRange(take, s).value.1 == s
  {
    if TakeRange(take, s).Ok? {
      TakeSizeExact(s);
      var (n, s1) := TakeSize(s).value;
      TakeNExact(n, put, take, s1);
      var (xs, rest) := TakeN(n, take, s1).value;
      assert PutSize(n) + PutAll(xs, put) + rest == PutSize(n) + (PutAll(xs, put) + rest);
    }
  }

  /** As written, a destination pre-sized to the stored count round-trips. */
  lemma {:induction false} PresizedRoundTrip<T(!new)>(xs: seq<T>, put: T -> Bytes, take: Bytes -> Decoding<T>, rest: Bytes)
    requires |xs| < SizeBound
    requires Inverts(put, take)
    ensures TakeRangeInto(|xs|, take, PutRange(xs, put) + rest) == Ok((xs, rest))
  {
    var body := PutAll(xs, put) + rest;
    assert PutRange(xs, put) + rest == PutSize(|xs|) + body;
    RoundTripSize(|xs|, body);
    TakeNPutAll(xs, put, take, rest);
  }

  /** As written, a default-constructed (empty) destination rejects every
      non-empty stored range. */
  lemma {:induction false} EmptyDestinationRejects<T>(xs: seq<T>, put: T -> Bytes, take: Bytes -> Decoding<T>, rest: Bytes)
    requires 0 < |xs| < SizeBound
    ensures TakeRangeInto(0, take, PutRange(xs, put) + rest) == Err(RangeError)
  {
    var body := PutAll(xs, put) + rest;
    assert PutRange(xs, put) + rest == PutSize(|xs|) + body;
    RoundTripSize(|xs|, body);
  }

  /** The intended decoder is the written one with a destination of the
      stored size. */
  lemma {:induction false} TakeRangeIsPresized<T>(take: Bytes -> Decoding<T>, s: Bytes)
    requires TakeSize(s).Ok?
    ensures TakeRange(take, s) == TakeRangeInto(TakeSize(s).value.0, take, s)
  {
  }

  // ------------------------------------------------------------ byte strings

  /** `Put8` and `Take8` are inverse element codecs. */
  lemma Put8Inverts()
    ensures Inverts(Put8, Take8)
  {
    forall x: byte, rest: Bytes
      ensures Take8(Put8(x) + rest) == Ok((x, rest))
    {
      RoundTrip8(x, rest);
    }
  }

  /** A `std::string` or `std::vector` of one-byte elements. */
  function PutText(t: Bytes): (r: Bytes)
    ensures |r| == 8 + |t| && r[8..] == t
    ensures |t| < SizeBound ==> TakeSize(r) == Ok((|t|, t))
  {
    AllBytes(t);
    PutRange(t, Put8)
  }

  function TakeText(s: Bytes): (r: Decoding<Bytes>)
    ensures TakeSize(s).Err? ==> r == Err(Truncated)
    ensures r.Ok? ==> |r.value.0| == TakeSize(s).value.0
    ensures r.Ok? ==> PutText(r.value.0) + r.value.1 == s
  {
    Put8Exact();
    TakeRangeExact(Put8, Take8, s);
    TakeRange(Take8, s)
  }

  /** The byte decoder reads back exactly the byte it took. */
  lemma Put8Exact()
    ensures Exact(Put8, Take8)
  {
    forall s: Bytes | Take8(s).Ok?
      ensures Put8(Take8(s).value.0) + Take8(s).value.1 == s
    {
      assert [s[0]] + s[1..] == s;
    }
  }

  /** One-byte elements encode to themselves. */
  lemma {:induction false} AllBytes(t: Bytes)
    ensures PutAll(t, Put8) == t
  {
    if |t| > 0 {
      AllBytes(t[1..]);
      assert [t[0]] + t[1..] == t;
    }
  }

  lemma {:induction false} RoundTripText(t: Bytes, rest: Bytes)
    requires |t| < SizeBound
    ensures TakeText(PutText(t) + rest) == Ok((t, rest))
  {
    Put8Inverts();
    RoundTripRange(t, Put8, Take8, rest);
  }
}
