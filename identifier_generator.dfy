/** The identifier generator singleton (Kademlia/Helpers/IdentifierGenerator.cs
    and its older copy csharp/Kademlia/Helpers/IdentifierGenerator.cs).

    The cryptographic random source is modelled as a finite tape of bytes that
    the generator owns: `GetBytes` hands out the next bytes of the tape. The
    source's rejection loops never stop while draws keep being rejected; here a
    draw that finds the tape too short ends the operation with
    `RandomExhausted`, which bounds every loop by the length of the tape. */
module IdentifierGeneration {
  import opened Identifiers
  import opened Wrappers
  import opened ListOps
  import Constants

  /** A byte, as the value 0..255 it holds. */
  type Byte = x: int | 0 <= x < 256

  /** a & b on non-negative integers, bit by bit from the least significant
      bit. */
  function BitAnd(a: nat, b: nat): (r: nat)
    ensures r <= a && r <= b
    decreases a
  {
    if a == 0 || b == 0 then 0
    else 2 * BitAnd(a / 2, b / 2) + (if a % 2 == 1 && b % 2 == 1 then 1 else 0)
  }

  /** x >> n: n halvings, each dropping the least significant bit. */
  function ShiftRight(x: nat, n: nat): (r: nat)
    ensures r <= x
  {
    if n == 0 then x else ShiftRight(x / 2, n - 1)
  }

  // ---------------------------------------------------------------------------
  // BigInteger and its byte arrays
  // ---------------------------------------------------------------------------

  /** 256^n, the weight of byte n of a little-endian buffer. */
  function Pow256(n: nat): (r: nat)
    ensures r >= 1
  {
    if n == 0 then 1 else 256 * Pow256(n - 1)
  }

  /** The unsigned value of a little-endian byte buffer. */
  function LittleEndian(b: seq<Byte>): nat
  {
    if b == [] then 0 else b[0] as nat + 256 * LittleEndian(b[1..])
  }

  /** n bytes hold values below 256^n. */
  lemma {:induction false} LittleEndianBound(b: seq<Byte>)
    ensures LittleEndian(b) < Pow256(|b|)
  {
    if b != [] {
      LittleEndianBound(b[1..]);
    }
  }

  /** Appending a most significant byte x adds x * 256^|b|. */
  lemma {:induction false} LittleEndianSnoc(b: seq<Byte>, x: Byte)
    ensures LittleEndian(b + [x]) == LittleEndian(b) + Pow256(|b|) * x
  {
    if b != [] {
      assert (b + [x])[1..] == b[1..] + [x];
      LittleEndianSnoc(b[1..], x);
      var p := Pow256(|b| - 1);
      var t := LittleEndian(b[1..]);
      Distrib(t, p, x);
    }
  }

  lemma Distrib(t: int, p: int, x: int)
    ensures 256 * (t + p * x) == 256 * t + (256 * p) * x
  {
  }

  /** The shortest little-endian unsigned encoding of v (at least one byte). */
  function Magnitude(v: nat): (b: seq<Byte>)
    ensures |b| >= 1 && LittleEndian(b) == v
    ensures |b| > 1 ==> b[|b| - 1] != 0
  {
    if v < 256 then
      [v]
    else
      var rest := Magnitude(v / 256);
      var low: Byte := v % 256;
      assert ([low] + rest)[1..] == rest;
      [low] + rest
  }

  lemma {:induction false} Pow2Add(a: nat, b: nat)
    ensures Pow2(a + b) == Pow2(a) * Pow2(b)
    decreases b
  {
    if b > 0 {
      Pow2Add(a, b - 1);
    }
  }

  lemma Pow2Byte()
    ensures Pow2(0) == 1 && Pow2(1) == 2 && Pow2(2) == 4 && Pow2(3) == 8 && Pow2(4) == 16
    ensures Pow2(5) == 32 && Pow2(6) == 64 && Pow2(7) == 128 && Pow2(8) == 256
  {
  }

  /** 256^k is 2^(8k). */
  lemma {:induction false} Pow256IsPow2(k: nat)
    ensures Pow256(k) == Pow2(8 * k)
  {
    if k > 0 {
      Pow256IsPow2(k - 1);
      Pow2Add(8 * (k - 1), 8);
      Pow2Byte();
    }
  }

  lemma MulMono(a: nat, x: nat, y: nat)
    requires x <= y
    ensures a * x <= a * y
  {
  }

  lemma ByteBelow(b: Byte)
    ensures b < Pow2(8)
  {
    Pow2Byte();
  }

  /** A buffer is its lower bytes plus its most significant byte times 256^(n-1). */
  lemma TopByteSplit(b: seq<Byte>)
    requires |b| >= 1
    ensures LittleEndian(b) == LittleEndian(b[..|b| - 1]) + Pow256(|b| - 1) * b[|b| - 1]
    ensures LittleEndian(b[..|b| - 1]) < Pow256(|b| - 1)
  {
    assert b == b[..|b| - 1] + [b[|b| - 1]];
    LittleEndianSnoc(b[..|b| - 1], b[|b| - 1]);
    LittleEndianBound(b[..|b| - 1]);
  }

  /** new BigInteger(byte[]): little-endian two's complement. */
  function FromBytes(b: seq<Byte>): int
  {
    if |b| > 0 && b[|b| - 1] >= 0x80 then LittleEndian(b) - Pow256(|b|) else LittleEndian(b)
  }

  /** BigInteger.ToByteArray of a non-negative value: the shortest little-endian
      two's complement encoding, with a zero byte added when the top bit of the
      magnitude is set (so the sign bit of the last byte is always clear). */
  function ToByteArray(v: nat): (b: seq<Byte>)
    ensures |b| >= 1 && b[|b| - 1] < 0x80
    ensures LittleEndian(b) == v
    ensures |b| > 1 && b[|b| - 1] == 0 ==> b[|b| - 2] >= 0x80
  {
    var m := Magnitude(v);
    if m[|m| - 1] >= 0x80 then
      LittleEndianSnoc(m, 0);
      m + [0]
    else m
  }

  /** Encoding and decoding are inverse: new BigInteger(v.ToByteArray()) == v. */
  lemma ByteArrayRoundTrip(v: nat)
    ensures FromBytes(ToByteArray(v)) == v
  {
  }

  // ---------------------------------------------------------------------------
  // The mask of GetRandomInRangeFromZeroTo
  // ---------------------------------------------------------------------------

  /** Bit i of b, as `(b & (1 << i)) != 0` tests it. */
  predicate HasBit(b: Byte, i: nat)
    requires i < 8
  {
    BitAnd(b, Pow2(i)) != 0
  }

  /** Below 2^(i+1), b & 2^i is 2^i exactly when b reaches 2^i. */
  lemma {:induction false} BitAndTopBit(b: nat, i: nat)
    requires b < Pow2(i + 1)
    ensures BitAnd(b, Pow2(i)) == if b >= Pow2(i) then Pow2(i) else 0
  {
    if i > 0 && b > 0 {
      var p := Pow2(i - 1);
      assert Pow2(i) == 2 * p && Pow2(i + 1) == 4 * p;
      Halve(b, p);
      BitAndTopBit(b / 2, i - 1);
      assert BitAnd(b, 2 * p) == 2 * BitAnd(b / 2, p);
    }
  }

  lemma Halve(b: nat, p: nat)
    requires 0 < p && b < 4 * p
    ensures b / 2 < 2 * p && (b / 2 >= p <==> b >= 2 * p)
    ensures (2 * p) / 2 == p && (2 * p) % 2 == 0
  {
  }

  /** While scanning from the top, bit i is the first set bit exactly when b reaches 2^i. */
  lemma BitTest(b: Byte, i: nat)
    requires i < 8 && b < Pow2(i + 1)
    ensures HasBit(b, i) <==> b >= Pow2(i)
  {
    BitAndTopBit(b, i);
  }

  /** `0b11111111 >> (7 - i)` keeps the bits 0..i. */
  lemma ShiftMask(i: nat)
    requires i < 8
    ensures ShiftRight(255, 7 - i) == Pow2(i + 1) - 1
  {
    Pow2Byte();
    if i == 0 {} else if i == 1 {} else if i == 2 {} else if i == 3 {}
    else if i == 4 {} else if i == 5 {} else if i == 6 {} else {}
  }

  /** The mask for the most significant byte of max: every bit up to its
      highest set bit, or no bit at all when the byte is zero. */
  function MaskFor(msb: Byte): (mask: Byte)
    ensures msb == 0 ==> mask == 0
    ensures msb != 0 ==> mask + 1 == Pow2(FloorLog2(msb) + 1)
  {
    if msb == 0 then 0
    else
      ByteBelow(msb);
      FloorLog2Below(msb, 8);
      ShiftMask(FloorLog2(msb));
      ShiftRight(255, 7 - FloorLog2(msb))
  }

  lemma MaskAt(msb: Byte, i: nat)
    requires i < 8 && Pow2(i) <= msb < Pow2(i + 1)
    ensures MaskFor(msb) == ShiftRight(255, 7 - i)
  {
    FloorLog2Unique(msb, i);
  }

  /** The bit scan of GetRandomInRangeFromZeroTo, from bit 7 down to bit 0,
      stopping at the first set bit. */
  method ZeroBitsMask(msb: Byte) returns (mask: Byte)
    ensures mask == MaskFor(msb)
  {
    ByteBelow(msb);
    mask := 0;
    var i: int := 7;
    while i >= 0
      invariant -1 <= i <= 7
      invariant msb < Pow2(i + 1)
    {
      BitTest(msb, i);
      if HasBit(msb, i) {
        mask := ShiftRight(255, 7 - i);
        MaskAt(msb, i);
        return;
      }
      i := i - 1;
    }
  }

  /** The mask is below twice the byte it was built from. */
  lemma MaskBound(msb: Byte)
    requires msb != 0
    ensures Pow2(FloorLog2(msb)) <= msb
    ensures MaskFor(msb) + 1 <= 2 * msb
  {
  }

  // ---------------------------------------------------------------------------
  // Rejection sampling
  // ---------------------------------------------------------------------------

  /** The draw with the mask applied to its most significant byte. */
  function Masked(draw: seq<Byte>, mask: Byte): (e: seq<Byte>)
    requires |draw| >= 1
    ensures |e| == |draw| && e[..|e| - 1] == draw[..|draw| - 1]
    ensures e[|e| - 1] == BitAnd(draw[|draw| - 1], mask)
  {
    draw[..|draw| - 1] + [BitAnd(draw[|draw| - 1], mask)]
  }

  lemma MaskedIs(e: seq<Byte>, draw: seq<Byte>, mask: Byte)
    requires |e| == |draw| >= 1
    requires e[..|e| - 1] == draw[..|draw| - 1] && e[|e| - 1] == BitAnd(draw[|draw| - 1], mask)
    ensures e == Masked(draw, mask)
  {
    assert e == e[..|e| - 1] + [e[|e| - 1]];
  }

  /** The number of bits of max: the smallest b with max < 2^b. */
  function BitLength(max: nat): (b: nat)
    ensures max < Pow2(b)
    ensures b > 0 ==> Pow2(b - 1) <= max
  {
    if max == 0 then 0 else FloorLog2(max) + 1
  }

  /** Every masked candidate is below 256^(n-1) * (mask + 1). */
  ghost function CandidateLimit(max: nat): nat
  {
    var b := ToByteArray(max);
    var p := Pow256(|b| - 1);
    var mask1 := MaskFor(b[|b| - 1]) + 1;
    ProductNat(p, mask1);
    p * mask1
  }

  lemma ProductNat(p: nat, q: nat)
    ensures p * q >= 0
  {
  }

  lemma MulSucc(p: nat, x: nat)
    ensures p * (x + 1) == p * x + p
    ensures p * (2 * x) == 2 * (p * x)
  {
  }

  /** The shape of CandidateLimit(max) as a product over max's byte array. */
  lemma CandidateLimitParts(max: nat) returns (b: seq<Byte>, p: nat, low: nat, mask1: nat)
    ensures b == ToByteArray(max) && p == Pow256(|b| - 1) && mask1 == MaskFor(b[|b| - 1]) + 1
    ensures CandidateLimit(max) == p * mask1
    ensures max == low + p * b[|b| - 1] && low == LittleEndian(b[..|b| - 1]) && low < p
  {
    b := ToByteArray(max);
    p := Pow256(|b| - 1);
    mask1 := MaskFor(b[|b| - 1]) + 1;
    low := LittleEndian(b[..|b| - 1]);
    TopByteSplit(b);
  }

  /** low + p * top stays below p * bound when low < p and top < bound. */
  lemma BelowProduct(low: nat, p: nat, top: nat, bound: nat)
    requires low < p && top < bound
    ensures low + p * top < p * bound
  {
    MulMono(p, top + 1, bound);
    MulSucc(p, top);
  }

  /** The candidate space covers [0, max] and is at most about twice as large,
      so a draw is accepted with probability above one half. */
  lemma CandidateLimitCovers(max: nat)
    ensures max < CandidateLimit(max) <= 2 * max + 1
  {
    var b, p, low, mask1 := CandidateLimitParts(max);
    var msb := b[|b| - 1];
    if msb == 0 {
      assert mask1 == 1 && max == low;
      if |b| > 1 {
        PaddedTopCovers(b, low, p);
      }
    } else {
      MaskBound(msb);
      NonzeroTopCovers(max, low, p, msb, mask1);
    }
  }

  /** With a zero sign byte after a byte >= 0x80, the lower bytes are at
      least half of 256^(n-1). */
  lemma PaddedTopCovers(b: seq<Byte>, low: nat, p: nat)
    requires |b| > 1 && b[|b| - 2] >= 0x80
    requires low == LittleEndian(b[..|b| - 1]) && p == Pow256(|b| - 1)
    ensures p <= 2 * low
  {
    var n := |b|;
    var lower := b[..n - 1];
    TopByteSplit(lower);
    assert lower[n - 2] == b[n - 2];
    MulMono(Pow256(n - 2), 128, lower[n - 2]);
  }

  lemma NonzeroTopCovers(max: nat, low: nat, p: nat, msb: nat, mask1: nat)
    requires max == low + p * msb && low < p
    requires msb < mask1 <= 2 * msb
    ensures max < p * mask1 <= 2 * max + 1
  {
    BelowProduct(low, p, msb, mask1);
    MulMono(p, mask1, 2 * msb);
    MulSucc(p, msb);
  }

  /** The candidate limit is a power of two. */
  lemma CandidateLimitExponent(max: nat) returns (j: nat)
    ensures CandidateLimit(max) == Pow2(j)
  {
    var b, p, low, mask1 := CandidateLimitParts(max);
    var n := |b|;
    var msb := b[n - 1];
    Pow256IsPow2(n - 1);
    var e := if msb == 0 then 0 else FloorLog2(msb) + 1;
    assert mask1 == Pow2(e);
    ProductOfPowers(p, mask1, 8 * (n - 1), e);
    j := 8 * (n - 1) + e;
  }

  lemma ProductOfPowers(p: nat, q: nat, a: nat, b: nat)
    requires p == Pow2(a) && q == Pow2(b)
    ensures p * q == Pow2(a + b)
  {
    Pow2Add(a, b);
  }

  /** The candidate limit is exactly 2^BitLength(max). */
  lemma CandidateLimitIsBitLength(max: nat)
    ensures CandidateLimit(max) == Pow2(BitLength(max))
  {
    var j := CandidateLimitExponent(max);
    CandidateLimitCovers(max);
    PowerBetween(max, j, BitLength(max));
  }

  /** The only power of two in (x, 2x + 1] is 2^BitLength(x). */
  lemma PowerBetween(x: nat, j: nat, bl: nat)
    requires x < Pow2(j) <= 2 * x + 1
    requires x < Pow2(bl) && (bl > 0 ==> Pow2(bl - 1) <= x)
    ensures j == bl
  {
    if j < bl {
      Pow2Monotone(j, bl - 1);
    } else if j > bl {
      Pow2Monotone(bl + 1, j);
    }
  }

  /** A masked draw is non-negative (its sign bit is masked off) and below the
      candidate limit. */
  lemma MaskedBelowLimit(max: nat, draw: seq<Byte>)
    requires |draw| == |ToByteArray(max)|
    ensures 0 <= FromBytes(Masked(draw, MaskFor(ToByteArray(max)[|draw| - 1]))) < CandidateLimit(max)
  {
    var b, p, low, mask1 := CandidateLimitParts(max);
    var n := |b|;
    var mask := MaskFor(b[n - 1]);
    var e := Masked(draw, mask);
    MaskBelowSignBit(b[n - 1]);
    assert FromBytes(e) == LittleEndian(e);
    TopByteSplit(e);
    BelowProduct(LittleEndian(e[..n - 1]), p, e[n - 1], mask1);
  }

  /** The mask of a byte below 0x80 leaves the sign bit clear. */
  lemma MaskBelowSignBit(msb: Byte)
    requires msb < 0x80
    ensures MaskFor(msb) < 128
  {
    if msb != 0 {
      MaskBound(msb);
    }
  }

  /** Every masked draw is a non-negative value with at most BitLength(max) bits. */
  lemma CandidateBound(max: nat, draw: seq<Byte>)
    requires |draw| == |ToByteArray(max)|
    ensures 0 <= FromBytes(Masked(draw, MaskFor(ToByteArray(max)[|draw| - 1]))) < Pow2(BitLength(max))
  {
    MaskedBelowLimit(max, draw);
    CandidateLimitIsBitLength(max);
  }

  /** The outcome of a rejection loop: the accepted value, if the tape lasted,
      and what is left of the tape. */
  datatype Sampled = Sampled(value: Option<int>, rest: seq<Byte>)

  /** Draw n bytes, mask the top one, read the value; repeat while it exceeds max. */
  function Sample(tape: seq<Byte>, n: nat, mask: Byte, max: nat): (s: Sampled)
    requires n >= 1
    ensures s.value.Some? ==> s.value.value <= max && |s.rest| <= |tape| - n
    ensures s.value.None? ==> |s.rest| < n
    ensures |s.rest| <= |tape| && s.rest == tape[|tape| - |s.rest|..]
    decreases |tape|
  {
    if |tape| < n then Sampled(None, tape)
    else
      var c := FromBytes(Masked(tape[..n], mask));
      if c <= max then Sampled(Some(c), tape[n..])
      else
        var s := Sample(tape[n..], n, mask, max);
        assert tape[n..][|tape[n..]| - |s.rest|..] == tape[|tape| - |s.rest|..];
        s
  }

  /** GetRandomInRangeFromZeroTo's sampling loop with the buffer size and the
      mask it derives from max. */
  function SampleZeroTo(tape: seq<Byte>, max: nat): Sampled
  {
    var b := ToByteArray(max);
    Sample(tape, |b|, MaskFor(b[|b| - 1]), max)
  }

  /** An accepted value lies in [0, max], and a draw consumes at least one byte. */
  lemma {:induction false} SampleZeroToInRange(tape: seq<Byte>, max: nat)
    ensures SampleZeroTo(tape, max).value.Some? ==>
      0 <= SampleZeroTo(tape, max).value.value <= max && |SampleZeroTo(tape, max).rest| < |tape|
    decreases |tape|
  {
    var b := ToByteArray(max);
    var n := |b|;
    if |tape| >= n {
      CandidateBound(max, tape[..n]);
      var c := FromBytes(Masked(tape[..n], MaskFor(b[n - 1])));
      if c > max {
        SampleZeroToInRange(tape[n..], max);
      }
    }
  }

  // ---------------------------------------------------------------------------
  // The generator
  // ---------------------------------------------------------------------------

  /** The smaller of two bounds. */
  function Lower(min: int, max: int): int
  {
    if min > max then max else min
  }

  /** The distance between two bounds, whichever order they come in. */
  function Width(min: int, max: int): (w: nat)
    ensures Lower(min, max) + w == if min > max then min else max
  {
    if min > max then min - max else max - min
  }

  class IdentifierGenerator {
    /** Every identifier handed out by GenerateIdentifier, in order. */
    var extracted: seq<Identifier>
    /** The bytes the random number generator will produce next. */
    var tape: seq<Byte>
    /** 2^M - 1, fixed when the singleton is built. */
    const identifiersLimit: nat

    ghost predicate Valid()
      reads this
    {
      NoDup(extracted) && forall x :: x in extracted ==> x.value <= identifiersLimit
    }

    constructor (randomness: seq<Byte>)
      ensures Valid()
      ensures extracted == [] && tape == randomness
      ensures identifiersLimit == Pow2(Constants.M) - 1
    {
      extracted := [];
      tape := randomness;
      identifiersLimit := Pow2(Constants.M) - 1;
    }

    /** GetBytes(bytes) followed by `bytes[bytes.Length - 1] &= zeroBitsMask`:
        the buffer is overwritten with the next bytes of the tape and its most
        significant byte is masked. */
    method DrawMasked(bytes: array<Byte>, mask: Byte)
      requires 1 <= bytes.Length <= |tape|
      modifies this`tape, bytes
      ensures bytes[..] == Masked(old(tape)[..bytes.Length], mask)
      ensures tape == old(tape)[bytes.Length..]
    {
      var n := bytes.Length;
      forall i | 0 <= i < n {
        bytes[i] := tape[i];
      }
      assert bytes[..] == tape[..n];
      ghost var drawn := tape[..n];
      tape := tape[n..];
      bytes[n - 1] := BitAnd(bytes[n - 1], mask);
      assert bytes[..n - 1] == drawn[..n - 1];
      MaskedIs(bytes[..], drawn, mask);
    }

    /** A uniform value in [0, max] by masking and rejection. */
    method GetRandomInRangeFromZeroTo(max: nat) returns (r: Result<int>)
      modifies this`tape
      ensures tape == SampleZeroTo(old(tape), max).rest
      ensures SampleZeroTo(old(tape), max).value.Some? ==> r == Success(SampleZeroTo(old(tape), max).value.value)
      ensures SampleZeroTo(old(tape), max).value.None? ==> r == Failure(RandomExhausted)
    {
      var magnitude := ToByteArray(max);
      var n := |magnitude|;
      var bytes := new Byte[n](i requires 0 <= i < n => magnitude[i]);
      var mask := ZeroBitsMask(bytes[n - 1]);
      assert mask == MaskFor(magnitude[n - 1]);
      ghost var s := Sample(tape, n, mask, max);
      assert s == SampleZeroTo(old(tape), max);
      while true
        invariant Sample(tape, n, mask, max) == s
        decreases |tape|
      {
        if |tape| < n {
          assert s == Sampled(None, tape);
          return Failure(RandomExhausted);
        }
        ghost var current := tape;
        DrawMasked(bytes, mask);
        var value := FromBytes(bytes[..]);
        if value <= max {
          assert s == Sampled(Some(value), tape);
          return Success(value);
        }
        assert Sample(current, n, mask, max) == Sample(tape, n, mask, max);
      }
    }

    /** A value in [min, max] (the bounds are swapped when given in the wrong
        order), by shifting the range to start at zero. */
    method GetRandomInRange(min: int, max: int) returns (r: Result<int>)
      modifies this`tape
      ensures tape == SampleZeroTo(old(tape), Width(min, max)).rest
      ensures SampleZeroTo(old(tape), Width(min, max)).value.Some? ==>
                r == Success(SampleZeroTo(old(tape), Width(min, max)).value.value + Lower(min, max))
      ensures SampleZeroTo(old(tape), Width(min, max)).value.None? ==> r == Failure(RandomExhausted)
      ensures r.Success? ==> (min <= r.value <= max || max <= r.value <= min) && |tape| < old(|tape|)
      ensures r.Failure? ==> r.error == RandomExhausted && |tape| <= old(|tape|)
    {
      var lo, hi := min, max;
      if lo > hi {
        lo, hi := hi, lo;
      }
      var offset := -lo;
      hi := hi + offset;
      assert lo == Lower(min, max) && hi == Width(min, max);
      ghost var s := SampleZeroTo(tape, hi);
      SampleZeroToInRange(tape, hi);
      var value := GetRandomInRangeFromZeroTo(hi);
      if value.Failure? {
        return Failure(value.error);
      }
      return Success(value.value - offset);
    }

    /** A fresh identifier in [0, identifiersLimit], recorded as extracted. */
    method GenerateIdentifier() returns (r: Result<Identifier>)
      requires Valid()
      modifies this
      ensures Valid()
      ensures r.Success? ==> r.value.value <= identifiersLimit && r.value !in old(extracted)
      ensures r.Success? ==> extracted == old(extracted) + [r.value]
      ensures r.Failure? ==> extracted == old(extracted) && r.error == RandomExhausted
      ensures |tape| <= old(|tape|)
    {
      var identifier;
      while true
        invariant extracted == old(extracted) && Valid()
        invariant |tape| <= old(|tape|)
        decreases |tape|
      {
        var random := GetRandomInRange(0, identifiersLimit);
        if random.Failure? {
          return Failure(random.error);
        }
        identifier := Identifier(random.value);
        if identifier !in extracted {
          break;
        }
      }
      extracted := extracted + [identifier];
      return Success(identifier);
    }

    /** The check of GetUniqueRandomInRange as written:
        `extractedIdentifiers.FirstOrDefault(id => id.Equals(random)) != null`
        with a BigInteger `random`, which reaches Equals(object). */
    function IssuedAsWritten(random: int): bool
      reads this`extracted
    {
      FirstWhere(extracted, (id: Identifier) => Equals(id, BoxedInteger(random))).Some?
    }

    /** The intended check: some extracted identifier has that value. */
    function Issued(random: int): (b: bool)
      reads this`extracted
      ensures b <==> exists id :: id in extracted && id.value == random
    {
      FirstWhere(extracted, (id: Identifier) => id.value == random).Some?
    }

    /** GetUniqueRandomInRange, intended: redraws until the value is not
        among the extracted identifiers, which are left as they are. */
    method GetUniqueRandomInRange(min: nat, max: nat) returns (r: Result<Identifier>)
      modifies this`tape
      ensures r.Success? ==> r.value !in extracted
      ensures r.Success? ==> (min <= r.value.value <= max || max <= r.value.value <= min)
      ensures r.Failure? ==> r.error == RandomExhausted
      ensures |tape| <= old(|tape|)
    {
      var random;
      while true
        invariant |tape| <= old(|tape|)
        decreases |tape|
      {
        var drawn := GetRandomInRange(min, max);
        if drawn.Failure? {
          return Failure(drawn.error);
        }
        random := drawn.value;
        if !Issued(random) {
          break;
        }
      }
      return Success(Identifier(random));
    }

    /** A random identifier of bucket bucketIndex: 2^i <= value <= 2^(i+1) - 1,
        not among the extracted ones. A negative index makes BigInteger.Pow throw. */
    method GenerateRandomInBucket(bucketIndex: int) returns (r: Result<Identifier>)
      modifies this`tape
      ensures bucketIndex < 0 ==> r == Failure(IndexOutOfRange)
      ensures r.Success? ==> bucketIndex >= 0 && Pow2(bucketIndex) <= r.value.value < Pow2(bucketIndex + 1)
      ensures r.Success? ==> r.value !in extracted
      ensures r.Failure? && bucketIndex >= 0 ==> r.error == RandomExhausted
    {
      if bucketIndex < 0 {
        return Failure(IndexOutOfRange);
      }
      var low := Pow2(bucketIndex);
      var high := Pow2(bucketIndex + 1) - 1;
      r := GetUniqueRandomInRange(low, high);
    }

    /** The first value GetRandomInRange draws from the tape for [min, max],
        as an identifier. */
    static ghost function FirstDraw(tape: seq<Byte>, min: nat, max: nat): Result<Identifier>
    {
      SampleZeroToInRange(tape, Width(min, max));
      var s := SampleZeroTo(tape, Width(min, max));
      if s.value.None? then Failure(RandomExhausted)
      else Success(Identifier(s.value.value + Lower(min, max)))
    }

    /** GetUniqueRandomInRange as written: IssuedAsWritten never holds
        (IssuedAsWrittenNeverHolds), so the redraw loop ends after its first
        draw and hands that value back, issued or not. */
    method GetUniqueRandomInRangeAsWritten(min: nat, max: nat) returns (r: Result<Identifier>)
      modifies this`tape
      ensures r == FirstDraw(old(tape), min, max)
      ensures r.Success? ==> (min <= r.value.value <= max || max <= r.value.value <= min)
    {
      var drawn := GetRandomInRange(min, max);
      if drawn.Failure? {
        return Failure(drawn.error);
      }
      r := Success(Identifier(drawn.value));
    }

    /** GenerateRandomInBucket as written: the bucket's range handed to the
        redraw loop whose check never fires. */
    method GenerateRandomInBucketAsWritten(bucketIndex: int) returns (r: Result<Identifier>)
      modifies this`tape
      ensures bucketIndex < 0 ==> r == Failure(IndexOutOfRange)
      ensures bucketIndex >= 0 ==> r == FirstDraw(old(tape), Pow2(bucketIndex), Pow2(bucketIndex + 1) - 1)
    {
      if bucketIndex < 0 {
        return Failure(IndexOutOfRange);
      }
      var low := Pow2(bucketIndex);
      var high := Pow2(bucketIndex + 1) - 1;
      r := GetUniqueRandomInRangeAsWritten(low, high);
    }

    /** GetRandomExistingId of the older copy: the extracted identifier at the
        index `pick` drawn by System.Random in [0, Count); with nothing extracted
        Next(0) is 0 and the indexer throws. */
    method GetRandomExistingId(pick: nat) returns (r: Result<Identifier>)
      requires |extracted| > 0 ==> pick < |extracted|
      ensures r.Success? <==> |extracted| > 0
      ensures r.Success? ==> r.value in extracted
      ensures r.Failure? ==> r.error == IndexOutOfRange
    {
      if |extracted| == 0 {
        return Failure(IndexOutOfRange);
      }
      return Success(extracted[pick]);
    }
  }

  /** As written, the uniqueness check of GetUniqueRandomInRange never fires. */
  lemma IssuedAsWrittenNeverHolds(g: IdentifierGenerator, random: int)
    ensures !g.IssuedAsWritten(random)
  {
  }

  /** A concrete witness: with identifier 8 extracted, drawing 8 in bucket 3
      is accepted as written, while the intended check rejects it. */
  lemma UniqueCheckCounterexample(g: IdentifierGenerator)
    requires g.extracted == [Identifier(8)]
    ensures !g.IssuedAsWritten(8) && g.Issued(8)
    ensures Pow2(3) <= 8 < Pow2(4)
  {
    assert g.extracted[0].value == 8;
  }

  /** As written, the redraw loop hands back an issued id whenever the tape
      draws one first: the check it runs never rejects it. */
  lemma AsWrittenReturnsIssued(g: IdentifierGenerator, tape: seq<Byte>, min: nat, max: nat)
    requires SampleZeroTo(tape, Width(min, max)).value.Some?
    requires g.Issued(SampleZeroTo(tape, Width(min, max)).value.value + Lower(min, max))
    ensures g.FirstDraw(tape, min, max).Success? && g.FirstDraw(tape, min, max).value in g.extracted
    ensures !g.IssuedAsWritten(g.FirstDraw(tape, min, max).value.value)
  {
    var v := SampleZeroTo(tape, Width(min, max)).value.value + Lower(min, max);
    IssuedAsWrittenNeverHolds(g, v);
    var id :| id in g.extracted && id.value == v;
    assert g.FirstDraw(tape, min, max) == Success(id);
  }
}
