/** Node identifiers and the XOR metric (Kademlia/Core/Identifier.cs,
    csharp/Kademlia/Core/Identifier.cs, typescript/src/identifier.model.ts). */
module Identifiers {

  function Pow2(i: nat): (r: nat)
    ensures r >= 1
  {
    if i == 0 then 1 else 2 * Pow2(i - 1)
  }

  lemma {:induction false} Pow2Monotone(i: nat, j: nat)
    requires i <= j
    ensures Pow2(i) <= Pow2(j)
  {
    if i < j { Pow2Monotone(i, j - 1); }
  }

  /** Bitwise exclusive-or of two non-negative integers, bit by bit from the
      least significant end (BigInteger's `^` on non-negative operands). */
  function Xor(a: nat, b: nat): nat
    decreases a + b
  {
    if a == 0 then b
    else if b == 0 then a
    else 2 * Xor(a / 2, b / 2) + (if a % 2 == b % 2 then 0 else 1)
  }

  /** The low bit and the remaining bits of a XOR, for every operand pair. */
  lemma XorStep(a: nat, b: nat)
    ensures Xor(a, b) % 2 == (if a % 2 == b % 2 then 0 else 1)
    ensures Xor(a, b) / 2 == Xor(a / 2, b / 2)
  {
    if a == 0 {
      assert Xor(a / 2, b / 2) == b / 2;
    } else if b == 0 {
      assert Xor(a / 2, b / 2) == a / 2;
    } else {
      var low := if a % 2 == b % 2 then 0 else 1;
      DivModStep(Xor(a / 2, b / 2), low);
    }
  }

  /** Division and remainder by two of 2 * h + low, for a low bit. */
  lemma DivModStep(h: nat, low: nat)
    requires low < 2
    ensures (2 * h + low) % 2 == low && (2 * h + low) / 2 == h
  {
  }

  lemma {:induction false} XorSymmetric(a: nat, b: nat)
    ensures Xor(a, b) == Xor(b, a)
    decreases a + b
  {
    if a != 0 && b != 0 {
      XorSymmetric(a / 2, b / 2);
    }
  }

  lemma {:induction false} XorZeroIff(a: nat, b: nat)
    ensures Xor(a, b) == 0 <==> a == b
    decreases a + b
  {
    if a != 0 && b != 0 {
      XorZeroIff(a / 2, b / 2);
    }
  }

  /** Two values below 2^m differ only in bits below m, so their XOR is below 2^m. */
  lemma {:induction false} XorBounded(a: nat, b: nat, m: nat)
    requires a < Pow2(m) && b < Pow2(m)
    ensures Xor(a, b) < Pow2(m)
    decreases m
  {
    if a != 0 && b != 0 {
      XorBounded(a / 2, b / 2, m - 1);
    }
  }

  /** A value below 2^m XORed with one at or above 2^m stays at or above 2^m:
      the high bit survives. */
  lemma {:induction false} XorAbove(a: nat, b: nat, m: nat)
    requires a < Pow2(m) <= b
    ensures Xor(a, b) >= Pow2(m)
    decreases m
  {
    if a != 0 && m > 0 {
      XorAbove(a / 2, b / 2, m - 1);
    }
  }

  /** XOR with a fixed value undoes itself. */
  lemma {:induction false} XorCancel(a: nat, t: nat)
    ensures Xor(Xor(a, t), t) == a
    decreases a + t
  {
    if a != 0 && t != 0 {
      var x := Xor(a, t);
      XorStep(a, t);
      XorCancel(a / 2, t / 2);
      if x == 0 {
        XorZeroIff(a, t);
      } else {
        assert Xor(x / 2, t / 2) == a / 2;
        assert (if x % 2 == t % 2 then 0 else 1) == a % 2;
      }
    } else if a == 0 {
      XorZeroIff(t, t);
    }
  }

  /** For a fixed target t the map x |-> x XOR t is injective: distinct
      identifiers are at distinct distances from any target. */
  lemma XorInjective(a: nat, b: nat, t: nat)
    ensures Xor(a, t) == Xor(b, t) ==> a == b
  {
    XorCancel(a, t);
    XorCancel(b, t);
  }

  /** Integer floor of log2, standing in for the floating-point
      BigInteger.Log(d) / Math.Log(2) of Kademlia/Core/RoutingTable.cs. */
  function FloorLog2(d: nat): (i: nat)
    requires d > 0
    ensures Pow2(i) <= d < Pow2(i + 1)
  {
    if d == 1 then 0 else 1 + FloorLog2(d / 2)
  }

  /** Exactly one bucket index i has 2^i <= d < 2^(i+1). */
  lemma {:induction false} FloorLog2Unique(d: nat, i: nat)
    requires Pow2(i) <= d < Pow2(i + 1)
    ensures FloorLog2(d) == i
  {
    var j := FloorLog2(d);
    if j < i {
      Pow2Monotone(j + 1, i);
    } else if i < j {
      Pow2Monotone(i + 1, j);
    }
  }

  /** A non-zero distance below 2^m names a bucket index in [0, m). */
  lemma FloorLog2Below(d: nat, m: nat)
    requires 0 < d < Pow2(m)
    ensures FloorLog2(d) < m
  {
    if FloorLog2(d) >= m {
      Pow2Monotone(m, FloorLog2(d));
    }
  }

  /** An identifier: a non-negative integer, immutable once built. C# compares
      and hashes identifiers by value, and so does a datatype. */
  datatype Identifier = Identifier(value: nat) {

    /** GetDistanceTo of the C# trees: XOR of the two values. */
    function DistanceTo(target: Identifier): nat {
      Xor(value, target.value)
    }

    /** getDistanceTo of typescript/src/identifier.model.ts: JavaScript `^`. */
    function JsDistanceTo(target: Identifier): int {
      JsXor(value, target.value)
    }
  }

  lemma DistanceSymmetric(x: Identifier, y: Identifier)
    ensures x.DistanceTo(y) == y.DistanceTo(x)
  {
    XorSymmetric(x.value, y.value);
  }

  lemma DistanceZeroIffEqual(x: Identifier, y: Identifier)
    ensures x.DistanceTo(y) == 0 <==> x == y
  {
    XorZeroIff(x.value, y.value);
  }

  lemma DistanceBounded(x: Identifier, y: Identifier, m: nat)
    requires x.value < Pow2(m) && y.value < Pow2(m)
    ensures x.DistanceTo(y) < Pow2(m)
  {
    XorBounded(x.value, y.value, m);
  }

  lemma DistanceAbove(x: Identifier, y: Identifier, m: nat)
    requires x.value < Pow2(m) <= y.value
    ensures x.DistanceTo(y) >= Pow2(m)
  {
    XorAbove(x.value, y.value, m);
  }

  /** Sorting distinct identifiers by distance to a target is a strict order. */
  lemma DistanceInjective(x: Identifier, y: Identifier, t: Identifier)
    requires x != y
    ensures x.DistanceTo(t) != y.DistanceTo(t)
  {
    XorInjective(x.value, y.value, t.value);
  }

  /** What `Equals(object obj)` can be handed: null, an Identifier, a boxed
      BigInteger (what `id.Equals(random)` passes when `random` is a
      BigInteger: there is no implicit BigInteger-to-long conversion, so the
      object overload is the one chosen), or any other object. */
  datatype Object = Null | IdentifierObject(identifier: Identifier) | BoxedInteger(number: int) | OtherObject

  /** Equals(object): false unless `obj` is an Identifier, then value comparison. */
  function Equals(x: Identifier, obj: Object): bool {
    match obj
    case IdentifierObject(target) => target.value == x.value
    case _ => false
  }

  lemma EqualsIsValueEquality(x: Identifier, obj: Object)
    ensures Equals(x, obj) <==> obj.IdentifierObject? && obj.identifier == x
  {
  }

  /** A boxed integer is never equal to an identifier, whatever its value. */
  lemma EqualsBoxedIntegerIsFalse(x: Identifier, v: int)
    ensures !Equals(x, BoxedInteger(v))
  {
  }

  newtype Int64 = v: int | -0x8000_0000_0000_0000 <= v < 0x8000_0000_0000_0000
  newtype Int32 = v: int | -0x8000_0000 <= v < 0x8000_0000

  /** Equals(long): compares the raw value with a 64-bit integer. */
  function EqualsLong(x: Identifier, v: Int64): bool {
    v as int == x.value
  }

  /** Equals(long) agrees with Equals(object) on the identifier holding that value. */
  lemma EqualsLongAgrees(x: Identifier, v: Int64)
    requires v >= 0
    ensures EqualsLong(x, v) <==> Equals(x, IdentifierObject(Identifier(v as int)))
  {
  }

  /** GetHashCode: BigInteger's hash of the value. Values that fit in 31 bits
      hash to themselves as in .NET; larger ones are folded to 32 bits by a
      stand-in for .NET's internal mixing. Only the value is read. */
  function HashCode(x: Identifier): Int32 {
    if x.value < 0x8000_0000 then x.value as Int32
    else (x.value % 0x8000_0000) as Int32
  }

  /** Identifiers that are Equals have equal hash codes (what the HashSet of
      queried identifiers in Lookup relies on). */
  lemma EqualsImpliesEqualHash(x: Identifier, y: Identifier)
    requires Equals(x, IdentifierObject(y))
    ensures HashCode(x) == HashCode(y)
  {
  }

  /** JavaScript `a ^ b`: both operands through ToInt32, XOR of the 32-bit
      patterns, result read back as a signed 32-bit integer. */
  function JsXor(a: int, b: int): int {
    var ua := a % Pow2(32);
    var ub := b % Pow2(32);
    XorBounded(ua, ub, 32);
    var u := Xor(ua, ub);
    if u >= Pow2(31) then u - Pow2(32) else u
  }

  /** Below 2^31 the JavaScript distance is the integer XOR. */
  lemma JsXorAgreesBelow31(a: nat, b: nat)
    requires a < Pow2(31) && b < Pow2(31)
    ensures JsXor(a, b) == Xor(a, b)
  {
    assert Pow2(32) == 2 * Pow2(31);
    ModBelow(a, Pow2(32));
    ModBelow(b, Pow2(32));
    XorBounded(a, b, 31);
  }

  lemma ModBelow(a: nat, n: nat)
    requires a < n
    ensures a % n == a
  {
  }

  /** From 2^31 on it is not: identifier 2^31 is at a negative distance from 0. */
  lemma JsXorNegativeAt31()
    ensures JsXor(Pow2(31), 0) < 0
  {
    assert Pow2(32) == 2 * Pow2(31);
    ModBelow(Pow2(31), Pow2(32));
    ModBelow(0, Pow2(32));
  }

  /** JavaScript `^` is symmetric. */
  lemma JsXorSymmetric(a: int, b: int)
    ensures JsXor(a, b) == JsXor(b, a)
  {
    XorSymmetric(a % Pow2(32), b % Pow2(32));
  }

  /** x ^ x is 0 in JavaScript as well. */
  lemma JsXorSelf(a: int)
    ensures JsXor(a, a) == 0
  {
    XorZeroIff(a % Pow2(32), a % Pow2(32));
  }

  /** The JavaScript distance is a signed 32-bit integer. */
  lemma JsXorRange(a: int, b: int)
    ensures -(Pow2(31) as int) <= JsXor(a, b) < Pow2(31)
  {
    assert Pow2(32) == 2 * Pow2(31);
    XorBounded(a % Pow2(32), b % Pow2(32), 32);
    var u := Xor(a % Pow2(32), b % Pow2(32));
    assert JsXor(a, b) == if u >= Pow2(31) then u - Pow2(32) else u;
  }

  /** ToInt32 wraps modulo 2^32: two different identifiers can be at
      JavaScript distance 0. */
  lemma JsXorWraps()
    ensures JsXor(0, Pow2(32)) == 0
  {
    XorZeroIff(0, 0);
  }
}
