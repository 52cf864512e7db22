/** The machine-independent integer codecs: lib/mysql/my_byteorder.h, byte_order_generic.h and
    byte_order_generic_x86.h. */
module ByteOrder {
  import opened Basics
  import opened Bits

  // ---------- the low-byte-first number format ----------

  function Pow256(n: nat): (r: nat)
    ensures r > 0
  {
    if n == 0 then 1 else 256 * Pow256(n - 1)
  }

  /** The number held by the n bytes at index `at`, low byte first. */
  function Value(bs: seq<byte>, at: nat, n: nat): nat
    requires at + n <= |bs|
    decreases n
  {
    if n == 0 then 0 else bs[at] + 256 * Value(bs, at + 1, n - 1)
  }

  /** Byte i of a number. */
  function Digit(x: nat, i: nat): byte {
    if i == 0 then x % 256 else Digit(x / 256, i - 1)
  }

  /** The low n bytes of a number, low byte first. */
  function LowBytes(x: nat, n: nat): (bs: seq<byte>)
    ensures |bs| == n && forall i :: 0 <= i < n ==> bs[i] == Digit(x, i)
  {
    seq(n, i requires 0 <= i < n => Digit(x, i))
  }

  lemma {:induction false} ValueBelow(bs: seq<byte>, at: nat, n: nat)
    requires at + n <= |bs|
    ensures Value(bs, at, n) < Pow256(n)
    decreases n
  {
    if n > 0 {
      ValueBelow(bs, at + 1, n - 1);
    }
  }

  /** The lowest byte splits off a remainder. */
  lemma ModSplit(x: nat, p: nat)
    requires p > 0
    ensures x % (256 * p) == 256 * ((x / 256) % p) + x % 256
  {
    var q, r := (x / 256) / p, (x / 256) % p;
    assert x / 256 == q * p + r;
    assert x == q * (256 * p) + (256 * r + x % 256);
    DivUnique(x, q, 256 * r + x % 256, 256 * p);
  }

  /** Store, then load: the identity modulo 256^n. */
  lemma {:induction false} StoreThenLoad(x: nat, bs: seq<byte>, at: nat, n: nat)
    requires at + n <= |bs| && forall j :: at <= j < at + n ==> bs[j] == Digit(x, j - at)
    ensures Value(bs, at, n) == x % Pow256(n)
    decreases n
  {
    if n > 0 {
      assert bs[at] == Digit(x, 0);
      forall j | at + 1 <= j < at + n
        ensures bs[j] == Digit(x / 256, j - at - 1)
      {
        assert bs[j] == Digit(x, j - at);
      }
      StoreThenLoad(x / 256, bs, at + 1, n - 1);
      ModSplit(x, Pow256(n - 1));
    }
  }

  /** Digits of the value are the bytes. */
  lemma {:induction false} ValueDigit(bs: seq<byte>, at: nat, n: nat, i: nat)
    requires i < n && at + n <= |bs|
    ensures Digit(Value(bs, at, n), i) == bs[at + i]
    decreases n
  {
    var rest := Value(bs, at + 1, n - 1);
    assert (bs[at] + 256 * rest) / 256 == rest;
    if i > 0 {
      ValueDigit(bs, at + 1, n - 1, i - 1);
    }
  }

  /** Load, then store: the bytes come back. */
  lemma LoadThenStore(bs: seq<byte>)
    ensures LowBytes(Value(bs, 0, |bs|), |bs|) == bs
  {
    forall i | 0 <= i < |bs|
      ensures LowBytes(Value(bs, 0, |bs|), |bs|)[i] == bs[i]
    {
      ValueDigit(bs, 0, |bs|, i);
    }
  }

  /** Equal values of equal length are equal byte strings. */
  lemma ValueIsInjective(bs: seq<byte>, cs: seq<byte>)
    requires |bs| == |cs| && Value(bs, 0, |bs|) == Value(cs, 0, |cs|)
    ensures bs == cs
  {
    LoadThenStore(bs);
    LoadThenStore(cs);
  }

  lemma Pow256Constants()
    ensures Pow256(0) == 1 && Pow256(1) == 0x100 && Pow256(2) == 0x1_0000 && Pow256(3) == 0x100_0000
    ensures Pow256(4) == 0x1_0000_0000 && Pow256(5) == 0x100_0000_0000 && Pow256(6) == 0x1_0000_0000_0000
    ensures Pow256(7) == 0x100_0000_0000_0000 && Pow256(8) == TWO64
  {
    assert Pow256(2) == 0x1_0000;
    assert Pow256(4) == 0x1_0000_0000;
    assert Pow256(6) == 0x1_0000_0000_0000;
  }

  // ---------- loads, as the code computes them ----------

  function U16(x: nat): nat { x % 0x1_0000 }

  function U32(x: nat): nat { x % 0x1_0000_0000 }

  function U64(x: nat): nat { x % TWO64 }

  /** (uint32) b << k, with m = 2^k: no byte is shifted out of the word. */
  function Shl32(b: byte, m: nat): (r: nat)
    requires m <= 0x100_0000
    ensures r == b as int * m
  {
    assert b as int * m <= 255 * m by {
      assert 255 * m == b as int * m + (255 - b as int) * m;
    }
    U32(b as int * m)
  }

  /** Conversion to a signed type of m/2 .. -m/2: two's complement. */
  function Signed(x: int, m: nat): int
    requires m > 0
  {
    var u := x % m;
    if 2 * u >= m then u - m else u
  }

  function Uint2korr(a: seq<byte>): nat
    requires |a| >= 2
  {
    U16(a[0] as int + a[1] as int * 0x100)
  }

  function Uint3korr(a: seq<byte>): nat
    requires |a| >= 3
  {
    U32(a[0] as int + Shl32(a[1], 0x100) + Shl32(a[2], 0x1_0000))
  }

  /** The 32-bit sum of four shifted bytes; no byte reaches past the word. */
  function Word32(a: seq<byte>, at: nat): (r: nat)
    requires at + 4 <= |a|
    ensures r == a[at] as int + a[at + 1] as int * 0x100 + a[at + 2] as int * 0x1_0000 + a[at + 3] as int * 0x100_0000
    ensures r < 0x1_0000_0000
  {
    U32(a[at] as int + Shl32(a[at + 1], 0x100) + Shl32(a[at + 2], 0x1_0000) + Shl32(a[at + 3], 0x100_0000))
  }

  function Uint4korr(a: seq<byte>): nat
    requires |a| >= 4
  {
    Word32(a, 0)
  }

  function Uint5korr(a: seq<byte>): nat
    requires |a| >= 5
  {
    U64(Word32(a, 0) + U64(a[4] as int * 0x1_0000_0000))
  }

  function Uint6korr(a: seq<byte>): nat
    requires |a| >= 6
  {
    U64(Word32(a, 0) + U64(a[4] as int * 0x1_0000_0000) + U64(a[5] as int * 0x100_0000_0000))
  }

  function Uint8korr(a: seq<byte>): nat
    requires |a| >= 8
  {
    U64(Word32(a, 0) + U64(Word32(a, 4) * 0x1_0000_0000))
  }

  function Sint2korr(a: seq<byte>): int
    requires |a| >= 2
  {
    Signed(a[0] as int + a[1] as int * 0x100, 0x1_0000)
  }

  /** Three bytes put together with bitwise or, below what is already in `high`. */
  function OrBelow(high: nat, a: seq<byte>): nat
    requires |a| >= 3
  {
    BitOr(BitOr(BitOr(high, Shl32(a[2], 0x1_0000)), Shl32(a[1], 0x100)), a[0])
  }

  /** The sign bit selects a fourth byte of ones. */
  function Sint3korr(a: seq<byte>): int
    requires |a| >= 3
  {
    Signed(if BitAnd(a[2], 128) != 0 then OrBelow(Shl32(255, 0x100_0000), a) else OrBelow(0, a), 0x1_0000_0000)
  }

  function Sint4korr(a: seq<byte>): int
    requires |a| >= 4
  {
    var high := Signed(a[3] as int * 0x100_0000, 0x1_0000_0000);
    Signed(a[0] as int + a[1] as int * 0x100 + a[2] as int * 0x1_0000 + high, 0x1_0000_0000)
  }

  function Sint8korr(a: seq<byte>): int
    requires |a| >= 8
  {
    Signed(Uint8korr(a), TWO64)
  }

  lemma ValueUpTo4(a: seq<byte>, at: nat)
    ensures |a| >= at + 2 ==> Value(a, at, 2) == a[at] as int + a[at + 1] as int * 0x100
    ensures |a| >= at + 3 ==> Value(a, at, 3) == a[at] as int + a[at + 1] as int * 0x100 + a[at + 2] as int * 0x1_0000
    ensures |a| >= at + 4 ==> Value(a, at, 4) == Word32(a, at)
  {
    if |a| >= at + 2 {
      assert Value(a, at + 1, 1) == a[at + 1];
    }
    if |a| >= at + 3 {
      assert Value(a, at + 2, 1) == a[at + 2];
    }
    if |a| >= at + 4 {
      assert Value(a, at + 3, 1) == a[at + 3];
      assert Value(a, at + 2, 2) == a[at + 2] as int + a[at + 3] as int * 0x100;
    }
  }

  /** The four low bytes and the rest. */
  lemma ValueFrom4(a: seq<byte>, n: nat)
    requires 4 <= n <= |a|
    ensures Value(a, 0, n) == Word32(a, 0) + 0x1_0000_0000 * Value(a, 4, n - 4)
  {
    assert Value(a, 2, n - 2) == a[2] + 256 * (a[3] + 256 * Value(a, 4, n - 4));
  }

  lemma U64Small(x: nat)
    requires x < TWO64
    ensures U64(x) == x
  {
  }

  /** No 64-bit load overflows. */
  lemma WideSums(a: seq<byte>)
    ensures |a| >= 5 ==> Uint5korr(a) == Word32(a, 0) + a[4] as int * 0x1_0000_0000
    ensures |a| >= 6 ==> Uint6korr(a) == Word32(a, 0) + a[4] as int * 0x1_0000_0000 + a[5] as int * 0x100_0000_0000
    ensures |a| >= 8 ==> Uint8korr(a) == Word32(a, 0) + Word32(a, 4) * 0x1_0000_0000
  {
    if |a| >= 5 {
      U64Small(a[4] as int * 0x1_0000_0000);
    }
    if |a| >= 6 {
      U64Small(a[5] as int * 0x100_0000_0000);
    }
    if |a| >= 8 {
      U64Small(Word32(a, 4) * 0x1_0000_0000);
    }
  }

  lemma WideValues(a: seq<byte>)
    ensures |a| >= 5 ==> Value(a, 0, 5) == Word32(a, 0) + a[4] as int * 0x1_0000_0000
    ensures |a| >= 6 ==> Value(a, 0, 6) == Word32(a, 0) + a[4] as int * 0x1_0000_0000 + a[5] as int * 0x100_0000_0000
    ensures |a| >= 8 ==> Value(a, 0, 8) == Word32(a, 0) + Word32(a, 4) * 0x1_0000_0000
  {
    ValueUpTo4(a, 4);
    if |a| >= 5 {
      ValueFrom4(a, 5);
      assert Value(a, 4, 1) == a[4];
    }
    if |a| >= 6 {
      ValueFrom4(a, 6);
    }
    if |a| >= 8 {
      ValueFrom4(a, 8);
    }
  }

  /** Every unsigned load is the low-byte-first value of its bytes. */
  lemma UnsignedLoads(a: seq<byte>)
    ensures |a| >= 2 ==> Uint2korr(a) == Value(a, 0, 2)
    ensures |a| >= 3 ==> Uint3korr(a) == Value(a, 0, 3)
    ensures |a| >= 4 ==> Uint4korr(a) == Value(a, 0, 4)
    ensures |a| >= 5 ==> Uint5korr(a) == Value(a, 0, 5)
    ensures |a| >= 6 ==> Uint6korr(a) == Value(a, 0, 6)
    ensures |a| >= 8 ==> Uint8korr(a) == Value(a, 0, 8)
  {
    ValueUpTo4(a, 0);
    WideSums(a);
    WideValues(a);
  }

  /** The weights of the bytes, written out. */
  lemma ByteWeights(a: seq<byte>)
    ensures |a| >= 2 ==> Uint2korr(a) == a[0] as int + a[1] as int * 256
    ensures |a| >= 3 ==> Uint3korr(a) == a[0] as int + a[1] as int * 256 + a[2] as int * 65536
    ensures |a| >= 4 ==>
              Uint4korr(a) == a[0] as int + a[1] as int * 256 + a[2] as int * 65536 + a[3] as int * 16777216
    ensures |a| >= 5 ==> Uint5korr(a) == Uint4korr(a) + a[4] as int * 4294967296
    ensures |a| >= 6 ==> Uint6korr(a) == Uint5korr(a) + a[5] as int * 1099511627776
    ensures |a| >= 8 ==>
              Uint8korr(a) == Uint6korr(a) + a[6] as int * 281474976710656 + a[7] as int * 72057594037927936
  {
    WideSums(a);
  }

  /** The two's-complement reading of x is the number in -m/2 .. m/2 - 1 that differs from it by a
      multiple of m. */
  lemma SignedIsTwosComplement(x: int, m: nat)
    requires m > 0
    ensures 0 - m <= 2 * Signed(x, m) < m && exists q :: x == Signed(x, m) + q * m
  {
    var q, u := x / m, x % m;
    assert x == u + q * m;
    assert (q + 1) * m == q * m + m;
    assert x == Signed(x, m) + q * m || x == Signed(x, m) + (q + 1) * m;
  }

  lemma ShiftedIsClear(x: nat, k: nat)
    ensures LowClear(Pow2(k) * x, k)
    decreases k
  {
    if k > 0 {
      assert Pow2(k) * x == 2 * (Pow2(k - 1) * x);
      ShiftedIsClear(x, k - 1);
    }
  }

  lemma SignBit(x: byte)
    ensures BitAnd(x, 128) != 0 <==> x >= 128
  {
    Pow2Constants();
    AndHighMask(x, 7, 8);
    if x < 128 {
      SmallClearsToZero(x, 7);
    }
  }

  lemma OrBelowMultiple(y: nat, x: nat, z: nat, k: nat)
    requires y == Pow2(k) * x && z < Pow2(k)
    ensures BitOr(y, z) == y + z
  {
    ShiftedIsClear(x, k);
    OrAdds(y, z, k);
  }

  lemma OrOfBytes(top: byte, a: seq<byte>)
    requires |a| >= 3
    ensures OrBelow(top as int * 0x100_0000, a) == top as int * 0x100_0000 + Value(a, 0, 3)
  {
    Pow2Constants();
    var one := top as int * 0x100_0000;
    var two := one + Shl32(a[2], 0x1_0000);
    OrBelowMultiple(one, top, Shl32(a[2], 0x1_0000), 24);
    OrBelowMultiple(two, top as int * 0x100 + a[2] as int, Shl32(a[1], 0x100), 16);
    OrBelowMultiple(two + Shl32(a[1], 0x100), top as int * 0x1_0000 + a[2] as int * 0x100 + a[1] as int, a[0], 8);
    ValueUpTo4(a, 0);
  }

  lemma SignedTop(v: nat)
    requires v < 0x100_0000
    ensures 2 * v >= 0x100_0000 ==> Signed(255 * 0x100_0000 + v, 0x1_0000_0000) == Signed(v, 0x100_0000)
    ensures 2 * v < 0x100_0000 ==> Signed(v, 0x1_0000_0000) == Signed(v, 0x100_0000)
  {
  }

  lemma SignedLoad3(a: seq<byte>)
    requires |a| >= 3
    ensures Sint3korr(a) == Signed(Uint3korr(a), 0x100_0000)
  {
    ValueUpTo4(a, 0);
    UnsignedLoads(a);
    SignBit(a[2]);
    OrOfBytes(255, a);
    OrOfBytes(0, a);
    SignedTop(Value(a, 0, 3));
  }

  lemma SignedWraps(x: nat)
    requires x < 0x1_0000_0000
    ensures Signed(x - 0x1_0000_0000, 0x1_0000_0000) == Signed(x, 0x1_0000_0000)
  {
    assert (x - 0x1_0000_0000) % 0x1_0000_0000 == x;
  }

  lemma SignedLoad4(a: seq<byte>)
    requires |a| >= 4
    ensures Sint4korr(a) == Signed(Uint4korr(a), 0x1_0000_0000)
  {
    SignedWraps(Word32(a, 0));
    var high := a[3] as int * 0x100_0000;
    assert Signed(high, 0x1_0000_0000) == high || Signed(high, 0x1_0000_0000) == high - 0x1_0000_0000;
  }

  /** Every signed load is the two's-complement reading of the unsigned one, 24 bits included. */
  lemma SignedLoads(a: seq<byte>)
    ensures |a| >= 2 ==> Sint2korr(a) == Signed(Uint2korr(a), 0x1_0000)
    ensures |a| >= 3 ==> Sint3korr(a) == Signed(Uint3korr(a), 0x100_0000)
    ensures |a| >= 4 ==> Sint4korr(a) == Signed(Uint4korr(a), 0x1_0000_0000)
    ensures |a| >= 8 ==> Sint8korr(a) == Signed(Uint8korr(a), TWO64)
  {
    if |a| >= 2 {
      assert Uint2korr(a) == a[0] as int + a[1] as int * 0x100;
    }
    if |a| >= 3 {
      SignedLoad3(a);
    }
    if |a| >= 4 {
      SignedLoad4(a);
    }
  }

  /** Native memory on a little-endian machine: the word whose byte i is memory byte i. */
  ghost predicate IsNativeWord(x: nat, mem: seq<byte>) {
    x < Pow256(|mem|) && forall i :: 0 <= i < |mem| ==> mem[i] == Digit(x, i)
  }

  lemma NativeIffValue(a: seq<byte>, x: nat)
    ensures IsNativeWord(x, a) <==> x == Value(a, 0, |a|)
  {
    ValueBelow(a, 0, |a|);
    forall i | 0 <= i < |a|
      ensures a[i] == Digit(Value(a, 0, |a|), i)
    {
      ValueDigit(a, 0, |a|, i);
    }
    if IsNativeWord(x, a) {
      StoreThenLoad(x, a, 0, |a|);
      DivUnique(x, 0, x, Pow256(|a|));
    }
  }

  /** The same memory as a signed word: two's complement. */
  ghost predicate IsNativeSigned(x: int, mem: seq<byte>) {
    var m: int := Pow256(|mem|);
    -m <= 2 * x < m && IsNativeWord(if x < 0 then x + m else x, mem)
  }

  lemma NativeSignedIff(a: seq<byte>, x: int)
    ensures IsNativeSigned(x, a) <==> x == Signed(Value(a, 0, |a|), Pow256(|a|))
  {
    var m: int, v: nat := Pow256(|a|), Value(a, 0, |a|);
    ValueBelow(a, 0, |a|);
    DivUnique(v, 0, v, m);
    if -m <= 2 * x < m {
      NativeIffValue(a, if x < 0 then x + m else x);
    }
    NativeIffValue(a, v);
  }

  /** The bytewise forms return exactly what the x86 forms read: the one native word there is,
      unsigned or signed. */
  lemma BytewiseIsNative(a: seq<byte>, x: nat, y: int)
    ensures |a| == 2 ==> (IsNativeWord(x, a) <==> x == Uint2korr(a)) && (IsNativeSigned(y, a) <==> y == Sint2korr(a))
    ensures |a| == 4 ==> (IsNativeWord(x, a) <==> x == Uint4korr(a)) && (IsNativeSigned(y, a) <==> y == Sint4korr(a))
    ensures |a| == 8 ==> (IsNativeWord(x, a) <==> x == Uint8korr(a)) && (IsNativeSigned(y, a) <==> y == Sint8korr(a))
  {
    Pow256Constants();
    UnsignedLoads(a);
    SignedLoads(a);
    NativeIffValue(a, x);
    NativeSignedIff(a, y);
  }

  // ---------- stores, in place ----------

  /** `bs` written over `mem` from index `at`. */
  function Written(mem: seq<byte>, at: nat, bs: seq<byte>): seq<byte>
    requires at + |bs| <= |mem|
  {
    mem[..at] + bs + mem[at + |bs|..]
  }

  /** Exactly the bytes of `bs` are replaced. */
  lemma WrittenAt(mem: seq<byte>, at: nat, bs: seq<byte>, i: nat)
    requires at + |bs| <= |mem|
    ensures |Written(mem, at, bs)| == |mem|
    ensures i < |mem| ==> Written(mem, at, bs)[i] == if at <= i < at + |bs| then bs[i - at] else mem[i]
  {
  }

  function Shr(x: nat, m: nat): byte
    requires m > 0
  {
    (x / m) % 256
  }

  /** The shifts of the stores pick out the digits. */
  lemma StoreDigits(x: nat)
    ensures Digit(x, 0) == x % 256 && Digit(x, 1) == Shr(x, 0x100) && Digit(x, 2) == Shr(x, 0x1_0000)
    ensures Digit(x, 3) == Shr(x, 0x100_0000) && Digit(x, 4) == Shr(x, 0x1_0000_0000)
    ensures Digit(x, 5) == Shr(x, 0x100_0000_0000)
  {
    DigitsUpTo3(x);
    HighDigit(x, 0);
    HighDigit(x, 1);
    DigitsUpTo3(x / 0x1_0000_0000);
    assert x / 0x1_0000_0000 / 0x100 == x / 0x100_0000_0000;
  }

  /** The low bytes of a number are its native word, and its only one. */
  lemma NativeIffLowBytes(x: nat, bs: seq<byte>)
    ensures IsNativeWord(x, bs) <==> x < Pow256(|bs|) && bs == LowBytes(x, |bs|)
  {
  }

  method Int2store(t: array<byte>, at: nat, a: nat)
    requires at + 2 <= t.Length && a < 0x1_0000
    modifies t
    ensures t[..] == Written(old(t[..]), at, LowBytes(a, 2)) && IsNativeWord(a, t[at..at + 2])
    ensures forall i :: 0 <= i < t.Length && !(at <= i < at + 2) ==> t[i] == old(t[i])
  {
    StoreDigits(a);
    Pow256Constants();
    t[at] := a % 256;
    t[at + 1] := Shr(a, 0x100);
  }

  method Int3store(t: array<byte>, at: nat, a: nat)
    requires at + 3 <= t.Length && a < 0x1_0000_0000
    modifies t
    ensures t[..] == Written(old(t[..]), at, LowBytes(a, 3))
    ensures forall i :: 0 <= i < t.Length && !(at <= i < at + 3) ==> t[i] == old(t[i])
  {
    StoreDigits(a);
    t[at] := a % 256;
    t[at + 1] := Shr(a, 0x100);
    t[at + 2] := Shr(a, 0x1_0000);
  }

  method Int4store(t: array<byte>, at: nat, a: nat)
    requires at + 4 <= t.Length && a < 0x1_0000_0000
    modifies t
    ensures t[..] == Written(old(t[..]), at, LowBytes(a, 4)) && IsNativeWord(a, t[at..at + 4])
    ensures forall i :: 0 <= i < t.Length && !(at <= i < at + 4) ==> t[i] == old(t[i])
  {
    StoreDigits(a);
    Pow256Constants();
    t[at] := a % 256;
    t[at + 1] := Shr(a, 0x100);
    t[at + 2] := Shr(a, 0x1_0000);
    t[at + 3] := Shr(a, 0x100_0000);
  }

  method Int5store(t: array<byte>, at: nat, a: nat)
    requires at + 5 <= t.Length && a < TWO64
    modifies t
    ensures t[..] == Written(old(t[..]), at, LowBytes(a, 5))
    ensures forall i :: 0 <= i < t.Length && !(at <= i < at + 5) ==> t[i] == old(t[i])
  {
    StoreDigits(a);
    t[at] := a % 256;
    t[at + 1] := Shr(a, 0x100);
    t[at + 2] := Shr(a, 0x1_0000);
    t[at + 3] := Shr(a, 0x100_0000);
    t[at + 4] := Shr(a, 0x1_0000_0000);
  }

  method Int6store(t: array<byte>, at: nat, a: nat)
    requires at + 6 <= t.Length && a < TWO64
    modifies t
    ensures t[..] == Written(old(t[..]), at, LowBytes(a, 6))
    ensures forall i :: 0 <= i < t.Length && !(at <= i < at + 6) ==> t[i] == old(t[i])
  {
    StoreDigits(a);
    t[at] := a % 256;
    t[at + 1] := Shr(a, 0x100);
    t[at + 2] := Shr(a, 0x1_0000);
    t[at + 3] := Shr(a, 0x100_0000);
    t[at + 4] := Shr(a, 0x1_0000_0000);
    t[at + 5] := Shr(a, 0x100_0000_0000);
  }

  /** Two four-byte stores of the two halves. */
  method Int8store(t: array<byte>, at: nat, a: nat)
    requires at + 8 <= t.Length && a < TWO64
    modifies t
    ensures t[..] == Written(old(t[..]), at, LowBytes(a, 8)) && IsNativeWord(a, t[at..at + 8])
    ensures forall i :: 0 <= i < t.Length && !(at <= i < at + 8) ==> t[i] == old(t[i])
  {
    ghost var mem := t[..];
    var low, high := U32(a), U32(a / 0x1_0000_0000);
    HalvesMakeWhole(a);
    Int4store(t, at, low);
    Int4store(t, at + 4, high);
    WrittenInTwo(mem, at, LowBytes(low, 4), LowBytes(high, 4));
    Pow256Constants();
    assert t[at..at + 8] == LowBytes(a, 8);
  }

  lemma WrittenInTwo(mem: seq<byte>, at: nat, bs: seq<byte>, cs: seq<byte>)
    requires at + |bs| + |cs| <= |mem|
    ensures Written(Written(mem, at, bs), at + |bs|, cs) == Written(mem, at, bs + cs)
  {
  }

  /** Adding a multiple of 256^n keeps the n low digits. */
  lemma {:induction false} LowDigitsKept(low: nat, high: nat, n: nat, i: nat)
    requires i < n
    ensures Digit(low + Pow256(n) * high, i) == Digit(low, i)
  {
    var m := Pow256(n - 1) * high;
    assert Pow256(n) * high == 256 * m;
    assert (low + 256 * m) / 256 == low / 256 + m && (low + 256 * m) % 256 == low % 256;
    if i > 0 {
      LowDigitsKept(low / 256, high, n - 1, i - 1);
    }
  }

  lemma HalvesMakeWhole(a: nat)
    requires a < TWO64
    ensures LowBytes(a, 8) == LowBytes(U32(a), 4) + LowBytes(U32(a / 0x1_0000_0000), 4)
  {
    Pow256Constants();
    var low, high := U32(a), a / 0x1_0000_0000;
    assert a == low + Pow256(4) * high && U32(high) == high;
    forall i | 0 <= i < 8
      ensures Digit(a, i) == if i < 4 then Digit(low, i) else Digit(high, i - 4)
    {
      if i < 4 {
        LowDigitsKept(low, high, 4, i);
      } else {
        HighDigit(a, i - 4);
      }
    }
  }

  lemma DigitsUpTo3(x: nat)
    ensures Digit(x, 0) == x % 256 && Digit(x, 1) == Shr(x, 0x100)
    ensures Digit(x, 2) == Shr(x, 0x1_0000) && Digit(x, 3) == Shr(x, 0x100_0000)
  {
    var x1 := x / 256;
    var x2 := x1 / 256;
    var x3 := x2 / 256;
    assert x2 == x / 0x1_0000;
    assert x3 == x / 0x100_0000;
    assert Digit(x, 2) == Digit(x1, 1) == Digit(x2, 0);
    assert Digit(x, 3) == Digit(x1, 2) == Digit(x2, 1) == Digit(x3, 0);
  }

  lemma HighDigit(x: nat, i: nat)
    ensures Digit(x, i + 4) == Digit(x / 0x1_0000_0000, i)
  {
    var x1 := x / 256;
    var x2 := x1 / 256;
    var x3 := x2 / 256;
    assert x3 == x / 0x100_0000;
    assert x3 / 256 == x / 0x1_0000_0000;
    assert Digit(x, i + 4) == Digit(x1, i + 3) == Digit(x2, i + 2) == Digit(x3, i + 1) == Digit(x3 / 256, i);
  }

  /** What was stored is what is loaded, for every width. */
  lemma RoundTrips(x: nat, a: seq<byte>)
    ensures Uint2korr(LowBytes(x, 2)) == x % 0x1_0000 && Uint3korr(LowBytes(x, 3)) == x % 0x100_0000
    ensures Uint4korr(LowBytes(x, 4)) == x % 0x1_0000_0000 && Uint5korr(LowBytes(x, 5)) == x % 0x100_0000_0000
    ensures Uint6korr(LowBytes(x, 6)) == x % 0x1_0000_0000_0000 && Uint8korr(LowBytes(x, 8)) == x % TWO64
    ensures |a| == 2 ==> LowBytes(Uint2korr(a), 2) == a
    ensures |a| == 3 ==> LowBytes(Uint3korr(a), 3) == a
    ensures |a| == 4 ==> LowBytes(Uint4korr(a), 4) == a
    ensures |a| == 5 ==> LowBytes(Uint5korr(a), 5) == a
    ensures |a| == 6 ==> LowBytes(Uint6korr(a), 6) == a
    ensures |a| == 8 ==> LowBytes(Uint8korr(a), 8) == a
  {
    Pow256Constants();
    StoredIsLoaded(x, 2);
    StoredIsLoaded(x, 3);
    StoredIsLoaded(x, 4);
    StoredIsLoaded(x, 5);
    StoredIsLoaded(x, 6);
    StoredIsLoaded(x, 8);
    UnsignedLoads(a);
    LoadThenStore(a);
  }

  lemma StoredIsLoaded(x: nat, n: nat)
    requires n in {2, 3, 4, 5, 6, 8}
    ensures var bs := LowBytes(x, n);
            (match n case 2 => Uint2korr(bs) case 3 => Uint3korr(bs) case 4 => Uint4korr(bs)
                     case 5 => Uint5korr(bs) case 6 => Uint6korr(bs) case _ => Uint8korr(bs)) == x % Pow256(n)
  {
    UnsignedLoads(LowBytes(x, n));
    StoreThenLoad(x, LowBytes(x, n), 0, n);
  }
}
