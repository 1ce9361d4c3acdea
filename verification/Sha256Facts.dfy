/** What the functions of module Sha256 compute, apart from their definitions:
    bit by bit, the constants by the roots they are taken from, and the example
    of FIPS 180-4 for the message "abc". */
module Sha256Facts {
  import opened Wire
  import opened Sha256

  // ------------------------------------------------------- bit by bit

  predicate Bit(x: Word, i: Word)
    requires i < 32
  {
    (x >> i) & 1 == 1
  }

  lemma AndBit(x: Word, y: Word, i: Word)
    requires i < 32
    ensures Bit(And(x, y), i) <==> Bit(x, i) && Bit(y, i)
  {
  }

  lemma XorBit(x: Word, y: Word, i: Word)
    requires i < 32
    ensures Bit(Xor(x, y), i) <==> Bit(x, i) != Bit(y, i)
  {
    assert (x ^ y) >> i == (x >> i) ^ (y >> i);
    LowBit(x >> i, y >> i);
  }

  lemma LowBit(x: Word, y: Word)
    ensures (x ^ y) & 1 == 1 <==> (x & 1 == 1) != (y & 1 == 1)
  {
  }

  lemma NotBit(x: Word, i: Word)
    requires i < 32
    ensures Bit(Not(x), i) <==> !Bit(x, i)
  {
  }

  /** Choice: the second word's bit where the first has a one, else the third's. */
  lemma ChBits(x: Word, y: Word, z: Word, i: Word)
    requires i < 32
    ensures Bit(Ch(x, y, z), i) <==> if Bit(x, i) then Bit(y, i) else Bit(z, i)
  {
    hide Bit, And, Not, Xor;
    NotBit(x, i);
    AndBit(x, y, i);
    AndBit(Not(x), z, i);
    XorBit(And(x, y), And(Not(x), z), i);
  }

  /** Majority: what at least two of the three have. */
  lemma MajBits(x: Word, y: Word, z: Word, i: Word)
    requires i < 32
    ensures Bit(Maj(x, y, z), i) <==> (Bit(x, i) && Bit(y, i)) || (Bit(x, i) && Bit(z, i)) || (Bit(y, i) && Bit(z, i))
  {
    hide Bit, And, Xor3;
    AndBit(x, y, i);
    AndBit(x, z, i);
    AndBit(y, z, i);
    XorBits(And(x, y), And(x, z), And(y, z), i);
  }

  /** The position `n` places above `i`, around the word. */
  function Above(i: Word, n: Word): (j: Word)
    requires i < 32 && n < 32
    ensures j < 32
  {
    (i + n) % 32
  }

  /** Rotation to the right by any amount. */
  lemma RotrBits(x: Word, n: Word, i: Word)
    requires 0 < n < 32 && i < 32
    ensures Bit(Rotr(x, n), i) <==> Bit(x, Above(i, n))
  {
    assert (i + n) % 32 == (i + n) & 31;
  }

  /** The bit `n` places above `i`, and nothing above the word. */
  predicate ShiftedBit(x: Word, i: Word, n: Word)
    requires i < 32 && n < 32
  {
    i < 32 - n && Bit(x, i + n)
  }

  lemma ShiftBits3(x: Word, i: Word)
    requires i < 32
    ensures Bit(Shr(x, 3), i) <==> ShiftedBit(x, i, 3)
  {
  }

  lemma ShiftBits10(x: Word, i: Word)
    requires i < 32
    ensures Bit(Shr(x, 10), i) <==> ShiftedBit(x, i, 10)
  {
  }

  lemma XorBits(x: Word, y: Word, z: Word, i: Word)
    requires i < 32
    ensures Bit(Xor3(x, y, z), i) <==> (Bit(x, i) != (Bit(y, i) != Bit(z, i)))
  {
    hide Bit, Xor;
    XorBit(x, y, i);
    XorBit(Xor(x, y), z, i);
  }

  /** The parity of three bits of a word. */
  predicate Odd3(x: Word, i: Word, j: Word, k: Word)
    requires i < 32 && j < 32 && k < 32
  {
    Bit(x, i) != (Bit(x, j) != Bit(x, k))
  }

  /** The functions of section 4.1.2. */
  lemma BigSigma0Bits(x: Word, i: Word)
    requires i < 32
    ensures Bit(BigSigma0(x), i) <==> Odd3(x, Above(i, 2), Above(i, 13), Above(i, 22))
  {
    hide Bit, Rotr, Shr, Xor3, Above, ShiftedBit;
    RotrBits(x, 2, i);
    RotrBits(x, 13, i);
    RotrBits(x, 22, i);
    XorBits(Rotr(x, 2), Rotr(x, 13), Rotr(x, 22), i);
  }

  lemma BigSigma1Bits(x: Word, i: Word)
    requires i < 32
    ensures Bit(BigSigma1(x), i) <==> Odd3(x, Above(i, 6), Above(i, 11), Above(i, 25))
  {
    hide Bit, Rotr, Shr, Xor3, Above, ShiftedBit;
    RotrBits(x, 6, i);
    RotrBits(x, 11, i);
    RotrBits(x, 25, i);
    XorBits(Rotr(x, 6), Rotr(x, 11), Rotr(x, 25), i);
  }

  lemma SmallSigma0Bits(x: Word, i: Word)
    requires i < 32
    ensures Bit(SmallSigma0(x), i) <==>
      (Bit(x, Above(i, 7)) != (Bit(x, Above(i, 18)) != ShiftedBit(x, i, 3)))
  {
    hide Bit, Rotr, Shr, Xor3, Above, ShiftedBit;
    RotrBits(x, 7, i);
    RotrBits(x, 18, i);
    ShiftBits3(x, i);
    XorBits(Rotr(x, 7), Rotr(x, 18), Shr(x, 3), i);
  }

  lemma SmallSigma1Bits(x: Word, i: Word)
    requires i < 32
    ensures Bit(SmallSigma1(x), i) <==>
      (Bit(x, Above(i, 17)) != (Bit(x, Above(i, 19)) != ShiftedBit(x, i, 10)))
  {
    hide Bit, Rotr, Shr, Xor3, Above, ShiftedBit;
    RotrBits(x, 17, i);
    RotrBits(x, 19, i);
    ShiftBits10(x, i);
    XorBits(Rotr(x, 17), Rotr(x, 19), Shr(x, 10), i);
  }

  /** Four bytes are joined most significant first, and taken apart the same way. */
  lemma JoinBytes(x0: Word, x1: Word, x2: Word, x3: Word)
    requires x0 < 256 && x1 < 256 && x2 < 256 && x3 < 256
    ensures WordBytes(Join(x0 as int, x1 as int, x2 as int, x3 as int)) == [x0 as int, x1 as int, x2 as int, x3 as int]
  {
    AsWord(x0);
    AsWord(x1);
    AsWord(x2);
    AsWord(x3);
    JoinedByte(x0, x1, x2, x3);
  }

  lemma AsWord(x: Word)
    ensures (x as int) as Word == x
  {
  }

  lemma JoinedByte(x0: Word, x1: Word, x2: Word, x3: Word)
    requires x0 < 256 && x1 < 256 && x2 < 256 && x3 < 256
    ensures var w := (x0 << 24) | (x1 << 16) | (x2 << 8) | x3;
            (w >> 24) & 0xFF == x0 && (w >> 16) & 0xFF == x1 && (w >> 8) & 0xFF == x2 && w & 0xFF == x3
  {
  }

  // ------------------------------------------------------- the constants

  /** The first 64 primes. */
  const PRIMES: seq<nat> :=
    [2, 3, 5, 7, 11, 13, 17, 19]
    + [23, 29, 31, 37, 41, 43, 47, 53]
    + [59, 61, 67, 71, 73, 79, 83, 89]
    + [97, 101, 103, 107, 109, 113, 127, 131]
    + [137, 139, 149, 151, 157, 163, 167, 173]
    + [179, 181, 191, 193, 197, 199, 211, 223]
    + [227, 229, 233, 239, 241, 251, 257, 263]
    + [269, 271, 277, 281, 283, 293, 307, 311]

  /** `m` and the fraction `k` of 32 bits are the cube root of `p`, rounded down. */
  predicate IsCubeRoot(p: nat, m: nat, k: Word) {
    var c := m * 0x1_0000_0000 + k as int;
    c * c * c <= p * 0x1_0000_0000_0000_0000_0000_0000 < (c + 1) * (c + 1) * (c + 1)
  }

  predicate IsSquareRoot(p: nat, m: nat, k: Word) {
    var c := m * 0x1_0000_0000 + k as int;
    c * c <= p * 0x1_0000_0000_0000_0000 < (c + 1) * (c + 1)
  }

  function Prime(t: nat): nat
    requires t < 64
  {
    PRIMES[t]
  }

  lemma Constants0()
    ensures Constant(0) == 0x428a2f98 && IsCubeRoot(Prime(0), 1, 0x428a2f98)
    ensures Constant(1) == 0x71374491 && IsCubeRoot(Prime(1), 1, 0x71374491)
    ensures Constant(2) == 0xb5c0fbcf && IsCubeRoot(Prime(2), 1, 0xb5c0fbcf)
    ensures Constant(3) == 0xe9b5dba5 && IsCubeRoot(Prime(3), 1, 0xe9b5dba5)
  {
  }

  lemma Constants1()
    ensures Constant(4) == 0x3956c25b && IsCubeRoot(Prime(4), 2, 0x3956c25b)
    ensures Constant(5) == 0x59f111f1 && IsCubeRoot(Prime(5), 2, 0x59f111f1)
    ensures Constant(6) == 0x923f82a4 && IsCubeRoot(Prime(6), 2, 0x923f82a4)
    ensures Constant(7) == 0xab1c5ed5 && IsCubeRoot(Prime(7), 2, 0xab1c5ed5)
  {
  }

  lemma Constants2()
    ensures Constant(8) == 0xd807aa98 && IsCubeRoot(Prime(8), 2, 0xd807aa98)
    ensures Constant(9) == 0x12835b01 && IsCubeRoot(Prime(9), 3, 0x12835b01)
    ensures Constant(10) == 0x243185be && IsCubeRoot(Prime(10), 3, 0x243185be)
    ensures Constant(11) == 0x550c7dc3 && IsCubeRoot(Prime(11), 3, 0x550c7dc3)
  {
  }

  lemma Constants3()
    ensures Constant(12) == 0x72be5d74 && IsCubeRoot(Prime(12), 3, 0x72be5d74)
    ensures Constant(13) == 0x80deb1fe && IsCubeRoot(Prime(13), 3, 0x80deb1fe)
    ensures Constant(14) == 0x9bdc06a7 && IsCubeRoot(Prime(14), 3, 0x9bdc06a7)
    ensures Constant(15) == 0xc19bf174 && IsCubeRoot(Prime(15), 3, 0xc19bf174)
  {
  }

  lemma Constants4()
    ensures Constant(16) == 0xe49b69c1 && IsCubeRoot(Prime(16), 3, 0xe49b69c1)
    ensures Constant(17) == 0xefbe4786 && IsCubeRoot(Prime(17), 3, 0xefbe4786)
    ensures Constant(18) == 0x0fc19dc6 && IsCubeRoot(Prime(18), 4, 0x0fc19dc6)
    ensures Constant(19) == 0x240ca1cc && IsCubeRoot(Prime(19), 4, 0x240ca1cc)
  {
  }

  lemma Constants5()
    ensures Constant(20) == 0x2de92c6f && IsCubeRoot(Prime(20), 4, 0x2de92c6f)
    ensures Constant(21) == 0x4a7484aa && IsCubeRoot(Prime(21), 4, 0x4a7484aa)
    ensures Constant(22) == 0x5cb0a9dc && IsCubeRoot(Prime(22), 4, 0x5cb0a9dc)
    ensures Constant(23) == 0x76f988da && IsCubeRoot(Prime(23), 4, 0x76f988da)
  {
  }

  lemma Constants6()
    ensures Constant(24) == 0x983e5152 && IsCubeRoot(Prime(24), 4, 0x983e5152)
    ensures Constant(25) == 0xa831c66d && IsCubeRoot(Prime(25), 4, 0xa831c66d)
    ensures Constant(26) == 0xb00327c8 && IsCubeRoot(Prime(26), 4, 0xb00327c8)
    ensures Constant(27) == 0xbf597fc7 && IsCubeRoot(Prime(27), 4, 0xbf597fc7)
  {
  }

  lemma Constants7()
    ensures Constant(28) == 0xc6e00bf3 && IsCubeRoot(Prime(28), 4, 0xc6e00bf3)
    ensures Constant(29) == 0xd5a79147 && IsCubeRoot(Prime(29), 4, 0xd5a79147)
    ensures Constant(30) == 0x06ca6351 && IsCubeRoot(Prime(30), 5, 0x06ca6351)
    ensures Constant(31) == 0x14292967 && IsCubeRoot(Prime(31), 5, 0x14292967)
  {
  }

  lemma Constants8()
    ensures Constant(32) == 0x27b70a85 && IsCubeRoot(Prime(32), 5, 0x27b70a85)
    ensures Constant(33) == 0x2e1b2138 && IsCubeRoot(Prime(33), 5, 0x2e1b2138)
    ensures Constant(34) == 0x4d2c6dfc && IsCubeRoot(Prime(34), 5, 0x4d2c6dfc)
    ensures Constant(35) == 0x53380d13 && IsCubeRoot(Prime(35), 5, 0x53380d13)
  {
  }

  lemma Constants9()
    ensures Constant(36) == 0x650a7354 && IsCubeRoot(Prime(36), 5, 0x650a7354)
    ensures Constant(37) == 0x766a0abb && IsCubeRoot(Prime(37), 5, 0x766a0abb)
    ensures Constant(38) == 0x81c2c92e && IsCubeRoot(Prime(38), 5, 0x81c2c92e)
    ensures Constant(39) == 0x92722c85 && IsCubeRoot(Prime(39), 5, 0x92722c85)
  {
  }

  lemma Constants10()
    ensures Constant(40) == 0xa2bfe8a1 && IsCubeRoot(Prime(40), 5, 0xa2bfe8a1)
    ensures Constant(41) == 0xa81a664b && IsCubeRoot(Prime(41), 5, 0xa81a664b)
    ensures Constant(42) == 0xc24b8b70 && IsCubeRoot(Prime(42), 5, 0xc24b8b70)
    ensures Constant(43) == 0xc76c51a3 && IsCubeRoot(Prime(43), 5, 0xc76c51a3)
  {
  }

  lemma Constants11()
    ensures Constant(44) == 0xd192e819 && IsCubeRoot(Prime(44), 5, 0xd192e819)
    ensures Constant(45) == 0xd6990624 && IsCubeRoot(Prime(45), 5, 0xd6990624)
    ensures Constant(46) == 0xf40e3585 && IsCubeRoot(Prime(46), 5, 0xf40e3585)
    ensures Constant(47) == 0x106aa070 && IsCubeRoot(Prime(47), 6, 0x106aa070)
  {
  }

  lemma Constants12()
    ensures Constant(48) == 0x19a4c116 && IsCubeRoot(Prime(48), 6, 0x19a4c116)
    ensures Constant(49) == 0x1e376c08 && IsCubeRoot(Prime(49), 6, 0x1e376c08)
    ensures Constant(50) == 0x2748774c && IsCubeRoot(Prime(50), 6, 0x2748774c)
    ensures Constant(51) == 0x34b0bcb5 && IsCubeRoot(Prime(51), 6, 0x34b0bcb5)
  {
  }

  lemma Constants13()
    ensures Constant(52) == 0x391c0cb3 && IsCubeRoot(Prime(52), 6, 0x391c0cb3)
    ensures Constant(53) == 0x4ed8aa4a && IsCubeRoot(Prime(53), 6, 0x4ed8aa4a)
    ensures Constant(54) == 0x5b9cca4f && IsCubeRoot(Prime(54), 6, 0x5b9cca4f)
    ensures Constant(55) == 0x682e6ff3 && IsCubeRoot(Prime(55), 6, 0x682e6ff3)
  {
  }

  lemma Constants14()
    ensures Constant(56) == 0x748f82ee && IsCubeRoot(Prime(56), 6, 0x748f82ee)
    ensures Constant(57) == 0x78a5636f && IsCubeRoot(Prime(57), 6, 0x78a5636f)
    ensures Constant(58) == 0x84c87814 && IsCubeRoot(Prime(58), 6, 0x84c87814)
    ensures Constant(59) == 0x8cc70208 && IsCubeRoot(Prime(59), 6, 0x8cc70208)
  {
  }

  lemma Constants15()
    ensures Constant(60) == 0x90befffa && IsCubeRoot(Prime(60), 6, 0x90befffa)
    ensures Constant(61) == 0xa4506ceb && IsCubeRoot(Prime(61), 6, 0xa4506ceb)
    ensures Constant(62) == 0xbef9a3f7 && IsCubeRoot(Prime(62), 6, 0xbef9a3f7)
    ensures Constant(63) == 0xc67178f2 && IsCubeRoot(Prime(63), 6, 0xc67178f2)
  {
  }

  /** Every constant is the first 32 bits of the fractional part of the cube root
      of the prime of its index (section 4.2.2) ... */
  lemma ConstantIsCubeRoot(t: nat)
    requires t < 64
    ensures exists m: nat :: IsCubeRoot(Prime(t), m, Constant(t))
  {
    hide IsCubeRoot, Constant, Prime;
    if t < 4 {
      Constants0();
    } else if t < 8 {
      Constants1();
    } else if t < 12 {
      Constants2();
    } else if t < 16 {
      Constants3();
    } else if t < 20 {
      Constants4();
    } else if t < 24 {
      Constants5();
    } else if t < 28 {
      Constants6();
    } else if t < 32 {
      Constants7();
    } else if t < 36 {
      Constants8();
    } else if t < 40 {
      Constants9();
    } else if t < 44 {
      Constants10();
    } else if t < 48 {
      Constants11();
    } else if t < 52 {
      Constants12();
    } else if t < 56 {
      Constants13();
    } else if t < 60 {
      Constants14();
    } else if t < 64 {
      Constants15();
    }
  }

  /** ... and the initial hash value the same for square roots (section 5.3.3). */
  lemma InitialIsSquareRoot()
    ensures IsSquareRoot(2, 1, H0.a)
    ensures IsSquareRoot(3, 1, H0.b)
    ensures IsSquareRoot(5, 2, H0.c)
    ensures IsSquareRoot(7, 2, H0.d)
    ensures IsSquareRoot(11, 3, H0.e)
    ensures IsSquareRoot(13, 3, H0.f)
    ensures IsSquareRoot(17, 4, H0.g)
    ensures IsSquareRoot(19, 4, H0.h)
  {
  }

  // ------------------------------------------------------- the message "abc"

  const ABC: Bytes := [97, 98, 99]

  /** Its one block, padded. */
  function AbcBlock(): (b: Bytes)
    ensures |b| == 64
  {
    ABC + [0x80] + Zeros(59) + [24]
  }

  lemma AbcBlockAt()
    ensures AbcBlock()[0] == 0x61 && AbcBlock()[1] == 0x62 && AbcBlock()[2] == 0x63 && AbcBlock()[3] == 0x80
    ensures forall i :: 4 <= i < 63 ==> AbcBlock()[i] == 0
    ensures AbcBlock()[63] == 24
  {
  }

  const ABC_DIGEST: Bytes :=
    [0xba, 0x78, 0x16, 0xbf]
    + [0x8f, 0x01, 0xcf, 0xea]
    + [0x41, 0x41, 0x40, 0xde]
    + [0x5d, 0xae, 0x22, 0x23]
    + [0xb0, 0x03, 0x61, 0xa3]
    + [0x96, 0x17, 0x7a, 0x9c]
    + [0xb4, 0x10, 0xff, 0x61]
    + [0xf2, 0x00, 0x15, 0xad]

  lemma AbcPadded()
    ensures Padded(ABC) == AbcBlock() && BlockCount(3) == 1
  {
    assert ZeroCount(3) == 52;
    assert 8 * |ABC| % TWO64 == 24;
    BEOfZero(7);
    assert BE(8, 24) == BE(7, 0) + [24];
    assert Zeros(52) + Zeros(7) == Zeros(59);
  }

  lemma {:induction false} BEOfZero(n: nat)
    ensures BE(n, 0) == Zeros(n)
  {
    if n > 0 {
      BEOfZero(n - 1);
      assert Zeros(n) == Zeros(n - 1) + [0];
    }
  }

  lemma FirstWord(b: Bytes, t: nat, x0: Word, x1: Word, x2: Word, x3: Word)
    requires |b| == 64 && t < 16
    requires b[4 * t] == x0 as int && b[4 * t + 1] == x1 as int && b[4 * t + 2] == x2 as int && b[4 * t + 3] == x3 as int
    ensures Schedule(b, t) == (x0 << 24) | (x1 << 16) | (x2 << 8) | x3
  {
    AsWord(x0);
    AsWord(x1);
    AsWord(x2);
    AsWord(x3);
    ScheduleUnfolds(b, t);
  }

  lemma AbcWords0(b: Bytes)
    requires b == AbcBlock()
    ensures Schedule(b, 0) == 0x61626380 && Schedule(b, 15) == 0x00000018
    ensures forall t {:trigger Schedule(b, t)} :: 1 <= t < 15 ==> Schedule(b, t) == 0
  {
    hide Schedule, AbcBlock;
    AbcBlockAt();
    FirstWord(b, 0, 97, 98, 99, 128);
    FirstWord(b, 15, 0, 0, 0, 24);
    forall t | 1 <= t < 15
      ensures Schedule(b, t) == 0
    {
      FirstWord(b, t, 0, 0, 0, 0);
    }
  }

  lemma NextWord(b: Bytes, t: nat, w2: Word, w7: Word, w15: Word, w16: Word, w: Word)
    requires |b| == 64 && 16 <= t < 64
    requires Schedule(b, t - 2) == w2 && Schedule(b, t - 7) == w7
    requires Schedule(b, t - 15) == w15 && Schedule(b, t - 16) == w16
    requires Mix(w2, w7, w15, w16) == w
    ensures Schedule(b, t) == w
  {
    hide Schedule, Mix;
    ScheduleUnfolds(b, t);
  }

  lemma AbcWords1(b: Bytes)
    requires b == AbcBlock()
    ensures Schedule(b, 16) == 0x61626380
    ensures Schedule(b, 17) == 0x000f0000
    ensures Schedule(b, 18) == 0x7da86405
    ensures Schedule(b, 19) == 0x600003c6
    ensures Schedule(b, 20) == 0x3e9d7b78
    ensures Schedule(b, 21) == 0x0183fc00
    ensures Schedule(b, 22) == 0x12dcbfdb
    ensures Schedule(b, 23) == 0xe2e2c38e
  {
    hide Schedule, AbcBlock;
    AbcWords0(b);
    NextWord(b, 16, 0x00000000, 0x00000000, 0x00000000, 0x61626380, 0x61626380);
    NextWord(b, 17, 0x00000018, 0x00000000, 0x00000000, 0x00000000, 0x000f0000);
    NextWord(b, 18, 0x61626380, 0x00000000, 0x00000000, 0x00000000, 0x7da86405);
    NextWord(b, 19, 0x000f0000, 0x00000000, 0x00000000, 0x00000000, 0x600003c6);
    NextWord(b, 20, 0x7da86405, 0x00000000, 0x00000000, 0x00000000, 0x3e9d7b78);
    NextWord(b, 21, 0x600003c6, 0x00000000, 0x00000000, 0x00000000, 0x0183fc00);
    NextWord(b, 22, 0x3e9d7b78, 0x00000018, 0x00000000, 0x00000000, 0x12dcbfdb);
    NextWord(b, 23, 0x0183fc00, 0x61626380, 0x00000000, 0x00000000, 0xe2e2c38e);
  }

  lemma AbcWords2(b: Bytes)
    requires b == AbcBlock()
    ensures Schedule(b, 24) == 0xc8215c1a
    ensures Schedule(b, 25) == 0xb73679a2
    ensures Schedule(b, 26) == 0xe5bc3909
    ensures Schedule(b, 27) == 0x32663c5b
    ensures Schedule(b, 28) == 0x9d209d67
    ensures Schedule(b, 29) == 0xec8726cb
    ensures Schedule(b, 30) == 0x702138a4
    ensures Schedule(b, 31) == 0xd3b7973b
  {
    hide Schedule, AbcBlock;
    AbcWords0(b);
    AbcWords1(b);
    NextWord(b, 24, 0x12dcbfdb, 0x000f0000, 0x00000000, 0x00000000, 0xc8215c1a);
    NextWord(b, 25, 0xe2e2c38e, 0x7da86405, 0x00000000, 0x00000000, 0xb73679a2);
    NextWord(b, 26, 0xc8215c1a, 0x600003c6, 0x00000000, 0x00000000, 0xe5bc3909);
    NextWord(b, 27, 0xb73679a2, 0x3e9d7b78, 0x00000000, 0x00000000, 0x32663c5b);
    NextWord(b, 28, 0xe5bc3909, 0x0183fc00, 0x00000000, 0x00000000, 0x9d209d67);
    NextWord(b, 29, 0x32663c5b, 0x12dcbfdb, 0x00000000, 0x00000000, 0xec8726cb);
    NextWord(b, 30, 0x9d209d67, 0xe2e2c38e, 0x00000018, 0x00000000, 0x702138a4);
    NextWord(b, 31, 0xec8726cb, 0xc8215c1a, 0x61626380, 0x00000018, 0xd3b7973b);
  }

  lemma AbcWords3(b: Bytes)
    requires b == AbcBlock()
    ensures Schedule(b, 32) == 0x93f5997f
    ensures Schedule(b, 33) == 0x3b68ba73
    ensures Schedule(b, 34) == 0xaff4ffc1
    ensures Schedule(b, 35) == 0xf10a5c62
    ensures Schedule(b, 36) == 0x0a8b3996
    ensures Schedule(b, 37) == 0x72af830a
    ensures Schedule(b, 38) == 0x9409e33e
    ensures Schedule(b, 39) == 0x24641522
  {
    hide Schedule, AbcBlock;
    AbcWords1(b);
    AbcWords2(b);
    NextWord(b, 32, 0x702138a4, 0xb73679a2, 0x000f0000, 0x61626380, 0x93f5997f);
    NextWord(b, 33, 0xd3b7973b, 0xe5bc3909, 0x7da86405, 0x000f0000, 0x3b68ba73);
    NextWord(b, 34, 0x93f5997f, 0x32663c5b, 0x600003c6, 0x7da86405, 0xaff4ffc1);
    NextWord(b, 35, 0x3b68ba73, 0x9d209d67, 0x3e9d7b78, 0x600003c6, 0xf10a5c62);
    NextWord(b, 36, 0xaff4ffc1, 0xec8726cb, 0x0183fc00, 0x3e9d7b78, 0x0a8b3996);
    NextWord(b, 37, 0xf10a5c62, 0x702138a4, 0x12dcbfdb, 0x0183fc00, 0x72af830a);
    NextWord(b, 38, 0x0a8b3996, 0xd3b7973b, 0xe2e2c38e, 0x12dcbfdb, 0x9409e33e);
    NextWord(b, 39, 0x72af830a, 0x93f5997f, 0xc8215c1a, 0xe2e2c38e, 0x24641522);
  }

  lemma AbcWords4(b: Bytes)
    requires b == AbcBlock()
    ensures Schedule(b, 40) == 0x9f47bf94
    ensures Schedule(b, 41) == 0xf0a64f5a
    ensures Schedule(b, 42) == 0x3e246a79
    ensures Schedule(b, 43) == 0x27333ba3
    ensures Schedule(b, 44) == 0x0c4763f2
    ensures Schedule(b, 45) == 0x840abf27
    ensures Schedule(b, 46) == 0x7a290d5d
    ensures Schedule(b, 47) == 0x065c43da
  {
    hide Schedule, AbcBlock;
    AbcWords2(b);
    AbcWords3(b);
    NextWord(b, 40, 0x9409e33e, 0x3b68ba73, 0xb73679a2, 0xc8215c1a, 0x9f47bf94);
    NextWord(b, 41, 0x24641522, 0xaff4ffc1, 0xe5bc3909, 0xb73679a2, 0xf0a64f5a);
    NextWord(b, 42, 0x9f47bf94, 0xf10a5c62, 0x32663c5b, 0xe5bc3909, 0x3e246a79);
    NextWord(b, 43, 0xf0a64f5a, 0x0a8b3996, 0x9d209d67, 0x32663c5b, 0x27333ba3);
    NextWord(b, 44, 0x3e246a79, 0x72af830a, 0xec8726cb, 0x9d209d67, 0x0c4763f2);
    NextWord(b, 45, 0x27333ba3, 0x9409e33e, 0x702138a4, 0xec8726cb, 0x840abf27);
    NextWord(b, 46, 0x0c4763f2, 0x24641522, 0xd3b7973b, 0x702138a4, 0x7a290d5d);
    NextWord(b, 47, 0x840abf27, 0x9f47bf94, 0x93f5997f, 0xd3b7973b, 0x065c43da);
  }

  lemma AbcWords5(b: Bytes)
    requires b == AbcBlock()
    ensures Schedule(b, 48) == 0xfb3e89cb
    ensures Schedule(b, 49) == 0xcc7617db
    ensures Schedule(b, 50) == 0xb9e66c34
    ensures Schedule(b, 51) == 0xa9993667
    ensures Schedule(b, 52) == 0x84badedd
    ensures Schedule(b, 53) == 0xc21462bc
    ensures Schedule(b, 54) == 0x1487472c
    ensures Schedule(b, 55) == 0xb20f7a99
  {
    hide Schedule, AbcBlock;
    AbcWords3(b);
    AbcWords4(b);
    NextWord(b, 48, 0x7a290d5d, 0xf0a64f5a, 0x3b68ba73, 0x93f5997f, 0xfb3e89cb);
    NextWord(b, 49, 0x065c43da, 0x3e246a79, 0xaff4ffc1, 0x3b68ba73, 0xcc7617db);
    NextWord(b, 50, 0xfb3e89cb, 0x27333ba3, 0xf10a5c62, 0xaff4ffc1, 0xb9e66c34);
    NextWord(b, 51, 0xcc7617db, 0x0c4763f2, 0x0a8b3996, 0xf10a5c62, 0xa9993667);
    NextWord(b, 52, 0xb9e66c34, 0x840abf27, 0x72af830a, 0x0a8b3996, 0x84badedd);
    NextWord(b, 53, 0xa9993667, 0x7a290d5d, 0x9409e33e, 0x72af830a, 0xc21462bc);
    NextWord(b, 54, 0x84badedd, 0x065c43da, 0x24641522, 0x9409e33e, 0x1487472c);
    NextWord(b, 55, 0xc21462bc, 0xfb3e89cb, 0x9f47bf94, 0x24641522, 0xb20f7a99);
  }

  lemma AbcWords6(b: Bytes)
    requires b == AbcBlock()
    ensures Schedule(b, 56) == 0xef57b9cd
    ensures Schedule(b, 57) == 0xebe6b238
    ensures Schedule(b, 58) == 0x9fe3095e
    ensures Schedule(b, 59) == 0x78bc8d4b
    ensures Schedule(b, 60) == 0xa43fcf15
    ensures Schedule(b, 61) == 0x668b2ff8
    ensures Schedule(b, 62) == 0xeeaba2cc
    ensures Schedule(b, 63) == 0x12b1edeb
  {
    hide Schedule, AbcBlock;
    AbcWords4(b);
    AbcWords5(b);
    NextWord(b, 56, 0x1487472c, 0xcc7617db, 0xf0a64f5a, 0x9f47bf94, 0xef57b9cd);
    NextWord(b, 57, 0xb20f7a99, 0xb9e66c34, 0x3e246a79, 0xf0a64f5a, 0xebe6b238);
    NextWord(b, 58, 0xef57b9cd, 0xa9993667, 0x27333ba3, 0x3e246a79, 0x9fe3095e);
    NextWord(b, 59, 0xebe6b238, 0x84badedd, 0x0c4763f2, 0x27333ba3, 0x78bc8d4b);
    NextWord(b, 60, 0x9fe3095e, 0xc21462bc, 0x840abf27, 0x0c4763f2, 0xa43fcf15);
    NextWord(b, 61, 0x78bc8d4b, 0x1487472c, 0x7a290d5d, 0x840abf27, 0x668b2ff8);
    NextWord(b, 62, 0xa43fcf15, 0xb20f7a99, 0x065c43da, 0x7a290d5d, 0xeeaba2cc);
    NextWord(b, 63, 0x668b2ff8, 0xef57b9cd, 0xfb3e89cb, 0x065c43da, 0x12b1edeb);
  }

  lemma AbcRounds0(b: Bytes)
    requires b == AbcBlock()
    ensures Rounds(H0, b, 8) == Hash(0x85a07b5f, 0xe5030380, 0x2b4209f5, 0x04409a6a, 0x0c657a79, 0x9b27a401, 0x714260ad, 0x43ada245)
  {
    hide Rounds, Round, Schedule, Constant, AbcBlock, IsCubeRoot;
    assert H0 == Hash(0x6a09e667, 0xbb67ae85, 0x3c6ef372, 0xa54ff53a, 0x510e527f, 0x9b05688c, 0x1f83d9ab, 0x5be0cd19);
    Constants0();
    Constants1();
    AbcWords0(b);
    AbcSteps0();
    RoundsUnfold(b, 0);
    RoundsUnfold(b, 1);
    RoundsUnfold(b, 2);
    RoundsUnfold(b, 3);
    RoundsUnfold(b, 4);
    RoundsUnfold(b, 5);
    RoundsUnfold(b, 6);
    RoundsUnfold(b, 7);
  }

  lemma AbcSteps0()
    ensures Round(Hash(0x6a09e667, 0xbb67ae85, 0x3c6ef372, 0xa54ff53a, 0x510e527f, 0x9b05688c, 0x1f83d9ab, 0x5be0cd19), 0x428a2f98, 0x61626380)
         == Hash(0x5d6aebcd, 0x6a09e667, 0xbb67ae85, 0x3c6ef372, 0xfa2a4622, 0x510e527f, 0x9b05688c, 0x1f83d9ab)
    ensures Round(Hash(0x5d6aebcd, 0x6a09e667, 0xbb67ae85, 0x3c6ef372, 0xfa2a4622, 0x510e527f, 0x9b05688c, 0x1f83d9ab), 0x71374491, 0x00000000)
         == Hash(0x5a6ad9ad, 0x5d6aebcd, 0x6a09e667, 0xbb67ae85, 0x78ce7989, 0xfa2a4622, 0x510e527f, 0x9b05688c)
    ensures Round(Hash(0x5a6ad9ad, 0x5d6aebcd, 0x6a09e667, 0xbb67ae85, 0x78ce7989, 0xfa2a4622, 0x510e527f, 0x9b05688c), 0xb5c0fbcf, 0x00000000)
         == Hash(0xc8c347a7, 0x5a6ad9ad, 0x5d6aebcd, 0x6a09e667, 0xf92939eb, 0x78ce7989, 0xfa2a4622, 0x510e527f)
    ensures Round(Hash(0xc8c347a7, 0x5a6ad9ad, 0x5d6aebcd, 0x6a09e667, 0xf92939eb, 0x78ce7989, 0xfa2a4622, 0x510e527f), 0xe9b5dba5, 0x00000000)
         == Hash(0xd550f666, 0xc8c347a7, 0x5a6ad9ad, 0x5d6aebcd, 0x24e00850, 0xf92939eb, 0x78ce7989, 0xfa2a4622)
    ensures Round(Hash(0xd550f666, 0xc8c347a7, 0x5a6ad9ad, 0x5d6aebcd, 0x24e00850, 0xf92939eb, 0x78ce7989, 0xfa2a4622), 0x3956c25b, 0x00000000)
         == Hash(0x04409a6a, 0xd550f666, 0xc8c347a7, 0x5a6ad9ad, 0x43ada245, 0x24e00850, 0xf92939eb, 0x78ce7989)
    ensures Round(Hash(0x04409a6a, 0xd550f666, 0xc8c347a7, 0x5a6ad9ad, 0x43ada245, 0x24e00850, 0xf92939eb, 0x78ce7989), 0x59f111f1, 0x00000000)
         == Hash(0x2b4209f5, 0x04409a6a, 0xd550f666, 0xc8c347a7, 0x714260ad, 0x43ada245, 0x24e00850, 0xf92939eb)
    ensures Round(Hash(0x2b4209f5, 0x04409a6a, 0xd550f666, 0xc8c347a7, 0x714260ad, 0x43ada245, 0x24e00850, 0xf92939eb), 0x923f82a4, 0x00000000)
         == Hash(0xe5030380, 0x2b4209f5, 0x04409a6a, 0xd550f666, 0x9b27a401, 0x714260ad, 0x43ada245, 0x24e00850)
    ensures Round(Hash(0xe5030380, 0x2b4209f5, 0x04409a6a, 0xd550f666, 0x9b27a401, 0x714260ad, 0x43ada245, 0x24e00850), 0xab1c5ed5, 0x00000000)
         == Hash(0x85a07b5f, 0xe5030380, 0x2b4209f5, 0x04409a6a, 0x0c657a79, 0x9b27a401, 0x714260ad, 0x43ada245)
  {
  }

  lemma AbcRounds1(b: Bytes)
    requires b == AbcBlock()
    ensures Rounds(H0, b, 16) == Hash(0xb0fa238e, 0xc0645fde, 0xd932eb16, 0x87912990, 0x07590dcd, 0x0b92f20c, 0x745a48de, 0x1e578218)
  {
    hide Rounds, Round, Schedule, Constant, AbcBlock, IsCubeRoot;
    AbcRounds0(b);
    Constants2();
    Constants3();
    AbcWords0(b);
    AbcSteps1();
    RoundsUnfold(b, 8);
    RoundsUnfold(b, 9);
    RoundsUnfold(b, 10);
    RoundsUnfold(b, 11);
    RoundsUnfold(b, 12);
    RoundsUnfold(b, 13);
    RoundsUnfold(b, 14);
    RoundsUnfold(b, 15);
  }

  lemma AbcSteps1()
    ensures Round(Hash(0x85a07b5f, 0xe5030380, 0x2b4209f5, 0x04409a6a, 0x0c657a79, 0x9b27a401, 0x714260ad, 0x43ada245), 0xd807aa98, 0x00000000)
         == Hash(0x8e04ecb9, 0x85a07b5f, 0xe5030380, 0x2b4209f5, 0x32ca2d8c, 0x0c657a79, 0x9b27a401, 0x714260ad)
    ensures Round(Hash(0x8e04ecb9, 0x85a07b5f, 0xe5030380, 0x2b4209f5, 0x32ca2d8c, 0x0c657a79, 0x9b27a401, 0x714260ad), 0x12835b01, 0x00000000)
         == Hash(0x8c87346b, 0x8e04ecb9, 0x85a07b5f, 0xe5030380, 0x1cc92596, 0x32ca2d8c, 0x0c657a79, 0x9b27a401)
    ensures Round(Hash(0x8c87346b, 0x8e04ecb9, 0x85a07b5f, 0xe5030380, 0x1cc92596, 0x32ca2d8c, 0x0c657a79, 0x9b27a401), 0x243185be, 0x00000000)
         == Hash(0x4798a3f4, 0x8c87346b, 0x8e04ecb9, 0x85a07b5f, 0x436b23e8, 0x1cc92596, 0x32ca2d8c, 0x0c657a79)
    ensures Round(Hash(0x4798a3f4, 0x8c87346b, 0x8e04ecb9, 0x85a07b5f, 0x436b23e8, 0x1cc92596, 0x32ca2d8c, 0x0c657a79), 0x550c7dc3, 0x00000000)
         == Hash(0xf71fc5a9, 0x4798a3f4, 0x8c87346b, 0x8e04ecb9, 0x816fd6e9, 0x436b23e8, 0x1cc92596, 0x32ca2d8c)
    ensures Round(Hash(0xf71fc5a9, 0x4798a3f4, 0x8c87346b, 0x8e04ecb9, 0x816fd6e9, 0x436b23e8, 0x1cc92596, 0x32ca2d8c), 0x72be5d74, 0x00000000)
         == Hash(0x87912990, 0xf71fc5a9, 0x4798a3f4, 0x8c87346b, 0x1e578218, 0x816fd6e9, 0x436b23e8, 0x1cc92596)
    ensures Round(Hash(0x87912990, 0xf71fc5a9, 0x4798a3f4, 0x8c87346b, 0x1e578218, 0x816fd6e9, 0x436b23e8, 0x1cc92596), 0x80deb1fe, 0x00000000)
         == Hash(0xd932eb16, 0x87912990, 0xf71fc5a9, 0x4798a3f4, 0x745a48de, 0x1e578218, 0x816fd6e9, 0x436b23e8)
    ensures Round(Hash(0xd932eb16, 0x87912990, 0xf71fc5a9, 0x4798a3f4, 0x745a48de, 0x1e578218, 0x816fd6e9, 0x436b23e8), 0x9bdc06a7, 0x00000000)
         == Hash(0xc0645fde, 0xd932eb16, 0x87912990, 0xf71fc5a9, 0x0b92f20c, 0x745a48de, 0x1e578218, 0x816fd6e9)
    ensures Round(Hash(0xc0645fde, 0xd932eb16, 0x87912990, 0xf71fc5a9, 0x0b92f20c, 0x745a48de, 0x1e578218, 0x816fd6e9), 0xc19bf174, 0x00000018)
         == Hash(0xb0fa238e, 0xc0645fde, 0xd932eb16, 0x87912990, 0x07590dcd, 0x0b92f20c, 0x745a48de, 0x1e578218)
  {
  }

  lemma AbcRounds2(b: Bytes)
    requires b == AbcBlock()
    ensures Rounds(H0, b, 24) == Hash(0xc5d53d8d, 0xa7a3623f, 0xc2606d6d, 0x9dc68b63, 0xaa47c347, 0x49f5114a, 0xe1257970, 0x8ada8930)
  {
    hide Rounds, Round, Schedule, Constant, AbcBlock, IsCubeRoot;
    AbcRounds1(b);
    Constants4();
    Constants5();
    AbcWords1(b);
    AbcSteps2();
    RoundsUnfold(b, 16);
    RoundsUnfold(b, 17);
    RoundsUnfold(b, 18);
    RoundsUnfold(b, 19);
    RoundsUnfold(b, 20);
    RoundsUnfold(b, 21);
    RoundsUnfold(b, 22);
    RoundsUnfold(b, 23);
  }

  lemma AbcSteps2()
    ensures Round(Hash(0xb0fa238e, 0xc0645fde, 0xd932eb16, 0x87912990, 0x07590dcd, 0x0b92f20c, 0x745a48de, 0x1e578218), 0xe49b69c1, 0x61626380)
         == Hash(0x21da9a9b, 0xb0fa238e, 0xc0645fde, 0xd932eb16, 0x8034229c, 0x07590dcd, 0x0b92f20c, 0x745a48de)
    ensures Round(Hash(0x21da9a9b, 0xb0fa238e, 0xc0645fde, 0xd932eb16, 0x8034229c, 0x07590dcd, 0x0b92f20c, 0x745a48de), 0xefbe4786, 0x000f0000)
         == Hash(0xc2fbd9d1, 0x21da9a9b, 0xb0fa238e, 0xc0645fde, 0x846ee454, 0x8034229c, 0x07590dcd, 0x0b92f20c)
    ensures Round(Hash(0xc2fbd9d1, 0x21da9a9b, 0xb0fa238e, 0xc0645fde, 0x846ee454, 0x8034229c, 0x07590dcd, 0x0b92f20c), 0x0fc19dc6, 0x7da86405)
         == Hash(0xfe777bbf, 0xc2fbd9d1, 0x21da9a9b, 0xb0fa238e, 0xcc899961, 0x846ee454, 0x8034229c, 0x07590dcd)
    ensures Round(Hash(0xfe777bbf, 0xc2fbd9d1, 0x21da9a9b, 0xb0fa238e, 0xcc899961, 0x846ee454, 0x8034229c, 0x07590dcd), 0x240ca1cc, 0x600003c6)
         == Hash(0xe1f20c33, 0xfe777bbf, 0xc2fbd9d1, 0x21da9a9b, 0xb0638179, 0xcc899961, 0x846ee454, 0x8034229c)
    ensures Round(Hash(0xe1f20c33, 0xfe777bbf, 0xc2fbd9d1, 0x21da9a9b, 0xb0638179, 0xcc899961, 0x846ee454, 0x8034229c), 0x2de92c6f, 0x3e9d7b78)
         == Hash(0x9dc68b63, 0xe1f20c33, 0xfe777bbf, 0xc2fbd9d1, 0x8ada8930, 0xb0638179, 0xcc899961, 0x846ee454)
    ensures Round(Hash(0x9dc68b63, 0xe1f20c33, 0xfe777bbf, 0xc2fbd9d1, 0x8ada8930, 0xb0638179, 0xcc899961, 0x846ee454), 0x4a7484aa, 0x0183fc00)
         == Hash(0xc2606d6d, 0x9dc68b63, 0xe1f20c33, 0xfe777bbf, 0xe1257970, 0x8ada8930, 0xb0638179, 0xcc899961)
    ensures Round(Hash(0xc2606d6d, 0x9dc68b63, 0xe1f20c33, 0xfe777bbf, 0xe1257970, 0x8ada8930, 0xb0638179, 0xcc899961), 0x5cb0a9dc, 0x12dcbfdb)
         == Hash(0xa7a3623f, 0xc2606d6d, 0x9dc68b63, 0xe1f20c33, 0x49f5114a, 0xe1257970, 0x8ada8930, 0xb0638179)
    ensures Round(Hash(0xa7a3623f, 0xc2606d6d, 0x9dc68b63, 0xe1f20c33, 0x49f5114a, 0xe1257970, 0x8ada8930, 0xb0638179), 0x76f988da, 0xe2e2c38e)
         == Hash(0xc5d53d8d, 0xa7a3623f, 0xc2606d6d, 0x9dc68b63, 0xaa47c347, 0x49f5114a, 0xe1257970, 0x8ada8930)
  {
  }

  lemma AbcRounds3(b: Bytes)
    requires b == AbcBlock()
    ensures Rounds(H0, b, 32) == Hash(0x73b33bf5, 0xea992a22, 0xa0060b30, 0x363482c9, 0xba591112, 0x0109ab3a, 0xade79437, 0x6112a3b7)
  {
    hide Rounds, Round, Schedule, Constant, AbcBlock, IsCubeRoot;
    AbcRounds2(b);
    Constants6();
    Constants7();
    AbcWords2(b);
    AbcSteps3();
    RoundsUnfold(b, 24);
    RoundsUnfold(b, 25);
    RoundsUnfold(b, 26);
    RoundsUnfold(b, 27);
    RoundsUnfold(b, 28);
    RoundsUnfold(b, 29);
    RoundsUnfold(b, 30);
    RoundsUnfold(b, 31);
  }

  lemma AbcSteps3()
    ensures Round(Hash(0xc5d53d8d, 0xa7a3623f, 0xc2606d6d, 0x9dc68b63, 0xaa47c347, 0x49f5114a, 0xe1257970, 0x8ada8930), 0x983e5152, 0xc8215c1a)
         == Hash(0x1c2c2838, 0xc5d53d8d, 0xa7a3623f, 0xc2606d6d, 0x2823ef91, 0xaa47c347, 0x49f5114a, 0xe1257970)
    ensures Round(Hash(0x1c2c2838, 0xc5d53d8d, 0xa7a3623f, 0xc2606d6d, 0x2823ef91, 0xaa47c347, 0x49f5114a, 0xe1257970), 0xa831c66d, 0xb73679a2)
         == Hash(0xcde8037d, 0x1c2c2838, 0xc5d53d8d, 0xa7a3623f, 0x14383d8e, 0x2823ef91, 0xaa47c347, 0x49f5114a)
    ensures Round(Hash(0xcde8037d, 0x1c2c2838, 0xc5d53d8d, 0xa7a3623f, 0x14383d8e, 0x2823ef91, 0xaa47c347, 0x49f5114a), 0xb00327c8, 0xe5bc3909)
         == Hash(0xb62ec4bc, 0xcde8037d, 0x1c2c2838, 0xc5d53d8d, 0xc74c6516, 0x14383d8e, 0x2823ef91, 0xaa47c347)
    ensures Round(Hash(0xb62ec4bc, 0xcde8037d, 0x1c2c2838, 0xc5d53d8d, 0xc74c6516, 0x14383d8e, 0x2823ef91, 0xaa47c347), 0xbf597fc7, 0x32663c5b)
         == Hash(0x77d37528, 0xb62ec4bc, 0xcde8037d, 0x1c2c2838, 0xedffbff8, 0xc74c6516, 0x14383d8e, 0x2823ef91)
    ensures Round(Hash(0x77d37528, 0xb62ec4bc, 0xcde8037d, 0x1c2c2838, 0xedffbff8, 0xc74c6516, 0x14383d8e, 0x2823ef91), 0xc6e00bf3, 0x9d209d67)
         == Hash(0x363482c9, 0x77d37528, 0xb62ec4bc, 0xcde8037d, 0x6112a3b7, 0xedffbff8, 0xc74c6516, 0x14383d8e)
    ensures Round(Hash(0x363482c9, 0x77d37528, 0xb62ec4bc, 0xcde8037d, 0x6112a3b7, 0xedffbff8, 0xc74c6516, 0x14383d8e), 0xd5a79147, 0xec8726cb)
         == Hash(0xa0060b30, 0x363482c9, 0x77d37528, 0xb62ec4bc, 0xade79437, 0x6112a3b7, 0xedffbff8, 0xc74c6516)
    ensures Round(Hash(0xa0060b30, 0x363482c9, 0x77d37528, 0xb62ec4bc, 0xade79437, 0x6112a3b7, 0xedffbff8, 0xc74c6516), 0x06ca6351, 0x702138a4)
         == Hash(0xea992a22, 0xa0060b30, 0x363482c9, 0x77d37528, 0x0109ab3a, 0xade79437, 0x6112a3b7, 0xedffbff8)
    ensures Round(Hash(0xea992a22, 0xa0060b30, 0x363482c9, 0x77d37528, 0x0109ab3a, 0xade79437, 0x6112a3b7, 0xedffbff8), 0x14292967, 0xd3b7973b)
         == Hash(0x73b33bf5, 0xea992a22, 0xa0060b30, 0x363482c9, 0xba591112, 0x0109ab3a, 0xade79437, 0x6112a3b7)
  {
  }

  lemma AbcRounds4(b: Bytes)
    requires b == AbcBlock()
    ensures Rounds(H0, b, 40) == Hash(0x79ea687a, 0x6dc57a8a, 0x34df1604, 0x41a65cb1, 0x1efbc0a0, 0xf0781bc8, 0xa507a53d, 0x0772a26b)
  {
    hide Rounds, Round, Schedule, Constant, AbcBlock, IsCubeRoot;
    AbcRounds3(b);
    Constants8();
    Constants9();
    AbcWords3(b);
    AbcSteps4();
    RoundsUnfold(b, 32);
    RoundsUnfold(b, 33);
    RoundsUnfold(b, 34);
    RoundsUnfold(b, 35);
    RoundsUnfold(b, 36);
    RoundsUnfold(b, 37);
    RoundsUnfold(b, 38);
    RoundsUnfold(b, 39);
  }

  lemma AbcSteps4()
    ensures Round(Hash(0x73b33bf5, 0xea992a22, 0xa0060b30, 0x363482c9, 0xba591112, 0x0109ab3a, 0xade79437, 0x6112a3b7), 0x27b70a85, 0x93f5997f)
         == Hash(0x98e12507, 0x73b33bf5, 0xea992a22, 0xa0060b30, 0x9cd9f5f6, 0xba591112, 0x0109ab3a, 0xade79437)
    ensures Round(Hash(0x98e12507, 0x73b33bf5, 0xea992a22, 0xa0060b30, 0x9cd9f5f6, 0xba591112, 0x0109ab3a, 0xade79437), 0x2e1b2138, 0x3b68ba73)
         == Hash(0xfe604df5, 0x98e12507, 0x73b33bf5, 0xea992a22, 0x59249dd3, 0x9cd9f5f6, 0xba591112, 0x0109ab3a)
    ensures Round(Hash(0xfe604df5, 0x98e12507, 0x73b33bf5, 0xea992a22, 0x59249dd3, 0x9cd9f5f6, 0xba591112, 0x0109ab3a), 0x4d2c6dfc, 0xaff4ffc1)
         == Hash(0xa9a7738c, 0xfe604df5, 0x98e12507, 0x73b33bf5, 0x085f3833, 0x59249dd3, 0x9cd9f5f6, 0xba591112)
    ensures Round(Hash(0xa9a7738c, 0xfe604df5, 0x98e12507, 0x73b33bf5, 0x085f3833, 0x59249dd3, 0x9cd9f5f6, 0xba591112), 0x53380d13, 0xf10a5c62)
         == Hash(0x65a0cfe4, 0xa9a7738c, 0xfe604df5, 0x98e12507, 0xf4b002d6, 0x085f3833, 0x59249dd3, 0x9cd9f5f6)
    ensures Round(Hash(0x65a0cfe4, 0xa9a7738c, 0xfe604df5, 0x98e12507, 0xf4b002d6, 0x085f3833, 0x59249dd3, 0x9cd9f5f6), 0x650a7354, 0x0a8b3996)
         == Hash(0x41a65cb1, 0x65a0cfe4, 0xa9a7738c, 0xfe604df5, 0x0772a26b, 0xf4b002d6, 0x085f3833, 0x59249dd3)
    ensures Round(Hash(0x41a65cb1, 0x65a0cfe4, 0xa9a7738c, 0xfe604df5, 0x0772a26b, 0xf4b002d6, 0x085f3833, 0x59249dd3), 0x766a0abb, 0x72af830a)
         == Hash(0x34df1604, 0x41a65cb1, 0x65a0cfe4, 0xa9a7738c, 0xa507a53d, 0x0772a26b, 0xf4b002d6, 0x085f3833)
    ensures Round(Hash(0x34df1604, 0x41a65cb1, 0x65a0cfe4, 0xa9a7738c, 0xa507a53d, 0x0772a26b, 0xf4b002d6, 0x085f3833), 0x81c2c92e, 0x9409e33e)
         == Hash(0x6dc57a8a, 0x34df1604, 0x41a65cb1, 0x65a0cfe4, 0xf0781bc8, 0xa507a53d, 0x0772a26b, 0xf4b002d6)
    ensures Round(Hash(0x6dc57a8a, 0x34df1604, 0x41a65cb1, 0x65a0cfe4, 0xf0781bc8, 0xa507a53d, 0x0772a26b, 0xf4b002d6), 0x92722c85, 0x24641522)
         == Hash(0x79ea687a, 0x6dc57a8a, 0x34df1604, 0x41a65cb1, 0x1efbc0a0, 0xf0781bc8, 0xa507a53d, 0x0772a26b)
  {
  }

  lemma AbcRounds5(b: Bytes)
    requires b == AbcBlock()
    ensures Rounds(H0, b, 48) == Hash(0x4172328d, 0xa14c14b0, 0x72ab4b91, 0x26628815, 0xfecf0bc6, 0xd57b94a9, 0xb7755da1, 0xa80f11f0)
  {
    hide Rounds, Round, Schedule, Constant, AbcBlock, IsCubeRoot;
    AbcRounds4(b);
    Constants10();
    Constants11();
    AbcWords4(b);
    AbcSteps5();
    RoundsUnfold(b, 40);
    RoundsUnfold(b, 41);
    RoundsUnfold(b, 42);
    RoundsUnfold(b, 43);
    RoundsUnfold(b, 44);
    RoundsUnfold(b, 45);
    RoundsUnfold(b, 46);
    RoundsUnfold(b, 47);
  }

  lemma AbcSteps5()
    ensures Round(Hash(0x79ea687a, 0x6dc57a8a, 0x34df1604, 0x41a65cb1, 0x1efbc0a0, 0xf0781bc8, 0xa507a53d, 0x0772a26b), 0xa2bfe8a1, 0x9f47bf94)
         == Hash(0xd6670766, 0x79ea687a, 0x6dc57a8a, 0x34df1604, 0x26352d63, 0x1efbc0a0, 0xf0781bc8, 0xa507a53d)
    ensures Round(Hash(0xd6670766, 0x79ea687a, 0x6dc57a8a, 0x34df1604, 0x26352d63, 0x1efbc0a0, 0xf0781bc8, 0xa507a53d), 0xa81a664b, 0xf0a64f5a)
         == Hash(0xdf46652f, 0xd6670766, 0x79ea687a, 0x6dc57a8a, 0x838b2711, 0x26352d63, 0x1efbc0a0, 0xf0781bc8)
    ensures Round(Hash(0xdf46652f, 0xd6670766, 0x79ea687a, 0x6dc57a8a, 0x838b2711, 0x26352d63, 0x1efbc0a0, 0xf0781bc8), 0xc24b8b70, 0x3e246a79)
         == Hash(0x17aa0dfe, 0xdf46652f, 0xd6670766, 0x79ea687a, 0xdecd4715, 0x838b2711, 0x26352d63, 0x1efbc0a0)
    ensures Round(Hash(0x17aa0dfe, 0xdf46652f, 0xd6670766, 0x79ea687a, 0xdecd4715, 0x838b2711, 0x26352d63, 0x1efbc0a0), 0xc76c51a3, 0x27333ba3)
         == Hash(0x9d4baf93, 0x17aa0dfe, 0xdf46652f, 0xd6670766, 0xfda24c2e, 0xdecd4715, 0x838b2711, 0x26352d63)
    ensures Round(Hash(0x9d4baf93, 0x17aa0dfe, 0xdf46652f, 0xd6670766, 0xfda24c2e, 0xdecd4715, 0x838b2711, 0x26352d63), 0xd192e819, 0x0c4763f2)
         == Hash(0x26628815, 0x9d4baf93, 0x17aa0dfe, 0xdf46652f, 0xa80f11f0, 0xfda24c2e, 0xdecd4715, 0x838b2711)
    ensures Round(Hash(0x26628815, 0x9d4baf93, 0x17aa0dfe, 0xdf46652f, 0xa80f11f0, 0xfda24c2e, 0xdecd4715, 0x838b2711), 0xd6990624, 0x840abf27)
         == Hash(0x72ab4b91, 0x26628815, 0x9d4baf93, 0x17aa0dfe, 0xb7755da1, 0xa80f11f0, 0xfda24c2e, 0xdecd4715)
    ensures Round(Hash(0x72ab4b91, 0x26628815, 0x9d4baf93, 0x17aa0dfe, 0xb7755da1, 0xa80f11f0, 0xfda24c2e, 0xdecd4715), 0xf40e3585, 0x7a290d5d)
         == Hash(0xa14c14b0, 0x72ab4b91, 0x26628815, 0x9d4baf93, 0xd57b94a9, 0xb7755da1, 0xa80f11f0, 0xfda24c2e)
    ensures Round(Hash(0xa14c14b0, 0x72ab4b91, 0x26628815, 0x9d4baf93, 0xd57b94a9, 0xb7755da1, 0xa80f11f0, 0xfda24c2e), 0x106aa070, 0x065c43da)
         == Hash(0x4172328d, 0xa14c14b0, 0x72ab4b91, 0x26628815, 0xfecf0bc6, 0xd57b94a9, 0xb7755da1, 0xa80f11f0)
  {
  }

  lemma AbcRounds6(b: Bytes)
    requires b == AbcBlock()
    ensures Rounds(H0, b, 56) == Hash(0x38cc9913, 0x3ec45cdb, 0xf5702fdb, 0x101fd28f, 0x54cb266b, 0xe50e1b4f, 0x9f4787c3, 0x529e7d00)
  {
    hide Rounds, Round, Schedule, Constant, AbcBlock, IsCubeRoot;
    AbcRounds5(b);
    Constants12();
    Constants13();
    AbcWords5(b);
    AbcSteps6();
    RoundsUnfold(b, 48);
    RoundsUnfold(b, 49);
    RoundsUnfold(b, 50);
    RoundsUnfold(b, 51);
    RoundsUnfold(b, 52);
    RoundsUnfold(b, 53);
    RoundsUnfold(b, 54);
    RoundsUnfold(b, 55);
  }

  lemma AbcSteps6()
    ensures Round(Hash(0x4172328d, 0xa14c14b0, 0x72ab4b91, 0x26628815, 0xfecf0bc6, 0xd57b94a9, 0xb7755da1, 0xa80f11f0), 0x19a4c116, 0xfb3e89cb)
         == Hash(0x05757ceb, 0x4172328d, 0xa14c14b0, 0x72ab4b91, 0xbd714038, 0xfecf0bc6, 0xd57b94a9, 0xb7755da1)
    ensures Round(Hash(0x05757ceb, 0x4172328d, 0xa14c14b0, 0x72ab4b91, 0xbd714038, 0xfecf0bc6, 0xd57b94a9, 0xb7755da1), 0x1e376c08, 0xcc7617db)
         == Hash(0xf11bfaa8, 0x05757ceb, 0x4172328d, 0xa14c14b0, 0x6e5c390c, 0xbd714038, 0xfecf0bc6, 0xd57b94a9)
    ensures Round(Hash(0xf11bfaa8, 0x05757ceb, 0x4172328d, 0xa14c14b0, 0x6e5c390c, 0xbd714038, 0xfecf0bc6, 0xd57b94a9), 0x2748774c, 0xb9e66c34)
         == Hash(0x7a0508a1, 0xf11bfaa8, 0x05757ceb, 0x4172328d, 0x52f1ccf7, 0x6e5c390c, 0xbd714038, 0xfecf0bc6)
    ensures Round(Hash(0x7a0508a1, 0xf11bfaa8, 0x05757ceb, 0x4172328d, 0x52f1ccf7, 0x6e5c390c, 0xbd714038, 0xfecf0bc6), 0x34b0bcb5, 0xa9993667)
         == Hash(0x886e7a22, 0x7a0508a1, 0xf11bfaa8, 0x05757ceb, 0x49231c1e, 0x52f1ccf7, 0x6e5c390c, 0xbd714038)
    ensures Round(Hash(0x886e7a22, 0x7a0508a1, 0xf11bfaa8, 0x05757ceb, 0x49231c1e, 0x52f1ccf7, 0x6e5c390c, 0xbd714038), 0x391c0cb3, 0x84badedd)
         == Hash(0x101fd28f, 0x886e7a22, 0x7a0508a1, 0xf11bfaa8, 0x529e7d00, 0x49231c1e, 0x52f1ccf7, 0x6e5c390c)
    ensures Round(Hash(0x101fd28f, 0x886e7a22, 0x7a0508a1, 0xf11bfaa8, 0x529e7d00, 0x49231c1e, 0x52f1ccf7, 0x6e5c390c), 0x4ed8aa4a, 0xc21462bc)
         == Hash(0xf5702fdb, 0x101fd28f, 0x886e7a22, 0x7a0508a1, 0x9f4787c3, 0x529e7d00, 0x49231c1e, 0x52f1ccf7)
    ensures Round(Hash(0xf5702fdb, 0x101fd28f, 0x886e7a22, 0x7a0508a1, 0x9f4787c3, 0x529e7d00, 0x49231c1e, 0x52f1ccf7), 0x5b9cca4f, 0x1487472c)
         == Hash(0x3ec45cdb, 0xf5702fdb, 0x101fd28f, 0x886e7a22, 0xe50e1b4f, 0x9f4787c3, 0x529e7d00, 0x49231c1e)
    ensures Round(Hash(0x3ec45cdb, 0xf5702fdb, 0x101fd28f, 0x886e7a22, 0xe50e1b4f, 0x9f4787c3, 0x529e7d00, 0x49231c1e), 0x682e6ff3, 0xb20f7a99)
         == Hash(0x38cc9913, 0x3ec45cdb, 0xf5702fdb, 0x101fd28f, 0x54cb266b, 0xe50e1b4f, 0x9f4787c3, 0x529e7d00)
  {
  }

  lemma AbcRounds7(b: Bytes)
    requires b == AbcBlock()
    ensures Rounds(H0, b, 64) == Hash(0x506e3058, 0xd39a2165, 0x04d24d6c, 0xb85e2ce9, 0x5ef50f24, 0xfb121210, 0x948d25b6, 0x961f4894)
  {
    hide Rounds, Round, Schedule, Constant, AbcBlock, IsCubeRoot;
    AbcRounds6(b);
    Constants14();
    Constants15();
    AbcWords6(b);
    AbcSteps7();
    RoundsUnfold(b, 56);
    RoundsUnfold(b, 57);
    RoundsUnfold(b, 58);
    RoundsUnfold(b, 59);
    RoundsUnfold(b, 60);
    RoundsUnfold(b, 61);
    RoundsUnfold(b, 62);
    RoundsUnfold(b, 63);
  }

  lemma AbcSteps7()
    ensures Round(Hash(0x38cc9913, 0x3ec45cdb, 0xf5702fdb, 0x101fd28f, 0x54cb266b, 0xe50e1b4f, 0x9f4787c3, 0x529e7d00), 0x748f82ee, 0xef57b9cd)
         == Hash(0xfcd1887b, 0x38cc9913, 0x3ec45cdb, 0xf5702fdb, 0x9b5e906c, 0x54cb266b, 0xe50e1b4f, 0x9f4787c3)
    ensures Round(Hash(0xfcd1887b, 0x38cc9913, 0x3ec45cdb, 0xf5702fdb, 0x9b5e906c, 0x54cb266b, 0xe50e1b4f, 0x9f4787c3), 0x78a5636f, 0xebe6b238)
         == Hash(0xc062d46f, 0xfcd1887b, 0x38cc9913, 0x3ec45cdb, 0x7e44008e, 0x9b5e906c, 0x54cb266b, 0xe50e1b4f)
    ensures Round(Hash(0xc062d46f, 0xfcd1887b, 0x38cc9913, 0x3ec45cdb, 0x7e44008e, 0x9b5e906c, 0x54cb266b, 0xe50e1b4f), 0x84c87814, 0x9fe3095e)
         == Hash(0xffb70472, 0xc062d46f, 0xfcd1887b, 0x38cc9913, 0x6d83bfc6, 0x7e44008e, 0x9b5e906c, 0x54cb266b)
    ensures Round(Hash(0xffb70472, 0xc062d46f, 0xfcd1887b, 0x38cc9913, 0x6d83bfc6, 0x7e44008e, 0x9b5e906c, 0x54cb266b), 0x8cc70208, 0x78bc8d4b)
         == Hash(0xb6ae8fff, 0xffb70472, 0xc062d46f, 0xfcd1887b, 0xb21bad3d, 0x6d83bfc6, 0x7e44008e, 0x9b5e906c)
    ensures Round(Hash(0xb6ae8fff, 0xffb70472, 0xc062d46f, 0xfcd1887b, 0xb21bad3d, 0x6d83bfc6, 0x7e44008e, 0x9b5e906c), 0x90befffa, 0xa43fcf15)
         == Hash(0xb85e2ce9, 0xb6ae8fff, 0xffb70472, 0xc062d46f, 0x961f4894, 0xb21bad3d, 0x6d83bfc6, 0x7e44008e)
    ensures Round(Hash(0xb85e2ce9, 0xb6ae8fff, 0xffb70472, 0xc062d46f, 0x961f4894, 0xb21bad3d, 0x6d83bfc6, 0x7e44008e), 0xa4506ceb, 0x668b2ff8)
         == Hash(0x04d24d6c, 0xb85e2ce9, 0xb6ae8fff, 0xffb70472, 0x948d25b6, 0x961f4894, 0xb21bad3d, 0x6d83bfc6)
    ensures Round(Hash(0x04d24d6c, 0xb85e2ce9, 0xb6ae8fff, 0xffb70472, 0x948d25b6, 0x961f4894, 0xb21bad3d, 0x6d83bfc6), 0xbef9a3f7, 0xeeaba2cc)
         == Hash(0xd39a2165, 0x04d24d6c, 0xb85e2ce9, 0xb6ae8fff, 0xfb121210, 0x948d25b6, 0x961f4894, 0xb21bad3d)
    ensures Round(Hash(0xd39a2165, 0x04d24d6c, 0xb85e2ce9, 0xb6ae8fff, 0xfb121210, 0x948d25b6, 0x961f4894, 0xb21bad3d), 0xc67178f2, 0x12b1edeb)
         == Hash(0x506e3058, 0xd39a2165, 0x04d24d6c, 0xb85e2ce9, 0x5ef50f24, 0xfb121210, 0x948d25b6, 0x961f4894)
  {
  }

  lemma RoundsUnfold(b: Bytes, t: nat)
    requires |b| == 64 && t < 64
    ensures Rounds(H0, b, t + 1) == Round(Rounds(H0, b, t), Constant(t), Schedule(b, t))
    ensures Rounds(H0, b, 0) == H0
  {
    hide Round, Schedule, Constant;
  }

  /** The digest of "abc" is that of the standard's example. */
  lemma AbcDigest()
    ensures Sha(ABC) == ABC_DIGEST
  {
    AbcPadded();
    AbcRounds7(AbcBlock());
    AbcBlocks();
    AbcBytes();
  }

  lemma AbcBlocks()
    requires Padded(ABC) == AbcBlock() && BlockCount(3) == 1
    ensures Sha(ABC) == HashBytes(Plus(H0, Rounds(H0, AbcBlock(), 64)))
  {
    hide Rounds, Padded, HashBytes, Plus;
    assert AbcBlock()[..0] == [] && AbcBlock()[0..] == AbcBlock();
    assert Blocks(1, AbcBlock()) == Compress(Blocks(0, []), AbcBlock());
  }

  lemma AbcBytes()
    ensures HashBytes(Plus(H0,
      Hash(0x506e3058, 0xd39a2165, 0x04d24d6c, 0xb85e2ce9, 0x5ef50f24, 0xfb121210, 0x948d25b6, 0x961f4894))) == ABC_DIGEST
  {
    assert Plus(H0, Hash(0x506e3058, 0xd39a2165, 0x04d24d6c, 0xb85e2ce9, 0x5ef50f24, 0xfb121210, 0x948d25b6, 0x961f4894))
        == Hash(0xba7816bf, 0x8f01cfea, 0x414140de, 0x5dae2223, 0xb00361a3, 0x96177a9c, 0xb410ff61, 0xf20015ad);
    assert WordBytes(0xba7816bf) == [0xba, 0x78, 0x16, 0xbf];
    assert WordBytes(0x8f01cfea) == [0x8f, 0x01, 0xcf, 0xea];
    assert WordBytes(0x414140de) == [0x41, 0x41, 0x40, 0xde];
    assert WordBytes(0x5dae2223) == [0x5d, 0xae, 0x22, 0x23];
    assert WordBytes(0xb00361a3) == [0xb0, 0x03, 0x61, 0xa3];
    assert WordBytes(0x96177a9c) == [0x96, 0x17, 0x7a, 0x9c];
    assert WordBytes(0xb410ff61) == [0xb4, 0x10, 0xff, 0x61];
    assert WordBytes(0xf20015ad) == [0xf2, 0x00, 0x15, 0xad];
  }
}
