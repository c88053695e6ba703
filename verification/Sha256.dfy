/** The SHA-256 streaming interface of kernel/sha256.c against sections 5.1.1, 5.2.1 and 6.2.2 of
    FIPS 180-4. */
module Sha256 {

  type Message = seq<bv8>
  /** A 32-bit word. */
  datatype U32 = U32(v: bv32)

  type Hash = h: seq<U32> | |h| == 8 witness seq(8, _ => U32(0))

  const H0: Hash := [U32(0x6a09e667), U32(0xbb67ae85), U32(0x3c6ef372), U32(0xa54ff53a),
    U32(0x510e527f), U32(0x9b05688c), U32(0x1f83d9ab), U32(0x5be0cd19)]

  /** In fours, and sixteens. */
  const K0: seq<U32> := [U32(0x428a2f98), U32(0x71374491), U32(0xb5c0fbcf), U32(0xe9b5dba5)]
  const K1: seq<U32> := [U32(0x3956c25b), U32(0x59f111f1), U32(0x923f82a4), U32(0xab1c5ed5)]
  const K2: seq<U32> := [U32(0xd807aa98), U32(0x12835b01), U32(0x243185be), U32(0x550c7dc3)]
  const K3: seq<U32> := [U32(0x72be5d74), U32(0x80deb1fe), U32(0x9bdc06a7), U32(0xc19bf174)]
  const K4: seq<U32> := [U32(0xe49b69c1), U32(0xefbe4786), U32(0x0fc19dc6), U32(0x240ca1cc)]
  const K5: seq<U32> := [U32(0x2de92c6f), U32(0x4a7484aa), U32(0x5cb0a9dc), U32(0x76f988da)]
  const K6: seq<U32> := [U32(0x983e5152), U32(0xa831c66d), U32(0xb00327c8), U32(0xbf597fc7)]
  const K7: seq<U32> := [U32(0xc6e00bf3), U32(0xd5a79147), U32(0x06ca6351), U32(0x14292967)]
  const K8: seq<U32> := [U32(0x27b70a85), U32(0x2e1b2138), U32(0x4d2c6dfc), U32(0x53380d13)]
  const K9: seq<U32> := [U32(0x650a7354), U32(0x766a0abb), U32(0x81c2c92e), U32(0x92722c85)]
  const K10: seq<U32> := [U32(0xa2bfe8a1), U32(0xa81a664b), U32(0xc24b8b70), U32(0xc76c51a3)]
  const K11: seq<U32> := [U32(0xd192e819), U32(0xd6990624), U32(0xf40e3585), U32(0x106aa070)]
  const K12: seq<U32> := [U32(0x19a4c116), U32(0x1e376c08), U32(0x2748774c), U32(0x34b0bcb5)]
  const K13: seq<U32> := [U32(0x391c0cb3), U32(0x4ed8aa4a), U32(0x5b9cca4f), U32(0x682e6ff3)]
  const K14: seq<U32> := [U32(0x748f82ee), U32(0x78a5636f), U32(0x84c87814), U32(0x8cc70208)]
  const K15: seq<U32> := [U32(0x90befffa), U32(0xa4506ceb), U32(0xbef9a3f7), U32(0xc67178f2)]
  const KA: seq<U32> := K0 + K1 + K2 + K3
  const KB: seq<U32> := K4 + K5 + K6 + K7
  const KC: seq<U32> := K8 + K9 + K10 + K11
  const KD: seq<U32> := K12 + K13 + K14 + K15
  const K: seq<U32> := KA + KB + KC + KD

  // ---------------------------------------------------------------------------
  // Where the constants come from: sections 4.2.2 and 5.3.3
  // ---------------------------------------------------------------------------

  /** The first 64 primes. */
  const P0: seq<nat> := [2, 3, 5, 7]
  const P1: seq<nat> := [11, 13, 17, 19]
  const P2: seq<nat> := [23, 29, 31, 37]
  const P3: seq<nat> := [41, 43, 47, 53]
  const P4: seq<nat> := [59, 61, 67, 71]
  const P5: seq<nat> := [73, 79, 83, 89]
  const P6: seq<nat> := [97, 101, 103, 107]
  const P7: seq<nat> := [109, 113, 127, 131]
  const P8: seq<nat> := [137, 139, 149, 151]
  const P9: seq<nat> := [157, 163, 167, 173]
  const P10: seq<nat> := [179, 181, 191, 193]
  const P11: seq<nat> := [197, 199, 211, 223]
  const P12: seq<nat> := [227, 229, 233, 239]
  const P13: seq<nat> := [241, 251, 257, 263]
  const P14: seq<nat> := [269, 271, 277, 281]
  const P15: seq<nat> := [283, 293, 307, 311]
  const PA: seq<nat> := P0 + P1 + P2 + P3
  const PB: seq<nat> := P4 + P5 + P6 + P7
  const PC: seq<nat> := P8 + P9 + P10 + P11
  const PD: seq<nat> := P12 + P13 + P14 + P15
  const PRIMES: seq<nat> := PA + PB + PC + PD

  /** The integer parts of the roots. */
  function Cube(p: nat): nat {
    if p < 8 then 1 else if p < 27 then 2 else if p < 64 then 3 else if p < 125 then 4 else if p < 216 then 5 else 6
  }

  function Square(p: nat): nat { if p < 4 then 1 else if p < 9 then 2 else if p < 16 then 3 else 4 }

  /** A word is the fraction, in 32 bits and cut off, of the cube root of p. */
  predicate OfCube(k: U32, p: nat) {
    var r := Cube(p) * 0x1_0000_0000 + k.v as nat;
    r * r * r <= p * 0x1_0000_0000_0000_0000_0000_0000 < (r + 1) * (r + 1) * (r + 1)
  }

  predicate OfSquare(k: U32, p: nat) {
    var r := Square(p) * 0x1_0000_0000 + k.v as nat;
    r * r <= p * 0x1_0000_0000_0000_0000 < (r + 1) * (r + 1)
  }

  ghost predicate OfCubes(ks: seq<U32>, ps: seq<nat>) {
    |ks| == |ps| && forall j :: 0 <= j < |ks| ==> OfCube(ks[j], ps[j])
  }

  lemma Roots0()
    ensures OfCubes(K0, P0)
  {
    assert OfCube(K0[0], P0[0]) && OfCube(K0[1], P0[1]) && OfCube(K0[2], P0[2]) && OfCube(K0[3], P0[3]);
  }

  lemma Roots1()
    ensures OfCubes(K1, P1)
  {
    assert OfCube(K1[0], P1[0]) && OfCube(K1[1], P1[1]) && OfCube(K1[2], P1[2]) && OfCube(K1[3], P1[3]);
  }

  lemma Roots2()
    ensures OfCubes(K2, P2)
  {
    assert OfCube(K2[0], P2[0]) && OfCube(K2[1], P2[1]) && OfCube(K2[2], P2[2]) && OfCube(K2[3], P2[3]);
  }

  lemma Roots3()
    ensures OfCubes(K3, P3)
  {
    assert OfCube(K3[0], P3[0]) && OfCube(K3[1], P3[1]) && OfCube(K3[2], P3[2]) && OfCube(K3[3], P3[3]);
  }

  lemma Roots4()
    ensures OfCubes(K4, P4)
  {
    assert OfCube(K4[0], P4[0]) && OfCube(K4[1], P4[1]) && OfCube(K4[2], P4[2]) && OfCube(K4[3], P4[3]);
  }

  lemma Roots5()
    ensures OfCubes(K5, P5)
  {
    assert OfCube(K5[0], P5[0]) && OfCube(K5[1], P5[1]) && OfCube(K5[2], P5[2]) && OfCube(K5[3], P5[3]);
  }

  lemma Roots6()
    ensures OfCubes(K6, P6)
  {
    assert OfCube(K6[0], P6[0]) && OfCube(K6[1], P6[1]) && OfCube(K6[2], P6[2]) && OfCube(K6[3], P6[3]);
  }

  lemma Roots7()
    ensures OfCubes(K7, P7)
  {
    assert OfCube(K7[0], P7[0]) && OfCube(K7[1], P7[1]) && OfCube(K7[2], P7[2]) && OfCube(K7[3], P7[3]);
  }

  lemma Roots8()
    ensures OfCubes(K8, P8)
  {
    assert OfCube(K8[0], P8[0]) && OfCube(K8[1], P8[1]) && OfCube(K8[2], P8[2]) && OfCube(K8[3], P8[3]);
  }

  lemma Roots9()
    ensures OfCubes(K9, P9)
  {
    assert OfCube(K9[0], P9[0]) && OfCube(K9[1], P9[1]) && OfCube(K9[2], P9[2]) && OfCube(K9[3], P9[3]);
  }

  lemma Roots10()
    ensures OfCubes(K10, P10)
  {
    assert OfCube(K10[0], P10[0]) && OfCube(K10[1], P10[1]) && OfCube(K10[2], P10[2]) && OfCube(K10[3], P10[3]);
  }

  lemma Roots11()
    ensures OfCubes(K11, P11)
  {
    assert OfCube(K11[0], P11[0]) && OfCube(K11[1], P11[1]) && OfCube(K11[2], P11[2]) && OfCube(K11[3], P11[3]);
  }

  lemma Roots12()
    ensures OfCubes(K12, P12)
  {
    assert OfCube(K12[0], P12[0]) && OfCube(K12[1], P12[1]) && OfCube(K12[2], P12[2]) && OfCube(K12[3], P12[3]);
  }

  lemma Roots13()
    ensures OfCubes(K13, P13)
  {
    assert OfCube(K13[0], P13[0]) && OfCube(K13[1], P13[1]) && OfCube(K13[2], P13[2]) && OfCube(K13[3], P13[3]);
  }

  lemma Roots14()
    ensures OfCubes(K14, P14)
  {
    assert OfCube(K14[0], P14[0]) && OfCube(K14[1], P14[1]) && OfCube(K14[2], P14[2]) && OfCube(K14[3], P14[3]);
  }

  lemma Roots15()
    ensures OfCubes(K15, P15)
  {
    assert OfCube(K15[0], P15[0]) && OfCube(K15[1], P15[1]) && OfCube(K15[2], P15[2]) && OfCube(K15[3], P15[3]);
  }

  lemma Joined(a: seq<U32>, b: seq<U32>, p: seq<nat>, q: seq<nat>)
    requires OfCubes(a, p) && OfCubes(b, q)
    ensures OfCubes(a + b, p + q)
  {
    hide OfCube;
  }

  lemma RootsA()
    ensures OfCubes(KA, PA)
  {
    hide OfCubes;
    Roots0();
    Roots1();
    Roots2();
    Roots3();
    Joined(K0, K1, P0, P1);
    Joined(K0 + K1, K2, P0 + P1, P2);
    Joined(K0 + K1 + K2, K3, P0 + P1 + P2, P3);
  }

  lemma RootsB()
    ensures OfCubes(KB, PB)
  {
    hide OfCubes;
    Roots4();
    Roots5();
    Roots6();
    Roots7();
    Joined(K4, K5, P4, P5);
    Joined(K4 + K5, K6, P4 + P5, P6);
    Joined(K4 + K5 + K6, K7, P4 + P5 + P6, P7);
  }

  lemma RootsC()
    ensures OfCubes(KC, PC)
  {
    hide OfCubes;
    Roots8();
    Roots9();
    Roots10();
    Roots11();
    Joined(K8, K9, P8, P9);
    Joined(K8 + K9, K10, P8 + P9, P10);
    Joined(K8 + K9 + K10, K11, P8 + P9 + P10, P11);
  }

  lemma RootsD()
    ensures OfCubes(KD, PD)
  {
    hide OfCubes;
    Roots12();
    Roots13();
    Roots14();
    Roots15();
    Joined(K12, K13, P12, P13);
    Joined(K12 + K13, K14, P12 + P13, P14);
    Joined(K12 + K13 + K14, K15, P12 + P13 + P14, P15);
  }

  /** The 64 words are the fractions of the cube roots of the first 64 primes, and the initial hash those
      of the square roots of the first eight. */
  lemma Constants()
    ensures |K| == 64 && OfCubes(K, PRIMES)
    ensures forall j :: 0 <= j < 8 ==> OfSquare(H0[j], PRIMES[j])
  {
    hide OfCubes;
    RootsA();
    RootsB();
    RootsC();
    RootsD();
    Joined(KA, KB, PA, PB);
    Joined(KA + KB, KC, PA + PB, PC);
    Joined(KA + KB + KC, KD, PA + PB + PC, PD);
    InitialHash();
  }

  lemma InitialHash()
    ensures forall j :: 0 <= j < 8 ==> OfSquare(H0[j], PRIMES[j])
  {
    assert OfSquare(H0[0], P0[0]) && OfSquare(H0[1], P0[1]) && OfSquare(H0[2], P0[2]) && OfSquare(H0[3], P0[3]);
    assert OfSquare(H0[4], P1[0]) && OfSquare(H0[5], P1[1]) && OfSquare(H0[6], P1[2]) && OfSquare(H0[7], P1[3]);
    hide OfSquare;
    assert PRIMES[..8] == P0 + P1;
  }

  // ---------------------------------------------------------------------------
  // The standard: section 4.1.2
  // ---------------------------------------------------------------------------

  function Add(x: U32, y: U32): U32 { U32(x.v + y.v) }
  function Ch(x: U32, y: U32, z: U32): U32 { U32((x.v & y.v) ^ (!x.v & z.v)) }
  function Maj(x: U32, y: U32, z: U32): U32 { U32((x.v & y.v) ^ (x.v & z.v) ^ (y.v & z.v)) }
  function Sum0(x: U32): U32 { U32(x.v.RotateRight(2) ^ x.v.RotateRight(13) ^ x.v.RotateRight(22)) }
  function Sum1(x: U32): U32 { U32(x.v.RotateRight(6) ^ x.v.RotateRight(11) ^ x.v.RotateRight(25)) }
  function Sigma0(x: U32): U32 { U32(x.v.RotateRight(7) ^ x.v.RotateRight(18) ^ (x.v >> 3)) }
  function Sigma1(x: U32): U32 { U32(x.v.RotateRight(17) ^ x.v.RotateRight(19) ^ (x.v >> 10)) }

  /** A big-endian word. */
  function Word(b: Message, i: nat): U32
    requires 4 * i + 4 <= |b|
  {
    U32(((b[4 * i] as bv32) << 24) | ((b[4 * i + 1] as bv32) << 16) |
        ((b[4 * i + 2] as bv32) << 8) | (b[4 * i + 3] as bv32))
  }

  /** Choice takes each bit from y where x has a one and from z elsewhere. */
  lemma ChosenBits(x: U32, y: U32, z: U32)
    ensures Ch(x, y, z).v & x.v == y.v & x.v && Ch(x, y, z).v & !x.v == z.v & !x.v
  {
  }

  /** Majority takes the bit of x and y where these agree, and of z elsewhere. */
  lemma MajorityBits(x: U32, y: U32, z: U32)
    ensures Maj(x, y, z).v & !(x.v ^ y.v) == x.v & !(x.v ^ y.v)
    ensures Maj(x, y, z).v & (x.v ^ y.v) == z.v & (x.v ^ y.v)
  {
    AgreedBits(x.v, y.v, z.v);
  }

  lemma AgreedBits(x: bv32, y: bv32, z: bv32)
    ensures ((x & y) ^ (x & z) ^ (y & z)) & !(x ^ y) == x & !(x ^ y)
  {
  }

  // ---------------------------------------------------------------------------
  // Section 6.2.2
  // ---------------------------------------------------------------------------

  /** The message schedule. */
  function W(b: Message, t: nat): U32
    requires |b| == 64 && t < 64
  {
    if t < 16 then Word(b, t) else Add(Add(Add(Sigma1(W(b, t - 2)), W(b, t - 7)), Sigma0(W(b, t - 15))), W(b, t - 16))
  }

  datatype Vars = Vars(a: U32, b: U32, c: U32, d: U32, e: U32, f: U32, g: U32, h: U32)

  function Round(v: Vars, k: U32, w: U32): Vars {
    var t1 := Add(Add(Add(Add(v.h, Sum1(v.e)), Ch(v.e, v.f, v.g)), k), w);
    var t2 := Add(Sum0(v.a), Maj(v.a, v.b, v.c));
    Vars(Add(t1, t2), v.a, v.b, v.c, Add(v.d, t1), v.e, v.f, v.g)
  }

  function Rounds(h: Hash, b: Message, t: nat): Vars
    requires |b| == 64 && t <= 64
  {
    if t == 0 then Vars(h[0], h[1], h[2], h[3], h[4], h[5], h[6], h[7])
    else Round(Rounds(h, b, t - 1), K[t - 1], W(b, t - 1))
  }

  function Compress(h: Hash, b: Message): Hash
    requires |b| == 64
  {
    var v := Rounds(h, b, 64);
    [Add(h[0], v.a), Add(h[1], v.b), Add(h[2], v.c), Add(h[3], v.d),
     Add(h[4], v.e), Add(h[5], v.f), Add(h[6], v.g), Add(h[7], v.h)]
  }

  /** The hash value after the first n blocks. */
  function Absorb(m: Message, n: nat): Hash
    requires 64 * n <= |m|
  {
    if n == 0 then H0 else Compress(Absorb(m, n - 1), m[64 * (n - 1)..64 * n])
  }

  // ---------------------------------------------------------------------------
  // Section 5.1.1
  // ---------------------------------------------------------------------------

  function Be64(n: nat): (b: Message)
    requires n < 0x1_0000_0000_0000_0000
    ensures |b| == 8
  {
    [(n / 0x100_0000_0000_0000) as bv8, (n / 0x1_0000_0000_0000 % 256) as bv8, (n / 0x100_0000_0000 % 256) as bv8,
     (n / 0x1_0000_0000 % 256) as bv8, (n / 0x100_0000 % 256) as bv8, (n / 0x1_0000 % 256) as bv8,
     (n / 0x100 % 256) as bv8, (n % 256) as bv8]
  }

  /** Zero bytes between the one bit and the length. */
  function ZeroCount(l: nat): (k: nat)
    ensures k < 64 && (l + 1 + k) % 64 == 56
  {
    (55 - l) % 64
  }

  /** No smaller number of zero bytes would do. */
  lemma ZeroCountLeast(l: nat, k: nat)
    requires (l + 1 + k) % 64 == 56
    ensures ZeroCount(l) <= k
  {
  }

  function Zeros(n: nat): (z: Message)
    ensures |z| == n
  {
    seq(n, _ => 0 as bv8)
  }

  lemma PadLength(l: nat, z: nat)
    requires (l + 1 + z) % 64 == 56
    ensures (l + 1 + z + 8) % 64 == 0
  {
  }

  /** The padded message; the length is in bits, modulo 2^64. */
  function Pad(m: Message): (p: Message)
    ensures |p| % 64 == 0 && m <= p
  {
    var z, l := ZeroCount(|m|), Be64(8 * |m| % 0x1_0000_0000_0000_0000);
    PadLength(|m|, z);
    m + [0x80] + Zeros(z) + l
  }

  function Be32(x: U32): Message {
    [(x.v >> 24) as bv8, ((x.v >> 16) & 0xFF) as bv8, ((x.v >> 8) & 0xFF) as bv8, (x.v & 0xFF) as bv8]
  }

  /** A word is written as the bytes it is read from. */
  lemma WordWritten(b: Message, i: nat)
    requires 4 * i + 4 <= |b|
    ensures Be32(Word(b, i)) == b[4 * i..4 * i + 4]
  {
    var w := Word(b, i);
    BytesOf(b[4 * i], b[4 * i + 1], b[4 * i + 2], b[4 * i + 3]);
    assert b[4 * i..4 * i + 4] == [b[4 * i], b[4 * i + 1], b[4 * i + 2], b[4 * i + 3]];
  }

  lemma BytesOf(p: bv8, q: bv8, r: bv8, s: bv8)
    ensures Be32(U32(((p as bv32) << 24) | ((q as bv32) << 16) | ((r as bv32) << 8) | (s as bv32))) == [p, q, r, s]
  {
  }

  function Output(h: Hash): Message {
    Be32(h[0]) + Be32(h[1]) + Be32(h[2]) + Be32(h[3]) + Be32(h[4]) + Be32(h[5]) + Be32(h[6]) + Be32(h[7])
  }

  /** The digest of a message. */
  function Digest(m: Message): Message { Output(Absorb(Pad(m), |Pad(m)| / 64)) }

  // ---------------------------------------------------------------------------
  // The code's word operations
  // ---------------------------------------------------------------------------

  function Ep0(x: U32): U32 {
    U32(((x.v >> 2) | (x.v << 30)) ^ ((x.v >> 13) | (x.v << 19)) ^ ((x.v >> 22) | (x.v << 10)))
  }
  function Ep1(x: U32): U32 {
    U32(((x.v >> 6) | (x.v << 26)) ^ ((x.v >> 11) | (x.v << 21)) ^ ((x.v >> 25) | (x.v << 7)))
  }
  function Sig0(x: U32): U32 { U32(((x.v >> 7) | (x.v << 25)) ^ ((x.v >> 18) | (x.v << 14)) ^ (x.v >> 3)) }
  function Sig1(x: U32): U32 { U32(((x.v >> 17) | (x.v << 15)) ^ ((x.v >> 19) | (x.v << 13)) ^ (x.v >> 10)) }

  /** The shifts and ors of the code are the standard's rotations. */
  lemma WordOps(x: U32)
    ensures Ep0(x) == Sum0(x) && Ep1(x) == Sum1(x) && Sig0(x) == Sigma0(x) && Sig1(x) == Sigma1(x)
  {
  }

  // ---------------------------------------------------------------------------
  // The context
  // ---------------------------------------------------------------------------

  class Context {
    const state: array<U32>
    const buf: array<bv8>
    /** The bit count, low and high word. */
    var lo: nat
    var hi: nat
    ghost var msg: Message

    ghost predicate Valid()
      reads this, state, buf
    {
      && state.Length == 8 && buf.Length == 64
      && Counts(lo, hi, |msg|) && Holds(state[..], buf[..], msg)
    }

    /** sha256_init. */
    constructor ()
      ensures Valid() && msg == [] && fresh(state) && fresh(buf)
    {
      state := new U32[8](i requires 0 <= i < 8 => H0[i]);
      buf := new bv8[64](_ => 0);
      lo, hi, msg := 0, 0, [];
      new;
      assert state[..] == H0;
    }

    /** sha256_transform. */
    method Transform(data: array<bv8>)
      requires state.Length == 8 && data.Length == 64
      modifies state
      ensures state[..] == Compress(old(state[..]), data[..])
    {
      hide Sum0, Sum1, Sigma0, Sigma1, Ep0, Ep1, Sig0, Sig1, Ch, Maj, W, Rounds, Word, Compress, Add;
      var m := Schedule(data);
      var h0: Hash := state[..];
      ghost var block := data[..];
      RoundsStart(h0, block);
      var a, b, c, d := state[0], state[1], state[2], state[3];
      var e, f, g, h := state[4], state[5], state[6], state[7];
      var i := 0;
      while i < 64
        invariant i <= 64 && Vars(a, b, c, d, e, f, g, h) == Rounds(h0, block, i)
        modifies {}
      {
        RoundsNext(h0, block, i);
        WordOps(e);
        WordOps(a);
        var t1 := Add(Add(Add(Add(h, Ep1(e)), Ch(e, f, g)), K[i]), m[i]);
        var t2 := Add(Ep0(a), Maj(a, b, c));
        h := g;
        g := f;
        f := e;
        e := Add(d, t1);
        d := c;
        c := b;
        b := a;
        a := Add(t1, t2);
        i := i + 1;
      }
      state[0], state[1], state[2], state[3] := Add(state[0], a), Add(state[1], b), Add(state[2], c), Add(state[3], d);
      state[4], state[5], state[6], state[7] := Add(state[4], e), Add(state[5], f), Add(state[6], g), Add(state[7], h);
      CompressIs(h0, block, Vars(a, b, c, d, e, f, g, h));
      assert state[..] == Compress(h0, block);
    }

    /** The first two loops of sha256_transform. */
    static method Schedule(data: array<bv8>) returns (m: array<U32>)
      requires data.Length == 64
      ensures fresh(m) && m.Length == 64 && forall t :: 0 <= t < 64 ==> m[t] == W(data[..], t)
    {
      hide *;
      ghost var block := data[..];
      m := new U32[64](_ => U32(0));
      var i := 0;
      while i < 16
        invariant i <= 16 && forall t :: 0 <= t < i ==> m[t] == W(block, t)
      {
        ScheduleNext(block, i);
        m[i] := Word(data[..], i);
        i := i + 1;
      }
      while i < 64
        invariant 16 <= i <= 64 && forall t :: 0 <= t < i ==> m[t] == W(block, t)
      {
        ScheduleNext(block, i);
        WordOps(m[i - 2]);
        WordOps(m[i - 15]);
        m[i] := Add(Add(Add(Sig1(m[i - 2]), m[i - 7]), Sig0(m[i - 15])), m[i - 16]);
        i := i + 1;
      }
    }

    /** sha256_update. */
    method Update(data: Message)
      requires Valid()
      modifies this`lo, this`hi, this`msg, state, buf
      ensures Valid() && msg == old(msg) + data
    {
      hide Compress, Absorb, Counts, Holds;
      var i := 0;
      while i < |data|
        invariant i <= |data| && Valid() && msg == old(msg) + data[..i]
      {
        UpdateByte(data[i]);
        i := i + 1;
      }
    }

    method UpdateByte(x: bv8)
      requires Valid()
      modifies this`lo, this`hi, this`msg, state, buf
      ensures Valid() && msg == old(msg) + [x]
    {
      hide Compress, Absorb, Counts, Holds;
      CountStep(lo, hi, |msg|);
      ByteStored(state[..], buf[..], msg, x);
      ghost var b := buf[..];
      buf[lo / 8 % 64] := x;
      assert buf[..] == b[lo / 8 % 64 := x];
      lo := (lo + 8) % 0x1_0000_0000;
      if lo == 0 { hi := (hi + 1) % 0x1_0000_0000; }
      msg := msg + [x];
      if lo % 512 == 0 { Transform(buf); }
    }

    /** sha256_final: the buffered bytes, the one bit, zeros and the bit count make the last one or
        two blocks. */
    method Final() returns (digest: Message)
      requires Valid()
      modifies state
      ensures digest == Digest(msg)
    {
      hide Compress, Absorb, Counts, Holds, Output, Digest, Be64, Zeros;
      CountStep(lo, hi, |msg|);
      CountIs(lo, hi, |msg|);
      var data := Tail();
      var i := lo / 8 % 64 + 1;
      ghost var st, b, first := state[..], buf[..], Zeros(64);
      if i > 56 {
        Fill(data, i, 64);
        first := data[..];
        Transform(data);
        i := 0;
      }
      Fill(data, i, 56);
      StoreCount(data, hi * 0x1_0000_0000 + lo);
      DigestFrom(st, b, msg, first, data[..]);
      Transform(data);
      digest := Output(state[..]);
    }

    /** The buffered bytes and the one bit; the loop copies one byte more than there are. */
    method Tail() returns (data: array<bv8>)
      requires Valid()
      ensures fresh(data) && data.Length == 64 && data[..|msg| % 64 + 1] == buf[..|msg| % 64] + [0x80]
    {
      hide Absorb, Counts, Holds;
      CountStep(lo, hi, |msg|);
      data := new bv8[64](_ => 0);
      var n := lo / 8 % 64;
      var j := 0;
      while j < n + 1
        invariant j <= n + 1 && forall k :: 0 <= k < j ==> data[k] == buf[k]
      {
        data[j] := buf[j];
        j := j + 1;
      }
      data[n] := 0x80;
    }

    /** Zero bytes from i up to n. */
    static method Fill(data: array<bv8>, i: nat, n: nat)
      requires i <= n <= data.Length
      modifies data
      ensures data[..] == old(data[..i]) + Zeros(n - i) + old(data[n..])
    {
      var k := i;
      while k < n
        invariant i <= k <= n && (forall t :: i <= t < k ==> data[t] == 0)
        invariant forall t :: 0 <= t < data.Length && !(i <= t < k) ==> data[t] == old(data[t])
      {
        data[k] := 0;
        k := k + 1;
      }
      assert data[..] == old(data[..i]) + Zeros(n - i) + old(data[n..]);
    }

    static method StoreCount(data: array<bv8>, bits: nat)
      requires data.Length == 64 && bits < 0x1_0000_0000_0000_0000
      modifies data
      ensures data[..] == old(data[..56]) + Be64(bits)
    {
      hide Be64;
      var b := Be64(bits);
      var k := 0;
      while k < 8
        invariant k <= 8 && data[..56 + k] == old(data[..56]) + b[..k]
      {
        data[56 + k] := b[k];
        k := k + 1;
      }
    }
  }

  /** Two words count the bits of l bytes, modulo 2^64. */
  predicate Counts(lo: nat, hi: nat, l: nat) {
    lo == 8 * (l % 0x2000_0000) && hi == l / 0x2000_0000 % 0x1_0000_0000
  }

  /** All whole blocks of the message are absorbed, and the rest is in the buffer. */
  ghost predicate Holds(st: seq<U32>, buf: Message, m: Message) {
    && |st| == 8 && |buf| == 64 && st == Absorb(m, |m| / 64) && buf[..|m| % 64] == m[|m| - |m| % 64..]
  }

  lemma ByteStored(st: seq<U32>, buf: Message, m: Message, x: bv8)
    requires Holds(st, buf, m)
    ensures var b := buf[|m| % 64 := x];
            if (|m| + 1) % 64 == 0 then Holds(Compress(st, b), b, m + [x]) else Holds(st, b, m + [x])
    ensures |st| == 8 && |buf| == 64
  {
    hide Compress, Absorb;
    var b, l, n := buf[|m| % 64 := x], |m|, m + [x];
    AbsorbKept(m, x, l / 64);
    assert b[..l % 64] == buf[..l % 64];
    assert b[..l % 64 + 1] == n[l - l % 64..];
    if (l + 1) % 64 == 0 {
      var q := l / 64;
      assert (l + 1) / 64 == q + 1 && l - l % 64 == 64 * q;
      assert b == n[64 * q..64 * (q + 1)];
      AbsorbNext(n, q);
      assert b[..0] == n[l + 1..];
    }
  }

  lemma AbsorbNext(m: Message, n: nat)
    requires 64 * (n + 1) <= |m|
    ensures Absorb(m, n + 1) == Compress(Absorb(m, n), m[64 * n..64 * (n + 1)])
  {
  }

  lemma RoundsStart(h: Hash, b: Message)
    requires |b| == 64
    ensures Rounds(h, b, 0) == Vars(h[0], h[1], h[2], h[3], h[4], h[5], h[6], h[7])
  {
  }

  lemma CompressIs(h: Hash, b: Message, v: Vars)
    requires |b| == 64 && v == Rounds(h, b, 64)
    ensures Compress(h, b) ==
            [Add(h[0], v.a), Add(h[1], v.b), Add(h[2], v.c), Add(h[3], v.d),
             Add(h[4], v.e), Add(h[5], v.f), Add(h[6], v.g), Add(h[7], v.h)]
  {
    hide Rounds;
  }

  lemma RoundsNext(h: Hash, b: Message, t: nat)
    requires |b| == 64 && t < 64
    ensures Rounds(h, b, t + 1) == Round(Rounds(h, b, t), K[t], W(b, t))
  {
    hide Round, W;
  }

  lemma ScheduleNext(b: Message, t: nat)
    requires |b| == 64 && t < 64
    ensures W(b, t) ==
            if t < 16 then Word(b, t)
            else Add(Add(Add(Sigma1(W(b, t - 2)), W(b, t - 7)), Sigma0(W(b, t - 15))), W(b, t - 16))
  {
    hide Word, Sigma0, Sigma1;
  }

  /** The counter arithmetic of one byte. */
  lemma CountStep(lo: nat, hi: nat, l: nat)
    requires Counts(lo, hi, l)
    ensures var lo1 := (lo + 8) % 0x1_0000_0000;
            && lo / 8 % 64 == l % 64 && (lo1 % 512 == 0 <==> (l + 1) % 64 == 0)
            && Counts(lo1, if lo1 == 0 then (hi + 1) % 0x1_0000_0000 else hi, l + 1)
  {
    NextLow(l);
    LowBits(l);
    LowBits(l + 1);
  }

  lemma NextLow(l: nat)
    ensures var r := l % 0x2000_0000;
            && (8 * r + 8) % 0x1_0000_0000 == 8 * ((l + 1) % 0x2000_0000)
            && ((l + 1) / 0x2000_0000 == if (l + 1) % 0x2000_0000 == 0 then l / 0x2000_0000 + 1 else l / 0x2000_0000)
  {
    var q, r := l / 0x2000_0000, l % 0x2000_0000;
    assert l == q * 0x2000_0000 + r;
    if r + 1 == 0x2000_0000 {
      assert l + 1 == (q + 1) * 0x2000_0000;
    } else {
      assert l + 1 == q * 0x2000_0000 + (r + 1);
    }
  }

  lemma LowBits(l: nat)
    ensures l % 0x2000_0000 % 64 == l % 64 && 8 * (l % 0x2000_0000) % 512 == 8 * (l % 64)
  {
    var q, r := l / 0x2000_0000, l % 0x2000_0000;
    assert l == 64 * (q * 0x80_0000) + r;
  }

  /** Blocks already absorbed do not depend on what follows. */
  lemma {:induction false} AbsorbKept(m: Message, x: bv8, n: nat)
    requires 64 * n <= |m|
    ensures Absorb(m + [x], n) == Absorb(m, n)
  {
    hide Compress;
    if n > 0 {
      AbsorbKept(m, x, n - 1);
      assert (m + [x])[64 * (n - 1)..64 * n] == m[64 * (n - 1)..64 * n];
    }
  }

  /** The two words are the bit length modulo 2^64. */
  lemma CountIs(lo: nat, hi: nat, l: nat)
    requires Counts(lo, hi, l)
    ensures hi * 0x1_0000_0000 + lo == 8 * l % 0x1_0000_0000_0000_0000 < 0x1_0000_0000_0000_0000
  {
    var q, r := l / 0x2000_0000, l % 0x2000_0000;
    assert l == q * 0x2000_0000 + r && 8 * l == q * 0x1_0000_0000 + lo;
    assert q == q / 0x1_0000_0000 * 0x1_0000_0000 + hi;
    assert 8 * l == q / 0x1_0000_0000 * 0x1_0000_0000_0000_0000 + (hi * 0x1_0000_0000 + lo);
  }

  /** Absorbing a longer message passes through absorbing its beginning. */
  lemma {:induction false} AbsorbPrefix(m: Message, p: Message, n: nat)
    requires m <= p && 64 * n <= |m|
    ensures Absorb(p, n) == Absorb(m, n)
  {
    hide Compress;
    if n > 0 {
      AbsorbPrefix(m, p, n - 1);
      assert p[64 * (n - 1)..64 * n] == m[64 * (n - 1)..64 * n];
    }
  }

  /** The digest, from where the last update left off. */
  lemma DigestFrom(st: seq<U32>, buf: Message, m: Message, first: Message, last: Message)
    requires Holds(st, buf, m) && |first| == |last| == 64
    requires |m| % 64 > 55 ==> first == buf[..|m| % 64] + [0x80] + Zeros(63 - |m| % 64)
    requires last == (if |m| % 64 > 55 then Zeros(56) else buf[..|m| % 64] + [0x80] + Zeros(55 - |m| % 64))
                     + Be64(8 * |m| % 0x1_0000_0000_0000_0000)
    ensures |st| == 8
    ensures Digest(m) == Output(Compress(if |m| % 64 > 55 then Compress(st, first) else st, last))
  {
    hide Compress, Pad, Output, Be64;
    var p, n := Pad(m), |m| / 64;
    AbsorbPrefix(m, p, n);
    LastPadBlock(last, buf, m);
    if |m| % 64 > 55 {
      FirstPadBlock(first, buf, m);
      assert Absorb(p, n + 1) == Compress(Absorb(p, n), p[64 * n..64 * (n + 1)]);
    }
    var k := |p| / 64;
    assert p[64 * (k - 1)..64 * k] == p[|p| - 64..];
    assert Absorb(p, k) == Compress(Absorb(p, k - 1), p[64 * (k - 1)..64 * k]);
  }

  /** The first block of a padding that takes two. */
  lemma FirstPadBlock(d: Message, buf: Message, m: Message)
    requires |d| == |buf| == 64 && 55 < |m| % 64 && buf[..|m| % 64] == m[|m| - |m| % 64..]
    requires d == buf[..|m| % 64] + [0x80] + Zeros(63 - |m| % 64)
    ensures |Pad(m)| / 64 == |m| / 64 + 2 && Pad(m)[64 * (|m| / 64)..64 * (|m| / 64 + 1)] == d
  {
  }

  /** The last block. */
  lemma LastPadBlock(d: Message, buf: Message, m: Message)
    requires |d| == |buf| == 64 && buf[..|m| % 64] == m[|m| - |m| % 64..]
    requires d == (if |m| % 64 > 55 then Zeros(56) else buf[..|m| % 64] + [0x80] + Zeros(55 - |m| % 64))
                  + Be64(8 * |m| % 0x1_0000_0000_0000_0000)
    ensures |Pad(m)| / 64 == |m| / 64 + if |m| % 64 > 55 then 2 else 1
    ensures Pad(m)[|Pad(m)| - 64..] == d
  {
  }
}
