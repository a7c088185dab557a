/** Where the constants of SHA-256 come from: sections 4.2.2 and 5.3.3 of FIPS 180-4. */
module Sha256Constants {
  import opened Bits
  import opened Sha256Spec
  import Blake2sSpec

  // ----- primes -----

  predicate IsPrime(n: nat) {
    n >= 2 && forall d :: 2 <= d < n ==> n % d != 0
  }

  const PRIMES: seq<Row> :=
    [
      [2, 3, 5, 7, 11, 13, 17, 19],
      [23, 29, 31, 37, 41, 43, 47, 53],
      [59, 61, 67, 71, 73, 79, 83, 89],
      [97, 101, 103, 107, 109, 113, 127, 131],
      [137, 139, 149, 151, 157, 163, 167, 173],
      [179, 181, 191, 193, 197, 199, 211, 223],
      [227, 229, 233, 239, 241, 251, 257, 263],
      [269, 271, 277, 281, 283, 293, 307, 311]
    ]

  /** The prime that belongs to constant number t. */
  function Prime(t: nat): nat
    requires t < 64
  {
    PRIMES[t / 8][t % 8]
  }

  /** No prime up to 17 divides it. */
  predicate Sieved(n: nat) {
    n % 2 != 0 && n % 3 != 0 && n % 5 != 0 && n % 7 != 0 && n % 11 != 0 && n % 13 != 0 && n % 17 != 0
  }

  /** Below 19 * 19 the sieve is enough. */
  lemma SievedIsPrime(n: nat)
    requires 19 <= n < 361 && Sieved(n)
    ensures IsPrime(n)
  {
    forall d | 2 <= d < n ensures n % d != 0 {
      if n % d == 0 {
        var e := n / d;
        Factors(n, d, e);
        SmallFactor(n, if d < 19 then d else e);
      }
    }
  }

  lemma Factors(n: nat, d: nat, e: nat)
    requires 19 <= n < 361 && 2 <= d < n && e == n / d && n % d == 0
    ensures n == d * e && n % e == 0 && 2 <= e && (d < 19 || e < 19)
  {
    assert n == d * e;
    DivModUnique(n, e, d, 0);
    assert d >= 19 && e >= 19 ==> (d - 19) * (e - 19) >= 0;
  }

  lemma SmallFactor(n: nat, d: nat)
    requires 2 <= d < 19 && n % d == 0
    ensures !Sieved(n)
  {
    var p := if d % 2 == 0 then 2 else if d % 3 == 0 then 3 else d;
    assert p in {2, 3, 5, 7, 11, 13, 17} && d % p == 0;
    Divides(n, d, p);
  }

  lemma Divides(n: nat, d: nat, p: nat)
    requires d > 0 && p > 0 && n % d == 0 && d % p == 0
    ensures n % p == 0
  {
    var e, c := n / d, d / p;
    assert n == d * e && d == c * p;
    assert n == (c * e) * p;
    DivModUnique(n, p, c * e, 0);
  }

  /** Small enough to be listed, or through the sieve; and larger than the one before. */
  predicate Listed(t: nat)
    requires t < 64
  {
    && Prime(t) < 361
    && (if t < 7 then Prime(t) in [2, 3, 5, 7, 11, 13, 17] else Prime(t) >= 19 && Sieved(Prime(t)))
    && (t > 0 ==> Prime(t - 1) < Prime(t))
  }

  lemma Listed0()
    ensures Listed(0) && Listed(1) && Listed(2) && Listed(3) && Listed(4) && Listed(5) && Listed(6) && Listed(7)
  {
  }

  lemma Listed8()
    ensures Listed(8) && Listed(9) && Listed(10) && Listed(11) && Listed(12) && Listed(13) && Listed(14) && Listed(15)
  {
  }

  lemma Listed16()
    ensures Listed(16) && Listed(17) && Listed(18) && Listed(19) && Listed(20) && Listed(21) && Listed(22) && Listed(23)
  {
  }

  lemma Listed24()
    ensures Listed(24) && Listed(25) && Listed(26) && Listed(27) && Listed(28) && Listed(29) && Listed(30) && Listed(31)
  {
  }

  lemma Listed32()
    ensures Listed(32) && Listed(33) && Listed(34) && Listed(35) && Listed(36) && Listed(37) && Listed(38) && Listed(39)
  {
  }

  lemma Listed40()
    ensures Listed(40) && Listed(41) && Listed(42) && Listed(43) && Listed(44) && Listed(45) && Listed(46) && Listed(47)
  {
  }

  lemma Listed48()
    ensures Listed(48) && Listed(49) && Listed(50) && Listed(51) && Listed(52) && Listed(53) && Listed(54) && Listed(55)
  {
  }

  lemma Listed56()
    ensures Listed(56) && Listed(57) && Listed(58) && Listed(59) && Listed(60) && Listed(61) && Listed(62) && Listed(63)
  {
  }

  /** Sixty-four primes in increasing order. */
  lemma PrimesIncrease(t: nat)
    requires t < 64
    ensures IsPrime(Prime(t)) && (t > 0 ==> Prime(t - 1) < Prime(t))
  {
    hide Prime, Sieved, IsPrime;
    AllListed(t);
    if t < 7 {
      SmallPrimes();
    } else {
      SievedIsPrime(Prime(t));
    }
  }

  lemma SmallPrimes()
    ensures forall p :: p in [2, 3, 5, 7, 11, 13, 17] ==> IsPrime(p)
  {
  }

  lemma AllListed(t: nat)
    requires t < 64
    ensures Listed(t)
  {
    hide Listed;
    if t < 8 {
      Listed0();
    } else if t < 16 {
      Listed8();
    } else if t < 24 {
      Listed16();
    } else if t < 32 {
      Listed24();
    } else if t < 40 {
      Listed32();
    } else if t < 48 {
      Listed40();
    } else if t < 56 {
      Listed48();
    } else {
      Listed56();
    }
  }

  // ----- fractions of roots -----

  function Square(x: nat): nat {
    x * x
  }

  function Cube(x: nat): nat {
    x * x * x
  }

  /** `k` is the first thirty-two bits of the fraction of the square root of p, whose whole part is q. */
  predicate SquareRootFraction(p: nat, q: nat, k: Word) {
    Square(q * 0x1_0000_0000 + k) <= p * 0x1_0000_0000_0000_0000 < Square(q * 0x1_0000_0000 + k + 1)
  }

  predicate CubeRootFraction(p: nat, q: nat, k: Word) {
    Cube(q * 0x1_0000_0000 + k) <= p * 0x1_0000_0000_0000_0000_0000_0000 < Cube(q * 0x1_0000_0000 + k + 1)
  }

  /** The whole parts of the roots of these primes. */
  function WholeSquareRoot(p: nat): nat {
    if p < 4 then 1 else if p < 9 then 2 else if p < 16 then 3 else 4
  }

  function WholeCubeRoot(p: nat): nat {
    if p < 8 then 1 else if p < 27 then 2 else if p < 64 then 3 else if p < 125 then 4 else if p < 216 then 5 else 6
  }

  /** The initial hash value: the square roots of the first eight primes. BLAKE2s starts from the same words. */
  lemma InitialFromSquareRoots(i: nat)
    requires i < 8
    ensures SquareRootFraction(Prime(i), WholeSquareRoot(Prime(i)), INITIAL[i]) && Blake2sSpec.IV == INITIAL
  {
    hide SquareRootFraction, WholeSquareRoot;
    EachInitialRoot(i);
  }

  lemma EachInitialRoot(i: nat)
    requires i < 8
    ensures InitialRoot(i)
  {
    hide InitialRoot;
    InitialRoots0();
    InitialRoots4();
  }

  predicate InitialRoot(i: nat)
    requires i < 8
  {
    SquareRootFraction(Prime(i), WholeSquareRoot(Prime(i)), INITIAL[i])
  }

  lemma InitialRoots0()
    ensures InitialRoot(0) && InitialRoot(1) && InitialRoot(2) && InitialRoot(3)
  {
  }

  lemma InitialRoots4()
    ensures InitialRoot(4) && InitialRoot(5) && InitialRoot(6) && InitialRoot(7)
  {
  }

  predicate ConstantRoot(t: nat)
    requires t < 64
  {
    CubeRootFraction(Prime(t), WholeCubeRoot(Prime(t)), K(t))
  }

  lemma Roots0()
    ensures ConstantRoot(0) && ConstantRoot(1) && ConstantRoot(2) && ConstantRoot(3)
  {
  }

  lemma Roots4()
    ensures ConstantRoot(4) && ConstantRoot(5) && ConstantRoot(6) && ConstantRoot(7)
  {
  }

  lemma Roots8()
    ensures ConstantRoot(8) && ConstantRoot(9) && ConstantRoot(10) && ConstantRoot(11)
  {
  }

  lemma Roots12()
    ensures ConstantRoot(12) && ConstantRoot(13) && ConstantRoot(14) && ConstantRoot(15)
  {
  }

  lemma Roots16()
    ensures ConstantRoot(16) && ConstantRoot(17) && ConstantRoot(18) && ConstantRoot(19)
  {
  }

  lemma Roots20()
    ensures ConstantRoot(20) && ConstantRoot(21) && ConstantRoot(22) && ConstantRoot(23)
  {
  }

  lemma Roots24()
    ensures ConstantRoot(24) && ConstantRoot(25) && ConstantRoot(26) && ConstantRoot(27)
  {
  }

  lemma Roots28()
    ensures ConstantRoot(28) && ConstantRoot(29) && ConstantRoot(30) && ConstantRoot(31)
  {
  }

  lemma Roots32()
    ensures ConstantRoot(32) && ConstantRoot(33) && ConstantRoot(34) && ConstantRoot(35)
  {
  }

  lemma Roots36()
    ensures ConstantRoot(36) && ConstantRoot(37) && ConstantRoot(38) && ConstantRoot(39)
  {
  }

  lemma Roots40()
    ensures ConstantRoot(40) && ConstantRoot(41) && ConstantRoot(42) && ConstantRoot(43)
  {
  }

  lemma Roots44()
    ensures ConstantRoot(44) && ConstantRoot(45) && ConstantRoot(46) && ConstantRoot(47)
  {
  }

  lemma Roots48()
    ensures ConstantRoot(48) && ConstantRoot(49) && ConstantRoot(50) && ConstantRoot(51)
  {
  }

  lemma Roots52()
    ensures ConstantRoot(52) && ConstantRoot(53) && ConstantRoot(54) && ConstantRoot(55)
  {
  }

  lemma Roots56()
    ensures ConstantRoot(56) && ConstantRoot(57) && ConstantRoot(58) && ConstantRoot(59)
  {
  }

  lemma Roots60()
    ensures ConstantRoot(60) && ConstantRoot(61) && ConstantRoot(62) && ConstantRoot(63)
  {
  }

  /** The round constants: the cube roots of the sixty-four primes. */
  lemma ConstantsFromCubeRoots(t: nat)
    requires t < 64
    ensures CubeRootFraction(Prime(t), WholeCubeRoot(Prime(t)), K(t))
  {
    hide CubeRootFraction, K, Prime, WholeCubeRoot;
    AllRoots(t);
  }

  lemma AllRoots(t: nat)
    requires t < 64
    ensures ConstantRoot(t)
  {
    hide ConstantRoot;
    if t < 4 {
      Roots0();
    } else if t < 8 {
      Roots4();
    } else if t < 12 {
      Roots8();
    } else if t < 16 {
      Roots12();
    } else if t < 20 {
      Roots16();
    } else if t < 24 {
      Roots20();
    } else if t < 28 {
      Roots24();
    } else if t < 32 {
      Roots28();
    } else if t < 36 {
      Roots32();
    } else if t < 40 {
      Roots36();
    } else if t < 44 {
      Roots40();
    } else if t < 48 {
      Roots44();
    } else if t < 52 {
      Roots48();
    } else if t < 56 {
      Roots52();
    } else if t < 60 {
      Roots56();
    } else {
      Roots60();
    }
  }
}
