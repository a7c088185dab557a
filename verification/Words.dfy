/** The bits of a number, and what the operators on words do to them. */
module Words {
  import opened Bits

  /** Bit number k, the lowest being number 0. */
  function Bit(x: nat, k: nat): (b: nat)
    ensures b <= 1
  {
    if k == 0 then x % 2 else Bit(x / 2, k - 1)
  }

  lemma {:induction false} BitIsDigit(x: nat, k: nat)
    ensures Bit(x, k) == x / Pow2(k) % 2
  {
    if k > 0 {
      BitIsDigit(x / 2, k - 1);
      HalfFirst(x, Pow2(k - 1));
    }
  }

  /** Halving first and dividing then is dividing by twice as much. */
  lemma HalfFirst(x: nat, p: nat)
    requires p > 0
    ensures x / (2 * p) == x / 2 / p
  {
    var h := x / 2;
    var q, r := h / p, h % p;
    assert h == q * p + r;
    assert x == q * (2 * p) + (2 * r + x % 2);
    DivModUnique(x, 2 * p, q, 2 * r + x % 2);
  }

  lemma {:induction false} BitOfAnd(x: nat, y: nat, k: nat)
    ensures Bit(And(x, y), k) == if Bit(x, k) == 1 && Bit(y, k) == 1 then 1 else 0
  {
    hide And;
    AndHalves(x, y);
    if k > 0 {
      BitOfAnd(x / 2, y / 2, k - 1);
    }
  }

  lemma {:induction false} BitOfOr(x: nat, y: nat, k: nat)
    ensures Bit(Or(x, y), k) == if Bit(x, k) == 1 || Bit(y, k) == 1 then 1 else 0
  {
    hide Or;
    OrHalves(x, y);
    if k > 0 {
      BitOfOr(x / 2, y / 2, k - 1);
    }
  }

  lemma {:induction false} BitOfXor(x: nat, y: nat, k: nat)
    ensures Bit(Xor(x, y), k) == (Bit(x, k) + Bit(y, k)) % 2
  {
    hide Xor;
    XorHalves(x, y);
    if k > 0 {
      BitOfXor(x / 2, y / 2, k - 1);
    }
  }

  /** All bits up to n are turned round. */
  lemma {:induction false} BitOfComplement(x: nat, n: nat, k: nat)
    requires x < Pow2(n) && k < n
    ensures Bit(Pow2(n) - 1 - x, k) == 1 - Bit(x, k)
  {
    var p := Pow2(n - 1);
    assert (2 * p - 1 - x) / 2 == p - 1 - x / 2 && (2 * p - 1 - x) % 2 == 1 - x % 2;
    if k > 0 {
      BitOfComplement(x / 2, n - 1, k - 1);
    }
  }

  /** Above the length of a number there are no bits. */
  lemma {:induction false} NoBitAbove(x: nat, n: nat, k: nat)
    requires x < Pow2(n) && n <= k
    ensures Bit(x, k) == 0
  {
    if n > 0 {
      NoBitAbove(x / 2, n - 1, k - 1);
    } else {
      BitOfZero(k);
    }
  }

  lemma {:induction false} BitOfZero(k: nat)
    ensures Bit(0, k) == 0
  {
    if k > 0 {
      BitOfZero(k - 1);
    }
  }

  /** Two numbers put together: `a` below bit n and `b` from there on. */
  lemma {:induction false} BitOfJoin(a: nat, b: nat, n: nat, k: nat)
    requires a < Pow2(n)
    ensures Bit(a + b * Pow2(n), k) == if k < n then Bit(a, k) else Bit(b, k - n)
  {
    if n > 0 {
      JoinHalves(a, b, Pow2(n - 1));
      if k > 0 {
        BitOfJoin(a / 2, b, n - 1, k - 1);
      }
    }
  }

  lemma JoinHalves(a: nat, b: nat, p: nat)
    ensures (a + b * (2 * p)) / 2 == a / 2 + b * p && (a + b * (2 * p)) % 2 == a % 2
  {
    assert a + b * (2 * p) == a % 2 + 2 * (a / 2 + b * p);
  }

  /** Without a common bit, or is the sum. */
  lemma {:induction false} OrOfJoin(a: nat, b: nat, n: nat)
    requires a < Pow2(n)
    ensures Or(a, b * Pow2(n)) == a + b * Pow2(n)
  {
    if n > 0 {
      var p := Pow2(n - 1);
      OrHalves(a, b * (2 * p));
      JoinHalves(0, b, p);
      JoinHalves(a, b, p);
      OrOfJoin(a / 2, b, n - 1);
    } else {
      OrZero(b);
    }
  }

  lemma {:induction false} OrZero(x: nat)
    ensures Or(0, x) == x
  {
    if x > 0 {
      OrZero(x / 2);
    }
  }

  /** The bits of quotient and remainder by a power of two. */
  lemma BitOfParts(x: nat, q: nat, r: nat, n: nat, k: nat)
    requires x == r + q * Pow2(n) && r < Pow2(n)
    ensures Bit(q, k) == Bit(x, k + n)
    ensures k < n ==> Bit(r, k) == Bit(x, k)
  {
    hide Bit, Pow2;
    BitOfJoin(r, q, n, k + n);
    BitOfJoin(r, q, n, k);
  }

  lemma Parts(x: nat, p: nat) returns (q: nat, r: nat)
    requires p > 0
    ensures q == x / p && r == x % p && x == r + q * p && r < p
  {
    q, r := x / p, x % p;
  }

  /** A number is determined by its bits. */
  lemma {:induction false} BitsDetermine(x: nat, y: nat, n: nat)
    requires x < Pow2(n) && y < Pow2(n)
    requires forall k :: 0 <= k < n ==> Bit(x, k) == Bit(y, k)
    ensures x == y
  {
    if n > 0 {
      assert Bit(x, 0) == Bit(y, 0);
      forall k | 0 <= k < n - 1 ensures Bit(x / 2, k) == Bit(y / 2, k) {
        assert Bit(x, k + 1) == Bit(y, k + 1);
      }
      BitsDetermine(x / 2, y / 2, n - 1);
    }
  }

  // ----- octets -----

  /** The number whose octets these are, the most significant first. */
  function BigEndian(octets: seq<byte>): nat {
    if octets == [] then 0 else 0x100 * BigEndian(octets[..|octets| - 1]) + octets[|octets| - 1] as int
  }

  /** The number whose octets these are, the least significant first. */
  function LittleEndianOctets(octets: seq<byte>): nat {
    if octets == [] then 0 else octets[0] as int + 0x100 * LittleEndianOctets(octets[1..])
  }

  lemma BigEndianAppend(octets: seq<byte>, last: byte)
    ensures BigEndian(octets + [last]) == 0x100 * BigEndian(octets) + last as int
  {
    assert (octets + [last])[..|octets + [last]| - 1] == octets;
  }

  lemma LittleEndianPrepend(first: byte, octets: seq<byte>)
    ensures LittleEndianOctets([first] + octets) == first as int + 0x100 * LittleEndianOctets(octets)
  {
    assert ([first] + octets)[1..] == octets;
  }

  lemma BigEndianOfFour(a: byte, b: byte, c: byte, d: byte)
    ensures BigEndian([a, b, c, d]) == 0x100_0000 * a as int + 0x1_0000 * b as int + 0x100 * c as int + d as int
  {
    hide BigEndian;
    assert BigEndian([]) == 0 by { EmptyNumbers(); }
    BigEndianAppend([], a); BigEndianAppend([a], b); BigEndianAppend([a, b], c); BigEndianAppend([a, b, c], d);
    assert [] + [a] == [a] && [a] + [b] == [a, b] && [a, b] + [c] == [a, b, c] && [a, b, c] + [d] == [a, b, c, d];
  }

  lemma LittleEndianOfFour(a: byte, b: byte, c: byte, d: byte)
    ensures LittleEndianOctets([a, b, c, d])
      == a as int + 0x100 * b as int + 0x1_0000 * c as int + 0x100_0000 * d as int
  {
    hide LittleEndianOctets;
    assert LittleEndianOctets([]) == 0 by { EmptyNumbers(); }
    LittleEndianPrepend(d, []); LittleEndianPrepend(c, [d]); LittleEndianPrepend(b, [c, d]);
    LittleEndianPrepend(a, [b, c, d]);
    assert [d] + [] == [d] && [c] + [d] == [c, d] && [b] + [c, d] == [b, c, d] && [a] + [b, c, d] == [a, b, c, d];
  }

  lemma EmptyNumbers()
    ensures BigEndian([]) == 0 && LittleEndianOctets([]) == 0
  {
  }

  lemma {:induction false} BigEndianJoin(p: seq<byte>, q: seq<byte>)
    ensures BigEndian(p + q) == BigEndian(p) * Pow2(8 * |q|) + BigEndian(q)
  {
    hide Pow2, BigEndian;
    if q == [] {
      assert p + q == p;
      EmptyNumbers();
      assert Pow2(0) == 1 by { PowerOfZero(); }
    } else {
      var n := |q| - 1;
      assert (p + q)[..|p + q| - 1] == p + q[..n];
      BigEndianLast(q);
      BigEndianLast(p + q);
      BigEndianJoin(p, q[..n]);
      Pow2Add(8, 8 * n);
      Pow2Values();
      Distribute(BigEndian(p), Pow2(8 * n));
    }
  }

  lemma BigEndianLast(p: seq<byte>)
    requires p != []
    ensures BigEndian(p) == 0x100 * BigEndian(p[..|p| - 1]) + p[|p| - 1] as int
  {
  }

  lemma Distribute(x: nat, p: nat)
    ensures 0x100 * (x * p) == x * (0x100 * p)
  {
  }

  lemma {:induction false} LittleEndianJoin(p: seq<byte>, q: seq<byte>)
    ensures LittleEndianOctets(p + q) == LittleEndianOctets(p) + Pow2(8 * |p|) * LittleEndianOctets(q)
  {
    hide Pow2, LittleEndianOctets;
    if p == [] {
      assert p + q == q;
      EmptyNumbers();
      assert Pow2(0) == 1 by { PowerOfZero(); }
    } else {
      assert (p + q)[1..] == p[1..] + q;
      LittleEndianFirst(p);
      LittleEndianFirst(p + q);
      LittleEndianJoin(p[1..], q);
      Pow2Add(8, 8 * |p[1..]|);
      Pow2Values();
      Distribute(LittleEndianOctets(q), Pow2(8 * |p[1..]|));
    }
  }

  lemma PowerOfZero()
    ensures Pow2(0) == 1
  {
  }

  lemma LittleEndianFirst(p: seq<byte>)
    requires p != []
    ensures LittleEndianOctets(p) == p[0] as int + 0x100 * LittleEndianOctets(p[1..])
  {
  }

  lemma BigEndianOfEight(a: byte, b: byte, c: byte, d: byte, e: byte, f: byte, g: byte, h: byte)
    ensures BigEndian([a, b, c, d, e, f, g, h])
      == 0x1_0000_0000 * BigEndian([a, b, c, d]) + BigEndian([e, f, g, h])
  {
    Pow2Values();
    hide BigEndian, Pow2;
    BigEndianJoin([a, b, c, d], [e, f, g, h]);
    assert [a, b, c, d] + [e, f, g, h] == [a, b, c, d, e, f, g, h];
  }

  lemma LittleEndianOfEight(a: byte, b: byte, c: byte, d: byte, e: byte, f: byte, g: byte, h: byte)
    ensures LittleEndianOctets([a, b, c, d, e, f, g, h])
      == LittleEndianOctets([a, b, c, d]) + 0x1_0000_0000 * LittleEndianOctets([e, f, g, h])
  {
    Pow2Values();
    hide LittleEndianOctets, Pow2;
    LittleEndianJoin([a, b, c, d], [e, f, g, h]);
    assert [a, b, c, d] + [e, f, g, h] == [a, b, c, d, e, f, g, h];
  }

  // ----- sums of words -----

  lemma AddReduced(x: nat, y: uint32)
    ensures Add32(x % 0x1_0000_0000, y) == (x + y) % 0x1_0000_0000
  {
  }

  lemma AddBothReduced(x: nat, y: nat)
    ensures Add32(x % 0x1_0000_0000, y % 0x1_0000_0000) == (x + y) % 0x1_0000_0000
  {
  }

  lemma AddFour(a: uint32, b: uint32, c: uint32, d: uint32)
    ensures Add32(Add32(Add32(a, b), c), d) == (a as int + b as int + c as int + d as int) % 0x1_0000_0000
  {
    var x: nat, y: nat := a, b;
    hide Add32;
    AddReduced(x, b);
    AddReduced(x + y, c);
    AddReduced(x + y + c as int, d);
    assert x % 0x1_0000_0000 == a;
  }
}
