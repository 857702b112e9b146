/** Deriving a 32-bit BGP router-id from an IPv6 address with FNV-1a, and why addresses that
    differ in a single octet never collide. */
module RouterId {
  import opened Addresses

  const WORD: int := 0x1_0000_0000
  const FNV_OFFSET: Ipv4Addr := 0x811c9dc5
  const FNV_PRIME: int := 0x01000193
  const FNV_PRIME_INVERSE: int := 0x359C449B

  /** Bitwise exclusive or of unsigned integers. */
  function Xor(a: nat, b: nat): nat {
    if a == 0 && b == 0 then 0
    else 2 * Xor(a / 2, b / 2) + (if a % 2 == b % 2 then 0 else 1)
  }

  lemma XorHalves(a: nat, b: nat)
    ensures Xor(a, b) / 2 == Xor(a / 2, b / 2) && Xor(a, b) % 2 == if a % 2 == b % 2 then 0 else 1
  {
  }

  lemma {:induction false} XorInvolutive(a: nat, b: nat)
    ensures Xor(Xor(a, b), b) == a
    decreases a, b
  {
    if a != 0 || b != 0 {
      var x := Xor(a, b);
      XorHalves(a, b);
      XorHalves(x, b);
      XorInvolutive(a / 2, b / 2);
    }
  }

  lemma {:induction false} XorCommutes(a: nat, b: nat)
    ensures Xor(a, b) == Xor(b, a)
  {
    if a != 0 || b != 0 {
      XorCommutes(a / 2, b / 2);
    }
  }

  lemma {:induction false} XorZero(a: nat)
    ensures Xor(a, 0) == a
  {
    if a != 0 {
      XorZero(a / 2);
    }
  }

  lemma {:induction false} XorBound(a: nat, b: nat, k: nat)
    requires a < Pow(2, k) && b < Pow(2, k)
    ensures Xor(a, b) < Pow(2, k)
  {
    if k > 0 && (a != 0 || b != 0) {
      XorBound(a / 2, b / 2, k - 1);
    }
  }

  lemma WordIsPow()
    ensures Pow(2, 32) == WORD
  {
    assert Pow(2, 8) == 0x100;
    assert Pow(2, 16) == 0x1_0000;
    assert Pow(2, 24) == 0x100_0000;
  }

  /** One FNV-1a step: exclusive or with the octet, then a wrapping multiplication. */
  function Step(h: Ipv4Addr, b: Byte): Ipv4Addr {
    Xor(h, b) * FNV_PRIME % WORD
  }

  function Fnv(h: Ipv4Addr, octets: seq<Byte>): Ipv4Addr
    decreases |octets|
  {
    if octets == [] then h else Fnv(Step(h, octets[0]), octets[1..])
  }

  method RouterIdFromIpv6(addr: Ipv6Addr) returns (hash: Ipv4Addr)
    ensures hash == Fnv(FNV_OFFSET, Octets6(addr))
  {
    var octets := Octets6(addr);
    hash := FNV_OFFSET;
    for i := 0 to |octets|
      invariant Fnv(hash, octets[i..]) == Fnv(FNV_OFFSET, octets)
    {
      var mixed := Xor(hash, octets[i]);
      assert octets[i..][0] == octets[i] && octets[i..][1..] == octets[i + 1..];
      hash := mixed * FNV_PRIME % WORD;
    }
  }

  /** Multiplication by the odd prime has an inverse modulo 2^32. */
  lemma MultiplyInjective(x: nat, y: nat)
    requires x < WORD && y < WORD
    requires x * FNV_PRIME % WORD == y * FNV_PRIME % WORD
    ensures x == y
  {
    var k, l := x * FNV_PRIME / WORD, y * FNV_PRIME / WORD;
    assert (x - y) * FNV_PRIME == (k - l) * WORD;
    assert FNV_PRIME * FNV_PRIME_INVERSE == 1 + 3513497 * WORD;
    assert (x - y) * (1 + 3513497 * WORD) == (k - l) * WORD * FNV_PRIME_INVERSE;
    assert x - y == WORD * ((k - l) * FNV_PRIME_INVERSE - (x - y) * 3513497);
  }

  /** A step is injective in the state for a fixed octet, and in the octet for a fixed state. */
  lemma StepInjective(h: Ipv4Addr, g: Ipv4Addr, b: Byte, c: Byte)
    requires Step(h, b) == Step(g, c)
    ensures b == c ==> h == g
    ensures h == g ==> b == c
  {
    WordIsPow();
    XorBound(h, b, 32);
    XorBound(g, c, 32);
    MultiplyInjective(Xor(h, b), Xor(g, c));
    XorInvolutive(h, b);
    XorInvolutive(g, c);
    XorCommutes(h, b);
    XorCommutes(g, c);
    XorInvolutive(b, h);
    XorInvolutive(c, g);
  }

  /** From different states, the same octets lead to different states. */
  lemma {:induction false} FnvSeparates(h: Ipv4Addr, g: Ipv4Addr, octets: seq<Byte>)
    requires h != g
    ensures Fnv(h, octets) != Fnv(g, octets)
    decreases |octets|
  {
    if octets != [] {
      if Step(h, octets[0]) == Step(g, octets[0]) {
        StepInjective(h, g, octets[0], octets[0]);
      }
      FnvSeparates(Step(h, octets[0]), Step(g, octets[0]), octets[1..]);
    }
  }

  /** Octet strings that differ in exactly one place hash to different router-ids. */
  lemma {:induction false} OneOctetApart(h: Ipv4Addr, s: seq<Byte>, t: seq<Byte>, i: nat)
    requires |s| == |t| && i < |s| && s[i] != t[i]
    requires forall j :: 0 <= j < |s| && j != i ==> s[j] == t[j]
    ensures Fnv(h, s) != Fnv(h, t)
    decreases i
  {
    if i == 0 {
      assert s[1..] == t[1..];
      if Step(h, s[0]) == Step(h, t[0]) {
        StepInjective(h, h, s[0], t[0]);
      }
      FnvSeparates(Step(h, s[0]), Step(h, t[0]), s[1..]);
    } else {
      assert s[0] == t[0];
      OneOctetApart(Step(h, s[0]), s[1..], t[1..], i - 1);
    }
  }

  lemma ShrEight(a: nat)
    ensures Shr(a, 8) == a / 256
  {
    assert Shr(a, 1) == a / 2;
    assert Shr(a, 2) == a / 2 / 2 == a / 4;
    assert Shr(a, 4) == Shr(a, 3) / 2 == Shr(a, 2) / 2 / 2 == a / 16;
    assert Shr(a, 6) == Shr(a, 5) / 2 == Shr(a, 4) / 2 / 2 == a / 64;
    assert Shr(a, 8) == Shr(a, 7) / 2 == Shr(a, 6) / 2 / 2;
  }

  // ----- Values of the hash -----

  predicate BitAgrees(a: nat, b: nat, x: nat) { x % 2 == if a % 2 == b % 2 then 0 else 1 }

  /** The k lowest bits of x are the exclusive or of those of a and b. */
  predicate BitsAgree(a: nat, b: nat, x: nat, k: nat)
    decreases k
  {
    k == 0 || (BitAgrees(a, b, x) && BitsAgree(a / 2, b / 2, x / 2, k - 1))
  }

  lemma {:induction false} XorByBits(a: nat, b: nat, x: nat, k: nat)
    requires a < Pow(2, k) && b < Pow(2, k) && x < Pow(2, k) && BitsAgree(a, b, x, k)
    ensures Xor(a, b) == x
    decreases k
  {
    if k > 0 {
      XorByBits(a / 2, b / 2, x / 2, k - 1);
    }
  }

  lemma {:induction false} XorAbove(q: nat, r: nat, b: nat, k: nat)
    requires r < Pow(2, k) && b < Pow(2, k)
    ensures Xor(q * Pow(2, k) + r, b) == q * Pow(2, k) + Xor(r, b)
  {
    if k == 0 {
      XorZero(q);
    } else {
      var p := Pow(2, k - 1);
      assert q * (2 * p) == 2 * (q * p);
      XorAbove(q, r / 2, b / 2, k - 1);
      assert (2 * (q * p) + r) / 2 == q * p + r / 2;
    }
  }

  lemma XorLow(q: nat, r: Byte, b: Byte)
    ensures Xor(256 * q + r, b) == 256 * q + Xor(r, b)
  {
    assert Pow(2, 8) == 256;
    XorAbove(q, r, b, 8);
  }

  lemma XorOctet(q: nat, r: Byte, b: Byte, x: Byte)
    requires BitsAgree(r, b, x, 8)
    ensures Xor(256 * q + r, b) == 256 * q + x
  {
    XorLow(q, r, b);
    assert Pow(2, 8) == 256;
    XorByBits(r, b, x, 8);
  }

  /** The arithmetic of one step: the state is 256 * q + r, and x is the exclusive or of r and the octet. */
  predicate StepChecks(q: nat, r: Byte, b: Byte, x: Byte, g: Ipv4Addr, m: nat) {
    BitsAgree(r, b, x, 8) && (256 * q + x) * FNV_PRIME == m * WORD + g
  }

  lemma StepOf(h: Ipv4Addr, q: nat, r: Byte, b: Byte, x: Byte, g: Ipv4Addr, m: nat)
    requires h == 256 * q + r && StepChecks(q, r, b, x, g, m)
    ensures Step(h, b) == g
  {
    XorOctet(q, r, b, x);
    Multiply(h, b, 256 * q + x, g, m);
  }

  lemma Multiply(h: Ipv4Addr, b: Byte, y: nat, g: Ipv4Addr, m: nat)
    requires Xor(h, b) == y && y * FNV_PRIME == m * WORD + g
    ensures Step(h, b) == g
  {
    Remainder(y * FNV_PRIME, m, g);
  }

  lemma Remainder(a: nat, m: nat, g: Ipv4Addr)
    requires a == m * WORD + g
    ensures a % WORD == g
  {
  }

  lemma FnvHead(h: Ipv4Addr, s: seq<Byte>, t: seq<Byte>)
    requires s != [] && t == s[1..]
    ensures Fnv(h, s) == Fnv(Step(h, s[0]), t)
  {
  }

  lemma FnvOfOne(h: Ipv4Addr, s: seq<Byte>, g: Ipv4Addr)
    requires |s| == 1 && Step(h, s[0]) == g
    ensures Fnv(h, s) == g
  {
    FnvHead(h, s, []);
  }

  lemma FnvOfTwo(h: Ipv4Addr, s: seq<Byte>, g: Ipv4Addr, f: Ipv4Addr)
    requires |s| == 2 && Step(h, s[0]) == g && Step(g, s[1]) == f
    ensures Fnv(h, s) == f
  {
    FnvHead(h, s, s[1..]);
    FnvOfOne(g, s[1..], f);
  }

  lemma AfterA(h: Ipv4Addr)
    requires h == 0x811c9dc5
    ensures Step(h, 0x61) == 0xe40c292c
  {
    StepOf(h, 0x811c9d, 0xc5, 0x61, 0xa4, 0xe40c292c, 0x811d68);
  }

  lemma AfterF(h: Ipv4Addr)
    requires h == 0x811c9dc5
    ensures Step(h, 0x66) == 0xe30c2799
  {
    StepOf(h, 0x811c9d, 0xc5, 0x66, 0xa3, 0xe30c2799, 0x811d68);
  }

  lemma AfterO(h: Ipv4Addr)
    requires h == 0xe30c2799
    ensures Step(h, 0x6f) == 0x6222e842
  {
    StepOf(h, 0xe30c27, 0x99, 0x6f, 0xf6, 0x6222e842, 0xe30d8d);
  }

  /** The hashes of the empty string, of "a" and of "fo" are those that FNV-1a is published with. */
  lemma KnownHashes(h: Ipv4Addr, a: seq<Byte>, fo: seq<Byte>, g: Ipv4Addr)
    requires h == FNV_OFFSET && a == [0x61] && fo == [0x66, 0x6f] && g == 0xe30c2799
    ensures Fnv(h, []) == 0x811c9dc5 && Fnv(h, a) == 0xe40c292c && Fnv(h, fo) == 0x6222e842
  {
    AfterA(h);
    FnvOfOne(h, a, 0xe40c292c);
    AfterF(h);
    AfterO(g);
    FnvOfTwo(h, fo, g, 0x6222e842);
  }
}
