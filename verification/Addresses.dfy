/** IPv4 and IPv6 addresses as unsigned integers, and CIDR blocks with the meaning
    of section 3.1 of RFC 4632: a mask of m fixes the m leading bits. */
module Addresses {

  type Ipv4Addr = a: int | 0 <= a < 0x1_0000_0000
  type Ipv6Addr = a: int | 0 <= a < 0x1_0000_0000_0000_0000_0000_0000_0000_0000
  datatype IpAddr = V4(v4: Ipv4Addr) | V6(v6: Ipv6Addr)

  type Mask4 = m: nat | m <= 32
  type Mask6 = m: nat | m <= 128
  datatype Ipv4Cidr = Ipv4Cidr(addr: Ipv4Addr, mask: Mask4)
  datatype Ipv6Cidr = Ipv6Cidr(addr: Ipv6Addr, mask: Mask6)
  datatype Cidr = Cidr4(c4: Ipv4Cidr) | Cidr6(c6: Ipv6Cidr)

  /** The address without its k lowest bits. */
  function Shr(a: nat, k: nat): nat {
    if k == 0 then a else Shr(a, k - 1) / 2
  }

  function Shl(a: nat, k: nat): nat {
    if k == 0 then a else 2 * Shl(a, k - 1)
  }

  predicate Contains4(c: Ipv4Cidr, a: Ipv4Addr) {
    Shr(c.addr, 32 - c.mask) == Shr(a, 32 - c.mask)
  }

  predicate Contains6(c: Ipv6Cidr, a: Ipv6Addr) {
    Shr(c.addr, 128 - c.mask) == Shr(a, 128 - c.mask)
  }

  predicate Contains(c: Cidr, a: IpAddr) {
    match (c, a)
    case (Cidr4(c4), V4(v4)) => Contains4(c4, v4)
    case (Cidr6(c6), V6(v6)) => Contains6(c6, v6)
    case _ => false
  }

  /** Two blocks overlap when they agree on the bits that both of them fix. */
  predicate Overlaps4(p: Ipv4Cidr, q: Ipv4Cidr) {
    var m := if p.mask <= q.mask then p.mask else q.mask;
    Shr(p.addr, 32 - m) == Shr(q.addr, 32 - m)
  }

  predicate Overlaps6(p: Ipv6Cidr, q: Ipv6Cidr) {
    var m := if p.mask <= q.mask then p.mask else q.mask;
    Shr(p.addr, 128 - m) == Shr(q.addr, 128 - m)
  }

  /** Every route inside `inner` is inside `outer`: the test of an FRR access-list rule. */
  predicate Covers(outer: Cidr, inner: Cidr) {
    match (outer, inner)
    case (Cidr4(o), Cidr4(i)) => o.mask <= i.mask && Contains4(o, i.addr)
    case (Cidr6(o), Cidr6(i)) => o.mask <= i.mask && Contains6(o, i.addr)
    case _ => false
  }

  lemma {:induction false} ShrAgree(a: nat, b: nat, k: nat, l: nat)
    requires k <= l && Shr(a, k) == Shr(b, k)
    ensures Shr(a, l) == Shr(b, l)
    decreases l
  {
    if k < l {
      ShrAgree(a, b, k, l - 1);
    }
  }

  /** Overlap is exactly the existence of a shared address. */
  lemma OverlapIsSharedAddress4(p: Ipv4Cidr, q: Ipv4Cidr)
    ensures Overlaps4(p, q) <==> exists a: Ipv4Addr :: Contains4(p, a) && Contains4(q, a)
  {
    if Overlaps4(p, q) {
      assert Contains4(p, if p.mask <= q.mask then q.addr else p.addr);
    }
    forall a: Ipv4Addr | Contains4(p, a) && Contains4(q, a) ensures Overlaps4(p, q) {
      var m := if p.mask <= q.mask then p.mask else q.mask;
      ShrAgree(p.addr, a, 32 - p.mask, 32 - m);
      ShrAgree(q.addr, a, 32 - q.mask, 32 - m);
    }
  }

  lemma OverlapIsSharedAddress6(p: Ipv6Cidr, q: Ipv6Cidr)
    ensures Overlaps6(p, q) <==> exists a: Ipv6Addr :: Contains6(p, a) && Contains6(q, a)
  {
    if Overlaps6(p, q) {
      assert Contains6(p, if p.mask <= q.mask then q.addr else p.addr);
    }
    forall a: Ipv6Addr | Contains6(p, a) && Contains6(q, a) ensures Overlaps6(p, q) {
      var m := if p.mask <= q.mask then p.mask else q.mask;
      ShrAgree(p.addr, a, 128 - p.mask, 128 - m);
      ShrAgree(q.addr, a, 128 - q.mask, 128 - m);
    }
  }

  // ----- Canonical blocks: host bits cleared -----

  lemma {:induction false} ShlShr(a: nat, k: nat)
    ensures Shr(Shl(a, k), k) == a && Shl(Shr(a, k), k) <= a
    decreases k
  {
    if k > 0 {
      ShlShr(a, k - 1);
      ShrOfDouble(Shl(a, k - 1), k - 1);
      ShlShr(Shr(a, k), k - 1);
      ShlMonotone(2 * Shr(a, k), Shr(a, k - 1), k - 1);
      ShlOfDouble(Shr(a, k), k - 1);
    }
  }

  lemma {:induction false} ShrOfDouble(a: nat, k: nat)
    ensures Shr(2 * a, k + 1) == Shr(a, k)
  {
    if k > 0 {
      ShrOfDouble(a, k - 1);
    }
  }

  lemma {:induction false} ShlOfDouble(a: nat, k: nat)
    ensures Shl(2 * a, k) == 2 * Shl(a, k)
  {
    if k > 0 {
      ShlOfDouble(a, k - 1);
    }
  }

  lemma {:induction false} ShlMonotone(a: nat, b: nat, k: nat)
    requires a <= b
    ensures Shl(a, k) <= Shl(b, k)
  {
    if k > 0 {
      ShlMonotone(a, b, k - 1);
    }
  }

  function Canonical4(c: Ipv4Cidr): (r: Ipv4Cidr)
    ensures r.mask == c.mask && Shr(r.addr, 32 - r.mask) == Shr(c.addr, 32 - c.mask) && r.addr <= c.addr
  {
    ShlShr(Shr(c.addr, 32 - c.mask), 32 - c.mask);
    ShlShr(c.addr, 32 - c.mask);
    Ipv4Cidr(Shl(Shr(c.addr, 32 - c.mask), 32 - c.mask), c.mask)
  }

  function Canonical6(c: Ipv6Cidr): (r: Ipv6Cidr)
    ensures r.mask == c.mask && Shr(r.addr, 128 - r.mask) == Shr(c.addr, 128 - c.mask) && r.addr <= c.addr
  {
    ShlShr(Shr(c.addr, 128 - c.mask), 128 - c.mask);
    ShlShr(c.addr, 128 - c.mask);
    Ipv6Cidr(Shl(Shr(c.addr, 128 - c.mask), 128 - c.mask), c.mask)
  }

  // ----- What a block contains -----

  lemma {:induction false} ShlSuccessor(q: nat, k: nat)
    ensures Shl(q + 1, k) == Shl(q, k) + Pow(2, k)
  {
    if k > 0 {
      ShlSuccessor(q, k - 1);
    }
  }

  /** The numbers without their k lowest bits are equal in runs of 2^k. */
  lemma {:induction false} ShrRun(a: nat, q: nat, k: nat)
    ensures Shr(a, k) == q <==> Shl(q, k) <= a < Shl(q, k) + Pow(2, k)
    decreases k
  {
    if k > 0 {
      ShrRun(a, 2 * q, k - 1);
      ShrRun(a, 2 * q + 1, k - 1);
      ShlOfDouble(q, k - 1);
      ShlSuccessor(2 * q, k - 1);
    }
  }

  lemma {:induction false} ShlIsProduct(q: nat, k: nat)
    ensures Shl(q, k) == q * Pow(2, k)
  {
    if k > 0 {
      ShlIsProduct(q, k - 1);
      Doubled(q, Pow(2, k - 1));
    }
  }

  lemma Doubled(q: nat, p: nat)
    ensures 2 * (q * p) == q * (2 * p)
  {
  }

  /** A block contains the 2^(32 - m) addresses from its network address on, which is a multiple of
      their number. */
  lemma BlockIsRun4(c: Ipv4Cidr, a: Ipv4Addr) returns (q: nat)
    ensures Canonical4(c).addr == q * Pow(2, 32 - c.mask)
    ensures Contains4(c, a) <==> Canonical4(c).addr <= a < Canonical4(c).addr + Pow(2, 32 - c.mask)
  {
    q := Shr(c.addr, 32 - c.mask);
    ShrRun(a, q, 32 - c.mask);
    ShlIsProduct(q, 32 - c.mask);
  }

  lemma BlockIsRun6(c: Ipv6Cidr, a: Ipv6Addr) returns (q: nat)
    ensures Canonical6(c).addr == q * Pow(2, 128 - c.mask)
    ensures Contains6(c, a) <==> Canonical6(c).addr <= a < Canonical6(c).addr + Pow(2, 128 - c.mask)
  {
    q := Shr(c.addr, 128 - c.mask);
    ShrRun(a, q, 128 - c.mask);
    ShlIsProduct(q, 128 - c.mask);
  }

  // ----- Octets and segments, most significant first -----

  type Byte = b: int | 0 <= b < 256

  function Digits(a: nat, base: nat, n: nat): (ds: seq<nat>)
    requires base >= 2
    ensures |ds| == n
    ensures forall i :: 0 <= i < n ==> ds[i] < base
    decreases n
  {
    if n == 0 then [] else Digits(a / base, base, n - 1) + [a % base]
  }

  /** The octets of an IPv6 address; they determine it. */
  function Octets6(a: Ipv6Addr): (os: seq<Byte>)
    ensures |os| == 16
  {
    var ds := Digits(a, 256, 16);
    seq(16, i requires 0 <= i < 16 => ds[i] as Byte)
  }

  function Pow(base: nat, n: nat): nat {
    if n == 0 then 1 else base * Pow(base, n - 1)
  }

  lemma QuotientBound(a: nat, base: nat, p: nat)
    requires base >= 2 && a < base * p
    ensures 0 <= a / base < p && a == base * (a / base) + a % base
  {
    assert base * (a / base) <= a;
    assert base * (a / base - p) < 0;
  }

  /** The number with the given digits, most significant first. */
  function FromDigits(ds: seq<nat>, base: nat): nat {
    if ds == [] then 0 else base * FromDigits(ds[..|ds| - 1], base) + ds[|ds| - 1]
  }

  /** n digits make up every number below base^n. */
  lemma {:induction false} DigitsCompose(a: nat, base: nat, n: nat)
    requires base >= 2 && a < Pow(base, n)
    ensures FromDigits(Digits(a, base, n), base) == a
    decreases n
  {
    if n > 0 {
      QuotientBound(a, base, Pow(base, n - 1));
      DigitsCompose(a / base, base, n - 1);
      var ds := Digits(a, base, n);
      assert ds[..n - 1] == Digits(a / base, base, n - 1) && ds[n - 1] == a % base;
    }
  }

  /** So they determine it. */
  lemma DigitsInjective(a: nat, b: nat, base: nat, n: nat)
    requires base >= 2
    requires a < Pow(base, n) && b < Pow(base, n)
    requires Digits(a, base, n) == Digits(b, base, n)
    ensures a == b
  {
    DigitsCompose(a, base, n);
    DigitsCompose(b, base, n);
  }

  /** The octets of an address come in network order. */
  lemma OctetsInOrder(a: Ipv6Addr)
    ensures FromDigits(Octets6(a), 256) == a
  {
    assert Pow(256, 4) == 0x1_0000_0000;
    assert Pow(256, 8) == 0x1_0000_0000_0000_0000;
    assert Pow(256, 12) == 0x1_0000_0000_0000_0000_0000_0000;
    assert Pow(256, 16) == 0x1_0000_0000_0000_0000_0000_0000_0000_0000;
    DigitsCompose(a, 256, 16);
    assert Octets6(a) == Digits(a, 256, 16);
  }
}
