/** The bound on prefixes is sharp: two addresses of one prefix of length 102 that have the same
    router-id. */
module RouterIdExample {
  import opened Addresses
  import opened RouterId
  import RouterIdCollisions

  const PREFIX := Ipv6Cidr(0xfd00_0000_0000_0000_0000_0000_0400_0000, 102)
  const LEFT: Ipv6Addr := 0xfd00_0000_0000_0000_0000_0000_0470_e200
  const RIGHT: Ipv6Addr := 0xfd00_0000_0000_0000_0000_0000_06ee_1df9

  // ----- The hashes, step by step -----

  lemma ZeroStep(h: Ipv4Addr, g: Ipv4Addr, m: nat)
    requires h * FNV_PRIME == m * WORD + g
    ensures Step(h, 0) == g
  {
    XorZero(h);
    Remainder(h * FNV_PRIME, m, g);
  }

  /** Four steps, given the states between them. */
  lemma FourSteps(h: Ipv4Addr, s: seq<Byte>, p: seq<Ipv4Addr>)
    requires |s| == 4 && |p| == 4 && Step(h, s[0]) == p[0] && Step(p[0], s[1]) == p[1]
    requires Step(p[1], s[2]) == p[2] && Step(p[2], s[3]) == p[3]
    ensures Fnv(h, s) == p[3]
  {
    FnvHead(h, s, s[1..]);
    FnvHead(p[0], s[1..], s[2..]);
    FnvOfTwo(p[1], s[2..], p[2], p[3]);
  }

  lemma PrefixStep0(h: Ipv4Addr)
    requires h == 0x811c9dc5
    ensures Step(h, 0xfd) == 0x780b7f28
  {
    StepOf(h, 0x811c9d, 0xc5, 0xfd, 0x38, 0x780b7f28, 0x811d68);
  }

  lemma FirstFour(h: Ipv4Addr, s: seq<Byte>, p: seq<Ipv4Addr>)
    requires h == 0x811c9dc5 && s == [0xfd, 0, 0, 0]
    requires p == [0x780b7f28, 0x22192bf8, 0xa5a03768, 0x233738b8]
    ensures Fnv(h, s) == 0x233738b8
  {
    PrefixStep0(h);
    ZeroStep(p[0], p[1], 0x780c3c);
    ZeroStep(p[1], p[2], 0x221961);
    ZeroStep(p[2], p[3], 0xa5a13c);
    FourSteps(h, s, p);
  }

  lemma SecondFour(h: Ipv4Addr, s: seq<Byte>, p: seq<Ipv4Addr>)
    requires h == 0x233738b8 && s == [0, 0, 0, 0]
    requires p == [0x27ee49a8, 0x841df378, 0x732645e8, 0x2d400c38]
    ensures Fnv(h, s) == 0x2d400c38
  {
    ZeroStep(h, p[0], 0x233770);
    ZeroStep(p[0], p[1], 0x27ee88);
    ZeroStep(p[1], p[2], 0x841ec3);
    ZeroStep(p[2], p[3], 0x7326fb);
    FourSteps(h, s, p);
  }

  lemma ThirdFour(h: Ipv4Addr, s: seq<Byte>, p: seq<Ipv4Addr>)
    requires h == 0x2d400c38 && s == [0, 0, 0, 0]
    requires p == [0x73d33c28, 0x7d87b2f8, 0x949ebc68, 0x5de297b8]
    ensures Fnv(h, s) == 0x5de297b8
  {
    ZeroStep(h, p[0], 0x2d4053);
    ZeroStep(p[0], p[1], 0x73d3f2);
    ZeroStep(p[1], p[2], 0x7d8878);
    ZeroStep(p[2], p[3], 0x949fa6);
    FourSteps(h, s, p);
  }

  lemma LeftStep0(h: Ipv4Addr)
    requires h == 0x5de297b8
    ensures Step(h, 0x4) == 0x87b4dcf4
  {
    StepOf(h, 0x5de297, 0xb8, 0x4, 0xbc, 0x87b4dcf4, 0x5de32b);
  }

  lemma LeftStep1(h: Ipv4Addr)
    requires h == 0x87b4dcf4
    ensures Step(h, 0x70) == 0x25b723cc
  {
    StepOf(h, 0x87b4dc, 0xf4, 0x70, 0x84, 0x25b723cc, 0x87b5b2);
  }

  lemma LeftStep2(h: Ipv4Addr)
    requires h == 0x25b723cc
    ensures Step(h, 0xe2) == 0x8d4c616a
  {
    StepOf(h, 0x25b723, 0xcc, 0xe2, 0x2e, 0x8d4c616a, 0x25b75e);
  }

  lemma LeftFour(h: Ipv4Addr, s: seq<Byte>, p: seq<Ipv4Addr>)
    requires h == 0x5de297b8 && s == [0x4, 0x70, 0xe2, 0]
    requires p == [0x87b4dcf4, 0x25b723cc, 0x8d4c616a, 0xd93d59de]
    ensures Fnv(h, s) == 0xd93d59de
  {
    LeftStep0(h);
    LeftStep1(p[0]);
    LeftStep2(p[1]);
    ZeroStep(p[2], p[3], 0x8d4d3f);
    FourSteps(h, s, p);
  }

  lemma RightStep0(h: Ipv4Addr)
    requires h == 0x5de297b8
    ensures Step(h, 0x6) == 0x89b4e01a
  {
    StepOf(h, 0x5de297, 0xb8, 0x6, 0xbe, 0x89b4e01a, 0x5de32b);
  }

  lemma RightStep1(h: Ipv4Addr)
    requires h == 0x89b4e01a
    ensures Step(h, 0xee) == 0xbbbe201c
  {
    StepOf(h, 0x89b4e0, 0x1a, 0xee, 0xf4, 0xbbbe201c, 0x89b5b9);
  }

  lemma RightStep2(h: Ipv4Addr)
    requires h == 0xbbbe201c
    ensures Step(h, 0x1d) == 0x8d4c6193
  {
    StepOf(h, 0xbbbe20, 0x1c, 0x1d, 0x1, 0x8d4c6193, 0xbbbf47);
  }

  lemma RightStep3(h: Ipv4Addr)
    requires h == 0x8d4c6193
    ensures Step(h, 0xf9) == 0xd93d59de
  {
    StepOf(h, 0x8d4c61, 0x93, 0xf9, 0x6a, 0xd93d59de, 0x8d4d3f);
  }

  lemma RightFour(h: Ipv4Addr, s: seq<Byte>, p: seq<Ipv4Addr>)
    requires h == 0x5de297b8 && s == [0x6, 0xee, 0x1d, 0xf9]
    requires p == [0x89b4e01a, 0xbbbe201c, 0x8d4c6193, 0xd93d59de]
    ensures Fnv(h, s) == 0xd93d59de
  {
    RightStep0(h);
    RightStep1(p[0]);
    RightStep2(p[1]);
    RightStep3(p[2]);
    FourSteps(h, s, p);
  }

  // ----- The octets of the two addresses -----

  lemma LastDigit(a: nat, n: nat, q: nat, z: Byte)
    requires a == 256 * q + z
    ensures Digits(a, 256, n + 1) == Digits(q, 256, n) + [z]
  {
    assert a / 256 == q && a % 256 == z;
  }

  function FourMore(q: nat, s: seq<Byte>): nat
    requires |s| == 4
  {
    (((q * 256 + s[0]) * 256 + s[1]) * 256 + s[2]) * 256 + s[3]
  }

  lemma LastFour(a: nat, n: nat, q: nat, s: seq<Byte>)
    requires |s| == 4 && a == FourMore(q, s)
    ensures Digits(a, 256, n + 4) == Digits(q, 256, n) + s
  {
    LastDigit(q * 256 + s[0], n, q, s[0]);
    LastDigit((q * 256 + s[0]) * 256 + s[1], n + 1, q * 256 + s[0], s[1]);
    LastDigit(((q * 256 + s[0]) * 256 + s[1]) * 256 + s[2], n + 2, (q * 256 + s[0]) * 256 + s[1], s[2]);
    LastDigit(a, n + 3, ((q * 256 + s[0]) * 256 + s[1]) * 256 + s[2], s[3]);
    assert s == [s[0]] + [s[1]] + [s[2]] + [s[3]];
  }

  /** The octets of an address whose middle octets are zero. */
  ghost predicate HasOctets(o: seq<Byte>, last: seq<Byte>) {
    |o| == 16 && o[..4] == [0xfd, 0, 0, 0] && o[4..8] == [0, 0, 0, 0] && o[8..12] == [0, 0, 0, 0] && o[12..] == last
  }

  lemma Parts(o: seq<Byte>, s: seq<Byte>, zeros: seq<Byte>, last: seq<Byte>)
    requires |last| == 4 && s == [0xfd, 0, 0, 0] && zeros == [0, 0, 0, 0] && o == s + zeros + zeros + last
    ensures HasOctets(o, last)
  {
  }

  lemma EightOctets(a: nat, n: nat, q: nat, r: nat, s: seq<Byte>, t: seq<Byte>)
    requires |s| == |t| == 4 && a == FourMore(q, t) && q == FourMore(r, s)
    ensures Digits(a, 256, n + 8) == Digits(r, 256, n) + s + t
  {
    LastFour(a, n + 4, q, t);
    LastFour(q, n, r, s);
  }

  lemma SixteenOctets(a: Ipv6Addr, q: nat, r: nat, t: nat, s: seq<Byte>, zeros: seq<Byte>, last: seq<Byte>)
    requires |s| == |zeros| == |last| == 4 && a == FourMore(q, last)
    requires q == FourMore(r, zeros) && r == FourMore(t, zeros) && t == FourMore(0, s)
    ensures Octets6(a) == s + zeros + zeros + last
  {
    EightOctets(a, 8, q, r, zeros, last);
    EightOctets(r, 0, t, 0, s, zeros);
    assert s + zeros + zeros + last == Digits(0, 256, 0) + s + zeros + zeros + last;
  }

  lemma OctetsOf(a: Ipv6Addr, q: nat, r: nat, t: nat, last: seq<Byte>)
    requires q == 0xfd00_0000_0000_0000_0000_0000 && r == 0xfd00_0000_0000_0000 && t == 0xfd00_0000
    requires |last| == 4 && a == FourMore(q, last)
    ensures HasOctets(Octets6(a), last)
  {
    var s, zeros: seq<Byte> := [0xfd, 0, 0, 0], [0, 0, 0, 0];
    SixteenOctets(a, q, r, t, s, zeros, last);
    Parts(Octets6(a), s, zeros, last);
  }

  // ----- Their hash -----

  lemma ThreeFours(h: Ipv4Addr, s: seq<Byte>, x: Ipv4Addr, y: Ipv4Addr, z: Ipv4Addr)
    requires |s| == 16 && Fnv(h, s[..4]) == x && Fnv(x, s[4..8]) == y && Fnv(y, s[8..12]) == z
    ensures Fnv(h, s) == Fnv(z, s[12..])
  {
    RouterIdCollisions.FnvSplit(h, s, 4);
    RouterIdCollisions.FnvSplit(x, s[4..], 4);
    RouterIdCollisions.FnvSplit(y, s[8..], 4);
    assert s[4..][..4] == s[4..8] && s[4..][4..] == s[8..];
    assert s[8..][..4] == s[8..12] && s[8..][4..] == s[12..];
  }

  lemma TwelveOctets(h: Ipv4Addr, s: seq<Byte>, last: seq<Byte>)
    requires h == FNV_OFFSET && HasOctets(s, last)
    ensures Fnv(h, s) == Fnv(0x5de297b8, last)
  {
    FirstFour(h, s[..4], [0x780b7f28, 0x22192bf8, 0xa5a03768, 0x233738b8]);
    SecondFour(0x233738b8, s[4..8], [0x27ee49a8, 0x841df378, 0x732645e8, 0x2d400c38]);
    ThirdFour(0x2d400c38, s[8..12], [0x73d33c28, 0x7d87b2f8, 0x949ebc68, 0x5de297b8]);
    ThreeFours(h, s, 0x233738b8, 0x2d400c38, 0x5de297b8);
  }

  lemma LeftHash(h: Ipv4Addr, a: Ipv6Addr, last: seq<Byte>)
    requires h == FNV_OFFSET && a == LEFT && last == [0x4, 0x70, 0xe2, 0]
    ensures Fnv(h, Octets6(a)) == 0xd93d59de
  {
    OctetsOf(a, 0xfd00_0000_0000_0000_0000_0000, 0xfd00_0000_0000_0000, 0xfd00_0000, last);
    TwelveOctets(h, Octets6(a), last);
    LeftFour(0x5de297b8, last, [0x87b4dcf4, 0x25b723cc, 0x8d4c616a, 0xd93d59de]);
  }

  lemma RightHash(h: Ipv4Addr, a: Ipv6Addr, last: seq<Byte>)
    requires h == FNV_OFFSET && a == RIGHT && last == [0x6, 0xee, 0x1d, 0xf9]
    ensures Fnv(h, Octets6(a)) == 0xd93d59de
  {
    OctetsOf(a, 0xfd00_0000_0000_0000_0000_0000, 0xfd00_0000_0000_0000, 0xfd00_0000, last);
    TwelveOctets(h, Octets6(a), last);
    RightFour(0x5de297b8, last, [0x89b4e01a, 0xbbbe201c, 0x8d4c6193, 0xd93d59de]);
  }

  // ----- Their prefix -----

  lemma PowerOf26()
    ensures Pow(2, 26) == 0x400_0000
  {
    assert Pow(2, 8) == 0x100;
    assert Pow(2, 16) == 0x1_0000;
    assert Pow(2, 24) == 0x100_0000;
  }

  lemma InBlock(c: Ipv6Cidr, a: Ipv6Addr, q: nat)
    requires c.mask == 102 && c.addr == q * 0x400_0000 && q * 0x400_0000 <= a < q * 0x400_0000 + 0x400_0000
    ensures Contains6(c, a)
  {
    PowerOf26();
    ShlIsProduct(q, 26);
    ShrRun(c.addr, q, 26);
    ShrRun(a, q, 26);
  }

  /** fd00::470:e200 and fd00::6ee:1df9 are in one prefix of length 102 and have the same
      router-id, 217.61.89.222. */
  lemma CollisionInPrefix(h: Ipv4Addr, c: Ipv6Cidr, a: Ipv6Addr, b: Ipv6Addr)
    requires h == FNV_OFFSET && c == PREFIX && a == LEFT && b == RIGHT
    ensures Contains6(c, a) && Contains6(c, b) && a != b
    ensures Fnv(h, Octets6(a)) == Fnv(h, Octets6(b)) == 0xd93d59de
  {
    InBlock(c, a, 0x3f_4000_0000_0000_0000_0000_0001);
    InBlock(c, b, 0x3f_4000_0000_0000_0000_0000_0001);
    LeftHash(h, a, [0x4, 0x70, 0xe2, 0]);
    RightHash(h, b, [0x6, 0xee, 0x1d, 0xf9]);
  }
}
