/** When the router-ids of two IPv6 addresses can collide: never inside a prefix of length 103 or
    more. How far apart two hash states are after each octet is followed modulo 2^32. */
module RouterIdCollisions {
  import opened Addresses
  import opened RouterId

  // ----- The low octet of a state -----

  lemma {:induction false} XorShifted(a: nat, b: nat, k: nat)
    ensures Shr(Xor(a, b), k) == Xor(Shr(a, k), Shr(b, k))
  {
    if k > 0 {
      XorShifted(a, b, k - 1);
      XorHalves(Shr(a, k - 1), Shr(b, k - 1));
    }
  }

  /** An octet changes the low octet of a state only. */
  lemma XorKeepsHigh(x: nat, b: Byte)
    ensures Xor(x, b) / 256 == x / 256
  {
    XorShifted(x, b, 8);
    ShrEight(Xor(x, b));
    ShrEight(x);
    ShrEight(b);
    XorZero(x / 256);
  }

  /** Octets that differ in the lowest bit at most move a state by one at most. */
  lemma XorNearby(x: nat, b: Byte, c: Byte)
    requires b / 2 == c / 2
    ensures -1 <= Xor(x, b) - Xor(x, c) <= 1
  {
    XorHalves(x, b);
    XorHalves(x, c);
  }

  lemma XorInjective(x: nat, b: nat, c: nat)
    requires Xor(x, b) == Xor(x, c)
    ensures b == c
  {
    XorCommutes(x, b);
    XorCommutes(x, c);
    XorInvolutive(b, x);
    XorInvolutive(c, x);
  }

  /** How far apart two states are after the multiplication. */
  lemma Multiplied(x: nat, y: nat) returns (m: int)
    ensures x * FNV_PRIME % WORD - y * FNV_PRIME % WORD == (x - y) * FNV_PRIME - m * WORD
  {
    m := x * FNV_PRIME / WORD - y * FNV_PRIME / WORD;
  }

  /** Before the last octet, states with equal hashes differ in the low octet at most. */
  lemma BeforeLast(s: Ipv4Addr, t: Ipv4Addr, b: Byte, c: Byte)
    requires Step(s, b) == Step(t, c)
    ensures -255 <= s - t <= 255
  {
    WordIsPow();
    XorBound(s, b, 32);
    XorBound(t, c, 32);
    MultiplyInjective(Xor(s, b), Xor(t, c));
    XorKeepsHigh(s, b);
    XorKeepsHigh(t, c);
  }

  /** How far apart two states are after an octet: the multiplication is applied to what they were
      apart before and what the octets have moved them, which is little. */
  lemma Moved(s: Ipv4Addr, t: Ipv4Addr, b: Byte, c: Byte) returns (h: int, m: int)
    ensures Step(s, b) - Step(t, c) == (s - t + h) * FNV_PRIME - m * WORD
    ensures -510 <= h <= 510
    ensures s == t ==> -255 <= h <= 255 && (h == 0 ==> b == c) && (b / 2 == c / 2 ==> -1 <= h <= 1)
  {
    var x, y := Xor(s, b), Xor(t, c);
    XorKeepsHigh(s, b);
    XorKeepsHigh(t, c);
    h := (x - s) - (y - t);
    m := Multiplied(x, y);
    if s == t {
      if h == 0 {
        XorInjective(s, b, c);
      }
      if b / 2 == c / 2 {
        XorNearby(s, b, c);
      }
    }
  }

  // ----- Differences that cannot come to rest -----

  /** One multiplication takes small differences apart. */
  lemma Spread1(d: int, e: int, m: int)
    requires -255 <= d <= 255 && -255 <= e <= 255
    requires d * FNV_PRIME - e == m * WORD
    ensures d == 0
  {
  }

  lemma Spread2Case(d: int, h: int, e: int, j: int)
    requires -255 <= d <= 255 && -510 <= h <= 510 && -255 <= e <= 255
    requires 162409 * d + 403 * h - e == 0x100_0000 * j
    ensures (38 * d + h + j) % 256 == 0 ==> d == 0
  {
    assert -2 <= j <= 2;
    assert j == 0 ==> -2 < d < 2;
    assert j == 1 ==> 102 <= d <= 104;
    assert j == -1 ==> -104 <= d <= -102;
    assert j == 2 ==> 205 <= d <= 207;
    assert j == -2 ==> -207 <= d <= -205;
  }

  /** The square of the prime is 38 * 2^24 + 162409 modulo 2^32. */
  lemma Squared(d: int, h: int, e: int, m: int) returns (j: int)
    requires (d * FNV_PRIME + h) * FNV_PRIME - e == m * WORD
    ensures 162409 * d + 403 * h - e == 0x100_0000 * j && (38 * d + h + j) % 256 == 0
  {
    var n := m - 65539 * d;
    j := 256 * n - 38 * d - h;
    assert 38 * d + h + j == 256 * n;
  }

  /** So two multiplications take small differences apart as well. */
  lemma Spread2(d: int, h: int, e: int, m: int)
    requires -255 <= d <= 255 && -510 <= h <= 510 && -255 <= e <= 255
    requires (d * FNV_PRIME + h) * FNV_PRIME - e == m * WORD
    ensures d == 0
  {
    var j := Squared(d, h, e, m);
    Spread2Case(d, h, e, j);
  }

  lemma Spread3Low(h: int, i: int, e: int, j: int)
    requires -510 <= h <= 510 && -510 <= i <= 510 && -255 <= e <= 255 && j <= -2
    requires 15119179 + 162409 * h + 403 * i - e == 0x100_0000 * j
    ensures (62 + 38 * h + i + j) % 256 != 0
  {
    assert -4 <= j;
    assert j == -4 ==> -507 <= h <= -506;
    assert j == -3 ==> -404 <= h <= -402;
    assert j == -2 ==> -300 <= h <= -299;
  }

  lemma Spread3Middle(h: int, i: int, e: int, j: int)
    requires -510 <= h <= 510 && -510 <= i <= 510 && -255 <= e <= 255 && -1 <= j <= 2
    requires 15119179 + 162409 * h + 403 * i - e == 0x100_0000 * j
    ensures (62 + 38 * h + i + j) % 256 != 0
  {
    assert j == -1 ==> -197 <= h <= -196;
    assert j == 0 ==> -94 <= h <= -92;
    assert j == 1 ==> 9 <= h <= 11;
    assert j == 2 ==> 113 <= h <= 114;
  }

  lemma Spread3High(h: int, i: int, e: int, j: int)
    requires -510 <= h <= 510 && -510 <= i <= 510 && -255 <= e <= 255 && j >= 3
    requires 15119179 + 162409 * h + 403 * i - e == 0x100_0000 * j
    ensures (62 + 38 * h + i + j) % 256 != 0
  {
    assert j <= 5;
    assert j == 3 ==> 216 <= h <= 218;
    assert j == 4 ==> 319 <= h <= 321;
    assert j == 5 ==> 423 <= h <= 424;
  }

  /** The cube of the prime is 62 * 2^24 + 15119179 modulo 2^32. */
  lemma Cubed(h: int, i: int, e: int, m: int) returns (j: int)
    requires ((FNV_PRIME + h) * FNV_PRIME + i) * FNV_PRIME - e == m * WORD
    ensures 15119179 + 162409 * h + 403 * i - e == 0x100_0000 * j && (62 + 38 * h + i + j) % 256 == 0
  {
    var n := m - 1099590862703 - 65539 * h;
    j := 256 * n - 62 - 38 * h - i;
    assert 62 + 38 * h + i + j == 256 * n;
  }

  /** So three take a difference of one apart. */
  lemma Spread3(h: int, i: int, e: int, m: int)
    requires -510 <= h <= 510 && -510 <= i <= 510 && -255 <= e <= 255
    ensures ((FNV_PRIME + h) * FNV_PRIME + i) * FNV_PRIME - e != m * WORD
  {
    if ((FNV_PRIME + h) * FNV_PRIME + i) * FNV_PRIME - e == m * WORD {
      var j := Cubed(h, i, e, m);
      if j <= -2 {
        Spread3Low(h, i, e, j);
      } else if j <= 2 {
        Spread3Middle(h, i, e, j);
      } else {
        Spread3High(h, i, e, j);
      }
    }
  }

  // ----- The last four octets -----

  /** From one state, different octets lead to states that one more octet does not bring together. */
  lemma TwoLeft(s: Ipv4Addr, a: seq<Byte>, b: seq<Byte>)
    requires |a| == |b| == 2 && Step(Step(s, a[0]), a[1]) == Step(Step(s, b[0]), b[1])
    ensures a[0] == b[0]
  {
    var d, m := Moved(s, s, a[0], b[0]);
    BeforeLast(Step(s, a[0]), Step(s, b[0]), a[1], b[1]);
    Spread1(d, Step(s, a[0]) - Step(s, b[0]), m);
  }

  /** Two more do not either. */
  lemma ThreeLeft(s: Ipv4Addr, a: seq<Byte>, b: seq<Byte>)
    requires |a| == |b| == 3
    requires Step(Step(Step(s, a[0]), a[1]), a[2]) == Step(Step(Step(s, b[0]), b[1]), b[2])
    ensures a[0] == b[0]
  {
    var d, m := Moved(s, s, a[0], b[0]);
    TwoFrom(Step(s, a[0]), Step(s, b[0]), d, m, a[1..], b[1..]);
  }

  lemma TwoFrom(u: Ipv4Addr, v: Ipv4Addr, d: int, m: int, a: seq<Byte>, b: seq<Byte>)
    requires -255 <= d <= 255 && u - v == d * FNV_PRIME - m * WORD
    requires |a| == |b| == 2 && Step(Step(u, a[0]), a[1]) == Step(Step(v, b[0]), b[1])
    ensures d == 0
  {
    var h, m' := Moved(u, v, a[0], b[0]);
    BeforeLast(Step(u, a[0]), Step(v, b[0]), a[1], b[1]);
    Twice(d, h, Step(u, a[0]) - Step(v, b[0]), u - v, m, m');
  }

  lemma Twice(d: int, h: int, e: int, f: int, m: int, m': int)
    requires -255 <= d <= 255 && -510 <= h <= 510 && -255 <= e <= 255
    requires f == d * FNV_PRIME - m * WORD && e == (f + h) * FNV_PRIME - m' * WORD
    ensures d == 0
  {
    Spread2(d, h, e, m * FNV_PRIME + m');
  }

  /** Nor do three, if the octets differ in the lowest bit at most. */
  lemma FourLeft(s: Ipv4Addr, a: seq<Byte>, b: seq<Byte>)
    requires |a| == |b| == 4 && a[0] / 2 == b[0] / 2
    requires Step(Step(Step(Step(s, a[0]), a[1]), a[2]), a[3]) == Step(Step(Step(Step(s, b[0]), b[1]), b[2]), b[3])
    ensures a[0] == b[0]
  {
    var d, m := Moved(s, s, a[0], b[0]);
    if d == 1 {
      ThreeFrom(Step(s, a[0]), Step(s, b[0]), m, a[1..], b[1..]);
    } else if d == -1 {
      ThreeFrom(Step(s, b[0]), Step(s, a[0]), -m, b[1..], a[1..]);
    }
  }

  lemma ThreeFrom(u: Ipv4Addr, v: Ipv4Addr, m: int, a: seq<Byte>, b: seq<Byte>)
    requires u - v == FNV_PRIME - m * WORD && |a| == |b| == 3
    ensures Step(Step(Step(u, a[0]), a[1]), a[2]) != Step(Step(Step(v, b[0]), b[1]), b[2])
  {
    var h, m' := Moved(u, v, a[0], b[0]);
    LastTwoFrom(Step(u, a[0]), Step(v, b[0]), h, m, m', a[1..], b[1..]);
  }

  lemma LastTwoFrom(u: Ipv4Addr, v: Ipv4Addr, h: int, m: int, m': int, a: seq<Byte>, b: seq<Byte>)
    requires -510 <= h <= 510 && u - v == (FNV_PRIME - m * WORD + h) * FNV_PRIME - m' * WORD && |a| == |b| == 2
    ensures Step(Step(u, a[0]), a[1]) != Step(Step(v, b[0]), b[1])
  {
    if Step(Step(u, a[0]), a[1]) == Step(Step(v, b[0]), b[1]) {
      var i, m'' := Moved(u, v, a[0], b[0]);
      BeforeLast(Step(u, a[0]), Step(v, b[0]), a[1], b[1]);
      Thrice(h, i, Step(u, a[0]) - Step(v, b[0]), u - v, m, m', m'');
    }
  }

  lemma Thrice(h: int, i: int, e: int, g: int, m: int, m': int, m'': int)
    requires -510 <= h <= 510 && -510 <= i <= 510 && -255 <= e <= 255
    requires g == (FNV_PRIME - m * WORD + h) * FNV_PRIME - m' * WORD
    ensures e != (g + i) * FNV_PRIME - m'' * WORD
  {
    Spread3(h, i, e, (m * FNV_PRIME + m') * FNV_PRIME + m'');
  }

  lemma FnvOfFour(h: Ipv4Addr, g: Ipv4Addr, s: seq<Byte>)
    requires |s| == 4 && g == Step(Step(h, s[0]), s[1])
    ensures Fnv(h, s) == Step(Step(g, s[2]), s[3])
  {
    FnvHead(h, s, s[1..]);
    FnvHead(Step(h, s[0]), s[1..], s[2..]);
    FnvOfTwo(g, s[2..], Step(g, s[2]), Step(Step(g, s[2]), s[3]));
  }

  /** If nothing but the last four octets can differ, and the first of these in its lowest bit only,
      then equal hashes mean equal octets. */
  lemma LastFourEqual(h: Ipv4Addr, s: seq<Byte>, t: seq<Byte>)
    requires |s| == |t| == 4 && s[0] / 2 == t[0] / 2 && Fnv(h, s) == Fnv(h, t)
    ensures s == t
  {
    FnvOfFour(h, Step(Step(h, s[0]), s[1]), s);
    FnvOfFour(h, Step(Step(h, t[0]), t[1]), t);
    FourLeft(h, s, t);
    var u := Step(h, s[0]);
    ThreeLeft(u, s[1..], t[1..]);
    var v := Step(u, s[1]);
    TwoLeft(v, s[2..], t[2..]);
    StepInjective(Step(v, s[2]), Step(v, s[2]), s[3], t[3]);
  }

  // ----- Prefixes -----

  lemma {:induction false} FnvSplit(h: Ipv4Addr, s: seq<Byte>, i: nat)
    requires i <= |s|
    ensures Fnv(h, s) == Fnv(Fnv(h, s[..i]), s[i..])
    decreases i
  {
    if i > 0 {
      FnvSplit(Step(h, s[0]), s[1..], i - 1);
      assert s[..i][1..] == s[1..][..i - 1] && s[1..][i - 1..] == s[i..];
    } else {
      assert s[..0] == [] && s[0..] == s;
    }
  }

  lemma {:induction false} ShrSum(a: nat, k: nat, l: nat)
    ensures Shr(a, k + l) == Shr(Shr(a, k), l)
    decreases l
  {
    if l > 0 {
      ShrSum(a, k, l - 1);
    }
  }

  lemma ThreeOctetsOff(a: nat)
    ensures Shr(a, 24) == a / 256 / 256 / 256
  {
    ShrSum(a, 8, 16);
    ShrSum(a / 256, 8, 8);
    ShrEight(a);
    ShrEight(a / 256);
    ShrEight(a / 256 / 256);
  }

  lemma DigitsInit(a: nat, n: nat)
    ensures Digits(a, 256, n + 1)[..n] == Digits(a / 256, 256, n) && Digits(a, 256, n + 1)[n] == a % 256
  {
  }

  /** The leading octets of an address without its last three. */
  lemma LeadingOctets(a: Ipv6Addr)
    ensures Octets6(a)[..12] == Digits(Shr(a, 24) / 256, 256, 12) && Octets6(a)[12] == Shr(a, 24) % 256
  {
    var b := a / 256;
    var c := b / 256;
    ThreeOctetsOff(a);
    DigitsInit(a, 15);
    DigitsInit(b, 14);
    DigitsInit(c, 13);
    DigitsInit(c / 256, 12);
    var d := Digits(a, 256, 16);
    assert d[..13] == d[..15][..14][..13] == Digits(c / 256, 256, 13);
    assert d[..12] == d[..13][..12] && d[12] == d[..13][12];
    assert Octets6(a)[..12] == d[..12];
  }

  lemma EndsDiffer(h: Ipv4Addr, s: seq<Byte>, t: seq<Byte>)
    requires |s| == |t| == 16 && s[..12] == t[..12] && s[12] / 2 == t[12] / 2 && s != t
    ensures Fnv(h, s) != Fnv(h, t)
  {
    FnvSplit(h, s, 12);
    FnvSplit(h, t, 12);
    assert s == s[..12] + s[12..] && t == t[..12] + t[12..];
    if Fnv(h, s) == Fnv(h, t) {
      LastFourEqual(Fnv(h, s[..12]), s[12..], t[12..]);
    }
  }

  lemma HalvesAgree(x: nat, y: nat)
    requires x / 2 == y / 2
    ensures x / 256 == y / 256 && x % 256 / 2 == y % 256 / 2
  {
    assert x == 2 * (x / 2) + x % 2 && y == 2 * (x / 2) + y % 2;
  }

  lemma OctetsDiffer(a: Ipv6Addr, b: Ipv6Addr)
    requires a != b
    ensures Octets6(a) != Octets6(b)
  {
    OctetsInOrder(a);
    OctetsInOrder(b);
  }

  /** Addresses that differ in the last 25 bits only. */
  lemma OctetsAgree(a: Ipv6Addr, b: Ipv6Addr)
    requires Shr(a, 25) == Shr(b, 25)
    ensures Octets6(a)[..12] == Octets6(b)[..12] && Octets6(a)[12] / 2 == Octets6(b)[12] / 2
  {
    LeadingOctets(a);
    LeadingOctets(b);
    HalvesAgree(Shr(a, 24), Shr(b, 24));
  }

  /** Different addresses inside one prefix of length 103 or more never share a router-id. */
  lemma NoCollisionInLongPrefix(offset: Ipv4Addr, prefix: Ipv6Cidr, a: Ipv6Addr, b: Ipv6Addr)
    requires prefix.mask >= 103
    requires Contains6(prefix, a) && Contains6(prefix, b) && a != b
    ensures Fnv(offset, Octets6(a)) != Fnv(offset, Octets6(b))
  {
    ShrAgree(a, b, 128 - prefix.mask, 25);
    OctetsAgree(a, b);
    OctetsDiffer(a, b);
    EndsDiffer(offset, Octets6(a), Octets6(b));
  }
}
