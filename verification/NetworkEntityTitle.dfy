/** Network Entity Titles as section 7.1 of ISO/IEC 10589 defines them:
    parsing, printing, and derivation from a router's IP address. */
module NetworkEntityTitle {
  import opened Wrappers
  import opened Addresses
  import opened Text

  datatype Net = Net(afi: string, area: string, system: string, selector: string)

  predicate AllHex(s: string) { forall c :: c in s ==> IsHex(c) }

  predicate IsAfi(s: string) { |s| == 2 && AllHex(s) }

  /** Zero to thirteen whole bytes. */
  predicate IsArea(s: string) { |s| <= 26 && |s| % 2 == 0 && AllHex(s) }

  predicate IsSystemId(s: string) {
    |s| == 14 && AllHex(s[..4]) && s[4] == '.' && AllHex(s[5..9]) && s[9] == '.' && AllHex(s[10..])
  }

  predicate IsSelector(s: string) { |s| == 2 && AllHex(s) }

  predicate Valid(net: Net) {
    IsAfi(net.afi) && IsArea(net.area) && IsSystemId(net.system) && IsSelector(net.selector)
  }

  datatype NetError = TooFewParts | InvalidPart

  function Parse(s: string): (r: Result<Net, NetError>)
    ensures r.Ok? ==> Valid(r.value)
  {
    var parts := Split(s, '.');
    if |parts| < 5 then Err(TooFewParts)
    else
      var last := |parts| - 1;
      var system := parts[last - 3] + "." + parts[last - 2] + "." + parts[last - 1];
      var net := Net(parts[0], Concat(parts[1..last - 3]), system, parts[last]);
      if Valid(net) then Ok(net) else Err(InvalidPart)
  }

  /** Groups of four characters; the last one may be shorter. */
  function Chunks4(s: string): (chunks: seq<string>)
    ensures s != [] ==> chunks != []
    ensures forall c :: c in chunks ==> forall x :: x in c ==> x in s
  {
    if s == [] then []
    else if |s| <= 4 then [s]
    else [s[..4]] + Chunks4(s[4..])
  }

  function Print(net: Net): string {
    var area := if net.area == [] then "" else "." + Join(Chunks4(net.area), '.');
    net.afi + area + "." + net.system + "." + net.selector
  }

  lemma {:induction false} ConcatChunks(s: string)
    ensures Concat(Chunks4(s)) == s
  {
    if |s| > 4 {
      ConcatChunks(s[4..]);
      assert Chunks4(s)[1..] == Chunks4(s[4..]);
      assert s == s[..4] + s[4..];
    } else if s != [] {
      assert Chunks4(s)[1..] == [];
    }
  }

  lemma PrintIsJoin(net: Net)
    requires Valid(net)
    ensures Print(net) == Join([net.afi] + Chunks4(net.area) +
                               [net.system[..4], net.system[5..9], net.system[10..], net.selector], '.')
  {
    var tail := [net.system[..4], net.system[5..9], net.system[10..], net.selector];
    assert net.system == net.system[..4] + "." + net.system[5..9] + "." + net.system[10..];
    assert Join(tail, '.') == net.system + "." + net.selector by {
      assert tail[1..][1..][1..] == [net.selector];
      assert Join(tail[1..][1..], '.') == net.system[10..] + "." + net.selector;
      assert Join(tail[1..], '.') == net.system[5..9] + "." + Join(tail[1..][1..], '.');
    }
    var area := Chunks4(net.area);
    JoinConcat([net.afi], tail, '.');
    if area == [] {
      assert [net.afi] + area + tail == [net.afi] + tail;
    } else {
      JoinConcat([net.afi], area + tail, '.');
      JoinConcat(area, tail, '.');
      assert [net.afi] + area + tail == [net.afi] + (area + tail);
    }
  }

  /** Parsing what was printed returns the same title, for every valid title. */
  lemma RoundTrip(net: Net)
    requires Valid(net)
    ensures Parse(Print(net)) == Ok(net)
  {
    var tail := [net.system[..4], net.system[5..9], net.system[10..], net.selector];
    var parts := [net.afi] + Chunks4(net.area) + tail;
    PrintIsJoin(net);
    forall p | p in parts ensures '.' !in p {
      assert AllHex(p);
    }
    SplitJoin(parts, '.');
    var last := |parts| - 1;
    assert parts[1..last - 3] == Chunks4(net.area);
    ConcatChunks(net.area);
    assert parts[last - 3..] == tail;
    assert parts[last - 3] == tail[0] && parts[last - 2] == tail[1] && parts[last - 1] == tail[2] &&
           parts[last] == tail[3];
    assert net.system == parts[last - 3] + "." + parts[last - 2] + "." + parts[last - 1];
  }

  // ----- System ids from addresses -----

  /** The twelve zero-padded decimal digits of the four octets, regrouped by four. */
  function SystemIdFromIpv4(a: Ipv4Addr): string {
    var o := Octets4(a);
    Pad(o[0], 10, 3) + Pad(o[1] / 100, 10, 1) + "." +
    Pad(o[1] % 100, 10, 2) + Pad(o[2] / 10, 10, 2) + "." +
    Pad(o[2] % 10, 10, 1) + Pad(o[3], 10, 3)
  }

  /** The last three 16-bit segments in hexadecimal. */
  function SystemIdFromIpv6(a: Ipv6Addr): string {
    var s := Digits(a, 0x1_0000, 3);
    Pad(s[0], 16, 4) + "." + Pad(s[1], 16, 4) + "." + Pad(s[2], 16, 4)
  }

  function NetFromIpv4(a: Ipv4Addr): Net { Net("49", "0001", SystemIdFromIpv4(a), "00") }

  function NetFromIpv6(a: Ipv6Addr): Net { Net("49", "0001", SystemIdFromIpv6(a), "00") }

  /** A derived title is printed with AFI 49, area 0001 and selector 00. */
  lemma DerivedTitles(a: Ipv4Addr, b: Ipv6Addr)
    ensures Print(NetFromIpv4(a)) == "49.0001." + SystemIdFromIpv4(a) + ".00"
    ensures Print(NetFromIpv6(b)) == "49.0001." + SystemIdFromIpv6(b) + ".00"
  {
    PrintStandardArea(SystemIdFromIpv4(a));
    PrintStandardArea(SystemIdFromIpv6(b));
  }

  lemma PrintStandardArea(system: string)
    ensures Print(Net("49", "0001", system, "00")) == "49.0001." + system + ".00"
  {
    assert Chunks4("0001") == ["0001"];
    assert Join(["0001"], '.') == "0001";
    assert "49" + ("." + "0001") + "." + system + "." + "00" == "49.0001." + system + ".00";
  }

  lemma KnownOctets()
    ensures Pad(192, 10, 3) == "192" && Pad(100, 10, 3) == "100"
  {
    assert Pad(192, 10, 3) == "192";
    assert Pad(100, 10, 3) == "100";
  }

  lemma KnownParts()
    ensures Pad(68, 10, 2) == "68" && Pad(0, 10, 2) == "00" && Pad(1, 10, 1) == "1"
  {
    assert Pad(68, 10, 2) == "68";
    assert Pad(0, 10, 2) == "00";
    assert Pad(1, 10, 1) == "1";
  }

  lemma KnownSystemId4(a: Ipv4Addr)
    requires Octets4(a) == [192, 168, 1, 100]
    ensures SystemIdFromIpv4(a) == "1921.6800.1100"
  {
    var o := Octets4(a);
    assert o[1] / 100 == 1 && o[1] % 100 == 68 && o[2] / 10 == 0 && o[2] % 10 == 1;
    assert SystemIdFromIpv4(a) == Pad(192, 10, 3) + Pad(1, 10, 1) + "." + Pad(68, 10, 2) + Pad(0, 10, 2) + "." +
                                  Pad(1, 10, 1) + Pad(100, 10, 3);
    KnownOctets();
    KnownParts();
  }

  lemma KnownSystemId6(a: Ipv6Addr)
    requires Digits(a, 0x1_0000, 3) == [0x1234, 0x5678, 0xabcd]
    ensures SystemIdFromIpv6(a) == "1234.5678.abcd"
  {
    assert Pad(0x1234, 16, 4) == "1234";
    assert Pad(0x5678, 16, 4) == "5678";
    assert Pad(0xabcd, 16, 4) == "abcd";
  }

  lemma ThreeSegments(b: nat, q: nat, x: nat, y: nat, z: nat)
    requires x < 0x1_0000 && y < 0x1_0000 && z < 0x1_0000
    requires b == ((q * 0x1_0000 + x) * 0x1_0000 + y) * 0x1_0000 + z
    ensures Digits(b, 0x1_0000, 3) == [x, y, z]
  {
    LastSegment((q * 0x1_0000 + x) * 0x1_0000 + y, z, 2);
    LastSegment(q * 0x1_0000 + x, y, 1);
    LastSegment(q, x, 0);
  }

  lemma LastSegment(q: nat, z: nat, n: nat)
    requires z < 0x1_0000
    ensures Digits(q * 0x1_0000 + z, 0x1_0000, n + 1) == Digits(q, 0x1_0000, n) + [z]
  {
    assert (q * 0x1_0000 + z) / 0x1_0000 == q;
  }

  /** The system ids of 192.168.1.100 and of fe80::1234:5678:abcd. */
  lemma KnownSystemIds(a: Ipv4Addr, b: Ipv6Addr)
    requires a == 0xC0A8_0164 && b == 0xfe80_0000_0000_0000_0000_1234_5678_abcd
    ensures SystemIdFromIpv4(a) == "1921.6800.1100"
    ensures SystemIdFromIpv6(b) == "1234.5678.abcd"
  {
    OctetsAre(a);
    KnownSystemId4(a);
    ThreeSegments(b, 0xfe80_0000_0000_0000_0000, 0x1234, 0x5678, 0xabcd);
    KnownSystemId6(b);
  }

  lemma DerivedNetsValid(a: Ipv4Addr, b: Ipv6Addr)
    ensures Valid(NetFromIpv4(a)) && Valid(NetFromIpv6(b))
  {
    Fields4Valid(a);
    Fields6Valid(b);
  }

  lemma Fields6Valid(b: Ipv6Addr)
    ensures Valid(NetFromIpv6(b))
  {
    var d := Digits(b, 0x1_0000, 3);
    ThreeParts(Pad(d[0], 16, 4), Pad(d[1], 16, 4), Pad(d[2], 16, 4));
  }

  lemma Fields4Valid(a: Ipv4Addr)
    ensures Valid(NetFromIpv4(a))
  {
    var o := Octets4(a);
    ThreeParts(Pad(o[0], 10, 3) + Pad(o[1] / 100, 10, 1), Pad(o[1] % 100, 10, 2) + Pad(o[2] / 10, 10, 2),
               Pad(o[2] % 10, 10, 1) + Pad(o[3], 10, 3));
    assert SystemIdFromIpv4(a) == Pad(o[0], 10, 3) + Pad(o[1] / 100, 10, 1) + "." +
                                  (Pad(o[1] % 100, 10, 2) + Pad(o[2] / 10, 10, 2)) + "." +
                                  (Pad(o[2] % 10, 10, 1) + Pad(o[3], 10, 3));
  }

  lemma ThreeParts(x: string, y: string, z: string)
    requires |x| == 4 && |y| == 4 && |z| == 4 && AllHex(x) && AllHex(y) && AllHex(z)
    ensures IsSystemId(x + "." + y + "." + z)
  {
    var s := x + "." + y + "." + z;
    assert s[..4] == x && s[5..9] == y && s[10..] == z;
  }

  /** Where each segment sits in the printed system id. */
  lemma Fields6(d: seq<nat>)
    requires |d| == 3
    ensures var s := Pad(d[0], 16, 4) + "." + Pad(d[1], 16, 4) + "." + Pad(d[2], 16, 4);
            s[..4] == Pad(d[0], 16, 4) && s[5..9] == Pad(d[1], 16, 4) && s[10..] == Pad(d[2], 16, 4)
  {
  }

  /** Different IPv4 addresses get different system ids. */
  lemma SystemIdFromIpv4Injective(a: Ipv4Addr, b: Ipv4Addr)
    requires SystemIdFromIpv4(a) == SystemIdFromIpv4(b)
    ensures a == b
  {
    var o, p := Octets4(a), Octets4(b);
    var s, t := SystemIdFromIpv4(a), SystemIdFromIpv4(b);
    Fields(o);
    Fields(p);
    assert Pow(10, 1) == 10 && Pow(10, 2) == 100 && Pow(10, 3) == 1000;
    PadInjective(o[0], p[0], 10, 3);
    PadInjective(o[1] / 100, p[1] / 100, 10, 1);
    PadInjective(o[1] % 100, p[1] % 100, 10, 2);
    PadInjective(o[2] / 10, p[2] / 10, 10, 2);
    PadInjective(o[2] % 10, p[2] % 10, 10, 1);
    PadInjective(o[3], p[3], 10, 3);
    assert o[1] == p[1] && o[2] == p[2];
    forall i | 0 <= i < 4 ensures Digits(a, 256, 4)[i] == Digits(b, 256, 4)[i] {
      assert Digits(a, 256, 4)[i] == o[i] && Digits(b, 256, 4)[i] == p[i];
    }
    assert Pow(256, 4) == 0x1_0000_0000;
    DigitsInjective(a, b, 256, 4);
  }

  /** Where each number sits in the printed system id. */
  lemma Fields(o: seq<Byte>)
    requires |o| == 4
    ensures var s := Pad(o[0], 10, 3) + Pad(o[1] / 100, 10, 1) + "." +
                     Pad(o[1] % 100, 10, 2) + Pad(o[2] / 10, 10, 2) + "." +
                     Pad(o[2] % 10, 10, 1) + Pad(o[3], 10, 3);
            s[..3] == Pad(o[0], 10, 3) && s[3..4] == Pad(o[1] / 100, 10, 1) &&
            s[5..7] == Pad(o[1] % 100, 10, 2) && s[7..9] == Pad(o[2] / 10, 10, 2) &&
            s[10..11] == Pad(o[2] % 10, 10, 1) && s[11..] == Pad(o[3], 10, 3)
  {
  }

  /** IPv6 addresses get the same system id exactly when their last three segments agree. */
  lemma SystemIdFromIpv6Collision(a: Ipv6Addr, b: Ipv6Addr)
    ensures SystemIdFromIpv6(a) == SystemIdFromIpv6(b) <==> Digits(a, 0x1_0000, 3) == Digits(b, 0x1_0000, 3)
  {
    SegmentsTextInjective(Digits(a, 0x1_0000, 3), Digits(b, 0x1_0000, 3));
  }

  // ----- System ids of both families -----

  /** The hexadecimal number with the given digits, most significant first. */
  function HexValue(d: seq<nat>): nat {
    if d == [] then 0 else 16 * HexValue(d[..|d| - 1]) + d[|d| - 1]
  }

  lemma {:induction false} HexValueBound(d: seq<nat>)
    requires forall i :: 0 <= i < |d| ==> d[i] < 16
    ensures HexValue(d) < Pow(16, |d|)
  {
    if d != [] {
      HexValueBound(d[..|d| - 1]);
    }
  }

  lemma FourHexDigits(d: seq<nat>)
    requires |d| == 4 && forall i :: 0 <= i < |d| ==> d[i] < 16
    ensures HexValue(d) < 0x1_0000
  {
    HexValueBound(d);
    assert Pow(16, 2) == 0x100;
    assert Pow(16, 3) == 0x1000;
  }

  /** The decimal digits of the octets, three for each. */
  function DecimalDigits(a: Ipv4Addr): (d: seq<nat>)
    ensures |d| == 12 && forall i :: 0 <= i < 12 ==> d[i] < 10
  {
    var o := Octets4(a);
    Digits(o[0], 10, 3) + Digits(o[1], 10, 3) + Digits(o[2], 10, 3) + Digits(o[3], 10, 3)
  }

  /** The segments that an IPv6 address with the same system id must end with: the decimal
      digits of the IPv4 address, regrouped by four and read as hexadecimal. */
  function RegroupedSegments(a: Ipv4Addr): (s: seq<nat>)
    ensures |s| == 3 && forall i :: 0 <= i < 3 ==> s[i] < 0x1_0000
  {
    var d := DecimalDigits(a);
    FourHexDigits(d[..4]);
    FourHexDigits(d[4..8]);
    FourHexDigits(d[8..]);
    [HexValue(d[..4]), HexValue(d[4..8]), HexValue(d[8..])]
  }

  function SegmentsText(s: seq<nat>): string
    requires |s| == 3
  {
    Pad(s[0], 16, 4) + "." + Pad(s[1], 16, 4) + "." + Pad(s[2], 16, 4)
  }

  lemma SegmentsTextInjective(s: seq<nat>, t: seq<nat>)
    requires |s| == 3 && |t| == 3
    requires forall i :: 0 <= i < 3 ==> s[i] < 0x1_0000 && t[i] < 0x1_0000
    ensures SegmentsText(s) == SegmentsText(t) <==> s == t
  {
    if SegmentsText(s) == SegmentsText(t) {
      Fields6(s);
      Fields6(t);
      assert Pow(16, 4) == 0x1_0000;
      PadInjective(s[0], t[0], 16, 4);
      PadInjective(s[1], t[1], 16, 4);
      PadInjective(s[2], t[2], 16, 4);
      assert s == t;
    }
  }

  lemma ThreeDigits(o: nat)
    ensures Digits(o, 10, 3) == [o / 100 % 10, o / 10 % 10, o % 10]
  {
    assert Digits(o, 10, 3) == Digits(o / 10, 10, 2) + [o % 10];
    TwoDigits(o / 10);
    assert o / 10 / 10 == o / 100;
  }

  lemma OneDigit(o: nat)
    ensures Digits(o, 10, 1) == [o % 10]
  {
    assert Digits(o, 10, 1) == Digits(o / 10, 10, 0) + [o % 10];
  }

  lemma TwoDigits(o: nat)
    ensures Digits(o, 10, 2) == [o / 10 % 10, o % 10]
  {
    assert Digits(o, 10, 2) == Digits(o / 10, 10, 1) + [o % 10];
  }

  lemma {:induction false} DigitsOfHexValue(d: seq<nat>)
    requires forall i :: 0 <= i < |d| ==> d[i] < 16
    ensures Digits(HexValue(d), 16, |d|) == d
  {
    if d != [] {
      var q, r := HexValue(d[..|d| - 1]), d[|d| - 1];
      DigitsOfHexValue(d[..|d| - 1]);
      assert (16 * q + r) / 16 == q && (16 * q + r) % 16 == r;
    }
  }

  function Chars(d: seq<nat>): (s: string)
    requires forall i :: 0 <= i < |d| ==> d[i] < 10
    ensures |s| == |d|
  {
    seq(|d|, i requires 0 <= i < |d| => DigitChar(d[i]))
  }

  lemma CharsConcat(d: seq<nat>, e: seq<nat>)
    requires forall i :: 0 <= i < |d| ==> d[i] < 10
    requires forall i :: 0 <= i < |e| ==> e[i] < 10
    ensures Chars(d + e) == Chars(d) + Chars(e)
  {
  }

  lemma PadIsChars(n: nat, base: nat, d: seq<nat>)
    requires 2 <= base <= 16 && Digits(n, base, |d|) == d && forall i :: 0 <= i < |d| ==> d[i] < 10
    ensures Pad(n, base, |d|) == Chars(d)
  {
  }

  lemma PartsOfOctet(o: Byte)
    ensures o / 100 % 10 == o / 100 && o % 100 / 10 % 10 == o / 10 % 10 && o % 100 % 10 == o % 10
    ensures o / 10 / 10 % 10 == o / 100 && o % 10 % 10 == o % 10
  {
    var h, r := o / 100, o % 100;
    assert o == 100 * h + r && o / 10 == 10 * h + r / 10;
  }

  lemma DigitsOfParts(o: Byte)
    ensures Digits(o / 100, 10, 1) + Digits(o % 100, 10, 2) == Digits(o, 10, 3)
    ensures Digits(o / 10, 10, 2) + Digits(o % 10, 10, 1) == Digits(o, 10, 3)
  {
    PartsOfOctet(o);
    ThreeDigits(o);
    TwoDigits(o % 100);
    TwoDigits(o / 10);
    OneDigit(o / 100);
    OneDigit(o % 10);
  }

  /** Printing the parts of two octets side by side prints the digits of a group. */
  lemma GroupText(n: nat, k: nat, m: nat, l: nat)
    requires k + l == 4
    ensures Pad(n, 10, k) + Pad(m, 10, l) == Pad(HexValue(Digits(n, 10, k) + Digits(m, 10, l)), 16, 4)
  {
    var d, e := Digits(n, 10, k), Digits(m, 10, l);
    PadIsChars(n, 10, d);
    PadIsChars(m, 10, e);
    CharsConcat(d, e);
    DigitsOfHexValue(d + e);
    PadIsChars(HexValue(d + e), 16, d + e);
  }

  lemma GroupsOfDigits(a: Ipv4Addr)
    ensures var o, d := Octets4(a), DecimalDigits(a);
            d[..4] == Digits(o[0], 10, 3) + Digits(o[1] / 100, 10, 1) &&
            d[4..8] == Digits(o[1] % 100, 10, 2) + Digits(o[2] / 10, 10, 2) &&
            d[8..] == Digits(o[2] % 10, 10, 1) + Digits(o[3], 10, 3)
  {
    var o := Octets4(a);
    DigitsOfParts(o[1]);
    DigitsOfParts(o[2]);
    RegroupByFour(Digits(o[0], 10, 3), Digits(o[1] / 100, 10, 1), Digits(o[1] % 100, 10, 2),
                  Digits(o[2] / 10, 10, 2), Digits(o[2] % 10, 10, 1), Digits(o[3], 10, 3));
  }

  lemma RegroupByFour(a: seq<nat>, b: seq<nat>, c: seq<nat>, d: seq<nat>, e: seq<nat>, f: seq<nat>)
    requires |a| == 3 && |b| == 1 && |c| == 2 && |d| == 2 && |e| == 1 && |f| == 3
    ensures var s := a + (b + c) + (d + e) + f;
            s[..4] == a + b && s[4..8] == c + d && s[8..] == e + f
  {
  }

  lemma DotsBetween(a: string, b: string, c: string, d: string, e: string, f: string)
    ensures a + b + "." + c + d + "." + e + f == (a + b) + "." + (c + d) + "." + (e + f)
  {
  }

  lemma SystemIdIsSegmentsText(a: Ipv4Addr)
    ensures SystemIdFromIpv4(a) == SegmentsText(RegroupedSegments(a))
  {
    var o := Octets4(a);
    GroupsOfDigits(a);
    GroupText(o[0], 3, o[1] / 100, 1);
    GroupText(o[1] % 100, 2, o[2] / 10, 2);
    GroupText(o[2] % 10, 1, o[3], 3);
    DotsBetween(Pad(o[0], 10, 3), Pad(o[1] / 100, 10, 1), Pad(o[1] % 100, 10, 2),
                Pad(o[2] / 10, 10, 2), Pad(o[2] % 10, 10, 1), Pad(o[3], 10, 3));
  }

  /** An IPv4 and an IPv6 address get the same system id exactly when the IPv6 address ends
      with the regrouped decimal digits of the IPv4 address. */
  lemma MixedCollision(a: Ipv4Addr, b: Ipv6Addr)
    ensures SystemIdFromIpv4(a) == SystemIdFromIpv6(b) <==> RegroupedSegments(a) == Digits(b, 0x1_0000, 3)
  {
    SystemIdIsSegmentsText(a);
    SegmentsTextInjective(RegroupedSegments(a), Digits(b, 0x1_0000, 3));
  }
}
