/** Splitting, joining and number formatting, as the identifier parsers use them. */
module Text {
  import opened Wrappers
  import opened Addresses

  // ----- Split and join -----

  /** Splits at the first `c`. */
  function SplitOnce(s: string, c: char): Option<(string, string)> {
    if s == [] then None
    else if s[0] == c then Some(([], s[1..]))
    else match SplitOnce(s[1..], c)
      case None => None
      case Some((l, r)) => Some(([s[0]] + l, r))
  }

  /** Splits at the last `c`. */
  function RSplitOnce(s: string, c: char): Option<(string, string)>
    decreases |s|
  {
    if s == [] then None
    else if s[|s| - 1] == c then Some((s[..|s| - 1], []))
    else match RSplitOnce(s[..|s| - 1], c)
      case None => None
      case Some((l, r)) => Some((l, r + [s[|s| - 1]]))
  }

  lemma {:induction false} SplitOnceConcat(l: string, c: char, r: string)
    requires c !in l
    ensures SplitOnce(l + [c] + r, c) == Some((l, r))
  {
    var s := l + [c] + r;
    if l == [] {
      assert s[1..] == r;
    } else {
      assert s[1..] == l[1..] + [c] + r;
      SplitOnceConcat(l[1..], c, r);
      assert l == [l[0]] + l[1..];
    }
  }

  lemma {:induction false} RSplitOnceConcat(l: string, c: char, r: string)
    requires c !in r
    ensures RSplitOnce(l + [c] + r, c) == Some((l, r))
    decreases |r|
  {
    var s := l + [c] + r;
    if r == [] {
      assert s[..|s| - 1] == l;
    } else {
      var r' := r[..|r| - 1];
      assert s[..|s| - 1] == l + [c] + r';
      RSplitOnceConcat(l, c, r');
      assert r == r' + [r[|r| - 1]];
    }
  }

  /** What is split can be put together again, and the separator is the first. */
  lemma {:induction false} SplitOnceParts(s: string, c: char)
    ensures match SplitOnce(s, c)
            case None => c !in s
            case Some((l, r)) => s == l + [c] + r && c !in l
  {
    if s != [] {
      assert s == [s[0]] + s[1..];
      if s[0] != c {
        SplitOnceParts(s[1..], c);
      }
    }
  }

  lemma {:induction false} RSplitOnceParts(s: string, c: char)
    ensures match RSplitOnce(s, c)
            case None => c !in s
            case Some((l, r)) => s == l + [c] + r && c !in r
    decreases |s|
  {
    if s != [] {
      assert s == s[..|s| - 1] + [s[|s| - 1]];
      if s[|s| - 1] != c {
        RSplitOnceParts(s[..|s| - 1], c);
      }
    }
  }

  /** Splits at every `c`; the result is never empty. */
  function Split(s: string, c: char): (parts: seq<string>)
    ensures |parts| >= 1
  {
    if s == [] then [[]]
    else if s[0] == c then [[]] + Split(s[1..], c)
    else
      var rest := Split(s[1..], c);
      [[s[0]] + rest[0]] + rest[1..]
  }

  function Join(parts: seq<string>, c: char): string {
    if parts == [] then []
    else if |parts| == 1 then parts[0]
    else parts[0] + [c] + Join(parts[1..], c)
  }

  function Concat(parts: seq<string>): string {
    if parts == [] then [] else parts[0] + Concat(parts[1..])
  }

  lemma {:induction false} SplitHead(p: string, c: char, rest: string)
    requires c !in p
    ensures Split(p, c) == [p]
    ensures Split(p + [c] + rest, c) == [p] + Split(rest, c)
  {
    var s := p + [c] + rest;
    if p == [] {
      assert s[1..] == rest;
    } else {
      assert s[1..] == p[1..] + [c] + rest;
      SplitHead(p[1..], c, rest);
      assert p == [p[0]] + p[1..];
    }
  }

  /** Splitting undoes joining when no part contains the separator. */
  lemma {:induction false} SplitJoin(parts: seq<string>, c: char)
    requires parts != []
    requires forall p :: p in parts ==> c !in p
    ensures Split(Join(parts, c), c) == parts
  {
    assert parts[0] in parts;
    SplitHead(parts[0], c, Join(parts[1..], c));
    if |parts| > 1 {
      SplitJoin(parts[1..], c);
      assert parts == [parts[0]] + parts[1..];
    } else {
      assert parts == [parts[0]];
    }
  }

  lemma {:induction false} JoinConcat(a: seq<string>, b: seq<string>, c: char)
    requires a != [] && b != []
    ensures Join(a + b, c) == Join(a, c) + [c] + Join(b, c)
  {
    if |a| == 1 {
      assert (a + b)[1..] == b;
    } else {
      assert (a + b)[1..] == a[1..] + b;
      JoinConcat(a[1..], b, c);
    }
  }

  // ----- Digits -----

  const DIGITS: string := "0123456789abcdef"

  function DigitChar(d: nat): char
    requires d < 16
  {
    DIGITS[d]
  }

  lemma DigitCharInjective(d: nat, e: nat)
    requires d < 16 && e < 16 && DigitChar(d) == DigitChar(e)
    ensures d == e
  {
  }

  predicate IsDecimal(c: char) { '0' <= c <= '9' }

  predicate IsHex(c: char) {
    IsDecimal(c) || 'a' <= c <= 'f' || 'A' <= c <= 'F'
  }

  /** `n` in the given base, zero-padded to `width` digits. */
  function Pad(n: nat, base: nat, width: nat): (s: string)
    requires 2 <= base <= 16
    ensures |s| == width
    ensures forall c :: c in s ==> IsHex(c)
    ensures base == 10 ==> forall c :: c in s ==> IsDecimal(c)
  {
    var ds := Digits(n, base, width);
    seq(width, i requires 0 <= i < width => DigitChar(ds[i]))
  }

  lemma PadInjective(n: nat, m: nat, base: nat, width: nat)
    requires 2 <= base <= 16
    requires n < Pow(base, width) && m < Pow(base, width)
    requires Pad(n, base, width) == Pad(m, base, width)
    ensures n == m
  {
    var dn, dm := Digits(n, base, width), Digits(m, base, width);
    forall i | 0 <= i < width ensures dn[i] == dm[i] {
      assert Pad(n, base, width)[i] == Pad(m, base, width)[i];
      DigitCharInjective(dn[i], dm[i]);
    }
    DigitsInjective(n, m, base, width);
  }

  // ----- Unsigned decimal numbers -----

  function PrintNat(n: nat): (s: string)
    ensures s != [] && forall c :: c in s ==> IsDecimal(c)
  {
    if n < 10 then [DigitChar(n)] else PrintNat(n / 10) + [DigitChar(n % 10)]
  }

  function DigitsValue(s: string): nat
    requires forall c :: c in s ==> IsDecimal(c)
  {
    if s == [] then 0
    else
      assert s[|s| - 1] in s && IsDecimal(s[|s| - 1]);
      10 * DigitsValue(s[..|s| - 1]) + (s[|s| - 1] as int - '0' as int)
  }

  function WithoutPlus(s: string): string {
    if s != [] && s[0] == '+' then s[1..] else s
  }

  /** The parser of an unsigned integer type with the given maximum:
      an optional plus sign and at least one digit, without overflow. */
  function ParseUnsigned(s: string, max: nat): Option<nat> {
    var digits := WithoutPlus(s);
    if digits == [] || (exists i :: 0 <= i < |digits| && !IsDecimal(digits[i])) then None
    else if DigitsValue(digits) > max then None
    else Some(DigitsValue(digits))
  }

  lemma {:induction false} DigitsValuePrint(n: nat)
    ensures DigitsValue(PrintNat(n)) == n
  {
    if n >= 10 {
      DigitsValuePrint(n / 10);
      var s := PrintNat(n);
      assert s[..|s| - 1] == PrintNat(n / 10);
    }
  }

  lemma ParsePrintNat(n: nat, max: nat)
    requires n <= max
    ensures ParseUnsigned(PrintNat(n), max) == Some(n)
  {
    DigitsValuePrint(n);
    assert PrintNat(n)[0] in PrintNat(n);
    assert forall i :: 0 <= i < |PrintNat(n)| ==> PrintNat(n)[i] in PrintNat(n);
  }

  // ----- Dotted IPv4 addresses -----

  function Octets4(a: Ipv4Addr): (os: seq<Byte>)
    ensures |os| == 4
  {
    var ds := Digits(a, 256, 4);
    seq(4, i requires 0 <= i < 4 => ds[i] as Byte)
  }

  function PrintIpv4(a: Ipv4Addr): string {
    var o := Octets4(a);
    Join([PrintNat(o[0]), PrintNat(o[1]), PrintNat(o[2]), PrintNat(o[3])], '.')
  }

  predicate IsOctetText(s: string) {
    1 <= |s| <= 3 && (forall c :: c in s ==> IsDecimal(c)) &&
    (|s| > 1 ==> s[0] != '0') && DigitsValue(s) < 256
  }

  predicate IsIpv4Text(s: string) {
    var parts := Split(s, '.');
    |parts| == 4 && forall i :: 0 <= i < 4 ==> IsOctetText(parts[i])
  }

  lemma PrintOctet(n: Byte)
    ensures IsOctetText(PrintNat(n))
  {
    DigitsValuePrint(n);
    if n >= 10 {
      assert |PrintNat(n / 10)| <= 2;
      assert n / 10 >= 10 ==> PrintNat(n)[0] == PrintNat(n / 10 / 10)[0];
    }
  }

  lemma PrintedIpv4IsText(a: Ipv4Addr)
    ensures IsIpv4Text(PrintIpv4(a))
    ensures forall c :: c in PrintIpv4(a) ==> IsDecimal(c) || c == '.'
    ensures PrintIpv4(a) != []
  {
    var o := Octets4(a);
    var parts := [PrintNat(o[0]), PrintNat(o[1]), PrintNat(o[2]), PrintNat(o[3])];
    forall i | 0 <= i < 4 ensures IsOctetText(parts[i]) {
      PrintOctet(o[i]);
    }
    SplitJoin(parts, '.');
    assert Join(parts, '.') == parts[0] + "." + (parts[1] + "." + (parts[2] + "." + parts[3])) by {
      assert parts[1..][1..] == parts[2..] && parts[2..][1..] == parts[3..];
      assert Join(parts[2..], '.') == parts[2] + "." + parts[3];
      assert Join(parts[1..], '.') == parts[1] + "." + Join(parts[2..], '.');
    }
  }

  /** The address that a dotted text stands for. */
  function Ipv4Value(s: string): nat
    requires IsIpv4Text(s)
  {
    var parts := Split(s, '.');
    ((DigitsValue(parts[0]) * 256 + DigitsValue(parts[1])) * 256 + DigitsValue(parts[2])) * 256 + DigitsValue(parts[3])
  }

  lemma OctetsAre(a: Ipv4Addr)
    ensures Octets4(a) == [a / 256 / 256 / 256 % 256, a / 256 / 256 % 256, a / 256 % 256, a % 256]
  {
    var ds := Digits(a, 256, 4);
    assert Digits(a / 256, 256, 3) == Digits(a / 256 / 256, 256, 2) + [a / 256 % 256];
    assert Digits(a / 256 / 256, 256, 2) == Digits(a / 256 / 256 / 256, 256, 1) + [a / 256 / 256 % 256];
    assert Digits(a / 256 / 256 / 256, 256, 1) == [a / 256 / 256 / 256 % 256];
    assert ds == [a / 256 / 256 / 256 % 256, a / 256 / 256 % 256, a / 256 % 256, a % 256];
  }

  /** A printed address reads back as itself. */
  lemma PrintedIpv4Value(a: Ipv4Addr)
    ensures IsIpv4Text(PrintIpv4(a)) && Ipv4Value(PrintIpv4(a)) == a
  {
    var o := Octets4(a);
    var parts := [PrintNat(o[0]), PrintNat(o[1]), PrintNat(o[2]), PrintNat(o[3])];
    PrintedIpv4IsText(a);
    SplitJoin(parts, '.');
    forall i | 0 <= i < 4 ensures DigitsValue(parts[i]) == o[i] {
      DigitsValuePrint(o[i]);
    }
    OctetsAre(a);
    assert a / 256 / 256 / 256 < 256;
  }

  /** A dotted text is never a number. */
  lemma DottedIsNoNumber(s: string, max: nat)
    requires IsIpv4Text(s)
    ensures ParseUnsigned(s, max).None?
  {
    if '.' !in s {
      SplitHead(s, '.', "");
    }
    var i :| 0 <= i < |s| && s[i] == '.';
    var k := if s[0] == '+' then i - 1 else i;
    assert 0 <= k < |WithoutPlus(s)| && WithoutPlus(s)[k] == '.';
  }
}
