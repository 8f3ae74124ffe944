/** Behaviour of the C-library and kernel helpers that the firewall calls and
    whose results its decisions depend on: byte order (htons), decimal
    formatting (snprintf "%u"/"%d"), number scanning (the kernel's and the C
    library's sscanf) and dotted-quad addresses (inet_ntoa, inet_aton).
    Only the behaviour the firewall relies on is modelled. */
module LibC {

  type u8 = x: int | 0 <= x < 0x100
  type u16 = x: int | 0 <= x < 0x1_0000
  type u32 = x: int | 0 <= x < 0x1_0000_0000
  type u64 = x: int | 0 <= x < 0x1_0000_0000_0000_0000

  datatype Option<T> = None | Some(value: T)

  function Min(a: int, b: int): int { if a < b then a else b }

  // ---------------------------------------------------------------------
  // Byte order and addresses
  // ---------------------------------------------------------------------

  /** htons on a little-endian host: the two bytes of a 16-bit value swapped. */
  function Htons(p: u16): (r: u16)
    ensures r % 0x100 == p / 0x100 && r / 0x100 == p % 0x100
  {
    (p % 0x100) * 0x100 + p / 0x100
  }

  lemma HtonsInvolutive(p: u16)
    ensures Htons(Htons(p)) == p
  {
    var r := Htons(p);
    assert Htons(r) == (r % 0x100) * 0x100 + r / 0x100;
  }

  /** The address a.b.c.d as the firewall stores it: in network byte order,
      read as a little-endian 32-bit integer, so `a` is the lowest byte. */
  function NetAddr(a: u8, b: u8, c: u8, d: u8): u32
  {
    a + b * 0x100 + c * 0x1_0000 + d * 0x100_0000
  }

  /** The i-th byte in memory (i = 0 is the first part of the dotted quad). */
  function AddrByte(ip: u32, i: nat): u8
    requires i < 4
  {
    if i == 0 then ip % 0x100
    else if i == 1 then ip / 0x100 % 0x100
    else if i == 2 then ip / 0x1_0000 % 0x100
    else ip / 0x100_0000
  }

  lemma NetAddrBytes(a: u8, b: u8, c: u8, d: u8)
    ensures AddrByte(NetAddr(a, b, c, d), 0) == a
    ensures AddrByte(NetAddr(a, b, c, d), 1) == b
    ensures AddrByte(NetAddr(a, b, c, d), 2) == c
    ensures AddrByte(NetAddr(a, b, c, d), 3) == d
  {
    var ip := NetAddr(a, b, c, d);
    var q1 := b + c * 0x100 + d * 0x1_0000;
    var q2 := c + d * 0x100;
    assert ip == q1 * 0x100 + a;
    assert ip / 0x100 == q1 && ip % 0x100 == a;
    assert q1 == q2 * 0x100 + b;
    assert q1 / 0x100 == q2 && q1 % 0x100 == b;
    assert q2 / 0x100 == d && q2 % 0x100 == c;
    assert ip == q2 * 0x1_0000 + (b * 0x100 + a);
    assert ip / 0x1_0000 == q2;
    assert ip == d * 0x100_0000 + (c * 0x1_0000 + b * 0x100 + a);
    assert ip / 0x100_0000 == d;
  }

  lemma NetAddrOfBytes(ip: u32)
    ensures NetAddr(AddrByte(ip, 0), AddrByte(ip, 1), AddrByte(ip, 2), AddrByte(ip, 3)) == ip
  {
    var q1 := ip / 0x100;
    var q2 := q1 / 0x100;
    var q3 := q2 / 0x100;
    assert ip == q1 * 0x100 + ip % 0x100;
    assert q1 == q2 * 0x100 + q1 % 0x100;
    assert q2 == q3 * 0x100 + q2 % 0x100;
    assert ip == q2 * 0x1_0000 + (q1 % 0x100) * 0x100 + ip % 0x100;
    assert ip / 0x1_0000 == q2;
    assert ip == q3 * 0x100_0000 + (q2 % 0x100) * 0x1_0000 + (q1 % 0x100) * 0x100 + ip % 0x100;
    assert ip / 0x100_0000 == q3;
  }

  // ---------------------------------------------------------------------
  // Characters and decimal text
  // ---------------------------------------------------------------------

  predicate IsDigit(c: char) { '0' <= c <= '9' }

  predicate AllDigits(s: seq<char>) { forall i :: 0 <= i < |s| ==> IsDigit(s[i]) }

  /** isspace: of the C library in the "C" locale, or of the kernel, whose
      Latin-1 table also counts the no-break space 0xA0. */
  predicate IsSpace(c: char, kernel: bool)
  {
    c == ' ' || ('\t' <= c <= '\r') || (kernel && c == '\U{00A0}')
  }

  function DigitValue(c: char): (d: nat)
    requires IsDigit(c)
    ensures d < 10
  {
    (c as int) - ('0' as int)
  }

  function DigitChar(d: nat): (c: char)
    requires d < 10
    ensures IsDigit(c) && DigitValue(c) == d
  {
    (('0' as int) + d) as char
  }

  /** The text printf's "%u" produces for n: its digits, without leading zeros. */
  function Decimal(n: nat): (s: seq<char>)
    ensures |s| >= 1 && AllDigits(s)
    ensures s[0] == '0' ==> n == 0
    decreases n
  {
    if n < 10 then [DigitChar(n)] else Decimal(n / 10) + [DigitChar(n % 10)]
  }

  /** The value of a string of decimal digits, most significant first. */
  function DigitsValue(s: seq<char>): nat
    requires AllDigits(s)
    decreases |s|
  {
    if s == [] then 0 else DigitsValue(s[..|s| - 1]) * 10 + DigitValue(s[|s| - 1])
  }

  lemma {:induction false} DecimalValue(n: nat)
    ensures DigitsValue(Decimal(n)) == n
    decreases n
  {
    if n >= 10 {
      DecimalValue(n / 10);
      var s := Decimal(n);
      assert s[..|s| - 1] == Decimal(n / 10);
    }
  }

  /** The length of the longest prefix of s made of decimal digits. */
  function DigitRun(s: seq<char>): (k: nat)
    ensures k <= |s| && AllDigits(s[..k])
    ensures k == |s| || !IsDigit(s[k])
    decreases |s|
  {
    if s != [] && IsDigit(s[0]) then
      var k := 1 + DigitRun(s[1..]);
      assert s[..k] == [s[0]] + s[1..][..k - 1];
      k
    else 0
  }

  lemma {:induction false} DigitRunOfDigits(d: seq<char>, rest: seq<char>)
    requires AllDigits(d)
    requires rest == [] || !IsDigit(rest[0])
    ensures DigitRun(d + rest) == |d|
    decreases |d|
  {
    if d != [] {
      assert (d + rest)[1..] == d[1..] + rest;
      DigitRunOfDigits(d[1..], rest);
    } else {
      assert d + rest == rest;
    }
  }

  /** The input left once the leading white space is consumed. */
  function SkipSpaces(s: seq<char>, kernel: bool): (r: seq<char>)
    ensures |r| <= |s| && r == s[|s| - |r|..]
    ensures r == [] || !IsSpace(r[0], kernel)
    decreases |s|
  {
    if s != [] && IsSpace(s[0], kernel) then SkipSpaces(s[1..], kernel) else s
  }

  // ---------------------------------------------------------------------
  // Number conversions of sscanf
  // ---------------------------------------------------------------------

  /** One unsigned conversion ("%u", "%hu", "%hhu") of the kernel's vsscanf,
      stored in an object of `modulus` values: it skips white space, needs a
      digit (a sign is refused), reads the longest run of digits and keeps the
      value modulo the object's range (simple_strtoul wraps and the store
      truncates). Gives the value and the unread input. */
  function KScanUnsigned(s: seq<char>, modulus: nat): (r: Option<(nat, seq<char>)>)
    requires modulus > 0
    ensures r.Some? ==> r.value.0 < modulus && |r.value.1| < |s|
    ensures r.None? <==> (SkipSpaces(s, true) == [] || !IsDigit(SkipSpaces(s, true)[0]))
  {
    var t := SkipSpaces(s, true);
    var k := DigitRun(t);
    if k == 0 then None else Some((DigitsValue(t[..k]) % modulus, t[k..]))
  }

  const ULONG_MAX: nat := 0xFFFF_FFFF_FFFF_FFFF
  const LONG_MAX: int := 0x7FFF_FFFF_FFFF_FFFF
  const LONG_MIN: int := -0x8000_0000_0000_0000

  /** The sign and digits the C library's scanf reads for a decimal
      conversion: white space, an optional sign, at least one digit. */
  function GScanDigits(s: seq<char>): (r: Option<(bool, nat, seq<char>)>)
  {
    var t := SkipSpaces(s, false);
    var signed := t != [] && (t[0] == '+' || t[0] == '-');
    var u := if signed then t[1..] else t;
    var k := DigitRun(u);
    if k == 0 then None else Some((signed && t[0] == '-', DigitsValue(u[..k]), u[k..]))
  }

  /** An unsigned conversion of the C library's scanf ("%u", "%hu") on LP64:
      strtoul saturates at ULONG_MAX, negates a value after '-', and the store
      truncates to the object's `modulus` values. */
  function GScanUnsigned(s: seq<char>, modulus: nat): (r: Option<(nat, seq<char>)>)
    requires modulus > 0
    ensures r.Some? ==> r.value.0 < modulus
    ensures r.Some? <==> GScanDigits(s).Some?
  {
    match GScanDigits(s)
    case None => None
    case Some((neg, v, rest)) =>
      var ul := if v > ULONG_MAX then ULONG_MAX
                else if neg then (ULONG_MAX + 1 - v) % (ULONG_MAX + 1)
                else v;
      Some((ul % modulus, rest))
  }

  /** The int a two's-complement 32-bit store keeps of x. */
  function ToInt32(x: int): (r: int)
    ensures -0x8000_0000 <= r < 0x8000_0000
    ensures (x - r) % 0x1_0000_0000 == 0
  {
    var m := x % 0x1_0000_0000;
    if m >= 0x8000_0000 then m - 0x1_0000_0000 else m
  }

  /** A value that fits is stored unchanged. */
  lemma ToInt32Small(x: int)
    requires -0x8000_0000 <= x < 0x8000_0000
    ensures ToInt32(x) == x
  {
    if x >= 0 {
      assert x % 0x1_0000_0000 == x;
    } else {
      assert (x + 0x1_0000_0000) % 0x1_0000_0000 == x % 0x1_0000_0000;
    }
  }

  const U32_RANGE: nat := 0x1_0000_0000

  /** The value an `unsigned int` holds after `++`: it wraps to 0. */
  function Inc32(x: u32): (r: u32)
    ensures r == (x + 1) % U32_RANGE
  {
    if x == U32_RANGE - 1 then 0 else x + 1
  }

  /** Incrementing the stored value follows incrementing the true count. */
  lemma Inc32Tracks(n: nat)
    ensures Inc32(n % U32_RANGE) == (n + 1) % U32_RANGE
  {
    var q := n / U32_RANGE;
    assert n == q * U32_RANGE + n % U32_RANGE;
    if n % U32_RANGE == U32_RANGE - 1 {
      assert n + 1 == (q + 1) * U32_RANGE;
    } else {
      assert n + 1 == q * U32_RANGE + (n % U32_RANGE + 1);
    }
  }

  /** The "%d" conversion of the C library's scanf on LP64: strtol saturates
      at the long range, the store keeps 32 bits. */
  function GScanInt(s: seq<char>): (r: Option<(int, seq<char>)>)
    ensures r.Some? ==> -0x8000_0000 <= r.value.0 < 0x8000_0000
    ensures r.Some? <==> GScanDigits(s).Some?
  {
    match GScanDigits(s)
    case None => None
    case Some((neg, v, rest)) =>
      var l: int := if neg then -(v as int) else v;
      var clamped := if l > LONG_MAX then LONG_MAX else if l < LONG_MIN then LONG_MIN else l;
      Some((ToInt32(clamped), rest))
  }

  /** Decimal text scans back, by either library, to its value, as long as
      nothing that continues the number follows it. */
  lemma DecimalScans(n: nat, rest: seq<char>, modulus: nat)
    requires rest == [] || !IsDigit(rest[0])
    requires modulus > 0
    ensures GScanDigits(Decimal(n) + rest) == Some((false, n, rest))
    ensures KScanUnsigned(Decimal(n) + rest, modulus) == Some((n % modulus, rest))
  {
    var s := Decimal(n) + rest;
    DecimalSplits(n, rest);
    assert IsDigit(s[0]);
    NoSpaceToSkip(s, false);
    NoSpaceToSkip(s, true);
    var k := DigitRun(s);
    GScanDigitsUnsigned(s);
  }

  lemma NoSpaceToSkip(s: seq<char>, kernel: bool)
    requires s != [] && IsDigit(s[0])
    ensures SkipSpaces(s, kernel) == s
  {
  }

  lemma GScanDigitsUnsigned(s: seq<char>)
    requires s != [] && IsDigit(s[0])
    ensures GScanDigits(s) == Some((false, DigitsValue(s[..DigitRun(s)]), s[DigitRun(s)..]))
  {
    NoSpaceToSkip(s, false);
  }

  lemma DecimalSplits(n: nat, rest: seq<char>)
    requires rest == [] || !IsDigit(rest[0])
    ensures var s := Decimal(n) + rest;
      DigitRun(s) == |Decimal(n)| && s[..DigitRun(s)] == Decimal(n) && s[DigitRun(s)..] == rest
      && DigitsValue(s[..DigitRun(s)]) == n
  {
    var s := Decimal(n) + rest;
    DigitRunOfDigits(Decimal(n), rest);
    assert s[..|Decimal(n)|] == Decimal(n);
    assert s[|Decimal(n)|..] == rest;
    DecimalValue(n);
  }

  // ---------------------------------------------------------------------
  // Lists of numbers and dotted quads
  // ---------------------------------------------------------------------

  /** `n` items read by `item`, separated by the literal character `sep`, the
      way a scanf format "%x<sep>%x<sep>...%x" reads them: the items and the
      unread input, or None as soon as a conversion or a separator fails. */
  function ScanSeparated(s: seq<char>, n: nat, sep: char,
                         item: seq<char> -> Option<(nat, seq<char>)>): (r: Option<(seq<nat>, seq<char>)>)
    requires n >= 1
    ensures r.Some? ==> |r.value.0| == n
    decreases n
  {
    match item(s)
    case None => None
    case Some((v, rest)) =>
      if n == 1 then Some(([v], rest))
      else if rest == [] || rest[0] != sep then None
      else match ScanSeparated(rest[1..], n - 1, sep, item)
           case None => None
           case Some((vs, rest')) => Some(([v] + vs, rest'))
  }

  /** Items that are all below a bound give a list below that bound. */
  lemma {:induction false} ScanSeparatedBounded(s: seq<char>, n: nat, sep: char,
                                                item: seq<char> -> Option<(nat, seq<char>)>, bound: nat)
    requires n >= 1
    requires forall t :: item(t).Some? ==> item(t).value.0 < bound
    ensures ScanSeparated(s, n, sep, item).Some? ==>
      forall k :: 0 <= k < n ==> ScanSeparated(s, n, sep, item).value.0[k] < bound
    decreases n
  {
    match item(s)
    case None =>
    case Some((v, rest)) =>
      if n > 1 && rest != [] && rest[0] == sep {
        ScanSeparatedBounded(rest[1..], n - 1, sep, item, bound);
      }
  }

  /** The scan depends on the text only through what its first item reads. */
  lemma ScanSeparatedFirst(s: seq<char>, s': seq<char>, n: nat, sep: char,
                           item: seq<char> -> Option<(nat, seq<char>)>)
    requires n >= 1 && item(s) == item(s')
    ensures ScanSeparated(s, n, sep, item) == ScanSeparated(s', n, sep, item)
  {
  }

  /** Numbers printed in decimal, separated by `sep`. */
  function DecimalList(vals: seq<nat>, sep: char): seq<char>
    requires |vals| >= 1
    decreases |vals|
  {
    if |vals| == 1 then Decimal(vals[0]) else Decimal(vals[0]) + ([sep] + DecimalList(vals[1..], sep))
  }

  /** An item scanner that reads back the decimal text of each value below
      `bound`, when nothing that continues the number follows it. */
  ghost predicate ReadsDecimal(item: seq<char> -> Option<(nat, seq<char>)>, bound: nat)
  {
    forall v: nat, r: seq<char> :: v < bound && (r == [] || !IsDigit(r[0])) ==> item(Decimal(v) + r) == Some((v, r))
  }

  /** A list printed in decimal scans back, item by item, to the same
      numbers with a scanner that reads back each of them. */
  lemma {:induction false} DecimalListScans(vals: seq<nat>, sep: char, rest: seq<char>,
                                            item: seq<char> -> Option<(nat, seq<char>)>, bound: nat)
    requires |vals| >= 1 && forall k :: 0 <= k < |vals| ==> vals[k] < bound
    requires !IsDigit(sep) && (rest == [] || !IsDigit(rest[0]))
    requires ReadsDecimal(item, bound)
    ensures ScanSeparated(DecimalList(vals, sep) + rest, |vals|, sep, item) == Some((vals, rest))
    decreases |vals|
  {
    if |vals| == 1 {
      assert item(Decimal(vals[0]) + rest) == Some((vals[0], rest));
      assert [vals[0]] == vals;
    } else {
      DecimalListScans(vals[1..], sep, rest, item, bound);
      assert item(Decimal(vals[0]) + ([sep] + (DecimalList(vals[1..], sep) + rest))) ==
        Some((vals[0], [sep] + (DecimalList(vals[1..], sep) + rest)));
      DecimalListStep(vals, sep, rest, item);
    }
  }

  lemma DecimalListStep(vals: seq<nat>, sep: char, rest: seq<char>, item: seq<char> -> Option<(nat, seq<char>)>)
    requires |vals| >= 2
    requires var tail := DecimalList(vals[1..], sep) + rest;
      item(Decimal(vals[0]) + ([sep] + tail)) == Some((vals[0], [sep] + tail)) &&
      ScanSeparated(tail, |vals| - 1, sep, item) == Some((vals[1..], rest))
    ensures ScanSeparated(DecimalList(vals, sep) + rest, |vals|, sep, item) == Some((vals, rest))
  {
    var tail := DecimalList(vals[1..], sep) + rest;
    var line := DecimalList(vals, sep) + rest;
    assert DecimalList(vals, sep) == Decimal(vals[0]) + ([sep] + DecimalList(vals[1..], sep));
    Regroup(Decimal(vals[0]), sep, DecimalList(vals[1..], sep), rest);
    assert [vals[0]] + vals[1..] == vals;
    ScanSeparatedStep(line, |vals|, sep, item, vals[0], tail, vals[1..], rest);
  }

  lemma Regroup(a: seq<char>, x: char, b: seq<char>, c: seq<char>)
    ensures (a + ([x] + b)) + c == a + ([x] + (b + c))
  {
  }

  /** One part of a dotted quad: decimal, no leading zero, at most 255. */
  function ScanOctet(s: seq<char>): (r: Option<(nat, seq<char>)>)
    ensures r.Some? ==> r.value.0 < 0x100
  {
    var k := DigitRun(s);
    if k == 0 || (k > 1 && s[0] == '0') then None
    else
      var v := DigitsValue(s[..k]);
      if v > 0xFF then None else Some((v, s[k..]))
  }

  /** inet_ntoa: the four bytes of the address in memory order, in decimal,
      joined by dots. */
  function InetNtoa(ip: u32): seq<char>
  {
    Decimal(AddrByte(ip, 0)) + ("." + (Decimal(AddrByte(ip, 1)) + ("." + (Decimal(AddrByte(ip, 2)) + ("." + Decimal(AddrByte(ip, 3)))))))
  }

  /** inet_aton on the canonical form "a.b.c.d" of four decimal parts. */
  function InetAton(s: seq<char>): (r: Option<u32>)
  {
    match ScanSeparated(s, 4, '.', ScanOctet)
    case Some((parts, rest)) =>
      ScanSeparatedBounded(s, 4, '.', ScanOctet, 0x100);
      if rest == [] then Some(NetAddr(parts[0], parts[1], parts[2], parts[3])) else None
    case None => None
  }

  lemma OctetScans(b: u8, rest: seq<char>)
    requires rest == [] || !IsDigit(rest[0])
    ensures ScanOctet(Decimal(b) + rest) == Some((b, rest))
  {
    var s := Decimal(b) + rest;
    DigitRunOfDigits(Decimal(b), rest);
    assert s[..|Decimal(b)|] == Decimal(b);
    assert s[|Decimal(b)|..] == rest;
    DecimalValue(b);
  }

  lemma ScanSeparatedStep(s: seq<char>, n: nat, sep: char, item: seq<char> -> Option<(nat, seq<char>)>,
                          v: nat, tail: seq<char>, vs: seq<nat>, rest: seq<char>)
    requires n >= 2
    requires item(s) == Some((v, [sep] + tail))
    requires ScanSeparated(tail, n - 1, sep, item) == Some((vs, rest))
    ensures ScanSeparated(s, n, sep, item) == Some(([v] + vs, rest))
  {
    assert ([sep] + tail)[0] == sep && ([sep] + tail)[1..] == tail;
  }

  lemma {:induction false} InetRoundTrip(ip: u32)
    ensures InetAton(InetNtoa(ip)) == Some(ip)
  {
    var d0, d1, d2, d3 := Decimal(AddrByte(ip, 0)), Decimal(AddrByte(ip, 1)), Decimal(AddrByte(ip, 2)), Decimal(AddrByte(ip, 3));
    var t3 := d3;
    var t2 := d2 + ("." + t3);
    var t1 := d1 + ("." + t2);
    var t0 := d0 + ("." + t1);
    assert InetNtoa(ip) == t0;
    OctetScans(AddrByte(ip, 3), []);
    assert t3 + [] == t3;
    OctetScans(AddrByte(ip, 2), "." + t3);
    OctetScans(AddrByte(ip, 1), "." + t2);
    OctetScans(AddrByte(ip, 0), "." + t1);
    assert ScanSeparated(t3, 1, '.', ScanOctet) == Some(([AddrByte(ip, 3)], []));
    ScanSeparatedStep(t2, 2, '.', ScanOctet, AddrByte(ip, 2), t3, [AddrByte(ip, 3)], []);
    assert [AddrByte(ip, 2)] + [AddrByte(ip, 3)] == [AddrByte(ip, 2), AddrByte(ip, 3)];
    ScanSeparatedStep(t1, 3, '.', ScanOctet, AddrByte(ip, 1), t2, [AddrByte(ip, 2), AddrByte(ip, 3)], []);
    assert [AddrByte(ip, 1)] + [AddrByte(ip, 2), AddrByte(ip, 3)] == [AddrByte(ip, 1), AddrByte(ip, 2), AddrByte(ip, 3)];
    ScanSeparatedStep(t0, 4, '.', ScanOctet, AddrByte(ip, 0), t1, [AddrByte(ip, 1), AddrByte(ip, 2), AddrByte(ip, 3)], []);
    assert [AddrByte(ip, 0)] + [AddrByte(ip, 1), AddrByte(ip, 2), AddrByte(ip, 3)] == [AddrByte(ip, 0), AddrByte(ip, 1), AddrByte(ip, 2), AddrByte(ip, 3)];
    NetAddrOfBytes(ip);
  }
}
