/** The conversions of the command-line interface (interface/util.c) between
    the values of the rule base, the log and the connection table and their
    text: protocol, action, direction, address with prefix size, ACK flag,
    reason, port and connection state. A function that returns a pointer to
    one of the file's static buffers gives the text that buffer holds. */
module Util {
  import opened LibC
  import opened FwTypes

  /** A `char` of the interface, signed on the platforms it targets. */
  type i8 = x: int | -0x80 <= x < 0x80

  // ---------------------------------------------------------------------
  // Protocol
  // ---------------------------------------------------------------------

  /** The protocols the rule base names. */
  predicate NamedProt(p: u8)
  {
    p == PROT_ICMP || p == PROT_TCP || p == PROT_UDP || p == PROT_ANY || p == PROT_OTHER
  }

  /** prot_to_s: any protocol without a name of its own prints as "other". */
  function ProtToS(protocol: u8): seq<char>
  {
    if protocol == PROT_ICMP then "ICMP"
    else if protocol == PROT_TCP then "TCP"
    else if protocol == PROT_UDP then "UDP"
    else if protocol == PROT_ANY then "any"
    else "other"
  }

  /** s_to_prot: the protocol a name stands for, -1 for an unknown name. */
  function SToProt(str: seq<char>): int
  {
    if str == "ICMP" then PROT_ICMP as int
    else if str == "TCP" then PROT_TCP as int
    else if str == "UDP" then PROT_UDP as int
    else if str == "any" then PROT_ANY as int
    else if str == "other" then PROT_OTHER as int
    else -1
  }

  /** Printing and reading back gives the protocol when it has a name, and
      PROT_OTHER for every other number. */
  lemma ProtRoundTrip(p: u8)
    ensures SToProt(ProtToS(p)) == if NamedProt(p) then p as int else PROT_OTHER as int
  {
  }

  /** Exactly the five printed names are read, and each reads back to the
      protocol that prints as it. */
  lemma ProtNames(str: seq<char>)
    ensures SToProt(str) != -1 <==> str in {"ICMP", "TCP", "UDP", "any", "other"}
    ensures SToProt(str) != -1 ==> 0 <= SToProt(str) < 0x100 && ProtToS(SToProt(str) as u8) == str
  {
  }

  // ---------------------------------------------------------------------
  // Action
  // ---------------------------------------------------------------------

  /** action_to_s: zero is "drop", any other value "accept". */
  function ActionToS(action: i8): seq<char>
  {
    if action != 0 then "accept" else "drop"
  }

  /** s_to_action: the netfilter verdict a name stands for, or -1. */
  function SToAction(str: seq<char>): int
  {
    if str == "accept" then NF_ACCEPT as int
    else if str == "drop" then NF_DROP as int
    else -1
  }

  /** "drop" is printed only for NF_DROP; reading back gives NF_DROP or
      NF_ACCEPT, the value itself for the two verdicts. */
  lemma ActionRoundTrip(a: i8)
    ensures ActionToS(a) == "drop" <==> a == NF_DROP as int
    ensures SToAction(ActionToS(a)) == if a == 0 then NF_DROP as int else NF_ACCEPT as int
  {
  }

  lemma ActionNames(str: seq<char>)
    ensures SToAction(str) != -1 <==> str in {"accept", "drop"}
    ensures SToAction(str) != -1 ==> ActionToS(SToAction(str)) == str
  {
  }

  // ---------------------------------------------------------------------
  // Direction
  // ---------------------------------------------------------------------

  /** dir_to_s: "ERR" for a value that is not a direction. */
  function DirToS(dir: int): seq<char>
  {
    if dir == DIRECTION_IN then "in"
    else if dir == DIRECTION_OUT then "out"
    else if dir == DIRECTION_ANY then "any"
    else "ERR"
  }

  /** s_to_dir: the direction a name stands for, or -1. */
  function SToDir(str: seq<char>): int
  {
    if str == "in" then DIRECTION_IN
    else if str == "out" then DIRECTION_OUT
    else if str == "any" then DIRECTION_ANY
    else -1
  }

  /** A direction reads back as itself; anything else prints as "ERR",
      which is refused. */
  lemma DirRoundTrip(d: int)
    ensures SToDir(DirToS(d)) == if d in {DIRECTION_IN, DIRECTION_OUT, DIRECTION_ANY} then d else -1
  {
  }

  lemma DirNames(str: seq<char>)
    ensures SToDir(str) != -1 <==> str in {"in", "out", "any"}
    ensures SToDir(str) != -1 ==> DirToS(SToDir(str)) == str
  {
  }

  // ---------------------------------------------------------------------
  // ACK flag
  // ---------------------------------------------------------------------

  /** s_to_ack: the ack_t value a name stands for, or -1. */
  function SToAck(str: seq<char>): i8
  {
    if str == "yes" then ACK_YES
    else if str == "no" then ACK_NO
    else if str == "any" then ACK_ANY
    else -1
  }

  /** ack_to_s: "ERR" for a value that is not an ack_t. */
  function AckToS(ack: i8): seq<char>
  {
    if ack == ACK_YES then "yes"
    else if ack == ACK_NO then "no"
    else if ack == ACK_ANY then "any"
    else "ERR"
  }

  lemma AckRoundTrip(a: i8)
    ensures SToAck(AckToS(a)) == if a in {ACK_NO, ACK_YES, ACK_ANY} then a else -1
  {
  }

  lemma AckNames(str: seq<char>)
    ensures SToAck(str) != -1 <==> str in {"yes", "no", "any"}
    ensures SToAck(str) != -1 ==> AckToS(SToAck(str)) == str
  {
  }

  // ---------------------------------------------------------------------
  // Address and prefix size
  // ---------------------------------------------------------------------

  /** strchr: the position of the first c in s. */
  function Strchr(s: seq<char>, c: char): (r: Option<nat>)
    ensures r.Some? ==> r.value < |s| && s[r.value] == c && forall j :: 0 <= j < r.value ==> s[j] != c
    ensures r.None? ==> forall j :: 0 <= j < |s| ==> s[j] != c
    decreases |s|
  {
    if s == [] then None
    else if s[0] == c then Some(0)
    else match Strchr(s[1..], c)
      case None => None
      case Some(k) => Some(k + 1)
  }

  /** strchr finds the first occurrence, wherever it is. */
  lemma {:induction false} StrchrFinds(s: seq<char>, c: char, k: nat)
    requires k < |s| && s[k] == c && forall j :: 0 <= j < k ==> s[j] != c
    ensures Strchr(s, c) == Some(k)
    decreases k
  {
    if k > 0 {
      StrchrFinds(s[1..], c, k - 1);
    }
  }

  /** s_to_ip_and_mask on `str` with `ip` the value *ip held: the result
      (the prefix size, or -1) and the value *ip holds afterwards. "any" is
      0.0.0.0/0; without a '/' the prefix is 32; the prefix text is read by
      "%d" and must lie in 0..32; the address is read by inet_aton. On an
      error *ip keeps its value. */
  function SToIpAndMask(str: seq<char>, ip: u32): (r: (int, u32))
    ensures -1 <= r.0 <= 32
    ensures r.0 == -1 ==> r.1 == ip
  {
    if str == "any" then (0, 0)
    else match Strchr(str, '/')
      case None => WithAddress(str, 32, ip)
      case Some(k) => WithPrefix(str[..k], str[k + 1..], ip)
  }

  /** The part of s_to_ip_and_mask after a '/' splits `addr` from `prefix`. */
  function WithPrefix(addr: seq<char>, prefix: seq<char>, ip: u32): (r: (int, u32))
    ensures -1 <= r.0 <= 32 && (r.0 == -1 ==> r.1 == ip)
  {
    match GScanInt(prefix)
    case None => (-1, ip)
    case Some((mask, _)) =>
      if mask > 32 || mask < 0 then (-1, ip) else WithAddress(addr, mask, ip)
  }

  /** The address part of s_to_ip_and_mask, once the prefix size is known. */
  function WithAddress(addr: seq<char>, mask: int, ip: u32): (r: (int, u32))
    requires 0 <= mask <= 32
    ensures -1 <= r.0 <= 32 && (r.0 == -1 ==> r.1 == ip)
  {
    match InetAton(addr)
    case None => (-1, ip)
    case Some(a) => (mask, a)
  }

  /** ip_and_mask_to_s: "any" when the address or the prefix size is 0;
      otherwise the dotted quad, followed by "/m" only for 0 < m < 32. */
  function IpAndMaskToS(ip: u32, mask: int): seq<char>
  {
    if ip == 0 || mask == 0 then "any" else WithMaskText(InetNtoa(ip), mask)
  }

  /** An address's text followed by the prefix size, when it is below 32. */
  function WithMaskText(a: seq<char>, mask: int): seq<char>
  {
    a + (if 0 < mask < 32 then "/" + Decimal(mask) else "")
  }

  /** The text fits the 20 bytes of the static buffer it is written into,
      its terminating NUL included. */
  lemma IpAndMaskFits(ip: u32, mask: int)
    ensures |IpAndMaskToS(ip, mask)| < 20
  {
    if ip != 0 && mask != 0 {
      DecimalLength(AddrByte(ip, 0));
      DecimalLength(AddrByte(ip, 1));
      DecimalLength(AddrByte(ip, 2));
      DecimalLength(AddrByte(ip, 3));
      if 0 < mask < 32 {
        DecimalLength(mask);
      }
    }
  }

  /** The number of digits of a number below 10^5. */
  lemma {:induction false} DecimalLength(n: nat)
    ensures n < 10 ==> |Decimal(n)| == 1
    ensures n < 100 ==> |Decimal(n)| <= 2
    ensures n < 1000 ==> |Decimal(n)| <= 3
    ensures n < 10000 ==> |Decimal(n)| <= 4
    ensures n < 100000 ==> |Decimal(n)| <= 5
    decreases n
  {
    if n >= 10 {
      DecimalLength(n / 10);
    }
  }

  /** Reading back the text of an address and a prefix size in 0..32 gives
      them back, except that any text with address 0 or prefix 0 is "any",
      which reads as 0.0.0.0/0; *ip's old value does not matter. */
  lemma IpAndMaskRoundTrip(ip: u32, mask: int, prev: u32)
    requires 0 <= mask <= 32
    ensures SToIpAndMask(IpAndMaskToS(ip, mask), prev) == if ip == 0 || mask == 0 then (0, 0) else (mask, ip)
  {
    if ip != 0 && mask != 0 {
      QuadIsNotAny(ip);
      NoSlashInQuad(ip);
      InetRoundTrip(ip);
      AddressTextRoundTrip(InetNtoa(ip), ip, mask, prev);
    }
  }

  /** Text that inet_aton reads as `ip`, starting with a digit and without a
      '/', reads back with the prefix size printed after it. */
  lemma AddressTextRoundTrip(a: seq<char>, ip: u32, mask: int, prev: u32)
    requires a != [] && IsDigit(a[0]) && '/' !in a && InetAton(a) == Some(ip)
    requires 0 < mask <= 32
    ensures SToIpAndMask(WithMaskText(a, mask), prev) == (mask, ip)
  {
    if mask < 32 {
      PrefixScans(mask);
      AddressWithPrefix(a, ip, Decimal(mask), mask, prev);
    } else {
      assert WithMaskText(a, mask) == a;
      assert a != "any" by { assert a[0] != 'a'; }
      AddressAlone(a, ip, prev);
    }
  }

  /** Text that inet_aton reads as `ip`, followed by '/' and text that
      "%d" reads whole as a prefix size below 32, reads back to both. */
  lemma AddressWithPrefix(a: seq<char>, ip: u32, prefix: seq<char>, mask: int, prev: u32)
    requires a != [] && IsDigit(a[0]) && '/' !in a && InetAton(a) == Some(ip)
    requires 0 < mask < 32 && GScanInt(prefix) == Some((mask, []))
    ensures SToIpAndMask(a + ("/" + prefix), prev) == (mask, ip)
  {
    SplitAtSlash(a, prefix, prev);
  }

  /** Text that starts with a digit and has a '/' is split at that '/'. */
  lemma SplitAtSlash(a: seq<char>, prefix: seq<char>, prev: u32)
    requires a != [] && IsDigit(a[0]) && '/' !in a
    ensures SToIpAndMask(a + ("/" + prefix), prev) == WithPrefix(a, prefix, prev)
  {
    var s := a + ("/" + prefix);
    assert s != "any" by {
      assert s[0] == a[0];
    }
    SlashAfter(a, prefix);
    assert s[|a| + 1..] == prefix && s[..|a|] == a;
  }

  /** strchr stops at the '/' put after text that has none. */
  lemma SlashAfter(a: seq<char>, rest: seq<char>)
    requires '/' !in a
    ensures Strchr(a + ("/" + rest), '/') == Some(|a|)
  {
    var s := a + ("/" + rest);
    forall j | 0 <= j < |a| ensures s[j] != '/' {
      assert s[j] == a[j] && a[j] in a;
    }
    StrchrFinds(s, '/', |a|);
  }

  /** "%d" reads a prefix size back from its decimal text. */
  lemma PrefixScans(mask: nat)
    requires mask <= 32
    ensures GScanInt(Decimal(mask)) == Some((mask as int, []))
  {
    assert Decimal(mask) + [] == Decimal(mask);
    DecimalScans(mask, [], 1);
    ToInt32Small(mask);
  }

  /** Text without a '/' that inet_aton reads as `ip` has prefix 32. */
  lemma AddressAlone(a: seq<char>, ip: u32, prev: u32)
    requires a != "any" && '/' !in a && InetAton(a) == Some(ip)
    ensures SToIpAndMask(a, prev) == (32, ip)
  {
  }

  /** A dotted quad starts with a digit, so it is never "any". */
  lemma QuadIsNotAny(ip: u32)
    ensures InetNtoa(ip) != [] && IsDigit(InetNtoa(ip)[0]) && InetNtoa(ip) != "any"
  {
    DecimalFirst(AddrByte(ip, 0));
    assert InetNtoa(ip)[0] == Decimal(AddrByte(ip, 0))[0];
  }

  /** A dotted quad has no '/'. */
  lemma NoSlashInQuad(ip: u32)
    ensures '/' !in InetNtoa(ip)
  {
    var d0, d1, d2, d3 := Decimal(AddrByte(ip, 0)), Decimal(AddrByte(ip, 1)), Decimal(AddrByte(ip, 2)), Decimal(AddrByte(ip, 3));
    NoSlashInDecimal(AddrByte(ip, 0));
    NoSlashInDecimal(AddrByte(ip, 1));
    NoSlashInDecimal(AddrByte(ip, 2));
    NoSlashInDecimal(AddrByte(ip, 3));
    var t2 := d2 + ("." + d3);
    assert '/' !in t2;
    var t1 := d1 + ("." + t2);
    assert '/' !in t1;
    assert InetNtoa(ip) == d0 + ("." + t1);
  }

  lemma NoSlashInDecimal(n: nat)
    ensures '/' !in Decimal(n)
  {
  }

  lemma DecimalFirst(n: nat)
    ensures IsDigit(Decimal(n)[0])
  {
  }

  /** A '/' followed by a prefix "%d" cannot read, or by one outside 0..32,
      gives -1 and leaves *ip alone. */
  lemma IpAndMaskBadPrefix(str: seq<char>, ip: u32, k: nat)
    requires str != "any" && Strchr(str, '/') == Some(k)
    requires GScanInt(str[k + 1..]).None? || GScanInt(str[k + 1..]).value.0 < 0 || GScanInt(str[k + 1..]).value.0 > 32
    ensures SToIpAndMask(str, ip) == (-1, ip)
  {
  }

  /** Without a '/', the prefix is 32 exactly when inet_aton accepts the
      text, and the address is what it reads. */
  lemma IpWithoutPrefix(str: seq<char>, ip: u32)
    requires str != "any" && '/' !in str
    ensures SToIpAndMask(str, ip) == if InetAton(str).Some? then (32, InetAton(str).value) else (-1, ip)
  {
  }

  // ---------------------------------------------------------------------
  // Reason
  // ---------------------------------------------------------------------

  /** snprintf(buf, n, ...) keeps at most n - 1 characters. */
  function Truncate(s: seq<char>, n: nat): (r: seq<char>)
    ensures |r| <= n && |r| <= |s| && r == s[..|r|]
    ensures |r| == Min(n, |s|)
  {
    if |s| <= n then s else s[..n]
  }

  /** reason_to_s: the fixed name of each named reason; any other value
      (a rule's index, or REASON_CONN_TAB, which has no name here) is
      printed by "%d" into a 5-byte buffer. */
  function ReasonToS(reason: Reason): seq<char>
  {
    match reason
    case FwInactive => "FW_INACTIVE"
    case NoMatchingRule => "NO_MATCHING_RULE"
    case XmasPacket => "XMAS_PACKET"
    case IllegalValue => "ILLEGAL_VALUE"
    case ConnExist => "CONN_EXIST"
    case ConnNotExist => "CONN_NOT_EXIST"
    case TcpNonCompliant => "TCP_NON_COMPLIANT"
    case BlockedHost => "BLOCKED_HOST"
    case ConnTab => "-8"
    case RuleIndex(i) => Truncate(Decimal(i), 4)
  }

  /** A rule index is printed as its decimal text cut to four digits. */
  lemma RuleIndexText(i: nat)
    ensures |ReasonToS(RuleIndex(i))| == Min(4, |Decimal(i)|)
    ensures ReasonToS(RuleIndex(i)) == Decimal(i)[..|ReasonToS(RuleIndex(i))|]
    ensures i < 10000 ==> ReasonToS(RuleIndex(i)) == Decimal(i)
  {
    DecimalLength(i);
  }

  /** A reason whose rule index has at most four digits is told apart from
      every other such reason by its text. */
  lemma ReasonToSInjective(r1: Reason, r2: Reason)
    requires r1.RuleIndex? ==> r1.index < 10000
    requires r2.RuleIndex? ==> r2.index < 10000
    requires ReasonToS(r1) == ReasonToS(r2)
    ensures r1 == r2
  {
    if r1.RuleIndex? {
      RuleIndexText(r1.index);
      DecimalFirst(r1.index);
    }
    if r2.RuleIndex? {
      RuleIndexText(r2.index);
      DecimalFirst(r2.index);
    }
    if r1.RuleIndex? && r2.RuleIndex? {
      DecimalValue(r1.index);
      DecimalValue(r2.index);
    }
  }

  // ---------------------------------------------------------------------
  // Port
  // ---------------------------------------------------------------------

  /** s_to_port: "any" is PORT_ANY, ">1023" PORT_ABOVE_1023, and "%hu" gives
      any other port, accepted only below 1024; -1 otherwise. */
  function SToPort(str: seq<char>): (r: int)
    ensures -1 <= r < 1024
  {
    if str == "any" then PORT_ANY as int
    else if str == ">1023" then PORT_ABOVE_1023 as int
    else match GScanUnsigned(str, 0x1_0000)
      case Some((port, _)) => if port < 1024 then port else -1
      case None => -1
  }

  /** port_to_s: the two sentinels by name, any other port in decimal (the
      6-byte buffer always has room for it). */
  function PortToS(port: u16): (r: seq<char>)
    ensures |r| < 6
  {
    if port == PORT_ANY then "any"
    else if port == PORT_ABOVE_1023 then ">1023"
    else
      DecimalLength(port);
      Decimal(port)
  }

  /** Every port below 1024 reads back as itself, and every higher port is
      refused. */
  lemma PortRoundTrip(p: u16)
    ensures SToPort(PortToS(p)) == if p < 1024 then p as int else -1
  {
    if p != PORT_ANY && p != PORT_ABOVE_1023 {
      DecimalIsNotName(p);
      DecimalScansPort(p);
    }
  }

  lemma DecimalIsNotName(n: nat)
    ensures Decimal(n) != "any" && Decimal(n) != ">1023"
  {
    DecimalFirst(n);
  }

  lemma DecimalScansPort(p: u16)
    ensures GScanDigits(Decimal(p)) == Some((false, p as nat, []))
    ensures GScanUnsigned(Decimal(p), 0x1_0000) == Some((p as nat, []))
  {
    assert Decimal(p) + [] == Decimal(p);
    DecimalScans(p, [], 1);
    UnsignedFits(Decimal(p), p, []);
  }

  /** A value "%hu" reads without a sign, below 2^16, is kept as it is. */
  lemma UnsignedFits(s: seq<char>, v: nat, rest: seq<char>)
    requires v < 0x1_0000 && GScanDigits(s) == Some((false, v, rest))
    ensures GScanUnsigned(s, 0x1_0000) == Some((v, rest))
  {
  }

  /** A negative number is read by "%hu" modulo 2^16, so "-v" for v in
      64513..65535 is accepted as port 65536 - v: "-65535" is port 1. */
  lemma SToPortTakesNegative(v: nat)
    requires 0x1_0000 - 1024 < v < 0x1_0000
    ensures SToPort("-" + Decimal(v)) == 0x1_0000 - v
  {
    var s := "-" + Decimal(v);
    assert s != "any" && s != ">1023" by { assert s[0] == '-'; }
    NegativeDigits(v);
    NegationWraps(v);
  }

  /** The same 16-bit store cuts a large positive number: v from 2^16 up to
      ULONG_MAX is accepted as v mod 2^16 when that is below 1024, so
      "65536" is PORT_ANY and "65537" is port 1. */
  lemma SToPortTakesLarge(v: nat)
    requires 0x1_0000 <= v <= ULONG_MAX && v % 0x1_0000 < 1024
    ensures SToPort(Decimal(v)) == v % 0x1_0000
  {
    DecimalIsNotName(v);
    UnsignedCuts(v);
  }

  /** "%hu" keeps the low 16 bits of an unsigned number strtoul can hold. */
  lemma UnsignedCuts(v: nat)
    requires v <= ULONG_MAX
    ensures GScanUnsigned(Decimal(v), 0x1_0000) == Some(((v % 0x1_0000) as nat, []))
  {
    assert Decimal(v) + [] == Decimal(v);
    DecimalScans(v, [], 1);
    assert GScanDigits(Decimal(v)) == Some((false, v, []));
  }

  /** scanf's digits of "-" followed by the decimal text of v. */
  lemma NegativeDigits(v: nat)
    ensures GScanDigits("-" + Decimal(v)) == Some((true, v, []))
  {
    var d := Decimal(v);
    var s := "-" + d;
    assert SkipSpaces(s, false) == s by { assert s[0] == '-'; }
    assert s[1..] == d;
    assert d + [] == d;
    DecimalSplits(v, []);
  }

  /** strtoul's negation of v, cut to 16 bits, is 2^16 - v. */
  lemma NegationWraps(v: nat)
    requires 0 < v < 0x1_0000
    ensures (ULONG_MAX + 1 - v) % (ULONG_MAX + 1) % 0x1_0000 == 0x1_0000 - v
  {
    assert (ULONG_MAX + 1 - v) % (ULONG_MAX + 1) == ULONG_MAX + 1 - v;
    assert ULONG_MAX + 1 - v == 0xFFFF_FFFF_FFFF * 0x1_0000 + (0x1_0000 - v);
  }

  /** s_to_port as its comment and the rule base mean it: only "any",
      ">1023" or a decimal number below 1024, without a sign. */
  function SToPortChecked(str: seq<char>): (r: int)
    ensures -1 <= r < 1024
  {
    if str == "any" then PORT_ANY as int
    else if str == ">1023" then PORT_ABOVE_1023 as int
    else match GScanDigits(str)
      case Some((neg, port, _)) => if !neg && port < 1024 then port else -1
      case None => -1
  }

  /** The checked conversion reads back every port below 1024, refuses the
      others, and accepts a number only as written: never one after '-'. */
  lemma SToPortCheckedHolds(p: u16, str: seq<char>)
    ensures SToPortChecked(PortToS(p)) == if p < 1024 then p as int else -1
    ensures str != "any" && str != ">1023" && SToPortChecked(str) != -1 ==>
      GScanDigits(str).Some? && !GScanDigits(str).value.0 && GScanDigits(str).value.1 == SToPortChecked(str)
  {
    if p != PORT_ANY && p != PORT_ABOVE_1023 {
      DecimalIsNotName(p);
      DecimalScansPort(p);
    }
  }

  /** The checked conversion refuses every negative number. */
  lemma SToPortCheckedRefusesNegative(v: nat)
    ensures SToPortChecked("-" + Decimal(v)) == -1
  {
    var s := "-" + Decimal(v);
    assert s != "any" && s != ">1023" by { assert s[0] == '-'; }
    NegativeDigits(v);
  }

  /** The checked conversion refuses every number from 1024 up, however
      large, written in decimal. */
  lemma SToPortCheckedRefusesLarge(v: nat)
    requires v >= 1024
    ensures SToPortChecked(Decimal(v)) == -1
  {
    DecimalIsNotName(v);
    assert Decimal(v) + [] == Decimal(v);
    DecimalScans(v, [], 1);
  }

  // ---------------------------------------------------------------------
  // Connection state
  // ---------------------------------------------------------------------

  /** state_to_s: the names of RFC 793's states; FTP_DATA, which the switch
      does not list, is "ERR". */
  function StateToS(state: ConnState): seq<char>
  {
    match state
    case Closed => "CLOSED"
    case Listen => "LISTEN"
    case SynSent => "SYN_SENT"
    case SynReceived => "SYN_RECEIVED"
    case Established => "ESTABLISHED"
    case CloseWait => "CLOSE_WAIT"
    case LastAck => "LAST_ACK"
    case FinWait1 => "FIN_WAIT_1"
    case FinWait2 => "FIN_WAIT_2"
    case Closing => "CLOSING"
    case TimeWait => "TIME_WAIT"
    case FtpData => "ERR"
  }

  /** Only FTP_DATA prints as "ERR", and the other states have distinct
      names. */
  lemma StateNames(a: ConnState, b: ConnState)
    ensures StateToS(a) == "ERR" <==> a == FtpData
    ensures StateToS(a) == StateToS(b) ==> a == b
  {
  }
}
