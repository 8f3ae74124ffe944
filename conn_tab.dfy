/** The connection table of firewall/fw_conn_tab.c: the stateful inspection
    of TCP packets (check_conn_tab), the payload inspectors for HTTP
    ("Host:" lines checked against the blocked hosts) and FTP ("PORT"
    commands opening a data connection), and the insertion of new
    connections. The kernel's clock, allocator and host list are inputs. */
module FwConnTab {
  import opened LibC
  import opened FwTypes
  import opened ConnLookup
  import opened LineScan
  import opened TcpStates
  import FwHosts

  /** The part of a TCP packet the table looks at: its addresses and ports,
      its SYN and FIN flags and its payload. */
  datatype Packet = Packet(flow: Tuple, syn: bool, fin: bool, data: seq<char>)

  /** What the table's code takes from the rest of the kernel: the time
      (get_seconds), the blocked-host list, whether kmalloc succeeds, and the
      value the never-assigned hooknum of an FTP data entry happens to hold. */
  datatype Env = Env(now: u64, hostList: Option<seq<char>>, allocOk: bool, junkHook: u32)

  /** The verdict on a packet, the reason returned, and the table after. */
  datatype Outcome = Outcome(action: u8, reason: Reason, table: seq<Connection>)

  const HTTP_PORT: u16 := Htons(80)
  const FTP_PORT: u16 := Htons(21)
  const FTP_DATA_PORT: u16 := Htons(20)

  // ---------------------------------------------------------------------
  // Adding a connection
  // ---------------------------------------------------------------------

  /** The search-then-add of new_connection and of the PORT handler: a
      connection the search finds is not added again (the search's
      evictions still happen), a failed allocation adds nothing, and
      otherwise the entry goes to the head of the table. The flag says
      whether the connection is in the table afterwards. */
  function Insert(s: seq<Connection>, c: Connection, now: u64, allocOk: bool): (r: (bool, seq<Connection>))
  {
    var l := Find(s, TupleOf(c), now);
    if l.found.Some? then (true, l.table)
    else if !allocOk then (false, l.table)
    else (true, [c] + l.table)
  }

  /** The entry new_connection creates: the handshake has been seen to
      start (SYN_SENT), the responder is assumed to listen. */
  function NewEntry(t: Tuple, hooknum: u32, now: u64): Connection
  {
    Connection(t.srcIp, t.srcPort, t.dstIp, t.dstPort, SynSent, Listen, now, hooknum, [])
  }

  /** new_connection: the table after a packet that opens a connection. */
  function NewConn(s: seq<Connection>, t: Tuple, hooknum: u32, now: u64, allocOk: bool): seq<Connection>
  {
    Insert(s, NewEntry(t, hooknum, now), now, allocOk).1
  }

  /** Adding a connection keeps the table free of duplicates. */
  lemma InsertKeepsDistinct(s: seq<Connection>, c: Connection, now: u64, allocOk: bool)
    requires Distinct(s)
    ensures Distinct(Insert(s, c, now, allocOk).1)
  {
    var l := Find(s, TupleOf(c), now);
    FindKeepsDistinct(s, TupleOf(c), now);
    FindSpec(s, TupleOf(c), now);
    if l.found.None? && allocOk {
      var r := [c] + l.table;
      forall i, j | 0 <= i < j < |r|
        ensures !Matches(r[i], TupleOf(r[j]))
      {
        if i == 0 {
          assert r[j] == l.table[j - 1] && r[j] in l.table;
          MatchesSymmetric(c, r[j]);
        } else {
          assert r[i] == l.table[i - 1] && r[j] == l.table[j - 1];
        }
      }
    }
  }

  /** When the connection is in the table afterwards, exactly one entry
      carries its tuple (in either direction), and that entry survives the
      next search at the same time; a connection not found before is the
      new head of the table. */
  lemma InsertHolds(s: seq<Connection>, c: Connection, now: u64, allocOk: bool)
    requires Distinct(s) && !Evictable(c, now)
    ensures var r := Insert(s, c, now, allocOk);
      r.0 ==> FirstLiveMatch(r.1, TupleOf(c), now).Some? &&
              forall i, j :: 0 <= i < |r.1| && 0 <= j < |r.1| && Matches(r.1[i], TupleOf(c)) && Matches(r.1[j], TupleOf(c)) ==> i == j
    ensures FirstLiveMatch(s, TupleOf(c), now).None? && allocOk ==>
      Insert(s, c, now, allocOk).1 == [c] + Live(s, now)
    ensures FirstLiveMatch(s, TupleOf(c), now).None? && !allocOk ==> !Insert(s, c, now, allocOk).0
  {
    var r := Insert(s, c, now, allocOk);
    InsertKeepsDistinct(s, c, now, allocOk);
    FindSpec(s, TupleOf(c), now);
    var l := Find(s, TupleOf(c), now);
    if r.0 {
      var k := if l.found.Some? then l.found.value else 0;
      assert Matches(r.1[k], TupleOf(c)) && !Evictable(r.1[k], now);
      forall i, j | 0 <= i < |r.1| && 0 <= j < |r.1| && Matches(r.1[i], TupleOf(c)) && Matches(r.1[j], TupleOf(c))
        ensures i == j
      {
        MatchesOnce(r.1, TupleOf(c), i, j);
      }
    }
  }

  /** Adding the same connection again at the same time changes nothing:
      the first call has already found or added it. */
  lemma InsertTwice(s: seq<Connection>, c: Connection, c': Connection, now: u64, allocOk: bool, allocOk': bool)
    requires !Evictable(c, now) && TupleOf(c') == TupleOf(c)
    requires Insert(s, c, now, allocOk).0
    ensures Insert(Insert(s, c, now, allocOk).1, c', now, allocOk') == (true, Insert(s, c, now, allocOk).1)
  {
    var l := Find(s, TupleOf(c), now);
    if l.found.Some? {
      FindTwice(s, TupleOf(c), now);
    } else {
      var r := [c] + l.table;
      assert Insert(s, c, now, allocOk).1 == r;
      assert FirstLiveMatch(r, TupleOf(c'), now) == Some(0);
      assert r[..0] == [] && r[0..] == r;
      assert Live(r[..0], now) == [];
      assert Find(r, TupleOf(c'), now) == Lookup(r, Some(0));
    }
  }

  /** new_connection never duplicates a connection; when it was not in the
      table and the allocation succeeds, the new head is SYN_SENT/LISTEN at
      the hook given. Once the clock reads 10*TIMEOUT seconds or more,
      calling it again adds nothing (before that, see BootWindowForgets). */
  lemma NewConnOnce(s: seq<Connection>, t: Tuple, hooknum: u32, hooknum': u32, now: u64, allocOk: bool, allocOk': bool)
    requires Distinct(s)
    ensures Distinct(NewConn(s, t, hooknum, now, allocOk))
    ensures FirstLiveMatch(s, t, now).None? && allocOk ==>
      NewConn(s, t, hooknum, now, allocOk) == [NewEntry(t, hooknum, now)] + Live(s, now)
    ensures now >= TIMEOUT * 10 && (FirstLiveMatch(s, t, now).Some? || allocOk) ==>
      NewConn(NewConn(s, t, hooknum, now, allocOk), t, hooknum', now, allocOk') == NewConn(s, t, hooknum, now, allocOk)
  {
    var c := NewEntry(t, hooknum, now);
    assert TupleOf(c) == t;
    InsertKeepsDistinct(s, c, now, allocOk);
    if now >= TIMEOUT * 10 && (FirstLiveMatch(s, t, now).Some? || allocOk) {
      InsertTwice(s, c, NewEntry(t, hooknum', now), now, allocOk, allocOk');
    }
  }

  /** While the clock reads less than 10*TIMEOUT seconds, `now - TIMEOUT*10`
      wraps to a huge value, so every entry not stamped in the future is
      stale: a connection just added is evicted by the next search at the
      same time, and the table is left empty. */
  lemma BootWindowForgets(s: seq<Connection>, t: Tuple, hooknum: u32, now: u64, allocOk: bool)
    requires now < TIMEOUT * 10
    requires forall c :: c in s ==> c.timestamp <= now
    ensures Find(NewConn(s, t, hooknum, now, allocOk), t, now) == Lookup([], None)
  {
    var c := NewEntry(t, hooknum, now);
    assert TupleOf(c) == t;
    StaleAll(s, now);
    StaleAll([c], now);
    StaleAll([], now);
    assert Find(s, t, now) == Lookup([], None);
    if allocOk {
      assert NewConn(s, t, hooknum, now, allocOk) == [c];
    } else {
      assert NewConn(s, t, hooknum, now, allocOk) == [];
    }
  }

  /** In the boot window every entry stamped no later than now is evicted. */
  lemma StaleAll(s: seq<Connection>, now: u64)
    requires now < TIMEOUT * 10
    requires forall c :: c in s ==> c.timestamp <= now
    ensures Live(s, now) == []
    ensures forall t :: FirstLiveMatch(s, t, now).None?
  {
    assert forall c :: c in s ==> Evictable(c, now);
    LiveMembers(s, now);
    if Live(s, now) != [] {
      assert Live(s, now)[0] in Live(s, now);
    }
    forall t ensures FirstLiveMatch(s, t, now).None? {
    }
  }

  // ---------------------------------------------------------------------
  // The FTP PORT command
  // ---------------------------------------------------------------------

  /** One "%hhu" conversion of the kernel's sscanf. */
  function ScanByte(s: seq<char>): (r: Option<(nat, seq<char>)>)
    ensures r.Some? ==> r.value.0 < 0x100
  {
    KScanUnsigned(s, 0x100)
  }

  /** "%hhu" reads back the decimal text of every unsigned char. */
  lemma ScanByteReadsDecimal()
    ensures ReadsDecimal(ScanByte, 0x100)
  {
    forall v: nat, r: seq<char> | v < 0x100 && (r == [] || !IsDigit(r[0]))
      ensures ScanByte(Decimal(v) + r) == Some((v, r))
    {
      ScanByteDecimal(v, r);
    }
  }

  /** One instance: the decimal text of v, then something not a digit. */
  lemma ScanByteDecimal(v: nat, r: seq<char>)
    requires v < 0x100 && (r == [] || !IsDigit(r[0]))
    ensures ScanByte(Decimal(v) + r) == Some((v, r))
  {
    assert v % 0x100 == v;
    DecimalScans(v, r, 0x100);
  }

  /** Six numbers that fit the unsigned chars sscanf stores them in. */
  predicate PortFields(v: seq<nat>)
  {
    |v| == 6 && forall k :: 0 <= k < 6 ==> v[k] < 0x100
  }

  /** The six "%hhu" conversions separated by commas of the PORT format. */
  function PortNumbers(args: seq<char>): (r: Option<seq<nat>>)
    ensures r.Some? ==> PortFields(r.value)
  {
    match ScanSeparated(args, 6, ',', ScanByte)
    case None => None
    case Some((v, _)) =>
      ScanSeparatedBounded(args, 6, ',', ScanByte, 0x100);
      Some(v)
  }

  /** The handler's "bit magic": the first four numbers are the address's
      bytes in memory order, the last two the port's. */
  function PortAddress(v: seq<nat>): (u32, u16)
    requires PortFields(v)
  {
    (NetAddr(v[0], v[1], v[2], v[3]), v[4] + v[5] * 0x100)
  }

  /** sscanf(line, "PORT %hhu,%hhu,%hhu,%hhu,%hhu,%hhu") put together in
      network byte order: None when fewer than six numbers are converted.
      (The format's space skips white space, which each conversion skips
      anyway.) */
  function ParsePort(line: seq<char>): (r: Option<(u32, u16)>)
  {
    if |line| < 4 || line[..4] != "PORT" then None
    else match PortNumbers(line[4..])
      case None => None
      case Some(v) => Some(PortAddress(v))
  }

  /** The PORT command of section 4.1.2 of RFC 959 for an address and a port
      in network byte order: the four address bytes, then the port's high
      and low byte. */
  function PortCommand(ip: u32, port: u16): seq<char>
  {
    "PORT " + DecimalList(PortBytes(ip, port), ',')
  }

  /** The handler reads back the address and port of the command a client
      sends for them, whatever follows the last number. */
  lemma ParsePortRoundTrip(ip: u32, port: u16, rest: seq<char>)
    requires rest == [] || !IsDigit(rest[0])
    ensures ParsePort(PortCommand(ip, port) + rest) == Some((ip, port))
  {
    var args := DecimalList(PortBytes(ip, port), ',') + rest;
    var line := PortCommand(ip, port) + rest;
    assert line == "PORT" + (" " + args);
    assert line[..4] == "PORT" && line[4..] == " " + args;
    PortNumbersScan(PortBytes(ip, port), rest);
    PortAddressOfBytes(ip, port);
  }

  /** The six numbers of the PORT command for an address and a port. */
  function PortBytes(ip: u32, port: u16): seq<nat>
  {
    [AddrByte(ip, 0), AddrByte(ip, 1), AddrByte(ip, 2), AddrByte(ip, 3), port % 0x100, port / 0x100]
  }

  lemma PortNumbersScan(vals: seq<nat>, rest: seq<char>)
    requires PortFields(vals)
    requires rest == [] || !IsDigit(rest[0])
    ensures PortNumbers(" " + (DecimalList(vals, ',') + rest)) == Some(vals)
  {
    var args := DecimalList(vals, ',') + rest;
    assert ScanSeparated(args, 6, ',', ScanByte) == Some((vals, rest)) by {
      ScanByteReadsDecimal();
      DecimalListScans(vals, ',', rest, ScanByte, 0x100);
    }
    ScanByteSkipsSpace(args);
    ScanSeparatedFirst(" " + args, args, 6, ',', ScanByte);
  }

  lemma ScanByteSkipsSpace(t: seq<char>)
    ensures ScanByte(" " + t) == ScanByte(t)
  {
    assert (" " + t)[1..] == t;
    assert SkipSpaces(" " + t, true) == SkipSpaces(t, true);
  }

  lemma PortAddressOfBytes(ip: u32, port: u16)
    ensures PortFields(PortBytes(ip, port)) && PortAddress(PortBytes(ip, port)) == (ip, port)
  {
    NetAddrOfBytes(ip);
    assert port % 0x100 + port / 0x100 * 0x100 == port;
  }

  /** The FTP data connection a PORT command announces: from the address
      and port it names to the server's port 20, both endpoints FTP_DATA. */
  function DataEntry(ip: u32, port: u16, server: u32, now: u64, hooknum: u32): Connection
  {
    Connection(ip, port, server, FTP_DATA_PORT, FtpData, FtpData, now, hooknum, [])
  }

  /** ftp_handler on the entry at k, whose buffer holds a complete line: the
      line is consumed; a command that does not parse, or that names an
      address other than the client's, is dropped; otherwise the data
      connection is added unless the table has it, and the packet is
      dropped only when the allocation fails. */
  function Pinhole(s: seq<Connection>, k: nat, env: Env): (r: (u8, seq<Connection>))
    requires k < |s|
    ensures r.0 == NF_DROP || r.0 == NF_ACCEPT
  {
    Admit(s[k := s[k].(buffer := [])], s[k], ParsePort(s[k].buffer), env)
  }

  /** What ftp_handler does with the command `cmd` its control connection
      `ftp` sent, once the line has been consumed from the table `t`. */
  function Admit(t: seq<Connection>, ftp: Connection, cmd: Option<(u32, u16)>, env: Env): (u8, seq<Connection>)
  {
    match cmd
    case None => (NF_DROP, t)
    case Some((ip, port)) =>
      if ip != ftp.srcIp then (NF_DROP, t)
      else
        var (ok, t') := Insert(t, DataEntry(ip, port, ftp.dstIp, env.now, env.junkHook), env.now, env.allocOk);
        (if ok then NF_ACCEPT else NF_DROP, t')
  }

  /** A command that does not parse, or that names another address than
      the client's, is dropped and adds nothing: only the line is consumed. */
  lemma PinholeRejects(s: seq<Connection>, k: nat, env: Env)
    requires k < |s|
    requires ParsePort(s[k].buffer).None? || ParsePort(s[k].buffer).value.0 != s[k].srcIp
    ensures Pinhole(s, k, env) == (NF_DROP, s[k := s[k].(buffer := [])])
  {
  }

  /** An accepted command leaves exactly one entry for the data connection
      it names, which survives a search at the same time; when the table
      did not hold it, that entry is the new head, FTP_DATA on both sides. */
  lemma PinholeOpens(s: seq<Connection>, k: nat, env: Env)
    requires Distinct(s) && k < |s|
    requires ParsePort(s[k].buffer).Some?
    ensures var (ip, port) := ParsePort(s[k].buffer).value;
      var d := Tuple(ip, port, s[k].dstIp, FTP_DATA_PORT);
      var r := Pinhole(s, k, env);
      Distinct(r.1) &&
      (r.0 == NF_ACCEPT ==>
        (env.now >= TIMEOUT * 10 ==> FirstLiveMatch(r.1, d, env.now).Some?) &&
        forall i, j :: 0 <= i < |r.1| && 0 <= j < |r.1| && Matches(r.1[i], d) && Matches(r.1[j], d) ==> i == j) &&
      (r.0 == NF_ACCEPT && FirstLiveMatch(s[k := s[k].(buffer := [])], d, env.now).None? ==>
        r.1[0] == DataEntry(ip, port, s[k].dstIp, env.now, env.junkHook))
  {
    var t := s[k := s[k].(buffer := [])];
    SameFlowsKeepDistinct(s, t);
    AdmitOpens(t, s[k], ParsePort(s[k].buffer).value, env);
  }

  lemma AdmitOpens(t: seq<Connection>, ftp: Connection, cmd: (u32, u16), env: Env)
    requires Distinct(t)
    ensures var (ip, port) := cmd;
      var d := Tuple(ip, port, ftp.dstIp, FTP_DATA_PORT);
      var r := Admit(t, ftp, Some(cmd), env);
      Distinct(r.1) &&
      (r.0 == NF_ACCEPT ==>
        (env.now >= TIMEOUT * 10 ==> FirstLiveMatch(r.1, d, env.now).Some?) &&
        forall i, j :: 0 <= i < |r.1| && 0 <= j < |r.1| && Matches(r.1[i], d) && Matches(r.1[j], d) ==> i == j) &&
      (r.0 == NF_ACCEPT && FirstLiveMatch(t, d, env.now).None? ==>
        r.1[0] == DataEntry(ip, port, ftp.dstIp, env.now, env.junkHook))
  {
    var (ip, port) := cmd;
    if ip == ftp.srcIp {
      var c := DataEntry(ip, port, ftp.dstIp, env.now, env.junkHook);
      assert TupleOf(c) == Tuple(ip, port, ftp.dstIp, FTP_DATA_PORT);
      InsertKeepsDistinct(t, c, env.now, env.allocOk);
      if env.now >= TIMEOUT * 10 {
        InsertHolds(t, c, env.now, env.allocOk);
      }
      var r := Insert(t, c, env.now, env.allocOk).1;
      forall i, j | 0 <= i < |r| && 0 <= j < |r| && Matches(r[i], TupleOf(c)) && Matches(r[j], TupleOf(c))
        ensures i == j
      {
        MatchesOnce(r, TupleOf(c), i, j);
      }
    }
  }

  /** The same command, held again by the same control connection, at the
      same time, is accepted and changes nothing: no duplicate is added. */
  lemma PinholeRepeat(s: seq<Connection>, k: nat, env: Env, env': Env, k': nat)
    requires k < |s| && env.now >= TIMEOUT * 10 && env'.now == env.now
    requires Pinhole(s, k, env).0 == NF_ACCEPT
    requires k' < |Pinhole(s, k, env).1| && Pinhole(s, k, env).1[k'] == s[k].(buffer := [])
    ensures var r := Pinhole(s, k, env).1;
      Pinhole(r[k' := s[k]], k', env') == (NF_ACCEPT, r)
  {
    var t := s[k := s[k].(buffer := [])];
    var cmd := ParsePort(s[k].buffer);
    var r := Pinhole(s, k, env).1;
    assert r == Admit(t, s[k], cmd, env).1;
    PinholeRestored(r, k', s[k], env');
    AdmitRepeat(t, s[k], cmd, env, env');
  }

  lemma PinholeRestored(r: seq<Connection>, k: nat, ftp: Connection, env: Env)
    requires k < |r| && r[k] == ftp.(buffer := [])
    ensures Pinhole(r[k := ftp], k, env) == Admit(r, ftp, ParsePort(ftp.buffer), env)
  {
    assert r[k := ftp][k := ftp.(buffer := [])] == r;
  }

  lemma AdmitRepeat(t: seq<Connection>, ftp: Connection, cmd: Option<(u32, u16)>, env: Env, env': Env)
    requires env.now >= TIMEOUT * 10 && env'.now == env.now
    requires Admit(t, ftp, cmd, env).0 == NF_ACCEPT
    ensures Admit(Admit(t, ftp, cmd, env).1, ftp, cmd, env') == (NF_ACCEPT, Admit(t, ftp, cmd, env).1)
  {
    var (ip, port) := cmd.value;
    var c := DataEntry(ip, port, ftp.dstIp, env.now, env.junkHook);
    var c' := DataEntry(ip, port, ftp.dstIp, env.now, env'.junkHook);
    InsertTwice(t, c, c', env.now, env.allocOk, env'.allocOk);
  }

  // ---------------------------------------------------------------------
  // The HTTP Host line
  // ---------------------------------------------------------------------

  /** host_handler on the entry at k, whose buffer holds a "Host: " line:
      the line is consumed, and the packet is dropped exactly when the name
      after "Host: " is a line of the blocked-host list. */
  function HostCheck(s: seq<Connection>, k: nat, env: Env): (r: (u8, seq<Connection>))
    requires k < |s| && |s[k].buffer| >= |HOST_TARGET|
  {
    var host := s[k].buffer[|HOST_TARGET|..];
    var t := s[k := s[k].(buffer := [])];
    if FwHosts.Blocked(env.hostList, Some(host)) then (NF_DROP, t) else (NF_ACCEPT, t)
  }

  // ---------------------------------------------------------------------
  // The generic line parser
  // ---------------------------------------------------------------------

  /** The handler str_parse is given, with the word its lines start with. */
  datatype Handler = OnHost | OnPort

  function TargetOf(h: Handler): (target: seq<char>)
    ensures ValidTarget(target)
  {
    if h == OnHost then HOST_TARGET else PORT_TARGET
  }

  /** str_parse on the entry at k for one packet's payload: the scanner
      updates the entry's buffer, and the handler runs, and decides the
      verdict, only when the scanner completes a line. */
  function Parse(s: seq<Connection>, k: nat, data: seq<char>, h: Handler, env: Env): (r: (u8, seq<Connection>))
    requires k < |s|
    ensures r.0 == NF_DROP || r.0 == NF_ACCEPT
    ensures !Scan(s[k].buffer, data, TargetOf(h)).complete ==> r.0 == NF_ACCEPT
    ensures h == OnHost ==> SameFlows(s, r.1)
  {
    var sc := Scan(s[k].buffer, data, TargetOf(h));
    var t := s[k := s[k].(buffer := sc.buffer)];
    if !sc.complete then (NF_ACCEPT, t)
    else if h == OnHost then
      CompleteHoldsTarget(s[k].buffer, data, TargetOf(h), 0);
      HostCheck(t, k, env)
    else Pinhole(t, k, env)
  }

  /** Two tables whose entries carry the same tuples, position by position. */
  predicate SameFlows(a: seq<Connection>, b: seq<Connection>)
  {
    |a| == |b| && forall i :: 0 <= i < |a| ==> TupleOf(a[i]) == TupleOf(b[i])
  }

  lemma SameFlowsKeepDistinct(a: seq<Connection>, b: seq<Connection>)
    requires Distinct(a) && SameFlows(a, b)
    ensures Distinct(b)
  {
    forall i, j | 0 <= i < j < |b|
      ensures !Matches(b[i], TupleOf(b[j]))
    {
      assert TupleOf(a[i]) == TupleOf(b[i]) && TupleOf(a[j]) == TupleOf(b[j]);
    }
  }

  /** Parsing a payload never duplicates a connection. */
  lemma ParseKeepsDistinct(s: seq<Connection>, k: nat, data: seq<char>, h: Handler, env: Env)
    requires Distinct(s) && k < |s|
    ensures Distinct(Parse(s, k, data, h, env).1)
  {
    var sc := Scan(s[k].buffer, data, TargetOf(h));
    var t := s[k := s[k].(buffer := sc.buffer)];
    SameFlowsKeepDistinct(s, t);
    if sc.complete && h == OnPort {
      var ftp := t[k];
      var t' := t[k := ftp.(buffer := [])];
      SameFlowsKeepDistinct(t, t');
      match ParsePort(ftp.buffer)
      case None =>
      case Some((ip, port)) =>
        InsertKeepsDistinct(t', DataEntry(ip, port, ftp.dstIp, env.now, env.junkHook), env.now, env.allocOk);
    } else if sc.complete {
      SameFlowsKeepDistinct(s, Parse(s, k, data, h, env).1);
    }
  }

  // ---------------------------------------------------------------------
  // check_conn_tab
  // ---------------------------------------------------------------------

  /** check_conn_tab for a packet seen at `hooknum`: the search for its
      connection; a packet of no connection is dropped; a connection tracked
      at another hook (and not an FTP data connection) passes untouched;
      otherwise the entry is stamped with the time and the state machine
      moves its endpoints, drops an unexpected SYN, or lets the payload of
      an open connection be inspected: HTTP requests for their Host line
      (a blocked host closes the connection) and FTP control traffic for
      PORT commands. */
  function Check(s: seq<Connection>, p: Packet, hooknum: u32, env: Env): (r: Outcome)
    ensures r.action == NF_DROP || r.action == NF_ACCEPT
  {
    var l := Find(s, p.flow, env.now);
    match l.found
    case None => Outcome(NF_DROP, ConnNotExist, l.table)
    case Some(k) =>
      FindSpec(s, p.flow, env.now);
      var con := l.table[k];
      if con.srcState != FtpData && con.hooknum != hooknum then Outcome(NF_ACCEPT, ConnExist, l.table)
      else
        var con := con.(timestamp := env.now);
        var t := l.table[k := con];
        var reverse := p.flow == Reversed(TupleOf(con));
        match Next(con.srcState, con.dstState, reverse, p.syn, p.fin)
        case Moved(src, dst) => Outcome(NF_ACCEPT, ConnExist, t[k := con.(srcState := src, dstState := dst)])
        case Unexpected => Outcome(NF_DROP, TcpNonCompliant, t)
        case Inspect =>
          if p.flow.dstPort == HTTP_PORT then
            var (action, t') := Parse(t, k, p.data, OnHost, env);
            if action == NF_DROP then Outcome(NF_DROP, BlockedHost, t'[k := t'[k].(srcState := Closed, dstState := Closed)])
            else Outcome(action, ConnExist, t')
          else if p.flow.dstPort == FTP_PORT then
            var (action, t') := Parse(t, k, p.data, OnPort, env);
            Outcome(action, ConnExist, t')
          else Outcome(NF_ACCEPT, ConnExist, t)
  }

  /** A packet of no tracked connection is dropped, and no entry is created:
      the table only loses what the search evicts. */
  lemma UnknownDropped(s: seq<Connection>, p: Packet, hooknum: u32, env: Env)
    requires FirstLiveMatch(s, p.flow, env.now).None?
    ensures Check(s, p, hooknum, env) == Outcome(NF_DROP, ConnNotExist, Live(s, env.now))
    ensures |Live(s, env.now)| <= |s|
  {
  }

  /** A packet of a connection tracked at another hook, not FTP data, is
      accepted, and its entry keeps its states and timestamp. */
  lemma OtherHookPasses(s: seq<Connection>, p: Packet, hooknum: u32, env: Env)
    requires FirstLiveMatch(s, p.flow, env.now).Some?
    requires var c := s[FirstLiveMatch(s, p.flow, env.now).value];
      c.srcState != FtpData && c.hooknum != hooknum
    ensures var l := Find(s, p.flow, env.now);
      Check(s, p, hooknum, env) == Outcome(NF_ACCEPT, ConnExist, l.table) &&
      l.table[l.found.value] == s[FirstLiveMatch(s, p.flow, env.now).value]
  {
    var m := FirstLiveMatch(s, p.flow, env.now).value;
    var l := Find(s, p.flow, env.now);
    assert l.table[l.found.value] == s[m];
  }

  /** A packet the state machine moves, or rejects as an unexpected SYN:
      only the found entry changes, and only in its states and timestamp. */
  lemma StateStep(s: seq<Connection>, p: Packet, hooknum: u32, env: Env)
    requires FirstLiveMatch(s, p.flow, env.now).Some?
    requires var c := s[FirstLiveMatch(s, p.flow, env.now).value];
      c.srcState == FtpData || c.hooknum == hooknum
    ensures var c := s[FirstLiveMatch(s, p.flow, env.now).value];
      var l := Find(s, p.flow, env.now);
      var k := l.found.value;
      var reverse := p.flow == Reversed(TupleOf(c));
      var r := Check(s, p, hooknum, env);
      k < |l.table| &&
      match Next(c.srcState, c.dstState, reverse, p.syn, p.fin)
      case Moved(src, dst) =>
        r == Outcome(NF_ACCEPT, ConnExist, l.table[k := c.(timestamp := env.now, srcState := src, dstState := dst)])
      case Unexpected =>
        r == Outcome(NF_DROP, TcpNonCompliant, l.table[k := c.(timestamp := env.now)])
      case Inspect => r.reason == ConnExist || r.reason == BlockedHost
  {
    var m := FirstLiveMatch(s, p.flow, env.now).value;
    var l := Find(s, p.flow, env.now);
    FindSpec(s, p.flow, env.now);
    assert l.table[l.found.value] == s[m];
  }

  /** A connection closed for a blocked host is gone: it is no longer found,
      by any later search, for the packet or its reply. */
  lemma BlockedHostCloses(s: seq<Connection>, p: Packet, hooknum: u32, env: Env, later: u64)
    requires Distinct(s)
    requires Check(s, p, hooknum, env).reason == BlockedHost
    ensures Check(s, p, hooknum, env).action == NF_DROP
    ensures FirstLiveMatch(Check(s, p, hooknum, env).table, p.flow, later).None?
    ensures FirstLiveMatch(Check(s, p, hooknum, env).table, Reversed(p.flow), later).None?
  {
    var l := Find(s, p.flow, env.now);
    FindSpec(s, p.flow, env.now);
    FindKeepsDistinct(s, p.flow, env.now);
    var k := l.found.value;
    var con := l.table[k].(timestamp := env.now);
    var t := l.table[k := con];
    var (action, t') := Parse(t, k, p.data, OnHost, env);
    var r := t'[k := t'[k].(srcState := Closed, dstState := Closed)];
    assert Check(s, p, hooknum, env).table == r;
    assert SameFlows(l.table, r) by {
      assert SameFlows(l.table, t);
      assert SameFlows(t, t');
    }
    forall x | 0 <= x < |r|
      ensures Evictable(r[x], later) || !Matches(r[x], p.flow)
    {
      if x != k && Matches(r[x], p.flow) {
        assert TupleOf(r[x]) == TupleOf(l.table[x]);
        MatchesOnce(l.table, p.flow, x, k);
      }
    }
    FirstLiveMatchSymmetric(r, p.flow, later);
  }

  /** check_conn_tab never duplicates a connection. */
  lemma CheckKeepsDistinct(s: seq<Connection>, p: Packet, hooknum: u32, env: Env)
    requires Distinct(s)
    ensures Distinct(Check(s, p, hooknum, env).table)
  {
    var l := Find(s, p.flow, env.now);
    FindSpec(s, p.flow, env.now);
    FindKeepsDistinct(s, p.flow, env.now);
    if l.found.Some? {
      var k := l.found.value;
      var con := l.table[k].(timestamp := env.now);
      var t := l.table[k := con];
      SameFlowsKeepDistinct(l.table, t);
      var reverse := p.flow == Reversed(TupleOf(con));
      match Next(con.srcState, con.dstState, reverse, p.syn, p.fin)
      case Moved(src, dst) =>
        SameFlowsKeepDistinct(l.table, t[k := con.(srcState := src, dstState := dst)]);
      case Unexpected =>
      case Inspect =>
        if p.flow.dstPort == HTTP_PORT {
          var (action, t') := Parse(t, k, p.data, OnHost, env);
          SameFlowsKeepDistinct(t, t');
          SameFlowsKeepDistinct(t', t'[k := t'[k].(srcState := Closed, dstState := Closed)]);
        } else if p.flow.dstPort == FTP_PORT {
          ParseKeepsDistinct(t, k, p.data, OnPort, env);
        }
    }
  }

  // ---------------------------------------------------------------------
  // The table
  // ---------------------------------------------------------------------

  /** conn_table, the list of tracked connections, head first. */
  class ConnTable {
    var cons: seq<Connection>

    ghost predicate Valid()
      reads this
    {
      Distinct(cons)
    }

    constructor ()
      ensures cons == [] && Valid()
    {
      cons := [];
    }

    /** find_connection: walks the list, unlinking each evictable entry it
        passes, and stops at the first surviving entry of the tuple. */
    method FindConnection(t: Tuple, now: u64) returns (found: Option<nat>)
      modifies this
      ensures Lookup(cons, found) == Find(old(cons), t, now)
    {
      ghost var s := cons;
      ghost var x := 0;
      var k := 0;
      while k < |cons|
        invariant x <= |s|
        invariant cons == Live(s[..x], now) + s[x..]
        invariant k == |Live(s[..x], now)|
        invariant forall y :: 0 <= y < x ==> Evictable(s[y], now) || !Matches(s[y], t)
        decreases |cons| - k
      {
        WalkStep(s, x, cons, k, now);
        if Evictable(cons[k], now) {
          PassedStep(s, t, now, x);
          cons := cons[..k] + cons[k + 1..];
          x := x + 1;
          continue;
        }
        if Matches(cons[k], t) {
          FirstLiveMatchAt(s, t, now, x);
          return Some(k);
        }
        PassedStep(s, t, now, x);
        k := k + 1;
        x := x + 1;
      }
      assert s[..x] == s;
      FirstLiveMatchAt(s, t, now, x);
      return None;
    }

    /** new_connection: a connection not yet in the table is added at its
        head, SYN_SENT/LISTEN at the hook given, when memory is available. */
    method NewConnection(t: Tuple, hooknum: u32, now: u64, allocOk: bool)
      requires Valid()
      modifies this
      ensures Valid()
      ensures cons == NewConn(old(cons), t, hooknum, now, allocOk)
    {
      ghost var s := cons;
      InsertKeepsDistinct(s, NewEntry(t, hooknum, now), now, allocOk);
      var found := FindConnection(t, now);
      if found.Some? || !allocOk {
        return;
      }
      cons := [NewEntry(t, hooknum, now)] + cons;
    }

    /** clear_cons: unlinks every entry. */
    method ClearCons()
      modifies this
      ensures cons == [] && Valid()
    {
      while cons != []
        decreases |cons|
      {
        cons := cons[1..];
      }
    }

    /** host_handler on the entry at k. */
    method HostHandler(k: nat, env: Env) returns (action: u8)
      requires k < |cons| && |cons[k].buffer| >= |HOST_TARGET|
      modifies this
      ensures (action, cons) == HostCheck(old(cons), k, env)
    {
      var host := cons[k].buffer[|HOST_TARGET|..];
      cons := cons[k := cons[k].(buffer := [])];
      var blocked := FwHosts.CheckHosts(env.hostList, Some(host));
      action := if blocked then NF_DROP else NF_ACCEPT;
    }

    /** ftp_handler on the entry at k. */
    method FtpHandler(k: nat, env: Env) returns (action: u8)
      requires k < |cons|
      modifies this
      ensures (action, cons) == Pinhole(old(cons), k, env)
    {
      var ftp := cons[k];
      var parsed := ParsePort(ftp.buffer);
      cons := cons[k := ftp.(buffer := [])];
      if parsed.None? {
        return NF_DROP;
      }
      var (ip, port) := parsed.value;
      if ip != ftp.srcIp {
        return NF_DROP;
      }
      var found := FindConnection(Tuple(ip, port, ftp.dstIp, FTP_DATA_PORT), env.now);
      if found.Some? {
        return NF_ACCEPT;
      }
      if !env.allocOk {
        return NF_DROP;
      }
      cons := [DataEntry(ip, port, ftp.dstIp, env.now, env.junkHook)] + cons;
      return NF_ACCEPT;
    }

    /** str_parse on the entry at k for one packet's payload. */
    method StrParse(k: nat, data: seq<char>, h: Handler, env: Env) returns (action: u8)
      requires k < |cons|
      modifies this
      ensures (action, cons) == Parse(old(cons), k, data, h, env)
    {
      var target := TargetOf(h);
      var sc := ScanLine(cons[k].buffer, data, target);
      CompleteHoldsTarget(cons[k].buffer, data, target, 0);
      cons := cons[k := cons[k].(buffer := sc.buffer)];
      if !sc.complete {
        return NF_ACCEPT;
      }
      if h == OnHost {
        action := HostHandler(k, env);
      } else {
        action := FtpHandler(k, env);
      }
    }

    /** check_conn_tab: the verdict and reason for a TCP packet (with ACK
        set) seen at `hooknum`, and the table's update. */
    method CheckConnTab(p: Packet, hooknum: u32, env: Env) returns (action: u8, reason: Reason)
      requires Valid()
      modifies this
      ensures Valid()
      ensures Outcome(action, reason, cons) == Check(old(cons), p, hooknum, env)
    {
      CheckKeepsDistinct(cons, p, hooknum, env);
      FindSpec(cons, p.flow, env.now);
      var found := FindConnection(p.flow, env.now);
      if found.None? {
        return NF_DROP, ConnNotExist;
      }
      var k := found.value;
      var con := cons[k];
      if con.srcState != FtpData && con.hooknum != hooknum {
        return NF_ACCEPT, ConnExist;
      }
      con := con.(timestamp := env.now);
      cons := cons[k := con];
      var reverse := p.flow == Reversed(TupleOf(con));
      match Next(con.srcState, con.dstState, reverse, p.syn, p.fin)
      case Moved(src, dst) =>
        cons := cons[k := con.(srcState := src, dstState := dst)];
        return NF_ACCEPT, ConnExist;
      case Unexpected =>
        return NF_DROP, TcpNonCompliant;
      case Inspect =>
        if p.flow.dstPort == HTTP_PORT {
          action := StrParse(k, p.data, OnHost, env);
          if action == NF_DROP {
            cons := cons[k := cons[k].(srcState := Closed, dstState := Closed)];
            return NF_DROP, BlockedHost;
          }
          return action, ConnExist;
        } else if p.flow.dstPort == FTP_PORT {
          action := StrParse(k, p.data, OnPort, env);
          return action, ConnExist;
        }
        return NF_ACCEPT, ConnExist;
    }
  }

  /** One step of find_connection's walk over the original table `s`: the
      entry at the cursor `k` of the current table `cons` is the next
      original entry, and unlinking it (when evictable) or passing it keeps
      the walk's invariant. */
  lemma WalkStep(s: seq<Connection>, x: nat, cons: seq<Connection>, k: nat, now: u64)
    requires x < |s| && cons == Live(s[..x], now) + s[x..] && k == |Live(s[..x], now)|
    ensures k < |cons| && cons[k] == s[x]
    ensures Evictable(s[x], now) ==>
      cons[..k] + cons[k + 1..] == Live(s[..x + 1], now) + s[x + 1..] && k == |Live(s[..x + 1], now)|
    ensures !Evictable(s[x], now) ==>
      cons == Live(s[..x + 1], now) + s[x + 1..] && k + 1 == |Live(s[..x + 1], now)|
  {
    LiveSnoc(s, x, now);
    var p := Live(s[..x], now);
    assert s[x..] == [s[x]] + s[x + 1..];
    if Evictable(s[x], now) {
      assert cons[..k] == p && cons[k + 1..] == s[x + 1..];
    } else {
      assert cons == (p + [s[x]]) + s[x + 1..];
    }
  }

  /** The entries the walk has passed stay free of surviving matches. */
  lemma PassedStep(s: seq<Connection>, t: Tuple, now: u64, x: nat)
    requires x < |s| && (Evictable(s[x], now) || !Matches(s[x], t))
    requires forall y :: 0 <= y < x ==> Evictable(s[y], now) || !Matches(s[y], t)
    ensures forall y :: 0 <= y < x + 1 ==> Evictable(s[y], now) || !Matches(s[y], t)
  {
  }

  /** The survivors of one more entry. */
  lemma LiveSnoc(s: seq<Connection>, x: nat, now: u64)
    requires x < |s|
    ensures Live(s[..x + 1], now) == Live(s[..x], now) + (if Evictable(s[x], now) then [] else [s[x]])
  {
    assert s[..x + 1] == s[..x] + [s[x]];
    LiveAppend(s[..x], [s[x]], now);
  }
}
