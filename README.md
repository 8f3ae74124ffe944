# Stateful firewall: connection table and control surfaces

A Dafny model of the Linux kernel firewall by Tomer Brisker (an IPv4
netfilter module with a user-space companion tool). The model covers:

- **The connection table** (`firewall/fw_conn_tab.c`). This is a list of tracked TCP
  connections, head first. The search is direction-agnostic and lazily evicts
  expired, stale and closed entries as it walks the list. Each endpoint has
  its own state, which `check_conn_tab` moves through the code's own
  simplification of the TCP states of section 3.2 of RFC 793. The scanner
  `str_parse` collects a protocol line across packets into a 256-byte
  per-connection buffer. Two inspectors use it. The HTTP `Host:` line is
  checked against the blocked-host list. The FTP `PORT` command of section
  4.1.2 of RFC 959 opens a data-connection pinhole, with an anti-spoofing
  check.
- **The blocked-host check** (`firewall/fw_hosts.c`). A host is blocked when
  it is a whole line of the list.
- **The de-duplicating packet log** (`firewall/fw_log.c`).
- **The conversions of the command-line tool** (`interface/util.c`). These
  convert protocol, action, direction, address/prefix, ACK, port, reason and
  connection state to text and back.
- **The small counter and flag state machines** of `firewall/fw_rules.c`,
  `firewall/fw_stats.c`, `hw2/module/firewall.c`, `hw2/module/hw2secws.c` and
  the stateless hook of `hw1/hw1secws.c`.

Layout: one module per source file. Shared types and constants come from the
headers (`fw_types.dfy`, module `FwTypes`). The C-library and kernel helpers
the decisions depend on are in `libc.dfy` (module `LibC`): `htons`, decimal
printing, the kernel's and glibc's `sscanf` conversions, `inet_ntoa` and
`inet_aton`. `fw_conn_tab.c` is split into three modules:

- `ConnLookup`: the entries and `find_connection`.
- `LineScan`: `str_parse`'s loop.
- `TcpStates`: the state machine of `check_conn_tab`.

`FwConnTab` then holds the table class, the handlers and `check_conn_tab`
itself.

How the model is built:

- The table is a class whose field `cons: seq<Connection>` the methods
  reassign. Each method is proved equal to a specification function on the
  old table (`Find`, `NewConn`, `Parse`, `Check`). The lemmas are about those
  functions.
- The kernel's clock, allocator, `copy_to_user` and host list are parameters
  (`Env`: `now`, `allocOk`, `hostList`).
- Addresses and ports are 32- and 16-bit values in network byte order, and
  `htons` is a byte swap.
- Unsigned counters wrap modulo 2^32, and the `now - TIMEOUT` arithmetic
  wraps modulo 2^64.
- A C string is the sequence of characters before its NUL. A NULL pointer is
  `None`.

Where the code departs from section 3.4 of RFC 793 or from what its own
comments and headers describe, the model follows the code:

- A plain ACK from the initiator to a connection still in
  SYN_SENT/LISTEN is accepted with no state change, not dropped
  (`TcpStates.EarlyAckAccepted`).
- A line that fills the inspection buffer is neither evaluated nor partly
  kept. The full buffer is never emptied, so the connection's later lines are
  not inspected unless a packet starts with a carriage return
  (`LineScan.OverflowStalls`).
- While the clock (`get_seconds`) reads less than 10*TIMEOUT = 250 seconds,
  the unsigned `now - TIMEOUT*10` wraps. Every entry then counts as stale, so
  the next search evicts a connection just added
  (`FwConnTab.BootWindowForgets`).
- The log's file does not compile as published (missing `;` and `{`, `sizof`,
  `.` for `->`). The model follows its evident intent.
- The reasons `CONN_EXIST`, `CONN_NOT_EXIST`, `TCP_NON_COMPLIANT` and
  `BLOCKED_HOST` are used but never given values. They are constructors of
  `FwTypes.Reason`, next to the named reasons and the rule indices.

## Model

| member | source | states |
|---|---|---|
| `FwConnTab.ConnTable.FindConnection` | firewall/fw_conn_tab.c:22-40 | The in-place walk unlinks evictable entries until the first surviving match and leaves the table and result equal to `Find` on the old table. |
| `ConnLookup.FirstLiveMatch` | firewall/fw_conn_tab.c:26-37 | The position found holds a non-evictable entry that matches the tuple in either direction. Every earlier entry is evictable or another connection. `None` means no entry survives and matches. |
| `ConnLookup.FindSpec` | firewall/fw_conn_tab.c:22-40 | After a search, the table is no longer than before. With no match, exactly the non-evictable entries remain and none matches. With a match, it is preceded only by surviving non-matching entries. |
| `ConnLookup.LiveMembers` | firewall/fw_conn_tab.c:26-32 | The entries surviving a full pass are exactly those that are not closed on either side, not stale (10*TIMEOUT), and not a SYN_SENT or FTP_DATA entry idle beyond TIMEOUT. |
| `ConnLookup.FindIsSymmetric` | firewall/fw_conn_tab.c:33-37 | Searching for a tuple and for its swapped tuple gives the same table and the same entry. |
| `ConnLookup.FindTwice` | firewall/fw_conn_tab.c:22-40 | A second search at the same time changes nothing more. |
| `ConnLookup.FindKeepsDistinct` | firewall/fw_conn_tab.c:22-40 | Eviction keeps the table free of two entries for the same connection. |
| `FwConnTab.ConnTable.NewConnection` | firewall/fw_conn_tab.c:247-269 | `new_connection` keeps the table duplicate-free and leaves it equal to `NewConn` of the old table. |
| `FwConnTab.NewConnOnce` | firewall/fw_conn_tab.c:247-269 | The table never holds a duplicate. A connection not yet present is added at the head as SYN_SENT/LISTEN with the given hook, after the search's evictions. From 10*TIMEOUT seconds on, a repeated call adds nothing. |
| `FwConnTab.BootWindowForgets` | firewall/fw_conn_tab.c:24-32 | Below 10*TIMEOUT seconds, the wrapped stale bound evicts every entry not stamped in the future. After `new_connection`, the next search at the same time finds nothing and leaves the table empty. |
| `FwConnTab.InsertKeepsDistinct` | firewall/fw_conn_tab.c:76-95 | Search-then-add never creates two entries for one connection. |
| `FwConnTab.InsertHolds` | firewall/fw_conn_tab.c:76-95 | When the connection is present afterwards, exactly one entry carries it and the next search finds it. A new connection becomes the head. A failed allocation leaves it absent. |
| `FwConnTab.InsertTwice` | firewall/fw_conn_tab.c:76-78 | Adding the same tuple again at the same time returns "present" and leaves the table unchanged. |
| `FwConnTab.ConnTable.ClearCons` | firewall/fw_conn_tab.c:272-277 | Unlinking every entry leaves the table empty. |
| `FwConnTab.PortNumbers` | firewall/fw_conn_tab.c:54-55 | A successful "%hhu,...,%hhu" scan yields six numbers, each below 256. |
| `FwConnTab.ParsePortRoundTrip` | firewall/fw_conn_tab.c:54-64 | The PORT command a client sends for an address and a port decodes back to that address and port in network byte order, whatever follows the last number. |
| `FwConnTab.PinholeRejects` | firewall/fw_conn_tab.c:54-74 | An unparsable PORT line, or one naming an address other than the client's, gives DROP. Nothing is added and only the line buffer is cleared. |
| `FwConnTab.PinholeOpens` | firewall/fw_conn_tab.c:76-95 | The table stays duplicate-free. An accepted PORT command leaves exactly one entry for (decoded ip:port, server:20). When it was absent, it is the new head with FTP_DATA/FTP_DATA. From 10*TIMEOUT seconds on, the next search finds it. |
| `FwConnTab.PinholeRepeat` | firewall/fw_conn_tab.c:76-78 | From 10*TIMEOUT seconds on, re-sending the same PORT line at the same time is accepted and changes nothing, so no duplicate pinhole is added. |
| `FwConnTab.ConnTable.FtpHandler` | firewall/fw_conn_tab.c:48-96 | `ftp_handler` gives the verdict and new table of `Pinhole`. |
| `FwConnTab.ConnTable.HostHandler` | firewall/fw_conn_tab.c:101-107 | `host_handler` consumes the line. It gives DROP exactly when the text after "Host: " is a blocked host. |
| `FwConnTab.Parse` | firewall/fw_conn_tab.c:112-141 | `str_parse` accepts unless the scanner completes a line, in which case the handler decides. The HTTP path never changes which connections the table holds. |
| `FwConnTab.ConnTable.StrParse` | firewall/fw_conn_tab.c:112-141 | `str_parse` on the stored entry gives the verdict and table of `Parse`. |
| `FwConnTab.ParseKeepsDistinct` | firewall/fw_conn_tab.c:112-141 | Inspecting a payload, pinhole included, never duplicates a connection. |
| `FwConnTab.Check` | firewall/fw_conn_tab.c:148-244 | `check_conn_tab` always sets the packet's action to NF_DROP or NF_ACCEPT. |
| `FwConnTab.ConnTable.CheckConnTab` | firewall/fw_conn_tab.c:148-244 | `check_conn_tab` gives the verdict, reason and table of `Check`, and keeps the table duplicate-free. |
| `FwConnTab.UnknownDropped` | firewall/fw_conn_tab.c:150-154 | A packet with no surviving match gives DROP/CONN_NOT_EXIST. No entry is created; the table only loses evicted entries. |
| `FwConnTab.OtherHookPasses` | firewall/fw_conn_tab.c:155-158 | A non-FTP_DATA connection seen at another hook gives ACCEPT/CONN_EXIST, with its entry (states, timestamp, buffer) unchanged. |
| `FwConnTab.StateStep` | firewall/fw_conn_tab.c:159-243 | When the state machine moves the endpoints, only the found entry changes: its states and timestamp. An unexpected SYN gives DROP/TCP_NON_COMPLIANT with the states kept and the timestamp refreshed. |
| `FwConnTab.BlockedHostCloses` | firewall/fw_conn_tab.c:194-199 | A BLOCKED_HOST verdict is a DROP. The connection is then found by no later search, in either direction. |
| `FwConnTab.CheckKeepsDistinct` | firewall/fw_conn_tab.c:148-244 | `check_conn_tab` never makes two entries for one connection. |
| `LineScan.CopyEnd` | firewall/fw_conn_tab.c:124-126 | The copy stops at the end of the data, at '\r' or '\0', or when the buffer has room only for the NUL, so it never reaches CON_BUF_SIZE. |
| `LineScan.CopyLine` | firewall/fw_conn_tab.c:124-127 | The copy loop appends exactly the data up to `CopyEnd`. |
| `LineScan.Scan` | firewall/fw_conn_tab.c:121-140 | The buffer never grows to CON_BUF_SIZE. A line is reported complete only when the packet holds a '\r'. |
| `LineScan.ScanLine` | firewall/fw_conn_tab.c:121-140 | The scan loop computes `Scan`. |
| `LineScan.CompleteHoldsTarget` | firewall/fw_conn_tab.c:121-133 | A completed line is at least as long as the target word, so `&buffer[6]` lies inside it. |
| `LineScan.ScanKeepsCompatible` | firewall/fw_conn_tab.c:121-139 | The buffer always agrees with the target word, and a completed line starts with it. |
| `LineScan.FalseStartDiscards` | firewall/fw_conn_tab.c:135-138 | When a packet does not continue the partial line held, the line is discarded and scanning restarts at the next byte. |
| `LineScan.LineAcrossPackets` | firewall/fw_conn_tab.c:121-133 | A target line split anywhere between two packets is completed by the packet with the '\r'. |
| `LineScan.OverflowStalls` | firewall/fw_conn_tab.c:124-134 | A target line longer than the buffer fills it. After that, no packet that does not start with '\r' completes a line. |
| `TcpStates.SynRule` | firewall/fw_conn_tab.c:164-182 | A SYN is refused exactly when the connection is not FTP_DATA and the packet is not the responder's SYN to SYN_SENT/LISTEN. |
| `TcpStates.HandshakeRule` | firewall/fw_conn_tab.c:164-175 | SYN_SENT/LISTEN with a reverse SYN goes to SYN_SENT/SYN_RECEIVED. SYN_SENT/SYN_RECEIVED with a forward non-SYN goes to ESTABLISHED/ESTABLISHED. |
| `TcpStates.FinRule` | firewall/fw_conn_tab.c:185-193 | On ESTABLISHED (a segment without SYN) or FTP_DATA, a FIN gives CLOSE_WAIT/FIN_WAIT_1 if reverse and FIN_WAIT_1/CLOSE_WAIT if forward. Without FIN the payload is inspected. |
| `TcpStates.ClosingRule` | firewall/fw_conn_tab.c:209-224 | For a reply segment: FIN_WAIT_1 goes to TIME_WAIT/LAST_ACK on FIN and to FIN_WAIT_2 otherwise. FIN_WAIT_2 goes to TIME_WAIT/LAST_ACK on FIN and otherwise stays. LAST_ACK goes to CLOSED, the peer keeping its state. |
| `TcpStates.ClosingIsSymmetric` | firewall/fw_conn_tab.c:209-241 | The forward-direction closing rules mirror the reverse ones with the endpoints exchanged. |
| `TcpStates.NextKeepsReachable` | firewall/fw_conn_tab.c:163-241 | No transition leaves the set of state pairs reachable from SYN_SENT/LISTEN or FTP_DATA/FTP_DATA. |
| `TcpStates.RunKeepsReachable` | firewall/fw_conn_tab.c:163-241 | Any sequence of accepted segments keeps the pair reachable, and CLOSING is never entered. |
| `TcpStates.FullLifetime` | firewall/fw_conn_tab.c:164-241 | SYN-ACK then ACK establishes a new connection. FIN, ACK, FIN and ACK then close it to TIME_WAIT/CLOSED. |
| `TcpStates.EarlyAckAccepted` | firewall/fw_conn_tab.c:164-182 | A forward non-SYN on SYN_SENT/LISTEN is accepted without a state change. |
| `FwHosts.CheckHosts` | firewall/fw_hosts.c:17-37 | The result is true exactly when both strings exist and the host occurs starting the list or after '\n', followed by '\n', '\r' or the end. Only reads its inputs. |
| `FwHosts.StrStr` | firewall/fw_hosts.c:23-34 | `strstr` from a position gives the first occurrence at or after it, or none. |
| `FwHosts.PartialMatchDoesNotHide` | firewall/fw_hosts.c:23-35 | An earlier occurrence inside a longer line does not hide a later whole-line one. |
| `FwHosts.SuffixIsNotBlocked` | firewall/fw_hosts.c:27-28 | A host that is only the tail of a line is not blocked. |
| `FwLog.CompareRows` | firewall/fw_log.c:14-23 | Two rows are similar exactly when they agree on everything but timestamp and count. |
| `FwLog.FirstSimilar` | firewall/fw_log.c:26-33 | The first row similar to the given one, or none if no row is similar. |
| `FwLog.Log.FindRow` | firewall/fw_log.c:26-33 | `find_row`'s walk returns `FirstSimilar`. |
| `FwLog.LoggedDistinct` | firewall/fw_log.c:36-47 | Logging keeps the log free of two similar rows. |
| `FwLog.LoggedFinds` | firewall/fw_log.c:36-47 | After logging, exactly one row is similar to the logged one and it carries its time. Rows of other kinds are kept. |
| `FwLog.LoggedLength` | firewall/fw_log.c:36-47 | A new kind of row adds one row. A known kind leaves the length unchanged. |
| `FwLog.Log.LogRow` | firewall/fw_log.c:36-47 | A similar row gets the new time and count+1 with `log_size` unchanged. Otherwise the row goes in at the head with count 1 and `log_size` grows by one. |
| `FwLog.Log.AddRow` | firewall/fw_log.c:51-70 | Logs a row of the given fields stamped with `now`. A failed allocation gives -ENOMEM and leaves the log unchanged. |
| `FwLog.Log.ClearLog` | firewall/fw_log.c:72-78 | Removes every row and leaves `log_size` unchanged. |
| `FwLog.Log.ReadLog` | firewall/fw_log.c:88-95 | Returns 0 when `log_size` is 0, -EFAULT on a failed copy, and otherwise the text length. |
| `Util.ProtRoundTrip` | interface/util.c:53-82 | A named protocol reads back as itself, and any other number as PROT_OTHER. |
| `Util.ProtNames` | interface/util.c:69-82 | Exactly the five names are accepted, each printed by the protocol it gives. Anything else gives -1. |
| `Util.ActionRoundTrip` | interface/util.c:85-97 | "drop" is printed exactly for 0. Reading back gives NF_DROP for 0 and NF_ACCEPT otherwise. |
| `Util.ActionNames` | interface/util.c:90-97 | Only "accept" and "drop" are accepted, and each prints back as itself. |
| `Util.DirRoundTrip` | interface/util.c:100-122 | in, out and any read back as themselves. Any other value prints "ERR", which gives -1. |
| `Util.DirNames` | interface/util.c:113-122 | Only "in", "out" and "any" are accepted, and each prints back as itself. |
| `Util.AckRoundTrip` | interface/util.c:169-192 | yes, no and any read back as themselves. Any other value prints "ERR", which gives -1. |
| `Util.AckNames` | interface/util.c:169-178 | Only "yes", "no" and "any" are accepted, and each prints back as itself. |
| `Util.SToIpAndMask` | interface/util.c:126-149 | The result is a prefix in 0..32 or -1. On -1, `*ip` keeps its value. |
| `Util.IpAndMaskBadPrefix` | interface/util.c:134-142 | A prefix that "%d" cannot read, or one outside 0..32, gives -1 with `*ip` unchanged. |
| `Util.IpWithoutPrefix` | interface/util.c:143-148 | Without '/', the prefix is 32 exactly when the address parses, and `*ip` becomes that address. |
| `Util.IpAndMaskRoundTrip` | interface/util.c:126-166 | Text printed for an address and a prefix in 0..32 reads back to both. "any" (ip 0 or prefix 0) reads back as 0.0.0.0/0. |
| `Util.IpAndMaskFits` | interface/util.c:152-166 | The printed text fits the 20-byte static buffer. |
| `Util.RuleIndexText` | interface/util.c:214-217 | A rule index prints as its decimal text cut to four characters. |
| `Util.ReasonToSInjective` | interface/util.c:196-218 | Distinct reasons print differently when their rule indices have at most four digits. |
| `Util.SToPort` | interface/util.c:221-230 | The result is -1 or a value below 1024. |
| `Util.PortToS` | interface/util.c:234-245 | The printed port fits the 6-byte static buffer. |
| `Util.PortRoundTrip` | interface/util.c:221-245 | Every port below 1024 (the sentinels included) reads back as itself. Every higher port is refused. |
| `Util.SToPortTakesNegative` | interface/util.c:227-228 | As written, "-v" with 64512 < v < 65536 is accepted as port 65536 - v. |
| `Util.SToPortTakesLarge` | interface/util.c:227-228 | As written, decimal v from 65536 up to ULONG_MAX is accepted as v mod 65536 when that is below 1024. |
| `Util.SToPortCheckedRefusesLarge` | interface/util.c:221-230 | The corrected conversion refuses every decimal number from 1024 up. |
| `Util.SToPortCheckedHolds` | interface/util.c:221-230 | The corrected conversion reads back every port below 1024. It accepts a number only as unsigned decimal text. |
| `Util.SToPortCheckedRefusesNegative` | interface/util.c:221-230 | The corrected conversion refuses every negative number. |
| `Util.StateNames` | interface/util.c:247-273 | Only FTP_DATA prints "ERR", and distinct states print distinct names. |
| `FwRules.ReadResult` | firewall/fw_rules.c:19-33 | An empty list gives 0. A buffer shorter than RULE_SIZE*rule_count gives -ENOMEM. A failed copy gives -EFAULT. Otherwise exactly RULE_SIZE*rule_count, which fits the buffer. |
| `FwRules.RuleBase.ReadRules` | firewall/fw_rules.c:19-33 | Returns `ReadResult`. The whole list is copied on success and nothing otherwise. |
| `FwRules.RuleBase.SetActive` | firewall/fw_rules.c:47-56 | A first character '0' or '1' sets the flag to 0 or 1. Any other input leaves it unchanged. Always returns `count`. |
| `FwRules.RuleBase.InitRules` | firewall/fw_rules.c:64-65 | The rule list starts empty and the flag inactive. |
| `FwStats.Stats.InitStats` | firewall/fw_stats.c:70-74 | The counters start at zero. |
| `FwStats.Stats.ResetCounters` | firewall/fw_stats.c:10-12 | Sets total, blocked and passed to 0. |
| `FwStats.Stats.GetCounter` | firewall/fw_stats.c:14-23 | 't', 'b' and 'p' give total, blocked and passed as an int. Any other id gives -1. |
| `FwStats.Stats.Reset` | firewall/fw_stats.c:43-52 | Clears the counters exactly when "%u" reads a number whose 32-bit store is 0, and otherwise changes nothing. Always returns `count`. |
| `FwStats.ResetRequestedDecimal` | firewall/fw_stats.c:43-49 | Written decimal n resets exactly when n is a multiple of 2^32. |
| `FwStats.ResetNeedsDigit` | firewall/fw_stats.c:45 | Text with no digit after leading white space never resets. |
| `Hw2Firewall.FirewallModule.InitFirewall` | hw2/module/firewall.c:69-70 | `init_firewall` zeroes all counters. |
| `Hw2Firewall.FirewallModule.ResetCounters` | hw2/module/firewall.c:16-18 | Zeroes the counters and re-establishes blocked + passed <= total. |
| `Hw2Firewall.FirewallModule.GetCounter` | hw2/module/firewall.c:20-30 | 't', 'b' and 'p' give the counters. Anything else gives -1. |
| `Hw2Firewall.FirewallModule.Firewall` | hw2/module/firewall.c:33-55 | Total grows by one per call. FORWARD gives DROP and counts blocked. LOCAL_IN/LOCAL_OUT give ACCEPT and count passed. Other hooks give ACCEPT with blocked and passed unchanged. The counters stay the true counts modulo 2^32, with blocked + passed <= seen on the true counts. blocked + passed <= total holds on the 32-bit counters until total wraps. |
| `Hw2Secws.SecwsModule.Firewall` | hw2/module/hw2secws.c:26-48 | The same verdicts and counter updates, with `sysfs_int` unchanged. |
| `Hw2Secws.SecwsModule.Modify` | hw2/module/hw2secws.c:104-110 | Stores the value "%u" reads, only when a number is read; otherwise `sysfs_int` is unchanged. Always returns `count`. |
| `Hw2Secws.Display` | hw2/module/hw2secws.c:99-102 | The shown text is a decimal line ending in '\n'. |
| `Hw2Secws.ModifyInvertsDisplay` | hw2/module/hw2secws.c:99-110 | Writing back the shown text stores the same value. |
| `Hw1Secws.Firewall` | hw1/hw1secws.c:12-31 | The verdict depends only on the hook: DROP exactly for FORWARD, ACCEPT for LOCAL_IN, LOCAL_OUT and every other hook. |

## Left out

- Char-device and sysfs plumbing and the device lifecycle are not modelled. This covers `open_cons`, `read_cons`, `init_conn_tab` and `cleanup_conn_tab`; `show_hosts`, `set_hosts`, `init_hosts` and `cleanup_hosts`; the show handlers of the rules and stats devices; `firewall/util.c`; `hw2/module/sysfs.c`; `init_sysfs`/`cleanup_sysfs`; `firewall/fw.c`; and `hw2/module/core.c`. They are kernel I/O with no decision logic.
- Netfilter hook registration and `sk_buff` handling are not modelled. `firewall/fw_filter.c` is an unfinished stub that always passes. A packet reaches the table as its tuple, SYN/FIN flags and payload.
- The user-space front ends (`interface/main.c`, `hw2/user/user.c`) and `read_int`, `write_char` and `time_to_s` are not modelled. They are file, terminal and `localtime` I/O.
- The rule matcher, Xmas detection, direction classification, SMTP and signature scanning, and tail retention in the inspection buffer are not modelled. No source file implements them (`check_packet` is only declared).
- `get_seconds`, `kmalloc`, `copy_to_user` and the host list are inputs (`now`, `allocOk`, `copyOk`, `hostList`). `printk` output is dropped.
- Concurrency is not modelled: the model assumes every call runs alone. In the kernel, the netfilter hooks run in softirq context, possibly on several CPUs at once, and the device handlers run in process context. The source takes no locks, so its unsynchronised updates of the connection table and the log list can race.
- Out-of-bounds reads are not reproduced. `str_parse` reads `start[datalen]`; it is modelled as "no carriage return there". `check_hosts` reads past the list for an empty host; the search stops at the end of the list.
- The `hooknum` of an FTP data entry is never assigned (uninitialised `kmalloc` memory). It is the arbitrary input `Env.junkHook`.
- The text `read_log` copies is undefined in the source (`str`, `str_len`). It is a parameter of `FwLog.Log.ReadLog`.
- `Util.SToIpAndMask`: `inet_aton` is modelled only for the canonical dotted quad of four decimal parts. Hexadecimal, octal and fewer-part forms are refused in the model, though the C library accepts them.
- `Util.SToIpAndMask`: the source writes a NUL over the '/' (interface/util.c:136), which cuts the caller's string at the address. The model's input text is a value and stays whole; no caller visible here reads the string afterwards.
- `Util.ReasonToSInjective`: stated only for rule indices of at most four digits, because longer indices are cut by the 5-byte buffer and can collide.
- `FwConnTab.PinholeRepeat`: stated for a repeat at the same second only. At a later time the search may evict the pinhole (FTP_DATA idle beyond TIMEOUT) and a new one is then added.
- `FwConnTab.PinholeRepeat`, `FwConnTab.PinholeOpens` and `FwConnTab.NewConnOnce`: their promises that the new entry is found and not added twice hold only once the clock reads 10*TIMEOUT = 250 seconds or more. Below that, the source evicts the new entry at once (`FwConnTab.BootWindowForgets`).
- `FwLog.Log.ReadLog`: the record format of the log text is not modelled. Only the result codes are.

## Findings

| source | as written | input that shows it | evidently intended | confidence | as-written member | corrected member |
|---|---|---|---|---|---|---|
| interface/util.c:227-228 | `sscanf(str, "%hu", &port)` accepts a sign, and `strtoul` negates the value. The 16-bit store then keeps only the low 16 bits, so a negative or a large number can pass the `port < 1024` test. | `"-65535"` and `"65537"` are both accepted as port 1, and `"65536"` as PORT_ANY. | Only "any", ">1023" or an unsigned decimal number below 1024 is a port. | medium, not executed | `Util.SToPortTakesNegative` | `Util.SToPortCheckedRefusesNegative` |
