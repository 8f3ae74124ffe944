/** The connection table's entries and its search, find_connection
    (firewall/fw_conn_tab.c:22-40), which also evicts dead entries as it
    goes. The table is the list of entries, head first. */
module ConnLookup {
  import opened LibC
  import opened FwTypes

  /** connection: the endpoints in network byte order (src is the
      initiator), the state each endpoint is assumed to be in, the time of
      the last packet, the hook it is tracked at, and the line being
      collected (the C string in its buffer). */
  datatype Connection = Connection(
    srcIp: u32, srcPort: u16, dstIp: u32, dstPort: u16,
    srcState: ConnState, dstState: ConnState,
    timestamp: u64, hooknum: u32, buffer: LineBuffer)

  /** The C string a connection's buffer holds: it leaves room for the NUL. */
  type LineBuffer = b: seq<char> | |b| < CON_BUF_SIZE

  /** The addresses and ports of a packet or connection. */
  datatype Tuple = Tuple(srcIp: u32, srcPort: u16, dstIp: u32, dstPort: u16)

  function Reversed(t: Tuple): (r: Tuple)
    ensures r.srcIp == t.dstIp && r.srcPort == t.dstPort && r.dstIp == t.srcIp && r.dstPort == t.srcPort
  {
    Tuple(t.dstIp, t.dstPort, t.srcIp, t.srcPort)
  }

  function TupleOf(c: Connection): Tuple
  {
    Tuple(c.srcIp, c.srcPort, c.dstIp, c.dstPort)
  }

  /** A connection carries a tuple in either direction. */
  predicate Matches(c: Connection, t: Tuple)
  {
    TupleOf(c) == t || TupleOf(c) == Reversed(t)
  }

  /** `now - secs` in unsigned long arithmetic: it wraps below zero. */
  function Ago(now: u64, secs: nat): u64
    requires secs <= now + 0x1_0000_0000_0000_0000
  {
    if now >= secs then now - secs else now - secs + 0x1_0000_0000_0000_0000
  }

  /** The entries the search removes: a handshake that has not completed or
      an FTP data connection idle for more than TIMEOUT seconds, an entry
      with a closed endpoint, and any entry idle for more than 10*TIMEOUT. */
  predicate Evictable(c: Connection, now: u64)
  {
    ((c.srcState == SynSent || c.srcState == FtpData) && c.timestamp < Ago(now, TIMEOUT))
    || c.srcState == Closed || c.dstState == Closed
    || c.timestamp < Ago(now, TIMEOUT * 10)
  }

  /** The entries that survive a full pass, in their order. */
  function Live(s: seq<Connection>, now: u64): (r: seq<Connection>)
    ensures |r| <= |s|
  {
    if s == [] then []
    else (if Evictable(s[0], now) then [] else [s[0]]) + Live(s[1..], now)
  }

  /** The position of the first entry that survives and matches. */
  function FirstLiveMatch(s: seq<Connection>, t: Tuple, now: u64): (m: Option<nat>)
    ensures m.Some? ==> m.value < |s| && Matches(s[m.value], t) && !Evictable(s[m.value], now)
    ensures m.Some? ==> forall x :: 0 <= x < m.value ==> Evictable(s[x], now) || !Matches(s[x], t)
    ensures m.None? ==> forall x :: 0 <= x < |s| ==> Evictable(s[x], now) || !Matches(s[x], t)
  {
    if s == [] then None
    else if !Evictable(s[0], now) && Matches(s[0], t) then Some(0)
    else match FirstLiveMatch(s[1..], t, now)
      case None => None
      case Some(m) => Some(m + 1)
  }

  /** The table after a search, and the position of the entry found. */
  datatype Lookup = Lookup(table: seq<Connection>, found: Option<nat>)

  /** find_connection at time `now`: the entries before the one found (all
      of them when none is) lose those that are evictable, keeping their
      order; the entry found and those after it stay as they were. */
  function Find(s: seq<Connection>, t: Tuple, now: u64): (r: Lookup)
  {
    match FirstLiveMatch(s, t, now)
    case None => Lookup(Live(s, now), None)
    case Some(m) => Lookup(Live(s[..m], now) + s[m..], Some(|Live(s[..m], now)|))
  }

  /** No two entries of the table are the same connection. */
  ghost predicate Distinct(s: seq<Connection>)
  {
    forall i, j :: 0 <= i < j < |s| ==> !Matches(s[i], TupleOf(s[j]))
  }

  lemma MatchesSymmetric(c: Connection, d: Connection)
    ensures Matches(c, TupleOf(d)) <==> Matches(d, TupleOf(c))
  {
  }

  lemma {:induction false} LiveAppend(a: seq<Connection>, b: seq<Connection>, now: u64)
    ensures Live(a + b, now) == Live(a, now) + Live(b, now)
  {
    if a == [] {
      assert a + b == b;
    } else {
      assert (a + b)[1..] == a[1..] + b;
      LiveAppend(a[1..], b, now);
      var h := if Evictable(a[0], now) then [] else [a[0]];
      assert Live(a + b, now) == h + Live(a[1..] + b, now);
      assert Live(a, now) == h + Live(a[1..], now);
    }
  }

  lemma {:induction false} LiveOfLive(s: seq<Connection>, now: u64)
    requires forall x :: 0 <= x < |s| ==> !Evictable(s[x], now)
    ensures Live(s, now) == s
  {
    if s != [] {
      LiveOfLive(s[1..], now);
    }
  }

  lemma DistinctLive(s: seq<Connection>, now: u64)
    requires Distinct(s)
    ensures Distinct(Live(s, now))
  {
    assert s + [] == s && Live(s, now) + [] == Live(s, now);
    DistinctLivePrefix(s, [], now);
  }

  /** In a table without duplicates at most one entry matches a tuple. */
  lemma MatchesOnce(s: seq<Connection>, t: Tuple, i: nat, j: nat)
    requires Distinct(s) && i < |s| && j < |s|
    requires Matches(s[i], t) && Matches(s[j], t)
    ensures i == j
  {
    if i < j {
      assert Matches(s[i], TupleOf(s[j]));
    } else if j < i {
      assert Matches(s[j], TupleOf(s[i]));
    }
  }

  /** The search gives the same result for a packet and for its reply. */
  lemma {:induction false} FindIsSymmetric(s: seq<Connection>, t: Tuple, now: u64)
    ensures Find(s, t, now) == Find(s, Reversed(t), now)
  {
    FirstLiveMatchSymmetric(s, t, now);
  }

  lemma {:induction false} FirstLiveMatchSymmetric(s: seq<Connection>, t: Tuple, now: u64)
    ensures FirstLiveMatch(s, t, now) == FirstLiveMatch(s, Reversed(t), now)
  {
    if s != [] {
      FirstLiveMatchSymmetric(s[1..], t, now);
    }
  }

  /** What the search leaves: when nothing is found, every entry that was
      not evictable and nothing else, none of them matching; when an entry
      is found, it is the first surviving match, preceded only by surviving
      entries that do not match, and the table is no longer than before. */
  lemma FindSpec(s: seq<Connection>, t: Tuple, now: u64)
    ensures var r := Find(s, t, now);
      |r.table| <= |s| &&
      (r.found.None? ==>
        (forall c :: c in r.table <==> c in s && !Evictable(c, now)) &&
        (forall c :: c in r.table ==> !Matches(c, t))) &&
      (r.found.Some? ==>
        r.found.value < |r.table| && Matches(r.table[r.found.value], t) && !Evictable(r.table[r.found.value], now) &&
        forall x :: 0 <= x < r.found.value ==> !Evictable(r.table[x], now) && !Matches(r.table[x], t))
  {
    var r := Find(s, t, now);
    LiveMembers(s, now);
    match FirstLiveMatch(s, t, now)
    case None =>
      forall c | c in r.table
        ensures !Matches(c, t)
      {
        var x :| 0 <= x < |s| && s[x] == c;
      }
    case Some(m) =>
      var pre := Live(s[..m], now);
      LiveMembers(s[..m], now);
      assert r.table == pre + s[m..];
      assert r.table[|pre|] == s[m];
      forall x | 0 <= x < |pre|
        ensures !Evictable(r.table[x], now) && !Matches(r.table[x], t)
      {
        assert r.table[x] == pre[x] && pre[x] in pre;
        var y :| 0 <= y < m && s[..m][y] == pre[x];
      }
  }

  lemma {:induction false} LiveMembers(s: seq<Connection>, now: u64)
    ensures forall c :: c in Live(s, now) <==> c in s && !Evictable(c, now)
  {
    if s != [] {
      LiveMembers(s[1..], now);
      assert s == [s[0]] + s[1..];
    }
  }

  /** Searching again at the same time changes nothing more: the first
      search has already removed what it could. */
  lemma FindTwice(s: seq<Connection>, t: Tuple, now: u64)
    ensures Find(Find(s, t, now).table, t, now) == Find(s, t, now)
  {
    FindSpec(s, t, now);
    var r := Find(s, t, now);
    match r.found
    case None => LiveAgain(r.table, t, now);
    case Some(k) => FoundAgain(r.table, t, now, k);
  }

  /** A table whose entries all survive and none matches: the search leaves
      it as it is. */
  lemma LiveAgain(s: seq<Connection>, t: Tuple, now: u64)
    requires forall c :: c in s ==> !Evictable(c, now) && !Matches(c, t)
    ensures Find(s, t, now) == Lookup(s, None)
  {
    forall x | 0 <= x < |s| ensures !Evictable(s[x], now) && !Matches(s[x], t) {
      assert s[x] in s;
    }
    LiveOfLive(s, now);
    assert FirstLiveMatch(s, t, now).None?;
  }

  /** A table whose entries before k all survive and do not match, and whose
      entry k survives and matches: the search finds k and changes nothing. */
  lemma FoundAgain(s: seq<Connection>, t: Tuple, now: u64, k: nat)
    requires k < |s| && Matches(s[k], t) && !Evictable(s[k], now)
    requires forall x :: 0 <= x < k ==> !Evictable(s[x], now) && !Matches(s[x], t)
    ensures Find(s, t, now) == Lookup(s, Some(k))
  {
    FirstLiveMatchAt(s, t, now, k);
    LiveOfLive(s[..k], now);
    assert s[..k] + s[k..] == s;
  }

  /** The first surviving match is at x when every entry before x is
      evictable or another connection; none when that holds of them all. */
  lemma {:induction false} FirstLiveMatchAt(s: seq<Connection>, t: Tuple, now: u64, x: nat)
    requires x <= |s|
    requires forall y :: 0 <= y < x ==> Evictable(s[y], now) || !Matches(s[y], t)
    ensures x < |s| && !Evictable(s[x], now) && Matches(s[x], t) ==> FirstLiveMatch(s, t, now) == Some(x)
    ensures x == |s| ==> FirstLiveMatch(s, t, now).None?
    decreases x
  {
    if x > 0 {
      FirstLiveMatchAt(s[1..], t, now, x - 1);
    }
  }

  /** A search never creates duplicates. */
  lemma FindKeepsDistinct(s: seq<Connection>, t: Tuple, now: u64)
    requires Distinct(s)
    ensures Distinct(Find(s, t, now).table)
  {
    match FirstLiveMatch(s, t, now)
    case None =>
      DistinctLive(s, now);
    case Some(m) =>
      assert s == s[..m] + s[m..];
      DistinctLivePrefix(s[..m], s[m..], now);
  }

  /** Evicting from the front part of a table keeps it free of duplicates. */
  lemma {:induction false} DistinctLivePrefix(a: seq<Connection>, b: seq<Connection>, now: u64)
    requires Distinct(a + b)
    ensures Distinct(Live(a, now) + b)
  {
    if a == [] {
      assert a + b == b;
      assert Live(a, now) + b == b;
    } else {
      var ab := a + b;
      assert ab[1..] == a[1..] + b;
      assert Distinct(ab[1..]) by {
        forall i, j | 0 <= i < j < |ab[1..]|
          ensures !Matches(ab[1..][i], TupleOf(ab[1..][j]))
        {
          assert ab[1..][i] == ab[i + 1] && ab[1..][j] == ab[j + 1];
        }
      }
      DistinctLivePrefix(a[1..], b, now);
      var rest := Live(a[1..], now) + b;
      if Evictable(a[0], now) {
        assert Live(a, now) + b == rest;
      } else {
        assert Live(a, now) + b == [a[0]] + rest;
        LiveMembers(a[1..], now);
        forall c | c in rest
          ensures !Matches(a[0], TupleOf(c))
        {
          assert c in ab[1..];
          var y :| 0 <= y < |ab[1..]| && ab[1..][y] == c;
          assert ab[y + 1] == c && ab[0] == a[0];
        }
        DistinctCons(a[0], rest);
      }
    }
  }

  lemma DistinctCons(x: Connection, r: seq<Connection>)
    requires Distinct(r)
    requires forall c :: c in r ==> !Matches(x, TupleOf(c))
    ensures Distinct([x] + r)
  {
    var xr := [x] + r;
    forall i, j | 0 <= i < j < |xr|
      ensures !Matches(xr[i], TupleOf(xr[j]))
    {
      assert xr[j] == r[j - 1];
      if i > 0 {
        assert xr[i] == r[i - 1];
      }
    }
  }
}
