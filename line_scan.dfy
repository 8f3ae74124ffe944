/** The line scanner of str_parse (firewall/fw_conn_tab.c:112-141): it
    collects, across the packets of a connection, a line of the payload that
    begins with a target word ("Host: " or "PORT "), into a buffer of
    CON_BUF_SIZE bytes, and reports when a carriage return completes it.
    The buffer is modelled as the C string it holds. */
module LineScan {
  import opened LibC
  import opened FwTypes

  const HOST_TARGET := "Host: "
  const PORT_TARGET := "PORT "

  /** The characters at which the copy of a line stops. */
  predicate Terminator(c: char) { c == '\r' || c == '\0' }

  predicate NoTerminator(s: seq<char>)
  {
    forall k :: 0 <= k < |s| ==> !Terminator(s[k])
  }

  /** A word the scanner can look for: nonempty, shorter than the buffer,
      and without the characters that stop a copy. */
  predicate ValidTarget(target: seq<char>)
  {
    0 < |target| < CON_BUF_SIZE - 1 && NoTerminator(target)
  }

  /** The buffer is a beginning of the target, or starts with all of it. */
  predicate Compatible(buffer: seq<char>, target: seq<char>)
  {
    if |buffer| <= |target| then buffer == target[..|buffer|] else buffer[..|target|] == target
  }

  /** The test at data position i with j characters already captured: a
      line longer than the target is being continued, or the data there
      continues the target (as far as the data goes, like strncmp over
      min(datalen - i, targetlen - j) characters). */
  predicate Continues(data: seq<char>, i: nat, target: seq<char>, j: nat)
    requires i <= |data|
  {
    j > |target| ||
    (var n := Min(|data| - i, |target| - j); data[i..i + n] == target[j..j + n])
  }

  /** Where the copy loop that starts at data position i, with j characters
      in the buffer, stops: at the end of the data, at a terminator, or when
      the buffer has room only for the NUL. */
  function CopyEnd(data: seq<char>, i: nat, j: nat): (k: nat)
    requires i <= |data| && j < CON_BUF_SIZE
    ensures i <= k <= |data| && j + (k - i) < CON_BUF_SIZE
    ensures forall m :: i <= m < k ==> !Terminator(data[m])
    ensures k == |data| || Terminator(data[k]) || j + (k - i) == CON_BUF_SIZE - 1
    decreases |data| - i
  {
    if i == |data| || Terminator(data[i]) || j == CON_BUF_SIZE - 1 then i
    else CopyEnd(data, i + 1, j + 1)
  }

  /** The scanner's result: the buffer's new contents, and whether a line is
      complete (the handler is called). */
  datatype Scanned = Scanned(buffer: seq<char>, complete: bool)

  /** The scan from data position i: the first position the test accepts
      gets the rest of its line copied; a position it rejects while a
      partial line is held discards that line. */
  function ScanFrom(buffer: seq<char>, data: seq<char>, target: seq<char>, i: nat): (r: Scanned)
    requires i <= |data| && |buffer| < CON_BUF_SIZE
    ensures |r.buffer| < CON_BUF_SIZE
    ensures NoTerminator(buffer) ==> NoTerminator(r.buffer)
    ensures r.complete ==> '\r' in data
    decreases |data| - i
  {
    if i == |data| then Scanned(buffer, false)
    else if Continues(data, i, target, |buffer|) then
      var k := CopyEnd(data, i, |buffer|);
      assert k < |data| && data[k] == '\r' ==> data[k] in data;
      Scanned(buffer + data[i..k], k < |data| && data[k] == '\r')
    else if |buffer| > 0 then ScanFrom([], data, target, i + 1)
    else ScanFrom(buffer, data, target, i + 1)
  }

  /** str_parse's effect on the buffer for one packet's payload. */
  function Scan(buffer: seq<char>, data: seq<char>, target: seq<char>): (r: Scanned)
    requires |buffer| < CON_BUF_SIZE
    ensures |r.buffer| < CON_BUF_SIZE
    ensures NoTerminator(buffer) ==> NoTerminator(r.buffer)
    ensures r.complete ==> '\r' in data
  {
    ScanFrom(buffer, data, target, 0)
  }

  /** The copy loop of str_parse: appends the data from position i up to
      where the copy stops, and gives that position. */
  method CopyLine(buffer: seq<char>, data: seq<char>, i: nat) returns (buf: seq<char>, k: nat)
    requires i <= |data| && |buffer| < CON_BUF_SIZE
    ensures k == CopyEnd(data, i, |buffer|)
    ensures buf == buffer + data[i..k]
  {
    buf, k := buffer, i;
    var j := |buffer|;
    while k < |data| && data[k] != '\r' && data[k] != '\0' && j < CON_BUF_SIZE - 1
      invariant i <= k <= |data|
      invariant j == |buf| < CON_BUF_SIZE && buf == buffer + data[i..k]
      invariant CopyEnd(data, k, j) == CopyEnd(data, i, |buffer|)
      decreases |data| - k
    {
      buf := buf + [data[k]];
      assert data[i..k + 1] == data[i..k] + [data[k]];
      j, k := j + 1, k + 1;
    }
  }

  /** The loop of str_parse, on a copy of the connection's buffer. */
  method ScanLine(buffer: seq<char>, data: seq<char>, target: seq<char>) returns (r: Scanned)
    requires |buffer| < CON_BUF_SIZE
    ensures r == Scan(buffer, data, target)
  {
    var buf := buffer;
    var i := 0;
    while i < |data|
      invariant 0 <= i <= |data|
      invariant |buf| < CON_BUF_SIZE
      invariant ScanFrom(buf, data, target, i) == Scan(buffer, data, target)
    {
      if Continues(data, i, target, |buf|) {
        var line, k := CopyLine(buf, data, i);
        return Scanned(line, k < |data| && data[k] == '\r');
      } else if |buf| > 0 {
        buf := [];
      }
      i := i + 1;
    }
    return Scanned(buf, false);
  }

  /** A copy over characters that are not terminators runs to the given end
      when the buffer has room for them. */
  lemma {:induction false} CopyEndAt(data: seq<char>, i: nat, j: nat, k: nat)
    requires i <= k <= |data| && j + (k - i) <= CON_BUF_SIZE - 1
    requires forall m :: i <= m < k ==> !Terminator(data[m])
    requires k == |data| || Terminator(data[k])
    ensures CopyEnd(data, i, j) == k
    decreases k - i
  {
    if i < k {
      CopyEndAt(data, i + 1, j + 1, k);
    }
  }

  /** A completed line holds at least the target, so the handlers can look
      past it. */
  lemma {:induction false} CompleteHoldsTarget(buffer: seq<char>, data: seq<char>, target: seq<char>, i: nat)
    requires ValidTarget(target)
    requires i <= |data| && |buffer| < CON_BUF_SIZE
    ensures ScanFrom(buffer, data, target, i).complete ==> |ScanFrom(buffer, data, target, i).buffer| >= |target|
    decreases |data| - i
  {
    if i == |data| {
    } else if Continues(data, i, target, |buffer|) {
      var j := |buffer|;
      var k := CopyEnd(data, i, j);
      if j <= |target| && k < |data| && data[k] == '\r' {
        var n := Min(|data| - i, |target| - j);
        assert forall m :: i <= m < i + n ==> data[m] == target[j + (m - i)];
        assert k >= i + n;
      }
    } else if |buffer| > 0 {
      CompleteHoldsTarget([], data, target, i + 1);
    } else {
      CompleteHoldsTarget(buffer, data, target, i + 1);
    }
  }

  /** A buffer that agrees with the target keeps agreeing with it, and a
      completed line then begins with the target word. */
  lemma {:induction false} ScanKeepsCompatible(buffer: seq<char>, data: seq<char>, target: seq<char>, i: nat)
    requires ValidTarget(target) && Compatible(buffer, target)
    requires i <= |data| && |buffer| < CON_BUF_SIZE
    ensures Compatible(ScanFrom(buffer, data, target, i).buffer, target)
    ensures ScanFrom(buffer, data, target, i).complete ==>
      |ScanFrom(buffer, data, target, i).buffer| >= |target| &&
      ScanFrom(buffer, data, target, i).buffer[..|target|] == target
    decreases |data| - i
  {
    CompleteHoldsTarget(buffer, data, target, i);
    if i == |data| {
    } else if Continues(data, i, target, |buffer|) {
      CopyKeepsCompatible(buffer, data, target, i);
    } else if |buffer| > 0 {
      ScanKeepsCompatible([], data, target, i + 1);
    } else {
      ScanKeepsCompatible(buffer, data, target, i + 1);
    }
  }

  /** The copy of a line the target continues agrees with the target. */
  lemma CopyKeepsCompatible(buffer: seq<char>, data: seq<char>, target: seq<char>, i: nat)
    requires ValidTarget(target) && Compatible(buffer, target)
    requires i < |data| && |buffer| < CON_BUF_SIZE && Continues(data, i, target, |buffer|)
    ensures Compatible(buffer + data[i..CopyEnd(data, i, |buffer|)], target)
  {
    var j := |buffer|;
    var k := CopyEnd(data, i, j);
    var b := buffer + data[i..k];
    if j <= |target| {
      var n := Min(|data| - i, |target| - j);
      assert forall m :: i <= m < i + n ==> data[m] == target[j + (m - i)];
      assert k >= i + n;
      if |b| <= |target| {
        assert b == target[..|b|];
      } else {
        assert b[..|target|] == target;
      }
    } else {
      assert b[..|target|] == buffer[..|target|];
    }
  }

  /** Scanning from position i + 1 of the data is scanning the data without
      its first character from position i. */
  lemma {:induction false} ScanFromShift(buffer: seq<char>, data: seq<char>, target: seq<char>, i: nat)
    requires i + 1 <= |data| && |buffer| < CON_BUF_SIZE
    ensures ScanFrom(buffer, data, target, i + 1) == ScanFrom(buffer, data[1..], target, i)
    decreases |data| - i
  {
    if i + 1 < |data| {
      var j := |buffer|;
      ContinuesShift(data, i, target, j);
      var d := data[1..];
      if Continues(data, i + 1, target, j) {
        CopyShift(buffer, data, target, i);
      } else if |buffer| > 0 {
        ScanFromShift([], data, target, i + 1);
        assert ScanFrom(buffer, data, target, i + 1) == ScanFrom([], data, target, i + 2);
        assert ScanFrom(buffer, d, target, i) == ScanFrom([], d, target, i + 1);
      } else {
        ScanFromShift(buffer, data, target, i + 1);
        assert ScanFrom(buffer, data, target, i + 1) == ScanFrom(buffer, data, target, i + 2);
        assert ScanFrom(buffer, d, target, i) == ScanFrom(buffer, d, target, i + 1);
      }
    }
  }

  /** The shift, where the scan copies the rest of a line. */
  lemma CopyShift(buffer: seq<char>, data: seq<char>, target: seq<char>, i: nat)
    requires i + 1 < |data| && |buffer| < CON_BUF_SIZE
    requires Continues(data, i + 1, target, |buffer|) && Continues(data[1..], i, target, |buffer|)
    ensures ScanFrom(buffer, data, target, i + 1) == ScanFrom(buffer, data[1..], target, i)
  {
    var j := |buffer|;
    var d := data[1..];
    var k := CopyEnd(d, i, j);
    CopyEndShift(data, i, j);
    SliceShift(data, i + 1, k + 1);
    assert ScanFrom(buffer, data, target, i + 1) == Scanned(buffer + data[i + 1..k + 1], k + 1 < |data| && data[k + 1] == '\r');
    assert ScanFrom(buffer, d, target, i) == Scanned(buffer + d[i..k], k < |d| && d[k] == '\r');
  }

  lemma SliceShift(data: seq<char>, a: nat, b: nat)
    requires 1 <= a <= b <= |data|
    ensures data[a..b] == data[1..][a - 1..b - 1]
  {
    assert |data[a..b]| == |data[1..][a - 1..b - 1]|;
    forall m | 0 <= m < b - a
      ensures data[a..b][m] == data[1..][a - 1..b - 1][m]
    {
      assert data[1..][a - 1..b - 1][m] == data[1..][a - 1 + m] == data[a + m];
    }
  }

  lemma ContinuesShift(data: seq<char>, i: nat, target: seq<char>, j: nat)
    requires i + 1 <= |data|
    ensures Continues(data, i + 1, target, j) == Continues(data[1..], i, target, j)
  {
    if j <= |target| {
      var n := Min(|data| - (i + 1), |target| - j);
      SliceShift(data, i + 1, i + 1 + n);
    }
  }

  lemma {:induction false} CopyEndShift(data: seq<char>, i: nat, j: nat)
    requires i + 1 <= |data| && j < CON_BUF_SIZE
    ensures CopyEnd(data, i + 1, j) == CopyEnd(data[1..], i, j) + 1
    decreases |data| - i
  {
    if i + 1 < |data| && !Terminator(data[i + 1]) && j < CON_BUF_SIZE - 1 {
      CopyEndShift(data, i + 1, j + 1);
    }
  }

  /** A false start: when the packet does not continue the partial line
      held, the line is discarded and the packet is scanned afresh from its
      second character. */
  lemma FalseStartDiscards(buffer: seq<char>, data: seq<char>, target: seq<char>)
    requires 0 < |buffer| < CON_BUF_SIZE && 0 < |data|
    requires !Continues(data, 0, target, |buffer|)
    ensures Scan(buffer, data, target) == Scan([], data[1..], target)
  {
    ScanFromShift([], data, target, 0);
  }

  /** A line that begins with the target is found and completed however it
      is split between two packets, the second of which carries the
      carriage return. */
  lemma LineAcrossPackets(target: seq<char>, line: seq<char>, m: nat, post: seq<char>)
    requires ValidTarget(target) && NoTerminator(line)
    requires |target| + |line| < CON_BUF_SIZE - 1
    requires m <= |target| + |line|
    ensures Scan(Scan([], (target + line)[..m], target).buffer,
                 (target + line)[m..] + ['\r'] + post, target)
            == Scanned(target + line, true)
  {
    var whole := target + line;
    assert NoTerminator(whole) by {
      forall x | 0 <= x < |whole| ensures !Terminator(whole[x]) {
        if x < |target| { assert whole[x] == target[x]; } else { assert whole[x] == line[x - |target|]; }
      }
    }
    LineStartPacket(target, whole, m);
    LineEndPacket(target, whole, m, post);
  }

  /** A packet holding only the beginning of a line that starts with the
      target is kept whole in the buffer, waiting for the rest. */
  lemma LineStartPacket(target: seq<char>, whole: seq<char>, m: nat)
    requires ValidTarget(target) && NoTerminator(whole)
    requires |target| <= |whole| < CON_BUF_SIZE - 1 && whole[..|target|] == target
    requires m <= |whole|
    ensures Scan([], whole[..m], target) == Scanned(whole[..m], false)
  {
    var d1 := whole[..m];
    if m > 0 {
      var n := Min(m, |target|);
      assert d1[0..n] == target[0..n];
      assert Continues(d1, 0, target, 0);
      CopyEndAt(d1, 0, 0, m);
      assert d1[0..m] == d1;
    }
  }

  /** A packet that continues a line held in the buffer, up to a carriage
      return, completes it. */
  lemma LineEndPacket(target: seq<char>, whole: seq<char>, m: nat, post: seq<char>)
    requires ValidTarget(target) && NoTerminator(whole)
    requires |target| <= |whole| < CON_BUF_SIZE - 1 && whole[..|target|] == target
    requires m <= |whole|
    ensures Scan(whole[..m], whole[m..] + ['\r'] + post, target) == Scanned(whole, true)
  {
    var d2 := whole[m..] + ['\r'] + post;
    assert d2[|whole| - m] == '\r';
    if m <= |target| {
      var n := Min(|d2|, |target| - m);
      assert d2[0..n] == whole[m..m + n];
      assert whole[m..m + n] == target[m..m + n];
    }
    assert Continues(d2, 0, target, m);
    forall x | 0 <= x < |whole| - m ensures !Terminator(d2[x]) {
      assert d2[x] == whole[m + x];
    }
    CopyEndAt(d2, 0, m, |whole| - m);
    assert d2[0..|whole| - m] == whole[m..];
    assert whole[..m] + whole[m..] == whole;
  }
  /** A copy over characters that are not terminators stops where the
      buffer has room only for the NUL. */
  lemma {:induction false} CopyEndFull(data: seq<char>, i: nat, j: nat, k: nat)
    requires i <= k <= |data| && j + (k - i) == CON_BUF_SIZE - 1
    requires forall m :: i <= m < k ==> !Terminator(data[m])
    ensures CopyEnd(data, i, j) == k
    decreases k - i
  {
    if i < k {
      CopyEndFull(data, i + 1, j + 1, k);
    }
  }

  /** A buffer filled to capacity is never emptied: the test at the first
      position always passes (the line held is longer than the target), the
      copy has no room, and unless the packet starts with a carriage return
      nothing completes. */
  lemma FullBufferStays(buffer: seq<char>, data: seq<char>, target: seq<char>)
    requires ValidTarget(target) && |buffer| == CON_BUF_SIZE - 1
    requires data == [] || data[0] != '\r'
    ensures Scan(buffer, data, target) == Scanned(buffer, false)
  {
    if data != [] {
      assert Continues(data, 0, target, |buffer|);
      assert data[0..0] == [];
    }
  }

  /** A line that starts with the target and runs past the buffer's
      capacity without a terminator fills the buffer; from then on no packet
      that does not start with a carriage return is inspected, so a later
      complete target line on the same connection is never handled. */
  lemma OverflowStalls(target: seq<char>, line: seq<char>, next: seq<char>)
    requires ValidTarget(target) && NoTerminator(line)
    requires |target| + |line| >= CON_BUF_SIZE - 1
    requires next == [] || next[0] != '\r'
    ensures Scan([], target + line, target).buffer == (target + line)[..CON_BUF_SIZE - 1]
    ensures Scan(Scan([], target + line, target).buffer, next, target)
            == Scanned((target + line)[..CON_BUF_SIZE - 1], false)
  {
    var whole := target + line;
    assert NoTerminator(whole) by {
      forall x | 0 <= x < |whole| ensures !Terminator(whole[x]) {
        if x < |target| { assert whole[x] == target[x]; } else { assert whole[x] == line[x - |target|]; }
      }
    }
    var n := Min(|whole|, |target|);
    assert whole[0..n] == target[0..n];
    assert Continues(whole, 0, target, 0);
    CopyEndFull(whole, 0, 0, CON_BUF_SIZE - 1);
    assert whole[0..CON_BUF_SIZE - 1] == whole[..CON_BUF_SIZE - 1];
    FullBufferStays(whole[..CON_BUF_SIZE - 1], next, target);
  }
}
