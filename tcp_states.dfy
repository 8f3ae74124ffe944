/** The per-endpoint TCP state machine of check_conn_tab
    (firewall/fw_conn_tab.c:163-243): the code's own simplification of the
    states of RFC 793, in which CLOSING is never entered and FTP data
    connections have a state of their own. */
module TcpStates {
  import opened LibC
  import opened FwTypes

  /** What a packet does to a tracked connection once it has been found and
      its hook checked: move the two endpoints to new states (and be
      accepted), be dropped as an unexpected SYN, or be data on an open
      connection that goes to the payload inspectors. */
  datatype Transition =
    | Moved(src: ConnState, dst: ConnState)
    | Unexpected
    | Inspect

  /** The transition for a packet with the given SYN and FIN flags, going
      from the initiator to the responder (`reverse` false) or back, on a
      connection whose initiator is in `src` and responder in `dst`. */
  function Next(src: ConnState, dst: ConnState, reverse: bool, syn: bool, fin: bool): Transition
  {
    if src == SynSent && reverse && dst == Listen && syn then
      Moved(src, SynReceived)                                       // handshake stage 2
    else if src == SynSent && !reverse && dst == SynReceived && !syn then
      Moved(Established, Established)                               // handshake stage 3
    else if src != FtpData && syn then
      Unexpected
    else if src == Established || src == FtpData then
      if !fin then Inspect
      else if reverse then Moved(CloseWait, FinWait1)               // the responder closes
      else Moved(FinWait1, CloseWait)                               // the initiator closes
    else if reverse then
      if src == FinWait1 then (if fin then Moved(TimeWait, LastAck) else Moved(FinWait2, dst))
      else if src == FinWait2 then (if fin then Moved(TimeWait, LastAck) else Moved(src, dst))
      else if src == LastAck then Moved(Closed, dst)
      else Moved(src, dst)
    else
      if dst == FinWait1 then (if fin then Moved(LastAck, TimeWait) else Moved(src, FinWait2))
      else if dst == FinWait2 then (if fin then Moved(LastAck, TimeWait) else Moved(src, dst))
      else if dst == LastAck then Moved(src, Closed)
      else Moved(src, dst)
  }

  /** The state pairs a tracked connection can be in: those of a connection
      as new_connection and the FTP PORT handler create it, and those the
      transitions lead to from there (a blocked HTTP connection is closed on
      both sides). */
  predicate Reachable(src: ConnState, dst: ConnState)
  {
    (src, dst) in {
      (SynSent, Listen), (SynSent, SynReceived), (Established, Established), (FtpData, FtpData),
      (FinWait1, CloseWait), (FinWait2, CloseWait), (TimeWait, LastAck), (TimeWait, Closed),
      (CloseWait, FinWait1), (CloseWait, FinWait2), (LastAck, TimeWait), (Closed, TimeWait),
      (Closed, Closed)}
  }

  /** No transition leaves the reachable pairs. */
  lemma NextKeepsReachable(src: ConnState, dst: ConnState, reverse: bool, syn: bool, fin: bool)
    requires Reachable(src, dst)
    ensures Next(src, dst, reverse, syn, fin).Moved? ==>
      Reachable(Next(src, dst, reverse, syn, fin).src, Next(src, dst, reverse, syn, fin).dst)
  {
  }

  /** The flags of one packet, and its direction. */
  datatype Segment = Segment(reverse: bool, syn: bool, fin: bool)

  /** The states after a sequence of accepted segments, or None once one is
      dropped as unexpected; payload inspection leaves the states alone. */
  function Run(src: ConnState, dst: ConnState, segs: seq<Segment>): Option<(ConnState, ConnState)>
    decreases |segs|
  {
    if segs == [] then Some((src, dst))
    else match Next(src, dst, segs[0].reverse, segs[0].syn, segs[0].fin)
      case Unexpected => None
      case Inspect => Run(src, dst, segs[1..])
      case Moved(s, d) => Run(s, d, segs[1..])
  }

  /** Whatever segments a new connection or an FTP data connection sees, it
      stays within the reachable pairs; in particular neither endpoint is
      ever in CLOSING. */
  lemma {:induction false} RunKeepsReachable(src: ConnState, dst: ConnState, segs: seq<Segment>)
    requires Reachable(src, dst)
    ensures Run(src, dst, segs).Some? ==> Reachable(Run(src, dst, segs).value.0, Run(src, dst, segs).value.1)
    ensures Run(src, dst, segs).Some? ==> Run(src, dst, segs).value.0 != Closing && Run(src, dst, segs).value.1 != Closing
    decreases |segs|
  {
    if segs != [] {
      var g := segs[0];
      NextKeepsReachable(src, dst, g.reverse, g.syn, g.fin);
      match Next(src, dst, g.reverse, g.syn, g.fin)
      case Unexpected =>
      case Inspect => RunKeepsReachable(src, dst, segs[1..]);
      case Moved(s, d) => RunKeepsReachable(s, d, segs[1..]);
    }
  }

  /** The closing phase treats the two endpoints alike: exchanging the roles
      of initiator and responder, and the direction of the packet, exchanges
      the resulting states. */
  lemma ClosingIsSymmetric(src: ConnState, dst: ConnState, reverse: bool, fin: bool)
    requires src !in {SynSent, Established, FtpData} && dst !in {SynSent, Established, FtpData}
    requires Reachable(src, dst)
    ensures Next(src, dst, reverse, false, fin).Moved?
    ensures Next(dst, src, !reverse, false, fin).Moved?
    ensures Next(src, dst, reverse, false, fin).src == Next(dst, src, !reverse, false, fin).dst
    ensures Next(src, dst, reverse, false, fin).dst == Next(dst, src, !reverse, false, fin).src
  {
  }

  /** A connection opened by new_connection, seeing the responder's SYN-ACK
      and the initiator's ACK, is established; both close after a FIN each
      way and the last ACK, the initiator closing first. */
  lemma {:induction false} FullLifetime()
    ensures Run(SynSent, Listen, [Segment(true, true, false), Segment(false, false, false)])
      == Some((Established, Established))
    ensures Run(Established, Established,
                [Segment(false, false, true), Segment(true, false, false),
                 Segment(true, false, true), Segment(false, false, false)])
      == Some((TimeWait, Closed))
  {
    var open := [Segment(true, true, false), Segment(false, false, false)];
    assert open[1..] == [Segment(false, false, false)] && open[1..][1..] == [];
    var close := [Segment(false, false, true), Segment(true, false, false),
                  Segment(true, false, true), Segment(false, false, false)];
    assert close[1..][1..][1..][1..] == [];
  }

  /** Unlike section 3.4 of RFC 793, a connection in SYN_SENT/LISTEN that sees
      a plain ACK from the initiator before any SYN-ACK keeps its states and
      the packet is accepted, not dropped. */
  lemma EarlyAckAccepted()
    ensures Next(SynSent, Listen, false, false, false) == Moved(SynSent, Listen)
  {
  }
  /** A SYN is refused exactly when the connection is not FTP data and the
      packet is not the responder's SYN-ACK to a connection still in
      SYN_SENT/LISTEN. */
  lemma SynRule(src: ConnState, dst: ConnState, reverse: bool, syn: bool, fin: bool)
    ensures Next(src, dst, reverse, syn, fin) == Unexpected <==>
      syn && src != FtpData && !(src == SynSent && reverse && dst == Listen)
  {
  }

  /** The two handshake steps: the responder's SYN moves it to
      SYN_RECEIVED, then the initiator's non-SYN establishes both sides. */
  lemma HandshakeRule(reverse: bool, syn: bool, fin: bool)
    ensures reverse && syn ==> Next(SynSent, Listen, reverse, syn, fin) == Moved(SynSent, SynReceived)
    ensures !reverse && !syn ==> Next(SynSent, SynReceived, reverse, syn, fin) == Moved(Established, Established)
  {
  }

  /** On an open connection (or any FTP data packet) a FIN starts the
      close, the sender's side waiting for its FIN to be answered
      (FIN_WAIT_1) and the other side in CLOSE_WAIT; without FIN the
      payload is inspected and the states stay. */
  lemma FinRule(src: ConnState, dst: ConnState, reverse: bool, syn: bool, fin: bool)
    requires (src == Established && !syn) || src == FtpData
    ensures fin && reverse ==> Next(src, dst, reverse, syn, fin) == Moved(CloseWait, FinWait1)
    ensures fin && !reverse ==> Next(src, dst, reverse, syn, fin) == Moved(FinWait1, CloseWait)
    ensures !fin ==> Next(src, dst, reverse, syn, fin) == Inspect
  {
  }

  /** The closing steps, seen from the responder's packets (the initiator's
      are their mirror, ClosingIsSymmetric): FIN_WAIT_1 becomes TIME_WAIT
      with the peer in LAST_ACK on a FIN and FIN_WAIT_2 otherwise;
      FIN_WAIT_2 waits for that FIN; LAST_ACK closes on any packet. */
  lemma ClosingRule(dst: ConnState, fin: bool)
    ensures Next(FinWait1, dst, true, false, fin) == if fin then Moved(TimeWait, LastAck) else Moved(FinWait2, dst)
    ensures Next(FinWait2, dst, true, false, fin) == if fin then Moved(TimeWait, LastAck) else Moved(FinWait2, dst)
    ensures Next(LastAck, dst, true, false, fin) == Moved(Closed, dst)
  {
  }
}
