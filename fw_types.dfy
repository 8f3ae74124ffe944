/** Types and constants the firewall's modules share: netfilter verdicts and
    hook numbers, the protocol, ACK and direction values of the rule base
    (firewall/fw_rules.h), the reasons recorded in the log (firewall/fw_log.h)
    and the connection states and table constants (firewall/fw_conn_tab.h). */
module FwTypes {
  import opened LibC

  // Netfilter verdicts and IPv4 hook points, as Linux numbers them.
  const NF_DROP: u8 := 0
  const NF_ACCEPT: u8 := 1

  const NF_INET_PRE_ROUTING: nat := 0
  const NF_INET_LOCAL_IN: nat := 1
  const NF_INET_FORWARD: nat := 2
  const NF_INET_LOCAL_OUT: nat := 3
  const NF_INET_POST_ROUTING: nat := 4

  // Error numbers returned (negated) by the device handlers.
  const ENOMEM: int := 12
  const EFAULT: int := 14

  // prot_t
  const PROT_ICMP: u8 := 1
  const PROT_TCP: u8 := 6
  const PROT_UDP: u8 := 17
  const PROT_OTHER: u8 := 255
  const PROT_ANY: u8 := 143

  // ack_t
  const ACK_NO: int := 0x01
  const ACK_YES: int := 0x02
  const ACK_ANY: int := 0x03

  // direction_t
  const DIRECTION_IN: int := 0x01
  const DIRECTION_OUT: int := 0x02
  const DIRECTION_ANY: int := 0x03

  const PORT_ANY: u16 := 0
  const PORT_ABOVE_1023: u16 := 1023
  const MAX_RULES: nat := 50

  /** Why a packet got its verdict: the values of reason_t, the four reasons
      the connection table reports (used by the code but never given values
      in the headers), and the index of the rule that matched. */
  datatype Reason =
    | FwInactive        // REASON_FW_INACTIVE = -1
    | NoMatchingRule    // REASON_NO_MATCHING_RULE = -2
    | XmasPacket        // REASON_XMAS_PACKET = -4
    | IllegalValue      // REASON_ILLEGAL_VALUE = -6
    | ConnTab           // REASON_CONN_TAB = -8
    | ConnExist
    | ConnNotExist
    | TcpNonCompliant
    | BlockedHost
    | RuleIndex(index: nat)

  /** conn_state: the TCP states of section 3.2 of RFC 793 plus FTP_DATA, the
      state of a data connection opened by an FTP PORT command. */
  datatype ConnState =
    | Closed | Listen | SynSent | SynReceived | Established | CloseWait
    | LastAck | FinWait1 | FinWait2 | Closing | TimeWait | FtpData

  /** Capacity of a connection's line buffer, terminating NUL included. */
  const CON_BUF_SIZE: nat := 256

  /** Seconds after which a half-open handshake or an idle FTP data
      connection is dropped; ten times this marks any connection stale. */
  const TIMEOUT: nat := 25
}
