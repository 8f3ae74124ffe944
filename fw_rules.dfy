/** The rule-base device (firewall/fw_rules.c): the firewall's active flag
    and the read handler that hands the rule list to user space. The rule
    list itself is only ever emptied by the code; matching packets against it
    is not part of this model. */
module FwRules {
  import opened LibC
  import opened FwTypes

  /** rule_t. */
  datatype Rule = Rule(
    name: seq<char>,       // at most 19 characters
    direction: int,        // a direction_t value
    srcIp: u32,            // network byte order
    srcPrefixSize: u8,     // 0..32
    dstIp: u32,
    dstPrefixSize: u8,
    srcPort: u16,          // network byte order; PORT_ANY, PORT_ABOVE_1023 or a port
    dstPort: u16,
    protocol: u8,          // a prot_t value
    ack: int,              // an ack_t value
    action: u8)            // NF_ACCEPT or NF_DROP

  /** The all-zero rule a static array starts with. */
  const ZeroRule := Rule([], 0, 0, 0, 0, 0, 0, 0, 0, 0, 0)

  /** sizeof(rule_t) with the usual alignment: 20 name bytes, then 4-byte
      direction, 4-byte address, 1 byte, 4-byte address, 1 byte, two 2-byte
      ports, 1 byte, 4-byte ack and 1 byte, padded to 52. */
  const RULE_SIZE: nat := 52

  /** What the read handler does with a user buffer of `length` bytes:
      0 for an empty list; -ENOMEM when the whole list does not fit, as no
      partial list is sent; -EFAULT when the copy fails; otherwise the size
      of the whole list. */
  function ReadResult(ruleCount: nat, length: nat, copyOk: bool): (r: int)
    ensures ruleCount == 0 ==> r == 0
    ensures r > 0 <==> ruleCount > 0 && length >= RULE_SIZE * ruleCount && copyOk
    ensures r > 0 ==> r == RULE_SIZE * ruleCount && r <= length
    ensures r < 0 ==> r == -ENOMEM || r == -EFAULT
    ensures r == -ENOMEM <==> ruleCount > 0 && length < RULE_SIZE * ruleCount
  {
    if ruleCount == 0 then 0
    else if length < RULE_SIZE * ruleCount then -ENOMEM
    else if !copyOk then -EFAULT
    else RULE_SIZE * ruleCount
  }

  class RuleBase {
    var fwActive: u8
    var ruleList: seq<Rule>
    var ruleCount: nat

    /** The flag is 0 or 1, and the list has its fixed capacity. */
    ghost predicate Valid()
      reads this
    {
      fwActive <= 1 && |ruleList| == MAX_RULES && ruleCount <= MAX_RULES
    }

    /** The statics start at zero; init_rules empties the list. */
    constructor InitRules()
      ensures Valid()
      ensures fwActive == 0 && ruleCount == 0
    {
      fwActive := 0;
      ruleList := seq(MAX_RULES, _ => ZeroRule);
      ruleCount := 0;
    }

    /** The active attribute's store handler: "%1c" takes the first character
        as it is (no white space is skipped); '0' and '1' set the flag to
        that value, anything else, or an empty write, leaves it. */
    method SetActive(buf: seq<char>, count: nat) returns (r: int)
      requires Valid()
      modifies this`fwActive
      ensures Valid()
      ensures r == count
      ensures |buf| > 0 && buf[0] == '0' ==> fwActive == 0
      ensures |buf| > 0 && buf[0] == '1' ==> fwActive == 1
      ensures !(|buf| > 0 && buf[0] in "01") ==> fwActive == old(fwActive)
    {
      if |buf| > 0 && (buf[0] == '0' || buf[0] == '1') {
        fwActive := (buf[0] as int - '0' as int) as u8;
      }
      return count;
    }

    /** The rules device's read handler: its result, and the rules copied to
        the user (all of the list, or nothing). */
    method ReadRules(length: nat, copyOk: bool) returns (r: int, copied: seq<Rule>)
      requires Valid()
      ensures r == ReadResult(ruleCount, length, copyOk)
      ensures r > 0 ==> copied == ruleList[..ruleCount]
      ensures r <= 0 ==> copied == []
    {
      if ruleCount == 0 {
        return 0, [];
      }
      if length < RULE_SIZE * ruleCount {
        return -ENOMEM, [];
      }
      if !copyOk {
        return -EFAULT, [];
      }
      return RULE_SIZE * ruleCount, ruleList[..ruleCount];
    }
  }
}
