/** The hook function of the second version with its packet counters
    (hw2/module/firewall.c): forwarded packets are dropped and counted as
    blocked, packets to or from the host pass and are counted as passed. */
module Hw2Firewall {
  import opened LibC
  import opened FwTypes
  import Hw1Secws

  class FirewallModule {
    // p_total, p_block, p_pass: unsigned int, so they wrap.
    var pTotal: u32
    var pBlock: u32
    var pPass: u32

    // The numbers of packets seen, blocked and passed since the last reset.
    ghost var seen: nat
    ghost var blocked: nat
    ghost var passed: nat

    /** The counters are the true counts modulo 2^32, and no packet is
        counted both as blocked and as passed. */
    ghost predicate Valid()
      reads this
    {
      pTotal == seen % U32_RANGE && pBlock == blocked % U32_RANGE && pPass == passed % U32_RANGE
      && blocked + passed <= seen
    }

    /** init_firewall: the counters start from zero. */
    constructor InitFirewall()
      ensures Valid()
      ensures pTotal == 0 && pBlock == 0 && pPass == 0
    {
      pTotal, pBlock, pPass := 0, 0, 0;
      seen, blocked, passed := 0, 0, 0;
    }

    method ResetCounters()
      modifies this
      ensures Valid()
      ensures pTotal == 0 && pBlock == 0 && pPass == 0
    {
      pTotal, pBlock, pPass := 0, 0, 0;
      seen, blocked, passed := 0, 0, 0;
    }

    /** get_counter: the counter named by the first letter of its attribute,
        returned as an int; -1 for any other letter. */
    function GetCounter(id: char): (r: int)
      reads this
      ensures id == 't' ==> r == ToInt32(pTotal)
      ensures id == 'b' ==> r == ToInt32(pBlock)
      ensures id == 'p' ==> r == ToInt32(pPass)
      ensures id !in "tbp" ==> r == -1
    {
      match id
      case 't' => ToInt32(pTotal)
      case 'b' => ToInt32(pBlock)
      case 'p' => ToInt32(pPass)
      case _ => -1
    }

    /** The hook: every packet is counted; the verdict is the first version's,
        and exactly one of the blocked and passed counters follows it, except
        at hooks the module does not judge, where neither does. */
    method Firewall(hooknum: nat) returns (verdict: u8)
      requires Valid()
      modifies this
      ensures Valid()
      ensures verdict == Hw1Secws.Firewall(hooknum)
      ensures seen == old(seen) + 1 && pTotal == Inc32(old(pTotal))
      ensures hooknum == NF_INET_FORWARD ==>
        blocked == old(blocked) + 1 && pBlock == Inc32(old(pBlock))
        && passed == old(passed) && pPass == old(pPass)
      ensures hooknum == NF_INET_LOCAL_IN || hooknum == NF_INET_LOCAL_OUT ==>
        passed == old(passed) + 1 && pPass == Inc32(old(pPass))
        && blocked == old(blocked) && pBlock == old(pBlock)
      ensures hooknum !in {NF_INET_FORWARD, NF_INET_LOCAL_IN, NF_INET_LOCAL_OUT} ==>
        blocked == old(blocked) && pBlock == old(pBlock)
        && passed == old(passed) && pPass == old(pPass)
      ensures old(pBlock + pPass <= pTotal < U32_RANGE - 1) ==> pBlock + pPass <= pTotal
    {
      Inc32Tracks(seen);
      pTotal := Inc32(pTotal);
      seen := seen + 1;
      if hooknum == NF_INET_FORWARD {
        Inc32Tracks(blocked);
        pBlock := Inc32(pBlock);
        blocked := blocked + 1;
        return NF_DROP;
      } else if hooknum == NF_INET_LOCAL_OUT || hooknum == NF_INET_LOCAL_IN {
        Inc32Tracks(passed);
        pPass := Inc32(pPass);
        passed := passed + 1;
      }
      return NF_ACCEPT;
    }
  }
}
