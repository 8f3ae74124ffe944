/** The self-contained second version (hw2/module/hw2secws.c): the same
    counting hook, and a sysfs attribute holding one unsigned number. */
module Hw2Secws {
  import opened LibC
  import opened FwTypes
  import Hw1Secws

  class SecwsModule {
    var pTotal: u32
    var pBlock: u32
    var pPass: u32
    var sysfsInt: u32

    // The numbers of packets seen, blocked and passed since loading.
    ghost var seen: nat
    ghost var blocked: nat
    ghost var passed: nat

    ghost predicate Valid()
      reads this
    {
      pTotal == seen % U32_RANGE && pBlock == blocked % U32_RANGE && pPass == passed % U32_RANGE
      && blocked + passed <= seen
    }

    /** The statics are initialised to zero. */
    constructor ()
      ensures Valid()
      ensures pTotal == 0 && pBlock == 0 && pPass == 0 && sysfsInt == 0
    {
      pTotal, pBlock, pPass, sysfsInt := 0, 0, 0, 0;
      seen, blocked, passed := 0, 0, 0;
    }

    method Firewall(hooknum: nat) returns (verdict: u8)
      requires Valid()
      modifies this
      ensures Valid()
      ensures verdict == Hw1Secws.Firewall(hooknum)
      ensures sysfsInt == old(sysfsInt)
      ensures seen == old(seen) + 1 && pTotal == Inc32(old(pTotal))
      ensures hooknum == NF_INET_FORWARD ==>
        blocked == old(blocked) + 1 && pBlock == Inc32(old(pBlock))
        && passed == old(passed) && pPass == old(pPass)
      ensures hooknum == NF_INET_LOCAL_IN || hooknum == NF_INET_LOCAL_OUT ==>
        passed == old(passed) + 1 && pPass == Inc32(old(pPass))
        && blocked == old(blocked) && pBlock == old(pBlock)
      ensures hooknum !in {NF_INET_FORWARD, NF_INET_LOCAL_IN, NF_INET_LOCAL_OUT} ==>
        blocked == old(blocked) && pBlock == old(pBlock)
        && passed == old(passed) && pPass == old(pPass)
    {
      Inc32Tracks(seen);
      pTotal := Inc32(pTotal);
      seen := seen + 1;
      if hooknum == NF_INET_FORWARD {
        Inc32Tracks(blocked);
        pBlock := Inc32(pBlock);
        blocked := blocked + 1;
        return NF_DROP;
      } else if hooknum == NF_INET_LOCAL_OUT || hooknum == NF_INET_LOCAL_IN {
        Inc32Tracks(passed);
        pPass := Inc32(pPass);
        passed := passed + 1;
      }
      return NF_ACCEPT;
    }

    /** The store handler: the number the kernel's "%u" reads from the
        written text becomes the attribute's value; text that does not start
        (after white space) with a digit leaves it as it was. The whole write
        is always reported consumed. */
    method Modify(buf: seq<char>, count: nat) returns (r: int)
      modifies this`sysfsInt
      ensures r == count
      ensures KScanUnsigned(buf, U32_RANGE).Some? ==> sysfsInt == KScanUnsigned(buf, U32_RANGE).value.0
      ensures KScanUnsigned(buf, U32_RANGE).None? ==> sysfsInt == old(sysfsInt)
    {
      var scanned := KScanUnsigned(buf, U32_RANGE);
      if scanned.Some? {
        sysfsInt := scanned.value.0;
      }
      return count;
    }
  }

  /** The show handler's text for the attribute: "%u\n". */
  function Display(v: u32): (s: seq<char>)
    ensures |s| >= 2 && s[|s| - 1] == '\n'
  {
    Decimal(v) + "\n"
  }

  /** Writing back what the attribute shows stores the same value. */
  lemma ModifyInvertsDisplay(v: u32)
    ensures KScanUnsigned(Display(v), U32_RANGE) == Some((v, "\n"))
  {
    var nl := "\n";
    assert !IsDigit(nl[0]);
    assert v % U32_RANGE == v;
    DecimalScans(v, nl, U32_RANGE);
  }
}
