/** The first, stateless version of the hook function (hw1/hw1secws.c). */
module Hw1Secws {
  import opened LibC
  import opened FwTypes

  /** The verdict for a packet seen at hook `hooknum`: forwarded packets are
      dropped; packets to or from the host, and any other hook, pass. The
      verdict depends on nothing but the hook. */
  function Firewall(hooknum: nat): (verdict: u8)
    ensures verdict == NF_DROP || verdict == NF_ACCEPT
    ensures verdict == NF_DROP <==> hooknum == NF_INET_FORWARD
  {
    if hooknum == NF_INET_FORWARD then NF_DROP
    else if hooknum == NF_INET_LOCAL_OUT || hooknum == NF_INET_LOCAL_IN then NF_ACCEPT
    else NF_ACCEPT
  }
}
