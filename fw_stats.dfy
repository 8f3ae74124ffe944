/** The packet counters of the firewall and their sysfs interface
    (firewall/fw_stats.c). The counters are incremented by the packet filter,
    which is not part of this model; here they are reset and read. */
module FwStats {
  import opened LibC

  /** The reset attribute acts when the kernel's "%u" reads a number from the
      written text and the int it is stored in is 0. */
  predicate ResetRequested(buf: seq<char>)
  {
    match KScanUnsigned(buf, U32_RANGE)
    case Some((v, _)) => v == 0
    case None => false
  }

  /** A written decimal number resets the counters exactly when it is a
      multiple of 2^32, since the store keeps 32 bits: "0" resets, and so
      does "4294967296". */
  lemma ResetRequestedDecimal(n: nat, rest: seq<char>)
    requires rest == [] || !IsDigit(rest[0])
    ensures ResetRequested(Decimal(n) + rest) <==> n % U32_RANGE == 0
  {
    DecimalScans(n, rest, U32_RANGE);
  }

  /** Text with no digit after the leading white space (a sign, a word, an
      empty write) never resets. */
  lemma ResetNeedsDigit(buf: seq<char>)
    requires SkipSpaces(buf, true) == [] || !IsDigit(SkipSpaces(buf, true)[0])
    ensures !ResetRequested(buf)
  {
  }

  class Stats {
    var pTotal: u32
    var pBlock: u32
    var pPass: u32

    /** init_stats: the counters are zeroed before the device is registered. */
    constructor InitStats()
      ensures pTotal == 0 && pBlock == 0 && pPass == 0
    {
      pTotal, pBlock, pPass := 0, 0, 0;
    }

    method ResetCounters()
      modifies this
      ensures pTotal == 0 && pBlock == 0 && pPass == 0
    {
      pTotal, pBlock, pPass := 0, 0, 0;
    }

    /** get_counter: the counter named by the first letter of its attribute
        ("total", "blocked", "passed"), as an int; -1 for any other letter. */
    function GetCounter(id: char): (r: int)
      reads this
      ensures id == 't' ==> r == ToInt32(pTotal)
      ensures id == 'b' ==> r == ToInt32(pBlock)
      ensures id == 'p' ==> r == ToInt32(pPass)
      ensures id !in "tbp" ==> r == -1
    {
      match id
      case 't' => ToInt32(pTotal)
      case 'b' => ToInt32(pBlock)
      case 'p' => ToInt32(pPass)
      case _ => -1
    }

    /** The reset handler: clears all three counters when asked to, changes
        nothing otherwise, and always reports the whole write consumed. */
    method Reset(buf: seq<char>, count: nat) returns (r: int)
      modifies this
      ensures r == count
      ensures ResetRequested(buf) ==> pTotal == 0 && pBlock == 0 && pPass == 0
      ensures !ResetRequested(buf) ==>
        pTotal == old(pTotal) && pBlock == old(pBlock) && pPass == old(pPass)
    {
      var scanned := KScanUnsigned(buf, U32_RANGE);
      if scanned.Some? && scanned.value.0 == 0 {
        ResetCounters();
      }
      return count;
    }
  }
}
