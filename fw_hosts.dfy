/** The blocked-hosts check (firewall/fw_hosts.c): a host is blocked when it
    is a whole line of the newline-separated list the user wrote. C strings
    are modelled as the characters before their terminating NUL; a missing
    string (a NULL pointer) is None. */
module FwHosts {
  import opened LibC

  predicate OccursAt(hay: seq<char>, needle: seq<char>, p: nat)
  {
    p + |needle| <= |hay| && hay[p..p + |needle|] == needle
  }

  /** Position p starts the list or follows a line break. */
  predicate LineStart(hay: seq<char>, p: nat)
    requires p <= |hay|
  {
    p == 0 || hay[p - 1] == '\n'
  }

  /** Position q ends the list or holds a line break ("\n" or "\r"). */
  predicate LineEnd(hay: seq<char>, q: nat)
    requires q <= |hay|
  {
    q == |hay| || hay[q] == '\n' || hay[q] == '\r'
  }

  predicate WholeLineAt(hay: seq<char>, needle: seq<char>, p: nat)
  {
    OccursAt(hay, needle, p) && LineStart(hay, p) && LineEnd(hay, p + |needle|)
  }

  /** The meaning of check_hosts: both strings exist and the host is a whole
      line of the list, wherever in the list that line is. */
  predicate Blocked(hostList: Option<seq<char>>, host: Option<seq<char>>)
  {
    hostList.Some? && host.Some? &&
    exists p :: 0 <= p <= |hostList.value| && WholeLineAt(hostList.value, host.value, p)
  }

  /** strstr from position `from`: the first occurrence of the needle at or
      after it, if any. */
  function StrStr(hay: seq<char>, needle: seq<char>, from: nat): (r: Option<nat>)
    requires from <= |hay|
    ensures r.Some? ==> from <= r.value <= |hay| && OccursAt(hay, needle, r.value)
    ensures r.Some? ==> forall q :: from <= q < r.value ==> !OccursAt(hay, needle, q)
    ensures r.None? ==> forall q :: from <= q <= |hay| ==> !OccursAt(hay, needle, q)
    decreases |hay| - from
  {
    if OccursAt(hay, needle, from) then Some(from)
    else if from == |hay| then None
    else StrStr(hay, needle, from + 1)
  }

  /** check_hosts: tries every occurrence of the host in the list, in order,
      and reports a hit as soon as one is a whole line. The strings are only
      read. */
  method CheckHosts(hostList: Option<seq<char>>, host: Option<seq<char>>) returns (blocked: bool)
    ensures blocked <==> Blocked(hostList, host)
  {
    if hostList.None? || host.None? {
      return false;
    }
    var hay, needle := hostList.value, host.value;
    var tmp := StrStr(hay, needle, 0);
    while tmp.Some?
      invariant tmp.Some? ==> tmp.value <= |hay| && OccursAt(hay, needle, tmp.value)
      invariant forall q :: 0 <= q <= |hay| && (tmp.None? || q < tmp.value) ==> !WholeLineAt(hay, needle, q)
      decreases if tmp.Some? then |hay| + 1 - tmp.value else 0
    {
      var p := tmp.value;
      if LineStart(hay, p) && LineEnd(hay, p + |needle|) {
        assert WholeLineAt(hay, needle, p);
        return true;
      }
      if p == |hay| {
        tmp := None;
      } else {
        tmp := StrStr(hay, needle, p + 1);
      }
    }
    return false;
  }

  /** An occurrence inside a longer line does not hide a later whole line:
      "b.com" is blocked by a list whose first line is "ab.com". */
  lemma PartialMatchDoesNotHide()
    ensures Blocked(Some("ab.com\nb.com\n"), Some("b.com"))
    ensures StrStr("ab.com\nb.com\n", "b.com", 0) == Some(1)
  {
    var hay, needle := "ab.com\nb.com\n", "b.com";
    assert hay[7..12] == needle;
    assert WholeLineAt(hay, needle, 7);
    assert hay[0..5][0] == 'a' != needle[0];
    assert hay[1..6] == needle;
  }

  /** A host that is only part of a line is not blocked: "b.com" against the
      single line "ab.com". */
  lemma SuffixIsNotBlocked()
    ensures !Blocked(Some("ab.com"), Some("b.com"))
  {
    var hay, needle := "ab.com", "b.com";
    forall p | 0 <= p <= |hay| && OccursAt(hay, needle, p)
      ensures !WholeLineAt(hay, needle, p)
    {
      if p == 0 {
        assert hay[0] != needle[0];
      }
    }
  }
}
