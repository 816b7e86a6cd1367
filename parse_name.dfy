/**
 * Virtual-node naming (pkg/utils/parseName.go): the name of virtual node
 * n of server s is fmt.Sprintf("%s:%d", s, n). The decimal part holds no
 * ':', so the last ':' of a name always separates the server from the
 * index, even for servers whose own names contain ':' ("server:1").
 */
module Utils {
  import opened Wrappers

  predicate IsDigit(c: char)
  {
    '0' <= c <= '9'
  }

  predicate AllDigits(s: string)
  {
    forall i :: 0 <= i < |s| ==> IsDigit(s[i])
  }

  function DigitValue(c: char): (d: nat)
    requires IsDigit(c)
    ensures d < 10
  {
    c as int - '0' as int
  }

  function DigitChar(d: nat): (c: char)
    requires d < 10
    ensures IsDigit(c) && DigitValue(c) == d
  {
    ('0' as int + d) as char
  }

  /** The decimal digits of n, most significant first, without leading zeros. */
  function NatDigits(n: nat): (s: string)
    ensures |s| > 0 && AllDigits(s)
    ensures s[0] == '0' ==> n == 0
  {
    if n < 10 then [DigitChar(n)] else NatDigits(n / 10) + [DigitChar(n % 10)]
  }

  /** The number a non-empty string of digits denotes, most significant first. */
  function DigitsValue(s: string): nat
    requires AllDigits(s)
  {
    if s == [] then 0 else DigitsValue(s[..|s| - 1]) * 10 + DigitValue(s[|s| - 1])
  }

  lemma {:induction false} NatDigitsRoundTrip(n: nat)
    ensures DigitsValue(NatDigits(n)) == n
  {
    if n >= 10 {
      var s := NatDigits(n);
      assert s[..|s| - 1] == NatDigits(n / 10);
      NatDigitsRoundTrip(n / 10);
    }
  }

  /** The %d verb: a '-' for a negative number, then the digits of its magnitude. */
  function FormatInt(n: int): (s: string)
    ensures |s| > 0 && ':' !in s
    ensures s[0] == '-' <==> n < 0
  {
    if n < 0 then "-" + NatDigits(-n) else NatDigits(n)
  }

  /** Reads back what FormatInt writes: an optional '-' and at least one digit. */
  function ParseInt(s: string): Option<int>
  {
    if |s| > 0 && s[0] == '-' then
      if |s| > 1 && AllDigits(s[1..]) then Some(-(DigitsValue(s[1..]) as int)) else None
    else if |s| > 0 && AllDigits(s) then Some(DigitsValue(s))
    else None
  }

  lemma {:induction false} FormatIntRoundTrip(n: int)
    ensures ParseInt(FormatInt(n)) == Some(n)
  {
    if n < 0 {
      assert FormatInt(n)[1..] == NatDigits(-n);
      NatDigitsRoundTrip(-n);
    } else {
      NatDigitsRoundTrip(n);
    }
  }

  /** GetVirtualId: server, then ':', then the index in decimal. */
  function GetVirtualId(server: string, virtualNode: int): (id: string)
    ensures |id| == |server| + 1 + |FormatInt(virtualNode)|
    ensures id[..|server|] == server && id[|server|] == ':'
    ensures ':' !in id[|server| + 1..]
  {
    server + ":" + FormatInt(virtualNode)
  }

  /** The position of the last ':' in s, if there is one. */
  function LastColon(s: string): (r: Option<nat>)
    ensures r.None? ==> ':' !in s
    ensures r.Some? ==> r.value < |s| && s[r.value] == ':' && ':' !in s[r.value + 1..]
  {
    if s == [] then None
    else if s[|s| - 1] == ':' then Some(|s| - 1)
    else LastColon(s[..|s| - 1])
  }

  /**
   * The inverse of GetVirtualId: split at the last ':' and read the index.
   * Not part of the source, which never parses a virtual id; it is here
   * to state that GetVirtualId loses no information.
   */
  function SplitVirtualId(id: string): Option<(string, int)>
  {
    match LastColon(id)
    case None => None
    case Some(k) =>
      match ParseInt(id[k + 1..])
      case None => None
      case Some(n) => Some((id[..k], n))
  }

  /** A ':' with no ':' after it is the one LastColon finds. */
  lemma LastColonIs(s: string, k: nat)
    requires k < |s| && s[k] == ':' && ':' !in s[k + 1..]
    ensures LastColon(s) == Some(k)
  {
  }

  lemma {:induction false} SplitGetVirtualId(server: string, virtualNode: int)
    ensures SplitVirtualId(GetVirtualId(server, virtualNode)) == Some((server, virtualNode))
  {
    var id := GetVirtualId(server, virtualNode);
    LastColonIs(id, |server|);
    assert id[|server| + 1..] == FormatInt(virtualNode);
    FormatIntRoundTrip(virtualNode);
  }

  /** Distinct (server, index) pairs never share a virtual id. */
  lemma {:induction false} GetVirtualIdInjective(s1: string, n1: int, s2: string, n2: int)
    ensures GetVirtualId(s1, n1) == GetVirtualId(s2, n2) ==> s1 == s2 && n1 == n2
  {
    SplitGetVirtualId(s1, n1);
    SplitGetVirtualId(s2, n2);
  }
}
