/**
 * What the socketstats module adds to the shared statistics code: its
 * configuration block name and the host-address selection of
 * get_ip_addresses. Interface enumeration (getifaddrs) and rendering
 * (inet_ntop) are inputs: each interface arrives with its flags and the
 * text inet_ntop gives for its address.
 */
module SocketStats {
  import opened Wrappers
  import opened StatsCommon

  const MyConf := "socketstats"
  /** INET_ADDRSTRLEN and INET6_ADDRSTRLEN: the caller's buffers, terminator included. */
  const InetAddrStrLen := 16
  const Inet6AddrStrLen := 46

  /** The module's globals as they stand before any configuration is read. */
  method NewConfig() returns (c: StatsConfig)
    ensures fresh(c) && c.blockName == MyConf && c.socketPath == None && !c.socketHpath
    ensures c.selectedNicks.Length == 0 && c.numNicks == 0 && c.counter == 0
  {
    c := new StatsConfig(MyConf);
  }

  datatype Family = AfInet | AfInet6 | AfOther

  /** An address and the text inet_ntop renders it as. */
  datatype Address = Address(family: Family, text: string)

  /** One ifaddrs entry: its address (NULL as None) and the IFF_UP / IFF_LOOPBACK flags. */
  datatype Interface = Interface(addr: Option<Address>, up: bool, loopback: bool)

  /** strncmp(s, p, |p|) == 0. */
  predicate HasPrefix(s: string, p: string)
  {
    |p| <= |s| && s[..|p|] == p
  }

  predicate IsDigit(c: char)
  {
    '0' <= c <= '9'
  }

  /** The number of decimal digits `s` starts with. */
  function LeadingDigits(s: string): (n: nat)
    ensures n <= |s|
  {
    if s != [] && IsDigit(s[0]) then 1 + LeadingDigits(s[1..]) else 0
  }

  /** The value of a string of decimal digits. */
  function DigitsValue(ds: string): nat
    requires forall q :: 0 <= q < |ds| ==> IsDigit(ds[q])
  {
    if ds == [] then 0
    else
      assert IsDigit(ds[|ds| - 1]);
      DigitsValue(ds[..|ds| - 1]) * 10 + (ds[|ds| - 1] as int - '0' as int)
  }

  /** atoi on the digits the string starts with (inet_ntop text has no blanks or signs). */
  function Atoi(s: string): nat
  {
    assert forall q :: 0 <= q < LeadingDigits(s) ==> IsDigit(s[q]) by {
      LeadingDigitsAreDigits(s);
    }
    DigitsValue(s[..LeadingDigits(s)])
  }

  lemma {:induction false} LeadingDigitsAreDigits(s: string)
    ensures forall q :: 0 <= q < LeadingDigits(s) ==> IsDigit(s[q])
    decreases |s|
  {
    if s != [] && IsDigit(s[0]) {
      LeadingDigitsAreDigits(s[1..]);
    }
  }

  /** The IPv4 text test: inside 192.168., 10. or 172.16 to 172.31 by string prefix. */
  predicate PrivateIpv4Text(t: string)
  {
    HasPrefix(t, "192.168.") || HasPrefix(t, "10.") ||
    (HasPrefix(t, "172.") && 16 <= Atoi(t[4..]) <= 31)
  }

  /** The IPv6 text test: starting with "fe80" (link-local) or "::1" (loopback). */
  predicate ExcludedIpv6Text(t: string)
  {
    HasPrefix(t, "fe80") || HasPrefix(t, "::1")
  }

  /** An interface whose address get_ip_addresses would keep for `family`. */
  predicate Accepted(ifa: Interface, family: Family)
  {
    ifa.addr.Some? && ifa.up && !ifa.loopback && ifa.addr.value.family == family &&
    (family == AfInet ==> !PrivateIpv4Text(ifa.addr.value.text)) &&
    (family == AfInet6 ==> !ExcludedIpv6Text(ifa.addr.value.text)) &&
    family != AfOther
  }

  /** The text of the first interface accepted for `family`, or "" if there is none. */
  function FirstAccepted(ifs: seq<Interface>, family: Family): string
  {
    if ifs == [] then ""
    else if Accepted(ifs[0], family) then ifs[0].addr.value.text
    else FirstAccepted(ifs[1..], family)
  }

  /** inet_ntop output: non-empty and short enough for the destination buffers. */
  predicate Rendered(ifa: Interface)
  {
    ifa.addr.Some? ==>
      0 < |ifa.addr.value.text| &&
      (ifa.addr.value.family == AfInet ==> |ifa.addr.value.text| < InetAddrStrLen) &&
      (ifa.addr.value.family == AfInet6 ==> |ifa.addr.value.text| < Inet6AddrStrLen)
  }

  /** get_ip_addresses: the first public IPv4 and IPv6 texts ("" where none), in list order. */
  method GetIpAddresses(ifs: seq<Interface>) returns (ipv4: string, ipv6: string)
    requires forall q :: 0 <= q < |ifs| ==> Rendered(ifs[q])
    ensures ipv4 == FirstAccepted(ifs, AfInet) && ipv6 == FirstAccepted(ifs, AfInet6)
    ensures ipv4 != [] ==> |ipv4| < InetAddrStrLen
    ensures ipv6 != [] ==> |ipv6| < Inet6AddrStrLen
  {
    ipv4, ipv6 := "", "";
    var i := 0;
    while i < |ifs|
      invariant i <= |ifs|
      invariant (if ipv4 == [] then FirstAccepted(ifs[i..], AfInet) else ipv4) == FirstAccepted(ifs, AfInet)
      invariant (if ipv6 == [] then FirstAccepted(ifs[i..], AfInet6) else ipv6) == FirstAccepted(ifs, AfInet6)
      invariant ipv4 != [] ==> |ipv4| < InetAddrStrLen
      invariant ipv6 != [] ==> |ipv6| < Inet6AddrStrLen
    {
      var ifa := ifs[i];
      assert ifs[i..][0] == ifa && ifs[i..][1..] == ifs[i + 1..];
      if ifa.addr.Some? && ifa.up && !ifa.loopback {
        var a := ifa.addr.value;
        if a.family == AfInet && ipv4 == [] {
          if !PrivateIpv4Text(a.text) {
            ipv4 := a.text;
          }
        } else if a.family == AfInet6 && ipv6 == [] {
          if !ExcludedIpv6Text(a.text) {
            ipv6 := a.text;
          }
        }
      }
      if ipv4 != [] && ipv6 != [] {
        break;
      }
      i := i + 1;
    }
  }

  // ---------------------------------------------------------------------
  // The IPv4 test against the ranges of RFC 1918, section 3
  // ---------------------------------------------------------------------

  function DigitChar(d: nat): char
    requires d < 10
  {
    ('0' as int + d) as char
  }

  /** The decimal text of `n`, as inet_ntop writes each part of a dotted quad. */
  function Dec(n: nat): (s: string)
    ensures |s| > 0 && forall q :: 0 <= q < |s| ==> IsDigit(s[q])
  {
    if n < 10 then [DigitChar(n)] else Dec(n / 10) + [DigitChar(n % 10)]
  }

  function Quad(a: nat, b: nat, c: nat, d: nat): string
  {
    Dec(a) + "." + Dec(b) + "." + Dec(c) + "." + Dec(d)
  }

  /** 10/8, 172.16/12 or 192.168/16. */
  predicate Rfc1918(a: nat, b: nat)
  {
    a == 10 || (a == 172 && 16 <= b <= 31) || (a == 192 && b == 168)
  }

  lemma {:induction false} DecValue(n: nat)
    ensures DigitsValue(Dec(n)) == n
    decreases n
  {
    if n >= 10 {
      DecValue(n / 10);
      var s := Dec(n);
      assert s[..|s| - 1] == Dec(n / 10);
    }
  }

  lemma {:induction false} LeadingDigitsOfDotted(x: string, r: string)
    requires forall q :: 0 <= q < |x| ==> IsDigit(x[q])
    ensures LeadingDigits(x + "." + r) == |x|
    decreases |x|
  {
    if x != [] {
      LeadingDigitsOfDotted(x[1..], r);
      assert (x + "." + r)[1..] == x[1..] + "." + r;
    }
  }

  /** atoi reads back the number before the next dot. */
  lemma AtoiOfDotted(n: nat, r: string)
    ensures Atoi(Dec(n) + "." + r) == n
  {
    LeadingDigitsOfDotted(Dec(n), r);
    assert (Dec(n) + "." + r)[..|Dec(n)|] == Dec(n);
    DecValue(n);
  }

  /** A dotted text starts with "p." exactly when its first part is p. */
  lemma DottedPrefix(a: nat, p: nat, r: string)
    ensures HasPrefix(Dec(a) + "." + r, Dec(p) + ".") <==> a == p
  {
    var x, y := Dec(a), Dec(p);
    var s := x + "." + r;
    if HasPrefix(s, y + ".") {
      var r2 := s[|y| + 1..];
      assert s == s[..|y| + 1] + r2 == y + "." + r2;
      LeadingDigitsOfDotted(x, r);
      LeadingDigitsOfDotted(y, r2);
      assert x == s[..|y|] == y;
      DecValue(a);
      DecValue(p);
    }
  }

  /** A prefix test for u + v is one for u followed by one for v on the rest. */
  lemma PrefixSplit(s: string, u: string, v: string)
    ensures HasPrefix(s, u + v) <==> HasPrefix(s, u) && HasPrefix(s[|u|..], v)
  {
    if HasPrefix(s, u + v) {
      assert s[..|u|] == (u + v)[..|u|];
      assert s[|u|..][..|v|] == s[..|u + v|][|u|..];
    }
    if HasPrefix(s, u) && HasPrefix(s[|u|..], v) {
      assert s[..|u + v|] == s[..|u|] + s[|u|..][..|v|];
    }
  }

  lemma Private192(a: nat, tail: string, b: nat, rest: string)
    requires tail == Dec(b) + "." + rest
    ensures HasPrefix(Dec(a) + "." + tail, "192.168.") <==> a == 192 && b == 168
  {
    var t := Dec(a) + "." + tail;
    assert "192.168." == "192." + "168.";
    OctetTexts();
    PrefixSplit(t, "192.", "168.");
    DottedPrefix(a, 192, tail);
    DottedPrefix(b, 168, rest);
    if a == 192 {
      assert t[|"192."|..] == tail;
    }
  }

  /**
   * For the text of a dotted quad, the prefix test of get_ip_addresses
   * rejects exactly the private ranges of RFC 1918, section 3.
   */
  lemma PrivateQuadIsRfc1918(a: nat, b: nat, c: nat, d: nat)
    ensures PrivateIpv4Text(Quad(a, b, c, d)) <==> Rfc1918(a, b)
  {
    var rest := Dec(c) + "." + Dec(d);
    var tail := Dec(b) + "." + rest;
    assert Quad(a, b, c, d) == Dec(a) + "." + tail;
    Private10(a, tail);
    Private172(a, tail, b, rest);
    Private192(a, tail, b, rest);
  }

  /** The decimal texts of the octets the prefix test spells out. */
  lemma OctetTexts()
    ensures Dec(10) + "." == "10." && Dec(172) + "." == "172."
    ensures Dec(192) + "." == "192." && Dec(168) + "." == "168."
  {
    assert Dec(1) == "1" && Dec(17) == "17" && Dec(19) == "19" && Dec(16) == "16";
    assert Dec(10) == "10" && Dec(172) == "172" && Dec(192) == "192" && Dec(168) == "168";
  }

  lemma Private10(a: nat, tail: string)
    ensures HasPrefix(Dec(a) + "." + tail, "10.") <==> a == 10
  {
    OctetTexts();
    DottedPrefix(a, 10, tail);
  }

  lemma Private172(a: nat, tail: string, b: nat, rest: string)
    requires tail == Dec(b) + "." + rest
    ensures (HasPrefix(Dec(a) + "." + tail, "172.") && 16 <= Atoi((Dec(a) + "." + tail)[4..]) <= 31) <==>
      a == 172 && 16 <= b <= 31
  {
    var t := Dec(a) + "." + tail;
    OctetTexts();
    DottedPrefix(a, 172, tail);
    if a == 172 {
      assert t[4..] == tail;
      AtoiOfDotted(b, rest);
    }
  }

  /**
   * The IPv6 loopback test is a text-prefix test: every text that starts
   * with "::1" is excluded, loopback or not (::1f, ::1:2, ...).
   */
  lemma LoopbackPrefixExcluded(x: string)
    ensures ExcludedIpv6Text("::1" + x)
  {
    assert ("::1" + x)[..3] == "::1";
  }

  /**
   * The IPv6 link-local test is a text-prefix test too: a text starting
   * "fe" followed by two characters is excluded exactly when those are "80".
   * So of the link-local spellings fe80 to febf (fe80::/10) only fe80 is
   * excluded, and fe81::1, fe90::1 or febf::1 are kept.
   */
  lemma LinkLocalExcludedOnlyFe80(c3: char, c4: char, x: string)
    ensures ExcludedIpv6Text("fe" + [c3, c4] + x) <==> [c3, c4] == "80"
  {
    var t := "fe" + [c3, c4] + x;
    assert t[..4] == "fe" + [c3, c4];
    assert t[..3][0] == 'f' != "::1"[0];
    assert t[..4][2..] == [c3, c4];
    assert "fe80"[2..] == "80";
  }
}
