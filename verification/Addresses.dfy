/** The address codec (address.go) and the meta block of UDP frames built on it (securestream.go). */
module Addresses {
  import opened Octets
  import opened Crypto

  const MAX_DOMAIN_LEN := 253

  type Port = p: int | 0 <= p < 0x1_0000

  /** netip.AddrPort: the zero Addr, an IPv4 Addr, or an IPv6 Addr with its zone. */
  datatype AddrPort = NoAddr(port: Port) | V4(ip4: Bytes4, port: Port) | V6(ip6: Bytes16, zone: Bytes, port: Port)

  /** The three fields of the Go struct; `domain` wins whenever it is non-empty. */
  datatype Address = Address(addr: AddrPort, domain: Bytes, port: Port)

  const NO_ADDRESS := Address(NoAddr(0), [], 0)

  predicate IsDomain(a: Address) { a.domain != [] }

  /** Does the address name a target at all? */
  predicate Present(a: Address) { IsDomain(a) || !a.addr.NoAddr? }

  /** No field is set that the chosen wire form does not carry. */
  predicate Canonical(a: Address) {
    if IsDomain(a) then a.addr == NoAddr(0)
    else a.port == 0 && (a.addr.V6? ==> a.addr.zone == [])
  }

  function EncodedLen(a: Address): nat {
    if IsDomain(a) then 1 + 1 + |a.domain| + 2
    else if a.addr.V6? then 1 + 16 + 2
    else 1 + 4 + 2
  }

  function AppendAddress(dst: Bytes, a: Address): Result<Bytes> {
    if IsDomain(a) then
      if |a.domain| > MAX_DOMAIN_LEN then Err(DomainLength)
      else Ok(dst + [3, |a.domain|] + a.domain + PutUint(a.port, 2))
    else
      match a.addr
      case V4(ip, port) => Ok(dst + [1] + ip + PutUint(port, 2))
      case V6(ip, _, port) => Ok(dst + [2] + ip + PutUint(port, 2))
      case NoAddr(_) => Err(InvalidAddress)
  }

  /** The address at the front of `buf` and the number of bytes it takes. */
  function DecodeAddress(buf: Bytes): Result<(Address, nat)> {
    if |buf| < 1 then Err(AddressTruncated)
    else if buf[0] == 1 then
      if |buf| < 7 then Err(AddressTruncated)
      else Ok((Address(V4(buf[1..5], GetUint(buf[5..7])), [], 0), 7))
    else if buf[0] == 2 then
      if |buf| < 19 then Err(AddressTruncated)
      else Ok((Address(V6(buf[1..17], [], GetUint(buf[17..19])), [], 0), 19))
    else if buf[0] == 3 then
      if |buf| < 2 then Err(AddressTruncated)
      else
        var n := buf[1];
        if n == 0 || n > MAX_DOMAIN_LEN then Err(DomainLength)
        else if |buf| < 2 + n + 2 then Err(AddressTruncated)
        else Ok((Address(NoAddr(0), buf[2..2 + n], GetUint(buf[2 + n..2 + n + 2])), 2 + n + 2))
    else Err(UnknownAddressType)
  }

  /** What an address becomes when the fields its wire form does not carry are dropped. */
  function Carried(a: Address): (c: Address)
    ensures Canonical(a) <==> c == a
  {
    if IsDomain(a) then Address(NoAddr(0), a.domain, a.port)
    else Address(if a.addr.V6? then a.addr.(zone := []) else a.addr, [], 0)
  }

  /** Appending leaves `dst` in front, fails exactly for absent and over-long targets, and takes EncodedLen bytes. */
  lemma AppendShape(dst: Bytes, a: Address)
    ensures AppendAddress(dst, a).Ok? <==> Present(a) && |a.domain| <= 253
    ensures AppendAddress(dst, a).Err? ==> AppendAddress(dst, a) == Err(if Present(a) then DomainLength else InvalidAddress)
    ensures AppendAddress(dst, a).Ok? ==>
              AppendAddress([], a).Ok? && AppendAddress(dst, a).value == dst + AppendAddress([], a).value
    ensures AppendAddress([], a).Ok? ==> |AppendAddress([], a).value| == EncodedLen(a) && 5 <= EncodedLen(a) <= 257
  {
    if AppendAddress(dst, a).Ok? {
      var e := AppendAddress([], a).value;
      assert AppendAddress(dst, a).value == dst + e;
    }
  }

  /** The bytes of an address: a type, for a domain its length, the name or address, the port with its high byte first. */
  lemma AddressBytes(a: Address)
    requires AppendAddress([], a).Ok?
    ensures var e := AppendAddress([], a).value;
            if a.domain != [] then
              var n := |a.domain|;
              |e| == n + 4 && e[0] == 3 && e[1] == n && e[2..2 + n] == a.domain && GetUint(e[2 + n..]) == a.port
            else if a.addr.V4? then |e| == 7 && e[0] == 1 && e[1..5] == a.addr.ip4 && GetUint(e[5..]) == a.addr.port
            else a.addr.V6? && |e| == 19 && e[0] == 2 && e[1..17] == a.addr.ip6 && GetUint(e[17..]) == a.addr.port
  {
    hide PutUint, GetUint;
    if a.domain != [] {
      var head: Bytes := [3, |a.domain|];
      assert [] + head == head;
      Parts(head, a.domain, PutUint(a.port, 2));
    } else if a.addr.V4? {
      assert [] + [1] == [1];
      Parts([1], a.addr.ip4, PutUint(a.addr.port, 2));
    } else {
      assert [] + [2] == [2];
      Parts([2], a.addr.ip6, PutUint(a.addr.port, 2));
    }
  }

  /** Whatever follows, decoding an encoded address gives back what the wire carries and its exact length;
      it gives back the address itself exactly when that was canonical. */
  lemma AddressRoundTrip(a: Address, rest: Bytes)
    requires AppendAddress([], a).Ok?
    ensures DecodeAddress(AppendAddress([], a).value + rest) == Ok((Carried(a), EncodedLen(a)))
    ensures DecodeAddress(AppendAddress([], a).value + rest) == Ok((a, EncodedLen(a))) <==> Canonical(a)
  {
    hide PutUint, GetUint;
    var e := AppendAddress([], a).value;
    if IsDomain(a) {
      var n := |a.domain|;
      Parts([3, n], a.domain, PutUint(a.port, 2));
      assert (e + rest)[2..2 + n] == a.domain && (e + rest)[2 + n..2 + n + 2] == PutUint(a.port, 2);
    } else if a.addr.V4? {
      assert (e + rest)[1..5] == a.addr.ip4 && (e + rest)[5..7] == PutUint(a.addr.port, 2);
    } else {
      assert (e + rest)[1..17] == a.addr.ip6 && (e + rest)[17..19] == PutUint(a.addr.port, 2);
    }
  }

  /** Re-encoding a decoded address gives back exactly the bytes it was decoded from. */
  lemma AddressReencode(buf: Bytes)
    requires DecodeAddress(buf).Ok?
    ensures var (a, n) := DecodeAddress(buf).value;
            && n <= |buf| && n == EncodedLen(a) && Canonical(a)
            && AppendAddress([], a) == Ok(buf[..n])
  {
    hide PutUint, GetUint;
    if buf[0] == 1 {
      ReencodeV4(buf);
    } else if buf[0] == 2 {
      ReencodeV6(buf);
    } else {
      ReencodeDomain(buf, buf[1]);
    }
  }

  lemma ReencodeV4(buf: Bytes)
    requires |buf| >= 7 && buf[0] == 1
    ensures AppendAddress([], DecodeAddress(buf).value.0) == Ok(buf[..7])
  {
    hide PutUint, GetUint;
    PutGetUint(buf[5..7], 2);
    Join([1], buf[1..5], buf[5..7], buf[..7]);
  }

  lemma ReencodeV6(buf: Bytes)
    requires |buf| >= 19 && buf[0] == 2
    ensures AppendAddress([], DecodeAddress(buf).value.0) == Ok(buf[..19])
  {
    hide PutUint, GetUint;
    PutGetUint(buf[17..19], 2);
    Join([2], buf[1..17], buf[17..19], buf[..19]);
  }

  lemma ReencodeDomain(buf: Bytes, n: nat)
    requires |buf| >= 2 + n + 2 && buf[0] == 3 && 0 < n == buf[1] <= MAX_DOMAIN_LEN
    ensures AppendAddress([], DecodeAddress(buf).value.0) == Ok(buf[..2 + n + 2])
  {
    hide PutUint, GetUint;
    var all := buf[..2 + n + 2];
    PutGetUint(buf[2 + n..2 + n + 2], 2);
    assert all[..2] == [3, n];
    Join([3, n], buf[2..2 + n], buf[2 + n..2 + n + 2], all);
  }

  /** A sequence that starts with `front`, cut at two places. */
  lemma Join(front: Bytes, mid: Bytes, end: Bytes, all: Bytes)
    requires |all| == |front| + |mid| + |end| && all[..|front|] == front
    requires all[|front|..|front| + |mid|] == mid && all[|front| + |mid|..] == end
    ensures [] + front + mid + end == all
  {
  }

  // ------------------------------------------------------------------
  // UDP meta: GlobalID(8) || optional Address
  // ------------------------------------------------------------------

  datatype UdpMeta = UdpMeta(gid: Bytes8, addr: Address, hasAddr: bool)

  function BuildUdpMeta(gid: Bytes8, target: Address): Result<Bytes> {
    if Present(target) then
      match AppendAddress(gid, target)
      case Err(e) => Err(e)
      case Ok(out) => if |out| > MAX_META_LEN then Err(MetaTooLarge) else Ok(out)
    else Ok(gid)
  }

  function ParseUdpMeta(meta: Bytes): Result<UdpMeta> {
    if |meta| < 8 then Err(UdpMetaTooShort)
    else if |meta| == 8 then Ok(UdpMeta(meta, NO_ADDRESS, false))
    else
      match DecodeAddress(meta[8..])
      case Err(e) => Err(e)
      case Ok((a, _)) => Ok(UdpMeta(meta[..8], a, true))
  }

  /** The bytes of the meta block: the id, then the address if there is one. */
  lemma UdpMetaBytes(gid: Bytes8, target: Address)
    requires BuildUdpMeta(gid, target).Ok?
    ensures var m := BuildUdpMeta(gid, target).value;
            && |m| >= 8 && m[..8] == gid
            && (if Present(target) then AppendAddress([], target) == Ok(m[8..]) else |m| == 8)
  {
    hide AppendAddress;
    if Present(target) {
      AppendShape(gid, target);
      var e := AppendAddress([], target).value;
      assert (gid + e)[8..] == e && (gid + e)[..8] == gid;
    }
  }

  /** Building fails only for an over-long domain; parsing what was built returns the id and, when there is
      one, the target as carried on the wire. */
  lemma UdpMetaRoundTrip(gid: Bytes8, target: Address)
    ensures BuildUdpMeta(gid, target).Ok? <==> |target.domain| <= MAX_DOMAIN_LEN
    ensures BuildUdpMeta(gid, target).Err? ==> BuildUdpMeta(gid, target) == Err(DomainLength)
    ensures BuildUdpMeta(gid, target).Ok? ==>
              && |BuildUdpMeta(gid, target).value| <= 265
              && ParseUdpMeta(BuildUdpMeta(gid, target).value)
                 == Ok(if Present(target) then UdpMeta(gid, Carried(target), true) else UdpMeta(gid, NO_ADDRESS, false))
  {
    if Present(target) && |target.domain| <= MAX_DOMAIN_LEN {
      AppendShape(gid, target);
      AddressRoundTrip(target, []);
      var e := AppendAddress([], target).value;
      assert (gid + e)[8..] == e + [] && (gid + e)[..8] == gid;
    }
  }

  /** Whatever parses was built by the sender's function, up to bytes after the address, which are ignored. */
  lemma UdpMetaReencode(meta: Bytes)
    requires ParseUdpMeta(meta).Ok?
    ensures var m := ParseUdpMeta(meta).value;
            && Canonical(m.addr) && m.hasAddr == Present(m.addr)
            && BuildUdpMeta(m.gid, m.addr).Ok?
            && BuildUdpMeta(m.gid, m.addr).value <= meta
            && (!m.hasAddr ==> BuildUdpMeta(m.gid, m.addr).value == meta)
  {
    hide DecodeAddress, AppendAddress;
    if |meta| > 8 {
      hide EncodedLen, Canonical;
      var m := ParseUdpMeta(meta).value;
      AddressReencode(meta[8..]);
      AppendShape([], m.addr);
      BuiltFromPrefix(meta, m.addr);
    }
  }

  lemma BuiltFromPrefix(meta: Bytes, a: Address)
    requires |meta| > 8 && EncodedLen(a) <= |meta[8..]| && AppendAddress([], a) == Ok(meta[8..][..EncodedLen(a)])
    ensures Present(a) && BuildUdpMeta(meta[..8], a) == Ok(meta[..8 + EncodedLen(a)])
  {
    hide AppendAddress, EncodedLen;
    AppendShape([], a);
    AppendShape(meta[..8], a);
    assert meta[..8] + meta[8..][..EncodedLen(a)] == meta[..8 + EncodedLen(a)];
  }
}
