/**
 * tribe::Address: a socket address (IPv4 or IPv6, with a port) stored as a
 * size and a sockaddr_storage; its equality, its hash, and the parser that
 * reads it from text of the form "host:port" or "[host6]:port".
 */
module NetworkAddress {
  import opened Ints
  import opened Wrappers
  import opened Text
  import opened InetText

  /** Address families as Linux numbers them. */
  const AF_INET: uint16 := 2
  const AF_INET6: uint16 := 10

  /**
   * An address. Unset is the value-initialised Address: size 0 and an
   * all-zero storage. V4 and V6 hold a sockaddr_in and a sockaddr_in6.
   */
  datatype Address =
    | Unset
    | V4(addr4: Bytes4, port: uint16)
    | V6(addr6: Bytes16, port: uint16)

  /** Address::size: the size of the sockaddr held. */
  function Size(a: Address): nat
  {
    match a
    case Unset => 0
    case V4(_, _) => 16
    case V6(_, _) => 28
  }

  /** A 16-bit value in network byte order (htons), as it lies in memory. */
  function NetworkOrder(v: uint16): seq<uint8>
  {
    [v / 256, v % 256]
  }

  /** A 16-bit value in host byte order on a little-endian host. */
  function HostOrder(v: uint16): seq<uint8>
  {
    [v % 256, v / 256]
  }

  /**
   * The first Size(a) bytes of the storage: sockaddr_in is family, port,
   * address and eight bytes of padding; sockaddr_in6 is family, port, flow
   * information, address and scope identifier. The fields the library does
   * not set are taken to be zero.
   */
  function Sockaddr(a: Address): (r: seq<uint8>)
    ensures |r| == Size(a)
  {
    match a
    case Unset => []
    case V4(b, p) => HostOrder(AF_INET) + NetworkOrder(p) + b + Zeros(8)
    case V6(b, p) => HostOrder(AF_INET6) + NetworkOrder(p) + Zeros(4) + b + Zeros(4)
  }

  /** operator==: equal sizes and the same bytes over that size (memcmp). */
  predicate Equal(a: Address, b: Address)
  {
    Size(a) == Size(b) && Sockaddr(a)[..Size(a)] == Sockaddr(b)[..Size(a)]
  }

  /** operator!=: different sizes or some differing byte. */
  predicate NotEqual(a: Address, b: Address)
  {
    Size(a) != Size(b) || Sockaddr(a)[..Size(a)] != Sockaddr(b)[..Size(a)]
  }

  /** The family, port and address bytes can be read back from the storage. */
  lemma SockaddrDecodes(a: Address)
    ensures a.V4? ==> Sockaddr(a)[0] == 2 && Sockaddr(a)[4..8] == a.addr4
    ensures a.V6? ==> Sockaddr(a)[0] == 10 && Sockaddr(a)[8..24] == a.addr6
    ensures !a.Unset? ==> (Sockaddr(a)[2] as int) * 256 + (Sockaddr(a)[3] as int) == a.port as int
  {
  }

  /**
   * Two addresses compare equal exactly when they are the same address;
   * operator!= is the negation of operator==.
   */
  lemma EqualIsIdentity(a: Address, b: Address)
    ensures Equal(a, b) <==> a == b
    ensures NotEqual(a, b) <==> !Equal(a, b)
  {
    if Equal(a, b) {
      var sa, sb := Sockaddr(a), Sockaddr(b);
      assert sa[..Size(a)] == sa;
      assert sb[..Size(b)] == sb;
      SockaddrDecodes(a);
      SockaddrDecodes(b);
      if a.V4? {
        assert a.addr4 == sa[4..8] == sb[4..8] == b.addr4;
      } else if a.V6? {
        assert a.addr6 == sa[8..24] == sb[8..24] == b.addr6;
      }
    }
  }

  // ---------------------------------------------------------------------
  // hashAddress
  // ---------------------------------------------------------------------

  /** The 32-bit word that four bytes in memory form on a little-endian host. */
  function LittleEndianWord(b: Bytes4): (w: uint64)
    ensures w < 0x1_0000_0000
  {
    (b[0] as int) + 0x100 * (b[1] as int) + 0x1_0000 * (b[2] as int) + 0x100_0000 * (b[3] as int)
  }

  /** sin6_port (the port in network order) read as an integer on a little-endian host. */
  function SwappedPort(p: uint16): (w: uint16)
  {
    256 * (p % 256) + p / 256
  }

  /** One step of the IPv6 hash: h ^= (h << 5) + byte + (h >> 2), in 64-bit arithmetic. */
  function HashStep(h: bv64, value: uint8): bv64
  {
    h ^ ((h << 5) + (value as bv64) + (h >> 2))
  }

  /** HashStep applied to the bytes in order, starting from h. */
  function HashFold(h: bv64, bytes: seq<uint8>): bv64
    decreases |bytes|
  {
    if |bytes| == 0 then h else HashStep(HashFold(h, bytes[..|bytes| - 1]), bytes[|bytes| - 1])
  }

  /**
   * The value hashAddress computes: for IPv4 the hash of the address word
   * alone (the port is not used); for IPv6 the port (in network order, read
   * as a host integer) folded with the sixteen address bytes; otherwise the
   * hash of the size.
   */
  function AddressHash(a: Address): bv64
  {
    match a
    case V4(b, _) => StdHash(LittleEndianWord(b))
    case V6(b, p) => HashFold(StdHash(SwappedPort(p)), b)
    case Unset => StdHash(Size(a))
  }

  /** hashAddress, step by step as the source does it. */
  method HashAddress(a: Address) returns (h: bv64)
    ensures h == AddressHash(a)
  {
    match a {
      case V4(b, _) =>
        h := StdHash(LittleEndianWord(b));
      case V6(b, p) =>
        var seed := StdHash(SwappedPort(p));
        h := seed;
        var i := 0;
        while i < 16
          invariant 0 <= i <= 16
          invariant h == HashFold(seed, b[..i])
        {
          assert b[..i + 1][..i] == b[..i];
          h := HashStep(h, b[i]);
          i := i + 1;
        }
        assert b[..16] == b;
      case Unset =>
        h := StdHash(Size(a));
    }
  }

  /** Addresses that compare equal hash alike. */
  lemma HashRespectsEquality(a: Address, b: Address)
    requires Equal(a, b)
    ensures AddressHash(a) == AddressHash(b)
  {
    EqualIsIdentity(a, b);
  }

  /** The IPv4 hash does not look at the port: addresses differing only by port collide. */
  lemma HashIgnoresIPv4Port(b: Bytes4, p: uint16, q: uint16)
    ensures AddressHash(V4(b, p)) == AddressHash(V4(b, q))
    ensures V4(b, p) != V4(b, q) <== p != q
  {
  }

  // ---------------------------------------------------------------------
  // anyAddress and asAddress
  // ---------------------------------------------------------------------

  /** anyAddress: the IPv4 wildcard address 0.0.0.0 on the given port. */
  function AnyAddress(port: uint16): (a: Address)
    ensures a.V4? && a.port == port
    ensures forall i :: 0 <= i < 4 ==> a.addr4[i] == 0
  {
    V4([0, 0, 0, 0], port)
  }

  /** Wildcard addresses: 0.0.0.0 in a sockaddr_in, equal exactly when their ports are, all hashing to 0. */
  lemma AnyAddressByPort(p: uint16, q: uint16)
    ensures Size(AnyAddress(p)) == 16 && Sockaddr(AnyAddress(p))[4..8] == [0, 0, 0, 0]
    ensures Equal(AnyAddress(p), AnyAddress(q)) <==> p == q
    ensures AddressHash(AnyAddress(p)) == 0
  {
    SockaddrDecodes(AnyAddress(p));
    EqualIsIdentity(AnyAddress(p), AnyAddress(q));
  }

  /** The result of parseIPAddress: an in_addr or an in6_addr. */
  datatype IPAddress = IP4(bytes4: Bytes4) | IP6(bytes16: Bytes16)

  /** asAddress: the socket address of an IP address and a port. */
  function AsAddress(ip: IPAddress, port: uint16): (a: Address)
    ensures ip.IP4? <==> a.V4?
    ensures ip.IP4? ==> a.addr4 == ip.bytes4
    ensures ip.IP6? ==> a.V6? && a.addr6 == ip.bytes16
    ensures !a.Unset? && a.port == port
  {
    match ip
    case IP4(b) => V4(b, port)
    case IP6(b) => V6(b, port)
  }

  /**
   * The socket address asAddress builds has the size of the family's
   * struct, and its bytes give back the IP address and the port: two
   * results compare equal exactly when both inputs were the same.
   */
  lemma AsAddressKeepsParts(ip: IPAddress, port: uint16, ip': IPAddress, port': uint16)
    ensures Size(AsAddress(ip, port)) == if ip.IP4? then 16 else 28
    ensures ip.IP4? ==> Sockaddr(AsAddress(ip, port))[4..8] == ip.bytes4
    ensures ip.IP6? ==> Sockaddr(AsAddress(ip, port))[8..24] == ip.bytes16
    ensures Equal(AsAddress(ip, port), AsAddress(ip', port')) <==> ip == ip' && port == port'
  {
    SockaddrDecodes(AsAddress(ip, port));
    EqualIsIdentity(AsAddress(ip, port), AsAddress(ip', port'));
  }

  // ---------------------------------------------------------------------
  // Parsing
  // ---------------------------------------------------------------------

  /** The BasicError values the parser reports. */
  datatype AddressError = InvalidInput | Overflow

  /** INET_ADDRSTRLEN and INET6_ADDRSTRLEN: the buffer sizes, terminator included. */
  const INET_ADDRSTRLEN: nat := 16
  const INET6_ADDRSTRLEN: nat := 46

  /** What a C function sees of text copied into a zeroed buffer: the part before the first NUL. */
  function CString(s: string): (r: string)
    ensures |r| <= |s| && r == s[..|r|] && '\0' !in r
    ensures |r| < |s| ==> s[|r|] == '\0'
    decreases |s|
  {
    if |s| == 0 || s[0] == '\0' then [] else [s[0]] + CString(s[1..])
  }

  /** tryParseIP4: error 0 for empty text, error 1 for text too long or not an IPv4 address. */
  function TryParseIP4(s: string): (r: Result<Bytes4, int>)
    ensures r.Err? ==> (r.error == 0 <==> s == [])
    ensures |s| >= INET_ADDRSTRLEN ==> r == Err(1)
    ensures r.Ok? <==> 0 < |s| < INET_ADDRSTRLEN && ParseIPv4Text(CString(s)).Some?
    ensures r.Ok? ==> ParseIPv4Text(CString(s)) == Some(r.value)
  {
    if |s| == 0 then Err(0)
    else if |s| >= INET_ADDRSTRLEN then Err(1)
    else match ParseIPv4Text(CString(s))
      case None => Err(1)
      case Some(b) => Ok(b)
  }

  /** tryParseIP6: error 0 for empty text, error 1 for text too long or not an IPv6 address. */
  function TryParseIP6(s: string): (r: Result<Bytes16, int>)
    ensures r.Err? ==> (r.error == 0 <==> s == [])
    ensures |s| >= INET6_ADDRSTRLEN ==> r == Err(1)
    ensures r.Ok? <==> 0 < |s| < INET6_ADDRSTRLEN && ParseIPv6Text(CString(s)).Some?
    ensures r.Ok? ==> ParseIPv6Text(CString(s)) == Some(r.value)
  {
    if |s| == 0 then Err(0)
    else if |s| >= INET6_ADDRSTRLEN then Err(1)
    else match ParseIPv6Text(CString(s))
      case None => Err(1)
      case Some(b) => Ok(b)
  }

  /** parseIPAddress: IPv4 first, then IPv6, else InvalidInput. */
  function ParseIPAddress(s: string): (r: Result<IPAddress, AddressError>)
    ensures r.Err? ==> r.error == InvalidInput
    ensures r.Ok? && r.value.IP4? <==> TryParseIP4(s).Ok?
    ensures r.Ok? && r.value.IP4? ==> r.value.bytes4 == TryParseIP4(s).value
    ensures r.Ok? && r.value.IP6? ==> TryParseIP6(s) == Ok(r.value.bytes16)
    ensures r.Err? <==> TryParseIP4(s).Err? && TryParseIP6(s).Err?
  {
    match TryParseIP4(s)
    case Ok(b) => Ok(IP4(b))
    case Err(_) =>
      match TryParseIP6(s)
      case Ok(b) => Ok(IP6(b))
      case Err(_) => Err(InvalidInput)
  }

  /** ULONG_MAX on an LP64 platform. */
  const ULONG_MAX: nat := 0xFFFF_FFFF_FFFF_FFFF

  /**
   * strtoul(s, nullptr, 10): leading white space is skipped, an optional sign
   * read, then the decimal digits; a value beyond ULONG_MAX gives ULONG_MAX,
   * and a minus sign negates modulo 2^64.
   */
  function StrToUL(s: string): (r: nat)
    ensures r <= ULONG_MAX
  {
    var t := TrimStart(s);
    var signed := |t| > 0 && (t[0] == '+' || t[0] == '-');
    var v := LeadingDecimal(if signed then t[1..] else t);
    if v > ULONG_MAX then ULONG_MAX
    else if signed && t[0] == '-' then (ULONG_MAX + 1 - v) % (ULONG_MAX + 1)
    else v
  }

  /** The separator between host and port: "]:" after a bracketed IPv6 host, ":" otherwise. */
  function Separator(input: string): (d: string)
    ensures |d| > 0
  {
    if StartsWith(input, '[') then "]:" else ":"
  }

  /** The piece of a split that becomes the host text: the bracketed form drops its first character. */
  function HostPiece(input: string, piece: string): string
  {
    if StartsWith(input, '[') then (if |piece| >= 1 then piece[1..] else []) else piece
  }

  /**
   * The host text the split leaves behind: the piece before the last one
   * (earlier pieces are overwritten), or the whole input when there is no
   * separator.
   */
  function HostText(input: string): string
  {
    var pieces := Split(input, Separator(input));
    if |pieces| == 1 then pieces[0] else HostPiece(input, pieces[|pieces| - 2])
  }

  /** The port text: the last piece, or nothing when there is no separator. */
  function PortText(input: string): string
  {
    var pieces := Split(input, Separator(input));
    if |pieces| == 1 then [] else pieces[|pieces| - 1]
  }

  /**
   * What tryParseAddress returns: InvalidInput when there is no port text,
   * then the host's parse error, then Overflow for a port above 65535.
   */
  function AddressFromText(src: string): Result<Address, AddressError>
  {
    var input := Trim(src);
    AddressOfTexts(HostText(input), PortText(input))
  }

  /** The checks tryParseAddress makes once it has the host and port texts. */
  function AddressOfTexts(host: string, port: string): Result<Address, AddressError>
  {
    if port == [] then Err(InvalidInput)
    else
      var ip :- ParseIPAddress(host);
      var value := StrToUL(port);
      if value > UINT16_MAX then Err(Overflow) else Ok(AsAddress(ip, value))
  }

  /** tryParseAddress, with the split callback written as the loop over the pieces it is called with. */
  method TryParseAddress(src: string) returns (r: Result<Address, AddressError>)
    ensures r == AddressFromText(src)
  {
    var input := Trim(src);
    var portValue: string := [];
    var ipString: string := [];
    var bracketed := StartsWith(input, '[');
    var pieces := Split(input, Separator(input));
    var count := |pieces|;
    var i := 0;
    while i < count
      invariant 0 <= i <= count
      invariant count == 1 ==> portValue == [] && ipString == (if i == 1 then pieces[0] else [])
      invariant count > 1 ==> portValue == (if i == count then pieces[count - 1] else [])
      invariant count > 1 && 0 < i < count ==> ipString == HostPiece(input, pieces[i - 1])
      invariant count > 1 && i == count ==> ipString == HostPiece(input, pieces[count - 2])
    {
      var split := pieces[i];
      if count == 1 {
        ipString := split;
      } else if i + 1 == count {
        portValue := split;
      } else if bracketed {
        ipString := if |split| >= 1 then split[1..] else [];
      } else {
        ipString := split;
      }
      i := i + 1;
    }
    assert portValue == PortText(input);
    assert portValue != [] ==> ipString == HostText(input);
    if portValue == [] {
      return Err(InvalidInput);
    }
    var address := ParseIPAddress(ipString);
    if address.Err? {
      return Err(address.error);
    }
    var maybePort := if portValue == [] then 0 else StrToUL(portValue);
    if maybePort > UINT16_MAX {
      return Err(Overflow);
    }
    r := Ok(AsAddress(address.value, maybePort));
  }
}
