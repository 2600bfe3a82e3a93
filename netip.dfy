/**
 * IP host addresses as the encoder sees them: a four-byte IPv4 address or a
 * sixteen-byte IPv6 address, and the unmapping of IPv4-mapped IPv6 addresses.
 */
module NetIp {

  type Bytes4 = s: seq<bv8> | |s| == 4 witness [0, 0, 0, 0]
  type Bytes8 = s: seq<bv8> | |s| == 8 witness [0, 0, 0, 0, 0, 0, 0, 0]
  type Bytes16 = s: seq<bv8> | |s| == 16
    witness [0, 0, 0, 0, 0, 0, 0, 0, 0, 0, 0, 0, 0, 0, 0, 0]

  /** An IP address: its family decides its width. */
  datatype IP = V4(v4: Bytes4) | V6(v6: Bytes16)

  /** The first twelve bytes of every IPv4-mapped IPv6 address (::ffff:0:0/96). */
  const MappedPrefix: seq<bv8> := [0, 0, 0, 0, 0, 0, 0, 0, 0, 0, 0xff, 0xff]

  predicate IsV4Mapped(ip: IP) {
    ip.V6? && ip.v6[..12] == MappedPrefix
  }

  /** Turns an IPv4-mapped IPv6 address into the IPv4 address it carries. */
  function Unmap(ip: IP): (r: IP)
    ensures r.V6? ==> r == ip && !IsV4Mapped(ip)
    ensures r.V4? && ip.V4? ==> r == ip
    ensures r.V4? && ip.V6? ==> IsV4Mapped(ip) && ip.v6 == MappedPrefix + r.v4
  {
    if IsV4Mapped(ip) then
      assert ip.v6 == ip.v6[..12] + ip.v6[12..];
      V4(ip.v6[12..])
    else ip
  }

  /** The IPv4-mapped IPv6 form of an IPv4 address. */
  function Map4(b: Bytes4): (r: IP)
    ensures IsV4Mapped(r) && Unmap(r) == V4(b)
  {
    V6(MappedPrefix + b)
  }
}
