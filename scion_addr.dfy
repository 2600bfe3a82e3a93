/**
 * SCION addresses: an ISD-AS pair and a host. Only the shape of the values is
 * modelled here; their textual notation and its parser are not part of this
 * model (the resolver takes the parser as a parameter).
 */
module ScionAddr {
  import opened NetIp

  /** The isolation domain (16 bits) and the AS number (a 64-bit word holding 48 bits). */
  datatype IA = IA(isd: bv16, asn: bv64)

  /** The kinds of SCION host: none, an IP address, or a service address. */
  datatype Host = HostNone | HostIP(ip: IP) | HostSVC(svc: bv16)

  datatype Addr = Addr(ia: IA, host: Host)
}
