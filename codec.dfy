/**
 * The address encoder: a SCION address (ISD, AS, IP host) becomes a 16-byte
 * IPv6 address under a one-byte prefix.
 *
 *   byte  0      the configured prefix octet
 *   bytes 1..4   the packed ISD-AS field, big-endian
 *   bytes 5..7   local prefix and subnet, reserved, always zero
 *   bytes 8..15  the host: 00 00 ff ff + IPv4, or the low half of an IPv6 address
 *
 * `Encode` specifies the result; `Scion2Ip` builds it in a zeroed buffer the
 * way the handler does and is proved to agree with `Encode`.
 */
module Codec {
  import opened Wrappers
  import opened NetIp
  import opened ScionAddr

  datatype EncodeError = ISDNotEncodable | ASNNotEncodable

  /** The BGP-compatible AS numbers below 2^19: stored as they are, in the low 19 bits. */
  predicate BgpCompatibleASN(asn: bv64) {
    asn < 1 << 19
  }

  /** Public SCION AS numbers 2:0:0 ..= 2:7:ffff, stored by their low 19 bits and a flag. */
  predicate PublicScionASN(asn: bv64) {
    0x2_0000_0000 <= asn <= 0x2_0007_ffff
  }

  predicate Encodable(ia: IA) {
    ia.isd < 1 << 12 && (BgpCompatibleASN(ia.asn) || PublicScionASN(ia.asn))
  }

  /**
   * Packs an ISD-AS pair into 32 bits: the ISD in the top 12 bits, a range
   * flag in bit 19 and the AS number (or its low 19 bits) below it.
   */
  function PackIA(ia: IA): (r: Result<bv32, EncodeError>)
    ensures r.Success? <==> Encodable(ia)
    ensures ia.isd >= 1 << 12 ==> r == Failure(ISDNotEncodable)
    ensures ia.isd < 1 << 12 && !Encodable(ia) ==> r == Failure(ASNNotEncodable)
  {
    if ia.isd >= 1 << 12 then Failure(ISDNotEncodable)
    else if BgpCompatibleASN(ia.asn) then
      Success((ia.isd as bv32 << 20) | ia.asn as bv32)
    else if PublicScionASN(ia.asn) then
      // uint32(asn) & 0x7ffff: truncate to 32 bits, then keep the low 19 bits
      Success((ia.isd as bv32 << 20) | (1 << 19) | (((ia.asn & 0xffff_ffff) as bv32) & 0x7ffff))
    else Failure(ASNNotEncodable)
  }

  /**
   * Reads an ISD-AS pair back out of a packed field. There is no decoder in
   * the handler; this inverse exists to state that the field loses nothing.
   */
  function UnpackIA(field: bv32): (ia: IA)
    ensures ia.isd < 1 << 12
    ensures field & (1 << 19) == 0 ==> BgpCompatibleASN(ia.asn)
    ensures field & (1 << 19) != 0 ==> PublicScionASN(ia.asn)
  {
    var low := (field & 0x7ffff) as bv64;
    IA((field >> 20) as bv16, if field & (1 << 19) != 0 then 0x2_0000_0000 | low else low)
  }

  /** An encodable pair is read back from its field; bit 19 tells which range it came from. */
  lemma UnpackPack(ia: IA)
    requires Encodable(ia)
    ensures UnpackIA(PackIA(ia).value) == ia
    ensures PackIA(ia).value & (1 << 19) != 0 <==> PublicScionASN(ia.asn)
  {
    if BgpCompatibleASN(ia.asn) {
      UnpackPackBgp(ia);
    } else {
      UnpackPackPublic(ia);
    }
  }

  lemma UnpackPackBgp(ia: IA)
    requires ia.isd < 1 << 12 && BgpCompatibleASN(ia.asn)
    ensures UnpackIA(PackIA(ia).value) == ia && PackIA(ia).value & (1 << 19) == 0
  {
    BgpFieldBits(ia.isd, ia.asn);
  }

  lemma UnpackPackPublic(ia: IA)
    requires ia.isd < 1 << 12 && !BgpCompatibleASN(ia.asn) && PublicScionASN(ia.asn)
    ensures UnpackIA(PackIA(ia).value) == ia && PackIA(ia).value & (1 << 19) != 0
  {
    PublicFieldBits(ia.isd, ia.asn);
  }

  lemma BgpFieldBits(isd: bv16, asn: bv64)
    requires isd < 1 << 12 && asn < 1 << 19
    ensures var field := (isd as bv32 << 20) | asn as bv32;
      (field >> 20) as bv16 == isd && field & (1 << 19) == 0 && (field & 0x7ffff) as bv64 == asn
  {
  }

  lemma PublicFieldBits(isd: bv16, asn: bv64)
    requires isd < 1 << 12 && 0x2_0000_0000 <= asn <= 0x2_0007_ffff
    ensures var field := (isd as bv32 << 20) | (1 << 19) | (((asn & 0xffff_ffff) as bv32) & 0x7ffff);
      (field >> 20) as bv16 == isd && field & (1 << 19) != 0
      && 0x2_0000_0000 | (field & 0x7ffff) as bv64 == asn
  {
  }

  /** Every 32-bit field is the packing of the pair read back from it. */
  lemma PackUnpack(field: bv32)
    ensures PackIA(UnpackIA(field)) == Success(field)
  {
    if field & (1 << 19) != 0 {
      PackUnpackPublic(field);
    } else {
      PackUnpackDirect(field);
    }
  }

  lemma PackUnpackDirect(field: bv32)
    requires field & (1 << 19) == 0
    ensures PackIA(UnpackIA(field)) == Success(field)
  {
    var ia := UnpackIA(field);
    assert ia.isd < 1 << 12 && BgpCompatibleASN(ia.asn);
    FieldSplitsDirect(field);
  }

  lemma FieldSplitsDirect(field: bv32)
    requires field & (1 << 19) == 0
    ensures (((field >> 20) as bv16) as bv32 << 20) | ((field & 0x7ffff) as bv64) as bv32 == field
  {
  }

  lemma PackUnpackPublic(field: bv32)
    requires field & (1 << 19) != 0
    ensures PackIA(UnpackIA(field)) == Success(field)
  {
    var ia := UnpackIA(field);
    assert ia.isd < 1 << 12 && !BgpCompatibleASN(ia.asn) && PublicScionASN(ia.asn);
    FieldSplitsPublic(field);
  }

  lemma FieldSplitsPublic(field: bv32)
    requires field & (1 << 19) != 0
    ensures var asn := 0x2_0000_0000 | (field & 0x7ffff) as bv64;
      (((field >> 20) as bv16) as bv32 << 20) | (1 << 19) | (((asn & 0xffff_ffff) as bv32) & 0x7ffff) == field
  {
  }

  /** A 32-bit word as four bytes, most significant first. */
  function PutUint32BE(v: bv32): (b: Bytes4)
    ensures Uint32BE(b) == v
  {
    [(v >> 24) as bv8, ((v >> 16) & 0xff) as bv8, ((v >> 8) & 0xff) as bv8, (v & 0xff) as bv8]
  }

  /** Four bytes, most significant first, as a 32-bit word. */
  function Uint32BE(b: Bytes4): bv32
  {
    (b[0] as bv32 << 24) | (b[1] as bv32 << 16) | (b[2] as bv32 << 8) | b[3] as bv32
  }

  lemma Uint32BERoundTrip(b: Bytes4)
    ensures PutUint32BE(Uint32BE(b)) == b
  {
  }

  /** The marker in bytes 8..11 in front of an IPv4 host. */
  const V4Marker: seq<bv8> := [0, 0, 0xff, 0xff]

  /** Bytes 8..15 for a host that has already been unmapped. */
  function HostSuffix(ip: IP): (s: Bytes8)
    ensures ip.V4? ==> s == V4Marker + ip.v4
    ensures ip.V6? ==> s == ip.v6[8..]
  {
    match ip
    case V4(b) => PutUint32BE(0xffff) + b
    case V6(b) => b[8..16]
  }

  /** Unmapping does not change the suffix: the low half of ::ffff:a.b.c.d is 00 00 ff ff a b c d. */
  lemma SuffixIgnoresUnmap(ip: IP)
    ensures HostSuffix(Unmap(ip)) == HostSuffix(ip)
  {
    if IsV4Mapped(ip) {
      var r := Unmap(ip);
      assert ip.v6[8..] == MappedPrefix[8..] + r.v4;
    }
  }

  /** The 16-byte layout: prefix, packed field, three reserved zero bytes, host suffix. */
  function Layout(prefix: bv8, field: Bytes4, suffix: Bytes8): (r: Bytes16)
    ensures r[0] == prefix
    ensures forall k :: 1 <= k < 5 ==> r[k] == field[k - 1]
    ensures forall k :: 5 <= k < 8 ==> r[k] == 0
    ensures forall k :: 8 <= k < 16 ==> r[k] == suffix[k - 8]
  {
    [prefix] + field + [0, 0, 0] + suffix
  }

  /** The IPv6 address for `a` under `prefix`, or why it cannot be encoded. */
  function Encode(prefix: bv8, a: Addr): (r: Result<Bytes16, EncodeError>)
    requires a.host.HostIP?
    ensures r.Success? <==> Encodable(a.ia)
    ensures a.ia.isd >= 1 << 12 ==> r == Failure(ISDNotEncodable)
    ensures a.ia.isd < 1 << 12 && !Encodable(a.ia) ==> r == Failure(ASNNotEncodable)
  {
    match PackIA(a.ia)
    case Failure(e) => Failure(e)
    case Success(field) => Success(Layout(prefix, PutUint32BE(field), HostSuffix(Unmap(a.host.ip))))
  }

  /** The layout read back slice by slice. */
  lemma LayoutSlices(prefix: bv8, field: Bytes4, suffix: Bytes8)
    ensures var r := Layout(prefix, field, suffix);
      r[1..5] == field && r[5..8] == [0, 0, 0] && r[8..] == suffix
  {
    var r := Layout(prefix, field, suffix);
    assert r[1..5] == field;
    assert r[8..] == suffix;
  }

  /**
   * What a successful encoding holds: the prefix in byte 0, a field in bytes
   * 1..4 that reads back as the ISD-AS pair, zeros in bytes 5..7, and the
   * host suffix in bytes 8..15 (00 00 ff ff and the IPv4 address, or the low
   * half of the IPv6 address), whether or not the host was IPv4-mapped.
   */
  lemma EncodeLayout(prefix: bv8, a: Addr)
    requires a.host.HostIP? && Encodable(a.ia)
    ensures var r := Encode(prefix, a).value;
      && r[0] == prefix
      && UnpackIA(Uint32BE(r[1..5])) == a.ia
      && r[5..8] == [0, 0, 0]
      && r[8..] == HostSuffix(a.host.ip)
  {
    var field := PackIA(a.ia).value;
    LayoutSlices(prefix, PutUint32BE(field), HostSuffix(Unmap(a.host.ip)));
    UnpackPack(a.ia);
    SuffixIgnoresUnmap(a.host.ip);
  }

  /**
   * Field and prefix are recovered from a successful encoding; the host only
   * up to its suffix, since the high half of an IPv6 host is not kept.
   */
  lemma EncodeInjectiveUpToSuffix(p: bv8, q: bv8, a: Addr, b: Addr)
    requires a.host.HostIP? && b.host.HostIP?
    requires Encode(p, a).Success? && Encode(p, a) == Encode(q, b)
    ensures p == q && a.ia == b.ia
    ensures HostSuffix(Unmap(a.host.ip)) == HostSuffix(Unmap(b.host.ip))
  {
    var r := Encode(p, a).value;
    EncodeLayout(p, a);
    EncodeLayout(q, b);
  }

  /** Two IPv6 hosts that differ only in their high half encode alike. */
  lemma HighHalfDiscarded(prefix: bv8, ia: IA, x: Bytes16, y: Bytes16)
    requires x[8..] == y[8..]
    ensures Encode(prefix, Addr(ia, HostIP(V6(x)))) == Encode(prefix, Addr(ia, HostIP(V6(y))))
  {
    SuffixIgnoresUnmap(V6(x));
    SuffixIgnoresUnmap(V6(y));
  }

  /** An IPv4-mapped IPv6 host encodes like the IPv4 host it carries. */
  lemma MappedEncodesAsV4(prefix: bv8, ia: IA, b: Bytes4)
    ensures Encode(prefix, Addr(ia, HostIP(Map4(b)))) == Encode(prefix, Addr(ia, HostIP(V4(b))))
  {
  }

  /** Writes `v` big-endian into b[off..off + 4]. */
  method PutUint32(b: array<bv8>, off: nat, v: bv32)
    requires off + 4 <= b.Length
    modifies b
    ensures forall k :: 0 <= k < b.Length ==>
      b[k] == if off <= k < off + 4 then PutUint32BE(v)[k - off] else old(b[k])
  {
    b[off] := (v >> 24) as bv8;
    b[off + 1] := ((v >> 16) & 0xff) as bv8;
    b[off + 2] := ((v >> 8) & 0xff) as bv8;
    b[off + 3] := (v & 0xff) as bv8;
  }

  /** Copies `src` into dst[off..off + |src|], element by element. */
  method Copy(dst: array<bv8>, off: nat, src: seq<bv8>)
    requires off + |src| <= dst.Length
    modifies dst
    ensures forall k :: 0 <= k < dst.Length ==>
      dst[k] == if off <= k < off + |src| then src[k - off] else old(dst[k])
  {
    var i := 0;
    while i < |src|
      invariant 0 <= i <= |src|
      invariant forall k :: 0 <= k < dst.Length ==>
        dst[k] == if off <= k < off + i then src[k - off] else old(dst[k])
    {
      dst[off + i] := src[i];
      i := i + 1;
    }
  }

  /**
   * Writes bytes 5..15 for an unmapped host: the reserved bytes (written, as
   * zeros, for IPv6 hosts only) and the host suffix.
   */
  method PutHost(buf: array<bv8>, ip: IP)
    requires buf.Length == 16
    modifies buf
    ensures forall k :: 0 <= k < 16 ==>
      buf[k] == if k < 5 || (k < 8 && ip.V4?) then old(buf[k])
                else if k < 8 then 0
                else HostSuffix(ip)[k - 8]
  {
    if ip.V6? {
      Copy(buf, 5, [0, 0, 0]);
    }
    if ip.V4? {
      PutUint32(buf, 8, 0xffff);
      Copy(buf, 12, ip.v4);
    } else {
      Copy(buf, 8, ip.v6[8..16]);
    }
  }

  /**
   * Builds the address in a zeroed 16-byte buffer: prefix, packed field,
   * reserved bytes, host suffix. The partial buffer the handler returns beside
   * an error is dropped, as the caller drops it.
   */
  method Scion2Ip(prefix: bv8, a: Addr) returns (r: Result<Bytes16, EncodeError>)
    requires a.host.HostIP?
    ensures r == Encode(prefix, a)
  {
    var buf := new bv8[16](_ => 0);
    var ip := Unmap(a.host.ip);
    buf[0] := prefix;

    var packed := PackIA(a.ia);
    if packed.Failure? {
      return Failure(packed.error);
    }
    var field := packed.value;
    PutUint32(buf, 1, field);
    PutHost(buf, ip);

    ghost var want := Layout(prefix, PutUint32BE(field), HostSuffix(ip));
    assert buf[..] == want by {
      forall k | 0 <= k < 16
        ensures buf[k] == want[k]
      {
      }
    }
    r := Success(buf[..]);
  }

  // The translation vectors of the handler's unit test, under prefix fc00::/8.

  /** An IPv6 host whose first byte is not zero is not IPv4-mapped: its suffix is its low half. */
  lemma UnmappedSuffix(ip: IP)
    requires ip.V6? && ip.v6[0] != 0
    ensures HostSuffix(Unmap(ip)) == ip.v6[8..]
  {
    assert ip.v6[..12][0] != MappedPrefix[0];
  }

  /** Assembles an expected encoding from its computed field bytes and host suffix. */
  lemma VectorFromParts(prefix: bv8, a: Addr, field: bv32, fieldBytes: Bytes4, suffix: Bytes8, expected: Bytes16)
    requires a.host.HostIP?
    requires PackIA(a.ia) == Success(field) && PutUint32BE(field) == fieldBytes
    requires HostSuffix(Unmap(a.host.ip)) == suffix
    requires expected == [prefix] + fieldBytes + [0, 0, 0] + suffix
    ensures Encode(prefix, a) == Success(expected)
  {
  }

  /** 1-0:0:fc02 packs to 0010fc02 (an AS number of the BGP range, bit 19 clear). */
  lemma PackSmallAsn()
    ensures PackIA(IA(1, 0xfc02)) == Success(0x0010_fc02)
    ensures PutUint32BE(0x0010_fc02) == [0x00, 0x10, 0xfc, 0x02]
  {
  }

  /** 64-2:0:9 packs to 04080009 (the public SCION range, bit 19 set). */
  lemma PackPublicAsn()
    ensures PackIA(IA(64, 0x2_0000_0009)) == Success(0x0408_0009)
    ensures PutUint32BE(0x0408_0009) == [0x04, 0x08, 0x00, 0x09]
  {
  }

  /** An IPv4 host leaves 00 00 ff ff and its four bytes as the suffix. */
  lemma V4Suffix(b: Bytes4)
    ensures HostSuffix(Unmap(V4(b))) == [0x00, 0x00, 0xff, 0xff, b[0], b[1], b[2], b[3]]
  {
  }

  /** 1-0:0:fc02,10.128.1.1 becomes fc00:10fc:200::ffff:a80:101. */
  lemma BgpCompatibleVector()
    ensures Encode(0xfc, Addr(IA(1, 0xfc02), HostIP(V4([10, 128, 1, 1]))))
         == Success([0xfc, 0x00, 0x10, 0xfc, 0x02, 0x00, 0x00, 0x00,
                     0x00, 0x00, 0xff, 0xff, 0x0a, 0x80, 0x01, 0x01])
  {
    PackSmallAsn();
    V4Suffix([10, 128, 1, 1]);
    VectorFromParts(0xfc, Addr(IA(1, 0xfc02), HostIP(V4([10, 128, 1, 1]))), 0x0010_fc02,
                    [0x00, 0x10, 0xfc, 0x02], [0x00, 0x00, 0xff, 0xff, 0x0a, 0x80, 0x01, 0x01],
                    [0xfc, 0x00, 0x10, 0xfc, 0x02, 0x00, 0x00, 0x00, 0x00, 0x00, 0xff, 0xff, 0x0a, 0x80, 0x01, 0x01]);
  }

  /** 64-2:0:9,10.0.0.0 becomes fc04:800:900::ffff:a00:0. */
  lemma PublicScionVector()
    ensures Encode(0xfc, Addr(IA(64, 0x2_0000_0009), HostIP(V4([10, 0, 0, 0]))))
         == Success([0xfc, 0x04, 0x08, 0x00, 0x09, 0x00, 0x00, 0x00,
                     0x00, 0x00, 0xff, 0xff, 0x0a, 0x00, 0x00, 0x00])
  {
    PackPublicAsn();
    V4Suffix([10, 0, 0, 0]);
    VectorFromParts(0xfc, Addr(IA(64, 0x2_0000_0009), HostIP(V4([10, 0, 0, 0]))), 0x0408_0009,
                    [0x04, 0x08, 0x00, 0x09], [0x00, 0x00, 0xff, 0xff, 0x0a, 0x00, 0x00, 0x00],
                    [0xfc, 0x04, 0x08, 0x00, 0x09, 0x00, 0x00, 0x00, 0x00, 0x00, 0xff, 0xff, 0x0a, 0x00, 0x00, 0x00]);
  }

  /** 1-0:0:fc02,fd00::1 becomes fc00:10fc:200::1. */
  lemma IPv6HostVector()
    ensures Encode(0xfc, Addr(IA(1, 0xfc02),
                              HostIP(V6([0xfd, 0, 0, 0, 0, 0, 0, 0, 0, 0, 0, 0, 0, 0, 0, 1]))))
         == Success([0xfc, 0x00, 0x10, 0xfc, 0x02, 0x00, 0x00, 0x00,
                     0x00, 0x00, 0x00, 0x00, 0x00, 0x00, 0x00, 0x01])
  {
    var host := V6([0xfd, 0, 0, 0, 0, 0, 0, 0, 0, 0, 0, 0, 0, 0, 0, 1]);
    PackSmallAsn();
    UnmappedSuffix(host);
    VectorFromParts(0xfc, Addr(IA(1, 0xfc02), HostIP(host)), 0x0010_fc02,
                    [0x00, 0x10, 0xfc, 0x02], [0x00, 0x00, 0x00, 0x00, 0x00, 0x00, 0x00, 0x01],
                    [0xfc, 0x00, 0x10, 0xfc, 0x02, 0x00, 0x00, 0x00, 0x00, 0x00, 0x00, 0x00, 0x00, 0x00, 0x00, 0x01]);
  }

  /** 4096-ff00:0:0,127.0.0.1 is refused: the ISD needs more than 12 bits. */
  lemma IsdTooLargeVector()
    ensures Encode(0xfc, Addr(IA(4096, 0xff00_0000_0000), HostIP(V4([127, 0, 0, 1]))))
         == Failure(ISDNotEncodable)
  {
  }

  /** 1-ff00:0:0,127.0.0.1 is refused: the AS number is in neither range. */
  lemma AsnTooLargeVector()
    ensures Encode(0xfc, Addr(IA(1, 0xff00_0000_0000), HostIP(V4([127, 0, 0, 1]))))
         == Failure(ASNNotEncodable)
  {
  }
}
