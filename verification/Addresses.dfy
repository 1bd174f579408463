/** IP addresses as Go's net package represents them: four or sixteen bytes. */
module Addresses {
  import opened Base

  /** An IP address as bytes; only lengths 4 and 16 are addresses. */
  type Ip = Bytes

  const V4_PREFIX: Bytes := [0, 0, 0, 0, 0, 0, 0, 0, 0, 0, 0xff, 0xff]

  /** The sixteen-byte form, or nothing. */
  function Key16(ip: Ip): Bytes {
    if |ip| == 4 then V4_PREFIX + ip else if |ip| == 16 then ip else []
  }

  /** The same address, possibly once in four-byte and once in sixteen-byte form. */
  predicate SameAddress(a: Ip, b: Ip) {
    || (|a| == |b| && |a| in {4, 16} && a == b)
    || (|a| == 4 && |b| == 16 && b[..12] == V4_PREFIX && b[12..] == a)
    || (|a| == 16 && |b| == 4 && a[..12] == V4_PREFIX && a[12..] == b)
  }

  lemma SameKeyIffSameAddress(a: Ip, b: Ip)
    ensures Key16(a) == Key16(b) && Key16(a) != [] <==> SameAddress(a, b)
  {
    if |a| == 4 {
      assert Key16(a)[..12] == V4_PREFIX && Key16(a)[12..] == a;
    }
    if |b| == 4 {
      assert Key16(b)[..12] == V4_PREFIX && Key16(b)[12..] == b;
    }
    if |a| == 16 {
      assert a == a[..12] + a[12..];
    }
    if |b| == 16 {
      assert b == b[..12] + b[12..];
    }
  }

  /** Whether To4 succeeds: a four-byte address or a mapped sixteen-byte one. */
  predicate IsV4(ip: Ip) {
    |ip| == 4 || (|ip| == 16 && ip[..12] == V4_PREFIX)
  }

  /** To4 succeeds exactly for what is the same as some four-byte address. */
  lemma IsV4Iff(ip: Ip)
    ensures IsV4(ip) <==> exists a: Ip :: |a| == 4 && SameAddress(a, ip)
  {
    if |ip| == 4 {
      assert SameAddress(ip, ip);
    } else if |ip| == 16 && ip[..12] == V4_PREFIX {
      assert SameAddress(ip[12..], ip);
    }
  }

  /** The prefix of section 2.5.5.2 of RFC 4291. */
  lemma MappedPrefix(a: byte, b: byte, c: byte, d: byte)
    ensures Key16([a, b, c, d]) == [0, 0, 0, 0, 0, 0, 0, 0, 0, 0, 0xff, 0xff, a, b, c, d]
  {
  }
}
