/** The operations of Go's `net.IP` used by netbootd; the empty sequence is the nil address. */
module Net {
  type byte = x: int | 0 <= x < 256

  type IP = seq<byte>

  const V4_IN_V6_PREFIX: seq<byte> := [0, 0, 0, 0, 0, 0, 0, 0, 0, 0, 0xff, 0xff]
  const IPV4_ZERO: IP := [0, 0, 0, 0]
  const IPV4_BCAST: IP := [255, 255, 255, 255]

  predicate IsValid(ip: IP) { |ip| == 4 || |ip| == 16 }

  function To16(ip: IP): (r: IP) {
    if |ip| == 4 then V4_IN_V6_PREFIX + ip
    else if |ip| == 16 then ip
    else []
  }

  function To4(ip: IP): (r: IP)
    ensures r == [] || |r| == 4
  {
    if |ip| == 4 then ip
    else if |ip| == 16 && ip[..12] == V4_IN_V6_PREFIX then ip[12..]
    else []
  }

  predicate IsIPv4(ip: IP) { To4(ip) != [] }

  /** `net.IP.Equal`: an IPv4 address and its IPv6 form are the same address. */
  predicate Equal(a: IP, b: IP) {
    if |a| == |b| then a == b
    else if |a| == 4 && |b| == 16 then b[..12] == V4_IN_V6_PREFIX && a == b[12..]
    else if |a| == 16 && |b| == 4 then a[..12] == V4_IN_V6_PREFIX && b == a[12..]
    else false
  }

  /** The store's index key for an address: `string(ip.To16())`. */
  function Key(ip: IP): (k: IP) { To16(ip) }

  /** The IPv6 form of a 4-byte address (section 2.5.5.2 of RFC 4291). */
  function Mapped(ip: IP): (r: IP) { [0, 0, 0, 0, 0, 0, 0, 0, 0, 0, 255, 255] + ip }

  /** Two addresses share a key exactly when they are the same address, or neither is an address. */
  lemma KeysMatchAddresses(a: IP, b: IP)
    ensures Key(a) == Key(b) <==>
            if IsValid(a) && IsValid(b) then Equal(a, b) else !IsValid(a) && !IsValid(b)
    ensures IsValid(a) && IsValid(b) ==> (Equal(a, b) <==> a == b || a == Mapped(b) || b == Mapped(a))
  {
    if |a| == 16 && |b| == 4 {
      assert a == a[..12] + a[12..];
      assert Key(b)[..12] == V4_IN_V6_PREFIX && Key(b)[12..] == b;
    } else if |a| == 4 && |b| == 16 {
      assert b == b[..12] + b[12..];
      assert Key(a)[..12] == V4_IN_V6_PREFIX && Key(a)[12..] == a;
    } else if |a| == 4 && |b| == 4 {
      assert Key(a)[12..] == a && Key(b)[12..] == b;
    }
  }

  /** The four octets put on the wire for an IPv4 address carry the same key as the address. */
  lemma WireFormKeepsKey(ip: IP)
    requires IsIPv4(ip)
    ensures Key(To4(ip)) == Key(ip)
  {
    if |ip| == 16 {
      assert ip == ip[..12] + ip[12..];
    }
  }

  predicate IsUnspecified(ip: IP) {
    Equal(ip, IPV4_ZERO) || (|ip| == 16 && forall i :: 0 <= i < 16 ==> ip[i] == 0)
  }

  predicate IsLinkLocalUnicast(ip: IP) {
    var v4 := To4(ip);
    if v4 != [] then v4[0] == 169 && v4[1] == 254
    else |ip| == 16 && ip[0] == 0xfe && ip[1] / 64 == 2
  }
}
